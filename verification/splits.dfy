/** `infer_year_bounds` and `time_splits` (src/preprocess.py): the
    data-driven train / validation / test partition of the panel by year. */
module Splits {
  import opened Wrappers
  import opened Tables

  /** The column the splits are built for. */
  const Target := "diabetes_prevalence"

  datatype Bounds = Bounds(lo: int, hi: int)

  datatype Split = Split(train: seq<Row>, val: seq<Row>, test: seq<Row>)

  datatype SplitError = MissingColumn(name: string)

  function Min(a: int, b: int): int { if a <= b then a else b }
  function Max(a: int, b: int): int { if a >= b then a else b }

  /** The integer year of a row; a row too short for `yi` has none. */
  function YearAt(r: Row, yi: nat): Option<int> {
    if yi < |r| then YearOf(r[yi]) else None
  }

  /** `dropna(subset=[target])` keeps the rows whose target is not null. */
  function HasTarget(ti: nat): Row -> bool {
    r => ti < |r| && r[ti] != Null
  }

  /** `dropna(subset=["year"])` keeps the rows with a year. */
  function HasYear(yi: nat): Row -> bool {
    r => YearAt(r, yi).Some?
  }

  /** `year.between(lo, hi)`: NaN years compare false. */
  function YearIn(yi: nat, lo: int, hi: int): Row -> bool {
    r => YearAt(r, yi).Some? && lo <= YearAt(r, yi).value <= hi
  }

  /** `infer_year_bounds`: the least and greatest non-null year, or None
      when there is none (pandas then yields NaN bounds). */
  function YearBounds(rows: seq<Row>, yi: nat): (b: Option<Bounds>)
    ensures b.None? <==> forall i :: 0 <= i < |rows| ==> YearAt(rows[i], yi).None?
    ensures b.Some? ==> b.value.lo <= b.value.hi
    ensures b.Some? ==> forall i :: 0 <= i < |rows| && YearAt(rows[i], yi).Some? ==>
                          b.value.lo <= YearAt(rows[i], yi).value <= b.value.hi
    ensures b.Some? ==> exists i :: 0 <= i < |rows| && YearAt(rows[i], yi) == Some(b.value.lo)
    ensures b.Some? ==> exists i :: 0 <= i < |rows| && YearAt(rows[i], yi) == Some(b.value.hi)
  {
    if |rows| == 0 then None
    else
      var rest := YearBounds(rows[1..], yi);
      assert forall i :: 1 <= i < |rows| ==> rows[i] == rows[1..][i - 1];
      match YearAt(rows[0], yi)
      case None => rest
      case Some(y) =>
        match rest
        case None => Some(Bounds(y, y))
        case Some(b) => Some(Bounds(Min(y, b.lo), Max(y, b.hi)))
  }

  /** The year test and validation use: `val_year = max(y_min, y_max - 1)`. */
  function ValYear(b: Bounds): int {
    Max(b.lo, b.hi - 1)
  }

  /** `time_splits` on the rows, with the year and target columns at `yi`
      and `ti`. */
  function SplitRows(rows: seq<Row>, yi: nat, ti: nat): (s: Split)
    ensures forall r :: r in s.train || r in s.val || r in s.test ==> r in rows && HasTarget(ti)(r)
    ensures forall r :: r in s.train || r in s.val || r in s.test ==> YearAt(r, yi).Some?
  {
    var keep := Filter(rows, HasTarget(ti));
    match YearBounds(keep, yi)
    case None => Split([], [], [])
    case Some(b) => SplitBy(keep, yi, b)
  }

  /** The three year filters, once the bounds of the target-bearing rows
      are known. */
  function SplitBy(keep: seq<Row>, yi: nat, b: Bounds): (s: Split)
    ensures forall r :: r in s.train || r in s.val || r in s.test ==> r in keep && YearAt(r, yi).Some?
  {
    var v := ValYear(b);
    Split(Filter(keep, YearIn(yi, b.lo, Max(b.lo, v - 1))),
          Filter(keep, YearIn(yi, v, v)),
          Filter(keep, YearIn(yi, b.hi, b.hi)))
  }

  /** `time_splits(panel, target)`.  The caller checks that the target
      column exists; a panel without "year" raises KeyError.  Panels come
      from the merge, whose column names are distinct. */
  function TimeSplits(t: Table, target: string): (r: Result<Split, SplitError>)
    requires WellFormed(t) && Distinct(t.cols) && target in t.cols
    ensures r.Err? <==> "year" !in t.cols
    ensures r.Ok? ==> forall row :: row in r.value.train || row in r.value.val || row in r.value.test ==>
                        row in t.rows && Get(t.cols, row, target) != Null
    ensures r.Ok? ==> forall row :: row in r.value.train || row in r.value.val || row in r.value.test ==>
                        Get(t.cols, row, "year").Int?
  {
    if "year" !in t.cols then Err(MissingColumn("year"))
    else
      var s := SplitRows(t.rows, IndexOf(t.cols, "year"), IndexOf(t.cols, target));
      assert forall row :: row in t.rows ==> |row| == |t.cols|;
      Ok(s)
  }

  /** Rows of the target-bearing part with a year. */
  function Dated(rows: seq<Row>, yi: nat, ti: nat): seq<Row> {
    Filter(Filter(rows, HasTarget(ti)), HasYear(yi))
  }

  /** Three exclusive predicates that together mean `p` split `Filter(s, p)`
      into three parts, with multiplicity. */
  lemma {:induction false} FilterPartition<T>(s: seq<T>, p: T -> bool, a: T -> bool, b: T -> bool, c: T -> bool)
    requires forall x :: p(x) <==> a(x) || b(x) || c(x)
    requires forall x :: !(a(x) && b(x)) && !(a(x) && c(x)) && !(b(x) && c(x))
    ensures multiset(Filter(s, a)) + multiset(Filter(s, b)) + multiset(Filter(s, c)) == multiset(Filter(s, p))
  {
    if |s| > 0 {
      FilterPartition(s[1..], p, a, b, c);
      FilterHead(s, a);
      FilterHead(s, b);
      FilterHead(s, c);
      FilterHead(s, p);
    }
  }

  /** The multiset a filter keeps: the head if it passes, then the tail's. */
  lemma FilterHead<T>(s: seq<T>, p: T -> bool)
    requires |s| > 0
    ensures multiset(Filter(s, p)) == (if p(s[0]) then multiset{s[0]} else multiset{}) + multiset(Filter(s[1..], p))
  {
  }

  /** With at least three years of data the splits are ordered by year:
      training years lie below the validation year, which lies below the
      test year, so no row is in two splits. */
  lemma WideSpanOrdered(rows: seq<Row>, yi: nat, ti: nat, b: Bounds)
    requires YearBounds(Filter(rows, HasTarget(ti)), yi) == Some(b) && b.hi - b.lo >= 2
    ensures var s := SplitRows(rows, yi, ti);
            && (forall r :: r in s.train ==> b.lo <= YearAt(r, yi).value < b.hi - 1)
            && (forall r :: r in s.val ==> YearAt(r, yi).value == b.hi - 1)
            && (forall r :: r in s.test ==> YearAt(r, yi).value == b.hi)
  {
    var keep := Filter(rows, HasTarget(ti));
    assert ValYear(b) == b.hi - 1 && Max(b.lo, b.hi - 2) == b.hi - 2;
    assert SplitRows(rows, yi, ti) == SplitBy(keep, yi, b);
    YearsWithin(keep, yi, b.lo, b.hi - 2);
    YearsWithin(keep, yi, b.hi - 1, b.hi - 1);
    YearsWithin(keep, yi, b.hi, b.hi);
  }

  /** The rows a year filter keeps have a year in its range. */
  lemma YearsWithin(keep: seq<Row>, yi: nat, lo: int, hi: int)
    ensures forall r :: r in Filter(keep, YearIn(yi, lo, hi)) ==> lo <= YearAt(r, yi).value <= hi
  {
    var f := Filter(keep, YearIn(yi, lo, hi));
    forall r | r in f
      ensures lo <= YearAt(r, yi).value <= hi
    {
      var i :| 0 <= i < |f| && f[i] == r;
      assert YearIn(yi, lo, hi)(f[i]);
    }
  }

  /** With at least three years of data the splits together hold every
      dated target-bearing row exactly once. */
  lemma WideSpanCovers(rows: seq<Row>, yi: nat, ti: nat, b: Bounds)
    requires YearBounds(Filter(rows, HasTarget(ti)), yi) == Some(b) && b.hi - b.lo >= 2
    ensures var s := SplitRows(rows, yi, ti);
            multiset(s.train) + multiset(s.val) + multiset(s.test) == multiset(Dated(rows, yi, ti))
  {
    var keep := Filter(rows, HasTarget(ti));
    assert ValYear(b) == b.hi - 1 && Max(b.lo, b.hi - 2) == b.hi - 2;
    assert SplitRows(rows, yi, ti) == SplitBy(keep, yi, b);
    KeepCovered(keep, yi, b);
  }

  lemma KeepCovered(keep: seq<Row>, yi: nat, b: Bounds)
    requires YearBounds(keep, yi) == Some(b) && b.hi - b.lo >= 2
    ensures multiset(Filter(keep, YearIn(yi, b.lo, b.hi - 2))) + multiset(Filter(keep, YearIn(yi, b.hi - 1, b.hi - 1)))
            + multiset(Filter(keep, YearIn(yi, b.hi, b.hi))) == multiset(Filter(keep, HasYear(yi)))
  {
    DatedInBounds(keep, yi, b);
    YearRangesPartition(yi, b);
    FilterPartition(keep, YearIn(yi, b.lo, b.hi), YearIn(yi, b.lo, b.hi - 2), YearIn(yi, b.hi - 1, b.hi - 1),
                    YearIn(yi, b.hi, b.hi));
  }

  /** For at least three years, [lo, hi] is [lo, hi-2], hi-1 and hi, disjointly. */
  lemma YearRangesPartition(yi: nat, b: Bounds)
    requires b.hi - b.lo >= 2
    ensures var all, a, v, t := YearIn(yi, b.lo, b.hi), YearIn(yi, b.lo, b.hi - 2),
                                YearIn(yi, b.hi - 1, b.hi - 1), YearIn(yi, b.hi, b.hi);
            && (forall x :: all(x) <==> a(x) || v(x) || t(x))
            && (forall x :: !(a(x) && v(x)) && !(a(x) && t(x)) && !(v(x) && t(x)))
  {
  }

  /** Within the bounds of `keep`, "has a year" and "has a year in the
      bounds" select the same rows. */
  lemma DatedInBounds(keep: seq<Row>, yi: nat, b: Bounds)
    requires YearBounds(keep, yi) == Some(b)
    ensures Filter(keep, HasYear(yi)) == Filter(keep, YearIn(yi, b.lo, b.hi))
  {
    forall i | 0 <= i < |keep|
      ensures HasYear(yi)(keep[i]) == YearIn(yi, b.lo, b.hi)(keep[i])
    {
    }
    FilterRestrict(keep, HasYear(yi), YearIn(yi, b.lo, b.hi));
  }

  /** A filter may be swapped for one that agrees on the elements present. */
  lemma {:induction false} FilterRestrict<T>(s: seq<T>, p: T -> bool, q: T -> bool)
    requires forall i :: 0 <= i < |s| ==> p(s[i]) == q(s[i])
    ensures Filter(s, p) == Filter(s, q)
  {
    if |s| > 0 {
      FilterRestrict(s[1..], p, q);
    }
  }

  /** With two years of data, training and validation are the same rows,
      both holding the earlier year; validation and test together hold
      every dated target-bearing row exactly once. */
  lemma TwoYears(rows: seq<Row>, yi: nat, ti: nat, b: Bounds)
    requires YearBounds(Filter(rows, HasTarget(ti)), yi) == Some(b) && b.hi - b.lo == 1
    ensures var s := SplitRows(rows, yi, ti);
            && s.train == s.val
            && (forall r :: r in s.val ==> YearAt(r, yi).value == b.lo)
            && (forall r :: r in s.test ==> YearAt(r, yi).value == b.hi)
            && multiset(s.val) + multiset(s.test) == multiset(Dated(rows, yi, ti))
  {
    var keep := Filter(rows, HasTarget(ti));
    assert ValYear(b) == b.lo && Max(b.lo, b.lo - 1) == b.lo;
    assert SplitRows(rows, yi, ti) == SplitBy(keep, yi, b);
    YearsWithin(keep, yi, b.lo, b.lo);
    YearsWithin(keep, yi, b.hi, b.hi);
    TwoYearsCovered(keep, yi, b);
  }

  lemma TwoYearsCovered(keep: seq<Row>, yi: nat, b: Bounds)
    requires YearBounds(keep, yi) == Some(b) && b.hi - b.lo == 1
    ensures multiset(Filter(keep, YearIn(yi, b.lo, b.lo))) + multiset(Filter(keep, YearIn(yi, b.hi, b.hi)))
            == multiset(Filter(keep, HasYear(yi)))
  {
    DatedInBounds(keep, yi, b);
    FilterPartition(keep, YearIn(yi, b.lo, b.hi), YearIn(yi, b.lo, b.lo), YearIn(yi, b.hi, b.hi), Never());
    FilterNone(keep, Never());
  }

  /** The filter that keeps nothing. */
  function Never(): Row -> bool {
    r => false
  }

  /** With a single year of data, all three splits are the same rows. */
  lemma OneYear(rows: seq<Row>, yi: nat, ti: nat, b: Bounds)
    requires YearBounds(Filter(rows, HasTarget(ti)), yi) == Some(b) && b.hi == b.lo
    ensures var s := SplitRows(rows, yi, ti);
            s.train == s.val == s.test == Dated(rows, yi, ti)
  {
    var keep := Filter(rows, HasTarget(ti));
    assert ValYear(b) == b.lo && Max(b.lo, b.lo - 1) == b.lo;
    assert SplitRows(rows, yi, ti) == SplitBy(keep, yi, b);
    DatedInBounds(keep, yi, b);
  }

  /** With no dated target-bearing row, all splits are empty. */
  lemma NoYears(rows: seq<Row>, yi: nat, ti: nat)
    requires YearBounds(Filter(rows, HasTarget(ti)), yi).None?
    ensures SplitRows(rows, yi, ti) == Split([], [], [])
    ensures Dated(rows, yi, ti) == []
  {
    var keep := Filter(rows, HasTarget(ti));
    FilterRestrict(keep, HasYear(yi), r => false);
    FilterNone(keep, r => false);
  }

  lemma {:induction false} FilterNone<T>(s: seq<T>, p: T -> bool)
    requires forall x :: !p(x)
    ensures Filter(s, p) == []
  {
    if |s| > 0 {
      FilterNone(s[1..], p);
    }
  }
}
