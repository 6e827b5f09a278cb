/** The dataframe model shared by the cleaning and merging stages.

    A table is its list of column names plus its rows; each row holds one
    cell per column, by position, so a rename (which pandas allows to produce
    duplicate names) never touches the rows.  `Null` stands for pandas' NaN /
    <NA>, `Int` for an Int64 value, `Num` for a float, `Str` for text. */
module Tables {
  import opened Wrappers

  datatype Cell = Null | Int(i: int) | Num(r: real) | Str(s: string)

  type Row = seq<Cell>

  datatype Table = Table(cols: seq<string>, rows: seq<Row>)

  /** Every row has exactly one cell per column. */
  predicate WellFormed(t: Table) {
    forall i :: 0 <= i < |t.rows| ==> |t.rows[i]| == |t.cols|
  }

  predicate Distinct<T(==)>(s: seq<T>) {
    forall i, j :: 0 <= i < j < |s| ==> s[i] != s[j]
  }

  /** Selecting `c` in pandas yields a single column (not a sub-frame). */
  predicate AtMostOnce(cols: seq<string>, c: string) {
    forall i, j :: 0 <= i < j < |cols| && cols[i] == c ==> cols[j] != c
  }

  /** The position of the first column named `c`. */
  function IndexOf(cols: seq<string>, c: string): (k: nat)
    requires c in cols
    ensures k < |cols| && cols[k] == c
    ensures forall j :: 0 <= j < k ==> cols[j] != c
  {
    if cols[0] == c then 0 else 1 + IndexOf(cols[1..], c)
  }

  /** The cell of `row` in column `c`. */
  function Get(cols: seq<string>, row: Row, c: string): Cell
    requires c in cols && |row| == |cols|
  {
    row[IndexOf(cols, c)]
  }

  /** With distinct names, the column named `cols[k]` is column `k`. */
  lemma IndexOfDistinct(cols: seq<string>, k: nat)
    requires Distinct(cols) && k < |cols|
    ensures IndexOf(cols, cols[k]) == k
  {
  }

  /** Appending names after a column does not move it. */
  lemma IndexOfPrefix(a: seq<string>, b: seq<string>, c: string)
    requires c in a && |a| <= |b| && b[..|a|] == a
    ensures c in b && IndexOf(b, c) == IndexOf(a, c)
  {
    assert b[IndexOf(a, c)] == c;
  }

  /** pandas `rename(columns=m)`: names that are keys of `m` are replaced,
      every other name is kept. */
  function Renamed(m: map<string, string>, c: string): string {
    if c in m then m[c] else c
  }

  function RenameColumns(t: Table, m: map<string, string>): (r: Table)
    ensures r.rows == t.rows
    ensures |r.cols| == |t.cols|
    ensures forall k :: 0 <= k < |t.cols| ==> r.cols[k] == Renamed(m, t.cols[k])
    ensures WellFormed(t) ==> WellFormed(r)
  {
    Table(seq(|t.cols|, k requires 0 <= k < |t.cols| => Renamed(m, t.cols[k])), t.rows)
  }

  /** The elements of `s` satisfying `p`, in their original order (pandas
      boolean-mask selection). */
  function Filter<T>(s: seq<T>, p: T -> bool): (r: seq<T>)
    ensures |r| <= |s|
    ensures forall i :: 0 <= i < |r| ==> r[i] in s && p(r[i])
    ensures forall i :: 0 <= i < |s| && p(s[i]) ==> s[i] in r
    ensures multiset(r) <= multiset(s)
  {
    if |s| == 0 then []
    else
      assert s == [s[0]] + s[1..];
      if p(s[0]) then [s[0]] + Filter(s[1..], p) else Filter(s[1..], p)
  }

  /** Filtering distributes over concatenation, so it keeps the relative
      order of the surviving elements. */
  lemma {:induction false} FilterConcat<T>(a: seq<T>, b: seq<T>, p: T -> bool)
    ensures Filter(a + b, p) == Filter(a, p) + Filter(b, p)
  {
    if |a| > 0 {
      assert (a + b)[1..] == a[1..] + b;
      FilterConcat(a[1..], b, p);
    } else {
      assert a + b == b;
    }
  }

  /** Two successive filters keep exactly what one filter by their
      conjunction keeps. */
  lemma {:induction false} FilterFilter<T>(s: seq<T>, p: T -> bool, q: T -> bool, both: T -> bool)
    requires forall i :: 0 <= i < |s| ==> (both(s[i]) <==> p(s[i]) && q(s[i]))
    ensures Filter(Filter(s, p), q) == Filter(s, both)
  {
    if |s| > 0 {
      assert forall i :: 0 <= i < |s[1..]| ==> s[1..][i] == s[i + 1];
      FilterFilter(s[1..], p, q, both);
      if p(s[0]) {
        assert Filter(s, p) == [s[0]] + Filter(s[1..], p);
        assert Filter(s, p)[1..] == Filter(s[1..], p);
      }
    }
  }

  /** A filter that rejects nothing is the identity. */
  lemma {:induction false} FilterAll<T>(s: seq<T>, p: T -> bool)
    requires forall i :: 0 <= i < |s| ==> p(s[i])
    ensures Filter(s, p) == s
  {
    if |s| > 0 {
      FilterAll(s[1..], p);
    }
  }

  /** A filter keeps the head if it passes, then filters the rest. */
  lemma FilterFirst<T>(s: seq<T>, p: T -> bool)
    requires |s| > 0
    ensures Filter(s, p) == (if p(s[0]) then [s[0]] else []) + Filter(s[1..], p)
  {
  }

  /** A filter of a sequence with a new head: the head if it passes, then
      the filter of the rest. */
  lemma FilterCons<T>(x: T, s: seq<T>, p: T -> bool)
    ensures Filter([x] + s, p) == (if p(x) then [x] else []) + Filter(s, p)
  {
    assert ([x] + s)[1..] == s;
  }

  /** Filtering two equally long sequences whose elements correspond, and
      which the filter treats alike, keeps corresponding elements. */
  lemma {:induction false} FilterPairs<T>(xs: seq<T>, ys: seq<T>, p: T -> bool, rel: (T, T) -> bool)
    requires |xs| == |ys|
    requires forall i :: 0 <= i < |xs| ==> rel(xs[i], ys[i]) && (p(xs[i]) <==> p(ys[i]))
    ensures |Filter(xs, p)| == |Filter(ys, p)|
    ensures forall i :: 0 <= i < |Filter(xs, p)| ==> rel(Filter(xs, p)[i], Filter(ys, p)[i])
  {
    if |xs| > 0 {
      assert forall i :: 0 <= i < |xs[1..]| ==> xs[1..][i] == xs[i + 1] && ys[1..][i] == ys[i + 1];
      FilterPairs(xs[1..], ys[1..], p, rel);
      FilterPairsStep(xs, ys, p, rel);
    }
  }

  /** The inductive step of `FilterPairs`: a corresponding pair in front. */
  lemma FilterPairsStep<T>(xs: seq<T>, ys: seq<T>, p: T -> bool, rel: (T, T) -> bool)
    requires |xs| > 0 && |ys| > 0
    requires rel(xs[0], ys[0]) && (p(xs[0]) <==> p(ys[0]))
    requires |Filter(xs[1..], p)| == |Filter(ys[1..], p)|
    requires forall i :: 0 <= i < |Filter(xs[1..], p)| ==> rel(Filter(xs[1..], p)[i], Filter(ys[1..], p)[i])
    ensures |Filter(xs, p)| == |Filter(ys, p)|
    ensures forall i :: 0 <= i < |Filter(xs, p)| ==> rel(Filter(xs, p)[i], Filter(ys, p)[i])
  {
    if p(xs[0]) {
      assert Filter(xs, p) == [xs[0]] + Filter(xs[1..], p);
      assert Filter(ys, p) == [ys[0]] + Filter(ys[1..], p);
      ConsPairs(xs[0], ys[0], Filter(xs[1..], p), Filter(ys[1..], p), rel);
    }
  }

  lemma ConsPairs<T>(x: T, y: T, xs: seq<T>, ys: seq<T>, rel: (T, T) -> bool)
    requires rel(x, y) && |xs| == |ys|
    requires forall i :: 0 <= i < |xs| ==> rel(xs[i], ys[i])
    ensures forall i :: 0 <= i < |xs| + 1 ==> rel(([x] + xs)[i], ([y] + ys)[i])
  {
    assert forall i :: 0 < i < |xs| + 1 ==> ([x] + xs)[i] == xs[i - 1] && ([y] + ys)[i] == ys[i - 1];
  }


  /** The number of elements a filter keeps. */
  function CountIf<T>(s: seq<T>, p: T -> bool): (n: nat)
    ensures n <= |s|
  {
    if |s| == 0 then 0 else (if p(s[0]) then 1 else 0) + CountIf(s[1..], p)
  }

  lemma {:induction false} FilterLength<T>(s: seq<T>, p: T -> bool)
    ensures |Filter(s, p)| == CountIf(s, p)
  {
    if |s| > 0 {
      FilterLength(s[1..], p);
    }
  }

  /** Keeping the rows whose cells satisfy a predicate keeps the table well formed. */
  lemma FilterWellFormed(t: Table, p: Row -> bool)
    requires WellFormed(t)
    ensures WellFormed(Table(t.cols, Filter(t.rows, p)))
  {
    var r := Filter(t.rows, p);
    forall i | 0 <= i < |r|
      ensures |r[i]| == |t.cols|
    {
      assert r[i] in r;
    }
  }

  /** The numeric value pandas' `to_numeric(errors="coerce")` sees in a cell;
      text that did not parse upstream counts as NaN. */
  function NumericValue(c: Cell): (v: Option<real>)
    ensures v.Some? <==> c.Int? || c.Num?
  {
    match c
    case Int(i) => Some(i as real)
    case Num(r) => Some(r)
    case _ => None
  }

  /** The integer year of a cell; an Int64 <NA> (or anything that is not an
      integer) has none. */
  function YearOf(c: Cell): (y: Option<int>)
    ensures y.Some? <==> c.Int?
  {
    match c
    case Int(i) => Some(i)
    case _ => None
  }
}
