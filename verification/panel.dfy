/** The driver of src/preprocess.py (`main`): merge the interim tables,
    drop rows without a FIPS code, sort by (year, state_fips), split by
    year and separate features from the target. */
module Panel {
  import opened Wrappers
  import opened Tables
  import Merge
  import Splits

  /** The order of one sort key under `sort_values`: NaN (None) sorts last. */
  predicate OptLe(a: Option<real>, b: Option<real>) {
    b.None? || (a.Some? && a.value <= b.value)
  }

  datatype SortKey = SortKey(year: Option<real>, fips: Option<real>)

  /** The cell at position `k`, Null past the end of the row. */
  function CellAt(r: Row, k: nat): Cell {
    if k < |r| then r[k] else Null
  }

  /** The numeric value of a sort column; text counts as NaN. */
  function KeyOf(r: Row, yi: nat, fi: nat): SortKey {
    SortKey(NumericValue(CellAt(r, yi)), NumericValue(CellAt(r, fi)))
  }

  /** Lexicographic order on (year, state_fips). */
  predicate KeyLe(a: SortKey, b: SortKey) {
    if a.year == b.year then OptLe(a.fips, b.fips) else OptLe(a.year, b.year)
  }

  lemma KeyLeTotal(a: SortKey, b: SortKey)
    ensures KeyLe(a, b) || KeyLe(b, a)
  {
  }

  lemma KeyLeTransitive(a: SortKey, b: SortKey, c: SortKey)
    requires KeyLe(a, b) && KeyLe(b, c)
    ensures KeyLe(a, c)
  {
  }

  predicate Sorted(s: seq<Row>, yi: nat, fi: nat) {
    forall i, j :: 0 <= i < j < |s| ==> KeyLe(KeyOf(s[i], yi, fi), KeyOf(s[j], yi, fi))
  }

  /** `x` placed before the first row of `s` that does not sort strictly
      before it. */
  function Insert(x: Row, s: seq<Row>, yi: nat, fi: nat): (r: seq<Row>)
    requires Sorted(s, yi, fi)
    ensures Sorted(r, yi, fi)
    ensures multiset(r) == multiset(s) + multiset{x}
  {
    if |s| == 0 then [x]
    else if KeyLe(KeyOf(x, yi, fi), KeyOf(s[0], yi, fi)) then
      InsertFront(x, s, yi, fi);
      [x] + s
    else
      KeyLeTotal(KeyOf(s[0], yi, fi), KeyOf(x, yi, fi));
      var rest := Insert(x, s[1..], yi, fi);
      assert s == [s[0]] + s[1..];
      InsertBehind(s[0], x, s[1..], rest, yi, fi);
      [s[0]] + rest
  }

  lemma InsertFront(x: Row, s: seq<Row>, yi: nat, fi: nat)
    requires Sorted(s, yi, fi) && |s| > 0 && KeyLe(KeyOf(x, yi, fi), KeyOf(s[0], yi, fi))
    ensures Sorted([x] + s, yi, fi)
  {
    forall j | 0 < j < |s|
      ensures KeyLe(KeyOf(x, yi, fi), KeyOf(s[j], yi, fi))
    {
      KeyLeTransitive(KeyOf(x, yi, fi), KeyOf(s[0], yi, fi), KeyOf(s[j], yi, fi));
    }
  }

  lemma InsertBehind(h: Row, x: Row, tail: seq<Row>, rest: seq<Row>, yi: nat, fi: nat)
    requires Sorted([h] + tail, yi, fi) && Sorted(rest, yi, fi)
    requires KeyLe(KeyOf(h, yi, fi), KeyOf(x, yi, fi))
    requires multiset(rest) == multiset(tail) + multiset{x}
    ensures Sorted([h] + rest, yi, fi)
  {
    forall j | 0 <= j < |rest|
      ensures KeyLe(KeyOf(h, yi, fi), KeyOf(rest[j], yi, fi))
    {
      assert rest[j] in multiset(rest);
      if rest[j] != x {
        assert rest[j] in multiset(tail);
        var k :| 0 <= k < |tail| && tail[k] == rest[j];
        var s := [h] + tail;
        assert s[0] == h && s[k + 1] == rest[j];
        assert KeyLe(KeyOf(s[0], yi, fi), KeyOf(s[k + 1], yi, fi));
      }
    }
  }

  /** `sort_values(["year", "state_fips"])`, as an insertion sort. */
  function SortRows(s: seq<Row>, yi: nat, fi: nat): (r: seq<Row>)
    ensures Sorted(r, yi, fi)
    ensures multiset(r) == multiset(s)
  {
    if |s| == 0 then []
    else
      assert s == [s[0]] + s[1..];
      Insert(s[0], SortRows(s[1..], yi, fi), yi, fi)
  }

  /** The rows whose sort key is `k`. */
  function SameKey(k: SortKey, yi: nat, fi: nat): Row -> bool {
    r => KeyOf(r, yi, fi) == k
  }

  /** Inserting `x` keeps every row of equal key behind it, so among the
      rows of one key the order is the old one, with `x` first. */
  lemma {:induction false} InsertStable(x: Row, s: seq<Row>, yi: nat, fi: nat, k: SortKey)
    requires Sorted(s, yi, fi)
    ensures Filter(Insert(x, s, yi, fi), SameKey(k, yi, fi)) ==
            (if KeyOf(x, yi, fi) == k then [x] else []) + Filter(s, SameKey(k, yi, fi))
  {
    var same := SameKey(k, yi, fi);
    if |s| == 0 {
      FilterCons(x, s, same);
    } else if KeyLe(KeyOf(x, yi, fi), KeyOf(s[0], yi, fi)) {
      FilterCons(x, s, same);
    } else {
      var rest := Insert(x, s[1..], yi, fi);
      assert Insert(x, s, yi, fi) == [s[0]] + rest;
      InsertStable(x, s[1..], yi, fi, k);
      assert s == [s[0]] + s[1..];
      StableBehind(x, s[0], s[1..], rest, yi, fi, k);
    }
  }

  /** A row sorting strictly before `x` has a different key, so putting it
      in front changes nothing about where `x` goes among its key. */
  lemma StableBehind(x: Row, h: Row, tail: seq<Row>, rest: seq<Row>, yi: nat, fi: nat, k: SortKey)
    requires !KeyLe(KeyOf(x, yi, fi), KeyOf(h, yi, fi))
    requires Filter(rest, SameKey(k, yi, fi)) ==
             (if KeyOf(x, yi, fi) == k then [x] else []) + Filter(tail, SameKey(k, yi, fi))
    ensures Filter([h] + rest, SameKey(k, yi, fi)) ==
            (if KeyOf(x, yi, fi) == k then [x] else []) + Filter([h] + tail, SameKey(k, yi, fi))
  {
    FilterCons(h, rest, SameKey(k, yi, fi));
    FilterCons(h, tail, SameKey(k, yi, fi));
    KeyLeReflexive(KeyOf(x, yi, fi));
  }

  lemma KeyLeReflexive(a: SortKey)
    ensures KeyLe(a, a)
  {
  }

  /** The sort is stable: the rows of any one (year, state_fips) key keep
      their input order. */
  lemma {:induction false} SortRowsStable(s: seq<Row>, yi: nat, fi: nat, k: SortKey)
    ensures Filter(SortRows(s, yi, fi), SameKey(k, yi, fi)) == Filter(s, SameKey(k, yi, fi))
  {
    if |s| > 0 {
      assert s == [s[0]] + s[1..];
      SortRowsStable(s[1..], yi, fi, k);
      InsertStable(s[0], SortRows(s[1..], yi, fi), yi, fi, k);
    }
  }

  /** `panel["state_fips"].notna()`. */
  function HasFips(fi: nat): Row -> bool {
    r => CellAt(r, fi) != Null
  }

  datatype PanelError = MergeFailed(cause: Merge.MergeError) | MissingColumn(name: string)

  /** Lines 83-85 of `main`: drop rows without a FIPS code, then sort.
      `sort_values` raises KeyError when "year" or "state_fips" is absent. */
  function BuildPanel(t: Table): (r: Result<Table, PanelError>)
    requires WellFormed(t) && Distinct(t.cols)
    ensures r.Err? <==> "year" !in t.cols || "state_fips" !in t.cols
    ensures r.Ok? ==> WellFormed(r.value) && r.value.cols == t.cols
    ensures r.Ok? ==> forall row :: row in r.value.rows ==> Get(t.cols, row, "state_fips") != Null
    ensures r.Ok? ==> Sorted(r.value.rows, IndexOf(t.cols, "year"), IndexOf(t.cols, "state_fips"))
    ensures r.Ok? ==> multiset(r.value.rows) ==
                      multiset(Filter(t.rows, HasFips(IndexOf(t.cols, "state_fips"))))
  {
    if "state_fips" !in t.cols then Err(MissingColumn("state_fips"))
    else if "year" !in t.cols then Err(MissingColumn("year"))
    else
      var yi, fi := IndexOf(t.cols, "year"), IndexOf(t.cols, "state_fips");
      var kept := Filter(t.rows, HasFips(fi));
      var sorted := SortRows(kept, yi, fi);
      PermutedWellFormed(t, kept, sorted);
      Ok(Table(t.cols, sorted))
  }

  lemma PermutedWellFormed(t: Table, kept: seq<Row>, sorted: seq<Row>)
    requires WellFormed(t) && multiset(kept) <= multiset(t.rows) && multiset(sorted) == multiset(kept)
    ensures WellFormed(Table(t.cols, sorted))
    ensures forall row :: row in sorted ==> row in kept && row in t.rows
  {
    forall row | row in sorted
      ensures row in kept && row in t.rows
    {
      assert row in multiset(sorted);
      assert row in multiset(t.rows);
    }
    forall i | 0 <= i < |sorted|
      ensures |sorted[i]| == |t.cols|
    {
      assert sorted[i] in sorted;
      var k :| 0 <= k < |t.rows| && t.rows[k] == sorted[i];
    }
  }

  datatype XY = XY(x: Table, y: Table)

  /** Lines 91-93 for one split: `dropna(subset=["year"])`, then
      `X = drop(columns=[target])` and `y = df[[target]]`. */
  function SplitXY(t: Table, target: string): (r: XY)
    requires WellFormed(t) && Distinct(t.cols) && target in t.cols && "year" in t.cols
    ensures WellFormed(r.x) && WellFormed(r.y)
    ensures |r.x.rows| == |r.y.rows| <= |t.rows|
    ensures target !in r.x.cols && r.y.cols == [target]
    ensures forall c :: c in r.x.cols <==> c in t.cols && c != target
  {
    var yi := IndexOf(t.cols, "year");
    var dated := Table(t.cols, Filter(t.rows, r => CellAt(r, yi) != Null));
    FilterWellFormed(t, r => CellAt(r, yi) != Null);
    var ti := IndexOf(dated.cols, target);
    XY(Merge.DropColumns(dated, {target}), Merge.Project(dated, [ti]))
  }

  /** The feature and target tables together give back every cell of the
      split they came from, row by row. */
  lemma SplitXYRecovers(t: Table, target: string)
    requires WellFormed(t) && Distinct(t.cols) && target in t.cols && "year" in t.cols
    requires forall row :: row in t.rows ==> Get(t.cols, row, "year") != Null
    ensures var r := SplitXY(t, target);
            && |r.x.rows| == |t.rows|
            && forall i, c :: 0 <= i < |t.rows| && c in t.cols ==>
                 Get(t.cols, t.rows[i], c) == if c == target then r.y.rows[i][0] else Get(r.x.cols, r.x.rows[i], c)
  {
    var yi := IndexOf(t.cols, "year");
    forall i | 0 <= i < |t.rows|
      ensures CellAt(t.rows[i], yi) != Null
    {
      assert t.rows[i] in t.rows;
    }
    FilterAll(t.rows, r => CellAt(r, yi) != Null);
  }

  /** What `main` writes: the panel and, when the target column exists,
      the feature / target pairs of train, val and test, in that order. */
  datatype Products = Products(panel: Table, xy: seq<XY>)

  /** The features lack the target, the target table holds only it, and
      both have one row per row of the split. */
  predicate Separated(p: XY) {
    Splits.Target !in p.x.cols && p.y.cols == [Splits.Target] && |p.x.rows| == |p.y.rows|
  }

  /** The feature / target pair of one split, whose rows are panel rows. */
  function SplitPair(panel: Table, rows: seq<Row>): (r: XY)
    requires WellFormed(panel) && Distinct(panel.cols) && Splits.Target in panel.cols && "year" in panel.cols
    requires forall row :: row in rows ==> row in panel.rows
    ensures Separated(r)
  {
    RowsWellFormed(panel, rows);
    SplitXY(Table(panel.cols, rows), Splits.Target)
  }

  /** `p` is the feature / target pair `main` writes for the split `rows`
      of `panel`. */
  predicate Written(panel: Table, rows: seq<Row>, p: XY) {
    && WellFormed(panel) && Distinct(panel.cols) && Splits.Target in panel.cols && "year" in panel.cols
    && WellFormed(Table(panel.cols, rows))
    && p == SplitXY(Table(panel.cols, rows), Splits.Target)
  }

  /** Lines 88-93: nothing when the panel lacks the target, otherwise the
      feature / target pair of each split. */
  function SplitOutputs(panel: Table): (xy: seq<XY>)
    requires WellFormed(panel) && Distinct(panel.cols) && "year" in panel.cols
    ensures |xy| == 0 <==> Splits.Target !in panel.cols
    ensures |xy| == 0 || |xy| == 3
    ensures |xy| == 3 ==> Separated(xy[0]) && Separated(xy[1]) && Separated(xy[2])
    ensures |xy| == 3 ==> var s := Splits.TimeSplits(panel, Splits.Target);
                          && s.Ok?
                          && Written(panel, s.value.train, xy[0])
                          && Written(panel, s.value.val, xy[1])
                          && Written(panel, s.value.test, xy[2])
  {
    if Splits.Target !in panel.cols then []
    else
      var s := Splits.TimeSplits(panel, Splits.Target).value;
      var train, val, test := SplitPair(panel, s.train), SplitPair(panel, s.val), SplitPair(panel, s.test);
      RowsWellFormed(panel, s.train);
      RowsWellFormed(panel, s.val);
      RowsWellFormed(panel, s.test);
      [train, val, test]
  }

  /** The written pairs give back, row by row and cell by cell, the train,
      val and test rows of `time_splits`, in that order. */
  lemma SplitOutputsRecover(panel: Table)
    requires WellFormed(panel) && Distinct(panel.cols) && "year" in panel.cols && Splits.Target in panel.cols
    ensures var xy, s := SplitOutputs(panel), Splits.TimeSplits(panel, Splits.Target).value;
            && Recovers(panel, s.train, xy[0])
            && Recovers(panel, s.val, xy[1])
            && Recovers(panel, s.test, xy[2])
  {
    var xy, s := SplitOutputs(panel), Splits.TimeSplits(panel, Splits.Target).value;
    PartRecovers(panel, s.train, xy[0]);
    PartRecovers(panel, s.val, xy[1]);
    PartRecovers(panel, s.test, xy[2]);
  }

  /** Every cell of the split rows is found again in `p`: the target in its
      target table, every other column in its feature table. */
  predicate Recovers(panel: Table, rows: seq<Row>, p: XY)
    requires WellFormed(Table(panel.cols, rows))
  {
    && |p.x.rows| == |rows| == |p.y.rows|
    && (forall i :: 0 <= i < |rows| ==> |p.y.rows[i]| >= 1 && |p.x.rows[i]| == |p.x.cols|)
    && forall i, c :: 0 <= i < |rows| && c in panel.cols ==>
         if c == Splits.Target then p.y.rows[i][0] == Get(panel.cols, rows[i], c)
         else c in p.x.cols && Get(p.x.cols, p.x.rows[i], c) == Get(panel.cols, rows[i], c)
  }

  lemma PartRecovers(panel: Table, rows: seq<Row>, p: XY)
    requires Written(panel, rows, p)
    requires forall row :: row in rows ==> Get(panel.cols, row, "year").Int?
    ensures Recovers(panel, rows, p)
  {
    SplitXYRecovers(Table(panel.cols, rows), Splits.Target);
  }

  /** `main` after loading: merge, filter, sort, split, separate. */
  function Preprocess(ts: seq<Table>): (r: Result<Products, PanelError>)
    requires Merge.Frames(ts)
    ensures r == Err(MergeFailed(Merge.NoFrames)) <==> |ts| == 0
    ensures Merge.MergeAll(ts).Err? ==> r == Err(MergeFailed(Merge.MergeAll(ts).error))
    ensures r.Ok? <==> Merge.MergeAll(ts).Ok? && "year" in Merge.MergeAll(ts).value.cols
                                              && "state_fips" in Merge.MergeAll(ts).value.cols
    ensures r.Ok? ==> WellFormed(r.value.panel) && "year" in r.value.panel.cols && "state_fips" in r.value.panel.cols
    ensures r.Ok? ==> Sorted(r.value.panel.rows, IndexOf(r.value.panel.cols, "year"),
                             IndexOf(r.value.panel.cols, "state_fips"))
    ensures r.Ok? ==> (|r.value.xy| == 3 <==> Splits.Target in r.value.panel.cols)
    ensures r.Ok? ==> var merged := Merge.MergeAll(ts);
                      && merged.Ok? && r.value.panel.cols == merged.value.cols
                      && (forall row :: row in r.value.panel.rows ==> Get(merged.value.cols, row, "state_fips") != Null)
                      && multiset(r.value.panel.rows) ==
                           multiset(Filter(merged.value.rows, HasFips(IndexOf(merged.value.cols, "state_fips"))))
    ensures r.Ok? ==> r.value.xy == SplitOutputs(r.value.panel)
  {
    match Merge.MergeAll(ts)
    case Err(e) => Err(MergeFailed(e))
    case Ok(merged) =>
      var panel :- BuildPanel(merged);
      Ok(Products(panel, SplitOutputs(panel)))
  }

  /** The driver produces its outputs exactly when the tables chain on
      identifying columns and some table has `year` and some has
      `state_fips`. */
  lemma PreprocessSucceeds(ts: seq<Table>)
    requires Merge.Frames(ts) && |ts| > 0
    ensures Preprocess(ts).Ok? <==> && Merge.Chained(ts)
                                     && (exists i :: 0 <= i < |ts| && "year" in ts[i].cols)
                                     && (exists i :: 0 <= i < |ts| && "state_fips" in ts[i].cols)
  {
    Merge.MergeAllSucceeds(ts);
    Merge.MergeAllColumns(ts);
  }

  lemma RowsWellFormed(panel: Table, rows: seq<Row>)
    requires WellFormed(panel)
    requires forall row :: row in rows ==> row in panel.rows
    ensures WellFormed(Table(panel.cols, rows))
  {
    forall i | 0 <= i < |rows|
      ensures |rows[i]| == |panel.cols|
    {
      assert rows[i] in rows;
      var k :| 0 <= k < |panel.rows| && panel.rows[k] == rows[i];
    }
  }
}
