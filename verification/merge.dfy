/** `outer_join_on_keys`: interim tables are folded left to right with an
    outer join on the identifying columns they share. */
module Merge {
  import opened Tables
  import opened Wrappers

  /** The identifying columns, in the order they are tried. */
  const Keys: seq<string> := ["state_fips", "state", "year"]

  function SetOf(s: seq<string>): (r: set<string>)
    ensures forall x :: x in r <==> x in s
  {
    set x | x in s
  }

  /** The identifying columns both tables have, in `Keys` order. */
  function SharedKeys(l: seq<string>, r: seq<string>): (ks: seq<string>)
    ensures forall k :: k in ks <==> k in Keys && k in l && k in r
    ensures Distinct(ks)
  {
    var a := if "state_fips" in l && "state_fips" in r then ["state_fips"] else [];
    var b := if "state" in l && "state" in r then ["state"] else [];
    var c := if "year" in l && "year" in r then ["year"] else [];
    a + b + c
  }

  /** The key list of `_merge`, including its `["year"]` fallback. */
  function MergeKeys(l: seq<string>, r: seq<string>): seq<string> {
    var first := SharedKeys(l, r);
    if |first| > 0 then first
    else if "year" in l && "year" in r then ["year"] else []
  }

  /** The `["year"]` fallback never applies: "year" is itself one of `Keys`,
      so when no key is shared, "year" is not shared either. */
  lemma YearFallbackDead(l: seq<string>, r: seq<string>)
    ensures MergeKeys(l, r) == SharedKeys(l, r)
  {
    if |SharedKeys(l, r)| == 0 {
      assert "year" in Keys;
    }
  }

  /** The cells of `s` at the given positions (`dflt` past its end). */
  function Pick<T>(s: seq<T>, ps: seq<nat>, dflt: T): (r: seq<T>)
    ensures |r| == |ps|
    ensures forall i :: 0 <= i < |ps| && ps[i] < |s| ==> r[i] == s[ps[i]]
  {
    seq(|ps|, i requires 0 <= i < |ps| => if ps[i] < |s| then s[ps[i]] else dflt)
  }

  /** The positions, from `from` on, whose names are not in `names`. */
  function Kept(cols: seq<string>, names: set<string>, from: nat): (ps: seq<nat>)
    requires from <= |cols|
    ensures forall i :: 0 <= i < |ps| ==> from <= ps[i] < |cols| && cols[ps[i]] !in names
    ensures forall p :: from <= p < |cols| && cols[p] !in names ==> p in ps
    ensures forall i, j :: 0 <= i < j < |ps| ==> ps[i] < ps[j]
    decreases |cols| - from
  {
    if from == |cols| then []
    else if cols[from] in names then Kept(cols, names, from + 1)
    else [from] + Kept(cols, names, from + 1)
  }

  /** Increasing positions into a duplicate-free list pick duplicate-free names. */
  lemma PickDistinct(cols: seq<string>, ps: seq<nat>)
    requires Distinct(cols)
    requires forall i :: 0 <= i < |ps| ==> ps[i] < |cols|
    requires forall i, j :: 0 <= i < j < |ps| ==> ps[i] < ps[j]
    ensures Distinct(Pick(cols, ps, ""))
  {
  }

  /** The columns at positions `ps`, in that order. */
  function Project(t: Table, ps: seq<nat>): (r: Table)
    requires WellFormed(t) && forall i :: 0 <= i < |ps| ==> ps[i] < |t.cols|
    ensures WellFormed(r) && |r.rows| == |t.rows| && |r.cols| == |ps|
    ensures forall j :: 0 <= j < |ps| ==> r.cols[j] == t.cols[ps[j]]
    ensures forall i, j :: 0 <= i < |t.rows| && 0 <= j < |ps| ==> r.rows[i][j] == t.rows[i][ps[j]]
  {
    Table(Pick(t.cols, ps, ""), seq(|t.rows|, i requires 0 <= i < |t.rows| => Pick(t.rows[i], ps, Null)))
  }

  /** The names outside `names`. */
  function Outside(names: set<string>): string -> bool {
    c => c !in names
  }

  /** The kept positions pick, in order, the names the filter keeps. */
  lemma {:induction false} KeptInOrder(cols: seq<string>, names: set<string>, from: nat)
    requires from <= |cols|
    ensures Pick(cols, Kept(cols, names, from), "") == Filter(cols[from..], Outside(names))
    decreases |cols| - from
  {
    if from < |cols| {
      KeptInOrder(cols, names, from + 1);
      var rest := Kept(cols, names, from + 1);
      var tail := cols[from..];
      FilterFirst(tail, Outside(names));
      assert tail[0] == cols[from] && tail[1..] == cols[from + 1..];
      if cols[from] !in names {
        assert Kept(cols, names, from) == [from] + rest;
        PickCons(cols, from, rest, "");
      }
    }
  }

  lemma PickCons<T>(s: seq<T>, p: nat, ps: seq<nat>, dflt: T)
    requires p < |s|
    ensures Pick(s, [p] + ps, dflt) == [s[p]] + Pick(s, ps, dflt)
  {
    assert forall i :: 0 < i < |ps| + 1 ==> ([p] + ps)[i] == ps[i - 1];
  }


  /** `DataFrame.drop(columns=...)`: every column named in `names` goes,
      and the others keep their order. */
  function DropColumns(t: Table, names: set<string>): (r: Table)
    requires WellFormed(t)
    ensures WellFormed(r) && |r.rows| == |t.rows|
    ensures r.cols == Filter(t.cols, Outside(names))
    ensures forall c :: c in r.cols <==> c in t.cols && c !in names
    ensures Distinct(t.cols) ==> Distinct(r.cols)
    ensures Distinct(t.cols) ==> forall i, c :: 0 <= i < |t.rows| && c in r.cols ==>
              Get(r.cols, r.rows[i], c) == Get(t.cols, t.rows[i], c)
  {
    var ps := Kept(t.cols, names, 0);
    KeptInOrder(t.cols, names, 0);
    assert t.cols[0..] == t.cols;
    DropKeepsNames(t, names, ps);
    if Distinct(t.cols) then DropKeepsCells(t, names, ps); Project(t, ps) else Project(t, ps)
  }

  lemma DropKeepsNames(t: Table, names: set<string>, ps: seq<nat>)
    requires WellFormed(t) && ps == Kept(t.cols, names, 0)
    ensures forall c :: c in Project(t, ps).cols <==> c in t.cols && c !in names
  {
    var r := Project(t, ps);
    forall c | c in t.cols && c !in names
      ensures c in r.cols
    {
      var p :| 0 <= p < |t.cols| && t.cols[p] == c;
      var i :| 0 <= i < |ps| && ps[i] == p;
      assert r.cols[i] == c;
    }
  }

  lemma DropKeepsCells(t: Table, names: set<string>, ps: seq<nat>)
    requires WellFormed(t) && ps == Kept(t.cols, names, 0) && Distinct(t.cols)
    ensures Distinct(Project(t, ps).cols)
    ensures forall i, c :: 0 <= i < |t.rows| && c in Project(t, ps).cols && c in t.cols ==>
              Get(Project(t, ps).cols, Project(t, ps).rows[i], c) == Get(t.cols, t.rows[i], c)
  {
    var r := Project(t, ps);
    PickDistinct(t.cols, ps);
    forall i, c | 0 <= i < |t.rows| && c in r.cols && c in t.cols
      ensures Get(r.cols, r.rows[i], c) == Get(t.cols, t.rows[i], c)
    {
      var j := IndexOf(r.cols, c);
      IndexOfDistinct(t.cols, ps[j]);
    }
  }

  /** The positions of `keys` in a column list. */
  function KeyPositions(cols: seq<string>, keys: seq<string>): (pos: seq<nat>)
    requires forall i :: 0 <= i < |keys| ==> keys[i] in cols
    ensures |pos| == |keys|
    ensures forall i :: 0 <= i < |keys| ==> pos[i] < |cols| && cols[pos[i]] == keys[i]
  {
    seq(|keys|, i requires 0 <= i < |keys| => IndexOf(cols, keys[i]))
  }

  /** How a key cell takes part in the join: numbers by value, so that an
      int64 key meets the float64 key of equal value, as pandas merges them;
      Null as itself, so that NaN keys meet; text as itself. */
  function KeyCell(c: Cell): (k: Cell)
    ensures k.Num? <==> NumericValue(c).Some?
    ensures k.Num? ==> Some(k.r) == NumericValue(c)
    ensures !k.Num? ==> k == c
  {
    match c
    case Int(i) => Num(i as real)
    case _ => c
  }

  /** Two key cells meet exactly when both are Null, both are numbers of
      the same value, or both are the same text. */
  lemma KeyCellsMeet(a: Cell, b: Cell)
    ensures KeyCell(a) == KeyCell(b) <==>
              || (a.Null? && b.Null?)
              || (NumericValue(a).Some? && NumericValue(a) == NumericValue(b))
              || (a.Str? && b.Str? && a.s == b.s)
  {
  }

  /** The key tuple of a row: its cells at the key positions (Null past
      its end), each as `KeyCell` compares it. */
  function KeyTuple(row: Row, pos: seq<nat>): (k: seq<Cell>)
    ensures |k| == |pos|
    ensures forall t :: 0 <= t < |pos| ==> k[t] == KeyCell(if pos[t] < |row| then row[pos[t]] else Null)
  {
    var cells := Pick(row, pos, Null);
    seq(|cells|, t requires 0 <= t < |cells| => KeyCell(cells[t]))
  }

  /** The key tuple of every row. */
  function KeysOf(rows: seq<Row>, pos: seq<nat>): (ks: seq<seq<Cell>>)
    ensures |ks| == |rows| && forall i :: 0 <= i < |rows| ==> ks[i] == KeyTuple(rows[i], pos)
  {
    seq(|rows|, i requires 0 <= i < |rows| => KeyTuple(rows[i], pos))
  }

  /** The rows whose key tuple is `k`. */
  function KeyIs(pos: seq<nat>, k: seq<Cell>): Row -> bool {
    r => KeyTuple(r, pos) == k
  }

  /** The rows whose key tuple is `k`, in order. */
  function Matches(rows: seq<Row>, pos: seq<nat>, k: seq<Cell>): (ms: seq<Row>)
    ensures forall j :: 0 <= j < |ms| ==> ms[j] in rows && KeyTuple(ms[j], pos) == k
    ensures |ms| == 0 <==> k !in KeysOf(rows, pos)
  {
    if |rows| == 0 then []
    else
      assert KeysOf(rows, pos) == [KeyTuple(rows[0], pos)] + KeysOf(rows[1..], pos);
      (if KeyTuple(rows[0], pos) == k then [rows[0]] else []) + Matches(rows[1..], pos, k)
  }

  /** The matches are every row whose key tuple is `k` and no other, in
      their order in `rows`. */
  lemma {:induction false} MatchesAreFilter(rows: seq<Row>, pos: seq<nat>, k: seq<Cell>)
    ensures Matches(rows, pos, k) == Filter(rows, KeyIs(pos, k))
  {
    if |rows| > 0 {
      MatchesAreFilter(rows[1..], pos, k);
      MatchesFirst(rows, pos, k);
      FilterFirst(rows, KeyIs(pos, k));
    }
  }

  /** With unique keys there is at most one match, and it is the row with
      that key. */
  lemma {:induction false} MatchesUnique(rows: seq<Row>, pos: seq<nat>, k: seq<Cell>, i: nat)
    requires Distinct(KeysOf(rows, pos))
    requires i < |rows| && KeyTuple(rows[i], pos) == k
    ensures Matches(rows, pos, k) == [rows[i]]
  {
    KeysOfTail(rows, pos);
    MatchesFirst(rows, pos, k);
    if i == 0 {
      assert k !in KeysOf(rows[1..], pos);
    } else {
      var ks := KeysOf(rows, pos);
      assert ks[0] == KeyTuple(rows[0], pos) && ks[i] == k && ks[0] != ks[i];
      var tail := rows[1..];
      assert tail[i - 1] == rows[i];
      MatchesUnique(tail, pos, k, i - 1);
    }
  }

  /** The key tuples of the rows after the first: the tail of the key
      tuples, still without repeats, and without the first row's. */
  lemma KeysOfTail(rows: seq<Row>, pos: seq<nat>)
    requires |rows| > 0 && Distinct(KeysOf(rows, pos))
    ensures KeysOf(rows[1..], pos) == KeysOf(rows, pos)[1..]
    ensures Distinct(KeysOf(rows[1..], pos))
    ensures KeyTuple(rows[0], pos) !in KeysOf(rows[1..], pos)
  {
    KeysOfFirst(rows, pos);
    DistinctTail(KeysOf(rows, pos));
  }

  lemma MatchesFirst(rows: seq<Row>, pos: seq<nat>, k: seq<Cell>)
    requires |rows| > 0
    ensures Matches(rows, pos, k) ==
              (if KeyTuple(rows[0], pos) == k then [rows[0]] else []) + Matches(rows[1..], pos, k)
  {
  }

  /** The tail of a sequence without repeats has none, nor its head. */
  lemma DistinctTail<T>(s: seq<T>)
    requires Distinct(s) && |s| > 0
    ensures Distinct(s[1..]) && s[0] !in s[1..]
  {
  }

  function Nulls(n: nat): (r: Row)
    ensures |r| == n && forall i :: 0 <= i < n ==> r[i] == Null
  {
    seq(n, i => Null)
  }

  /** The output rows one left row produces: one per matching right row,
      or itself padded with Null when nothing matches. */
  function JoinOne(lr: Row, rrows: seq<Row>, lk: seq<nat>, rk: seq<nat>, ep: seq<nat>): (out: seq<Row>)
    ensures |out| >= 1
    ensures forall j :: 0 <= j < |out| ==> |out[j]| == |lr| + |ep| && out[j][..|lr|] == lr
  {
    var ms := Matches(rrows, rk, KeyTuple(lr, lk));
    if |ms| == 0 then [lr + Nulls(|ep|)]
    else seq(|ms|, j requires 0 <= j < |ms| => lr + Pick(ms[j], ep, Null))
  }

  function JoinLeft(lrows: seq<Row>, rrows: seq<Row>, lk: seq<nat>, rk: seq<nat>, ep: seq<nat>): seq<Row> {
    if |lrows| == 0 then [] else JoinOne(lrows[0], rrows, lk, rk, ep) + JoinLeft(lrows[1..], rrows, lk, rk, ep)
  }

  lemma {:induction false} JoinLeftWidth(lrows: seq<Row>, rrows: seq<Row>, lk: seq<nat>, rk: seq<nat>, ep: seq<nat>, n: nat)
    requires forall i :: 0 <= i < |lrows| ==> |lrows[i]| == n
    ensures forall j :: 0 <= j < |JoinLeft(lrows, rrows, lk, rk, ep)| ==> |JoinLeft(lrows, rrows, lk, rk, ep)[j]| == n + |ep|
  {
    if |lrows| > 0 {
      JoinLeftWidth(lrows[1..], rrows, lk, rk, ep, n);
    }
  }

  /** A right row no left row matched, laid out in the merged columns: the
      left part holds its key cells (`back` maps a left position to the
      right position of the same key, or -1) and Null elsewhere. */
  function Pad(rr: Row, back: seq<int>): (r: Row)
    ensures |r| == |back|
    ensures forall p :: 0 <= p < |back| ==> r[p] == if 0 <= back[p] < |rr| then rr[back[p]] else Null
  {
    seq(|back|, p requires 0 <= p < |back| => if 0 <= back[p] < |rr| then rr[back[p]] else Null)
  }

  function RightOnly(rrows: seq<Row>, rk: seq<nat>, leftKeys: seq<seq<Cell>>, back: seq<int>, ep: seq<nat>)
    : (out: seq<Row>)
    ensures |out| <= |rrows|
    ensures forall j :: 0 <= j < |out| ==> |out[j]| == |back| + |ep|
  {
    if |rrows| == 0 then []
    else
      (if KeyTuple(rrows[0], rk) in leftKeys then [] else [Pad(rrows[0], back) + Pick(rrows[0], ep, Null)]) +
      RightOnly(rrows[1..], rk, leftKeys, back, ep)
  }

  /** Where each left column's key value sits in the right table. */
  function BackPositions(lcols: seq<string>, rcols: seq<string>, keys: seq<string>): (back: seq<int>)
    requires forall i :: 0 <= i < |keys| ==> keys[i] in rcols
    ensures |back| == |lcols|
    ensures forall p :: 0 <= p < |lcols| ==>
              if lcols[p] in keys then back[p] == IndexOf(rcols, lcols[p]) as int else back[p] == -1
  {
    seq(|lcols|, p requires 0 <= p < |lcols| => if lcols[p] in keys then IndexOf(rcols, lcols[p]) as int else -1)
  }

  /** `pd.merge(l, r, on=keys, how="outer")` on tables without duplicated
      names whose non-key names are disjoint.  Rows come as the left rows
      in order, then the right rows that matched nothing. */
  function OuterJoin(l: Table, r: Table, keys: seq<string>): (m: Table)
    requires WellFormed(l) && WellFormed(r)
    requires forall i :: 0 <= i < |keys| ==> keys[i] in l.cols && keys[i] in r.cols
    ensures WellFormed(m)
    ensures m.cols == l.cols + DropColumns(r, SetOf(keys)).cols
  {
    var lk := KeyPositions(l.cols, keys);
    var rk := KeyPositions(r.cols, keys);
    var ep := Kept(r.cols, SetOf(keys), 0);
    var back := BackPositions(l.cols, r.cols, keys);
    JoinLeftWidth(l.rows, r.rows, lk, rk, ep, |l.cols|);
    Table(l.cols + Pick(r.cols, ep, ""),
          JoinLeft(l.rows, r.rows, lk, rk, ep) + RightOnly(r.rows, rk, KeysOf(l.rows, lk), back, ep))
  }

  datatype MergeError = NoFrames | NoSharedKey

  /** The shared non-key names `_merge` drops from the right table. */
  function Overlap(l: seq<string>, r: seq<string>, keys: seq<string>): set<string> {
    SetOf(l) * SetOf(r) - SetOf(keys)
  }

  /** One step of the fold, `_merge(l, r)`.  Tables read back from CSV never
      repeat a column name, so both inputs are duplicate-free. */
  function MergePair(l: Table, r: Table): (m: Result<Table, MergeError>)
    requires WellFormed(l) && WellFormed(r) && Distinct(l.cols) && Distinct(r.cols)
    ensures m.Err? <==> |SharedKeys(l.cols, r.cols)| == 0
    ensures m.Err? ==> m.error == NoSharedKey
    ensures m.Ok? ==> forall i :: 0 <= i < |SharedKeys(l.cols, r.cols)| ==>
                        SharedKeys(l.cols, r.cols)[i] in m.value.cols
  {
    YearFallbackDead(l.cols, r.cols);
    var keys := MergeKeys(l.cols, r.cols);
    if |keys| == 0 then Err(NoSharedKey)
    else
      KeysSurviveDrop(l, r);
      Ok(OuterJoin(l, DropColumns(r, Overlap(l.cols, r.cols, keys)), keys))
  }

  /** The shared keys are left columns that dropping the overlap keeps. */
  lemma KeysSurviveDrop(l: Table, r: Table)
    requires WellFormed(r)
    ensures var keys := SharedKeys(l.cols, r.cols);
            forall i :: 0 <= i < |keys| ==>
              keys[i] in l.cols && keys[i] in DropColumns(r, Overlap(l.cols, r.cols, keys)).cols
  {
    var keys := SharedKeys(l.cols, r.cols);
    var r2 := DropColumns(r, Overlap(l.cols, r.cols, keys));
    forall i | 0 <= i < |keys|
      ensures keys[i] in l.cols && keys[i] in r2.cols
    {
      assert keys[i] in SetOf(keys);
    }
  }

  lemma DistinctConcat<T>(a: seq<T>, b: seq<T>)
    requires Distinct(a) && Distinct(b) && forall c :: c in b ==> c !in a
    ensures Distinct(a + b)
  {
    forall i, j | 0 <= i < j < |a + b|
      ensures (a + b)[i] != (a + b)[j]
    {
      if i < |a| && j >= |a| {
        assert (a + b)[j] in b;
      }
    }
  }

  /** The merged table: the left columns, then the right columns the left
      lacks, no name twice, and every row as wide as the header. */
  lemma MergePairColumns(l: Table, r: Table)
    requires WellFormed(l) && WellFormed(r) && Distinct(l.cols) && Distinct(r.cols)
    requires MergePair(l, r).Ok?
    ensures var m := MergePair(l, r).value;
            && WellFormed(m) && Distinct(m.cols)
            && |m.cols| >= |l.cols| && m.cols[..|l.cols|] == l.cols
            && (forall c :: c in m.cols[|l.cols|..] <==> c in r.cols && c !in l.cols)
            && m.cols == l.cols + Filter(r.cols, Outside(SetOf(l.cols)))
  {
    YearFallbackDead(l.cols, r.cols);
    var keys := SharedKeys(l.cols, r.cols);
    var r2 := DropColumns(r, Overlap(l.cols, r.cols, keys));
    var extra := DropColumns(r2, SetOf(keys));
    var m := MergePair(l, r).value;
    assert m == OuterJoin(l, r2, keys);
    DistinctConcat(l.cols, extra.cols);
    assert m.cols[|l.cols|..] == extra.cols;
    RightTailInOrder(l.cols, r.cols, keys);
  }

  /** The right table's columns the merge step keeps are those the left
      table lacks, in the right table's order. */
  lemma RightTailInOrder(l: seq<string>, r: seq<string>, keys: seq<string>)
    requires keys == SharedKeys(l, r)
    ensures Filter(Filter(r, Outside(Overlap(l, r, keys))), Outside(SetOf(keys)))
            == Filter(r, Outside(SetOf(l)))
  {
    var p, q := Outside(Overlap(l, r, keys)), Outside(SetOf(keys));
    forall i | 0 <= i < |r|
      ensures Outside(SetOf(l))(r[i]) <==> p(r[i]) && q(r[i])
    {
      KeptIffAbsent(l, r, keys, r[i]);
    }
    FilterFilter(r, p, q, Outside(SetOf(l)));
  }

  lemma KeptIffAbsent(l: seq<string>, r: seq<string>, keys: seq<string>, x: string)
    requires keys == SharedKeys(l, r) && x in r
    ensures x !in Overlap(l, r, keys) && x !in SetOf(keys) <==> x !in SetOf(l)
  {
  }


  /** With unique right keys each left row yields exactly one output row. */
  lemma JoinOneUnique(lr: Row, rrows: seq<Row>, lk: seq<nat>, rk: seq<nat>, ep: seq<nat>)
    requires Distinct(KeysOf(rrows, rk))
    ensures |JoinOne(lr, rrows, lk, rk, ep)| == 1
  {
    var k := KeyTuple(lr, lk);
    if k in KeysOf(rrows, rk) {
      var i :| 0 <= i < |rrows| && KeysOf(rrows, rk)[i] == k;
      MatchesUnique(rrows, rk, k, i);
    }
  }

  /** With unique right keys the left part of the join is the left rows, in
      order, each extended by its match (or by Nulls). */
  lemma {:induction false} JoinLeftUnique(lrows: seq<Row>, rrows: seq<Row>, lk: seq<nat>, rk: seq<nat>,
                                          ep: seq<nat>, n: nat)
    requires Distinct(KeysOf(rrows, rk))
    requires forall i :: 0 <= i < |lrows| ==> |lrows[i]| == n
    requires forall t :: 0 <= t < |lk| ==> lk[t] < n
    ensures var out := JoinLeft(lrows, rrows, lk, rk, ep);
            && |out| == |lrows|
            && (forall i :: 0 <= i < |lrows| ==> |out[i]| >= n && out[i][..n] == lrows[i])
            && KeysOf(out, lk) == KeysOf(lrows, lk)
  {
    if |lrows| > 0 {
      JoinOneUnique(lrows[0], rrows, lk, rk, ep);
      JoinLeftUnique(lrows[1..], rrows, lk, rk, ep, n);
      var out := JoinLeft(lrows, rrows, lk, rk, ep);
      var head := JoinOne(lrows[0], rrows, lk, rk, ep);
      var rest := JoinLeft(lrows[1..], rrows, lk, rk, ep);
      assert out == head + rest;
      assert out[1..] == rest && lrows[1..] == lrows[1..];
      assert |out[0]| >= n && out[0][..n] == lrows[0];
      PrefixKey(out[0], lrows[0], lk, n);
      KeysOfFirst(out, lk);
      KeysOfFirst(lrows, lk);
      forall i | 0 <= i < |lrows|
        ensures |out[i]| >= n && out[i][..n] == lrows[i]
      {
        if i > 0 {
          assert out[i] == rest[i - 1] && lrows[i] == lrows[1..][i - 1];
        }
      }
    }
  }

  /** A row extending `orig` has the key tuple of `orig` when every key
      position lies inside `orig`. */
  lemma PrefixKey(row: Row, orig: Row, lk: seq<nat>, n: nat)
    requires |row| >= n && row[..n] == orig
    requires forall t :: 0 <= t < |lk| ==> lk[t] < n
    ensures KeyTuple(row, lk) == KeyTuple(orig, lk)
  {
    forall t | 0 <= t < |lk|
      ensures row[lk[t]] == orig[lk[t]]
    {
      assert row[..n][lk[t]] == row[lk[t]];
    }
  }

  /** A padded right row carries its own key in the left key positions. */
  lemma PadKey(rr: Row, back: seq<int>, ep: seq<nat>, lk: seq<nat>, rk: seq<nat>)
    requires |lk| == |rk|
    requires forall t :: 0 <= t < |lk| ==> lk[t] < |back| && back[lk[t]] == rk[t] as int && rk[t] < |rr|
    ensures KeyTuple(Pad(rr, back) + Pick(rr, ep, Null), lk) == KeyTuple(rr, rk)
  {
    var row := Pad(rr, back) + Pick(rr, ep, Null);
    forall t | 0 <= t < |lk|
      ensures row[lk[t]] == rr[rk[t]]
    {
      assert row[lk[t]] == Pad(rr, back)[lk[t]];
    }
  }

  /** The right-only rows are the right rows whose key the left side lacks,
      each carrying that key. */
  lemma {:induction false} RightOnlyKeys(rrows: seq<Row>, rk: seq<nat>, leftKeys: seq<seq<Cell>>, back: seq<int>,
                                         ep: seq<nat>, lk: seq<nat>, n: nat)
    requires forall i :: 0 <= i < |rrows| ==> |rrows[i]| == n
    requires |lk| == |rk|
    requires forall t :: 0 <= t < |lk| ==> lk[t] < |back| && back[lk[t]] == rk[t] as int && rk[t] < n
    ensures forall k :: k in KeysOf(RightOnly(rrows, rk, leftKeys, back, ep), lk) <==>
                        k in KeysOf(rrows, rk) && k !in leftKeys
  {
    if |rrows| > 0 {
      RightOnlyKeys(rrows[1..], rk, leftKeys, back, ep, lk, n);
      RightOnlyStep(rrows, rk, leftKeys, back, ep, lk, n);
    }
  }

  /** One row of the right-only scan: its key is added exactly when the
      left side lacks it. */
  lemma RightOnlyStep(rrows: seq<Row>, rk: seq<nat>, leftKeys: seq<seq<Cell>>, back: seq<int>,
                      ep: seq<nat>, lk: seq<nat>, n: nat)
    requires |rrows| > 0 && |rrows[0]| == n
    requires |lk| == |rk|
    requires forall t :: 0 <= t < |lk| ==> lk[t] < |back| && back[lk[t]] == rk[t] as int && rk[t] < n
    ensures var k0 := KeyTuple(rrows[0], rk);
            var rest := KeysOf(RightOnly(rrows[1..], rk, leftKeys, back, ep), lk);
            && KeysOf(rrows, rk) == [k0] + KeysOf(rrows[1..], rk)
            && KeysOf(RightOnly(rrows, rk, leftKeys, back, ep), lk) ==
                 if k0 in leftKeys then rest else [k0] + rest
  {
    KeysOfFirst(rrows, rk);
    var k0 := KeyTuple(rrows[0], rk);
    var rest := RightOnly(rrows[1..], rk, leftKeys, back, ep);
    var out := RightOnly(rrows, rk, leftKeys, back, ep);
    if k0 !in leftKeys {
      var row := Pad(rrows[0], back) + Pick(rrows[0], ep, Null);
      assert out == [row] + rest;
      PadKey(rrows[0], back, ep, lk, rk);
      KeysOfPrepend(row, rest, lk);
    } else {
      assert out == rest;
    }
  }

  lemma KeysOfFirst(rows: seq<Row>, pos: seq<nat>)
    requires |rows| > 0
    ensures KeysOf(rows, pos) == [KeyTuple(rows[0], pos)] + KeysOf(rows[1..], pos)
  {
  }

  lemma KeysOfPrepend(row: Row, rows: seq<Row>, pos: seq<nat>)
    ensures KeysOf([row] + rows, pos) == [KeyTuple(row, pos)] + KeysOf(rows, pos)
  {
    KeysOfFirst([row] + rows, pos);
    assert ([row] + rows)[1..] == rows;
  }

  /** With unique right keys the right-only rows repeat no key. */
  lemma {:induction false} RightOnlyDistinct(rrows: seq<Row>, rk: seq<nat>, leftKeys: seq<seq<Cell>>, back: seq<int>,
                                             ep: seq<nat>, lk: seq<nat>, n: nat)
    requires forall i :: 0 <= i < |rrows| ==> |rrows[i]| == n
    requires |lk| == |rk|
    requires forall t :: 0 <= t < |lk| ==> lk[t] < |back| && back[lk[t]] == rk[t] as int && rk[t] < n
    requires Distinct(KeysOf(rrows, rk))
    ensures Distinct(KeysOf(RightOnly(rrows, rk, leftKeys, back, ep), lk))
  {
    if |rrows| > 0 {
      RightOnlyStep(rrows, rk, leftKeys, back, ep, lk, n);
      RightOnlyKeys(rrows[1..], rk, leftKeys, back, ep, lk, n);
      RightOnlyDistinct(rrows[1..], rk, leftKeys, back, ep, lk, n);
    }
  }

  /** Dropping non-key columns leaves every row's key tuple as it was. */
  lemma DropKeepsKeys(r: Table, names: set<string>, keys: seq<string>)
    requires WellFormed(r) && Distinct(r.cols)
    requires forall i :: 0 <= i < |keys| ==> keys[i] in r.cols && keys[i] !in names
    ensures var r2 := DropColumns(r, names);
            KeysOf(r2.rows, KeyPositions(r2.cols, keys)) == KeysOf(r.rows, KeyPositions(r.cols, keys))
  {
    var r2 := DropColumns(r, names);
    var rk := KeyPositions(r.cols, keys);
    var rk2 := KeyPositions(r2.cols, keys);
    forall i | 0 <= i < |r.rows|
      ensures KeysOf(r2.rows, rk2)[i] == KeysOf(r.rows, rk)[i]
    {
      DropKeepsRowKey(r, names, keys, r2, rk, rk2, i);
    }
  }

  lemma DropKeepsRowKey(r: Table, names: set<string>, keys: seq<string>, r2: Table, rk: seq<nat>, rk2: seq<nat>, i: nat)
    requires WellFormed(r) && Distinct(r.cols)
    requires forall i :: 0 <= i < |keys| ==> keys[i] in r.cols && keys[i] !in names
    requires r2 == DropColumns(r, names) && i < |r.rows|
    requires rk == KeyPositions(r.cols, keys) && rk2 == KeyPositions(r2.cols, keys)
    ensures KeyTuple(r2.rows[i], rk2) == KeyTuple(r.rows[i], rk)
  {
    forall t | 0 <= t < |keys|
      ensures r2.rows[i][rk2[t]] == r.rows[i][rk[t]]
    {
      assert Get(r2.cols, r2.rows[i], keys[t]) == Get(r.cols, r.rows[i], keys[t]);
    }
  }


  /** `all` holds exactly the key tuples found in `a` or in `b`. */
  ghost predicate KeyUnion(all: seq<seq<Cell>>, a: seq<seq<Cell>>, b: seq<seq<Cell>>) {
    forall k :: k in all <==> k in a || k in b
  }

  lemma KeyUnionCongruence(m1: seq<seq<Cell>>, m2: seq<seq<Cell>>, a: seq<seq<Cell>>,
                           b1: seq<seq<Cell>>, b2: seq<seq<Cell>>)
    requires KeyUnion(m1, a, b1) && m1 == m2 && b1 == b2
    ensures KeyUnion(m2, a, b2)
  {
  }

  /** Every key tuple, of every row, of a table. */
  function TableKeys(t: Table, keys: seq<string>): seq<seq<Cell>>
    requires forall i :: 0 <= i < |keys| ==> keys[i] in t.cols
  {
    KeysOf(t.rows, KeyPositions(t.cols, keys))
  }

  lemma KeysOfConcat(a: seq<Row>, b: seq<Row>, pos: seq<nat>)
    ensures KeysOf(a + b, pos) == KeysOf(a, pos) + KeysOf(b, pos)
  {
  }

  /** The key positions of the joined table are those of the left table. */
  lemma OuterJoinKeyPositions(l: Table, r: Table, keys: seq<string>)
    requires WellFormed(l) && WellFormed(r)
    requires forall i :: 0 <= i < |keys| ==> keys[i] in l.cols && keys[i] in r.cols
    ensures forall i :: 0 <= i < |keys| ==> keys[i] in OuterJoin(l, r, keys).cols
    ensures KeyPositions(OuterJoin(l, r, keys).cols, keys) == KeyPositions(l.cols, keys)
  {
    var m := OuterJoin(l, r, keys);
    forall t | 0 <= t < |keys|
      ensures IndexOf(m.cols, keys[t]) == IndexOf(l.cols, keys[t])
    {
      assert m.cols[..|l.cols|] == l.cols;
      IndexOfPrefix(l.cols, m.cols, keys[t]);
    }
  }

  /** The outer join of two tables with unique key tuples has unique key
      tuples, and they are the union of both sides' tuples. */
  lemma OuterJoinUniqueKeys(l: Table, r: Table, keys: seq<string>)
    requires WellFormed(l) && WellFormed(r)
    requires forall i :: 0 <= i < |keys| ==> keys[i] in l.cols && keys[i] in r.cols
    requires Distinct(TableKeys(l, keys)) && Distinct(TableKeys(r, keys))
    ensures forall i :: 0 <= i < |keys| ==> keys[i] in OuterJoin(l, r, keys).cols
    ensures Distinct(TableKeys(OuterJoin(l, r, keys), keys))
    ensures KeyUnion(TableKeys(OuterJoin(l, r, keys), keys), TableKeys(l, keys), TableKeys(r, keys))
  {
    var m := OuterJoin(l, r, keys);
    var lk := KeyPositions(l.cols, keys);
    var rk := KeyPositions(r.cols, keys);
    var ep := Kept(r.cols, SetOf(keys), 0);
    var back := BackPositions(l.cols, r.cols, keys);
    assert m.rows == JoinLeft(l.rows, r.rows, lk, rk, ep) + RightOnly(r.rows, rk, KeysOf(l.rows, lk), back, ep);
    OuterJoinKeyPositions(l, r, keys);
    assert forall t :: 0 <= t < |lk| ==> lk[t] < |back| && back[lk[t]] == rk[t] as int && rk[t] < |r.cols|;
    JoinedKeys(l.rows, r.rows, lk, rk, ep, back, |l.cols|, |r.cols|);
  }

  /** The key tuples of the joined rows: unique, and those of either side. */
  lemma JoinedKeys(lrows: seq<Row>, rrows: seq<Row>, lk: seq<nat>, rk: seq<nat>, ep: seq<nat>, back: seq<int>,
                   n: nat, nr: nat)
    requires forall i :: 0 <= i < |lrows| ==> |lrows[i]| == n
    requires forall i :: 0 <= i < |rrows| ==> |rrows[i]| == nr
    requires |lk| == |rk| && forall t :: 0 <= t < |lk| ==> lk[t] < n
    requires forall t :: 0 <= t < |lk| ==> lk[t] < |back| && back[lk[t]] == rk[t] as int && rk[t] < nr
    requires Distinct(KeysOf(lrows, lk)) && Distinct(KeysOf(rrows, rk))
    ensures var out := JoinLeft(lrows, rrows, lk, rk, ep) + RightOnly(rrows, rk, KeysOf(lrows, lk), back, ep);
            Distinct(KeysOf(out, lk)) && KeyUnion(KeysOf(out, lk), KeysOf(lrows, lk), KeysOf(rrows, rk))
  {
    var lkeys := KeysOf(lrows, lk);
    var left := JoinLeft(lrows, rrows, lk, rk, ep);
    var right := RightOnly(rrows, rk, lkeys, back, ep);
    JoinLeftUnique(lrows, rrows, lk, rk, ep, n);
    RightOnlyKeys(rrows, rk, lkeys, back, ep, lk, nr);
    RightOnlyDistinct(rrows, rk, lkeys, back, ep, lk, nr);
    KeysOfConcat(left, right, lk);
    DistinctConcat(lkeys, KeysOf(right, lk));
  }

  /** A successful merge step is the outer join on the shared keys of the
      left table with the right table minus its overlap; the right key
      tuples survive the drop. */
  lemma MergePairIsJoin(l: Table, r: Table, keys: seq<string>, r2: Table)
    requires WellFormed(l) && WellFormed(r) && Distinct(l.cols) && Distinct(r.cols)
    requires MergePair(l, r).Ok?
    requires keys == SharedKeys(l.cols, r.cols) && r2 == DropColumns(r, Overlap(l.cols, r.cols, keys))
    ensures forall i :: 0 <= i < |keys| ==> keys[i] in l.cols && keys[i] in r2.cols && keys[i] in r.cols
    ensures MergePair(l, r).value == OuterJoin(l, r2, keys)
    ensures TableKeys(r2, keys) == TableKeys(r, keys)
  {
    YearFallbackDead(l.cols, r.cols);
    assert forall i :: 0 <= i < |keys| ==> keys[i] !in Overlap(l.cols, r.cols, keys);
    DropKeepsKeys(r, Overlap(l.cols, r.cols, keys), keys);
  }


  /** When each side holds every key tuple at most once, so does the merge:
      with `MergePairKeyUnion`, it holds exactly one row per key tuple of
      either side. */
  lemma MergePairUniqueKeys(l: Table, r: Table, keys: seq<string>, m: Table)
    requires WellFormed(l) && WellFormed(r) && Distinct(l.cols) && Distinct(r.cols)
    requires MergePair(l, r) == Ok(m) && keys == SharedKeys(l.cols, r.cols)
    requires Distinct(TableKeys(l, keys)) && Distinct(TableKeys(r, keys))
    ensures Distinct(TableKeys(m, keys))
  {
    var r2 := DropColumns(r, Overlap(l.cols, r.cols, keys));
    MergePairIsJoin(l, r, keys, r2);
    OuterJoinUniqueKeys(l, r2, keys);
  }

  /** Under the same conditions, the merge's key tuples are exactly those
      of either side: none is lost and none is invented. */
  lemma MergePairKeyUnion(l: Table, r: Table, keys: seq<string>, m: Table)
    requires WellFormed(l) && WellFormed(r) && Distinct(l.cols) && Distinct(r.cols)
    requires MergePair(l, r) == Ok(m) && keys == SharedKeys(l.cols, r.cols)
    requires Distinct(TableKeys(l, keys)) && Distinct(TableKeys(r, keys))
    ensures KeyUnion(TableKeys(m, keys), TableKeys(l, keys), TableKeys(r, keys))
  {
    var r2 := DropColumns(r, Overlap(l.cols, r.cols, keys));
    MergePairIsJoin(l, r, keys, r2);
    OuterJoinUniqueKeys(l, r2, keys);
    KeyUnionCongruence(TableKeys(OuterJoin(l, r2, keys), keys), TableKeys(m, keys), TableKeys(l, keys),
                       TableKeys(r2, keys), TableKeys(r, keys));
  }

  /** The right part a left row receives: its match's non-key cells, or Null. */
  function MatchOrNulls(lr: Row, rrows: seq<Row>, lk: seq<nat>, rk: seq<nat>, ep: seq<nat>): (part: Row)
    ensures |part| == |ep|
  {
    var ms := Matches(rrows, rk, KeyTuple(lr, lk));
    if |ms| == 0 then Nulls(|ep|) else Pick(ms[0], ep, Null)
  }

  lemma MatchOrNullsSpec(lr: Row, rrows: seq<Row>, lk: seq<nat>, rk: seq<nat>, ep: seq<nat>, j: nat)
    requires Distinct(KeysOf(rrows, rk))
    ensures KeyTuple(lr, lk) !in KeysOf(rrows, rk) ==> MatchOrNulls(lr, rrows, lk, rk, ep) == Nulls(|ep|)
    ensures j < |rrows| && KeyTuple(rrows[j], rk) == KeyTuple(lr, lk) ==>
              MatchOrNulls(lr, rrows, lk, rk, ep) == Pick(rrows[j], ep, Null)
  {
    if j < |rrows| && KeyTuple(rrows[j], rk) == KeyTuple(lr, lk) {
      MatchesUnique(rrows, rk, KeyTuple(lr, lk), j);
    }
  }

  /** With unique right keys, left row `i` becomes row `i` of the join,
      extended by the right part it receives. */
  lemma {:induction false} JoinLeftRows(lrows: seq<Row>, rrows: seq<Row>, lk: seq<nat>, rk: seq<nat>, ep: seq<nat>)
    requires Distinct(KeysOf(rrows, rk))
    ensures var out := JoinLeft(lrows, rrows, lk, rk, ep);
            && |out| == |lrows|
            && forall i :: 0 <= i < |lrows| ==> out[i] == lrows[i] + MatchOrNulls(lrows[i], rrows, lk, rk, ep)
  {
    if |lrows| > 0 {
      JoinOneUnique(lrows[0], rrows, lk, rk, ep);
      JoinLeftRows(lrows[1..], rrows, lk, rk, ep);
      var rest := JoinLeft(lrows[1..], rrows, lk, rk, ep);
      assert JoinLeft(lrows, rrows, lk, rk, ep) == JoinOne(lrows[0], rrows, lk, rk, ep) + rest;
    }
  }

  /** A right-only row is Null in every left column that is not a key. */
  lemma {:induction false} RightOnlyPadding(rrows: seq<Row>, rk: seq<nat>, leftKeys: seq<seq<Cell>>, back: seq<int>,
                                            ep: seq<nat>)
    ensures forall o, p :: o in RightOnly(rrows, rk, leftKeys, back, ep) && 0 <= p < |back| && back[p] < 0 ==>
              o[p] == Null
  {
    if |rrows| > 0 {
      RightOnlyPadding(rrows[1..], rk, leftKeys, back, ep);
    }
  }

  /** Every left row opens the row of the same index, unchanged. */
  ghost predicate LeftRowsKept(l: Table, m: Table) {
    && |m.rows| >= |l.rows| && |m.cols| >= |l.cols|
    && forall i :: 0 <= i < |l.rows| ==> |m.rows[i]| == |m.cols| && m.rows[i][..|l.cols|] == l.rows[i]
  }

  /** A left row whose key tuple is not in `rkeys` is Null past the left columns. */
  ghost predicate UnmatchedPadded(l: Table, lkeys: seq<seq<Cell>>, rkeys: seq<seq<Cell>>, m: Table) {
    forall i, p ::
      (0 <= i < |l.rows| && i < |lkeys| && lkeys[i] !in rkeys && i < |m.rows| && |l.cols| <= p < |m.rows[i]|)
      ==> m.rows[i][p] == Null
  }

  /** Every row after the left ones is Null in the left non-key columns. */
  ghost predicate RightOnlyPadded(l: Table, keys: seq<string>, m: Table) {
    forall i, p :: |l.rows| <= i < |m.rows| && 0 <= p < |l.cols| && p < |m.rows[i]| && l.cols[p] !in keys ==>
                   m.rows[i][p] == Null
  }

  lemma LeftRowsOfJoin(lrows: seq<Row>, rrows: seq<Row>, lk: seq<nat>, rk: seq<nat>, ep: seq<nat>,
                       rest: seq<Row>, out: seq<Row>)
    requires Distinct(KeysOf(rrows, rk))
    requires out == JoinLeft(lrows, rrows, lk, rk, ep) + rest
    ensures |out| >= |lrows|
    ensures forall i :: 0 <= i < |lrows| ==> out[i] == lrows[i] + MatchOrNulls(lrows[i], rrows, lk, rk, ep)
  {
    JoinLeftRows(lrows, rrows, lk, rk, ep);
  }

  lemma UnmatchedOfJoin(lrows: seq<Row>, rrows: seq<Row>, lk: seq<nat>, rk: seq<nat>, ep: seq<nat>,
                        rest: seq<Row>, out: seq<Row>, n: nat)
    requires Distinct(KeysOf(rrows, rk))
    requires out == JoinLeft(lrows, rrows, lk, rk, ep) + rest
    requires forall i :: 0 <= i < |lrows| ==> |lrows[i]| == n
    ensures forall i, p ::
              (0 <= i < |lrows| && KeyTuple(lrows[i], lk) !in KeysOf(rrows, rk) && i < |out| && n <= p < |out[i]|)
              ==> out[i][p] == Null
  {
    LeftRowsOfJoin(lrows, rrows, lk, rk, ep, rest, out);
    forall i | 0 <= i < |lrows| && KeyTuple(lrows[i], lk) !in KeysOf(rrows, rk)
      ensures out[i] == lrows[i] + Nulls(|ep|)
    {
      MatchOrNullsSpec(lrows[i], rrows, lk, rk, ep, 0);
    }
  }

  lemma PaddedOfJoin(rrows: seq<Row>, rk: seq<nat>, leftKeys: seq<seq<Cell>>, back: seq<int>, ep: seq<nat>,
                     left: seq<Row>, out: seq<Row>)
    requires out == left + RightOnly(rrows, rk, leftKeys, back, ep)
    ensures forall i, p :: |left| <= i < |out| && 0 <= p < |back| && back[p] < 0 ==> out[i][p] == Null
  {
    var right := RightOnly(rrows, rk, leftKeys, back, ep);
    RightOnlyPadding(rrows, rk, leftKeys, back, ep);
    forall i, p | |left| <= i < |out| && 0 <= p < |back| && back[p] < 0
      ensures out[i][p] == Null
    {
      assert out[i] == right[i - |left|];
      assert out[i] in right;
    }
  }

  lemma OuterJoinLeftKept(l: Table, r: Table, keys: seq<string>, m: Table)
    requires WellFormed(l) && WellFormed(r)
    requires forall i :: 0 <= i < |keys| ==> keys[i] in l.cols && keys[i] in r.cols
    requires m == OuterJoin(l, r, keys)
    requires Distinct(TableKeys(r, keys))
    ensures LeftRowsKept(l, m)
  {
    var lk := KeyPositions(l.cols, keys);
    var rk := KeyPositions(r.cols, keys);
    var ep := Kept(r.cols, SetOf(keys), 0);
    var back := BackPositions(l.cols, r.cols, keys);
    var right := RightOnly(r.rows, rk, KeysOf(l.rows, lk), back, ep);
    LeftRowsOfJoin(l.rows, r.rows, lk, rk, ep, right, m.rows);
    forall i | 0 <= i < |l.rows|
      ensures m.rows[i][..|l.cols|] == l.rows[i]
    {
      assert |l.rows[i]| == |l.cols|;
    }
  }

  lemma OuterJoinUnmatched(l: Table, r: Table, keys: seq<string>, m: Table)
    requires WellFormed(l) && WellFormed(r)
    requires forall i :: 0 <= i < |keys| ==> keys[i] in l.cols && keys[i] in r.cols
    requires m == OuterJoin(l, r, keys)
    requires Distinct(TableKeys(r, keys))
    ensures UnmatchedPadded(l, TableKeys(l, keys), TableKeys(r, keys), m)
  {
    var lk := KeyPositions(l.cols, keys);
    var rk := KeyPositions(r.cols, keys);
    var ep := Kept(r.cols, SetOf(keys), 0);
    var back := BackPositions(l.cols, r.cols, keys);
    var right := RightOnly(r.rows, rk, KeysOf(l.rows, lk), back, ep);
    UnmatchedOfJoin(l.rows, r.rows, lk, rk, ep, right, m.rows, |l.cols|);
  }

  lemma OuterJoinRightPadded(l: Table, r: Table, keys: seq<string>, m: Table)
    requires WellFormed(l) && WellFormed(r)
    requires forall i :: 0 <= i < |keys| ==> keys[i] in l.cols && keys[i] in r.cols
    requires m == OuterJoin(l, r, keys)
    requires Distinct(TableKeys(r, keys))
    ensures RightOnlyPadded(l, keys, m)
  {
    var lk := KeyPositions(l.cols, keys);
    var rk := KeyPositions(r.cols, keys);
    var ep := Kept(r.cols, SetOf(keys), 0);
    var back := BackPositions(l.cols, r.cols, keys);
    var left := JoinLeft(l.rows, r.rows, lk, rk, ep);
    assert m.rows == left + RightOnly(r.rows, rk, KeysOf(l.rows, lk), back, ep);
    PaddedOfJoin(r.rows, rk, KeysOf(l.rows, lk), back, ep, left, m.rows);
    JoinLeftRows(l.rows, r.rows, lk, rk, ep);
    forall p | 0 <= p < |l.cols| && l.cols[p] !in keys
      ensures back[p] < 0
    {
    }
  }

  /** A left row whose key tuple matches right row `j` carries, in every
      column after the left ones, the value right row `j` holds under that
      column's name. */
  ghost predicate MatchedFilled(l: Table, r: Table, lkeys: seq<seq<Cell>>, rkeys: seq<seq<Cell>>, m: Table) {
    forall i, j, q ::
      (&& 0 <= i < |l.rows| && i < |lkeys| && i < |m.rows| && 0 <= j < |r.rows| && j < |rkeys|
       && lkeys[i] == rkeys[j] && |l.cols| <= q < |m.cols| && q < |m.rows[i]| && m.cols[q] in r.cols
       && |r.rows[j]| == |r.cols|)
      ==> m.rows[i][q] == Get(r.cols, r.rows[j], m.cols[q])
  }

  /** A left row that matched right row `j` ends, after its own cells, with
      the picked cells of row `j`. */
  lemma MatchedCell(lr: Row, rrows: seq<Row>, lk: seq<nat>, rk: seq<nat>, ep: seq<nat>, o: Row, j: nat, k: nat)
    requires Distinct(KeysOf(rrows, rk))
    requires o == lr + MatchOrNulls(lr, rrows, lk, rk, ep)
    requires j < |rrows| && KeyTuple(lr, lk) == KeysOf(rrows, rk)[j]
    requires k < |ep| && ep[k] < |rrows[j]|
    ensures |lr| + k < |o| && o[|lr| + k] == rrows[j][ep[k]]
  {
    MatchOrNullsSpec(lr, rrows, lk, rk, ep, j);
  }

  lemma JoinMatched(l: Table, r: Table, lk: seq<nat>, rk: seq<nat>, ep: seq<nat>, right: seq<Row>, m: Table)
    requires WellFormed(l) && WellFormed(r) && Distinct(r.cols) && Distinct(KeysOf(r.rows, rk))
    requires forall k :: 0 <= k < |ep| ==> ep[k] < |r.cols|
    requires m.cols == l.cols + Pick(r.cols, ep, "")
    requires m.rows == JoinLeft(l.rows, r.rows, lk, rk, ep) + right
    ensures MatchedFilled(l, r, KeysOf(l.rows, lk), KeysOf(r.rows, rk), m)
  {
    var lkeys, rkeys := KeysOf(l.rows, lk), KeysOf(r.rows, rk);
    LeftRowsOfJoin(l.rows, r.rows, lk, rk, ep, right, m.rows);
    forall i, j, q |
      && 0 <= i < |l.rows| && i < |lkeys| && i < |m.rows| && 0 <= j < |r.rows| && j < |rkeys|
      && lkeys[i] == rkeys[j] && |l.cols| <= q < |m.cols| && q < |m.rows[i]| && m.cols[q] in r.cols
      && |r.rows[j]| == |r.cols|
      ensures m.rows[i][q] == Get(r.cols, r.rows[j], m.cols[q])
    {
      JoinMatchedCell(l, r, lk, rk, ep, m.cols, m.rows[i], i, j, q);
    }
  }

  lemma JoinMatchedCell(l: Table, r: Table, lk: seq<nat>, rk: seq<nat>, ep: seq<nat>, cols: seq<string>, o: Row,
                        i: nat, j: nat, q: nat)
    requires WellFormed(l) && WellFormed(r) && Distinct(r.cols) && Distinct(KeysOf(r.rows, rk))
    requires forall k :: 0 <= k < |ep| ==> ep[k] < |r.cols|
    requires cols == l.cols + Pick(r.cols, ep, "")
    requires i < |l.rows| && o == l.rows[i] + MatchOrNulls(l.rows[i], r.rows, lk, rk, ep)
    requires j < |r.rows| && KeysOf(l.rows, lk)[i] == KeysOf(r.rows, rk)[j]
    requires |l.cols| <= q < |cols| && q < |o|
    ensures cols[q] in r.cols && o[q] == Get(r.cols, r.rows[j], cols[q])
  {
    var k := q - |l.cols|;
    var c := r.cols[ep[k]];
    assert |l.rows[i]| == |l.cols| && |r.rows[j]| == |r.cols|;
    MatchedCell(l.rows[i], r.rows, lk, rk, ep, o, j, k);
    ColumnAfterLeft(l.cols, r.cols, ep, cols, q);
    GetDistinct(r.cols, r.rows[j], ep[k]);
    assert o[q] == r.rows[j][ep[k]] && cols[q] == c;
  }

  /** A merged column after the left ones is a picked right column. */
  lemma ColumnAfterLeft(lcols: seq<string>, rcols: seq<string>, ep: seq<nat>, cols: seq<string>, q: nat)
    requires cols == lcols + Pick(rcols, ep, "") && |lcols| <= q < |cols|
    requires forall k :: 0 <= k < |ep| ==> ep[k] < |rcols|
    ensures ep[q - |lcols|] < |rcols| && cols[q] == rcols[ep[q - |lcols|]]
  {
  }

  /** With distinct names, the cell under the name of column `k` is cell `k`. */
  lemma GetDistinct(cols: seq<string>, row: Row, k: nat)
    requires Distinct(cols) && k < |cols| && |row| == |cols|
    ensures cols[k] in cols && Get(cols, row, cols[k]) == row[k]
  {
    IndexOfDistinct(cols, k);
  }

  lemma OuterJoinMatched(l: Table, r: Table, keys: seq<string>, m: Table)
    requires WellFormed(l) && WellFormed(r) && Distinct(r.cols)
    requires forall i :: 0 <= i < |keys| ==> keys[i] in l.cols && keys[i] in r.cols
    requires m == OuterJoin(l, r, keys)
    requires Distinct(TableKeys(r, keys))
    ensures MatchedFilled(l, r, TableKeys(l, keys), TableKeys(r, keys), m)
  {
    var lk := KeyPositions(l.cols, keys);
    var rk := KeyPositions(r.cols, keys);
    var ep := Kept(r.cols, SetOf(keys), 0);
    var back := BackPositions(l.cols, r.cols, keys);
    JoinMatched(l, r, lk, rk, ep, RightOnly(r.rows, rk, KeysOf(l.rows, lk), back, ep), m);
  }

  /** Dropping columns from the right table keeps what matched rows receive. */
  lemma MatchedFilledDrop(l: Table, r: Table, r2: Table, lkeys: seq<seq<Cell>>, rkeys: seq<seq<Cell>>, m: Table,
                          names: set<string>)
    requires WellFormed(r) && Distinct(r.cols) && r2 == DropColumns(r, names)
    requires forall q :: |l.cols| <= q < |m.cols| ==> m.cols[q] in r2.cols
    requires MatchedFilled(l, r2, lkeys, rkeys, m)
    ensures MatchedFilled(l, r, lkeys, rkeys, m)
  {
    forall i, j, q |
      && 0 <= i < |l.rows| && i < |lkeys| && i < |m.rows| && 0 <= j < |r.rows| && j < |rkeys|
      && lkeys[i] == rkeys[j] && |l.cols| <= q < |m.cols| && q < |m.rows[i]| && m.cols[q] in r.cols
      ensures m.rows[i][q] == Get(r.cols, r.rows[j], m.cols[q])
    {
      assert Get(r2.cols, r2.rows[j], m.cols[q]) == Get(r.cols, r.rows[j], m.cols[q]);
    }
  }

  /** The rows of a merge step, with unique right keys: left row `i` is
      row `i` of the result, with all its own values (left values win over
      the dropped right duplicates); it is padded with Null when no right
      row shares its key; rows after the left ones come from unmatched
      right rows and are Null in every left non-key column.  A left row
      whose key tuple matches right row `j` carries row `j`'s values in the
      columns only the right table has. */
  lemma MergePairRows(l: Table, r: Table, keys: seq<string>, m: Table)
    requires WellFormed(l) && WellFormed(r) && Distinct(l.cols) && Distinct(r.cols)
    requires MergePair(l, r) == Ok(m) && keys == SharedKeys(l.cols, r.cols)
    requires Distinct(TableKeys(r, keys))
    ensures LeftRowsKept(l, m)
    ensures UnmatchedPadded(l, TableKeys(l, keys), TableKeys(r, keys), m)
    ensures RightOnlyPadded(l, keys, m)
    ensures MatchedFilled(l, r, TableKeys(l, keys), TableKeys(r, keys), m)
  {
    var r2 := DropColumns(r, Overlap(l.cols, r.cols, keys));
    MergePairIsJoin(l, r, keys, r2);
    OuterJoinLeftKept(l, r2, keys, m);
    OuterJoinUnmatched(l, r2, keys, m);
    OuterJoinRightPadded(l, r2, keys, m);
    OuterJoinMatched(l, r2, keys, m);
    MatchedFilledDrop(l, r, r2, TableKeys(l, keys), TableKeys(r, keys), m, Overlap(l.cols, r.cols, keys));
  }

  /** Tables as read back from the interim CSV files. */
  predicate Frames(ts: seq<Table>) {
    forall i :: 0 <= i < |ts| ==> WellFormed(ts[i]) && Distinct(ts[i].cols)
  }

  /** `outer_join_on_keys`: `reduce(_merge, dfs)`, a left fold; `reduce`
      raises on an empty list. */
  function MergeAll(ts: seq<Table>): (r: Result<Table, MergeError>)
    requires Frames(ts)
    ensures r == Err(NoFrames) <==> |ts| == 0
    ensures r.Err? && |ts| > 0 ==> r.error == NoSharedKey
    ensures |ts| == 1 ==> r.Ok? && r.value == ts[0]
    ensures r.Ok? ==> WellFormed(r.value) && Distinct(r.value.cols)
    ensures r.Ok? ==> |r.value.cols| >= |ts[0].cols| && r.value.cols[..|ts[0].cols|] == ts[0].cols
    decreases |ts|
  {
    if |ts| == 0 then Err(NoFrames)
    else if |ts| == 1 then Ok(ts[0])
    else
      var acc :- MergeAll(ts[..|ts| - 1]);
      var last := ts[|ts| - 1];
      if MergePair(acc, last).Err? then MergePair(acc, last)
      else
        MergePairColumns(acc, last);
        MergePair(acc, last)
  }

  /** The merged table has exactly the column names of the inputs. */
  lemma {:induction false} MergeAllColumns(ts: seq<Table>)
    requires Frames(ts)
    ensures MergeAll(ts).Ok? ==> forall c :: c in MergeAll(ts).value.cols <==> exists i :: 0 <= i < |ts| && c in ts[i].cols
    decreases |ts|
  {
    if |ts| > 1 && MergeAll(ts).Ok? {
      var init := ts[..|ts| - 1];
      var last := ts[|ts| - 1];
      MergeAllColumns(init);
      var acc := MergeAll(init).value;
      MergePairColumns(acc, last);
      var m := MergeAll(ts).value;
      assert m == MergePair(acc, last).value;
      ColumnsGrow(ts, init, acc.cols, m.cols);
    }
  }

  /** Appending the columns of the last table that the running merge lacks
      gives the columns of every table. */
  lemma ColumnsGrow(ts: seq<Table>, init: seq<Table>, acc: seq<string>, cols: seq<string>)
    requires |ts| > 1 && init == ts[..|ts| - 1]
    requires forall c :: c in acc <==> exists i :: 0 <= i < |init| && c in init[i].cols
    requires |cols| >= |acc| && cols[..|acc|] == acc
    requires forall c :: c in cols[|acc|..] <==> c in ts[|ts| - 1].cols && c !in acc
    ensures forall c :: c in cols <==> exists i :: 0 <= i < |ts| && c in ts[i].cols
  {
    var last := ts[|ts| - 1];
    assert cols == cols[..|acc|] + cols[|acc|..];
    forall c | c in cols
      ensures exists i :: 0 <= i < |ts| && c in ts[i].cols
    {
      if c in acc {
        var i :| 0 <= i < |init| && c in init[i].cols;
        assert ts[i] == init[i];
      } else {
        assert c in cols[|acc|..];
      }
    }
    forall c, i | 0 <= i < |ts| && c in ts[i].cols
      ensures c in cols
    {
      if i < |ts| - 1 {
        assert init[i] == ts[i];
        assert c in cols[..|acc|];
      } else if c !in acc {
        assert c in cols[|acc|..];
      } else {
        assert c in cols[..|acc|];
      }
    }
  }

  /** Table `i` has an identifying column that some earlier table has too. */
  predicate SharesKey(ts: seq<Table>, i: nat)
    requires i < |ts|
  {
    exists k :: k in Keys && k in ts[i].cols && SeenBefore(ts, i, k)
  }

  /** Some table before table `i` has the column `k`. */
  predicate SeenBefore(ts: seq<Table>, i: nat, k: string)
    requires i <= |ts|
  {
    exists j :: 0 <= j < i && k in ts[j].cols
  }

  /** Every table after the first shares an identifying column with the
      tables before it. */
  predicate Chained(ts: seq<Table>) {
    forall i :: 0 < i < |ts| ==> SharesKey(ts, i)
  }

  /** The fold succeeds exactly when every table after the first shares an
      identifying column with some table before it, since the running merge
      holds every earlier column. */
  lemma {:induction false} MergeAllSucceeds(ts: seq<Table>)
    requires Frames(ts) && |ts| > 0
    ensures MergeAll(ts).Ok? <==> Chained(ts)
    decreases |ts|
  {
    if |ts| > 1 {
      var init := ts[..|ts| - 1];
      var last := ts[|ts| - 1];
      var n := |ts| - 1;
      MergeAllSucceeds(init);
      ChainedStep(ts);
      if MergeAll(init).Ok? {
        var acc := MergeAll(init).value;
        MergeAllColumns(init);
        assert MergeAll(ts) == MergePair(acc, last);
        SharedKeysSeen(ts, init, acc);
      }
    }
  }

  /** A chain is a shorter chain plus its last link. */
  lemma ChainedStep(ts: seq<Table>)
    requires |ts| > 1
    ensures Chained(ts) <==> Chained(ts[..|ts| - 1]) && SharesKey(ts, |ts| - 1)
  {
    var init := ts[..|ts| - 1];
    forall i | 0 < i < |init|
      ensures SharesKey(ts, i) <==> SharesKey(init, i)
    {
      assert ts[i] == init[i];
      forall k
        ensures SeenBefore(ts, i, k) <==> SeenBefore(init, i, k)
      {
        if SeenBefore(ts, i, k) {
          var j :| 0 <= j < i && k in ts[j].cols;
          assert init[j] == ts[j];
        }
        if SeenBefore(init, i, k) {
          var j :| 0 <= j < i && k in init[j].cols;
          assert init[j] == ts[j];
        }
      }
    }
  }

  /** When `acc` holds exactly the columns of every table but the last, the
      last table shares a key with `acc` exactly when it shares one with an
      earlier table. */
  lemma SharedKeysSeen(ts: seq<Table>, init: seq<Table>, acc: Table)
    requires |ts| > 1 && init == ts[..|ts| - 1]
    requires forall c :: c in acc.cols <==> exists i :: 0 <= i < |init| && c in init[i].cols
    ensures |SharedKeys(acc.cols, ts[|ts| - 1].cols)| > 0 <==> SharesKey(ts, |ts| - 1)
  {
    var n := |ts| - 1;
    var ks := SharedKeys(acc.cols, ts[n].cols);
    if |ks| > 0 {
      var k := ks[0];
      assert k in ks;
      var j :| 0 <= j < |init| && k in init[j].cols;
      assert k in ts[j].cols;
      assert SeenBefore(ts, n, k);
    }
    if SharesKey(ts, n) {
      var k :| k in Keys && k in ts[n].cols && SeenBefore(ts, n, k);
      var j :| 0 <= j < n && k in ts[j].cols;
      assert k in init[j].cols;
      assert k in ks;
    }
  }

  /** The table has every identifying column. */
  predicate HasKeys(t: Table) {
    forall i :: 0 <= i < |Keys| ==> Keys[i] in t.cols
  }

  /** The key tuples in `all` are exactly those found in some table of `ts`. */
  ghost predicate KeysCover(all: seq<seq<Cell>>, ts: seq<Table>) {
    forall k :: k in all <==> exists i :: 0 <= i < |ts| && HasKeys(ts[i]) && k in TableKeys(ts[i], Keys)
  }

  lemma SharedKeysAll(l: Table, r: Table)
    requires HasKeys(l) && HasKeys(r)
    ensures SharedKeys(l.cols, r.cols) == Keys
  {
    assert Keys[0] in l.cols && Keys[0] in r.cols;
    assert Keys[1] in l.cols && Keys[1] in r.cols;
    assert Keys[2] in l.cols && Keys[2] in r.cols;
  }

  /** When every interim table has all three identifying columns and holds
      each key tuple once, the fold succeeds and the panel holds each key
      tuple once: exactly the key tuples found in any input table. */
  lemma {:induction false} MergeAllKeys(ts: seq<Table>)
    requires Frames(ts) && |ts| > 0
    requires forall i :: 0 <= i < |ts| ==> HasKeys(ts[i]) && Distinct(TableKeys(ts[i], Keys))
    ensures MergeAll(ts).Ok? && HasKeys(MergeAll(ts).value)
    ensures Distinct(TableKeys(MergeAll(ts).value, Keys))
    ensures KeysCover(TableKeys(MergeAll(ts).value, Keys), ts)
    decreases |ts|
  {
    if |ts| == 1 {
      var m := MergeAll(ts).value;
      assert m == ts[0];
      forall k | k in TableKeys(m, Keys)
        ensures exists i :: 0 <= i < |ts| && HasKeys(ts[i]) && k in TableKeys(ts[i], Keys)
      {
        assert HasKeys(ts[0]) && k in TableKeys(ts[0], Keys);
      }
    } else {
      var init := ts[..|ts| - 1];
      var last := ts[|ts| - 1];
      MergeAllKeys(init);
      var acc := MergeAll(init).value;
      SharedKeysAll(acc, last);
      var m := MergePair(acc, last).value;
      assert MergeAll(ts) == Ok(m);
      MergePairUniqueKeys(acc, last, Keys, m);
      MergePairKeyUnion(acc, last, Keys, m);
      KeysCoverStep(TableKeys(m, Keys), TableKeys(acc, Keys), ts);
    }
  }

  lemma KeysCoverStep(all: seq<seq<Cell>>, prev: seq<seq<Cell>>, ts: seq<Table>)
    requires |ts| > 1 && HasKeys(ts[|ts| - 1])
    requires KeysCover(prev, ts[..|ts| - 1])
    requires KeyUnion(all, prev, TableKeys(ts[|ts| - 1], Keys))
    ensures KeysCover(all, ts)
  {
    var init := ts[..|ts| - 1];
    forall k | k in all
      ensures exists i :: 0 <= i < |ts| && HasKeys(ts[i]) && k in TableKeys(ts[i], Keys)
    {
      if k in prev {
        var i :| 0 <= i < |init| && HasKeys(init[i]) && k in TableKeys(init[i], Keys);
        assert ts[i] == init[i];
      }
    }
    forall k, i | 0 <= i < |ts| && HasKeys(ts[i]) && k in TableKeys(ts[i], Keys)
      ensures k in all
    {
      if i < |ts| - 1 {
        assert init[i] == ts[i];
      }
    }
  }
}
