/** The column configuration and `map_headers`, which renames columns
    through the reverse alias dictionary built from the configuration. */
module Aliases {
  import opened Text
  import opened Tables
  import opened Wrappers

  /** One `std_key: [alias, ...]` entry of a configuration group. */
  datatype AliasEntry = AliasEntry(key: string, aliases: seq<string>)

  /** A scalar as `yaml.safe_load` returns it: an empty value is null. */
  datatype Scalar = YamlNull | YamlBool(b: bool) | YamlInt(i: int) | YamlFloat(x: real) | YamlText(s: string)

  /** Python's `bool(v)`: null, false, zero and the empty text are false. */
  predicate Truthy(v: Scalar) {
    match v
    case YamlNull => false
    case YamlBool(b) => b
    case YamlInt(i) => i != 0
    case YamlFloat(x) => x != 0.0
    case YamlText(s) => |s| > 0
  }

  /** The loaded `columns_config.yaml`.  A group that is missing or empty is
      an empty sequence; a YAML mapping's order is the sequence order.
      `storeAsPercent` is None when the key is absent. */
  datatype Config = Config(
    standardKeys: seq<AliasEntry>,
    targets: seq<AliasEntry>,
    features: seq<AliasEntry>,
    storeAsPercent: Option<Scalar>)

  /** `bool(cfg.get("store_as_percent", True))`: an absent key means percent,
      a present key counts by its truthiness, so an empty value means
      proportions. */
  function AsPercent(cfg: Config): (b: bool)
    ensures cfg.storeAsPercent.None? ==> b
    ensures cfg.storeAsPercent == Some(YamlNull) ==> !b
    ensures cfg.storeAsPercent.Some? && cfg.storeAsPercent.value.YamlBool? ==>
              b == cfg.storeAsPercent.value.b
  {
    match cfg.storeAsPercent
    case None => true
    case Some(v) => Truthy(v)
  }

  /** The writes `rev[a.lower()] = std_key` one entry performs, in order. */
  function EntryWrites(e: AliasEntry): (w: seq<(string, string)>)
    ensures |w| == |e.aliases|
    ensures forall i :: 0 <= i < |w| ==> w[i] == (Lower(e.aliases[i]), e.key)
  {
    seq(|e.aliases|, i requires 0 <= i < |e.aliases| => (Lower(e.aliases[i]), e.key))
  }

  /** The writes one group performs, entry after entry. */
  function GroupWrites(entries: seq<AliasEntry>): seq<(string, string)> {
    if |entries| == 0 then [] else EntryWrites(entries[0]) + GroupWrites(entries[1..])
  }

  /** Every write of a group comes from one of its entries. */
  lemma {:induction false} GroupWritesFromEntries(entries: seq<AliasEntry>, i: nat)
    requires i < |GroupWrites(entries)|
    ensures exists e :: e in entries && GroupWrites(entries)[i].1 == e.key &&
                        GroupWrites(entries)[i].0 in Lowered(e.aliases)
  {
    var w := EntryWrites(entries[0]);
    if i < |w| {
      assert GroupWrites(entries)[i] == w[i];
      assert w[i].0 == Lowered(entries[0].aliases)[i];
    } else {
      GroupWritesFromEntries(entries[1..], i - |w|);
      assert GroupWrites(entries)[i] == GroupWrites(entries[1..])[i - |w|];
    }
  }

  function Lowered(names: seq<string>): (r: seq<string>)
    ensures |r| == |names| && forall i :: 0 <= i < |names| ==> r[i] == Lower(names[i])
  {
    seq(|names|, i requires 0 <= i < |names| => Lower(names[i]))
  }

  /** The dictionary obtained by performing the writes in order. */
  function Assign(writes: seq<(string, string)>): (m: map<string, string>)
    ensures m.Keys == set i | 0 <= i < |writes| :: writes[i].0
    ensures forall i :: 0 <= i < |writes| &&
                        (forall j :: i < j < |writes| ==> writes[j].0 != writes[i].0) ==>
                        m[writes[i].0] == writes[i].1
    ensures forall k :: k in m ==> exists i :: 0 <= i < |writes| && writes[i] == (k, m[k])
  {
    if |writes| == 0 then map[]
    else
      var last := writes[|writes| - 1];
      var m := Assign(writes[..|writes| - 1]);
      AssignStep(writes, m);
      m[last.0 := last.1]
  }

  /** `m` holds, for every key written, the last value written to it. */
  ghost predicate Performs(writes: seq<(string, string)>, m: map<string, string>) {
    && m.Keys == (set i | 0 <= i < |writes| :: writes[i].0)
    && (forall i :: 0 <= i < |writes| && (forall j :: i < j < |writes| ==> writes[j].0 != writes[i].0) ==>
                    writes[i].0 in m && m[writes[i].0] == writes[i].1)
    && (forall k :: k in m ==> exists i :: 0 <= i < |writes| && writes[i] == (k, m[k]))
  }

  /** One more write on top of the dictionary of the earlier ones. */
  lemma AssignStep(writes: seq<(string, string)>, m: map<string, string>)
    requires |writes| > 0 && Performs(writes[..|writes| - 1], m)
    ensures Performs(writes, m[writes[|writes| - 1].0 := writes[|writes| - 1].1])
  {
    var n := |writes| - 1;
    var init := writes[..n];
    assert forall i :: 0 <= i < n ==> init[i] == writes[i];
    var r := m[writes[n].0 := writes[n].1];
    assert r.Keys == m.Keys + {writes[n].0};
    forall k | k in r
      ensures exists i :: 0 <= i < |writes| && writes[i] == (k, r[k])
    {
      if k != writes[n].0 {
        var i :| 0 <= i < n && init[i] == (k, m[k]);
        assert writes[i] == (k, r[k]);
      }
    }
  }

  /** Performing two runs of writes is a right-biased union: the later run wins. */
  lemma {:induction false} AssignConcat(xs: seq<(string, string)>, ys: seq<(string, string)>)
    ensures Assign(xs + ys) == Assign(xs) + Assign(ys)
  {
    if |ys| == 0 {
      assert xs + ys == xs;
    } else {
      var ys' := ys[..|ys| - 1];
      var last := ys[|ys| - 1];
      assert (xs + ys)[..|xs + ys| - 1] == xs + ys';
      assert (xs + ys)[|xs + ys| - 1] == last;
      calc {
        Assign(xs + ys);
        Assign(xs + ys')[last.0 := last.1];
        { AssignConcat(xs, ys'); }
        (Assign(xs) + Assign(ys'))[last.0 := last.1];
        { UnionUpdate(Assign(xs), Assign(ys'), last.0, last.1); }
        Assign(xs) + Assign(ys')[last.0 := last.1];
        { assert ys[..|ys| - 1] == ys'; }
        Assign(xs) + Assign(ys);
      }
    }
  }

  lemma UnionUpdate(a: map<string, string>, b: map<string, string>, k: string, v: string)
    ensures (a + b)[k := v] == a + b[k := v]
  {
  }

  /** The reverse alias dictionary `rev` of `map_headers`: groups are scanned
      as standard_keys, then targets, then features. */
  function ReverseAliases(cfg: Config): map<string, string> {
    Assign(GroupWrites(cfg.standardKeys) + GroupWrites(cfg.targets) + GroupWrites(cfg.features))
  }

  /** The dictionary one group alone would build. */
  function GroupMap(entries: seq<AliasEntry>): map<string, string> {
    Assign(GroupWrites(entries))
  }

  /** An alias listed in several groups resolves through the last group
      scanned: features over targets over standard_keys; and it always
      resolves to the key of an entry that lists it. */
  lemma ReverseAliasPrecedence(cfg: Config, a: string)
    ensures a in GroupMap(cfg.features) ==>
              a in ReverseAliases(cfg) && ReverseAliases(cfg)[a] == GroupMap(cfg.features)[a]
    ensures a !in GroupMap(cfg.features) && a in GroupMap(cfg.targets) ==>
              a in ReverseAliases(cfg) && ReverseAliases(cfg)[a] == GroupMap(cfg.targets)[a]
    ensures a !in GroupMap(cfg.features) && a !in GroupMap(cfg.targets) ==>
              (a in ReverseAliases(cfg) <==> a in GroupMap(cfg.standardKeys)) &&
              (a in GroupMap(cfg.standardKeys) ==>
                 ReverseAliases(cfg)[a] == GroupMap(cfg.standardKeys)[a])
  {
    var s, t, f := GroupWrites(cfg.standardKeys), GroupWrites(cfg.targets), GroupWrites(cfg.features);
    AssignConcat(s, t);
    AssignConcat(s + t, f);
  }

  /** A group's dictionary maps an alias only to the key of an entry of that
      group whose lower-cased aliases include it. */
  lemma GroupMapSound(entries: seq<AliasEntry>, a: string)
    requires a in GroupMap(entries)
    ensures exists e :: e in entries && e.key == GroupMap(entries)[a] && a in Lowered(e.aliases)
  {
    var w := GroupWrites(entries);
    var i :| 0 <= i < |w| && w[i] == (a, GroupMap(entries)[a]);
    GroupWritesFromEntries(entries, i);
  }

  /** `map_headers`: every column whose name is a key of `rev` is renamed to
      its canonical key; the others, the order and the rows are kept. */
  function MapHeaders(t: Table, cfg: Config): (r: Table)
    ensures r.rows == t.rows && |r.cols| == |t.cols|
    ensures forall k :: 0 <= k < |t.cols| ==> r.cols[k] == Renamed(ReverseAliases(cfg), t.cols[k])
    ensures WellFormed(t) ==> WellFormed(r)
  {
    RenameColumns(t, ReverseAliases(cfg))
  }
}
