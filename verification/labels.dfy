/** `infer_label_from_path` and `prepare_df` of the preprocessing stage. */
module Labels {
  import opened Text
  import opened Tables
  import opened Wrappers

  /** The position of the last '.' of a file name, if any (`str.rfind`). */
  function LastDot(name: string): (r: Option<nat>)
    ensures r.Some? ==> r.value < |name| && name[r.value] == '.' &&
                        forall j :: r.value < j < |name| ==> name[j] != '.'
    ensures r.None? ==> forall j :: 0 <= j < |name| ==> name[j] != '.'
  {
    if |name| == 0 then None
    else if name[|name| - 1] == '.' then Some(|name| - 1)
    else LastDot(name[..|name| - 1])
  }

  /** Whether the last dot starts a suffix: it is neither the first nor the
      last character of the name. */
  predicate HasSuffix(name: string) {
    var d := LastDot(name);
    d.Some? && 0 < d.value < |name| - 1
  }

  /** `Path.suffix` of a file name: from the last dot on, or "". */
  function Suffix(name: string): (s: string)
    ensures |s| <= |name|
    ensures HasSuffix(name) ==> |s| >= 2 && s[0] == '.' && forall j :: 1 <= j < |s| ==> s[j] != '.'
    ensures !HasSuffix(name) ==> s == ""
  {
    if HasSuffix(name) then name[LastDot(name).value..] else ""
  }

  /** `Path.stem` of a file name: the name without its suffix. */
  function Stem(name: string): (s: string)
    ensures s <= name
    ensures HasSuffix(name) ==> 0 < |s| < |name| - 1
  {
    if HasSuffix(name) then name[..LastDot(name).value] else name
  }

  /** The stem and the suffix put back together give the name. */
  lemma StemSuffix(name: string)
    ensures Stem(name) + Suffix(name) == name
  {
  }

  /** "obesity_2020.csv" has stem "obesity_2020"; ".csv" has no suffix. */
  lemma StemExamples()
    ensures Stem("obesity_2020.csv") == "obesity_2020"
    ensures Stem(".csv") == ".csv"
    ensures Stem("data.") == "data."
  {
    var n := "obesity_2020.csv";
    assert n[12] == '.' && forall j :: 0 <= j < |n| && j != 12 ==> n[j] != '.';
    assert LastDot(n) == Some(12);
    assert ".csv"[0] == '.' && forall j :: 1 <= j < 4 ==> ".csv"[j] != '.';
    assert LastDot(".csv") == Some(0);
    assert LastDot("data.") == Some(4);
  }

  /** The label of an interim file from its lower-cased stem. */
  function InferLabel(fileName: string): (tag: string)
    ensures var s := Lower(Stem(fileName));
            && (tag == "obesity" <==> Contains(s, "obesity"))
            && (tag == "inactivity" <==> !Contains(s, "obesity") && Contains(s, "inactivity"))
            && (tag == "smoking" <==>
                  !Contains(s, "obesity") && !Contains(s, "inactivity") && Contains(s, "smoking"))
            && (tag == "diabetes" <==>
                  !Contains(s, "obesity") && !Contains(s, "inactivity") && !Contains(s, "smoking") &&
                  Contains(s, "diabetes"))
            && (tag == "unknown" <==>
                  !Contains(s, "obesity") && !Contains(s, "inactivity") && !Contains(s, "smoking") &&
                  !Contains(s, "diabetes"))
    ensures tag != "unknown" ==> Contains(Lower(Stem(fileName)), tag)
  {
    var s := Lower(Stem(fileName));
    if Contains(s, "obesity") then "obesity"
    else if Contains(s, "inactivity") then "inactivity"
    else if Contains(s, "smoking") then "smoking"
    else if Contains(s, "diabetes") then "diabetes"
    else "unknown"
  }

  /** The name `prepare_df` gives the `percentage` column. */
  function TargetName(tag: string): string {
    if tag == "diabetes" then "diabetes_prevalence" else tag + "_prevalence"
  }

  /** The diabetes special case agrees with the general rule. */
  lemma TargetNameUniform(tag: string)
    ensures TargetName(tag) == tag + "_prevalence"
  {
  }

  /** The confidence-interval renames, holding only names the table has. */
  function CiMap(cols: seq<string>, tag: string): (m: map<string, string>)
    ensures m.Keys <= {"ci_low", "ci_high"}
    ensures "ci_low" in m <==> "ci_low" in cols
    ensures "ci_high" in m <==> "ci_high" in cols
    ensures "ci_low" in m ==> m["ci_low"] == tag + "_ci_low"
    ensures "ci_high" in m ==> m["ci_high"] == tag + "_ci_high"
  {
    var low := if "ci_low" in cols then map["ci_low" := tag + "_ci_low"] else map[];
    if "ci_high" in cols then low["ci_high" := tag + "_ci_high"] else low
  }

  /** `prepare_df`: rename the interval columns, then `percentage`. */
  function PrepareDf(t: Table, tag: string): (r: Table)
    ensures r.rows == t.rows && |r.cols| == |t.cols|
    ensures WellFormed(t) ==> WellFormed(r)
  {
    RenamePercentage(RenameCi(t, tag), tag)
  }

  /** The first rename, applied only when some interval column exists. */
  function RenameCi(t: Table, tag: string): (r: Table)
    ensures r.rows == t.rows && |r.cols| == |t.cols|
    ensures forall k :: 0 <= k < |t.cols| ==> r.cols[k] == Renamed(CiMap(t.cols, tag), t.cols[k])
  {
    var ci := CiMap(t.cols, tag);
    if |ci| > 0 then RenameColumns(t, ci) else t
  }

  /** The second rename, applied only when `percentage` exists. */
  function RenamePercentage(t: Table, tag: string): (r: Table)
    ensures r.rows == t.rows && |r.cols| == |t.cols|
    ensures forall k :: 0 <= k < |t.cols| ==> r.cols[k] == Renamed(map["percentage" := TargetName(tag)], t.cols[k])
  {
    if "percentage" in t.cols then RenameColumns(t, map["percentage" := TargetName(tag)]) else t
  }

  /** The renames `prepare_df` performs, as one simultaneous rename. */
  function PrepareRenames(tag: string): map<string, string> {
    map["ci_low" := tag + "_ci_low", "ci_high" := tag + "_ci_high",
        "percentage" := tag + "_prevalence"]
  }

  /** The conditional renames amount to renaming `ci_low`, `ci_high` and
      `percentage` and nothing else: every other name keeps its place. */
  lemma PrepareDfRenamesOnly(t: Table, tag: string)
    ensures PrepareDf(t, tag) == RenameColumns(t, PrepareRenames(tag))
  {
    var ci := CiMap(t.cols, tag);
    var t1 := RenameCi(t, tag);
    var whole := RenameColumns(t, PrepareRenames(tag));
    var r := PrepareDf(t, tag);
    forall k | 0 <= k < |t.cols|
      ensures r.cols[k] == whole.cols[k]
    {
      assert t.cols[k] in t.cols;
      RenameTwice(ci, t.cols[k], tag, t.cols);
    }
  }

  /** One name through both renames. */
  lemma RenameTwice(ci: map<string, string>, c: string, tag: string, cols: seq<string>)
    requires ci == CiMap(cols, tag) && c in cols
    ensures Renamed(map["percentage" := TargetName(tag)], Renamed(ci, c)) == Renamed(PrepareRenames(tag), c)
  {
    TargetNameUniform(tag);
    if c == "ci_low" || c == "ci_high" {
      var e := if c == "ci_low" then tag + "_ci_low" else tag + "_ci_high";
      assert e[|e| - 1] == 'w' || e[|e| - 1] == 'h';
      assert e != "percentage";
    }
  }
}
