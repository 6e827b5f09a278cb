/** `clean_one_file` without its file reads and writes: from the parsed
    table, the file name and the file's first line to the cleaned table. */
module Clean {
  import opened Text
  import opened Tables
  import opened Wrappers
  import opened ColumnNames
  import opened Aliases
  import opened Geo
  import opened Units

  /** The study window kept by the final filter, both ends included. */
  const YearMin: int := 2014
  const YearMax: int := 2023

  /** Why a file cannot be cleaned: it has no first line, or a column the
      pipeline selects by name occurs more than once, which makes pandas
      hand back a frame where a series is expected. */
  datatype CleanError = EmptyFile | AmbiguousColumn(name: string)

  datatype Indicator = Obesity | Inactivity | Smoking | Diabetes

  function IndicatorName(ind: Indicator): string {
    match ind
    case Obesity => "obesity"
    case Inactivity => "inactivity"
    case Smoking => "smoking"
    case Diabetes => "diabetes"
  }

  /** The lower-cased text the indicator is guessed from: the file name, a
      space, and the first line of the file. */
  function Blob(fileName: string, firstLine: string): string {
    Lower(fileName + " " + firstLine)
  }

  /** A text containing "physical inactivity" contains "inactivity", so the
      second test of the inactivity branch never decides anything. */
  lemma PhysicalInactivityRedundant(blob: string)
    ensures Contains(blob, "physical inactivity") ==> Contains(blob, "inactivity")
  {
    if Contains(blob, "physical inactivity") {
      ContainsSuffix(blob, "physical inactivity", 9);
      assert "physical inactivity"[9..] == "inactivity";
    }
  }

  /** The indicator a file reports.  Obesity (or BMI) wins over inactivity,
      which wins over smoking; a blob with none of these is diabetes. */
  function InferIndicator(blob: string): (ind: Indicator)
    ensures ind == Obesity <==> Contains(blob, "obesity") || Contains(blob, "bmi")
    ensures ind == Inactivity <==>
              !Contains(blob, "obesity") && !Contains(blob, "bmi") && Contains(blob, "inactivity")
    ensures ind == Smoking <==>
              !Contains(blob, "obesity") && !Contains(blob, "bmi") && !Contains(blob, "inactivity") &&
              Contains(blob, "smoking")
    ensures ind != Diabetes ==> Contains(blob, IndicatorName(ind)) || Contains(blob, "bmi")
  {
    PhysicalInactivityRedundant(blob);
    if Contains(blob, "obesity") || Contains(blob, "bmi") then Obesity
    else if Contains(blob, "inactivity") || Contains(blob, "physical inactivity") then Inactivity
    else if Contains(blob, "smoking") then Smoking
    else Diabetes
  }

  /** The name the `percentage` column receives. */
  function PrevalenceName(ind: Indicator): string {
    if ind == Diabetes then "diabetes_prevalence" else IndicatorName(ind) + "_prevalence"
  }

  /** The diabetes special case gives the same name as the general rule. */
  lemma PrevalenceNameUniform(ind: Indicator)
    ensures PrevalenceName(ind) == IndicatorName(ind) + "_prevalence"
  {
  }

  /** The first rename of CDC column names. */
  function CdcRenames(ind: Indicator): map<string, string> {
    map["percentage" := PrevalenceName(ind), "lower_limit" := "ci_low",
        "upper_limit" := "ci_high", "_upper_limit" := "ci_high"]
  }

  /** The second rename, of "known CDC column names". */
  function KnownRenames(): map<string, string> {
    map["percentage" := "diabetes_prevalence", "lower_limit" := "ci_low", "upper_limit" := "ci_high"]
  }

  /** The second rename never changes a name: the first has already replaced
      each of its keys, and none of the first's outputs is such a key. */
  lemma SecondRenameNoOp(t: Table, ind: Indicator)
    ensures RenameColumns(RenameColumns(t, CdcRenames(ind)), KnownRenames()) ==
            RenameColumns(t, CdcRenames(ind))
  {
    var once := RenameColumns(t, CdcRenames(ind));
    var twice := RenameColumns(once, KnownRenames());
    forall k | 0 <= k < |t.cols|
      ensures twice.cols[k] == once.cols[k]
    {
      assert once.cols[k] !in KnownRenames();
    }
  }

  /** Standardized names never start with an underscore, so the
      "_upper_limit" key of the first rename never fires. */
  lemma LeadingUnderscoreKeyUnused(t: Table, ind: Indicator)
    ensures RenameColumns(StandardizeColumns(t), CdcRenames(ind)) ==
            RenameColumns(StandardizeColumns(t), CdcRenames(ind) - {"_upper_limit"})
  {
    var s := StandardizeColumns(t);
    forall k | 0 <= k < |s.cols|
      ensures s.cols[k] != "_upper_limit"
    {
      assert Canonical(s.cols[k]);
    }
  }

  /** The labels `isin` drops, after strip and lower-case. */
  predicate IsPseudoName(s: string) {
    s == "median of states" || s == "median_of_states" || s == "united states" || s == "united_states"
  }

  /** Only text can be a pseudo-row label: a missing state prints as "nan"
      and a number as its digits. */
  predicate IsPseudoCell(c: Cell) {
    c.Str? && IsPseudoName(Lower(Strip(c.s)))
  }

  /** The row test of the filter, for the state column at `k`. */
  function KeepsState(k: nat): Row -> bool {
    row => !(k < |row| && IsPseudoCell(row[k]))
  }

  /** Dropping the aggregate rows ("Median of States", "United States"). */
  function DropPseudoRows(t: Table): (r: Result<Table, CleanError>)
    requires WellFormed(t)
    ensures "state" !in t.cols ==> r == Ok(t)
    ensures "state" in t.cols ==> (r.Err? <==> !AtMostOnce(t.cols, "state"))
    ensures r.Err? ==> r.error == AmbiguousColumn("state")
    ensures r.Ok? ==> r.value.cols == t.cols && WellFormed(r.value) && |r.value.rows| <= |t.rows|
    ensures r.Ok? ==> forall i :: 0 <= i < |r.value.rows| ==> r.value.rows[i] in t.rows
    ensures r.Ok? && "state" in t.cols ==>
              && (forall i :: 0 <= i < |r.value.rows| ==>
                    !IsPseudoCell(r.value.rows[i][IndexOf(t.cols, "state")]))
              && (forall i :: 0 <= i < |t.rows| && !IsPseudoCell(Get(t.cols, t.rows[i], "state")) ==>
                    t.rows[i] in r.value.rows)
  {
    if "state" !in t.cols then Ok(t)
    else if !AtMostOnce(t.cols, "state") then Err(AmbiguousColumn("state"))
    else
      var k := IndexOf(t.cols, "state");
      FilterWellFormed(t, KeepsState(k));
      Ok(Table(t.cols, Filter(t.rows, KeepsState(k))))
  }

  /** The pseudo-row filter keeps the surviving rows in their original
      order: filtering two blocks of rows is filtering each block. */
  lemma DropPseudoRowsConcat(cols: seq<string>, a: seq<Row>, b: seq<Row>)
    requires WellFormed(Table(cols, a)) && WellFormed(Table(cols, b)) && WellFormed(Table(cols, a + b))
    requires "state" in cols && AtMostOnce(cols, "state")
    ensures DropPseudoRows(Table(cols, a + b)).value.rows ==
            DropPseudoRows(Table(cols, a)).value.rows + DropPseudoRows(Table(cols, b)).value.rows
  {
    var k := IndexOf(cols, "state");
    FilterConcat(a, b, KeepsState(k));
  }

  /** The "United States" aggregate goes; the states around it stay, in order. */
  lemma UnitedStatesDropped()
    ensures var t := Table(["state"], [[Str("TX")], [Str("United States")], [Str("CA")]]);
            DropPseudoRows(t) == Ok(Table(t.cols, [t.rows[0], t.rows[2]]))
  {
    var t := Table(["state"], [[Str("TX")], [Str("United States")], [Str("CA")]]);
    ShortNotPseudo("TX");
    ShortNotPseudo("CA");
    UnitedStatesIsPseudo();
    assert IndexOf(t.cols, "state") == 0;
    FilterMiddle(t.rows, KeepsState(0));
  }

  /** Filtering three elements that drops only the middle one. */
  lemma FilterMiddle<T>(s: seq<T>, p: T -> bool)
    requires |s| == 3 && p(s[0]) && !p(s[1]) && p(s[2])
    ensures Filter(s, p) == [s[0], s[2]]
  {
    assert Filter(s[2..], p) == [s[2]];
    assert Filter(s[1..], p) == Filter(s[2..], p);
  }

  lemma UnitedStatesIsPseudo()
    ensures IsPseudoCell(Str("United States"))
  {
    UnitedStatesStripped();
    UnitedStatesLower();
  }

  lemma UnitedStatesStripped()
    ensures Strip("United States") == "United States"
  {
    var name := "United States";
    assert !IsSpace(name[0]) && !IsSpace(name[|name| - 1]);
  }

  lemma UnitedStatesLower()
    ensures Lower("United States") == "united states"
  {
    var name := "United States";
    var u := Lower(name);
    forall i | 0 <= i < |name|
      ensures u[i] == "united states"[i]
    {
      if i == 0 || i == 7 {
        assert IsUpper(name[i]);
      }
    }
  }

  /** A two-letter code is never a pseudo-row name. */
  lemma ShortNotPseudo(s: string)
    requires |s| == 2
    ensures !IsPseudoCell(Str(s))
  {
    var u := Lower(Strip(s));
    assert |u| <= 2;
    PseudoNamesLong(u);
  }

  lemma PseudoNamesLong(u: string)
    ensures IsPseudoName(u) ==> |u| >= 13
  {
  }

  /** `ensure_geo`, failing where `df["state"]` would be a frame. */
  function GeoStep(t: Table): (r: Result<Table, CleanError>)
    requires WellFormed(t)
    ensures r.Err? <==> !AtMostOnce(t.cols, "state")
    ensures r.Ok? ==> r.value == EnsureGeo(t)
  {
    if !AtMostOnce(t.cols, "state") then Err(AmbiguousColumn("state")) else Ok(EnsureGeo(t))
  }

  /** The failures of `coerce_types`: `pd.to_numeric` rejects a `year` or
      `state_fips` name that selects several columns.  Cells arrive typed,
      so a table that passes is unchanged. */
  function CoerceStep(t: Table): (r: Result<Table, CleanError>)
    ensures r.Err? <==> !AtMostOnce(t.cols, "year") || !AtMostOnce(t.cols, "state_fips")
    ensures r.Err? ==> r.error == AmbiguousColumn("year") || r.error == AmbiguousColumn("state_fips")
    ensures r.Ok? ==> r.value == t
  {
    if !AtMostOnce(t.cols, "year") then Err(AmbiguousColumn("year"))
    else if !AtMostOnce(t.cols, "state_fips") then Err(AmbiguousColumn("state_fips"))
    else Ok(t)
  }

  /** Whatever contains `sub` contains each of its characters. */
  lemma ContainsChar(s: string, sub: string, j: nat)
    requires j < |sub| && Contains(s, sub)
    ensures sub[j] in s
  {
    var i := ContainsIndex(s, sub);
    assert s[i..][j] == sub[j];
    assert s[i + j] == sub[j];
  }

  /** A character of `sub` that `s` lacks keeps `s` from containing `sub`. */
  lemma MissingCharNotContained(s: string, sub: string, j: nat)
    requires j < |sub| && sub[j] !in s
    ensures !Contains(s, sub)
  {
    if Contains(s, sub) {
      ContainsChar(s, sub, j);
    }
  }

  /** Every unit marker but "rate" has a "c", and "rate" has an "r" and a
      "t", so a name without "c" that lacks "r" or "t" carries no marker. */
  lemma NoUnitMarker(s: string)
    requires 'c' !in s && ('r' !in s || 't' !in s)
    ensures !IsUnitColumn(s)
  {
    MissingCharNotContained(s, "prevalence", 8);
    MissingCharNotContained(s, "pct", 1);
    MissingCharNotContained(s, "percentage", 3);
    MissingCharNotContained(s, "insecurity", 4);
    if 'r' !in s {
      MissingCharNotContained(s, "rate", 0);
    } else {
      MissingCharNotContained(s, "rate", 2);
    }
  }

  /** None of the names the pipeline selects is a unit column. */
  lemma KeyNamesNotUnits()
    ensures !IsUnitColumn("state") && !IsUnitColumn("year") && !IsUnitColumn("state_fips")
  {
    NoUnitMarker("state");
    NoUnitMarker("year");
    NoUnitMarker("state_fips");
  }

  /** `ensure_geo` appends `state_fips` only when it is absent, and that name
      is no unit column, so it makes no name ambiguous that was not. */
  lemma GeoKeepsAmbiguity(t: Table)
    requires WellFormed(t) && AtMostOnce(t.cols, "state")
    ensures AtMostOnce(EnsureGeo(t).cols, "year") <==> AtMostOnce(t.cols, "year")
    ensures AtMostOnce(EnsureGeo(t).cols, "state_fips") <==> AtMostOnce(t.cols, "state_fips")
    ensures UnitColumnsUnique(EnsureGeo(t).cols) <==> UnitColumnsUnique(t.cols)
  {
    var g := EnsureGeo(t).cols;
    if g != t.cols {
      KeyNamesNotUnits();
      AppendAbsent(t.cols, "state_fips", "year");
      AppendAbsent(t.cols, "state_fips", "state_fips");
      AppendAbsentUnits(t.cols, "state_fips");
    }
  }

  /** Appending a name that is absent makes no name ambiguous. */
  lemma AppendAbsent(cols: seq<string>, c: string, x: string)
    requires c !in cols
    ensures AtMostOnce(cols + [c], x) <==> AtMostOnce(cols, x)
  {
    var g := cols + [c];
    if AtMostOnce(cols, x) {
      forall i, j | 0 <= i < j < |g| && g[i] == x
        ensures g[j] != x
      {
        if j == |cols| {
          assert g[i] == cols[i];
        }
      }
    } else {
      var i, j :| 0 <= i < j < |cols| && cols[i] == x && cols[j] == x;
      assert g[i] == x && g[j] == x;
    }
  }

  /** Appending an absent name that is no unit column keeps unit names unique. */
  lemma AppendAbsentUnits(cols: seq<string>, c: string)
    requires c !in cols && !IsUnitColumn(c)
    ensures UnitColumnsUnique(cols + [c]) <==> UnitColumnsUnique(cols)
  {
    var g := cols + [c];
    forall p | 0 <= p < |cols|
      ensures g[p] == cols[p] && (AtMostOnce(g, g[p]) <==> AtMostOnce(cols, cols[p]))
    {
      AppendAbsent(cols, c, cols[p]);
    }
  }

  /** The first unit column, from position `p` on, whose name occurs twice. */
  function DuplicatedUnitColumn(cols: seq<string>, p: nat): (r: Option<string>)
    requires p <= |cols|
    ensures r.None? <==> forall q :: p <= q < |cols| && IsUnitColumn(cols[q]) ==> AtMostOnce(cols, cols[q])
    ensures r.Some? ==> IsUnitColumn(r.value) && !AtMostOnce(cols, r.value)
    decreases |cols| - p
  {
    if p == |cols| then None
    else if IsUnitColumn(cols[p]) && !AtMostOnce(cols, cols[p]) then Some(cols[p])
    else DuplicatedUnitColumn(cols, p + 1)
  }

  /** `fix_units`, failing on the first duplicated unit column it visits. */
  function UnitsStep(t: Table, asPercent: bool): (r: Result<Table, CleanError>)
    requires WellFormed(t)
    ensures r.Err? <==> !UnitColumnsUnique(t.cols)
    ensures r.Err? ==> r.error.AmbiguousColumn? && IsUnitColumn(r.error.name)
    ensures r.Ok? ==> r.value == FixUnits(t, asPercent)
  {
    match DuplicatedUnitColumn(t.cols, 0)
    case Some(c) => Err(AmbiguousColumn(c))
    case None => Ok(FixUnits(t, asPercent))
  }

  /** `between(2014, 2023)`: a missing year is not between anything. */
  predicate InStudyYears(c: Cell) {
    YearOf(c).Some? && YearMin <= YearOf(c).value <= YearMax
  }

  /** The row test of the year filter, for the year column at `k`. */
  function KeepsYear(k: nat): Row -> bool {
    row => k < |row| && InStudyYears(row[k])
  }

  /** The final year filter. */
  function KeepStudyYears(t: Table): (r: Result<Table, CleanError>)
    requires WellFormed(t)
    ensures "year" !in t.cols ==> r == Ok(t)
    ensures "year" in t.cols ==> (r.Err? <==> !AtMostOnce(t.cols, "year"))
    ensures r.Err? ==> r.error == AmbiguousColumn("year")
    ensures r.Ok? ==> r.value.cols == t.cols && WellFormed(r.value) && |r.value.rows| <= |t.rows|
    ensures r.Ok? ==> forall i :: 0 <= i < |r.value.rows| ==> r.value.rows[i] in t.rows
    ensures r.Ok? && "year" in t.cols ==>
              && (forall i :: 0 <= i < |r.value.rows| ==>
                    InStudyYears(r.value.rows[i][IndexOf(t.cols, "year")]))
              && (forall i :: 0 <= i < |t.rows| && InStudyYears(Get(t.cols, t.rows[i], "year")) ==>
                    t.rows[i] in r.value.rows)
  {
    if "year" !in t.cols then Ok(t)
    else if !AtMostOnce(t.cols, "year") then Err(AmbiguousColumn("year"))
    else
      var k := IndexOf(t.cols, "year");
      FilterWellFormed(t, KeepsYear(k));
      Ok(Table(t.cols, Filter(t.rows, KeepsYear(k))))
  }

  /** The year filter keeps the surviving rows in their original order. */
  lemma KeepStudyYearsConcat(cols: seq<string>, a: seq<Row>, b: seq<Row>)
    requires WellFormed(Table(cols, a)) && WellFormed(Table(cols, b)) && WellFormed(Table(cols, a + b))
    requires "year" in cols && AtMostOnce(cols, "year")
    ensures KeepStudyYears(Table(cols, a + b)).value.rows ==
            KeepStudyYears(Table(cols, a)).value.rows + KeepStudyYears(Table(cols, b)).value.rows
  {
    FilterConcat(a, b, KeepsYear(IndexOf(cols, "year")));
  }

  /** The renaming half of `clean_one_file`: standardized names, then the
      two CDC renames chosen by the indicator the blob reports. */
  function CdcNamed(fileName: string, firstLine: string, parsed: Table): (r: Table)
    ensures r.rows == parsed.rows && |r.cols| == |parsed.cols|
    ensures forall k :: 0 <= k < |parsed.cols| ==>
              r.cols[k] == Renamed(CdcRenames(InferIndicator(Blob(fileName, firstLine))),
                                   Standardize(parsed.cols[k]))
    ensures WellFormed(parsed) ==> WellFormed(r)
  {
    var ind := InferIndicator(Blob(fileName, firstLine));
    SecondRenameNoOp(StandardizeColumns(parsed), ind);
    RenameColumns(RenameColumns(StandardizeColumns(parsed), CdcRenames(ind)), KnownRenames())
  }

  /** Every name the row-level steps select is unique: `state` before and
      after the alias renames, and `year`, `state_fips` and each unit column
      after them. */
  predicate Unambiguous(named: Table, cfg: Config) {
    var cols := MapHeaders(named, cfg).cols;
    && AtMostOnce(named.cols, "state") && AtMostOnce(cols, "state")
    && AtMostOnce(cols, "year") && AtMostOnce(cols, "state_fips") && UnitColumnsUnique(cols)
  }

  /** The row-level half: pseudo rows, aliases, geography, the type checks,
      units, years.  It fails exactly on an ambiguous name. */
  function Finish(named: Table, cfg: Config): (r: Result<Table, CleanError>)
    requires WellFormed(named)
    ensures r.Err? <==> !Unambiguous(named, cfg)
    ensures r.Err? ==> r.error.AmbiguousColumn?
    ensures r.Ok? ==> WellFormed(r.value) && |r.value.rows| <= |named.rows|
  {
    var kept :- DropPseudoRows(named);
    assert MapHeaders(kept, cfg).cols == MapHeaders(named, cfg).cols;
    var geo :- GeoStep(MapHeaders(kept, cfg));
    GeoKeepsAmbiguity(MapHeaders(kept, cfg));
    var coerced :- CoerceStep(geo);
    var fixed :- UnitsStep(coerced, AsPercent(cfg));
    KeepStudyYears(fixed)
  }

  /** The steps of `clean_one_file` after the header has been located and
      the CSV parsed into `parsed`; `lines` are the file's lines.  It fails
      for lack of a first line or on a duplicated column, and never returns
      more rows than were parsed. */
  function CleanOneFile(fileName: string, lines: seq<string>, parsed: Table, cfg: Config)
    : (r: Result<Table, CleanError>)
    requires WellFormed(parsed)
    ensures r == Err(EmptyFile) <==> |lines| == 0
    ensures |lines| > 0 ==> (r.Err? <==> !Unambiguous(CdcNamed(fileName, lines[0], parsed), cfg))
    ensures r.Err? && |lines| > 0 ==> r.error.AmbiguousColumn?
    ensures r.Ok? ==> WellFormed(r.value) && |r.value.rows| <= |parsed.rows|
  {
    if |lines| == 0 then Err(EmptyFile)
    else Finish(CdcNamed(fileName, lines[0], parsed), cfg)
  }

  /** The alias renames leave the `state` and `year` columns where they are:
      no column is renamed to either name or away from it. */
  predicate KeepsKeyColumns(cols: seq<string>, cfg: Config) {
    forall k :: 0 <= k < |cols| ==>
      && (Renamed(ReverseAliases(cfg), cols[k]) == "state" <==> cols[k] == "state")
      && (Renamed(ReverseAliases(cfg), cols[k]) == "year" <==> cols[k] == "year")
  }

  /** The input rows that should reach the output, in input order: a state
      that is no aggregate label, then a study year. */
  function Survivors(named: Table): seq<Row>
    requires "state" in named.cols && "year" in named.cols
  {
    Filter(Filter(named.rows, KeepsState(IndexOf(named.cols, "state"))),
           KeepsYear(IndexOf(named.cols, "year")))
  }

  /** An output row that comes from `src`: the same year, and the state as
      `ensure_geo` normalizes it. */
  predicate Paired(out: Row, src: Row, ks: nat, ky: nat) {
    && ks < |out| && ky < |out| && ks < |src| && ky < |src|
    && out[ky] == src[ky] && out[ks] == NormalizeStateCell(src[ks])
  }

  /** End to end: when nothing is ambiguous and the alias renames leave the
      state and year columns alone, cleaning succeeds and its rows are, one
      for one and in order, the surviving input rows. */
  lemma FinishSurvivors(named: Table, cfg: Config)
    requires WellFormed(named) && Unambiguous(named, cfg)
    requires "state" in named.cols && "year" in named.cols && KeepsKeyColumns(named.cols, cfg)
    ensures Finish(named, cfg).Ok?
    ensures var out := Finish(named, cfg).value;
            var ks, ky := IndexOf(named.cols, "state"), IndexOf(named.cols, "year");
            && |out.rows| == |Survivors(named)|
            && ks < |out.cols| && out.cols[ks] == "state" && ky < |out.cols| && out.cols[ky] == "year"
            && forall i :: 0 <= i < |out.rows| ==> Paired(out.rows[i], Survivors(named)[i], ks, ky)
  {
    var ks, ky := IndexOf(named.cols, "state"), IndexOf(named.cols, "year");
    var kept := DropPseudoRows(named).value;
    assert kept.rows == Filter(named.rows, KeepsState(ks));
    var mapped := MapHeaders(kept, cfg);
    SameIndex(named.cols, mapped.cols, "state");
    SameIndex(named.cols, mapped.cols, "year");
    FinishSteps(named, cfg);
    var fixed := FixUnits(EnsureGeo(mapped), AsPercent(cfg));
    PreparedPairs(mapped, AsPercent(cfg));
    FilterPaired(fixed.rows, kept.rows, ks, ky);
  }

  /** With no ambiguous name, `Finish` runs every step to the year filter. */
  lemma FinishSteps(named: Table, cfg: Config)
    requires WellFormed(named) && Unambiguous(named, cfg)
    ensures DropPseudoRows(named).Ok?
    ensures var mapped := MapHeaders(DropPseudoRows(named).value, cfg);
            && AtMostOnce(mapped.cols, "state") && UnitColumnsUnique(EnsureGeo(mapped).cols)
            && Finish(named, cfg) == KeepStudyYears(FixUnits(EnsureGeo(mapped), AsPercent(cfg)))
  {
    var kept := DropPseudoRows(named).value;
    assert MapHeaders(kept, cfg).cols == MapHeaders(named, cfg).cols;
    GeoKeepsAmbiguity(MapHeaders(kept, cfg));
  }

  /** After `ensure_geo` and `fix_units`, each row still carries its year
      and its normalized state at the same places. */
  lemma PreparedPairs(mapped: Table, asPercent: bool)
    requires WellFormed(mapped) && AtMostOnce(mapped.cols, "state")
    requires "state" in mapped.cols && "year" in mapped.cols
    requires UnitColumnsUnique(EnsureGeo(mapped).cols)
    ensures var fixed := FixUnits(EnsureGeo(mapped), asPercent);
            var ks, ky := IndexOf(mapped.cols, "state"), IndexOf(mapped.cols, "year");
            && |fixed.rows| == |mapped.rows| && "year" in fixed.cols && IndexOf(fixed.cols, "year") == ky
            && fixed.cols[ks] == "state"
            && forall i :: 0 <= i < |mapped.rows| ==> Paired(fixed.rows[i], mapped.rows[i], ks, ky)
  {
    var ks, ky := IndexOf(mapped.cols, "state"), IndexOf(mapped.cols, "year");
    var geo := EnsureGeo(mapped);
    IndexOfPrefix(mapped.cols, geo.cols, "year");
    KeyNamesNotUnits();
    var fixed := FixUnits(geo, asPercent);
    forall i | 0 <= i < |mapped.rows|
      ensures Paired(fixed.rows[i], mapped.rows[i], ks, ky)
    {
      assert fixed.rows[i][ky] == geo.rows[i][ky];
      assert fixed.rows[i][ks] == geo.rows[i][ks];
    }
  }

  /** One aggregate row, then ten rows of one state for the study years. */
  function NationExample(state: Cell, agg: Cell): Table {
    Table(["state", "year"], [[agg, Int(2020)]] + StateRows(state))
  }

  function StateRows(state: Cell): (rows: seq<Row>)
    ensures |rows| == 10
    ensures forall j :: 0 <= j < 10 ==> |rows[j]| == 2 && rows[j][0] == state && rows[j][1] == Int(2014 + j)
  {
    seq(10, j => [state, Int(2014 + j)])
  }

  /** Eleven rows in, ten out: for any state that is no aggregate label
      (a two-letter code, by `ShortNotPseudo`), any aggregate label (such as
      "United States", by `UnitedStatesIsPseudo`) and a configuration
      without aliases, the aggregate row goes and the ten state rows stay,
      in order, each with its own year and the normalized state. */
  lemma TenRowsAndTheNation(t: Table, cfg: Config, state: Cell, agg: Cell)
    requires !IsPseudoCell(state) && IsPseudoCell(agg)
    requires t == NationExample(state, agg) && ReverseAliases(cfg) == map[]
    ensures WellFormed(t) && Finish(t, cfg).Ok?
    ensures var out := Finish(t, cfg).value;
            && |out.rows| == 10
            && forall i :: 0 <= i < 10 ==>
                 && |out.rows[i]| >= 2
                 && out.rows[i][0] == NormalizeStateCell(state) && out.rows[i][1] == Int(2014 + i)
  {
    NationWellFormed(t, state, agg);
    NoAliasesKeepNames(t, cfg);
    PlainKeyColumns(t.cols);
    NationSurvivors(t, state, agg);
    FinishSurvivors(t, cfg);
    var out, rows := Finish(t, cfg).value, StateRows(state);
    assert |out.rows| == |rows| == 10;
    assert forall i :: 0 <= i < 10 ==> Paired(out.rows[i], rows[i], 0, 1);
  }

  /** With Texas and "United States": ten "TX" rows for 2014 to 2023 come
      out of the eleven. */
  lemma TexasAndTheNation(t: Table, cfg: Config)
    requires t == NationExample(Str("TX"), Str("United States")) && ReverseAliases(cfg) == map[]
    ensures WellFormed(t) && Finish(t, cfg).Ok?
    ensures var out := Finish(t, cfg).value;
            && |out.rows| == 10
            && forall i :: 0 <= i < 10 ==>
                 && |out.rows[i]| >= 2 && out.rows[i][0] == Str("TX") && out.rows[i][1] == Int(2014 + i)
  {
    ShortNotPseudo("TX");
    UnitedStatesIsPseudo();
    TexasNormalized();
    TenRowsAndTheNation(t, cfg, Str("TX"), Str("United States"));
  }

  lemma TexasNormalized()
    ensures NormalizeStateCell(Str("TX")) == Str("TX")
  {
    var s := "TX";
    assert IsStripped(s) && NoLower(s);
    NormalizeFixed(s);
  }

  lemma NationWellFormed(t: Table, state: Cell, agg: Cell)
    requires t == NationExample(state, agg)
    ensures WellFormed(t) && t.cols == ["state", "year"] && |t.rows| == 11
  {
    forall i | 0 <= i < |t.rows|
      ensures |t.rows[i]| == 2
    {
      if i > 0 {
        assert t.rows[i] == StateRows(state)[i - 1];
      }
    }
  }

  /** Without aliases `map_headers` renames nothing. */
  lemma NoAliasesKeepNames(t: Table, cfg: Config)
    requires ReverseAliases(cfg) == map[]
    ensures MapHeaders(t, cfg).cols == t.cols && KeepsKeyColumns(t.cols, cfg)
  {
  }

  /** Two plain key columns are unambiguous and neither is a unit column. */
  lemma PlainKeyColumns(cols: seq<string>)
    requires cols == ["state", "year"]
    ensures AtMostOnce(cols, "state") && AtMostOnce(cols, "year") && AtMostOnce(cols, "state_fips")
    ensures UnitColumnsUnique(cols)
  {
    forall p | 0 <= p < |cols|
      ensures !IsUnitColumn(cols[p])
    {
      NoUnitMarker(cols[p]);
    }
  }

  lemma NationSurvivors(t: Table, state: Cell, agg: Cell)
    requires !IsPseudoCell(state) && IsPseudoCell(agg) && t == NationExample(state, agg)
    ensures "state" in t.cols && "year" in t.cols
    ensures IndexOf(t.cols, "state") == 0 && IndexOf(t.cols, "year") == 1
    ensures Survivors(t) == StateRows(state)
  {
    var rows := StateRows(state);
    assert t.rows[1..] == rows;
    assert IndexOf(t.cols, "state") == 0 && IndexOf(t.cols, "year") == 1;
    StateRowsKept(state);
    assert !KeepsState(0)(t.rows[0]);
    assert Filter(t.rows, KeepsState(0)) == rows;
  }

  /** Both filters keep every row of a non-aggregate state in the study years. */
  lemma StateRowsKept(state: Cell)
    requires !IsPseudoCell(state)
    ensures Filter(StateRows(state), KeepsState(0)) == StateRows(state)
    ensures Filter(StateRows(state), KeepsYear(1)) == StateRows(state)
  {
    var rows := StateRows(state);
    assert forall i :: 0 <= i < |rows| ==> KeepsState(0)(rows[i]) && KeepsYear(1)(rows[i]);
    FilterAll(rows, KeepsState(0));
    FilterAll(rows, KeepsYear(1));
  }

  /** Two column lists that agree on where `c` occurs find it at the same place. */
  lemma SameIndex(a: seq<string>, b: seq<string>, c: string)
    requires c in a && |a| == |b| && forall k :: 0 <= k < |a| ==> (a[k] == c <==> b[k] == c)
    ensures c in b && IndexOf(b, c) == IndexOf(a, c)
  {
    assert b[IndexOf(a, c)] == c;
  }

  /** The year filter keeps paired rows together. */
  lemma FilterPaired(outs: seq<Row>, srcs: seq<Row>, ks: nat, ky: nat)
    requires |outs| == |srcs| && forall i :: 0 <= i < |outs| ==> Paired(outs[i], srcs[i], ks, ky)
    ensures |Filter(outs, KeepsYear(ky))| == |Filter(srcs, KeepsYear(ky))|
    ensures forall i :: 0 <= i < |Filter(outs, KeepsYear(ky))| ==>
              Paired(Filter(outs, KeepsYear(ky))[i], Filter(srcs, KeepsYear(ky))[i], ks, ky)
  {
    var rel := (a: Row, b: Row) => Paired(a, b, ks, ky);
    assert forall i :: 0 <= i < |outs| ==> rel(outs[i], srcs[i]);
    FilterPairs(outs, srcs, KeepsYear(ky), rel);
  }

  /** In a cleaned table, a `state` column comes with a `state_fips` column,
      every year is a study year, and every cell of a unit column is missing
      or a non-negative number. */
  lemma CleanedTableShape(named: Table, cfg: Config)
    requires WellFormed(named) && Finish(named, cfg).Ok?
    ensures var out := Finish(named, cfg).value;
            && ("state" in out.cols ==> "state_fips" in out.cols)
            && ("year" in out.cols ==>
                  forall i :: 0 <= i < |out.rows| ==> InStudyYears(Get(out.cols, out.rows[i], "year")))
            && (forall i, p :: 0 <= i < |out.rows| && 0 <= p < |out.cols| && IsUnitColumn(out.cols[p]) ==>
                  (out.rows[i][p].Null? ||
                   (NumericValue(out.rows[i][p]).Some? && NumericValue(out.rows[i][p]).value >= 0.0)))
  {
    var kept := DropPseudoRows(named).value;
    var geo := GeoStep(MapHeaders(kept, cfg)).value;
    var coerced := CoerceStep(geo).value;
    var fixed := UnitsStep(coerced, AsPercent(cfg)).value;
    var out := Finish(named, cfg).value;
    assert KeepStudyYears(fixed) == Ok(out);
    GeoHasFips(MapHeaders(kept, cfg));
    YearsInStudy(fixed, out);
    UnitsNonNegative(geo, AsPercent(cfg), fixed, out);
  }

  lemma GeoHasFips(t: Table)
    requires WellFormed(t) && AtMostOnce(t.cols, "state")
    ensures "state" in EnsureGeo(t).cols ==> "state_fips" in EnsureGeo(t).cols
  {
  }

  lemma YearsInStudy(fixed: Table, out: Table)
    requires WellFormed(fixed) && KeepStudyYears(fixed) == Ok(out)
    ensures "year" in out.cols ==>
              forall i :: 0 <= i < |out.rows| ==> InStudyYears(Get(out.cols, out.rows[i], "year"))
  {
  }

  lemma UnitsNonNegative(geo: Table, asPercent: bool, fixed: Table, out: Table)
    requires WellFormed(geo) && UnitColumnsUnique(geo.cols) && fixed == FixUnits(geo, asPercent)
    requires KeepStudyYears(fixed) == Ok(out)
    ensures forall i, p :: 0 <= i < |out.rows| && 0 <= p < |out.cols| && IsUnitColumn(out.cols[p]) ==>
              (out.rows[i][p].Null? ||
               (NumericValue(out.rows[i][p]).Some? && NumericValue(out.rows[i][p]).value >= 0.0))
  {
    forall i, p | 0 <= i < |out.rows| && 0 <= p < |out.cols| && IsUnitColumn(out.cols[p])
      ensures out.rows[i][p].Null? ||
              (NumericValue(out.rows[i][p]).Some? && NumericValue(out.rows[i][p]).value >= 0.0)
    {
      assert out.rows[i] in fixed.rows;
      var j :| 0 <= j < |fixed.rows| && fixed.rows[j] == out.rows[i];
      assert j < |geo.rows| && out.cols[p] == geo.cols[p];
    }
  }
}
