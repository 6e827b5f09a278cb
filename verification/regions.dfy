/** The census-region grouping of diabetes_region_growth_model.py and the
    proportion-to-percent rescale it applies to the prevalence column. */
module Regions {
  import opened Text
  import opened Tables
  import opened Wrappers
  import opened Geo
  import Units

  const South: set<string> := {"AL", "AR", "DE", "DC", "FL", "GA", "KY", "LA", "MD", "MS", "NC", "OK", "SC",
                               "TN", "TX", "VA", "WV"}
  const Northeast: set<string> := {"CT", "ME", "MA", "NH", "NJ", "NY", "PA", "RI", "VT"}
  const Midwest: set<string> := {"IL", "IN", "IA", "KS", "MI", "MN", "MO", "NE", "ND", "OH", "SD", "WI"}
  const West: set<string> := {"AK", "AZ", "CA", "CO", "HI", "ID", "MT", "NV", "NM", "OR", "UT", "WA", "WY"}

  /** The names `assign_region` can return. */
  const RegionNames: set<string> := {"South", "Northeast", "West", "Midwest", "Other"}

  /** `assign_region`: strip and upper-case, then test the sets in the
      order South, Northeast, West, Midwest. */
  function AssignRegion(stateAbbr: string): (region: string)
    ensures region in RegionNames
    ensures region == "Other" <==> StateLookup(Upper(Strip(stateAbbr))).None?
  {
    var st := Upper(Strip(stateAbbr));
    RegionsCoverLookup(st);
    if st in South then "South"
    else if st in Northeast then "Northeast"
    else if st in West then "West"
    else if st in Midwest then "Midwest"
    else "Other"
  }

  /** The four sets hold exactly the 51 codes of `STATE_LOOKUP`. */
  lemma RegionsCoverLookup(code: string)
    ensures code in South + Northeast + Midwest + West <==> StateLookup(code).Some?
  {
    if StateLookup(code).Some? {
      CodeInRegions(code);
    } else if code in South {
      SouthInLookup(code);
    } else if code in Northeast {
      NortheastInLookup(code);
    } else if code in Midwest {
      MidwestInLookup(code);
    } else if code in West {
      WestInLookup(code);
    }
  }

  lemma SouthInLookup(code: string)
    requires code in South
    ensures StateLookup(code).Some?
  {
  }

  lemma NortheastInLookup(code: string)
    requires code in Northeast
    ensures StateLookup(code).Some?
  {
  }

  lemma MidwestInLookup(code: string)
    requires code in Midwest
    ensures StateLookup(code).Some?
  {
  }

  lemma WestInLookup(code: string)
    requires code in West
    ensures StateLookup(code).Some?
  {
  }

  lemma CodeInRegions(code: string)
    requires StateLookup(code).Some?
    ensures code in South + Northeast + Midwest + West
  {
    match code
    case "AL" => case "AK" => case "AZ" => case "AR" => case "CA" => case "CO" => case "CT" =>
    case "DE" => case "DC" => case "FL" => case "GA" => case "HI" => case "ID" => case "IL" =>
    case "IN" => case "IA" => case "KS" => case "KY" => case "LA" => case "ME" => case "MD" =>
    case "MA" => case "MI" => case "MN" => case "MS" => case "MO" => case "MT" => case "NE" =>
    case "NV" => case "NH" => case "NJ" => case "NM" => case "NY" => case "NC" => case "ND" =>
    case "OH" => case "OK" => case "OR" => case "PA" => case "RI" => case "SC" => case "SD" =>
    case "TN" => case "TX" => case "UT" => case "VT" => case "VA" => case "WA" => case "WV" =>
    case "WI" => case "WY" =>
    case _ =>
  }

  /** The region a code belongs to, named by the one set that holds it; no
      order of tests is involved. */
  function RegionOf(st: string): string {
    if st in Midwest then "Midwest"
    else if st in West then "West"
    else if st in Northeast then "Northeast"
    else if st in South then "South"
    else "Other"
  }

  /** No code is in two regions. */
  lemma RegionsDisjoint()
    ensures South * Northeast == {} && South * Midwest == {} && South * West == {}
    ensures Northeast * Midwest == {} && Northeast * West == {} && Midwest * West == {}
  {
    SouthDisjoint();
    NortheastDisjoint();
    assert Midwest * West == {};
  }

  lemma SouthDisjoint()
    ensures South * Northeast == {} && South * Midwest == {} && South * West == {}
  {
    SouthNortheast();
    SouthMidwest();
    SouthWest();
  }

  lemma SouthNortheast()
    ensures South * Northeast == {}
  {
  }

  lemma SouthMidwest()
    ensures South * Midwest == {}
  {
  }

  lemma SouthWest()
    ensures South * West == {}
  {
  }

  lemma NortheastDisjoint()
    ensures Northeast * Midwest == {} && Northeast * West == {}
  {
    assert Northeast * Midwest == {};
  }

  /** Because the sets are disjoint, the order of the membership tests does
      not matter: `assign_region` agrees with the order-free definition. */
  lemma AssignRegionOrderFree(stateAbbr: string)
    ensures AssignRegion(stateAbbr) == RegionOf(Upper(Strip(stateAbbr)))
  {
    RegionsDisjoint();
    var st := Upper(Strip(stateAbbr));
    assert st in South ==> st !in Northeast && st !in West && st !in Midwest;
    assert st in Northeast ==> st !in West && st !in Midwest;
    assert st in West ==> st !in Midwest;
  }

  /** A full state name is not a code: "Texas" lands in Other. */
  lemma FullNamesAreOther(name: string)
    requires NameToUsps(name).Some?
    ensures AssignRegion(name) == "Other"
  {
    StripSpec(name);
    var st := Upper(name);
    assert |st| > 2;
    LookupLength(st);
  }

  lemma LookupLength(code: string)
    requires |code| != 2
    ensures StateLookup(code).None?
  {
    if StateLookup(code).Some? {
      LookupKeysAreUpperPairs(code);
    }
  }

  /** A code names its region; a full state name does not. */
  lemma AssignRegionExamples()
    ensures AssignRegion("TX") == "South"
    ensures AssignRegion("Texas") == "Other"
  {
    CodeExample();
    FullNamesAreOther("Texas");
  }

  lemma CodeExample()
    ensures AssignRegion("TX") == "South"
  {
    assert Strip("TX") == "TX" by { StripSpec("TX"); }
    assert Upper("TX") == "TX";
  }
}

/** The proportion-to-percent rescale diabetes_region_growth_model.py
    applies to the prevalence column before grouping. */
module RegionRescale {
  import opened Tables
  import opened Wrappers
  import Units

  /** Column multiplied by 100, keeping the cell kinds. */
  function TimesHundred(c: Cell): (r: Cell)
    ensures NumericValue(r).Some? <==> NumericValue(c).Some?
    ensures NumericValue(c).Some? ==> NumericValue(r).value == 100.0 * NumericValue(c).value
  {
    match c
    case Int(i) => Int(100 * i)
    case Num(x) => Num(100.0 * x)
    case _ => c
  }

  /** `column * 100`. */
  function ScaleAll(cells: seq<Cell>): (r: seq<Cell>)
    ensures |r| == |cells| && forall i :: 0 <= i < |cells| ==> r[i] == TimesHundred(cells[i])
  {
    seq(|cells|, i requires 0 <= i < |cells| => TimesHundred(cells[i]))
  }

  /** Lines 22-23: when the prevalence column's maximum is at most 1.01 it
      holds proportions and is multiplied by 100; a column with no value has
      a NaN maximum and is left alone.  `max()` raises on text, so the
      column holds numbers and nulls only. */
  function RescalePrevalence(cells: seq<Cell>): (r: seq<Cell>)
    requires forall i :: 0 <= i < |cells| ==> !cells[i].Str?
    ensures |r| == |cells|
    ensures forall i :: 0 <= i < |cells| ==> (r[i] == Null <==> cells[i] == Null)
  {
    var m := Units.ColumnMax(cells);
    if m.Some? && m.value <= 1.01 then ScaleAll(cells) else cells
  }

  /** `x` is the largest value of the column, and some cell holds it. */
  ghost predicate Peak(cells: seq<Cell>, x: real) {
    && (exists i :: 0 <= i < |cells| && NumericValue(cells[i]) == Some(x))
    && forall i :: 0 <= i < |cells| && NumericValue(cells[i]).Some? ==> NumericValue(cells[i]).value <= x
  }

  /** The maximum `max()` computes is the peak of the column ... */
  lemma MaxIsPeak(cells: seq<Cell>)
    requires Units.ColumnMax(cells).Some?
    ensures Peak(cells, Units.ColumnMax(cells).value)
  {
  }

  /** ... and the peak is the only value that can be. */
  lemma PeakIsMax(cells: seq<Cell>, x: real)
    requires Peak(cells, x)
    ensures Units.ColumnMax(cells) == Some(x)
  {
    var w :| 0 <= w < |cells| && NumericValue(cells[w]) == Some(x);
    var m := Units.ColumnMax(cells);
    var v :| 0 <= v < |cells| && NumericValue(cells[v]) == Some(m.value);
  }

  /** A proportion column is scaled by exactly 100: every value, and so its
      peak, which ends at most 101. */
  lemma RescaleProportions(cells: seq<Cell>, m: real)
    requires forall i :: 0 <= i < |cells| ==> !cells[i].Str?
    requires Units.ColumnMax(cells) == Some(m) && m <= 1.01
    ensures forall i :: 0 <= i < |cells| && NumericValue(cells[i]).Some? ==>
              NumericValue(RescalePrevalence(cells)[i]) == Some(100.0 * NumericValue(cells[i]).value)
    ensures Peak(RescalePrevalence(cells), 100.0 * m)
    ensures 100.0 * m <= 101.0
  {
    var r := RescalePrevalence(cells);
    assert r == ScaleAll(cells);
    MaxIsPeak(cells);
    ScaledValues(cells);
    ScaledPeak(cells, m);
  }

  /** Every value of the column is multiplied by 100. */
  lemma ScaledValues(cells: seq<Cell>)
    ensures |ScaleAll(cells)| == |cells|
    ensures forall i :: 0 <= i < |cells| ==> (NumericValue(ScaleAll(cells)[i]).Some? <==> NumericValue(cells[i]).Some?)
    ensures forall i :: 0 <= i < |cells| && NumericValue(cells[i]).Some? ==>
              NumericValue(ScaleAll(cells)[i]) == Some(100.0 * NumericValue(cells[i]).value)
  {
    var r := ScaleAll(cells);
    forall i | 0 <= i < |cells|
      ensures NumericValue(r[i]).Some? <==> NumericValue(cells[i]).Some?
      ensures NumericValue(cells[i]).Some? ==> NumericValue(r[i]) == Some(100.0 * NumericValue(cells[i]).value)
    {
      assert r[i] == TimesHundred(cells[i]);
    }
  }

  /** Scaling every value by 100 scales the peak by 100. */
  lemma ScaledPeak(cells: seq<Cell>, x: real)
    requires Peak(cells, x)
    ensures Peak(ScaleAll(cells), 100.0 * x)
  {
    ScaledValues(cells);
    var w :| 0 <= w < |cells| && NumericValue(cells[w]) == Some(x);
    assert NumericValue(ScaleAll(cells)[w]) == Some(100.0 * x);
  }

  /** A column whose maximum is above 1.01, or that has no value, is kept. */
  lemma RescaleKeeps(cells: seq<Cell>)
    requires forall i :: 0 <= i < |cells| ==> !cells[i].Str?
    requires Units.ColumnMax(cells).None? || Units.ColumnMax(cells).value > 1.01
    ensures RescalePrevalence(cells) == cells
  {
  }
}
