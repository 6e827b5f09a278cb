/** The two fixed lookup tables of the cleaning stage and `ensure_geo`,
    which turns the `state` column into USPS codes and derives `state_fips`. */
module Geo {
  import opened Text
  import opened Tables
  import opened Wrappers

  /** `STATE_LOOKUP.get(code)`: USPS code to numeric FIPS code, for the 50
      states and the District of Columbia. */
  function StateLookup(code: string): Option<int> {
    match code
    case "AL" => Some(1)   case "AK" => Some(2)   case "AZ" => Some(4)   case "AR" => Some(5)
    case "CA" => Some(6)   case "CO" => Some(8)   case "CT" => Some(9)   case "DE" => Some(10)
    case "DC" => Some(11)  case "FL" => Some(12)  case "GA" => Some(13)  case "HI" => Some(15)
    case "ID" => Some(16)  case "IL" => Some(17)  case "IN" => Some(18)  case "IA" => Some(19)
    case "KS" => Some(20)  case "KY" => Some(21)  case "LA" => Some(22)  case "ME" => Some(23)
    case "MD" => Some(24)  case "MA" => Some(25)  case "MI" => Some(26)  case "MN" => Some(27)
    case "MS" => Some(28)  case "MO" => Some(29)  case "MT" => Some(30)  case "NE" => Some(31)
    case "NV" => Some(32)  case "NH" => Some(33)  case "NJ" => Some(34)  case "NM" => Some(35)
    case "NY" => Some(36)  case "NC" => Some(37)  case "ND" => Some(38)  case "OH" => Some(39)
    case "OK" => Some(40)  case "OR" => Some(41)  case "PA" => Some(42)  case "RI" => Some(44)
    case "SC" => Some(45)  case "SD" => Some(46)  case "TN" => Some(47)  case "TX" => Some(48)
    case "UT" => Some(49)  case "VT" => Some(50)  case "VA" => Some(51)  case "WA" => Some(53)
    case "WV" => Some(54)  case "WI" => Some(55)  case "WY" => Some(56)
    case _ => None
  }

  /** `NAME_TO_USPS.get(name)`: full state name (exact spelling and case) to
      USPS code.  The 51 entries are split alphabetically over five functions
      only to keep each proof of the postconditions small. */
  function NameToUsps(name: string): (r: Option<string>)
    ensures r.Some? ==> StateLookup(r.value).Some?
    ensures r.Some? ==> IsStripped(name) && |name| > 2 && IsLower(name[1])
  {
    match name
    case "Alabama" => Some("AL")
    case "Alaska" => Some("AK")
    case "Arizona" => Some("AZ")
    case "Arkansas" => Some("AR")
    case "California" => Some("CA")
    case "Colorado" => Some("CO")
    case "Connecticut" => Some("CT")
    case "Delaware" => Some("DE")
    case "District of Columbia" => Some("DC")
    case "Florida" => Some("FL")
    case _ => NameToUspsFromGeorgia(name)
  }

  /** The entries of `NameToUsps` from "Georgia" to "Maine". */
  function NameToUspsFromGeorgia(name: string): (r: Option<string>)
    ensures r.Some? ==> StateLookup(r.value).Some?
    ensures r.Some? ==> IsStripped(name) && |name| > 2 && IsLower(name[1])
  {
    match name
    case "Georgia" => Some("GA")
    case "Hawaii" => Some("HI")
    case "Idaho" => Some("ID")
    case "Illinois" => Some("IL")
    case "Indiana" => Some("IN")
    case "Iowa" => Some("IA")
    case "Kansas" => Some("KS")
    case "Kentucky" => Some("KY")
    case "Louisiana" => Some("LA")
    case "Maine" => Some("ME")
    case _ => NameToUspsFromMaryland(name)
  }

  /** The entries of `NameToUsps` from "Maryland" to "New Hampshire". */
  function NameToUspsFromMaryland(name: string): (r: Option<string>)
    ensures r.Some? ==> StateLookup(r.value).Some?
    ensures r.Some? ==> IsStripped(name) && |name| > 2 && IsLower(name[1])
  {
    match name
    case "Maryland" => Some("MD")
    case "Massachusetts" => Some("MA")
    case "Michigan" => Some("MI")
    case "Minnesota" => Some("MN")
    case "Mississippi" => Some("MS")
    case "Missouri" => Some("MO")
    case "Montana" => Some("MT")
    case "Nebraska" => Some("NE")
    case "Nevada" => Some("NV")
    case "New Hampshire" => Some("NH")
    case _ => NameToUspsFromNewJersey(name)
  }

  /** The entries of `NameToUsps` from "New Jersey" to "Rhode Island". */
  function NameToUspsFromNewJersey(name: string): (r: Option<string>)
    ensures r.Some? ==> StateLookup(r.value).Some?
    ensures r.Some? ==> IsStripped(name) && |name| > 2 && IsLower(name[1])
  {
    match name
    case "New Jersey" => Some("NJ")
    case "New Mexico" => Some("NM")
    case "New York" => Some("NY")
    case "North Carolina" => Some("NC")
    case "North Dakota" => Some("ND")
    case "Ohio" => Some("OH")
    case "Oklahoma" => Some("OK")
    case "Oregon" => Some("OR")
    case "Pennsylvania" => Some("PA")
    case "Rhode Island" => Some("RI")
    case _ => NameToUspsFromSouthCarolina(name)
  }

  /** The entries of `NameToUsps` from "South Carolina" to "Wyoming". */
  function NameToUspsFromSouthCarolina(name: string): (r: Option<string>)
    ensures r.Some? ==> StateLookup(r.value).Some?
    ensures r.Some? ==> IsStripped(name) && |name| > 2 && IsLower(name[1])
  {
    match name
    case "South Carolina" => Some("SC")
    case "South Dakota" => Some("SD")
    case "Tennessee" => Some("TN")
    case "Texas" => Some("TX")
    case "Utah" => Some("UT")
    case "Vermont" => Some("VT")
    case "Virginia" => Some("VA")
    case "Washington" => Some("WA")
    case "West Virginia" => Some("WV")
    case "Wisconsin" => Some("WI")
    case "Wyoming" => Some("WY")
    case _ => None
  }

  /** The code a FIPS number came from: the inverse of `StateLookup`, and
      the empty text for a number no code has. */
  function CodeOfFips(f: int): string {
    match f
    case 1 => "AL"   case 2 => "AK"   case 4 => "AZ"   case 5 => "AR"   case 6 => "CA"
    case 8 => "CO"   case 9 => "CT"   case 10 => "DE"  case 11 => "DC"  case 12 => "FL"
    case 13 => "GA"  case 15 => "HI"  case 16 => "ID"  case 17 => "IL"  case 18 => "IN"
    case 19 => "IA"  case 20 => "KS"  case 21 => "KY"  case 22 => "LA"  case 23 => "ME"
    case 24 => "MD"  case 25 => "MA"  case 26 => "MI"  case 27 => "MN"  case 28 => "MS"
    case 29 => "MO"  case 30 => "MT"  case 31 => "NE"  case 32 => "NV"  case 33 => "NH"
    case 34 => "NJ"  case 35 => "NM"  case 36 => "NY"  case 37 => "NC"  case 38 => "ND"
    case 39 => "OH"  case 40 => "OK"  case 41 => "OR"  case 42 => "PA"  case 44 => "RI"
    case 45 => "SC"  case 46 => "SD"  case 47 => "TN"  case 48 => "TX"  case 49 => "UT"
    case 50 => "VT"  case 51 => "VA"  case 53 => "WA"  case 54 => "WV"  case 55 => "WI"
    case 56 => "WY"
    case _ => ""
  }

  /** No two codes share a FIPS number. */
  lemma StateLookupInjective(a: string, b: string)
    requires StateLookup(a).Some? && StateLookup(a) == StateLookup(b)
    ensures a == b
  {
    FipsBackToCode(a);
    FipsBackToCode(b);
  }

  /** `CodeOfFips` undoes `StateLookup`. */
  lemma FipsBackToCode(code: string)
    requires StateLookup(code).Some?
    ensures CodeOfFips(StateLookup(code).value) == code
  {
  }


  /** `StateLookup` undoes `CodeOfFips`. */
  lemma CodeOfFipsLooksUp(f: int)
    requires CodeOfFips(f) != ""
    ensures StateLookup(CodeOfFips(f)) == Some(f)
  {
  }

  lemma CodesLookUp()
    ensures forall f :: CodeOfFips(f) != "" ==> StateLookup(CodeOfFips(f)) == Some(f)
  {
    forall f | CodeOfFips(f) != ""
      ensures StateLookup(CodeOfFips(f)) == Some(f)
    {
      CodeOfFipsLooksUp(f);
    }
  }

  /** Codes are two upper-case letters. */
  lemma LookupKeysAreUpperPairs(code: string)
    requires StateLookup(code).Some?
    ensures |code| == 2 && IsUpper(code[0]) && IsUpper(code[1])
  {
  }


  /** The state text `ensure_geo` produces: strip, map a full name to its
      code (other text is kept), upper-case. */
  function NormalizeState(s: string): string {
    var t := Strip(s);
    Upper(NameToUsps(t).GetOr(t))
  }

  /** `astype(str)` turns a missing state into the text "nan"; numeric
      states are left as they are (no numeric text is a state name or code). */
  function NormalizeStateCell(c: Cell): Cell {
    match c
    case Str(s) => Str(NormalizeState(s))
    case Null => Str(NormalizeState("nan"))
    case _ => c
  }

  /** `df["state"].map(STATE_LOOKUP)`: the FIPS number of a code, else NaN.
      A number is produced only for a known code and leads back to it, so
      two rows share a FIPS number exactly when they share a state code. */
  function FipsCell(c: Cell): (r: Cell)
    ensures r.Null? || r.Int?
    ensures r.Int? <==> c.Str? && c.s != "" && exists f :: CodeOfFips(f) == c.s
    ensures r.Int? ==> 1 <= r.i <= 56 && CodeOfFips(r.i) == c.s
  {
    if c.Str? && StateLookup(c.s).Some? then
      FipsBackToCode(c.s);
      Int(StateLookup(c.s).value)
    else
      CodesLookUp();
      Null
  }

  /** No lower-case letter anywhere. */
  predicate NoLower(s: string) {
    forall i :: 0 <= i < |s| ==> !IsLower(s[i])
  }

  /** What `NormalizeState` yields is stripped and has no lower-case letter. */
  lemma NormalizedShape(s: string)
    ensures IsStripped(NormalizeState(s)) && NoLower(NormalizeState(s))
  {
    StripSpec(s);
    var t := Strip(s);
    LookupStripped(t);
    UpperShape(NameToUsps(t).GetOr(t));
  }

  /** Looking a stripped text up yields stripped text. */
  lemma LookupStripped(t: string)
    requires IsStripped(t)
    ensures IsStripped(NameToUsps(t).GetOr(t))
  {
    if NameToUsps(t).Some? {
      LookupKeysAreUpperPairs(NameToUsps(t).value);
    }
  }

  /** Upper-casing keeps stripped text stripped and leaves no lower-case
      letter. */
  lemma UpperShape(t: string)
    requires IsStripped(t)
    ensures IsStripped(Upper(t)) && NoLower(Upper(t))
  {
  }

  /** Full names have a lower-case second letter, so text without one is
      not a full name. */
  lemma NoLowerNotName(u: string)
    requires NoLower(u)
    ensures NameToUsps(u).None?
  {
  }

  /** Stripped text without lower-case letters is left alone. */
  lemma NormalizeFixed(u: string)
    requires IsStripped(u) && NoLower(u)
    ensures NormalizeState(u) == u
  {
    StripSpec(u);
    NoLowerNotName(u);
    assert Upper(u) == u;
  }

  /** Normalizing an already normalized state changes nothing. */
  lemma NormalizeStateIdempotent(s: string)
    ensures NormalizeState(NormalizeState(s)) == NormalizeState(s)
  {
    NormalizedShape(s);
    NormalizeFixed(NormalizeState(s));
  }

  /** Every full name in the table gets a FIPS number after normalization. */
  lemma FullNamesResolve(name: string)
    requires NameToUsps(name).Some?
    ensures NormalizeState(name) == NameToUsps(name).value
    ensures StateLookup(NormalizeState(name)).Some?
  {
    var code := NameToUsps(name).value;
    StripSpec(name);
    assert NormalizeState(name) == Upper(code);
    LookupKeysAreUpperPairs(code);
    UpperPairFixed(code);
  }

  lemma UpperPairFixed(code: string)
    requires |code| == 2 && IsUpper(code[0]) && IsUpper(code[1])
    ensures Upper(code) == code
  {
    assert Upper(code)[0] == code[0] && Upper(code)[1] == code[1];
  }

  /** Every code in the lookup table, in any letter case, resolves to itself. */
  lemma CodesResolve(code: string)
    requires StateLookup(Upper(code)).Some?
    ensures NormalizeState(code) == Upper(code)
  {
    LookupKeysAreUpperPairs(Upper(code));
    assert IsStripped(code);
    StripSpec(code);
  }

  lemma NormalizeStateCellIdempotent(c: Cell)
    ensures NormalizeStateCell(NormalizeStateCell(c)) == NormalizeStateCell(c)
  {
    match c
    case Str(s) => NormalizeStateIdempotent(s);
    case Null => NormalizeStateIdempotent("nan");
    case _ =>
  }

  /** `ensure_geo`: normalize the `state` column (if any); then, only when
      there is a `state` column and no `state_fips` column yet, append
      `state_fips` looked up from the normalized state. */
  function EnsureGeo(t: Table): (r: Table)
    requires WellFormed(t) && AtMostOnce(t.cols, "state")
    ensures WellFormed(r) && |r.rows| == |t.rows|
    ensures "state" !in t.cols ==> r == t
    ensures "state" in t.cols && "state_fips" in t.cols ==> r.cols == t.cols
    ensures "state" in t.cols && "state_fips" !in t.cols ==> r.cols == t.cols + ["state_fips"]
    ensures forall i, p :: 0 <= i < |t.rows| && 0 <= p < |t.cols| && t.cols[p] != "state" ==>
              r.rows[i][p] == t.rows[i][p]
    ensures forall i, p :: 0 <= i < |t.rows| && 0 <= p < |t.cols| && t.cols[p] == "state" ==>
              r.rows[i][p] == NormalizeStateCell(t.rows[i][p])
    ensures "state" in t.cols && "state_fips" !in t.cols ==>
              forall i :: 0 <= i < |t.rows| ==>
                r.rows[i][|t.cols|] == FipsCell(NormalizeStateCell(Get(t.cols, t.rows[i], "state")))
  {
    if "state" !in t.cols then t
    else
      var k := IndexOf(t.cols, "state");
      var rows := seq(|t.rows|, i requires 0 <= i < |t.rows| =>
                        t.rows[i][k := NormalizeStateCell(t.rows[i][k])]);
      if "state_fips" in t.cols then Table(t.cols, rows)
      else Table(t.cols + ["state_fips"],
                 seq(|rows|, i requires 0 <= i < |rows| => rows[i] + [FipsCell(rows[i][k])]))
  }

  /** Running `ensure_geo` on its own output changes nothing: the state
      column is already normalized and `state_fips` is not recomputed. */
  lemma EnsureGeoIdempotent(t: Table)
    requires WellFormed(t) && AtMostOnce(t.cols, "state")
    ensures AtMostOnce(EnsureGeo(t).cols, "state")
    ensures EnsureGeo(EnsureGeo(t)) == EnsureGeo(t)
  {
    var r := EnsureGeo(t);
    if "state" in t.cols {
      var k := IndexOf(t.cols, "state");
      assert IndexOf(r.cols, "state") == k;
      var r2 := EnsureGeo(r);
      assert r2.cols == r.cols;
      forall i | 0 <= i < |r.rows|
        ensures r2.rows[i] == r.rows[i]
      {
        forall p | 0 <= p < |r.cols|
          ensures r2.rows[i][p] == r.rows[i][p]
        {
          if p == k {
            NormalizeStateCellIdempotent(t.rows[i][k]);
          }
        }
      }
    }
  }

  /** "Texas", " Texas " and "tx" all become "TX". */
  lemma NormalizeStateExamples()
    ensures NormalizeState("Texas") == "TX"
    ensures NormalizeState(" Texas ") == "TX"
    ensures NormalizeState("tx") == "TX"
  {
    TexasIsTx();
    FullNamesResolve("Texas");
    PaddedTexas();
    StripSpec(" Texas ");
    StripSpec("Texas");
    UpperTx();
    CodesResolve("tx");
  }

  lemma TexasIsTx()
    ensures NameToUsps("Texas") == Some("TX")
  {
  }

  lemma PaddedTexas()
    ensures Strip(" Texas ") == "Texas"
  {
    assert TrimLeft(" Texas ", IsSpace) == "Texas ";
    assert TrimRight("Texas ", IsSpace) == "Texas";
  }

  lemma UpperTx()
    ensures Upper("tx") == "TX" && StateLookup("TX") == Some(48)
  {
  }
}
