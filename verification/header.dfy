/** The header-row search of `read_cdc_csv`.  CDC "line chart" exports
    start with title lines; the real header is the first of the leading 50
    lines that holds a comma, "State" and "Year", else the first line with a
    comma anywhere, else the file is rejected. */
module HeaderScan {
  import opened Text
  import opened Wrappers

  /** Only `text[:50]` is searched for a titled header. */
  const ScanLimit: nat := 50

  predicate HasComma(line: string) {
    Contains(line, ",")
  }

  /** The tests are case-sensitive, as `"State" in line` is. */
  predicate IsTitledHeader(line: string) {
    Contains(line, ",") && Contains(line, "State") && Contains(line, "Year")
  }

  /** The `ValueError` raised when no line has a comma. */
  datatype ReadError = NoCommaLine

  /** The index of the header line among the file's lines. */
  method FindHeader(lines: seq<string>) returns (r: Result<nat, ReadError>)
    ensures r.Err? <==> forall i :: 0 <= i < |lines| ==> !HasComma(lines[i])
    ensures r.Ok? ==> r.value < |lines| && HasComma(lines[r.value])
    ensures (exists i :: 0 <= i < |lines| && i < ScanLimit && IsTitledHeader(lines[i])) ==>
              && r.Ok? && r.value < ScanLimit && IsTitledHeader(lines[r.value])
              && forall j :: 0 <= j < r.value ==> !IsTitledHeader(lines[j])
    ensures (forall i :: 0 <= i < |lines| && i < ScanLimit ==> !IsTitledHeader(lines[i])) ==>
              r.Ok? ==> forall j :: 0 <= j < r.value ==> !HasComma(lines[j])
  {
    var n := if |lines| < ScanLimit then |lines| else ScanLimit;
    var i := 0;
    while i < n
      invariant 0 <= i <= n
      invariant forall j :: 0 <= j < i ==> !IsTitledHeader(lines[j])
    {
      if Contains(lines[i], ",") && Contains(lines[i], "State") && Contains(lines[i], "Year") {
        return Ok(i);
      }
      i := i + 1;
    }
    i := 0;
    while i < |lines|
      invariant 0 <= i <= |lines|
      invariant forall j :: 0 <= j < i ==> !HasComma(lines[j])
    {
      if Contains(lines[i], ",") {
        return Ok(i);
      }
      i := i + 1;
    }
    return Err(NoCommaLine);
  }
}
