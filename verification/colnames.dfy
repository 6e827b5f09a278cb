/** `standardize_colnames`: every column name is stripped, lower-cased, has
    each run of characters outside [a-z0-9] replaced by one underscore, and
    finally loses its leading and trailing underscores. */
module ColumnNames {
  import opened Text
  import opened Tables

  predicate IsWordChar(c: char) {
    'a' <= c <= 'z' || '0' <= c <= '9'
  }

  predicate IsSeparator(c: char) {
    !IsWordChar(c)
  }

  predicate IsUnderscore(c: char) {
    c == '_'
  }

  predicate NoDoubleUnderscore(s: string) {
    forall i :: 0 <= i < |s| - 1 ==> !(s[i] == '_' && s[i + 1] == '_')
  }

  /** The shape of every standardized name: only [a-z0-9_], no "__", and no
      underscore at either end. */
  predicate Canonical(s: string) {
    && (forall i :: 0 <= i < |s| ==> IsWordChar(s[i]) || s[i] == '_')
    && NoDoubleUnderscore(s)
    && (|s| > 0 ==> s[0] != '_' && s[|s| - 1] != '_')
  }

  /** `re.sub("[^a-z0-9]+", "_", s)`: each maximal separator run becomes a
      single underscore. */
  function CollapseRuns(s: string): (r: string)
    ensures |r| == 0 <==> |s| == 0
    ensures |s| > 0 ==> (r[0] == '_' <==> IsSeparator(s[0]))
    ensures forall i :: 0 <= i < |r| ==> IsWordChar(r[i]) || r[i] == '_'
    ensures NoDoubleUnderscore(r)
    decreases |s|
  {
    if |s| == 0 then ""
    else if IsWordChar(s[0]) then [s[0]] + CollapseRuns(s[1..])
    else "_" + CollapseRuns(TrimLeft(s[1..], IsSeparator))
  }

  /** The name `standardize_colnames` gives a raw column name. */
  function Standardize(name: string): (r: string)
    ensures Canonical(r)
  {
    var c := CollapseRuns(Lower(Strip(name)));
    StripUnderscoresCanonical(c);
    StripBy(c, IsUnderscore)
  }

  /** Removing the end underscores of a run-free text leaves a canonical one. */
  lemma StripUnderscoresCanonical(c: string)
    requires forall i :: 0 <= i < |c| ==> IsWordChar(c[i]) || c[i] == '_'
    requires NoDoubleUnderscore(c)
    ensures Canonical(StripBy(c, IsUnderscore))
  {
    var r := StripBy(c, IsUnderscore);
    var a := StripStart(c, IsUnderscore);
    SliceKeepsShape(c, a, a + |r|);
  }

  /** A slice of a run-free text over [a-z0-9_] is one too. */
  lemma SliceKeepsShape(c: string, a: nat, b: nat)
    requires a <= b <= |c|
    requires forall i :: 0 <= i < |c| ==> IsWordChar(c[i]) || c[i] == '_'
    requires NoDoubleUnderscore(c)
    ensures forall i :: 0 <= i < b - a ==> IsWordChar(c[a..b][i]) || c[a..b][i] == '_'
    ensures NoDoubleUnderscore(c[a..b])
  {
    var r := c[a..b];
    forall i | 0 <= i < |r|
      ensures IsWordChar(r[i]) || r[i] == '_'
    {
      assert r[i] == c[a + i];
    }
    forall i | 0 <= i < |r| - 1
      ensures !(r[i] == '_' && r[i + 1] == '_')
    {
      assert r[i] == c[a + i] && r[i + 1] == c[a + i + 1];
    }
  }

  /** `standardize_colnames` on a table: same rows, each name standardized. */
  function StandardizeColumns(t: Table): (r: Table)
    ensures r.rows == t.rows && |r.cols| == |t.cols|
    ensures forall k :: 0 <= k < |t.cols| ==> r.cols[k] == Standardize(t.cols[k])
    ensures forall k :: 0 <= k < |r.cols| ==> Canonical(r.cols[k])
  {
    Table(seq(|t.cols|, k requires 0 <= k < |t.cols| => Standardize(t.cols[k])), t.rows)
  }

  /** A run-free text over [a-z0-9_] is left alone by the run replacement. */
  lemma {:induction false} CollapseRunsFixed(t: string)
    requires forall i :: 0 <= i < |t| ==> IsWordChar(t[i]) || t[i] == '_'
    requires NoDoubleUnderscore(t)
    ensures CollapseRuns(t) == t
  {
    if |t| > 0 {
      CollapseRunsFixed(t[1..]);
      if !IsWordChar(t[0]) {
        assert TrimLeft(t[1..], IsSeparator) == t[1..];
      }
    }
  }

  /** The standardized names are exactly the canonical ones: standardizing
      changes a name if and only if it is not already canonical. */
  lemma StandardizeFixpoints(t: string)
    ensures Standardize(t) == t <==> Canonical(t)
  {
    if Canonical(t) {
      assert Strip(t) == t;
      assert Lower(t) == t;
      CollapseRunsFixed(t);
    }
  }

  /** A name made only of ASCII letters and digits is just lower-cased. */
  lemma StandardizeAlphanumeric(name: string)
    requires forall i :: 0 <= i < |name| ==> IsWordChar(LowerChar(name[i]))
    ensures Standardize(name) == Lower(name)
  {
    assert forall i :: 0 <= i < |name| ==> !IsSpace(name[i]);
    assert Strip(name) == name;
    CollapseRunsFixed(Lower(name));
  }

  /** Standardizing twice is the same as standardizing once. */
  lemma StandardizeIdempotent(name: string)
    ensures Standardize(Standardize(name)) == Standardize(name)
  {
    StandardizeFixpoints(Standardize(name));
  }
}
