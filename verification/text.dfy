/** The Python `str` operations the pipeline relies on, over ASCII text:
    `strip`, `strip(chars)`, `lower`, `upper` and the `in` substring test. */
module Text {

  /** Python's `str.isspace` on ASCII: space, \t \n \v \f \r and the
      information separators \x1c-\x1f. */
  predicate IsSpace(c: char) {
    c == ' ' || '\t' <= c <= '\r' || '\U{1C}' <= c <= '\U{1F}'
  }

  predicate IsUpper(c: char) {
    'A' <= c <= 'Z'
  }

  predicate IsLower(c: char) {
    'a' <= c <= 'z'
  }

  /** Drops the longest prefix whose characters all satisfy `p`. */
  function TrimLeft(s: string, p: char -> bool): (r: string)
    ensures |r| <= |s| && r == s[|s| - |r|..]
    ensures forall i :: 0 <= i < |s| - |r| ==> p(s[i])
    ensures |r| > 0 ==> !p(r[0])
  {
    if |s| > 0 && p(s[0]) then TrimLeft(s[1..], p) else s
  }

  /** Drops the longest suffix whose characters all satisfy `p`. */
  function TrimRight(s: string, p: char -> bool): (r: string)
    ensures |r| <= |s| && r == s[..|r|]
    ensures forall i :: |r| <= i < |s| ==> p(s[i])
    ensures |r| > 0 ==> !p(r[|r| - 1])
  {
    if |s| > 0 && p(s[|s| - 1]) then TrimRight(s[..|s| - 1], p) else s
  }

  /** Where the slice kept by `StripBy` starts. */
  function StripStart(s: string, p: char -> bool): (a: nat)
    ensures a <= |s|
  {
    |s| - |TrimLeft(s, p)|
  }

  /** Python's `s.strip(chars)`: the slice of `s` left after removing the
      characters satisfying `p` from both ends. */
  function StripBy(s: string, p: char -> bool): (r: string)
    ensures StripStart(s, p) + |r| <= |s|
    ensures r == s[StripStart(s, p)..StripStart(s, p) + |r|]
    ensures |r| > 0 ==> !p(r[0]) && !p(r[|r| - 1])
    ensures |s| == 0 || (!p(s[0]) && !p(s[|s| - 1])) ==> r == s
  {
    var t := TrimLeft(s, p);
    var r := TrimRight(t, p);
    assert r == s[|s| - |t|..|s| - |t| + |r|];
    r
  }

  /** Python's `str.strip()`. */
  function Strip(s: string): string {
    StripBy(s, IsSpace)
  }

  /** No white space at either end. */
  predicate IsStripped(s: string) {
    |s| == 0 || (!IsSpace(s[0]) && !IsSpace(s[|s| - 1]))
  }

  /** `strip()` yields stripped text and leaves stripped text alone. */
  lemma StripSpec(s: string)
    ensures IsStripped(Strip(s))
    ensures IsStripped(s) ==> Strip(s) == s
  {
  }

  function LowerChar(c: char): (r: char)
    ensures !IsUpper(r)
    ensures !IsUpper(c) ==> r == c
  {
    if IsUpper(c) then (c as int + 32) as char else c
  }

  function UpperChar(c: char): (r: char)
    ensures !IsLower(r)
    ensures !IsLower(c) ==> r == c
  {
    if IsLower(c) then (c as int - 32) as char else c
  }

  /** Python's `str.lower()` on ASCII letters; other characters are kept. */
  function Lower(s: string): (r: string)
    ensures |r| == |s|
    ensures forall i :: 0 <= i < |s| ==> r[i] == LowerChar(s[i])
  {
    seq(|s|, i requires 0 <= i < |s| => LowerChar(s[i]))
  }

  /** Python's `str.upper()` on ASCII letters; other characters are kept. */
  function Upper(s: string): (r: string)
    ensures |r| == |s|
    ensures forall i :: 0 <= i < |s| ==> r[i] == UpperChar(s[i])
  {
    seq(|s|, i requires 0 <= i < |s| => UpperChar(s[i]))
  }

  /** Python's `sub in s`. */
  predicate Contains(s: string, sub: string) {
    sub <= s || (|s| > 0 && Contains(s[1..], sub))
  }

  /** A position at which `sub` occurs in `s`, when `s` contains it. */
  lemma {:induction false} ContainsIndex(s: string, sub: string) returns (i: nat)
    requires Contains(s, sub)
    ensures i <= |s| && sub <= s[i..]
  {
    if sub <= s {
      i := 0;
    } else {
      var j := ContainsIndex(s[1..], sub);
      assert s[1..][j..] == s[j + 1..];
      i := j + 1;
    }
  }

  /** An occurrence of `sub` at any position makes `s` contain it. */
  lemma {:induction false} ContainsFrom(s: string, sub: string, i: nat)
    requires i <= |s| && sub <= s[i..]
    ensures Contains(s, sub)
  {
    if i > 0 {
      assert s[1..][i - 1..] == s[i..];
      ContainsFrom(s[1..], sub, i - 1);
    }
  }

  /** Whatever contains a text also contains every suffix of that text:
      a line containing "physical inactivity" contains "inactivity". */
  lemma ContainsSuffix(s: string, sub: string, k: nat)
    requires k <= |sub|
    requires Contains(s, sub)
    ensures Contains(s, sub[k..])
  {
    var i := ContainsIndex(s, sub);
    assert sub[k..] <= s[i + k..];
    ContainsFrom(s, sub[k..], i + k);
  }

  /** No text contains something longer than itself. */
  lemma {:induction false} ContainsLength(s: string, sub: string)
    requires Contains(s, sub)
    ensures |sub| <= |s|
  {
    if !(sub <= s) {
      ContainsLength(s[1..], sub);
    }
  }
}
