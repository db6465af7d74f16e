/** The Python string operations the validator and the card routes use:
    `str.isdigit`, `str.replace(' ', '')`, `str.strip()` and `str.lower()`. */
module Text {

  /** An ASCII decimal digit. */
  predicate IsDigit(c: char) {
    '0' <= c <= '9'
  }

  /** `s.isdigit()`: non-empty and every character a digit. */
  predicate IsDigits(s: string) {
    |s| > 0 && forall i :: 0 <= i < |s| ==> IsDigit(s[i])
  }

  /** True when `s` contains no `' '`. */
  predicate NoSpaces(s: string) {
    forall i :: 0 <= i < |s| ==> s[i] != ' '
  }

  /** `s.replace(' ', '')`: `s` with every space removed. */
  function RemoveSpaces(s: string): (r: string)
    ensures |r| <= |s|
    ensures NoSpaces(r)
  {
    if |s| == 0 then ""
    else if s[0] == ' ' then RemoveSpaces(s[1..])
    else [s[0]] + RemoveSpaces(s[1..])
  }

  /** Removing spaces distributes over concatenation. */
  lemma {:induction false} RemoveSpacesAppend(s: string, t: string)
    ensures RemoveSpaces(s + t) == RemoveSpaces(s) + RemoveSpaces(t)
  {
    if |s| == 0 {
      assert s + t == t;
    } else {
      assert (s + t)[0] == s[0];
      assert (s + t)[1..] == s[1..] + t;
      RemoveSpacesAppend(s[1..], t);
    }
  }

  /** Removing spaces from two strings joined by a space. */
  lemma RemoveSpacesJoin(s: string, t: string)
    ensures RemoveSpaces(s + " " + t) == RemoveSpaces(s) + RemoveSpaces(t)
  {
    RemoveSpacesAppend(s + " ", t);
    RemoveSpacesAppend(s, " ");
    assert RemoveSpaces(" ") == "";
  }

  /** Every character other than a space survives the removal. */
  lemma {:induction false} RemoveSpacesKeeps(s: string)
    ensures forall i :: 0 <= i < |s| && s[i] != ' ' ==> s[i] in RemoveSpaces(s)
  {
    if |s| > 0 {
      RemoveSpacesKeeps(s[1..]);
      assert forall i :: 1 <= i < |s| ==> s[i] == s[1..][i - 1];
    }
  }

  /** A string without spaces is left as it is. */
  lemma {:induction false} RemoveSpacesNoSpaces(s: string)
    requires NoSpaces(s)
    ensures RemoveSpaces(s) == s
  {
    if |s| > 0 {
      RemoveSpacesNoSpaces(s[1..]);
      assert [s[0]] + s[1..] == s;
    }
  }

  /** The whitespace `str.strip()` removes: the characters for which Python's
      `str.isspace()` holds. */
  predicate IsWhitespace(c: char) {
    || ('\t' <= c <= '\r')                 // U+0009..U+000D
    || ('\U{1C}' <= c <= ' ')              // U+001C..U+0020
    || c == '\U{85}' || c == '\U{A0}' || c == '\U{1680}'
    || ('\U{2000}' <= c <= '\U{200A}')
    || c == '\U{2028}' || c == '\U{2029}' || c == '\U{202F}' || c == '\U{205F}' || c == '\U{3000}'
  }

  /** `s` without its leading whitespace. */
  function TrimStart(s: string): (r: string)
    ensures |r| <= |s| && r == s[|s| - |r|..]
    ensures |r| > 0 ==> !IsWhitespace(r[0])
    ensures forall i :: 0 <= i < |s| - |r| ==> IsWhitespace(s[i])
  {
    if |s| > 0 && IsWhitespace(s[0]) then TrimStart(s[1..]) else s
  }

  /** `s` without its trailing whitespace. */
  function TrimEnd(s: string): (r: string)
    ensures |r| <= |s| && r == s[..|r|]
    ensures |r| > 0 ==> !IsWhitespace(r[|r| - 1])
    ensures forall i :: |r| <= i < |s| ==> IsWhitespace(s[i])
  {
    if |s| > 0 && IsWhitespace(s[|s| - 1]) then TrimEnd(s[..|s| - 1]) else s
  }

  /** Text that neither starts nor ends with whitespace. */
  predicate NoEdgeWhitespace(s: string) {
    |s| > 0 ==> !IsWhitespace(s[0]) && !IsWhitespace(s[|s| - 1])
  }

  /** `r` is `s[lo..hi]` with only whitespace outside it. */
  predicate TrimmedPart(s: string, r: string, lo: int, hi: int) {
    && 0 <= lo <= hi <= |s| && r == s[lo..hi]
    && (forall i :: 0 <= i < lo ==> IsWhitespace(s[i]))
    && (forall i :: hi <= i < |s| ==> IsWhitespace(s[i]))
  }

  /** `s.strip()`: a contiguous part of `s`, neither starting nor ending with
      whitespace, with only whitespace cut off on either side. */
  function Strip(s: string): (r: string)
    ensures exists lo, hi :: TrimmedPart(s, r, lo, hi)
    ensures |r| > 0 ==> !IsWhitespace(r[0]) && !IsWhitespace(r[|r| - 1])
  {
    var t := TrimStart(s);
    var r := TrimEnd(t);
    StripPart(s, t, r);
    r
  }

  /** A prefix `r` of a suffix `t` of `s`, with only whitespace cut off on
      either side, is a trimmed part of `s`. */
  lemma StripPart(s: string, t: string, r: string)
    requires |t| <= |s| && t == s[|s| - |t|..]
    requires forall i :: 0 <= i < |s| - |t| ==> IsWhitespace(s[i])
    requires |r| <= |t| && r == t[..|r|]
    requires forall i :: |r| <= i < |t| ==> IsWhitespace(t[i])
    ensures TrimmedPart(s, r, |s| - |t|, |s| - |t| + |r|)
  {
    var lo := |s| - |t|;
    SliceOfSuffix(s, lo, |r|);
    forall i | lo + |r| <= i < |s|
      ensures IsWhitespace(s[i])
    {
      assert s[i] == t[i - lo];
    }
  }

  lemma SliceOfSuffix(s: string, lo: nat, k: nat)
    requires lo + k <= |s|
    ensures s[lo..][..k] == s[lo..lo + k]
  {
  }

  /** Text made only of whitespace strips to nothing. */
  lemma StripWhitespace(s: string)
    requires forall i :: 0 <= i < |s| ==> IsWhitespace(s[i])
    ensures Strip(s) == ""
  {
    var t := TrimStart(s);
    assert t == s[|s| - |t|..];
  }

  /** Text that neither starts nor ends with whitespace is its own strip. */
  lemma StripUnchanged(s: string)
    requires |s| > 0 ==> !IsWhitespace(s[0]) && !IsWhitespace(s[|s| - 1])
    ensures Strip(s) == s
  {
  }

  /** Digits are not whitespace, so a digit string is its own strip. */
  lemma StripDigits(s: string)
    requires IsDigits(s)
    ensures Strip(s) == s
  {
    StripUnchanged(s);
  }

  /** Text without an ASCII capital letter. */
  predicate NoCapitals(s: string) {
    forall i :: 0 <= i < |s| ==> !('A' <= s[i] <= 'Z')
  }

  /** `s.lower()` on ASCII letters; other characters are kept. */
  function AsciiLower(s: string): (r: string)
    ensures |r| == |s|
    ensures forall i :: 0 <= i < |s| ==>
      r[i] == if 'A' <= s[i] <= 'Z' then (s[i] as int + 32) as char else s[i]
  {
    seq(|s|, i requires 0 <= i < |s| => if 'A' <= s[i] <= 'Z' then (s[i] as int + 32) as char else s[i])
  }

  /** Lower-cased text has no capital letter left. */
  lemma LowerHasNoCapitals(s: string)
    ensures NoCapitals(AsciiLower(s))
  {
  }

  /** A part of text without capitals has none. */
  lemma PartNoCapitals(s: string, r: string, lo: int, hi: int)
    requires NoCapitals(s) && TrimmedPart(s, r, lo, hi)
    ensures NoCapitals(r)
  {
    assert forall i :: 0 <= i < |r| ==> r[i] == s[lo + i];
  }
}
