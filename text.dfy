/** The string primitives of the .NET base library that the value objects use:
    char.IsWhiteSpace, string.IsNullOrWhiteSpace, Trim, ToLower and ToUpper. */
module Text {

  /** char.IsWhiteSpace: the Unicode space, line and paragraph separators,
      the control characters U+0009 to U+000D, and U+0085. */
  predicate IsWhiteSpace(c: char) {
    c == ' ' || ('\t' <= c <= '\r') || c == '\U{85}' || c == '\U{A0}' || c == '\U{1680}'
    || ('\U{2000}' <= c <= '\U{200A}') || c == '\U{2028}' || c == '\U{2029}'
    || c == '\U{202F}' || c == '\U{205F}' || c == '\U{3000}'
  }

  /** string.IsNullOrWhiteSpace on a non-null string: empty or only white space. */
  predicate IsBlank(s: string) {
    forall i :: 0 <= i < |s| ==> IsWhiteSpace(s[i])
  }

  /** No white space at either end. */
  predicate IsTrimmed(s: string) {
    s == [] || (!IsWhiteSpace(s[0]) && !IsWhiteSpace(s[|s| - 1]))
  }

  /** The index of the first character at or after i that is not white space
      (|s| when there is none). */
  function StartOfText(s: string, i: nat): (r: nat)
    requires i <= |s|
    ensures i <= r <= |s|
    ensures forall j :: i <= j < r ==> IsWhiteSpace(s[j])
    ensures r < |s| ==> !IsWhiteSpace(s[r])
    decreases |s| - i
  {
    if i < |s| && IsWhiteSpace(s[i]) then StartOfText(s, i + 1) else i
  }

  /** The index just past the last character before j, and not before lo,
      that is not white space (lo when there is none). */
  function EndOfText(s: string, lo: nat, j: nat): (r: nat)
    requires lo <= j <= |s|
    ensures lo <= r <= j
    ensures forall m :: r <= m < j ==> IsWhiteSpace(s[m])
    ensures r > lo ==> !IsWhiteSpace(s[r - 1])
  {
    if j > lo && IsWhiteSpace(s[j - 1]) then EndOfText(s, lo, j - 1) else j
  }

  /** string.Trim(): drops the white space at both ends. */
  function Trim(s: string): (r: string)
    ensures IsTrimmed(r)
    ensures |r| <= |s|
  {
    var a := StartOfText(s, 0);
    s[a..EndOfText(s, a, |s|)]
  }

  /** Trim keeps one slice s[k..k + |Trim(s)|] of its input, and everything
      outside that slice is white space. */
  lemma TrimIsSlice(s: string) returns (k: nat)
    ensures k + |Trim(s)| <= |s|
    ensures Trim(s) == s[k..k + |Trim(s)|]
    ensures forall i :: 0 <= i < k ==> IsWhiteSpace(s[i])
    ensures forall i :: k + |Trim(s)| <= i < |s| ==> IsWhiteSpace(s[i])
  {
    k := StartOfText(s, 0);
  }

  /** Trim removes exactly the white space around a trimmed, non-empty
      string. */
  lemma TrimPadded(before: string, t: string, after: string)
    requires IsBlank(before) && IsBlank(after)
    requires t != [] && IsTrimmed(t)
    ensures Trim(before + t + after) == t
  {
    var s := before + t + after;
    var a, b := |before|, |before| + |t|;
    assert s[a] == t[0] && s[b - 1] == t[|t| - 1];
    StartAtFirstText(s, 0, a);
    EndAfterLastText(s, a, |s|, b);
    assert s[a..b] == t;
  }

  /** StartOfText(s, i) is n when s[i..n] is white space and s[n] is not. */
  lemma {:induction false} StartAtFirstText(s: string, i: nat, n: nat)
    requires i <= n < |s| && !IsWhiteSpace(s[n])
    requires forall j :: i <= j < n ==> IsWhiteSpace(s[j])
    ensures StartOfText(s, i) == n
    decreases n - i
  {
    if i < n {
      StartAtFirstText(s, i + 1, n);
    }
  }

  /** EndOfText(s, lo, j) is n when s[n..j] is white space and s[n - 1] is
      not. */
  lemma {:induction false} EndAfterLastText(s: string, lo: nat, j: nat, n: nat)
    requires lo < n <= j <= |s| && !IsWhiteSpace(s[n - 1])
    requires forall m :: n <= m < j ==> IsWhiteSpace(s[m])
    ensures EndOfText(s, lo, j) == n
    decreases j - n
  {
    if n < j {
      EndAfterLastText(s, lo, j - 1, n);
    }
  }

  /** Trimming an already trimmed string changes nothing. */
  lemma TrimOfTrimmed(s: string)
    requires IsTrimmed(s)
    ensures Trim(s) == s
  {
  }

  /** Trim is idempotent. */
  lemma TrimIdempotent(s: string)
    ensures Trim(Trim(s)) == Trim(s)
  {
    TrimOfTrimmed(Trim(s));
  }

  /** A blank string trims to the empty string. */
  lemma TrimOfBlank(s: string)
    requires IsBlank(s)
    ensures Trim(s) == []
  {
    var k := TrimIsSlice(s);
    assert forall i :: 0 <= i < |Trim(s)| ==> Trim(s)[i] == s[k + i];
  }

  /** Joining two blank strings gives a blank string. */
  lemma BlankJoin(a: string, b: string)
    requires IsBlank(a) && IsBlank(b)
    ensures IsBlank(a + b)
  {
    forall i | 0 <= i < |a + b|
      ensures IsWhiteSpace((a + b)[i])
    {
      if i >= |a| {
        assert (a + b)[i] == b[i - |a|];
      }
    }
  }

  /** Padding around s regroups around its slice s[k..k + n] when
      everything outside that slice is white space. */
  lemma RegroupPadding(before: string, s: string, after: string, k: nat, n: nat)
    requires IsBlank(before) && IsBlank(after) && k + n <= |s|
    requires forall i :: 0 <= i < k ==> IsWhiteSpace(s[i])
    requires forall i :: k + n <= i < |s| ==> IsWhiteSpace(s[i])
    ensures before + s + after == (before + s[..k]) + s[k..k + n] + (s[k + n..] + after)
    ensures IsBlank(before + s[..k]) && IsBlank(s[k + n..] + after)
  {
    assert s == s[..k] + s[k..k + n] + s[k + n..];
    BlankJoin(before, s[..k]);
    BlankJoin(s[k + n..], after);
  }

  /** White space added around any string leaves its trimmed form as it
      was. */
  lemma TrimIgnoresPadding(before: string, s: string, after: string)
    requires IsBlank(before) && IsBlank(after)
    ensures Trim(before + s + after) == Trim(s)
  {
    var k := TrimIsSlice(s);
    var t := Trim(s);
    RegroupPadding(before, s, after, k, |t|);
    var left, right := before + s[..k], s[k + |t|..] + after;
    if t == [] {
      BlankJoin(left, right);
      assert before + s + after == left + right;
      TrimOfBlank(before + s + after);
    } else {
      TrimPadded(left, t, right);
    }
  }

  /** String.Length: the number of UTF-16 code units, two for a character
      outside the Basic Multilingual Plane. */
  function Utf16Length(s: string): (n: nat)
    ensures |s| <= n <= 2 * |s|
    ensures (forall i :: 0 <= i < |s| ==> s[i] as int <= 0xFFFF) ==> n == |s|
  {
    if s == [] then 0
    else (if s[0] as int <= 0xFFFF then 1 else 2) + Utf16Length(s[1..])
  }

  /** char.ToLowerInvariant restricted to ASCII: 'A'..'Z' become 'a'..'z'. */
  function LowerChar(c: char): char {
    if 'A' <= c <= 'Z' then (c as int + 32) as char else c
  }

  /** char.ToUpperInvariant restricted to ASCII: 'a'..'z' become 'A'..'Z'. */
  function UpperChar(c: char): char {
    if 'a' <= c <= 'z' then (c as int - 32) as char else c
  }

  /** string.ToLower(): lower-cases every character, keeping the length. */
  function ToLower(s: string): (r: string)
    ensures |r| == |s|
    ensures forall i :: 0 <= i < |s| ==> r[i] == LowerChar(s[i])
  {
    if s == [] then [] else [LowerChar(s[0])] + ToLower(s[1..])
  }

  /** string.ToUpper(): upper-cases every character, keeping the length. */
  function ToUpper(s: string): (r: string)
    ensures |r| == |s|
    ensures forall i :: 0 <= i < |s| ==> r[i] == UpperChar(s[i])
  {
    if s == [] then [] else [UpperChar(s[0])] + ToUpper(s[1..])
  }

  /** Lower-casing neither creates nor removes white space. */
  lemma LowerCharKeepsWhiteSpace(c: char)
    ensures IsWhiteSpace(LowerChar(c)) <==> IsWhiteSpace(c)
  {
  }

  /** Lower-casing twice is lower-casing once. */
  lemma ToLowerIdempotent(s: string)
    ensures ToLower(ToLower(s)) == ToLower(s)
  {
    assert forall i :: 0 <= i < |s| ==> LowerChar(LowerChar(s[i])) == LowerChar(s[i]);
  }

  /** The normalisation Email applies: Trim, then ToLower. */
  function Normalize(s: string): string {
    ToLower(Trim(s))
  }

  /** A normalised string has no white space at either end and no upper-case
      ASCII letter; in particular it never ends in a line feed. */
  lemma NormalizedShape(s: string)
    ensures IsTrimmed(Normalize(s))
    ensures forall i :: 0 <= i < |Normalize(s)| ==> !('A' <= Normalize(s)[i] <= 'Z')
    ensures |Normalize(s)| > 0 ==> Normalize(s)[|Normalize(s)| - 1] != '\n'
  {
    var t := Trim(s);
    if t != [] {
      LowerCharKeepsWhiteSpace(t[0]);
      LowerCharKeepsWhiteSpace(t[|t| - 1]);
    }
  }

  /** Strings that agree character by character once lower-cased have the
      same normal form. */
  lemma NormalizeAgrees(s: string, t: string)
    requires |s| == |t|
    requires forall i :: 0 <= i < |s| ==> LowerChar(s[i]) == LowerChar(t[i])
    ensures Normalize(s) == Normalize(t)
  {
    forall i | 0 <= i < |s|
      ensures IsWhiteSpace(s[i]) <==> IsWhiteSpace(t[i])
    {
      LowerCharKeepsWhiteSpace(s[i]);
      LowerCharKeepsWhiteSpace(t[i]);
    }
    var a := StartOfText(s, 0);
    SameStartOfText(s, t, 0);
    SameEndOfText(s, t, a, |s|);
    var b := EndOfText(s, a, |s|);
    assert Trim(s) == s[a..b] && Trim(t) == t[a..b];
  }

  /** StartOfText only looks at which characters are white space. */
  lemma {:induction false} SameStartOfText(s: string, t: string, i: nat)
    requires |s| == |t| && i <= |s|
    requires forall j :: 0 <= j < |s| ==> (IsWhiteSpace(s[j]) <==> IsWhiteSpace(t[j]))
    ensures StartOfText(s, i) == StartOfText(t, i)
    decreases |s| - i
  {
    if i < |s| && IsWhiteSpace(s[i]) {
      SameStartOfText(s, t, i + 1);
    }
  }

  /** EndOfText only looks at which characters are white space. */
  lemma {:induction false} SameEndOfText(s: string, t: string, lo: nat, j: nat)
    requires |s| == |t| && lo <= j <= |s|
    requires forall m :: 0 <= m < |s| ==> (IsWhiteSpace(s[m]) <==> IsWhiteSpace(t[m]))
    ensures EndOfText(s, lo, j) == EndOfText(t, lo, j)
  {
    if j > lo && IsWhiteSpace(s[j - 1]) {
      SameEndOfText(s, t, lo, j - 1);
    }
  }

  /** Normalisation is idempotent: a normalised string normalises to itself. */
  lemma NormalizeIdempotent(s: string)
    ensures Normalize(Normalize(s)) == Normalize(s)
  {
    NormalizedShape(s);
    TrimOfTrimmed(Normalize(s));
    ToLowerIdempotent(Trim(s));
  }
}
