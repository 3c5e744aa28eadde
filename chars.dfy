/** Character classes and string helpers of the Kotlin standard library,
    restricted to what the model needs. Letters, digits and case are ASCII
    only; whitespace follows Kotlin's `Char.isWhitespace`. */
module Chars {

  predicate IsAsciiLetter(c: char) {
    'a' <= c <= 'z' || 'A' <= c <= 'Z'
  }

  predicate IsAsciiDigit(c: char) {
    '0' <= c <= '9'
  }

  /** A character of the class `[a-z0-9]`. */
  predicate IsLowerAlnum(c: char) {
    'a' <= c <= 'z' || IsAsciiDigit(c)
  }

  /** True iff the regular expression `[a-zA-Z]` finds a match in `s`. */
  predicate ContainsAsciiLetter(s: string) {
    exists i :: 0 <= i < |s| && IsAsciiLetter(s[i])
  }

  /** `Char.lowercaseChar()` on ASCII: an upper-case letter moves down to
      its lower-case partner, 32 code points on; everything else stays. */
  function ToLower(c: char): (l: char)
    ensures 'A' <= c <= 'Z' ==> l as int == c as int + 32
    ensures 'a' <= c <= 'z' ==> l == c
    ensures IsAsciiLetter(c) <==> 'a' <= l <= 'z'
    ensures IsAsciiDigit(l) <==> IsAsciiDigit(c)
    ensures !IsAsciiLetter(c) ==> l == c
  {
    if 'A' <= c <= 'Z' then (c as int - 'A' as int + 'a' as int) as char else c
  }

  /** `String.lowercase(locale)` */
  function Lowercase(s: string): (r: string)
    ensures |r| == |s|
    ensures forall i :: 0 <= i < |s| ==> r[i] == ToLower(s[i])
  {
    seq(|s|, i requires 0 <= i < |s| => ToLower(s[i]))
  }

  /** Kotlin's `Char.isWhitespace()` on the JVM: Java's `isWhitespace` or
      `isSpaceChar`. */
  predicate IsWhitespace(c: char) {
    || c == ' ' || '\t' <= c <= '\r' || '\U{1C}' <= c <= '\U{1F}'
    || c == '\U{A0}' || c == '\U{1680}' || '\U{2000}' <= c <= '\U{200A}'
    || c == '\U{2028}' || c == '\U{2029}' || c == '\U{202F}' || c == '\U{205F}'
    || c == '\U{3000}'
  }

  /** `CharSequence.isBlank()`: blank exactly when `trimStart` leaves
      nothing. */
  function IsBlank(s: string): (b: bool)
    ensures b <==> TrimStart(s) == []
  {
    forall i :: 0 <= i < |s| ==> IsWhitespace(s[i])
  }

  function TrimStart(s: string): (r: string)
    ensures |r| <= |s| && r == s[|s| - |r|..]
    ensures forall i :: 0 <= i < |s| - |r| ==> IsWhitespace(s[i])
    ensures r == [] || !IsWhitespace(r[0])
  {
    if |s| > 0 && IsWhitespace(s[0]) then
      var r := TrimStart(s[1..]);
      assert forall i :: 1 <= i < |s| - |r| ==> s[i] == s[1..][i - 1];
      r
    else s
  }

  function TrimEnd(s: string): (r: string)
    ensures |r| <= |s| && r == s[..|r|]
    ensures forall i :: |r| <= i < |s| ==> IsWhitespace(s[i])
    ensures r == [] || !IsWhitespace(r[|r| - 1])
  {
    if |s| > 0 && IsWhitespace(s[|s| - 1]) then
      var r := TrimEnd(s[..|s| - 1]);
      assert forall i :: |r| <= i < |s| - 1 ==> s[i] == s[..|s| - 1][i];
      r
    else s
  }

  /** `r` is the slice of `s` at `i`, with only whitespace before and after
      it. */
  predicate SliceBetweenWhitespace(s: string, r: string, i: nat) {
    && i + |r| <= |s| && r == s[i..i + |r|]
    && (forall k :: 0 <= k < i ==> IsWhitespace(s[k]))
    && (forall k :: i + |r| <= k < |s| ==> IsWhitespace(s[k]))
  }

  /** Trimming the end of what `trimStart` left: empty only when that was,
      no whitespace at either end, and a slice of `s` between whitespace. */
  lemma TrimEndSlice(s: string, t: string, r: string)
    requires |t| <= |s| && t == s[|s| - |t|..]
    requires forall k :: 0 <= k < |s| - |t| ==> IsWhitespace(s[k])
    requires t == [] || !IsWhitespace(t[0])
    requires |r| <= |t| && r == t[..|r|]
    requires forall k :: |r| <= k < |t| ==> IsWhitespace(t[k])
    requires r == [] || !IsWhitespace(r[|r| - 1])
    ensures r == [] <==> t == []
    ensures r != [] ==> !IsWhitespace(r[0]) && !IsWhitespace(r[|r| - 1])
    ensures SliceBetweenWhitespace(s, r, |s| - |t|)
  {
    var i := |s| - |t|;
    if t != [] {
      assert t[0] == s[i];
      assert r != [] ==> r[0] == t[0];
    }
    assert forall k :: i + |r| <= k < |s| ==> s[k] == t[k - i];
  }

  /** `String.trim()`: drops the leading and the trailing whitespace. */
  function Trim(s: string): (r: string)
    ensures r == [] <==> IsBlank(s)
    ensures r != [] ==> !IsWhitespace(r[0]) && !IsWhitespace(r[|r| - 1])
    ensures SliceBetweenWhitespace(s, r, |s| - |TrimStart(s)|)
  {
    var t := TrimStart(s);
    var r := TrimEnd(t);
    TrimEndSlice(s, t, r);
    r
  }

  /** Trimming leaves a string with no whitespace at either end as it is. */
  lemma TrimNoOp(s: string)
    requires s == [] || (!IsWhitespace(s[0]) && !IsWhitespace(s[|s| - 1]))
    ensures Trim(s) == s
  {
  }

  /** Whitespace put in front is trimmed away. */
  lemma TrimLeadingSpace(s: string)
    ensures Trim(" " + s) == Trim(s)
  {
    assert (" " + s)[1..] == s;
  }

  /** Whitespace put at the end is trimmed away. */
  lemma TrimTrailingSpace(s: string)
    ensures Trim(s + " ") == Trim(s)
  {
    var t := TrimStart(s);
    TrimStartWhitespace(s, ' ');
    if t != [] {
      assert (t + [' '])[..|t|] == t;
    }
  }

  /** `trimStart` of a text with whitespace appended: nothing when the text
      was blank, otherwise the text's `trimStart` with that whitespace. */
  lemma {:induction false} TrimStartWhitespace(s: string, c: char)
    requires IsWhitespace(c)
    ensures TrimStart(s + [c]) == if TrimStart(s) == [] then [] else TrimStart(s) + [c]
  {
    if s == [] {
      assert (s + [c])[1..] == [];
    } else if IsWhitespace(s[0]) {
      assert (s + [c])[1..] == s[1..] + [c];
      TrimStartWhitespace(s[1..], c);
    }
  }
}
