/** The index logic of `Util.highlightText`: find the substring ignoring
    case, and when the match lies deep in the text, show a window of the text
    from ten characters before it, behind an ellipsis. The `TextView`, the
    colour and the span object are outside the model; what is kept is the
    text to show and the span's bounds. */
module Highlight {

  import opened Wrappers
  import opened Chars

  /** `Char.equals(other, ignoreCase = true)`, on ASCII letters. */
  predicate SameIgnoringCase(a: char, b: char) {
    ToLower(a) == ToLower(b)
  }

  /** `sub` occurs in `text` at index `i`, ignoring case. */
  predicate MatchesAt(text: string, sub: string, i: nat) {
    i + |sub| <= |text| && forall k :: 0 <= k < |sub| ==> SameIgnoringCase(text[i + k], sub[k])
  }

  /** `text.indexOf(sub, startIndex = from, ignoreCase = true)`: the first
      index at or after `from` where `sub` occurs, or -1. */
  function IndexOfFrom(text: string, sub: string, from: nat): (r: int)
    requires from <= |text| + 1
    ensures r == -1 || (from <= r && MatchesAt(text, sub, r))
    ensures r == -1 ==> forall i :: from <= i <= |text| ==> !MatchesAt(text, sub, i)
    ensures r != -1 ==> forall i :: from <= i < r ==> !MatchesAt(text, sub, i)
    decreases |text| + 1 - from
  {
    if from > |text| then -1
    else if MatchesAt(text, sub, from) then from
    else IndexOfFrom(text, sub, from + 1)
  }

  /** `text.indexOf(sub, ignoreCase = true)` */
  function IndexOfIgnoreCase(text: string, sub: string): (r: int)
    ensures r == -1 <==> forall i :: 0 <= i <= |text| ==> !MatchesAt(text, sub, i)
    ensures r != -1 ==> 0 <= r && MatchesAt(text, sub, r) && forall i :: 0 <= i < r ==> !MatchesAt(text, sub, i)
  {
    IndexOfFrom(text, sub, 0)
  }

  /** The text a view shows and the span `[start, end)` coloured in it. */
  datatype Highlighted = Highlighted(shown: string, start: nat, end: nat)

  const Ellipsis: string := "..."

  /** How far into the text a match may start before the text is cut. */
  const MaxLead: nat := 30

  /** How many characters before the match a cut text keeps. */
  const KeptLead: nat := 10

  /** `highlightText(textView, text, substring, color)`: nothing when the
      substring does not occur; otherwise the text to show and the span. */
  method HighlightText(text: string, substring: string) returns (r: Option<Highlighted>)
    ensures r.None? <==> forall i :: 0 <= i <= |text| ==> !MatchesAt(text, substring, i)
    ensures r.Some? ==>
      var p := IndexOfIgnoreCase(text, substring);
      var h := r.value;
      && 0 <= p
      && (forall i :: 0 <= i < p ==> !MatchesAt(text, substring, i))
      && h.start + |substring| == h.end <= |h.shown|
      && h.shown[h.start..h.end] == text[p..p + |substring|]
      && MatchesAt(h.shown, substring, h.start)
      && |h.shown| <= |text|
      && (p <= MaxLead ==> h.shown == text && h.start == p)
      && (p > MaxLead ==> h.shown == Ellipsis + text[p - KeptLead..] && h.start == |Ellipsis| + KeptLead)
  {
    var startPos := IndexOfIgnoreCase(text, substring);
    if startPos > -1 {
      var textToShow := text;
      if startPos > MaxLead {
        textToShow := Ellipsis + text[startPos - KeptLead..];
        WindowKeepsMatch(text, startPos, |substring|);
        startPos := |Ellipsis| + KeptLead;
      }
      r := Some(Highlighted(textToShow, startPos, startPos + |substring|));
      SpanMatches(r.value.shown, text, substring, startPos, IndexOfIgnoreCase(text, substring));
    } else {
      r := None;
    }
  }

  /** The window cut from ten characters before the match holds the match
      at index 13, and is shorter than the text. */
  lemma WindowKeepsMatch(text: string, p: nat, n: nat)
    requires KeptLead <= p && p + n <= |text|
    ensures var w := Ellipsis + text[p - KeptLead..];
      && |Ellipsis| + KeptLead + n <= |w|
      && w[|Ellipsis| + KeptLead..|Ellipsis| + KeptLead + n] == text[p..p + n]
      && (p > |Ellipsis| + KeptLead ==> |w| < |text|)
  {
    var w := Ellipsis + text[p - KeptLead..];
    var s := |Ellipsis| + KeptLead;
    assert forall j :: s <= j < s + n ==> w[j] == text[j - s + p];
  }

  /** A span holding the same characters as a match matches too. */
  lemma SpanMatches(shown: string, text: string, sub: string, s: nat, p: nat)
    requires MatchesAt(text, sub, p)
    requires s + |sub| <= |shown| && shown[s..s + |sub|] == text[p..p + |sub|]
    ensures MatchesAt(shown, sub, s)
  {
    var span := shown[s..s + |sub|];
    assert forall k :: 0 <= k < |sub| ==> span[k] == shown[s + k];
  }

  /** Case is ignored in both directions: the lowercase of a text has its
      matches at the same places. */
  lemma {:induction false} IndexOfLowercase(text: string, sub: string, from: nat)
    requires from <= |text| + 1
    ensures IndexOfFrom(Lowercase(text), sub, from) == IndexOfFrom(text, sub, from)
    decreases |text| + 1 - from
  {
    if from <= |text| {
      MatchesLowercase(text, sub, from);
      IndexOfLowercase(text, sub, from + 1);
    }
  }

  lemma MatchesLowercase(text: string, sub: string, i: nat)
    ensures MatchesAt(Lowercase(text), sub, i) <==> MatchesAt(text, sub, i)
  {
    var low := Lowercase(text);
    if i + |sub| <= |text| {
      forall k | 0 <= k < |sub|
        ensures SameIgnoringCase(low[i + k], sub[k]) <==> SameIgnoringCase(text[i + k], sub[k])
      {
        LowerIdempotent(text[i + k]);
      }
    }
  }

  lemma LowerIdempotent(c: char)
    ensures ToLower(ToLower(c)) == ToLower(c)
  {
  }
}
