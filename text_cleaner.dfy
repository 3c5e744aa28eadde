/** `Util.cleanText` and its helper `containsDigit`: free text reduced to a
    space-separated list of lowercase tokens, with links and e-mail
    addresses dropped and every word holding a digit replaced by `#`. */
module TextCleaner {

  import opened Chars

  // ---------------------------------------------------------------------
  // Splitting and joining on one separator character
  // ---------------------------------------------------------------------

  /** Kotlin's `split(sep)`: every piece between separators, empty pieces
      included, so the result is never empty. */
  function Split(s: string, sep: char): (parts: seq<string>)
    ensures |parts| >= 1
    ensures forall i :: 0 <= i < |parts| ==> sep !in parts[i]
  {
    if s == [] then [""]
    else
      var rest := Split(s[1..], sep);
      if s[0] == sep then [""] + rest else [[s[0]] + rest[0]] + rest[1..]
  }

  /** The pieces hold only characters of the split string. */
  lemma {:induction false} SplitChars(s: string, sep: char, i: nat, j: nat)
    requires i < |Split(s, sep)| && j < |Split(s, sep)[i]|
    ensures Split(s, sep)[i][j] in s
  {
    if s != [] {
      var rest := Split(s[1..], sep);
      if s[0] == sep {
        SplitChars(s[1..], sep, i - 1, j);
      } else if i == 0 {
        if j > 0 { SplitChars(s[1..], sep, 0, j - 1); }
      } else {
        SplitChars(s[1..], sep, i, j);
      }
    }
  }

  /** The parts with one separator between each two: the specification of
      what the buffers of `cleanText` hold once trimmed. */
  function JoinWith(parts: seq<string>, sep: char): string {
    if |parts| == 0 then ""
    else if |parts| == 1 then parts[0]
    else JoinWith(parts[..|parts| - 1], sep) + [sep] + parts[|parts| - 1]
  }

  /** A separator splits the pieces before it from the pieces after it. */
  lemma {:induction false} SplitConcat(x: string, sep: char, y: string)
    ensures Split(x + [sep] + y, sep) == Split(x, sep) + Split(y, sep)
  {
    if x == [] {
      assert x + [sep] + y == [sep] + y;
      assert ([sep] + y)[1..] == y;
    } else {
      assert (x + [sep] + y)[1..] == x[1..] + [sep] + y;
      SplitConcat(x[1..], sep, y);
    }
  }

  lemma {:induction false} SplitNoSeparator(s: string, sep: char)
    requires sep !in s
    ensures Split(s, sep) == [s]
  {
    if s != [] {
      SplitNoSeparator(s[1..], sep);
      assert [s[0]] + s[1..] == s;
    }
  }

  /** Splitting undoes joining, for pieces free of the separator. */
  lemma {:induction false} SplitJoin(parts: seq<string>, sep: char)
    requires |parts| >= 1
    requires forall i :: 0 <= i < |parts| ==> sep !in parts[i]
    ensures Split(JoinWith(parts, sep), sep) == parts
  {
    var n := |parts|;
    SplitNoSeparator(parts[n - 1], sep);
    if n > 1 {
      var init := parts[..n - 1];
      SplitJoin(init, sep);
      SplitConcat(JoinWith(init, sep), sep, parts[n - 1]);
      assert init + [parts[n - 1]] == parts;
    }
  }

  /** A join begins with its first part. */
  lemma {:induction false} JoinStartsWithFirst(parts: seq<string>, sep: char)
    requires |parts| >= 1
    ensures |parts[0]| <= |JoinWith(parts, sep)|
    ensures JoinWith(parts, sep)[..|parts[0]|] == parts[0]
  {
    if |parts| > 1 {
      JoinStartsWithFirst(parts[..|parts| - 1], sep);
    }
  }

  /** Every character of a join is a separator or a character of a part. */
  lemma {:induction false} JoinChars(parts: seq<string>, sep: char, k: nat)
    requires k < |JoinWith(parts, sep)|
    ensures JoinWith(parts, sep)[k] == sep
      || exists i, j :: 0 <= i < |parts| && 0 <= j < |parts[i]| && JoinWith(parts, sep)[k] == parts[i][j]
  {
    var n := |parts|;
    if n == 1 {
      assert JoinWith(parts, sep)[k] == parts[0][k];
    } else if n > 1 {
      var init := parts[..n - 1];
      var head := JoinWith(init, sep);
      if k < |head| {
        JoinChars(init, sep, k);
        if head[k] != sep {
          var i, j :| 0 <= i < |init| && 0 <= j < |init[i]| && head[k] == init[i][j];
          assert parts[i] == init[i];
        }
      } else if k > |head| {
        assert JoinWith(parts, sep)[k] == parts[n - 1][k - |head| - 1];
      }
    }
  }

  // ---------------------------------------------------------------------
  // The per-word rules
  // ---------------------------------------------------------------------

  /** `s.contains(t)` for strings. */
  predicate ContainsSubstring(s: string, t: string) {
    exists i :: 0 <= i <= |s| && OccursAt(s, t, i)
  }

  predicate OccursAt(s: string, t: string, i: nat) {
    i + |t| <= |s| && s[i..i + |t|] == t
  }

  /** The three checks that drop a word, in the source's order: a link
      (`/` and `.`), a `.com` or `.me` domain, an e-mail address (`@` and
      `.`). */
  function IsLinkOrEmail(word: string): (dropped: bool)
    ensures dropped ==> '.' in word
    ensures !dropped ==> ('/' !in word || '.' !in word) && ('@' !in word || '.' !in word)
  {
    DotInDomain(word, ".com");
    DotInDomain(word, ".me");
    || ('/' in word && '.' in word)
    || ContainsSubstring(word, ".com") || ContainsSubstring(word, ".me")
    || ('@' in word && '.' in word)
  }

  /** A word holding a text that starts with a dot holds a dot. */
  lemma DotInDomain(word: string, domain: string)
    requires domain != [] && domain[0] == '.'
    ensures ContainsSubstring(word, domain) ==> '.' in word
  {
    if ContainsSubstring(word, domain) {
      var i :| 0 <= i <= |word| && OccursAt(word, domain, i);
      assert word[i] == word[i..i + |domain|][0];
    }
  }

  /** `containsDigit`'s answer, stated directly. */
  predicate HasDigit(s: string) {
    exists i :: 0 <= i < |s| && IsAsciiDigit(s[i])
  }

  /** `containsDigit(s)`: scans with a flag and stops at the first digit. */
  method ContainsDigit(s: string) returns (containsDigit: bool)
    ensures containsDigit <==> HasDigit(s)
  {
    containsDigit := false;
    if |s| > 0 {
      for i := 0 to |s|
        invariant !containsDigit
        invariant forall j :: 0 <= j < i ==> !IsAsciiDigit(s[j])
      {
        containsDigit := IsAsciiDigit(s[i]);
        if containsDigit {
          break;
        }
      }
    }
  }

  /** A character of the class `[A-Za-z0-9 ]`. */
  predicate IsWordOrSpace(c: char) {
    IsAsciiLetter(c) || IsAsciiDigit(c) || c == ' '
  }

  /** The word lowercased, then every character outside `[A-Za-z0-9 ]`
      replaced by a space. */
  function Scrub(word: string): (r: string)
    ensures |r| == |word|
    ensures forall i :: 0 <= i < |r| ==> r[i] == ' ' || IsLowerAlnum(r[i])
    ensures forall i :: 0 <= i < |r| ==> (IsAsciiDigit(r[i]) <==> IsAsciiDigit(word[i]))
    ensures forall i :: 0 <= i < |r| && IsAsciiLetter(word[i]) ==> r[i] == ToLower(word[i])
    ensures forall i :: 0 <= i < |r| && (IsAsciiDigit(word[i]) || word[i] == ' ') ==> r[i] == word[i]
    ensures forall i :: 0 <= i < |r| && !IsWordOrSpace(word[i]) ==> r[i] == ' '
  {
    var lowered := Lowercase(word);
    seq(|lowered|, i requires 0 <= i < |lowered| => if IsWordOrSpace(lowered[i]) then lowered[i] else ' ')
  }

  /** What the first pass appends for one word. */
  function Contribution(word: string): string {
    if IsLinkOrEmail(word) then ""
    else if HasDigit(word) then " #"
    else " " + Scrub(word)
  }

  /** The first buffer after the given words. */
  function Pass1(words: seq<string>): string {
    if words == [] then "" else Pass1(words[..|words| - 1]) + Contribution(words[|words| - 1])
  }

  /** The second pass's test for keeping a piece. */
  predicate Keep(piece: string) {
    |piece| > 1 || piece == "#"
  }

  /** The pieces that pass the test, in order. */
  function Kept(pieces: seq<string>): (r: seq<string>)
    ensures forall i :: 0 <= i < |r| ==> Keep(r[i])
  {
    if pieces == [] then []
    else (if Keep(pieces[0]) then [pieces[0]] else []) + Kept(pieces[1..])
  }

  /** The second buffer after the given pieces. */
  function Pass2(pieces: seq<string>): string {
    if pieces == [] then ""
    else Pass2(pieces[..|pieces| - 1]) + (if Keep(pieces[|pieces| - 1]) then " " + pieces[|pieces| - 1] else "")
  }

  /** A token of the cleaned text: the sentinel `#`, or two or more
      lowercase letters. */
  predicate IsCleanToken(t: string) {
    t == "#" || (|t| >= 2 && forall i :: 0 <= i < |t| ==> 'a' <= t[i] <= 'z')
  }

  /** The tokens one word of the input contributes to the output: none for
      a link or e-mail address, `#` for a word with a digit, otherwise the
      pieces of its scrubbed form that are two or more characters long. */
  function WordTokens(word: string): (tokens: seq<string>)
    ensures IsLinkOrEmail(word) ==> tokens == []
    ensures !IsLinkOrEmail(word) && HasDigit(word) ==> tokens == ["#"]
    ensures forall i :: 0 <= i < |tokens| ==> IsCleanToken(tokens[i])
  {
    if IsLinkOrEmail(word) then []
    else if HasDigit(word) then ["#"]
    else
      var scrubbed := Scrub(word);
      var pieces := Split(scrubbed, ' ');
      PiecesOfScrubbed(word);
      KeptOfLetters(pieces);
      Kept(pieces)
  }

  /** The pieces of a digit-free scrubbed word are lowercase letters. */
  lemma PiecesOfScrubbed(word: string)
    requires !HasDigit(word)
    ensures forall i, j :: 0 <= i < |Split(Scrub(word), ' ')| && 0 <= j < |Split(Scrub(word), ' ')[i]| ==>
      'a' <= Split(Scrub(word), ' ')[i][j] <= 'z'
  {
    var scrubbed := Scrub(word);
    var pieces := Split(scrubbed, ' ');
    forall i, j | 0 <= i < |pieces| && 0 <= j < |pieces[i]| ensures 'a' <= pieces[i][j] <= 'z' {
      SplitChars(scrubbed, ' ', i, j);
      var c := pieces[i][j];
      assert c != ' ';
      var k :| 0 <= k < |scrubbed| && scrubbed[k] == c;
      assert !IsAsciiDigit(word[k]);
    }
  }

  lemma {:induction false} KeptOfLetters(pieces: seq<string>)
    requires forall i, j :: 0 <= i < |pieces| && 0 <= j < |pieces[i]| ==> 'a' <= pieces[i][j] <= 'z'
    ensures forall i :: 0 <= i < |Kept(pieces)| ==> IsCleanToken(Kept(pieces)[i])
  {
    if pieces != [] {
      KeptOfLetters(pieces[1..]);
    }
  }

  /** The tokens of a sequence of words, word after word. */
  function WordsTokens(words: seq<string>): (tokens: seq<string>)
    ensures forall i :: 0 <= i < |tokens| ==> IsCleanToken(tokens[i])
  {
    if words == [] then [] else WordsTokens(words[..|words| - 1]) + WordTokens(words[|words| - 1])
  }

  /** The tokens of the cleaned text: those of each space-separated word of
      the input, in order. */
  function CleanTokens(text: string): (tokens: seq<string>)
    ensures forall i :: 0 <= i < |tokens| ==> IsCleanToken(tokens[i])
  {
    WordsTokens(Split(text, ' '))
  }

  // ---------------------------------------------------------------------
  // cleanText
  // ---------------------------------------------------------------------

  /** `cleanText(text)`: the output is the cleaned tokens of the input's
      words, joined by single spaces. */
  method CleanText(text: string) returns (cleaned: string)
    ensures cleaned == JoinWith(CleanTokens(text), ' ')
  {
    var words := Split(text, ' ');
    var textBuilder := "";
    for i := 0 to |words|
      invariant textBuilder == Pass1(words[..i])
    {
      Pass1Step(words, i);
      var word := words[i];
      // links and e-mail addresses are dropped
      if '/' in word && '.' in word {
        ContributionCases(word);
      } else if ContainsSubstring(word, ".com") || ContainsSubstring(word, ".me") {
        ContributionCases(word);
      } else if '@' in word && '.' in word {
        ContributionCases(word);
      } else {
        assert !IsLinkOrEmail(word);
        ContributionCases(word);
        // a word with a digit becomes the sentinel
        var hasDigit := ContainsDigit(word);
        if hasDigit {
          textBuilder := textBuilder + " #";
        } else {
          var cleanedWord := Scrub(word);
          textBuilder := textBuilder + (" " + cleanedWord);
        }
      }
    }
    assert words[..|words|] == words;

    var pieces := Split(textBuilder, ' ');
    var textBuilder2 := "";
    for j := 0 to |pieces|
      invariant textBuilder2 == Pass2(pieces[..j])
    {
      Pass2Step(pieces, j);
      var piece := pieces[j];
      if |piece| > 1 || piece == "#" {
        textBuilder2 := textBuilder2 + (" " + piece);
      }
    }
    assert pieces[..|pieces|] == pieces;

    cleaned := Trim(textBuilder2);
    TwoPasses(text);
  }

  /** What one word contributes, along the branches of the first loop. */
  lemma ContributionCases(word: string)
    ensures '/' in word && '.' in word ==> Contribution(word) == ""
    ensures ContainsSubstring(word, ".com") || ContainsSubstring(word, ".me") ==> Contribution(word) == ""
    ensures '@' in word && '.' in word ==> Contribution(word) == ""
    ensures !IsLinkOrEmail(word) && HasDigit(word) ==> Contribution(word) == " #"
    ensures !IsLinkOrEmail(word) && !HasDigit(word) ==> Contribution(word) == " " + Scrub(word)
  {
  }

  lemma Pass1Step(words: seq<string>, i: nat)
    requires i < |words|
    ensures Pass1(words[..i + 1]) == Pass1(words[..i]) + Contribution(words[i])
  {
    assert words[..i + 1][..i] == words[..i];
  }

  lemma Pass2Step(pieces: seq<string>, j: nat)
    requires j < |pieces|
    ensures Pass2(pieces[..j + 1]) == Pass2(pieces[..j]) + (if Keep(pieces[j]) then " " + pieces[j] else "")
  {
    assert pieces[..j + 1][..j] == pieces[..j];
  }

  /** The two passes of `cleanText`, the first over the input's words and
      the second over the pieces of the first buffer, followed by the final
      trim, give the cleaned tokens joined by single spaces. */
  lemma TwoPasses(text: string)
    ensures Trim(Pass2(Split(Pass1(Split(text, ' ')), ' '))) == JoinWith(CleanTokens(text), ' ')
  {
    var words := Split(text, ' ');
    var pieces := Split(Pass1(words), ' ');
    Pass1Tokens(words);
    TrimPass2(pieces);
  }

  // ---------------------------------------------------------------------
  // Why the two passes produce the cleaned tokens
  // ---------------------------------------------------------------------

  lemma {:induction false} KeptConcat(a: seq<string>, b: seq<string>)
    ensures Kept(a + b) == Kept(a) + Kept(b)
  {
    if a != [] {
      assert (a + b)[0] == a[0];
      assert (a + b)[1..] == a[1..] + b;
      KeptConcat(a[1..], b);
      var x := if Keep(a[0]) then [a[0]] else [];
      assert Kept(a + b) == x + Kept(a[1..] + b);
      assert Kept(a) == x + Kept(a[1..]);
    } else {
      assert a + b == b;
    }
  }

  /** Splitting the first buffer and keeping the long pieces yields each
      word's tokens in turn. */
  lemma {:induction false} Pass1Tokens(words: seq<string>)
    ensures Kept(Split(Pass1(words), ' ')) == WordsTokens(words)
  {
    if words == [] {
      assert Split("", ' ') == [""];
    } else {
      var init := words[..|words| - 1];
      var w := words[|words| - 1];
      Pass1Tokens(init);
      WordsTokensSnoc(words);
      assert Pass1(words) == Pass1(init) + Contribution(w);
      ContributionTokens(Pass1(init), w);
    }
  }

  /** One word's contribution to the buffer adds that word's tokens. */
  lemma ContributionTokens(head: string, w: string)
    ensures Kept(Split(head + Contribution(w), ' ')) == Kept(Split(head, ' ')) + WordTokens(w)
  {
    var before := Kept(Split(head, ' '));
    if IsLinkOrEmail(w) {
      assert Contribution(w) == [] && WordTokens(w) == [];
      assert head + [] == head;
      assert before + [] == before;
    } else if HasDigit(w) {
      assert Contribution(w) == " " + "#" && WordTokens(w) == ["#"];
      SentinelTokens(head);
    } else {
      assert Contribution(w) == " " + Scrub(w);
      assert WordTokens(w) == Kept(Split(Scrub(w), ' '));
      TokensAfterSpace(head, Scrub(w));
    }
  }

  lemma SentinelTokens(head: string)
    ensures Kept(Split(head + (" " + "#"), ' ')) == Kept(Split(head, ' ')) + ["#"]
  {
    TokensAfterSpace(head, "#");
    SplitNoSeparator("#", ' ');
    assert Kept(["#"]) == ["#"];
  }

  /** A space in the buffer separates the tokens before it from those after. */
  lemma TokensAfterSpace(head: string, q: string)
    ensures head + (" " + q) == head + [' '] + q
    ensures Kept(Split(head + [' '] + q, ' ')) == Kept(Split(head, ' ')) + Kept(Split(q, ' '))
  {
    SplitConcat(head, ' ', q);
    KeptConcat(Split(head, ' '), Split(q, ' '));
  }

  /** Prepending a space to each kept piece. */
  function Spaced(tokens: seq<string>): string {
    if tokens == [] then "" else Spaced(tokens[..|tokens| - 1]) + " " + tokens[|tokens| - 1]
  }

  lemma {:induction false} Pass2Spaced(pieces: seq<string>)
    ensures Pass2(pieces) == Spaced(Kept(pieces))
  {
    if pieces != [] {
      var init := pieces[..|pieces| - 1];
      var p := pieces[|pieces| - 1];
      Pass2Spaced(init);
      assert init + [p] == pieces;
      KeptConcat(init, [p]);
      assert Kept([p]) == (if Keep(p) then [p] else []) + Kept([]) by {
        assert [p][1..] == [];
      }
      if Keep(p) {
        var k := Kept(init) + [p];
        assert k[..|k| - 1] == Kept(init);
        assert Spaced(k) == Spaced(Kept(init)) + " " + p;
      } else {
        assert Kept(pieces) == Kept(init);
      }
    }
  }

  lemma {:induction false} SpacedJoin(tokens: seq<string>)
    requires tokens != []
    ensures Spaced(tokens) == " " + JoinWith(tokens, ' ')
  {
    if |tokens| > 1 {
      SpacedJoin(tokens[..|tokens| - 1]);
    }
  }

  /** Trimming the second buffer leaves the kept pieces joined by single
      spaces, when those pieces are clean tokens. */
  lemma TrimPass2(pieces: seq<string>)
    requires forall i :: 0 <= i < |Kept(pieces)| ==> IsCleanToken(Kept(pieces)[i])
    ensures Trim(Pass2(pieces)) == JoinWith(Kept(pieces), ' ')
  {
    Pass2Spaced(pieces);
    var tokens := Kept(pieces);
    if tokens != [] {
      SpacedJoin(tokens);
      var j := JoinWith(tokens, ' ');
      JoinShape(tokens);
      TrimLeadingSpace(j);
      TrimNoOp(j);
    }
  }

  /** A join of clean tokens is non-empty and starts and ends with a token
      character, never with white space. */
  lemma JoinShape(tokens: seq<string>)
    requires tokens != []
    requires forall i :: 0 <= i < |tokens| ==> IsCleanToken(tokens[i])
    ensures var j := JoinWith(tokens, ' ');
      j != [] && !IsWhitespace(j[0]) && !IsWhitespace(j[|j| - 1])
    ensures Split(JoinWith(tokens, ' '), ' ') == tokens
  {
    var j := JoinWith(tokens, ' ');
    JoinStartsWithFirst(tokens, ' ');
    assert j[0] == tokens[0][0];
    var last := tokens[|tokens| - 1];
    assert j[|j| - 1] == last[|last| - 1];
    forall i | 0 <= i < |tokens| ensures ' ' !in tokens[i] {
      assert IsCleanToken(tokens[i]);
    }
    SplitJoin(tokens, ' ');
  }

  // ---------------------------------------------------------------------
  // Properties of the cleaned text
  // ---------------------------------------------------------------------

  /** The cleaned text has no leading or trailing space and no empty token:
      splitting it on spaces gives back exactly the clean tokens, each `#`
      or two or more lowercase letters. */
  lemma CleanedShape(text: string)
    ensures var out := JoinWith(CleanTokens(text), ' ');
      && (out == "" <==> CleanTokens(text) == [])
      && (out != "" ==> out[0] != ' ' && out[|out| - 1] != ' ' && Split(out, ' ') == CleanTokens(text))
  {
    var tokens := CleanTokens(text);
    if tokens != [] {
      JoinShape(tokens);
    }
  }

  /** The output uses only lowercase letters, `#` and single spaces. */
  lemma CleanedAlphabet(text: string, k: nat)
    requires k < |JoinWith(CleanTokens(text), ' ')|
    ensures var c := JoinWith(CleanTokens(text), ' ')[k]; c == ' ' || c == '#' || 'a' <= c <= 'z'
  {
    var tokens := CleanTokens(text);
    JoinChars(tokens, ' ', k);
    var c := JoinWith(tokens, ' ')[k];
    if c != ' ' {
      var i, j :| 0 <= i < |tokens| && 0 <= j < |tokens[i]| && c == tokens[i][j];
      CleanTokenChar(tokens[i], j);
    }
  }

  lemma CleanTokenChar(t: string, j: nat)
    requires IsCleanToken(t) && j < |t|
    ensures t[j] == '#' || 'a' <= t[j] <= 'z'
  {
  }

  lemma {:induction false} WordsTokensConcat(a: seq<string>, b: seq<string>)
    ensures WordsTokens(a + b) == WordsTokens(a) + WordsTokens(b)
  {
    if b == [] {
      assert a + b == a;
    } else {
      var front := b[..|b| - 1];
      WordsTokensLast(a, b);
      WordsTokensConcat(a, front);
      ConcatAssoc(WordsTokens(a), WordsTokens(front), WordTokens(b[|b| - 1]));
    }
  }

  lemma WordsTokensLast(a: seq<string>, b: seq<string>)
    requires b != []
    ensures WordsTokens(a + b) == WordsTokens(a + b[..|b| - 1]) + WordTokens(b[|b| - 1])
  {
    var ab := a + b;
    var front, last := ab[..|ab| - 1], ab[|ab| - 1];
    assert front == a + b[..|b| - 1];
    assert last == b[|b| - 1];
    WordsTokensSnoc(ab);
  }

  lemma WordsTokensSnoc(words: seq<string>)
    requires words != []
    ensures WordsTokens(words) == WordsTokens(words[..|words| - 1]) + WordTokens(words[|words| - 1])
  {
  }

  lemma ConcatAssoc<T>(x: seq<T>, y: seq<T>, z: seq<T>)
    ensures x + y + z == x + (y + z)
  {
  }

  /** Cleaning works word by word: the tokens of two texts joined by a
      space are the tokens of the first followed by those of the second. */
  lemma CleanTokensConcat(a: string, b: string)
    ensures CleanTokens(a + " " + b) == CleanTokens(a) + CleanTokens(b)
  {
    SplitConcat(a, ' ', b);
    WordsTokensConcat(Split(a, ' '), Split(b, ' '));
  }

  /** Cleaning is not idempotent: the sentinel `#` holds no digit, so a
      second cleaning scrubs it to a space and drops it. For instance
      "call 12" cleans to "call #", which cleans to "call". */
  lemma NotIdempotent(word: string, number: string)
    requires |word| >= 2 && forall i :: 0 <= i < |word| ==> 'a' <= word[i] <= 'z'
    requires ' ' !in number && HasDigit(number) && !IsLinkOrEmail(number)
    ensures JoinWith(CleanTokens(word + " " + number), ' ') == word + " #"
    ensures JoinWith(CleanTokens(word + " #"), ' ') == word
  {
    NumberBecomesHash(word, number);
    HashDropped(word);
  }

  lemma NumberBecomesHash(word: string, number: string)
    requires |word| >= 2 && forall i :: 0 <= i < |word| ==> 'a' <= word[i] <= 'z'
    requires ' ' !in number && HasDigit(number) && !IsLinkOrEmail(number)
    ensures JoinWith(CleanTokens(word + " " + number), ' ') == word + " #"
  {
    LowercaseWordTokens(word);
    assert WordTokens(number) == ["#"];
    SecondWordTokens(word, number, ["#"]);
    JoinPair(word, "#");
    assert word + " " + "#" == word + " #";
  }

  lemma HashDropped(word: string)
    requires |word| >= 2 && forall i :: 0 <= i < |word| ==> 'a' <= word[i] <= 'z'
    ensures JoinWith(CleanTokens(word + " #"), ' ') == word
  {
    LowercaseWordTokens(word);
    HashTokens();
    SecondWordTokens(word, "#", []);
    assert word + " " + "#" == word + " #";
  }

  /** A word that is its own token, followed by a second word. */
  lemma SecondWordTokens(a: string, b: string, tokens: seq<string>)
    requires ' ' !in a && ' ' !in b
    requires WordTokens(a) == [a] && WordTokens(b) == tokens
    ensures CleanTokens(a + " " + b) == [a] + tokens
    ensures tokens == [] ==> JoinWith(CleanTokens(a + " " + b), ' ') == a
  {
    TwoWords(a, b);
    if tokens == [] {
      assert [a] + tokens == [a];
    }
  }

  lemma JoinPair(a: string, b: string)
    ensures JoinWith([a] + [b], ' ') == a + " " + b
  {
    var parts := [a] + [b];
    assert parts[..1] == [a];
  }

  /** Two words separated by one space. */
  lemma TwoWords(a: string, b: string)
    requires ' ' !in a && ' ' !in b
    ensures CleanTokens(a + " " + b) == WordTokens(a) + WordTokens(b)
  {
    CleanTokensConcat(a, b);
    SingleWord(a);
    SingleWord(b);
  }

  lemma SingleWord(w: string)
    requires ' ' !in w
    ensures CleanTokens(w) == WordTokens(w)
  {
    SplitNoSeparator(w, ' ');
    assert [w][..0] == [];
  }

  /** A word of two or more lowercase letters is its own single token. */
  lemma LowercaseWordTokens(word: string)
    requires |word| >= 2 && forall i :: 0 <= i < |word| ==> 'a' <= word[i] <= 'z'
    ensures WordTokens(word) == [word]
  {
    assert !HasDigit(word);
    assert '/' !in word && '.' !in word && '@' !in word;
    AbsentFirstCharacter(word, ".com");
    AbsentFirstCharacter(word, ".me");
    assert Scrub(word) == word;
    SplitNoSeparator(word, ' ');
    assert Kept([word]) == [word] by {
      assert [word][1..] == [];
    }
  }

  lemma HashTokens()
    ensures WordTokens("#") == []
  {
    var h := "#";
    assert !HasDigit(h);
    assert !IsLinkOrEmail(h);
    assert Scrub(h) == " ";
    assert Split(" ", ' ') == ["", ""];
    assert Kept(["", ""]) == [];
  }

  lemma AbsentFirstCharacter(s: string, t: string)
    requires t != [] && t[0] !in s
    ensures !ContainsSubstring(s, t)
  {
    forall i | 0 <= i <= |s|
      ensures !OccursAt(s, t, i)
    {
      if i + |t| <= |s| {
        assert s[i..i + |t|][0] == s[i];
      }
    }
  }
}
