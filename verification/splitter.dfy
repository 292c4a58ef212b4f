/**
 * The word splitter. A splitter is a function from a word to its pieces: the
 * `WordSplitter` interface, its `WordSplitterFunc` adapter and
 * `NewRegexWordSplitter` (mcdef.go:29-44) all reduce to such a function value.
 * `JapaneseWordSplitter` (mcdef.go:19) is `FindAllString(word, -1)` with the
 * pattern `[一-龥]|[ぁ-ゖ゙゙゙ゝ-ヾ･-ﾝ]{1,2}|[^\s一-龥ぁ-ヾ　]{1,5}`.
 */
module WordSplitting {
  import opened Text

  /** What a `WordSplitter` computes: the pieces of a word. */
  type WordSplitter = string -> seq<string>

  /** `[一-龥]`: U+4E00 to U+9FA5. */
  predicate IsIdeograph(c: char) {
    '\U{4E00}' <= c <= '\U{9FA5}'
  }

  /**
   * `[ぁ-ゖ゙゙゙ゝ-ヾ･-ﾝ]`: hiragana U+3041 to U+3096, the combining voiced sound
   * mark U+3099 (written three times), U+309D to U+30FE (iteration marks and
   * katakana), and halfwidth katakana U+FF65 to U+FF9D.
   */
  predicate IsKana(c: char) {
    || ('\U{3041}' <= c <= '\U{3096}')
    || c == '\U{3099}'
    || ('\U{309D}' <= c <= '\U{30FE}')
    || ('\U{FF65}' <= c <= '\U{FF9D}')
  }

  /**
   * `[^\s一-龥ぁ-ヾ　]`: neither `\s`, nor an ideograph, nor in U+3041 to U+30FE,
   * nor the ideographic space U+3000. Halfwidth katakana are in this class too.
   */
  predicate IsOther(c: char) {
    !IsAsciiSpace(c) && !IsIdeograph(c) && !('\U{3041}' <= c <= '\U{30FE}') && c != '\U{3000}'
  }

  /** A character some alternative of the pattern can start with. */
  predicate IsWordChar(c: char) {
    IsIdeograph(c) || IsKana(c) || IsOther(c)
  }

  /** Length of the run of `IsOther` characters at `p`, capped at `limit` (greedy `{1,limit}`). */
  function OtherRun(s: string, p: nat, limit: nat): (n: nat)
    requires p <= |s|
    ensures n <= limit && p + n <= |s|
    ensures forall i :: p <= i < p + n ==> IsOther(s[i])
    ensures n == limit || p + n == |s| || !IsOther(s[p + n])
    decreases limit
  {
    if limit == 0 || p == |s| || !IsOther(s[p]) then 0
    else 1 + OtherRun(s, p + 1, limit - 1)
  }

  /**
   * Length of the match at `p`, or 0 when none: the first alternative that
   * matches wins, and each repetition takes as many characters as it may.
   */
  function TokenLength(s: string, p: nat): (n: nat)
    requires p < |s|
    ensures n <= 5 && p + n <= |s|
    ensures n == 0 <==> !IsWordChar(s[p])
  {
    if IsIdeograph(s[p]) then 1
    else if IsKana(s[p]) then (if p + 1 < |s| && IsKana(s[p + 1]) then 2 else 1)
    else if IsOther(s[p]) then OtherRun(s, p, 5)
    else 0
  }

  /**
   * What the three alternatives take: an ideograph alone; one or two kana;
   * otherwise up to five `IsOther` characters, stopping early only at the end of
   * the word or at a character outside the class.
   */
  lemma TokenLengthAlternatives(s: string, p: nat)
    requires p < |s|
    ensures IsIdeograph(s[p]) ==> TokenLength(s, p) == 1
    ensures IsKana(s[p]) ==> TokenLength(s, p) == (if p + 1 < |s| && IsKana(s[p + 1]) then 2 else 1)
    ensures var n := TokenLength(s, p);
      !IsIdeograph(s[p]) && !IsKana(s[p]) && IsOther(s[p]) ==>
        1 <= n && (forall i :: p <= i < p + n ==> IsOther(s[i])) && (n == 5 || p + n == |s| || !IsOther(s[p + n]))
  {
  }

  /**
   * Alternative `alt` of the pattern matches the `n` characters at `p`: 0 is
   * `[一-龥]`, 1 is the kana class repeated `{1,2}`, 2 is the "other" class
   * repeated `{1,5}`.
   */
  predicate AltMatches(s: string, p: nat, alt: nat, n: nat) {
    p + n <= |s|
    && (alt == 0 ==> n == 1 && IsIdeograph(s[p]))
    && (alt == 1 ==> 1 <= n <= 2 && forall i :: p <= i < p + n ==> IsKana(s[i]))
    && (alt == 2 ==> 1 <= n <= 5 && forall i :: p <= i < p + n ==> IsOther(s[i]))
    && alt <= 2
  }

  /**
   * `TokenLength` is the leftmost-first match at `p`: it is 0 exactly when no
   * alternative matches there; otherwise it is a length the first alternative
   * that matches at all accepts, and the longest one it accepts.
   */
  lemma TokenLengthIsFirstAlternative(s: string, p: nat)
    requires p < |s|
    ensures TokenLength(s, p) == 0 <==> forall alt, n :: !AltMatches(s, p, alt, n)
    ensures TokenLength(s, p) > 0 ==>
      exists alt :: AltMatches(s, p, alt, TokenLength(s, p))
        && (forall a, n :: a < alt ==> !AltMatches(s, p, a, n))
        && (forall n :: TokenLength(s, p) < n ==> !AltMatches(s, p, alt, n))
  {
    var len := TokenLength(s, p);
    if IsIdeograph(s[p]) {
      assert AltMatches(s, p, 0, len);
    } else if IsKana(s[p]) {
      assert AltMatches(s, p, 1, len);
      forall a, n | a < 1 ensures !AltMatches(s, p, a, n) {
      }
    } else if IsOther(s[p]) {
      assert AltMatches(s, p, 2, len);
      forall a, n | a < 2 ensures !AltMatches(s, p, a, n) {
      }
      forall n | len < n ensures !AltMatches(s, p, 2, n) {
        if p + n <= |s| && n <= 5 {
          assert p + len < p + n;
        }
      }
    } else {
      forall alt, n ensures !AltMatches(s, p, alt, n) {
      }
    }
  }

  /** Every character of a token is a word character, and only its first may be an ideograph. */
  lemma TokenChars(s: string, p: nat, j: nat)
    requires p < |s| && p <= j < p + TokenLength(s, p)
    ensures IsWordChar(s[j])
    ensures j > p ==> !IsIdeograph(s[j])
  {
    TokenLengthAlternatives(s, p);
  }

  /** Where a token lies in the word: `word[start..end]`. */
  datatype Span = Span(start: nat, end: nat)

  /** The token `t` covers index `i`. */
  predicate Covers(t: Span, i: nat) {
    t.start <= i < t.end
  }

  /** `t` is a match found at or after `from`: non-empty, inside `s`, as long as `TokenLength` says. */
  predicate IsTokenSpan(s: string, from: nat, t: Span) {
    from <= t.start < t.end <= |s| && t.end - t.start == TokenLength(s, t.start)
  }

  /**
   * The matches `FindAllString` returns from `from` on, as spans, in order and
   * without overlap. A character no alternative accepts is skipped; otherwise
   * the match starting there is taken and the search resumes after it.
   */
  function TokenSpans(s: string, from: nat): (r: seq<Span>)
    requires from <= |s|
    ensures forall k :: 0 <= k < |r| ==> IsTokenSpan(s, from, r[k])
    ensures forall k :: 0 <= k < |r| - 1 ==> r[k].end <= r[k + 1].start
    decreases |s| - from
  {
    if from == |s| then []
    else
      var n := TokenLength(s, from);
      if n == 0 then TokenSpans(s, from + 1)
      else [Span(from, from + n)] + TokenSpans(s, from + n)
  }

  /** A character no alternative accepts is skipped. */
  lemma TokenSpansSkip(s: string, from: nat)
    requires from < |s| && TokenLength(s, from) == 0
    ensures TokenSpans(s, from) == TokenSpans(s, from + 1)
  {
  }

  /** A match is taken and the search resumes after it. */
  lemma TokenSpansTake(s: string, from: nat)
    requires from < |s| && TokenLength(s, from) > 0
    ensures var n := TokenLength(s, from);
      TokenSpans(s, from) == [Span(from, from + n)] + TokenSpans(s, from + n)
  {
  }

  /** The matches cover every character some alternative accepts. */
  lemma {:induction false} WordCharsCovered(s: string, from: nat, i: nat)
    requires from <= i < |s| && IsWordChar(s[i])
    ensures exists k :: 0 <= k < |TokenSpans(s, from)| && Covers(TokenSpans(s, from)[k], i)
    decreases |s| - from
  {
    var n := TokenLength(s, from);
    if n == 0 {
      assert i != from;
      TokenSpansSkip(s, from);
      WordCharsCovered(s, from + 1, i);
    } else {
      TokenSpansTake(s, from);
      var r := TokenSpans(s, from);
      if i < from + n {
        assert Covers(r[0], i);
      } else {
        WordCharsCovered(s, from + n, i);
        var rest := TokenSpans(s, from + n);
        var k :| 0 <= k < |rest| && Covers(rest[k], i);
        assert r[k + 1] == rest[k];
      }
    }
  }

  /** `JapaneseWordSplitter.SplitWord(word)`: the whole text of each match, left to right. */
  function JapaneseSplit(word: string): (tokens: seq<string>)
    ensures |tokens| == |TokenSpans(word, 0)|
    ensures forall k :: 0 <= k < |tokens| ==> 1 <= |tokens[k]| <= 5
    ensures forall k :: 0 <= k < |tokens| ==> |tokens[k]| == TokenSpans(word, 0)[k].end - TokenSpans(word, 0)[k].start
    ensures forall k :: 0 <= k < |tokens| ==> OccursAt(word, TokenSpans(word, 0)[k].start, tokens[k])
  {
    var spans := TokenSpans(word, 0);
    seq(|spans|, k requires 0 <= k < |spans| => word[spans[k].start..spans[k].end])
  }

  /** No token holds a `\s` character: every character of every token is a word character. */
  lemma TokensAreWordChars(word: string, k: nat, i: nat)
    requires k < |JapaneseSplit(word)| && i < |JapaneseSplit(word)[k]|
    ensures IsWordChar(JapaneseSplit(word)[k][i])
    ensures !IsAsciiSpace(JapaneseSplit(word)[k][i])
  {
    var t := TokenSpans(word, 0)[k];
    assert JapaneseSplit(word)[k][i] == word[t.start + i];
    TokenChars(word, t.start, t.start + i);
  }

  /** The Japanese splitter as a value of the `WordSplitter` type. */
  const JapaneseWordSplitter: WordSplitter := JapaneseSplit

  /** The match that covers an ideograph starts and ends with it. */
  lemma IdeographSpan(word: string, i: nat) returns (k: nat)
    requires i < |word| && IsIdeograph(word[i])
    ensures k < |TokenSpans(word, 0)| && TokenSpans(word, 0)[k] == Span(i, i + 1)
  {
    var spans := TokenSpans(word, 0);
    WordCharsCovered(word, 0, i);
    k :| 0 <= k < |spans| && Covers(spans[k], i);
    var t := spans[k];
    assert IsTokenSpan(word, 0, t);
    TokenChars(word, t.start, i);
    assert t.start == i;
    TokenLengthAlternatives(word, i);
  }

  /** Every ideograph in 一-龥 comes out as a token of its own. */
  lemma IdeographIsOwnToken(word: string, i: nat)
    requires i < |word| && IsIdeograph(word[i])
    ensures exists k :: 0 <= k < |TokenSpans(word, 0)| && TokenSpans(word, 0)[k] == Span(i, i + 1)
    ensures [word[i]] in JapaneseSplit(word)
  {
    var k := IdeographSpan(word, i);
    var tokens := JapaneseSplit(word);
    assert tokens[k] == word[i..i + 1] == [word[i]];
    assert tokens[k] in tokens;
  }

  /** Where the matches in `マヘンドラパルバタ` lie: four pairs and a last single katakana. */
  lemma KatakanaSpans()
    ensures TokenSpans("マヘンドラパルバタ", 0) == [Span(0, 2), Span(2, 4), Span(4, 6), Span(6, 8), Span(8, 9)]
  {
    var w := "マヘンドラパルバタ";
    assert TokenLength(w, 8) == 1;
    TokenSpansTake(w, 8);
    assert TokenLength(w, 6) == 2;
    TokenSpansTake(w, 6);
    assert TokenLength(w, 4) == 2;
    TokenSpansTake(w, 4);
    assert TokenLength(w, 2) == 2;
    TokenSpansTake(w, 2);
    assert TokenLength(w, 0) == 2;
    TokenSpansTake(w, 0);
  }

  /** The same matches, as text. */
  lemma KatakanaSlices()
    ensures var w := "マヘンドラパルバタ";
      w[0..2] == "マヘ" && w[2..4] == "ンド" && w[4..6] == "ラパ" && w[6..8] == "ルバ" && w[8..9] == "タ"
  {
  }

  /** Katakana come in pairs, the odd one out alone (the splits of term `b` in the package's test). */
  lemma KatakanaInPairs()
    ensures JapaneseSplit("マヘンドラパルバタ") == ["マヘ", "ンド", "ラパ", "ルバ", "タ"]
  {
    var w := "マヘンドラパルバタ";
    var expected := ["マヘ", "ンド", "ラパ", "ルバ", "タ"];
    KatakanaSlices();
    KatakanaSpans();
    var tokens := JapaneseSplit(w);
    forall k | 0 <= k < |tokens| ensures tokens[k] == expected[k] {
      var t := TokenSpans(w, 0)[k];
      assert tokens[k] == w[t.start..t.end];
    }
  }

  /** Where the matches in `碑文` lie: one ideograph each. */
  lemma IdeographSpans()
    ensures TokenSpans("碑文", 0) == [Span(0, 1), Span(1, 2)]
    ensures "碑文"[0..1] == "碑" && "碑文"[1..2] == "文"
  {
    var w := "碑文";
    assert IsIdeograph(w[0]) && IsIdeograph(w[1]);
    assert TokenLength(w, 1) == 1;
    TokenSpansTake(w, 1);
    assert TokenLength(w, 0) == 1;
    TokenSpansTake(w, 0);
    assert w[0..1] == "碑" && w[1..2] == "文";
  }

  /** Ideographs come out one by one (the splits of term `碑文` in the package's test, which has no manual split). */
  lemma IdeographsOneByOne()
    ensures JapaneseSplit("碑文") == ["碑", "文"]
  {
    var w := "碑文";
    var expected := ["碑", "文"];
    IdeographSpans();
    var tokens := JapaneseSplit(w);
    forall k | 0 <= k < |tokens| ensures tokens[k] == expected[k] {
      var t := TokenSpans(w, 0)[k];
      assert tokens[k] == w[t.start..t.end];
    }
  }

  /** The match lengths in `Angkor`: five letters, then the sixth alone. */
  lemma OtherLengthsFirstWord()
    ensures TokenLength("Angkor Wat", 0) == 5 && TokenLength("Angkor Wat", 5) == 1
  {
    assert OtherRun("Angkor Wat", 1, 4) == 4;
  }

  /** The match lengths at the space of `Angkor Wat` (none) and at `Wat`. */
  lemma OtherLengthsSecondWord()
    ensures TokenLength("Angkor Wat", 6) == 0 && TokenLength("Angkor Wat", 7) == 3
  {
    assert OtherRun("Angkor Wat", 8, 3) == 2;
  }

  /** Where the matches in `Angkor Wat` lie: five letters, the sixth alone, and the space skipped. */
  lemma OtherSpans()
    ensures TokenSpans("Angkor Wat", 0) == [Span(0, 5), Span(5, 6), Span(7, 10)]
  {
    var w := "Angkor Wat";
    OtherLengthsFirstWord();
    OtherLengthsSecondWord();
    TokenSpansTake(w, 7);
    TokenSpansSkip(w, 6);
    TokenSpansTake(w, 5);
    TokenSpansTake(w, 0);
  }

  /** Characters outside the kana and ideograph ranges go up to five at a time; `\s` separates them. */
  lemma OthersUpToFive()
    ensures JapaneseSplit("Angkor Wat") == ["Angko", "r", "Wat"]
  {
    var w := "Angkor Wat";
    var expected := ["Angko", "r", "Wat"];
    assert w[0..5] == "Angko" && w[5..6] == "r" && w[7..10] == "Wat";
    OtherSpans();
    var tokens := JapaneseSplit(w);
    forall k | 0 <= k < |tokens| ensures tokens[k] == expected[k] {
      var t := TokenSpans(w, 0)[k];
      assert tokens[k] == w[t.start..t.end];
    }
  }
}
