/**
 * The paragraph classifier's first step: cutting the text at blank lines with
 * the pattern `\s*\n\s*\n` and Go's `Regexp.Split(text, -1)` (mcdef.go:17, 47).
 */
module ParagraphSplitting {
  import opened Options
  import opened Text

  /**
   * The strings `\s*\n\s*\n` matches in full: `\s` characters only, ending in a
   * newline, with a second newline somewhere before the last character.
   */
  predicate IsSeparator(w: string) {
    |w| >= 2 && AllAsciiSpace(w) && w[|w| - 1] == '\n' && '\n' in w[..|w| - 1]
  }

  /** A match of the separator: `text[start..end]`. */
  datatype Span = Span(start: nat, end: nat)

  /** Index of the last newline in `s[lo..hi]`, or `lo - 1` when there is none. */
  function LastNewline(s: string, lo: nat, hi: nat): (k: int)
    requires lo <= hi <= |s|
    ensures lo - 1 <= k < hi
    ensures k >= lo ==> s[k] == '\n'
    ensures forall m :: lo <= m < hi && k < m ==> s[m] != '\n'
    decreases hi
  {
    if hi == lo then lo - 1
    else if s[hi - 1] == '\n' then hi - 1
    else LastNewline(s, lo, hi - 1)
  }

  /** No match of the separator starts at an index in `[lo, hi)`. */
  predicate NoSeparatorIn(s: string, lo: nat, hi: nat) {
    forall i, j :: lo <= i < hi && i <= j <= |s| ==> !IsSeparator(s[i..j])
  }

  /** No separator starts inside the whitespace run `s[lo..e]` when it holds fewer than two newlines. */
  lemma NoSeparatorInRun(s: string, lo: nat, e: nat, i: nat, j: nat)
    requires lo <= i < e <= |s| && i <= j <= |s|
    requires AllAsciiSpace(s[lo..e]) && (e == |s| || !IsAsciiSpace(s[e]))
    requires LastNewline(s, lo, e) < lo || LastNewline(s, lo, LastNewline(s, lo, e)) < lo
    ensures !IsSeparator(s[i..j])
  {
    var w := s[i..j];
    if j > e {
      assert w[e - i] == s[e];
      assert !AllAsciiSpace(w);
    } else if j - 1 >= i && s[j - 1] == '\n' {
      var last := LastNewline(s, lo, e);
      assert last >= j - 1;
      var t := LastNewline(s, lo, last);
      var before := w[..|w| - 1];
      forall m | 0 <= m < |before| ensures before[m] != '\n' {
        assert before[m] == s[i + m];
      }
      assert '\n' !in before;
    } else if j - 1 >= i {
      assert w[|w| - 1] == s[j - 1];
    }
  }

  /** A character that is not `\s` starts no separator. */
  lemma NoSeparatorAtNonSpace(s: string, from: nat)
    requires from < |s| && !IsAsciiSpace(s[from])
    ensures NoSeparatorIn(s, from, from + 1)
  {
    forall j | from <= j <= |s| ensures !IsSeparator(s[from..j]) {
      if j > from {
        assert s[from..j][0] == s[from];
      }
    }
  }

  /** A whitespace run with two newlines: the match runs from its start to its last newline, and no further. */
  lemma SeparatorAtRunStart(s: string, from: nat, e: nat)
    requires from < |s| && IsAsciiSpace(s[from]) && e == SpaceRunEnd(s, from)
    requires LastNewline(s, from, e) >= from && LastNewline(s, from, LastNewline(s, from, e)) >= from
    ensures IsSeparator(s[from..LastNewline(s, from, e) + 1])
    ensures forall j :: LastNewline(s, from, e) + 1 < j <= |s| ==> !IsSeparator(s[from..j])
  {
    var last := LastNewline(s, from, e);
    var t := LastNewline(s, from, last);
    var w := s[from..last + 1];
    assert w[t - from] == '\n';
    assert w[..|w| - 1][t - from] == '\n';
    forall k | 0 <= k < |w| ensures IsAsciiSpace(w[k]) {
      assert w[k] == s[from..e][k];
    }
    forall j | last + 1 < j <= |s| ensures !IsSeparator(s[from..j]) {
      var v := s[from..j];
      if j > e {
        assert v[e - from] == s[e];
        assert !AllAsciiSpace(v);
      } else {
        assert v[|v| - 1] == s[j - 1];
      }
    }
  }

  /**
   * The leftmost match of `\s*\n\s*\n` at or after `from`, as Go's leftmost-first
   * engine returns it: the first whitespace run with two newlines, from its start
   * up to and including its last newline. Whitespace after that newline stays in
   * the next paragraph.
   */
  function FindSeparator(s: string, from: nat): (r: Option<Span>)
    requires from <= |s|
    ensures r.Some? ==> from <= r.value.start < r.value.end <= |s|
    decreases |s| - from
  {
    if from == |s| then None
    else if !IsAsciiSpace(s[from]) then FindSeparator(s, from + 1)
    else
      var e := SpaceRunEnd(s, from);
      var last := LastNewline(s, from, e);
      if last >= from && LastNewline(s, from, last) >= from then Some(Span(from, last + 1))
      else FindSeparator(s, e)
  }

  /** Two stretches without a separator start make one. */
  lemma NoSeparatorInJoin(s: string, a: nat, b: nat, c: nat)
    requires a <= b <= c && NoSeparatorIn(s, a, b) && NoSeparatorIn(s, b, c)
    ensures NoSeparatorIn(s, a, c)
  {
  }

  /**
   * `FindSeparator` is the leftmost-longest match: what it finds is a separator,
   * no separator starts earlier, none starting at the same place is longer, and
   * when it finds nothing no separator starts at or after `from`.
   */
  lemma {:induction false} FindSeparatorSpec(s: string, from: nat)
    requires from <= |s|
    ensures var r := FindSeparator(s, from);
      && (r.Some? ==> IsSeparator(s[r.value.start..r.value.end]))
      && (r.Some? ==> NoSeparatorIn(s, from, r.value.start))
      && (r.Some? ==> forall j :: r.value.end < j <= |s| ==> !IsSeparator(s[r.value.start..j]))
      && (r.None? ==> NoSeparatorIn(s, from, |s|))
    decreases |s| - from
  {
    if from == |s| {
    } else if !IsAsciiSpace(s[from]) {
      NoSeparatorAtNonSpace(s, from);
      FindSeparatorSpec(s, from + 1);
      var r := FindSeparator(s, from + 1);
      NoSeparatorInJoin(s, from, from + 1, if r.Some? then r.value.start else |s|);
    } else {
      var e := SpaceRunEnd(s, from);
      var last := LastNewline(s, from, e);
      if last >= from && LastNewline(s, from, last) >= from {
        SeparatorAtRunStart(s, from, e);
      } else {
        forall i, j | from <= i < e && i <= j <= |s| ensures !IsSeparator(s[i..j]) {
          NoSeparatorInRun(s, from, e, i, j);
        }
        FindSeparatorSpec(s, e);
        var r := FindSeparator(s, e);
        NoSeparatorInJoin(s, from, e, if r.Some? then r.value.start else |s|);
      }
    }
  }

  /** The paragraphs and the separators between them: `Interleave(paragraphs, separators)` is the text. */
  datatype ParagraphSplit = ParagraphSplit(paragraphs: seq<string>, separators: seq<string>)

  /**
   * Go's `Regexp.Split(s, -1)` with `\s*\n\s*\n`, from index `from` on. The
   * pattern never matches the empty string, so there is always one more piece
   * than there are matches, and the text `""` gives `[""]`.
   */
  function SplitFrom(s: string, from: nat): (r: ParagraphSplit)
    requires from <= |s|
    ensures |r.paragraphs| == |r.separators| + 1
    decreases |s| - from
  {
    match FindSeparator(s, from)
    case None => ParagraphSplit([s[from..]], [])
    case Some(m) =>
      var rest := SplitFrom(s, m.end);
      ParagraphSplit([s[from..m.start]] + rest.paragraphs, [s[m.start..m.end]] + rest.separators)
  }

  /** One step of the split at a match: the paragraph before it, the match, then the split of the rest. */
  lemma SplitAtMatch(s: string, from: nat)
    requires from <= |s| && FindSeparator(s, from).Some?
    ensures var m := FindSeparator(s, from).value; var rest := SplitFrom(s, m.end);
      SplitFrom(s, from) == ParagraphSplit([s[from..m.start]] + rest.paragraphs, [s[m.start..m.end]] + rest.separators)
  {
  }

  /** The paragraphs interleaved with the separators rebuild the text from `from` on. */
  lemma {:induction false} SplitRebuildsText(s: string, from: nat)
    requires from <= |s|
    ensures var r := SplitFrom(s, from); Interleave(r.paragraphs, r.separators) == s[from..]
    decreases |s| - from
  {
    match FindSeparator(s, from)
    case None =>
    case Some(m) =>
      SplitAtMatch(s, from);
      SplitRebuildsText(s, m.end);
      var rest := SplitFrom(s, m.end);
      InterleaveCons(s[from..m.start], s[m.start..m.end], rest.paragraphs, rest.separators);
      assert s[from..] == s[from..m.start] + s[m.start..m.end] + s[m.end..];
  }

  /** Every separator of the split is a match of the pattern. */
  lemma {:induction false} SplitSeparatorsMatch(s: string, from: nat)
    requires from <= |s|
    ensures var r := SplitFrom(s, from); forall k :: 0 <= k < |r.separators| ==> IsSeparator(r.separators[k])
    decreases |s| - from
  {
    match FindSeparator(s, from)
    case None =>
    case Some(m) =>
      SplitAtMatch(s, from);
      FindSeparatorSpec(s, from);
      SplitSeparatorsMatch(s, m.end);
      var r := SplitFrom(s, from);
      assert r.separators[1..] == SplitFrom(s, m.end).separators;
  }

  /** A stretch where no separator starts holds none. */
  lemma PieceHoldsNoSeparator(s: string, a: nat, b: nat)
    requires a <= b <= |s| && NoSeparatorIn(s, a, b)
    ensures forall i, j :: 0 <= i <= j <= b - a ==> !IsSeparator(s[a..b][i..j])
  {
    forall i, j | 0 <= i <= j <= b - a ensures !IsSeparator(s[a..b][i..j]) {
      SliceOfSlice(s, a, b, i, j);
    }
  }

  /** No paragraph of the split holds a separator. */
  lemma {:induction false} SplitParagraphsHoldNoSeparator(s: string, from: nat)
    requires from <= |s|
    ensures var r := SplitFrom(s, from);
      forall k, i, j :: 0 <= k < |r.paragraphs| && 0 <= i <= j <= |r.paragraphs[k]| ==> !IsSeparator(r.paragraphs[k][i..j])
    decreases |s| - from
  {
    FindSeparatorSpec(s, from);
    match FindSeparator(s, from)
    case None =>
      PieceHoldsNoSeparator(s, from, |s|);
      assert s[from..] == s[from..|s|];
    case Some(m) =>
      SplitAtMatch(s, from);
      SplitParagraphsHoldNoSeparator(s, m.end);
      PieceHoldsNoSeparator(s, from, m.start);
      var r := SplitFrom(s, from);
      assert r.paragraphs[1..] == SplitFrom(s, m.end).paragraphs;
  }

  /** The paragraphs of the text, as `paragraphSplittingPattern.Split(text, -1)` returns them. */
  function Paragraphs(text: string): (ps: seq<string>)
    ensures |ps| >= 1
  {
    SplitFrom(text, 0).paragraphs
  }

  /** No paragraph holds a blank-line separator. */
  lemma ParagraphsHoldNoSeparator(text: string)
    ensures var ps := Paragraphs(text);
      forall k, i, j :: 0 <= k < |ps| && 0 <= i <= j <= |ps[k]| ==> !IsSeparator(ps[k][i..j])
  {
    SplitParagraphsHoldNoSeparator(text, 0);
    assert Paragraphs(text) == SplitFrom(text, 0).paragraphs;
  }

  /** Cutting at blank lines loses nothing: paragraphs and separators rebuild the text. */
  lemma ParagraphsRebuildText(text: string)
    ensures var r := SplitFrom(text, 0);
      r.paragraphs == Paragraphs(text) && Interleave(r.paragraphs, r.separators) == text
  {
    SplitRebuildsText(text, 0);
    assert text[0..] == text;
  }

  /** A text without a blank line is a single paragraph. */
  lemma NoBlankLineOneParagraph(text: string)
    requires forall i, j :: 0 <= i <= j <= |text| ==> !IsSeparator(text[i..j])
    ensures Paragraphs(text) == [text]
  {
    FindSeparatorSpec(text, 0);
    assert FindSeparator(text, 0).None?;
    assert text[0..] == text;
  }
}
