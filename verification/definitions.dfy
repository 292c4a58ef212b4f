/**
 * The paragraph classifier's test, `termDefinitionPattern`
 * `(?s)\[(\S+)\]:\s*\/([^\s]*)\s*\n?(.*)` used with `FindStringSubmatch`
 * (mcdef.go:18, 53). The match is unanchored: a definition head may stand
 * anywhere in the paragraph, and everything after it is the body.
 */
module DefinitionPattern {
  import opened Options
  import opened Text

  /** Submatches 1, 2 and 3 of the definition pattern. */
  datatype Definition = Definition(reference: string, manualSplits: string, body: string)

  /** After the `\s` run that starts at `i` comes a `/` (what `\s*\/` needs). */
  predicate SlashAfterSpace(s: string, i: nat)
    requires i <= |s|
  {
    var q := SpaceRunEnd(s, i);
    q < |s| && s[q] == '/'
  }

  /**
   * The head `[name]:` + `\s*` + `/` of the pattern starts at `p`, with a name
   * of `k` characters that are not `\s`. Whatever follows the `/` always matches
   * the rest of the pattern.
   */
  predicate HeadAt(s: string, p: nat, k: nat) {
    && 1 <= k && p + k + 2 < |s|
    && s[p] == '['
    && NoAsciiSpace(s[p + 1..p + 1 + k])
    && s[p + k + 1] == ']' && s[p + k + 2] == ':'
    && SlashAfterSpace(s, p + k + 3)
  }

  /** The head Go's leftmost-first engine chooses: leftmost start, then the greedy (longest) `\S+`. */
  ghost predicate IsChosenHead(s: string, p: nat, k: nat) {
    && HeadAt(s, p, k)
    && (forall p': nat, k': nat :: p' < p ==> !HeadAt(s, p', k'))
    && (forall k': nat :: k < k' ==> !HeadAt(s, p, k'))
  }

  /** A name never runs past the `\S` run after the bracket, which is where greedy `\S+` starts backtracking. */
  lemma NoHeadPastRun(s: string, p: nat, k: nat)
    requires p < |s| && NonSpaceRunEnd(s, p + 1) - (p + 1) < k
    ensures !HeadAt(s, p, k)
  {
    var e := NonSpaceRunEnd(s, p + 1);
    if p + k + 2 < |s| {
      assert s[p + 1..p + 1 + k][e - (p + 1)] == s[e];
    }
  }

  /** The largest name length `k' <= k` with a head at `p`: `\S+` backtracking from `k` characters. */
  function LongestHead(s: string, p: nat, k: nat): (r: Option<nat>)
    ensures r.Some? ==> r.value <= k && HeadAt(s, p, r.value)
    ensures forall k': nat :: (if r.Some? then r.value else 0) < k' <= k ==> !HeadAt(s, p, k')
    decreases k
  {
    if k == 0 then None
    else if HeadAt(s, p, k) then Some(k)
    else LongestHead(s, p, k - 1)
  }

  /** The leftmost head at or after `p`, with its longest name: `(start, name length)`. */
  function FindHead(s: string, p: nat): (r: Option<(nat, nat)>)
    requires p <= |s|
    ensures r.Some? ==> p <= r.value.0 && HeadAt(s, r.value.0, r.value.1)
    ensures r.Some? ==> forall p': nat, k': nat :: p <= p' < r.value.0 ==> !HeadAt(s, p', k')
    ensures r.Some? ==> forall k': nat :: r.value.1 < k' ==> !HeadAt(s, r.value.0, k')
    ensures r.None? ==> forall p': nat, k': nat :: p <= p' ==> !HeadAt(s, p', k')
    decreases |s| - p
  {
    if p == |s| then None
    else
      var n := NonSpaceRunEnd(s, p + 1) - (p + 1);
      assert forall k': nat :: n < k' ==> !HeadAt(s, p, k') by {
        forall k' | n < k' ensures !HeadAt(s, p, k') {
          NoHeadPastRun(s, p, k');
        }
      }
      match LongestHead(s, p, n)
      case Some(k) => Some((p, k))
      case None => FindHead(s, p + 1)
  }

  /**
   * The submatches of a head at `p` with a name of `k` characters: group 2 is
   * the greedy `[^\s]*` after the `/`; `\s*` then eats the whitespace that
   * follows, `\n?` is left with nothing to take, and `(.*)` (with the `s` flag)
   * takes the rest of the paragraph.
   */
  function Groups(s: string, p: nat, k: nat): (d: Definition)
    requires HeadAt(s, p, k)
    ensures d.reference == s[p + 1..p + 1 + k]
    ensures d.reference != [] && NoAsciiSpace(d.reference) && NoAsciiSpace(d.manualSplits)
    ensures d.body == [] || !IsAsciiSpace(d.body[0])
    ensures |d.reference| + |d.manualSplits| + |d.body| + 4 <= |s| - p
  {
    var q := SpaceRunEnd(s, p + k + 3);
    var r := NonSpaceRunEnd(s, q + 1);
    var b := SpaceRunEnd(s, r);
    Definition(s[p + 1..p + 1 + k], s[q + 1..r], s[b..])
  }

  /**
   * The groups put back together spell the match, which runs from the head at
   * `p` to the end of the paragraph: `[`, the reference, `]:`, whitespace, `/`,
   * the manual splits, whitespace, and the body. The whitespace after the manual
   * splits is empty only when the body is. With the contract of `Groups`, this
   * leaves one way to read each group: the manual splits are the whole run of
   * non-`\s` characters after the `/`, and the body starts after the whitespace
   * that follows.
   */
  lemma GroupsRebuild(s: string, p: nat, k: nat)
    requires HeadAt(s, p, k)
    ensures var d := Groups(s, p, k);
      exists w1, w2 :: AllAsciiSpace(w1) && AllAsciiSpace(w2) && (w2 == [] ==> d.body == [])
        && s[p..] == "[" + d.reference + "]:" + w1 + "/" + d.manualSplits + w2 + d.body
  {
    var d := Groups(s, p, k);
    var q := SpaceRunEnd(s, p + k + 3);
    var r := NonSpaceRunEnd(s, q + 1);
    var b := SpaceRunEnd(s, r);
    var w1, w2 := s[p + k + 3..q], s[r..b];
    assert d == Definition(s[p + 1..p + 1 + k], s[q + 1..r], s[b..]);
    Spelled(s, p, k, q, r, b);
    assert AllAsciiSpace(w1) && AllAsciiSpace(w2) && (w2 == [] ==> d.body == []);
    assert s[p..] == "[" + d.reference + "]:" + w1 + "/" + d.manualSplits + w2 + d.body;
  }

  /** The text from a head at `p` laid out by the cut points of its groups. */
  lemma Spelled(s: string, p: nat, k: nat, q: nat, r: nat, b: nat)
    requires p + k + 3 <= q < r <= b <= |s|
    requires s[p] == '[' && s[p + k + 1] == ']' && s[p + k + 2] == ':' && s[q] == '/'
    ensures s[p..] == "[" + s[p + 1..p + 1 + k] + "]:" + s[p + k + 3..q] + "/" + s[q + 1..r] + s[r..b] + s[b..]
  {
    var reference, w1, splits, w2 := s[p + 1..p + 1 + k], s[p + k + 3..q], s[q + 1..r], s[r..b];
    assert s[p..p + 1 + k] == "[" + reference by {
      assert s[p..p + 1] == "[";
      JoinSlices(s, p, p + 1, p + 1 + k);
    }
    assert s[p..p + k + 3] == "[" + reference + "]:" by {
      assert s[p + k + 1..p + k + 3] == "]:";
      JoinSlices(s, p, p + 1 + k, p + k + 3);
    }
    assert s[p..q] == "[" + reference + "]:" + w1 by {
      JoinSlices(s, p, p + k + 3, q);
    }
    assert s[p..q + 1] == "[" + reference + "]:" + w1 + "/" by {
      assert s[q..q + 1] == "/";
      JoinSlices(s, p, q, q + 1);
    }
    assert s[p..r] == "[" + reference + "]:" + w1 + "/" + splits by {
      JoinSlices(s, p, q + 1, r);
    }
    assert s[p..b] == "[" + reference + "]:" + w1 + "/" + splits + w2 by {
      JoinSlices(s, p, r, b);
    }
    assert s[p..] == s[p..b] + s[b..] by {
      JoinSlices(s, p, b, |s|);
      assert s[p..] == s[p..|s|] && s[b..] == s[b..|s|];
    }
  }

  /**
   * `termDefinitionPattern.FindStringSubmatch(paragraph)`: the submatches of
   * the leftmost head, if the paragraph holds one.
   */
  function MatchDefinition(paragraph: string): (r: Option<Definition>)
    ensures r.Some? ==> r.value.reference != [] && NoAsciiSpace(r.value.reference) && NoAsciiSpace(r.value.manualSplits)
  {
    match FindHead(paragraph, 0)
    case None => None
    case Some(h) => Some(Groups(paragraph, h.0, h.1))
  }

  /**
   * No match exactly when the paragraph holds no definition head anywhere;
   * otherwise the submatches are those of the head the engine chooses.
   */
  lemma MatchDefinitionChoosesHead(paragraph: string)
    ensures MatchDefinition(paragraph).None? <==> forall p: nat, k: nat :: !HeadAt(paragraph, p, k)
    ensures MatchDefinition(paragraph).Some? ==>
      exists p: nat, k: nat :: IsChosenHead(paragraph, p, k) && MatchDefinition(paragraph).value == Groups(paragraph, p, k)
  {
    match FindHead(paragraph, 0)
    case None =>
    case Some(h) =>
      assert IsChosenHead(paragraph, h.0, h.1);
  }
}
