/**
 * The reference scanner: `termReferenceDefinitionPattern`
 * `\[([^\]]+)\](\[([^\]]*)\])?` with `FindAllStringSubmatch` (mcdef.go:16, 140),
 * and `termTexts` (mcdef.go:138-154), which turns the occurrences into the map
 * from reference name to term text.
 */
module References {
  import opened Options
  import opened Text

  /** Submatches 1 and 3 of one reference token: the display text and the name (`""` when absent). */
  datatype Occurrence = Occurrence(display: string, name: string)

  /** `[` + characters other than `]` + `]`. */
  predicate IsBracketed(w: string) {
    |w| >= 2 && w[0] == '[' && w[|w| - 1] == ']' && ']' !in w[1..|w| - 1]
  }

  /**
   * The strings the reference pattern matches in full: a bracketed, non-empty
   * display text, optionally followed by a bracketed (possibly empty) name.
   */
  ghost predicate IsReferenceToken(w: string) {
    || (IsBracketed(w) && |w| >= 3)
    || exists d :: 3 <= d < |w| && IsBracketed(w[..d]) && IsBracketed(w[d..])
  }

  /** Index of the first `]` at or after `i`, or `|s|` (where greedy `[^\]]*` stops). */
  function CloseBracket(s: string, i: nat): (j: nat)
    requires i <= |s|
    ensures i <= j <= |s|
    ensures forall k :: i <= k < j ==> s[k] != ']'
    ensures j == |s| || s[j] == ']'
    decreases |s| - i
  {
    if i == |s| || s[i] == ']' then i else CloseBracket(s, i + 1)
  }

  /** A token found at `p`: its submatches and the index just past it. */
  datatype TokenMatch = TokenMatch(occurrence: Occurrence, end: nat)

  /**
   * The match of the reference pattern that starts at `p`, if any: the display
   * text runs to the first `]`, and the optional `[name]` is taken whenever it
   * is there (the `?` is greedy).
   */
  function TokenAt(s: string, p: nat): (r: Option<TokenMatch>)
    requires p <= |s|
    ensures r.Some? ==> p < r.value.end <= |s|
    ensures r.Some? ==> var o := r.value.occurrence;
      o.display != [] && ']' !in o.display && ']' !in o.name
  {
    if p == |s| || s[p] != '[' then None
    else
      var d := CloseBracket(s, p + 1);
      if d == p + 1 || d == |s| then None
      else if d + 1 < |s| && s[d + 1] == '[' && CloseBracket(s, d + 2) < |s| then
        var m := CloseBracket(s, d + 2);
        Some(TokenMatch(Occurrence(s[p + 1..d], s[d + 2..m]), m + 1))
      else
        Some(TokenMatch(Occurrence(s[p + 1..d], []), d + 1))
  }

  /** The pieces of a match: the bracket at `p`, the display up to the first `]`, and the name when there is one. */
  lemma TokenAtParts(s: string, p: nat)
    requires p <= |s| && TokenAt(s, p).Some?
    ensures var d := CloseBracket(s, p + 1); var t := TokenAt(s, p).value;
      && s[p] == '[' && p + 1 < d < |s| && s[d] == ']' && t.occurrence.display == s[p + 1..d]
      && (t.end == d + 1 ==> t.occurrence.name == [] && !(d + 1 < |s| && s[d + 1] == '[' && CloseBracket(s, d + 2) < |s|))
      && (t.end != d + 1 ==>
            && d + 1 < |s| && s[d + 1] == '[' && CloseBracket(s, d + 2) < |s|
            && t.end == CloseBracket(s, d + 2) + 1 && t.occurrence.name == s[d + 2..CloseBracket(s, d + 2)])
  {
  }

  /** `s[a..b + 1]` is its first character, the characters strictly between, and its last. */
  lemma Enclosed(s: string, a: nat, b: nat)
    requires a < b < |s|
    ensures s[a..b + 1] == [s[a]] + s[a + 1..b] + [s[b]]
  {
    var inner, whole := s[a + 1..b], s[a..b + 1];
    forall k | 0 <= k < |inner| ensures inner[k] == whole[k + 1] {
    }
  }

  /** Brackets at `a` and `b` enclose `s[a + 1..b]`. */
  lemma ShortShape(s: string, a: nat, b: nat)
    requires a < b < |s| && s[a] == '[' && s[b] == ']'
    ensures s[a..b + 1] == "[" + s[a + 1..b] + "]"
  {
    Enclosed(s, a, b);
    assert [s[a]] == "[" && [s[b]] == "]";
  }

  /** Two bracketed parts side by side. */
  lemma LongShape(s: string, p: nat, d: nat, m: nat)
    requires p < d && d + 1 < m < |s|
    requires s[p] == '[' && s[d] == ']' && s[d + 1] == '[' && s[m] == ']'
    ensures s[p..m + 1] == "[" + s[p + 1..d] + "][" + s[d + 2..m] + "]"
  {
    ShortShape(s, p, d);
    ShortShape(s, d + 1, m);
    var display, name := s[p + 1..d], s[d + 2..m];
    assert s[p..m + 1] == s[p..d + 1] + s[d + 1..m + 1];
    assert ("[" + display + "]") + ("[" + name + "]") == "[" + display + "][" + name + "]";
  }

  /** The text of a match: `[display]` with an empty name, or `[display][name]`. */
  lemma TokenAtShape(s: string, p: nat)
    requires p <= |s| && TokenAt(s, p).Some?
    ensures var t := TokenAt(s, p).value; var o := t.occurrence;
      || (s[p..t.end] == "[" + o.display + "]" && o.name == [])
      || s[p..t.end] == "[" + o.display + "][" + o.name + "]"
  {
    var d := CloseBracket(s, p + 1);
    TokenAtParts(s, p);
    if TokenAt(s, p).value.end != d + 1 {
      TokenAtLongShape(s, p);
    } else {
      ShortShape(s, p, d);
    }
  }

  /** `TokenAtShape` when the match goes past the first `]`: a name follows the display. */
  lemma TokenAtLongShape(s: string, p: nat)
    requires p <= |s| && TokenAt(s, p).Some? && TokenAt(s, p).value.end != CloseBracket(s, p + 1) + 1
    ensures var t := TokenAt(s, p).value;
      s[p..t.end] == "[" + t.occurrence.display + "][" + t.occurrence.name + "]"
  {
    var d := CloseBracket(s, p + 1);
    TokenAtParts(s, p);
    var m := CloseBracket(s, d + 2);
    LongShape(s, p, d, m);
    var t := TokenAt(s, p).value;
    assert t.occurrence.display == s[p + 1..d] && t.occurrence.name == s[d + 2..m] && t.end == m + 1;
  }

  /** `CloseBracket` finds the first `]`: any `]` with none before it is the one. */
  lemma {:induction false} CloseBracketFirst(s: string, i: nat, j: nat)
    requires i <= j < |s| && s[j] == ']' && ']' !in s[i..j]
    ensures CloseBracket(s, i) == j
    decreases j - i
  {
    if i < j {
      assert s[i] == s[i..j][0];
      assert s[i + 1..j] == s[i..j][1..];
      CloseBracketFirst(s, i + 1, j);
    }
  }

  /** `[display]` is a reference token. */
  lemma ShortTokenShape(display: string)
    requires display != [] && ']' !in display
    ensures IsReferenceToken("[" + display + "]")
  {
    var w := "[" + display + "]";
    assert w[1..|w| - 1] == display;
  }

  /** `[display][name]` is a reference token. */
  lemma LongTokenShape(display: string, name: string)
    requires display != [] && ']' !in display && ']' !in name
    ensures IsReferenceToken("[" + display + "][" + name + "]")
  {
    var w := "[" + display + "][" + name + "]";
    var d := |display| + 2;
    assert w[..d] == "[" + display + "]";
    assert w[d..] == "[" + name + "]";
    ShortBracketed(display);
    ShortBracketed(name);
  }

  /** `[x]` is bracketed when `x` holds no `]`. */
  lemma ShortBracketed(x: string)
    requires ']' !in x
    ensures IsBracketed("[" + x + "]")
  {
    var w := "[" + x + "]";
    assert w[1..|w| - 1] == x;
  }

  /** The token `TokenAt` returns is a reference token. */
  lemma TokenAtIsToken(s: string, p: nat)
    requires p <= |s| && TokenAt(s, p).Some?
    ensures IsReferenceToken(s[p..TokenAt(s, p).value.end])
  {
    var t := TokenAt(s, p).value;
    TokenAtShape(s, p);
    if s[p..t.end] == "[" + t.occurrence.display + "]" {
      ShortTokenShape(t.occurrence.display);
    } else {
      LongTokenShape(t.occurrence.display, t.occurrence.name);
    }
  }

  /** No token at `p` is longer than the one `TokenAt` returns. */
  lemma LongerNotToken(s: string, p: nat, j: nat)
    requires p <= |s| && TokenAt(s, p).Some? && TokenAt(s, p).value.end < j <= |s|
    ensures !IsReferenceToken(s[p..j])
  {
    var d := CloseBracket(s, p + 1);
    TokenAtParts(s, p);
    var w := s[p..j];
    assert w[1..|w| - 1][d - p - 1] == s[d] == ']';
    var long := d + 1 < |s| && s[d + 1] == '[' && CloseBracket(s, d + 2) < |s|;
    forall c | 3 <= c < |w| ensures !(IsBracketed(w[..c]) && IsBracketed(w[c..])) {
      NoSplitPastToken(s, p, d, j, c, long);
    }
  }

  /** Helper for `LongerNotToken`: cutting `s[p..j]` after `c` characters never gives two bracketed parts. */
  lemma NoSplitPastToken(s: string, p: nat, d: nat, j: nat, c: nat, long: bool)
    requires p < d < j <= |s| && 3 <= c < j - p
    requires d == CloseBracket(s, p + 1)
    requires long == (d + 1 < |s| && s[d + 1] == '[' && CloseBracket(s, d + 2) < |s|)
    requires long ==> CloseBracket(s, d + 2) + 1 < j
    ensures !(IsBracketed(s[p..j][..c]) && IsBracketed(s[p..j][c..]))
  {
    var head, tail := s[p..j][..c], s[p..j][c..];
    if p + c - 1 < d {
      assert head[|head| - 1] == s[p + c - 1];
      assert s[p + c - 1] == s[p + 1..d][c - 2];
    } else if p + c - 1 > d {
      assert head[1..|head| - 1][d - p - 1] == s[d];
    } else if s[d + 1] != '[' {
      assert tail[0] == s[d + 1];
    } else if long {
      var m := CloseBracket(s, d + 2);
      assert tail[1..|tail| - 1][m - d - 2] == s[m];
    } else if |tail| >= 2 {
      assert tail[|tail| - 1] == s[j - 1] == s[d + 2..|s|][j - 1 - (d + 2)];
    }
  }

  /** When `TokenAt` finds nothing at `p`, no prefix of `s[p..]` is a reference token. */
  lemma NoTokenAt(s: string, p: nat, j: nat)
    requires p <= j <= |s| && TokenAt(s, p).None?
    ensures !IsReferenceToken(s[p..j])
  {
    var w := s[p..j];
    if p < j && s[p] != '[' {
      assert w[0] == s[p];
      forall c | 3 <= c < |w| ensures !IsBracketed(w[..c]) {
        assert w[..c][0] == s[p];
      }
    } else if p < j {
      var d := CloseBracket(s, p + 1);
      if d == p + 1 {
        if |w| >= 3 {
          assert w[1..|w| - 1][0] == s[p + 1];
        }
        forall c | 3 <= c < |w| ensures !IsBracketed(w[..c]) {
          assert w[..c][1..c - 1][0] == s[p + 1];
        }
      } else {
        if |w| >= 2 {
          assert w[|w| - 1] == s[j - 1] == s[p + 1..|s|][j - p - 2];
        }
        forall c | 3 <= c < |w| ensures !IsBracketed(w[..c]) {
          assert w[..c][c - 1] == s[p + 1..|s|][c - 2];
        }
      }
    }
  }

  /**
   * `TokenAt` is the leftmost-first match at `p`: there is a match exactly when
   * some prefix of `s[p..]` is a reference token, and the one returned is the
   * longest such prefix.
   */
  lemma TokenAtIsLongestMatch(s: string, p: nat)
    requires p <= |s|
    ensures TokenAt(s, p).Some? ==> IsReferenceToken(s[p..TokenAt(s, p).value.end])
    ensures TokenAt(s, p).Some? ==> forall j :: TokenAt(s, p).value.end < j <= |s| ==> !IsReferenceToken(s[p..j])
    ensures TokenAt(s, p).None? ==> forall j :: p <= j <= |s| ==> !IsReferenceToken(s[p..j])
  {
    if TokenAt(s, p).Some? {
      TokenAtIsToken(s, p);
      forall j | TokenAt(s, p).value.end < j <= |s| ensures !IsReferenceToken(s[p..j]) {
        LongerNotToken(s, p, j);
      }
    } else {
      forall j | p <= j <= |s| ensures !IsReferenceToken(s[p..j]) {
        NoTokenAt(s, p, j);
      }
    }
  }

  /**
   * `FindAllStringSubmatch(text, -1)` from index `from` on: the engine tries
   * each start in turn, takes the match found there, and resumes after it.
   */
  function ScanReferences(s: string, from: nat): (r: seq<Occurrence>)
    requires from <= |s|
    ensures forall k :: 0 <= k < |r| ==> r[k].display != [] && ']' !in r[k].display && ']' !in r[k].name
    ensures |r| <= |s| - from
    decreases |s| - from
  {
    if from == |s| then []
    else
      match TokenAt(s, from)
      case None => ScanReferences(s, from + 1)
      case Some(t) => [t.occurrence] + ScanReferences(s, t.end)
  }

  /** No match found in `spans` covers position `q`. */
  predicate Unclaimed(spans: seq<(nat, nat)>, q: nat) {
    forall k :: 0 <= k < |spans| ==> q < spans[k].0 || spans[k].1 <= q
  }

  /** Each `spans[k]` starts at or past `from` and is the match `TokenAt` takes there, giving `occs[k]`. */
  predicate MatchesAt(s: string, from: nat, spans: seq<(nat, nat)>, occs: seq<Occurrence>) {
    |spans| == |occs|
    && forall k :: 0 <= k < |spans| ==>
         from <= spans[k].0 <= |s| && TokenAt(s, spans[k].0) == Some(TokenMatch(occs[k], spans[k].1))
  }

  /** Each match starts at or past the end of the one before. */
  predicate InOrder(spans: seq<(nat, nat)>) {
    forall k :: 0 <= k < |spans| - 1 ==> spans[k].1 <= spans[k + 1].0
  }

  /** `TokenAt` finds nothing at any position from `from` on that no match covers. */
  predicate NothingElsewhere(s: string, from: nat, spans: seq<(nat, nat)>) {
    forall q :: from <= q < |s| && Unclaimed(spans, q) ==> TokenAt(s, q).None?
  }

  /**
   * `occs` is what a left-to-right scan of `s` from `from` finds, with `spans[k]`
   * the start and end of the `k`-th match: each match is the one `TokenAt` takes at
   * its start, each starts at or past the end of the one before, and the scan found
   * no match at any position outside them.
   */
  predicate IsScan(s: string, from: nat, spans: seq<(nat, nat)>, occs: seq<Occurrence>) {
    from <= |s| && MatchesAt(s, from, spans, occs) && InOrder(spans) && NothingElsewhere(s, from, spans)
  }

  lemma MatchesCons(s: string, from: nat, t: TokenMatch, rest: seq<(nat, nat)>, occs: seq<Occurrence>)
    requires from < |s| && TokenAt(s, from) == Some(t)
    requires MatchesAt(s, t.end, rest, occs)
    ensures MatchesAt(s, from, [(from, t.end)] + rest, [t.occurrence] + occs)
  {
    var spans, all := [(from, t.end)] + rest, [t.occurrence] + occs;
    forall k | 0 <= k < |spans| ensures from <= spans[k].0 <= |s| && TokenAt(s, spans[k].0) == Some(TokenMatch(all[k], spans[k].1)) {
      if k > 0 {
        assert spans[k] == rest[k - 1] && all[k] == occs[k - 1];
      }
    }
  }

  lemma InOrderCons(first: (nat, nat), rest: seq<(nat, nat)>)
    requires InOrder(rest) && (rest != [] ==> first.1 <= rest[0].0)
    ensures InOrder([first] + rest)
  {
    var spans := [first] + rest;
    forall k | 0 <= k < |spans| - 1 ensures spans[k].1 <= spans[k + 1].0 {
      assert spans[k + 1] == rest[k];
      if k > 0 {
        assert spans[k] == rest[k - 1];
      }
    }
  }

  /** The start and end of each match `ScanReferences` takes from `from` on. */
  ghost function ScanSpans(s: string, from: nat): seq<(nat, nat)>
    requires from <= |s|
    decreases |s| - from
  {
    if from == |s| then []
    else
      match TokenAt(s, from)
      case None => ScanSpans(s, from + 1)
      case Some(t) => [(from, t.end)] + ScanSpans(s, t.end)
  }

  lemma {:induction false} ScanSpansMatch(s: string, from: nat)
    requires from <= |s|
    ensures MatchesAt(s, from, ScanSpans(s, from), ScanReferences(s, from))
    decreases |s| - from
  {
    if from < |s| {
      match TokenAt(s, from)
      case None =>
        ScanSpansMatch(s, from + 1);
        assert MatchesAt(s, from, ScanSpans(s, from + 1), ScanReferences(s, from + 1));
      case Some(t) =>
        ScanSpansMatch(s, t.end);
        MatchesCons(s, from, t, ScanSpans(s, t.end), ScanReferences(s, t.end));
    }
  }

  lemma {:induction false} ScanSpansInOrder(s: string, from: nat)
    requires from <= |s|
    ensures InOrder(ScanSpans(s, from))
    ensures forall k :: 0 <= k < |ScanSpans(s, from)| ==> from <= ScanSpans(s, from)[k].0
    decreases |s| - from
  {
    if from < |s| {
      match TokenAt(s, from)
      case None =>
        ScanSpansInOrder(s, from + 1);
      case Some(t) =>
        ScanSpansInOrder(s, t.end);
        InOrderCons((from, t.end), ScanSpans(s, t.end));
    }
  }

  lemma ScanSpansElsewhere(s: string, from: nat)
    requires from <= |s|
    ensures NothingElsewhere(s, from, ScanSpans(s, from))
  {
    forall q | from <= q < |s| && Unclaimed(ScanSpans(s, from), q) ensures TokenAt(s, q).None? {
      ScanSpansElsewhereAt(s, from, q);
    }
  }

  /** `ScanSpansElsewhere` at one position `q`. */
  lemma {:induction false} ScanSpansElsewhereAt(s: string, from: nat, q: nat)
    requires from <= q < |s| && Unclaimed(ScanSpans(s, from), q)
    ensures TokenAt(s, q).None?
    decreases |s| - from
  {
    match TokenAt(s, from)
    case None =>
      if q > from {
        var spans := ScanSpans(s, from + 1);
        assert ScanSpans(s, from) == spans;
        assert Unclaimed(spans, q);
        ScanSpansElsewhereAt(s, from + 1, q);
      }
    case Some(t) =>
      var rest := ScanSpans(s, t.end);
      assert ScanSpans(s, from) == [(from, t.end)] + rest;
      UnclaimedPastFirst(from, t.end, rest, q);
      ScanSpansElsewhereAt(s, t.end, q);
  }

  /** A position at or past the first span's start that no span covers lies past that span, and the rest do not cover it. */
  lemma UnclaimedPastFirst(start: nat, end: nat, rest: seq<(nat, nat)>, q: nat)
    requires start <= q && Unclaimed([(start, end)] + rest, q)
    ensures end <= q && Unclaimed(rest, q)
  {
    var spans := [(start, end)] + rest;
    assert spans[0] == (start, end);
    forall k | 0 <= k < |rest| ensures q < rest[k].0 || rest[k].1 <= q {
      assert spans[k + 1] == rest[k];
    }
  }

  /**
   * `ScanReferences` is that scan: its occurrences are the matches of a left-to-right
   * scan from `from`, and together with `TokenAtIsLongestMatch` no reference token
   * starts at any position the scan passed over.
   */
  lemma ScanReferencesIsScan(s: string, from: nat)
    requires from <= |s|
    ensures exists spans :: IsScan(s, from, spans, ScanReferences(s, from))
  {
    ScanSpansMatch(s, from);
    ScanSpansInOrder(s, from);
    ScanSpansElsewhere(s, from);
    assert IsScan(s, from, ScanSpans(s, from), ScanReferences(s, from));
  }

  /** The map key an occurrence defines: the trimmed name, or the trimmed display text when the name is empty. */
  function Key(o: Occurrence): (key: string)
    ensures IsTrimmed(key)
    ensures o.name == [] ==> key == TrimSpace(o.display)
    ensures o.name != [] ==> key == TrimSpace(o.name)
  {
    TrimSpace(if |o.name| == 0 then o.display else o.name)
  }

  /** The map `termTexts` has built after the occurrences `occs`, in order: later ones overwrite earlier ones. */
  function ReferenceMap(occs: seq<Occurrence>): (m: map<string, string>)
    ensures forall key :: key in m ==> IsTrimmed(key)
    decreases |occs|
  {
    if occs == [] then map[]
    else
      var last := occs[|occs| - 1];
      ReferenceMap(occs[..|occs| - 1])[Key(last) := last.display]
  }

  /** The keys of the map are exactly the keys of the occurrences. */
  lemma {:induction false} ReferenceMapKeys(occs: seq<Occurrence>)
    ensures ReferenceMap(occs).Keys == set o | o in occs :: Key(o)
    decreases |occs|
  {
    if occs != [] {
      var init := occs[..|occs| - 1];
      var last := occs[|occs| - 1];
      assert occs == init + [last];
      ReferenceMapKeys(init);
      ReferenceMapAppend(init, last);
      KeysOfAppend(init, last);
    }
  }

  /** One more occurrence maps its key to its display text. */
  lemma ReferenceMapAppend(init: seq<Occurrence>, last: Occurrence)
    ensures ReferenceMap(init + [last]) == ReferenceMap(init)[Key(last) := last.display]
  {
    assert (init + [last])[..|init|] == init;
  }

  /** One more occurrence adds its key. */
  lemma KeysOfAppend(init: seq<Occurrence>, last: Occurrence)
    ensures (set o | o in init + [last] :: Key(o)) == (set o | o in init :: Key(o)) + {Key(last)}
  {
  }

  /** Each key maps to the display text of the last occurrence with that key. */
  lemma {:induction false} ReferenceMapLastWins(occs: seq<Occurrence>, i: nat)
    requires i < |occs|
    requires forall j :: i < j < |occs| ==> Key(occs[j]) != Key(occs[i])
    ensures Key(occs[i]) in ReferenceMap(occs)
    ensures ReferenceMap(occs)[Key(occs[i])] == occs[i].display
    decreases |occs|
  {
    if i < |occs| - 1 {
      var init := occs[..|occs| - 1];
      assert init[i] == occs[i];
      ReferenceMapLastWins(init, i);
    }
  }

  /** `ReferenceMapAppend` for the prefix `occs[..i + 1]`. */
  lemma ReferenceMapNext(occs: seq<Occurrence>, i: nat)
    requires i < |occs|
    ensures ReferenceMap(occs[..i + 1]) == ReferenceMap(occs[..i])[Key(occs[i]) := occs[i].display]
  {
    assert occs[..i + 1][..i] == occs[..i];
  }

  /**
   * `termTexts`: scans the prose for references and records, for each key, the
   * display text of its last occurrence.
   */
  method TermTexts(text: string) returns (references: map<string, string>)
    ensures references == ReferenceMap(ScanReferences(text, 0))
    ensures forall key :: key in references ==> IsTrimmed(key)
  {
    references := map[];
    var referenceDefinitions := ScanReferences(text, 0);
    for i := 0 to |referenceDefinitions|
      invariant references == ReferenceMap(referenceDefinitions[..i])
    {
      var termText := referenceDefinitions[i].display;
      var termName := referenceDefinitions[i].name;
      if |termName| == 0 {
        termName := termText;
      }
      termName := TrimSpace(termName);
      ReferenceMapNext(referenceDefinitions, i);
      references := references[termName := termText];
    }
    assert referenceDefinitions[..|referenceDefinitions|] == referenceDefinitions;
  }
}
