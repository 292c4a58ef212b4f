/**
 * The package's entry point: `FindTerms` (mcdef.go:46-64) classifies the paragraphs, joins
 * the prose back together, and `matchedTermDefinitions` (mcdef.go:66-107)
 * resolves each definition against the references found in the prose.
 */
module Terms {
  import opened Options
  import opened Text
  import opened ParagraphSplitting
  import opened DefinitionPattern
  import opened References
  import opened ManualSplits
  import opened WordSplitting

  /** A study term. `Splits` is built from a Go map, so its order is unspecified: here it is a set. */
  datatype Term = Term(text: string, reference: string, definition: string, splits: set<string>)

  /** What the splitter contributes for one unsplit piece: nothing for an empty piece, and no empty split. */
  function PieceSplits(piece: string, splitter: WordSplitter): (r: set<string>)
    ensures [] !in r
  {
    if |piece| == 0 then {} else set x | x in splitter(piece) && x != []
  }

  /** The splits the splitter adds for all the unsplit pieces, in order. */
  function SplitterOutput(pieces: seq<string>, splitter: WordSplitter): (r: set<string>)
    ensures [] !in r
    decreases |pieces|
  {
    if pieces == [] then {}
    else SplitterOutput(pieces[..|pieces| - 1], splitter) + PieceSplits(pieces[|pieces| - 1], splitter)
  }

  /** A split comes from the splitter's output for some non-empty piece, and each such output is a split. */
  lemma {:induction false} SplitterOutputMembers(pieces: seq<string>, splitter: WordSplitter, x: string)
    ensures x in SplitterOutput(pieces, splitter) <==>
      x != [] && exists k :: 0 <= k < |pieces| && pieces[k] != [] && x in splitter(pieces[k])
    decreases |pieces|
  {
    if pieces != [] {
      var init := pieces[..|pieces| - 1];
      SplitterOutputMembers(init, splitter, x);
      assert forall k :: 0 <= k < |init| ==> init[k] == pieces[k];
    }
  }

  /** Empty pieces add nothing: the splitter is called only for a non-empty piece. */
  lemma {:induction false} SplitterOutputOfEmptyPieces(pieces: seq<string>, splitter: WordSplitter)
    requires forall k :: 0 <= k < |pieces| ==> pieces[k] == []
    ensures SplitterOutput(pieces, splitter) == {}
    decreases |pieces|
  {
    if pieces != [] {
      SplitterOutputOfEmptyPieces(pieces[..|pieces| - 1], splitter);
    }
  }

  /**
   * The splits of a term whose text is `text`: the manual splits, plus what the
   * splitter makes of the pieces left between their occurrences, for the
   * alternation order `order`.
   */
  function TermSplits(text: string, manual: set<string>, order: seq<string>, splitter: WordSplitter): (r: set<string>)
    requires NonEmptyAlternatives(order)
    ensures manual <= r
    ensures forall x :: x in r && x !in manual ==> x != []
  {
    manual + SplitterOutput(CutFrom(text, order, 0, 0).pieces, splitter)
  }

  /**
   * `term` is what definition `d` yields against the reference map: its text is
   * the mapped display text, its definition the trimmed body, and its splits
   * those of `TermSplits` for some listing of the manual splits.
   */
  ghost predicate IsTermOf(term: Term, references: map<string, string>, d: Definition, splitter: WordSplitter) {
    var manual := ManualSplitSet(d.manualSplits);
    && d.reference in references
    && term.text == references[d.reference]
    && term.reference == d.reference
    && term.definition == TrimSpace(d.body)
    && exists order :: IsListing(order, manual) && NonEmptyAlternatives(order)
         && term.splits == TermSplits(term.text, manual, order, splitter)
  }

  /** Definition `i` is the first with its reference, and that reference occurs in the prose. */
  predicate IsFirstResolvable(references: map<string, string>, defs: seq<Definition>, i: nat)
    requires i < |defs|
  {
    defs[i].reference in references && forall j :: 0 <= j < i ==> defs[j].reference != defs[i].reference
  }

  /** The indices, below `n`, of the definitions that yield a term, in increasing order. */
  function ProducingIndices(references: map<string, string>, defs: seq<Definition>, n: nat): (r: seq<nat>)
    requires n <= |defs|
    ensures forall k :: 0 <= k < |r| ==> r[k] < n && IsFirstResolvable(references, defs, r[k])
    ensures forall k1, k2 :: 0 <= k1 < k2 < |r| ==> r[k1] < r[k2]
    ensures forall i: nat :: i < n && IsFirstResolvable(references, defs, i) ==> i in r
    decreases n
  {
    if n == 0 then []
    else
      var prev := ProducingIndices(references, defs, n - 1);
      if IsFirstResolvable(references, defs, n - 1) then prev + [n - 1] else prev
  }

  /** The references of the first `n` definitions that occur in the prose: what `seenReferences` holds. */
  function Resolved(references: map<string, string>, defs: seq<Definition>, n: nat): set<string>
    requires n <= |defs|
    decreases n
  {
    if n == 0 then {}
    else Resolved(references, defs, n - 1) + (if defs[n - 1].reference in references then {defs[n - 1].reference} else {})
  }

  /** A resolvable definition is the first of its reference exactly when its reference has not been seen. */
  lemma {:induction false} ResolvedMeansSeen(references: map<string, string>, defs: seq<Definition>, i: nat, r: string)
    requires i <= |defs| && r in references
    ensures r in Resolved(references, defs, i) <==> exists j :: 0 <= j < i && defs[j].reference == r
    decreases i
  {
    if i > 0 {
      ResolvedMeansSeen(references, defs, i - 1, r);
    }
  }

  /** A definition whose reference occurs in the prose has a first such definition at or before it. */
  lemma {:induction false} FirstWithReference(references: map<string, string>, defs: seq<Definition>, i: nat)
    requires i < |defs| && defs[i].reference in references
    ensures exists j: nat :: j <= i && IsFirstResolvable(references, defs, j) && defs[j].reference == defs[i].reference
    decreases i
  {
    if !IsFirstResolvable(references, defs, i) {
      var j :| 0 <= j < i && defs[j].reference == defs[i].reference;
      FirstWithReference(references, defs, j);
    }
  }

  /** `terms` are the terms the first `n` definitions yield, in order. */
  ghost predicate ResolvedUpTo(terms: seq<Term>, references: map<string, string>, defs: seq<Definition>, splitter: WordSplitter, n: nat)
    requires n <= |defs|
  {
    var idx := ProducingIndices(references, defs, n);
    && |terms| == |idx|
    && (forall k :: 0 <= k < |terms| ==> IsTermOf(terms[k], references, defs[idx[k]], splitter))
  }

  /**
   * The terms `matchedTermDefinitions` returns: one per reference, from the
   * first definition of that reference whose reference occurs in the prose, in
   * the order of those definitions.
   */
  ghost predicate IsResolution(terms: seq<Term>, references: map<string, string>, defs: seq<Definition>, splitter: WordSplitter) {
    ResolvedUpTo(terms, references, defs, splitter, |defs|)
  }

  /** The first resolvable definition of a reference adds its term at the end. */
  lemma ExtendResolution(terms: seq<Term>, references: map<string, string>, defs: seq<Definition>, splitter: WordSplitter, i: nat, term: Term)
    requires i < |defs| && ResolvedUpTo(terms, references, defs, splitter, i)
    requires IsFirstResolvable(references, defs, i) && IsTermOf(term, references, defs[i], splitter)
    ensures ResolvedUpTo(terms + [term], references, defs, splitter, i + 1)
  {
    var idx := ProducingIndices(references, defs, i);
    assert ProducingIndices(references, defs, i + 1) == idx + [i];
    var terms' := terms + [term];
    forall k | 0 <= k < |terms'| ensures IsTermOf(terms'[k], references, defs[(idx + [i])[k]], splitter) {
      if k < |terms| {
        assert terms'[k] == terms[k] && (idx + [i])[k] == idx[k];
      }
    }
  }

  /** Any other definition adds nothing. */
  lemma KeepResolution(terms: seq<Term>, references: map<string, string>, defs: seq<Definition>, splitter: WordSplitter, i: nat)
    requires i < |defs| && ResolvedUpTo(terms, references, defs, splitter, i)
    requires !IsFirstResolvable(references, defs, i)
    ensures ResolvedUpTo(terms, references, defs, splitter, i + 1)
  {
    assert ProducingIndices(references, defs, i + 1) == ProducingIndices(references, defs, i);
  }

  /** What follows from a resolution: few enough terms, distinct references, and every resolvable reference covered. */
  lemma ResolutionProperties(terms: seq<Term>, references: map<string, string>, defs: seq<Definition>, splitter: WordSplitter)
    requires IsResolution(terms, references, defs, splitter)
    ensures |terms| <= |defs|
    ensures forall k :: 0 <= k < |terms| ==> terms[k].reference in references
    ensures forall k1, k2 :: 0 <= k1 < k2 < |terms| ==> terms[k1].reference != terms[k2].reference
    ensures forall i :: 0 <= i < |defs| && defs[i].reference in references ==>
      exists k :: 0 <= k < |terms| && terms[k].reference == defs[i].reference
  {
    var idx := ProducingIndices(references, defs, |defs|);
    IndicesFewerThanDefinitions(idx, |defs|);
    forall k1, k2 | 0 <= k1 < k2 < |terms| ensures terms[k1].reference != terms[k2].reference {
      assert IsTermOf(terms[k1], references, defs[idx[k1]], splitter);
      assert IsTermOf(terms[k2], references, defs[idx[k2]], splitter);
      assert IsFirstResolvable(references, defs, idx[k2]);
    }
    forall i | 0 <= i < |defs| && defs[i].reference in references
      ensures exists k :: 0 <= k < |terms| && terms[k].reference == defs[i].reference
    {
      FirstWithReference(references, defs, i);
      var j: nat :| j <= i && IsFirstResolvable(references, defs, j) && defs[j].reference == defs[i].reference;
      var k :| 0 <= k < |idx| && idx[k] == j;
      assert IsTermOf(terms[k], references, defs[idx[k]], splitter);
    }
  }

  /** A strictly increasing sequence of indices below `n` has at most `n` elements. */
  lemma {:induction false} IndicesFewerThanDefinitions(idx: seq<nat>, n: nat)
    requires forall k :: 0 <= k < |idx| ==> idx[k] < n
    requires forall k1, k2 :: 0 <= k1 < k2 < |idx| ==> idx[k1] < idx[k2]
    ensures |idx| <= n
    decreases n
  {
    if idx != [] {
      var init := idx[..|idx| - 1];
      assert forall k :: 0 <= k < |init| ==> init[k] < idx[|idx| - 1];
      IndicesFewerThanDefinitions(init, idx[|idx| - 1]);
    }
  }

  /**
   * The splits loop of `matchedTermDefinitions` (mcdef.go:80-93): a copy of the
   * manual splits, then every non-empty split the splitter makes of every
   * non-empty unsplit piece. `definedSplits` is the alternation order
   * `unsplitParts` used.
   */
  method CollectSplits(text: string, manualSplits: set<string>, splitter: WordSplitter)
    returns (splits: set<string>, definedSplits: seq<string>)
    requires forall x :: x in manualSplits ==> x != []
    ensures IsListing(definedSplits, manualSplits) && NonEmptyAlternatives(definedSplits)
    ensures splits == TermSplits(text, manualSplits, definedSplits, splitter)
  {
    var parts: seq<string>;
    parts, definedSplits := UnsplitParts(text, manualSplits);
    splits := AddPieceSplits(manualSplits, parts, splitter);
  }

  /**
   * The loops over the unsplit pieces and over the splitter's output for each
   * non-empty piece (mcdef.go:85-93): every non-empty split joins the set.
   */
  method AddPieceSplits(splits0: set<string>, parts: seq<string>, splitter: WordSplitter) returns (splits: set<string>)
    ensures splits == splits0 + SplitterOutput(parts, splitter)
  {
    splits := splits0;
    for p := 0 to |parts|
      invariant splits == splits0 + SplitterOutput(parts[..p], splitter)
    {
      var unsplitPiece := parts[p];
      SplitterOutputStep(parts, p, splitter);
      if |unsplitPiece| > 0 {
        var pieceSplits := splitter(unsplitPiece);
        for q := 0 to |pieceSplits|
          invariant splits == splits0 + SplitterOutput(parts[..p], splitter) + NonEmptyIn(pieceSplits[..q])
        {
          var split := pieceSplits[q];
          NonEmptyInStep(pieceSplits, q);
          if |split| > 0 {
            splits := splits + {split};
          }
        }
        assert pieceSplits[..|pieceSplits|] == pieceSplits;
      }
    }
    assert parts[..|parts|] == parts;
  }

  /** The non-empty strings of a list, as a set. */
  function NonEmptyIn(xs: seq<string>): (r: set<string>)
    ensures [] !in r
  {
    set x | x in xs && x != []
  }

  /** One more string of the list adds itself when it is non-empty. */
  lemma NonEmptyInStep(xs: seq<string>, q: nat)
    requires q < |xs|
    ensures NonEmptyIn(xs[..q + 1]) == NonEmptyIn(xs[..q]) + (if xs[q] != [] then {xs[q]} else {})
  {
    assert xs[..q + 1] == xs[..q] + [xs[q]];
  }

  /** One more piece adds what the splitter makes of it. */
  lemma SplitterOutputStep(pieces: seq<string>, p: nat, splitter: WordSplitter)
    requires p < |pieces|
    ensures SplitterOutput(pieces[..p + 1], splitter) == SplitterOutput(pieces[..p], splitter) + PieceSplits(pieces[p], splitter)
    ensures pieces[p] != [] ==> PieceSplits(pieces[p], splitter) == NonEmptyIn(splitter(pieces[p]))
  {
    assert pieces[..p + 1][..p] == pieces[..p];
  }

  /**
   * `matchedTermDefinitions`: for each definition whose reference occurs in
   * the prose, unions the manual splits with the splitter's output over the
   * unsplit pieces, and keeps a term only for a reference not seen before.
   */
  method MatchedTermDefinitions(termTexts: map<string, string>, termDefinitions: seq<Definition>, splitter: WordSplitter)
    returns (terms: seq<Term>)
    ensures IsResolution(terms, termTexts, termDefinitions, splitter)
    ensures |terms| <= |termDefinitions|
    ensures forall k1, k2 :: 0 <= k1 < k2 < |terms| ==> terms[k1].reference != terms[k2].reference
  {
    terms := [];
    var seenReferences: set<string> := {};
    for i := 0 to |termDefinitions|
      invariant ResolvedUpTo(terms, termTexts, termDefinitions, splitter, i)
      invariant seenReferences == Resolved(termTexts, termDefinitions, i)
    {
      var d := termDefinitions[i];
      var reference := d.reference;
      var manualSplits := SplitBySeparator(d.manualSplits);
      var definition := TrimSpace(d.body);
      if reference !in termTexts {
        KeepResolution(terms, termTexts, termDefinitions, splitter, i);
        continue;
      }
      ResolvedMeansSeen(termTexts, termDefinitions, i, reference);
      var text := termTexts[reference];
      var splits, definedSplits := CollectSplits(text, manualSplits, splitter);
      if reference !in seenReferences {
        var term := Term(text, reference, definition, splits);
        assert IsTermOf(term, termTexts, d, splitter);
        ExtendResolution(terms, termTexts, termDefinitions, splitter, i, term);
        seenReferences := seenReferences + {reference};
        terms := terms + [term];
      } else {
        KeepResolution(terms, termTexts, termDefinitions, splitter, i);
      }
    }
    ResolutionProperties(terms, termTexts, termDefinitions, splitter);
  }

  /** The definitions among the paragraphs, in paragraph order. */
  function Definitions(ps: seq<string>): (ds: seq<Definition>)
    ensures |ds| <= |ps|
    decreases |ps|
  {
    if ps == [] then []
    else
      var init := Definitions(ps[..|ps| - 1]);
      match MatchDefinition(ps[|ps| - 1])
      case Some(d) => init + [d]
      case None => init
  }

  /** The paragraphs that are not definitions, in paragraph order. */
  function Prose(ps: seq<string>): (prose: seq<string>)
    ensures |prose| <= |ps|
    decreases |ps|
  {
    if ps == [] then []
    else
      var init := Prose(ps[..|ps| - 1]);
      if MatchDefinition(ps[|ps| - 1]).None? then init + [ps[|ps| - 1]] else init
  }

  /** One more paragraph goes to the definitions or to the prose. */
  lemma ClassifyStep(ps: seq<string>, p: string)
    ensures Definitions(ps + [p]) == Definitions(ps) + (if MatchDefinition(p).Some? then [MatchDefinition(p).value] else [])
    ensures Prose(ps + [p]) == Prose(ps) + (if MatchDefinition(p).None? then [p] else [])
  {
    assert (ps + [p])[..|ps|] == ps;
  }

  /** `ClassifyStep` for the prefix `ps[..i + 1]`. */
  lemma ClassifyNext(ps: seq<string>, i: nat)
    requires i < |ps|
    ensures Definitions(ps[..i + 1]) == Definitions(ps[..i]) + (if MatchDefinition(ps[i]).Some? then [MatchDefinition(ps[i]).value] else [])
    ensures Prose(ps[..i + 1]) == Prose(ps[..i]) + (if MatchDefinition(ps[i]).None? then [ps[i]] else [])
  {
    assert ps[..i + 1] == ps[..i] + [ps[i]];
    ClassifyStep(ps[..i], ps[i]);
  }

  /**
   * The counts of definitions and prose paragraphs add up to the number of
   * paragraphs, each prose paragraph is one of the paragraphs and has no
   * definition head, and each definition is the match of one of the
   * paragraphs. `ClassificationIndices` states the partition itself.
   */
  lemma {:induction false} ClassificationPartitions(ps: seq<string>)
    ensures |Definitions(ps)| + |Prose(ps)| == |ps|
    ensures forall k :: 0 <= k < |Prose(ps)| ==> Prose(ps)[k] in ps && MatchDefinition(Prose(ps)[k]).None?
    ensures forall k :: 0 <= k < |Definitions(ps)| ==>
      exists i :: 0 <= i < |ps| && MatchDefinition(ps[i]) == Some(Definitions(ps)[k])
    decreases |ps|
  {
    if ps != [] {
      var init := ps[..|ps| - 1];
      ClassificationPartitions(init);
      assert forall p :: p in init ==> p in ps;
      forall k | 0 <= k < |Definitions(ps)|
        ensures exists i :: 0 <= i < |ps| && MatchDefinition(ps[i]) == Some(Definitions(ps)[k])
      {
        if k < |Definitions(init)| {
          var i :| 0 <= i < |init| && MatchDefinition(init[i]) == Some(Definitions(init)[k]);
          assert ps[i] == init[i];
        } else {
          assert MatchDefinition(ps[|ps| - 1]) == Some(Definitions(ps)[k]);
        }
      }
    }
  }

  /** A text without any definition head is all prose, and yields no definition. */
  lemma {:induction false} NoDefinitionsAllProse(ps: seq<string>)
    requires forall k :: 0 <= k < |ps| ==> MatchDefinition(ps[k]).None?
    ensures Definitions(ps) == [] && Prose(ps) == ps
    decreases |ps|
  {
    if ps != [] {
      NoDefinitionsAllProse(ps[..|ps| - 1]);
      assert ps[..|ps| - 1] + [ps[|ps| - 1]] == ps;
    }
  }

  /** The indices are strictly increasing. */
  predicate Increasing(idx: seq<nat>) {
    forall a, b :: 0 <= a < b < |idx| ==> idx[a] < idx[b]
  }

  /**
   * `ds` and `prose` split the paragraphs `ps` in their order: `di` lists, in
   * increasing order, the paragraphs the definition pattern matches, with `ds[k]`
   * the match of paragraph `di[k]`; `pi` lists, in increasing order, the ones it
   * does not match, with `prose[k]` paragraph `pi[k]` itself; and every paragraph
   * is listed on one side.
   */
  predicate ClassifiedBy(ps: seq<string>, di: seq<nat>, pi: seq<nat>, ds: seq<Definition>, prose: seq<string>) {
    && |di| == |ds| && |pi| == |prose|
    && Increasing(di) && Increasing(pi)
    && (forall k :: 0 <= k < |di| ==> di[k] < |ps| && MatchDefinition(ps[di[k]]) == Some(ds[k]))
    && (forall k :: 0 <= k < |pi| ==> pi[k] < |ps| && MatchDefinition(ps[pi[k]]).None? && prose[k] == ps[pi[k]])
    && (forall i :: 0 <= i < |ps| ==> i in di || i in pi)
  }

  /** The indices, in order, of the paragraphs the definition pattern matches (`side`) or does not match (`!side`). */
  ghost function Indices(ps: seq<string>, side: bool): seq<nat>
    decreases |ps|
  {
    if ps == [] then []
    else
      var init := Indices(ps[..|ps| - 1], side);
      if MatchDefinition(ps[|ps| - 1]).Some? == side then init + [|ps| - 1] else init
  }

  lemma IncreasingAppend(idx: seq<nat>, x: nat)
    requires Increasing(idx) && forall k :: 0 <= k < |idx| ==> idx[k] < x
    ensures Increasing(idx + [x])
  {
  }

  /** The listed indices increase, lie within `ps` and name paragraphs on the chosen side. */
  lemma {:induction false} IndicesInOrder(ps: seq<string>, side: bool)
    ensures var idx := Indices(ps, side);
      && Increasing(idx)
      && forall k :: 0 <= k < |idx| ==> idx[k] < |ps| && MatchDefinition(ps[idx[k]]).Some? == side
    decreases |ps|
  {
    if ps != [] {
      var init, last := ps[..|ps| - 1], |ps| - 1;
      IndicesInOrder(init, side);
      var idx0, idx := Indices(init, side), Indices(ps, side);
      if MatchDefinition(ps[last]).Some? == side {
        assert idx == idx0 + [last];
        IncreasingAppend(idx0, last);
      }
      forall k | 0 <= k < |idx| ensures idx[k] < |ps| && MatchDefinition(ps[idx[k]]).Some? == side {
        if k < |idx0| {
          assert idx[k] == idx0[k] && ps[idx0[k]] == init[idx0[k]];
        }
      }
    }
  }

  /** Every paragraph on the chosen side is listed. */
  lemma {:induction false} IndicesCover(ps: seq<string>, side: bool)
    ensures forall i :: 0 <= i < |ps| && MatchDefinition(ps[i]).Some? == side ==> i in Indices(ps, side)
    decreases |ps|
  {
    if ps != [] {
      var init, last := ps[..|ps| - 1], |ps| - 1;
      IndicesCover(init, side);
      forall i | 0 <= i < |ps| && MatchDefinition(ps[i]).Some? == side ensures i in Indices(ps, side) {
        if i < last {
          assert ps[i] == init[i] && i in Indices(init, side);
        }
      }
    }
  }

  /** The `k`-th definition is the match of the paragraph at the `k`-th matching index. */
  lemma {:induction false} DefinitionsAtIndices(ps: seq<string>)
    ensures var idx := Indices(ps, true);
      && |idx| == |Definitions(ps)|
      && forall k :: 0 <= k < |idx| && idx[k] < |ps| ==> MatchDefinition(ps[idx[k]]) == Some(Definitions(ps)[k])
    decreases |ps|
  {
    if ps != [] {
      var init, last := ps[..|ps| - 1], |ps| - 1;
      DefinitionsAtIndices(init);
      var idx0, idx := Indices(init, true), Indices(ps, true);
      var ds0, ds := Definitions(init), Definitions(ps);
      if MatchDefinition(ps[last]).Some? {
        assert idx == idx0 + [last] && ds == ds0 + [MatchDefinition(ps[last]).value];
      }
      forall k | 0 <= k < |idx| && idx[k] < |ps| ensures MatchDefinition(ps[idx[k]]) == Some(ds[k]) {
        if k < |idx0| {
          IndicesInOrder(init, true);
          assert idx[k] == idx0[k] && ds[k] == ds0[k] && ps[idx0[k]] == init[idx0[k]];
        }
      }
    }
  }

  /** The `k`-th prose paragraph is the paragraph at the `k`-th non-matching index. */
  lemma {:induction false} ProseAtIndices(ps: seq<string>)
    ensures var idx := Indices(ps, false);
      && |idx| == |Prose(ps)|
      && forall k :: 0 <= k < |idx| && idx[k] < |ps| ==> Prose(ps)[k] == ps[idx[k]]
    decreases |ps|
  {
    if ps != [] {
      var init, last := ps[..|ps| - 1], |ps| - 1;
      ProseAtIndices(init);
      var idx0, idx := Indices(init, false), Indices(ps, false);
      var prose0, prose := Prose(init), Prose(ps);
      if MatchDefinition(ps[last]).None? {
        assert idx == idx0 + [last] && prose == prose0 + [ps[last]];
      }
      forall k | 0 <= k < |idx| && idx[k] < |ps| ensures prose[k] == ps[idx[k]] {
        if k < |idx0| {
          IndicesInOrder(init, false);
          assert idx[k] == idx0[k] && prose[k] == prose0[k] && ps[idx0[k]] == init[idx0[k]];
        }
      }
    }
  }

  /**
   * The definitions and the prose partition the paragraphs, each side keeping
   * the paragraphs' order: there are increasing index lists, one per side,
   * that together list every paragraph, such that the `k`-th definition is the
   * match of the paragraph at the `k`-th definition index and the `k`-th prose
   * paragraph is the paragraph at the `k`-th prose index.
   */
  lemma ClassificationIndices(ps: seq<string>)
    ensures exists di, pi :: ClassifiedBy(ps, di, pi, Definitions(ps), Prose(ps))
  {
    IndicesInOrder(ps, true);
    IndicesInOrder(ps, false);
    IndicesCover(ps, true);
    IndicesCover(ps, false);
    DefinitionsAtIndices(ps);
    ProseAtIndices(ps);
    assert ClassifiedBy(ps, Indices(ps, true), Indices(ps, false), Definitions(ps), Prose(ps));
  }

  /**
   * `FindTerms`: splits the text into paragraphs, sets the definitions aside,
   * joins the rest with blank lines, and resolves the definitions against the
   * references in that text.
   */
  method FindTerms(text: string, splitter: WordSplitter) returns (terms: seq<Term>, nonDefinitionText: string)
    ensures nonDefinitionText == Join(Prose(Paragraphs(text)), "\n\n")
    ensures IsResolution(terms, ReferenceMap(ScanReferences(nonDefinitionText, 0)), Definitions(Paragraphs(text)), splitter)
    ensures |terms| <= |Definitions(Paragraphs(text))|
    ensures forall k1, k2 :: 0 <= k1 < k2 < |terms| ==> terms[k1].reference != terms[k2].reference
  {
    var termDefinitions, nonDefinitionParagraphs := ClassifyParagraphs(Paragraphs(text));
    nonDefinitionText := Join(nonDefinitionParagraphs, "\n\n");
    var references := TermTexts(nonDefinitionText);
    terms := MatchedTermDefinitions(references, termDefinitions, splitter);
  }

  /**
   * The loop of `FindTerms` over the paragraphs: each one goes to the term
   * definitions when the definition pattern matches it, otherwise to the prose.
   */
  method ClassifyParagraphs(paragraphs: seq<string>) returns (termDefinitions: seq<Definition>, nonDefinitionParagraphs: seq<string>)
    ensures termDefinitions == Definitions(paragraphs)
    ensures nonDefinitionParagraphs == Prose(paragraphs)
  {
    termDefinitions := [];
    nonDefinitionParagraphs := [];
    for i := 0 to |paragraphs|
      invariant termDefinitions == Definitions(paragraphs[..i])
      invariant nonDefinitionParagraphs == Prose(paragraphs[..i])
    {
      var paragraph := paragraphs[i];
      ClassifyNext(paragraphs, i);
      var match_ := MatchDefinition(paragraph);
      if match_.Some? {
        termDefinitions := termDefinitions + [match_.value];
      } else {
        nonDefinitionParagraphs := nonDefinitionParagraphs + [paragraph];
      }
    }
    assert paragraphs[..|paragraphs|] == paragraphs;
  }

  /** Each piece of a cut text occurs in it. */
  lemma {:induction false} InterleaveHoldsPieces(pieces: seq<string>, seps: seq<string>, k: nat)
    requires |pieces| == |seps| + 1 && k < |pieces|
    ensures Contains(Interleave(pieces, seps), pieces[k])
    decreases |seps|
  {
    var s := Interleave(pieces, seps);
    if seps == [] {
      assert s[0..|s|] == s;
      assert OccursAt(s, 0, pieces[k]);
    } else if k == 0 {
      assert s[0..|pieces[0]|] == pieces[0];
      assert OccursAt(s, 0, pieces[0]);
    } else {
      InterleaveHoldsPieces(pieces[1..], seps[1..], k - 1);
      var rest := Interleave(pieces[1..], seps[1..]);
      var i: nat :| i <= |rest| && OccursAt(rest, i, pieces[k]);
      var offset := |pieces[0]| + |seps[0]|;
      assert s[offset..|s|] == rest;
      OccursInSlice(s, offset, |s|, i, pieces[k]);
    }
  }

  /**
   * With the Japanese splitter, a split that is not a manual split is a piece
   * of the term's text: one to five characters, none of them `\s`.
   */
  lemma JapaneseSplitsComeFromText(text: string, manual: set<string>, order: seq<string>, x: string)
    requires NonEmptyAlternatives(order)
    requires x in TermSplits(text, manual, order, JapaneseWordSplitter) && x !in manual
    ensures 1 <= |x| <= 5 && NoAsciiSpace(x) && Contains(text, x)
  {
    var c := CutFrom(text, order, 0, 0);
    CutSpellsText(text, order, 0, 0);
    SplitterOutputMembers(c.pieces, JapaneseWordSplitter, x);
    var k :| 0 <= k < |c.pieces| && c.pieces[k] != [] && x in JapaneseWordSplitter(c.pieces[k]);
    var piece := c.pieces[k];
    var tokens := JapaneseSplit(piece);
    var m :| 0 <= m < |tokens| && tokens[m] == x;
    assert OccursAt(piece, TokenSpans(piece, 0)[m].start, x);
    InterleaveHoldsPieces(c.pieces, c.matched, k);
    assert text[0..] == text;
    ContainsTransitive(text, piece, x);
    forall i | 0 <= i < |x| ensures !IsAsciiSpace(x[i]) {
      TokensAreWordChars(piece, m, i);
    }
  }

  /**
   * A term's splits hold every manual split of its definition and no empty
   * string, whatever order the manual splits were listed in.
   */
  lemma TermSplitsProperties(term: Term, references: map<string, string>, d: Definition, splitter: WordSplitter)
    requires IsTermOf(term, references, d, splitter)
    ensures ManualSplitSet(d.manualSplits) <= term.splits
    ensures [] !in term.splits
  {
    var manual := ManualSplitSet(d.manualSplits);
    var order :| IsListing(order, manual) && NonEmptyAlternatives(order)
      && term.splits == TermSplits(term.text, manual, order, splitter);
  }

  /**
   * With the Japanese splitter, every split of a term that is not one of its
   * manual splits is a substring of the term's text, of one to five characters
   * and without `\s`.
   */
  lemma JapaneseTermSplits(term: Term, references: map<string, string>, d: Definition)
    requires IsTermOf(term, references, d, JapaneseWordSplitter)
    ensures forall x :: x in term.splits && x !in ManualSplitSet(d.manualSplits) ==>
      1 <= |x| <= 5 && NoAsciiSpace(x) && Contains(term.text, x)
  {
    var manual := ManualSplitSet(d.manualSplits);
    var order :| IsListing(order, manual) && NonEmptyAlternatives(order)
      && term.splits == TermSplits(term.text, manual, order, JapaneseWordSplitter);
    forall x | x in term.splits && x !in manual
      ensures 1 <= |x| <= 5 && NoAsciiSpace(x) && Contains(term.text, x)
    {
      JapaneseSplitsComeFromText(term.text, manual, order, x);
    }
  }
}
