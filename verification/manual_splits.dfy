/**
 * The manual-split helpers: `splitBySeparator` reads the `/`-separated list
 * of a definition (mcdef.go:124-136), and `unsplitParts` cuts a term's text at
 * every occurrence of one of those splits (mcdef.go:109-122).
 */
module ManualSplits {
  import opened Options
  import opened Text

  /** The set `splitBySeparator(t)` builds: every piece between slashes, trimmed, unless it trims to nothing. */
  function ManualSplitSet(t: string): (r: set<string>)
    ensures forall x :: x in r ==> x != [] && IsTrimmed(x) && '/' !in x
  {
    KeptSplits(SplitOn(t, '/'))
  }

  /** The trimmed pieces that are not blank. */
  function KeptSplits(pieces: seq<string>): set<string> {
    set piece | piece in pieces && TrimSpace(piece) != [] :: TrimSpace(piece)
  }

  /** One more piece adds its trimmed text, unless it is blank. */
  lemma KeptSplitsStep(pieces: seq<string>, i: nat)
    requires i < |pieces|
    ensures KeptSplits(pieces[..i + 1]) ==
      KeptSplits(pieces[..i]) + (if TrimSpace(pieces[i]) != [] then {TrimSpace(pieces[i])} else {})
  {
    assert pieces[..i + 1] == pieces[..i] + [pieces[i]];
  }

  /**
   * `splitBySeparator`: splits at `/`, trims each piece with `strings.TrimSpace`
   * and records the non-empty ones in the result map (here a set).
   */
  method SplitBySeparator(t: string) returns (result: set<string>)
    ensures result == ManualSplitSet(t)
  {
    result := {};
    var pieces := SplitOn(t, '/');
    for i := 0 to |pieces|
      invariant result == KeptSplits(pieces[..i])
    {
      var piece := TrimSpace(pieces[i]);
      if |piece| > 0 {
        result := result + {piece};
      }
      KeptSplitsStep(pieces, i);
    }
    assert pieces[..|pieces|] == pieces;
  }

  /** A string without the separator is a single piece. */
  lemma {:induction false} SplitOnWithoutSeparator(s: string, sep: char)
    requires sep !in s
    ensures SplitOn(s, sep) == [s]
    decreases |s|
  {
    if s != [] {
      SplitOnWithoutSeparator(s[1..], sep);
      assert [s[0]] + s[1..] == s;
    }
  }

  /** The first piece is everything before the first separator; the rest is split on its own. */
  lemma {:induction false} SplitOnFirstPiece(a: string, sep: char, rest: string)
    requires sep !in a
    ensures SplitOn(a + [sep] + rest, sep) == [a] + SplitOn(rest, sep)
    decreases |a|
  {
    var s := a + [sep] + rest;
    if a == [] {
      assert s[1..] == rest;
    } else {
      assert s[1..] == a[1..] + [sep] + rest;
      SplitOnFirstPiece(a[1..], sep, rest);
      assert [a[0]] + a[1..] == a;
    }
  }

  /** A list without a slash is a single split, or none when it is blank. */
  lemma SingleManualSplit(t: string)
    requires '/' !in t
    ensures ManualSplitSet(t) == (if TrimSpace(t) == [] then {} else {TrimSpace(t)})
  {
    SplitOnWithoutSeparator(t, '/');
  }

  /** `alternatives` is the list the map's keys were put in: each key once, nothing else. */
  ghost predicate IsListing(alternatives: seq<string>, keys: set<string>) {
    && (forall i, j :: 0 <= i < j < |alternatives| ==> alternatives[i] != alternatives[j])
    && (forall x :: x in keys <==> x in alternatives)
  }

  /** None of the alternatives is the empty string (true of every `ManualSplitSet`). */
  predicate NonEmptyAlternatives(alternatives: seq<string>) {
    forall a :: a in alternatives ==> a != []
  }

  /**
   * The first alternative, in the order of the alternation, that occurs at
   * `pos`, looking from index `j` on: leftmost-first matching of a literal
   * alternation prefers the earlier branch.
   */
  function FirstAlternative(t: string, pos: nat, alternatives: seq<string>, j: nat): (r: Option<nat>)
    requires j <= |alternatives|
    ensures r.Some? ==> j <= r.value < |alternatives|
    decreases |alternatives| - j
  {
    if j == |alternatives| then None
    else if OccursAt(t, pos, alternatives[j]) then Some(j)
    else FirstAlternative(t, pos, alternatives, j + 1)
  }

  /**
   * `FirstAlternative` finds an alternative that occurs at `pos` and none
   * before it, or reports that none from `j` on occurs there.
   */
  lemma {:induction false} FirstAlternativeSpec(t: string, pos: nat, alternatives: seq<string>, j: nat)
    requires j <= |alternatives|
    ensures var r := FirstAlternative(t, pos, alternatives, j);
      && (r.Some? ==> OccursAt(t, pos, alternatives[r.value]))
      && (r.Some? ==> forall i :: j <= i < r.value ==> !OccursAt(t, pos, alternatives[i]))
      && (r.None? ==> forall i :: j <= i < |alternatives| ==> !OccursAt(t, pos, alternatives[i]))
    decreases |alternatives| - j
  {
    if j < |alternatives| && !OccursAt(t, pos, alternatives[j]) {
      FirstAlternativeSpec(t, pos, alternatives, j + 1);
    }
  }

  /** No alternative occurs at a start index in `[lo, hi)`. */
  predicate NoMatchIn(t: string, alternatives: seq<string>, lo: nat, hi: nat) {
    forall q, a :: lo <= q < hi && a in alternatives ==> !OccursAt(t, q, a)
  }

  /** The pieces of the text and the alternatives matched between them. */
  datatype Cut = Cut(pieces: seq<string>, matched: seq<string>)

  /** An occurrence inside `s[a..b]` is an occurrence in `s`, and back. */
  lemma SliceOccurrence(s: string, a: nat, b: nat, i: nat, x: string)
    requires a <= b <= |s| && i + |x| <= b - a
    ensures OccursAt(s[a..b], i, x) <==> OccursAt(s, a + i, x)
  {
    var u := s[a..b];
    forall k | i <= k < i + |x| ensures u[k] == s[a + k] {
    }
    assert u[i..i + |x|] == s[a + i..a + i + |x|];
  }

  /** A stretch the scan passed over holds no alternative. */
  lemma PieceHoldsNoAlternative(t: string, alternatives: seq<string>, from: nat, pos: nat)
    requires from <= pos <= |t| && NonEmptyAlternatives(alternatives) && NoMatchIn(t, alternatives, from, pos)
    ensures forall a :: a in alternatives ==> !Contains(t[from..pos], a)
  {
    var piece := t[from..pos];
    forall a, i: nat | a in alternatives && i <= |piece| ensures !OccursAt(piece, i, a) {
      if i + |a| <= |piece| {
        SliceOccurrence(t, from, pos, i, a);
      }
    }
  }

  /**
   * `Regexp.Split(t, -1)` for the alternation of the literal `alternatives`,
   * cutting from `from` with the scan at `pos`: at each position the first
   * alternative that occurs there is cut out and the scan resumes after it;
   * with no match left the rest is the last piece.
   */
  function CutFrom(t: string, alternatives: seq<string>, from: nat, pos: nat): (c: Cut)
    requires from <= pos <= |t| && NonEmptyAlternatives(alternatives)
    ensures |c.pieces| == |c.matched| + 1
    decreases |t| - pos
  {
    if pos == |t| then
      Cut([t[from..]], [])
    else
      match FirstAlternative(t, pos, alternatives, 0)
      case None => CutFrom(t, alternatives, from, pos + 1)
      case Some(j) =>
        var m := alternatives[j];
        assert m in alternatives;
        FirstAlternativeSpec(t, pos, alternatives, 0);
        var rest := CutFrom(t, alternatives, pos + |m|, pos + |m|);
        Cut([t[from..pos]] + rest.pieces, [m] + rest.matched)
  }

  /** Without alternatives nothing is cut: the single piece is the text (the `[]string{t}` branch). */
  lemma {:induction false} CutWithoutAlternatives(t: string, from: nat, pos: nat)
    requires from <= pos <= |t|
    ensures CutFrom(t, [], from, pos).pieces == [t[from..]]
    decreases |t| - pos
  {
    if pos < |t| {
      CutWithoutAlternatives(t, from, pos + 1);
    }
  }

  /** One step of the scan where an alternative occurs: the piece before it, then the cut of what follows it. */
  lemma CutAtMatch(t: string, alternatives: seq<string>, from: nat, pos: nat, j: nat)
    requires from <= pos < |t| && NonEmptyAlternatives(alternatives)
    requires FirstAlternative(t, pos, alternatives, 0) == Some(j)
    ensures var m := alternatives[j];
      OccursAt(t, pos, m) &&
      var rest := CutFrom(t, alternatives, pos + |m|, pos + |m|);
      CutFrom(t, alternatives, from, pos) == Cut([t[from..pos]] + rest.pieces, [m] + rest.matched)
  {
    assert alternatives[j] in alternatives;
    FirstAlternativeSpec(t, pos, alternatives, 0);
  }

  /** One step of the scan where no alternative occurs: the cut goes on from the next position. */
  lemma CutPastNoMatch(t: string, alternatives: seq<string>, from: nat, pos: nat)
    requires from <= pos < |t| && NonEmptyAlternatives(alternatives)
    requires FirstAlternative(t, pos, alternatives, 0).None?
    ensures CutFrom(t, alternatives, from, pos) == CutFrom(t, alternatives, from, pos + 1)
  {
  }

  /** The pieces of the cut and the matches between them spell the text from `from` on. */
  lemma {:induction false} CutSpellsText(t: string, alternatives: seq<string>, from: nat, pos: nat)
    requires from <= pos <= |t| && NonEmptyAlternatives(alternatives)
    ensures var c := CutFrom(t, alternatives, from, pos); Interleave(c.pieces, c.matched) == t[from..]
    decreases |t| - pos
  {
    if pos == |t| {
      assert CutFrom(t, alternatives, from, pos) == Cut([t[from..]], []);
    } else {
      match FirstAlternative(t, pos, alternatives, 0)
      case None =>
        CutPastNoMatch(t, alternatives, from, pos);
        CutSpellsText(t, alternatives, from, pos + 1);
        var c := CutFrom(t, alternatives, from, pos);
        assert Interleave(c.pieces, c.matched) == t[from..];
      case Some(j) =>
        CutAtMatch(t, alternatives, from, pos, j);
        var m := alternatives[j];
        CutSpellsText(t, alternatives, pos + |m|, pos + |m|);
        var rest := CutFrom(t, alternatives, pos + |m|, pos + |m|);
        InterleaveCons(t[from..pos], m, rest.pieces, rest.matched);
        AroundOccurrence(t, from, pos, m);
        var c := CutFrom(t, alternatives, from, pos);
        assert c == Cut([t[from..pos]] + rest.pieces, [m] + rest.matched);
        assert Interleave(c.pieces, c.matched) == t[from..];
    }
  }

  /** Every match of the cut is one of the alternatives. */
  lemma {:induction false} CutMatchesAlternatives(t: string, alternatives: seq<string>, from: nat, pos: nat)
    requires from <= pos <= |t| && NonEmptyAlternatives(alternatives)
    ensures var c := CutFrom(t, alternatives, from, pos);
      forall k :: 0 <= k < |c.matched| ==> c.matched[k] in alternatives
    decreases |t| - pos
  {
    if pos < |t| {
      match FirstAlternative(t, pos, alternatives, 0)
      case None =>
        CutPastNoMatch(t, alternatives, from, pos);
        CutMatchesAlternatives(t, alternatives, from, pos + 1);
      case Some(j) =>
        CutAtMatch(t, alternatives, from, pos, j);
        var m := alternatives[j];
        CutMatchesAlternatives(t, alternatives, pos + |m|, pos + |m|);
        var c := CutFrom(t, alternatives, from, pos);
        assert c.matched[1..] == CutFrom(t, alternatives, pos + |m|, pos + |m|).matched;
    }
  }

  /**
   * No piece of the cut holds an alternative, when none starts in the stretch
   * `[from, pos)` the scan has already passed.
   */
  lemma {:induction false} CutPiecesHoldNoAlternative(t: string, alternatives: seq<string>, from: nat, pos: nat)
    requires from <= pos <= |t|
    requires NonEmptyAlternatives(alternatives) && NoMatchIn(t, alternatives, from, pos)
    ensures var c := CutFrom(t, alternatives, from, pos);
      forall k, a :: 0 <= k < |c.pieces| && a in alternatives ==> !Contains(c.pieces[k], a)
    decreases |t| - pos
  {
    if pos == |t| {
      PieceHoldsNoAlternative(t, alternatives, from, pos);
      assert t[from..pos] == t[from..];
    } else {
      match FirstAlternative(t, pos, alternatives, 0)
      case None =>
        CutPastNoMatch(t, alternatives, from, pos);
        FirstAlternativeSpec(t, pos, alternatives, 0);
        assert NoMatchIn(t, alternatives, from, pos + 1);
        CutPiecesHoldNoAlternative(t, alternatives, from, pos + 1);
      case Some(j) =>
        CutAtMatch(t, alternatives, from, pos, j);
        var m := alternatives[j];
        CutPiecesHoldNoAlternative(t, alternatives, pos + |m|, pos + |m|);
        PieceHoldsNoAlternative(t, alternatives, from, pos);
        var c := CutFrom(t, alternatives, from, pos);
        assert c.pieces[1..] == CutFrom(t, alternatives, pos + |m|, pos + |m|).pieces;
    }
  }

  /** No alternative is a proper prefix of another. */
  predicate PrefixFree(keys: set<string>) {
    forall a, b :: a in keys && b in keys && a != b ==> !(a <= b)
  }
  /** Two splits, neither a prefix of the other, are prefix-free. */
  lemma PrefixFreePair(a: string, b: string)
    requires !(a <= b) && !(b <= a)
    ensures PrefixFree({a, b})
  {
  }


  /** Two alternatives that both occur at `pos` are equal or one is a prefix of the other. */
  lemma OccurrencesAtSamePosition(t: string, pos: nat, x: string, y: string)
    requires OccursAt(t, pos, x) && OccursAt(t, pos, y) && |x| <= |y|
    ensures x <= y
  {
    assert y[..|x|] == t[pos..pos + |x|];
  }

  /** At one position, two listings of a prefix-free set pick the same alternative, or none. */
  lemma FirstAlternativeAgrees(t: string, pos: nat, o1: seq<string>, o2: seq<string>)
    requires forall x :: x in o1 <==> x in o2
    requires PrefixFree(set x | x in o1)
    ensures FirstAlternative(t, pos, o1, 0).None? <==> FirstAlternative(t, pos, o2, 0).None?
    ensures FirstAlternative(t, pos, o1, 0).Some? ==>
      o1[FirstAlternative(t, pos, o1, 0).value] == o2[FirstAlternative(t, pos, o2, 0).value]
  {
    var r1 := FirstAlternative(t, pos, o1, 0);
    var r2 := FirstAlternative(t, pos, o2, 0);
    FirstAlternativeSpec(t, pos, o1, 0);
    FirstAlternativeSpec(t, pos, o2, 0);
    if r2.Some? {
      assert o2[r2.value] in o1;
    }
    if r1.Some? {
      var x := o1[r1.value];
      assert x in o2;
      var i :| 0 <= i < |o2| && o2[i] == x;
      assert r2.Some?;
      var y := o2[r2.value];
      assert y in o1;
      var keys := set z | z in o1;
      assert x in keys && y in keys;
      if |x| <= |y| {
        OccurrencesAtSamePosition(t, pos, x, y);
      } else {
        OccurrencesAtSamePosition(t, pos, y, x);
      }
    }
  }

  /**
   * The order of the alternation, which comes from Go's map iteration, does not
   * change the cut when no manual split is a prefix of another.
   */
  lemma {:induction false} CutIndependentOfOrder(t: string, o1: seq<string>, o2: seq<string>, from: nat, pos: nat)
    requires from <= pos <= |t|
    requires forall x :: x in o1 <==> x in o2
    requires PrefixFree(set x | x in o1)
    requires NonEmptyAlternatives(o1) && NonEmptyAlternatives(o2)
    ensures CutFrom(t, o1, from, pos) == CutFrom(t, o2, from, pos)
    decreases |t| - pos
  {
    if pos < |t| {
      FirstAlternativeAgrees(t, pos, o1, o2);
      var r1 := FirstAlternative(t, pos, o1, 0);
      var r2 := FirstAlternative(t, pos, o2, 0);
      if r1.None? {
        CutPastNoMatch(t, o1, from, pos);
        CutPastNoMatch(t, o2, from, pos);
        CutIndependentOfOrder(t, o1, o2, from, pos + 1);
      } else {
        var m := o1[r1.value];
        assert m == o2[r2.value] && m in o1;
        CutAtMatch(t, o1, from, pos, r1.value);
        CutAtMatch(t, o2, from, pos, r2.value);
        CutIndependentOfOrder(t, o1, o2, pos + |m|, pos + |m|);
      }
    }
  }

  /**
   * `unsplitParts(t, manualSplits)`: lists the keys (in the map's iteration
   * order, an arbitrary one here), and cuts `t` at their alternation, or
   * returns `[t]` when there are none. `definedSplits` is that listing.
   */
  method UnsplitParts(t: string, manualSplits: set<string>) returns (parts: seq<string>, definedSplits: seq<string>)
    requires forall x :: x in manualSplits ==> x != []
    ensures IsListing(definedSplits, manualSplits)
    ensures parts == CutFrom(t, definedSplits, 0, 0).pieces
  {
    definedSplits := [];
    var remaining := manualSplits;
    while remaining != {}
      invariant forall i, j :: 0 <= i < j < |definedSplits| ==> definedSplits[i] != definedSplits[j]
      invariant forall x :: x in manualSplits <==> x in definedSplits || x in remaining
      invariant forall x :: x in definedSplits ==> x !in remaining
      decreases |remaining|
    {
      var x :| x in remaining;
      definedSplits := definedSplits + [x];
      remaining := remaining - {x};
    }
    if |definedSplits| > 0 {
      parts := CutFrom(t, definedSplits, 0, 0).pieces;
    } else {
      CutWithoutAlternatives(t, 0, 0);
      assert t[0..] == t;
      parts := [t];
    }
  }

  /** The pieces of `密/林` between slashes (the list of the term `密林` in the package's test). */
  lemma PiecesOfList()
    ensures SplitOn("密/林", '/') == ["密", "林"]
  {
    assert "密/林" == "密" + ['/'] + "林";
    SplitOnFirstPiece("密", '/', "林");
    SplitOnWithoutSeparator("林", '/');
  }

  /** The manual splits of `密/林` are its two pieces. */
  lemma ManualSplitsOfList()
    ensures ManualSplitSet("密/林") == {"密", "林"}
  {
    PiecesOfList();
    TrimSpaceOfTrimmed("密");
    TrimSpaceOfTrimmed("林");
  }

  /** The pieces of `アンコー/ルワ/` (the term `アンコールワット`): the trailing slash leaves a blank last piece. */
  lemma PiecesOfTrailingSlash()
    ensures SplitOn("アンコー/ルワ/", '/') == ["アンコー", "ルワ", []]
  {
    assert "アンコー/ルワ/" == "アンコー" + ['/'] + ("ルワ" + ['/'] + []);
    TwoPiecesAndBlank("アンコー", "ルワ", '/');
  }

  /** Two pieces, each followed by the separator, split into those two and a blank. */
  lemma TwoPiecesAndBlank(a: string, b: string, sep: char)
    requires sep !in a && sep !in b
    ensures SplitOn(a + [sep] + (b + [sep] + []), sep) == [a, b, []]
  {
    SplitOnFirstPiece(a, sep, b + [sep] + []);
    SplitOnFirstPiece(b, sep, []);
  }

  /** The blank piece after the trailing slash is dropped: the manual splits are `アンコー` and `ルワ`. */
  lemma ManualSplitsDropBlank()
    ensures ManualSplitSet("アンコー/ルワ/") == {"アンコー", "ルワ"}
  {
    PiecesOfTrailingSlash();
    KeptSplitsDropLast("アンコー", "ルワ");
  }

  /** Two trimmed, non-blank pieces and a blank one keep the two. */
  lemma KeptSplitsDropLast(a: string, b: string)
    requires a != [] && b != [] && IsTrimmed(a) && IsTrimmed(b)
    ensures KeptSplits([a, b, []]) == {a, b}
  {
    TrimSpaceOfTrimmed(a);
    TrimSpaceOfTrimmed(b);
    TrimSpaceOfTrimmed([]);
  }
}
