/**
 * Worked cases from the package's test (mcdef_test.go), stated on the model:
 * the splits of the terms `c` (`伝えられ`, manual split `え`), `b`
 * (`マヘンドラパルバタ`, none), `アンコールワット` (`アンコー/ルワ/`), `密林`
 * (`密/林`) and `a` (`碑文`, none); the definition paragraphs of `密林` and
 * `a`, and the terms they yield; and the references `[密林][]` and
 * `[碑文][a][伝えられ][c]`.
 */
module WorkedCases {
  import opened Options
  import opened Text
  import opened DefinitionPattern
  import opened References
  import opened ManualSplits
  import opened WordSplitting
  import opened Terms

  /** `え` is not at index 0 of `伝えられ`, is at index 1, and not at 2 or 3. */
  lemma OccurrencesInTermC()
    ensures !OccursAt("伝えられ", 0, "え") && OccursAt("伝えられ", 1, "え")
    ensures !OccursAt("伝えられ", 2, "え") && !OccursAt("伝えられ", 3, "え")
  {
    var t := "伝えられ";
    assert t[0..1][0] == '伝' && t[2..3][0] == 'ら' && t[3..4][0] == 'れ';
    assert t[1..2] == "え";
  }

  /** After the match, the scan finds nothing more: the rest is one piece. */
  lemma CutAfterMatch()
    ensures CutFrom("伝えられ", ["え"], 2, 2).pieces == ["られ"]
  {
    var t := "伝えられ";
    var o := ["え"];
    OccurrencesInTermC();
    assert FirstAlternative(t, 3, o, 0).None?;
    assert CutFrom(t, o, 2, 3) == CutFrom(t, o, 2, 4);
    assert FirstAlternative(t, 2, o, 0).None?;
    assert CutFrom(t, o, 2, 2) == CutFrom(t, o, 2, 3);
    assert t[2..] == "られ";
  }

  /** `unsplitParts("伝えられ", {え})` cuts the text into `伝` and `られ`. */
  lemma CutOfTermC()
    ensures CutFrom("伝えられ", ["え"], 0, 0).pieces == ["伝", "られ"]
  {
    var t := "伝えられ";
    var o := ["え"];
    OccurrencesInTermC();
    assert FirstAlternative(t, 1, o, 0) == Some(0);
    CutAtMatch(t, o, 0, 1, 0);
    CutAfterMatch();
    assert CutFrom(t, o, 0, 1).pieces == [t[0..1]] + ["られ"];
    assert FirstAlternative(t, 0, o, 0).None?;
    assert CutFrom(t, o, 0, 0) == CutFrom(t, o, 0, 1);
    assert t[0..1] == "伝";
  }

  /** The ideograph `伝` is one token. */
  lemma SplitOfIdeograph()
    ensures JapaneseSplit("伝") == ["伝"]
  {
    var w := "伝";
    assert IsIdeograph(w[0]);
    assert TokenLength(w, 0) == 1;
    assert TokenSpans(w, 1) == [];
    assert TokenSpans(w, 0) == [Span(0, 1)];
    assert w[0..1] == w;
  }

  /** The two kana `られ` are one token. */
  lemma SplitOfKanaPair()
    ensures JapaneseSplit("られ") == ["られ"]
  {
    var w := "られ";
    assert IsKana(w[0]) && IsKana(w[1]);
    assert TokenLength(w, 0) == 2;
    assert TokenSpans(w, 2) == [];
    assert TokenSpans(w, 0) == [Span(0, 2)];
    assert w[0..2] == w;
  }

  /** What the splitter adds for the pieces `伝` and `られ`. */
  lemma SplitterOutputOfTermC()
    ensures SplitterOutput(["伝", "られ"], JapaneseWordSplitter) == {"伝", "られ"}
  {
    SplitOfIdeograph();
    SplitOfKanaPair();
    var pieces := ["伝", "られ"];
    assert pieces[..1] == ["伝"] && pieces[..1][..0] == [];
    assert PieceSplits("伝", JapaneseWordSplitter) == {"伝"};
    assert PieceSplits("られ", JapaneseWordSplitter) == {"られ"};
  }

  /**
   * The splits of term `c` in the package's test: the manual split `え`, then
   * `伝` and `られ` from the splitter, for any listing of the manual splits.
   */
  lemma SplitsOfTermC(order: seq<string>)
    requires IsListing(order, {"え"})
    ensures NonEmptyAlternatives(order)
    ensures TermSplits("伝えられ", {"え"}, order, JapaneseWordSplitter) == {"え", "伝", "られ"}
  {
    var t := "伝えられ";
    assert forall x :: x in order <==> x in ["え"];
    assert (set x | x in order) == {"え"};
    CutIndependentOfOrder(t, order, ["え"], 0, 0);
    CutOfTermC();
    SplitterOutputOfTermC();
  }

  /** `[密林][]`: the name is empty, so the key is the display text. */
  lemma ReferenceWithEmptyName()
    ensures ScanReferences("[密林][]", 0) == [Occurrence("密林", [])]
    ensures ReferenceMap(ScanReferences("[密林][]", 0)) == map["密林" := "密林"]
  {
    var s := "[密林][]";
    assert s[1..3] == "密林";
    CloseBracketFirst(s, 1, 3);
    CloseBracketFirst(s, 5, 5);
    assert TokenAt(s, 0) == Some(TokenMatch(Occurrence("密林", []), 6));
    assert ScanReferences(s, 6) == [];
    TrimSpaceOfTrimmed("密林");
  }

  /** The body of the definition of `密林` (mcdef_test.go:84-85). */
  const MitsurinBody := "みつ‐りん【密林】\n樹木などがすきまのないほど生い茂っている林。"

  /**
   * A paragraph `[密林]: /密/林` with a body on the next line: the name is
   * `密林`, the `\/` takes the first slash, so the manual-split list is
   * `密/林`, and the newline after it is the whitespace before the body.
   */
  lemma DefinitionOfMitsurinHead(body: string)
    requires body != [] && !IsAsciiSpace(body[0])
    ensures MatchDefinition("[密林]: /密/林\n" + body) == Some(Definition("密林", "密/林", body))
  {
    var s := "[密林]: /密/林\n" + body;
    assert MitsurinHeadLine(s);
    RunsOfMitsurin(s);
    HeadOfMitsurin(s);
    GroupsOfMitsurin(s);
    assert s[11..] == body;
  }

  /** `s` starts with the line `[密林]: /密/林` and its newline, and the next character is not `\s`. */
  predicate MitsurinHeadLine(s: string) {
    && |s| > 11
    && s[0] == '[' && s[1] == '密' && s[2] == '林' && s[3] == ']' && s[4] == ':' && s[5] == ' '
    && s[6] == '/' && s[7] == '密' && s[8] == '/' && s[9] == '林' && s[10] == '\n'
    && !IsAsciiSpace(s[11])
  }

  /** Where the `\s` and non-`\s` runs of such a paragraph end. */
  lemma RunsOfMitsurin(s: string)
    requires MitsurinHeadLine(s)
    ensures NonSpaceRunEnd(s, 1) == 5 && SpaceRunEnd(s, 5) == 6
    ensures NonSpaceRunEnd(s, 7) == 10 && SpaceRunEnd(s, 10) == 11
  {
    assert NonSpaceRunEnd(s, 5) == 5;
    assert NonSpaceRunEnd(s, 3) == 5;
    assert SpaceRunEnd(s, 6) == 6;
    assert NonSpaceRunEnd(s, 10) == 10;
    assert NonSpaceRunEnd(s, 8) == 10;
    assert SpaceRunEnd(s, 11) == 11;
  }

  /** The head of such a paragraph is at its start, with the two-character name. */
  lemma HeadOfMitsurin(s: string)
    requires MitsurinHeadLine(s)
    requires NonSpaceRunEnd(s, 1) == 5 && SpaceRunEnd(s, 5) == 6
    ensures FindHead(s, 0) == Some((0, 2))
  {
    assert s[1..3] == "密林";
    assert !HeadAt(s, 0, 4) && !HeadAt(s, 0, 3);
    assert HeadAt(s, 0, 2);
  }

  /** The groups of that head: the name, the list `密/林`, and the rest. */
  lemma GroupsOfMitsurin(s: string)
    requires MitsurinHeadLine(s)
    requires NonSpaceRunEnd(s, 1) == 5 && SpaceRunEnd(s, 5) == 6
    requires NonSpaceRunEnd(s, 7) == 10 && SpaceRunEnd(s, 10) == 11
    ensures HeadAt(s, 0, 2) && Groups(s, 0, 2) == Definition("密林", "密/林", s[11..])
  {
    assert s[1..3] == "密林" && s[7..10] == "密/林";
  }

  /** The definition of `密林` in the package's test, and its body is already trimmed. */
  lemma DefinitionOfMitsurin()
    ensures MatchDefinition("[密林]: /密/林\n" + MitsurinBody) == Some(Definition("密林", "密/林", MitsurinBody))
    ensures TrimSpace(MitsurinBody) == MitsurinBody
  {
    DefinitionOfMitsurinHead(MitsurinBody);
    TrimSpaceOfTrimmed(MitsurinBody);
  }

  /** `密林` cut at `密` and `林`: both matches leave empty pieces, three of them. */
  lemma CutOfMitsurin()
    ensures CutFrom("密林", ["密", "林"], 0, 0).pieces == [[], [], []]
  {
    var t := "密林";
    var o := ["密", "林"];
    assert t[0..1] == "密" && t[1..2] == "林";
    assert |t| == 2 && t[2..] == [];
    assert CutFrom(t, o, 2, 2).pieces == [[]];
    assert FirstAlternative(t, 1, o, 0) == Some(1);
    CutAtMatch(t, o, 1, 1, 1);
    assert o[1] == "林" && |o[1]| == 1 && t[1..1] == [];
    assert CutFrom(t, o, 1, 1).pieces == [[], []];
    assert FirstAlternative(t, 0, o, 0) == Some(0);
    CutAtMatch(t, o, 0, 0, 0);
    assert o[0] == "密" && |o[0]| == 1 && t[0..0] == [];
  }

  /**
   * The splits of the term `密林` in the package's test, whatever the listing
   * order: the manual splits `密` and `林`, and nothing from the splitter,
   * which is never called because every piece is empty.
   */
  lemma SplitsOfMitsurin(order: seq<string>)
    requires IsListing(order, ManualSplitSet("密/林"))
    ensures NonEmptyAlternatives(order)
    ensures TermSplits("密林", ManualSplitSet("密/林"), order, JapaneseWordSplitter) == {"密", "林"}
  {
    ManualSplitsOfList();
    assert "密"[0] != "林"[0];
    ListingOfPair(order, "密", "林");
    CutIndependentOfOrder("密林", order, ["密", "林"], 0, 0);
    NoSplitterOutputForMitsurin();
  }

  /** The splitter adds nothing for the three empty pieces of `密林`. */
  lemma NoSplitterOutputForMitsurin()
    ensures SplitterOutput(CutFrom("密林", ["密", "林"], 0, 0).pieces, JapaneseWordSplitter) == {}
  {
    CutOfMitsurin();
    var pieces: seq<string> := [[], [], []];
    assert forall k :: 0 <= k < |pieces| ==> pieces[k] == [];
    SplitterOutputOfEmptyPieces(pieces, JapaneseWordSplitter);
  }

  /**
   * The term `密林` expected by the package's test is what the definition
   * `[密林]: /密/林` yields against the reference `[密林][]`.
   */
  lemma TermOfMitsurin()
    ensures IsTermOf(Term("密林", "密林", MitsurinBody, {"密", "林"}), map["密林" := "密林"],
      Definition("密林", "密/林", MitsurinBody), JapaneseWordSplitter)
  {
    TrimSpaceOfTrimmed(MitsurinBody);
    TermOfMitsurinWithBody(MitsurinBody);
  }

  /** The same for any body that trimming leaves alone. */
  lemma TermOfMitsurinWithBody(body: string)
    requires TrimSpace(body) == body
    ensures IsTermOf(Term("密林", "密林", body, {"密", "林"}), map["密林" := "密林"],
      Definition("密林", "密/林", body), JapaneseWordSplitter)
  {
    var order := ["密", "林"];
    ManualSplitsOfList();
    SplitsOfMitsurin(order);
    assert IsListing(order, ManualSplitSet("密/林"));
  }

  /** The body of the definition `[a]` (mcdef_test.go:101-102), with the space that ends its first line. */
  const TermABody := "ひ‐ぶん【碑文】 \n石碑に彫りつけた文章。碑銘。"

  /** `s` starts with the line `[a]: /` and its newline, and the next character is not `\s`. */
  predicate TermAHeadLine(s: string) {
    && |s| > 7
    && s[0] == '[' && s[1] == 'a' && s[2] == ']' && s[3] == ':' && s[4] == ' ' && s[5] == '/' && s[6] == '\n'
    && !IsAsciiSpace(s[7])
  }

  /** Where the `\s` and non-`\s` runs of such a paragraph end. */
  lemma RunsOfTermA(s: string)
    requires TermAHeadLine(s)
    ensures NonSpaceRunEnd(s, 1) == 4 && SpaceRunEnd(s, 4) == 5
    ensures NonSpaceRunEnd(s, 6) == 6 && SpaceRunEnd(s, 6) == 7
  {
    assert NonSpaceRunEnd(s, 4) == 4;
    assert SpaceRunEnd(s, 5) == 5;
    assert SpaceRunEnd(s, 7) == 7;
  }

  /** The head of such a paragraph is at its start, with the one-letter name. */
  lemma HeadOfTermA(s: string)
    requires TermAHeadLine(s)
    requires NonSpaceRunEnd(s, 1) == 4 && SpaceRunEnd(s, 4) == 5
    ensures FindHead(s, 0) == Some((0, 1))
  {
    assert s[1..2] == "a";
    assert !HeadAt(s, 0, 3) && !HeadAt(s, 0, 2);
    assert HeadAt(s, 0, 1);
  }

  /** The groups of that head: the name `a`, an empty list, and the rest. */
  lemma GroupsOfTermA(s: string)
    requires TermAHeadLine(s)
    requires NonSpaceRunEnd(s, 1) == 4 && SpaceRunEnd(s, 4) == 5
    requires NonSpaceRunEnd(s, 6) == 6 && SpaceRunEnd(s, 6) == 7
    ensures HeadAt(s, 0, 1) && Groups(s, 0, 1) == Definition("a", "", s[7..])
  {
    assert s[1..2] == "a" && s[6..6] == "";
  }

  /**
   * A paragraph `[a]: /` with a body on the next line: nothing follows the
   * slash, so the manual-split list is empty, and the body starts on the next line.
   */
  lemma DefinitionOfTermAHead(body: string)
    requires body != [] && !IsAsciiSpace(body[0])
    ensures MatchDefinition("[a]: /\n" + body) == Some(Definition("a", "", body))
  {
    var s := "[a]: /\n" + body;
    assert TermAHeadLine(s);
    RunsOfTermA(s);
    HeadOfTermA(s);
    GroupsOfTermA(s);
    assert s[7..] == body;
  }

  /** The definition `[a]` in the package's test, and its body is already trimmed. */
  lemma DefinitionOfTermA()
    ensures MatchDefinition("[a]: /\n" + TermABody) == Some(Definition("a", "", TermABody))
    ensures TrimSpace(TermABody) == TermABody
  {
    DefinitionOfTermAHead(TermABody);
    TrimSpaceOfTrimmed(TermABody);
  }

  /** An empty list, as after `[a]: /`, has no manual split. */
  lemma NoManualSplits()
    ensures ManualSplitSet("") == {}
  {
    SingleManualSplit("");
    TrimSpaceOfTrimmed("");
  }

  /**
   * The splits of the term `碑文`: with no manual split the text is one piece,
   * and the splitter takes its ideographs one by one.
   */
  lemma SplitsOfTermA()
    ensures TermSplits("碑文", {}, [], JapaneseWordSplitter) == {"碑", "文"}
  {
    CutWithoutAlternatives("碑文", 0, 0);
    assert "碑文"[0..] == "碑文";
    SplitterOutputOfTermA();
  }

  /** For the single piece `碑文`, the splitter adds its two ideographs. */
  lemma SplitterOutputOfTermA()
    ensures SplitterOutput(["碑文"], JapaneseWordSplitter) == {"碑", "文"}
  {
    IdeographsOneByOne();
    var pieces := ["碑文"];
    assert pieces[..0] == [];
    assert PieceSplits("碑文", JapaneseWordSplitter) == {"碑", "文"};
  }

  /** The term `碑文` expected by the package's test is what `[a]: /` yields against `[碑文][a]`. */
  lemma TermOfTermA()
    ensures IsTermOf(Term("碑文", "a", TermABody, {"碑", "文"}), map["a" := "碑文"],
      Definition("a", "", TermABody), JapaneseWordSplitter)
  {
    TrimSpaceOfTrimmed(TermABody);
    TermOfTermAWithBody(TermABody);
  }

  /** The same for any body that trimming leaves alone. */
  lemma TermOfTermAWithBody(body: string)
    requires TrimSpace(body) == body
    ensures IsTermOf(Term("碑文", "a", body, {"碑", "文"}), map["a" := "碑文"],
      Definition("a", "", body), JapaneseWordSplitter)
  {
    var order: seq<string> := [];
    NoManualSplits();
    SplitsOfTermA();
    assert IsListing(order, ManualSplitSet(""));
  }

  /** For the single piece `マヘンドラパルバタ`, the splitter adds its five tokens. */
  lemma SplitterOutputOfTermB()
    ensures SplitterOutput(["マヘンドラパルバタ"], JapaneseWordSplitter) == {"マヘ", "ンド", "ラパ", "ルバ", "タ"}
  {
    KatakanaInPairs();
    var pieces := ["マヘンドラパルバタ"];
    assert pieces[..0] == [];
    FiveTokens("マヘ", "ンド", "ラパ", "ルバ", "タ");
  }

  /** Five non-empty tokens are kept, each once. */
  lemma FiveTokens(a: string, b: string, c: string, d: string, e: string)
    requires a != [] && b != [] && c != [] && d != [] && e != []
    ensures (set x | x in [a, b, c, d, e] && x != []) == {a, b, c, d, e}
  {
  }

  /** The splits of the term `b` (`[b]: /`, no manual split): the katakana in pairs. */
  lemma SplitsOfTermB()
    ensures TermSplits("マヘンドラパルバタ", {}, [], JapaneseWordSplitter) == {"マヘ", "ンド", "ラパ", "ルバ", "タ"}
  {
    CutWithoutAlternatives("マヘンドラパルバタ", 0, 0);
    assert "マヘンドラパルバタ"[0..] == "マヘンドラパルバタ";
    SplitterOutputOfTermB();
  }

  /**
   * `アンコールワット` cut at `アンコー` and `ルワ`: two empty pieces, then `ット`,
   * the part no manual split covers.
   */
  lemma CutOfAngkorWat()
    ensures CutFrom("アンコールワット", ["アンコー", "ルワ"], 0, 0).pieces == [[], [], "ット"]
  {
    var t := "アンコールワット";
    var o := ["アンコー", "ルワ"];
    assert t[6..] == "ット";
    assert CutFrom(t, o, 6, 8).pieces == ["ット"];
    assert FirstAlternative(t, 7, o, 0).None?;
    CutPastNoMatch(t, o, 6, 7);
    assert t[6..8][0] != "ルワ"[0];
    assert FirstAlternative(t, 6, o, 0).None?;
    CutPastNoMatch(t, o, 6, 6);
    assert t[4..6] == "ルワ" && t[4..8][0] != "アンコー"[0];
    assert FirstAlternative(t, 4, o, 0) == Some(1);
    CutAtMatch(t, o, 4, 4, 1);
    assert |o[1]| == 2 && t[4..4] == [];
    assert CutFrom(t, o, 4, 4).pieces == [[], "ット"];
    assert t[0..4] == "アンコー";
    assert FirstAlternative(t, 0, o, 0) == Some(0);
    CutAtMatch(t, o, 0, 0, 0);
    assert |o[0]| == 4 && t[0..0] == [];
  }

  /** The two katakana `ット` are one token. */
  lemma SplitOfSmallTsu()
    ensures JapaneseSplit("ット") == ["ット"]
  {
    var w := "ット";
    assert IsKana(w[0]) && IsKana(w[1]);
    assert TokenLength(w, 0) == 2;
    assert TokenSpans(w, 2) == [];
    assert TokenSpans(w, 0) == [Span(0, 2)];
    assert w[0..2] == w;
  }

  /** For the pieces of `アンコールワット`, the splitter adds only `ット`. */
  lemma SplitterOutputOfAngkorWat()
    ensures SplitterOutput(CutFrom("アンコールワット", ["アンコー", "ルワ"], 0, 0).pieces, JapaneseWordSplitter) == {"ット"}
  {
    CutOfAngkorWat();
    SplitOfSmallTsu();
    var pieces: seq<string> := [[], [], "ット"];
    var empties := pieces[..2];
    assert forall k :: 0 <= k < |empties| ==> empties[k] == [];
    SplitterOutputOfEmptyPieces(empties, JapaneseWordSplitter);
    assert PieceSplits("ット", JapaneseWordSplitter) == {"ット"};
  }

  /**
   * The splits of the term `アンコールワット` in the package's test, whatever
   * the listing order: the manual splits `アンコー` and `ルワ` (the blank after
   * the trailing slash dropped), and `ット` from the splitter.
   */
  lemma SplitsOfAngkorWat(order: seq<string>)
    requires IsListing(order, ManualSplitSet("アンコー/ルワ/"))
    ensures NonEmptyAlternatives(order)
    ensures TermSplits("アンコールワット", ManualSplitSet("アンコー/ルワ/"), order, JapaneseWordSplitter)
      == {"アンコー", "ルワ", "ット"}
  {
    ManualSplitsDropBlank();
    assert "アンコー"[0] != "ルワ"[0];
    ListingOfPair(order, "アンコー", "ルワ");
    CutIndependentOfOrder("アンコールワット", order, ["アンコー", "ルワ"], 0, 0);
    SplitterOutputOfAngkorWat();
  }

  /** Any listing of two non-empty splits, neither a prefix of the other, can stand in for `[a, b]`. */
  lemma ListingOfPair(order: seq<string>, a: string, b: string)
    requires IsListing(order, {a, b}) && a != [] && b != [] && !(a <= b) && !(b <= a)
    ensures NonEmptyAlternatives(order) && NonEmptyAlternatives([a, b])
    ensures forall x :: x in order <==> x in [a, b]
    ensures PrefixFree(set x | x in order)
  {
    assert (set x | x in order) == {a, b};
    PrefixFreePair(a, b);
  }

  /** `[碑文][a][伝えられ][c]` (mcdef_test.go:106): two references back to back. */
  lemma AdjacentReferences()
    ensures ScanReferences("[碑文][a][伝えられ][c]", 0) == [Occurrence("碑文", "a"), Occurrence("伝えられ", "c")]
  {
    var s := "[碑文][a][伝えられ][c]";
    AdjacentTokens(s);
    assert ScanReferences(s, 16) == [];
  }

  /** The two tokens of that text, and where each ends. */
  lemma AdjacentTokens(s: string)
    requires s == "[碑文][a][伝えられ][c]"
    ensures TokenAt(s, 0) == Some(TokenMatch(Occurrence("碑文", "a"), 7))
    ensures TokenAt(s, 7) == Some(TokenMatch(Occurrence("伝えられ", "c"), 16))
  {
    assert s[1..3] == "碑文" && s[5..6] == "a" && s[8..12] == "伝えられ" && s[14..15] == "c";
    CloseBracketFirst(s, 1, 3);
    CloseBracketFirst(s, 5, 6);
    CloseBracketFirst(s, 8, 12);
    CloseBracketFirst(s, 14, 15);
  }

  /** Each of the two is keyed by its name. */
  lemma AdjacentReferencesMap()
    ensures ReferenceMap(ScanReferences("[碑文][a][伝えられ][c]", 0)) == map["a" := "碑文", "c" := "伝えられ"]
  {
    AdjacentReferences();
    TrimSpaceOfTrimmed("a");
    TrimSpaceOfTrimmed("c");
    var occs := [Occurrence("碑文", "a"), Occurrence("伝えられ", "c")];
    assert Key(occs[0]) == "a" && Key(occs[1]) == "c";
    assert occs[..1] == [occs[0]] && occs[..1][..0] == [];
  }
}
