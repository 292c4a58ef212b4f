# mcdef in Dafny

`mcdef` turns a text that contains study terms into study-card `Term`s. The
syntax is close to markdown reference links:

- **Prose** cites a term as `[display]`, `[display][]` or `[display][name]`.
- **A definition paragraph** starts a term's definition with `[name]: /split/split` and continues with its body.

`FindTerms` does the following:

1. It cuts the text into paragraphs at blank lines.
2. It sets aside the paragraphs that hold a definition.
3. It joins the rest back together with `"\n\n"`. This is the prose.
4. It reads the references out of the prose.
5. It turns each definition whose name is cited into a `Term`. The term gets the cited display text, the trimmed body and its *splits*. The splits are:
   - the manual splits listed after the `/`;
   - what a `WordSplitter` makes of the parts of the text between their occurrences.

The model follows the package's single file, `mcdef.go`, module by module.

- `Text` (text.dfy) holds what the package borrows from Go's `strings` package:
  - `TrimSpace`, with Go's Unicode notion of space;
  - `Split` on `/`, and `Join`;
  - the regular-expression class `\s`, which is ASCII only;
  - substring occurrence.
- The four regular expressions become hand-written recognisers. Each follows the leftmost-first, greedy choice of Go's engine for that one pattern. Lemmas state that choice without reference to the recogniser's code:
  - `ParagraphSplitting`: `\s*\n\s*\n` and `Regexp.Split` (`FindSeparatorSpec`);
  - `DefinitionPattern`: the unanchored definition pattern and its three groups (`MatchDefinitionChoosesHead`, `GroupsRebuild`);
  - `References`: the reference pattern with `FindAllStringSubmatch`, and `termTexts` (`TokenAtIsLongestMatch`, `ScanReferencesIsScan`);
  - `WordSplitting`: the pattern of `JapaneseWordSplitter` (`TokenLengthIsFirstAlternative`, `WordCharsCovered`).
- `ManualSplits` holds `splitBySeparator` and `unsplitParts`. The cut at an alternation of literal strings is a function `CutFrom`. It is proved to lose nothing, to leave no split inside a piece, and, for prefix-free splits, not to depend on the order of the alternation.
- `Terms` holds the following:
  - `FindTerms`, `matchedTermDefinitions` and the splits loop, as methods whose loops are proved against specification functions:
    - `Paragraphs`, `Definitions` and `Prose`;
    - `ReferenceMap` and `TermSplits`;
    - the predicate `IsResolution`. It says which definitions yield terms, and in what order.
  - The lemmas about those specification functions.
- `WorkedCases` restates cases from the package's test on the model.

Go's map iteration order decides two things:

- **The alternation order of the manual splits.** It is an arbitrary listing: a `:|` choice in `UnsplitParts`, and an `exists` in `IsTermOf`.
- **The order of `Term.Splits`.** It is a `set`.

Strings are sequences of code points.

The model keeps two behaviours of the code that a summary of the package easily gets wrong:

- A definition head is found anywhere in a paragraph, not only at its start, because the pattern is not anchored.
- Manual splits are added to a term's splits even when they do not occur in its text. So only the splitter's contributions are substrings of the text (`Terms.JapaneseTermSplits`).

## Model

| member | source | states |
|---|---|---|
| Text.TrimSpace | mcdef.go:129 | the result has no Unicode space at either end, and every character of it is a character of the input |
| Text.TrimSpaceCutsSpace | mcdef.go:129 | the result is the input with only Unicode space cut from the front and from the back |
| Text.TrimSpaceOfTrimmed | mcdef.go:148 | trimming a string that has no space at either end leaves it unchanged |
| Text.SplitOn | mcdef.go:127 | `strings.Split` on one character gives one more piece than there are separators, and no piece holds the separator |
| Text.Join | mcdef.go:62 | `strings.Join` of at least one part is as long as all the parts together plus one separator between each two |
| Text.JoinSplitOn | mcdef.go:127 | joining the pieces with the separator gives the original string back |
| Text.SpaceRunEnd | mcdef.go:17 | the end of the run of `\s` characters at a position: everything before it is `\s`, and the character there is not |
| Text.NonSpaceRunEnd | mcdef.go:18 | the end of the run of non-`\s` characters at a position, where `\S+` stops |
| ParagraphSplitting.FindSeparator | mcdef.go:17 | a match found is a non-empty stretch of the text at or after the scan position |
| ParagraphSplitting.LastNewline | mcdef.go:17 | the last newline of a stretch, with no newline after it in the stretch, or none |
| ParagraphSplitting.FindSeparatorSpec | mcdef.go:17 | the match found is a separator. No separator starts earlier. None that starts at the same place is longer. When nothing is found, no separator occurs at all |
| ParagraphSplitting.SeparatorAtRunStart | mcdef.go:17 | in a whitespace run with two newlines, the match runs from the run's start to its last newline and no further |
| ParagraphSplitting.SplitFrom | mcdef.go:47 | `Split(text, -1)` yields one more paragraph than separators |
| ParagraphSplitting.SplitRebuildsText | mcdef.go:47 | the paragraphs interleaved with the separators rebuild the text |
| ParagraphSplitting.SplitSeparatorsMatch | mcdef.go:47 | every separator is a match of the pattern |
| ParagraphSplitting.SplitParagraphsHoldNoSeparator | mcdef.go:47 | no paragraph holds a match of the pattern |
| ParagraphSplitting.Paragraphs | mcdef.go:47 | there is always at least one paragraph |
| ParagraphSplitting.ParagraphsHoldNoSeparator | mcdef.go:47 | no paragraph holds a blank-line separator |
| ParagraphSplitting.ParagraphsRebuildText | mcdef.go:47 | the paragraphs and the separators between them give back the whole text |
| ParagraphSplitting.NoBlankLineOneParagraph | mcdef.go:47 | a text without a blank line is a single paragraph, itself |
| DefinitionPattern.LongestHead | mcdef.go:18 | `\S+` backtracking: the longest name length, up to a bound, with which `[name]:` then `/` follows |
| DefinitionPattern.NoHeadPastRun | mcdef.go:18 | a name never runs past the non-`\s` run after the bracket |
| DefinitionPattern.FindHead | mcdef.go:18 | the leftmost start of a definition head, with its longest name; no head starts earlier; none at all when it returns nothing |
| DefinitionPattern.Groups | mcdef.go:18 | the groups of a match. The reference is the bracketed name, non-empty and without `\s`. The manual-split list has no `\s`. The body does not start with `\s`. Together they fit inside the paragraph |
| DefinitionPattern.GroupsRebuild | mcdef.go:18 | `[`, the reference, `]:`, whitespace, `/`, the manual splits, whitespace and the body spell the match from the head to the end of the paragraph, and the whitespace before the body is empty only when the body is. With the contract of `Groups`, this pins each group: the manual splits are the whole non-`\s` run after the `/`, and the body starts after the whitespace that follows |
| DefinitionPattern.MatchDefinition | mcdef.go:53 | a match's reference is non-empty and has no `\s`, and its manual-split list has no `\s`. Which head and which groups are stated by `MatchDefinitionChoosesHead` and `GroupsRebuild` |
| DefinitionPattern.MatchDefinitionChoosesHead | mcdef.go:53 | a paragraph is a definition exactly when it holds a definition head somewhere. The groups are those of the leftmost head with the longest name |
| References.CloseBracket | mcdef.go:16 | the first `]` at or after a position, or the end of the text: where `[^\]]` stops |
| References.CloseBracketFirst | mcdef.go:16 | any `]` with no `]` before it is the one `CloseBracket` finds |
| References.TokenAt | mcdef.go:16 | a match at a position is non-empty and inside the text. Its display is non-empty, and neither its display nor its name holds `]` |
| References.TokenAtShape | mcdef.go:16 | the text of a match is `[display]` with an empty name, or `[display][name]` |
| References.TokenAtIsToken | mcdef.go:16 | the text of a match is a reference token |
| References.LongerNotToken | mcdef.go:16 | no longer prefix at that position is a reference token |
| References.NoTokenAt | mcdef.go:16 | when there is no match at a position, no prefix there is a reference token |
| References.TokenAtIsLongestMatch | mcdef.go:16 | a match exists at a position exactly when some prefix there is a reference token, and the one returned is the longest |
| References.ScanReferences | mcdef.go:140 | every occurrence found has a non-empty display text, and neither part holds `]` |
| References.ScanReferencesIsScan | mcdef.go:140 | the occurrences are a left-to-right scan: each is the match taken at its start, each starts at or past the end of the one before, and at every position outside them there is no match, so no reference token starts there (`NoTokenAt`) |
| References.Key | mcdef.go:143-148 | the key is the trimmed name, or the trimmed display text when the name is empty |
| References.ReferenceMap | mcdef.go:142-150 | every key of the reference map is trimmed. Which keys, and which display text each gets, are stated by `ReferenceMapKeys` and `ReferenceMapLastWins` |
| References.ReferenceMapKeys | mcdef.go:142-150 | the map's keys are exactly the keys of the occurrences |
| References.ReferenceMapLastWins | mcdef.go:149 | a key maps to the display text of its last occurrence |
| References.TermTexts | mcdef.go:138-154 | the loop builds `ReferenceMap` of the occurrences, and every key is trimmed |
| ManualSplits.ManualSplitSet | mcdef.go:124-136 | every manual split is non-empty, trimmed and free of `/` |
| ManualSplits.SplitBySeparator | mcdef.go:124-136 | the loop returns exactly the trimmed, non-blank pieces between slashes |
| ManualSplits.SplitOnWithoutSeparator | mcdef.go:127 | a string without the separator is one piece |
| ManualSplits.SingleManualSplit | mcdef.go:127-133 | a list without `/` gives its trimmed self as the one split, or nothing when it is blank |
| ManualSplits.FirstAlternative | mcdef.go:117 | a found alternative is one of the alternatives at or after the starting index of the search |
| ManualSplits.FirstAlternativeSpec | mcdef.go:117 | the alternative found occurs at the position and none earlier in the alternation order does; when none is found, no alternative occurs there |
| ManualSplits.CutFrom | mcdef.go:116-118 | `Split(t, -1)` at the alternation yields one more piece than matches |
| ManualSplits.CutSpellsText | mcdef.go:118 | the pieces interleaved with the matched splits rebuild the text |
| ManualSplits.CutMatchesAlternatives | mcdef.go:117-118 | every match is one of the manual splits |
| ManualSplits.CutPiecesHoldNoAlternative | mcdef.go:117-118 | no piece contains any manual split |
| ManualSplits.CutWithoutAlternatives | mcdef.go:119-121 | without manual splits the only piece is the whole text |
| ManualSplits.FirstAlternativeAgrees | mcdef.go:111-117 | two listings of a prefix-free set of splits pick the same split at every position |
| ManualSplits.CutIndependentOfOrder | mcdef.go:110-118 | for prefix-free manual splits, the pieces and matches do not depend on the map's iteration order |
| ManualSplits.UnsplitParts | mcdef.go:109-122 | `definedSplits` lists every manual split once, and the parts are the cut of the text at that alternation |
| ManualSplits.SplitOnFirstPiece | mcdef.go:127 | the first piece of `strings.Split` is everything before the first separator, and the rest is the split of what follows it |
| ManualSplits.PiecesOfList | mcdef_test.go:83 | the list `密/林` (the `\/` of the pattern takes the first slash) splits at `/` into `密` and `林` |
| ManualSplits.ManualSplitsOfList | mcdef_test.go:83 | the manual splits of `密/林` are `密` and `林` |
| ManualSplits.PiecesOfTrailingSlash | mcdef_test.go:108 | the list `アンコー/ルワ/` splits into `アンコー`, `ルワ` and a blank last piece |
| ManualSplits.ManualSplitsDropBlank | mcdef_test.go:108 | the blank piece after the trailing slash is dropped: the manual splits of `アンコー/ルワ/` are `アンコー` and `ルワ` |
| WordSplitting.OtherRun | mcdef.go:19 | `{1,5}` greedy: the run of "other" characters at a position, capped at five, stops only at the cap, the end or another character |
| WordSplitting.TokenLength | mcdef.go:19 | a token is at most five characters, and there is none exactly when the character is neither ideograph, kana nor "other" |
| WordSplitting.TokenLengthIsFirstAlternative | mcdef.go:19 | no match exactly when no alternative matches; otherwise the length is one the first matching alternative accepts, and the longest one it accepts |
| WordSplitting.TokenChars | mcdef.go:19 | every character of a token is a word character, and only its first may be an ideograph |
| WordSplitting.TokenSpans | mcdef.go:41 | `FindAllString`: every match starts at or after the scan position, has its alternative's length, and the matches are in order and do not overlap |
| WordSplitting.WordCharsCovered | mcdef.go:41 | every character that some alternative accepts lies inside a match |
| WordSplitting.JapaneseSplit | mcdef.go:39-44 | the function `NewRegexWordSplitter` makes of the pattern of `JapaneseWordSplitter` (mcdef.go:19), which is the constant `WordSplitting.JapaneseWordSplitter`: one token per match, left to right, each the whole matched stretch of the word (as long as its match), 1 to 5 characters long |
| WordSplitting.TokensAreWordChars | mcdef.go:19 | no token holds a `\s` character |
| WordSplitting.IdeographSpan | mcdef.go:19 | the match that covers an ideograph is that character alone |
| WordSplitting.IdeographIsOwnToken | mcdef.go:19 | every ideograph in 一-龥 is a one-character token of its own |
| WordSplitting.KatakanaSpans | mcdef_test.go:56 | the matches in `マヘンドラパルバタ` are four pairs and one single |
| WordSplitting.KatakanaSlices | mcdef_test.go:56 | the matched stretches of `マヘンドラパルバタ` read `マヘ`, `ンド`, `ラパ`, `ルバ`, `タ` |
| WordSplitting.KatakanaInPairs | mcdef_test.go:56 | `マヘンドラパルバタ` splits into `マヘ`, `ンド`, `ラパ`, `ルバ`, `タ` |
| WordSplitting.IdeographSpans | mcdef_test.go:62-63 | the matches in `碑文` are one ideograph each |
| WordSplitting.IdeographsOneByOne | mcdef_test.go:62-63 | `碑文`, whose definition `[a]: /` lists no manual split, splits into `碑` and `文` |
| WordSplitting.OtherLengthsFirstWord | mcdef.go:19 | in `Angkor Wat` the first match takes five letters and the next one the sixth |
| WordSplitting.OtherLengthsSecondWord | mcdef.go:19 | in `Angkor Wat` nothing matches at the space, and `Wat` is one match |
| WordSplitting.OtherSpans | mcdef.go:19 | the matches in `Angkor Wat` are five letters, one letter, three letters, with the space skipped |
| WordSplitting.OthersUpToFive | mcdef.go:19 | `Angkor Wat` splits into `Angko`, `r`, `Wat`: up to five at a time, and `\s` is dropped |
| Terms.PieceSplits | mcdef.go:86-92 | the splitter's contribution for one piece never holds the empty string |
| Terms.SplitterOutput | mcdef.go:85-93 | the splitter's contribution for all pieces never holds the empty string |
| Terms.SplitterOutputMembers | mcdef.go:85-93 | a string is contributed exactly when it is non-empty and the splitter returns it for some non-empty piece |
| Terms.SplitterOutputOfEmptyPieces | mcdef.go:87 | empty pieces add nothing: the splitter is called only for a non-empty part |
| Terms.TermSplits | mcdef.go:80-93 | a term's splits hold every manual split, and every other split is non-empty |
| Terms.ProducingIndices | mcdef.go:95-103 | the definitions that yield a term are exactly those whose reference is cited and not used by an earlier definition, in increasing order |
| Terms.ResolvedMeansSeen | mcdef.go:95-101 | a cited reference is in `seenReferences` exactly when an earlier definition had it |
| Terms.FirstWithReference | mcdef.go:68 | every cited definition has a first definition of the same reference at or before it |
| Terms.ExtendResolution | mcdef.go:96-103 | the first definition of a cited reference appends its term |
| Terms.KeepResolution | mcdef.go:75-78 | a definition that is not cited, or whose reference was seen, adds no term |
| Terms.ResolutionProperties | mcdef.go:66-107 | no more terms than definitions, every term's reference is cited, no two terms share a reference, and every cited definition's reference has a term |
| Terms.TermSplitsProperties | mcdef.go:80-100 | whatever the listing order, a term's splits hold all its manual splits and no empty string |
| Terms.CollectSplits | mcdef.go:80-93 | the splits loop yields `TermSplits` for the listing `unsplitParts` chose |
| Terms.AddPieceSplits | mcdef.go:85-93 | the nested loops add exactly the splitter's non-empty pieces for the non-empty parts |
| Terms.MatchedTermDefinitions | mcdef.go:66-107 | the loop yields the resolution of the definitions, with at most one term per definition and distinct references |
| Terms.Definitions | mcdef.go:52-59 | at most one definition per paragraph; `ClassificationIndices` states which |
| Terms.Prose | mcdef.go:52-59 | at most one prose paragraph per paragraph; `ClassificationIndices` states which |
| Terms.ClassifyParagraphs | mcdef.go:52-59 | the loop over the paragraphs yields exactly `Definitions` and `Prose` of them |
| Terms.ClassificationPartitions | mcdef.go:49-60 | the number of definitions and the number of prose paragraphs add up to the number of paragraphs. Each prose paragraph is one of the paragraphs and has no definition head. Each definition is the match of one of the paragraphs |
| Terms.ClassificationIndices | mcdef.go:49-60 | there are two increasing index lists that together list every paragraph: the `k`-th definition is the match of the paragraph at the `k`-th definition index, and the `k`-th prose paragraph is the paragraph at the `k`-th prose index, which has no definition head |
| Terms.NoDefinitionsAllProse | mcdef.go:52-59 | with no definition paragraph, all paragraphs are prose, and there are no definitions and so no terms |
| Terms.FindTerms | mcdef.go:46-64 | the returned text is the prose joined with blank lines. The terms are the resolution of the definitions against the references in that text: at most one per definition, with distinct references |
| Terms.JapaneseSplitsComeFromText | mcdef.go:85-93 | with the Japanese splitter, every split that is not manual has 1 to 5 characters, has no `\s`, and occurs in the term's text |
| Terms.JapaneseTermSplits | mcdef.go:85-99 | the same, for every term a definition yields |
| WorkedCases.CutAfterMatch | mcdef.go:118 | the cut of `伝えられ` after `え` is the single piece `られ` |
| WorkedCases.OccurrencesInTermC | mcdef_test.go:97-98 | in `伝えられ`, `え` occurs at index 1 only |
| WorkedCases.CutOfTermC | mcdef_test.go:97-98 | `伝えられ` cut at `え` gives `伝` and `られ` |
| WorkedCases.SplitOfIdeograph | mcdef_test.go:55 | `伝` is one token |
| WorkedCases.SplitOfKanaPair | mcdef_test.go:55 | `られ` is one token |
| WorkedCases.SplitterOutputOfTermC | mcdef_test.go:55 | the splitter contributes `伝` and `られ` for the two pieces |
| WorkedCases.SplitsOfTermC | mcdef_test.go:55 | term `c` has the splits `え`, `伝`, `られ`, whatever the listing order |
| WorkedCases.ReferenceWithEmptyName | mcdef_test.go:104 | `[密林][]` is one occurrence with an empty name, and it maps `密林` to `密林` |
| WorkedCases.AdjacentReferences | mcdef_test.go:106 | `[碑文][a][伝えられ][c]` is two occurrences, back to back |
| WorkedCases.AdjacentReferencesMap | mcdef_test.go:106 | they map `a` to `碑文` and `c` to `伝えられ` |
| WorkedCases.DefinitionOfMitsurinHead | mcdef_test.go:83 | a paragraph that starts with the line `[密林]: /密/林` matches with the reference `密林`, the manual-split list `密/林` and the next line on as body |
| WorkedCases.DefinitionOfMitsurin | mcdef_test.go:83-85 | the definition paragraph of `密林` matches with the body the test expects, which trimming leaves alone |
| WorkedCases.CutOfMitsurin | mcdef_test.go:60-61 | `密林` cut at `密` and `林` leaves three empty pieces |
| WorkedCases.NoSplitterOutputForMitsurin | mcdef_test.go:60-61 | the splitter adds nothing for those pieces |
| WorkedCases.SplitsOfMitsurin | mcdef_test.go:60-61 | term `密林` has the splits `密` and `林`, whatever the listing order |
| WorkedCases.TermOfMitsurin | mcdef_test.go:60-61 | the term `密林` the test expects is what the definition of `密林` yields against `[密林][]` |
| WorkedCases.DefinitionOfTermAHead | mcdef_test.go:100 | a paragraph that starts with the line `[a]: /` matches with the reference `a`, an empty manual-split list and the next line on as body |
| WorkedCases.DefinitionOfTermA | mcdef_test.go:100-102 | the definition paragraph of `a` matches with the body the test expects, which trimming leaves alone |
| WorkedCases.NoManualSplits | mcdef_test.go:100 | an empty list has no manual split |
| WorkedCases.SplitterOutputOfTermA | mcdef_test.go:62-63 | the splitter adds `碑` and `文` for the single piece `碑文` |
| WorkedCases.SplitsOfTermA | mcdef_test.go:62-63 | term `a` has the splits `碑` and `文` |
| WorkedCases.TermOfTermA | mcdef_test.go:62-63 | the term `碑文` the test expects is what the definition `[a]: /` yields against `[碑文][a]` |
| WorkedCases.SplitterOutputOfTermB | mcdef_test.go:56 | the splitter adds the five katakana tokens for the single piece `マヘンドラパルバタ` |
| WorkedCases.SplitsOfTermB | mcdef_test.go:56 | term `b`, whose definition `[b]: /` lists no manual split, has the splits `マヘ`, `ンド`, `ラパ`, `ルバ`, `タ` |
| WorkedCases.CutOfAngkorWat | mcdef_test.go:57-59 | `アンコールワット` cut at `アンコー` and `ルワ` gives two empty pieces and `ット` |
| WorkedCases.SplitOfSmallTsu | mcdef_test.go:59 | `ット` is one token |
| WorkedCases.SplitterOutputOfAngkorWat | mcdef_test.go:59 | the splitter adds only `ット` for those pieces |
| WorkedCases.SplitsOfAngkorWat | mcdef_test.go:57-59 | term `アンコールワット` has the splits `アンコー`, `ルワ` and `ット`, whatever the listing order |

## Left out

- Go's `regexp` engine, `regexp.MustCompile` and `regexp.QuoteMeta` are not modelled as such. Each of the four patterns is a recogniser for that pattern only. The manual splits are matched as literal strings, which is what quoting achieves.
- UTF-8 bytes and the replacement of invalid UTF-8 are left out. Strings are sequences of code points, and `len(x) > 0` is non-emptiness.
- The order of `Term.Splits` is not modelled; it is a set. So is Go's distinction between a nil and an empty `Splits`.
- The concrete alternation order in `unsplitParts` is not modelled; the model takes an arbitrary listing.
- `WordSplitter`, `WordSplitterFunc.SplitWord` and `NewRegexWordSplitter` are a function value `string -> seq<string>`. Interface dispatch adds nothing beyond that value.
- `FindTerms`: the `paragraphs != nil` guard is not modelled. `Regexp.Split(text, -1)` with this pattern always returns at least one paragraph (`Paragraphs` ensures it), so the guard always holds.
- `termTexts`: the `if referenceDefinitions != nil` guard is not modelled either. An empty scan and a nil scan both leave the map empty.
- ManualSplits.UnsplitParts: it requires every manual split to be non-empty. Its only caller passes the output of `splitBySeparator`, which never holds the empty string. Go's handling of empty matches in `Regexp.Split` is not modelled.
- The splits loop of `matchedTermDefinitions` is written as a method of its own, `Terms.CollectSplits`, with its nested loops over the parts in `Terms.AddPieceSplits`. Like the Go code, it runs for every cited definition, including one whose reference was already seen. The paragraph loop of `FindTerms` is likewise its own method, `Terms.ClassifyParagraphs`.
- `TestFindTermsIssue` is left out. It expects two empty terms, while the code yields one term for `else`, so it records an open issue rather than a promise of the code.
- The `termParsingXml` fixture is left out: no code reads it.
- The test harness is left out (testify, `fmt`, `findTerm`).
- The package's test is not replayed as a whole: the cut of its text into paragraphs and the scan of its whole prose are not worked out on the model. `WorkedCases` works out the splits of all five expected terms (`SplitsOfTermC`, `SplitsOfTermB`, `SplitsOfAngkorWat`, `SplitsOfMitsurin`, `SplitsOfTermA`), the definition paragraphs of `密林` and `a` and the terms they yield (`TermOfMitsurin`, `TermOfTermA`), and two stretches of the prose (`ReferenceWithEmptyName`, `AdjacentReferences`).
