# iTerm2 text extractor, modelled in Dafny

A model of iTerm2's `iTermTextExtractor`: the object that reads a terminal's
screen grid and answers structural questions about it. It steps between
coordinates and searches. It finds words, bracketed substrings, line lengths
and indentation. It maps visual to logical coordinates for bidirectional lines.
It extracts the text of a range under a null-cell policy, with a provenance
coordinate for every character.

The model is built from the declarations and doc comments of
`sources/iTermTextExtractor.h`; the implementation file is not part of this
model. Where the header states a behaviour, the model follows it. Where it is
silent, the model takes the simplest reading and says so below.

Modules:

- `Grid` (`grid.dfy`): the data source as an immutable value.
  - The grid is a width and lines of cells, each line with a soft-wrap flag.
  - It holds one lookup table (logical to visual column) per bidi line.
  - A cell has a code, a null flag and a flag for the right half of a double-width character (DWC).
  - Also here: the column window, coordinates, windowed ranges and the `(-1,-1,-1,-1)` invalid range.
- `Walker` (`walker.dfy`): successor and predecessor, with and without skipping nulls, plus the pure specifications of `searchFrom:` and `rangeOfCoordinatesAround:`.
- `Stepping` (`stepping.dfy`): `coord:plus:skippingCoords:forward:` as a specification.
- `Coordinates` (`coordinates.dfy`): DWC-aware coordinate equality, the bidi mappings and absolute-line variants.
- `Segmenter` (`segmenter.dfy`): line length, indentation, bracket matching, and word and big-word ranges.
- `Content` (`content.dfy`): `enumerateCharsInRange:` as a stream of events, and `contentInRange:` as a left fold of that stream.
  - The fold applies the null policy.
  - Truncation and trimming follow.
  - Lemmas cover each policy, the size cap and provenance.
- `Extractor` (`extractor.dfy`): the class `TextExtractor`.
  - It holds the data source and the mutable `logicalWindow` and `supportBidi`.
  - Its methods scan with loops and are proved equal to the specification functions above.

Reading choices:

- The null-policy names (lines 21-26) and the description of `contentInRange:` (lines 120-121) agree with each other:
  - `FromStartToFirst` keeps content before the first null;
  - `FromLastToEnd` keeps content from the last null on.
  - The enum's own comments say the reverse; see Findings.
- Line 120 says content is returned "ignoring hard newlines", but `includeLastNewline` (line 137) only has meaning if hard line ends produce newlines. The model writes a newline at every hard line end except the last, and at the last one only with `includeLastNewline`. Soft-wrapped line ends produce nothing.
- A null cell inside a line is a midline null. A run of nulls that ends the visited part of a line is a terminal run, reported with the line end, as the `numPrecedingNulls` argument of the end-of-line callback (line 170) suggests.
  - `TreatAsSpace` writes one space per midline null and one space for a whole terminal run.
  - `MidlineAsSpaceIgnoreTerminal` writes nothing for a terminal run.
- Truncation to `maxBytes` is applied after the walk; the head is kept when `truncateTail` is set.
- The size cap counts characters (UTF-16 units in iTerm2), here elements of a `string`.
- `trimTrailingWhitespace` removes the spaces and tabs that end each line, together with their provenance coordinates.
  - Those before a newline go when the newline is written.
  - Those at the very end of the text go after truncation.
- Provenance coordinates:
  - A written character points at its logical cell.
  - A space written for a midline null points at that null cell.
  - The one space written for a terminal run points at the run's first cell.
  - A newline points one past the last visited column of its row.
- An index set of coordinates (`coordsToSkip`, `continuationChars`) holds `x + y * width`.
- A continuation character is a backslash in the last column of traversal: the window's last column when a window is set, the grid's last column otherwise (`XLimit - 1`). It is collected when the caller asks for continuations.
- `restrictToLogicalWindowIncludingCoord:` treats a cell holding `|` as a column divider.
- `searchFrom:` examines the start coordinate first. It reports `(-1,-1)` when it reaches the first or last legal coordinate without a match.
- `rangeOfCoordinatesAround:` ranges and the word ranges are end-exclusive: the end is one past the last cell.
- Word and big-word ranges never cross a hard line end. Growth stops where the next step would cross from one row to another at a line that is not soft-wrapped (`Segmenter.IsHardBreak`).
- The header gives the bracket search no bound. The model gives up after `ParenthesisSearchLimit` = 10000 cells, counted from the bracket itself.

## Model

| member | source | states |
|---|---|---|
| Grid.CharacterAt | sources/iTermTextExtractor.h:195-197 | a coordinate outside the grid reads as a null cell |
| Walker.Successor | sources/iTermTextExtractor.h:88-89 | legal in, legal out; returns its argument exactly at the last legal coordinate; otherwise the next legal coordinate in reading order, with none in between |
| Walker.Predecessor | sources/iTermTextExtractor.h:88-94 | the mirror image: saturates exactly at the first legal coordinate, otherwise the immediately preceding legal coordinate |
| Walker.NthLegal | sources/iTermTextExtractor.h:88-94 | any number of steps from a legal coordinate stays legal |
| Walker.NthThereAndBack | sources/iTermTextExtractor.h:88-94 | n steps forward and n back return to the start when no step saturated |
| Walker.PredecessorOfSuccessor | sources/iTermTextExtractor.h:88-94 | stepping forward then back is the identity except at the last coordinate |
| Walker.SuccessorSkippingContiguousNulls | sources/iTermTextExtractor.h:90-91 | legal result on the same line or at the start of the next; every legal cell skipped over is null; a same-line result is not null; no movement exactly at the last coordinate |
| Walker.PredecessorSkippingContiguousNulls | sources/iTermTextExtractor.h:95-96 | the mirror image: never past the end of the previous line, every skipped cell null |
| Coordinates.SuccessorOfAbsCoordSkippingContiguousNulls | sources/iTermTextExtractor.h:90-92 | the absolute-line variant: legal once made relative, same absolute line or the start of the next; no movement exactly at the last coordinate, otherwise strictly later; every legal cell skipped over is null; a result on the same line is not null |
| Coordinates.PredecessorOfAbsCoordSkippingContiguousNulls | sources/iTermTextExtractor.h:95-97 | the absolute-line variant going back: legal once made relative, never past the end of the previous line; no movement exactly at the first coordinate, otherwise strictly earlier; every legal cell skipped over is null; a result on the same line is not null |
| Walker.Search | sources/iTermTextExtractor.h:107-110 | a found coordinate is legal, passes the filter and lies at or beyond the start; no legal coordinate examined before it passes; `(-1,-1)` means none from the start to the end passes |
| Extractor.TextExtractor.SearchFrom | sources/iTermTextExtractor.h:107-110 | the cell-by-cell loop returns exactly `Search` |
| Walker.ReachIsMaximal | sources/iTermTextExtractor.h:229-235 | every step of one side of the walk moves and lands on a passing cell; the walk ends early only at a failing cell or where it cannot move |
| Walker.AroundRange | sources/iTermTextExtractor.h:229-235 | the range starts at or before the coordinate and its last cell is at or after it, both legal |
| Extractor.TextExtractor.WalkWhilePassing | sources/iTermTextExtractor.h:229-235 | the loop stops at the coordinate `Reach` steps away |
| Extractor.TextExtractor.RangeOfCoordinatesAround | sources/iTermTextExtractor.h:229-235 | the two loops build exactly `AroundRange` |
| Stepping.PlusSteps | sources/iTermTextExtractor.h:99-105 | the walk ends off the skip set; with a positive count it passed exactly that many unskipped coordinates; with zero it only left skipped ones; with nothing to skip it takes exactly `delta` steps |
| Stepping.Plus | sources/iTermTextExtractor.h:99-100 | the result stays inside the column window |
| Stepping.PlusSkipsWithoutCounting | sources/iTermTextExtractor.h:99-105 | the result is not skipped; for `delta != 0` exactly `abs(delta)` unskipped coordinates were passed; for `delta == 0` every coordinate before the result, from the start on, in the direction `forward` picks, was skipped |
| Stepping.PlusRoundTrip | sources/iTermTextExtractor.h:99-105 | with no skip set, `+delta` followed by `-delta` returns to the start |
| Stepping.WindowNthThereAndBack | sources/iTermTextExtractor.h:99-105 | window steps there and back cancel |
| Stepping.AheadShrinks | sources/iTermTextExtractor.h:99-105 | each step never adds skipped indexes ahead and removes the one it lands on, so the walk ends |
| Extractor.TextExtractor.CoordPlus | sources/iTermTextExtractor.h:102-105 | the stepping loop returns exactly `Plus` |
| Coordinates.IsEqualToCoord | sources/iTermTextExtractor.h:218-220 | true exactly for the same coordinate or for two horizontally adjacent cells whose right one is a DWC right half |
| Coordinates.IsEqualToCoordSymmetric | sources/iTermTextExtractor.h:218-220 | the relation is symmetric |
| Coordinates.VisualCoordForLogical | sources/iTermTextExtractor.h:242 | row kept; identity with bidi off and on lines without bidi information |
| Coordinates.LogicalCoordForVisualCoord | sources/iTermTextExtractor.h:246 | row kept; identity with bidi off; stays in the grid |
| Coordinates.LogicalOfVisual | sources/iTermTextExtractor.h:242-246 | on a permutation table, logical-of-visual is the identity |
| Coordinates.VisualOfLogical | sources/iTermTextExtractor.h:242-246 | on a permutation table, visual-of-logical is the identity |
| Content.EventsWithoutBidi | sources/iTermTextExtractor.h:160-162 | with bidi off every enumerated cell has equal logical and visual coordinates |
| Segmenter.LengthOfLine | sources/iTermTextExtractor.h:157 | every cell from the length on is null and the cell before it is not |
| Segmenter.LengthOfAbsLine | sources/iTermTextExtractor.h:157-158 | for an absolute line: every cell from the length on is null and the cell before it is not |
| Segmenter.StartOfIndentationOnLine | sources/iTermTextExtractor.h:237 | within the line's length; every earlier cell is a space, tab or null; the cell there is not |
| Segmenter.StartOfIndentationOnAbsLine | sources/iTermTextExtractor.h:237-238 | for an absolute line: within the line's length; every earlier cell is a space, tab or null; the cell there, when before the length, is not |
| Segmenter.Partner | sources/iTermTextExtractor.h:83-85 | an opener's partner is a closer and the reverse |
| Segmenter.MatchScan | sources/iTermTextExtractor.h:83-86 | a match it reports lies within the search limit and is the first step where the nesting depth returns to zero |
| Segmenter.MatchScanFinds | sources/iTermTextExtractor.h:83-86 | the scan misses nothing: when the depth first returns to zero within the search limit, the scan reports exactly that step |
| Segmenter.BracketMatch | sources/iTermTextExtractor.h:83-86 | a reported match lies within the search limit and is the first return of the depth to zero |
| Segmenter.BracketMatchIsComplete | sources/iTermTextExtractor.h:83-86 | at a bracket whose partner lies within the search limit, the search returns exactly that partner's distance |
| Segmenter.MatchEndsOnPartner | sources/iTermTextExtractor.h:83-86 | where the depth first returns to zero the walk stands on the partner bracket |
| Segmenter.RangeOfParentheticalSubstringAtLocation | sources/iTermTextExtractor.h:83-86 | invalid when the location is illegal or not a bracket; a valid result has both ends legal and ordered, an opener and its closer of the same kind, one of them at the location |
| Segmenter.ParentheticalIsBalanced | sources/iTermTextExtractor.h:83-86 | a valid range comes from a balanced walk: the depth stays positive until it first returns to zero at the partner |
| Segmenter.ParentheticalIsComplete | sources/iTermTextExtractor.h:83-86 | at a bracket whose partner lies within the search limit the range is the one up to that partner; the invalid range means no partner lies within the limit |
| Segmenter.WalkBack | sources/iTermTextExtractor.h:83-86 | walking back part of a walk that never saturated retraces it cell by cell |
| Segmenter.DepthReversed | sources/iTermTextExtractor.h:83-86 | read from the partner backwards with the two brackets' roles swapped, the depth after `k` cells is the forward depth after `n + 1 - k` |
| Segmenter.BalancedBackward | sources/iTermTextExtractor.h:83-86 | the partner's search, going the other way, is balanced after the same number of steps and ends on the starting bracket |
| Segmenter.ParentheticalIsSymmetric | sources/iTermTextExtractor.h:83-86 | a valid range is returned again when asked from its opener and from its closer |
| Segmenter.Extent | sources/iTermTextExtractor.h:49-52 | every cell the word grows over joins it, and it stops at the first that does not unless the maximum length stops it |
| Segmenter.RangeForWordAt | sources/iTermTextExtractor.h:49-54 | invalid exactly for an illegal location; at a bracket with a match the parenthetical range; otherwise legal ends; the range covers the location unless that is the right half of a double-width character |
| Segmenter.WordRangeIsMaximalRun | sources/iTermTextExtractor.h:49-54 | on a maximal single-class run shorter than the maximum length, the word range is exactly that run |
| Segmenter.RangeForBigWordAt | sources/iTermTextExtractor.h:58-60 | invalid exactly for an illegal location; otherwise legal ends and a range covering the location |
| Segmenter.GrownRangeIsRun | sources/iTermTextExtractor.h:49-60 | every cell a word range takes in joins the word; growth stops short of the maximum length only where the next step saturates, crosses a hard line end or reaches a cell that does not join |
| Segmenter.BigWordIsDelimited | sources/iTermTextExtractor.h:58-60 | every cell of the big word is on the location's side of the whitespace divide; the cell just past either end is on the other side (whitespace or null for a big word) unless the maximum length, an edge or a hard line end stopped it |
| Segmenter.BigWordRangeIsMaximalRun | sources/iTermTextExtractor.h:58-60 | on a maximal run on one side of the whitespace divide shorter than the maximum length, the big-word range is exactly that run |
| Content.TrailingNullsAreTerminalRun | sources/iTermTextExtractor.h:163-170 | the count the line end reports is exactly the terminal null run: all null, and the cell before it not |
| Content.RowEventsFaithful | sources/iTermTextExtractor.h:163-170 | each cell event of a row carries the cell at its logical coordinate; the row's line end names its row, says whether it ends hard, and locates a terminal null run on a null cell of the row |
| Content.EventsFaithful | sources/iTermTextExtractor.h:163-170 | every enumerated cell is the cell at its logical coordinate, which is where its visual coordinate maps; every line end is faithful to its row |
| Extractor.EnumerateRow | sources/iTermTextExtractor.h:163-170 | the row loops produce exactly the row's events |
| Extractor.EnumerateRows | sources/iTermTextExtractor.h:163-170 | the loop over the rows of the range produces exactly `Events` |
| Extractor.TextExtractor.EnumerateCharsInRange | sources/iTermTextExtractor.h:163-170 | the row-by-row loop produces exactly `Events` |
| Content.FoldStopped | sources/iTermTextExtractor.h:163-170 | once a callback stops the walk, the rest of the stream has no effect |
| Content.FoldAppend | sources/iTermTextExtractor.h:163-170 | folding a concatenation is folding the parts in turn |
| Content.FoldNeverStops | sources/iTermTextExtractor.h:21-26 | only `FromStartToFirst` ever stops the extraction |
| Content.FromStartToFirstStopsAtNull | sources/iTermTextExtractor.h:120-121 | under `FromStartToFirst` the output equals that of the events before any null event; nothing from the null on is used |
| Content.FromLastToEndStartsAtNull | sources/iTermTextExtractor.h:120-121 | under `FromLastToEnd` the text and coordinates equal those the stream from any null event on produces by itself |
| Content.SurvivorsDecideOutput | sources/iTermTextExtractor.h:120-121 | the output is exactly that of the events before the first null (`FromStartToFirst`: their concatenation, with the whitespace before each newline stripped when trimming) or from the last null on (`FromLastToEnd`) |
| Content.Contribution | sources/iTermTextExtractor.h:24-25 | a midline null contributes one space under both space policies; a terminal run of any length one space under `TreatAsSpace` and nothing under `MidlineAsSpaceIgnoreTerminal`; a written cell its character unless a DWC right half or a collected continuation; a hard line end a newline when wanted |
| Content.FoldConcatenates | sources/iTermTextExtractor.h:24-25 | under the space policies the text is the concatenation of every event's contribution |
| Content.FirstNull | sources/iTermTextExtractor.h:120-121 | the first null event, or the length when there is none |
| Content.LastNull | sources/iTermTextExtractor.h:120-121 | the last null event, or -1 when there is none |
| Content.CommentedSurvivors | sources/iTermTextExtractor.h:22-23 | the enum comments' reading: after the last null for `FromStartToFirst`, before it for `FromLastToEnd` |
| Content.CommentsContradictNames | sources/iTermTextExtractor.h:21-23 | on the line "a", null, "b" the comments' reading and the names' reading keep different events |
| Content.Truncate | sources/iTermTextExtractor.h:131-132 | with a positive cap at most `maxBytes` entries, all of them when they fit; a prefix when `truncateTail`, a suffix otherwise |
| Content.TrailingWhitespaceStart | sources/iTermTextExtractor.h:138 | everything from the result on is a space or tab and the character before it is not |
| Content.StripBeforeNewlines | sources/iTermTextExtractor.h:138 | the reference definition of per-line trimming: its result has no space or tab before any newline |
| Content.StripKeepsClean | sources/iTermTextExtractor.h:138 | stripping a text that has no space or tab before a newline changes nothing |
| Content.StripAppend | sources/iTermTextExtractor.h:138 | stripping after one more character: a newline cuts the trailing whitespace first, any other character is appended |
| Content.FoldTrims | sources/iTermTextExtractor.h:120-138 | the fold that trims as it goes writes exactly the untrimmed fold's text with the whitespace before each newline stripped, and stops at the same point |
| Content.FoldIsClean | sources/iTermTextExtractor.h:120-138 | with trimming on, the folded text of a grid has no space or tab before a newline |
| Content.FinishTrims | sources/iTermTextExtractor.h:131-138 | truncation keeps that property and the final trim leaves no space or tab at the end |
| Content.ExtractTrims | sources/iTermTextExtractor.h:120-138 | with `trimTrailingWhitespace`, no line of the extracted text ends in a space or tab, neither before a newline nor at the end |
| Content.FoldSound | sources/iTermTextExtractor.h:122-129 | the fold keeps one coordinate per character; each names a written cell holding that character (never a collected backslash), or an in-grid null cell for a space, or a row that ends hard for a newline; every collected index names a backslash in the last column of traversal |
| Content.FoldCollects | sources/iTermTextExtractor.h:122-124 | every backslash in the last column of traversal met before the walk stops is collected |
| Content.NoContinuationsUnlessCollected | sources/iTermTextExtractor.h:122-124 | without a continuation set nothing is collected |
| Content.FinishIsSound | sources/iTermTextExtractor.h:128-139 | truncation and trimming keep text and coordinates paired and respect the cap |
| Content.ExtractIsSound | sources/iTermTextExtractor.h:120-142 | the extraction's text is within the cap and has one provenance coordinate per character: the cell holding it (never a collected backslash), an in-grid null cell for a space, a row that ends hard for a newline; its continuation indexes are backslashes in the last column of traversal, and there are none unless collected |
| Extractor.TextExtractor.ContentInRange | sources/iTermTextExtractor.h:133-142 | the method (walk, early stop, truncation, trimming) returns exactly `Extract`, at most `maxBytes` characters, one coordinate per character |
| Extractor.DividedWindow | sources/iTermTextExtractor.h:47 | the window fits the grid, contains the coordinate, is bounded by dividers (or the left edge), and holds no other divider; no window when no divider lies to the right |
| Extractor.TextExtractor.RestrictToLogicalWindowIncludingCoord | sources/iTermTextExtractor.h:47 | the row scan sets the window to `DividedWindow` and keeps the object valid |
| Extractor.TextExtractor.constructor | sources/iTermTextExtractor.h:45-46 | a new extractor has no window and bidi support off |

## Left out

- Smart selection (`smartSelectionAt:withRules:...`): it evaluates regex rules whose code is not part of this model.
- Styled output: the `attributeProvider` path of `contentInRange:`, `attributedStringForSnippetForRange:`, `locatedStringInRange:` and external attributes (`externalAttributesAt:`). These build Foundation objects that are not part of this model.
- `urlOfHypertextLinkAt:urlId:`: hyperlink storage is not part of this model.
- `stopAsSoonAsPossible`, `progress` and `addTimestamps`: cancellation across threads, progress reporting and UI. The early stop that a callback requests is modelled: the consumer ignores the remaining events.
- Real bidi layout (`iTermBidiDisplayInfo`): a line's bidi information is a lookup table. The round-trip lemmas need that table to be a permutation.
- `visualRangeForLogical:` and `visualWindowedRangeForLogical:`: their range clipping rules are not stated in the header.
- `enumerateWrappedLinesIntersectingRange:`, `rangeForWrappedLineEncompassing:`, `wrappedLocatedStringAt:`, `combinedLinesInRange:`, `cellCountInWrappedLineWithAbsY:` and `rowCountForRawLineEncompassingWithAbsY:`. They depend on wrapped-line objects that are not part of this model.
- `rangeByTrimmingWhitespaceFromRange:` (both forms) and `haveNonWhitespaceInFirstLineOfRange:`: not part of the core modelled here.
- `fastWordAt:`, `stringForCharacterAt:`, `stringForCharacter:`, `wordSeparatorCharacterSet` and `indexesOnLine:containingCharacter:inRange:`: grapheme composition and Foundation character sets. Word characters are a parameter (`isWordChar`).
- `rangeForWordAtAbsCoord:` and `rangeForBigWordAtAbsCoord:`: only the relative forms are modelled. The absolute forms differ by the scrollback offset shown in `Coordinates.RelativeOf`.
- `indexInSortedArray:...`: a test helper.
- `pad` of `contentInRange:`: padding short lines is not described in the header.
- Tab fillers and multi-codepoint (complex) characters: a cell holds one `char`.
- Extractor.TextExtractor.ContentInRange: the caller's `continuationChars` set and `coords` array are returned as values, not updated in place.
- Extractor.TextExtractor.CoordPlus: requires the start column to lie inside the window; the header does not say what happens otherwise.
- Walker.AroundRange: requires a legal coordinate, as do `Walker.Reach`, `Extractor.TextExtractor.RangeOfCoordinatesAround` and `Extractor.TextExtractor.WalkWhilePassing`; the header does not describe an illegal one.
- Segmenter.LengthOfLine: requires `0 <= line < |lines|`, as does `Segmenter.StartOfIndentationOnLine`; a row outside the grid is not described.
- Extractor.DividedWindow: requires the coordinate's row to be a row of the grid, as does `Extractor.TextExtractor.RestrictToLogicalWindowIncludingCoord`.
- Segmenter.RangeOfParentheticalSubstringAtLocation: a partner 9999 or more steps from the bracket is not found and gives the invalid range, because the search stops at `ParenthesisSearchLimit`.
- Content.ExtractTrims: requires that no cell holds a newline character; a grid cell holding `\n` would put a newline in the text that no line end wrote.
- Walker.Search: requires a legal start coordinate; an illegal one is not described.
- Walker.SuccessorSkippingContiguousNulls: requires a legal coordinate, as do the predecessor and absolute variants.
- Extractor.DividedWindow: the divider is any cell holding `|`. The header's mention of software-drawn dividers (line 124) is not modelled further.
- Content.IsContinuation: any backslash in the range's rightmost column counts, whether or not a divider is drawn.
- Data source mutation during a call and the scrollback overflow bookkeeping: the grid is an immutable value, and the overflow is a parameter of the absolute-line functions.

## Findings

| source | as written | input that shows it | evidently intended | confidence | as-written member | corrected member |
|---|---|---|---|---|---|---|
| sources/iTermTextExtractor.h:22-23 | the comment on `FromStartToFirst` says content before the last null is ignored; the one on `FromLastToEnd` says content after the last null is ignored | one line holding "a", a null, "b": the comments keep "b" for `FromStartToFirst` and "a" for `FromLastToEnd` | as the names and lines 120-121 say: `FromStartToFirst` keeps content up to the first null ("a"), `FromLastToEnd` keeps content from the last null on ("b") | medium, not executed | Content.CommentsContradictNames | Content.SurvivorsDecideOutput |
