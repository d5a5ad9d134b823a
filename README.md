# Nocturne text ingestion, search and session store, in Dafny

Nocturne is a browser reader for plain-text and EPUB files. This project
models the part of it that turns a file into readable, searchable paragraphs,
and the two small state machines beside that pipeline. It proves properties
of the model.

- **Encoding sniffing** (`TxtParser`, `txt_parser.dfy`). A `.txt` file's
  bytes get one of seven encoding tags. In order, the tests are: a UTF-8 byte
  order mark, a UTF-16LE mark, a UTF-16BE mark, strict UTF-8 validity
  (section 4 of RFC 3629), the little-endian zero-byte heuristic, the
  big-endian one, and finally windows-1252. The heuristics are loops over the
  first 4000 bytes. The decoder itself is a function parameter.
- **EPUB text stripping** (`EpubParser`, `epub_parser.dfy`).
  - Archive entries are kept when they are not directories and their names end
    in `.xhtml` or `.html`.
  - Each kept entry is cleaned by a fixed chain: remove `<script>` and
    `<style>` blocks, then remove tags, then decode `&nbsp;`, `&lt;`, `&gt;`
    and `&amp;`.
  - The cleaned texts are joined, each followed by a blank line, and the
    result is trimmed.
- **Text normalisation** (`TextParser`, `text_parser.dfy`). `cleanText` is a
  chain of rewrites:
  - escaped `\r\n` and `\r` become newlines;
  - real CRLF and CR become LF;
  - trailing blanks are removed from each line;
  - runs of newlines are capped at two;
  - the result is trimmed.
- **Paragraphs and search** (`TextProcessor`, `text_processor.dfy`).
  - `processContent` splits a text into trimmed, non-empty paragraphs.
  - `countMatches` and `getMatchIndices` scan each paragraph with a
    case-insensitive `indexOf` that advances one character at a time.
- **The search bar's cursor** (`SearchBar`, `search_bar.dfy`). A class holds
  the query and the index of the highlighted match. Next and previous wrap
  around. Closing the bar or changing the query resets the index. A results
  label is shown for queries of two or more characters.
- **The session-gated document store** (`SessionDocumentStore`,
  `session_document_store.dfy`). A class holds the one IndexedDB slot
  `"active"` and the sessionStorage entry with the session id. A document is
  visible only to the browser session that saved it. Another session deletes
  it on sight.

`Strings` (`strings.dfy`) holds what the modules share:
- a literal global replace, modelled as JavaScript's leftmost, non-overlapping
  scan;
- `String.prototype.trim` over JavaScript's whitespace set;
- ASCII lower-casing.

Randomness, the clock and the decoder are parameters of the operations that
use them: a fresh session id, the current time and a byte-to-text function.

### Behaviour of the code worth noting

- **Normalisation.** `cleanText` (src/lib/textParser.ts:1-20) is exactly the
  seven rewrites above. It takes no option, and it does not reflow lines or
  join hyphenated words. A single line break between two lines is kept
  (`TextParser.HardWrapKept`), and a longer run keeps two
  (`TextParser.NewlineGapCleaned`).
- **`processContent`** (src/lib/textProcessor.ts:1-8) does not normalise
  first. It only splits at runs of two or more newlines, trims and drops
  empty pieces, and paragraphs come out in reading order
  (`TextProcessor.ParagraphsInOrder`).
- **Search** (src/lib/textProcessor.ts:10-51).
  - It is always case-insensitive and has no whole-word check.
  - It resumes one character after each match start, so overlapping hits are
    all reported (`TextProcessor.OverlappingHits`).
- **EPUB reading order** (src/lib/epubParser.ts:3-28). The code does not read
  `container.xml` or the package document. It keeps the archive's own listing
  order (`EpubParser.ListingOrderKept`).

## Model

| member | source | states |
|---|---|---|
| Strings.Trim | src/lib/textParser.ts:18 | the result has no JavaScript whitespace at either end and is no longer than the input |
| Strings.TrimSlice | src/lib/textProcessor.ts:6 | the trim is a contiguous slice of the input, and everything cut off on either side is whitespace |
| Strings.TrimTrimmed | src/lib/textParser.ts:18 | trimming text with no whitespace at either end leaves it unchanged |
| Strings.Lower | src/lib/textProcessor.ts:13 | lower-casing keeps the length and maps each character on its own (ASCII letters only) |
| TextParser.StripTrailingBlanks | src/lib/textParser.ts:13 | afterwards no space or tab ends a line or the text, and no character is introduced |
| TextParser.DropTrailingBlanks | src/lib/textParser.ts:13 | on one line: the result is a prefix of the line, everything cut off is a space or tab, and the result does not end in one |
| TextParser.StripLine | src/lib/textParser.ts:13 | a line followed by a line terminator or the end loses exactly its trailing blanks, and the text after it is stripped on its own: every other character is kept, in order |
| TextParser.CollapseFrom | src/lib/textParser.ts:16 | afterwards there are never three newlines in a row, and no character is introduced |
| TextParser.CollapseRun | src/lib/textParser.ts:16 | a run of n newlines keeps as many as bring the count of newlines in a row to two, and the text after it is collapsed afresh |
| TextParser.NewlineRunCollapsed | src/lib/textParser.ts:16 | a maximal run of n newlines becomes min(n, 2) newlines, and the text on either side is collapsed on its own |
| TextParser.ThreeNewlinesBecomeTwo | src/lib/textParser.ts:15-16 | "a\n\n\nb" becomes "a\n\nb" |
| TextParser.UnescapeRemovesEscapes | src/lib/textParser.ts:5-6 | no two-character escape `\r` survives the two unescaping replacements |
| TextParser.EscapedCrLfBecomesOneNewline | src/lib/textParser.ts:5-6 | a four-character escape `\r\n` becomes exactly one newline, and the text on either side is rewritten independently |
| TextParser.NormalizeLineEndingsProps | src/lib/textParser.ts:9-10 | no carriage return survives, and escape-freedom is kept |
| TextParser.CrLfBecomesOneNewline | src/lib/textParser.ts:9-10 | a real CRLF becomes one LF, not two, and the text on either side is rewritten independently |
| TextParser.LineEndingsRef | src/lib/textParser.ts:9-10 | a one-pass reference definition of line-ending normalisation (CRLF or lone CR becomes LF) that leaves no CR |
| TextParser.NormalizeLineEndingsIsRef | src/lib/textParser.ts:9-10 | the two chained replacements agree with the one-pass reference on every input |
| TextParser.StripAtLineEnd | src/lib/textParser.ts:13 | a run of blanks that reaches a line terminator or the end is deleted entirely |
| TextParser.StripKeepsNoEscape | src/lib/textParser.ts:13 | removing trailing blanks cannot create an escape `\r` |
| TextParser.BlankNotAtLineEnd | src/lib/textParser.ts:13 | in text with no trailing blanks, a blank is never at a line end |
| TextParser.StripIdentity | src/lib/textParser.ts:13 | text with no trailing blanks is left unchanged by the blank-stripping step |
| TextParser.CollapseKeepsNoPair | src/lib/textParser.ts:16 | capping newline runs cannot create a forbidden two-character pair that starts with a non-newline |
| TextParser.CollapseKeepsNoBlankAtLineEnd | src/lib/textParser.ts:16 | capping newline runs cannot make a blank end a line |
| TextParser.CollapseIdentity | src/lib/textParser.ts:16 | text with no three newlines in a row is left unchanged by the collapse step |
| TextParser.TrimKeepsClean | src/lib/textParser.ts:18 | trimming keeps every property of clean text and adds trimmed ends |
| TextParser.CleanTextIsClean | src/lib/textParser.ts:1-20 | every output has no CR, no escape `\r`, no blank at a line end, no three newlines in a row, and no whitespace at either end |
| TextParser.CleanTextFixedPoint | src/lib/textParser.ts:1-20 | clean text is returned unchanged |
| TextParser.CleanTextIdempotent | src/lib/textParser.ts:3-19 | cleaning twice gives the same text as cleaning once |
| TextParser.HardWrapKept | src/lib/textParser.ts:16 | a single newline between two non-empty clean lines is kept, so hard wraps survive |
| TextParser.EarlyLinksIdentity | src/lib/textParser.ts:5-13 | text with no CR, no escape `\r` and no blank at a line end passes the first five rewrites unchanged |
| TextParser.NewlineGapCleaned | src/lib/textParser.ts:1-20 | between two clean non-empty texts, a run of n >= 1 newlines comes out as min(n, 2) newlines and both texts are kept as they are |
| TextProcessor.NewlineRun | src/lib/textProcessor.ts:5 | the length of the leading run of newlines, bounded by the first non-newline |
| TextProcessor.SplitParagraphs | src/lib/textProcessor.ts:5 | the split gives at least one piece, the first piece is a prefix of the input, and no piece holds two newlines in a row |
| TextProcessor.TrimAll | src/lib/textProcessor.ts:6 | one trimmed piece per piece, in order |
| TextProcessor.NonEmpty | src/lib/textProcessor.ts:7 | keeps exactly the non-empty pieces |
| TextProcessor.ProcessContent | src/lib/textProcessor.ts:1-8 | empty content gives no paragraphs; every paragraph is non-empty, equals its own trim, and holds no two newlines in a row |
| TextProcessor.NonEmptyConcat | src/lib/textProcessor.ts:7 | filtering two lists of pieces one after the other gives the two filtered lists concatenated |
| TextProcessor.NonEmptySingle | src/lib/textProcessor.ts:7 | a single piece is kept exactly when it is not empty |
| TextProcessor.TrimAllConcat | src/lib/textProcessor.ts:6 | trimming two lists of pieces gives the two trimmed lists concatenated |
| TextProcessor.NewlineRunOf | src/lib/textProcessor.ts:5 | a run of n newlines followed by a non-newline is a run of length n |
| TextProcessor.SplitAtRun | src/lib/textProcessor.ts:5 | splitting at a maximal run of two or more newlines gives the pieces before the run followed by the pieces after it |
| TextProcessor.ProcessContentIs | src/lib/textProcessor.ts:1-8 | the empty-content guard agrees with split, trim and filter on every input |
| TextProcessor.ParagraphsInOrder | src/lib/textProcessor.ts:1-8 | for text a, a run of two or more newlines, and text b, the paragraphs are those of a followed by those of b |
| TextProcessor.SplitJoin | src/lib/textProcessor.ts:5 | splitting text with no three newlines in a row and joining the pieces with a blank line gives the text back |
| TextProcessor.SingleParagraph | src/lib/textProcessor.ts:1-8 | text without a blank line and not all whitespace is one paragraph, its trim |
| TextProcessor.SplitNoBreak | src/lib/textProcessor.ts:5 | text with no two newlines in a row is not split |
| TextProcessor.TrimKeepsNoPair | src/lib/textProcessor.ts:6 | trimming cannot create a forbidden pair |
| TextProcessor.IndexOf | src/lib/textProcessor.ts:19 | `indexOf` returns the first occurrence at or after the start offset, or -1 exactly when there is none |
| TextProcessor.OccurrencesSpec | src/lib/textProcessor.ts:17-22 | the advance-by-one scan finds every occurrence at or after its start, only occurrences, in strictly increasing order |
| TextProcessor.RangesOfSpec | src/lib/textProcessor.ts:40-46 | one range per hit, from the hit's start to start plus the query length |
| TextProcessor.ParagraphRangesSpec | src/lib/textProcessor.ts:36-47 | a paragraph's ranges are exactly its case-insensitive hits, with strictly increasing starts |
| TextProcessor.AllRangesSound | src/lib/textProcessor.ts:37-47 | every range lies in an existing paragraph, and its slice equals the query up to case |
| TextProcessor.AllRangesComplete | src/lib/textProcessor.ts:37-47 | every case-insensitive hit in any paragraph is reported |
| TextProcessor.AllRangesOrdered | src/lib/textProcessor.ts:37-47 | ranges come by paragraph index, then by strictly increasing start |
| TextProcessor.MatchIndicesSpec | src/lib/textProcessor.ts:28-51 | a query shorter than two characters gives no ranges; otherwise the ranges are exactly the hits, in order |
| TextProcessor.OverlappingHits | src/lib/textProcessor.ts:40-46 | "aa" in "aaa" gives starts 0 and 1: overlapping hits are all reported |
| TextProcessor.ScanParagraph | src/lib/textProcessor.ts:37-47 | the inner `while` loop collects exactly the ranges of the paragraph's hits, in order |
| TextProcessor.GetMatchIndices | src/lib/textProcessor.ts:28-51 | the method returns exactly the hit list specified by `MatchIndices` |
| TextProcessor.CountInParagraph | src/lib/textProcessor.ts:16-22 | the inner loop counts exactly the hits in one paragraph |
| TextProcessor.CountMatches | src/lib/textProcessor.ts:10-26 | the count equals the number of ranges `getMatchIndices` reports, for every input |
| TxtParser.HasUtf8Bom | src/lib/txtParser.ts:8-10 | true exactly when the bytes start with EF BB BF |
| TxtParser.HasUtf16LeBom | src/lib/txtParser.ts:12-14 | true exactly when the bytes start with FF FE |
| TxtParser.HasUtf16BeBom | src/lib/txtParser.ts:16-18 | true exactly when the bytes start with FE FF |
| TxtParser.BomsExclusive | src/lib/txtParser.ts:8-18 | at most one of the three byte order marks is present |
| TxtParser.CharLength | src/lib/txtParser.ts:67-71 | the length, at most 4, of the well-formed UTF-8 character (section 4 of RFC 3629) that starts the bytes |
| TxtParser.ValidUtf8ExcludedBytes | src/lib/txtParser.ts:67-71 | strictly valid UTF-8 never holds C0, C1 or F5 to FF |
| TxtParser.ValidUtf8Concat | src/lib/txtParser.ts:67-71 | two valid UTF-8 byte strings concatenate to a valid one |
| TxtParser.OffsetCountClosedForm | src/lib/txtParser.ts:25-28 | below n there are n/2 odd offsets and (n+1)/2 even ones (floor) |
| TxtParser.ZeroCountBound | src/lib/txtParser.ts:25-28 | the zero count never exceeds the number of offsets checked |
| TxtParser.ShortInputNotUtf16 | src/lib/txtParser.ts:22 | with fewer than 8 bytes both heuristics answer false |
| TxtParser.LooksLikeUtf16Exact | src/lib/txtParser.ts:20-46 | each heuristic holds exactly when the sample has at least 8 bytes and 20 times the zero count exceeds 7 times the number checked (sample/2 for odd offsets, (sample+1)/2 for even ones) |
| TxtParser.LooksLikeUtf16Le | src/lib/txtParser.ts:20-32 | the `for` loop over odd offsets of the first min(len, 4000) bytes decides the LE heuristic |
| TxtParser.LooksLikeUtf16Be | src/lib/txtParser.ts:34-46 | the `for` loop over even offsets decides the BE heuristic |
| TxtParser.Tag | src/lib/txtParser.ts:52-82 | every selected encoding has one of the seven tag strings |
| TxtParser.TagEncoding | src/lib/txtParser.ts:52-82 | reads a tag back; defined exactly on the seven tags |
| TxtParser.TagRoundTrip | src/lib/txtParser.ts:52-82 | a tag reads back to the encoding that produced it |
| TxtParser.TagInjective | src/lib/txtParser.ts:52-82 | distinct encodings have distinct tags |
| TxtParser.DecoderLabel | src/lib/txtParser.ts:55-81 | the label handed to `TextDecoder` is the encoding's tag, without the `-bom` suffix for the three byte-order-mark outcomes |
| TxtParser.SelectionPriority | src/lib/txtParser.ts:55-81 | each of the seven outcomes holds exactly when its own test succeeds and every earlier test fails |
| TxtParser.ZeroBytesAreUtf8 | src/lib/txtParser.ts:67-77 | eight zero bytes are valid UTF-8 and pass the LE heuristic, yet are tagged `utf-8`: validity is checked first |
| TxtParser.ParseTxt | src/lib/txtParser.ts:52-82 | the result carries the selected tag and the text the decoder gives for that tag's label |
| EpubParser.FindChar | src/lib/epubParser.ts:18 | an offset found lies at or after the start offset and holds the character searched for |
| EpubParser.FindCharSpec | src/lib/epubParser.ts:18 | the offset found is the first one holding the character; none is found only when the character does not occur from the start offset on |
| EpubParser.StartsWithCiIff | src/lib/epubParser.ts:16-17 | a text starts with a pattern up to ASCII case exactly when its prefix of the pattern's length lower-cases to the lower-cased pattern |
| EpubParser.FindCi | src/lib/epubParser.ts:16-17 | an offset found lies at or after the start offset, with room for the whole pattern after it |
| EpubParser.FindCiSpec | src/lib/epubParser.ts:16-17 | the offset found is the first one where the pattern starts, ignoring ASCII case; none is found only when it starts nowhere from the start offset on |
| EpubParser.BlockLength | src/lib/epubParser.ts:16-17 | a matched block is at least as long as its close tag and fits in the text |
| EpubParser.RemoveBlocksNoLt | src/lib/epubParser.ts:16-17 | text without `<` holds no block and is unchanged |
| EpubParser.BlockRemoved | src/lib/epubParser.ts:16-17 | a `<script …>…</script>` or `<style …>…</style>` block, in any letter case, is removed with its contents up to the first close tag |
| EpubParser.RemoveBlocksPrefix | src/lib/epubParser.ts:16-17 | text before the first `<` is copied unchanged, and the rest is scanned on its own |
| EpubParser.BlockRemovedAfter | src/lib/epubParser.ts:16-17 | text without `<` followed by a block and then more text: the prefix is kept, the block is deleted, and the rest is scanned on its own |
| EpubParser.NoCloseNoBlock | src/lib/epubParser.ts:16-17 | no block starts at a `<` that has no other `<` after it, since no closing tag can follow |
| EpubParser.RemoveBlocksOneLt | src/lib/epubParser.ts:16-17 | text holding a single `<` is left unchanged by block removal |
| EpubParser.RemoveBlocksKeeps | src/lib/epubParser.ts:16-17 | text at none of whose offsets a block starts is copied unchanged, whatever it holds, and the scan goes on after it |
| EpubParser.RemoveBlocksNoOpen | src/lib/epubParser.ts:16-17 | text in which no `<script` (or `<style`) opens, in any case, passes block removal unchanged, ordinary tags included |
| EpubParser.BlockRemovedAfterTags | src/lib/epubParser.ts:16-17 | a block after text in which no block starts, tags included, is removed and the text before it is kept |
| EpubParser.TagLength | src/lib/epubParser.ts:18 | a matched tag runs from `<` to the first `>` after it, with at least one character between them; no tag is matched only when the text does not start with `<`, or `>` follows it directly, or no `>` follows it |
| EpubParser.StripTags | src/lib/epubParser.ts:18 | tag removal only deletes characters and never lengthens the text |
| EpubParser.StripTagsPrefix | src/lib/epubParser.ts:18 | text before the first `<` is copied unchanged, and the rest is stripped on its own |
| EpubParser.StripTagFront | src/lib/epubParser.ts:18 | `<`, a non-empty run without `>`, then `>` is deleted whole |
| EpubParser.StripTagAt | src/lib/epubParser.ts:18 | in a + `<` t `>` + b with no `<` in a and no `>` in a non-empty t, the result is a followed by b stripped |
| EpubParser.StripTagsLtHarmless | src/lib/epubParser.ts:18 | after tag removal every `<` is followed directly by `>` or by no `>` at all |
| EpubParser.StripTagsNoTags | src/lib/epubParser.ts:18 | after tag removal no `<`, one or more non-`>`, `>` remains anywhere |
| EpubParser.StripTagsNoLt | src/lib/epubParser.ts:18 | text without `<` passes tag removal unchanged |
| EpubParser.DecodeNoAmp | src/lib/epubParser.ts:19-22 | text without `&` is unchanged by entity decoding |
| EpubParser.StripHtmlPlain | src/lib/epubParser.ts:15-22 | text with neither `<` nor `&` passes the whole chain unchanged |
| EpubParser.DecodeKeepsOtherEntities | src/lib/epubParser.ts:19-22 | text whose `&` is never followed by n, l, g or a is not changed by entity decoding, so `&quot;` stays as written |
| EpubParser.OtherEntitiesKept | src/lib/epubParser.ts:15-22 | text without `<` whose `&` is never followed by n, l, g or a passes the whole chain unchanged |
| EpubParser.TextAroundTagKept | src/lib/epubParser.ts:15-22 | text without `<` around one tag: the tag is deleted and the text on both sides is kept, joined directly |
| EpubParser.StripTagsRender | src/lib/epubParser.ts:18 | on text made of `<`-free text pieces and tags `<body>` (body non-empty, no `>`), tag removal gives the text pieces joined in order |
| EpubParser.MarkupStripped | src/lib/epubParser.ts:15-22 | on such text, when no tag opens with `<script` or `<style` and the text holds none of the four entities, the whole chain gives the text pieces joined in order |
| EpubParser.ParagraphStripped | src/lib/epubParser.ts:15-22 | `<p>a</p>` comes out as `a` |
| EpubParser.DecodeEscapedTag | src/lib/epubParser.ts:19-22 | `&lt;` t `&gt;` decodes to `<` t `>` |
| EpubParser.EscapedTagSurvives | src/lib/epubParser.ts:18-21 | entities are decoded after tags are stripped, so an escaped tag `&lt;b&gt;` ends up as the literal text `<b>` |
| EpubParser.DecodeDoubleEscape | src/lib/epubParser.ts:19-22 | `&amp;` t decodes to `&` t and is not decoded again |
| EpubParser.AmpDecodedLast | src/lib/epubParser.ts:20-22 | `&amp;lt;` yields `&lt;`, not `<`, because `&amp;` is decoded last |
| EpubParser.StripHtmlNoLtIsDecode | src/lib/epubParser.ts:15-22 | without `<` the chain reduces to entity decoding |
| EpubParser.Chapters | src/lib/epubParser.ts:7-9 | an entry is read exactly when it is not a directory and its name ends, case-sensitively, in `.xhtml` or `.html` |
| EpubParser.ChaptersConcat | src/lib/epubParser.ts:7-9 | the filter keeps the listing order |
| EpubParser.Plains | src/lib/epubParser.ts:12-22 | one stripped text per chapter, in order |
| EpubParser.JoinedConcat | src/lib/epubParser.ts:24 | accumulating two runs of chapters one after the other gives the two accumulations concatenated |
| EpubParser.ParseEpub | src/lib/epubParser.ts:3-28 | the loop's result is the trimmed concatenation of each chapter's stripped text, each followed by a blank line, in listing order |
| EpubParser.NoChaptersEmpty | src/lib/epubParser.ts:11-27 | an archive without chapter files gives the empty text |
| EpubParser.ListingOrderKept | src/lib/epubParser.ts:11-25 | chapters earlier in the listing come earlier in the text |
| SearchBar.NextIndex | src/components/SearchBar.tsx:66 | the next index is always a valid index |
| SearchBar.PrevIndex | src/components/SearchBar.tsx:71 | the previous index is always a valid index |
| SearchBar.WrapAround | src/components/SearchBar.tsx:64-72 | from a valid index, next moves one forward and wraps from the last to the first; previous moves one back and wraps from the first to the last |
| SearchBar.NextPrevInverse | src/components/SearchBar.tsx:64-72 | next then previous restores the index, and so does previous then next |
| SearchBar.NatToString | src/components/SearchBar.tsx:151 | a decimal numeral is non-empty and all digits |
| SearchBar.NatToStringRoundTrip | src/components/SearchBar.tsx:151 | a numeral reads back to its number |
| SearchBar.ResultsLabel | src/components/SearchBar.tsx:148-154 | a label is shown exactly when the query has at least two characters, and it reads "No results" when there are no matches |
| SearchBar.CounterLabelRoundTrip | src/components/SearchBar.tsx:148-154 | with matches, the label is "current+1/total" and reads back to those two numbers |
| SearchBar.SearchCursor.constructor | src/components/SearchBar.tsx:20-21 | a new bar has an empty query and index 0 |
| SearchBar.SearchCursor.GoToNext | src/components/SearchBar.tsx:47-67 | without matches nothing changes; otherwise the index wraps forward, a valid index stays valid, and a changed index is reported |
| SearchBar.SearchCursor.GoToPrev | src/components/SearchBar.tsx:47-72 | the same, backwards |
| SearchBar.SearchCursor.ChangeQuery | src/components/SearchBar.tsx:41-44 | a new query resets the index to 0 and is reported; the same query changes nothing |
| SearchBar.SearchCursor.SetOpen | src/components/SearchBar.tsx:32-38 | closing clears the query and resets the index and reports it; opening keeps both |
| SearchBar.SearchCursor.HandleKey | src/components/SearchBar.tsx:32-94 | keys are ignored while closed; Escape closes and clears and reports the empty query at index 0; Enter goes to the next match and Shift+Enter to the previous, reporting the query and new index exactly when the index changed |
| SearchBar.NextThenPrev | src/components/SearchBar.tsx:75-94 | Enter then Shift+Enter leaves the bar on the match it started from |
| SessionDocumentStore.Stamp | src/lib/sessionDocumentStore.ts:112-117 | the saved record has key "active", the current session's id and the save time |
| SessionDocumentStore.StampRoundTrip | src/lib/sessionDocumentStore.ts:112-117 | reading back a stamped document gives exactly the document, and re-stamping a record's document gives the record |
| SessionDocumentStore.Visible | src/lib/sessionDocumentStore.ts:131-142 | a record is returned exactly when it exists and belongs to the reading session, and then only its content, filename, format and encoding |
| SessionDocumentStore.DocumentStore.constructor | src/lib/sessionDocumentStore.ts:18-23 | an empty slot and no stored session id |
| SessionDocumentStore.DocumentStore.StoredSessionId | src/lib/sessionDocumentStore.ts:53-59 | a session id is read only when storage is usable |
| SessionDocumentStore.DocumentStore.PurgeOtherSessions | src/lib/sessionDocumentStore.ts:85-96 | the record is deleted exactly when it belongs to another session; nothing else changes |
| SessionDocumentStore.DocumentStore.EnsureSessionId | src/lib/sessionDocumentStore.ts:98-106 | an existing non-empty id is returned and nothing changes; otherwise the fresh id is stored if storage allows, it is returned, and a record of any other session is deleted while one already tagged with the fresh id is kept |
| SessionDocumentStore.DocumentStore.SaveActiveDocument | src/lib/sessionDocumentStore.ts:108-120 | the slot then holds the document, tagged with the current session and stamped with the given time |
| SessionDocumentStore.DocumentStore.GetActiveDocument | src/lib/sessionDocumentStore.ts:122-143 | no record gives null; a record of another session is deleted and gives null; the session's own record gives its document fields; a fresh id is stored in sessionStorage when storage is usable |
| SessionDocumentStore.DocumentStore.ClearActiveDocument | src/lib/sessionDocumentStore.ts:145-148 | the slot is empty afterwards and the session id is untouched |
| SessionDocumentStore.SaveThenGet | src/lib/sessionDocumentStore.ts:108-143 | with usable storage, a save followed by a read in the same session returns the saved document |
| SessionDocumentStore.ClearThenGet | src/lib/sessionDocumentStore.ts:122-148 | after a clear, a read returns null |
| SessionDocumentStore.ForeignRecordDeleted | src/lib/sessionDocumentStore.ts:98-135 | a new session that finds another session's record gets null, the record is gone, and with usable storage its own new id is stored |
| SessionDocumentStore.UnavailableStorageLosesDocument | src/lib/sessionDocumentStore.ts:53-67 | without usable sessionStorage each call draws a new id, so the next read deletes a saved document instead of returning it |

## Left out

- Byte-to-text decoding by `TextDecoder` (src/lib/txtParser.ts:48-50) and
  reading the file are foreign calls. `ParseTxt` takes the decoder as a
  function and models only which label it is given. Whether the decoder
  rejects the input is modelled by `IsValidUtf8` (section 4 of RFC 3629),
  taken to match the browser's fatal UTF-8 decoder.
- Opening the archive with JSZip and reading entries with `file.async` are
  foreign and asynchronous. `ParseEpub` takes the listed entries, each with
  its HTML text already read.
- The IndexedDB and sessionStorage plumbing is left out: opening the database,
  the memoised `dbPromise`, transactions and their error callbacks.
  - The store is one optional record plus one optional session id.
  - A failed sessionStorage access is the `storageAvailable` flag.
  - `crypto.randomUUID` and `Date.now` are the `freshId` and `now` parameters.
  - The awaited calls run one after another; interleaving between tabs is not
    modelled.
- The `...document` spread in the saved record (src/lib/sessionDocumentStore.ts:116)
  is modelled for values of type `ActiveDocument`, which carry no `id`,
  `sessionId` or `updatedAt` of their own to overwrite the tags.
- `Strings.Lower`: case folding of ASCII letters only. JavaScript's
  `toLowerCase` maps all of Unicode and can change a string's length. The
  model keeps lengths equal, so offsets into the lower-cased paragraph are
  offsets into the paragraph.
  The `<script` and `<style` blocks are matched with the same ASCII folding;
  their patterns are ASCII, and the regular expressions do not use the
  unicode flag.
- The zero-ratio test `zeros / checked > 0.35` is evaluated on reals, not
  doubles. The two agree because `checked` is at most 2000, so an exact ratio
  is never within rounding distance of 0.35 without being equal to it.
- `TextProcessor.MatchIndicesSpec`, `TextProcessor.MatchIndices`,
  `TextProcessor.GetMatchIndices`, `TextProcessor.CountMatches` and
  `SearchBar.ResultsLabel`: lengths, the two-character guard and offsets
  count code points, not UTF-16 code units as JavaScript strings do. A Dafny
  `char` is a Unicode scalar value, so a lone surrogate cannot be written.
  The two agree for text in the Basic Multilingual Plane; with characters
  outside it they differ (an emoji query is one character here and two in
  JavaScript, so the model reports no hits where the code reports them).
- Options that the tests and the reader page pass but the code does not
  accept are not modelled: reflow of hard-wrapped lines, NBSP removal, and
  case-sensitive or whole-word search.
- The list of paragraphs `Reader` renders (src/components/Reader.tsx:12-19)
  is the same expression as `processContent`. It is modelled once, as
  `TextProcessor.ProcessContent`, so match indices refer to the same
  paragraphs by construction.
- The search bar's React effect scheduling is simplified.
  - Each transition returns at most one `onSearch` notification, for the
    change it makes. Repeated notifications for the same state are left out.
  - Focusing the input and scrolling to the highlighted element are DOM side
    effects and are left out.
  - `totalMatches` and `isOpen` belong to the parent component; they arrive
    as parameters.
- `SearchBar.SearchCursor.HandleKey`: Escape calls `onClose`, and the parent
  then sets `isOpen` to false. The model performs that close directly.
- The rest of the application is not part of this model:
  - UI components and gestures;
  - the service worker;
  - themes, accent colours and settings persistence;
  - static data and browser tests.
