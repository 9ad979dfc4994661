# tag-wrapper in Dafny

A model of `tag-wrapper`. The package exports a single function,
`tagWrapper(tags, query, str)`. It finds every occurrence of `query` in `str` without
regard to case and surrounds each one with the opening and closing tag from `tags`, for
example `['<em>', '</em>']`. The text keeps its own casing inside the tags. The model
follows the helpers of `src/index.js` one by one:

- `getQueryIndex` and `hasMatchingQuery` are the case-insensitive search. They are
  modelled in module `Search` over a length-preserving model of `toLowerCase` (module
  `CaseFold`).
- `getFirstQueryMatchText` and `getAfterQueryText` split the text at the end of the first
  match. They are modelled in module `Slicing`, with JavaScript's `String.prototype.slice`,
  including its clamping of negative bounds.
- `wrapQuery` surrounds the first match of the piece it is given with the two tags.
  Module `Wrapper` models it as the splice it is meant to perform.
- `mapQueryPosition` is the recursive scan, and `tagWrapper` is the guard in front of it.
  Both are in `Wrapper`.

The source reaches the splice by a detour, and two modules model that detour as written:
- `UriCodec` models `fullEncodeUri` (`encodeURIComponent`, then the escaping of
  `! ' ( ) *` in lower-case hexadecimal) and `decodeURIComponent`, with its `URIError`.
  It proves that decoding undoes the encoding.
- `AsWritten` models the regular expression built from the encoded query (flags `i` and
  `g`), the global `replace`, and `wrapQuery`, `mapQueryPosition` and `tagWrapper` as
  written, where a thrown error ends the call. `AsWritten.TagWrapperAgrees` proves that
  on plain text (ASCII letters, digits, `-`, `_`, `~`) and tags without `%` or `$` the
  detour gives exactly what `Wrapper.TagWrapper` computes. The `$` patterns that
  `replace` reads in its replacement text (`$$`, `$&`, `` $` ``, `$'`) are modelled.

Outside plain text the detour can go wrong. Module `Findings` exhibits five inputs where
it does, listed under "## Findings". The rest of the model, and every theorem of
`Properties`, is about the intended splice.

Module `Reference` gives an independent description of the result on the whole text:
- `Occurrences` lists the greedy, left-to-right, non-overlapping matches;
- `Marked` splices a tag pair around each listed span.

Module `Properties` proves that the scan of `mapQueryPosition` computes exactly that:
- every match starts inside a marked span, so each match is wrapped or overlaps a wrapped one;
- each marked span equals the query up to case and is copied from the text;
- erasing the tags gives back the text;
- the length grows by one tag pair per match.

Module `Examples` derives expected outputs from the repository's test suite, using the
theorems of `Properties`.

Strings are `seq<char>`. A missing element of `tags` is modelled as `""`: JavaScript
treats `undefined` and the empty string alike, since both are falsy.

## Model

| member | source | states |
|---|---|---|
| CaseFold.Lower | src/index.js:10 | lowering changes only upper-case letters, each to the letter 0x20 above it, and never yields an upper-case letter |
| CaseFold.LowerS | src/index.js:10 | `toLowerCase` keeps the length and lowers each character in place, so positions in the lowered text are positions in the text |
| Search.AgreesCILowered | src/index.js:9-11 | a case-insensitive match at `i` is exactly "the lowered query is the slice of the lowered text at `i`", which is what `indexOf` on the two lowered strings tests |
| Search.IndexFromIsLeastMatch | src/index.js:9-11 | the search from `k` reports a match, no match between `k` and it, and -1 only when no match starts at or after `k` |
| Search.IndexOfCI | src/index.js:9-11 | `getQueryIndex` is -1 or a position where the query fits in the text |
| Search.IndexOfCIIsLeastMatch | src/index.js:9-11 | `getQueryIndex` returns the least matching position, and -1 exactly when the query occurs nowhere |
| Search.HasMatchingQuery | src/index.js:13-15 | `hasMatchingQuery`; `Search.HasMatchingQueryIff` states that it holds exactly when some position matches |
| Search.HasMatchingQueryIff | src/index.js:13-15 | `hasMatchingQuery` holds if and only if some position matches |
| Search.IndexOfCILeast | src/index.js:9-11 | a match with no match before it is the position `getQueryIndex` reports |
| Search.MatchesAtSpan | src/index.js:9-11 | a match at `i` is a span of the text, in its own casing, equal to the query up to case, and conversely |
| Search.EmptyQueryAtZero | src/index.js:10 | the empty query is found at position 0 of every text, as `indexOf("")` is |
| Search.IndexOfCISuffix | src/index.js:51-57 | searching the rest of the text after `k` finds the first match at or after `k`, shifted by `k` |
| Search.IndexOfCIPrefix | src/index.js:36-37 | searching a prefix that still contains the first match finds that same match |
| Search.NoMatchWithoutChar | src/index.js:9-11 | a query with a character that no character of the text lowers to is not found, and `getQueryIndex` is -1 |
| Slicing.JsSlice | src/index.js:20 | `slice` is the ordinary subsequence whenever its bounds are in range, and never longer than the text |
| Slicing.FirstQueryMatchText | src/index.js:17-21 | the first piece is never longer than the text; `Slicing.FirstPieceEndsAtMatch` states that it ends with the first match |
| Slicing.AfterQueryText | src/index.js:23-27 | the rest is never longer than the text; `Slicing.AfterQueryShrinks` and `Slicing.SplitReconstructs` state that it is what follows the first match |
| Slicing.SliceSplit | src/index.js:17-27 | slicing up to a bound and from that same bound splits the text in two, for every bound |
| Slicing.SplitReconstructs | src/index.js:17-27 | the first piece followed by the rest is the text, with or without a match |
| Slicing.FirstPieceEndsAtMatch | src/index.js:17-21 | with a match at `i`, the first piece is the text up to `i + query.length` and ends with that match |
| Slicing.AfterQueryShrinks | src/index.js:23-27 | with a match, the rest is the text after the match, and it is strictly shorter than the text for a non-empty query |
| Slicing.FirstPieceKeepsMatch | src/index.js:36-37 | the first piece's own first match is the text's first match |
| Slicing.EmptyQueryMakesNoProgress | src/index.js:63-65 | an empty query is found, the first piece is empty and the rest is the whole text: a scan with it could never end, which is why the guard rejects it |
| Wrapper.WrappedSpanMatchesQuery | src/index.js:37-40 | the text between the tags is copied from the piece, in the piece's casing, and equals the query up to case |
| Wrapper.WrapQuery | src/index.js:36-49 | `wrapQuery` never shortens the piece; `Wrapper.WrappedSpanMatchesQuery` and `Properties.WrapFirstPiece` state what it inserts and where |
| Wrapper.MapQueryPosition | src/index.js:51-61 | the scan; `Properties.MapQueryPositionMarks` states that it appends the text with every greedy occurrence marked |
| Wrapper.TagWrapper | src/index.js:63-67 | without text, query or either tag, or without a match, the text comes back unchanged |
| Reference.OccurrencesAreLeftmostScan | src/index.js:51-61 | the occurrence list is the greedy scan: each entry is the leftmost match at or after the end of the previous one, and no match is left after the last |
| Reference.OccurrencesMatch | src/index.js:52-55 | every listed occurrence is a match |
| Reference.LeftmostScanUnique | src/index.js:51-61 | any list with the greedy-scan property is the occurrence list, so the scan has exactly one result |
| Reference.ScanSpaced | src/index.js:51-61 | the scan's spans lie inside the text, in increasing order and without overlap |
| Reference.ScanPicksMatches | src/index.js:51-61 | each scanned position is a match, positions increase without overlap, and no match starts after the last span |
| Reference.ScanComplete | src/index.js:51-61 | every match at or after the start of the scan starts inside one of the scanned spans, so it is picked or overlaps a picked one |
| Reference.MarkedLength | src/index.js:55 | marking adds the length of both tags once per span |
| Reference.EraseMarkers | src/index.js:55 | marking with empty tags gives back the text |
| Properties.FirstPieceInText | src/index.js:17-21 | the first piece of the rest after `k` is the text from `k` to the end of the next match, and its own first match is that match |
| Properties.WrapFirstPiece | src/index.js:53-55 | wrapping the first piece of the rest after `k` gives the text up to the next match, the opening tag, the match copied from the text, and the closing tag |
| Properties.ScanStep | src/index.js:51-57 | one step of the scan, stated in whole-text positions |
| Properties.MarksBase | src/index.js:60 | with no match left, the scan appends the rest of the text verbatim |
| Properties.MarksStep | src/index.js:52-57 | the inductive step: a wrapped piece followed by the marked rest is the marked text |
| Properties.MapQueryPositionMarks | src/index.js:51-61 | scanning the rest after `k` appends exactly the text from `k` with every occurrence from `k` marked |
| Properties.TagWrapperMarksOccurrences | src/index.js:63-69 | when the guard passes, `tagWrapper` returns the text with every greedy left-to-right occurrence of the query wrapped in the tags |
| Properties.TagWrapperErasesToInput | src/index.js:63-69 | removing the inserted tags from the output gives back the input, and without parameters the output is the input |
| Properties.TagWrapperLength | src/index.js:55 | the output is as long as the text plus both tags once per wrapped match, and some match is wrapped exactly when the query occurs |
| Properties.MarkedSpansMatch | src/index.js:37-40 | each wrapped span lies in the text and equals the query up to case |
| Properties.MarkedSpansOrdered | src/index.js:51-61 | the wrapped spans come left to right without overlap, and no match starts after the last one |
| Properties.EveryMatchMarked | src/index.js:51-61 | every case-insensitive match of the query starts inside some wrapped span, so it is wrapped or overlaps a wrapped one |
| UriCodec.Utf8 | src/index.js:4 | each character has a UTF-8 encoding of one to four bytes, a single byte exactly for ASCII, where it is the character's code |
| UriCodec.HexDigit | src/index.js:4 | `encodeURIComponent` writes escape digits as `0`-`9` and upper-case `A`-`F` |
| UriCodec.LowerHexDigit | src/index.js:5 | `toString(16)` writes digits as `0`-`9` and lower-case `a`-`f` |
| UriCodec.HexValue | src/index.js:48 | decoding reads a hexadecimal digit of either case back to the value it spells, and anything else as no digit |
| UriCodec.Escape | src/index.js:4 | an escaped byte takes three characters and starts with `%` |
| UriCodec.Escapes | src/index.js:4 | the escapes of a character's bytes take three characters per byte |
| UriCodec.EncodeChar | src/index.js:3-7 | a character is kept as it is exactly when `encodeURIComponent` leaves it and it is not one of `! ' ( ) *`; every character encodes to at least one character |
| UriCodec.FullEncode | src/index.js:3-7 | `fullEncodeUri` never makes a text shorter |
| UriCodec.FullEncodeKept | src/index.js:3-7 | a text of characters the encoding keeps is its own encoding |
| UriCodec.FullEncodeConcat | src/index.js:3-7 | the encoding of two texts put together is their two encodings put together |
| UriCodec.EscapedByte | src/index.js:48 | decoding reads `%XY` at the front of the text as a byte, or finds no escape there |
| UriCodec.SequenceLength | src/index.js:48 | a UTF-8 lead byte announces at most four bytes |
| UriCodec.Continuations | src/index.js:48 | the continuation bytes read after a lead byte are as many as it announces, each of the form `10xxxxxx`, and their escapes fit in the text |
| UriCodec.Decode | src/index.js:48 | `decodeURIComponent`; `UriCodec.DecodeFullEncode` states that it undoes the encoding, `AsWritten.DecodeWithoutPercent` that text without `%` is kept, and `Findings.DecodeStrayPercent` that a stray `%` throws |
| UriCodec.HexDigitRoundTrip | src/index.js:38-48 | a digit written in either case reads back as its value |
| UriCodec.EscapeRoundTrip | src/index.js:38-48 | a written escape reads back as its byte, and the text after it is untouched |
| UriCodec.ContinuationsRoundTrip | src/index.js:38-48 | escaped continuation bytes read back as those bytes, whatever follows them |
| UriCodec.Utf8Structure | src/index.js:38-48 | the UTF-8 encoding of a non-ASCII character starts with a lead byte announcing its length, continues with continuation bytes and spells out the character's code point, so decoding accepts it |
| UriCodec.DecodeEncodedChar | src/index.js:38-48 | decoding the encoding of one character gives that character and goes on with what follows, in each of the encoding's cases |
| UriCodec.DecodeMarkChar | src/index.js:38-48 | one of `! ' ( ) *`, escaped in lower case, decodes back |
| UriCodec.DecodeAsciiEscape | src/index.js:38-48 | an ASCII character escaped by `encodeURIComponent` decodes back |
| UriCodec.DecodeUtf8Escapes | src/index.js:38-48 | a non-ASCII character escaped byte by byte decodes back |
| UriCodec.DecodeFullEncode | src/index.js:38-48 | `decodeURIComponent` undoes `fullEncodeUri` on every text: it returns the text and never throws |
| AsWritten.Canonical | src/index.js:41 | the `i` flag folds `a`-`z` to `A`-`Z` and leaves every other character as it is |
| AsWritten.RegexAgreesPointwise | src/index.js:41-46 | the pattern matches at a position exactly when each pattern character matches the text character under it: `.` any character but a line terminator, others up to ASCII case |
| AsWritten.RegexIndexFrom | src/index.js:41-46 | the regular expression's search from `k` reports -1 or a position at or after `k` where the pattern fits; `AsWritten.RegexIndexFromIsLeastMatch` states that it is the leftmost match |
| AsWritten.RegexIndexFromIsLeastMatch | src/index.js:41-46 | the search reports a pattern match, no match between `k` and it, and -1 only when the pattern matches nowhere at or after `k` |
| AsWritten.Substitute | src/index.js:43-46 | a replacement text without `$` is inserted as it is; `AsWritten.SubstitutePatterns` states what each `$` pattern becomes, and `Findings.DollarTagExpanded` shows a tag holding `$&` expanded |
| AsWritten.SubstitutePatterns | src/index.js:43-46 | in the replacement, `$$` becomes `$`, `$&` the match, `` $` `` the text before it and `$'` the text after it; a `$` at the end or before any other character stays |
| AsWritten.SubstituteLiteralPrefix | src/index.js:43-46 | a start of the replacement without `$` is inserted as it is, whatever follows |
| AsWritten.SubstituteMatchBetween | src/index.js:43-46 | a replacement with one `$&` between texts without `$` has the match put in place of the `$&` |
| AsWritten.ReplaceAll | src/index.js:43-46 | the global `replace`; `AsWritten.ReplaceAllOnPiece` states that on a plain piece ending with its first match it replaces that match and nothing else, and `AsWritten.ReplaceAllTwice` states that it goes on after a match, and `Findings.DotQueryReplace` shows it replacing both matches of `.foo` in `xfoo.foo` |
| AsWritten.WrapQueryAsWritten | src/index.js:36-49 | `wrapQuery` as written; `AsWritten.WrapQueryAgrees` states that on plain pieces it returns the splice, and the `Findings` lemmas show where it throws or departs from it |
| AsWritten.MapQueryPositionAsWritten | src/index.js:51-61 | `mapQueryPosition` as written; `AsWritten.MapQueryPositionAgrees` states that on plain text it never throws a `URIError` and returns the model's scan |
| AsWritten.TagWrapperAsWritten | src/index.js:63-67 | without text, query or either tag, or without a match, the call as written returns the text and cannot throw |
| AsWritten.OnePieceSplit | src/index.js:17-27 | when the first match ends the text, the first piece is the whole text and nothing is left after it |
| AsWritten.TagWrapperAsWrittenOnePiece | src/index.js:51-69 | when the first match ends the text, the call as written has the outcome of wrapping that one piece, an error included |
| AsWritten.PlainIsKept | src/index.js:3-7 | a plain character is kept by the encoding and is read literally by the pattern |
| AsWritten.FullEncodePlain | src/index.js:3-7 | plain text is its own encoding |
| AsWritten.DecodeWithoutPercent | src/index.js:48 | a text without `%` decodes to itself |
| AsWritten.DecodeAfterLiteral | src/index.js:48 | a start of the text without `%` decodes to itself, and the whole throws exactly when the rest does |
| AsWritten.PlainCharsAgree | src/index.js:41 | on plain characters the `i` flag and `toLowerCase` make the same characters equal |
| AsWritten.RegexAgreesPlain | src/index.js:41 | on plain text the pattern matches at a position exactly when `getQueryIndex` counts a match there |
| AsWritten.RegexIndexFromPlain | src/index.js:41-46 | on plain text the regular expression's search finds the same position as the case-insensitive search |
| AsWritten.ReplaceAllTwice | src/index.js:43-46 | a text made of two back-to-back matches of the pattern becomes two copies of a replacement without `$`: the global `replace` goes on after each match |
| AsWritten.ReplaceAllOnPiece | src/index.js:43-46 | on a plain piece that ends with its first match, the global replacement replaces that match and nothing else, by the replacement with its `$` patterns substituted, or by the replacement itself when it has no `$` |
| AsWritten.PlainPieceEncodings | src/index.js:38-43 | the encoding leaves a plain query, a plain piece and the piece's tail as they are |
| AsWritten.ReplacementOnPlainPiece | src/index.js:37-46 | on a plain piece ending with its first match, the encoded match is the match and the replacement wraps it alone |
| AsWritten.PlainPieceReplaced | src/index.js:37-46 | on a plain piece ending with its first match, for any tags, the encoded match is the match and the replacement puts the tags around it, their `$` patterns substituted, in its place |
| AsWritten.WrapQueryOnPlainPiece | src/index.js:36-49 | on a plain piece ending with its first match, `wrapQuery` as written decodes the piece with the match replaced by the tags around it, their `$` patterns substituted, for any tags |
| AsWritten.PlainSpliceDecodes | src/index.js:48 | a plain piece with `%`-free tags spliced in decodes to itself |
| AsWritten.WrapQueryAgrees | src/index.js:36-49 | on a plain piece ending with its first match, with tags holding neither `%` nor `$`, `wrapQuery` as written returns the splice `Wrapper.WrapQuery` describes |
| AsWritten.MapQueryPositionAgrees | src/index.js:51-61 | on plain text and query, with tags holding neither `%` nor `$`, the scan as written never throws a `URIError` and returns what the model's scan returns |
| AsWritten.TagWrapperAgrees | src/index.js:33-70 | on plain text and query, with tags holding neither `%` nor `$`, `tagWrapper` as written never throws a `URIError` and returns what `Wrapper.TagWrapper` returns |
| Findings.DecodeStrayPercent | src/index.js:48 | a `%` followed by a character that is not a hexadecimal digit makes the decoding throw |
| Findings.EncodedSlashText | src/index.js:3-7 | `/2F` encodes as `%2F2F`, while `2F` and `2f` encode as themselves |
| Findings.EncodedSlashReplace | src/index.js:41-46 | the pattern `2f` matches twice in `%2F2F`, once inside the escape of `/`, so a replacement without `$` leaves a bare `%` in front |
| Findings.EncodedSlashMatch | src/index.js:9-21 | the query `2f` is found in `/2F` at 1, and the first piece is the whole text |
| Findings.EncodedSlashWrap | src/index.js:36-49 | wrapping `/2F` for `2f` as written throws when the opening tag does not start with a hexadecimal digit and neither tag holds `$` |
| Findings.EncodedSlashModel | src/index.js:33-70 | the model wraps the single match: the result is `/`, the opening tag, `2F`, the closing tag |
| Findings.EncodedSlashThrows | src/index.js:33-70 | `tagWrapper(tags, '2f', '/2F')` as written throws for tags such as `<em>` (no leading hexadecimal digit, no `$`), where the model wraps the one match |
| Findings.DotQueryEncoded | src/index.js:3-7 | `.foo` is its own encoding |
| Findings.DotQueryText | src/index.js:3-7 | `xfoo.foo` is its own encoding |
| Findings.DotQueryReplace | src/index.js:41-46 | as a pattern, `.foo` matches `xfoo` as well as `.foo`, so a replacement without `$` is inserted twice |
| Findings.DotQueryMatch | src/index.js:9-27 | `getQueryIndex` finds `.foo` in `xfoo.foo` only at 4, where it ends the text |
| Findings.DotQueryReplaced | src/index.js:36-46 | before decoding, the encoded piece `xfoo.foo` has become two wrapped copies of `.foo`, for tags without `$` |
| Findings.TwiceWrappedDecodes | src/index.js:48 | two copies of a `%`-free text between `%`-free tags decode to themselves |
| Findings.DotQueryWrap | src/index.js:36-49 | wrapping `xfoo.foo` for `.foo` as written returns two wrapped copies of `.foo` and loses `xfoo`, for tags without `%` or `$` |
| Findings.DotQueryModel | src/index.js:33-70 | the model wraps only the literal `.foo` and keeps `xfoo` |
| Findings.DotMatchesAnyChar | src/index.js:33-70 | `tagWrapper(tags, '.foo', 'xfoo.foo')` as written, for tags without `%` or `$`, replaces `xfoo` by a wrapped `.foo`, where the model keeps `xfoo` and wraps the `.foo` |
| Findings.AccentedText | src/index.js:3-7 | `é` encodes as `%C3%A9` and `É` as `%C3%89` |
| Findings.AccentedReplace | src/index.js:41-46 | the pattern `%C3%89` does not occur in `%C3%A9`, because `8` and `A` are different digits, so nothing is replaced |
| Findings.AccentedMatch | src/index.js:9-27 | `getQueryIndex` finds `É` in `é` at 0, and the first piece is the whole text |
| Findings.AccentedWrap | src/index.js:36-49 | wrapping `é` for `É` as written returns `é` without tags |
| Findings.AccentedQueryModel | src/index.js:33-70 | the model wraps `é` for the query `É` |
| Findings.AccentedMatchMissed | src/index.js:33-70 | `tagWrapper(tags, 'É', 'é')` as written returns the text without tags although the query is found, where the model wraps it |
| Findings.WholeMatchModelScan | src/index.js:51-61 | the scan of `ab` for `ab` finds the one match at 0 |
| Findings.WholeMatchModel | src/index.js:33-70 | the model wraps `ab` in any two tags, inserting the tags as they are |
| Findings.WholeMatch | src/index.js:9-27 | `getQueryIndex` finds `ab` in `ab` at 0, and `ab` is plain text and its own encoding |
| Findings.WholeMatchReplace | src/index.js:43-46 | replacing `ab` in `ab` inserts the replacement with its `$` patterns substituted |
| Findings.DollarTagSubstituted | src/index.js:43-46 | the replacement's `$&` becomes the match `ab`, and the rest is copied |
| Findings.DollarTagWrap | src/index.js:36-49 | wrapping `ab` as written, with an opening tag holding `$&`, puts a copy of the match in place of the `$&` |
| Findings.DollarTagExpanded | src/index.js:33-70 | `tagWrapper(tags, 'ab', 'ab')` as written, with an opening tag such as `<b title="$&">`, puts the match inside the tag as well, where the model inserts the tag as it is |
| Findings.StrayPercentAfterLiteral | src/index.js:48 | text without `%`, then a `%` before a character that is no hexadecimal digit, makes the decoding throw |
| Findings.PercentTagDecodes | src/index.js:43-48 | a replacement holding `%` before a non-digit goes in unchanged, and its decoding throws |
| Findings.PercentTagWrap | src/index.js:36-49 | wrapping `ab` as written, with an opening tag holding `%` before a non-digit, throws |
| Findings.PercentTagThrows | src/index.js:33-70 | `tagWrapper(tags, 'ab', 'ab')` as written throws for an opening tag such as `<span style="width:100%">`, where the model wraps the match |
| Examples.ReturnsTextWithoutTags | test/index.test.js:7-13 | with no tags the text is returned unchanged |
| Examples.ReturnsTextWithoutClosingTag | src/index.js:63-67 | with only an opening tag the text is returned unchanged |
| Examples.ReturnsTextWhenNotFound | test/index.test.js:15-21 | a query that does not occur leaves the text unchanged |
| Examples.WrapsQueryEndingInParen | test/index.test.js:82-89 | `tagWrapper(['<em>','</em>'], 'nine(', 'five% nine(')` is `'five% <em>nine(</em>'` |
| Examples.WrapsQueryWithPercent | test/index.test.js:145-152 | a query starting with `%` is wrapped where it occurs |
| Examples.WrapsQueryWithDollar | test/index.test.js:136-143 | a query starting with `$` is wrapped where it occurs |
| Examples.WrapsQueryOpeningParen | test/index.test.js:181-188 | `'(foo'` in `'bar (foo) bar'` is wrapped, leaving the `)` outside |
| Examples.WrapsQueryClosingParen | test/index.test.js:190-197 | `'foo)'` in `'bar (foo) bar'` is wrapped, leaving the `(` outside |
| Examples.WrapsQueryWithDot | test/index.test.js:316-323 | `'.foo'` in `'bar .foo bar'` is wrapped where it occurs |
| Examples.WrapsInsideWord | test/index.test.js:47-53 | a match inside a word is wrapped |
| Examples.WrapsEveryMatchKeepingCase | test/index.test.js:72-80 | every match is wrapped, and each keeps the text's casing |

## Findings

| source | as written | input that shows it | evidently intended | confidence | as-written member | corrected member |
|---|---|---|---|---|---|---|
| src/index.js:41-48 | the pattern is searched in the encoded piece, so it can match inside the escape of a character | `tagWrapper(['<em>', '</em>'], '2f', '/2F')`: `%2F2F` becomes `%<em>2F</em><em>2F</em>`, and decoding throws a `URIError` | `'/<em>2F</em>'` | not executed | Findings.EncodedSlashThrows | Wrapper.TagWrapper |
| src/index.js:41 | the encoded query becomes a regular expression without escaping, so its `.` matches any character | `tagWrapper(['<em>', '</em>'], '.foo', 'xfoo.foo')` gives `'<em>.foo</em><em>.foo</em>'` | `'xfoo<em>.foo</em>'` | not executed | Findings.DotMatchesAnyChar | Wrapper.TagWrapper |
| src/index.js:41 | the match is found on lower-cased text but replaced in encoded text, where the `i` flag does not relate the escapes of `É` and `é` | `tagWrapper(['<em>', '</em>'], 'É', 'é')` gives `'é'` | `'<em>é</em>'` | not executed | Findings.AccentedMatchMissed | Wrapper.TagWrapper |
| src/index.js:43-46 | the tags are part of the replacement text of `replace`, which reads `$&`, `` $` ``, `$'` and `$$` in it | `tagWrapper(['<b title="$&">', '</b>'], 'ab', 'ab')` gives `'<b title="ab">ab</b>'` | `'<b title="$&">ab</b>'` | not executed | Findings.DollarTagExpanded | Wrapper.TagWrapper |
| src/index.js:43-48 | the tags go into the encoded text unencoded, so decoding reads a `%` in a tag as the start of an escape | `tagWrapper(['<span style="width:100%">', '</span>'], 'ab', 'ab')` throws a `URIError` | `'<span style="width:100%">ab</span>'` | not executed | Findings.PercentTagThrows | Wrapper.TagWrapper |

In each row the corrected behaviour is the splice of `Wrapper.TagWrapper`, and
`Properties.TagWrapperMarksOccurrences` proves what it computes: every greedy
left-to-right occurrence of the query wrapped in the tags, the rest of the text copied.

## Left out

- AsWritten.TagWrapperAgrees: it relates the two routes only on plain text and query and
  on tags without `%` or `$`. Outside that, `Findings` shows inputs where they differ:
  texts with `/`, `.` or `É`, and tags holding `$&` or `%`.
- Stack depth: `mapQueryPosition` calls itself once per match (src/index.js:57), and
  JavaScript engines such as V8 do not eliminate tail calls, so a text with tens of
  thousands of matches ends in a `RangeError`. The model's recursion has no depth limit;
  `AsWritten.MapQueryPositionAgrees` and `AsWritten.TagWrapperAgrees` promise only that
  no `URIError` is thrown.
- AsWritten.Substitute: named groups and numbered groups (`$<name>`, `$1`) are not
  modelled as groups, because an encoded query never contains `(`; they stand for
  themselves, as in `replace` for a pattern without groups.
- Lone surrogates: `encodeURIComponent` throws on them, but a Dafny `char` is a Unicode
  scalar value, so they cannot occur.
- CaseFold.Lower: full Unicode case mapping is not modelled. Only A-Z and the Latin-1
  capitals U+00C0..U+00DE (except U+00D7) are lowered, and no character lowers to more
  than one. Characters are Unicode scalar values rather than UTF-16 code units.
- AsWritten.Canonical: the `i` flag's case folding is modelled on ASCII letters only.
  It is applied only to encoded text, which holds nothing but ASCII.
- Examples.WrapsInsideWord: states its test's behaviour with the test's query `um`, but on
  `fox jumps over` rather than the test's whole sentence. The general theorems of
  `Properties` cover the test's own text.
- Examples.WrapsEveryMatchKeepingCase: states its test's behaviour with the query `fox` on
  `Fox FOX`, where the test uses `quick brown` on
  `quick brown fox QUICK BROWN FOX quick BROWN fox` (test/index.test.js:72-80). The general
  theorems of `Properties` cover the test's own input.
- Examples.ReturnsTextWhenNotFound: states its test's behaviour with the test's query
  `canned beef`, but on `The quick brown fox` rather than the test's whole sentence. The
  general theorems of `Properties` cover the test's own text.
- Jest snapshot files and the test runner: not part of the behaviour.
- Argument types other than strings and arrays of strings (numbers, `null` for the whole
  tag list): the model's types exclude them.
