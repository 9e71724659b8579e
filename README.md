# WhiteWind to Leaflet conversion, modelled in Dafny

This project models the text-processing core of the WhiteWind-to-Leaflet converter. The
converter turns WhiteWind blog entries, which are Markdown, into Leaflet `pub.leaflet.document`
records. The model covers:

- **Record keys.** The `toBase32Sortable` and `generateTID` timestamp-identifier encoder
  (the AT Protocol "TID" shape) lives in module `Tid`.
- **Small helpers.** `hexToRgb` is in `Color`. `convertBlobUrlToAtUri` is in `BlobUri`; it
  rewrites `xrpc/com.atproto.sync.getBlob` URLs and bare CIDs to `at://` URIs.
- **The line-based converter** of `src/lib/convert.ts` and `script.js`:
  - `parseRichText` is in `RichText`;
  - `createBlock`, `finishCurrent` and the line state machine `parseMarkdownToBlocks` are in
    `LineParser`;
  - `convertEntriesToLeaflet` is in `Entries`.

  The two files are near-identical revisions of one converter. `LineParser` takes a
  `Revision` (`Library` for `convert.ts`, `Script` for `script.js`). Only the branches where
  the two differ look at it:
  - a `>` line;
  - the horizontal rule flush;
  - clearing the pending text when a code fence opens.
- **The syntax-tree converter** of `src/lib/markdown-parser.ts`:
  - `getBytePosition` is in `Utf8`;
  - `extractFacets` and `processInlineContent` are in `InlineContent`;
  - `nodeToBlock` and `parseMarkdownToBlocks` are in `AstBlocks`.

  The Markdown syntax tree that remark produces is the input datatype `Mdast`.

Supporting modules:

- `Leaflet`: the block and facet records of `src/lib/types.ts`.
- `JsString`: JavaScript's `trim`, `split`, `startsWith`, `includes` and `padStart`.
- `Patterns`: hand-written matchers for every regular expression the core uses, with `exec`,
  global `exec` loops and `replace(re, '$1')`.
- `PatternSpecs`: a declarative characterisation of each matcher.
- `Wrappers`: `Option` and `Result`.

Strings are sequences of Unicode code points. UTF-8 byte lengths follow section 3 of RFC 3629
(1 to 4 bytes per code point). JavaScript's `decodeURIComponent` is a function parameter of
every operation that reaches `convertBlobUrlToAtUri`. The current time and the random clock
identifier are parameters of `GenerateTid`.

Where a loop in the source builds its result step by step, the model has a `method` with
that loop, proved equal to a specification function. The properties are then proved about
that function. These methods are:

- `Tid.ToBase32Sortable`;
- the `exec` and rewrite loops of `RichText.ParseRichText`;
- `LineParser.ParseMarkdownToBlocks` and `LineParser.FinishCurrent`;
- `InlineContent.ExtractFacets` and `InlineContent.ProcessInlineContent`;
- the blockquote and list accumulation and the tree walk in `AstBlocks`.

## Model

| member | source | states |
|---|---|---|
| Tid.ToBase32Sortable | src/lib/convert.ts:9-17 | the digit loop plus padding computes `Encode(num)`: `Digits(num)` most-significant first, left-padded with '2' to 13 characters, and "2222222222222" for zero |
| Tid.GenerateTid | src/lib/convert.ts:19-25 | the identifier is the encoding of `nowMs*1000*1024 + clockId`, for a clock identifier below 1024 |
| Tid.DecodeEncode | src/lib/convert.ts:9-17 | every output uses only the sortable alphabet, and decoding it as base 32 gives back the input number |
| Tid.DigitsDecode | script.js:19-23 | the unpadded digit string of `n` decodes to `n` |
| Tid.ZeroIsPadding | src/lib/convert.ts:10 | zero encodes as thirteen '2' characters, i.e. the padding digit is the zero digit |
| Tid.EncodeLength | src/lib/convert.ts:16 | every number below 32^13 encodes to exactly 13 characters of the alphabet |
| Tid.DigitsLength | script.js:19-26 | the unpadded digits fit in `k` characters exactly when the number is below 32^k |
| Tid.EncodeDigitAt | script.js:19-26 | character `12-k` of the identifier is `BASE32_SORTABLE[(n / 32^k) % 32]`: digits come most-significant first |
| Tid.PaddingDigitAt | script.js:25-26 | padding positions also hold the alphabet digit of `(n / 32^k) % 32`, so padding never changes the decoded value |
| Tid.DecodeOrder | src/lib/convert.ts:3 | for equal-length strings over the alphabet, lexicographic order is exactly numeric order of the decoded values |
| Tid.EncodeOrder | src/lib/convert.ts:3-17 | for numbers below 32^13, `a < b` holds if and only if the encoding of `a` is lexicographically smaller than that of `b` |
| Tid.TidBits | script.js:32-45 | the low 10 bits of the identifier's integer are the clock identifier and the high bits are `nowMs*1000` |
| Tid.TidOrder | src/lib/convert.ts:19-25 | a strictly later millisecond gives a lexicographically greater identifier; within one millisecond identifiers order by clock identifier, in both directions |
| Tid.DigitOrder | src/lib/convert.ts:3 | the alphabet is in ascending character order: comparing two digit characters is comparing their values |
| Color.HexToRgbAccepts | src/lib/convert.ts:27-32 | a colour is returned if and only if the input is six hex digits of either case, optionally preceded by one '#'; the channels are then the three two-digit pairs read in base 16, each at most 255 |
| Color.HashIsOptional | script.js:52-59 | `s` and `"#" + s` give the same result, or both none |
| Color.HexToRgbRoundTrip | script.js:52-59 | every colour with channels in 0..255, formatted as six lower-case hex digits with or without '#', parses back to itself |
| BlobUri.GetBlobRewritten | src/lib/convert.ts:34-41 | when the first `xrpc/com.atproto.sync.getBlob?did=D&cid=C` occurrence has a non-empty `D` without '&' and a maximal `C` without '&' or space, the result is `at://` + decoded `D` + `/com.whtwnd.blog.entry/` + `C` |
| BlobUri.CidRewritten | src/lib/convert.ts:43-46 | without a getBlob URL, the leftmost `bafk…`/`bafyb…` run of lower-case letters and digits becomes `at://<did>/com.atproto.blob/<run>` |
| BlobUri.NoGetBlobMatch | src/lib/markdown-parser.ts:144-150 | a URL that does not contain the getBlob prefix never takes the first branch |
| BlobUri.PlainUrlUnchanged | src/lib/convert.ts:48 | a URL containing neither the getBlob prefix nor 'bafk' nor 'bafyb' is returned unchanged |
| BlobUri.ResultIsUrlOrAtUri | src/lib/markdown-parser.ts:142-161 | the result is either the input URL or an `at://` URI |
| PatternSpecs.LinkAtIff | src/lib/convert.ts:56 | the link matcher at `i` returns exactly the match of `\[([^\]]+)\]\(([^)]+)\)` starting at `i`, as a declarative description of its groups |
| PatternSpecs.BoldAtIff | src/lib/convert.ts:79 | the bold matcher returns exactly the `\*\*([^*]+)\*\*` match starting at `i` |
| PatternSpecs.ItalicAtIff | src/lib/convert.ts:87 | the italic matcher returns exactly the match of `\*([^*]+)\*` not preceded and not followed by '*' |
| PatternSpecs.CodeAtIff | src/lib/convert.ts:95 | the code matcher returns exactly the `` `([^`]+)` `` match starting at `i` |
| PatternSpecs.ImageAtIff | src/lib/convert.ts:176 | the image matcher returns exactly the `!\[([^\]]*)\]\(([^)]+)\)` match starting at `i` |
| PatternSpecs.GetBlobAtIff | src/lib/convert.ts:35 | the getBlob matcher returns exactly the match with a greedy `[^&]+` DID group, then `&cid=`, then a greedy `[^&\s]+` CID group |
| PatternSpecs.CidAtIff | src/lib/convert.ts:44 | the CID matcher returns exactly the maximal `bafk`/`bafyb` run of `[a-z0-9]` (at least one) starting at `i` |
| Patterns.NextMatchLeftmost | src/lib/convert.ts:59 | `exec` from `lastIndex` returns the leftmost position where the pattern matches, and no earlier position matches |
| Patterns.LeftmostMatch | src/lib/convert.ts:59 | if position `i` matches and nothing between `from` and `i` does, `exec` returns the match at `i` |
| Patterns.AllMatches | src/lib/convert.ts:59-66 | a global `exec` loop yields well-formed matches at or after the start position, in order and non-overlapping |
| Patterns.NoMarkerNoMatch | src/lib/convert.ts:106-108 | a text without the pattern's leading marker character has no match, and `replace` leaves it unchanged |
| Utf8.ByteLenAppend | src/lib/markdown-parser.ts:14-17 | the UTF-8 length of a concatenation is the sum of the lengths |
| Utf8.BytePositionMonotone | src/lib/markdown-parser.ts:14-17 | `getBytePosition(t, k)` is monotone in `k` |
| Utf8.BytePositionStrict | src/lib/markdown-parser.ts:14-17 | it is strictly increasing up to the end of the text |
| Utf8.BytePositionAtEnd | src/lib/markdown-parser.ts:14-17 | at or past the end of the text it is the UTF-8 length of the whole text |
| Utf8.ByteLenSlice | src/lib/markdown-parser.ts:14-17 | the byte position of `k` is that of `j` plus the UTF-8 length of the characters between, and never exceeds the text's length |
| RichText.ParseRichText | src/lib/convert.ts:51-111 | the `exec` loops, the right-to-left rewrite loop, the sort and the three `replace` calls compute `RichTextOf`, the result the lemmas below describe |
| RichText.CollectLinkReplacements | script.js:99-114 | the link `exec` loop collects one replacement per match, in order, with the link text and the rewritten target URI |
| RichText.ApplyLinkReplacements | script.js:116-127 | the reverse loop computes the rewritten plaintext and the link facets in push order |
| RichText.SortByStart | src/lib/convert.ts:103-104 | the facets are sorted by ascending `byteStart` and are a permutation of the unsorted list |
| RichTextProperties.RewriteIsSplice | script.js:116-127 | rewriting right to left gives the left-to-right splice of every link's text in place of its whole match |
| RichTextProperties.RewriteFacetsOnOriginal | script.js:116-127 | the `j`-th pushed facet belongs to the `j`-th link from the right; its `byteStart` is measured on the partly rewritten text, so it equals the byte position of the link in the original text |
| RichTextProperties.LinkReplacementsSplice | script.js:102-127 | link matches do not overlap, and splicing their texts in is exactly `text.replace(linkRegex, '$1')` |
| RichTextProperties.LinkFacetMembers | src/lib/convert.ts:68-75 | a facet is a link facet if and only if it starts at a link's byte position in the original text, is as wide as the link text in UTF-8 and carries the rewritten URI |
| RichTextProperties.MarkupFacetsAreMatchFacets | script.js:132-166 | each markup loop pushes one facet per match, starting at the match's byte position and exactly as wide as the content group in UTF-8 |
| RichTextProperties.MarkupMembers | src/lib/convert.ts:79-101 | a facet is in a markup loop's output if and only if it is the facet of one of the pattern's matches |
| RichTextProperties.RichTextPlaintext | src/lib/convert.ts:106-110 | the plaintext is the link-rewritten text with bold, then italic, then code markers removed, in that order |
| RichTextProperties.RichTextFacets | src/lib/convert.ts:103-110 | a facet is in the result if and only if it is a link facet or the bold, italic or code facet of a match in the link-rewritten text |
| RichTextProperties.RichTextFacetsShape | script.js:168-177 | the facets are sorted by `byteStart`; they are absent if and only if no link, bold, italic or code match was found |
| RichTextProperties.NoMarkupUnchanged | src/lib/convert.ts:51-111 | a text with no '[', '*' or '`' comes back unchanged and without facets |
| LineParser.ParseMarkdownToBlocks | src/lib/convert.ts:113-207 | the line loop computes `MarkdownToBlocks`, which is never empty |
| LineParser.FinishCurrent | src/lib/convert.ts:119-125 | blank pending text leaves the state unchanged; otherwise its trimmed rich text becomes a block of the pending type, and the pending text and type reset |
| LineParser.FlushPending | script.js:196-200 | non-blank pending text becomes a block of the pending type and is cleared, and the block type is kept |
| LineParserProperties.CreateBlockDefaults | script.js:297-338 | header level defaults to 1; code language defaults to 'javascript'; a horizontal rule has no text; an unknown type makes a text block with the supplied facets |
| LineParserProperties.EmptyContent | script.js:286 | empty content gives exactly one text block with empty plaintext and no facets |
| LineParserProperties.HeaderLevel | src/lib/convert.ts:137-141 | a line starting with '#' gives a header whose level is the number of leading '#' characters, at least 1 |
| LineParserProperties.HashCountIsLeadingRun | src/lib/convert.ts:137-138 | the level counts exactly the maximal run of '#' at the start of the line |
| LineParserProperties.HeadersFromHashLines | src/lib/convert.ts:127-143 | the header blocks of the output are exactly one header per '#' line, in line order |
| LineParserProperties.RunHeaders | script.js:192-206 | from any text, quote or code state, running the lines adds exactly the headers of the '#' lines |
| LineParserProperties.RunFromAppend | src/lib/convert.ts:127-202 | running two line sequences one after the other is running their concatenation |
| LineParserProperties.LibraryQuoteLine | src/lib/convert.ts:168-174 | in `convert.ts` a '>' line with non-blank text closes pending text and emits its own blockquote block at once |
| LineParserProperties.LibraryBlankQuoteLine | src/lib/convert.ts:168-174 | in `convert.ts` a '>' line with blank text closes earlier pending text, and its own text stays pending with the blockquote type (the early return of `finishCurrent`) |
| LineParserProperties.LibraryQuoteRun | src/lib/convert.ts:168-174 | in `convert.ts` consecutive '>' lines with non-blank text give one blockquote block each, in order |
| LineParserProperties.ScriptQuoteOpens | script.js:236-247 | in `script.js` the first '>' line flushes other pending text and starts a blockquote with the stripped line and '\n' |
| LineParserProperties.ScriptQuoteRun | script.js:236-247 | in `script.js` consecutive '>' lines accumulate into one pending blockquote, each stripped of '>' and following whitespace and ended with '\n' |
| LineParserProperties.CodeBodyRun | script.js:274-278 | inside a code fence, lines that trigger no other rule are appended untrimmed with '\n' |
| LineParserProperties.CodeFence | script.js:218-233 | an opening fence outside a code block first flushes non-blank pending text as its own block; then the plain lines and the closing fence emit one code block of those lines, each followed by '\n', with language 'javascript'; `script.js` keeps blank pending text in front, `convert.ts` clears it |
| LineParserProperties.RuleLine | script.js:208-215 | a run of three or more '-', '*' or '_' emits a horizontal rule after flushing pending text; `convert.ts` also resets the block type |
| LineParserProperties.RunKeepsInlineType | src/lib/convert.ts:196-199 | starting from text, quote or code, the block type never becomes anything else |
| Entries.FirstTruthy | src/lib/convert.ts:239-242 | `a \|\| b \|\| …` yields the first truthy operand, and none when all are falsy |
| Entries.ContentOf | src/lib/convert.ts:239 | content is `value.content`, else `content`, else `body`, else ""; it is non-empty exactly when one of them is truthy |
| Entries.TitleOf | src/lib/convert.ts:240 | title is `value.title`, else `title`, else `name`, else 'Untitled Post'; never empty |
| Entries.SubtitleOf | src/lib/convert.ts:241 | the description is `value.subtitle` when that is truthy, else `subtitle` when that is truthy, else absent |
| Entries.CreatedAtOf | src/lib/convert.ts:242 | `publishedAt` is `value.createdAt` when that is truthy, else `createdAt` when that is truthy, else absent |
| Entries.EntryToDocument | src/lib/convert.ts:237-258 | an entry fails with the missing-content error exactly when it has no content; otherwise the document's title is the defaulted title (never empty), its description the subtitle and its `publishedAt` the creation date, each present only when truthy, and it has the author, the publication URI and one page of the entry's blocks |
| Entries.MapOrThrow | src/lib/convert.ts:237-259 | `map` with a throwing callback fails with the first element's error, and otherwise maps every element in order |
| Entries.EntriesToLeaflet | src/lib/convert.ts:236-262 | one document per entry in input order, or the missing-content error when any entry lacks content |
| InlineContent.ExtractFacets | src/lib/markdown-parser.ts:22-62 | the three `exec` loops compute `TextFacets`: bold, then italic, then code facets over whole matches, offset by the base |
| InlineContent.CollectSpanFacets | src/lib/markdown-parser.ts:30-37 | one facet per match of the pattern, spanning the match's bytes plus the base offset |
| InlineContent.ProcessInlineContent | src/lib/markdown-parser.ts:67-137 | the loop over the inline nodes computes `ProcessInline`, whose properties follow |
| InlineContentProperties.ProcessPlain | src/lib/markdown-parser.ts:71-134 | the plaintext is, in order, text values, a link's direct text children, the recursive plaintext of strong and emphasis, inline code values and '\n' per break; other nodes add nothing |
| InlineContentProperties.TextFacetsBounds | src/lib/markdown-parser.ts:22-62 | a text node's facets lie within `[base, base + UTF-8 length of its value]`, one per bold, italic and code match |
| InlineContentProperties.SpanFacetsBounds | src/lib/markdown-parser.ts:41-48 | one facet per match, each inside the text's byte range |
| InlineContentProperties.ProcessWithin | src/lib/markdown-parser.ts:67-137 | every facet satisfies `0 <= byteStart <= byteEnd <= UTF-8 length of the returned plaintext`, including the nested facets that are not rebased |
| InlineContentProperties.MarkedNodeFacet | src/lib/markdown-parser.ts:77-130 | a link, strong, emphasis or inline code node adds one facet spanning exactly the bytes appended for it, with the link (rewritten URI), bold, italic or code feature |
| InlineContentProperties.ProcessFacetsAbsent | src/lib/markdown-parser.ts:136 | the facets are absent if and only if no node yields one |
| InlineContentProperties.FromGrows | src/lib/markdown-parser.ts:71-134 | the facet list never shrinks, and grows exactly when some node yields a facet |
| AstBlocks.NodeToBlock | src/lib/markdown-parser.ts:166-287 | the node conversion method computes `Convert`, described case by case below |
| AstBlocks.GatherQuote | src/lib/markdown-parser.ts:210-231 | the blockquote accumulation loop computes the blockquote block |
| AstBlocks.GatherItem | src/lib/markdown-parser.ts:257-277 | the list item accumulation loop computes the item's text block |
| AstBlocks.ListToBlocks | src/lib/markdown-parser.ts:248-281 | the list loop computes one block per list item with the list's prefix |
| AstBlocks.ParseMarkdownToBlocks | src/lib/markdown-parser.ts:293-323 | the tree walk computes `AstMarkdownToBlocks` |
| AstBlocks.AstMarkdownToBlocks | src/lib/markdown-parser.ts:301-320 | never empty: the blocks of the walk when there are any, else one text block of the raw markdown without facets |
| AstBlocks.WalkAppend | src/lib/markdown-parser.ts:301-310 | the walk preserves top-level order: the blocks of a concatenation are the concatenation of the blocks |
| AstBlocksProperties.WalkCons | src/lib/markdown-parser.ts:301-310 | the first node's blocks come first, followed by those of the rest |
| AstBlocksProperties.HeadingBlock | src/lib/markdown-parser.ts:168-177 | a heading gives a header with level = depth and the inline plaintext; facets are absent if and only if no inline node yields one |
| AstBlocksProperties.ImageParagraphBlock | src/lib/markdown-parser.ts:182-200 | an image-only paragraph gives the text "[Image: <alt, or 'Image' when empty>]" with exactly one link facet from 0 to its UTF-8 length, carrying the rewritten URL |
| AstBlocksProperties.ParagraphBlock | src/lib/markdown-parser.ts:202-207 | every other paragraph gives a text block, even when its plaintext is empty |
| AstBlocksProperties.BlockquoteBlock | src/lib/markdown-parser.ts:210-231 | one blockquote whose text is its paragraphs' plaintexts joined by '\n', empty ones before the first non-empty one dropped, and whose facets are all paragraph facets, absent when none |
| AstBlocksProperties.CodeNodeBlock | src/lib/markdown-parser.ts:233-240 | a code block with plaintext = value, with a language exactly when `lang` is a non-empty string, and then equal to it |
| AstBlocksProperties.OtherNodeBlocks | src/lib/markdown-parser.ts:242-246 | a thematic break gives a horizontal rule; a stray list item or any other node gives no block |
| AstBlocksProperties.ListItemBlocks | src/lib/markdown-parser.ts:254-279 | exactly one text block per list item, in order: the prefix followed by its paragraphs' concatenated plaintext (nested lists dropped), with their facets, absent when none |
| AstBlocksProperties.ListPrefixDigits | src/lib/markdown-parser.ts:257-259 | an ordered list's prefix is the decimal digits of `start`, or of 1 when `start` is absent or 0, then ". "; otherwise it is the literal 'â€¢ ' |
| AstBlocksProperties.FallbackBlock | src/lib/markdown-parser.ts:312-320 | a tree whose nodes yield no block gives one text block of the raw markdown without facets |
| AstBlocksProperties.AstBlocksWithin | src/lib/markdown-parser.ts:293-323 | every facet of every block lies within the UTF-8 bytes of its block's plaintext |

## Left out

- The remark parser (`src/lib/markdown-parser.ts:294-297`) is a foreign library. Its syntax
  tree is the input of `AstBlocks.ParseMarkdownToBlocks`, and the `markdown` string is used
  only for the fallback.
- `decodeURIComponent` is a function parameter, not a model of percent-decoding. Its
  exception on malformed escapes is not modelled.
- `Date.now` and `Math.random` (`generateClockId`) are parameters of `Tid.GenerateTid`. The
  clock identifier is required to be below 1024, as `Math.floor(Math.random() * 1024)`
  guarantees.
- `nowMs * 1000` is a JavaScript double. Above 2^53 it loses precision, which the model does
  not capture, because it uses unbounded integers. The BigInt shift and `|` are
  `* 1024 + clockId`, which agrees with the source as long as the clock identifier is below
  1024.
- `Tid.TidOrder` and `Tid.EncodeOrder` hold only below 32^13 (the 13-character width). Larger
  values produce longer strings, which the encoder does not truncate and which the model
  reproduces.
- JavaScript strings are UTF-16 code units: indices, `substring` and regex positions count
  units, and `TextEncoder` replaces lone surrogates. The model indexes code points, so inputs
  with characters outside the Basic Multilingual Plane can have positions that differ from
  the source's. Byte lengths agree for well-formed text.
- Non-string JSON field values of an entry (numbers, objects) are not modelled. Each field is
  an optional string, and truthiness is "present and non-empty".
- The `{block: …}` wrapper objects, the `$type` strings and JSON key order are not
  modelled. Each block is a datatype constructor.
- `createBlock`'s `authorDid` argument is never used by the source and is not a parameter.
- The per-entry `generateTID()` call at `src/lib/convert.ts:238` is left out, because its
  result is never used.
- `LineParser.FinishCurrent` only models the closure's effect on the three variables
  (`blocks`, `currentBlock`, `blockType`) it captures.
- The converter does not promise that facets slice out the annotated text, and the model
  does not claim it. The model reproduces the source's offsets:
  - Bold, italic and code facets in `parseRichText` are measured on the text before markers
    are removed. After the first marked span, a facet's offsets still count the markers of
    earlier spans (`src/lib/convert.ts:81-108`).
  - Facets of nested strong and emphasis content, and of the second and later paragraphs of
    a blockquote or list item, are not shifted by the text before them
    (`src/lib/markdown-parser.ts:105-107`, `:220-222`, `:265-269`). List facets are also not
    shifted by the item prefix.
  - The syntax-tree converter does not sort its facets.

  For the syntax-tree converter the model proves the bounds instead
  (`InlineContentProperties.ProcessWithin`, `AstBlocksProperties.AstBlocksWithin`). For
  `parseRichText` it proves where each facet starts and how wide it is.
- The line-based converter's facets can extend past the final plaintext for the reason
  above. No bound is stated for them; `RichTextProperties.RichTextFacets` describes them
  exactly instead.
- The DOM and user-interface functions of `script.js` (form reading, clipboard, downloads,
  ZIP) and the authentication modules are not part of this model.
- Image blocks with blob references (`src/lib/types.ts:47-62`) are not modelled, because no
  modelled code builds them.
- The converter's plaintext is not always free of markup, and its facets do not always
  slice out the annotated text or ascend by `byteStart`: `parseRichText` only removes
  markers and does not rebase facets, and the syntax-tree converter emits facets in node
  order. The model states what the code computes.
