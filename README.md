# A verified model of a small Markdown-to-HTML converter

This project models the core of a small static-site generator in Dafny: the
part that turns Markdown text into a tree of HTML nodes and writes that tree
out as HTML. The model follows the Python sources file by file. Every
operation is a Dafny function. Wherever the source works with a loop, it is
also a method with that loop, proved equal to the function.

- `HtmlNode` (htmlnode.dfy): the node tree, the checking constructors
  `LeafNode` and `ParentNode`, attribute rendering with `"` escaped, and
  `to_html`.
- `TextNode` (textnode.dfy): inline spans of six kinds and their conversion
  to leaves.
- `SplitNodes` (splitnodes.dfy): `split_nodes_delimiter`. It converts at most
  one pair of delimiters per plain-text span.
- `InlineMarkdown` (inline_markdown.dfy): the scanners for image and link
  openers, the parenthesis counter that finds the closing `)`, and the passes
  that cut spans around image and link markers.
- `TextToNodes` (text_to_nodes.dfy): the fixed pipeline image, link, `**`,
  `_`, `` ` ``.
- `BlockMarkdown` (block_markdown.dfy): `markdown_to_blocks`, the segmenter
  that splits a document into blocks at blank lines.
- `BlockTypes` (blocktype.dfy): `block_to_block_type`. Each regular
  expression is written out as a predicate or scanner over the block's
  characters.
- `BlockNode` (blocknode.dfy): the block translators for paragraphs,
  headings, lists, code, quotes and nested quotes; `get_block_parent`.
- `NestedInline` (nested_inline.dfy): `text_to_children` and the
  `parse_nested_elements` tokenizer.
- `Assembler` (assembler.dfy): `track_and_manage_blocks`, with the paragraph
  merge rule, and `markdown_to_html_node`.
- `BlockTypeExamples` (blocktype_examples.dfy): the classifier on the sample
  blocks of src/test_blocknode2.py.
- `Strings` (strings.dfy): the Python string operations used throughout:
  `strip`, `find`, `split`, `join`, `startswith`, `endswith`, `lower`,
  `str(n)`, and `re.sub(r"\s+", " ", ...)`.
- `Wrappers` (wrappers.dfy): `Option` and `Result`.

Every Python exception becomes an `Err` of a `Result`, with one `Error` value
per kind of failure:

- `InvalidMarkdownSyntax`: an unpaired delimiter.
- `WrongNumberOfDelimiters`: a third delimiter, or an empty one.
- `MissingUrl`: a link or image without a url.
- `MissingValue`, `MissingTag`, `NoChildren`: the node constructors. `NoChildren` covers both an empty child list and one whose children are all None.
- `MissingQuoteLevel`: the `KeyError` of `blockquotes[1]`.
- `UnsupportedBlockType`: `get_block_parent` given a type it does not handle.

A `None` that the source puts among a parent's children is an `Option`. The
`ParentNode` constructor drops it, as the source's `filter` does.

The model follows the source code. In places the code is narrower than its
design description, and the model follows the code there:

- The segmenter only strips lines. It does not normalise fenced-code
  indentation or collapse spaces.
- A delimiter pass converts one pair per span. A third delimiter is an
  error; the pass is not re-run on the rest of the text.
- A quote only needs a `>` as its first character. An unordered list only
  needs its front to look like an item.
- The nested-quote builder puts all lines of one depth into that level, even
  lines that are not adjacent.
- The merge rule does not require the paragraph to be a single line.

## Model

| member | source | states |
|---|---|---|
| HtmlNode.NewLeaf | src/htmlnode.py:47-50 | a leaf is built exactly when it has a value or its tag is self-closing; otherwise the error is MissingValue; the leaf keeps tag, value and props and is valid |
| HtmlNode.NewParent | src/htmlnode.py:66-76 | no tag fails with MissingTag; no non-None child fails with NoChildren; otherwise the parent holds exactly the non-None children in order, and is valid when they are |
| HtmlNode.PresentMembers | src/htmlnode.py:73 | a node is among the filtered children exactly when it was a non-None input child |
| HtmlNode.PresentAppend | src/htmlnode.py:73 | filtering a concatenation concatenates the filtered parts, so order is kept |
| HtmlNode.PresentSomes | src/htmlnode.py:73 | filtering a list without None gives it back unchanged |
| HtmlNode.PropsToHtml | src/htmlnode.py:30-40 | no props, or an empty dict, render as "" |
| HtmlNode.PropsToHtmlSnoc | src/htmlnode.py:33-40 | attributes render one ` name="value"` each, in insertion order |
| HtmlNode.AttrsToHtmlAppend | src/htmlnode.py:33-40 | the rendering of two attribute lists is the concatenation of their renderings |
| HtmlNode.EscapeQuotesFacts | src/htmlnode.py:36 | an escaped value holds no `"`; a value without `"` is unchanged; `"` alone becomes `&quot;`; any other single character is kept |
| HtmlNode.EscapeQuotesAppend | src/htmlnode.py:36 | escaping works character by character: the escape of a concatenation is the concatenation of the escapes |
| HtmlNode.PropsToHtmlEscapes | src/htmlnode.py:33-37 | for any attribute name and any value with a `"` in it, the rendered attribute is ` name="…"` with the text around that `"` escaped and the `"` itself written as `&quot;` |
| HtmlNode.LeafHtml | src/htmlnode.py:52-59 | a leaf renders as its value when untagged, `<tag props />` when self-closing whatever its value, and `<tag props>value</tag>` otherwise |
| HtmlNode.ParentHtml | src/htmlnode.py:78-82 | a parent renders as its opening tag with props, its non-None children's markup in order, and its closing tag |
| HtmlNode.ChildrenHtmlAppend | src/htmlnode.py:79-81 | the children's markup is the concatenation, in order, of each child's markup |
| HtmlNode.ToHtml | src/htmlnode.py:52-82 | the loop that accumulates the children's markup, and the leaf cases, compute the serialisation of the node |
| TextNode.Span | src/textnode.py:15-18 | a span made from a text and a kind keeps both and has no url |
| TextNode.EqualsIsEquality | src/textnode.py:20-27 | `__eq__` holds exactly when text, kind and url are all equal |
| TextNode.TextNodeToHtmlNode | src/textnode.py:33-52 | conversion fails exactly for a link or image without a non-empty url, with MissingUrl; otherwise it is a valid leaf, and per kind: plain text has no tag; bold, italic and code have tag `b`, `i`, `code` over the span's text; a link is an `a` with `href` set to the url; an image is an `img` with empty value and attributes `src`, then `alt` |
| TextNode.TextNodeHtml | src/textnode.py:33-52 | the leaf a span converts to renders as the span's markup (`SpanHtml`) |
| TextNode.TaggedHtml | src/textnode.py:37-42 | a bold, italic or code leaf renders as `<tag>text</tag>` |
| TextNode.LinkHtml | src/textnode.py:43-46 | a link leaf renders as `<a href="url">text</a>`, with the url escaped |
| TextNode.ImageHtml | src/textnode.py:47-50 | an image leaf, whose value is empty, renders as `<img src="url" alt="text" />`: src before alt, both escaped |
| TextNode.Piece | src/inline_markdown.py:68-69 | a piece of text becomes one plain span when non-empty and nothing when empty |
| SplitNodes.Middle | src/splitnodes.py:24-26 | the text between the delimiters becomes "" exactly when it is all whitespace and the kind is not code, and is kept otherwise |
| SplitNodes.SplitOne | src/splitnodes.py:8-29 | one node becomes one to three nodes, or fails with one of the two delimiter errors |
| SplitNodes.DelimiterSplit | src/splitnodes.py:4-30 | the output has at least one and at most three nodes per input node; the only errors are the two delimiter errors |
| SplitNodes.DelimiterSplitAppend | src/splitnodes.py:7-30 | splitting a concatenation is splitting each part, in order: each input node contributes its own contiguous run |
| SplitNodes.DelimiterSplitPrefixErr | src/splitnodes.py:18-21 | the first failing node decides the error of the whole call |
| SplitNodes.DelimiterSplitNoText | src/splitnodes.py:10-12 | nodes that are not plain text pass through unchanged and in place |
| SplitNodes.SplitOneNoOccurrence | src/splitnodes.py:13-17 | a text node without the delimiter is returned as it is |
| SplitNodes.SplitOneUnpaired | src/splitnodes.py:18-19 | a single unpaired delimiter fails with InvalidMarkdownSyntax |
| SplitNodes.SplitOneThird | src/splitnodes.py:20-21 | a third delimiter after the pair fails with WrongNumberOfDelimiters |
| SplitNodes.SplitOneEmptyDelimiter | src/splitnodes.py:20-21 | an empty delimiter fails with WrongNumberOfDelimiters |
| SplitNodes.SplitOnePair | src/splitnodes.py:22-29 | for exactly one pair, the text is prefix + delimiter + middle + delimiter + suffix, and the result is the prefix when non-empty, the middle span (always), then the suffix when non-empty |
| SplitNodes.SplitOneKinds | src/splitnodes.py:22-29 | a split node is kept as it is, or becomes spans of plain text and the target kind only |
| SplitNodes.PiecesKinds | src/splitnodes.py:22-29 | the pieces are plain text or of the target kind |
| SplitNodes.SplitNode | src/splitnodes.py:8-29 | the loop body, with its `find` calls and early exits, computes the split of one node |
| SplitNodes.BuildPieces | src/splitnodes.py:22-29 | the appends after a pair is found build the pieces around it |
| SplitNodes.SplitNodesDelimiter | src/splitnodes.py:4-30 | the loop over the nodes computes the delimiter split of the whole list |
| InlineMarkdown.AltEnd | src/inline_markdown.py:8 | the lazy `(.*?)` group ends at a `](` at or after its start |
| InlineMarkdown.AltEndSpec | src/inline_markdown.py:8 | the group ends at the first `](` and crosses no newline; when there is none, every `](` has a newline before it |
| InlineMarkdown.Openers | src/inline_markdown.py:8-11 | every reported match lies inside the text, from the scan position on |
| InlineMarkdown.OpenersOrdered | src/inline_markdown.py:8-11 | matches come left to right and do not overlap |
| InlineMarkdown.OpenersMatch | src/inline_markdown.py:8-11 | every reported match is a `![`, or a `[` not preceded by `!`, followed by its lazy group |
| InlineMarkdown.OpenersFirst | src/inline_markdown.py:8-11 | no match is reported exactly when the pattern matches nowhere; otherwise the first one is the leftmost |
| InlineMarkdown.OpenersShaped | src/inline_markdown.py:8-11 | each match opens with its bracket and has `](` at the end of its group |
| InlineMarkdown.Closing | src/inline_markdown.py:16-25 | the closing position found holds a `)` inside the text |
| InlineMarkdown.ClosingSpec | src/inline_markdown.py:16-25 | the `)` found is the first one that brings the count from one to zero; when none is found, the count never reaches zero |
| InlineMarkdown.CountToClose | src/inline_markdown.py:16-25 | the counting loop returns the closing `)` of the url |
| InlineMarkdown.Pairs | src/inline_markdown.py:11-25 | at most one (alt, url) per match |
| InlineMarkdown.ExtractMarkdown | src/inline_markdown.py:6-27 | the loop over the matches computes the extracted pairs |
| InlineMarkdown.MatchPair | src/inline_markdown.py:11-25 | the body for one match computes that match's pair |
| InlineMarkdown.ExtractMarkdownImages | src/inline_markdown.py:6-27 | `extract_markdown_images` is the extraction with the image opener |
| InlineMarkdown.ExtractMarkdownLinks | src/inline_markdown.py:30-51 | `extract_markdown_links` is the extraction with the `(?<!!)` link opener |
| InlineMarkdown.ImageSyntaxHasNoLinks | src/inline_markdown.py:32 | when every `[` follows a `!`, no link is extracted |
| InlineMarkdown.NoCloseNoPairs | src/inline_markdown.py:17-25 | a text without `)` yields no pairs |
| InlineMarkdown.Render | src/inline_markdown.py:66 | the marker `![alt](url)` or `[alt](url)` has the length of its parts |
| InlineMarkdown.MarkerNode | src/inline_markdown.py:70 | a pair becomes a span of the marker's kind with the alt as text and the url |
| InlineMarkdown.SplitMarkerNode | src/inline_markdown.py:56-77 | the body for one node, with its loop that rebinds `current_text`, computes that node's pieces |
| InlineMarkdown.SplitNodesMarker | src/inline_markdown.py:54-78 | the loop over the nodes computes the marker split of the list |
| InlineMarkdown.SplitNodesImage | src/inline_markdown.py:54-78 | `split_nodes_image` is the marker split for images |
| InlineMarkdown.SplitNodesLink | src/inline_markdown.py:81-105 | `split_nodes_link` is the marker split for links |
| InlineMarkdown.MarkerSplitAppend | src/inline_markdown.py:56-78 | each node's pieces stay together, in input order |
| InlineMarkdown.MarkerSplitUnchanged | src/inline_markdown.py:57-63 | nodes that are not text, or text without a match, are returned unchanged |
| InlineMarkdown.CutSpans | src/inline_markdown.py:68-77 | no empty text piece is emitted; the other pieces have the marker's kind |
| InlineMarkdown.CutMarkers | src/inline_markdown.py:65-74 | the spans that are not text are exactly one span per extracted pair, in order |
| InlineMarkdown.MarkerAt | src/inline_markdown.py:66 | the rendered marker of a match is exactly the text from its opener to its `)` |
| InlineMarkdown.CutRebuild | src/inline_markdown.py:64-77 | when each marker is found in the remaining text, re-rendering the pieces gives back the text |
| InlineMarkdown.DisjointFound | src/inline_markdown.py:64-77 | for matches whose markers do not overlap, each marker is found in the text left by the previous ones |
| InlineMarkdown.SplitOneMarkerRebuild | src/inline_markdown.py:64-77 | when the matched markers do not overlap, concatenating the text pieces and re-rendering each image or link gives back the node's text |
| InlineMarkdown.NestedImageSplit | src/inline_markdown.py:59-77 | for nested markers the rebuild fails: `![a](![b](c))` splits into an image `a` with url `![b](c)` and an image `b` with url `c`, and re-rendering these spans gives `![a](![b](c))![b](c)`, not the text |
| TextToNodes.TextToTextNodes | src/text_to_nodes.py:12-19 | the pipeline fails only with a delimiter error |
| TextToNodes.MarkerSplitKeeps | src/inline_markdown.py:57-59 | a marker pass keeps the spans of every other non-text kind |
| TextToNodes.DelimiterSplitKeeps | src/splitnodes.py:10-12 | a delimiter pass keeps the spans of every other non-text kind, in order |
| TextToNodes.MarkersKept | src/text_to_nodes.py:14-18 | the images and links after the delimiter passes are those the first two passes made: they are never split again |
| TextToNodes.ImagesOfText | src/text_to_nodes.py:13-18 | the images of the result are one per extracted image pair, in order |
| TextToNodes.LinksOfText | src/text_to_nodes.py:13-18 | without images, the links of the result are one per extracted link pair, in order |
| TextToNodes.NoBracketMarkerPasses | src/text_to_nodes.py:13-15 | text without `[` leaves the image and link passes unchanged |
| TextToNodes.DelimiterSplitPlain | src/splitnodes.py:13-17 | nodes without the delimiter's first character pass unchanged |
| TextToNodes.PlainText | src/text_to_nodes.py:12-19 | text without markup becomes exactly one text span equal to the input |
| TextToNodes.EmptyText | src/text_to_nodes.py:13 | the empty text becomes one empty text span |
| TextToNodes.BoldPair | src/text_to_nodes.py:16 | one `**` pair becomes prefix, bold span and suffix |
| TextToNodes.ThirdBoldDelimiter | src/text_to_nodes.py:16 | three `**` in one plain segment fail with WrongNumberOfDelimiters |
| TextToNodes.UnclosedCode | src/text_to_nodes.py:18 | a lone backtick fails with InvalidMarkdownSyntax |
| TextToNodes.PlainDelimiters | src/text_to_nodes.py:14-18 | text without `[`, `*` and `_` reaches the code pass unchanged |
| BlockMarkdown.MarkdownToBlocks | src/block_markdown.py:1-27 | the loop over the lines computes the blocks |
| BlockMarkdown.StripLine | src/block_markdown.py:16 | stripping a line adds no newline, and stripping twice is stripping once |
| BlockMarkdown.FlushGood | src/block_markdown.py:18 | a finished block is non-empty, and its lines are the stripped lines it was joined from |
| BlockMarkdown.StepSound | src/block_markdown.py:14-20 | one line keeps every finished block good and every pending line stripped and non-empty |
| BlockMarkdown.RunSound | src/block_markdown.py:14-20 | the loop keeps that invariant |
| BlockMarkdown.BlocksGood | src/block_markdown.py:1-27 | every block is non-empty, and its lines are stripped, non-empty and joined by one newline |
| BlockMarkdown.RunBlank | src/block_markdown.py:14-20 | whitespace-only lines start no block |
| BlockMarkdown.BlankMarkdown | src/block_markdown.py:6-27 | empty or whitespace-only input gives no blocks |
| BlockMarkdown.StepKeeps | src/block_markdown.py:15-20 | one line adds its stripped form to the lines kept, when non-empty |
| BlockMarkdown.RunKeeps | src/block_markdown.py:14-20 | the loop keeps exactly the stripped non-empty lines, in order |
| BlockMarkdown.BlocksKeepLines | src/block_markdown.py:14-25 | the blocks' lines are the input's stripped non-empty lines in input order; spacing inside a line is kept |
| BlockMarkdown.RunStripped | src/block_markdown.py:15-16 | stripped non-empty lines are appended to the pending block |
| BlockMarkdown.RunPastBlock | src/block_markdown.py:17-20 | a blank line after a block finishes it and empties the pending lines |
| BlockMarkdown.RunLast | src/block_markdown.py:23-25 | the block still pending at the end is added |
| BlockMarkdown.RunJoined | src/block_markdown.py:14-27 | good blocks joined by blank lines are read back one by one |
| BlockMarkdown.Resegment | src/block_markdown.py:1-27 | segmenting the blocks joined by "\n\n" gives the same blocks |
| BlockTypes.LeadHashes | src/blocknode.py:55-62 | the count of `#` at the front stops at the first other character |
| BlockTypes.HeadingSize | src/blocknode.py:55-62 | the counting loop computes the number of leading `#` |
| BlockTypes.HeadingIff | src/blocknode.py:25 | the heading test holds exactly when `^#{1,6}( \|$)` matches |
| BlockTypes.SpaceEnd | src/blocknode.py:31 | the scan skips only whitespace and stops at the first non-whitespace character or the end |
| BlockTypes.MarkerEnd | src/blocknode.py:31 | the scan skips only `-` and `*` and stops at the first other character or the end |
| BlockTypes.ItemsFromIff | src/blocknode.py:31 | the unordered-list pattern matches exactly when, after optional whitespace, a run of `-`/`*` is followed by whitespace or the end |
| BlockTypes.UnorderedIff | src/blocknode.py:31 | the same, for the whole block |
| BlockTypes.CheckOrderedList | src/blocknode.py:39-44 | the early-return loop decides that line i, from one, starts with `i. ` for every line |
| BlockTypes.OrderedListStart | src/blocknode.py:39-44 | an ordered list starts with `1. ` |
| BlockTypes.Classify | src/blocknode.py:20-36 | the classifier never returns EMPTY |
| BlockTypes.ClassifyFirstRule | src/blocknode.py:20-36 | first match wins: a non-blank block is classified as type t exactly when the rule for t holds and no rule tested earlier does. The rules are stated independently of the scanners: heading (`#` 1 to 6 times, then a space or the end of the block), fenced code, quote, an unordered marker run followed by whitespace or the end of the block, ordered list, then paragraph |
| BlockTypes.ClassifyNone | src/blocknode.py:23-24 | None is returned exactly for whitespace-only blocks |
| BlockTypeExamples.NotOrderedOneLine | src/blocknode.py:39-44 | a block not starting with `1. ` is not an ordered list |
| BlockTypeExamples.OrderedPair | src/blocknode.py:39-44 | two lines starting `1. ` and `2. ` are an ordered list |
| BlockTypeExamples.SixHashes | src/test_blocknode2.py:15-16 | six `#` and a space make a heading |
| BlockTypeExamples.CodeFence | src/test_blocknode2.py:19-20 | a fenced block is code |
| BlockTypeExamples.QuoteLine | src/test_blocknode2.py:26-27 | a leading `>` makes a quote |
| BlockTypeExamples.DashItem | src/test_blocknode2.py:33-34 | `- a` is an unordered list |
| BlockTypeExamples.InSequence | src/test_blocknode2.py:40-44 | lines numbered `1. `, `2. ` are an ordered list |
| BlockTypeExamples.HashWithoutSpace | src/test_blocknode2.py:57-58 | `#This` is a paragraph |
| BlockTypeExamples.DashWithoutSpace | src/test_blocknode2.py:61-62 | `-Not` is a paragraph |
| BlockTypeExamples.NumberWithoutSpace | src/test_blocknode2.py:64-65 | `1.Not` is a paragraph |
| BlockTypeExamples.StartsAtTwo | src/test_blocknode2.py:68-69 | a list starting at `2. ` is a paragraph |
| BlockTypeExamples.OutOfSequence | src/test_blocknode2.py:72-73 | lines numbered `1. `, `3. ` are a paragraph |
| BlockTypeExamples.OutOfSequenceNotOrdered | src/blocknode.py:39-44 | lines numbered `1. `, `3. ` fail the ordered-list test |
| BlockNode.ParagraphBlock | src/blocknode.py:65-71 | a paragraph becomes a `p` without props |
| BlockNode.PlainParagraph | src/blocknode.py:65-71 | a paragraph without markup becomes a `p` over one leaf holding its stripped, whitespace-collapsed text |
| BlockNode.HeadingLevel | src/blocknode.py:80 | the level is `min(number of leading #, 6)` |
| BlockNode.HeadingLine | src/blocknode.py:419-423 | a heading line becomes a node without props tagged `h` followed by its capped level |
| BlockNode.NoHashHeading | src/blocknode.py:419-423 | a heading line not starting with `#` is tagged `h0` |
| BlockNode.HeadingBlock | src/blocknode.py:74-82 | `process_heading_block` translates the block's first line, with a tag starting with `h` |
| BlockNode.PlainHeading | src/blocknode.py:78-82 | k `#`, a space and plain text make `h`k over one leaf holding the text |
| BlockNode.ItemContent | src/blocknode.py:97-107 | the content of an item is a proper suffix of its line |
| BlockNode.OrderedItem | src/blocknode.py:98-100 | `n. c` has content `c` |
| BlockNode.UnorderedItem | src/blocknode.py:105-107 | `- c` or `* c` has content `c` |
| BlockNode.ListItem | src/blocknode.py:91-110 | a line makes one `li` when, stripped, it is non-empty and matches the marker pattern, and none otherwise; that `li` is over the parse of the item text, the stripped group after the marker and its spaces (`ItemText`); the line fails exactly when it is an item whose text parses to an error or to nothing |
| BlockNode.PlainItem | src/blocknode.py:104-110 | `- w` or `* w` with plain w is an `li` over the single leaf w, without the marker |
| BlockNode.ListItemsSpec | src/blocknode.py:90-110 | the items succeed exactly when every item line has its `li`; then item k is the `li` over the parse of the k-th item line's text, one per matching line |
| BlockNode.ListItemsPrefixErr | src/blocknode.py:91-110 | the first line whose content fails decides the error |
| BlockNode.ListBlock | src/blocknode.py:85-115 | no item gives None; otherwise an `ol`/`ul` whose child k is the `li` over the parse of the k-th item line's text; it fails exactly when some item line has no `li` |
| BlockNode.ProcessListBlock | src/blocknode.py:85-115 | the loop that appends to `list_items` computes the list |
| BlockNode.DropFirstLine | src/blocknode.py:129 | removing the first line leaves a suffix, and a text without newline is kept |
| BlockNode.CodeBlock | src/blocknode.py:118-136 | a code block never fails: a `pre` over a `code` over one untagged leaf holding the code text |
| BlockNode.CodeNode | src/blocknode.py:132-136 | the text is stored as it is, without inline parsing |
| BlockNode.FencedCode | src/blocknode.py:118-136 | for a fenced block, the code text is everything after the info line up to the closing fence |
| BlockNode.DropInfoLine | src/blocknode.py:129 | the info line and its newline are removed |
| BlockNode.QuoteLine | src/blocknode.py:149-153 | a dequoted line has no whitespace at either end |
| BlockNode.QuoteLines | src/blocknode.py:146-153 | each line is dequoted, in order |
| BlockNode.NumberedLikeIff | src/blocknode.py:158-160 | the test on a leading digit, `.` and space is the `any` over the nine prefixes `1. ` to `9. ` |
| BlockNode.QuoteChildren | src/blocknode.py:155-179 | item-like content becomes one child, a `ul` when a line starts with `- ` and an `ol` otherwise; other content gives only present children |
| BlockNode.QuoteBlock | src/blocknode.py:139-179 | a quote becomes a `blockquote` |
| BlockNode.ContentLines | src/blocknode.py:146-153 | the loop over the lines computes each line's dequoted content, in order |
| BlockNode.IsList | src/blocknode.py:156-162 | the loop that breaks at the first item-like line decides whether any line starts with `- ` or `1. ` to `9. ` |
| BlockNode.ContentChildren | src/blocknode.py:164-179 | the list or inline parse of the contents computes the quote's children |
| BlockNode.ProcessQuoteBlock | src/blocknode.py:139-179 | the nested test, the content loop and the child builders compute the quote |
| BlockNode.PlainQuote | src/blocknode.py:139-179 | `> w`, for plain text w, becomes a `blockquote` over one leaf holding w |
| BlockNode.PlainQuoteChildren | src/blocknode.py:176-179 | plain content is parsed into one leaf |
| BlockNode.QuoteText | src/blocknode.py:140-153 | `> w` takes the flat path and has the one content line w |
| BlockNode.QuoteLineOf | src/blocknode.py:149-151 | `> w` dequotes to w |
| BlockNode.NotContained | src/blocknode.py:142 | one line without `>` after its marker is not nested |
| BlockNode.DepthFrom | src/blocknode.py:196-206 | the depth scan stops at a character that is not `>`; it consumes at least one and at most two characters per level, so depth 0 means the line does not start with `>` |
| BlockNode.DepthMarkers | src/blocknode.py:197-204 | `k` markers `> ` before content not starting with `>` give depth `k`, with the content starting after the `2k` marker characters |
| BlockNode.QuoteDepth | src/blocknode.py:196-204 | the while loop over `>`, each optionally followed by one space, computes the depth and the content start |
| BlockNode.GroupLine | src/blocknode.py:192-214 | one line of the grouping loop: skipped when blank, else closes the current run on a change of depth |
| BlockNode.ProcessNestedBlockquotes | src/blocknode.py:183-221 | the loop grouping lines into runs, followed by the builder, computes the nested quote |
| BlockNode.GroupContents | src/blocknode.py:208-214 | after one line, the contents of depth d are those before plus the line's content when it has depth d |
| BlockNode.GroupAllContents | src/blocknode.py:191-218 | the contents of depth d are the contents of the lines of depth d, in order |
| BlockNode.StructureContents | src/blocknode.py:184-218 | the level contents are the block's lines of that depth, adjacency aside |
| BlockNode.CollectLevel | src/blocknode.py:236-239 | the loop extending `level_contents` collects the contents of every run at the level, in order |
| BlockNode.MaxLevel | src/blocknode.py:230 | the maximum level is one of the runs' levels and bounds all of them |
| BlockNode.LevelsErr | src/blocknode.py:235-271 | a failure at a deeper level is the failure of every outer level |
| BlockNode.QuoteLevel | src/blocknode.py:241-271 | an empty level makes nothing; otherwise a `blockquote` whose last child is the deeper quote |
| BlockNode.QuoteAt | src/blocknode.py:235-271 | every quote built is a `blockquote` without props, at a level that has contents |
| BlockNode.LevelsQuote | src/blocknode.py:271 | each level built from the deepest outward is a `blockquote` over a non-empty level |
| BlockNode.DeeperIsLast | src/blocknode.py:267-271 | the quote of level d+1 is the last child of the quote of level d |
| BlockNode.BuildNested | src/blocknode.py:225-274 | runs give a node or an error, never None, and the node is a `blockquote` |
| BlockNode.NoOuterLevel | src/blocknode.py:274 | runs without depth-1 contents fail |
| BlockNode.LevelZeroIgnored | src/blocknode.py:225-274 | the level loop stops at level 1, so once some run is at level 1 or deeper, dropping every level-0 run (lines opened by no `>`) leaves the result of `build_nested_blockquotes` unchanged, failures included |
| BlockNode.BuildNestedBlockquotes | src/blocknode.py:225-274 | the loop filling the `blockquotes` map from the deepest level computes the nested quote |
| BlockNode.BuildLevel | src/blocknode.py:236-271 | one pass of that loop adds the quote of its level to the map, or fails as that level fails |
| BlockNode.NestedQuotes | src/blocknode.py:183-221 | a nested quote is a `blockquote` |
| BlockNode.GetBlockParent | src/blocknode.py:277-292 | each block type is sent to its translator and gets its tag; EMPTY fails with UnsupportedBlockType; paragraphs, headings and code give a node whenever they succeed |
| NestedInline.ToLeavesSpec | src/blocknode.py:47-52 | converting spans succeeds exactly when each span converts; it keeps one valid leaf per span, in order |
| NestedInline.ToLeavesSucceeds | src/blocknode.py:47-52 | the conversion succeeds exactly when every span converts, and fails only with MissingUrl |
| NestedInline.ToLeavesValues | src/blocknode.py:47-52 | a successful conversion holds one valid leaf per span, each that span's own leaf, in order |
| NestedInline.ToLeavesPrefixErr | src/blocknode.py:50-51 | the first span that fails decides the error |
| NestedInline.TextToChildren | src/blocknode.py:47-52 | the loop appending one leaf per span computes the children |
| NestedInline.PlainChildren | src/blocknode.py:47-52 | plain text becomes one untagged leaf |
| NestedInline.CloseFrom | src/blocknode.py:302-304 | a close found is an occurrence of the delimiter |
| NestedInline.CloseSpec | src/blocknode.py:302-304 | the close found is the nearest delimiter past a non-empty group without newline; without one there is no close |
| NestedInline.SearchFrom | src/blocknode.py:311 | a match found has a non-empty group between two delimiters inside the text |
| NestedInline.SearchSpec | src/blocknode.py:311 | `re.search` finds the leftmost match of `d(.+?)d`, or reports that there is none |
| NestedInline.LazyCloseUnique | src/blocknode.py:302-304 | the lazy group has one end |
| NestedInline.FirstOf | src/blocknode.py:310-313 | the pattern found has a non-empty delimiter and its match lies inside the text |
| NestedInline.FirstMatch | src/blocknode.py:307-313 | the same for the whole pattern table |
| NestedInline.FirstMatchSpec | src/blocknode.py:310-313 | the first pattern that matches anywhere wins, in the order bold, italic, code, with its leftmost match; nothing is found exactly when none matches |
| NestedInline.Content | src/blocknode.py:323 | the group of a match is shorter than the text |
| NestedInline.Rest | src/blocknode.py:329 | the text after a match is shorter than the text |
| NestedInline.ScanPrefixErr | src/blocknode.py:316-320 | a failing prefix fails the whole text |
| NestedInline.ScanInnerErr | src/blocknode.py:323-326 | a failing group fails the whole text |
| NestedInline.ScanNodeErr | src/blocknode.py:324-326 | a node that cannot be built fails the whole text |
| NestedInline.ScanMatch | src/blocknode.py:315-330 | the prefix's children and the new node come first, in source order |
| NestedInline.ParseNestedElements | src/blocknode.py:295-338 | the while loop that consumes the text and extends the children computes the parse |
| NestedInline.MatchNodes | src/blocknode.py:312-330 | the body for one match computes what it adds, or the error |
| NestedInline.EmptyNested | src/blocknode.py:296-297 | the empty text parses to one empty untagged leaf |
| NestedInline.PlainNested | src/blocknode.py:332-336 | text without markup parses to one leaf |
| NestedInline.BoldMatch | src/blocknode.py:302 | `**w**` matches the bold pattern over the whole text |
| NestedInline.BoldWord | src/blocknode.py:295-338 | `**w**` parses to a `b` over one leaf w |
| Assembler.CollapsedEnd | src/blocknode.py:363 | the collapsed text of a non-blank block never ends in a space |
| Assembler.MergesWhen | src/blocknode.py:396-400 | a paragraph merges exactly by the short-fragment rule or the "newlines" rule; the trailing-space rule never fires |
| Assembler.SplitRuns | src/blocknode.py:409 | the split on runs of two or more newlines has at least one piece |
| Assembler.SplitRunsPieces | src/blocknode.py:409 | no piece holds a blank line, and a text without one is kept whole |
| Assembler.GoodBlockWhole | src/blocknode.py:409-412 | on a segmenter block, the split is a no-op |
| Assembler.PartNode | src/blocknode.py:410-423 | a blank part makes nothing; any other part makes one node |
| Assembler.PartsSpec | src/blocknode.py:410-423 | the parts succeed exactly when every non-blank part translates; then the nodes are, in order, the translation of each non-blank part (a heading line with `HeadingLine`, a paragraph part with `ParagraphBlock`) |
| Assembler.PartsOne | src/blocknode.py:410-423 | one non-blank part makes its paragraph or heading |
| Assembler.PartsPrefixErr | src/blocknode.py:410-423 | the first failing part decides the error |
| Assembler.ProcessParts | src/blocknode.py:410-423 | the loop over the parts computes their nodes |
| Assembler.TrackStep | src/blocknode.py:351-428 | advances past a merged pair by two and past any other block by one; a blank block adds nothing; a merging pair is one paragraph over the two blocks' collapsed texts joined by a space, and fails exactly when that paragraph does; another paragraph gives the translation of each non-blank part of the block, a heading block that of each non-blank line, and on failure some such part fails; any other block gives exactly `get_block_parent`'s node, and fails exactly when it does |
| Assembler.TrackBlock | src/blocknode.py:352-428 | the loop body computes one step |
| Assembler.TrackAndManageBlocks | src/blocknode.py:341-430 | the while loop with `i += 1` and `i += 2` computes the tracked nodes |
| Assembler.TrackBlank | src/blocknode.py:355-357 | blank blocks add nothing |
| Assembler.EmptyPage | src/blocknode.py:445-455 | the empty page renders as `<div><p></p></div>` |
| Assembler.DocumentOf | src/blocknode.py:445-457 | no nodes give the empty page; otherwise a `div` over the non-None nodes, failing only when all are None |
| Assembler.MarkdownToHtmlNode | src/blocknode.py:433-457 | the root, when built, is a `div` without props |
| Assembler.MarkdownToHtml | src/blocknode.py:433-457 | segmenting, tracking and wrapping compute the document |
| Assembler.BlankDocument | src/blocknode.py:445-455 | empty or blank markdown gives the empty page |
| Assembler.OneParagraph | src/blocknode.py:433-457 | one plain paragraph gives a `div` over a `p` over its collapsed text |
| Strings.StripFacts | src/block_markdown.py:15-16 | `strip` keeps a contiguous part of its input without whitespace at either end, empty exactly for whitespace-only input; everything removed before and after that part is whitespace |
| Strings.FindSpec | src/splitnodes.py:13-14 | `find` returns the first occurrence at or after its start, or -1 when there is none |
| Strings.SplitOnceSpec | src/inline_markdown.py:67 | `split(sep, 1)` gives the whole text when sep is absent, else the parts before and after its first occurrence |
| Strings.JoinSplit | src/block_markdown.py:18 | joining the lines of a text by newline gives the text back |
| Strings.SplitJoin | src/block_markdown.py:18 | splitting lines without newlines, joined by newline, gives them back |
| Strings.NatToStringDigits | src/blocknode.py:42 | `str(i)` is made of digits |
| Strings.NatToStringValue | src/blocknode.py:42 | `str(i)` is i's decimal form: its digits read in base ten give i, with no leading zero unless i is 0 |
| Strings.Lower | src/blocknode.py:399 | `lower` maps each character on its own and keeps the length |
| Strings.CollapseHasNoNewline | src/blocknode.py:70 | the collapsed text holds no newline |
| Strings.WordCount | src/blocknode.py:387-388 | `len(s.split())` is 0 exactly when the text is all whitespace |
| Strings.WordCountJoin | src/blocknode.py:387-388 | `len(" ".join(ws).split()) == len(ws)` for non-empty words without whitespace |

## Left out

- src/main.py: it only prints sample objects, which is I/O.
- `HTMLNode.to_html`, which only raises, and every `__repr__`: they are debug output.
- The `isinstance` checks and their TypeError (src/htmlnode.py:20-21, 71-72): Dafny's types rule those inputs out.
- The text of each exception message: each kind of failure is one `Error` value.
- HTML escaping of text content: the source does none either.
- Python's regular-expression engine. Each pattern used is written out as a scanner over the characters it inspects.
- Whitespace is the character set of `str.isspace` as listed in `Strings.IsSpace`. Unicode categories beyond that list are not modelled.
- Strings.Lower: covers ASCII letters only, not Unicode case mapping.
- Strings.IsDigit: covers ASCII digits only, not every Unicode decimal that `\d` accepts.
- `markdown.splitlines()` is modelled as a split on "\n" only. The other line breaks `splitlines` recognises (such as "\r") are not modelled.
- TextToNodes.TextToTextNodes: the ten-node sample of src/test_text_to_nodes.py:8-35 is not proved as a concrete example. The image, link, bold and error lemmas cover its parts.
- BlockNode.GetBlockParent: its contract pins each result's tag and the UnsupportedBlockType case. It does not pin the children beyond what each translator's own contract states.
- BlockNode.QuoteBlock: its contract states only the tag. `PlainQuote` fixes the children for one plain line. `PlainQuote` also asks that the text hold no `>`, so that the flat path is taken.
- BlockNode.ParagraphBlock: its contract states only the tag. `PlainParagraph` fixes the children for text without markup.
- Assembler.MarkdownToHtmlNode: its contract states the root. `BlankDocument` and `OneParagraph` give whole documents.
- The first merge rule, `current_text.endswith(" ")`, is kept in `Assembler.Merges` as written. `CollapsedEnd` shows it can never hold, and `MergesWhen` states the rule without it.
- InlineMarkdown.SplitOneMarkerRebuild: requires that the matched markers do not overlap. For nested markers the source emits the inner marker a second time, so re-rendering the spans does not give back the text; `NestedImageSplit` shows this on `![a](![b](c))`.
- BlockTypeExamples: the blocks of src/test_blocknode2.py are proved in shortened forms, `#This` for `#This is not a heading` and `1. a\n3. b` for `1. First item\n3. Third item`. Each keeps the characters that decide the block's type. The full literals make the proofs far more costly and are not proved.
- The props of a node are a sequence of name/value entries, so the model allows the same name twice. A Python dict cannot hold that.
