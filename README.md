# Static site generator core in Dafny

This project models the markdown-conversion core of a small Python static-site generator:

- **The inline span parser** (`src/common.py`, with the `TextNode` record of `src/textnode.py`). It turns a line of markdown into an ordered list of `TextNode(text, text_type, url)`. Three delimiter passes split on `**`, `_` and `` ` ``. A link pass and an image pass follow; each is driven by a fixed regular expression and by `str.find`. Finally, `text_node_to_html_node` turns each node into a leaf record.
- **The block segmenter and classifier** (`src/blocktype.py`). `markdown_to_blocks` splits a document on blank lines. `block_to_blocktype` applies first-match-wins predicates. `get_header_number` counts `#` characters.

The model follows the Python code as written, quirks included.

## Modules

- `Wrappers` (`wrappers.dfy`): `Option` and `Result`. Each Python `raise` becomes a `Failure` that carries an `Error`.
- `PyStr` (`pystr.dfy`): the Python `str` operations the core relies on. These are `find`, `split`, `"sep".join`, occurrence counting, slicing with negative and out-of-range indices, `strip`, `splitlines`, and the decimal rendering of an `int` in an f-string.
- `TextNodes` (`textnode.dfy`): `TextType`, `TextNode`, `__eq__` and `__repr__`.
- `Patterns` (`patterns.dfy`): the two regular expressions, written as explicit scanners.
  - `!\[(.*?)\]\((.*?)\)` for images.
  - `[^!]\[(.*?)\]\((.*?)\)` for links.
  - `re.findall` is written as a left-to-right, non-overlapping scan.
  - `IsLazyMatch` states what a lazy match is. The shortest alt text comes first. For that alt text, the shortest url closed by `)` is taken. A longer alt text is tried only when no url closes. `.` never crosses a newline.
- `Common` (`common.dfy`):
  - leaf conversion;
  - the delimiter pass `split_nodes_delimiter`;
  - the link and image passes `split_nodes_link` and `split_nodes_image`;
  - their composition `text_to_textnodes`.
- `Blocks` (`blocktype.dfy`): `BlockType`, `markdown_to_blocks`, the block predicates, `block_to_blocktype` and `get_header_number`.

## Behaviour of the code worth noting

The model keeps these behaviours of the Python code:

- **Delimiter parity.** No parity check is made. An odd number of delimiters is not an error: `"a**b"` gives `TEXT "a"`, `BOLD "b"`.
- **Pass order.** The link pass runs before the image pass.
- **Links at the start.** The link pattern uses `[^!]`, which consumes one character rather than looking behind. A link at index 0 is never found.
- **Which nodes are scanned.** The link and image passes scan nodes of every type, not only plain ones.
- **Trailing text.** The text left after the last match is cut to `end_index` characters. So the parts of a node need not cover its text.
- **Empty nodes.** Empty TEXT nodes are kept, not pruned.
- **Lost urls.** A TEXT node that the delimiter pass splits is rebuilt from its pieces without its url.
- **Nested references.** In `x[![a](b)` the link pattern matches `x[![a](b)`, its `[^!]` consuming the `x`, with the label `![a`; the reference the link pass cuts out is `[![a](b)`. The link pass runs first, so the image inside it never becomes an image node.
- **Whitespace-only blocks.** Blocks are dropped only when they are empty before stripping. A whitespace-only fragment yields `""`.
- **Block separator.** Blocks are split on exactly `"\n\n"`, not on runs of blank lines.
- **Code after italic.** The italic pass runs before the code pass, so an underscore inside backticks is still split as italic.
- **Header number.** `get_header_number` counts the `#` characters among the first five characters, wherever they are. It fails on text shorter than five characters.

## Model

| member | source | states |
|---|---|---|
| TextNodes.Equals | src/textnode.py:17-20 | `__eq__` holds exactly when text, type and url all agree, that is, when the two records are equal |
| TextNodes.EqualsIsEquivalence | src/textnode.py:17-20 | `__eq__` is reflexive, symmetric and transitive |
| TextNodes.UrlDistinguishes | src/textnode.py:12-20 | a node built without a url (url defaults to None) never equals the same node with a url |
| TextNodes.Repr | src/textnode.py:22-26 | the repr starts with `TextNode(<text>, <TextType.X>` and ends with `)`; the enum member's `str`, `TextType.X`, is `TextNodes.TypeName` |
| TextNodes.ReprUrl | src/textnode.py:22-26 | the repr with a url is the repr without it, with `, <url>` inserted before the closing parenthesis; the url is left out exactly when it is None |
| Common.TextNodeToHtmlNode | src/common.py:6-19 | TEXT gives an untagged leaf and only TEXT does; BOLD/ITALIC/CODE give `b`/`i`/`code` leaves with the node's text and no props; LINK gives `a` with props `[("href", url)]`; IMAGE gives `img` with value `""` and props `[("src", url), ("alt", text)]` |
| Common.LeafRoundTrip | src/common.py:6-19 | the conversion loses nothing: for a node whose url is on a link or image only, the leaf determines the node again |
| Common.DelimiterPass | src/common.py:23-40 | the pass fails exactly when the node list is empty (NoNodesToSplit) or the delimiter is not `**`, `_` or `` ` `` (InvalidSyntax, checked second); on success it returns at least as many nodes as it was given |
| Common.SplitNode | src/common.py:31-39 | one node's contribution: a non-TEXT node is copied, a TEXT node becomes its piece nodes; its meaning is stated by `Common.SplitNodeShape` and `Common.NonTextCopied` |
| Common.SplitAll | src/common.py:30-39 | the loop over the nodes; it returns at least as many nodes as it is given, and `Common.SplitAllAppend` states that it works node by node |
| Common.SplitNodesDelimiter | src/common.py:23-40 | the loop that appends to `new_nodes` computes exactly the delimiter pass |
| Common.SplitTextNode | src/common.py:34-39 | the inner loop over `split_text` emits the pieces of `str.split`, with odd pieces typed and even pieces TEXT |
| Common.SplitNodeShape | src/common.py:34-39 | a TEXT node with k delimiter occurrences gives exactly k+1 nodes; joining their texts with the delimiter gives back the original text; types alternate TEXT/typed from TEXT; no piece has a url; an odd k is accepted |
| Common.DelimiterPassThrough | src/common.py:30-32 | the nodes whose type is neither TEXT nor the pass's type form the same subsequence in the output as in the input: unchanged and in their original relative order |
| Common.SplitAllAppend | src/common.py:30-39 | the loop over the nodes distributes over concatenation: each node's output depends on that node alone, in input order |
| Common.NonTextCopied | src/common.py:30-32 | every node that is not TEXT, including one that already has the pass's type, is copied unchanged between the output of the nodes before it and the output of the nodes after it |
| Common.SplitAllIdle | src/common.py:30-39 | when no TEXT node contains the delimiter or carries a url, the loop returns its input |
| Common.DelimiterPassIdle | src/common.py:23-40 | a non-empty list whose TEXT nodes neither contain the delimiter nor carry a url passes through a valid delimiter's pass unchanged |
| Common.UnpairedDelimiter | src/common.py:34-39 | an unpaired `**` is not an error: `"a**b"` gives `TEXT "a"`, `BOLD "b"` |
| Common.SingleTextPass | src/common.py:30-39 | a pass over one TEXT node gives exactly the piece nodes of `split` |
| Common.DelimiterPassPlain | src/common.py:30-39 | a TEXT node whose text does not contain the delimiter (`find` gives -1) passes through as itself |
| Patterns.CloseFrom | src/common.py:42-46 | finds the shortest newline-free url closed by `)`, or reports that none exists |
| Patterns.BracketFrom | src/common.py:42-46 | finds the shortest newline-free bracket text after which `](` and a closing url follow, with no shorter candidate, or reports that none exists |
| Patterns.MatchAt | src/common.py:42-46 | a match at position p is a lazy match of the pattern starting at p; when there is none, no match of the pattern starts at p |
| Patterns.FindAll | src/common.py:42-46 | every reported match lies inside the text, after the scan start |
| Patterns.FindAllLazy | src/common.py:42-46 | every match `findall` reports is a lazy match of the pattern |
| Patterns.FindAllLeftmost | src/common.py:42-46 | the scan is leftmost and non-overlapping: each match starts at the first position where a match exists, after the previous match has ended |
| Patterns.FindAllOrdered | src/common.py:42-46 | reported matches do not overlap and are in left-to-right order |
| Patterns.FindAllNoOpen | src/common.py:42-46 | with no `[` after the scan start, nothing is reported |
| Patterns.MatchSpelling | src/common.py:42-46 | a match reads `[alt](url)` after its first character, and that character is `!` exactly for the image pattern |
| Patterns.MatchesOpen | src/common.py:42-46 | every reported match has `[` in its second position; an image match starts with `!`, a link match with any other character |
| Patterns.ExtractMarkdownImages | src/common.py:42-43 | `extract_markdown_images`: the (alt text, url) pairs of the image matches that `Patterns.FindAll` reports from position 0, in order; what those matches are is stated by `Patterns.FindAllLazy`, `Patterns.FindAllLeftmost` and `Patterns.MatchSpelling` |
| Patterns.ExtractMarkdownLinks | src/common.py:45-46 | `extract_markdown_links`: the (label, url) pairs of the link matches that `Patterns.FindAll` reports from position 0, in order; what those matches are is stated by `Patterns.FindAllLazy`, `Patterns.FindAllLeftmost` and `Patterns.MatchSpelling` |
| Patterns.ImagesNeedBang | src/common.py:42-43 | text without `!` has no image references |
| Patterns.PatternsDisjoint | src/common.py:42-46 | no position starts both an image match and a link match |
| Common.LinkOverImage | src/common.py:42-46 | the two patterns can still overlap: in `x[![a](b)` the link pattern reports the label `![a` with url `b`, and the image pattern reports `![a](b)` |
| Common.LinkSwallowsImage | src/common.py:97-102 | `x[![a](b)` gives TEXT `x` and LINK `![a` to `b`; the image inside the link is never an image node |
| Common.LinksNeedPrecedingChar | src/common.py:45-46 | a link is reported only where a `[` has at least one character before it |
| Common.LinkAtStartNotFound | src/common.py:45-46 | `[a](b)` at the start of the text is not found as a link |
| Common.MatchesNeedBracket | src/common.py:42-46 | text without `[` has no images or links |
| Common.CutStep | src/common.py:59-64 | one iteration of the loop over the matches; its meaning is stated by `Common.CutStepSpells` and `Common.CutStepSpelling` |
| Common.CutAll | src/common.py:55-64 | the whole loop over the matches; its meaning is stated by `Common.CutAllSpells` and `Common.CutAllShape` |
| Common.SplitByMatches | src/common.py:53-68 | one node's contribution to the image or link pass; its meaning is stated by `Common.SplitByMatchesShape` and `Common.SplitByMatchesSpells` |
| Common.SplitAllMatches | src/common.py:52-68 | the loop over the nodes of the image or link pass; it returns at least as many nodes as it is given |
| Common.OneMatchSplit | src/common.py:53-68 | a node with a single match and nothing after the reference becomes the text before the reference followed by the match's node |
| Common.SingleMatchPass | src/common.py:48-70 | a pass over a one-node list returns what that node becomes |
| Common.MatchPass | src/common.py:48-70 | the image or link pass fails exactly when the node list is empty (NoNodesToSplit); on success it returns at least as many nodes |
| Common.SplitNodesMatching | src/common.py:48-70 | the outer loop over the nodes computes exactly the image or link pass |
| Common.SplitNodesImage | src/common.py:48-70 | `split_nodes_image` is the pass with the image pattern |
| Common.SplitNodesLink | src/common.py:72-94 | `split_nodes_link` is the pass with the link pattern |
| Common.SplitNodeMatching | src/common.py:53-68 | the loop that re-finds each match, cuts the text and appends the truncated remainder computes exactly the per-node result |
| Common.MatchRebuilt | src/common.py:59 | the f-string rebuilt from a match's groups (`Common.Rebuilt`: `![alt](url)` for images at src/common.py:59, `[label](url)` for links at src/common.py:83) occurs in the text where the match's reference starts, and ends where the match ends |
| Common.ReportedAnchored | src/common.py:42-46 | the rebuilt references of the reported matches occur in the text in order and without overlap |
| Common.CutStepSpells | src/common.py:58-64 | one loop step keeps "spelled-out nodes + remaining text = node text", does not move past the match's reference, and sets `end_index` to at least 4 |
| Common.CutStepSpelling | src/common.py:59-64 | when `find` succeeds, one step moves the text before the match and the match itself into the output; `end_index` is the find position plus the reference's length |
| Common.CutAllSpells | src/common.py:58-64 | at every iteration of the loop, spelling out the nodes emitted so far and appending the remaining text gives back the node's text |
| Common.CutAllShape | src/common.py:58-64 | the loop emits 2·k nodes: a TEXT node without url before each match, then the IMAGE/LINK node carrying the match's text and url |
| Common.CutAllSpellsText | src/common.py:53-64 | the same invariant holds after the whole loop over the matches that `findall` reported, and `end_index` is then at least 4 |
| Common.SplitByMatchesShape | src/common.py:53-68 | a node with no matches is passed through unchanged whatever its type; otherwise the output has 2·k nodes, one TEXT node followed by the IMAGE/LINK node with the match's groups for each of the k matches, plus at most one trailing TEXT node |
| Common.SplitByMatchesSpells | src/common.py:55-66 | the output spells a prefix of the node's text, and all of it exactly when the remainder is no longer than `end_index` |
| Common.TrailingTextCut | src/common.py:65-66 | `![i](u)abcdefgh` gives `""`, IMAGE `i`, then TEXT `abcdefg`: the remainder is cut to `end_index` = 7 characters |
| Common.TrailingTextLoop | src/common.py:58-64 | on that text the loop leaves remainder `abcdefgh` with `end_index` 7 |
| Common.TrailingTextImages | src/common.py:42-43 | on that text `findall` reports the single image `("i", "u")` |
| Common.SplitAllMatchesNone | src/common.py:67-68 | when no node contains a match, the pass returns its input unchanged |
| Common.MatchPassNoBrackets | src/common.py:52-68 | a non-empty list whose texts contain no `[` passes through a match pass unchanged |
| Common.TextToTextNodes | src/common.py:97-102 | the composed passes always yield at least one node |
| Common.TextToTextNodesPlain | src/common.py:97-102 | text with no `*`, `_`, `` ` `` or `[` gives the single TEXT node holding it |
| Common.DelimitedOnly | src/common.py:97-102 | when the three delimiter passes leave no `[`, the link and image passes change nothing |
| Common.BoldThenLink | src/common.py:97-102 | `a **b** [c](d)` gives TEXT `a `, BOLD `b`, TEXT ` `, LINK `c` to `d`; the space before `[` is consumed by the link pattern and stays in the text before the link |
| Common.ItalicBeforeCode | src/common.py:97-102 | `` `a_b` `` gives `""`, CODE `a`, ITALIC ``b` ``: the italic pass splits inside the backticks before the code pass runs |
| Blocks.KeptStripped | src/blocktype.py:16-18 | the fragments that are kept, stripped; never more blocks than fragments |
| Blocks.MarkdownBlocks | src/blocktype.py:13-19 | `markdown_to_blocks` as a function; its meaning is stated by `Blocks.MarkdownBlocksSeparated`, `Blocks.BlocksStripped` and `Blocks.MarkdownBlocksJoin` |
| Blocks.MarkdownToBlocks | src/blocktype.py:13-19 | the loop that appends stripped non-empty fragments computes exactly the fragments of `split("\n\n")`, empty ones dropped and the rest stripped, in source order |
| Blocks.KeptStrippedAppend | src/blocktype.py:16-18 | the filter-and-strip loop distributes over concatenation, so the fragment order is kept |
| Blocks.KeptStrippedOne | src/blocktype.py:17-18 | an empty fragment is dropped and any other is stripped; a whitespace-only fragment yields `""` |
| Blocks.BlocksStripped | src/blocktype.py:17-18 | no returned block begins or ends with whitespace |
| Blocks.StripKeepsAbsent | src/blocktype.py:18 | stripping cannot create an occurrence of a string that was absent |
| Blocks.BlocksHaveNoBlankLine | src/blocktype.py:15-18 | if no fragment contains `"\n\n"`, no block does |
| Blocks.MarkdownBlocksSeparated | src/blocktype.py:13-19 | no returned block contains `"\n\n"` |
| Blocks.MarkdownBlocksJoin | src/blocktype.py:13-19 | when every fragment is non-empty and already stripped, joining the blocks with `"\n\n"` gives back the document |
| Blocks.IsHeadingBlock | src/blocktype.py:35-38 | the six-prefix test of `is_heading_block`; its meaning is stated by `Blocks.HeadingIffHashes` |
| Blocks.IsCodeBlock | src/blocktype.py:40-43 | the fence test of `is_code_block`; its meaning is stated by `Blocks.CodeIffFences` |
| Blocks.IsQuoteBlock | src/blocktype.py:45-49 | every line starts with `>`; see `Blocks.AllStartWith` and `Blocks.EmptyBlockIsQuote` |
| Blocks.IsUnorderedListBlock | src/blocktype.py:51-55 | every line starts with `"- "`; see `Blocks.AllStartWith` |
| Blocks.IsOrderedListBlock | src/blocktype.py:57-62 | line i starts with `"{i+1}. "`; see `Blocks.NumberedFrom` |
| Blocks.BlockToBlockType | src/blocktype.py:21-33 | `block_to_blocktype`; its first-match-wins order is stated by `Blocks.BlockTypeOrder` |
| Blocks.HeadingIffHashes | src/blocktype.py:35-38 | a block is a heading exactly when it starts with 1 to 6 `#` followed by a space |
| Blocks.CodeIffFences | src/blocktype.py:40-43 | a block is code exactly when its first three and last three characters are backticks (which may overlap, so "```" is code) |
| Blocks.AllStartWith | src/blocktype.py:45-55 | the early-exit loop returns true exactly when every line starts with the prefix; it is vacuously true for no lines |
| Blocks.NumberedFrom | src/blocktype.py:57-62 | true exactly when line k starts with `"{i+k+1}. "` for every k; that marker, the f-string at src/blocktype.py:60, is `Blocks.Numbered` |
| Blocks.BlockTypeOrder | src/blocktype.py:21-33 | the block type is the first of heading, code, quote, unordered list, ordered list whose predicate holds, and paragraph exactly when none holds |
| Blocks.EmptyBlockIsQuote | src/blocktype.py:45-49 | `""` has no lines and classifies as QUOTE |
| Blocks.QuoteLinesAreQuote | src/blocktype.py:45-49 | a block whose every line starts with `>` is a QUOTE |
| Blocks.BulletLinesAreUnorderedList | src/blocktype.py:51-55 | a block whose every line starts with `"- "` is an UNORDERED_LIST |
| Blocks.NumberedLinesAreOrderedList | src/blocktype.py:57-62 | a block whose line i starts with `"{i+1}. "` is an ORDERED_LIST |
| Blocks.OrderedNumbering | src/blocktype.py:57-62 | `"1. a\n2. b"` is an ORDERED_LIST |
| Blocks.SkippedNumberIsParagraph | src/blocktype.py:57-62 | `"1. a\n3. b"` is a PARAGRAPH |
| Blocks.GetHeaderNumber | src/blocktype.py:64-69 | fails (IndexOutOfRange) exactly on text shorter than 5 characters; otherwise returns the number of `#` among the first five characters |
| Blocks.HeaderNumberOfHeading | src/blocktype.py:64-69 | for a heading with no further `#` in its first five characters, the count is its level, capped at 5 |
| Blocks.HeaderNumberCountsText | src/blocktype.py:64-69 | the level-1 heading `"# ##x"` counts 3 |
| PyStr.Find | src/common.py:60 | `find` returns the first occurrence, or -1 exactly when there is none |
| PyStr.Split | src/common.py:34 | `str.split(sep)`: at least one piece; its meaning is stated by `PyStr.SplitJoin`, `PyStr.SplitCount` and `PyStr.SplitPiecesFree` |
| PyStr.Join | src/common.py:34 | `sep.join(pieces)`, the inverse of `split` by `PyStr.SplitJoin` |
| PyStr.Count | src/common.py:34 | the number of non-overlapping occurrences of `sep`, related to `split` by `PyStr.SplitCount` |
| PyStr.SplitJoin | src/common.py:34 | joining the pieces of `split(sep)` with `sep` gives back the string |
| PyStr.SplitCount | src/common.py:34 | `split(sep)` gives one more piece than there are non-overlapping occurrences of `sep` |
| PyStr.SplitPiecesFree | src/common.py:34 | no piece of `split(sep)` contains `sep` |
| PyStr.SliceTo | src/common.py:62 | `text[:i]`; its meaning is stated by `PyStr.SliceParts` |
| PyStr.SliceFrom | src/common.py:64 | `text[i:]`; its meaning is stated by `PyStr.SliceParts` |
| PyStr.SliceParts | src/common.py:62-66 | `s[:i] + s[i:]` is `s` for every bound; `s[:i]` has the clamped length; a negative bound `-k` leaves the last k characters to `s[i:]`; a bound past the end leaves all of `s` to `s[:i]` |
| PyStr.Strip | src/blocktype.py:18 | `strip` returns the infix left after removing the leading and trailing whitespace, and that infix neither starts nor ends with whitespace |
| PyStr.StripAllSpace | src/blocktype.py:18 | a whitespace-only string strips to `""` |
| PyStr.SplitLines | src/blocktype.py:46 | no line contains a line boundary, and there are no lines exactly for the empty string |
| PyStr.SplitLinesJoin | src/blocktype.py:46 | for text broken only by `\n` and not ending in one, joining the lines with `\n` gives back the text |
| PyStr.DecimalString | src/blocktype.py:60 | `{i + 1}` renders as decimal digits with no leading zero |
| PyStr.DecimalRoundTrip | src/blocktype.py:60 | reading the rendered digits back gives the number |

## Left out

- `htmlnode.py` is not part of this model. So `LeafNode`'s own checks and the `to_html` serialization are not modelled. The leaf produced by `text_node_to_html_node` is the record `Common.Leaf`.
- `markdown_to_htmlnode` and `extract_title` (the document-to-HTML layer that `src/main.py` and the tests import from `common`) are not modelled; `src/common.py` at this revision does not define them.
- `src/main.py` is not modelled. It copies files, walks directories, reads templates and prints.
- The final `case _` of `text_node_to_html_node` (`src/common.py:20-21`) is not modelled. The `TextType` enum is closed, so this case cannot be reached.
- The `text_type=TextType` default of the constructor (`src/textnode.py:12`) is not modelled. It defaults to the enum class rather than a member, and every caller passes a type. The url default of `None` is modelled.
- Whitespace and line boundaries are ASCII only.
  - `PyStr.Strip` treats space, `\t`, `\n`, `\v`, `\f`, `\r` and `\x1c`-`\x1f` as whitespace.
  - `PyStr.SplitLines` breaks at `\n`, `\r`, `\r\n`, `\v`, `\f` and `\x1c`-`\x1e`.
  - Unicode whitespace and Unicode line separators are not modelled.
- Python's general `re` engine is not modelled. Only the two fixed patterns are, as scanners.
- Exceptions are not modelled as control flow. Each raise is a `Failure` result, and a failing pass inside `text_to_textnodes` cannot happen, because every pass there receives a non-empty list and a valid delimiter.
- TextToTextNodes: its own contract states only that the result is non-empty. Its output is characterized by the pass lemmas and by the worked examples (`Common.ItalicBeforeCode`, `Common.TextToTextNodesPlain`, `Common.DelimitedOnly`, `Common.BoldThenLink`, `Common.LinkSwallowsImage`). No closed form is given for arbitrary text.
- Common.MatchPassNoBrackets and Common.SplitAllMatchesNone cover only nodes without matches. Nodes with matches are covered by `Common.SplitByMatchesShape` and `Common.SplitByMatchesSpells`, which describe the shape and the spelled-out prefix rather than every character of the output.
