/** The block layer of src/blocktype.py: cutting a document into blocks at
    blank lines, and classifying a block by first-match-wins predicates. */
module Blocks {
  import opened Wrappers
  import opened PyStr

  /** The six block kinds; the enum is closed. */
  datatype BlockType = Paragraph | Heading | Code | Quote | UnorderedList | OrderedList

  /** The separator between blocks: one blank line. */
  const BlankLine: string := "\n\n"

  // =====================================================================
  // markdown_to_blocks

  /** The blocks made from the fragments of the split: a fragment that is
      empty is dropped; every other one is kept, stripped, in order. */
  function KeptStripped(fragments: seq<string>): (blocks: seq<string>)
    ensures |blocks| <= |fragments|
    decreases |fragments|
  {
    if |fragments| == 0 then []
    else
      var last := fragments[|fragments| - 1];
      KeptStripped(fragments[..|fragments| - 1]) + (if last != "" then [Strip(last)] else [])
  }

  /** The blocks of a document. */
  function MarkdownBlocks(markdown: string): seq<string> {
    KeptStripped(Split(markdown, BlankLine))
  }

  /** `markdown_to_blocks(markdown)` */
  method MarkdownToBlocks(markdown: string) returns (blocks: seq<string>)
    ensures blocks == MarkdownBlocks(markdown)
  {
    blocks := [];
    var splitBlocks := Split(markdown, BlankLine);
    for i := 0 to |splitBlocks|
      invariant blocks == KeptStripped(splitBlocks[..i])
    {
      assert splitBlocks[..i + 1][..i] == splitBlocks[..i];
      if splitBlocks[i] != "" {
        blocks := blocks + [Strip(splitBlocks[i])];
      }
    }
    assert splitBlocks[..|splitBlocks|] == splitBlocks;
  }

  /** Keeping and stripping works fragment by fragment: the blocks of two
      runs of fragments are the blocks of the first followed by those of
      the second. With `KeptStrippedOne` this determines the blocks. */
  lemma {:induction false} KeptStrippedAppend(a: seq<string>, b: seq<string>)
    ensures KeptStripped(a + b) == KeptStripped(a) + KeptStripped(b)
    decreases |b|
  {
    if |b| == 0 {
      assert a + b == a;
    } else {
      var b' := b[..|b| - 1];
      assert (a + b)[..|a + b| - 1] == a + b';
      KeptStrippedAppend(a, b');
    }
  }

  /** A single fragment gives no block when it is empty and its stripped
      form otherwise; a fragment of whitespace only gives the empty block. */
  lemma KeptStrippedOne(f: string)
    ensures f == "" ==> KeptStripped([f]) == []
    ensures f != "" ==> KeptStripped([f]) == [Strip(f)]
    ensures f != "" && (forall k :: 0 <= k < |f| ==> IsSpace(f[k])) ==> KeptStripped([f]) == [""]
  {
    assert [f][..0] == [];
    if forall k :: 0 <= k < |f| ==> IsSpace(f[k]) {
      StripAllSpace(f);
    }
  }

  /** Neither begins nor ends with whitespace. */
  predicate Trimmed(block: string) {
    block == [] || (!IsSpace(block[0]) && !IsSpace(block[|block| - 1]))
  }

  /** No block begins or ends with whitespace. */
  lemma {:induction false} BlocksStripped(fragments: seq<string>)
    ensures forall i :: 0 <= i < |KeptStripped(fragments)| ==> Trimmed(KeptStripped(fragments)[i])
    decreases |fragments|
  {
    if |fragments| > 0 {
      var init := fragments[..|fragments| - 1];
      var last := fragments[|fragments| - 1];
      BlocksStripped(init);
      var blocks := KeptStripped(fragments);
      var tail := if last != "" then [Strip(last)] else [];
      assert blocks == KeptStripped(init) + tail;
      StripTrimmed(last);
      assert forall j :: 0 <= j < |tail| ==> Trimmed(tail[j]);
      AllTrimmedConcat(KeptStripped(init), tail);
    }
  }

  lemma StripTrimmed(s: string)
    ensures Trimmed(Strip(s))
  {
  }

  lemma AllTrimmedConcat(a: seq<string>, b: seq<string>)
    requires forall i :: 0 <= i < |a| ==> Trimmed(a[i])
    requires forall i :: 0 <= i < |b| ==> Trimmed(b[i])
    ensures forall i :: 0 <= i < |a + b| ==> Trimmed((a + b)[i])
  {
  }

  /** Every block is a piece of text that lies between two blank lines
      of the document, so no block contains a blank line. */
  lemma {:induction false} BlocksHaveNoBlankLine(fragments: seq<string>)
    requires forall i :: 0 <= i < |fragments| ==> Find(fragments[i], BlankLine) == -1
    ensures forall i :: 0 <= i < |KeptStripped(fragments)| ==> Find(KeptStripped(fragments)[i], BlankLine) == -1
    decreases |fragments|
  {
    if |fragments| > 0 {
      var init := fragments[..|fragments| - 1];
      var last := fragments[|fragments| - 1];
      BlocksHaveNoBlankLine(init);
      var blocks := KeptStripped(fragments);
      assert Find(last, BlankLine) == -1;
      StripKeepsAbsent(last, BlankLine);
      forall k | 0 <= k < |blocks| ensures Find(blocks[k], BlankLine) == -1 {
        if k < |KeptStripped(init)| {
          assert blocks[k] == KeptStripped(init)[k];
        }
      }
    }
  }

  /** Stripping cannot make a string contain what it did not contain. */
  lemma StripKeepsAbsent(s: string, pat: string)
    ensures Find(Strip(s), pat) != -1 ==> Find(s, pat) != -1
  {
    AbsentFromInfix(s, pat, |s| - |StripLeft(s)|, Strip(s));
  }

  /** The blocks of a document never contain a blank line. */
  lemma MarkdownBlocksSeparated(markdown: string)
    ensures forall i :: 0 <= i < |MarkdownBlocks(markdown)| ==> Find(MarkdownBlocks(markdown)[i], BlankLine) == -1
  {
    SplitPiecesFree(markdown, BlankLine);
    BlocksHaveNoBlankLine(Split(markdown, BlankLine));
  }

  /** Fragments that are all non-empty and already stripped come out as
      they went in. */
  lemma {:induction false} KeptStrippedClean(fragments: seq<string>)
    requires forall i :: 0 <= i < |fragments| ==> fragments[i] != "" && Strip(fragments[i]) == fragments[i]
    ensures KeptStripped(fragments) == fragments
    decreases |fragments|
  {
    if |fragments| > 0 {
      var init := fragments[..|fragments| - 1];
      var last := fragments[|fragments| - 1];
      assert fragments == init + [last] by {
        ConcatLast(fragments);
      }
      KeptStrippedClean(init);
      assert KeptStripped(fragments) == KeptStripped(init) + [Strip(last)];
    }
  }

  lemma ConcatLast(xs: seq<string>)
    requires |xs| > 0
    ensures xs == xs[..|xs| - 1] + [xs[|xs| - 1]]
  {
  }

  /** A document whose blank-line-separated fragments are non-empty and
      carry no surrounding whitespace is given back by joining its blocks
      with a blank line. */
  lemma MarkdownBlocksJoin(markdown: string)
    requires forall i :: 0 <= i < |Split(markdown, BlankLine)| ==>
      Split(markdown, BlankLine)[i] != "" && Strip(Split(markdown, BlankLine)[i]) == Split(markdown, BlankLine)[i]
    ensures Join(MarkdownBlocks(markdown), BlankLine) == markdown
  {
    KeptStrippedClean(Split(markdown, BlankLine));
    SplitJoin(markdown, BlankLine);
  }

  // =====================================================================
  // The block predicates

  /** The number of `#` a text starts with. */
  function HashRun(s: string): (n: nat)
    ensures n <= |s|
    ensures forall k :: 0 <= k < n ==> s[k] == '#'
    ensures n < |s| ==> s[n] != '#'
    decreases |s|
  {
    if |s| > 0 && s[0] == '#' then 1 + HashRun(s[1..]) else 0
  }

  /** `is_heading_block(markdown)`: starts with one of the six prefixes. */
  predicate IsHeadingBlock(markdown: string) {
    StartsWith(markdown, "# ") || StartsWith(markdown, "## ") || StartsWith(markdown, "### ")
    || StartsWith(markdown, "#### ") || StartsWith(markdown, "##### ") || StartsWith(markdown, "###### ")
  }

  /** `n` hash signs.
      The ensures spell the body out element by element: they help the
      solver and are not properties of the source. */
  function Hashes(n: nat): (r: string)
    ensures |r| == n && forall k :: 0 <= k < n ==> r[k] == '#'
  {
    seq(n, k => '#')
  }

  /** The run of `#` ends at the first other character. */
  lemma {:induction false} HashRunOf(s: string, n: nat)
    requires n < |s| && s[n] != '#'
    requires forall k :: 0 <= k < n ==> s[k] == '#'
    ensures HashRun(s) == n
    decreases n
  {
    if n > 0 {
      assert forall k :: 0 <= k < n - 1 ==> s[1..][k] == s[k + 1];
      HashRunOf(s[1..], n - 1);
    }
  }

  /** A text starts with exactly `n` hash signs and then a space when it
      starts with `n` hash signs and a space. */
  lemma HashPrefix(markdown: string, n: nat)
    ensures StartsWith(markdown, Hashes(n) + " ")
      <==> (HashRun(markdown) == n && n < |markdown| && markdown[n] == ' ')
  {
    if StartsWith(markdown, Hashes(n) + " ") {
      HashPrefixRun(markdown, n);
    }
    if HashRun(markdown) == n && n < |markdown| && markdown[n] == ' ' {
      HashRunPrefix(markdown, n);
    }
  }

  lemma HashPrefixRun(markdown: string, n: nat)
    requires StartsWith(markdown, Hashes(n) + " ")
    ensures HashRun(markdown) == n && n < |markdown| && markdown[n] == ' '
  {
    var p := Hashes(n) + " ";
    assert forall k :: 0 <= k <= n ==> markdown[k] == markdown[..n + 1][k] == p[k];
    HashRunOf(markdown, n);
  }

  lemma HashRunPrefix(markdown: string, n: nat)
    requires HashRun(markdown) == n && n < |markdown| && markdown[n] == ' '
    ensures StartsWith(markdown, Hashes(n) + " ")
  {
    assert markdown[..n + 1] == Hashes(n) + " ";
  }

  /** A text is a heading exactly when it starts with one to six `#`
      followed by a space. */
  lemma HeadingIffHashes(markdown: string)
    ensures IsHeadingBlock(markdown)
      <==> (1 <= HashRun(markdown) <= 6 && HashRun(markdown) < |markdown| && markdown[HashRun(markdown)] == ' ')
  {
    HeadingPrefixes();
    HashPrefix(markdown, 1);
    HashPrefix(markdown, 2);
    HashPrefix(markdown, 3);
    HashPrefix(markdown, 4);
    HashPrefix(markdown, 5);
    HashPrefix(markdown, 6);
    LevelChoice(HashRun(markdown), markdown, StartsWith(markdown, "# "), StartsWith(markdown, "## "),
                StartsWith(markdown, "### "), StartsWith(markdown, "#### "), StartsWith(markdown, "##### "),
                StartsWith(markdown, "###### "));
  }

  /** The six heading prefixes are one to six `#` and a space. */
  lemma HeadingPrefixes()
    ensures "# " == Hashes(1) + " " && "## " == Hashes(2) + " " && "### " == Hashes(3) + " "
    ensures "#### " == Hashes(4) + " " && "##### " == Hashes(5) + " " && "###### " == Hashes(6) + " "
  {
  }

  /** Exactly one level can hold, and one holds when the run has length
      one to six and is followed by a space. */
  lemma LevelChoice(h: nat, m: string, b1: bool, b2: bool, b3: bool, b4: bool, b5: bool, b6: bool)
    requires b1 <==> (h == 1 && 1 < |m| && m[1] == ' ')
    requires b2 <==> (h == 2 && 2 < |m| && m[2] == ' ')
    requires b3 <==> (h == 3 && 3 < |m| && m[3] == ' ')
    requires b4 <==> (h == 4 && 4 < |m| && m[4] == ' ')
    requires b5 <==> (h == 5 && 5 < |m| && m[5] == ' ')
    requires b6 <==> (h == 6 && 6 < |m| && m[6] == ' ')
    ensures (b1 || b2 || b3 || b4 || b5 || b6) <==> (1 <= h <= 6 && h < |m| && m[h] == ' ')
  {
  }

  /** `is_code_block(markdown)`: opens and closes with a fence. */
  predicate IsCodeBlock(markdown: string) {
    StartsWith(markdown, "```") && EndsWith(markdown, "```")
  }

  /** A text is a code block exactly when its first three and its last
      three characters are backticks; the two fences may overlap, so a
      lone fence counts. */
  lemma CodeIffFences(markdown: string)
    ensures IsCodeBlock(markdown)
      <==> (|markdown| >= 3
            && (forall k :: 0 <= k < 3 ==> markdown[k] == '`')
            && (forall k :: |markdown| - 3 <= k < |markdown| ==> markdown[k] == '`'))
    ensures IsCodeBlock("```")
  {
    if |markdown| >= 3 {
      assert forall k :: 0 <= k < 3 ==> markdown[k] == markdown[..3][k];
      assert forall k :: |markdown| - 3 <= k < |markdown| ==> markdown[k] == markdown[|markdown| - 3..][k - (|markdown| - 3)];
      if (forall k :: 0 <= k < 3 ==> markdown[k] == '`')
        && (forall k :: |markdown| - 3 <= k < |markdown| ==> markdown[k] == '`') {
        assert markdown[..3] == "```";
        assert markdown[|markdown| - 3..] == "```";
      }
    }
    assert "```"[..3] == "```";
  }

  /** The early-exit loop over lines: false at the first line without the
      prefix, true when every line has it (and so when there is none). */
  function AllStartWith(lines: seq<string>, prefix: string): (r: bool)
    ensures r <==> forall i :: 0 <= i < |lines| ==> StartsWith(lines[i], prefix)
    decreases |lines|
  {
    if |lines| == 0 then true
    else if !StartsWith(lines[0], prefix) then false
    else
      assert forall i :: 1 <= i < |lines| ==> lines[i] == lines[1..][i - 1];
      AllStartWith(lines[1..], prefix)
  }

  /** `is_quote_block(markdown)` */
  predicate IsQuoteBlock(markdown: string) {
    AllStartWith(SplitLines(markdown), ">")
  }

  /** `is_unordered_list_block(markdown)` */
  predicate IsUnorderedListBlock(markdown: string) {
    AllStartWith(SplitLines(markdown), "- ")
  }

  /** The marker `f"{i + 1}. "` expected on line i. */
  function Numbered(i: nat): string {
    DecimalString(i + 1) + ". "
  }

  /** The loop of `is_ordered_list_block` from line `i` on: false at the
      first line not carrying its number, true otherwise. */
  function NumberedFrom(lines: seq<string>, i: nat): (r: bool)
    ensures r <==> forall k :: 0 <= k < |lines| ==> StartsWith(lines[k], Numbered(i + k))
    decreases |lines|
  {
    if |lines| == 0 then true
    else if !StartsWith(lines[0], Numbered(i)) then false
    else
      assert forall k :: 1 <= k < |lines| ==> lines[k] == lines[1..][k - 1] && i + k == (i + 1) + (k - 1);
      NumberedFrom(lines[1..], i + 1)
  }

  /** `is_ordered_list_block(markdown)`: line i (from 0) starts with
      `i + 1` and `". "`. */
  predicate IsOrderedListBlock(markdown: string) {
    NumberedFrom(SplitLines(markdown), 0)
  }

  // =====================================================================
  // block_to_blocktype

  /** `block_to_blocktype(markdown)`: the first predicate that holds, in
      the order heading, code, quote, unordered list, ordered list. */
  function BlockToBlockType(markdown: string): BlockType {
    if IsHeadingBlock(markdown) then Heading
    else if IsCodeBlock(markdown) then Code
    else if IsQuoteBlock(markdown) then Quote
    else if IsUnorderedListBlock(markdown) then UnorderedList
    else if IsOrderedListBlock(markdown) then OrderedList
    else Paragraph
  }

  /** The first character of a text is the first character of its first
      line, when that line is not empty. */
  lemma FirstLineStart(markdown: string, prefix: string)
    requires SplitLines(markdown) != [] && |prefix| > 0 && StartsWith(SplitLines(markdown)[0], prefix)
    ensures markdown[0] == prefix[0]
  {
    SplitLinesHead(markdown);
    assert SplitLines(markdown)[0][..|prefix|][0] == prefix[0];
  }

  /** Starts with one to six `#` and then a space. */
  predicate HashHeading(markdown: string) {
    var h := HashRun(markdown);
    1 <= h <= 6 && h < |markdown| && markdown[h] == ' '
  }

  /** The first three and the last three characters are backticks. */
  predicate Fenced(markdown: string) {
    |markdown| >= 3
    && (forall k :: 0 <= k < 3 ==> markdown[k] == '`')
    && (forall k :: |markdown| - 3 <= k < |markdown| ==> markdown[k] == '`')
  }

  predicate EveryLineStarts(lines: seq<string>, prefix: string) {
    forall i :: 0 <= i < |lines| ==> StartsWith(lines[i], prefix)
  }

  /** Line i (from 0) starts with `i + 1` and `. `. */
  predicate LinesNumbered(lines: seq<string>) {
    forall i :: 0 <= i < |lines| ==> StartsWith(lines[i], Numbered(i))
  }

  /** Classification in terms of the text itself: heading when it starts
      with one to six `#` and a space; otherwise code when it is fenced;
      otherwise quote when every line starts with `>`; otherwise unordered
      list when every line starts with `- `; otherwise ordered list when
      line i starts with `i + 1` and `. `; otherwise paragraph. */
  lemma BlockTypeOrder(markdown: string)
    ensures var t := BlockToBlockType(markdown);
      var lines := SplitLines(markdown);
      var heading := HashHeading(markdown);
      var fenced := Fenced(markdown);
      var quote := EveryLineStarts(lines, ">");
      var bullets := EveryLineStarts(lines, "- ");
      var numbered := LinesNumbered(lines);
      && (t == Heading <==> heading)
      && (t == Code <==> !heading && fenced)
      && (t == Quote <==> !heading && !fenced && quote)
      && (t == UnorderedList <==> !heading && !fenced && !quote && bullets)
      && (t == OrderedList <==> !heading && !fenced && !quote && !bullets && numbered)
      && (t == Paragraph <==> !heading && !fenced && !quote && !bullets && !numbered)
  {
    var lines := SplitLines(markdown);
    assert IsHeadingBlock(markdown) <==> HashHeading(markdown) by {
      HeadingIffHashes(markdown);
    }
    assert IsCodeBlock(markdown) <==> Fenced(markdown) by {
      CodeIffFences(markdown);
    }
    assert IsQuoteBlock(markdown) <==> EveryLineStarts(lines, ">");
    assert IsUnorderedListBlock(markdown) <==> EveryLineStarts(lines, "- ");
    assert IsOrderedListBlock(markdown) <==> LinesNumbered(lines) by {
      assert forall i :: 0 <= i < |lines| ==> Numbered(0 + i) == Numbered(i);
    }
  }

  /** A text with no lines, such as the empty block, is a quote: the
      quote test holds vacuously. */
  lemma EmptyBlockIsQuote()
    ensures BlockToBlockType("") == Quote
  {
    assert !StartsWith("", "# ");
    assert !StartsWith("", "```");
  }

  /** A text that starts with a prefix starts with its first character. */
  lemma StartsFirst(s: string, prefix: string)
    requires |prefix| > 0
    ensures StartsWith(s, prefix) ==> s[0] == prefix[0]
  {
    if StartsWith(s, prefix) {
      assert s[..|prefix|][0] == s[0];
    }
  }

  /** A text whose first character is neither `#` nor a backtick is
      neither a heading nor a code block. */
  lemma PlainOpening(markdown: string)
    requires |markdown| > 0 && markdown[0] != '#' && markdown[0] != '`'
    ensures !IsHeadingBlock(markdown) && !IsCodeBlock(markdown)
  {
    StartsFirst(markdown, "# ");
    StartsFirst(markdown, "## ");
    StartsFirst(markdown, "### ");
    StartsFirst(markdown, "#### ");
    StartsFirst(markdown, "##### ");
    StartsFirst(markdown, "###### ");
    StartsFirst(markdown, "```");
  }

  /** A non-empty text whose every line starts with `>` is a quote. */
  lemma QuoteLinesAreQuote(markdown: string)
    requires SplitLines(markdown) != []
    requires forall i :: 0 <= i < |SplitLines(markdown)| ==> StartsWith(SplitLines(markdown)[i], ">")
    ensures BlockToBlockType(markdown) == Quote
  {
    FirstLineStart(markdown, ">");
    PlainOpening(markdown);
  }

  /** A non-empty text whose every line starts with `- ` is an unordered
      list. */
  lemma BulletLinesAreUnorderedList(markdown: string)
    requires SplitLines(markdown) != []
    requires forall i :: 0 <= i < |SplitLines(markdown)| ==> StartsWith(SplitLines(markdown)[i], "- ")
    ensures BlockToBlockType(markdown) == UnorderedList
  {
    var first := SplitLines(markdown)[0];
    FirstLineStart(markdown, "- ");
    PlainOpening(markdown);
    assert first[..2][0] == first[0];
    StartsFirst(first, ">");
  }

  /** A non-empty text whose line i starts with `i + 1` and `. ` is an
      ordered list. */
  lemma NumberedLinesAreOrderedList(markdown: string)
    requires SplitLines(markdown) != []
    requires forall i :: 0 <= i < |SplitLines(markdown)| ==> StartsWith(SplitLines(markdown)[i], Numbered(i))
    ensures BlockToBlockType(markdown) == OrderedList
  {
    var first := SplitLines(markdown)[0];
    assert StartsWith(first, Numbered(0));
    assert IsDigit(Numbered(0)[0]);
    FirstLineStart(markdown, Numbered(0));
    PlainOpening(markdown);
    assert first[..|Numbered(0)|][0] == first[0];
    StartsFirst(first, ">");
    StartsFirst(first, "- ");
    assert forall i :: 0 <= i < |SplitLines(markdown)| ==> Numbered(0 + i) == Numbered(i);
  }

  /** The lines of `1. a\n3. b` and of `1. a\n2. b`. */
  lemma TwoNumberedLines(second: char)
    requires IsDigit(second)
    ensures SplitLines(['1', '.', ' ', 'a', '\n', second, '.', ' ', 'b'])
      == [['1', '.', ' ', 'a'], [second, '.', ' ', 'b']]
  {
    var s := ['1', '.', ' ', 'a', '\n', second, '.', ' ', 'b'];
    var l := [second, '.', ' ', 'b'];
    assert s[4] == '\n';
    assert LineEnd(s[4..]) == 0;
    assert LineEnd(s[3..]) == 1;
    assert LineEnd(s[2..]) == 2;
    assert LineEnd(s[1..]) == 3;
    assert LineEnd(s) == 4;
    assert s[5..] == l;
    assert LineEnd(l[3..]) == 1;
    assert LineEnd(l[2..]) == 2;
    assert LineEnd(l[1..]) == 3;
    assert LineEnd(l) == 4;
    assert SplitLines(l) == [l];
    assert s[..4] == ['1', '.', ' ', 'a'];
    assert SplitLines(s) == [s[..4]] + SplitLines(s[5..]);
  }

  /** Numbering is checked line by line from 1: `1. a\n2. b` is an
      ordered list. */
  lemma OrderedNumbering()
    ensures BlockToBlockType("1. a\n2. b") == OrderedList
  {
    OrderedNumberingOf("1. a\n2. b");
  }

  /** `1. a\n2. b` is an ordered list, stated on a parameter. */
  lemma OrderedNumberingOf(m: string)
    requires m == "1. a\n2. b"
    ensures BlockToBlockType(m) == OrderedList
  {
    TwoNumberedLines('2');
    FirstNumbers();
    var lines := SplitLines(m);
    assert StartsWith(lines[0], Numbered(0)) by { assert lines[0][..3] == "1. "; }
    assert StartsWith(lines[1], Numbered(1)) by { assert lines[1][..3] == "2. "; }
    assert forall i :: 0 <= i < |lines| ==> StartsWith(lines[i], Numbered(i)) by {
      assert |lines| == 2;
    }
    NumberedLinesAreOrderedList(m);
  }

  /** The markers of the first two lines. */
  lemma FirstNumbers()
    ensures Numbered(0) == "1. " && Numbered(1) == "2. "
  {
    assert DecimalString(1) == "1";
    assert DecimalString(2) == "2";
  }

  /** `1. a\n3. b`, which skips a number, is a paragraph. */
  lemma SkippedNumberIsParagraph()
    ensures BlockToBlockType("1. a\n3. b") == Paragraph
  {
    SkippedNumberLines("1. a\n3. b");
    PlainOpening("1. a\n3. b");
  }

  /** The lines of `1. a\n3. b` pass none of the line-by-line tests. */
  lemma SkippedNumberLines(m: string)
    requires m == "1. a\n3. b"
    ensures var lines := SplitLines(m);
      !AllStartWith(lines, ">") && !AllStartWith(lines, "- ") && !NumberedFrom(lines, 0)
  {
    TwoNumberedLines('3');
    var lines := SplitLines(m);
    assert lines[1] == "3. b" && lines[0] == "1. a";
    FirstNumbers();
    assert !StartsWith(lines[1], Numbered(1)) by { assert lines[1][..3][0] == '3'; }
    assert !StartsWith(lines[0], ">") by { assert lines[0][..1][0] == '1'; }
    assert !StartsWith(lines[0], "- ") by { assert lines[0][..2][0] == '1'; }
  }

  // =====================================================================
  // get_header_number

  /** `get_header_number(text)`: the number of `#` among the first five
      characters; indexing past the end of a shorter text raises. */
  method GetHeaderNumber(text: string) returns (r: Result<nat>)
    ensures r.Failure? <==> |text| < 5
    ensures r.Failure? ==> r.error == IndexOutOfRange
    ensures r.Success? ==> r.value == multiset(text[..5])['#']
  {
    var counter := 0;
    for i := 0 to 5
      invariant i <= |text|
      invariant counter == multiset(text[..i])['#']
    {
      if i >= |text| {
        return Failure(IndexOutOfRange);
      }
      assert text[..i + 1] == text[..i] + [text[i]];
      if text[i] == '#' {
        counter := counter + 1;
      }
    }
    return Success(counter);
  }

  /** Counting `#` in a prefix whose first `n` characters are `#` and whose
      later characters are not. */
  lemma {:induction false} HashCountPrefix(s: string, n: nat, i: nat)
    requires i <= |s|
    requires forall k :: 0 <= k < i && k < n ==> s[k] == '#'
    requires forall k :: n <= k < i ==> s[k] != '#'
    ensures multiset(s[..i])['#'] == if i < n then i else n
    decreases i
  {
    if i > 0 {
      assert s[..i] == s[..i - 1] + [s[i - 1]];
      HashCountPrefix(s, n, i - 1);
    }
  }

  /** For a heading of level n whose text has no `#` among the first five
      characters, the count is the level, capped at 5: a six-`#` heading
      reports 5. */
  lemma HeaderNumberOfHeading(text: string)
    requires |text| >= 5 && IsHeadingBlock(text)
    requires forall k :: HashRun(text) < k < 5 ==> text[k] != '#'
    ensures multiset(text[..5])['#'] == if HashRun(text) < 5 then HashRun(text) else 5
  {
    HeadingIffHashes(text);
    HashCountPrefix(text, HashRun(text), 5);
  }

  /** The count also takes in `#` written after the heading's space:
      `# ##x` is a level-1 heading that counts 3. */
  lemma HeaderNumberCountsText()
    ensures HashRun("# ##x") == 1 && IsHeadingBlock("# ##x")
    ensures multiset("# ##x"[..5])['#'] == 3
  {
    assert "# ##x"[..2] == "# ";
    assert "# ##x"[..5] == "# ##x";
    assert multiset("# ##x") == multiset{'#', ' ', '#', '#', 'x'};
  }
}
