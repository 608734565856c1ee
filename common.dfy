/** The inline span parser of src/common.py: converting a `TextNode` to a
    leaf record, the three delimiter passes, the link and image passes, and
    their composition `text_to_textnodes`. */
module Common {
  import opened Wrappers
  import opened PyStr
  import opened TextNodes
  import opened Patterns

  // =====================================================================
  // text_node_to_html_node

  /** The leaf record `LeafNode(tag, value, props)` the conversion builds.
      `props` keeps the insertion order of the source's dict; a url the node
      lacks shows up as a `None` attribute value, as in the source. */
  datatype Leaf = Leaf(tag: Option<string>, value: string, props: seq<(string, Option<string>)>)

  /** `text_node_to_html_node`: plain text becomes an untagged leaf; bold,
      italic and code are tagged `b`, `i`, `code`; a link is an `a` leaf with
      an `href`; an image is an empty `img` leaf with `src` then `alt`. */
  function TextNodeToHtmlNode(n: TextNode): (leaf: Leaf)
    ensures leaf.tag.None? <==> n.textType == Text
    ensures n.textType != Image ==> leaf.value == n.text
    ensures n.textType == Bold ==> leaf.tag == Some("b") && leaf.props == []
    ensures n.textType == Italic ==> leaf.tag == Some("i") && leaf.props == []
    ensures n.textType == Code ==> leaf.tag == Some("code") && leaf.props == []
    ensures n.textType == Text ==> leaf.props == []
    ensures n.textType == Link ==> leaf.tag == Some("a") && leaf.props == [("href", n.url)]
    ensures n.textType == Image ==>
      leaf.tag == Some("img") && leaf.value == "" && leaf.props == [("src", n.url), ("alt", Some(n.text))]
  {
    match n.textType
    case Text => Leaf(None, n.text, [])
    case Bold => Leaf(Some("b"), n.text, [])
    case Italic => Leaf(Some("i"), n.text, [])
    case Code => Leaf(Some("code"), n.text, [])
    case Link => Leaf(Some("a"), n.text, [("href", n.url)])
    case Image => Leaf(Some("img"), "", [("src", n.url), ("alt", Some(n.text))])
  }

  /** A url is carried only by links and images. */
  predicate UrlOnlyOnLinks(n: TextNode) {
    n.textType != Link && n.textType != Image ==> n.url.None?
  }

  /** Reads a node back from the leaf it was converted to. */
  function NodeOfLeaf(leaf: Leaf): TextNode {
    match leaf.tag
    case None => TextNode(leaf.value, Text)
    case Some(t) =>
      if t == "b" then TextNode(leaf.value, Bold)
      else if t == "i" then TextNode(leaf.value, Italic)
      else if t == "code" then TextNode(leaf.value, Code)
      else if t == "a" && |leaf.props| == 1 then TextNode(leaf.value, Link, leaf.props[0].1)
      else if |leaf.props| == 2 && leaf.props[1].1.Some? then
        TextNode(leaf.props[1].1.value, Image, leaf.props[0].1)
      else TextNode(leaf.value, Text)
  }

  /** The conversion loses nothing: the node can be read back from its leaf
      (for nodes that carry a url only when they are links or images). */
  lemma {:induction false} LeafRoundTrip(n: TextNode)
    requires UrlOnlyOnLinks(n)
    ensures NodeOfLeaf(TextNodeToHtmlNode(n)) == n
  {
    match n.textType
    case Text =>
    case Bold =>
    case Italic =>
    case Code =>
    case Link =>
    case Image =>
  }

  // =====================================================================
  // split_nodes_delimiter

  /** The delimiters the pass accepts. */
  const Delimiters: seq<string> := ["**", "_", "`"]

  /** The nodes made from the pieces of a split: odd-indexed pieces get the
      pass's type, even-indexed ones stay plain text.
      The ensures spell the body out element by element: they help the
      solver and are not properties of the source. */
  function PieceNodes(pieces: seq<string>, textType: TextType): (r: seq<TextNode>)
    ensures |r| == |pieces|
    ensures forall i :: 0 <= i < |r| ==>
      r[i] == TextNode(pieces[i], if i % 2 != 0 then textType else Text)
  {
    seq(|pieces|, i requires 0 <= i < |pieces| => TextNode(pieces[i], if i % 2 != 0 then textType else Text))
  }

  lemma PieceNodesSnoc(pieces: seq<string>, i: nat, textType: TextType)
    requires i < |pieces|
    ensures PieceNodes(pieces[..i + 1], textType)
      == PieceNodes(pieces[..i], textType) + [TextNode(pieces[i], if i % 2 != 0 then textType else Text)]
  {
  }

  /** What one node of the input contributes to the pass's output. */
  function SplitNode(n: TextNode, delimiter: string, textType: TextType): seq<TextNode>
    requires |delimiter| > 0
  {
    if n.textType != Text then [n] else PieceNodes(Split(n.text, delimiter), textType)
  }

  /** The output of the pass's loop over `nodes`. */
  function SplitAll(nodes: seq<TextNode>, delimiter: string, textType: TextType): (r: seq<TextNode>)
    requires |delimiter| > 0
    ensures |r| >= |nodes|
    decreases |nodes|
  {
    if |nodes| == 0 then []
    else SplitAll(nodes[..|nodes| - 1], delimiter, textType) + SplitNode(nodes[|nodes| - 1], delimiter, textType)
  }

  /** `split_nodes_delimiter` as a function of its inputs: it fails on an
      empty list first, then on a delimiter other than `**`, `_`, `` ` ``. */
  function DelimiterPass(oldNodes: seq<TextNode>, delimiter: string, textType: TextType): (r: Result<seq<TextNode>>)
    ensures r.Failure? <==> |oldNodes| == 0 || delimiter !in Delimiters
    ensures |oldNodes| == 0 ==> r == Failure(NoNodesToSplit)
    ensures |oldNodes| > 0 && delimiter !in Delimiters ==> r == Failure(InvalidSyntax)
    ensures r.Success? ==> |r.value| >= |oldNodes|
  {
    if |oldNodes| == 0 then Failure(NoNodesToSplit)
    else if delimiter !in Delimiters then Failure(InvalidSyntax)
    else Success(SplitAll(oldNodes, delimiter, textType))
  }

  /** `split_nodes_delimiter(old_nodes, delimiter, text_type)` */
  method SplitNodesDelimiter(oldNodes: seq<TextNode>, delimiter: string, textType: TextType)
    returns (r: Result<seq<TextNode>>)
    ensures r == DelimiterPass(oldNodes, delimiter, textType)
  {
    var newNodes: seq<TextNode> := [];
    if |oldNodes| == 0 {
      return Failure(NoNodesToSplit);
    }
    if delimiter !in Delimiters {
      return Failure(InvalidSyntax);
    }
    assert |delimiter| > 0 by { DelimitersNonEmpty(delimiter); }
    for j := 0 to |oldNodes|
      invariant newNodes == SplitAll(oldNodes[..j], delimiter, textType)
    {
      var node := oldNodes[j];
      if node.textType != Text {
        newNodes := newNodes + [node];
      } else {
        var pieces := SplitTextNode(node.text, delimiter, textType);
        newNodes := newNodes + pieces;
      }
      SplitAllSnoc(oldNodes, j, delimiter, textType);
    }
    assert oldNodes[..|oldNodes|] == oldNodes;
    return Success(newNodes);
  }

  /** The inner loop of `split_nodes_delimiter` over the pieces of one
      plain-text node. */
  method SplitTextNode(text: string, delimiter: string, textType: TextType) returns (nodes: seq<TextNode>)
    requires |delimiter| > 0
    ensures nodes == PieceNodes(Split(text, delimiter), textType)
  {
    nodes := [];
    var splitText := Split(text, delimiter);
    for i := 0 to |splitText|
      invariant nodes == PieceNodes(splitText[..i], textType)
    {
      PieceNodesSnoc(splitText, i, textType);
      if i % 2 != 0 {
        nodes := nodes + [TextNode(splitText[i], textType)];
      } else {
        nodes := nodes + [TextNode(splitText[i], Text)];
      }
    }
    assert splitText[..|splitText|] == splitText;
  }

  lemma DelimitersNonEmpty(delimiter: string)
    requires delimiter in Delimiters
    ensures |delimiter| > 0
  {
  }

  lemma SplitAllSnoc(nodes: seq<TextNode>, j: nat, delimiter: string, textType: TextType)
    requires j < |nodes| && |delimiter| > 0
    ensures SplitAll(nodes[..j + 1], delimiter, textType)
      == SplitAll(nodes[..j], delimiter, textType) + SplitNode(nodes[j], delimiter, textType)
  {
    assert nodes[..j + 1][..j] == nodes[..j];
  }

  /** The texts of a list of nodes.
      The ensures spell the body out element by element: they help the
      solver and are not properties of the source. */
  function Texts(nodes: seq<TextNode>): (r: seq<string>)
    ensures |r| == |nodes| && forall i :: 0 <= i < |nodes| ==> r[i] == nodes[i].text
  {
    seq(|nodes|, i requires 0 <= i < |nodes| => nodes[i].text)
  }

  /** A plain-text node with k occurrences of the delimiter becomes exactly
      k + 1 nodes, whose texts joined with the delimiter give the node's text
      back; odd positions get the pass's type, even positions are plain, and
      none carries a url. An odd k is not an error. */
  lemma {:induction false} SplitNodeShape(n: TextNode, delimiter: string, textType: TextType)
    requires |delimiter| > 0 && n.textType == Text
    ensures var out := SplitNode(n, delimiter, textType);
      |out| == Count(n.text, delimiter) + 1
      && Join(Texts(out), delimiter) == n.text
      && (forall i :: 0 <= i < |out| ==> out[i].textType == (if i % 2 == 1 then textType else Text))
      && (forall i :: 0 <= i < |out| ==> out[i].url.None?)
  {
    var pieces := Split(n.text, delimiter);
    var out := SplitNode(n, delimiter, textType);
    SplitCount(n.text, delimiter);
    SplitJoin(n.text, delimiter);
    assert Texts(out) == pieces;
  }

  /** Nodes that the pass neither splits nor produces: those whose type is
      neither plain text nor the pass's type. */
  function Untouched(nodes: seq<TextNode>, textType: TextType): (r: seq<TextNode>)
    decreases |nodes|
  {
    if |nodes| == 0 then []
    else
      var last := nodes[|nodes| - 1];
      Untouched(nodes[..|nodes| - 1], textType)
        + (if last.textType != Text && last.textType != textType then [last] else [])
  }

  lemma {:induction false} UntouchedAppend(a: seq<TextNode>, b: seq<TextNode>, textType: TextType)
    ensures Untouched(a + b, textType) == Untouched(a, textType) + Untouched(b, textType)
    decreases |b|
  {
    if |b| == 0 {
      assert a + b == a;
    } else {
      var b' := b[..|b| - 1];
      assert (a + b)[..|a + b| - 1] == a + b';
      UntouchedAppend(a, b', textType);
    }
  }

  lemma PieceNodesUntouched(pieces: seq<string>, textType: TextType)
    ensures Untouched(PieceNodes(pieces, textType), textType) == []
    decreases |pieces|
  {
    if |pieces| > 0 {
      var p' := pieces[..|pieces| - 1];
      assert PieceNodes(pieces, textType)[..|pieces| - 1] == PieceNodes(p', textType);
      PieceNodesUntouched(p', textType);
    }
  }

  /** Every node that is neither plain text nor of the pass's type is copied
      to the output unchanged, and these nodes keep their relative order. */
  lemma {:induction false} DelimiterPassThrough(nodes: seq<TextNode>, delimiter: string, textType: TextType)
    requires |delimiter| > 0
    ensures Untouched(SplitAll(nodes, delimiter, textType), textType) == Untouched(nodes, textType)
    decreases |nodes|
  {
    if |nodes| > 0 {
      var init := nodes[..|nodes| - 1];
      var last := nodes[|nodes| - 1];
      DelimiterPassThrough(init, delimiter, textType);
      UntouchedAppend(SplitAll(init, delimiter, textType), SplitNode(last, delimiter, textType), textType);
      if last.textType == Text {
        PieceNodesUntouched(Split(last.text, delimiter), textType);
      } else {
        assert Untouched([last], textType) == Untouched([], textType) + (if last.textType != textType then [last] else []);
      }
    }
  }

  /** The pass's loop works node by node: the output for a concatenation is
      the concatenation of the outputs. */
  lemma {:induction false} SplitAllAppend(a: seq<TextNode>, b: seq<TextNode>, delimiter: string, textType: TextType)
    requires |delimiter| > 0
    ensures SplitAll(a + b, delimiter, textType) == SplitAll(a, delimiter, textType) + SplitAll(b, delimiter, textType)
    decreases |b|
  {
    if |b| == 0 {
      assert a + b == a;
    } else {
      var b', last := b[..|b| - 1], b[|b| - 1];
      assert b == b' + [last];
      assert a + b == (a + b') + [last];
      SplitAllAppend(a, b', delimiter, textType);
      SplitAllPush(a + b', last, delimiter, textType);
      SplitAllPush(b', last, delimiter, textType);
      NodesAssoc(SplitAll(a, delimiter, textType), SplitAll(b', delimiter, textType), SplitNode(last, delimiter, textType));
    }
  }

  /** One more input node adds its own output at the end. */
  lemma SplitAllPush(nodes: seq<TextNode>, n: TextNode, delimiter: string, textType: TextType)
    requires |delimiter| > 0
    ensures SplitAll(nodes + [n], delimiter, textType) == SplitAll(nodes, delimiter, textType) + SplitNode(n, delimiter, textType)
  {
    assert (nodes + [n])[..|nodes|] == nodes;
  }

  lemma NodesAssoc(x: seq<TextNode>, y: seq<TextNode>, z: seq<TextNode>)
    ensures (x + y) + z == x + (y + z)
  {
  }

  /** Every node that is not plain text, including one that already has the
      pass's type, is copied unchanged: it sits between the output of the
      nodes before it and the output of the nodes after it. */
  lemma NonTextCopied(a: seq<TextNode>, n: TextNode, b: seq<TextNode>, delimiter: string, textType: TextType)
    requires |delimiter| > 0 && n.textType != Text
    ensures SplitAll(a + [n] + b, delimiter, textType)
      == SplitAll(a, delimiter, textType) + [n] + SplitAll(b, delimiter, textType)
  {
    SplitAllAppend(a + [n], b, delimiter, textType);
    SplitAllAppend(a, [n], delimiter, textType);
    assert [n][..0] == [];
  }

  /** A pass whose delimiter occurs in no plain-text node changes nothing,
      provided those nodes carry no url (a split plain-text node is rebuilt
      without one). */
  lemma {:induction false} SplitAllIdle(nodes: seq<TextNode>, delimiter: string, textType: TextType)
    requires |delimiter| > 0
    requires forall i :: 0 <= i < |nodes| && nodes[i].textType == Text ==>
      Find(nodes[i].text, delimiter) == -1 && nodes[i].url.None?
    ensures SplitAll(nodes, delimiter, textType) == nodes
    decreases |nodes|
  {
    if |nodes| > 0 {
      var init := nodes[..|nodes| - 1];
      var last := nodes[|nodes| - 1];
      assert nodes == init + [last];
      SplitAllIdle(init, delimiter, textType);
      NodeIdle(last, delimiter, textType);
      SplitAllPush(init, last, delimiter, textType);
    }
  }

  /** A node the pass has nothing to split in comes out as it went in. */
  lemma NodeIdle(n: TextNode, delimiter: string, textType: TextType)
    requires |delimiter| > 0
    requires n.textType == Text ==> Find(n.text, delimiter) == -1 && n.url.None?
    ensures SplitNode(n, delimiter, textType) == [n]
  {
    if n.textType == Text {
      assert Split(n.text, delimiter) == [n.text];
      assert PieceNodes([n.text], textType) == [n];
    }
  }

  /** `split_nodes_delimiter` on a non-empty list in which no plain-text
      node contains the delimiter or carries a url returns the list as it
      is. */
  lemma DelimiterPassIdle(nodes: seq<TextNode>, delimiter: string, textType: TextType)
    requires delimiter in Delimiters && |nodes| > 0
    requires forall i :: 0 <= i < |nodes| && nodes[i].textType == Text ==>
      Find(nodes[i].text, delimiter) == -1 && nodes[i].url.None?
    ensures DelimiterPass(nodes, delimiter, textType) == Success(nodes)
  {
    DelimitersNonEmpty(delimiter);
    SplitAllIdle(nodes, delimiter, textType);
  }

  // =====================================================================
  // split_nodes_image and split_nodes_link

  /** The node type a pattern's matches become. */
  function KindOf(pat: Pattern): TextType {
    if pat == ImagePattern then Image else Link
  }

  /** The matches' groups as `extract_markdown_images` (respectively
      `extract_markdown_links`) returns them. */
  function Extract(text: string, pat: Pattern): seq<(string, string)> {
    if pat == ImagePattern then ExtractMarkdownImages(text) else ExtractMarkdownLinks(text)
  }

  /** The f-string the pass searches for: `![{alt}]({url})` or `[{text}]({url})`. */
  function Rebuilt(pat: Pattern, text: string, url: string): string {
    (if pat == ImagePattern then "!" else "") + "[" + text + "](" + url + ")"
  }

  /** State of the loop over the matches of one node: the nodes emitted so
      far, the `text` not consumed yet and the current `end_index`. */
  datatype Cut = Cut(nodes: seq<TextNode>, rest: string, endIndex: int)

  /** One iteration: find the rebuilt match in the remaining text, emit the
      text before it and the link or image node, drop both from the text. */
  function CutStep(c: Cut, item: (string, string), pat: Pattern): Cut {
    var sub := Rebuilt(pat, item.0, item.1);
    var startIndex := Find(c.rest, sub);
    var endIndex := startIndex + |sub|;
    Cut(c.nodes + [TextNode(SliceTo(c.rest, startIndex), Text), TextNode(item.0, KindOf(pat), Some(item.1))],
        SliceFrom(c.rest, endIndex), endIndex)
  }

  lemma CutStepIs(c: Cut, item: (string, string), pat: Pattern, startIndex: int, endIndex: int)
    requires startIndex == Find(c.rest, Rebuilt(pat, item.0, item.1))
    requires endIndex == startIndex + |Rebuilt(pat, item.0, item.1)|
    ensures CutStep(c, item, pat)
      == Cut(c.nodes + [TextNode(SliceTo(c.rest, startIndex), Text)] + [TextNode(item.0, KindOf(pat), Some(item.1))],
             SliceFrom(c.rest, endIndex), endIndex)
  {
    var a := TextNode(SliceTo(c.rest, startIndex), Text);
    var b := TextNode(item.0, KindOf(pat), Some(item.1));
    assert c.nodes + [a] + [b] == c.nodes + [a, b];
  }

  /** The loop state after the iterations over `items`, starting from the
      node's whole text with `end_index = 1`. */
  function CutAll(text: string, items: seq<(string, string)>, pat: Pattern): Cut
    decreases |items|
  {
    if |items| == 0 then Cut([], text, 1)
    else CutStep(CutAll(text, items[..|items| - 1], pat), items[|items| - 1], pat)
  }

  lemma CutAllSnoc(text: string, items: seq<(string, string)>, i: nat, pat: Pattern)
    requires i < |items|
    ensures CutAll(text, items[..i + 1], pat) == CutStep(CutAll(text, items[..i], pat), items[i], pat)
  {
    assert items[..i + 1][..i] == items[..i];
  }

  /** What one node contributes: itself when the pattern does not match its
      text (whatever its type); otherwise the emitted nodes, then the
      remainder, if non-empty, cut to its first `end_index` characters. */
  function SplitByMatches(n: TextNode, pat: Pattern): seq<TextNode> {
    var items := Extract(n.text, pat);
    if |items| == 0 then [n]
    else
      var c := CutAll(n.text, items, pat);
      if c.rest != "" then c.nodes + [TextNode(SliceTo(c.rest, c.endIndex), Text)] else c.nodes
  }

  /** The output of the pass's loop over `nodes`. */
  function SplitAllMatches(nodes: seq<TextNode>, pat: Pattern): (r: seq<TextNode>)
    ensures |r| >= |nodes|
    decreases |nodes|
  {
    if |nodes| == 0 then []
    else
      var items := Extract(nodes[|nodes| - 1].text, pat);
      assert |items| > 0 ==> |CutAll(nodes[|nodes| - 1].text, items, pat).nodes| > 0;
      SplitAllMatches(nodes[..|nodes| - 1], pat) + SplitByMatches(nodes[|nodes| - 1], pat)
  }

  /** `split_nodes_image` / `split_nodes_link` as a function of the input:
      it fails on an empty list and otherwise never shrinks it. */
  function MatchPass(oldNodes: seq<TextNode>, pat: Pattern): (r: Result<seq<TextNode>>)
    ensures r.Failure? <==> |oldNodes| == 0
    ensures r.Failure? ==> r.error == NoNodesToSplit
    ensures r.Success? ==> |r.value| >= |oldNodes|
  {
    if |oldNodes| < 1 then Failure(NoNodesToSplit) else Success(SplitAllMatches(oldNodes, pat))
  }

  /** The body of the loop over `old_nodes` in `split_nodes_image` and
      `split_nodes_link`: what one node becomes. */
  method SplitNodeMatching(node: TextNode, pat: Pattern) returns (out: seq<TextNode>)
    ensures out == SplitByMatches(node, pat)
  {
    var items := Extract(node.text, pat);
    if |items| > 0 {
      out := [];
      var text := node.text;
      var startIndex := 0;
      var endIndex := 1;
      for i := 0 to |items|
        invariant CutAll(node.text, items[..i], pat) == Cut(out, text, endIndex)
      {
        CutAllSnoc(node.text, items, i, pat);
        ghost var c := Cut(out, text, endIndex);
        var sub := Rebuilt(pat, items[i].0, items[i].1);
        startIndex := Find(text, sub);
        endIndex := startIndex + |sub|;
        out := out + [TextNode(SliceTo(text, startIndex), Text)];
        out := out + [TextNode(items[i].0, KindOf(pat), Some(items[i].1))];
        text := SliceFrom(text, endIndex);
        CutStepIs(c, items[i], pat, startIndex, endIndex);
      }
      assert items[..|items|] == items;
      if text != "" {
        out := out + [TextNode(SliceTo(text, endIndex), Text)];
      }
    } else {
      out := [node];
    }
  }

  /** The loop shared by `split_nodes_image` and `split_nodes_link`, which
      differ only in the pattern and the type of the nodes they emit. */
  method SplitNodesMatching(oldNodes: seq<TextNode>, pat: Pattern) returns (r: Result<seq<TextNode>>)
    ensures r == MatchPass(oldNodes, pat)
  {
    var newNodes: seq<TextNode> := [];
    if |oldNodes| < 1 {
      return Failure(NoNodesToSplit);
    }
    for j := 0 to |oldNodes|
      invariant newNodes == SplitAllMatches(oldNodes[..j], pat)
    {
      var nodes := SplitNodeMatching(oldNodes[j], pat);
      newNodes := newNodes + nodes;
      assert oldNodes[..j + 1][..j] == oldNodes[..j];
    }
    assert oldNodes[..|oldNodes|] == oldNodes;
    return Success(newNodes);
  }

  /** `split_nodes_image(old_nodes)` */
  method SplitNodesImage(oldNodes: seq<TextNode>) returns (r: Result<seq<TextNode>>)
    ensures r == MatchPass(oldNodes, ImagePattern)
  {
    r := SplitNodesMatching(oldNodes, ImagePattern);
  }

  /** `split_nodes_link(old_nodes)` */
  method SplitNodesLink(oldNodes: seq<TextNode>) returns (r: Result<seq<TextNode>>)
    ensures r == MatchPass(oldNodes, LinkPattern)
  {
    r := SplitNodesMatching(oldNodes, LinkPattern);
  }

  // ---------------------------------------------------------------------
  // What the match passes preserve

  /** Where the rebuilt string of a match begins: at the `!` of an image,
      at the `[` of a link (the character before it belongs to the match
      but not to the rebuilt string). */
  function Anchor(m: Match, pat: Pattern): nat {
    if pat == ImagePattern then m.start else m.start + 1
  }

  /** The string searched for a reported match occurs at its anchor and
      ends where the match ends. */
  lemma MatchRebuilt(s: string, pat: Pattern, m: Match)
    requires IsLazyMatch(s, pat, m)
    ensures Anchor(m, pat) + |Rebuilt(pat, m.text, m.url)| == m.end
    ensures OccursAt(s, Rebuilt(pat, m.text, m.url), Anchor(m, pat))
  {
    MatchSpelling(s, pat, m);
    SpelledMatchRebuilt(s, pat, m);
  }

  lemma SpelledMatchRebuilt(s: string, pat: Pattern, m: Match)
    requires m.start < m.end <= |s|
    requires s[m.start + 1..m.end] == "[" + m.text + "](" + m.url + ")"
    requires (s[m.start] == '!') <==> (pat == ImagePattern)
    ensures Anchor(m, pat) + |Rebuilt(pat, m.text, m.url)| == m.end
    ensures OccursAt(s, Rebuilt(pat, m.text, m.url), Anchor(m, pat))
  {
    var body := "[" + m.text + "](" + m.url + ")";
    RebuiltParts(pat, m.text, m.url);
    if pat == ImagePattern {
      assert s[m.start..m.end] == [s[m.start]] + s[m.start + 1..m.end];
      assert s[m.start..m.end] == "!" + body;
    } else {
      assert Rebuilt(pat, m.text, m.url) == body;
    }
  }

  lemma RebuiltParts(pat: Pattern, text: string, url: string)
    ensures Rebuilt(pat, text, url) == (if pat == ImagePattern then "!" else "") + ("[" + text + "](" + url + ")")
  {
  }

  /** The source text a node stands for in a match pass: the rebuilt
      reference for a link or image node, the text itself otherwise. */
  function Piece(n: TextNode, pat: Pattern): string {
    if n.textType == KindOf(pat) && n.url.Some? then Rebuilt(pat, n.text, n.url.value) else n.text
  }

  /** The source text a list of nodes stands for. */
  function Spelled(nodes: seq<TextNode>, pat: Pattern): string
    decreases |nodes|
  {
    if |nodes| == 0 then "" else Spelled(nodes[..|nodes| - 1], pat) + Piece(nodes[|nodes| - 1], pat)
  }

  lemma SpelledSnoc(nodes: seq<TextNode>, n: TextNode, pat: Pattern)
    ensures Spelled(nodes + [n], pat) == Spelled(nodes, pat) + Piece(n, pat)
  {
    assert (nodes + [n])[..|nodes|] == nodes;
  }

  /** The anchors of a list of matches.
      The ensures spell the body out element by element: they help the
      solver and are not properties of the source. */
  function Anchors(ms: seq<Match>, pat: Pattern): (r: seq<nat>)
    ensures |r| == |ms| && forall j :: 0 <= j < |ms| ==> r[j] == Anchor(ms[j], pat)
  {
    seq(|ms|, j requires 0 <= j < |ms| => Anchor(ms[j], pat))
  }

  /** The rebuilt string of each item occurs at its anchor, and each one
      ends at or before the next one's anchor. */
  ghost predicate Anchored(s: string, pat: Pattern, items: seq<(string, string)>, anchors: seq<nat>) {
    |anchors| == |items|
    && (forall j :: 0 <= j < |items| ==> OccursAt(s, Rebuilt(pat, items[j].0, items[j].1), anchors[j]))
    && (forall j :: 0 <= j < |items| - 1 ==> anchors[j] + |Rebuilt(pat, items[j].0, items[j].1)| <= anchors[j + 1])
  }

  /** The reported matches are anchored in the text, in order. */
  lemma ReportedAnchored(s: string, pat: Pattern)
    ensures Anchored(s, pat, Groups(FindAll(s, pat, 0)), Anchors(FindAll(s, pat, 0), pat))
  {
    FindAllLazy(s, pat, 0);
    FindAllOrdered(s, pat, 0);
    MatchesAnchored(s, pat, FindAll(s, pat, 0));
  }

  /** Lazy matches that follow one another without overlap anchor their
      rebuilt strings in order. */
  lemma MatchesAnchored(s: string, pat: Pattern, ms: seq<Match>)
    requires forall i :: 0 <= i < |ms| ==> IsLazyMatch(s, pat, ms[i])
    requires Ordered(ms)
    ensures Anchored(s, pat, Groups(ms), Anchors(ms, pat))
  {
    var items := Groups(ms);
    var anchors := Anchors(ms, pat);
    forall j | 0 <= j < |ms|
      ensures anchors[j] + |Rebuilt(pat, items[j].0, items[j].1)| == ms[j].end
      ensures OccursAt(s, Rebuilt(pat, items[j].0, items[j].1), anchors[j])
    {
      MatchRebuilt(s, pat, ms[j]);
    }
  }

  /** One iteration, on a text whose first `|s| - |c.rest|` characters the
      emitted nodes already spell out and where the rebuilt string occurs at
      `a` further on, finds it at or before `a` and consumes exactly up to
      its end. */
  lemma CutStepSpells(s: string, pat: Pattern, c: Cut, item: (string, string), a: nat)
    requires OccursAt(s, Rebuilt(pat, item.0, item.1), a)
    requires Spelled(c.nodes, pat) + c.rest == s
    requires |s| - |c.rest| <= a
    ensures Spelled(CutStep(c, item, pat).nodes, pat) + CutStep(c, item, pat).rest == s
    ensures |s| - |CutStep(c, item, pat).rest| <= a + |Rebuilt(pat, item.0, item.1)|
    ensures CutStep(c, item, pat).endIndex >= 4
  {
    var sub := Rebuilt(pat, item.0, item.1);
    FoundInRest(s, Spelled(c.nodes, pat), c.rest, sub, a);
    CutStepSpelling(c, item, pat);
  }

  /** A step whose search succeeds spells what it consumed: the emitted
      nodes and the new remaining text spell the old ones, and the text
      shrinks by exactly `end_index`, which is at least 4. */
  lemma CutStepSpelling(c: Cut, item: (string, string), pat: Pattern)
    requires Find(c.rest, Rebuilt(pat, item.0, item.1)) >= 0
    ensures var step := CutStep(c, item, pat);
      && Spelled(step.nodes, pat) + step.rest == Spelled(c.nodes, pat) + c.rest
      && step.endIndex == Find(c.rest, Rebuilt(pat, item.0, item.1)) + |Rebuilt(pat, item.0, item.1)|
      && |step.rest| == |c.rest| - step.endIndex
      && step.endIndex >= 4
  {
    var sub := Rebuilt(pat, item.0, item.1);
    var r := Find(c.rest, sub);
    CutStepAt(c, item, pat, r);
    SpelledStep(c.nodes, c.rest[..r], item, pat);
    SpelledAround(Spelled(c.nodes, pat), c.rest, sub, r);
  }

  /** The step when the rebuilt string is first found at `r`. */
  lemma CutStepAt(c: Cut, item: (string, string), pat: Pattern, r: nat)
    requires r == Find(c.rest, Rebuilt(pat, item.0, item.1))
    requires OccursAt(c.rest, Rebuilt(pat, item.0, item.1), r)
    ensures var e := r + |Rebuilt(pat, item.0, item.1)|;
      CutStep(c, item, pat)
      == Cut(c.nodes + [TextNode(c.rest[..r], Text)] + [TextNode(item.0, KindOf(pat), Some(item.1))],
             c.rest[e..], e)
  {
    var e := r + |Rebuilt(pat, item.0, item.1)|;
    assert SliceTo(c.rest, r) == c.rest[..r];
    assert SliceFrom(c.rest, e) == c.rest[e..];
    CutStepIs(c, item, pat, r, e);
  }

  /** The text node and the link or image node of one step spell the text
      before the match and the match. */
  lemma SpelledStep(nodes: seq<TextNode>, text: string, item: (string, string), pat: Pattern)
    ensures Spelled(nodes + [TextNode(text, Text)] + [TextNode(item.0, KindOf(pat), Some(item.1))], pat)
      == Spelled(nodes, pat) + text + Rebuilt(pat, item.0, item.1)
  {
    var t := TextNode(text, Text);
    var kn := TextNode(item.0, KindOf(pat), Some(item.1));
    SpelledSnoc(nodes, t, pat);
    SpelledSnoc(nodes + [t], kn, pat);
    assert Piece(t, pat) == text;
    assert Piece(kn, pat) == Rebuilt(pat, item.0, item.1);
  }

  /** The rebuilt string found in the text is found in the remaining text,
      at or before where it lies in the text. */
  lemma FoundInRest(s: string, sp: string, rest: string, sub: string, a: nat)
    requires sp + rest == s && OccursAt(s, sub, a) && |sp| <= a
    ensures 0 <= Find(rest, sub) <= a - |sp|
  {
    assert (sp + rest)[|sp|..] == rest;
    assert rest[a - |sp|..a - |sp| + |sub|] == s[a..a + |sub|];
    assert OccursAt(rest, sub, a - |sp|);
  }

  lemma SpelledAround(sp: string, rest: string, sub: string, r: nat)
    requires OccursAt(rest, sub, r)
    ensures sp + rest[..r] + sub + rest[r + |sub|..] == sp + rest
  {
    CutAround(rest, r, r + |sub|);
    ConcatAssoc(sp, rest[..r], sub, rest[r + |sub|..]);
  }

  /** After the first k items the emitted nodes spell out a prefix of the
      text and the remaining text is the rest: every search succeeds, at or
      before the next item's anchor, and no character is lost or repeated.
      Every `end_index` reached is at least 4, the length of `[](`+`)`. */
  lemma {:induction false} CutAllSpells(s: string, pat: Pattern, items: seq<(string, string)>, anchors: seq<nat>, k: nat)
    requires Anchored(s, pat, items, anchors) && k <= |items|
    ensures Spelled(CutAll(s, items[..k], pat).nodes, pat) + CutAll(s, items[..k], pat).rest == s
    ensures k < |items| ==> |s| - |CutAll(s, items[..k], pat).rest| <= anchors[k]
    ensures k > 0 ==> CutAll(s, items[..k], pat).endIndex >= 4
  {
    if k == 0 {
      assert items[..0] == [];
    } else {
      var j := k - 1;
      CutAllSpells(s, pat, items, anchors, j);
      CutAllSnoc(s, items, j, pat);
      CutStepSpells(s, pat, CutAll(s, items[..j], pat), items[j], anchors[j]);
    }
  }

  lemma ConcatAssoc(a: string, b: string, c: string, d: string)
    ensures a + b + c + d == a + (b + c + d)
  {
  }

  lemma CutAround(x: string, i: nat, j: nat)
    requires i <= j <= |x|
    ensures x[..i] + x[i..j] + x[j..] == x
  {
  }

  /** The loop emits two nodes per match: a plain-text node with no url,
      then the match as a link or image node carrying its url, in the order
      the matches were reported. */
  lemma {:induction false} CutAllShape(text: string, items: seq<(string, string)>, pat: Pattern)
    ensures Shaped(CutAll(text, items, pat).nodes, items, pat)
    decreases |items|
  {
    if |items| > 0 {
      var init := items[..|items| - 1];
      var item := items[|items| - 1];
      CutAllShape(text, init, pat);
      CutStepShape(CutAll(text, init, pat), init, item, pat);
      assert init + [item] == items;
    }
  }

  /** One step of the loop keeps the shape, one match further on. */
  lemma CutStepShape(c: Cut, items: seq<(string, string)>, item: (string, string), pat: Pattern)
    requires Shaped(c.nodes, items, pat)
    ensures Shaped(CutStep(c, item, pat).nodes, items + [item], pat)
  {
    var start := Find(c.rest, Rebuilt(pat, item.0, item.1));
    ShapedSnoc(c.nodes, items, TextNode(SliceTo(c.rest, start), Text), item, pat);
  }

  /** Nodes alternate plain text without url and the link or image node of
      each item, in the items' order. */
  predicate Shaped(nodes: seq<TextNode>, items: seq<(string, string)>, pat: Pattern) {
    && |nodes| == 2 * |items|
    && (forall k :: 0 <= k < |items| ==> nodes[2 * k].textType == Text && nodes[2 * k].url.None?)
    && (forall k :: 0 <= k < |items| ==> nodes[2 * k + 1] == TextNode(items[k].0, KindOf(pat), Some(items[k].1)))
  }

  lemma ShapedSnoc(nodes: seq<TextNode>, items: seq<(string, string)>, t: TextNode, item: (string, string), pat: Pattern)
    requires Shaped(nodes, items, pat) && t.textType == Text && t.url.None?
    ensures Shaped(nodes + [t, TextNode(item.0, KindOf(pat), Some(item.1))], items + [item], pat)
  {
    var nodes' := nodes + [t, TextNode(item.0, KindOf(pat), Some(item.1))];
    var items' := items + [item];
    forall k | 0 <= k < |items'|
      ensures nodes'[2 * k].textType == Text && nodes'[2 * k].url.None?
      ensures nodes'[2 * k + 1] == TextNode(items'[k].0, KindOf(pat), Some(items'[k].1))
    {
      if k < |items| {
        assert nodes'[2 * k] == nodes[2 * k] && nodes'[2 * k + 1] == nodes[2 * k + 1];
        assert items'[k] == items[k];
      }
    }
  }

  lemma ExtractIsGroups(text: string, pat: Pattern)
    ensures Extract(text, pat) == Groups(FindAll(text, pat, 0))
  {
  }

  /** The whole loop over a node's matches spells out the node's text. */
  lemma CutAllSpellsText(s: string, pat: Pattern)
    ensures Spelled(CutAll(s, Extract(s, pat), pat).nodes, pat) + CutAll(s, Extract(s, pat), pat).rest == s
    ensures Extract(s, pat) != [] ==> CutAll(s, Extract(s, pat), pat).endIndex >= 4
  {
    var items := Extract(s, pat);
    var anchors := Anchors(FindAll(s, pat, 0), pat);
    assert Anchored(s, pat, items, anchors) by {
      ExtractIsGroups(s, pat);
      ReportedAnchored(s, pat);
    }
    CutAllSpells(s, pat, items, anchors, |items|);
    assert items[..|items|] == items;
  }

  /** A node with no match is kept as it is, whatever its type. Otherwise
      the output alternates plain text and the matches as link or image
      nodes carrying their urls, in the order they were reported. */
  lemma {:induction false} SplitByMatchesShape(n: TextNode, pat: Pattern)
    ensures Extract(n.text, pat) == [] ==> SplitByMatches(n, pat) == [n]
    ensures var items := Extract(n.text, pat);
      items != [] ==>
        && 2 * |items| <= |SplitByMatches(n, pat)| <= 2 * |items| + 1
        && (|SplitByMatches(n, pat)| == 2 * |items| + 1 ==> SplitByMatches(n, pat)[2 * |items|].textType == Text)
        && (forall k :: 0 <= k < |items| ==>
              SplitByMatches(n, pat)[2 * k].textType == Text
              && SplitByMatches(n, pat)[2 * k + 1] == TextNode(items[k].0, KindOf(pat), Some(items[k].1)))
  {
    var items := Extract(n.text, pat);
    if items != [] {
      CutAllShape(n.text, items, pat);
      var c := CutAll(n.text, items, pat);
      var tail := if c.rest != "" then [TextNode(SliceTo(c.rest, c.endIndex), Text)] else [];
      assert SplitByMatches(n, pat) == c.nodes + tail;
      ShapedPlusTail(c.nodes, items, pat, tail);
    }
  }

  /** Matched nodes followed by at most one plain-text node. */
  lemma ShapedPlusTail(nodes: seq<TextNode>, items: seq<(string, string)>, pat: Pattern, tail: seq<TextNode>)
    requires Shaped(nodes, items, pat) && |tail| <= 1 && (|tail| == 1 ==> tail[0].textType == Text)
    ensures var out := nodes + tail;
      && 2 * |items| <= |out| <= 2 * |items| + 1
      && (|out| == 2 * |items| + 1 ==> out[2 * |items|].textType == Text)
      && (forall k :: 0 <= k < |items| ==>
            out[2 * k].textType == Text
            && out[2 * k + 1] == TextNode(items[k].0, KindOf(pat), Some(items[k].1)))
  {
    var out := nodes + tail;
    forall k | 0 <= k < |items|
      ensures out[2 * k].textType == Text
      ensures out[2 * k + 1] == TextNode(items[k].0, KindOf(pat), Some(items[k].1))
    {
      assert out[2 * k] == nodes[2 * k];
      assert out[2 * k + 1] == nodes[2 * k + 1];
    }
  }

  /** Reading the matches back as `[text](url)` (with `!` for images), the
      output for a node with matches spells a prefix of the node's text,
      and the whole text exactly when the text after the last match is no
      longer than the final `end_index`: a longer remainder is cut to its
      first `end_index` characters. */
  lemma SplitByMatchesSpells(n: TextNode, pat: Pattern)
    requires Extract(n.text, pat) != []
    ensures StartsWith(n.text, Spelled(SplitByMatches(n, pat), pat))
    ensures Spelled(SplitByMatches(n, pat), pat) == n.text
      <==> |CutAll(n.text, Extract(n.text, pat), pat).rest| <= CutAll(n.text, Extract(n.text, pat), pat).endIndex
  {
    var c := CutAll(n.text, Extract(n.text, pat), pat);
    CutAllSpellsText(n.text, pat);
    SplitByMatchesSpelled(n, pat);
    SpelledCut(n.text, Spelled(c.nodes, pat), c.rest, c.endIndex);
  }

  /** The output spells the loop's nodes, then the remainder cut to
      `end_index`. */
  lemma SplitByMatchesSpelled(n: TextNode, pat: Pattern)
    requires Extract(n.text, pat) != []
    ensures var c := CutAll(n.text, Extract(n.text, pat), pat);
      Spelled(SplitByMatches(n, pat), pat) == Spelled(c.nodes, pat) + SliceTo(c.rest, c.endIndex)
  {
    var c := CutAll(n.text, Extract(n.text, pat), pat);
    if c.rest != "" {
      var tail := TextNode(SliceTo(c.rest, c.endIndex), Text);
      assert SplitByMatches(n, pat) == c.nodes + [tail];
      SpelledSnoc(c.nodes, tail, pat);
    } else {
      assert SliceTo(c.rest, c.endIndex) == "";
    }
  }

  /** A prefix followed by a cut of the rest is a prefix of the text, and
      the whole text exactly when the cut keeps all of the rest. */
  lemma SpelledCut(s: string, sp: string, rest: string, e: int)
    requires sp + rest == s && e >= 0
    ensures StartsWith(s, sp + SliceTo(rest, e))
    ensures sp + SliceTo(rest, e) == s <==> |rest| <= e
  {
    var t := SliceTo(rest, e);
    assert s[..|sp + t|] == sp + t;
    if |rest| > e {
      assert |sp + t| < |s|;
    }
  }

  /** The remainder after the last match is cut to `end_index` characters:
      in `![i](u)abcdefgh` the image ends at index 7, so of the eight
      characters after it only `abcdefg` survive. */
  lemma TrailingTextCut(s: string)
    requires s == "![i](u)abcdefgh"
    ensures SplitByMatches(TextNode(s, Text), ImagePattern)
      == [TextNode("", Text), TextNode("i", Image, Some("u")), TextNode("abcdefg", Text)]
  {
    TrailingTextImages(s);
    assert Extract(s, ImagePattern) == [("i", "u")];
    TrailingTextLoop(s);
    assert SliceTo("abcdefgh", 7) == "abcdefg";
  }

  /** The loop over that image consumes `![i](u)` and stops with
      `end_index` 7. */
  lemma TrailingTextLoop(s: string)
    requires s == "![i](u)abcdefgh"
    ensures CutAll(s, [("i", "u")], ImagePattern)
      == Cut([TextNode("", Text), TextNode("i", Image, Some("u"))], "abcdefgh", 7)
  {
    assert s[..7] == "![i](u)";
    assert Rebuilt(ImagePattern, "i", "u") == "![i](u)";
    assert Find(s, "![i](u)") == 0;
    assert [("i", "u")][..0] == [];
    assert CutAll(s, [], ImagePattern) == Cut([], s, 1);
    assert SliceTo(s, 0) == "";
    assert s[7..] == "abcdefgh";
    assert SliceFrom(s, 7) == "abcdefgh";
    assert CutStep(Cut([], s, 1), ("i", "u"), ImagePattern)
      == Cut([TextNode("", Text), TextNode("i", Image, Some("u"))], "abcdefgh", 7);
  }

  /** The image pattern finds the one image of `![i](u)abcdefgh`. */
  lemma TrailingTextImages(s: string)
    requires s == "![i](u)abcdefgh"
    ensures ExtractMarkdownImages(s) == [("i", "u")]
  {
    assert FindAll(s, ImagePattern, 7) == [] by {
      assert forall k :: 7 < k < |s| ==> s[k] != '[';
      FindAllNoOpen(s, ImagePattern, 7);
    }
    assert MatchAt(s, 0, ImagePattern) == Some(Match(0, 7, "i", "u")) by {
      assert CloseFrom(s, 6) == Some(6);
      assert CloseFrom(s, 5) == Some(6);
      assert BracketFrom(s, 2, 3) == Some((3, 6));
      assert BracketFrom(s, 2, 2) == Some((3, 6));
      assert Opens(s, 0, ImagePattern);
      assert s[2..3] == "i" && s[5..6] == "u";
    }
    assert FindAll(s, ImagePattern, 0) == [Match(0, 7, "i", "u")] + FindAll(s, ImagePattern, 7);
  }

  /** A node list in which no node has a match goes through a match pass
      unchanged. */
  lemma {:induction false} SplitAllMatchesNone(nodes: seq<TextNode>, pat: Pattern)
    requires forall i :: 0 <= i < |nodes| ==> Extract(nodes[i].text, pat) == []
    ensures SplitAllMatches(nodes, pat) == nodes
    decreases |nodes|
  {
    if |nodes| > 0 {
      var init := nodes[..|nodes| - 1];
      var last := nodes[|nodes| - 1];
      SplitAllMatchesNone(init, pat);
      SplitByMatchesNone(last, pat);
      SplitAllMatchesSnoc(nodes, pat);
    }
  }

  lemma SplitAllMatchesSnoc(nodes: seq<TextNode>, pat: Pattern)
    requires |nodes| > 0
    ensures SplitAllMatches(nodes, pat)
      == SplitAllMatches(nodes[..|nodes| - 1], pat) + SplitByMatches(nodes[|nodes| - 1], pat)
  {
  }

  lemma SplitByMatchesNone(n: TextNode, pat: Pattern)
    requires Extract(n.text, pat) == []
    ensures SplitByMatches(n, pat) == [n]
  {
  }

  /** Every reported match has an opening `[`. */
  lemma {:induction false} MatchesNeedBracket(s: string, pat: Pattern)
    ensures Extract(s, pat) != [] ==> '[' in s
  {
    MatchesOpen(s, pat);
    var ms := FindAll(s, pat, 0);
    if |ms| > 0 {
      assert ms[0] in ms;
      assert s[ms[0].start + 1] == '[';
    }
  }

  // =====================================================================
  // text_to_textnodes

  /** `text_to_textnodes`: one plain-text node run through the bold, italic
      and code passes, then the link pass, then the image pass. The passes
      are applied in that order, so a delimiter inside a code span or a url
      is still split by the passes before it. It never fails: each pass gets
      a non-empty list and a delimiter it accepts, and none shrinks a list. */
  function TextToTextNodes(text: string): (r: seq<TextNode>)
    ensures |r| >= 1
  {
    var bold := DelimiterPass([TextNode(text, Text)], "**", Bold).value;
    var italic := DelimiterPass(bold, "_", Italic).value;
    var code := DelimiterPass(italic, "`", Code).value;
    var links := MatchPass(code, LinkPattern).value;
    MatchPass(links, ImagePattern).value
  }

  /** A delimiter pass leaves a plain-text node without its delimiter as it
      is. */
  lemma DelimiterPassPlain(text: string, delimiter: string, textType: TextType)
    requires delimiter in Delimiters && Find(text, delimiter) == -1
    ensures DelimiterPass([TextNode(text, Text)], delimiter, textType) == Success([TextNode(text, Text)])
  {
    DelimiterPassIdle([TextNode(text, Text)], delimiter, textType);
  }

  /** Text with none of `*`, `_`, `` ` `` and `[` comes out as the single
      plain-text node it went in as. */
  lemma TextToTextNodesPlain(text: string)
    requires '*' !in text && '_' !in text && '`' !in text && '[' !in text
    ensures TextToTextNodes(text) == [TextNode(text, Text)]
  {
    var nodes := [TextNode(text, Text)];
    PlainDelimiterPasses(text);
    PlainMatchPasses(text);
    PassesCompose(text, nodes, nodes, nodes, nodes, nodes);
  }

  lemma PlainDelimiterPasses(text: string)
    requires '*' !in text && '_' !in text && '`' !in text
    ensures DelimiterPass([TextNode(text, Text)], "**", Bold) == Success([TextNode(text, Text)])
    ensures DelimiterPass([TextNode(text, Text)], "_", Italic) == Success([TextNode(text, Text)])
    ensures DelimiterPass([TextNode(text, Text)], "`", Code) == Success([TextNode(text, Text)])
  {
    FindNeedsHead(text, "**");
    FindNeedsHead(text, "_");
    FindNeedsHead(text, "`");
    DelimiterPassPlain(text, "**", Bold);
    DelimiterPassPlain(text, "_", Italic);
    DelimiterPassPlain(text, "`", Code);
  }

  lemma PlainMatchPasses(text: string)
    requires '[' !in text
    ensures MatchPass([TextNode(text, Text)], LinkPattern) == Success([TextNode(text, Text)])
    ensures MatchPass([TextNode(text, Text)], ImagePattern) == Success([TextNode(text, Text)])
  {
    var nodes := [TextNode(text, Text)];
    assert NoBrackets(nodes);
    MatchPassNoBrackets(nodes, LinkPattern);
    MatchPassNoBrackets(nodes, ImagePattern);
  }

  /** `text_to_textnodes` is its five passes run one after the other. */
  lemma PassesCompose(text: string, bold: seq<TextNode>, italic: seq<TextNode>, code: seq<TextNode>,
                      links: seq<TextNode>, out: seq<TextNode>)
    requires DelimiterPass([TextNode(text, Text)], "**", Bold) == Success(bold)
    requires DelimiterPass(bold, "_", Italic) == Success(italic)
    requires DelimiterPass(italic, "`", Code) == Success(code)
    requires MatchPass(code, LinkPattern) == Success(links)
    requires MatchPass(links, ImagePattern) == Success(out)
    ensures TextToTextNodes(text) == out
  {
  }

  /** No node's text has a `[`. */
  predicate NoBrackets(nodes: seq<TextNode>) {
    forall i :: 0 <= i < |nodes| ==> '[' !in nodes[i].text
  }

  /** A match pass leaves a non-empty list of nodes without `[` as it is. */
  lemma MatchPassNoBrackets(nodes: seq<TextNode>, pat: Pattern)
    requires |nodes| > 0 && NoBrackets(nodes)
    ensures MatchPass(nodes, pat) == Success(nodes)
  {
    forall i | 0 <= i < |nodes| ensures Extract(nodes[i].text, pat) == [] {
      MatchesNeedBracket(nodes[i].text, pat);
    }
    SplitAllMatchesNone(nodes, pat);
  }

  /** When the delimiter passes leave no `[` in any node, the link and
      image passes change nothing. */
  lemma DelimitedOnly(text: string, code: seq<TextNode>)
    requires code == DelimiterPass(DelimiterPass(DelimiterPass([TextNode(text, Text)], "**", Bold).value,
                                                 "_", Italic).value, "`", Code).value
    requires NoBrackets(code)
    ensures TextToTextNodes(text) == code
  {
    MatchPassNoBrackets(code, LinkPattern);
    MatchPassNoBrackets(code, ImagePattern);
  }

  // ---------------------------------------------------------------------
  // Consequences of the code as written

  /** The delimiter pass does not check that delimiters pair up: `a**b`
      becomes plain `a` and bold `b`. */
  lemma UnpairedDelimiter()
    ensures DelimiterPass([TextNode("a**b", Text)], "**", Bold) == Success([TextNode("a", Text), TextNode("b", Bold)])
  {
    UnpairedDelimiterOf("a**b");
  }

  lemma UnpairedDelimiterOf(s: string)
    requires s == "a**b"
    ensures DelimiterPass([TextNode(s, Text)], "**", Bold) == Success([TextNode("a", Text), TextNode("b", Bold)])
  {
    UnpairedSplit(s);
    SingleTextPass(s, "**", Bold);
    TwoPieces("a", "b", Bold);
  }

  /** `a**b` splits at its one delimiter. */
  lemma UnpairedSplit(s: string)
    requires s == "a**b"
    ensures Split(s, "**") == ["a", "b"]
  {
    assert s[..2] != "**" by { assert s[..2][0] == 'a'; }
    assert s[1..][..2] == "**";
    assert Find(s[1..], "**") == 0;
    assert Find(s, "**") == 1;
    assert s[3..] == "b";
    assert Find("b", "**") == -1;
    assert Split("b", "**") == ["b"];
    assert s[..1] == "a";
    assert Split(s, "**") == [s[..1]] + Split(s[3..], "**");
  }

  /** A link is reported only when some character precedes its `[`. */
  lemma {:induction false} LinksNeedPrecedingChar(s: string)
    ensures Extract(s, LinkPattern) != [] ==> exists k :: 1 <= k < |s| && s[k] == '['
  {
    MatchesOpen(s, LinkPattern);
    var ms := FindAll(s, LinkPattern, 0);
    if |ms| > 0 {
      assert ms[0] in ms;
      var k := ms[0].start + 1;
      assert 1 <= k < |s| && s[k] == '[';
    }
  }

  /** So a link at the very start of a text is not found. */
  lemma LinkAtStartNotFound()
    ensures ExtractMarkdownLinks("[a](b)") == []
  {
    LinksNeedPrecedingChar("[a](b)");
    assert forall k :: 1 <= k < 6 ==> "[a](b)"[k] != '[';
  }

  /** The italic pass runs before the code pass, so an underscore inside
      backticks is taken as an italic delimiter: `` `a_b` `` becomes an
      empty plain node, code `a` and italic `` b` ``. */
  lemma ItalicBeforeCode(text: string)
    requires text == "`a_b`"
    ensures TextToTextNodes(text) == [TextNode("", Text), TextNode("a", Code), TextNode("b`", Italic)]
  {
    var out := [TextNode("", Text), TextNode("a", Code), TextNode("b`", Italic)];
    ItalicBeforeCodeUnbracketed(out);
    ItalicBeforeCodePasses(text);
    DelimitedOnly(text, out);
  }

  lemma ItalicBeforeCodeUnbracketed(out: seq<TextNode>)
    requires out == [TextNode("", Text), TextNode("a", Code), TextNode("b`", Italic)]
    ensures NoBrackets(out)
  {
    assert out[0].text == "" && out[1].text == "a" && out[2].text == "b`";
    assert "b`"[0] != '[' && "b`"[1] != '[';
  }

  /** The three delimiter passes on `` `a_b` ``. */
  lemma ItalicBeforeCodePasses(text: string)
    requires text == "`a_b`"
    ensures DelimiterPass(DelimiterPass(DelimiterPass([TextNode(text, Text)], "**", Bold).value,
                                        "_", Italic).value, "`", Code).value
      == [TextNode("", Text), TextNode("a", Code), TextNode("b`", Italic)]
  {
    FindNeedsHead(text, "**");
    DelimiterPassPlain(text, "**", Bold);
    ItalicBeforeCodeItalic(text);
    ItalicBeforeCodeCode();
  }

  lemma ItalicBeforeCodeItalic(s: string)
    requires s == "`a_b`"
    ensures DelimiterPass([TextNode(s, Text)], "_", Italic)
      == Success([TextNode("`a", Text), TextNode("b`", Italic)])
  {
    ItalicSplit(s);
    SingleTextPass(s, "_", Italic);
    TwoPieces("`a", "b`", Italic);
  }

  /** `` `a_b` `` splits at its one underscore. */
  lemma ItalicSplit(s: string)
    requires s == "`a_b`"
    ensures Split(s, "_") == ["`a", "b`"]
  {
    assert s[..1] != "_" by { assert s[..1][0] == '`'; }
    assert s[1..][..1] != "_" by { assert s[1..][..1][0] == 'a'; }
    assert s[2..][..1] == "_";
    assert Find(s[2..], "_") == 0;
    assert Find(s[1..], "_") == 1;
    assert Find(s, "_") == 2;
    assert s[3..] == "b`";
    FindNeedsHead("b`", "_");
    assert Split("b`", "_") == ["b`"];
    assert s[..2] == "`a";
    assert Split(s, "_") == [s[..2]] + Split(s[3..], "_");
  }

  /** Two pieces: plain text around one delimited span. */
  lemma TwoPieces(x: string, y: string, textType: TextType)
    ensures PieceNodes([x, y], textType) == [TextNode(x, Text), TextNode(y, textType)]
  {
  }

  /** A pass over one plain node emits the nodes of its pieces. */
  lemma SingleTextPass(s: string, delimiter: string, textType: TextType)
    requires delimiter in Delimiters
    ensures DelimiterPass([TextNode(s, Text)], delimiter, textType)
      == Success(PieceNodes(Split(s, delimiter), textType))
  {
    var n := TextNode(s, Text);
    DelimitersNonEmpty(delimiter);
    assert [n][..0] == [];
    assert SplitAll([], delimiter, textType) == [];
    assert SplitAll([n], delimiter, textType) == SplitNode(n, delimiter, textType);
  }

  lemma ItalicBeforeCodeCode()
    ensures DelimiterPass([TextNode("`a", Text), TextNode("b`", Italic)], "`", Code)
      == Success([TextNode("", Text), TextNode("a", Code), TextNode("b`", Italic)])
  {
    var s := "`a";
    var n := TextNode(s, Text);
    var m := TextNode("b`", Italic);
    assert s[..1] == "`";
    assert Find(s, "`") == 0;
    assert s[1..] == "a";
    FindNeedsHead("a", "`");
    assert Split("a", "`") == ["a"];
    assert Split(s, "`") == [s[..0]] + Split(s[1..], "`");
    assert PieceNodes(["", "a"], Code) == [TextNode("", Text), TextNode("a", Code)];
    assert [n, m][..1] == [n];
    assert [n][..0] == [];
    assert SplitAll([], "`", Code) == [];
    assert SplitAll([n], "`", Code) == SplitAll([], "`", Code) + SplitNode(n, "`", Code);
    assert SplitNode(n, "`", Code) == [TextNode("", Text), TextNode("a", Code)];
    assert SplitNode(m, "`", Code) == [m];
    assert SplitAll([n, m], "`", Code) == SplitAll([n], "`", Code) + SplitNode(m, "`", Code);
    assert "`" in Delimiters;
    assert DelimiterPass([n, m], "`", Code) == Success(SplitAll([n, m], "`", Code));
    assert SplitAll([n], "`", Code) == [TextNode("", Text), TextNode("a", Code)];
    assert SplitAll([n, m], "`", Code) == [TextNode("", Text), TextNode("a", Code), m];
  }
  // ---------------------------------------------------------------------
  // A link around an image reference

  /** The two patterns can overlap: in `x[![a](b)` the link pattern takes
      `x[![a](b)` with the label `![a`, while the image pattern takes
      `![a](b)`. */
  lemma LinkOverImage(s: string)
    requires s == "x[![a](b)"
    ensures ExtractMarkdownLinks(s) == [("![a", "b")]
    ensures ExtractMarkdownImages(s) == [("a", "b")]
  {
    LinkOverImageLinks(s);
    LinkOverImageImages(s);
  }

  lemma LinkOverImageLinks(s: string)
    requires s == "x[![a](b)"
    ensures FindAll(s, LinkPattern, 0) == [Match(0, 9, "![a", "b")]
  {
    assert CloseFrom(s, 8) == Some(8);
    assert CloseFrom(s, 7) == Some(8);
    assert BracketFrom(s, 2, 5) == Some((5, 8));
    assert BracketFrom(s, 2, 4) == Some((5, 8));
    assert BracketFrom(s, 2, 3) == Some((5, 8));
    assert BracketFrom(s, 2, 2) == Some((5, 8));
    assert Opens(s, 0, LinkPattern);
    assert s[2..5] == "![a" && s[7..8] == "b";
    assert MatchAt(s, 0, LinkPattern) == Some(Match(0, 9, "![a", "b"));
    assert FindAll(s, LinkPattern, 9) == [];
  }

  lemma LinkOverImageImages(s: string)
    requires s == "x[![a](b)"
    ensures FindAll(s, ImagePattern, 0) == [Match(2, 9, "a", "b")]
  {
    assert CloseFrom(s, 8) == Some(8);
    assert CloseFrom(s, 7) == Some(8);
    assert BracketFrom(s, 4, 5) == Some((5, 8));
    assert BracketFrom(s, 4, 4) == Some((5, 8));
    assert Opens(s, 2, ImagePattern);
    assert s[4..5] == "a" && s[7..8] == "b";
    assert MatchAt(s, 2, ImagePattern) == Some(Match(2, 9, "a", "b"));
    assert FindAll(s, ImagePattern, 9) == [];
    assert !Opens(s, 1, ImagePattern) && !Opens(s, 0, ImagePattern);
    assert FindAll(s, ImagePattern, 1) == FindAll(s, ImagePattern, 2);
  }

  /** So the image reference inside `x[![a](b)` never becomes an image: the
      link pass runs first and turns its text into the label of a link. */
  lemma LinkSwallowsImage(s: string)
    requires s == "x[![a](b)"
    ensures TextToTextNodes(s) == [TextNode("x", Text), TextNode("![a", Link, Some("b"))]
  {
    var n := TextNode(s, Text);
    assert '*' !in s && '_' !in s && '`' !in s;
    FindNeedsHead(s, "**");
    FindNeedsHead(s, "_");
    FindNeedsHead(s, "`");
    DelimiterPassPlain(s, "**", Bold);
    DelimiterPassPlain(s, "_", Italic);
    DelimiterPassPlain(s, "`", Code);
    var links := [TextNode("x", Text), TextNode("![a", Link, Some("b"))];
    LinkSwallowsImageCut(s);
    SingleMatchPass(n, LinkPattern);
    NoImageInLabel(links);
  }

  /** The link pass on `x[![a](b)`. */
  lemma LinkSwallowsImageCut(s: string)
    requires s == "x[![a](b)"
    ensures SplitByMatches(TextNode(s, Text), LinkPattern)
      == [TextNode("x", Text), TextNode("![a", Link, Some("b"))]
  {
    LinkOverImage(s);
    assert Extract(s, LinkPattern) == [("![a", "b")];
    LinkOverImageFind(s);
    OneMatchSplit(TextNode(s, Text), LinkPattern, ("![a", "b"), 1);
  }

  lemma LinkOverImageFind(s: string)
    requires s == "x[![a](b)"
    ensures Find(s, Rebuilt(LinkPattern, "![a", "b")) == 1
    ensures |Rebuilt(LinkPattern, "![a", "b")| == 8
    ensures SliceTo(s, 1) == "x" && SliceFrom(s, 9) == ""
  {
    var sub := Rebuilt(LinkPattern, "![a", "b");
    assert sub == "[![a](b)";
    assert OccursAt(s, sub, 1) by { assert s[1..9] == sub; }
    assert !OccursAt(s, sub, 0) by { assert s[0] != sub[0]; }
  }

  /** The image pass leaves `x` and the link labelled `![a` alone. */
  lemma NoImageInLabel(nodes: seq<TextNode>)
    requires nodes == [TextNode("x", Text), TextNode("![a", Link, Some("b"))]
    ensures MatchPass(nodes, ImagePattern) == Success(nodes)
  {
    var t := "![a";
    assert BracketFrom(t, 2, 2) == None;
    assert MatchAt(t, 0, ImagePattern) == None;
    FindAllNoOpen(t, ImagePattern, 1);
    assert FindAll(t, ImagePattern, 0) == [];
    assert '[' !in "x";
    MatchesNeedBracket("x", ImagePattern);
    SplitAllMatchesNone(nodes, ImagePattern);
  }

  /** A node whose text has one match, with nothing after the rebuilt
      reference, becomes the text before the reference and the match's
      node. */
  lemma OneMatchSplit(n: TextNode, pat: Pattern, item: (string, string), r: int)
    requires Extract(n.text, pat) == [item]
    requires r == Find(n.text, Rebuilt(pat, item.0, item.1))
    requires SliceFrom(n.text, r + |Rebuilt(pat, item.0, item.1)|) == ""
    ensures SplitByMatches(n, pat) == [TextNode(SliceTo(n.text, r), Text), TextNode(item.0, KindOf(pat), Some(item.1))]
  {
    assert [item][..0] == [];
    assert CutAll(n.text, [], pat) == Cut([], n.text, 1);
    assert CutAll(n.text, [item], pat) == CutStep(Cut([], n.text, 1), item, pat);
  }

  /** A match pass over a single node is what that node becomes. */
  lemma SingleMatchPass(n: TextNode, pat: Pattern)
    ensures MatchPass([n], pat) == Success(SplitByMatches(n, pat))
  {
    SplitAllMatchesSnoc([n], pat);
    assert [n][..0] == [] && [n][0] == n;
    assert SplitAllMatches([], pat) == [];
    assert SplitAllMatches([n], pat) == SplitByMatches(n, pat);
    assert MatchPass([n], pat) == Success(SplitAllMatches([n], pat));
  }

  // ---------------------------------------------------------------------
  // Bold text and a link through all five passes

  /** `a **b** [c](d)` becomes plain `a `, bold `b`, plain ` ` and the link
      `c` to `d`; the space before `[` is the character the link pattern
      consumes, and it stays in the plain text before the link. */
  lemma BoldThenLink(s: string)
    requires s == "a **b** [c](d)"
    ensures TextToTextNodes(s)
      == [TextNode("a ", Text), TextNode("b", Bold), TextNode(" ", Text), TextNode("c", Link, Some("d"))]
  {
    var bold := [TextNode("a ", Text), TextNode("b", Bold), TextNode(" [c](d)", Text)];
    BoldThenLinkBold(s);
    BoldThenLinkIdle(bold);
    var links := [TextNode("a ", Text), TextNode("b", Bold), TextNode(" ", Text), TextNode("c", Link, Some("d"))];
    BoldThenLinkLinks(bold, links);
    BoldThenLinkImages(links);
  }

  /** The bold pass on `a **b** [c](d)`. */
  lemma BoldThenLinkBold(s: string)
    requires s == "a **b** [c](d)"
    ensures DelimiterPass([TextNode(s, Text)], "**", Bold)
      == Success([TextNode("a ", Text), TextNode("b", Bold), TextNode(" [c](d)", Text)])
  {
    BoldSplit(s);
    SingleTextPass(s, "**", Bold);
    ThreePieces("a ", "b", " [c](d)", Bold);
  }

  /** Three pieces: plain text, one delimited span, plain text. */
  lemma ThreePieces(x: string, y: string, z: string, textType: TextType)
    ensures PieceNodes([x, y, z], textType) == [TextNode(x, Text), TextNode(y, textType), TextNode(z, Text)]
  {
  }

  lemma BoldSplit(s: string)
    requires s == "a **b** [c](d)"
    ensures Split(s, "**") == ["a ", "b", " [c](d)"]
  {
    BoldFind(s);
    BoldSplitTail(s[4..]);
    assert Split(s, "**") == [s[..2]] + Split(s[4..], "**");
  }

  lemma BoldFind(s: string)
    requires s == "a **b** [c](d)"
    ensures Find(s, "**") == 2 && s[..2] == "a " && s[4..] == "b** [c](d)"
  {
    BoldAt(s);
    var k := Find(s, "**");
    assert k == 2 by {
      assert !(0 <= k < 2);
      assert !(k == -1 || k > 2);
    }
  }

  lemma BoldAt(s: string)
    requires s == "a **b** [c](d)"
    ensures OccursAt(s, "**", 2) && !OccursAt(s, "**", 0) && !OccursAt(s, "**", 1)
  {
    assert |s| == 14 && s[0] == 'a' && s[1] == ' ' && s[2] == '*' && s[3] == '*';
    OccursPair(s, "**", 2);
    MissesHead(s, "**", 0);
    MissesHead(s, "**", 1);
  }

  /** Two matching characters are an occurrence of a two-character pattern. */
  lemma OccursPair(s: string, pat: string, i: nat)
    requires |pat| == 2 && i + 2 <= |s| && s[i] == pat[0] && s[i + 1] == pat[1]
    ensures OccursAt(s, pat, i)
  {
    assert s[i..i + 2] == [s[i], s[i + 1]];
  }

  /** A position whose character differs from the pattern's first is no
      occurrence. */
  lemma MissesHead(s: string, pat: string, i: nat)
    requires |pat| > 0 && i < |s| && s[i] != pat[0]
    ensures !OccursAt(s, pat, i)
  {
    if i + |pat| <= |s| {
      assert s[i..i + |pat|][0] == s[i];
    }
  }

  lemma BoldSplitTail(r: string)
    requires r == "b** [c](d)"
    ensures Split(r, "**") == ["b", " [c](d)"]
  {
    BoldTailFind(r);
    NoDelimiterSplit(r[3..], "**");
    assert Split(r, "**") == [r[..1]] + Split(r[3..], "**");
  }

  lemma BoldTailFind(r: string)
    requires r == "b** [c](d)"
    ensures Find(r, "**") == 1 && r[..1] == "b" && r[3..] == " [c](d)"
    ensures Find(r[3..], "**") == -1
  {
    assert |r| == 10 && r[0] == 'b' && r[1] == '*' && r[2] == '*';
    OccursPair(r, "**", 1);
    MissesHead(r, "**", 0);
    var t := r[3..];
    assert '*' !in t by { assert t == " [c](d)"; }
    FindNeedsHead(t, "**");
  }

  /** A string without the separator splits into itself. */
  lemma NoDelimiterSplit(t: string, sep: string)
    requires |sep| > 0 && Find(t, sep) == -1
    ensures Split(t, sep) == [t]
  {
  }

  /** The italic and code passes leave the bold pass's output alone. */
  lemma BoldThenLinkIdle(nodes: seq<TextNode>)
    requires nodes == [TextNode("a ", Text), TextNode("b", Bold), TextNode(" [c](d)", Text)]
    ensures DelimiterPass(nodes, "_", Italic) == Success(nodes)
    ensures DelimiterPass(nodes, "`", Code) == Success(nodes)
  {
    forall i | 0 <= i < |nodes| && nodes[i].textType == Text
      ensures Find(nodes[i].text, "_") == -1 && Find(nodes[i].text, "`") == -1
    {
      assert '_' !in nodes[i].text && '`' !in nodes[i].text;
      FindNeedsHead(nodes[i].text, "_");
      FindNeedsHead(nodes[i].text, "`");
    }
    DelimiterPassIdle(nodes, "_", Italic);
    DelimiterPassIdle(nodes, "`", Code);
  }

  /** The link pass finds the one link, in the last node. */
  lemma BoldThenLinkLinks(nodes: seq<TextNode>, links: seq<TextNode>)
    requires nodes == [TextNode("a ", Text), TextNode("b", Bold), TextNode(" [c](d)", Text)]
    requires links == [TextNode("a ", Text), TextNode("b", Bold), TextNode(" ", Text), TextNode("c", Link, Some("d"))]
    ensures MatchPass(nodes, LinkPattern) == Success(links)
  {
    var tail := [TextNode(" ", Text), TextNode("c", Link, Some("d"))];
    LinklessNode(nodes[0]);
    LinklessNode(nodes[1]);
    LinkCut(" [c](d)");
    MatchPassThree(nodes[0], nodes[1], nodes[2], LinkPattern, tail);
    assert [nodes[0], nodes[1]] + tail == links;
  }

  /** A node without `[` has no link to split out. */
  lemma LinklessNode(n: TextNode)
    requires '[' !in n.text
    ensures SplitByMatches(n, LinkPattern) == [n]
  {
    MatchesNeedBracket(n.text, LinkPattern);
    SplitByMatchesNone(n, LinkPattern);
  }

  /** A match pass over three nodes, the first two of which it leaves alone. */
  lemma MatchPassThree(n0: TextNode, n1: TextNode, n2: TextNode, pat: Pattern, tail: seq<TextNode>)
    requires SplitByMatches(n0, pat) == [n0] && SplitByMatches(n1, pat) == [n1]
    requires SplitByMatches(n2, pat) == tail
    ensures MatchPass([n0, n1, n2], pat) == Success([n0, n1] + tail)
  {
    TwoUntouched(n0, n1, pat);
    SplitAllMatchesPush([n0, n1], n2, pat);
    assert [n0, n1] + [n2] == [n0, n1, n2];
  }

  lemma TwoUntouched(n0: TextNode, n1: TextNode, pat: Pattern)
    requires SplitByMatches(n0, pat) == [n0] && SplitByMatches(n1, pat) == [n1]
    ensures SplitAllMatches([n0, n1], pat) == [n0, n1]
  {
    SplitAllMatchesPush([], n0, pat);
    assert [] + [n0] == [n0];
    SplitAllMatchesPush([n0], n1, pat);
    assert [n0] + [n1] == [n0, n1];
  }

  /** One more input node adds what it becomes at the end. */
  lemma SplitAllMatchesPush(nodes: seq<TextNode>, n: TextNode, pat: Pattern)
    ensures SplitAllMatches(nodes + [n], pat) == SplitAllMatches(nodes, pat) + SplitByMatches(n, pat)
  {
    assert (nodes + [n])[..|nodes|] == nodes;
  }

  /** The link pass on ` [c](d)`. */
  lemma LinkCut(t: string)
    requires t == " [c](d)"
    ensures SplitByMatches(TextNode(t, Text), LinkPattern) == [TextNode(" ", Text), TextNode("c", Link, Some("d"))]
  {
    LinkCutMatches(t);
    LinkCutFind(t);
    OneMatchSplit(TextNode(t, Text), LinkPattern, ("c", "d"), 1);
  }

  lemma LinkCutMatches(t: string)
    requires t == " [c](d)"
    ensures Extract(t, LinkPattern) == [("c", "d")]
  {
    assert CloseFrom(t, 6) == Some(6);
    assert CloseFrom(t, 5) == Some(6);
    assert BracketFrom(t, 2, 3) == Some((3, 6));
    assert BracketFrom(t, 2, 2) == Some((3, 6));
    assert Opens(t, 0, LinkPattern);
    assert t[2..3] == "c" && t[5..6] == "d";
    assert MatchAt(t, 0, LinkPattern) == Some(Match(0, 7, "c", "d"));
    assert FindAll(t, LinkPattern, 7) == [];
  }

  lemma LinkCutFind(t: string)
    requires t == " [c](d)"
    ensures Find(t, Rebuilt(LinkPattern, "c", "d")) == 1
    ensures |Rebuilt(LinkPattern, "c", "d")| == 6
    ensures SliceTo(t, 1) == " " && SliceFrom(t, 7) == ""
  {
    var sub := Rebuilt(LinkPattern, "c", "d");
    assert sub == "[c](d)";
    assert OccursAt(t, sub, 1) by { assert t[1..7] == sub; }
    assert !OccursAt(t, sub, 0) by { assert t[0] != sub[0]; }
  }

  /** No node has a `!`, so the image pass changes nothing. */
  lemma BoldThenLinkImages(links: seq<TextNode>)
    requires links == [TextNode("a ", Text), TextNode("b", Bold), TextNode(" ", Text), TextNode("c", Link, Some("d"))]
    ensures MatchPass(links, ImagePattern) == Success(links)
  {
    forall i | 0 <= i < |links| ensures Extract(links[i].text, ImagePattern) == [] {
      assert '!' !in links[i].text;
      ImagesNeedBang(links[i].text);
    }
    SplitAllMatchesNone(links, ImagePattern);
  }
}
