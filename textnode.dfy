/** The inline record of src/textnode.py: a piece of text with its kind and,
    for links and images, a url. */
module TextNodes {
  import opened Wrappers
  import opened PyStr

  /** The six kinds of inline text; the enum is closed. */
  datatype TextType = Text | Bold | Italic | Code | Link | Image

  /** A `TextNode`; its fields are set once at construction. The url is
      `None` unless the caller supplies one. */
  datatype TextNode = TextNode(text: string, textType: TextType, url: Option<string> := None)

  /** `str()` of an enum member, as an f-string renders it. */
  function TypeName(t: TextType): string {
    match t
    case Text => "TextType.TEXT"
    case Bold => "TextType.BOLD"
    case Italic => "TextType.ITALIC"
    case Code => "TextType.CODE"
    case Link => "TextType.LINK"
    case Image => "TextType.IMAGE"
  }

  /** `__eq__`: field-by-field comparison of text, type and url; it agrees
      with structural equality of the record. */
  function Equals(a: TextNode, b: TextNode): (r: bool)
    ensures r <==> a == b
  {
    a.text == b.text && a.textType == b.textType && a.url == b.url
  }

  /** Being a field-by-field comparison, `__eq__` is an equivalence. */
  lemma EqualsIsEquivalence(a: TextNode, b: TextNode, c: TextNode)
    ensures Equals(a, a)
    ensures Equals(a, b) ==> Equals(b, a)
    ensures Equals(a, b) && Equals(b, c) ==> Equals(a, c)
  {
  }

  /** Nodes that differ only in whether a url is present are not equal. */
  lemma UrlDistinguishes(text: string, t: TextType, u: string)
    ensures !Equals(TextNode(text, t), TextNode(text, t, Some(u)))
  {
  }

  /** `__repr__`: `TextNode(text, type)` when there is no url,
      `TextNode(text, type, url)` otherwise. */
  function Repr(n: TextNode): (r: string)
    ensures StartsWith(r, "TextNode(" + n.text + ", " + TypeName(n.textType))
    ensures EndsWith(r, ")")
  {
    var head := "TextNode(" + n.text + ", " + TypeName(n.textType);
    assert (head + ")")[..|head|] == head;
    match n.url
    case None => head + ")"
    case Some(u) =>
      assert (head + ", " + u + ")")[..|head|] == head;
      head + ", " + u + ")"
  }

  /** The repr of a node with a url is the repr of the same node without one,
      with `", " + url` inserted before the closing parenthesis; so the url
      is omitted exactly when it is `None`. */
  lemma {:induction false} ReprUrl(text: string, t: TextType, u: string)
    ensures var bare := Repr(TextNode(text, t));
      Repr(TextNode(text, t, Some(u))) == bare[..|bare| - 1] + ", " + u + ")"
  {
    var head := "TextNode(" + text + ", " + TypeName(t);
    assert (head + ")")[..|head|] == head;
  }
}
