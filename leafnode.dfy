/** A leaf of the HTML tree: a value, optionally wrapped in a tag with
    attributes. */
module LeafNodes {
  import opened Wrappers
  import opened HtmlNodes

  /** The opening tag of a leaf: the attributes follow the tag name after a
      space only when there are some. */
  function OpenTag(tag: string, props: Option<Props>): string {
    if props.Some? && props.value != [] then "<" + tag + " " + JoinAttributes(props.value) + ">"
    else "<" + tag + ">"
  }

  function CloseTag(tag: string): string {
    "</" + tag + ">"
  }

  /** `LeafNode.to_html`. */
  function LeafHtml(node: HtmlNode): Result<string>
    requires node.Leaf?
  {
    if node.value.None? then Failure(ValueError("All leaf nodes must have a value."))
    else if node.tag.None? then Success(node.value.value)
    else Success(OpenTag(node.tag.value, node.props) + node.value.value + CloseTag(node.tag.value))
  }

  /** A leaf without a value fails, whatever its tag and attributes. */
  lemma LeafNeedsValue(tag: Option<string>, props: Option<Props>)
    ensures LeafHtml(Leaf(None, tag, props)) == Failure(ValueError("All leaf nodes must have a value."))
  {
  }

  /** A leaf without a tag is its value verbatim; its attributes are not
      rendered. */
  lemma UntaggedLeaf(value: string, props: Option<Props>)
    ensures LeafHtml(Leaf(Some(value), None, props)) == Success(value)
  {
  }

  /** A tagged leaf is the opening tag, the value unescaped and the closing
      tag: `<tag>value</tag>` without attributes, with a single space and the
      joined attributes before `>` otherwise. The value and the tag can be
      read back from the output. */
  lemma TaggedLeaf(value: string, tag: string, props: Option<Props>)
    ensures var r := LeafHtml(Leaf(Some(value), Some(tag), props));
      && r.Success?
      && (props.None? || props.value == [] ==> r.value == "<" + tag + ">" + value + "</" + tag + ">")
      && (props.Some? && props.value != [] ==>
            r.value == "<" + tag + " " + JoinAttributes(props.value) + ">" + value + "</" + tag + ">")
      && r.value[1..1 + |tag|] == tag
      && r.value[|OpenTag(tag, props)|..|r.value| - |CloseTag(tag)|] == value
  {
    var r := LeafHtml(Leaf(Some(value), Some(tag), props)).value;
    var o, c := OpenTag(tag, props), CloseTag(tag);
    assert r == o + value + c;
    assert o[1..1 + |tag|] == tag;
    assert r[|o|..|r| - |c|] == value;
  }

  /** A tagged leaf without attributes, as in the tests. */
  lemma PlainLeafExample()
    ensures LeafHtml(Leaf(Some("This is a value"), Some("p"))) == Success("<p>This is a value</p>")
  {
    var n := Leaf(Some("This is a value"), Some("p"));
    assert LeafHtml(n) == Success(OpenTag("p", None) + "This is a value" + CloseTag("p"));
    assert OpenTag("p", None) == "<p>";
    assert CloseTag("p") == "</p>";
    assert "<p>" + "This is a value" + "</p>" == "<p>This is a value</p>";
  }

  /** A tagged leaf with one attribute. */
  lemma LinkLeafExample()
    ensures LeafHtml(Leaf(Some("go"), Some("a"), Some([("href", "/x")])))
      == Success("<a href=\"/x\">go</a>")
  {
    var props := [("href", "/x")];
    var n := Leaf(Some("go"), Some("a"), Some(props));
    assert LeafHtml(n) == Success(OpenTag("a", Some(props)) + "go" + CloseTag("a"));
    assert JoinAttributes(props) == Attribute(props[0]);
    assert Attribute(props[0]) == "href=\"/x\"";
    assert OpenTag("a", Some(props)) == "<a href=\"/x\">";
    assert CloseTag("a") == "</a>";
    assert "<a href=\"/x\">" + "go" + "</a>" == "<a href=\"/x\">go</a>";
  }
}
