/** The HTML node tree: a node has an optional tag, an optional value, an
    optional list of children and optional attributes. Leaves carry a value,
    parents carry children; a plain node cannot be serialised. */
module HtmlNodes {
  import opened Wrappers
  import opened Strings

  /** Attributes in insertion order, as a list of name/value pairs. */
  type Props = seq<(string, string)>

  /** A list of children, or none (`children=None`). */
  datatype Children = NoChildren | Children(nodes: seq<HtmlNode>)

  /** The three node kinds. Every field not given defaults to none, as in
      the constructors. */
  datatype HtmlNode =
    | Base(tag: Option<string> := None, value: Option<string> := None,
           children: Children := NoChildren, props: Option<Props> := None)
    | Leaf(value: Option<string>, tag: Option<string> := None, props: Option<Props> := None)
    | Parent(tag: Option<string>, children: Children, props: Option<Props> := None)

  /** A node built with no arguments has every field unset. */
  lemma DefaultsUnset()
    ensures var n := Base();
      n.tag == None && n.value == None && n.children == NoChildren && n.props == None
  {
  }

  /** One attribute as `name="value"`. */
  function Attribute(p: (string, string)): string {
    p.0 + "=\"" + p.1 + "\""
  }

  /** The attributes, each as `name="value"`, separated by single spaces. */
  function JoinAttributes(ps: Props): string {
    if |ps| == 0 then ""
    else if |ps| == 1 then Attribute(ps[0])
    else JoinAttributes(ps[..|ps| - 1]) + " " + Attribute(ps[|ps| - 1])
  }

  /** The joined attributes are empty exactly when there are none, and
      otherwise end with the closing quote of the last value: there is never
      a trailing space. */
  lemma {:induction false} JoinAttributesEnds(ps: Props)
    ensures JoinAttributes(ps) == [] <==> ps == []
    ensures ps != [] ==> JoinAttributes(ps)[|JoinAttributes(ps)| - 1] == '"'
  {
    if |ps| > 1 {
      JoinAttributesEnds(ps[..|ps| - 1]);
    }
  }

  /** Two attributes, in insertion order, separated by one space. */
  lemma JoinTwoAttributes()
    ensures JoinAttributes([("alpha", "romeo"), ("target", "25")]) == "alpha=\"romeo\" target=\"25\""
  {
    assert [("alpha", "romeo"), ("target", "25")][..1] == [("alpha", "romeo")];
  }

  /** `props_to_html`: each attribute is written followed by a space, and the
      trailing whitespace is stripped at the end. Iterating over unset
      attributes is a type error. */
  method PropsToHtml(node: HtmlNode) returns (r: Result<string>)
    ensures node.props.None? ==> r == Failure(TypeError("'NoneType' object is not iterable"))
    ensures node.props.Some? ==> r == Success(JoinAttributes(node.props.value))
  {
    if node.props.None? {
      return Failure(TypeError("'NoneType' object is not iterable"));
    }
    var ps := node.props.value;
    var props := "";
    for k := 0 to |ps|
      invariant k == 0 ==> props == ""
      invariant k > 0 ==> props == JoinAttributes(ps[..k]) + " "
    {
      assert ps[..k + 1][..k] == ps[..k];
      props := props + Attribute(ps[k]) + " ";
    }
    assert ps[..|ps|] == ps;
    if |ps| > 0 {
      JoinAttributesEnds(ps);
      assert RStrip(props) == JoinAttributes(ps);
    }
    return Success(RStrip(props));
  }

  /** The base node's `to_html`: always fails. */
  function BaseToHtml(node: HtmlNode): (r: Result<string>)
    ensures r == Failure(NotImplementedError("not properly implemented"))
  {
    Failure(NotImplementedError("not properly implemented"))
  }
}
