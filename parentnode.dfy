/** A parent of the HTML tree: a tag around the serialisations of its
    children, in order. Serialisation recurses through any kinds of node. */
module ParentNodes {
  import opened Wrappers
  import opened HtmlNodes
  import opened LeafNodes

  /** `to_html` of any node: the base node always fails, a leaf renders
      itself, a parent checks its tag, then its children, then renders. */
  function Html(node: HtmlNode): Result<string>
    decreases node, 1
  {
    match node
    case Base(_, _, _, _) => BaseToHtml(node)
    case Leaf(_, _, _) => LeafHtml(node)
    case Parent(tag, children, _) =>
      if tag.None? then Failure(ValueError("All parent nodes must have a tag."))
      else if children.NoChildren? then Failure(ValueError("All parent nodes must have children defined."))
      else
        match HtmlAll(node, children.nodes)
        case Failure(e) => Failure(e)
        case Success(inner) => Success("<" + tag.value + ">" + inner + "</" + tag.value + ">")
  }

  /** The children's serialisations concatenated in order, or the first
      child's failure. */
  function HtmlAll(parent: HtmlNode, cs: seq<HtmlNode>): Result<string>
    requires parent.Parent? && parent.children.Children? && cs <= parent.children.nodes
    decreases parent, 0, |cs|
  {
    if cs == [] then Success("")
    else
      assert cs[|cs| - 1] in parent.children.nodes;
      match HtmlAll(parent, cs[..|cs| - 1])
      case Failure(e) => Failure(e)
      case Success(s) =>
        match Html(cs[|cs| - 1])
        case Failure(e) => Failure(e)
        case Success(t) => Success(s + t)
  }

  /** `to_html`, with the parent's loop over its children. */
  method ToHtml(node: HtmlNode) returns (r: Result<string>)
    ensures r == Html(node)
    decreases node
  {
    match node {
      case Base(_, _, _, _) =>
        return BaseToHtml(node);
      case Leaf(_, _, _) =>
        return LeafHtml(node);
      case Parent(tag, children, _) =>
        if tag.None? {
          return Failure(ValueError("All parent nodes must have a tag."));
        }
        if children.NoChildren? {
          return Failure(ValueError("All parent nodes must have children defined."));
        }
        var cs := children.nodes;
        var s := "<" + tag.value + ">";
        ghost var inner := "";
        for k := 0 to |cs|
          invariant HtmlAll(node, cs[..k]) == Success(inner)
          invariant s == "<" + tag.value + ">" + inner
        {
          assert cs[..k + 1][..k] == cs[..k];
          assert cs[k] in cs;
          var child := ToHtml(cs[k]);
          if child.Failure? {
            FailurePersists(node, cs, k + 1);
            return Failure(child.error);
          }
          s := s + child.value;
          inner := inner + child.value;
        }
        assert cs[..|cs|] == cs;
        s := s + "</" + tag.value + ">";
        return Success(s);
    }
  }

  /** Once a child fails, every longer list of children fails the same way. */
  lemma {:induction false} FailurePersists(parent: HtmlNode, cs: seq<HtmlNode>, k: nat)
    requires parent.Parent? && parent.children.Children? && cs <= parent.children.nodes
    requires k <= |cs| && HtmlAll(parent, cs[..k]).Failure?
    ensures HtmlAll(parent, cs) == HtmlAll(parent, cs[..k])
    decreases |cs| - k
  {
    if k < |cs| {
      assert cs[..k + 1][..k] == cs[..k];
      FailurePersists(parent, cs, k + 1);
    } else {
      assert cs[..k] == cs;
    }
  }

  /** A parent without a tag fails, checked before its children: even an
      empty list of children does not save it. */
  lemma ParentNeedsTag(children: Children, props: Option<Props>)
    ensures Html(Parent(None, children, props)) == Failure(ValueError("All parent nodes must have a tag."))
  {
  }

  /** A tagged parent with no list of children fails. */
  lemma ParentNeedsChildren(tag: string, props: Option<Props>)
    ensures Html(Parent(Some(tag), NoChildren, props)) == Failure(ValueError("All parent nodes must have children defined."))
  {
  }

  /** A tagged parent with an empty list of children is `<tag></tag>`. */
  lemma EmptyParent(tag: string, props: Option<Props>)
    ensures Html(Parent(Some(tag), Children([]), props)) == Success("<" + tag + ">" + "</" + tag + ">")
  {
    var open := "<" + tag + ">";
    assert open + "" == open;
  }

  /** The fold over the children does not look at the parent beyond its
      list of children. */
  lemma {:induction false} HtmlAllOfAnyParent(p: HtmlNode, q: HtmlNode, cs: seq<HtmlNode>)
    requires p.Parent? && p.children.Children? && cs <= p.children.nodes
    requires q.Parent? && q.children.Children? && cs <= q.children.nodes
    ensures HtmlAll(p, cs) == HtmlAll(q, cs)
  {
    if cs != [] {
      HtmlAllOfAnyParent(p, q, cs[..|cs| - 1]);
    }
  }

  /** A parent's attributes are never rendered: its opening tag is always
      the bare `<tag>`. */
  lemma ParentIgnoresProps(tag: Option<string>, children: Children, p: Option<Props>, q: Option<Props>)
    ensures Html(Parent(tag, children, p)) == Html(Parent(tag, children, q))
  {
    if tag.Some? && children.Children? {
      HtmlAllOfAnyParent(Parent(tag, children, p), Parent(tag, children, q), children.nodes);
    }
  }

  /** The children are serialised in order and the first one that fails
      decides the failure. */
  lemma {:induction false} FirstFailureWins(parent: HtmlNode, cs: seq<HtmlNode>, k: nat)
    requires parent.Parent? && parent.children.Children? && cs <= parent.children.nodes
    requires k < |cs| && Html(cs[k]).Failure?
    requires forall j :: 0 <= j < k ==> Html(cs[j]).Success?
    ensures HtmlAll(parent, cs) == Html(cs[k])
  {
    assert cs[..k + 1] <= parent.children.nodes;
    PrefixSucceeds(parent, cs[..k + 1], k);
    assert cs[..k + 1][..k] == cs[..k];
    FailurePersists(parent, cs, k + 1);
  }

  /** When the first `k` children succeed, so does the fold over them. */
  lemma {:induction false} PrefixSucceeds(parent: HtmlNode, cs: seq<HtmlNode>, k: nat)
    requires parent.Parent? && parent.children.Children? && cs <= parent.children.nodes
    requires k <= |cs| && forall j :: 0 <= j < k ==> Html(cs[j]).Success?
    ensures HtmlAll(parent, cs[..k]).Success?
  {
    if k > 0 {
      assert cs[..k][..k - 1] == cs[..k - 1];
      PrefixSucceeds(parent, cs, k - 1);
    }
  }

  /** A node serialises when it is a leaf with a value, or a parent with a
      tag and a list of children that all serialise; a base node never does. */
  ghost predicate WellFormed(node: HtmlNode) {
    match node
    case Base(_, _, _, _) => false
    case Leaf(value, _, _) => value.Some?
    case Parent(tag, children, _) =>
      tag.Some? && children.Children? && forall c :: c in children.nodes ==> WellFormed(c)
  }

  /** Errors propagate from any depth: a node serialises exactly when it is
      well formed all the way down. */
  lemma {:induction false} SerialisesIffWellFormed(node: HtmlNode)
    ensures Html(node).Success? <==> WellFormed(node)
    decreases node, 1
  {
    if node.Parent? && node.tag.Some? && node.children.Children? {
      AllSerialiseIffWellFormed(node, node.children.nodes);
    }
  }

  lemma {:induction false} AllSerialiseIffWellFormed(parent: HtmlNode, cs: seq<HtmlNode>)
    requires parent.Parent? && parent.children.Children? && cs <= parent.children.nodes
    ensures HtmlAll(parent, cs).Success? <==> forall c :: c in cs ==> WellFormed(c)
    decreases parent, 0, |cs|
  {
    if cs != [] {
      var init, last := cs[..|cs| - 1], cs[|cs| - 1];
      assert last in parent.children.nodes;
      assert cs == init + [last];
      AllSerialiseIffWellFormed(parent, init);
      SerialisesIffWellFormed(last);
    }
  }

  /** Serialisation recurses through nested parents: a parent around a
      parent around a tagged leaf, as in the tests. */
  lemma NestedParents(outer: string, middle: string, tag: string, value: string)
    ensures Html(Parent(Some(outer), Children([Parent(Some(middle), Children([Leaf(Some(value), Some(tag))]))])))
      == Success("<" + outer + ">" + "<" + middle + ">" + "<" + tag + ">" + value + "</" + tag + ">"
                 + "</" + middle + ">" + "</" + outer + ">")
  {
    var leaf := Leaf(Some(value), Some(tag));
    var inner := Parent(Some(middle), Children([leaf]));
    var node := Parent(Some(outer), Children([inner]));
    var l := "<" + tag + ">" + value + "</" + tag + ">";
    var m := "<" + middle + ">" + l + "</" + middle + ">";
    assert Html(leaf) == Success(l) by {
      assert OpenTag(tag, None) + value + CloseTag(tag) == l;
    }
    SingleChild(inner, leaf);
    assert Html(inner) == Success(m);
    SingleChild(node, inner);
    assert Html(node) == Success("<" + outer + ">" + m + "</" + outer + ">");
    assert "<" + outer + ">" + m + "</" + outer + ">"
      == "<" + outer + ">" + "<" + middle + ">" + "<" + tag + ">" + value + "</" + tag + ">"
         + "</" + middle + ">" + "</" + outer + ">";
  }

  /** A single child's serialisation is the whole fold. */
  lemma SingleChild(parent: HtmlNode, child: HtmlNode)
    requires parent.Parent? && parent.children == Children([child])
    ensures HtmlAll(parent, [child]) == Html(child)
  {
    assert [child][..0] == [];
    if Html(child).Success? {
      assert "" + Html(child).value == Html(child).value;
    }
  }
}
