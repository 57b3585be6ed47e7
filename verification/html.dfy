/** The parsed document tree the engine works on: what the HTML parser
    produces, owned top-down.  Parent links are not part of the value; where
    an ancestor chain is needed it is passed explicitly. */
module Html {

  /** The node kinds of the HTML parser. */
  datatype NodeKind = ErrorNode | TextNode | DocumentNode | ElementNode | CommentNode | DoctypeNode | RawNode

  /** One attribute of an element, as written in the document. */
  datatype Attr = Attr(key: string, val: string)

  /** A node: its kind, its `Data` (the tag name of an element), its
      attributes in document order (a key may repeat) and its children in
      document order. */
  datatype Node = Node(kind: NodeKind, data: string, attrs: seq<Attr>, children: seq<Node>)

  /** The subtree rooted at `n` in pre-order: the node itself, then the
      subtrees of its children from left to right. */
  function PreOrder(n: Node): (r: seq<Node>)
    ensures |r| >= 1 && r[0] == n
    decreases n, 1
  {
    [n] + PreOrderAll(n.children)
  }

  /** The pre-order sequences of `cs`, one after the other. */
  function PreOrderAll(cs: seq<Node>): (r: seq<Node>)
    decreases cs, 0
  {
    if cs == [] then [] else PreOrderAll(cs[..|cs| - 1]) + PreOrder(cs[|cs| - 1])
  }

  /** The pre-order sequence of one more child. */
  lemma PreOrderAllStep(cs: seq<Node>, i: nat)
    requires i < |cs|
    ensures PreOrderAll(cs[..i + 1]) == PreOrderAll(cs[..i]) + PreOrder(cs[i])
  {
    assert cs[..i + 1][..i] == cs[..i];
  }
}
