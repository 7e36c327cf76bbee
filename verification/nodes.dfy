/** The nodes of one parent's child list (`childNodes`), and edits of the
    class tokens of single children. */
module Nodes {
  import opened Tokens

  /** A child node. Only elements carry a class list. */
  datatype Node = Element(classes: TokenSet) | Text | Comment

  /** The `nodeType` constants of section 4.4 of the WHATWG DOM Standard. */
  const ElementNode: int := 1
  const TextNode: int := 3
  const CommentNode: int := 8

  /** `node.nodeType`; the script's `nodeType == 1` test singles out elements. */
  function NodeType(n: Node): (r: int)
    ensures r == ElementNode <==> n.Element?
    ensures r in {ElementNode, TextNode, CommentNode}
  {
    match n
    case Element(_) => ElementNode
    case Text => TextNode
    case Comment => CommentNode
  }

  /** Both lists have the same length and the same kind of node at each
      position: class edits never change a list's shape. */
  ghost predicate SameShape(a: seq<Node>, b: seq<Node>)
  {
    |a| == |b| && forall k :: 0 <= k < |a| ==> a[k].Element? == b[k].Element?
  }

  /** `children[i].classList.<op>(token)` on the element at position `i`. */
  function ApplyAt(children: seq<Node>, i: nat, op: TokenOp): (r: seq<Node>)
    requires i < |children| && children[i].Element?
    ensures SameShape(children, r)
    ensures r[i].classes == Apply(op, children[i].classes)
    ensures forall k :: 0 <= k < |children| && k != i ==> r[k] == children[k]
  {
    children[i := Element(Apply(op, children[i].classes))]
  }
}
