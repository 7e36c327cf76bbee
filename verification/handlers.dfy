/** The click listeners of the script that act on one parent's child list:
    the toggle / hide / show loops over `childNodes`, the first/last
    highlighter, and the "remove my parent item" button. Each listener is a
    pure function from the child list to an `Outcome`. */
module Handlers {
  import opened Results
  import opened Tokens
  import opened Nodes
  import opened Traversal

  /** The body of the `forEach` callback: apply `op` when `nodeType == 1`. */
  function Visit(child: Node, op: TokenOp): Node
  {
    if NodeType(child) == ElementNode then Element(Apply(op, child.classes)) else child
  }

  /** `children.forEach(child => { if (child.nodeType == 1) child.classList.<op>(token) })`:
      visits the children in order and edits the class list of each element. */
  function ForEachElement(children: seq<Node>, op: TokenOp): (r: seq<Node>)
    ensures SameShape(children, r)
    ensures forall k :: 0 <= k < |children| && children[k].Element? ==>
              r[k].classes == Apply(op, children[k].classes)
    ensures forall k :: 0 <= k < |children| && !children[k].Element? ==> r[k] == children[k]
  {
    if children == [] then []
    else [Visit(children[0], op)] + ForEachElement(children[1..], op)
  }

  /** The toggle button: every element child flips its "highlight" token;
      all other tokens and all text and comment children are untouched. */
  function ClickToggle(children: seq<Node>): (r: seq<Node>)
    ensures SameShape(children, r)
    ensures forall k :: 0 <= k < |children| && children[k].Element? ==>
              (Highlight in r[k].classes <==> Highlight !in children[k].classes)
    ensures forall k :: 0 <= k < |children| && children[k].Element? ==>
              r[k].classes - {Highlight} == children[k].classes - {Highlight}
    ensures forall k :: 0 <= k < |children| && !children[k].Element? ==> r[k] == children[k]
  {
    ForEachElement(children, ToggleOp(Highlight))
  }

  /** The hide button: every element child carries "hidden" afterwards. */
  function ClickHide(children: seq<Node>): (r: seq<Node>)
    ensures SameShape(children, r)
    ensures forall k :: 0 <= k < |children| && children[k].Element? ==> Hidden in r[k].classes
    ensures forall k :: 0 <= k < |children| && children[k].Element? ==>
              r[k].classes - {Hidden} == children[k].classes - {Hidden}
    ensures forall k :: 0 <= k < |children| && !children[k].Element? ==> r[k] == children[k]
  {
    ForEachElement(children, AddOp(Hidden))
  }

  /** The show button: no element child carries "hidden" afterwards. */
  function ClickShow(children: seq<Node>): (r: seq<Node>)
    ensures SameShape(children, r)
    ensures forall k :: 0 <= k < |children| && children[k].Element? ==> Hidden !in r[k].classes
    ensures forall k :: 0 <= k < |children| && children[k].Element? ==>
              r[k].classes - {Hidden} == children[k].classes - {Hidden}
    ensures forall k :: 0 <= k < |children| && !children[k].Element? ==> r[k] == children[k]
  {
    ForEachElement(children, RemoveOp(Hidden))
  }

  /** Two lists of the same shape that agree on every text and comment child
      and on every element's class set are equal. */
  lemma SameChildren(a: seq<Node>, b: seq<Node>)
    requires SameShape(a, b)
    requires forall k :: 0 <= k < |a| && a[k].Element? ==> a[k].classes == b[k].classes
    requires forall k :: 0 <= k < |a| && !a[k].Element? ==> a[k] == b[k]
    ensures a == b
  {
    forall k | 0 <= k < |a|
      ensures a[k] == b[k]
    {
      if a[k].Element? {
        assert b[k].Element?;
      }
    }
  }

  /** Clicking toggle twice restores every class set. */
  lemma ToggleTwiceRestores(children: seq<Node>)
    ensures ClickToggle(ClickToggle(children)) == children
  {
    var once := ClickToggle(children);
    var twice := ClickToggle(once);
    forall k | 0 <= k < |children| && children[k].Element?
      ensures twice[k].classes == children[k].classes
    {
      assert once[k].Element?;
      assert once[k].classes == Toggle(children[k].classes, Highlight);
      assert twice[k].classes == Toggle(once[k].classes, Highlight);
      ToggleTwice(children[k].classes, Highlight);
    }
    SameChildren(twice, children);
  }

  /** Clicking hide a second time changes nothing. */
  lemma HideIdempotent(children: seq<Node>)
    ensures ClickHide(ClickHide(children)) == ClickHide(children)
  {
    var once := ClickHide(children);
    var twice := ClickHide(once);
    forall k | 0 <= k < |once| && once[k].Element?
      ensures twice[k].classes == once[k].classes
    {
      assert Hidden in once[k].classes && Hidden in twice[k].classes;
      assert twice[k].classes - {Hidden} == once[k].classes - {Hidden};
      assert twice[k].classes == (twice[k].classes - {Hidden}) + {Hidden};
      assert once[k].classes == (once[k].classes - {Hidden}) + {Hidden};
    }
    SameChildren(once, twice);
  }

  /** Hide then show leaves "hidden" on no element, and ends exactly where
      show alone would. */
  lemma ShowAfterHide(children: seq<Node>)
    ensures forall k :: 0 <= k < |children| && children[k].Element? ==>
              Hidden !in ClickShow(ClickHide(children))[k].classes
    ensures ClickShow(ClickHide(children)) == ClickShow(children)
  {
    var hidden := ClickHide(children);
    var both := ClickShow(hidden);
    var shown := ClickShow(children);
    forall k | 0 <= k < |children| && children[k].Element?
      ensures both[k].classes == shown[k].classes
    {
      assert hidden[k].Element?;
      assert both[k].classes - {Hidden} == children[k].classes - {Hidden};
    }
    SameChildren(shown, both);
  }

  /** The highlight button: adds "highlight" to `firstElementChild` and to
      `lastElementChild`. Both are elements, so the `nodeType === 1` tests
      pass; with no element child `firstElementChild` is null and reading
      its `nodeType` throws before anything changes. */
  function ClickHighlight(children: seq<Node>): (r: Outcome<seq<Node>>)
    ensures r.Threw? <==> forall k :: 0 <= k < |children| ==> !children[k].Element?
    ensures r.Threw? ==> r.state == children && r.fault == TypeError(Null, "nodeType")
    ensures SameShape(children, r.state)
    ensures forall k :: 0 <= k < |children| && children[k].Element? && r.Done? ==>
              r.state[k].classes ==
                (if NoElementBefore(children, k) || NoElementAfter(children, k)
                 then children[k].classes + {Highlight}
                 else children[k].classes)
    ensures forall k :: 0 <= k < |children| && !children[k].Element? ==> r.state[k] == children[k]
  {
    match (FirstElementChild(children), LastElementChild(children))
    case (None, _) => Threw(children, TypeError(Null, "nodeType"))
    case (Some(first), None) => Threw(children, TypeError(Null, "nodeType"))
    case (Some(first), Some(last)) =>
      var once := if NodeType(children[first]) == ElementNode
                  then ApplyAt(children, first, AddOp(Highlight)) else children;
      var twice := if NodeType(once[last]) == ElementNode
                   then ApplyAt(once, last, AddOp(Highlight)) else once;
      Done(twice)
  }

  /** A second click on the highlight button changes nothing: the ends of
      the list are still the same elements and already carry "highlight". */
  lemma HighlightIdempotent(children: seq<Node>)
    ensures ClickHighlight(ClickHighlight(children).state) == ClickHighlight(children)
  {
    var once := ClickHighlight(children);
    var twice := ClickHighlight(once.state);
    if once.Done? {
      forall k | 0 <= k < |children| && children[k].Element?
        ensures twice.state[k].classes == once.state[k].classes
      {
        assert once.state[k].Element?;
        assert NoElementBefore(children, k) == NoElementBefore(once.state, k);
        assert NoElementAfter(children, k) == NoElementAfter(once.state, k);
        if NoElementBefore(children, k) || NoElementAfter(children, k) {
          assert once.state[k].classes + {Highlight} == once.state[k].classes;
        }
      }
      SameChildren(once.state, twice.state);
    }
  }

  /** `parent.removeChild(child)` for the child at position `i`
      (section 4.4 of the WHATWG DOM Standard): a position that holds no
      child is a NotFoundError. */
  function RemoveChild(children: seq<Node>, i: int): (r: Result<seq<Node>>)
    ensures r.Failure? <==> !(0 <= i < |children|)
    ensures r.Failure? ==> r.fault == NotFoundError
    ensures r.Success? ==> |r.value| + 1 == |children|
    ensures r.Success? ==> forall k :: 0 <= k < i ==> r.value[k] == children[k]
    ensures r.Success? ==> forall k :: i <= k < |r.value| ==> r.value[k] == children[k + 1]
  {
    if 0 <= i < |children| then Success(children[..i] + children[i + 1..])
    else Failure(NotFoundError)
  }

  /** Inserting `n` so that it ends up at position `i`: the reference
      definition `RemoveChild` is checked against. */
  function InsertAt(children: seq<Node>, i: nat, n: Node): (r: seq<Node>)
    requires i <= |children|
    ensures |r| == |children| + 1 && r[i] == n
    ensures forall k :: 0 <= k < i ==> r[k] == children[k]
    ensures forall k :: i < k < |r| ==> r[k] == children[k - 1]
  {
    children[..i] + [n] + children[i..]
  }

  /** Removing a child and re-inserting it at the same position restores
      the list; the removed child is the only node that goes missing. */
  lemma RemoveThenReinsert(children: seq<Node>, i: nat)
    requires i < |children|
    ensures RemoveChild(children, i).Success?
    ensures InsertAt(RemoveChild(children, i).value, i, children[i]) == children
    ensures multiset(RemoveChild(children, i).value) + multiset{children[i]} == multiset(children)
  {
    var rest := RemoveChild(children, i).value;
    var back := InsertAt(rest, i, children[i]);
    assert |back| == |children|;
    forall k | 0 <= k < |back|
      ensures back[k] == children[k]
    {
      if k > i {
        assert back[k] == rest[k - 1];
      }
    }
    assert back == children;
    assert rest == children[..i] + children[i + 1..];
    assert children == children[..i] + [children[i]] + children[i + 1..];
  }

  /** Where the clicked button's parent item sits: at a position of the
      list, or detached (its `parentNode` is null). */
  datatype ItemPlace = At(index: nat) | Detached

  /** A remove button: `this.parentNode.parentNode.removeChild(this.parentNode)`.
      The button's parent is an element item; while it is attached, it is a
      child of the list, so `removeChild` always finds it. The item at the
      clicked position goes and every other child keeps its relative order;
      an item without a parent makes the listener throw when it reads
      `removeChild` of null. */
  function ClickRemove(children: seq<Node>, item: ItemPlace): (r: Outcome<seq<Node>>)
    requires item.At? ==> item.index < |children| && children[item.index].Element?
    ensures r.Done? <==> item.At?
    ensures item.Detached? ==> r == Threw(children, TypeError(Null, "removeChild"))
    ensures r.Done? ==> |r.state| + 1 == |children|
    ensures r.Done? ==> forall k :: 0 <= k < item.index ==> r.state[k] == children[k]
    ensures r.Done? ==> forall k :: item.index <= k < |r.state| ==> r.state[k] == children[k + 1]
  {
    match item
    case Detached => Threw(children, TypeError(Null, "removeChild"))
    case At(i) => Done(RemoveChild(children, i).value)
  }
}
