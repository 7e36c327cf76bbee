/** Element-filtered navigation over a parent's child list: the ParentNode
    getters `firstElementChild` / `lastElementChild` (section 4.2.6 of the
    WHATWG DOM Standard) and the NonDocumentTypeChildNode getters
    `nextElementSibling` / `previousElementSibling` (section 4.2.7).
    A position in the list stands for the node there; `None` is `null`. */
module Traversal {
  import opened Results
  import opened Nodes

  /** No element child comes before position `k`. */
  ghost predicate NoElementBefore(s: seq<Node>, k: nat)
  {
    forall j :: 0 <= j < k && j < |s| ==> !s[j].Element?
  }

  /** No element child comes after position `k`. */
  ghost predicate NoElementAfter(s: seq<Node>, k: nat)
  {
    forall j :: k < j < |s| ==> !s[j].Element?
  }

  /** The first element at position `from` or later. */
  function FirstElementFrom(s: seq<Node>, from: nat): (r: Option<nat>)
    ensures r.Some? ==> from <= r.value < |s| && s[r.value].Element?
    ensures r.Some? ==> forall k :: from <= k < r.value ==> !s[k].Element?
    ensures r.None? <==> forall k :: from <= k < |s| ==> !s[k].Element?
    decreases |s| - from
  {
    if from >= |s| then None
    else if NodeType(s[from]) == ElementNode then Some(from)
    else FirstElementFrom(s, from + 1)
  }

  /** The last element strictly before position `upto`. */
  function LastElementBefore(s: seq<Node>, upto: nat): (r: Option<nat>)
    requires upto <= |s|
    ensures r.Some? ==> r.value < upto && s[r.value].Element?
    ensures r.Some? ==> forall k :: r.value < k < upto ==> !s[k].Element?
    ensures r.None? <==> forall k :: 0 <= k < upto ==> !s[k].Element?
  {
    if upto == 0 then None
    else if NodeType(s[upto - 1]) == ElementNode then Some(upto - 1)
    else LastElementBefore(s, upto - 1)
  }

  /** `parent.firstElementChild`: the first child that is an element, or null. */
  function FirstElementChild(s: seq<Node>): (r: Option<nat>)
    ensures r.None? <==> forall k :: 0 <= k < |s| ==> !s[k].Element?
    ensures r.Some? ==> r.value < |s| && s[r.value].Element?
    ensures r.Some? ==> forall k :: 0 <= k < r.value ==> !s[k].Element?
  {
    FirstElementFrom(s, 0)
  }

  /** `parent.lastElementChild`: the last child that is an element, or null. */
  function LastElementChild(s: seq<Node>): (r: Option<nat>)
    ensures r.None? <==> forall k :: 0 <= k < |s| ==> !s[k].Element?
    ensures r.Some? ==> r.value < |s| && s[r.value].Element?
    ensures r.Some? ==> forall k :: r.value < k < |s| ==> !s[k].Element?
  {
    LastElementBefore(s, |s|)
  }

  /** `s[i].nextElementSibling`: the first element after position `i`, or null. */
  function NextElementSibling(s: seq<Node>, i: nat): (r: Option<nat>)
    requires i < |s|
    ensures r.None? <==> forall k :: i < k < |s| ==> !s[k].Element?
    ensures r.Some? ==> i < r.value < |s| && s[r.value].Element?
    ensures r.Some? ==> forall k :: i < k < r.value ==> !s[k].Element?
  {
    FirstElementFrom(s, i + 1)
  }

  /** `s[i].previousElementSibling`: the last element before position `i`, or null. */
  function PreviousElementSibling(s: seq<Node>, i: nat): (r: Option<nat>)
    requires i < |s|
    ensures r.None? <==> forall k :: 0 <= k < i ==> !s[k].Element?
    ensures r.Some? ==> r.value < i && s[r.value].Element?
    ensures r.Some? ==> forall k :: r.value < k < i ==> !s[k].Element?
  {
    LastElementBefore(s, i)
  }

  // ---------------------------------------------------------------------
  // Ranks: the position of an element among the element children only.
  // They give the navigation getters an independent reading: "next" is
  // rank + 1, "previous" is rank - 1, "first" is rank 0 and "last" is
  // the element count minus one.
  // ---------------------------------------------------------------------

  /** The number of elements in `s`. */
  function ElementCount(s: seq<Node>): nat
  {
    if s == [] then 0
    else ElementCount(s[..|s| - 1]) + (if s[|s| - 1].Element? then 1 else 0)
  }

  /** The number of elements before position `i`. */
  function Rank(s: seq<Node>, i: nat): nat
    requires i <= |s|
  {
    ElementCount(s[..i])
  }

  lemma RankStep(s: seq<Node>, i: nat)
    requires i < |s|
    ensures Rank(s, i + 1) == Rank(s, i) + (if s[i].Element? then 1 else 0)
  {
    assert s[..i + 1][..i] == s[..i];
  }

  lemma {:induction false} RankWhole(s: seq<Node>)
    ensures Rank(s, |s|) == ElementCount(s)
  {
    assert s[..|s|] == s;
  }

  /** Ranks never decrease along the list. */
  lemma {:induction false} RankMonotone(s: seq<Node>, i: nat, j: nat)
    requires i <= j <= |s|
    ensures Rank(s, i) <= Rank(s, j)
    decreases j - i
  {
    if i < j {
      RankStep(s, j - 1);
      RankMonotone(s, i, j - 1);
    }
  }

  /** An element's rank is below the element count. */
  lemma RankBelowCount(s: seq<Node>, i: nat)
    requires i < |s| && s[i].Element?
    ensures Rank(s, i) < ElementCount(s)
  {
    RankStep(s, i);
    RankMonotone(s, i + 1, |s|);
    RankWhole(s);
  }

  /** An element comes strictly before any later element in rank. */
  lemma RankStrict(s: seq<Node>, i: nat, j: nat)
    requires i < j < |s| && s[i].Element?
    ensures Rank(s, i) < Rank(s, j)
  {
    RankStep(s, i);
    RankMonotone(s, i + 1, j);
  }

  /** Two elements with the same rank are the same element. */
  lemma RankInjective(s: seq<Node>, i: nat, j: nat)
    requires i < |s| && j < |s| && s[i].Element? && s[j].Element?
    requires Rank(s, i) == Rank(s, j)
    ensures i == j
  {
    if i < j { RankStrict(s, i, j); }
    if j < i { RankStrict(s, j, i); }
  }

  /** A run of non-elements does not change the rank. */
  lemma {:induction false} RankFlat(s: seq<Node>, i: nat, j: nat)
    requires i <= j <= |s|
    requires forall k :: i <= k < j ==> !s[k].Element?
    ensures Rank(s, i) == Rank(s, j)
    decreases j - i
  {
    if i < j {
      RankStep(s, j - 1);
      RankFlat(s, i, j - 1);
    }
  }

  /** `firstElementChild` is the element of rank 0; it is null exactly
      when there are no elements. */
  lemma FirstElementChildRank(s: seq<Node>)
    ensures FirstElementChild(s).None? <==> ElementCount(s) == 0
    ensures FirstElementChild(s).Some? ==> Rank(s, FirstElementChild(s).value) == 0
  {
    var r := FirstElementChild(s);
    RankWhole(s);
    assert s[..0] == [];
    if r.Some? {
      RankFlat(s, 0, r.value);
      RankBelowCount(s, r.value);
    } else {
      RankFlat(s, 0, |s|);
    }
  }

  /** `lastElementChild` is the element of rank count - 1. */
  lemma LastElementChildRank(s: seq<Node>)
    ensures LastElementChild(s).None? <==> ElementCount(s) == 0
    ensures LastElementChild(s).Some? ==> Rank(s, LastElementChild(s).value) + 1 == ElementCount(s)
  {
    var r := LastElementChild(s);
    RankWhole(s);
    assert s[..0] == [];
    if r.Some? {
      RankStep(s, r.value);
      RankFlat(s, r.value + 1, |s|);
    } else {
      RankFlat(s, 0, |s|);
    }
  }

  /** `nextElementSibling` of an element moves one rank up, and is null
      exactly at the last element. */
  lemma NextElementSiblingRank(s: seq<Node>, i: nat)
    requires i < |s| && s[i].Element?
    ensures NextElementSibling(s, i).None? <==> Rank(s, i) + 1 == ElementCount(s)
    ensures NextElementSibling(s, i).Some? ==> Rank(s, NextElementSibling(s, i).value) == Rank(s, i) + 1
  {
    var r := NextElementSibling(s, i);
    RankStep(s, i);
    RankWhole(s);
    if r.Some? {
      RankFlat(s, i + 1, r.value);
      RankBelowCount(s, r.value);
    } else {
      RankFlat(s, i + 1, |s|);
    }
  }

  /** `previousElementSibling` of an element moves one rank down, and is
      null exactly at the first element. */
  lemma PreviousElementSiblingRank(s: seq<Node>, i: nat)
    requires i < |s| && s[i].Element?
    ensures PreviousElementSibling(s, i).None? <==> Rank(s, i) == 0
    ensures PreviousElementSibling(s, i).Some? ==> Rank(s, PreviousElementSibling(s, i).value) + 1 == Rank(s, i)
  {
    var r := PreviousElementSibling(s, i);
    assert s[..0] == [];
    if r.Some? {
      RankStep(s, r.value);
      RankFlat(s, r.value + 1, i);
    } else {
      RankFlat(s, 0, i);
    }
  }

  /** The previous element sibling of the next element sibling is the
      element started from, and vice versa. */
  lemma SiblingsInverse(s: seq<Node>, i: nat)
    requires i < |s| && s[i].Element?
    ensures NextElementSibling(s, i).Some? ==>
              PreviousElementSibling(s, NextElementSibling(s, i).value) == Some(i)
    ensures PreviousElementSibling(s, i).Some? ==>
              NextElementSibling(s, PreviousElementSibling(s, i).value) == Some(i)
  {
    var n := NextElementSibling(s, i);
    if n.Some? {
      var p := PreviousElementSibling(s, n.value);
      assert p.Some? && p.value >= i by {
        assert s[i].Element?;
      }
      assert p.value == i;
    }
    var p := PreviousElementSibling(s, i);
    if p.Some? {
      var q := NextElementSibling(s, p.value);
      assert q.Some? && q.value <= i by {
        assert s[i].Element?;
      }
      assert q.value == i;
    }
  }

  /** Lists of the same shape have the same element counts. */
  lemma {:induction false} ShapeCount(a: seq<Node>, b: seq<Node>)
    requires SameShape(a, b)
    ensures ElementCount(a) == ElementCount(b)
    decreases |a|
  {
    if a != [] {
      assert SameShape(a[..|a| - 1], b[..|b| - 1]);
      ShapeCount(a[..|a| - 1], b[..|b| - 1]);
    }
  }

  lemma ShapeRank(a: seq<Node>, b: seq<Node>, i: nat)
    requires SameShape(a, b) && i <= |a|
    ensures Rank(a, i) == Rank(b, i)
  {
    assert SameShape(a[..i], b[..i]);
    ShapeCount(a[..i], b[..i]);
  }

  /** Class edits do not move any navigation getter. */
  lemma ShapeNavigation(a: seq<Node>, b: seq<Node>, i: nat)
    requires SameShape(a, b) && i < |a|
    ensures FirstElementChild(a) == FirstElementChild(b)
    ensures LastElementChild(a) == LastElementChild(b)
    ensures NextElementSibling(a, i) == NextElementSibling(b, i)
    ensures PreviousElementSibling(a, i) == PreviousElementSibling(b, i)
  {
  }
}
