/** The "Next" / "Previous" carousel over the children of `MyItemList`: a
    cursor (`currentItem`) on one element child, shown by removing its
    "hidden" token, that the two buttons move with wraparound. */
module Carousel {
  import opened Results
  import opened Tokens
  import opened Nodes
  import opened Traversal

  /** The list's children and the position of `currentItem` among them. */
  datatype State = State(items: seq<Node>, current: nat)

  /** `currentItem` is an element child of the list. */
  ghost predicate Valid(c: State)
  {
    c.current < |c.items| && c.items[c.current].Element?
  }

  /** `currentItem` is an element child and does not carry "hidden". */
  ghost predicate Showing(c: State)
  {
    Valid(c) && Hidden !in c.items[c.current].classes
  }

  /** The rank of `currentItem` among the element children. */
  function CursorRank(c: State): nat
    requires Valid(c)
  {
    Rank(c.items, c.current)
  }

  /** Start-up: `currentItem = firstElementChild`, then its "hidden" token
      is removed. With no element child `currentItem` is null, the
      `classList` read throws and the script stops, so no carousel (and
      no button listener) ever exists. */
  function Init(items: seq<Node>): (r: Result<State>)
    ensures r.Failure? <==> forall k :: 0 <= k < |items| ==> !items[k].Element?
    ensures r.Failure? ==> r.fault == TypeError(Null, "classList")
    ensures r.Success? ==> Showing(r.value) && NoElementBefore(items, r.value.current)
    ensures r.Success? ==> SameShape(items, r.value.items)
    ensures r.Success? ==>
              r.value.items[r.value.current].classes - {Hidden} == items[r.value.current].classes - {Hidden}
    ensures r.Success? ==>
              forall k :: 0 <= k < |items| && k != r.value.current ==> r.value.items[k] == items[k]
  {
    match FirstElementChild(items)
    case None => Failure(TypeError(Null, "classList"))
    case Some(first) => Success(State(ApplyAt(items, first, RemoveOp(Hidden)), first))
  }

  /** The "Next" button as written. `currentItem` is hidden; if it has a
      next element sibling, that sibling is shown and becomes current.
      Otherwise `currentItem` is reset to `firstElementChild` and the
      listener reads `classItem` (not `classList`), which is undefined on an
      element, so calling `remove` on it throws: the hide and the reset
      stay, but the first element is not shown. */
  function Next(c: State): (r: Outcome<State>)
    requires Valid(c)
    ensures Valid(r.state) && SameShape(c.items, r.state.items)
    ensures r.Done? <==> !NoElementAfter(c.items, c.current)
    ensures r.state.items[c.current].classes - {Hidden} == c.items[c.current].classes - {Hidden}
    ensures r.Done? ==> c.current < r.state.current
    ensures r.Done? ==> Hidden in r.state.items[c.current].classes
    ensures r.Done? ==> forall k :: c.current < k < r.state.current ==> !c.items[k].Element?
    ensures r.Done? ==> Showing(r.state)
    ensures r.Done? ==>
              r.state.items[r.state.current].classes - {Hidden}
              == c.items[r.state.current].classes - {Hidden}
    ensures r.Done? ==> forall k :: 0 <= k < |c.items| && k != c.current && k != r.state.current ==>
              r.state.items[k] == c.items[k]
    ensures r.Threw? ==> r.fault == TypeError(Undefined, "remove")
    ensures r.Threw? ==> NoElementBefore(c.items, r.state.current)
    ensures r.Threw? ==> Hidden in r.state.items[c.current].classes
    ensures r.Threw? ==> forall k :: 0 <= k < |c.items| && k != c.current ==> r.state.items[k] == c.items[k]
  {
    var hid := ApplyAt(c.items, c.current, AddOp(Hidden));
    match NextElementSibling(hid, c.current)
    case Some(next) => Done(State(ApplyAt(hid, next, RemoveOp(Hidden)), next))
    case None =>
      assert hid[c.current].Element?;
      Threw(State(hid, FirstElementChild(hid).value), TypeError(Undefined, "remove"))
  }

  /** The "Next" button with `classList` on line 319, as the comment beside
      it intends: at the last element the cursor wraps to the first
      element, which is shown. */
  function NextIntended(c: State): (r: Outcome<State>)
    requires Valid(c)
    ensures r.Done? && Showing(r.state) && SameShape(c.items, r.state.items)
    ensures NoElementAfter(c.items, c.current) ==> NoElementBefore(c.items, r.state.current)
    ensures !NoElementAfter(c.items, c.current) ==>
              c.current < r.state.current &&
              forall k :: c.current < k < r.state.current ==> !c.items[k].Element?
    ensures r.state.current != c.current ==> Hidden in r.state.items[c.current].classes
    ensures r.state.items[c.current].classes - {Hidden} == c.items[c.current].classes - {Hidden}
    ensures r.state.items[r.state.current].classes - {Hidden}
            == c.items[r.state.current].classes - {Hidden}
    ensures forall k :: 0 <= k < |c.items| && k != c.current && k != r.state.current ==>
              r.state.items[k] == c.items[k]
  {
    var hid := ApplyAt(c.items, c.current, AddOp(Hidden));
    match NextElementSibling(hid, c.current)
    case Some(next) => Done(State(ApplyAt(hid, next, RemoveOp(Hidden)), next))
    case None =>
      assert hid[c.current].Element?;
      var first := FirstElementChild(hid).value;
      Done(State(ApplyAt(hid, first, RemoveOp(Hidden)), first))
  }

  /** The corrected listener differs from the written one only on line 319:
      where the written one completes, both give the same result; where it
      throws, the corrected one also shows the element the cursor was reset
      to, and changes nothing else. */
  lemma NextIntendedOnlyFixesWrap(c: State)
    requires Valid(c)
    ensures Next(c).Done? ==> NextIntended(c) == Next(c)
    ensures Next(c).Threw? ==>
              NextIntended(c).state ==
                State(ApplyAt(Next(c).state.items, Next(c).state.current, RemoveOp(Hidden)),
                      Next(c).state.current)
  {
  }

  /** The "Previous" button: `currentItem` is hidden; its previous element
      sibling, or `lastElementChild` when there is none, is shown and
      becomes current. It never throws. */
  function Prev(c: State): (r: State)
    requires Valid(c)
    ensures Showing(r) && SameShape(c.items, r.items)
    ensures NoElementBefore(c.items, c.current) ==> NoElementAfter(c.items, r.current)
    ensures !NoElementBefore(c.items, c.current) ==>
              r.current < c.current && forall k :: r.current < k < c.current ==> !c.items[k].Element?
    ensures r.items[r.current].classes - {Hidden} == c.items[r.current].classes - {Hidden}
    ensures r.current != c.current ==> Hidden in r.items[c.current].classes
    ensures r.items[c.current].classes - {Hidden} == c.items[c.current].classes - {Hidden}
    ensures forall k :: 0 <= k < |c.items| && k != c.current && k != r.current ==> r.items[k] == c.items[k]
  {
    var hid := ApplyAt(c.items, c.current, AddOp(Hidden));
    assert hid[c.current].Element?;
    var target := match PreviousElementSibling(hid, c.current)
                  case Some(p) => p
                  case None => LastElementChild(hid).value;
    State(ApplyAt(hid, target, RemoveOp(Hidden)), target)
  }

  /** The rank reached from rank `r` by one step up, with wraparound
      among `n` elements. */
  function Up(r: nat, n: nat): nat
  {
    if r + 1 >= n then 0 else r + 1
  }

  /** The rank reached from rank `r` by one step down, with wraparound. */
  function Down(r: nat, n: nat): nat
  {
    if r == 0 then (if n == 0 then 0 else n - 1) else r - 1
  }

  /** Next moves the cursor one rank up, wrapping from the last element to
      the first; the element count never changes. */
  lemma NextRank(c: State)
    requires Valid(c)
    ensures ElementCount(Next(c).state.items) == ElementCount(c.items) > CursorRank(c)
    ensures CursorRank(Next(c).state) == Up(CursorRank(c), ElementCount(c.items))
  {
    var nx := Next(c).state;
    RankBelowCount(c.items, c.current);
    NextElementSiblingRank(c.items, c.current);
    ShapeCount(c.items, nx.items);
    ShapeRank(c.items, nx.items, nx.current);
    if Next(c).Threw? {
      assert c.items[..0] == [];
      RankFlat(c.items, 0, nx.current);
    } else {
      RankFlat(c.items, c.current + 1, nx.current);
    }
  }

  /** The corrected Next moves the cursor exactly as Next does. */
  lemma NextIntendedRank(c: State)
    requires Valid(c)
    ensures NextIntended(c).state.current == Next(c).state.current
    ensures ElementCount(NextIntended(c).state.items) == ElementCount(c.items)
    ensures CursorRank(NextIntended(c).state) == Up(CursorRank(c), ElementCount(c.items))
  {
    var ni := NextIntended(c).state;
    var nx := Next(c).state;
    NextRank(c);
    ShapeCount(c.items, ni.items);
    ShapeRank(nx.items, ni.items, ni.current);
  }

  /** Prev moves the cursor one rank down, wrapping from the first element
      to the last; the element count never changes. */
  lemma PrevRank(c: State)
    requires Valid(c)
    ensures ElementCount(Prev(c).items) == ElementCount(c.items) > CursorRank(c)
    ensures CursorRank(Prev(c)) == Down(CursorRank(c), ElementCount(c.items))
  {
    var pv := Prev(c);
    RankBelowCount(c.items, c.current);
    PreviousElementSiblingRank(c.items, c.current);
    ShapeCount(c.items, pv.items);
    ShapeRank(c.items, pv.items, pv.current);
    RankStep(c.items, pv.current);
    if NoElementBefore(c.items, c.current) {
      assert c.items[..0] == [];
      RankFlat(c.items, 0, c.current);
      RankFlat(c.items, pv.current + 1, |c.items|);
      RankWhole(c.items);
    } else {
      RankFlat(c.items, pv.current + 1, c.current);
    }
  }

  /** Two valid cursors over lists of the same shape with the same rank
      denote the same child. */
  lemma SameRankSameCursor(a: State, b: State)
    requires Valid(a) && Valid(b) && SameShape(a.items, b.items)
    requires CursorRank(a) == CursorRank(b)
    ensures a.current == b.current
  {
    ShapeRank(a.items, b.items, a.current);
    RankInjective(b.items, a.current, b.current);
  }

  /** Prev after a Next that did not wrap returns to the starting element. */
  lemma PrevUndoesNext(c: State)
    requires Valid(c) && Next(c).Done?
    ensures Prev(Next(c).state).current == c.current
  {
    var nx := Next(c).state;
    NextRank(c);
    PrevRank(nx);
    SameRankSameCursor(Prev(nx), c);
  }

  /** With the corrected Next, Prev always returns to the starting element,
      including across the wraparound. */
  lemma PrevUndoesNextIntended(c: State)
    requires Valid(c)
    ensures Prev(NextIntended(c).state).current == c.current
  {
    var ni := NextIntended(c).state;
    NextIntendedRank(c);
    NextRank(c);
    PrevRank(ni);
    SameRankSameCursor(Prev(ni), c);
  }

  /** Next after Prev always returns the cursor to the starting element,
      even when Next throws at the wraparound. */
  lemma NextUndoesPrev(c: State)
    requires Valid(c)
    ensures Next(Prev(c)).state.current == c.current
  {
    var pv := Prev(c);
    PrevRank(c);
    NextRank(pv);
    SameRankSameCursor(Next(pv).state, c);
  }

  /** A click on one of the two buttons. */
  datatype Click = NextClick | PrevClick

  /** One click. A listener that throws ends only that click: the state it
      left behind is what the next click sees. */
  function Step(c: State, click: Click): (r: State)
    requires Valid(c)
    ensures Valid(r) && SameShape(c.items, r.items)
  {
    match click
    case NextClick => Next(c).state
    case PrevClick => Prev(c)
  }

  /** A sequence of clicks, in order, starting from `c`. */
  function Run(c: State, clicks: seq<Click>): (r: State)
    requires Valid(c)
    ensures Valid(r) && SameShape(c.items, r.items)
    decreases |clicks|
  {
    if clicks == [] then c else Run(Step(c, clicks[0]), clicks[1..])
  }

  /** `k` clicks on "Next". */
  function Nexts(k: nat): (r: seq<Click>)
    ensures |r| == k && forall i :: 0 <= i < k ==> r[i] == NextClick
  {
    if k == 0 then [] else [NextClick] + Nexts(k - 1)
  }

  /** The rank reached from rank `r` by `k` steps up. */
  function UpN(r: nat, k: nat, n: nat): nat
    decreases k
  {
    if k == 0 then r else UpN(Up(r, n), k - 1, n)
  }

  /** Short of the top, `k` steps up add `k`. */
  lemma {:induction false} UpNClimb(r: nat, k: nat, n: nat)
    requires r + k < n
    ensures UpN(r, k, n) == r + k
    decreases k
  {
    if k > 0 {
      UpNClimb(r + 1, k - 1, n);
    }
  }

  lemma {:induction false} UpNAppend(r: nat, a: nat, b: nat, n: nat)
    ensures UpN(r, a + b, n) == UpN(UpN(r, a, n), b, n)
    decreases a
  {
    if a > 0 {
      UpNAppend(Up(r, n), a - 1, b, n);
    }
  }

  /** `n` steps up among `n` ranks come back to the start. */
  lemma UpNCycle(r: nat, n: nat)
    requires r < n
    ensures UpN(r, n, n) == r
  {
    UpNClimb(r, n - r - 1, n);
    UpNAppend(r, n - r - 1, r + 1, n);
    assert UpN(n - 1, r + 1, n) == UpN(0, r, n);
    UpNClimb(0, r, n);
  }

  /** After `k` clicks on "Next" the cursor has moved `k` ranks up, with
      wraparound; the element count never changes. */
  lemma {:induction false} NextClicksRank(c: State, k: nat)
    requires Valid(c)
    ensures ElementCount(Run(c, Nexts(k)).items) == ElementCount(c.items)
    ensures CursorRank(Run(c, Nexts(k))) == UpN(CursorRank(c), k, ElementCount(c.items))
    decreases k
  {
    if k > 0 {
      var nx := Next(c).state;
      assert Nexts(k)[0] == NextClick && Nexts(k)[1..] == Nexts(k - 1);
      assert Run(c, Nexts(k)) == Run(nx, Nexts(k - 1));
      NextRank(c);
      NextClicksRank(nx, k - 1);
    }
  }

  /** Clicking "Next" once per element brings the cursor back to where it
      started: the wraparound visits every element and returns. */
  lemma FullCycle(c: State)
    requires Valid(c)
    ensures Run(c, Nexts(ElementCount(c.items))).current == c.current
  {
    var n := ElementCount(c.items);
    RankBelowCount(c.items, c.current);
    NextClicksRank(c, n);
    UpNCycle(CursorRank(c), n);
    SameRankSameCursor(Run(c, Nexts(n)), c);
  }

  /** At the last element, Next leaves the new current element shown only
      if it is a different element that was already shown: line 319 never
      shows it. */
  lemma NextWrapShowsNothingNew(c: State)
    requires Valid(c) && NoElementAfter(c.items, c.current)
    ensures Next(c).Threw?
    ensures Showing(Next(c).state) <==>
              Next(c).state.current != c.current && Hidden !in c.items[Next(c).state.current].classes
  {
  }

  /** A list whose only child is an element: start-up shows it, and one
      click on "Next" hides it again and shows nothing, whereas the
      corrected Next shows it. */
  lemma SingleItemNextHidesAll()
    ensures Init([Element({})]).Success?
    ensures Next(Init([Element({})]).value).Threw?
    ensures Next(Init([Element({})]).value).state.items == [Element({Hidden})]
    ensures NextIntended(Init([Element({})]).value).state.items == [Element({})]
  {
    var c := Init([Element({})]).value;
    assert c.current == 0;
    assert c.items == [Element({})];
    assert Add({}, Hidden) == {Hidden};
    assert Remove({Hidden}, Hidden) == {};
  }
}
