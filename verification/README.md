# DOM tutorial script: click handlers over a child list

`javascript.js` is a browser script that looks up elements of a page and
attaches click listeners to them. Its only logic with statable behaviour is
in the listeners. Each one acts on the ordered child list of one list
element. The toggle, hide and show listeners walk `childNodes` and edit the
class tokens of every element child. The highlighter reads
`firstElementChild` and `lastElementChild` and edits those two. The carousel
steps a cursor along the element children. The remove listener takes one
child out of the list. This project models that list as an immutable `seq<Node>` with
`Node = Element(classes) | Text | Comment`. A position in the list stands for
the node there. Each listener is a pure function of the list, plus a cursor
for the carousel.

- `Tokens`: the DOMTokenList calls `add`, `remove` and `toggle` on a `set<string>`.
  These follow section 7.1 of the WHATWG DOM Standard.
- `Nodes`: the node kinds, the `nodeType` constants (1, 3, 8) and edits of one child's class tokens.
- `Traversal`: `firstElementChild` and `lastElementChild` (section 4.2.6),
  plus `nextElementSibling` and `previousElementSibling` (section 4.2.7).
  They come with an independent "rank among the element children" reading
  that the carousel proofs use.
- `Handlers`: the toggle, hide and show buttons, the first/last highlighter,
  and the remove-my-item buttons. `removeChild` follows section 4.4.
- `Carousel`: the "Next" and "Previous" buttons over `MyItemList`, modelled
  as written, plus the corrected "Next" (see Findings).
- `Results`: `Option` (for `null`), the thrown faults, and `Outcome`.
  A listener that throws keeps the writes it made before the throw, so
  `Outcome` carries the state in both its cases.

## Model

| member | source | states |
|---|---|---|
| Tokens.Add | javascript.js:210 | `classList.add`: the token is present afterwards and every other token keeps its membership |
| Tokens.Remove | javascript.js:222 | `classList.remove`: the token is absent afterwards and every other token keeps its membership |
| Tokens.Toggle | javascript.js:198 | `classList.toggle`: membership of the token flips and every other token keeps its membership |
| Tokens.ToggleTwice | javascript.js:198 | toggling the same token twice gives back the original token set |
| Nodes.NodeType | javascript.js:196 | `nodeType` is 1 exactly for elements; every node reports one of 1, 3 and 8 |
| Nodes.ApplyAt | javascript.js:307 | one `classList` call on the child at a position changes that child's tokens only; the list keeps its shape |
| Traversal.FirstElementFrom | javascript.js:310 | the first element at or after a position, or null exactly when none exists there |
| Traversal.LastElementBefore | javascript.js:329 | the last element before a position, or null exactly when none exists there |
| Traversal.FirstElementChild | javascript.js:256 | an element with no element before it, or null exactly when the list has no element |
| Traversal.LastElementChild | javascript.js:257 | an element with no element after it, or null exactly when the list has no element |
| Traversal.NextElementSibling | javascript.js:310 | the nearest element after the node, or null exactly when no element follows it |
| Traversal.PreviousElementSibling | javascript.js:329 | the nearest element before the node, or null exactly when no element precedes it |
| Traversal.FirstElementChildRank | javascript.js:299 | `firstElementChild` is the element of rank 0, and null exactly when the element count is 0 |
| Traversal.LastElementChildRank | javascript.js:337 | `lastElementChild` is the element of rank count - 1, and null exactly when the element count is 0 |
| Traversal.NextElementSiblingRank | javascript.js:310 | an element's next element sibling has rank + 1, and is null exactly at the last element |
| Traversal.PreviousElementSiblingRank | javascript.js:329 | an element's previous element sibling has rank - 1, and is null exactly at the first element |
| Traversal.RankInjective | javascript.js:310-337 | two elements with the same rank are the same element |
| Traversal.SiblingsInverse | javascript.js:310-329 | previous-of-next and next-of-previous give back the element started from |
| Traversal.ShapeNavigation | javascript.js:307-338 | class edits move none of the four navigation getters |
| Handlers.ForEachElement | javascript.js:194-200 | the `forEach` with a `nodeType == 1` test edits exactly the element children; text and comment children are unchanged |
| Handlers.ClickToggle | javascript.js:192-201 | every element child flips "highlight" and keeps every other token; text and comment children are unchanged |
| Handlers.ToggleTwiceRestores | javascript.js:192-201 | two clicks on toggle restore the original list |
| Handlers.ClickHide | javascript.js:204-213 | every element child carries "hidden" afterwards and keeps every other token; other children are unchanged |
| Handlers.HideIdempotent | javascript.js:204-213 | a second click on hide changes nothing |
| Handlers.ClickShow | javascript.js:216-225 | no element child carries "hidden" afterwards, and every other token is untouched |
| Handlers.ShowAfterHide | javascript.js:204-225 | hide then show leaves "hidden" on no element, and ends where show alone ends |
| Handlers.ClickHighlight | javascript.js:254-266 | "highlight" is added to the first and the last element child only; with no element child the listener throws on `nodeType` of null and changes nothing |
| Handlers.HighlightIdempotent | javascript.js:254-266 | a second click on the highlight button changes nothing |
| Handlers.RemoveChild | javascript.js:147 | `removeChild` drops the child at the position and keeps the order of the rest; a position holding no child is a NotFoundError |
| Handlers.RemoveThenReinsert | javascript.js:147 | re-inserting the removed child at its old position restores the list; exactly that one node goes missing |
| Handlers.ClickRemove | javascript.js:142-148 | for a button whose item is an element child of the list, exactly that item leaves the list and the rest keep their order; an item without a parent makes the listener throw on `removeChild` of null |
| Carousel.Init | javascript.js:299-302 | the cursor is the first element child and is shown; with no element child the script throws on `classList` of null |
| Carousel.Next | javascript.js:305-321 | before the last element: the current item is hidden, the next element is shown and becomes current, nothing else changes. At the last element: the current item is hidden and the cursor goes to the first element, then the listener throws and nothing is shown |
| Carousel.NextIntended | javascript.js:317-320 | corrected "Next": it never throws, the new current is always shown, and at the last element it wraps to the first element; the old and new current keep every token other than "hidden", and no other child changes |
| Carousel.NextIntendedOnlyFixesWrap | javascript.js:305-321 | the corrected "Next" equals the written one wherever that completes; at the wraparound it differs only by showing the element the cursor was reset to |
| Carousel.Prev | javascript.js:324-340 | the current item is hidden; the previous element, or the last element at the first, is shown and becomes current |
| Carousel.NextRank | javascript.js:305-321 | "Next" moves the cursor one rank up, from the last rank to rank 0, and the element count stays the same |
| Carousel.NextIntendedRank | javascript.js:317-320 | the corrected "Next" moves the cursor exactly as the written one does |
| Carousel.PrevRank | javascript.js:324-340 | "Previous" moves the cursor one rank down, from rank 0 to the last rank |
| Carousel.PrevUndoesNext | javascript.js:305-340 | "Previous" after a "Next" that did not wrap returns to the starting element |
| Carousel.PrevUndoesNextIntended | javascript.js:305-340 | with the corrected "Next", "Previous" returns to the starting element, wraparound included |
| Carousel.NextUndoesPrev | javascript.js:305-340 | "Next" after "Previous" returns the cursor to the starting element, even when "Next" throws |
| Carousel.Step | javascript.js:305-340 | after any click, whether it completes or throws, the cursor is still on an element child of an unchanged-shape list |
| Carousel.Run | javascript.js:305-340 | after any sequence of clicks the cursor is still on an element child of an unchanged-shape list |
| Carousel.NextClicksRank | javascript.js:305-321 | k clicks on "Next" move the cursor k ranks up with wraparound |
| Carousel.FullCycle | javascript.js:305-321 | clicking "Next" once per element child brings the cursor back to where it started |
| Carousel.NextWrapShowsNothingNew | javascript.js:317-319 | at the last element, "Next" throws, and the new current is shown only if it was already shown and is a different element |
| Carousel.SingleItemNextHidesAll | javascript.js:299-321 | with one element child, one click on "Next" leaves it hidden; the corrected "Next" leaves it shown |

## Left out

- Element lookups (`getElementById`, `querySelectorAll`): these read the ambient page. The child list, the cursor and the clicked item's position are explicit inputs instead.
- `textContent` writes, `style` writes and `console.log`: they write text or CSS onto nodes outside the modelled lists, or do I/O.
- The `innerHTML` update: it needs an HTML parser, which is not part of this model.
- `addEventListener` and the browser event loop: each listener is a function called directly. `Carousel.Run` replays clicks in order. A listener that throws ends only its own click.
- Node identity: a node is named by its position in its parent's list. Nodes outside that one list are not modelled, nor are the children of a list item (the remove button itself).
- Structural changes to `MyItemList` made by other listeners while the carousel runs: the live `childNodes` view is a fixed sequence here.
- DOMTokenList validation: an empty token is a SyntaxError and a token with whitespace is an InvalidCharacterError. The script passes only the literals "highlight" and "hidden", so neither can happen.
- The order of tokens in the `class` attribute: the tokens are a set.
- The boolean returned by `toggle`, and its `force` argument: the script uses neither.
- Handlers.ClickRemove: a button whose own `parentNode` is null is not modelled. The script finds every button inside the page, so each one has a parent.

## Findings

| source | as written | input that shows it | evidently intended | confidence | as-written member | corrected member |
|---|---|---|---|---|---|---|
| javascript.js:319 | at the wraparound the listener reads `currentItem.classItem`, which is undefined on an element, so `.remove("hidden")` throws. By then the old item is hidden and the cursor has been reset, so the first item is never shown. | a list whose only child is an element: start-up shows it, and one click on "Next" hides it and shows nothing | `currentItem.classList.remove("hidden")`, as on line 314 and in the comment on line 317: the first item is shown again | high; not executed | Carousel.SingleItemNextHidesAll | Carousel.NextIntended |

Both halves are in the model. `Carousel.Next` is the code as written;
`Carousel.Run` and every lemma except the `…Intended…` ones use it.
`Carousel.NextWrapShowsNothingNew` states the defect for every list.
`Carousel.NextIntended` is the corrected listener. It always completes and
always shows the new current item. `Carousel.PrevUndoesNextIntended` shows
that with it, "Previous" undoes "Next" even across the wraparound.
