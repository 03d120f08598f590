# Circular doubly linked list

A model of `List<ListItemType>` from `List.h`: a circular, doubly linked
list addressed by 1-based position, with insert, remove, retrieve, swap, a
selection sort, forward and reverse printing, a copy constructor and a
destructor.  Positions are found by two locators: `findForward` walks
`next` from the head, `findReverse` walks `prev` from the tail.

The model is imperative, as the original is.  `CircularList.List` is a
class whose fields are the node store and the list header:

- the nodes live in an arena of three parallel sequences `data`, `next`
  and `prev`; a node is its arena index and a link is the index of the
  neighbouring node, with `Null` (-1) for a cleared link;
- `head` and `size` are the header fields of the original;
- `new Node` appends a slot to the arena (`NewNode`); `delete` clears the
  node's links and leaves its slot unused.

Two ghost fields give the abstract view: `Contents`, the elements in
position order, and `Nodes`, the node that holds each position.  `Valid()`
says that the links close into one ring through `Nodes` in both
directions (`Ring.IsRing`), that `head` is the first of them whenever the
list is non-empty, and that each node holds its element.  Following `next`
from the head k times reaches position k + 1, wrapping round
(`Ring.WalkAround`); following `prev` does the same backwards
(`Ring.WalkBackAround`).  Emptiness is `size == 0`: after the last
element is removed `head` still names the released node, as in the
original.

Every operation is proved against a function on sequences in module
`ListSpec` (`InsertedAt`, `RemovedAt`, `Swapped`, `Sorted`, `Reversed`),
and the properties of the list are proved about those functions.
Errors the original prints and swallows are returned as values
(`Outcomes.Outcome`, `Outcomes.Result`); every failing call leaves the
list exactly as it was.  The payload is `int`.

The locator choice follows the code: walk forward when
`index < size / 2` (integer division), otherwise backward from the tail.
A description of the list as choosing the nearer end is not what the code
does; `ListSpec.LocatorNotAlwaysNearer` shows a case where it walks the
longer way.  Both locators return the node at position `index` for
`1 <= index <= size`, so the choice affects only the number of steps.

## Model

| member | source | states |
|---|---|---|
| CircularList.List.constructor | List.h:89-94 | a new list is valid and has no elements |
| CircularList.List.Copy | List.h:99-108 | the copy is valid and holds the original's elements in the same positions |
| CircularList.List.Destroy | List.h:113-118 | removing position 1 until the list is empty ends, with size 0 and no elements |
| CircularList.List.IsEmpty | List.h:126-130 | true exactly when the list holds no elements |
| CircularList.List.GetLength | List.h:137-141 | the number of elements |
| CircularList.List.FindForward | List.h:53-66 | index - 1 steps along `next` from the head reach the node at position index, wrapping round past the last |
| CircularList.List.FindReverse | List.h:68-83 | size - index steps along `prev` from the tail reach the node at position index; for index = size + 1 the count is negative and the tail is returned |
| CircularList.List.Locate | List.h:412-417 | forward when index < size / 2, otherwise backward: either way the node at position index, or the tail for size + 1 |
| CircularList.List.NewNode | List.h:160-161 | a fresh node holding the value, outside the ring; the list is unchanged |
| CircularList.List.Insert | List.h:152-198 | index outside 1..size + 1 is rejected and nothing changes; otherwise the elements become `InsertedAt(old, index, value)`, the ring stays closed over one more node, and size grows by one |
| CircularList.List.Remove | List.h:207-258 | an empty list, then an index outside 1..size, are rejected and nothing changes; otherwise the elements become `RemovedAt(old, index)`, the ring closes over the rest, the removed node's links are cleared, and removing position 1 makes the old second node the head |
| CircularList.List.Unlink | List.h:219-250 | the splice of a remove whose checks passed: unlinks the node at index and closes the ring |
| CircularList.List.Swap | List.h:316-354 | too few elements, then a bad first index, then a bad second index are rejected with nothing changed; otherwise exactly the two payloads trade places and no link, head or size changes |
| CircularList.List.LeastFrom | List.h:374-381 | the inner scan of the sort returns a position holding a least element of the rest, and the first such position |
| CircularList.List.Sort | List.h:363-392 | fewer than two elements are rejected unchanged; otherwise the elements end non-decreasing and a permutation of the old ones, with no link changed |
| CircularList.List.Retrieve | List.h:402-424 | the element at index for 1..size, an out-of-range error otherwise |
| CircularList.List.PrintForward | List.h:267-282 | an empty list gives the empty-list error; otherwise the elements from the first position to the last |
| CircularList.List.PrintReverse | List.h:291-306 | an empty list gives the empty-list error; otherwise exactly the reverse of what PrintForward gives |
| CircularList.List.InsertAsDocumented | List.h:143-151 | the insert as documented: the value ends at position index, splicing after position index - 1 |
| CircularList.LinkAloneKeepsRing | List.h:163-167 | the first node of an empty list links to itself and forms a ring of one |
| CircularList.LinkFrontKeepsRing | List.h:168-174 | a node put between tail and head and made the head yields a ring in the order `[v] + s` |
| CircularList.LinkAfterKeepsRing | List.h:176-189 | a node spliced after the node at position index (the tail for size + 1) yields a ring in the order `InsertedAt` gives, with the head unchanged |
| CircularList.UnlinkFrontKeepsRing | List.h:227-231 | unlinking the head closes the ring over the rest, starting at the old second node |
| CircularList.UnlinkAfterKeepsRing | List.h:232-243 | unlinking the node after position index - 1 closes the ring over the rest, head unchanged |
| ListSpec.InsertFront | List.h:163-174 | inserting at position 1 gives `[v] + s` |
| ListSpec.InsertBack | List.h:176-189 | inserting at position size + 1 gives `s + [v]` |
| ListSpec.InsertMiddle | List.h:180-188 | inserting at 2 <= index <= size gives `s[..index] + [v] + s[index..]`, v at position index + 1 |
| ListSpec.RemoveUndoesInsert | List.h:163-189 | removing the element an insert placed gives back the list before the insert |
| ListSpec.SwapSelf | List.h:346-348 | swapping a position with itself changes nothing |
| ListSpec.SwapTwice | List.h:346-348 | swapping the same two positions twice restores the original |
| ListSpec.SwapPermutes | List.h:346-348 | a swap keeps the multiset of elements |
| ListSpec.SwappedPlaces | List.h:346-348 | a swap exchanges the two payloads and leaves every other position as it was |
| ListSpec.SelectionStep | List.h:372-385 | swapping a least element of the unsorted rest into position curr extends the sorted prefix by one and keeps the elements |
| ListSpec.SortedPermutationUnique | List.h:356-361 | two sorted lists with the same elements are equal, so the sorted result is determined and sorting twice changes nothing |
| ListSpec.ReversedTwice | List.h:291-306 | the reverse of the reverse is the original order |
| ListSpec.LocatorHopsBound | List.h:53-83 | the locator follows at most half the ring, rounded up |
| ListSpec.LocatorNotAlwaysNearer | List.h:180-183 | on four elements position 2 is reached backward in two steps where forward needs one |
| ListSpec.InsertedAsDocumented | List.h:143-151 | the documented insert puts v at position index, and removing position index gives back the original |
| ListSpec.InsertAgreesAtEnds | List.h:99-108 | the coded and the documented insert agree at positions 1 and size + 1, the only ones the copy constructor uses |
| ListSpec.InsertMissesDocumentedPosition | List.h:176-189 | for 2 <= index <= size the coded insert leaves the old element at position index, so it differs from the documented one |
| ListSpec.InsertMiddleExample | List.h:180-188 | insert(2, 9) on [3, 5, 7] gives [3, 5, 9, 7]; the documented result is [3, 9, 5, 7] |
| Ring.WalkAround | List.h:61-63 | k steps along `next` from position j reach position (j + k) mod size |
| Ring.WalkBackAround | List.h:78-80 | k steps along `prev` from position j reach position (j - k) mod size |
| Ring.SpliceAfterKeepsRing | List.h:185-188 | splicing a fresh node after any ring node keeps a ring, with the node in the next place |
| Ring.UnlinkKeepsRing | List.h:241-247 | bypassing a ring node and clearing its links keeps a ring over the remaining nodes |

## Left out

- Printing: the model returns the sequence of elements printed; the text written to standard output, the separating spaces and the diagnostic messages are not modelled (each diagnostic is an `Outcomes.Error` value instead).
- The out-of-memory path of insert (List.h:195-196): allocation always succeeds here.
- Memory management: `delete` clears the node's links but its arena slot is never reused or reclaimed; pointer identity is the arena index.
- Template genericity: the payload is `int`, ordered by `<`.
- CircularList.List.Retrieve: out of range, the original falls off the end of a non-void function, which is undefined; the model returns `Err(IndexOutOfRange)` instead.
- CircularList.List.Sort: the contract does not state that at most one swap is made per position; the loop makes one call to Swap per position, and only when the least element is not already there.
- fem.py and slack_challenge.py are not part of this model: one is a floating-point numerical script built on foreign libraries, the other a natural-sort key defined by Python's regular-expression, float and date semantics.

## Findings

| source | as written | input that shows it | evidently intended | confidence | as-written member | corrected member |
|---|---|---|---|---|---|---|
| List.h:180-188 | for 2 <= index <= size, insert locates the node at position index and splices the new node after it, so the value lands at position index + 1 | insert(2, 9) on [3, 5, 7] gives [3, 5, 9, 7] | the value at position index, as the comment at List.h:146-150 documents: [3, 9, 5, 7] | not executed; follows from the code by proof | ListSpec.InsertMissesDocumentedPosition | CircularList.List.InsertAsDocumented |

`CircularList.List.Insert` keeps the behaviour as written, since that is
what the rest of the original calls.  The copy constructor only ever
inserts at size + 1, where both versions agree (`ListSpec.InsertAgreesAtEnds`),
so copies are correct either way.
