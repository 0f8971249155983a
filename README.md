# SingleLinkedList in Dafny

This project models `SingleLinkedList<Type>`, a singly-linked list container
that lives in one header. It keeps its element nodes on the heap behind a
default-constructed head sentinel `head_`. A `size_` counter is updated by
each mutator on its own and never recomputed. A forward `BasicIterator` holds
a single node pointer, and `nullptr` stands for `end()`.

The model has three modules:

- `LinkedList` (`linked_list.dfy`) is the container itself, written
  imperatively:
  - `Node` is a class with `value` and `next` fields.
  - `Iterator` is a class holding one `node` reference.
  - `SingleLinkedList` is a class with a `const head` sentinel and a
    `size: nat` counter. Its ghost state has three parts:
    - `Contents`: the element values in order.
    - `Nodes`: the element nodes in chain order.
    - `Repr`: the set of element nodes.
  - `Chain()` ties the heap to that ghost state. The ghost state must match
    the nodes reachable from `head`. They are distinct, they are linked in
    order, and they end in null.
  - `Valid()` is `Chain()` plus "the counter never undercounts".
  - The stronger "the counter is exact" is kept apart as `SizeMatches()`,
    because two mutators in the source do not keep it (see Findings).
  - An iterator position is a chain index:
    - -1 is `before_begin()` (the sentinel);
    - `0 .. |Nodes|-1` are the elements;
    - `|Nodes|` is `end()`.
  - `NodeAt` maps an index to its node. Operations that take an iterator get
    the index as a ghost argument.
- `Comparison` (`comparison.dfy`) holds the free comparison operators as pure
  functions on element sequences, plus the order laws proved about them.
- `Findings` (`findings.dfy`) holds concrete scenarios, proved rather than
  run, that show where the size counter goes stale.

Every mutator is proved against the ghost state: its postcondition gives the
new `Contents` and `size` in terms of the old ones, either says how `Nodes` and
`Repr` change or states that the nodes are fresh, and preserves `Valid()`. Where the counter is concerned, the mutator also says
whether it keeps `SizeMatches()` or breaks it.

Three points of the code shape the model:

- PushFront, PushBack and InsertAfter increment `size_`, but PopFront and
  EraseAfter never decrement it (see Findings).
- Clear decrements `size_` once per unlinked node, so it reaches zero only
  if the counter was exact.
- Construction from a sequence goes through the private PushBackValues,
  which walks a tail pointer from the sentinel; it does not call PushBack.

## Model

| member | source | states |
|---|---|---|
| LinkedList.Node.Sentinel | single-linked-list/single-linked-list.h:16 | the default-built node, used as the head sentinel, links to no node |
| LinkedList.Node.constructor | single-linked-list/single-linked-list.h:18-21 | a node built from a value and a successor holds exactly that value and that successor |
| LinkedList.Iterator.Default | single-linked-list/single-linked-list.h:44 | a default-built iterator references no node, as end() does |
| LinkedList.Iterator.constructor | single-linked-list/single-linked-list.h:31-34 | an iterator built from a node references exactly that node |
| LinkedList.Iterator.Equals | single-linked-list/single-linked-list.h:50-65 | operator== and operator!= compare the referenced nodes by identity; PositionsEqualIffSameIndex turns this into equality of positions |
| LinkedList.Iterator.Value | single-linked-list/single-linked-list.h:79-82 | operator* is defined only off end and reads the referenced node's value; ValueAtPosition turns this into the element at the iterator's position |
| LinkedList.SingleLinkedList.constructor | single-linked-list/single-linked-list.h:96 | a default-built list is valid and empty, with a zero and exact counter |
| LinkedList.SingleLinkedList.FromValues | single-linked-list/single-linked-list.h:152-155 | building from a sequence yields exactly that sequence in order, with the counter equal to its length |
| LinkedList.SingleLinkedList.LinkAtTail | single-linked-list/single-linked-list.h:112-121 | linking a node outside the chain with no successor after the tail (the sentinel of an empty chain, or else the last node) appends its value and node, keeps the chain well formed and leaves the counter alone; PushBack links this way at lines 114 and 121, and PushBackValues at line 252 |
| LinkedList.SingleLinkedList.PushBackValues | single-linked-list/single-linked-list.h:246-257 | on an empty chain, appending a node per value and then setting the counter gives Contents equal to the values and an exact counter; all nodes are fresh |
| LinkedList.SingleLinkedList.Values | single-linked-list/single-linked-list.h:157-160 | walking from begin() to end() collects exactly the list's elements in order |
| LinkedList.SingleLinkedList.Copy | single-linked-list/single-linked-list.h:157-160 | the copy has the same elements in order, on a fresh sentinel and fresh nodes, with an exact counter |
| LinkedList.CopyIsIndependent | single-linked-list/single-linked-list.h:157-160 | pushing onto a copy leaves the original's elements and counter unchanged |
| LinkedList.SingleLinkedList.GetSize | single-linked-list/single-linked-list.h:143-145 | the counter is at least the number of elements, and equals it when exact |
| LinkedList.SingleLinkedList.IsEmpty | single-linked-list/single-linked-list.h:147-149 | true exactly when the counter is zero; when the counter is exact, true exactly when there are no elements |
| LinkedList.SingleLinkedList.BeforeBegin | single-linked-list/single-linked-list.h:202-205 | a fresh iterator at position -1, the sentinel |
| LinkedList.SingleLinkedList.Begin | single-linked-list/single-linked-list.h:217-219 | a fresh iterator at position 0, the first node or null when empty |
| LinkedList.SingleLinkedList.End | single-linked-list/single-linked-list.h:221-223 | a fresh iterator at the end position (one past the last element), null |
| LinkedList.SingleLinkedList.PositionsEqualIffSameIndex | single-linked-list/single-linked-list.h:59-65 | two positions of a valid list reference the same node if and only if they are the same position, so iterator == is position equality |
| LinkedList.SingleLinkedList.AdvancePosition | single-linked-list/single-linked-list.h:67-71 | ++ from any position before end reaches the next position; before-begin goes to begin |
| LinkedList.Iterator.Next | single-linked-list/single-linked-list.h:67-71 | pre-increment, defined only off end, moves the iterator to the successor of its node |
| LinkedList.Iterator.PostNext | single-linked-list/single-linked-list.h:73-77 | post-increment advances the iterator and returns a fresh iterator at the old node |
| LinkedList.AdvanceBeforeBegin | single-linked-list/single-linked-list.h:202-223 | before_begin() advanced once equals begin(), and equals end() exactly when the list is empty |
| LinkedList.SingleLinkedList.ValueAtPosition | single-linked-list/single-linked-list.h:79-82 | dereferencing an iterator at element position i yields the i-th element |
| LinkedList.SingleLinkedList.SetValue | single-linked-list/single-linked-list.h:79-82 | writing through the reference operator* returns changes element i and nothing else (same nodes, counter, validity) |
| LinkedList.SingleLinkedList.PushFront | single-linked-list/single-linked-list.h:103-107 | Contents becomes [v] + old Contents on one fresh node before the old ones; the counter goes up by one and stays exact if it was |
| LinkedList.SingleLinkedList.PushBack | single-linked-list/single-linked-list.h:109-124 | if the list is empty or its counter is exact, the walk of size-1 links finds the last node; Contents becomes old Contents + [v] on one fresh last node, and the counter goes up by one |
| LinkedList.SingleLinkedList.PopFront | single-linked-list/single-linked-list.h:126-132 | the first node leaves the chain and Contents drops its first element, but the counter is unchanged, so an exact counter becomes inexact |
| LinkedList.SingleLinkedList.PopFrontCounted | single-linked-list/single-linked-list.h:126-132 | the same unlink with the decrement: the counter goes down by one and stays exact if it was |
| LinkedList.SingleLinkedList.UnlinkFirst | single-linked-list/single-linked-list.h:129-130 | relinking the sentinel past the first node removes exactly that node and its value, and keeps the chain well formed |
| LinkedList.PushFrontThenPopFront | single-linked-list/single-linked-list.h:103-132 | PushFront then PopFront restores the elements; the counter is restored only with the decrement, and is one higher as written |
| LinkedList.SingleLinkedList.Clear | single-linked-list/single-linked-list.h:134-141 | all nodes leave the chain; the counter falls by the old number of elements, so it reaches 0 if and only if it was exact |
| LinkedList.SingleLinkedList.InsertAfter | single-linked-list/single-linked-list.h:184-191 | a fresh node with v is spliced in after position i (any position but end); the returned iterator is at position i + 1; the counter goes up by one and stays exact if it was |
| LinkedList.InsertAtBeforeBegin | single-linked-list/single-linked-list.h:184-205 | InsertAfter(before_begin(), v) returns an iterator equal to begin() that reads v, and v becomes the first element |
| LinkedList.SingleLinkedList.LinkAfter | single-linked-list/single-linked-list.h:187-188 | linking a node that points at the successor of position i after that position adds it to the chain at i + 1 and keeps the chain well formed |
| LinkedList.SingleLinkedList.EraseAfter | single-linked-list/single-linked-list.h:193-200 | the node after position i leaves the chain, and the returned iterator is the new successor of i (end when the last node went); the counter is unchanged, so an exact counter becomes inexact |
| LinkedList.SingleLinkedList.EraseAfterCounted | single-linked-list/single-linked-list.h:193-200 | the same unlink with the decrement: the counter goes down by one and stays exact if it was |
| LinkedList.SingleLinkedList.UnlinkAfter | single-linked-list/single-linked-list.h:196-197 | relinking position i past its successor removes exactly that node and its value, and keeps the chain well formed |
| LinkedList.SingleLinkedList.Swap | single-linked-list/single-linked-list.h:171-175 | the two lists exchange elements, nodes and counters, and both stay valid; self-swap changes nothing |
| LinkedList.Swap | single-linked-list/single-linked-list.h:261-264 | the free swap exchanges the two lists' elements and counters |
| LinkedList.SingleLinkedList.Assign | single-linked-list/single-linked-list.h:162-169 | self-assignment changes nothing; otherwise the list ends up holding rhs's elements on fresh nodes with an exact counter, and rhs stays valid with its elements and counter unchanged |
| Comparison.Equal | single-linked-list/single-linked-list.h:279 | the element-by-element walk of std::equal over two whole ranges; EqualIffSame turns it into sequence equality |
| Comparison.EqualIffSame | single-linked-list/single-linked-list.h:279 | std::equal over two whole ranges holds if and only if the element sequences are equal |
| Comparison.ListEqual | single-linked-list/single-linked-list.h:266-280 | operator== holds if and only if the operands are one instance, or their counters agree and their elements are equal |
| Comparison.ListNotEqual | single-linked-list/single-linked-list.h:282-285 | operator!= holds if and only if the operands are distinct instances whose counters or elements differ |
| Comparison.ListEqualIsContentEquality | single-linked-list/single-linked-list.h:266-280 | with exact counters, operator== is exactly equality of the element sequences |
| Comparison.ListEqualLaws | single-linked-list/single-linked-list.h:266-280 | operator== is reflexive and symmetric, and lists whose counters differ are never equal unless they are one instance |
| Comparison.Less | single-linked-list/single-linked-list.h:287-291 | the walk of std::lexicographical_compare on int elements; LessIffLexBefore ties it to dictionary order |
| Comparison.LessIffLexBefore | single-linked-list/single-linked-list.h:287-291 | lexicographical_compare agrees with dictionary order: a common prefix, and then either the first range ends while the second goes on, or the first range's next element is smaller |
| Comparison.LessIrreflexive | single-linked-list/single-linked-list.h:287-291 | no list is less than itself |
| Comparison.LessTransitive | single-linked-list/single-linked-list.h:287-291 | operator< is transitive |
| Comparison.LessTrichotomy | single-linked-list/single-linked-list.h:287-291 | exactly one of a < b, a == b, b < a holds |
| Comparison.LessEq | single-linked-list/single-linked-list.h:293-296 | operator<= holds if and only if a < b or the elements are equal |
| Comparison.Greater | single-linked-list/single-linked-list.h:298-301 | operator> holds if and only if b < a |
| Comparison.GreaterEq | single-linked-list/single-linked-list.h:303-307 | operator>= holds if and only if b < a or the elements are equal |
| Comparison.LexExamples | single-linked-list/single-linked-list.h:287-307 | a proper prefix orders first; a difference at the first unequal position decides; equal lists are <= and >= but not < or > |
| Findings.PopFrontLeavesCounterStale | single-linked-list/single-linked-list.h:126-132 | on {7}, PopFront as written leaves begin() == end() while GetSize() is 1 and IsEmpty() is false, and a later Clear() leaves the counter at 1 |
| Findings.PopFrontCountedKeepsCounterExact | single-linked-list/single-linked-list.h:126-132 | the same scenario with the decrement leaves the counter at 0 and IsEmpty() true |
| Findings.EraseAfterLeavesCounterStale | single-linked-list/single-linked-list.h:193-200 | on {1, 2}, EraseAfter(before_begin()) as written leaves one element, 2, while GetSize() is 2 |
| Findings.EraseAfterCountedKeepsCounterExact | single-linked-list/single-linked-list.h:193-200 | the same scenario with the decrement leaves the counter at 1 |

## Left out

- Memory release is not modelled: `delete` in PopFront, EraseAfter and Clear, the destructor (lines 98-101), and the temporary that `operator=` destroys. Dafny's heap is garbage-collected; an unlinked node simply leaves `Repr`.
- Element-copy failure is not modelled, and neither is the strong guarantee built on it. Dafny has no exceptions. `Assign` keeps "build the full copy first, then swap", which is the ordering the guarantee relies on.
- The const/non-const iterator split is collapsed into one `Iterator` class. This covers `ConstIterator`, the mixed `operator==`/`operator!=` overloads, the converting copy constructor and `operator=` of `BasicIterator`, the const overloads of `begin`/`end`/`before_begin`, and `cbegin`/`cend`/`cbefore_begin` with its `const_cast`. These overloads all behave like the modelled `Begin`/`End`/`BeforeBegin`.
- The iterator's typedefs are not modelled, because they carry no behaviour.
- `operator->` is not modelled separately: it reaches the same node value as `operator*`, which `ValueAtPosition` and `SetValue` cover.
- Positions are passed as a ghost chain index next to the iterator. The model covers only iterators into the list they are used with. The source does not check this. With another list's iterator, InsertAfter relinks that list's nodes and increments this list's `size_`. EraseAfter relinks that list's nodes and leaves `size_` alone; its assert only reads this list's counter.
- `size_t` is a `nat`, so its wrap-around is not modelled. Under `Valid()` the counter never undercounts, so Clear's decrements cannot wrap. PushBack's loop index is a C++ `int`. Its overflow on a list of more than INT_MAX + 1 elements is not modelled, and the model runs the walk only under an exact counter (see the PushBack line).
- PopFront: the case of an empty chain under a stale positive counter is excluded by its precondition. The source's `assert(size_ > 0)` lets it through, and it then dereferences the null first link.
- PushBack: the case of a non-empty list whose counter overcounts is excluded by its precondition. There the source's walk runs off the end of the chain and dereferences null.
- Copy: the source's copy constructor passes the other list to `PushBackValues`, which takes only an initializer list, so it does not compile. The model follows the evident intent: copy the elements of `other` in order (`Values`), then run `PushBackValues` on them.
- PushBackValues: modelled only on an empty chain, the only way the constructors call it. On a non-empty chain the source would overwrite the sentinel's link.
- Comparison.Less: ordering is modelled on `int` elements, whose `<` is a strict total order. A generic element type's `operator<` is not modelled.
- Comparison.ListEqual: takes the instance-identity test, the two counters and the two element sequences as plain arguments. It does not read two list objects.
- The unused includes (`<string>`, `<iostream>`) are not modelled, because nothing in the container uses them.

## Findings

| source | as written | input that shows it | evidently intended | confidence | as-written member | corrected member |
|---|---|---|---|---|---|---|
| single-linked-list/single-linked-list.h:126-132 | PopFront unlinks and deletes the first node but never decrements `size_` | `{7}`, then PopFront(): begin() == end(), yet GetSize() == 1 and IsEmpty() is false; a later Clear() leaves GetSize() == 1 | decrement `size_`, as PushFront increments it | not executed | Findings.PopFrontLeavesCounterStale | LinkedList.SingleLinkedList.PopFrontCounted |
| single-linked-list/single-linked-list.h:193-200 | EraseAfter unlinks and deletes the node after `pos` but never decrements `size_` | `{1, 2}`, then EraseAfter(before_begin()): one element, 2, remains, yet GetSize() == 2 | decrement `size_`, as InsertAfter increments it | not executed | Findings.EraseAfterLeavesCounterStale | LinkedList.SingleLinkedList.EraseAfterCounted |

Once the counter overcounts, PushBack's walk of `size_ - 1` links runs past
the last node of a non-empty list and dereferences null. That is why
`PushBack` demands an exact counter whenever the list is non-empty.
`Findings.PopFrontCountedKeepsCounterExact` and
`Findings.EraseAfterCountedKeepsCounterExact` prove the same two scenarios
with the corrected members.

PopFront has the same exposure. On `{7}`, a first PopFront leaves the chain
empty with `size_` at 1. A second PopFront then passes the source's
`assert(size_ > 0)` and reads `next_node` through the null first link.
`PopFront` therefore requires a non-empty chain as well as a positive counter.
