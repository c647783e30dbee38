# Linked lists with shared nodes, modelled in Dafny

This project models the two lists of the `data-learn` repository. One is a
singly-linked list (`single-link-list/src/main.rs`). The other is a
doubly-linked list with a two-way cursor (`double-link-list/src/main.rs`).
Both lists keep a `length` counter and `head` and `tail` links. Both support
`new`, `append` (add at the back), `prepend` (add at the front) and `pop`
(remove from the front). The doubly-linked list's nodes also carry a
non-owning `prev` link. Its iterator, `DoubleLinkIterator`, steps forward with
`next` and back with `prev`.

How the model represents the source:

- **Nodes live in an arena.** The Rust code shares nodes through `Rc<RefCell<…>>`.
  The model stores them in a map from handles to nodes (`Chain.Handle`). A
  link is an `Option<Handle>`.
- **Fresh handles.** `Rc::new` becomes taking the next handle from an
  allocation counter. Handles are never reused.
- **Freeing a node.** `pop` removes the head node from the arena, so any
  handle to it no longer resolves.
- **Weak back links.** A `Weak` back link "upgrades" exactly when its node is
  still in the arena (`DoublyLinkedList.Upgrade`).
- **Spine.** The spine of a list is the sequence of handles met by following
  `next` from `head` for `length` steps.
- **The representation invariant, `Valid`.** It says:
  - the spine has `length` distinct nodes;
  - the last of them has no successor and is `tail`;
  - `head` and `tail` are absent exactly when the list is empty;
  - the arena holds exactly the spine's nodes.

  For the doubly-linked list it adds the back links (`Backward`): the head
  has no `prev`, and every other node's `prev` is the node whose `next` it is.
- **Elements.** `Elements` is the sequence of values the list stands for,
  head first.
- **The reference deque.** Module `Deque` defines the abstract behaviour as a
  plain sequence with `append`, `prepend` and `pop` (`Deque.Step`,
  `Deque.Run`). Each list module proves that any script of calls leaves the
  same sequence, and returns the same popped values, on the linked list as on
  the reference (`RunRefines`). The FIFO and LIFO orders and both programs'
  `main` scenarios follow from that.
- **The cursor.** A cursor on position `i` of a valid list is `At(l, i)`. The
  cursor lemmas state what `next` and `prev` return and where they move, in
  terms of positions in `Elements`.

`next` returns the current node's value and moves to its successor. A `prev`
right after it returns that successor's value and moves back. So `next`
followed by `prev` returns two neighbouring values and leaves the cursor
where it started (`NextThenPrev`, after
`double-link-list/src/main.rs:106-143`).

Files:

- `chain.dfy`: `Option`, handles, and the counting argument. A spine that is
  as long as the arena is large, and covers the arena, repeats no handle.
- `deque.dfy`: the reference deque, cursor readings on a sequence, and the
  FIFO/LIFO facts about them.
- `singly.dfy`: the singly-linked list.
- `doubly.dfy`: the doubly-linked list and its cursor.

The two crates each declare their own `Node` and `LinkedList`, with different
fields. So each list module defines its own walk along `next` links over its
own node type.

## Model

| member | source | states |
|---|---|---|
| SinglyLinkedList.SpineDistinct | single-link-list/src/main.rs:8-12 | In a valid list, following `next` from `head` never revisits a node, so the chain has no cycle. |
| SinglyLinkedList.New | single-link-list/src/main.rs:15-21 | The new list has length 0, no head and no tail. It is valid and stands for the empty sequence. |
| SinglyLinkedList.Append | single-link-list/src/main.rs:22-30 | Length grows by one. A fresh node with no successor becomes `tail`. The old tail's `next` now points to it, or, on an empty list, it also becomes `head`. |
| SinglyLinkedList.AppendSpine | single-link-list/src/main.rs:24-26 | On a valid list, the chain from `head` after `append` is the old chain followed by the fresh node. |
| SinglyLinkedList.AppendRefines | single-link-list/src/main.rs:22-30 | `append` keeps the list valid and turns its sequence `s` into `s + [x]`. |
| SinglyLinkedList.Prepend | single-link-list/src/main.rs:32-42 | Length grows by one. A fresh node whose `next` is the old head becomes `head`. `tail` is kept, or, on an empty list, set to the fresh node. |
| SinglyLinkedList.PrependSpine | single-link-list/src/main.rs:34-35 | The chain after `prepend` is the fresh node followed by the old chain. |
| SinglyLinkedList.PrependRefines | single-link-list/src/main.rs:32-42 | `prepend` keeps the list valid and turns `s` into `[x] + s`. |
| SinglyLinkedList.Pop | single-link-list/src/main.rs:44-59 | On an empty list: returns nothing and changes nothing. Otherwise: returns the head's data, decrements length, makes the successor `head`, keeps `tail` unless no successor remains (then both ends are cleared), and frees exactly the head node. |
| SinglyLinkedList.PopSpine | single-link-list/src/main.rs:45-47 | On a non-empty valid list, the chain after `pop` is the old chain without its first node, and that node is no longer on it. |
| SinglyLinkedList.PopValid | single-link-list/src/main.rs:44-51 | `pop` of a non-empty valid list leaves a valid list. |
| SinglyLinkedList.PopRefines | single-link-list/src/main.rs:44-59 | `pop` keeps the list valid. On an empty sequence it returns None and leaves the list unchanged. Otherwise it returns `Some(s[0])` and leaves `s[1..]`. Popping the only element clears `head` and `tail`. |
| SinglyLinkedList.Exec | single-link-list/src/main.rs:22-59 | One call of `append`, `prepend` or `pop` keeps the list valid and has the reference deque's effect and result. |
| SinglyLinkedList.Run | single-link-list/src/main.rs:14-60 | Any script of calls on a valid list leaves a valid list. |
| SinglyLinkedList.RunRefines | single-link-list/src/main.rs:14-60 | Any script of calls leaves the sequence, and returns the popped values, that the reference deque gives. |
| SinglyLinkedList.AppendThenPopIsFifo | single-link-list/src/main.rs:22-59 | Appending `xs` to a new list and popping `\|xs\|` times returns `xs` in order and leaves length 0. |
| SinglyLinkedList.PrependThenPopIsLifo | single-link-list/src/main.rs:32-59 | Prepending `xs` to a new list and popping `\|xs\|` times returns `xs` most recent first and leaves length 0. |
| SinglyLinkedList.MainScenario | single-link-list/src/main.rs:77-86 | `append 3; prepend 2; prepend 1; pop` returns 1 and leaves `[2, 3]` with length 2. |
| DoublyLinkedList.New | double-link-list/src/main.rs:35-41 | The new list is empty, valid, and has no head or tail. |
| DoublyLinkedList.Append | double-link-list/src/main.rs:43-56 | Length grows by one. The fresh node becomes `tail`, with no successor and `prev` set to the old tail. The old tail's `next` now points to it, or, on an empty list, it also becomes `head`. |
| DoublyLinkedList.AppendKeeps | double-link-list/src/main.rs:43-56 | `append` keeps every old node, along with its data and back link. |
| DoublyLinkedList.AppendKeepsOthers | double-link-list/src/main.rs:45-49 | `append` changes no old node except the old tail. |
| DoublyLinkedList.AppendSpine | double-link-list/src/main.rs:45-49 | The chain after `append` is the old chain followed by the fresh node. |
| DoublyLinkedList.AppendShape | double-link-list/src/main.rs:43-56 | `append` keeps the forward half of the invariant (length, ends, acyclic chain, arena). |
| DoublyLinkedList.AppendSamePrev | double-link-list/src/main.rs:46-49 | Along the old chain, `append` changes no back link. |
| DoublyLinkedList.AppendBackward | double-link-list/src/main.rs:46-49 | After `append`, the back links still mirror the forward links: the fresh node's `prev` is the old tail. |
| DoublyLinkedList.AppendData | double-link-list/src/main.rs:43-56 | Along the new chain, the data reads as the old elements followed by `x`. |
| DoublyLinkedList.AppendRefines | double-link-list/src/main.rs:43-56 | `append` keeps the list valid and turns `s` into `s + [x]`. |
| DoublyLinkedList.Prepend | double-link-list/src/main.rs:58-71 | Length grows by one. The fresh node becomes `head`, its `next` is the old head, and the old head's `prev` now points to it. `tail` is kept, or, on an empty list, set to the fresh node. |
| DoublyLinkedList.PrependKeeps | double-link-list/src/main.rs:58-71 | `prepend` keeps every old node, along with its data and `next` link. Only the old head's back link changes. |
| DoublyLinkedList.PrependSpine | double-link-list/src/main.rs:60-64 | The chain after `prepend` is the fresh node followed by the old chain. |
| DoublyLinkedList.PrependShape | double-link-list/src/main.rs:58-71 | `prepend` keeps the forward half of the invariant. |
| DoublyLinkedList.PrependBackward | double-link-list/src/main.rs:61-64 | After `prepend`, the back links still mirror the forward links: the old head points back to the fresh head, which has no `prev`. |
| DoublyLinkedList.PrependData | double-link-list/src/main.rs:58-71 | Along the new chain, the data reads as `x` followed by the old elements. |
| DoublyLinkedList.PrependRefines | double-link-list/src/main.rs:58-71 | `prepend` keeps the list valid and turns `s` into `[x] + s`. |
| DoublyLinkedList.Pop | double-link-list/src/main.rs:73-88 | On an empty list: returns nothing and changes nothing. Otherwise: returns the head's data, decrements length, makes the successor `head` and clears its back link, keeps `tail` unless no successor remains (then both ends are cleared), and frees exactly the head node. |
| DoublyLinkedList.PopKeeps | double-link-list/src/main.rs:73-81 | Every node `pop` keeps was already there, with the same data and `next` link. Only the new head's back link changes. |
| DoublyLinkedList.PopSpine | double-link-list/src/main.rs:74-77 | The chain after `pop` is the old chain without its first node, which is no longer on it. |
| DoublyLinkedList.PopShape | double-link-list/src/main.rs:73-81 | `pop` of a non-empty list keeps the forward half of the invariant. |
| DoublyLinkedList.PopBackward | double-link-list/src/main.rs:75-77 | After `pop`, the new head has no `prev` and every other back link is unchanged and still correct. |
| DoublyLinkedList.PopData | double-link-list/src/main.rs:73-88 | Along the remaining chain, the data reads as the old elements without the first. |
| DoublyLinkedList.PopRefines | double-link-list/src/main.rs:73-88 | `pop` keeps the list valid. On an empty sequence it returns None and leaves the list unchanged. Otherwise it returns `Some(s[0])` and leaves `s[1..]`. Popping the only element clears both ends. |
| DoublyLinkedList.Exec | double-link-list/src/main.rs:43-88 | One call keeps the list valid and has the reference deque's effect and result. |
| DoublyLinkedList.Run | double-link-list/src/main.rs:34-89 | Any script of calls on a valid list leaves a valid list. |
| DoublyLinkedList.RunRefines | double-link-list/src/main.rs:34-89 | Any script of calls leaves the sequence, and returns the popped values, that the reference deque gives. |
| DoublyLinkedList.AppendThenPopIsFifo | double-link-list/src/main.rs:43-88 | Appending `xs` to a new list and popping `\|xs\|` times returns `xs` in order and leaves length 0. |
| DoublyLinkedList.PrependThenPopIsLifo | double-link-list/src/main.rs:58-88 | Prepending `xs` and popping `\|xs\|` times returns `xs` most recent first. |
| DoublyLinkedList.NewCursor | double-link-list/src/main.rs:97-101 | The cursor starts on the given node, or on nothing. |
| DoublyLinkedList.Next | double-link-list/src/main.rs:106-118 | A cursor on nothing returns nothing and stays on nothing. Whenever nothing is returned, the cursor ends on nothing. A value is returned exactly when the cursor is on a live node. |
| DoublyLinkedList.Prev | double-link-list/src/main.rs:128-143 | A cursor on nothing returns nothing and stays on nothing. Whenever nothing is returned, the cursor ends on nothing. A value is returned exactly when the cursor is on a live node. The cursor only ever moves to a live node, because a back link to a freed node does not upgrade. |
| DoublyLinkedList.EndsAt | double-link-list/src/main.rs:96-102 | A cursor built from `head` is on position 0. One built from `tail` is on the last position. |
| DoublyLinkedList.NextAt | double-link-list/src/main.rs:106-118 | `next` on position `i` returns element `i` (nothing past the end) and moves to position `i + 1`. |
| DoublyLinkedList.PrevAt | double-link-list/src/main.rs:128-143 | `prev` on position `i` returns element `i` and moves to position `i - 1`. From the head it moves to the cursor on nothing. |
| DoublyLinkedList.NextThenPrev | double-link-list/src/main.rs:106-143 | When position `i` has a successor, `next` then `prev` returns the cursor to position `i`, yielding elements `i` and `i + 1`. |
| DoublyLinkedList.PrevThenNext | double-link-list/src/main.rs:106-143 | When position `i` has a predecessor, `prev` then `next` returns the cursor to position `i`, yielding elements `i` and `i - 1`. |
| DoublyLinkedList.NextSteps | double-link-list/src/main.rs:106-118 | Suppose every `next` from position `i` on reads the sequence there and advances one position. Then `k` calls read `k` consecutive positions forward. |
| DoublyLinkedList.PrevSteps | double-link-list/src/main.rs:128-143 | Suppose every `prev` from position `i` down reads the sequence there and steps back one position. Then `k` calls read `k` consecutive positions backward. |
| DoublyLinkedList.NextFrom | double-link-list/src/main.rs:106-118 | `k` calls of `next` from position `i` return what `Deque.Forward` reads: the elements from `i` on, in order, then nothing. |
| DoublyLinkedList.PrevFrom | double-link-list/src/main.rs:128-143 | `k` calls of `prev` from position `i` return what `Deque.Backward` reads: the elements from `i` down to the head, then nothing. |
| DoublyLinkedList.ForwardTraversal | double-link-list/src/main.rs:96-118 | A cursor from `head` reads the list forward from its first position. |
| DoublyLinkedList.BackwardTraversal | double-link-list/src/main.rs:96-143 | A cursor from `tail` reads the list backward from its last position. |
| Deque.ForwardReads | double-link-list/src/main.rs:106-118 | Step `j` of a forward read from position `i` yields element `i + j`, or nothing outside the sequence. Read from the head, that is the elements in order, then nothing forever. |
| Deque.BackwardReads | double-link-list/src/main.rs:128-143 | Step `j` of a backward read from position `i` yields element `i - j`, or nothing outside the sequence. Read from the last position, that is the elements in reverse order, then nothing forever. |
| DoublyLinkedList.MainScenario | double-link-list/src/main.rs:146-162 | `append 2; append 3; prepend 1; pop` returns 1 and leaves `[2, 3]` with length 2. A cursor from `head` then yields 2, 3, nothing, nothing for `next, next, prev, next`. |

## Left out

- `Rc`, `RefCell` and `Weak` are replaced by the handle arena described above. Reference counts, borrows and `drop` are not modelled.
- The `Rc::try_unwrap(...).expect(...)` panic in both `pop`s is not modelled. In a valid list nothing else owns the popped node, so that path is unreachable there.
- A cursor whose node has been popped reads as a cursor on nothing. In the source, a live iterator would keep the node alive, and `pop` would then panic in `try_unwrap`.
- `length` is an unbounded integer. The `i32` counter's overflow after 2^31 - 1 insertions is not modelled.
- The `println!` output and the `Debug` formatting in both `main`s are not modelled. The scenarios state the values those lines print.
- `Node::new` is the helper `NewNode`. Its only effect, a node with no links, appears in the `Append` and `Prepend` contracts.
- SinglyLinkedList.Append: the contract says nothing about nodes other than the old tail and the fresh node. That every other node is unchanged is stated through `AppendSpine` and `AppendRefines` instead.
- SinglyLinkedList.Prepend: likewise, nothing is said about other nodes. That is stated through `PrependSpine` and `PrependRefines`.
- DoublyLinkedList.Append: likewise, stated through `AppendSpine`, `AppendBackward` and `AppendRefines`.
- DoublyLinkedList.Prepend: likewise, stated through `PrependSpine`, `PrependBackward` and `PrependRefines`.
- DoublyLinkedList.Pop: it requires the successor of the head to be in the arena. That always holds for the live nodes the source dereferences.
