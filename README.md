# A Dafny model of `LinkedList<T>`, the atomic-slot doubly-linked list

The Rust crate is one file, `src/lib.rs`. It holds a doubly-linked list whose
links are `Arc<AtomicPtr<…>>` cells: each node's `next` and `prev`, and the
list's `head` and `tail`. A length counter `len` sits beside them. The
operations are `Node::new`, `LinkedList::new`, `len`, `is_empty`, `push_front`,
`push_back`, `find` and `remove`. Each is a straight sequence of loads and
stores with no compare-and-swap, so the model is single-threaded imperative
Dafny over a heap of objects.

Files and modules:

- `nodes.dfy`, module `Nodes`. `Slot` is a shared pointer cell. Its field
  `node` holds a nullable `Node` reference, and `null` stands for the null
  pointer. `Node` has the constant fields `next`, `prev` and `value`, because
  the Rust fields are never reassigned. Only the contents of slots change.
  Since nodes and the list hold *references to slots*, two owners can share
  one slot, exactly as the `Arc` clones at `src/lib.rs:60` and
  `src/lib.rs:90` do.
- `links.dfy`, module `Links`. This is the pure specification. A `Heap` maps
  every slot to its node. `PushHeap` and `RemoveHeap` give the stores of one
  push and one removal as map updates, in program order. Walks along
  `next`/`prev` links are described by `Follows`, `After`, `Ends` and
  `Stops`. The lemmas here state what the code does to those walks.
- `list.dfy`, module `Lists`. This is the `LinkedList` class. It has the
  constant slots `head` and `tail`, a 64-bit counter `len`, and a ghost
  footprint `Repr`. The footprint holds `head`, `tail` and every node's link
  slots. `Snapshot()` returns the slots' contents as a `Heap`. Each mutating
  method says that the new snapshot is `PushHeap` or `RemoveHeap` applied to
  the old one.
- `scenarios.dfy`, module `Scenarios`. These are the unit tests at
  `src/lib.rs:182-256`, restated as methods on the model whose results are
  proved, plus one more sequence of calls that shows the counter underflow.

## What the code does, as opposed to a well-formed list

A doubly-linked list is meant to keep a well-formed chain: each node's
`next.prev` leads back to it, and `head` and `tail` hold the two ends.
Because of the shared slots, this code does not build one. The model
follows the code:

- `push_front` gives the new node the list's own `head` slot as its `next`.
  After any `push_front`, the head node's `next` therefore leads back to the
  head node. `FindAfterPushFront` proves that a forward walk from `head`
  then visits only that node. So `find(x)` and `remove(x)` stop only when
  the first node holds `x`, and otherwise run forever. One example is
  `push_front(1..4)` followed by `find(&1)`.
- `push_back` gives every new node the list's `tail` slot as its `prev`.
  The `prev` walk from `tail` therefore never leaves the last node.
- `remove` never stores into `head` or `tail` by name, and it leaves the
  removed node in place. Its `next.prev` store can still land on the `tail`
  slot, as in `push_back(1); push_back(1); remove(&1)`. Its `prev.next`
  store would land on the `head` slot only if the removed node's
  predecessor were a `push_front` node, whose `next` is the head slot.
  `RemoveHeap` allows that on an arbitrary heap, but the model shows no
  sequence of calls from `new()` that reaches it. `RemoveFromChain`
  covers a list built by pushes at one end only. There, at most one slot
  changes: the last node's link. Removing any node but the last makes that
  link point at the removed node's successor, so the walk from `head`
  turns into a cycle that still passes through the removed node. Removing
  the last node stores into that link the node it already holds, so no
  slot changes, and `head` or the previous node still holds the removed
  node. `RemoveTwiceScenario` proves the consequence. After `push_back(1)`
  and `remove(&1)`, `find(&1)` still returns 1. A second `remove(&1)` also
  returns 1, and `len` wraps from 0 to 2^64 - 1.
- `len` counts pushes minus successful removals, with 64-bit wrap-around.
  It does not count the nodes that a walk reaches.

## Model

| member | source | states |
|---|---|---|
| `Nodes.Slot.constructor` | src/lib.rs:20-21 | A freshly allocated pointer cell holds null. |
| `Nodes.Node.New` | src/lib.rs:18-24 | `Node::new` creates two fresh, distinct link slots, both null, and keeps the given value. |
| `Nodes.Node.constructor` | src/lib.rs:59-63 | The node literal keeps the slots it is given, shared or not, together with the value. |
| `Lists.Inc` | src/lib.rs:84 | `fetch_add(1)` on a 64-bit counter gives (c + 1) mod 2^64. |
| `Lists.Dec` | src/lib.rs:167 | `fetch_sub(1)` gives (c - 1) mod 2^64, so 0 wraps to 2^64 - 1. |
| `Lists.LinkedList.constructor` | src/lib.rs:41-48 | `new()` makes two fresh, distinct, null slots `head` and `tail` and sets `len` to 0. These slots are the whole footprint. |
| `Lists.LinkedList.Len` | src/lib.rs:50-52 | `len()` returns the stored counter unchanged. |
| `Lists.LinkedList.IsEmpty` | src/lib.rs:54-56 | `is_empty()` holds exactly when `len() == 0`. |
| `Lists.LinkedList.PushFront` | src/lib.rs:58-85 | Allocates a fresh node holding `v`. Its `next` is the head slot itself and its `prev` a fresh null slot. The slots then hold `PushHeap(old, tail, head, Prev, node)`: `head` holds the new node, and so does `tail` if `head` was null, otherwise the old head node's `prev` slot. `len` goes up by exactly 1 mod 2^64. The slot invariant is kept. |
| `Lists.LinkedList.PushBack` | src/lib.rs:87-114 | The mirror image of `PushFront`. The new node's `prev` is the tail slot itself and its `next` a fresh null slot. `tail` holds the new node, and so does `head` if `tail` was null, otherwise the old tail node's `next` slot. `len` goes up by 1 mod 2^64. |
| `Lists.LinkedList.Find` | src/lib.rs:116-134 | Walking `next` links from `head` along a terminating walk `path`, returns the value of the first node equal to `x`, at index `at`, with no earlier match. If the walk reaches null first, returns None. Nothing is stored, since the method has no `modifies` clause. |
| `Lists.LinkedList.Remove` | src/lib.rs:136-179 | Makes the same walk. With no match it returns None, and neither the slots nor `len` change. On the first match `path[at]` it returns that value and `len` goes down by 1 mod 2^64. The slots become `RemoveHeap(old, path[at])`: `next.prev := prev` if `next` is non-null, then `prev.next := next` if `prev` is non-null, and no other store. |
| `Links.PushHeap` | src/lib.rs:65-112 | A push (`push_front` at lines 65-83, `push_back` at lines 94-112) adds one new slot, the new node's own link, which holds null. The anchor (`head` or `tail`) holds the new node. If the anchor was null, the opposite end slot holds it too; otherwise the old end node's link holds it. Every other slot is unchanged. |
| `Links.RemoveHeap` | src/lib.rs:144-165 | No slot is added. The predecessor's `next` slot holds the successor. The successor's `prev` slot holds the predecessor, unless the second store overwrote it. Every other slot keeps its node. |
| `Links.PushClosed` | src/lib.rs:58-114 | After a push, every node held by a slot still has both of its link slots in the heap. So every slot that the next push or removal stores into lies in `Repr`, the footprint its `modifies` clause allows. |
| `Links.RemoveClosed` | src/lib.rs:144-165 | A removal keeps every node's link slots inside the heap, so the stores of later operations stay within `Repr`. |
| `Links.FollowsAgree` | src/lib.rs:120-131 | Two walks from the same slot visit the same node at every position they share, because the walk is deterministic. |
| `Links.FollowsAfter` | src/lib.rs:120-131 | Where a shorter walk ends, a longer walk from the same slot continues with the node the shorter walk reaches next. |
| `Links.WalkUnique` | src/lib.rs:216-228 | A walk that reaches null is fixed by the slots: any two such walks from the same slot are equal. |
| `Links.PushExtendsChain` | src/lib.rs:58-114 | For `push_front` and `push_back` alike: on a list built by pushes at one end, one more push appends the new node to the walk from the opposite end. The walk still reaches null, and the anchor holds the new node. |
| `Links.PushAllChain` | src/lib.rs:58-114 | For `push_front` and `push_back` alike: pushing any sequence of nodes, each with its own fresh link slot, appends them in order. |
| `Links.PushBackOrder` | src/lib.rs:209-229 | After `push_back` of nodes n1..nk on a new list, following `next` from `head` visits exactly n1..nk, so the values v1..vk, and then reaches null. |
| `Links.PushFrontOrder` | src/lib.rs:184-206 | After `push_front` of n1..nk on a new list, following `prev` from `tail` visits exactly n1..nk and then reaches null. |
| `Links.SelfLinkedAt` | src/lib.rs:60 | When the node in a slot links back to that same slot, every position of a walk from that slot holds that node. |
| `Links.SelfLinkedWalk` | src/lib.rs:116-134 | Such a walk never leaves the node, so a search for `x` stops only if that node holds `x`. |
| `Links.FindAfterPushFront` | src/lib.rs:58-85 | After any `push_front` of node `n`, a forward walk from `head` visits only `n`. `find(x)` or `remove(x)` can therefore finish only if `n` holds `x`. |
| `Links.RemoveFromChain` | src/lib.rs:136-179 | On a list built by pushes at one end, with every opposite link being the anchor slot, removing `p[k]` changes at most one slot: the last node's link, which now holds `p[k+1]`, or its current target when `p[k]` is last (then no slot changes). The walk from the origin still passes through `p[k]`. |
| `Scenarios.Traverse` | src/lib.rs:216-228 | The tests' traversal loop collects exactly the values of a walk that reaches null. |
| `Scenarios.PushFrontOnto` | src/lib.rs:188-191 | On a list built by `push_front` alone, one `push_front(v)` extends the `prev` walk from `tail` by a node holding `v` and adds 1 to `len`, for any element type. |
| `Scenarios.PushBackOnto` | src/lib.rs:212-215 | On a list built by `push_back` alone, one `push_back(v)`, for any element type, extends the `next` walk from `head` by a node holding `v`, adds 1 to `len`, and every node's `prev` is the tail slot. |
| `Scenarios.BackList` | src/lib.rs:246-250 | A new list followed by `push_back(1..4)` has the walk 1, 2, 3, 4 from `head`, then null, and `len == 4`. |
| `Scenarios.PushFrontScenario` | src/lib.rs:184-206 | `test_push_front`: walking `prev` from `tail` yields 1, 2, 3, 4. |
| `Scenarios.PushBackScenario` | src/lib.rs:208-230 | `test_push_back`: walking `next` from `head` yields 1, 2, 3, 4. |
| `Scenarios.RemoveFromBackList` | src/lib.rs:136-179 | On a list built by `push_back` alone, `remove(&x)` whose first match is `p[k]` returns `Some(x)` and redirects only the last node's `next`. |
| `Scenarios.FindScenario` | src/lib.rs:232-241 | `test_find`: `find(&1)` is `Some(1)`. |
| `Scenarios.RemoveScenario` | src/lib.rs:243-255 | `test_remove`: removing 1, 2, 3, 4 in turn returns `Some(1)` … `Some(4)`, and `len()` ends at 0. |
| `Scenarios.RemoveTwiceScenario` | src/lib.rs:167-168 | After `push_back(1)` and `remove(&1)`, `find(&1)` and a second `remove(&1)` both return 1, and `len` wraps to 2^64 - 1. |

## Left out

- Atomic memory orderings (`Relaxed`), `Arc` reference counting and any multi-threaded interleaving. The model is a single-threaded run, where a load reads `Slot.node` and a store assigns it.
- `usize` is taken to be 64 bits wide.
- The `Option` inside each `AtomicPtr` is always `Some`, so a slot holds a plain nullable node reference. Neither `unwrap` is modelled as a possible failure. The outer `.as_ref().unwrap()` runs only after an `is_null` test or a loop guard has ruled out null (`src/lib.rs:65-68`, `src/lib.rs:94-97`, `src/lib.rs:121`, `src/lib.rs:142`, `src/lib.rs:147`, `src/lib.rs:157`). The inner one succeeds because every node is allocated as `Box::new(Some(Node { .. }))` (`src/lib.rs:59`, `src/lib.rs:88`).
- `Box::into_raw` allocation becomes `new`. The node that `remove` leaks is never freed, and Dafny has no free to model.
- `Lists.LinkedList.Find` takes a ghost walk `path` that must reach a match or null, so it covers only runs that finish. A run on a cyclic chain never returns. `FindAfterPushFront` and `RemoveFromChain` show when such cycles arise.
- `Lists.LinkedList.Remove` takes the same ghost walk, for the same reason.
- `Lists.LinkedList.Find` and `Lists.LinkedList.Remove` compare with Dafny's `==` on `T(==)`, where the source calls the element type's `PartialEq` (`src/lib.rs:122`, `src/lib.rs:143`). That `PartialEq` is taken to be an equivalence that coincides with identity, as it is for the integers the tests use. Two cases are not captured. With `T = f64`, `push_back(NaN)` followed by `find(&NaN)` returns None in the source, because NaN is not equal to itself; the model returns the node. With a `PartialEq` coarser than identity, such as a case-insensitive key, the source returns a stored value that is equal to `x` but not identical; the model's `path[at].value == x` claims identity.
- `Lists.LinkedList`: the class-wide `T(==)` bound also keeps `PushFront` and `PushBack` from element types without equality, although the Rust code places no bound on `push_front` and `push_back`.
- The intended doubly-linked invariants are not stated, because the code does not establish them: `next.prev` pointing back, `head` and `tail` updated by `remove`, and equal forward and backward walk lengths equal to `len`.
- The `AsRef` impl (`src/lib.rs:27-31`), the `Clone + Copy` bound on `remove`, the `PhantomData` marker and the tests' `println!` are not part of this model.
