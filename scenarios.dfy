/** The unit tests of src/lib.rs:182-256, restated as methods on the model, and one
    more sequence of calls showing the counter wrap that `remove` can reach. */
module Scenarios {
  import opened Nodes
  import opened Links
  import opened Lists

  /** The traversal loop of the two push tests: starting at slot `start`,
      collect node values along `d`-links until a null pointer.  `h` is
      what the slots hold and `p` the walk, which must reach null. */
  method Traverse<T>(start: Slot<T>, d: Dir, ghost h: Heap<T>, ghost p: seq<Node<T>>) returns (seen: seq<T>)
    requires Ends(h, start, d, p)
    requires forall s :: s in h ==> s.node == h[s]
    ensures seen == Values(p)
  {
    seen := [];
    var current := start.node;
    ghost var i := 0;
    while current != null
      invariant i <= |p|
      invariant current == if i < |p| then p[i] else null
      invariant seen == Values(p)[..i]
      decreases |p| - i
    {
      seen := seen + [current.value];
      current := Link(current, d).node;
      i := i + 1;
    }
    assert Values(p)[..|p|] == Values(p);
  }

  /** `list.push_front(v)` as the tests call it, on a list built by
      `push_front` alone: the new node joins the `prev` walk from `tail`. */
  method PushFrontOnto<T(==)>(list: LinkedList<T>, v: T, ghost p: seq<Node<T>>) returns (ghost q: seq<Node<T>>)
    requires list.Valid() && Chain(list.Snapshot(), list.tail, list.head, Prev, p)
    modifies list, list.Repr
    ensures list.Valid() && Chain(list.Snapshot(), list.tail, list.head, Prev, q)
    ensures |q| == |p| + 1 && q[..|p|] == p && Values(q) == Values(p) + [v]
    ensures fresh(list.Repr - old(list.Repr))
    ensures list.len == Inc(old(list.len))
  {
    ghost var h := list.Snapshot();
    list.PushFront(v);
    PushExtendsChain(h, list.tail, list.head, Prev, p, list.head.node);
    q := p + [list.head.node];
  }

  /** `list.push_back(v)` as the tests call it, on a list built by
      `push_back` alone: the new node joins the `next` walk from `head`. */
  method PushBackOnto<T(==)>(list: LinkedList<T>, v: T, ghost p: seq<Node<T>>) returns (ghost q: seq<Node<T>>)
    requires list.Valid() && Chain(list.Snapshot(), list.head, list.tail, Next, p)
    requires forall i :: 0 <= i < |p| ==> p[i].prev == list.tail
    modifies list, list.Repr
    ensures list.Valid() && Chain(list.Snapshot(), list.head, list.tail, Next, q)
    ensures forall i :: 0 <= i < |q| ==> q[i].prev == list.tail
    ensures |q| == |p| + 1 && q[..|p|] == p && Values(q) == Values(p) + [v]
    ensures fresh(list.Repr - old(list.Repr))
    ensures list.len == Inc(old(list.len))
  {
    ghost var h := list.Snapshot();
    list.PushBack(v);
    PushExtendsChain(h, list.head, list.tail, Next, p, list.tail.node);
    q := p + [list.tail.node];
  }

  /** The set-up shared by `test_push_back`, `test_find` and `test_remove`:
      a new list and `push_back(1) … push_back(4)`. */
  method BackList() returns (list: LinkedList<int>, ghost p: seq<Node<int>>)
    ensures fresh(list) && fresh(list.Repr)
    ensures list.Valid() && Chain(list.Snapshot(), list.head, list.tail, Next, p)
    ensures Values(p) == [1, 2, 3, 4]
    ensures forall i :: 0 <= i < |p| ==> p[i].prev == list.tail
    ensures list.len == 4
  {
    list := new LinkedList<int>();
    assert Chain(list.Snapshot(), list.head, list.tail, Next, []);
    p := PushBackOnto(list, 1, []);
    assert fresh(list.Repr);
    p := PushBackOnto(list, 2, p);
    assert fresh(list.Repr);
    p := PushBackOnto(list, 3, p);
    assert fresh(list.Repr);
    p := PushBackOnto(list, 4, p);
  }

  /** `test_push_front`: after `push_front(1) … push_front(4)`, following
      `prev` links from `tail` meets 1, 2, 3, 4 and then null. */
  method PushFrontScenario() returns (seen: seq<int>)
    ensures seen == [1, 2, 3, 4]
  {
    var list := new LinkedList<int>();
    assert Chain(list.Snapshot(), list.tail, list.head, Prev, []);
    ghost var p := PushFrontOnto(list, 1, []);
    p := PushFrontOnto(list, 2, p);
    p := PushFrontOnto(list, 3, p);
    p := PushFrontOnto(list, 4, p);
    seen := Traverse(list.tail, Prev, list.Snapshot(), p);
  }

  /** `test_push_back`: after `push_back(1) … push_back(4)`, following
      `next` links from `head` meets 1, 2, 3, 4 and then null. */
  method PushBackScenario() returns (seen: seq<int>)
    ensures seen == [1, 2, 3, 4]
  {
    var list;
    ghost var p;
    list, p := BackList();
    seen := Traverse(list.head, Next, list.Snapshot(), p);
  }

  /** `list.remove(&x)` as the tests call it, on a list built by
      `push_back` alone (all slots as in `h`, the walk `p` from `head`)
      whose last `next` link now holds `c`; `x` is first met at `p[k]`. */
  method RemoveFromBackList<T(==)>(list: LinkedList<T>, x: T, ghost h: Heap<T>, ghost p: seq<Node<T>>, ghost c: Node?<T>, k: nat)
    returns (r: Option<T>)
    requires list.Valid() && Chain(h, list.head, list.tail, Next, p) && Closed(h)
    requires forall i :: 0 <= i < |p| ==> p[i].prev == list.tail
    requires c == null || c in p
    requires k < |p| && p[k].value == x && forall i :: 0 <= i < k ==> p[i].value != x
    requires list.Snapshot() == Relinked(h, p, Next, c)
    modifies list, list.Repr
    ensures list.Valid() && list.Repr == old(list.Repr)
    ensures r == Some(x)
    ensures list.Snapshot() == Relinked(h, p, Next, if k + 1 < |p| then p[k + 1] else c)
    ensures list.len == Dec(old(list.len))
  {
    RemoveFromChain(h, list.head, list.tail, Next, p, c, k);
    ghost var path := p[..k + 1];
    assert path[k] == p[k];
    ghost var at;
    r, at := list.Remove(x, path);
  }

  /** `test_find`: after `push_back(1) … push_back(4)`, `find(&1)` is
      `Some(&1)`. */
  method FindScenario() returns (r: Option<int>)
    ensures r == Some(1)
  {
    var list;
    ghost var p;
    list, p := BackList();
    ghost var at;
    r, at := list.Find(1, p[..1]);
  }

  /** `test_remove`: after `push_back(1) … push_back(4)`, removing 1, 2, 3
      and 4 in turn yields each of them, and the counter is back to 0. */
  method RemoveScenario() returns (r1: Option<int>, r2: Option<int>, r3: Option<int>, r4: Option<int>, count: u64)
    ensures r1 == Some(1) && r2 == Some(2) && r3 == Some(3) && r4 == Some(4)
    ensures count == 0
  {
    var list;
    ghost var p;
    list, p := BackList();
    ghost var h := list.Snapshot();
    RemoveFromChain(h, list.head, list.tail, Next, p, null, 0);
    r1 := RemoveFromBackList(list, 1, h, p, null, 0);
    r2 := RemoveFromBackList(list, 2, h, p, p[1], 1);
    r3 := RemoveFromBackList(list, 3, h, p, p[2], 2);
    r4 := RemoveFromBackList(list, 4, h, p, p[3], 3);
    count := list.Len();
  }

  /** A removed node stays reachable from `head`: after `push_back(1)` and
      `remove(&1)`, `find(&1)` still yields 1, a second `remove(&1)` yields
      1 again, and the counter wraps below zero to 2^64 - 1. */
  method RemoveTwiceScenario() returns (r1: Option<int>, found: Option<int>, r2: Option<int>, count: u64)
    ensures r1 == Some(1) && found == Some(1) && r2 == Some(1)
    ensures count as int == MOD - 1
  {
    var list := new LinkedList<int>();
    assert Chain(list.Snapshot(), list.head, list.tail, Next, []);
    ghost var p := PushBackOnto(list, 1, []);
    ghost var h := list.Snapshot();
    RemoveFromChain(h, list.head, list.tail, Next, p, null, 0);
    r1 := RemoveFromBackList(list, 1, h, p, null, 0);
    ghost var at;
    found, at := list.Find(1, p);
    r2 := RemoveFromBackList(list, 1, h, p, null, 0);
    count := list.Len();
  }
}
