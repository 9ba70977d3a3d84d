/** `LinkedList<T>`: a head slot, a tail slot and a 64-bit length counter
    (src/lib.rs:33-180).

    Each operation is a plain sequence of loads and stores; atomic orderings
    play no part in a single-threaded run, so a load is a read of
    `Slot.node` and a store is an assignment to it.  Every method states its
    effect on the slots as a function of `Links` applied to the slots'
    contents before the call. */
module Lists {
  import opened Nodes
  import opened Links

  const MOD: int := 0x1_0000_0000_0000_0000

  /** `usize` on a 64-bit target. */
  newtype u64 = x: int | 0 <= x < 0x1_0000_0000_0000_0000

  /** `fetch_add(1)`: the counter wraps from its maximum to zero. */
  function Inc(c: u64): (r: u64)
    ensures r as int == (c as int + 1) % MOD
  {
    if c as int == MOD - 1 then 0 else c + 1
  }

  /** `fetch_sub(1)`: the counter wraps from zero to its maximum. */
  function Dec(c: u64): (r: u64)
    ensures r as int == (c as int - 1) % MOD
  {
    if c == 0 then (MOD - 1) as u64 else c - 1
  }

  class LinkedList<T(==)> {
    const head: Slot<T>
    const tail: Slot<T>
    var len: u64

    /** The slots reachable from this list: `head`, `tail` and every link
        slot of every node ever pushed. */
    ghost var Repr: set<Slot<T>>

    /** The contents of the slots in `Repr`. */
    ghost function Snapshot(): Heap<T>
      reads this, Repr
    {
      map s | s in Repr :: s.node
    }

    ghost predicate Valid()
      reads this, Repr
    {
      head in Repr && tail in Repr && head != tail && Closed(Snapshot())
    }

    /** `LinkedList::new`: two fresh null slots and a zero counter. */
    constructor ()
      ensures Valid() && fresh(Repr)
      ensures Repr == {head, tail}
      ensures head.node == null && tail.node == null && len == 0
      ensures Snapshot() == map[head := null, tail := null]
    {
      head := new Slot();
      tail := new Slot();
      len := 0;
      Repr := {head, tail};
    }

    /** `len`: the counter as stored. */
    function Len(): (r: u64)
      reads this
      ensures r == len
    {
      len
    }

    function IsEmpty(): (r: bool)
      reads this
      ensures r <==> Len() == 0
    {
      Len() == 0
    }

    /** `push_front`: the new node's `next` is the list's own head slot and
        its `prev` a fresh null slot; `n` goes into `tail` when `head` is
        null and into the old head node's `prev` slot otherwise, then into
        `head`. */
    method PushFront(v: T)
      requires Valid()
      modifies this, Repr
      ensures Valid()
      ensures head.node != null && fresh(head.node) && fresh(head.node.prev)
      ensures head.node.value == v && head.node.next == head
      ensures Repr == old(Repr) + {head.node.prev}
      ensures Snapshot() == PushHeap(old(Snapshot()), tail, head, Prev, head.node)
      ensures len == Inc(old(len))
    {
      ghost var h := Snapshot();
      var prev := new Slot();
      var node := new Node(head, prev, v);
      assert h[head] == head.node;
      if head.node == null {
        tail.node := node;
      } else {
        head.node.prev.node := node;
      }
      head.node := node;
      len := Inc(len);
      Repr := Repr + {prev};
      assert Snapshot() == PushHeap(h, tail, head, Prev, node);
      PushClosed(h, tail, head, Prev, node);
    }

    /** `push_back`: the new node's `prev` is the list's own tail slot and
        its `next` a fresh null slot; `n` goes into `head` when `tail` is
        null and into the old tail node's `next` slot otherwise, then into
        `tail`. */
    method PushBack(v: T)
      requires Valid()
      modifies this, Repr
      ensures Valid()
      ensures tail.node != null && fresh(tail.node) && fresh(tail.node.next)
      ensures tail.node.value == v && tail.node.prev == tail
      ensures Repr == old(Repr) + {tail.node.next}
      ensures Snapshot() == PushHeap(old(Snapshot()), head, tail, Next, tail.node)
      ensures len == Inc(old(len))
    {
      ghost var h := Snapshot();
      var next := new Slot();
      var node := new Node(next, tail, v);
      assert h[tail] == tail.node;
      if tail.node == null {
        head.node := node;
      } else {
        tail.node.next.node := node;
      }
      tail.node := node;
      len := Inc(len);
      Repr := Repr + {next};
      assert Snapshot() == PushHeap(h, head, tail, Next, node);
      PushClosed(h, head, tail, Next, node);
    }

    /** `find`: walk `next` links from `head`, comparing each node's value
        with `x`.  The ghost `path` is the walk the loop takes; it must
        reach a node holding `x` or end at null, for otherwise the loop
        never terminates.  The result is the value of the first node of
        `path` that holds `x`, at position `at`, or None when the walk
        reaches null first.  Nothing is stored.  A `path` that ends at null
        is the one walk the slots determine (`Links.WalkUnique`), so the
        caller has no choice of walk to make. */
    method Find(x: T, ghost path: seq<Node<T>>) returns (r: Option<T>, ghost at: nat)
      requires Valid()
      requires Stops(Snapshot(), head, Next, path, x)
      ensures at <= |path|
      ensures forall k :: 0 <= k < at ==> path[k].value != x
      ensures r.Some? <==> at < |path|
      ensures r.Some? ==> path[at].value == x && r.value == path[at].value
      ensures r.None? ==> After(Snapshot(), head, Next, path) == null
    {
      ghost var h := Snapshot();
      var curr := head.node;
      ghost var i: nat := 0;
      while curr != null
        invariant i <= |path|
        invariant curr == if i < |path| then path[i] else After(h, head, Next, path)
        invariant forall k :: 0 <= k < i ==> path[k].value != x
        invariant curr != null ==> i < |path| && curr.next in h && curr.prev in h
        decreases |path| - i
      {
        if curr.value == x {
          return Some(curr.value), i;
        }
        curr := curr.next.node;
        i := i + 1;
      }
      return None, i;
    }

    /** `remove`: the same walk as `find`; on the first node `m` holding
        `x` it loads `m.next` and `m.prev`, stores `m.prev`'s node into the
        `prev` slot of `m.next`'s node (if any), then `m.next`'s node into
        the `next` slot of `m.prev`'s node (if any), decrements the counter
        and returns the value.  No store is addressed to `head` or `tail`,
        and `m` stays where the slots still point to it. */
    method Remove(x: T, ghost path: seq<Node<T>>) returns (r: Option<T>, ghost at: nat)
      requires Valid()
      requires Stops(Snapshot(), head, Next, path, x)
      modifies this, Repr
      ensures Valid() && Repr == old(Repr)
      ensures at <= |path|
      ensures forall k :: 0 <= k < at ==> path[k].value != x
      ensures r.Some? <==> at < |path|
      ensures r.None? ==> Snapshot() == old(Snapshot()) && len == old(len)
      ensures r.None? ==> After(old(Snapshot()), head, Next, path) == null
      ensures r.Some? ==> path[at].value == x && r.value == path[at].value
      ensures r.Some? ==> path[at].next in old(Snapshot()) && path[at].prev in old(Snapshot())
      ensures r.Some? ==> Snapshot() == RemoveHeap(old(Snapshot()), path[at])
      ensures r.Some? ==> len == Dec(old(len))
    {
      ghost var h := Snapshot();
      var curr := head.node;
      ghost var i: nat := 0;
      while curr != null
        invariant i <= |path|
        invariant curr == if i < |path| then path[i] else After(h, head, Next, path)
        invariant forall k :: 0 <= k < i ==> path[k].value != x
        invariant curr != null ==> i < |path| && curr.next in h && curr.prev in h
        invariant unchanged(this) && unchanged(Repr)
        decreases |path| - i
      {
        if curr.value == x {
          var node := curr;
          var next := node.next.node;
          var prev := node.prev.node;
          if next != null {
            next.prev.node := prev;
          }
          if prev != null {
            prev.next.node := next;
          }
          len := Dec(len);
          assert Snapshot() == RemoveHeap(h, node);
          RemoveClosed(h, node);
          return Some(node.value), i;
        }
        curr := curr.next.node;
        i := i + 1;
      }
      return None, i;
    }
  }
}
