/** The contents of all slots, seen as one pure value, and what the list's
    operations do to it.

    A `Heap` maps each slot to the node it points to.  The stores that
    `push_front`, `push_back` and `remove` perform are map updates, applied
    in the order the code performs them, so any sharing of slots between
    nodes and the list is accounted for without further assumptions. */
module Links {
  import opened Nodes

  type Heap<T> = map<Slot<T>, Node?<T>>

  /** Every node held by a slot of `h` has both its link slots in `h`. */
  ghost predicate Closed<T>(h: Heap<T>)
  {
    forall s :: s in h && h[s] != null ==> h[s].next in h && h[s].prev in h
  }

  /** The values held by the nodes of `p`, in order. */
  ghost function Values<T>(p: seq<Node<T>>): (vs: seq<T>)
    ensures |vs| == |p|
    ensures forall i :: 0 <= i < |p| ==> vs[i] == p[i].value
  {
    if p == [] then [] else [p[0].value] + Values(p[1..])
  }

  ghost function Last<T>(p: seq<Node<T>>): Node?<T>
  {
    if p == [] then null else p[|p| - 1]
  }

  /** `p` lists the first |p| nodes met by starting at slot `s` and
      following `d`-links. */
  ghost predicate Follows<T>(h: Heap<T>, s: Slot<T>, d: Dir, p: seq<Node<T>>)
  {
    && s in h
    && (|p| > 0 ==> h[s] == p[0])
    && (forall i :: 0 <= i < |p| ==> Link(p[i], d) in h)
    && (forall i :: 0 <= i < |p| - 1 ==> h[Link(p[i], d)] == p[i + 1])
  }

  /** The node the walk reaches right after `p`; null when it stops there. */
  ghost function After<T>(h: Heap<T>, s: Slot<T>, d: Dir, p: seq<Node<T>>): Node?<T>
    requires Follows(h, s, d, p)
  {
    if p == [] then h[s] else h[Link(p[|p| - 1], d)]
  }

  /** The walk from `s` visits exactly `p` and then reaches null. */
  ghost predicate Ends<T>(h: Heap<T>, s: Slot<T>, d: Dir, p: seq<Node<T>>)
  {
    Follows(h, s, d, p) && After(h, s, d, p) == null
  }

  /** A traversal looking for `x` that walks `p` comes to a halt: some node
      of `p` holds `x`, or the walk reaches null right after `p`.  This is
      what `find` and `remove` need in order to terminate. */
  ghost predicate Stops<T>(h: Heap<T>, s: Slot<T>, d: Dir, p: seq<Node<T>>, x: T)
  {
    Follows(h, s, d, p) && (x in Values(p) || After(h, s, d, p) == null)
  }

  /** Two walks from the same slot agree on the positions they share. */
  lemma {:induction false} FollowsAgree<T>(h: Heap<T>, s: Slot<T>, d: Dir, p: seq<Node<T>>, q: seq<Node<T>>, i: nat)
    requires Follows(h, s, d, p) && Follows(h, s, d, q)
    requires i < |p| && i < |q|
    ensures p[i] == q[i]
  {
    if i > 0 {
      FollowsAgree(h, s, d, p, q, i - 1);
    }
  }

  /** Where a shorter walk ends, a longer one from the same slot goes on. */
  lemma FollowsAfter<T>(h: Heap<T>, s: Slot<T>, d: Dir, p: seq<Node<T>>, q: seq<Node<T>>)
    requires Follows(h, s, d, p) && Follows(h, s, d, q)
    requires |p| < |q|
    ensures q[|p|] == After(h, s, d, p)
  {
    if |p| > 0 {
      FollowsAgree(h, s, d, p, q, |p| - 1);
    }
  }

  /** A walk that reaches null is determined by the heap: the nodes it
      visits are exactly those of `p`. */
  lemma WalkUnique<T>(h: Heap<T>, s: Slot<T>, d: Dir, p: seq<Node<T>>, q: seq<Node<T>>)
    requires Ends(h, s, d, p) && Ends(h, s, d, q)
    ensures p == q
  {
    if |p| < |q| {
      FollowsAfter(h, s, d, p, q);
      assert false;
    } else if |q| < |p| {
      FollowsAfter(h, s, d, q, p);
      assert false;
    } else {
      forall i | 0 <= i < |p|
        ensures p[i] == q[i]
      {
        FollowsAgree(h, s, d, p, q, i);
      }
    }
  }

  /** The stores of one push.  For `push_back` the walk runs along `Next`
      from the `origin` slot `head` and the new node `n` is attached at the
      `anchor` slot `tail`; for `push_front` the walk runs along `Prev` from
      `tail` and the anchor is `head`.  In that order the code
        - allocates `n` with a fresh null slot for its `d`-link,
        - stores `n` into `origin` if the anchor is null, and otherwise into
          the `d`-link slot of the node the anchor holds,
        - stores `n` into the anchor. */
  ghost function PushHeap<T>(h: Heap<T>, origin: Slot<T>, anchor: Slot<T>, d: Dir, n: Node<T>): (r: Heap<T>)
    requires origin in h && anchor in h
    requires h[anchor] != null ==> Link(h[anchor], d) in h
    ensures r.Keys == h.Keys + {Link(n, d)}
    ensures r[anchor] == n
    ensures h[anchor] == null ==> r[origin] == n
    ensures h[anchor] != null ==> r[Link(h[anchor], d)] == n
    ensures Link(n, d) !in h ==> r[Link(n, d)] == null
    ensures forall s :: s in h && s != anchor && s != Link(n, d) && s != (if h[anchor] == null then origin else Link(h[anchor], d)) ==> r[s] == h[s]
  {
    var target := if h[anchor] == null then origin else Link(h[anchor], d);
    h[Link(n, d) := null][target := n][anchor := n]
  }

  /** The stores of `remove` once it has found node `m`: both neighbours
      are loaded first, then `next.prev := prev` if `next` is non-null,
      then `prev.next := next` if `prev` is non-null. */
  ghost function RemoveHeap<T>(h: Heap<T>, m: Node<T>): (r: Heap<T>)
    requires Closed(h) && m.next in h && m.prev in h
    ensures r.Keys == h.Keys
    ensures h[m.prev] != null ==> r[h[m.prev].next] == h[m.next]
    ensures h[m.next] != null && (h[m.prev] == null || h[m.prev].next != h[m.next].prev) ==>
              r[h[m.next].prev] == h[m.prev]
    ensures forall s :: s in h && (h[m.next] == null || s != h[m.next].prev) && (h[m.prev] == null || s != h[m.prev].next) ==>
              r[s] == h[s]
  {
    var next := h[m.next];
    var prev := h[m.prev];
    var h1 := if next != null then h[next.prev := prev] else h;
    if prev != null then h1[prev.next := next] else h1
  }

  /** A push keeps every held node's link slots among the slots, so the
      slots a later push or removal stores into stay inside the list's
      footprint; the first ensures is the fact the push itself needs. */
  lemma PushClosed<T>(h: Heap<T>, origin: Slot<T>, anchor: Slot<T>, d: Dir, n: Node<T>)
    requires origin in h && anchor in h && Closed(h)
    requires Link(n, Opposite(d)) in h
    ensures h[anchor] != null ==> Link(h[anchor], d) in h
    ensures Closed(PushHeap(h, origin, anchor, d, n))
  {
  }

  /** A removal keeps every held node's link slots among the slots. */
  lemma RemoveClosed<T>(h: Heap<T>, m: Node<T>)
    requires Closed(h) && m.next in h && m.prev in h
    ensures Closed(RemoveHeap(h, m))
  {
  }

  /** A list built by pushes at one end only: the walk from `origin` along
      `d` visits `p` and reaches null, the anchor holds the last node of `p`,
      and no node of `p` links through `origin` or the anchor. */
  ghost predicate Chain<T>(h: Heap<T>, origin: Slot<T>, anchor: Slot<T>, d: Dir, p: seq<Node<T>>)
  {
    && Ends(h, origin, d, p)
    && anchor in h && origin != anchor
    && h[anchor] == Last(p)
    && (forall i :: 0 <= i < |p| ==> Link(p[i], d) != origin && Link(p[i], d) != anchor)
  }

  /** One push at the anchor end appends the new node to the walk. */
  lemma PushExtendsChain<T>(h: Heap<T>, origin: Slot<T>, anchor: Slot<T>, d: Dir, p: seq<Node<T>>, n: Node<T>)
    requires Chain(h, origin, anchor, d, p)
    requires Link(n, d) !in h
    ensures Chain(PushHeap(h, origin, anchor, d, n), origin, anchor, d, p + [n])
  {
  }

  /** The new nodes' `d`-link slots are fresh and pairwise distinct, as
      each push allocates its own. */
  ghost predicate FreshLinks<T>(h: Heap<T>, d: Dir, ns: seq<Node<T>>)
  {
    && (forall i :: 0 <= i < |ns| ==> Link(ns[i], d) !in h)
    && (forall i, j :: 0 <= i < j < |ns| ==> Link(ns[i], d) != Link(ns[j], d))
  }

  /** The heap after pushing the nodes of `ns`, in order, at the anchor. */
  ghost function PushAll<T>(h: Heap<T>, origin: Slot<T>, anchor: Slot<T>, d: Dir, ns: seq<Node<T>>): Heap<T>
    requires origin in h && anchor in h
    requires h[anchor] != null ==> Link(h[anchor], d) in h
    requires FreshLinks(h, d, ns)
    decreases |ns|
  {
    if ns == [] then h
    else PushAll(PushHeap(h, origin, anchor, d, ns[0]), origin, anchor, d, ns[1..])
  }

  lemma {:induction false} PushAllChain<T>(h: Heap<T>, origin: Slot<T>, anchor: Slot<T>, d: Dir, p: seq<Node<T>>, ns: seq<Node<T>>)
    requires Chain(h, origin, anchor, d, p)
    requires FreshLinks(h, d, ns)
    ensures Chain(PushAll(h, origin, anchor, d, ns), origin, anchor, d, p + ns)
    decreases |ns|
  {
    if ns != [] {
      PushExtendsChain(h, origin, anchor, d, p, ns[0]);
      var h' := PushHeap(h, origin, anchor, d, ns[0]);
      PushAllChain(h', origin, anchor, d, p + [ns[0]], ns[1..]);
      assert p + [ns[0]] + ns[1..] == p + ns;
    }
  }

  /** `push_back(v1) … push_back(vn)` on a new list: following `next` from
      `head` visits the pushed nodes in push order, then reaches null. */
  lemma PushBackOrder<T>(head: Slot<T>, tail: Slot<T>, ns: seq<Node<T>>)
    requires head != tail
    requires FreshLinks(map[head := null, tail := null], Next, ns)
    ensures Ends(PushAll(map[head := null, tail := null], head, tail, Next, ns), head, Next, ns)
  {
    var h: Heap<T> := map[head := null, tail := null];
    assert Chain(h, head, tail, Next, []);
    PushAllChain(h, head, tail, Next, [], ns);
    assert [] + ns == ns;
  }

  /** `push_front(v1) … push_front(vn)` on a new list: following `prev`
      from `tail` visits the pushed nodes in push order, then reaches null. */
  lemma PushFrontOrder<T>(head: Slot<T>, tail: Slot<T>, ns: seq<Node<T>>)
    requires head != tail
    requires FreshLinks(map[head := null, tail := null], Prev, ns)
    ensures Ends(PushAll(map[head := null, tail := null], tail, head, Prev, ns), tail, Prev, ns)
  {
    var h: Heap<T> := map[head := null, tail := null];
    assert Chain(h, tail, head, Prev, []);
    PushAllChain(h, tail, head, Prev, [], ns);
    assert [] + ns == ns;
  }

  lemma {:induction false} SelfLinkedAt<T>(h: Heap<T>, s: Slot<T>, d: Dir, p: seq<Node<T>>, i: nat)
    requires Follows(h, s, d, p) && h[s] != null && Link(h[s], d) == s
    requires i < |p|
    ensures p[i] == h[s]
  {
    if i > 0 {
      SelfLinkedAt(h, s, d, p, i - 1);
    }
  }

  /** When the node held by `s` links back to `s` itself, a walk from `s`
      never leaves that node: it stops only if that node holds `x`. */
  lemma SelfLinkedWalk<T>(h: Heap<T>, s: Slot<T>, d: Dir, p: seq<Node<T>>, x: T)
    requires Follows(h, s, d, p) && h[s] != null && Link(h[s], d) == s
    ensures forall i :: 0 <= i < |p| ==> p[i] == h[s]
    ensures Stops(h, s, d, p, x) ==> h[s].value == x
  {
    forall i | 0 <= i < |p|
      ensures p[i] == h[s]
    {
      SelfLinkedAt(h, s, d, p, i);
    }
  }

  /** After any `push_front` of node `n` (whose `next` is the list's own
      head slot), a forward walk from `head` meets `n` again and again:
      `find(x)` and `remove(x)` can halt only when `n` holds `x`. */
  lemma FindAfterPushFront<T>(h: Heap<T>, head: Slot<T>, tail: Slot<T>, n: Node<T>, p: seq<Node<T>>, x: T)
    requires head in h && tail in h
    requires h[head] != null ==> h[head].prev in h
    requires n.next == head
    requires Follows(PushHeap(h, tail, head, Prev, n), head, Next, p)
    ensures forall i :: 0 <= i < |p| ==> p[i] == n
    ensures Stops(PushHeap(h, tail, head, Prev, n), head, Next, p, x) ==> n.value == x
  {
    SelfLinkedWalk(PushHeap(h, tail, head, Prev, n), head, Next, p, x);
  }

  /** A list built by pushes at one end whose last node's `d`-link has
      been redirected to `c`: null right after the pushes, and a node of
      `p` once `remove` has been at work. */
  ghost function Relinked<T>(h: Heap<T>, p: seq<Node<T>>, d: Dir, c: Node?<T>): Heap<T>
    requires p != []
  {
    h[Link(p[|p| - 1], d) := c]
  }

  /** Removing node `p[k]` from a list built by pushes at one end, where
      every node's opposite link is the anchor slot itself (`prev` is the
      tail slot after `push_back`, `next` the head slot after
      `push_front`), and whose last link currently holds `c`.  At most one
      slot changes: the last node's `d`-link now holds the removed node's
      successor on the walk, or keeps `c` when the removed node is last.  So the removed node stays on the walk from
      `origin`; starting from `c == null`, removing any node but the last
      turns the walk into a cycle, and removing the last changes no slot. */
  lemma RemoveFromChain<T>(h: Heap<T>, origin: Slot<T>, anchor: Slot<T>, d: Dir, p: seq<Node<T>>, c: Node?<T>, k: nat)
    requires Chain(h, origin, anchor, d, p) && Closed(h)
    requires forall i :: 0 <= i < |p| ==> Link(p[i], Opposite(d)) == anchor
    requires c == null || c in p
    requires k < |p|
    ensures Relinked(h, p, d, null) == h
    ensures Closed(Relinked(h, p, d, c))
    ensures Follows(Relinked(h, p, d, c), origin, d, p)
    ensures After(Relinked(h, p, d, c), origin, d, p) == c
    ensures p[k].next in h && p[k].prev in h
    ensures RemoveHeap(Relinked(h, p, d, c), p[k]) == Relinked(h, p, d, if k + 1 < |p| then p[k + 1] else c)
  {
  }
}
