/** Pointer cells and the nodes they point to.

    In the Rust code every link (a node's `next` and `prev`, the list's
    `head` and `tail`) is an `Arc<AtomicPtr<Option<Node<T>>>>`: a heap cell
    holding a raw pointer that several owners may share.  Here such a cell
    is a `Slot`, and a raw pointer is a nullable `Node` reference.  The
    `Arc` sharing is what matters: two nodes, or a node and the list, may
    hold the very same slot, so a store through one is seen through the
    other. */
module Nodes {

  datatype Option<T> = None | Some(value: T)

  /** The two directions in which a node links to a neighbour. */
  datatype Dir = Next | Prev

  /** A shared pointer cell; `node == null` is the null pointer. */
  class Slot<T> {
    var node: Node?<T>

    /** `Arc::new(AtomicPtr::new(null_mut()))`: a fresh, null cell. */
    constructor ()
      ensures node == null
    {
      node := null;
    }
  }

  /** A list node.  Its two slots and its value are fixed when it is built;
      only the contents of the slots change afterwards. */
  class Node<T> {
    const next: Slot<T>
    const prev: Slot<T>
    const value: T

    /** `Node::new`: a node with two fresh, distinct, null link slots. */
    constructor New(value: T)
      ensures this.value == value
      ensures fresh(next) && fresh(prev) && next != prev
      ensures next.node == null && prev.node == null
    {
      this.value := value;
      next := new Slot();
      prev := new Slot();
    }

    /** The struct literal used by `push_front` and `push_back`: the node
        takes whatever slots it is given, shared or not. */
    constructor (next: Slot<T>, prev: Slot<T>, value: T)
      ensures this.next == next && this.prev == prev && this.value == value
    {
      this.next := next;
      this.prev := prev;
      this.value := value;
    }
  }

  /** The slot through which `n` links in direction `d`. */
  function Link<T>(n: Node<T>, d: Dir): Slot<T>
  {
    if d == Next then n.next else n.prev
  }

  function Opposite(d: Dir): Dir
  {
    if d == Next then Prev else Next
  }
}
