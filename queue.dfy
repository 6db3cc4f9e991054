/**
 * A linked queue: elements are enqueued at `rear` and read from `front`
 * onwards. The queue has no dequeue operation and never holds `null`.
 */
module Queues {
  import opened Common
  import opened SinglyLinked

  class Queue<T(==)> {
    var front: Node?<T>
    var rear: Node?<T>
    var size: nat
    /** The nodes, front first. */
    ghost var Nodes: seq<Node<T>>
    /** The elements, front first, in the order they were enqueued. */
    ghost var Contents: seq<Option<T>>

    /** `front` starts the chain of `Nodes`, `rear` ends it, and no element is `null`. */
    ghost predicate Valid()
      reads this, Nodes
    {
      && size == |Nodes|
      && front == (if Nodes == [] then null else Nodes[0])
      && rear == (if Nodes == [] then null else Nodes[|Nodes| - 1])
      && Chain(Nodes) && Distinct(Nodes) && Hold(Nodes, Contents)
      && None !in Contents
    }

    /** `new Queue()`: the empty queue. */
    constructor ()
      ensures Valid() && Contents == [] && Nodes == []
    {
      front, rear, size := null, null, 0;
      Nodes, Contents := [], [];
    }

    /**
     * `enqueue(element)`: `null` is refused with `IllegalArgumentException`
     * and nothing changes; otherwise a new node is linked after `rear`, or
     * becomes both `front` and `rear` of an empty queue.
     */
    method Enqueue(element: Option<T>) returns (r: Result<()>)
      requires Valid()
      modifies this, Nodes
      ensures Valid()
      ensures element == None ==> r == Err(IllegalArgument) && unchanged(this) && unchanged(Nodes)
      ensures element != None ==> r == Ok(()) && Contents == old(Contents) + [element]
      ensures forall n :: n in Nodes ==> n in old(Nodes) || fresh(n)
    {
      if element == None {
        return Err(IllegalArgument);
      }
      ghost var ns, cs := Nodes, Contents;
      var node := new Node(element);
      if rear == null {
        front, rear := node, node;
      } else {
        assert rear == ns[|ns| - 1] && node !in ns;
        rear.next := node;
        rear := node;
      }
      size := size + 1;
      Nodes, Contents := ns + [node], cs + [element];
      if ns != [] {
        forall j | 0 <= j < |ns| - 1 ensures ns[j].next == ns[j + 1] {
          assert ns[j] != ns[|ns| - 1];
        }
        LinkedLast(ns, cs, node);
      }
      r := Ok(());
    }

    /** `add(element)`: the same as `enqueue`. */
    method Add(element: Option<T>) returns (r: Result<()>)
      requires Valid()
      modifies this, Nodes
      ensures Valid()
      ensures element == None ==> r == Err(IllegalArgument) && unchanged(this) && unchanged(Nodes)
      ensures element != None ==> r == Ok(()) && Contents == old(Contents) + [element]
      ensures forall n :: n in Nodes ==> n in old(Nodes) || fresh(n)
    {
      r := Enqueue(element);
    }

    /** `empty()`: there are no elements. */
    function Empty(): (e: bool)
      reads this, Nodes
      requires Valid()
      ensures e <==> Contents == []
    {
      size == 0
    }

    /** `size()`: the number of elements. */
    function Size(): (n: nat)
      reads this, Nodes
      requires Valid()
      ensures n == |Contents|
    {
      size
    }
  }

  /** The iterator of a `Queue`: a cursor running from `front` to `rear`. */
  class QueueIterator<T(==)> {
    const queue: Queue<T>
    var current: Node?<T>
    /** How many elements have been yielded. */
    ghost var position: nat

    ghost predicate Valid()
      reads this, queue, queue.Nodes
    {
      && queue.Valid()
      && position <= |queue.Nodes|
      && current == (if position < |queue.Nodes| then queue.Nodes[position] else null)
    }

    constructor (queue: Queue<T>)
      requires queue.Valid()
      ensures Valid() && this.queue == queue && position == 0
    {
      this.queue := queue;
      current := queue.front;
      position := 0;
    }

    /** `hasNext()`: the cursor is on a node. */
    function HasNext(): (b: bool)
      reads this, queue, queue.Nodes
      requires Valid()
      ensures b <==> position < |queue.Contents|
    {
      current != null
    }

    /** `next()`, called only while `hasNext()` holds: the elements in enqueue order, one per call. */
    method Next() returns (e: Option<T>)
      requires Valid() && HasNext()
      modifies this
      ensures Valid() && e == queue.Contents[old(position)] && position == old(position) + 1
      ensures e != None
    {
      e := current.data;
      current := current.next;
      position := position + 1;
    }
  }
}
