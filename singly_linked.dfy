/**
 * The nodes shared by the linked list, the stack and the queue, and what it
 * means for a sequence of nodes to be one chain of links in the heap.
 */
module SinglyLinked {
  import opened Common

  /** The node of `LinkedList`, `Stack` and `Queue`: one element and the link to the next node. */
  class Node<T> {
    var data: Option<T>
    var next: Node?<T>

    constructor (data: Option<T>)
      ensures this.data == data && next == null
    {
      this.data := data;
      next := null;
    }
  }

  /** In the current heap, each node of `ns` links to the one after it and the last one to `null`. */
  ghost predicate Chain<T>(ns: seq<Node<T>>)
    reads ns
  {
    && (ns != [] ==> ns[|ns| - 1].next == null)
    && forall i :: 0 <= i < |ns| - 1 ==> ns[i].next == ns[i + 1]
  }

  /** No node occurs twice in `ns`. */
  ghost predicate Distinct<T>(ns: seq<Node<T>>)
  {
    forall i, j :: 0 <= i < j < |ns| ==> ns[i] != ns[j]
  }

  /** In the current heap, node `i` of `ns` holds element `i` of `cs`. */
  ghost predicate Hold<T>(ns: seq<Node<T>>, cs: seq<Option<T>>)
    reads ns
  {
    |ns| == |cs| && forall i :: 0 <= i < |ns| ==> ns[i].data == cs[i]
  }

  /** A node occurs at only one position of a sequence without repeats. */
  lemma SameNode<T>(ns: seq<Node<T>>, i: int, j: int)
    requires Distinct(ns) && 0 <= i < |ns| && 0 <= j < |ns| && ns[i] == ns[j]
    ensures i == j
  {
  }

  /** Linking a new `node` after the last node of a chain. */
  lemma LinkedLast<T>(ns: seq<Node<T>>, cs: seq<Option<T>>, node: Node<T>)
    requires Distinct(ns) && Hold(ns, cs) && ns != [] && node !in ns
    requires forall j :: 0 <= j < |ns| - 1 ==> ns[j].next == ns[j + 1]
    requires ns[|ns| - 1].next == node && node.next == null
    ensures Chain(ns + [node]) && Distinct(ns + [node]) && Hold(ns + [node], cs + [node.data])
  {
  }
}
