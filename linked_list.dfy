/**
 * A singly linked list with `head` and `tail` pointers and a `size`
 * counter. Elements are nullable (`None` is a stored `null`).
 */
module LinkedLists {
  import opened Common
  import opened Sequences
  import opened SinglyLinked

  /** Linking a new `node` between positions `k - 1` and `k` of a chain. */
  lemma LinkedBetween<T>(ns: seq<Node<T>>, cs: seq<Option<T>>, k: int, node: Node<T>)
    requires Distinct(ns) && Hold(ns, cs) && 0 < k < |ns| && node !in ns
    requires forall j :: 0 <= j < |ns| - 1 && j != k - 1 ==> ns[j].next == ns[j + 1]
    requires ns[|ns| - 1].next == null
    requires ns[k - 1].next == node && node.next == ns[k]
    ensures var ns' := Inserted(ns, k, node);
      Chain(ns') && Distinct(ns') && Hold(ns', Inserted(cs, k, node.data))
  {
    var ns' := Inserted(ns, k, node);
    forall i | 0 <= i < |ns'| - 1 ensures ns'[i].next == ns'[i + 1] {
      if i > k {
        assert ns'[i] == ns[i - 1] && ns'[i + 1] == ns[i];
      }
    }
    forall i, j | 0 <= i < j < |ns'| ensures ns'[i] != ns'[j] {
      if i != k && j != k {
        assert ns'[i] == ns[if i < k then i else i - 1];
        assert ns'[j] == ns[if j < k then j else j - 1];
      }
    }
  }

  /** Unlinking position `k`, neither the first nor the last, of a chain. */
  lemma UnlinkedBetween<T>(ns: seq<Node<T>>, cs: seq<Option<T>>, k: int)
    requires Distinct(ns) && Hold(ns, cs) && 0 < k < |ns| - 1
    requires forall j :: 0 <= j < |ns| - 1 && j != k - 1 ==> ns[j].next == ns[j + 1]
    requires ns[|ns| - 1].next == null
    requires ns[k - 1].next == ns[k + 1]
    ensures var ns' := Removed(ns, k);
      Chain(ns') && Distinct(ns') && Hold(ns', Removed(cs, k))
  {
    var ns' := Removed(ns, k);
    forall i | 0 <= i < |ns'| - 1 ensures ns'[i].next == ns'[i + 1] {
      if i >= k {
        assert ns'[i] == ns[i + 1] && ns'[i + 1] == ns[i + 2];
      }
    }
    forall i, j | 0 <= i < j < |ns'| ensures ns'[i] != ns'[j] {
      assert ns'[i] == ns[if i < k then i else i + 1];
      assert ns'[j] == ns[if j < k then j else j + 1];
    }
  }

  /** Cutting the last node off a chain of at least two nodes. */
  lemma CutLast<T>(ns: seq<Node<T>>, cs: seq<Option<T>>)
    requires Distinct(ns) && Hold(ns, cs) && |ns| >= 2
    requires forall j :: 0 <= j < |ns| - 2 ==> ns[j].next == ns[j + 1]
    requires ns[|ns| - 2].next == null
    ensures var ns' := ns[..|ns| - 1];
      Chain(ns') && Distinct(ns') && Hold(ns', cs[..|cs| - 1])
  {
  }

  /** A chain whose links all point backwards, read from its far end, is linked front to back. */
  lemma ReversedChain<T>(ns: seq<Node<T>>, cs: seq<Option<T>>)
    requires Distinct(ns) && Hold(ns, cs)
    requires ns != [] ==> ns[0].next == null
    requires forall j :: 0 < j < |ns| ==> ns[j].next == ns[j - 1]
    ensures var ns' := Reversed(ns);
      Chain(ns') && Distinct(ns') && Hold(ns', Reversed(cs))
  {
    var ns' := Reversed(ns);
    forall i | 0 <= i < |ns'| - 1 ensures ns'[i].next == ns'[i + 1] {
      assert ns'[i] == ns[|ns| - 1 - i];
    }
  }

  class LinkedList<T(==)> {
    var head: Node?<T>
    var tail: Node?<T>
    var size: nat
    /** The nodes reachable from `head`, in link order. */
    ghost var Nodes: seq<Node<T>>
    /** The elements, first to last. */
    ghost var Contents: seq<Option<T>>

    /**
     * The nodes from `head` on are linked one to the next, the last one to
     * `null`; no node occurs twice; they hold the elements; `size` counts them.
     */
    ghost predicate Linked()
      reads this, Nodes
    {
      && size == |Nodes|
      && head == (if Nodes == [] then null else Nodes[0])
      && Chain(Nodes) && Distinct(Nodes) && Hold(Nodes, Contents)
    }

    /** The full invariant: also `tail` is the last node (`null` for the empty list). */
    ghost predicate Valid()
      reads this, Nodes
    {
      Linked() && tail == (if Nodes == [] then null else Nodes[|Nodes| - 1])
    }

    /** `new LinkedList()`: the empty list. */
    constructor ()
      ensures Valid() && Contents == [] && Nodes == []
    {
      head, tail, size := null, null, 0;
      Nodes, Contents := [], [];
    }

    /**
     * `addFirst(data)`: a new node becomes the head; when `tail` is null
     * (the list was empty) it becomes the tail as well.
     */
    method AddFirst(data: Option<T>)
      requires Valid()
      modifies this
      ensures Valid() && Contents == [data] + old(Contents)
      ensures forall n :: n in Nodes ==> n in old(Nodes) || fresh(n)
    {
      var node := new Node(data);
      node.next := head;
      head := node;
      if tail == null {
        tail := head;
      }
      size := size + 1;
      Nodes, Contents := [node] + Nodes, [data] + Contents;
      assert forall i :: 1 <= i < |Nodes| ==> Nodes[i] == old(Nodes)[i - 1];
    }

    /** `addLast(element)`: a new node is linked after the tail, or is the only node of an empty list. */
    method AddLast(element: Option<T>)
      requires Valid()
      modifies this, Nodes
      ensures Valid() && Contents == old(Contents) + [element]
      ensures forall n :: n in Nodes ==> n in old(Nodes) || fresh(n)
    {
      ghost var ns, cs := Nodes, Contents;
      var node := new Node(element);
      if tail == null {
        assert ns == [];
        head, tail := node, node;
      } else {
        assert tail == ns[|ns| - 1] && node !in ns;
        tail.next := node;
        tail := node;
      }
      size := size + 1;
      Nodes, Contents := ns + [node], cs + [element];
      if ns != [] {
        forall j | 0 <= j < |ns| - 1 ensures ns[j].next == ns[j + 1] {
          assert ns[j] != ns[|ns| - 1];
        }
        LinkedLast(ns, cs, node);
      }
    }

    /** `add(element)`: the same as `addLast`. */
    method Add(element: Option<T>)
      requires Valid()
      modifies this, Nodes
      ensures Valid() && Contents == old(Contents) + [element]
      ensures forall n :: n in Nodes ==> n in old(Nodes) || fresh(n)
    {
      AddLast(element);
    }

    /** The walk of the positional operations: the node at position `index`. */
    method NodeAt(index: int) returns (node: Node<T>)
      requires Valid() && 0 <= index < |Nodes|
      ensures node == Nodes[index]
    {
      var current := head;
      for i := 0 to index
        invariant current == Nodes[i]
      {
        current := current.next;
      }
      return current;
    }

    /**
     * `insert(index, element)`: an index outside `[0, size]` is refused;
     * position 0 is `addFirst`, position `size` is `addLast`, and otherwise
     * the new node is linked in after the node at `index - 1`.
     */
    method Insert(index: int, element: Option<T>) returns (r: Result<()>)
      requires Valid()
      modifies this, Nodes
      ensures Valid()
      ensures !(0 <= index <= old(|Contents|)) ==> r == Err(IndexOutOfBounds) && Contents == old(Contents)
      ensures 0 <= index <= old(|Contents|) ==> r == Ok(()) && Contents == Inserted(old(Contents), index, element)
      ensures forall n :: n in Nodes ==> n in old(Nodes) || fresh(n)
    {
      if index < 0 || index > size {
        return Err(IndexOutOfBounds);
      }
      if index == 0 {
        AddFirst(element);
      } else if index == size {
        AddLast(element);
      } else {
        LinkAfter(index, element);
      }
      r := Ok(());
    }

    /** The middle case of `insert`: link a new node between positions `index - 1` and `index`. */
    method LinkAfter(index: int, element: Option<T>)
      requires Valid() && 0 < index < |Nodes|
      modifies this, Nodes
      ensures Valid() && Contents == Inserted(old(Contents), index, element)
      ensures forall n :: n in Nodes ==> n in old(Nodes) || fresh(n)
    {
      ghost var ns, cs := Nodes, Contents;
      var current := NodeAt(index - 1);
      var node := new Node(element);
      node.next := current.next;
      current.next := node;
      size := size + 1;
      Nodes, Contents := Inserted(ns, index, node), Inserted(cs, index, element);
      forall j | 0 <= j < |ns| && j != index - 1 ensures ns[j].next == old(ns[j].next) {
        assert ns[j] != ns[index - 1];
      }
      ValidInserted(ns, cs, index, node);
      InsertedMembers(ns, index, node);
    }

    /** Once the fields name a chain with `node` linked in at position `k`, the list is valid. */
    lemma ValidInserted(ns: seq<Node<T>>, cs: seq<Option<T>>, k: int, node: Node<T>)
      requires Distinct(ns) && Hold(ns, cs) && 0 < k < |ns| && node !in ns
      requires Nodes == Inserted(ns, k, node) && Contents == Inserted(cs, k, node.data) && size == |ns| + 1
      requires head == ns[0] && tail == ns[|ns| - 1]
      requires forall j :: 0 <= j < |ns| - 1 && j != k - 1 ==> ns[j].next == ns[j + 1]
      requires ns[|ns| - 1].next == null
      requires ns[k - 1].next == node && node.next == ns[k]
      ensures Valid()
    {
      LinkedBetween(ns, cs, k, node);
    }

    /** `removeFirst()`: the first element, unlinked; `NoSuchElementException` on the empty list. */
    method RemoveFirst() returns (r: Result<Option<T>>)
      requires Valid()
      modifies this
      ensures Valid()
      ensures old(Contents) == [] ==> r == Err(NoSuchElement) && unchanged(this)
      ensures old(Contents) != [] ==> r == Ok(old(Contents)[0]) && Contents == old(Contents)[1..]
      ensures forall n :: n in Nodes ==> n in old(Nodes)
    {
      if head == null {
        return Err(NoSuchElement);
      }
      var data := head.data;
      head := head.next;
      if head == null {
        tail := null;
      }
      size := size - 1;
      Nodes, Contents := Nodes[1..], Contents[1..];
      r := Ok(data);
    }

    /**
     * `removeLast()`: the last element, unlinked; the list is walked to the
     * node before the tail, which becomes the tail. `NoSuchElementException`
     * on the empty list.
     */
    method RemoveLast() returns (r: Result<Option<T>>)
      requires Valid()
      modifies this, Nodes
      ensures Valid()
      ensures old(Contents) == [] ==> r == Err(NoSuchElement) && unchanged(this)
      ensures old(Contents) != [] ==>
        r == Ok(old(Contents)[|old(Contents)| - 1]) && Contents == old(Contents)[..|old(Contents)| - 1]
      ensures forall n :: n in Nodes ==> n in old(Nodes)
    {
      if tail == null {
        return Err(NoSuchElement);
      }
      ghost var ns, cs := Nodes, Contents;
      var data := tail.data;
      assert |ns| > 1 ==> ns[0] != ns[|ns| - 1];
      if head == tail {
        head, tail := null, null;
      } else {
        var current := head;
        ghost var i := 0;
        while current.next != tail
          invariant 0 <= i < |ns| - 1 && current == ns[i]
          decreases |ns| - i
        {
          assert ns[i + 1] != ns[|ns| - 1];
          current := current.next;
          i := i + 1;
        }
        SameNode(ns, i + 1, |ns| - 1);
        current.next := null;
        tail := current;
      }
      size := size - 1;
      Nodes, Contents := ns[..|ns| - 1], cs[..|cs| - 1];
      if |ns| > 1 {
        forall j | 0 <= j < |ns| - 2 ensures ns[j].next == ns[j + 1] {
          assert ns[j] != ns[|ns| - 2];
        }
        CutLast(ns, cs);
      }
      r := Ok(data);
    }

    /**
     * `remove(index)`: an index outside `[0, size)` is refused; position 0
     * is `removeFirst`, the last position is `removeLast`, and otherwise the
     * node at `index` is unlinked from its predecessor.
     */
    method Remove(index: int) returns (r: Result<Option<T>>)
      requires Valid()
      modifies this, Nodes
      ensures Valid()
      ensures !(0 <= index < old(|Contents|)) ==> r == Err(IndexOutOfBounds) && Contents == old(Contents)
      ensures 0 <= index < old(|Contents|) ==>
        r == Ok(old(Contents)[index]) && Contents == Removed(old(Contents), index)
      ensures forall n :: n in Nodes ==> n in old(Nodes)
    {
      if index < 0 || index >= size {
        return Err(IndexOutOfBounds);
      }
      if index == 0 {
        r := RemoveFirst();
      } else if index == size - 1 {
        r := RemoveLast();
        assert Contents == Removed(old(Contents), index);
      } else {
        var data := UnlinkAfter(index);
        r := Ok(data);
      }
    }

    /** The middle case of `remove`: the predecessor of position `index` takes its successor. */
    method UnlinkAfter(index: int) returns (data: Option<T>)
      requires Valid() && 0 < index < |Nodes| - 1
      modifies this, Nodes
      ensures Valid()
      ensures data == old(Contents)[index] && Contents == Removed(old(Contents), index)
      ensures forall n :: n in Nodes ==> n in old(Nodes)
    {
      ghost var ns, cs := Nodes, Contents;
      var current := NodeAt(index - 1);
      assert current.next == ns[index] && ns[index].next == ns[index + 1];
      data := current.next.data;
      current.next := current.next.next;
      if current.next == null {
        // The node after the removed one exists (index < size - 1), so the
        // source's `tail = current` here is never reached.
        assert false;
      }
      size := size - 1;
      Nodes, Contents := Removed(ns, index), Removed(cs, index);
      forall j | 0 <= j < |ns| && j != index - 1 ensures ns[j].next == old(ns[j].next) {
        assert ns[j] != ns[index - 1];
      }
      ValidRemoved(ns, cs, index);
      RemovedMembers(ns, index);
    }

    /** Once the fields name a chain with position `k` unlinked, the list is valid. */
    lemma ValidRemoved(ns: seq<Node<T>>, cs: seq<Option<T>>, k: int)
      requires Distinct(ns) && Hold(ns, cs) && 0 < k < |ns| - 1
      requires Nodes == Removed(ns, k) && Contents == Removed(cs, k) && size == |ns| - 1
      requires head == ns[0] && tail == ns[|ns| - 1]
      requires forall j :: 0 <= j < |ns| - 1 && j != k - 1 ==> ns[j].next == ns[j + 1]
      requires ns[|ns| - 1].next == null
      requires ns[k - 1].next == ns[k + 1]
      ensures Valid()
    {
      UnlinkedBetween(ns, cs, k);
    }

    /** `getFirst()`: the first element, or `NoSuchElementException` on the empty list. */
    function GetFirst(): (r: Result<Option<T>>)
      reads this, Nodes
      requires Valid()
      ensures Contents == [] ==> r == Err(NoSuchElement)
      ensures Contents != [] ==> r == Ok(Contents[0])
    {
      if head == null then Err(NoSuchElement) else Ok(head.data)
    }

    /**
     * `getLast()`: the element of the `tail` node, or `NoSuchElementException`
     * when `tail` is null. Only the links are required, so that the state the
     * source's `reverse` leaves behind can be asked too.
     */
    method GetLast() returns (r: Result<Option<T>>)
      requires Linked()
      ensures tail == null ==> r == Err(NoSuchElement)
      ensures Valid() && Contents == [] ==> r == Err(NoSuchElement)
      ensures Valid() && Contents != [] ==> r == Ok(Contents[|Contents| - 1])
    {
      if tail == null {
        return Err(NoSuchElement);
      }
      return Ok(tail.data);
    }

    /** `get(index)`: the element at `index`, or `IndexOutOfBoundsException` outside `[0, size)`. */
    method Get(index: int) returns (r: Result<Option<T>>)
      requires Valid()
      ensures 0 <= index < |Contents| ==> r == Ok(Contents[index])
      ensures !(0 <= index < |Contents|) ==> r == Err(IndexOutOfBounds)
    {
      if index < 0 || index >= size {
        return Err(IndexOutOfBounds);
      }
      var node := NodeAt(index);
      return Ok(node.data);
    }

    /** `set(index, element)`: replace the element at `index` and nothing else. */
    method Set(index: int, element: Option<T>) returns (r: Result<()>)
      requires Valid()
      modifies this`Contents, Nodes
      ensures Valid() && Nodes == old(Nodes)
      ensures !(0 <= index < |Contents|) ==> r == Err(IndexOutOfBounds) && Contents == old(Contents)
      ensures 0 <= index < |Contents| ==> r == Ok(()) && Contents == old(Contents)[index := element]
    {
      if index < 0 || index >= size {
        return Err(IndexOutOfBounds);
      }
      var node := NodeAt(index);
      node.data := element;
      Contents := Contents[index := element];
      r := Ok(());
    }

    /** `size()`: the number of elements. */
    function Size(): (n: nat)
      reads this, Nodes
      requires Valid()
      ensures n == |Contents|
    {
      size
    }

    /** `isEmpty()`: there are no elements. */
    function IsEmpty(): (e: bool)
      reads this, Nodes
      requires Valid()
      ensures e <==> Contents == []
    {
      size == 0
    }

    /** `clear()`: drop every node. */
    method Clear()
      modifies this
      ensures Valid() && Contents == [] && Nodes == []
    {
      head, tail, size := null, null, 0;
      Nodes, Contents := [], [];
    }

    /**
     * `indexOf(element)`: the first position holding an equal element, or
     * -1. The walk calls `equals` on each stored element, so it throws
     * `NullPointerException` on reaching a stored `null` first.
     */
    method IndexOf(element: Option<T>) returns (r: Result<int>)
      requires Valid()
      ensures r.Ok? ==> -1 <= r.value < |Contents|
      ensures r.Ok? && r.value >= 0 ==> Contents[r.value].Some? && Contents[r.value] == element
      ensures r.Ok? ==> NoMatchBefore(Contents, element, if r.value < 0 then |Contents| else r.value)
      ensures r.Err? ==> r.error == NullPointer
      ensures r.Err? ==> exists i :: 0 <= i < |Contents| && Contents[i] == None && NoMatchBefore(Contents, element, i)
      ensures None !in Contents ==> r.Ok?
    {
      var current := head;
      for i := 0 to size
        invariant NoMatchBefore(Contents, element, i)
        invariant current == (if i < |Nodes| then Nodes[i] else null)
      {
        if current.data == None {
          return Err(NullPointer);
        }
        if current.data == element {
          return Ok(i);
        }
        current := current.next;
      }
      return Ok(-1);
    }

    /** `contains(element)`: whether `indexOf` finds the element (and its `NullPointerException` if it throws). */
    method Contains(element: Option<T>) returns (r: Result<bool>)
      requires Valid()
      ensures r.Ok? ==> (r.value <==> element in Contents)
      ensures r.Err? ==> r.error == NullPointer && None in Contents
      ensures None !in Contents ==> r == Ok(element in Contents)
    {
      var found := IndexOf(element);
      if found.Err? {
        return Err(found.error);
      }
      return Ok(found.value != -1);
    }

    /**
     * The loop of `reverse`: every node's link is turned to its predecessor.
     * Returns the old last node (the new first one) and the cursor the loop
     * ends with, which is always null.
     */
    method ReverseLinks() returns (previous: Node?<T>, current: Node?<T>)
      requires Valid()
      modifies Nodes
      ensures current == null && previous == (if Nodes == [] then null else Nodes[|Nodes| - 1])
      ensures Nodes != [] ==> Nodes[0].next == null
      ensures forall j :: 0 < j < |Nodes| ==> Nodes[j].next == Nodes[j - 1]
      ensures Distinct(Nodes) && Hold(Nodes, Contents)
    {
      current, previous := head, null;
      ghost var i := 0;
      while current != null
        invariant 0 <= i <= |Nodes| && Distinct(Nodes) && Hold(Nodes, Contents)
        invariant i < |Nodes| ==> current == Nodes[i] && Nodes[|Nodes| - 1].next == null
        invariant i == |Nodes| ==> current == null
        invariant previous == (if i == 0 then null else Nodes[i - 1])
        invariant i > 0 ==> Nodes[0].next == null
        invariant forall j :: 0 < j < i ==> Nodes[j].next == Nodes[j - 1]
        invariant forall j :: i <= j < |Nodes| - 1 ==> Nodes[j].next == Nodes[j + 1]
        decreases |Nodes| - i
      {
        var next := current.next;
        current.next := previous;
        previous := current;
        current := next;
        i := i + 1;
      }
    }

    /** Once the fields name the reversal of a chain whose links all point backwards, the list is linked. */
    lemma LinkedReversed(ns: seq<Node<T>>, cs: seq<Option<T>>)
      requires Nodes == Reversed(ns) && Contents == Reversed(cs) && size == |ns|
      requires head == (if ns == [] then null else ns[|ns| - 1])
      requires Distinct(ns) && Hold(ns, cs) && (ns != [] ==> ns[0].next == null)
      requires forall j :: 0 < j < |ns| ==> ns[j].next == ns[j - 1]
      ensures Linked()
    {
      ReversedChain(ns, cs);
    }

    /**
     * `reverse()` as the source writes it: the links are reversed and `head`
     * is the old last node, but `tail` is set to the loop's final cursor,
     * which is null, so a non-empty list is left without its tail.
     */
    method ReverseAsWritten()
      requires Valid()
      modifies this, Nodes
      ensures Linked() && Contents == Reversed(old(Contents)) && Nodes == Reversed(old(Nodes))
      ensures tail == null
      ensures old(Contents) != [] ==> !Valid()
    {
      ghost var ns, cs := Nodes, Contents;
      var previous, current := ReverseLinks();
      head := previous;
      tail := current;
      Nodes, Contents := Reversed(ns), Reversed(cs);
      LinkedReversed(ns, cs);
      assert |Nodes| == |cs| && (cs != [] ==> tail != Nodes[|Nodes| - 1]);
    }

    /** `reverse()` with its tail kept: the old head, now the last node, becomes the tail. */
    method Reverse()
      requires Valid()
      modifies this, Nodes
      ensures Valid() && Contents == Reversed(old(Contents)) && Nodes == Reversed(old(Nodes))
    {
      ghost var ns, cs := Nodes, Contents;
      var oldHead := head;
      var previous, current := ReverseLinks();
      head := previous;
      tail := oldHead;
      Nodes, Contents := Reversed(ns), Reversed(cs);
      LinkedReversed(ns, cs);
    }
  }

  /**
   * The consequence of the source's `reverse`: a list holding one element,
   * reversed, answers `getLast()` with `NoSuchElementException`.
   */
  method ReverseLosesTail<T(==)>(x: Option<T>) returns (list: LinkedList<T>, r: Result<Option<T>>)
    ensures list.Linked() && list.Contents == [x]
    ensures r == Err(NoSuchElement)
  {
    list := new LinkedList();
    list.AddLast(x);
    assert list.Nodes[0] in list.Nodes;
    list.ReverseAsWritten();
    r := list.GetLast();
  }

  /** The iterator of a `LinkedList`: a cursor on the node whose element comes next. */
  class LinkedListIterator<T(==)> {
    const list: LinkedList<T>
    var current: Node?<T>
    /** How many elements have been yielded. */
    ghost var position: nat

    ghost predicate Valid()
      reads this, list, list.Nodes
    {
      && list.Linked()
      && position <= |list.Nodes|
      && current == (if position < |list.Nodes| then list.Nodes[position] else null)
    }

    constructor (list: LinkedList<T>)
      requires list.Linked()
      ensures Valid() && this.list == list && position == 0
    {
      this.list := list;
      current := list.head;
      position := 0;
    }

    /** `hasNext()`: the cursor is on a node. */
    function HasNext(): (b: bool)
      reads this, list, list.Nodes
      requires Valid()
      ensures b <==> position < |list.Contents|
    {
      current != null
    }

    /** `next()`, called only while `hasNext()` holds: the cursor's element; the cursor moves on. */
    method Next() returns (e: Option<T>)
      requires Valid() && HasNext()
      modifies this
      ensures Valid() && e == list.Contents[old(position)] && position == old(position) + 1
    {
      e := current.data;
      current := current.next;
      position := position + 1;
    }
  }
}
