/**
 * A linked stack: `top` is the most recently pushed node and each node links
 * to the one pushed before it. Elements are nullable (`None` is a stored
 * `null`).
 */
module Stacks {
  import opened Common
  import opened SinglyLinked

  class Stack<T(==)> {
    var top: Node?<T>
    var size: nat
    /** The nodes, top first. */
    ghost var Nodes: seq<Node<T>>
    /** The elements, top first. */
    ghost var Contents: seq<Option<T>>

    /** `top` starts the chain of `Nodes`, which hold `Contents`, and `size` counts them. */
    ghost predicate Valid()
      reads this, Nodes
    {
      && size == |Nodes|
      && top == (if Nodes == [] then null else Nodes[0])
      && Chain(Nodes) && Distinct(Nodes) && Hold(Nodes, Contents)
    }

    /** `new Stack()`: the empty stack. */
    constructor ()
      ensures Valid() && Contents == [] && Nodes == []
    {
      top, size := null, 0;
      Nodes, Contents := [], [];
    }

    /** `push(element)`: a new node on top; the nodes below are left as they were. */
    method Push(element: Option<T>)
      requires Valid()
      modifies this
      ensures Valid() && Contents == [element] + old(Contents)
      ensures |Nodes| == |old(Nodes)| + 1 && fresh(Nodes[0]) && Nodes[1..] == old(Nodes)
    {
      var node := new Node(element);
      node.next := top;
      top := node;
      size := size + 1;
      Nodes, Contents := [node] + Nodes, [element] + Contents;
      assert forall i :: 1 <= i < |Nodes| ==> Nodes[i] == old(Nodes)[i - 1];
    }

    /** `pop()`: the top element, removed; `EmptyStackException` on the empty stack. */
    method Pop() returns (r: Result<Option<T>>)
      requires Valid()
      modifies this
      ensures Valid()
      ensures old(Contents) == [] ==> r == Err(EmptyStack) && unchanged(this)
      ensures old(Contents) != [] ==>
        r == Ok(old(Contents)[0]) && Contents == old(Contents)[1..] && Nodes == old(Nodes)[1..]
    {
      if IsEmpty() {
        return Err(EmptyStack);
      }
      var removedData := top.data;
      top := top.next;
      size := size - 1;
      Nodes, Contents := Nodes[1..], Contents[1..];
      r := Ok(removedData);
    }

    /** `top()`: the top element, left in place; `EmptyStackException` on the empty stack. */
    function Top(): (r: Result<Option<T>>)
      reads this, Nodes
      requires Valid()
      ensures Contents == [] ==> r == Err(EmptyStack)
      ensures Contents != [] ==> r == Ok(Contents[0])
    {
      if IsEmpty() then Err(EmptyStack) else Ok(top.data)
    }

    /** `isEmpty()`: there are no elements. */
    function IsEmpty(): (e: bool)
      reads this, Nodes
      requires Valid()
      ensures e <==> Contents == []
    {
      size == 0
    }

    /** `size()`: the number of elements. */
    function Size(): (n: nat)
      reads this, Nodes
      requires Valid()
      ensures n == |Contents|
    {
      size
    }

    /** `clear()`: drop every node. */
    method Clear()
      modifies this
      ensures Valid() && Contents == [] && Nodes == []
    {
      top, size := null, 0;
      Nodes, Contents := [], [];
    }

    /**
     * `search(element)`: the 1-based position, counted from the top, of the
     * first element equal to `element` (two nulls are equal), or -1 when
     * there is none.
     */
    method Search(element: Option<T>) returns (position: int)
      requires Valid()
      ensures position == -1 <==> element !in Contents
      ensures position != -1 ==>
        && 1 <= position <= |Contents|
        && Contents[position - 1] == element
        && element !in Contents[..position - 1]
    {
      var current := top;
      position := 1;
      while current != null
        invariant 1 <= position <= |Nodes| + 1
        invariant current == (if position <= |Nodes| then Nodes[position - 1] else null)
        invariant element !in Contents[..position - 1]
        decreases |Nodes| + 1 - position
      {
        if (element == None && current.data == None) || (element.Some? && element == current.data) {
          return position;
        }
        assert Contents[..position] == Contents[..position - 1] + [Contents[position - 1]];
        current := current.next;
        position := position + 1;
      }
      assert Contents[..position - 1] == Contents;
      return -1;
    }

    /** `contains(element)`: `search` finds the element. */
    method Contains(element: Option<T>) returns (b: bool)
      requires Valid()
      ensures b <==> element in Contents
    {
      var position := Search(element);
      b := position != -1;
    }
  }

  /** Pushing and then popping gives back the pushed element and the stack as it was. */
  method PushThenPop<T(==)>(s: Stack<T>, x: Option<T>) returns (r: Result<Option<T>>)
    requires s.Valid()
    modifies s
    ensures s.Valid() && r == Ok(x)
    ensures s.Contents == old(s.Contents) && s.Nodes == old(s.Nodes)
  {
    s.Push(x);
    r := s.Pop();
  }

  /** The iterator of a `Stack`: a cursor running from the top node down. */
  class StackIterator<T(==)> {
    const stack: Stack<T>
    var current: Node?<T>
    /** How many elements have been yielded. */
    ghost var position: nat

    ghost predicate Valid()
      reads this, stack, stack.Nodes
    {
      && stack.Valid()
      && position <= |stack.Nodes|
      && current == (if position < |stack.Nodes| then stack.Nodes[position] else null)
    }

    constructor (stack: Stack<T>)
      requires stack.Valid()
      ensures Valid() && this.stack == stack && position == 0
    {
      this.stack := stack;
      current := stack.top;
      position := 0;
    }

    /** `hasNext()`: the cursor is on a node. */
    function HasNext(): (b: bool)
      reads this, stack, stack.Nodes
      requires Valid()
      ensures b <==> position < |stack.Contents|
    {
      current != null
    }

    /**
     * `next()`: the elements top to bottom, one per call;
     * `NoSuchElementException` once they are all yielded.
     */
    method Next() returns (r: Result<Option<T>>)
      requires Valid()
      modifies this
      ensures Valid()
      ensures old(position) == |stack.Contents| ==> r == Err(NoSuchElement) && unchanged(this)
      ensures old(position) < |stack.Contents| ==>
        r == Ok(stack.Contents[old(position)]) && position == old(position) + 1
    {
      if !HasNext() {
        return Err(NoSuchElement);
      }
      var data := current.data;
      current := current.next;
      position := position + 1;
      r := Ok(data);
    }
  }
}
