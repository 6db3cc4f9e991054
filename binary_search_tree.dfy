/**
 * The linked binary search tree: nodes with `left` and `right` links, the
 * recursive insert, lookup and remove that rewire them, the leftmost-node
 * search, and the in-order iterator over an explicit stack of nodes. Each
 * node carries the value tree it is the root of (`Tree`) and the nodes
 * below it (`Repr`); the value-level meaning is in module `SearchTrees`.
 */
module BinarySearchTrees {
  import opened Common
  import opened SearchTrees

  /** A tree node; its element is never null, since `insert` refuses null. */
  class Node<T> {
    var left: Node?<T>
    var right: Node?<T>
    var data: T
    /** The tree this node is the root of. */
    ghost var Tree: Tree<T>
    /** This node and every node below it. */
    ghost var Repr: set<object>

    /** The subtrees are separate, own their nodes, and `Tree` is read off the links. */
    ghost predicate Valid()
      reads this, Repr
      decreases Repr
    {
      && this in Repr
      && (left != null ==>
            left in Repr && left.Repr <= Repr && this !in left.Repr && left.Valid())
      && (right != null ==>
            right in Repr && right.Repr <= Repr && this !in right.Repr && right.Valid())
      && (left != null && right != null ==> left.Repr !! right.Repr)
      && Tree == Branch(TreeOf(left), data, TreeOf(right))
    }

    /** `new Node<>(data)`: a leaf. */
    constructor (data: T)
      ensures Valid() && Tree == Branch(Empty, data, Empty) && Repr == {this}
      ensures this.data == data && left == null && right == null
    {
      this.data := data;
      left, right := null, null;
      Tree := Branch(Empty, data, Empty);
      Repr := {this};
    }
  }

  /** The tree below a possibly-null link. */
  ghost function TreeOf<T>(n: Node?<T>): Tree<T>
    reads n
  {
    if n == null then Empty else n.Tree
  }

  /** The nodes below a possibly-null link. */
  ghost function ReprOf<T>(n: Node?<T>): set<object>
    reads n
  {
    if n == null then {} else n.Repr
  }

  /**
   * `BinarySearchTree<T extends Comparable<T>>`. `cmp` is the element
   * type's `compareTo`. The `size` field is kept exactly as the class keeps
   * it: only the constructor and `clear` write it.
   */
  class BinarySearchTree<T(!new)> {
    var root: Node?<T>
    var size: int
    const cmp: (T, T) -> int
    /** This object and every node of the tree. */
    ghost var Repr: set<object>

    ghost predicate Valid()
      reads this, Repr
    {
      && this in Repr
      && (root != null ==> root in Repr && root.Repr <= Repr && this !in root.Repr && root.Valid())
      && TotalOrder(cmp)
      && Ordered(TreeOf(root), cmp)
    }

    /** The tree the nodes describe. */
    ghost function Shape(): Tree<T>
      reads this, root
    {
      TreeOf(root)
    }

    /** The elements stored. */
    ghost function Contents(): set<T>
      reads this, root
    {
      Elements(TreeOf(root))
    }

    /** `size` counts the elements: what the `size` field is meant to hold. */
    ghost predicate Counted()
      reads this, root
    {
      size == |Contents()|
    }

    /** `new BinarySearchTree()`: the empty tree. */
    constructor (cmp: (T, T) -> int)
      requires TotalOrder(cmp)
      ensures Valid() && fresh(Repr) && this.cmp == cmp
      ensures Contents() == {} && size == 0 && Counted()
    {
      root, size := null, 0;
      this.cmp := cmp;
      Repr := {this};
    }

    /**
     * `insertRecursive(current, element)`: a new leaf in place of the null
     * link the search ends at; an equal element stops the search and changes
     * nothing. The subtree's root is returned.
     */
    method InsertRecursive(current: Node?<T>, element: T) returns (n: Node<T>)
      requires current != null ==> current.Valid()
      modifies ReprOf(current)
      ensures n.Valid()
      ensures n.Tree == InsertTree(old(TreeOf(current)), element, cmp)
      ensures current == null ==> fresh(n.Repr)
      ensures current != null ==> n == current && fresh(n.Repr - old(current.Repr))
      decreases ReprOf(current), 1
    {
      if current == null {
        n := new Node(element);
        return;
      }
      var c := cmp(element, current.data);
      if c < 0 {
        InsertLeft(current, element);
      } else if c > 0 {
        InsertRight(current, element);
      }
      n := current;
    }

    /** The `compareTo < 0` step of `insertRecursive`: the element goes into the left subtree. */
    method InsertLeft(current: Node<T>, element: T)
      requires current.Valid() && cmp(element, current.data) < 0
      modifies current.Repr
      decreases current.Repr, 0
      ensures current.Valid() && fresh(current.Repr - old(current.Repr))
      ensures current.Tree == InsertTree(old(current.Tree), element, cmp)
    {
      var l := InsertRecursive(current.left, element);
      current.left := l;
      current.Repr := current.Repr + l.Repr;
      current.Tree := Branch(l.Tree, current.data, TreeOf(current.right));
    }

    /** The `compareTo > 0` step of `insertRecursive`: the element goes into the right subtree. */
    method InsertRight(current: Node<T>, element: T)
      requires current.Valid() && cmp(element, current.data) > 0
      modifies current.Repr
      decreases current.Repr, 0
      ensures current.Valid() && fresh(current.Repr - old(current.Repr))
      ensures current.Tree == InsertTree(old(current.Tree), element, cmp)
    {
      var r := InsertRecursive(current.right, element);
      current.right := r;
      current.Repr := current.Repr + r.Repr;
      current.Tree := Branch(TreeOf(current.left), current.data, r.Tree);
    }

    /**
     * `insert(element)`: a null element is refused with
     * `IllegalArgumentException`; otherwise the element is added to the set
     * of elements, which stays ordered. `size` is not touched.
     */
    method Insert(element: Option<T>) returns (r: Result<()>)
      requires Valid()
      modifies Repr
      ensures Valid() && fresh(Repr - old(Repr)) && size == old(size)
      ensures element.None? ==>
        r == Err(IllegalArgument) && root == old(root) && Shape() == old(Shape())
      ensures element.Some? ==>
        && r == Ok(())
        && Shape() == InsertTree(old(Shape()), element.value, cmp)
        && Contents() == old(Contents()) + {element.value}
      ensures element.Some? && element.value in old(Contents()) ==> Shape() == old(Shape())
    {
      if element.None? {
        return Err(IllegalArgument);
      }
      ghost var t := TreeOf(root);
      root := InsertRecursive(root, element.value);
      Repr := Repr + root.Repr;
      InsertOrdered(t, element.value, cmp);
      if element.value in Elements(t) {
        InsertPresent(t, element.value, cmp);
      }
      r := Ok(());
    }

    /**
     * `containsRecursive(current, element)`: follows `cmp` down from
     * `current`; in an ordered subtree it answers whether the element is there.
     */
    function ContainsRecursive(current: Node?<T>, element: T): (b: bool)
      reads if current == null then {} else {current} + current.Repr
      requires current != null ==> current.Valid()
      decreases ReprOf(current)
      ensures EqualityConsistent(cmp) && Ordered(TreeOf(current), cmp) ==>
        (b <==> element in Elements(TreeOf(current)))
    {
      if current == null then false
      else
        var c := cmp(element, current.data);
        if c < 0 then ContainsRecursive(current.left, element)
        else if c > 0 then ContainsRecursive(current.right, element)
        else true
    }

    /**
     * `contains(element)`: whether the element is stored. An empty tree
     * answers false even for null; a null element in a non-empty tree throws
     * `NullPointerException` at its `compareTo`.
     */
    function Contains(element: Option<T>): (r: Result<bool>)
      reads this, Repr
      requires Valid()
      ensures Contents() == {} ==> r == Ok(false)
      ensures Contents() != {} && element.None? ==> r == Err(NullPointer)
      ensures element.Some? ==> r == Ok(element.value in Contents())
    {
      if root == null then Ok(false)
      else if element.None? then Err(NullPointer)
      else Ok(ContainsRecursive(root, element.value))
    }

    /**
     * `removeRecursive(current, element)`: an element with at most one
     * subtree is replaced by that subtree; one with two takes over the least
     * element of its right subtree, which is then removed from there. The
     * subtree's new root is returned; no node is added.
     */
    method RemoveRecursive(current: Node?<T>, element: T) returns (n: Node?<T>)
      requires current != null ==> current.Valid()
      modifies ReprOf(current)
      decreases ReprOf(current), 1
      ensures n != null ==> n.Valid() && n.Repr <= old(ReprOf(current))
      ensures TreeOf(n) == RemoveTree(old(TreeOf(current)), element, cmp)
    {
      if current == null {
        return null;
      }
      var c := cmp(element, current.data);
      if c < 0 {
        RemoveLeft(current, element);
      } else if c > 0 {
        RemoveRight(current, element);
      } else if current.left == null {
        return current.right;
      } else if current.right == null {
        return current.left;
      } else {
        ReplaceByMin(current, element);
      }
      n := current;
    }

    /** The `compareTo < 0` step of `removeRecursive`: the element is removed from the left subtree. */
    method RemoveLeft(current: Node<T>, element: T)
      requires current.Valid() && cmp(element, current.data) < 0
      modifies current.Repr
      decreases current.Repr, 0
      ensures current.Valid() && current.Repr == old(current.Repr)
      ensures current.Tree == RemoveTree(old(current.Tree), element, cmp)
    {
      var l := RemoveRecursive(current.left, element);
      current.left := l;
      current.Tree := Branch(TreeOf(l), current.data, TreeOf(current.right));
    }

    /** The `compareTo > 0` step of `removeRecursive`: the element is removed from the right subtree. */
    method RemoveRight(current: Node<T>, element: T)
      requires current.Valid() && cmp(element, current.data) > 0
      modifies current.Repr
      decreases current.Repr, 0
      ensures current.Valid() && current.Repr == old(current.Repr)
      ensures current.Tree == RemoveTree(old(current.Tree), element, cmp)
    {
      var r := RemoveRecursive(current.right, element);
      current.right := r;
      current.Tree := Branch(TreeOf(current.left), current.data, TreeOf(r));
    }

    /**
     * The two-children case of `removeRecursive`: the node takes the least
     * element of its right subtree, which is then removed from there.
     */
    method ReplaceByMin(current: Node<T>, element: T)
      requires current.Valid() && cmp(element, current.data) == 0
      requires current.left != null && current.right != null
      modifies current.Repr
      decreases current.Repr, 0
      ensures current.Valid() && current.Repr == old(current.Repr)
      ensures current.Tree == RemoveTree(old(current.Tree), element, cmp)
    {
      current.data := FindMin(current.right);
      var r := RemoveRecursive(current.right, current.data);
      current.right := r;
      current.Tree := Branch(TreeOf(current.left), current.data, TreeOf(r));
    }

    /**
     * `remove(element)`: the element is taken out of the set of elements,
     * which stays ordered. An empty tree stays empty whatever the element;
     * a null element in a non-empty tree throws `NullPointerException`.
     * `size` is not touched.
     */
    method Remove(element: Option<T>) returns (r: Result<()>)
      requires Valid()
      modifies Repr
      ensures Valid() && Repr <= old(Repr) && size == old(size)
      ensures old(Contents()) == {} ==> r == Ok(()) && Contents() == {}
      ensures old(Contents()) != {} && element.None? ==>
        r == Err(NullPointer) && root == old(root) && Shape() == old(Shape())
      ensures element.Some? ==>
        && r == Ok(())
        && Shape() == RemoveTree(old(Shape()), element.value, cmp)
        && Contents() == old(Contents()) - {element.value}
      ensures element.Some? && element.value !in old(Contents()) ==> Shape() == old(Shape())
    {
      if root == null {
        return Ok(());
      }
      if element.None? {
        return Err(NullPointer);
      }
      ghost var t := TreeOf(root);
      root := RemoveRecursive(root, element.value);
      RemoveOrdered(t, element.value, cmp);
      RemoveElements(t, element.value, cmp);
      if element.value !in Elements(t) {
        RemoveAbsent(t, element.value, cmp);
      }
      r := Ok(());
    }

    /** `findMin(current)`: walks left links to the leftmost node. */
    method FindMin(current: Node<T>) returns (m: T)
      requires current.Valid()
      ensures m == MinOf(current.Tree)
    {
      var n: Node<T> := current;
      while n.left != null
        invariant n.Valid() && MinOf(n.Tree) == MinOf(current.Tree)
        decreases n.Repr
      {
        n := n.left;
      }
      m := n.data;
    }

    /** `findMinRecursive(current)`: the leftmost element, found by recursion. */
    function FindMinRecursive(current: Node<T>): (m: T)
      reads current.Repr
      requires current.Valid()
      decreases current.Repr
      ensures m == MinOf(current.Tree)
    {
      if current.left == null then current.data else FindMinRecursive(current.left)
    }

    /**
     * `findMin()`: the least element, which compares below every other one;
     * `NullPointerException` on the empty tree.
     */
    function FindMinimum(): (r: Result<T>)
      reads this, Repr
      requires Valid()
      ensures Contents() == {} ==> r == Err(NullPointer)
      ensures Contents() != {} ==>
        && r.Ok? && r.value in Contents()
        && forall y :: y in Contents() && y != r.value ==> cmp(r.value, y) < 0
    {
      if root == null then Err(NullPointer)
      else
        MinOfLeast(root.Tree, cmp);
        Ok(FindMinRecursive(root))
    }

    /** `size()`: the `size` field; it counts the elements only while `Counted()` holds. */
    function Size(): (n: int)
      reads this, root
      ensures n == size
      ensures Counted() ==> n == |Contents()|
    {
      size
    }

    /** `isEmpty()`: `size` is 0; that means no elements only while `Counted()` holds. */
    function IsEmpty(): (e: bool)
      reads this, root
      ensures e <==> size == 0
      ensures Counted() ==> (e <==> Contents() == {})
    {
      size == 0
    }

    /** `clear()`: drop every node. */
    method Clear()
      requires Valid()
      modifies this
      ensures Valid() && Repr == old(Repr) && Contents() == {} && size == 0 && Counted()
    {
      root, size := null, 0;
    }

    /** `insert` followed by the count update it leaves out: `size` then counts the elements. */
    method InsertCounted(element: Option<T>) returns (r: Result<()>)
      requires Valid() && Counted()
      modifies Repr
      ensures Valid() && Counted() && fresh(Repr - old(Repr))
      ensures element.None? ==> r == Err(IllegalArgument) && Shape() == old(Shape())
      ensures element.Some? ==> r == Ok(()) && Contents() == old(Contents()) + {element.value}
    {
      if element.None? {
        return Err(IllegalArgument);
      }
      var had := ContainsRecursive(root, element.value);
      CardinalityAdded(Contents(), element.value);
      if !had {
        SetSize(size + 1);
      }
      r := Insert(element);
    }

    /** `remove` followed by the count update it leaves out: `size` then counts the elements. */
    method RemoveCounted(element: Option<T>) returns (r: Result<()>)
      requires Valid() && Counted()
      modifies Repr
      ensures Valid() && Counted() && Repr <= old(Repr)
      ensures old(Contents()) != {} && element.None? ==> r == Err(NullPointer) && Shape() == old(Shape())
      ensures element.Some? ==> r == Ok(()) && Contents() == old(Contents()) - {element.value}
    {
      if root == null || element.None? {
        r := Remove(element);
        return;
      }
      var had := ContainsRecursive(root, element.value);
      CardinalityRemoved(Contents(), element.value);
      if had {
        SetSize(size - 1);
      }
      r := Remove(element);
    }

    /** Writes the count; the nodes, and so the invariant, are left as they were. */
    method SetSize(n: int)
      requires Valid()
      modifies this
      ensures Valid() && size == n && root == old(root) && Repr == old(Repr)
    {
      size := n;
    }
  }

  /** Adding an element grows a set by one exactly when it was not there. */
  lemma CardinalityAdded<T>(s: set<T>, x: T)
    ensures |s + {x}| == if x in s then |s| else |s| + 1
  {
    if x in s {
      assert s + {x} == s;
    }
  }

  /** Taking an element away shrinks a set by one exactly when it was there. */
  lemma CardinalityRemoved<T>(s: set<T>, x: T)
    ensures |s - {x}| == if x in s then |s| - 1 else |s|
  {
    if x in s {
      assert s == (s - {x}) + {x};
    } else {
      assert s - {x} == s;
    }
  }

  /**
   * `insert` then `size()` on a new tree: the element is stored, but
   * `size()` still answers 0 and `isEmpty()` true.
   */
  method SizeAfterInsert<T(!new)>(cmp: (T, T) -> int, x: T) returns (n: int, e: bool)
    requires TotalOrder(cmp)
    ensures n == 0 && e
  {
    var t := new BinarySearchTree(cmp);
    var r := t.Insert(Some(x));
    assert t.Contents() == {x};
    n := t.Size();
    e := t.IsEmpty();
  }

  /** The counted insert on a new tree: `size()` answers 1 and `isEmpty()` false. */
  method CountedSizeAfterInsert<T(!new)>(cmp: (T, T) -> int, x: T) returns (n: int, e: bool)
    requires TotalOrder(cmp)
    ensures n == 1 && !e
  {
    var t := new BinarySearchTree(cmp);
    var r := t.InsertCounted(Some(x));
    n := t.Size();
    e := t.IsEmpty();
  }

  /**
   * What a stack of subtrees still has to yield: from the top of the stack
   * (the end of the sequence) down, each subtree's root element and then its
   * right subtree in order.
   */
  ghost function Pending<T>(ts: seq<Tree<T>>): seq<T>
  {
    if ts == [] then []
    else
      match ts[|ts| - 1]
      case Empty => Pending(ts[..|ts| - 1])
      case Branch(_, d, r) => [d] + InOrder(r) + Pending(ts[..|ts| - 1])
  }

  /**
   * Pushing a subtree leaves its left subtree to be walked before the rest:
   * its whole in-order walk then comes before what was pending.
   */
  lemma PendingStep<T>(ts: seq<Tree<T>>, t: Tree<T>)
    requires t.Branch?
    ensures InOrder(t.left) + Pending(ts + [t]) == InOrder(t) + Pending(ts)
  {
    assert (ts + [t])[..|ts|] == ts;
  }

  /** The stacked nodes are valid nodes inside `repr` and describe the subtrees `ts`. */
  ghost predicate Stacked<T>(stack: seq<Node<T>>, ts: seq<Tree<T>>, repr: set<object>)
    reads repr
  {
    && |stack| == |ts|
    && forall i :: 0 <= i < |stack| ==>
         stack[i] in repr && stack[i].Repr <= repr && stack[i].Valid() && stack[i].Tree == ts[i]
  }

  /** The left child of a valid node inside `repr` is a valid node inside `repr`, with a smaller footprint. */
  lemma LeftInside<T>(n: Node<T>, repr: set<object>)
    requires n.Valid() && n.Repr <= repr
    ensures n.left != null ==> n.left in repr && n.left.Repr <= repr && n.left.Valid()
    ensures ReprOf(n.left) < n.Repr
  {
  }

  /** A valid node inside `repr` can be pushed. */
  lemma StackedPush<T>(stack: seq<Node<T>>, ts: seq<Tree<T>>, repr: set<object>, n: Node<T>)
    requires Stacked(stack, ts, repr)
    requires n in repr && n.Repr <= repr && n.Valid()
    ensures Stacked(stack + [n], ts + [n.Tree], repr)
  {
    var stack', ts' := stack + [n], ts + [n.Tree];
    forall i | 0 <= i < |stack'|
      ensures stack'[i] in repr && stack'[i].Repr <= repr && stack'[i].Valid() && stack'[i].Tree == ts'[i]
    {
      if i < |stack| {
        assert stack'[i] == stack[i] && ts'[i] == ts[i];
      }
    }
  }

  /** The top node can be popped. */
  lemma StackedPop<T>(stack: seq<Node<T>>, ts: seq<Tree<T>>, repr: set<object>)
    requires Stacked(stack, ts, repr) && stack != []
    ensures Stacked(stack[..|stack| - 1], ts[..|ts| - 1], repr)
  {
    var k := |stack| - 1;
    forall i | 0 <= i < k
      ensures stack[..k][i] in repr && stack[..k][i].Repr <= repr && stack[..k][i].Valid()
      ensures stack[..k][i].Tree == ts[..k][i]
    {
      assert stack[..k][i] == stack[i] && ts[..k][i] == ts[i];
    }
  }

  /**
   * The iterator of a `BinarySearchTree`: a stack of nodes whose left
   * subtrees have been pushed, so that popping yields the elements in order.
   */
  class BinarySearchTreeIterator<T(!new)> {
    const tree: BinarySearchTree<T>
    /** The `java.util.Stack` of nodes; its top is the last node. */
    var stack: seq<Node<T>>
    /** The subtrees the stacked nodes are roots of. */
    ghost var Trees: seq<Tree<T>>

    /** Every stacked node is a valid node of the tree. */
    ghost predicate Valid()
      reads this, tree, tree.Repr
    {
      this !in tree.Repr && Stacked(stack, Trees, tree.Repr)
    }

    /** The elements still to be yielded, in order. */
    ghost function Remaining(): seq<T>
      reads this
    {
      Pending(Trees)
    }

    /** `iterator()`: the left spine of the root pushed; everything is still to come, ascending. */
    constructor (tree: BinarySearchTree<T>)
      requires tree.Valid()
      ensures Valid() && this.tree == tree
      ensures Remaining() == InOrder(tree.Shape())
      ensures Ascending(Remaining(), tree.cmp)
      ensures forall i, j :: 0 <= i < j < |Remaining()| ==> Remaining()[i] != Remaining()[j]
      ensures forall x :: x in Remaining() <==> x in tree.Contents()
    {
      this.tree := tree;
      stack, Trees := [], [];
      new;
      PushLeft(tree.root);
      InOrderAscending(tree.Shape(), tree.cmp);
      InOrderElements(tree.Shape());
    }

    /** `pushLeft(node)`: push `node` and the nodes down its left links. */
    method PushLeft(node: Node?<T>)
      requires Valid()
      requires node != null ==> node in tree.Repr && node.Repr <= tree.Repr && node.Valid()
      modifies this
      ensures Valid() && Remaining() == InOrder(TreeOf(node)) + old(Remaining())
    {
      var n := node;
      ghost var goal := InOrder(TreeOf(node)) + Pending(Trees);
      while n != null
        invariant Valid()
        invariant n != null ==> n in tree.Repr && n.Repr <= tree.Repr && n.Valid()
        invariant InOrder(TreeOf(n)) + Pending(Trees) == goal
        decreases ReprOf(n)
      {
        var top: Node<T> := n;
        StackedPush(stack, Trees, tree.Repr, top);
        PendingStep(Trees, top.Tree);
        LeftInside(top, tree.Repr);
        stack, Trees := stack + [top], Trees + [top.Tree];
        n := top.left;
      }
    }

    /** `hasNext()`: the stack is not empty. */
    function HasNext(): (b: bool)
      reads this, tree, tree.Repr
      requires Valid()
      ensures b <==> Remaining() != []
    {
      |stack| > 0
    }

    /**
     * `next()`: the next element in order; the right subtree of the popped
     * node is pushed. Once everything is yielded, `pop` on the empty stack
     * throws `EmptyStackException`.
     */
    method Next() returns (r: Result<T>)
      requires Valid()
      modifies this
      ensures Valid()
      ensures old(Remaining()) == [] ==> r == Err(EmptyStack) && unchanged(this)
      ensures old(Remaining()) != [] ==>
        r == Ok(old(Remaining())[0]) && Remaining() == old(Remaining())[1..]
    {
      if |stack| == 0 {
        return Err(EmptyStack);
      }
      var node := stack[|stack| - 1];
      assert node.Tree == Trees[|Trees| - 1];
      StackedPop(stack, Trees, tree.Repr);
      stack, Trees := stack[..|stack| - 1], Trees[..|Trees| - 1];
      if node.right != null {
        PushLeft(node.right);
      }
      r := Ok(node.data);
    }
  }
}
