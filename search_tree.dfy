/**
 * Binary search trees as values: the shape a tree of nodes describes, the
 * ordering it keeps, and what inserting, removing and walking in order do
 * to it. The element type's `compareTo` is the parameter `cmp`.
 */
module SearchTrees {

  datatype Tree<T> = Empty | Branch(left: Tree<T>, data: T, right: Tree<T>)

  /** `cmp` answers 0 exactly for equal elements: `compareTo` is consistent with `equals`. */
  ghost predicate EqualityConsistent<T(!new)>(cmp: (T, T) -> int)
  {
    forall a, b :: cmp(a, b) == 0 <==> a == b
  }

  /** Swapping the operands of `cmp` swaps the sign of its answer. */
  ghost predicate Antisymmetric<T(!new)>(cmp: (T, T) -> int)
  {
    forall a, b :: cmp(a, b) < 0 <==> cmp(b, a) > 0
  }

  /** "Compares below" is transitive. */
  ghost predicate Transitive<T(!new)>(cmp: (T, T) -> int)
  {
    forall a, b, c :: cmp(a, b) < 0 && cmp(b, c) < 0 ==> cmp(a, c) < 0
  }

  /** `cmp` is a `compareTo` that orders the elements totally and agrees with equality. */
  ghost predicate TotalOrder<T(!new)>(cmp: (T, T) -> int)
  {
    EqualityConsistent(cmp) && Antisymmetric(cmp) && Transitive(cmp)
  }

  /** The elements of a tree. */
  ghost function Elements<T>(t: Tree<T>): set<T>
  {
    match t
    case Empty => {}
    case Branch(l, d, r) => Elements(l) + {d} + Elements(r)
  }

  /** Every element of a left subtree compares below its node, every element of a right subtree above. */
  ghost predicate Ordered<T>(t: Tree<T>, cmp: (T, T) -> int)
  {
    match t
    case Empty => true
    case Branch(l, d, r) =>
      && Ordered(l, cmp) && Ordered(r, cmp)
      && (forall y :: y in Elements(l) ==> cmp(y, d) < 0)
      && (forall y :: y in Elements(r) ==> cmp(y, d) > 0)
  }

  /** The elements left to right: the order of an in-order walk. */
  ghost function InOrder<T>(t: Tree<T>): seq<T>
  {
    match t
    case Empty => []
    case Branch(l, d, r) => InOrder(l) + [d] + InOrder(r)
  }

  /** Each element compares below every later one. */
  ghost predicate Ascending<T>(s: seq<T>, cmp: (T, T) -> int)
  {
    forall i, j :: 0 <= i < j < |s| ==> cmp(s[i], s[j]) < 0
  }

  /** The in-order walk visits exactly the elements of the tree. */
  lemma {:induction false} InOrderElements<T>(t: Tree<T>)
    ensures forall x :: x in InOrder(t) <==> x in Elements(t)
  {
    match t
    case Empty =>
    case Branch(l, d, r) =>
      InOrderElements(l);
      InOrderElements(r);
  }

  /** Two ascending runs with a pivot between them make one ascending run. */
  lemma AscendingJoin<T(!new)>(a: seq<T>, d: T, b: seq<T>, cmp: (T, T) -> int)
    requires Transitive(cmp) && Ascending(a, cmp) && Ascending(b, cmp)
    requires forall i :: 0 <= i < |a| ==> cmp(a[i], d) < 0
    requires forall j :: 0 <= j < |b| ==> cmp(d, b[j]) < 0
    ensures Ascending(a + [d] + b, cmp)
  {
    var s := a + [d] + b;
    forall i, j | 0 <= i < j < |s| ensures cmp(s[i], s[j]) < 0 {
      if i < |a| && j > |a| {
        assert cmp(s[i], d) < 0 && cmp(d, s[j]) < 0;
      }
    }
  }

  /** The in-order walk of an ordered tree is strictly ascending, so no element comes twice. */
  lemma {:induction false} InOrderAscending<T(!new)>(t: Tree<T>, cmp: (T, T) -> int)
    requires TotalOrder(cmp) && Ordered(t, cmp)
    ensures Ascending(InOrder(t), cmp)
    ensures forall i, j :: 0 <= i < j < |InOrder(t)| ==> InOrder(t)[i] != InOrder(t)[j]
  {
    match t
    case Empty =>
    case Branch(l, d, r) =>
      InOrderAscending(l, cmp);
      InOrderAscending(r, cmp);
      InOrderElements(l);
      InOrderElements(r);
      var a, b := InOrder(l), InOrder(r);
      forall i | 0 <= i < |a| ensures cmp(a[i], d) < 0 {
        assert a[i] in Elements(l);
      }
      forall j | 0 <= j < |b| ensures cmp(d, b[j]) < 0 {
        assert b[j] in Elements(r);
      }
      AscendingJoin(a, d, b, cmp);
  }

  /** `insertRecursive` on values: the element goes down the side `cmp` points to; an equal element stops it. */
  ghost function InsertTree<T>(t: Tree<T>, x: T, cmp: (T, T) -> int): Tree<T>
  {
    match t
    case Empty => Branch(Empty, x, Empty)
    case Branch(l, d, r) =>
      if cmp(x, d) < 0 then Branch(InsertTree(l, x, cmp), d, r)
      else if cmp(x, d) > 0 then Branch(l, d, InsertTree(r, x, cmp))
      else t
  }

  /** Inserting keeps the tree ordered and adds exactly the inserted element. */
  lemma {:induction false} InsertOrdered<T(!new)>(t: Tree<T>, x: T, cmp: (T, T) -> int)
    requires EqualityConsistent(cmp) && Ordered(t, cmp)
    ensures Ordered(InsertTree(t, x, cmp), cmp)
    ensures Elements(InsertTree(t, x, cmp)) == Elements(t) + {x}
  {
    match t
    case Empty =>
    case Branch(l, d, r) =>
      if cmp(x, d) < 0 {
        InsertOrdered(l, x, cmp);
      } else if cmp(x, d) > 0 {
        InsertOrdered(r, x, cmp);
      }
  }

  /** Inserting an element the tree already holds leaves the tree as it was. */
  lemma {:induction false} InsertPresent<T(!new)>(t: Tree<T>, x: T, cmp: (T, T) -> int)
    requires EqualityConsistent(cmp) && Ordered(t, cmp) && x in Elements(t)
    ensures InsertTree(t, x, cmp) == t
  {
    match t
    case Branch(l, d, r) =>
      if cmp(x, d) < 0 {
        assert x !in Elements(r) && x != d;
        InsertPresent(l, x, cmp);
      } else if cmp(x, d) > 0 {
        assert x !in Elements(l) && x != d;
        InsertPresent(r, x, cmp);
      }
  }

  /** The leftmost element of a non-empty tree. */
  ghost function MinOf<T>(t: Tree<T>): T
    requires t.Branch?
  {
    if t.left.Empty? then t.data else MinOf(t.left)
  }

  /** The leftmost element of a tree is one of its elements. */
  lemma {:induction false} MinOfIn<T>(t: Tree<T>)
    requires t.Branch?
    ensures MinOf(t) in Elements(t)
  {
    if t.left.Branch? {
      MinOfIn(t.left);
    }
  }

  /** The leftmost element of an ordered tree is in it and compares below every other element. */
  lemma {:induction false} MinOfLeast<T(!new)>(t: Tree<T>, cmp: (T, T) -> int)
    requires TotalOrder(cmp) && Ordered(t, cmp) && t.Branch?
    ensures MinOf(t) in Elements(t)
    ensures forall y :: y in Elements(t) && y != MinOf(t) ==> cmp(MinOf(t), y) < 0
  {
    var m := MinOf(t);
    if t.left.Branch? {
      MinOfLeast(t.left, cmp);
      assert cmp(m, t.data) < 0;
      forall y | y in Elements(t.right) ensures cmp(m, y) < 0 {
        assert cmp(t.data, y) < 0;
      }
    }
  }

  /**
   * `removeRecursive` on values: an element found with two subtrees is
   * replaced by the least element of its right subtree, which is then
   * removed from there.
   */
  ghost function RemoveTree<T>(t: Tree<T>, x: T, cmp: (T, T) -> int): Tree<T>
  {
    match t
    case Empty => Empty
    case Branch(l, d, r) =>
      if cmp(x, d) < 0 then Branch(RemoveTree(l, x, cmp), d, r)
      else if cmp(x, d) > 0 then Branch(l, d, RemoveTree(r, x, cmp))
      else if l.Empty? then r
      else if r.Empty? then l
      else Branch(l, MinOf(r), RemoveTree(r, MinOf(r), cmp))
  }

  /** Removing from an ordered tree takes away exactly the removed element. */
  lemma {:induction false} RemoveElements<T(!new)>(t: Tree<T>, x: T, cmp: (T, T) -> int)
    requires EqualityConsistent(cmp) && Ordered(t, cmp)
    ensures Elements(RemoveTree(t, x, cmp)) == Elements(t) - {x}
  {
    match t
    case Empty =>
    case Branch(l, d, r) =>
      assert d !in Elements(l) && d !in Elements(r);
      if cmp(x, d) < 0 {
        assert x !in Elements(r);
        RemoveElements(l, x, cmp);
      } else if cmp(x, d) > 0 {
        assert x !in Elements(l);
        RemoveElements(r, x, cmp);
      } else if l.Branch? && r.Branch? {
        MinOfIn(r);
        RemoveElements(r, MinOf(r), cmp);
      }
  }

  /** Removing keeps the tree ordered. */
  lemma {:induction false} RemoveOrdered<T(!new)>(t: Tree<T>, x: T, cmp: (T, T) -> int)
    requires TotalOrder(cmp) && Ordered(t, cmp)
    ensures Ordered(RemoveTree(t, x, cmp), cmp)
  {
    match t
    case Empty =>
    case Branch(l, d, r) =>
      if cmp(x, d) < 0 {
        RemoveOrdered(l, x, cmp);
        RemoveElements(l, x, cmp);
      } else if cmp(x, d) > 0 {
        RemoveOrdered(r, x, cmp);
        RemoveElements(r, x, cmp);
      } else if l.Branch? && r.Branch? {
        var m := MinOf(r);
        MinOfLeast(r, cmp);
        RemoveOrdered(r, m, cmp);
        RemoveElements(r, m, cmp);
        assert cmp(d, m) < 0;
        forall y | y in Elements(l) ensures cmp(y, m) < 0 {
          assert cmp(y, d) < 0;
        }
        forall y | y in Elements(r) - {m} ensures cmp(y, m) > 0 {
          assert cmp(m, y) < 0;
        }
      }
  }

  /** Removing an element the tree does not hold leaves the tree as it was. */
  lemma {:induction false} RemoveAbsent<T(!new)>(t: Tree<T>, x: T, cmp: (T, T) -> int)
    requires EqualityConsistent(cmp) && x !in Elements(t)
    ensures RemoveTree(t, x, cmp) == t
  {
    match t
    case Empty =>
    case Branch(l, d, r) =>
      if cmp(x, d) < 0 {
        RemoveAbsent(l, x, cmp);
      } else if cmp(x, d) > 0 {
        RemoveAbsent(r, x, cmp);
      }
  }
}
