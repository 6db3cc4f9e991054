/**
 * Positional insertion and removal on sequences: the meaning of the
 * index-based `insert` and `remove` of the array-backed and the linked list.
 */
module Sequences {
  import opened Common

  /** `s` with `e` placed at position `i`: the elements from `i` on move one place right. */
  function Inserted<T>(s: seq<T>, i: int, e: T): (t: seq<T>)
    requires 0 <= i <= |s|
    ensures |t| == |s| + 1 && t[i] == e
    ensures forall j :: 0 <= j < i ==> t[j] == s[j]
    ensures forall j :: i < j < |t| ==> t[j] == s[j - 1]
  {
    s[..i] + [e] + s[i..]
  }

  /** `s` without the element at position `i`: the elements after it move one place left. */
  function Removed<T>(s: seq<T>, i: int): (t: seq<T>)
    requires 0 <= i < |s|
    ensures |t| == |s| - 1
    ensures forall j :: 0 <= j < i ==> t[j] == s[j]
    ensures forall j :: i <= j < |t| ==> t[j] == s[j + 1]
  {
    s[..i] + s[i + 1..]
  }

  /** The members after an insertion are the old members and the inserted element. */
  lemma InsertedMembers<T>(s: seq<T>, i: int, e: T)
    requires 0 <= i <= |s|
    ensures forall x :: x in Inserted(s, i, e) <==> x == e || x in s
  {
    assert s == s[..i] + s[i..];
  }

  /** Every member left after a removal was a member before. */
  lemma RemovedMembers<T>(s: seq<T>, i: int)
    requires 0 <= i < |s|
    ensures forall x :: x in Removed(s, i) ==> x in s
  {
    assert s == s[..i] + [s[i]] + s[i + 1..];
  }

  /** Removing what was just inserted gives back the original sequence. */
  lemma RemoveInserted<T>(s: seq<T>, i: int, e: T)
    requires 0 <= i <= |s|
    ensures Removed(Inserted(s, i, e), i) == s
  {
    var t := Removed(Inserted(s, i, e), i);
    assert forall j :: 0 <= j < |s| ==> t[j] == s[j];
  }

  /** Putting a removed element back where it was gives back the original sequence. */
  lemma InsertRemoved<T>(s: seq<T>, i: int)
    requires 0 <= i < |s|
    ensures Inserted(Removed(s, i), i, s[i]) == s
  {
    var t := Inserted(Removed(s, i), i, s[i]);
    assert forall j :: 0 <= j < |s| ==> t[j] == s[j];
  }

  /** `s` back to front. */
  function Reversed<T>(s: seq<T>): (r: seq<T>)
    ensures |r| == |s|
    ensures forall i :: 0 <= i < |s| ==> r[i] == s[|s| - 1 - i]
  {
    if s == [] then [] else Reversed(s[1..]) + [s[0]]
  }

  /** Reversing twice gives back the original sequence. */
  lemma ReversedReversed<T>(s: seq<T>)
    ensures Reversed(Reversed(s)) == s
  {
    var r := Reversed(Reversed(s));
    assert forall i :: 0 <= i < |s| ==> r[i] == s[i];
  }

  /**
   * The first `i` elements are non-null and differ from `e`: a Java scan
   * that calls `equals` on each stored element passes over them without
   * throwing `NullPointerException`.
   */
  predicate NoMatchBefore<T(==)>(s: seq<Option<T>>, e: Option<T>, i: int)
    requires 0 <= i <= |s|
  {
    forall j :: 0 <= j < i ==> s[j].Some? && s[j] != e
  }

  /** A scan that passes one more non-null, non-matching element extends its clean prefix by one. */
  lemma NoMatchBeforeStep<T>(s: seq<Option<T>>, e: Option<T>, i: int)
    requires 0 <= i < |s| && NoMatchBefore(s, e, i) && s[i].Some? && s[i] != e
    ensures NoMatchBefore(s, e, i + 1)
  {
  }
}
