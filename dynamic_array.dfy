/**
 * A growable array: the elements sit in the first `size` slots of a buffer
 * of `capacity` slots, and the buffer is replaced by a larger copy when it
 * is full. Elements are nullable (`None` is a stored `null`).
 */
module DynamicArrays {
  import opened Common
  import opened Sequences

  const DEFAULT_CAPACITY: int := 10

  /**
   * `System.arraycopy(src, srcPos, dest, destPos, length)`: the copied
   * range is read before any of it is written, so the two ranges may overlap
   * inside one array.
   */
  method ArrayCopy<T>(src: array<T>, srcPos: int, dest: array<T>, destPos: int, length: int)
    requires 0 <= srcPos && 0 <= destPos && 0 <= length
    requires srcPos + length <= src.Length && destPos + length <= dest.Length
    modifies dest
    ensures dest[..] == old(dest[..destPos]) + old(src[srcPos..srcPos + length]) + old(dest[destPos + length..])
  {
    ghost var source := src[srcPos..srcPos + length];
    forall i | 0 <= i < length {
      dest[destPos + i] := src[srcPos + i];
    }
    assert dest[destPos..destPos + length] == source;
    assert dest[..] == dest[..destPos] + dest[destPos..destPos + length] + dest[destPos + length..];
  }

  class DynamicArray<T(==)> {
    /** The source's `array` field: the slots. */
    var buffer: array<Option<T>>
    var size: nat
    var capacity: int
    /** The elements, first to last. */
    ghost var Elements: seq<Option<T>>

    /** The elements fill the front of the buffer and every slot behind them holds `null`. */
    ghost predicate Valid()
      reads this, buffer
    {
      && 1 <= capacity == buffer.Length
      && size <= capacity
      && Elements == buffer[..size]
      && forall i :: size <= i < capacity ==> buffer[i] == None
    }

    /** `new DynamicArray()`: ten empty slots. */
    constructor ()
      ensures Valid() && fresh(buffer)
      ensures Elements == [] && capacity == DEFAULT_CAPACITY
    {
      buffer := new Option<T>[DEFAULT_CAPACITY](_ => None);
      size, capacity := 0, DEFAULT_CAPACITY;
      Elements := [];
    }

    /** `new DynamicArray(initCapacity)` once the argument has been checked to be positive. */
    constructor WithCapacity(initCapacity: int)
      requires initCapacity > 0
      ensures Valid() && fresh(buffer)
      ensures Elements == [] && capacity == initCapacity
    {
      buffer := new Option<T>[initCapacity](_ => None);
      size, capacity := 0, initCapacity;
      Elements := [];
    }

    /** `new DynamicArray(initCapacity)` with its check: a non-positive capacity is refused. */
    static method Create(initCapacity: int) returns (r: Result<DynamicArray<T>>)
      ensures initCapacity <= 0 ==> r == Err(IllegalArgument)
      ensures initCapacity > 0 ==>
        && r.Ok? && fresh(r.value) && r.value.Valid()
        && r.value.Elements == [] && r.value.capacity == initCapacity
    {
      if initCapacity <= 0 {
        return Err(IllegalArgument);
      }
      var d := new DynamicArray.WithCapacity(initCapacity);
      return Ok(d);
    }

    /**
     * `resize()`: when the buffer is full, the capacity becomes twice as
     * large (at least ten); in every case the elements move to a new buffer
     * of that capacity.
     */
    method Resize()
      requires Valid()
      modifies this
      ensures Valid() && fresh(buffer)
      ensures Elements == old(Elements)
      ensures old(size) >= old(capacity) ==>
        capacity == (if 2 * old(capacity) > DEFAULT_CAPACITY then 2 * old(capacity) else DEFAULT_CAPACITY)
      ensures old(size) < old(capacity) ==> capacity == old(capacity)
    {
      if size >= capacity {
        capacity := if capacity * 2 > DEFAULT_CAPACITY then capacity * 2 else DEFAULT_CAPACITY;
      }
      var newArray := new Option<T>[capacity](_ => None);
      ArrayCopy(buffer, 0, newArray, 0, size);
      buffer := newArray;
    }

    /** `add(element)`: append, growing the buffer first when it is full. */
    method Add(element: Option<T>)
      requires Valid()
      modifies this, buffer
      ensures Valid()
      ensures Elements == old(Elements) + [element]
      ensures old(size) < old(capacity) ==> capacity == old(capacity) && buffer == old(buffer)
      ensures old(size) == old(capacity) ==>
        fresh(buffer) && capacity == (if 2 * old(capacity) > DEFAULT_CAPACITY then 2 * old(capacity) else DEFAULT_CAPACITY)
    {
      if size == capacity {
        Resize();
      }
      buffer[size] := element;
      size := size + 1;
      Elements := Elements + [element];
    }

    /**
     * `insert(index, element)`: an index outside `[0, size]` is refused;
     * otherwise the elements from `index` on move one slot right and the new
     * element takes slot `index`.
     */
    method Insert(index: int, element: Option<T>) returns (r: Result<()>)
      requires Valid()
      modifies this, buffer
      ensures Valid()
      ensures !(0 <= index <= old(size)) ==> r == Err(IndexOutOfBounds) && unchanged(this) && unchanged(buffer)
      ensures 0 <= index <= old(size) ==>
        r == Ok(()) && Elements == Inserted(old(Elements), index, element)
      ensures 0 <= index <= old(size) && old(size) < old(capacity) ==>
        capacity == old(capacity) && buffer == old(buffer)
      ensures 0 <= index <= old(size) && old(size) == old(capacity) ==>
        fresh(buffer) && capacity == (if 2 * old(capacity) > DEFAULT_CAPACITY then 2 * old(capacity) else DEFAULT_CAPACITY)
    {
      if index < 0 || index > size {
        return Err(IndexOutOfBounds);
      }
      if size == capacity {
        Resize();
      }
      ShiftIn(index, element);
      r := Ok(());
    }

    /** The in-place part of `insert`: with a free slot at the end, shift the tail right and write the element. */
    method ShiftIn(index: int, element: Option<T>)
      requires Valid() && 0 <= index <= size < capacity
      modifies this`size, this`Elements, buffer
      ensures Valid()
      ensures Elements == Inserted(old(Elements), index, element)
    {
      ArrayCopy(buffer, index, buffer, index + 1, size - index);
      buffer[index] := element;
      size := size + 1;
      Elements := Elements[..index] + [element] + Elements[index..];
      assert buffer[..size] == Elements;
    }

    /**
     * `remove(index)`: an index outside `[0, size)` is refused; otherwise
     * the element at `index` is returned, the elements after it move one
     * slot left and the vacated last slot is cleared.
     */
    method Remove(index: int) returns (r: Result<Option<T>>)
      requires Valid()
      modifies this, buffer
      ensures Valid() && buffer == old(buffer) && capacity == old(capacity)
      ensures !(0 <= index < old(size)) ==> r == Err(IndexOutOfBounds) && unchanged(this) && unchanged(buffer)
      ensures 0 <= index < old(size) ==>
        r == Ok(old(Elements)[index]) && Elements == Removed(old(Elements), index)
    {
      if index < 0 || index >= size {
        return Err(IndexOutOfBounds);
      }
      var removed := buffer[index];
      ArrayCopy(buffer, index + 1, buffer, index, size - index - 1);
      buffer[size - 1] := None;
      size := size - 1;
      Elements := Elements[..index] + Elements[index + 1..];
      assert buffer[..size] == Elements;
      r := Ok(removed);
    }

    /** `get(index)`: the element at `index`, or `IndexOutOfBoundsException` outside `[0, size)`. */
    function Get(index: int): (r: Result<Option<T>>)
      reads this, buffer
      requires Valid()
      ensures 0 <= index < |Elements| ==> r == Ok(Elements[index])
      ensures !(0 <= index < |Elements|) ==> r == Err(IndexOutOfBounds)
    {
      if index < 0 || index >= size then Err(IndexOutOfBounds) else Ok(buffer[index])
    }

    /** `set(index, element)`: replace the element at `index` and nothing else. */
    method Set(index: int, element: Option<T>) returns (r: Result<()>)
      requires Valid()
      modifies this`Elements, buffer
      ensures Valid()
      ensures !(0 <= index < size) ==> r == Err(IndexOutOfBounds) && unchanged(buffer)
      ensures 0 <= index < size ==> r == Ok(()) && Elements == old(Elements)[index := element]
    {
      if index < 0 || index >= size {
        return Err(IndexOutOfBounds);
      }
      buffer[index] := element;
      Elements := Elements[index := element];
      r := Ok(());
    }

    /** `size()`: the number of elements. */
    function Size(): (n: nat)
      reads this, buffer
      requires Valid()
      ensures n == |Elements|
    {
      size
    }

    /** `capacity()`: the number of slots, never fewer than the elements. */
    function Capacity(): (c: int)
      reads this, buffer
      requires Valid()
      ensures c == buffer.Length && |Elements| <= c
    {
      capacity
    }

    /** `isEmpty()`: there are no elements. */
    function IsEmpty(): (e: bool)
      reads this, buffer
      requires Valid()
      ensures e <==> Elements == []
    {
      size == 0
    }

    /** `clear()`: null every occupied slot and forget the elements; the buffer and its capacity stay. */
    method Clear()
      requires Valid()
      modifies this, buffer
      ensures Valid() && Elements == []
      ensures buffer == old(buffer) && capacity == old(capacity)
      ensures forall i :: 0 <= i < buffer.Length ==> buffer[i] == None
    {
      for i := 0 to size
        invariant buffer == old(buffer) && capacity == old(capacity) == buffer.Length && size == old(size) <= capacity
        invariant forall j :: 0 <= j < i ==> buffer[j] == None
        invariant forall j :: size <= j < capacity ==> buffer[j] == None
      {
        buffer[i] := None;
      }
      size := 0;
      Elements := [];
    }

    /**
     * `indexOf(element)`: the first index holding an equal element, or -1.
     * The scan calls `equals` on each stored element, so it throws
     * `NullPointerException` on reaching a stored `null` first.
     */
    method IndexOf(element: Option<T>) returns (r: Result<int>)
      requires Valid()
      ensures r.Ok? ==> -1 <= r.value < |Elements|
      ensures r.Ok? && r.value >= 0 ==> Elements[r.value].Some? && Elements[r.value] == element
      ensures r.Ok? ==> NoMatchBefore(Elements, element, if r.value < 0 then |Elements| else r.value)
      ensures r.Err? ==> r.error == NullPointer
      ensures r.Err? ==> exists i :: 0 <= i < |Elements| && Elements[i] == None && NoMatchBefore(Elements, element, i)
      ensures None !in Elements ==> r.Ok?
    {
      for i := 0 to size
        invariant NoMatchBefore(Elements, element, i)
      {
        if buffer[i] == None {
          return Err(NullPointer);
        }
        if buffer[i] == element {
          return Ok(i);
        }
      }
      return Ok(-1);
    }

    /** `contains(element)`: whether `indexOf` finds the element (and its `NullPointerException` if it throws). */
    method Contains(element: Option<T>) returns (r: Result<bool>)
      requires Valid()
      ensures r.Ok? ==> (r.value <==> element in Elements)
      ensures r.Err? ==> r.error == NullPointer && None in Elements
      ensures None !in Elements ==> r == Ok(element in Elements)
    {
      var found := IndexOf(element);
      if found.Err? {
        return Err(found.error);
      }
      return Ok(found.value != -1);
    }
  }

  /**
   * The anonymous iterator of `iterator()`. It reads the owner's live `size`
   * and `array`, so its position may run past the elements when the owner
   * shrinks while it is in use.
   */
  class DynamicArrayIterator<T(==)> {
    const owner: DynamicArray<T>
    var index: nat

    ghost predicate Valid()
      reads this, owner, owner.buffer
    {
      owner.Valid()
    }

    constructor (owner: DynamicArray<T>)
      requires owner.Valid()
      ensures Valid() && this.owner == owner && index == 0
    {
      this.owner := owner;
      index := 0;
    }

    /** `hasNext()`: some element has not been yielded yet. */
    function HasNext(): (b: bool)
      reads this, owner, owner.buffer
      requires Valid()
      ensures b <==> index < |owner.Elements|
    {
      index < owner.size
    }

    /**
     * `next()`, which is `array[index++]`: the element at the position, the
     * empty slot there when the position is past the elements but inside the
     * backing array, and `ArrayIndexOutOfBoundsException` beyond it. The
     * position advances in every case, since the increment is evaluated
     * before the array access fails.
     */
    method Next() returns (r: Result<Option<T>>)
      requires Valid()
      modifies this
      ensures Valid() && index == old(index) + 1
      ensures old(index) < |owner.Elements| ==> r == Ok(owner.Elements[old(index)])
      ensures |owner.Elements| <= old(index) < owner.capacity ==> r == Ok(None)
      ensures old(index) >= owner.capacity ==> r == Err(IndexOutOfBounds)
    {
      var at := index;
      index := index + 1;
      if at < owner.buffer.Length {
        r := Ok(owner.buffer[at]);
      } else {
        r := Err(IndexOutOfBounds);
      }
    }
  }
}
