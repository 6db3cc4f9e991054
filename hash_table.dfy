/**
 * A separate-chaining hash table: a power-of-two array of buckets, each
 * holding the chain of entries whose keys hash there, head first.
 */
module HashTables {
  import opened Common
  import opened Bits
  import opened HashChains
  import opened HashLayout
  import opened Sequences

  /** The entries of a map whose keys are all non-null, in the same order. */
  function KeyedEntries<K, V>(pairs: seq<Entry<Option<K>, V>>): (es: seq<Entry<K, V>>)
    requires forall i :: 0 <= i < |pairs| ==> pairs[i].key.Some?
    ensures |es| == |pairs|
    ensures forall i :: 0 <= i < |pairs| ==> es[i] == Entry(pairs[i].key.value, pairs[i].value)
  {
    seq(|pairs|, i requires 0 <= i < |pairs| => Entry(pairs[i].key.value, pairs[i].value))
  }

  /** Converting one more pair appends its entry. */
  lemma KeyedEntriesStep<K, V>(pairs: seq<Entry<Option<K>, V>>, j: nat)
    requires j < |pairs| && forall i :: 0 <= i <= j ==> pairs[i].key.Some?
    ensures KeyedEntries(pairs[..j + 1]) == KeyedEntries(pairs[..j]) + [Entry(pairs[j].key.value, pairs[j].value)]
  {
  }

  class HashTable<K(==), V(==)> {
    /** `key.hashCode()`: any function of the key. */
    const hashCode: K -> int

    var buckets: array<seq<Entry<K, V>>>
    var size: nat
    var capacity: int
    var resizeCount: nat
    var collisionCount: nat
    var maxChainLength: nat

    /** The chains of the buckets as values, head first: `buckets[..]` between operations. */
    ghost var Chains: seq<seq<Entry<K, V>>>
    /** The key-to-value mapping the table stands for; a key mapped to `None` holds a stored `null`. */
    ghost var Contents: map<K, Option<V>>

    /** Every structural invariant except the load-factor bound (which `put` breaks until it resizes). */
    ghost predicate Consistent()
      reads this`capacity, this`buckets, this`Chains, this`Contents, this`size, this`maxChainLength, buckets
    {
      && 1 <= capacity <= MAX_CAPACITY && IsPowerOfTwo(capacity)
      && buckets.Length == capacity && buckets[..] == Chains
      && TableInv(Chains, Contents, hashCode, size, maxChainLength)
    }

    /** `size / capacity <= 0.75`, unless the capacity has reached its ceiling. */
    ghost predicate LoadBounded()
      reads this`capacity, this`size
    {
      capacity < MAX_CAPACITY ==> 4 * size <= 3 * capacity
    }

    ghost predicate Valid()
      reads this`capacity, this`buckets, this`Chains, this`Contents, this`size, this`maxChainLength, buckets
    {
      Consistent() && LoadBounded()
    }

    /** `new HashTable()`: sixteen empty buckets. */
    constructor (hashCode: K -> int)
      ensures Valid() && fresh(buckets)
      ensures Contents == map[] && capacity == DEFAULT_CAPACITY
      ensures resizeCount == 0 && collisionCount == 0 && maxChainLength == 0
    {
      this.hashCode := hashCode;
      capacity := DEFAULT_CAPACITY;
      var empty := new seq<Entry<K, V>>[DEFAULT_CAPACITY](_ => []);
      buckets := empty;
      size, resizeCount, collisionCount, maxChainLength := 0, 0, 0, 0;
      Chains, Contents := empty[..], map[];
      new;
      assert Pow2(4) == DEFAULT_CAPACITY;
      EmptyInv(Chains, hashCode);
    }

    /** `new HashTable(initialCapacity)` once the argument has been checked to be positive. */
    constructor WithCapacity(hashCode: K -> int, initialCapacity: int)
      requires initialCapacity > 0
      ensures Valid() && fresh(buckets)
      ensures Contents == map[]
      ensures capacity >= initialCapacity || capacity == MAX_CAPACITY
      ensures capacity == 1 || capacity / 2 < initialCapacity
      ensures resizeCount == 0 && collisionCount == 0 && maxChainLength == 0
    {
      this.hashCode := hashCode;
      var c := FindNextPowerOfTwo(initialCapacity);
      capacity := c;
      var empty := new seq<Entry<K, V>>[c](_ => []);
      buckets := empty;
      size, resizeCount, collisionCount, maxChainLength := 0, 0, 0, 0;
      Chains, Contents := empty[..], map[];
      new;
      EmptyInv(Chains, hashCode);
    }

    /**
     * `new HashTable(initialCapacity)` with its argument check: a
     * non-positive capacity is refused with `IllegalArgumentException`.
     */
    static method Create(hashCode: K -> int, initialCapacity: int) returns (r: Result<HashTable<K, V>>)
      ensures initialCapacity <= 0 ==> r == Err(IllegalArgument)
      ensures initialCapacity > 0 ==>
        && r.Ok? && fresh(r.value) && r.value.Valid() && r.value.Contents == map[]
        && (r.value.capacity >= initialCapacity || r.value.capacity == MAX_CAPACITY)
        && (r.value.capacity == 1 || r.value.capacity / 2 < initialCapacity)
        && r.value.resizeCount == 0 && r.value.collisionCount == 0 && r.value.maxChainLength == 0
    {
      if initialCapacity <= 0 {
        return Err(IllegalArgument);
      }
      var t := new HashTable.WithCapacity(hashCode, initialCapacity);
      return Ok(t);
    }

    /**
     * `new HashTable(map)`: a table with room for the map's entries at load
     * factor 0.75 (and at least the default capacity), then `put` of every
     * entry in the map's iteration order, given here as `pairs`. A null key
     * makes that `put` throw `IllegalArgumentException`, and no table is
     * returned.
     */
    static method FromPairs(hashCode: K -> int, pairs: seq<Entry<Option<K>, V>>) returns (r: Result<HashTable<K, V>>)
      ensures (exists i :: 0 <= i < |pairs| && pairs[i].key == None) ==> r == Err(IllegalArgument)
      ensures (forall i :: 0 <= i < |pairs| ==> pairs[i].key.Some?) ==>
        && r.Ok? && fresh(r.value) && r.value.Valid()
        && r.value.Contents == ChainMap(KeyedEntries(pairs))
        && r.value.capacity >= DEFAULT_CAPACITY
        && (r.value.capacity >= 4 * |pairs| / 3 + 1 || r.value.capacity == MAX_CAPACITY)
        && r.value.resizeCount == 0
    {
      var requested := 4 * |pairs| / 3 + 1;
      if requested < DEFAULT_CAPACITY {
        requested := DEFAULT_CAPACITY;
      }
      var t := new HashTable.WithCapacity(hashCode, requested);
      ghost var presized := t.capacity;
      assert 3 * presized > 4 * |pairs| || presized == MAX_CAPACITY;
      for j := 0 to |pairs|
        invariant fresh(t) && fresh(t.buckets) && t.Valid()
        invariant t.capacity == presized && t.resizeCount == 0 && t.size <= j
        invariant forall i :: 0 <= i < j ==> pairs[i].key.Some?
        invariant t.Contents == ChainMap(KeyedEntries(pairs[..j]))
      {
        var put := t.Put(pairs[j].key, pairs[j].value);
        if put.Err? {
          return Err(IllegalArgument);
        }
        KeyedEntriesStep(pairs, j);
      }
      assert pairs[..|pairs|] == pairs;
      r := Ok(t);
    }

    /** The smallest power of two that is at least `value`, but never more than 1 << 30. */
    static method FindNextPowerOfTwo(value: int) returns (power: int)
      ensures IsPowerOfTwo(power) && 1 <= power <= MAX_CAPACITY
      ensures power >= value || power == MAX_CAPACITY
      ensures power == 1 || power / 2 < value
    {
      Pow30IsPowerOfTwo();
      power := 1;
      assert Pow2(0) == power;
      while power < value && power < MAX_CAPACITY
        invariant IsPowerOfTwo(power) && 1 <= power <= MAX_CAPACITY
        invariant power == 1 || power / 2 < value
        decreases MAX_CAPACITY - power
      {
        DoubleAtMost(power, MAX_CAPACITY);
        DoubleIsPowerOfTwo(power);
        power := power * 2;
      }
    }

    /** The bucket index of a key; a null key would go to bucket 0. */
    function Hash(key: Option<K>): (index: int)
      reads this`capacity
      requires 1 <= capacity
      ensures 0 <= index < capacity
      ensures key.Some? ==> index == IndexFor(hashCode(key.value), capacity)
    {
      if key == None then 0 else IndexFor(hashCode(key.value), capacity)
    }

    /**
     * The chain walk of `get`, `put` and `remove`: the position of the first
     * entry of chain `index` whose key equals `k`, or -1 when there is none.
     */
    method FindEntry(index: int, k: K) returns (j: int)
      requires 0 <= index < buckets.Length
      ensures -1 <= j < |buckets[index]|
      ensures j >= 0 ==> buckets[index][j].key == k
      ensures forall p :: 0 <= p < |buckets[index]| && (j < 0 || p < j) ==> buckets[index][p].key != k
    {
      var chain := buckets[index];
      j := 0;
      while j < |chain|
        invariant 0 <= j <= |chain|
        invariant forall p :: 0 <= p < j ==> chain[p].key != k
      {
        if chain[j].key == k {
          return;
        }
        j := j + 1;
      }
      j := -1;
    }

    /** `get(key)`: the value stored for the key, or null when the key is absent. */
    method Get(key: Option<K>) returns (r: Result<Option<V>>)
      requires Valid()
      ensures key == None ==> r == Err(IllegalArgument)
      ensures key.Some? ==> r == Ok(if key.value in Contents then Contents[key.value] else None)
    {
      if key == None {
        return Err(IllegalArgument);
      }
      var index := Hash(key);
      var j := FindEntry(index, key.value);
      Lookup(Chains, Contents, hashCode, key.value);
      if j >= 0 {
        return Ok(buckets[index][j].value);
      }
      return Ok(None);
    }

    /** `put(key, value)`: a null key is refused before anything changes. */
    method Put(key: Option<K>, value: Option<V>) returns (r: Result<()>)
      requires Valid()
      modifies this, buckets
      ensures Valid()
      ensures key == None ==> r == Err(IllegalArgument) && unchanged(this) && unchanged(buckets)
      ensures key.Some? ==> r == Ok(()) && Contents == old(Contents)[key.value := value]
      ensures key.Some? ==> size == old(size) + (if key.value in old(Contents) then 0 else 1)
      ensures capacity == old(capacity) || (old(capacity) < MAX_CAPACITY && capacity == 2 * old(capacity))
      ensures key.Some? ==>
        var grew := key.value !in old(Contents) && old(capacity) < MAX_CAPACITY && 4 * (old(size) + 1) > 3 * old(capacity);
        && capacity == (if grew then 2 * old(capacity) else old(capacity))
        && resizeCount == old(resizeCount) + (if grew then 1 else 0)
      ensures buckets == old(buckets) || fresh(buckets)
      ensures LoadBounded()
    {
      if key == None {
        return Err(IllegalArgument);
      }
      PutKey(key.value, value);
      r := Ok(());
    }

    /**
     * The body of `put` for a non-null key: overwrite the value of a key
     * already in its chain; otherwise link a new entry at the head of the
     * chain (counting a collision and updating the longest chain) and resize
     * when the load factor exceeds 0.75.
     */
    method PutKey(k: K, value: Option<V>)
      requires Valid()
      modifies this, buckets
      ensures Valid()
      ensures Contents == old(Contents)[k := value]
      ensures size == old(size) + (if k in old(Contents) then 0 else 1)
      ensures var grew := k !in old(Contents) && old(capacity) < MAX_CAPACITY && 4 * (old(size) + 1) > 3 * old(capacity);
        && capacity == (if grew then 2 * old(capacity) else old(capacity))
        && resizeCount == old(resizeCount) + (if grew then 1 else 0)
        && (grew ==> fresh(buckets))
        && (!grew ==> buckets == old(buckets))
      ensures k in old(Contents) ==>
        && collisionCount == old(collisionCount) && maxChainLength == old(maxChainLength)
        && |Chains| == |old(Chains)|
        && forall i :: 0 <= i < |Chains| ==> KeysOf(Chains[i]) == KeysOf(old(Chains)[i])
      ensures var grew := k !in old(Contents) && old(capacity) < MAX_CAPACITY && 4 * (old(size) + 1) > 3 * old(capacity);
        var index := IndexFor(hashCode(k), old(capacity));
        k !in old(Contents) && !grew ==>
          && Chains == old(Chains)[index := [Entry(k, value)] + old(Chains)[index]]
          && collisionCount == old(collisionCount) + (if old(Chains)[index] != [] then 1 else 0)
          && maxChainLength == (if old(maxChainLength) < |Chains[index]| then |Chains[index]| else old(maxChainLength))
      decreases MAX_CAPACITY - capacity, 2
    {
      var index := Hash(Some(k));
      var j := FindEntry(index, k);
      Lookup(Chains, Contents, hashCode, k);
      if j >= 0 {
        SetValueAt(index, j, value);
        return;
      }
      InsertNew(index, k, value);
    }

    /** The insertion path of `put`: link the new entry, then resize when the load factor exceeds 0.75. */
    method InsertNew(index: int, k: K, value: Option<V>)
      requires Valid() && index == Hash(Some(k)) && k !in Contents
      modifies this, buckets
      ensures Valid()
      ensures Contents == old(Contents)[k := value] && size == old(size) + 1
      ensures var grew := old(capacity) < MAX_CAPACITY && 4 * (old(size) + 1) > 3 * old(capacity);
        && capacity == (if grew then 2 * old(capacity) else old(capacity))
        && resizeCount == old(resizeCount) + (if grew then 1 else 0)
        && (grew ==> fresh(buckets))
        && (!grew ==> buckets == old(buckets))
      ensures var grew := old(capacity) < MAX_CAPACITY && 4 * (old(size) + 1) > 3 * old(capacity);
        !grew ==>
          && Chains == old(Chains)[index := [Entry(k, value)] + old(Chains)[index]]
          && collisionCount == old(collisionCount) + (if old(Chains)[index] != [] then 1 else 0)
          && maxChainLength == (if old(maxChainLength) < |Chains[index]| then |Chains[index]| else old(maxChainLength))
      decreases MAX_CAPACITY - capacity, 1
    {
      LinkAtHead(index, k, value);
      if 4 * size > 3 * capacity {
        Resize();
      }
    }

    /** The overwrite step of `put`: entry `j` of chain `index` takes the new value in place. */
    method SetValueAt(index: int, j: int, value: Option<V>)
      requires Valid() && 0 <= index < buckets.Length && 0 <= j < |buckets[index]|
      modifies this`Chains, this`Contents, buckets
      ensures Valid()
      ensures old(Chains[index][j].key) in old(Contents)
      ensures Contents == old(Contents)[old(Chains[index][j].key) := value]
      ensures Chains == old(Chains)[index := old(Chains[index])[j := Entry(old(Chains[index][j].key), value)]]
      ensures forall i :: 0 <= i < capacity ==> KeysOf(Chains[i]) == KeysOf(old(Chains[i]))
    {
      var chain := buckets[index];
      var k := chain[j].key;
      OverwriteInv(Chains, Contents, hashCode, size, maxChainLength, index, j, value);
      buckets[index] := chain[j := Entry(k, value)];
      Chains, Contents := Chains[index := chain[j := Entry(k, value)]], Contents[k := value];
      assert KeysOf(buckets[index]) == KeysOf(chain);
    }

    /**
     * The insertion step of `put`: a new entry for absent key `k` becomes the
     * head of its chain, `size` grows, a collision is counted when the chain
     * was not empty, and the longest-chain statistic is updated.
     */
    method LinkAtHead(index: int, k: K, value: Option<V>)
      requires Valid() && index == Hash(Some(k)) && k !in Contents
      modifies this`size, this`Chains, this`Contents, this`collisionCount, this`maxChainLength, buckets
      ensures Consistent() && (capacity < MAX_CAPACITY ==> 4 * size <= 3 * capacity + 4)
      ensures Chains == old(Chains)[index := [Entry(k, value)] + old(Chains[index])]
      ensures size == old(size) + 1 && Contents == old(Contents)[k := value]
      ensures collisionCount == old(collisionCount) + (if old(Chains[index]) != [] then 1 else 0)
      ensures maxChainLength == (if old(maxChainLength) < |Chains[index]| then |Chains[index]| else old(maxChainLength))
    {
      var linked := [Entry(k, value)] + buckets[index];
      PutNewInv(Chains, Contents, hashCode, size, maxChainLength, k, value);
      var length := ChainLength(linked);
      buckets[index] := linked;
      Chains, Contents := Chains[index := linked], Contents[k := value];
      size, collisionCount, maxChainLength :=
        size + 1,
        if |linked| >= 2 then collisionCount + 1 else collisionCount,
        if maxChainLength < length then length else maxChainLength;
    }

    /**
     * The walk of `updateMaxChainLength`: follow the chain from its head,
     * counting entries, until the link runs out. `rest` is the part of the
     * chain still ahead of `current`.
     */
    static method ChainLength(chain: seq<Entry<K, V>>) returns (length: nat)
      ensures length == |chain|
    {
      length := 0;
      var rest := chain;
      while rest != []
        invariant length + |rest| == |chain|
      {
        length := length + 1;
        rest := rest[1..];
      }
    }

    /**
     * `resize()`: below the capacity ceiling, double the capacity, reset size
     * and statistics, and put every entry of the old buckets again (bucket
     * by bucket, each chain head first). At the ceiling it does nothing.
     */
    method Resize()
      requires Consistent() && (capacity < MAX_CAPACITY ==> 4 * size <= 3 * capacity + 4)
      modifies this
      ensures Valid()
      ensures Contents == old(Contents) && size == old(size)
      ensures old(capacity) >= MAX_CAPACITY ==> unchanged(this)
      ensures old(capacity) < MAX_CAPACITY ==>
        && capacity == 2 * old(capacity) && fresh(buckets)
        && resizeCount == old(resizeCount) + 1
      decreases MAX_CAPACITY - capacity, 0
    {
      if capacity >= MAX_CAPACITY {
        return;
      }
      var oldCapacity := capacity;
      var oldBuckets := buckets;
      ghost var oldChains := Chains;
      ghost var oldContents := Contents;
      Pow30IsPowerOfTwo();
      DoubleAtMost(capacity, MAX_CAPACITY);
      DoubleIsPowerOfTwo(capacity);
      ResetBuckets(2 * capacity);
      Rehash(oldBuckets, oldChains, oldContents);
      assert oldChains[..oldCapacity] == oldChains;
      MapOfChainsIsMap(oldChains, oldContents, hashCode);
      resizeCount := resizeCount + 1;
    }

    /**
     * The loop of `resize()`: for each old bucket in ascending order, put
     * its chain into the new, initially empty buckets.
     */
    method Rehash(oldBuckets: array<seq<Entry<K, V>>>, ghost oldChains: seq<seq<Entry<K, V>>>, ghost oldContents: map<K, Option<V>>)
      requires Valid() && Contents == map[] && size == 0 && oldBuckets != buckets
      requires oldBuckets[..] == oldChains && Represents(oldChains, oldContents, hashCode)
      requires capacity < MAX_CAPACITY ==> 4 * TotalLength(oldChains) <= 3 * capacity
      modifies this, buckets
      ensures Valid() && Contents == MapOfChains(oldChains) && size == TotalLength(oldChains)
      ensures capacity == old(capacity) && buckets == old(buckets) && resizeCount == old(resizeCount)
      decreases MAX_CAPACITY - capacity, 4
    {
      for i := 0 to oldBuckets.Length
        invariant Valid()
        invariant capacity == old(capacity) && buckets == old(buckets) && resizeCount == old(resizeCount)
        invariant oldBuckets[..] == oldChains
        invariant Contents == MapOfChains(oldChains[..i]) && size == TotalLength(oldChains[..i])
      {
        ChainIsNew(oldChains, oldContents, hashCode, i);
        PrefixStep(oldChains, i);
        TotalLengthPrefixAtMost(oldChains, i + 1);
        PutChain(oldBuckets[i]);
      }
      assert oldChains[..oldBuckets.Length] == oldChains;
    }

    /**
     * A fresh array of `newCapacity` empty buckets, with size and statistics
     * back at zero; the resize count is kept.
     */
    method ResetBuckets(newCapacity: int)
      requires 1 <= newCapacity <= MAX_CAPACITY && IsPowerOfTwo(newCapacity)
      modifies this
      ensures Valid() && fresh(buckets)
      ensures capacity == newCapacity && Contents == map[] && Chains == buckets[..]
      ensures size == 0 && collisionCount == 0 && maxChainLength == 0 && resizeCount == old(resizeCount)
    {
      var empty := new seq<Entry<K, V>>[newCapacity](_ => []);
      capacity, buckets := newCapacity, empty;
      size, collisionCount, maxChainLength := 0, 0, 0;
      Chains, Contents := empty[..], map[];
      EmptyInv(Chains, hashCode);
    }

    /**
     * The inner loop of `resize()`: put every entry of one old chain, head
     * first, into the table. The keys are new to the table and there is room
     * for all of them, so no put in it resizes.
     */
    method PutChain(chain: seq<Entry<K, V>>)
      requires Valid() && DistinctKeys(chain)
      requires forall j :: 0 <= j < |chain| ==> chain[j].key !in Contents
      requires capacity < MAX_CAPACITY ==> 4 * (size + |chain|) <= 3 * capacity
      modifies this, buckets
      ensures Valid()
      ensures Contents == old(Contents) + ChainMap(chain) && size == old(size) + |chain|
      ensures capacity == old(capacity) && buckets == old(buckets) && resizeCount == old(resizeCount)
      decreases MAX_CAPACITY - capacity, 3
    {
      var j := 0;
      while j < |chain|
        invariant 0 <= j <= |chain|
        invariant Valid()
        invariant Contents == old(Contents) + ChainMap(chain[..j]) && size == old(size) + j
        invariant capacity == old(capacity) && buckets == old(buckets) && resizeCount == old(resizeCount)
        invariant forall p :: j <= p < |chain| ==> chain[p].key !in Contents
        decreases |chain| - j
      {
        ChainMapStep(old(Contents), chain, j);
        PutKey(chain[j].key, chain[j].value);
        j := j + 1;
      }
      assert chain[..j] == chain;
    }

    /**
     * `remove(key)`: a null key is refused before anything changes; an
     * absent key yields null and changes nothing; a present key's entry is
     * unlinked from its chain and its value returned.
     */
    method Remove(key: Option<K>) returns (r: Result<Option<V>>)
      requires Valid()
      modifies this`size, this`Chains, this`Contents, buckets
      ensures Valid()
      ensures key == None ==> r == Err(IllegalArgument) && unchanged(this) && unchanged(buckets)
      ensures key.Some? && key.value !in old(Contents) ==> r == Ok(None) && unchanged(this) && unchanged(buckets)
      ensures key.Some? && key.value in old(Contents) ==>
        && r == Ok(old(Contents)[key.value])
        && Contents == old(Contents) - {key.value} && size == old(size) - 1
    {
      if key == None {
        return Err(IllegalArgument);
      }
      var index := Hash(key);
      var j := FindEntry(index, key.value);
      Lookup(Chains, Contents, hashCode, key.value);
      if j < 0 {
        return Ok(None);
      }
      var value := buckets[index][j].value;
      UnlinkAt(index, j);
      return Ok(value);
    }

    /**
     * The unlinking step of `remove`: entry `j` of chain `index` leaves the
     * chain, whether it is the head (the bucket takes its successor) or
     * further down (its predecessor takes its successor).
     */
    method UnlinkAt(index: int, j: int)
      requires Valid() && 0 <= index < buckets.Length && 0 <= j < |buckets[index]|
      modifies this`size, this`Chains, this`Contents, buckets
      ensures Valid()
      ensures old(Chains[index][j].key) in old(Contents)
      ensures Chains == old(Chains)[index := old(Chains[index])[..j] + old(Chains[index])[j + 1..]]
      ensures Contents == old(Contents) - {old(Chains[index][j].key)} && size == old(size) - 1
    {
      var chain := buckets[index];
      UnlinkInv(Chains, Contents, hashCode, size, maxChainLength, index, j);
      var unlinked := if j == 0 then chain[1..] else chain[..j] + chain[j + 1..];
      assert unlinked == chain[..j] + chain[j + 1..];
      buckets[index] := unlinked;
      Chains, Contents := Chains[index := unlinked], Contents - {chain[j].key};
      size := size - 1;
    }

    /** `getOrDefault(key, defaultValue)`: the stored value, or the default when it is absent or null. */
    method GetOrDefault(key: Option<K>, defaultValue: Option<V>) returns (r: Result<Option<V>>)
      requires Valid()
      ensures key == None ==> r == Err(IllegalArgument)
      ensures key.Some? ==> r.Ok? && (key.value in Contents && Contents[key.value].Some? ==> r.value == Contents[key.value])
      ensures key.Some? ==> r.Ok? && (key.value !in Contents || Contents[key.value] == None ==> r.value == defaultValue)
    {
      var got := Get(key);
      if got.Err? {
        return got;
      }
      return Ok(if got.value.Some? then got.value else defaultValue);
    }

    /** `containsKey(key)`: whether `get` finds a non-null value, so a key holding null counts as absent. */
    method ContainsKey(key: Option<K>) returns (r: Result<bool>)
      requires Valid()
      ensures key == None ==> r == Err(IllegalArgument)
      ensures key.Some? ==> r == Ok(key.value in Contents && Contents[key.value].Some?)
    {
      if key == None {
        return Err(IllegalArgument);
      }
      var got := Get(key);
      return Ok(got.value != None);
    }

    /**
     * `containsValue(value)`: the entries are scanned in iterator order. A
     * null `value` matches a stored null; otherwise `equals` is called on each
     * stored value, so a stored null reached before a match throws
     * `NullPointerException`.
     */
    method ContainsValue(value: Option<V>) returns (r: Result<bool>)
      requires Valid()
      ensures var vs := ValuesOf(Flatten(Chains));
        r == Ok(true) ==> exists p :: 0 <= p < |vs| && vs[p] == value && NoMatchBefore(vs, value, p)
      ensures var vs := ValuesOf(Flatten(Chains));
        r == Ok(false) ==> NoMatchBefore(vs, value, |vs|)
      ensures var vs := ValuesOf(Flatten(Chains));
        r.Err? ==> && r.error == NullPointer && value.Some?
                   && exists p :: 0 <= p < |vs| && vs[p] == None && NoMatchBefore(vs, value, p)
      ensures r.Ok? ==> (r.value <==> exists k :: k in Contents && Contents[k] == value)
      ensures (forall k :: k in Contents ==> Contents[k].Some?) ==> r.Ok?
    {
      r := ScanValues(value);
      ValuesReflectMap(Chains, Contents, hashCode, value);
    }

    /** The loop of `containsValue`: bucket by bucket, each chain in link order. */
    method ScanValues(value: Option<V>) returns (r: Result<bool>)
      requires buckets.Length == |Chains| && buckets[..] == Chains
      ensures var vs := ValuesOf(Flatten(Chains));
        r == Ok(true) ==> exists p :: 0 <= p < |vs| && vs[p] == value && NoMatchBefore(vs, value, p)
      ensures var vs := ValuesOf(Flatten(Chains));
        r == Ok(false) ==> NoMatchBefore(vs, value, |vs|)
      ensures var vs := ValuesOf(Flatten(Chains));
        r.Err? ==> && r.error == NullPointer && value.Some?
                   && exists p :: 0 <= p < |vs| && vs[p] == None && NoMatchBefore(vs, value, p)
    {
      ghost var bs := Chains;
      ghost var vs := ValuesOf(Flatten(bs));
      FlattenLength(bs);
      for i := 0 to buckets.Length
        invariant TotalLength(bs[..i]) <= |vs|
        invariant NoMatchBefore(vs, value, TotalLength(bs[..i]))
      {
        PrefixStep(bs, i);
        TotalLengthPrefixAtMost(bs, i + 1);
        var chain := buckets[i];
        assert chain == bs[i];
        var j := 0;
        while j < |chain|
          invariant 0 <= j <= |chain|
          invariant NoMatchBefore(vs, value, TotalLength(bs[..i]) + j)
        {
          var stored := chain[j].value;
          ValueAt(bs, i, j);
          ghost var position := TotalLength(bs[..i]) + j;
          assert vs[position] == stored;
          if value.Some? && stored == None {
            // `current.value.equals(value)` on a stored null
            return Err(NullPointer);
          }
          if stored == value {
            return Ok(true);
          }
          NoMatchBeforeStep(vs, value, position);
          j := j + 1;
        }
      }
      assert bs[..buckets.Length] == bs;
      return Ok(false);
    }

    /** `size()`: the number of keys. */
    function Size(): (n: nat)
      reads this`capacity, this`buckets, this`Chains, this`Contents, this`size, this`maxChainLength, buckets
      requires Valid()
      ensures n == |Contents|
    {
      size
    }

    /** `isEmpty()`: no key is stored. */
    function IsEmpty(): (e: bool)
      reads this`capacity, this`buckets, this`Chains, this`Contents, this`size, this`maxChainLength, buckets
      requires Valid()
      ensures e <==> Contents == map[]
    {
      size == 0
    }

    /**
     * `clear()`: a fresh array of empty buckets of the same capacity; size,
     * collision count and longest chain go back to zero, the resize count stays.
     */
    method Clear()
      requires Valid()
      modifies this
      ensures Valid() && fresh(buckets)
      ensures Contents == map[] && size == 0 && capacity == old(capacity)
      ensures collisionCount == 0 && maxChainLength == 0 && resizeCount == old(resizeCount)
    {
      ResetBuckets(capacity);
    }

    /**
     * `keys()`: the keys in the order of the key iterator, one per key of
     * the table, none repeated.
     */
    method Keys() returns (ks: seq<K>)
      requires Valid()
      ensures ks == KeysOf(Flatten(Chains))
      ensures |ks| == size
      ensures forall k :: k in ks <==> k in Contents
      ensures forall p, q :: 0 <= p < q < |ks| ==> ks[p] != ks[q]
    {
      var it := new HashTableIterator(this);
      ghost var entries := Flatten(Chains);
      ks := [];
      while it.HasNext()
        invariant it.Valid() && it.table == this && entries == Flatten(Chains)
        invariant it.entriesVisited <= |entries|
        invariant ks == KeysOf(entries[..it.entriesVisited])
        decreases |entries| - it.entriesVisited
      {
        ghost var visited := it.entriesVisited;
        assert visited < |entries|;
        var r := it.NextKey();
        KeysOfPrefixStep(entries, visited);
        ks := ks + [r.value];
      }
      FlattenLength(Chains);
      assert entries[..it.entriesVisited] == entries;
      FlattenKeys(Chains, Contents, hashCode);
    }

    /** `values()`: the value of every entry, bucket by bucket and each chain in link order. */
    method Values() returns (vs: seq<Option<V>>)
      requires Valid()
      ensures vs == ValuesOf(Flatten(Chains))
      ensures |vs| == size
      ensures forall p :: 0 <= p < |vs| ==> exists k :: k in Contents && Contents[k] == vs[p]
    {
      vs := [];
      for i := 0 to buckets.Length
        invariant vs == ValuesOf(Flatten(Chains[..i]))
      {
        var chain := buckets[i];
        var j := 0;
        while j < |chain|
          invariant 0 <= j <= |chain|
          invariant vs == ValuesOf(Flatten(Chains[..i]) + chain[..j])
        {
          assert chain[..j + 1] == chain[..j] + [chain[j]];
          ValuesOfSnoc(Flatten(Chains[..i]) + chain[..j], chain[j]);
          vs := vs + [chain[j].value];
          j := j + 1;
        }
        assert chain[..j] == chain;
        PrefixStep(Chains, i);
      }
      assert Chains[..buckets.Length] == Chains;
      FlattenLength(Chains);
      FlattenRepresents(Chains, Contents, hashCode);
      forall p | 0 <= p < |vs| ensures exists k :: k in Contents && Contents[k] == vs[p] {
        var k := Flatten(Chains)[p].key;
        assert k in Contents && Contents[k] == vs[p];
      }
    }

    /** `entries()`: every key-value pair, bucket by bucket and each chain in link order. */
    method Entries() returns (es: seq<Entry<K, V>>)
      requires Valid()
      ensures es == Flatten(Chains)
      ensures |es| == size && DistinctKeys(es)
      ensures forall p :: 0 <= p < |es| ==> es[p].key in Contents && Contents[es[p].key] == es[p].value
      ensures forall k :: k in Contents ==> HasKey(es, k)
    {
      es := [];
      for i := 0 to buckets.Length
        invariant es == Flatten(Chains[..i])
      {
        var chain := buckets[i];
        var j := 0;
        while j < |chain|
          invariant 0 <= j <= |chain|
          invariant es == Flatten(Chains[..i]) + chain[..j]
        {
          assert chain[..j + 1] == chain[..j] + [chain[j]];
          es := es + [Entry(chain[j].key, chain[j].value)];
          j := j + 1;
        }
        assert chain[..j] == chain;
        PrefixStep(Chains, i);
      }
      assert Chains[..buckets.Length] == Chains;
      FlattenLength(Chains);
      FlattenRepresents(Chains, Contents, hashCode);
    }
  }

  /**
   * `HashTableIterator`: a cursor over the buckets in ascending index order
   * and each chain in link order. `currentEntry` is the position, in chain
   * `bucketIndex`, of the entry the next call yields; once `bucketIndex`
   * reaches the capacity there is none (the source's `null`). The three
   * `next` methods stand for the key, value and entry iterator subclasses.
   * The table is not changed while the cursor is in use.
   */
  class HashTableIterator<K(==), V(==)> {
    const table: HashTable<K, V>
    var bucketIndex: int
    var currentEntry: int
    var entriesVisited: nat

    /** `entriesVisited` entries lie before the cursor in the walk order. */
    ghost predicate Valid()
      reads this, table, table.buckets
    {
      && table.Valid()
      && 0 <= bucketIndex <= table.capacity
      && (bucketIndex < table.capacity ==>
            && 0 <= currentEntry < |table.Chains[bucketIndex]|
            && entriesVisited == TotalLength(table.Chains[..bucketIndex]) + currentEntry)
      && (bucketIndex == table.capacity ==> entriesVisited == table.size)
    }

    /** A new cursor stands on the first entry of the first non-empty bucket. */
    constructor (table: HashTable<K, V>)
      requires table.Valid()
      ensures Valid() && this.table == table && entriesVisited == 0
    {
      this.table := table;
      bucketIndex, currentEntry, entriesVisited := 0, -1, 0;
      new;
      FindNextEntry();
    }

    /** `findNextEntry()`: skip empty buckets and stand on the head of the next chain, if any. */
    method FindNextEntry()
      requires table.Valid() && 0 <= bucketIndex <= table.capacity
      requires entriesVisited == TotalLength(table.Chains[..bucketIndex])
      modifies this`bucketIndex, this`currentEntry
      ensures Valid() && entriesVisited == old(entriesVisited)
    {
      while bucketIndex < table.capacity && table.buckets[bucketIndex] == []
        invariant 0 <= bucketIndex <= table.capacity
        invariant entriesVisited == TotalLength(table.Chains[..bucketIndex])
        decreases table.capacity - bucketIndex
      {
        PrefixStep(table.Chains, bucketIndex);
        bucketIndex := bucketIndex + 1;
      }
      if bucketIndex < table.capacity {
        currentEntry := 0;
      } else {
        assert table.Chains[..bucketIndex] == table.Chains;
        currentEntry := -1;
      }
    }

    /** `hasNext()`: some entry of the walk has not been yielded yet. */
    function HasNext(): (b: bool)
      reads this, table, table.buckets
      requires Valid()
      ensures b <==> entriesVisited < |Flatten(table.Chains)|
    {
      FlattenLength(table.Chains);
      entriesVisited < table.size
    }

    /** The entry under the cursor: the next one of the walk. */
    function Current(): (e: Entry<K, V>)
      reads this, table, table.buckets
      requires Valid() && entriesVisited < table.size
      ensures entriesVisited < |Flatten(table.Chains)| && e == Flatten(table.Chains)[entriesVisited]
    {
      FlattenAt(table.Chains, bucketIndex, currentEntry);
      table.buckets[bucketIndex][currentEntry]
    }

    /** `moveToNext()`: step along the chain, and on to the next non-empty bucket at its end. */
    method MoveToNext()
      requires Valid() && entriesVisited < table.size
      modifies this`bucketIndex, this`currentEntry, this`entriesVisited
      ensures Valid() && entriesVisited == old(entriesVisited) + 1
    {
      entriesVisited := entriesVisited + 1;
      currentEntry := currentEntry + 1;
      if currentEntry == |table.buckets[bucketIndex]| {
        PrefixStep(table.Chains, bucketIndex);
        bucketIndex := bucketIndex + 1;
        FindNextEntry();
      }
    }

    /** `KeyIterator.next()`: the next key of the walk, or `NoSuchElementException` past the end. */
    method NextKey() returns (r: Result<K>)
      requires Valid()
      modifies this`bucketIndex, this`currentEntry, this`entriesVisited
      ensures Valid()
      ensures old(entriesVisited) < |Flatten(table.Chains)| ==>
        r == Ok(Flatten(table.Chains)[old(entriesVisited)].key) && entriesVisited == old(entriesVisited) + 1
      ensures old(entriesVisited) >= |Flatten(table.Chains)| ==> r == Err(NoSuchElement) && unchanged(this)
    {
      if !HasNext() {
        return Err(NoSuchElement);
      }
      var e := Current();
      MoveToNext();
      return Ok(e.key);
    }

    /** `ValueIterator.next()`: the next value of the walk, or `NoSuchElementException` past the end. */
    method NextValue() returns (r: Result<Option<V>>)
      requires Valid()
      modifies this`bucketIndex, this`currentEntry, this`entriesVisited
      ensures Valid()
      ensures old(entriesVisited) < |Flatten(table.Chains)| ==>
        r == Ok(Flatten(table.Chains)[old(entriesVisited)].value) && entriesVisited == old(entriesVisited) + 1
      ensures old(entriesVisited) >= |Flatten(table.Chains)| ==> r == Err(NoSuchElement) && unchanged(this)
    {
      if !HasNext() {
        return Err(NoSuchElement);
      }
      var e := Current();
      MoveToNext();
      return Ok(e.value);
    }

    /** `EntryIterator.next()`: a copy of the next entry of the walk, or `NoSuchElementException` past the end. */
    method NextEntry() returns (r: Result<Entry<K, V>>)
      requires Valid()
      modifies this`bucketIndex, this`currentEntry, this`entriesVisited
      ensures Valid()
      ensures old(entriesVisited) < |Flatten(table.Chains)| ==>
        r == Ok(Flatten(table.Chains)[old(entriesVisited)]) && entriesVisited == old(entriesVisited) + 1
      ensures old(entriesVisited) >= |Flatten(table.Chains)| ==> r == Err(NoSuchElement) && unchanged(this)
    {
      if !HasNext() {
        return Err(NoSuchElement);
      }
      var e := Current();
      MoveToNext();
      return Ok(Entry(e.key, e.value));
    }
  }
}
