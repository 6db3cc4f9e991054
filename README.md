# Verified model of the jfxdevelop containers

This project models six small sequential in-memory containers of the
`io.jfxdevelop` package in Dafny and proves what their operations do.

- **`HashTable<K, V>`** is a separate-chaining hash table.
  - It keeps a power-of-two array of buckets.
  - A key's bucket is `(h ^ (h >>> 16)) & (capacity - 1)`.
  - New keys are linked at the head of their chain.
  - Removal unlinks the entry.
  - When `size / capacity` exceeds 0.75, the table doubles by putting every entry again.
  - It keeps counters for collisions, the longest chain and resizes.
  - Cursor iterators walk the buckets in index order and each chain in link order.
- **`DynamicArray<T>`** is an array that grows: append, positional insert and remove by shifting in place, and a doubling resize.
- **`LinkedList<T>`** is singly linked with `head` and `tail`. It supports positional insert and remove, first and last access, search, and in-place reversal.
- **`Stack<T>`** is linked, with a 1-based search from the top.
- **`Queue<T>`** is linked and supports only enqueue and iteration.
- **`BinarySearchTree<T>`** is unbalanced. It has recursive insert, lookup and remove, leftmost-node search, and an in-order iterator over an explicit stack.

Modelling conventions:

- Java `null` is `Common.Option`'s `None`.
- A thrown exception is the `Err` case of `Common.Result`.
- `hashCode` is a function `K -> int` that each table is given. `equals` is Dafny equality. `compareTo` is a function `cmp: (T, T) -> int` that the tree is given.
- A tree requires `cmp` to be a total order consistent with equality: `SearchTrees.TotalOrder`.
- Each class keeps its source fields. Ghost fields give its meaning:
  - the hash table keeps `Chains` and `Contents`, the chains as values and the map they stand for. Its buckets hold each chain as a `seq<Entry<K, V>>` rather than as `Entry` objects linked by `next`, so linking at the head is a concatenation and unlinking an entry is a splice of the sequence;
  - the lists, the stack and the queue keep `Nodes` and `Contents`, the node sequence and the element sequence;
  - a tree node keeps `Tree` and `Repr`, the value tree below it and its footprint.
- Value-level lemmas carry the reasoning:
  - `HashChains` and `HashLayout` for the buckets;
  - `Sequences` for positional edits;
  - `SinglyLinked` and `LinkedLists` for node chains;
  - `SearchTrees` for ordered trees.

Files:

- `common.dfy`: `Option`, `Exception` and `Result`.
- `bits.dfy`: the bit arithmetic of the bucket index.
- `hash_chains.dfy` and `hash_table.dfy`: the hash table.
- `sequences.dfy`: positional insert, remove and reversal on sequences.
- `dynamic_array.dfy`: the dynamic array.
- `singly_linked.dfy`: the node class shared by the list, the stack and the queue.
- `linked_list.dfy`, `stack.dfy` and `queue.dfy`: those three containers.
- `search_tree.dfy` and `binary_search_tree.dfy`: the binary search tree.

## Model

| member | source | states |
|---|---|---|
| HashTables.HashTable.constructor | src/main/java/io/jfxdevelop/HashTable.java:54-61 | A new table has 16 empty buckets, maps nothing and has every statistic at zero; the table invariant holds. |
| HashTables.HashTable.WithCapacity | src/main/java/io/jfxdevelop/HashTable.java:69-79 | For a positive argument the capacity is the least power of two at least `initialCapacity` (at least it or `1 << 30`, and half of it is below the argument); the table is empty. |
| HashTables.HashTable.Create | src/main/java/io/jfxdevelop/HashTable.java:69-79 | A non-positive initial capacity gives `IllegalArgumentException`; otherwise a valid empty table with zeroed statistics whose capacity is the least power of two that reaches the argument: at least the argument (or the `1 << 30` ceiling), and 1 or less than twice the argument. |
| HashTables.HashTable.FromPairs | src/main/java/io/jfxdevelop/HashTable.java:85-90 | A null key among the pairs gives `IllegalArgumentException`; otherwise putting the pairs one after another yields a valid table mapping exactly what the pairs spell out, a later pair for a key winning. The table is pre-sized to at least 16 and at least `4 * n / 3 + 1` for `n` pairs (or the `1 << 30` ceiling), so no put resizes it: `resizeCount` stays 0. |
| HashTables.HashTable.FindNextPowerOfTwo | src/main/java/io/jfxdevelop/HashTable.java:398-404 | The result is a power of two between 1 and `1 << 30`, at least `value` unless it is the ceiling, and the least such (half of it is below `value`). |
| HashChains.IndexFor | src/main/java/io/jfxdevelop/HashTable.java:97-104 | The spread-and-mask bucket index lies in `[0, capacity)`. |
| HashChains.IndexIsRemainder | src/main/java/io/jfxdevelop/HashTable.java:103 | For a power-of-two capacity, masking with `capacity - 1` picks the spread hash's remainder modulo the capacity. |
| Bits.AndLowMaskIsMod | src/main/java/io/jfxdevelop/HashTable.java:103 | `x & (c - 1) == x % c` for every power of two `c`. |
| Bits.DoubleIsPowerOfTwo | src/main/java/io/jfxdevelop/HashTable.java:374 | Doubling the capacity keeps it a power of two. |
| Bits.Pow30IsPowerOfTwo | src/main/java/io/jfxdevelop/HashTable.java:48 | The capacity ceiling `1 << 30` is a power of two. |
| HashTables.HashTable.Hash | src/main/java/io/jfxdevelop/HashTable.java:97-104 | The index is in `[0, capacity)` and, for a non-null key, is the spread-and-mask index of its `hashCode`. |
| HashTables.HashTable.FindEntry | src/main/java/io/jfxdevelop/HashTable.java:121-127 | The chain walk returns the first position of the chain whose key equals `k`, or -1 when no entry of the chain has that key. |
| HashTables.HashTable.Get | src/main/java/io/jfxdevelop/HashTable.java:155-171 | A null key gives `IllegalArgumentException`; otherwise the value mapped to the key, or null when the key is absent. |
| HashTables.HashTable.Put | src/main/java/io/jfxdevelop/HashTable.java:112-147 | A null key is refused and nothing changes; otherwise the map is updated at the key, `size` grows only for a new key, the capacity doubles, counting one resize, exactly when a new key pushes `size / capacity` past 0.75 below the ceiling and stays otherwise, and the load bound `4*size <= 3*capacity` holds afterwards unless at the ceiling. |
| HashTables.HashTable.PutKey | src/main/java/io/jfxdevelop/HashTable.java:117-146 | The map is updated at the key; the table doubles, counting one resize, exactly when a new key pushes `size / capacity` past 0.75 below the ceiling; a present key keeps the statistics and every chain's keys in order; a new key without growth goes to the head of its bucket's chain, counts a collision exactly when that chain was not empty, and raises `maxChainLength` to the chain's new length when it is longer. |
| HashTables.HashTable.SetValueAt | src/main/java/io/jfxdevelop/HashTable.java:121-125 | Overwriting in place changes that key's value and nothing else: every chain keeps its keys. |
| HashTables.HashTable.InsertNew | src/main/java/io/jfxdevelop/HashTable.java:129-146 | A new key is added with its value, `size` grows by one, and the resize happens exactly when the load factor is exceeded below the ceiling. |
| HashTables.HashTable.LinkAtHead | src/main/java/io/jfxdevelop/HashTable.java:129-141 | The new entry becomes the head of its chain, `size` grows by one, a collision is counted exactly when the chain was non-empty, and the longest-chain count becomes the larger of itself and the new chain's length. |
| HashTables.HashTable.ChainLength | src/main/java/io/jfxdevelop/HashTable.java:410-418 | The walk from the head along the links counts exactly the entries of the chain. |
| HashTables.HashTable.Resize | src/main/java/io/jfxdevelop/HashTable.java:368-391 | At the ceiling nothing changes; otherwise the capacity doubles into fresh buckets, one resize is counted, and the key-to-value mapping and `size` are preserved. |
| HashTables.HashTable.ResetBuckets | src/main/java/io/jfxdevelop/HashTable.java:373-379 | Fresh empty buckets of the new power-of-two capacity, with size, collisions and longest chain back at zero and the resize count kept. |
| HashTables.HashTable.Rehash | src/main/java/io/jfxdevelop/HashTable.java:381-388 | Putting the old chains bucket by bucket yields exactly the map they spell out, with `size` their total length. |
| HashTables.HashTable.PutChain | src/main/java/io/jfxdevelop/HashTable.java:382-387 | Putting one old chain adds exactly its pairs and its length, and triggers no nested resize. |
| HashTables.HashTable.Remove | src/main/java/io/jfxdevelop/HashTable.java:190-214 | A null key is refused and an absent key yields null, both changing nothing; a present key's value is returned, the key leaves the map, every other mapping stays, and `size` drops by one. |
| HashTables.HashTable.UnlinkAt | src/main/java/io/jfxdevelop/HashTable.java:199-207 | Exactly the matching entry leaves its chain (head or mid-chain), its key leaves the map, and `size` drops by one. |
| HashTables.HashTable.GetOrDefault | src/main/java/io/jfxdevelop/HashTable.java:179-182 | The stored value when it is present and non-null, the default otherwise; a null key is refused. |
| HashTables.HashTable.ContainsKey | src/main/java/io/jfxdevelop/HashTable.java:221-226 | True exactly when the key maps to a non-null value (a stored null counts as absent); a null key is refused. |
| HashTables.HashTable.ContainsValue | src/main/java/io/jfxdevelop/HashTable.java:233-244 | In the walk order of the stored values: `true` at the first entry holding the value, `NullPointerException` when a non-null value meets a stored null first, otherwise `false`. A normal answer is true exactly when some key is mapped to the value, and a table without null values always answers normally. |
| HashTables.HashTable.ScanValues | src/main/java/io/jfxdevelop/HashTable.java:234-242 | The bucket-by-bucket walk of each chain in link order stops with `true` at the first entry holding the value, with `NullPointerException` at a stored null met first by a non-null value, and otherwise finishes with `false`. |
| HashTables.HashTable.Size | src/main/java/io/jfxdevelop/HashTable.java:249-251 | The number of keys in the map. |
| HashTables.HashTable.IsEmpty | src/main/java/io/jfxdevelop/HashTable.java:256-258 | True exactly when the map is empty. |
| HashTables.HashTable.Clear | src/main/java/io/jfxdevelop/HashTable.java:264-269 | Fresh empty buckets of the same capacity, the map empty, size and statistics zero, the resize count kept. |
| HashTables.HashTable.Keys | src/main/java/io/jfxdevelop/HashTable.java:275-281 | The keys in bucket-then-chain order: exactly the map's keys, `size` of them, none repeated. |
| HashTables.HashTable.Values | src/main/java/io/jfxdevelop/HashTable.java:287-297 | The values in bucket-then-chain order, `size` of them, each the value of some key. |
| HashTables.HashTable.Entries | src/main/java/io/jfxdevelop/HashTable.java:303-313 | The entries in bucket-then-chain order, `size` of them, with distinct keys; each is a pair of the map and every key of the map occurs. |
| HashLayout.Lookup | src/main/java/io/jfxdevelop/HashTable.java:155-171 | A key is in the map exactly when its own bucket's chain holds it, and any entry found there carries the mapped value. |
| HashLayout.PutNew | src/main/java/io/jfxdevelop/HashTable.java:129-133 | Head insertion of an absent key into its bucket represents the map extended with that key. |
| HashLayout.Overwrite | src/main/java/io/jfxdevelop/HashTable.java:121-125 | Replacing the value of an entry in place represents the map with that key's value replaced. |
| HashLayout.Unlink | src/main/java/io/jfxdevelop/HashTable.java:199-207 | Unlinking an entry represents the map without its key. |
| HashLayout.EmptyInv | src/main/java/io/jfxdevelop/HashTable.java:264-269 | Empty chains satisfy the table invariant for the empty map with size and longest chain zero. |
| HashLayout.PutNewInv | src/main/java/io/jfxdevelop/HashTable.java:129-141 | Head insertion keeps the whole table invariant with one more key and size, and the longest chain possibly longer. |
| HashLayout.OverwriteInv | src/main/java/io/jfxdevelop/HashTable.java:121-125 | An in-place overwrite keeps the table invariant with the same size and longest chain. |
| HashLayout.UnlinkInv | src/main/java/io/jfxdevelop/HashTable.java:199-211 | Unlinking keeps the table invariant with one key fewer and `size - 1`; the longest-chain count stays an upper bound. |
| HashLayout.MapOfChainsIsMap | src/main/java/io/jfxdevelop/HashTable.java:381-388 | Putting the chains of a table in bucket order spells out exactly the map they represent, so a resize preserves the mapping. |
| HashLayout.ChainIsNew | src/main/java/io/jfxdevelop/HashTable.java:381-388 | Each old chain repeats no key and shares none with earlier buckets, so the re-puts of a resize always insert new keys. |
| HashLayout.FlattenRepresents | src/main/java/io/jfxdevelop/HashTable.java:483-516 | The bucket-then-chain walk meets every key of the map exactly once, each time with the map's value, and nothing else. |
| HashLayout.FlattenKeys | src/main/java/io/jfxdevelop/HashTable.java:275-281 | The keys of the walk are exactly the map's keys, none twice. |
| HashLayout.ValuesReflectMap | src/main/java/io/jfxdevelop/HashTable.java:233-244 | Some key is mapped to a value exactly when some stored entry holds it, and a map without null values leaves no null among the stored values. |
| HashChains.FlattenDistinct | src/main/java/io/jfxdevelop/HashTable.java:483-516 | Chains whose keys each hash to their own bucket and are distinct within it give a walk with no repeated key. |
| HashChains.FlattenLength | src/main/java/io/jfxdevelop/HashTable.java:505 | The walk has exactly as many entries as all chains together, the bound `hasNext` compares with. |
| HashTables.HashTableIterator.constructor | src/main/java/io/jfxdevelop/HashTable.java:488-490 | A new cursor has yielded nothing and stands on the first entry of the walk. |
| HashTables.HashTableIterator.FindNextEntry | src/main/java/io/jfxdevelop/HashTable.java:492-501 | Skipping empty buckets puts the cursor on the next entry of the walk without yielding anything. |
| HashTables.HashTableIterator.HasNext | src/main/java/io/jfxdevelop/HashTable.java:504-506 | True exactly when fewer entries have been yielded than the walk holds. |
| HashTables.HashTableIterator.Current | src/main/java/io/jfxdevelop/HashTable.java:527 | The entry under the cursor is the next entry of the walk. |
| HashTables.HashTableIterator.MoveToNext | src/main/java/io/jfxdevelop/HashTable.java:508-515 | Stepping along the chain, and on to the next non-empty bucket at its end, advances exactly one entry of the walk. |
| HashTables.HashTableIterator.NextKey | src/main/java/io/jfxdevelop/HashTable.java:523-530 | The next key of the walk and one step on, or `NoSuchElementException` with nothing changed once all are yielded. |
| HashTables.HashTableIterator.NextValue | src/main/java/io/jfxdevelop/HashTable.java:538-545 | The next value of the walk and one step on, or `NoSuchElementException` once all are yielded. |
| HashTables.HashTableIterator.NextEntry | src/main/java/io/jfxdevelop/HashTable.java:553-560 | The next entry of the walk and one step on, or `NoSuchElementException` once all are yielded. |
| DynamicArrays.DynamicArray.constructor | src/main/java/io/jfxdevelop/DynamicArray.java:15-22 | No elements and ten slots; `0 <= size <= capacity == buffer.Length` holds. |
| DynamicArrays.DynamicArray.WithCapacity | src/main/java/io/jfxdevelop/DynamicArray.java:24-35 | For a positive argument, no elements and exactly that many slots. |
| DynamicArrays.DynamicArray.Create | src/main/java/io/jfxdevelop/DynamicArray.java:24-35 | A non-positive capacity gives `IllegalArgumentException`; otherwise an empty array of that capacity. |
| DynamicArrays.ArrayCopy | src/main/java/io/jfxdevelop/DynamicArray.java:58 | `System.arraycopy`: the destination becomes its old prefix, the old source range, and its old suffix, even when the two ranges overlap in one array. |
| DynamicArrays.DynamicArray.Resize | src/main/java/io/jfxdevelop/DynamicArray.java:44-50 | The elements are unchanged in a fresh buffer; a full array grows to `max(2*capacity, 10)`, otherwise the capacity stays. |
| DynamicArrays.DynamicArray.Add | src/main/java/io/jfxdevelop/DynamicArray.java:37-42 | The elements become the old ones followed by the new one. When there was room the buffer and capacity are kept; when it was full the buffer is new and the capacity is `max(2 * capacity, 10)`. |
| DynamicArrays.DynamicArray.Insert | src/main/java/io/jfxdevelop/DynamicArray.java:51-61 | An index outside `[0, size]` gives `IndexOutOfBoundsException` with nothing changed; otherwise the elements become `old[..index] + [e] + old[index..]`, the buffer and capacity are kept when there was room, and a full buffer is replaced by a new one of capacity `max(2 * capacity, 10)`. |
| DynamicArrays.DynamicArray.ShiftIn | src/main/java/io/jfxdevelop/DynamicArray.java:58-60 | With a free slot, shifting the tail right and writing the slot inserts the element at the index. |
| DynamicArrays.DynamicArray.Remove | src/main/java/io/jfxdevelop/DynamicArray.java:62-73 | An index outside `[0, size)` is refused with nothing changed; otherwise the element at the index is returned, the elements lose that position, the vacated slot is null, and buffer and capacity stay. |
| DynamicArrays.DynamicArray.Get | src/main/java/io/jfxdevelop/DynamicArray.java:74-79 | The element at the index, or `IndexOutOfBoundsException` outside `[0, size)`. |
| DynamicArrays.DynamicArray.Set | src/main/java/io/jfxdevelop/DynamicArray.java:80-85 | Only the element at the index changes; outside `[0, size)` it is refused. |
| DynamicArrays.DynamicArray.Size | src/main/java/io/jfxdevelop/DynamicArray.java:86-88 | The number of elements. |
| DynamicArrays.DynamicArray.Capacity | src/main/java/io/jfxdevelop/DynamicArray.java:90-92 | The buffer length, never below the number of elements. |
| DynamicArrays.DynamicArray.IsEmpty | src/main/java/io/jfxdevelop/DynamicArray.java:93-95 | True exactly when there are no elements. |
| DynamicArrays.DynamicArray.Clear | src/main/java/io/jfxdevelop/DynamicArray.java:96-101 | No elements, every slot null, same buffer and capacity. |
| DynamicArrays.DynamicArray.IndexOf | src/main/java/io/jfxdevelop/DynamicArray.java:102-109 | The first index holding an equal element, or -1 when there is none; `NullPointerException` when the scan reaches a stored null first. |
| DynamicArrays.DynamicArray.Contains | src/main/java/io/jfxdevelop/DynamicArray.java:110-112 | True exactly when the element is stored, whenever `indexOf` does not throw. |
| DynamicArrays.DynamicArrayIterator.constructor | src/main/java/io/jfxdevelop/DynamicArray.java:115-117 | The iterator starts at position 0. |
| DynamicArrays.DynamicArrayIterator.HasNext | src/main/java/io/jfxdevelop/DynamicArray.java:118-120 | True exactly when an element is left. |
| DynamicArrays.DynamicArrayIterator.Next | src/main/java/io/jfxdevelop/DynamicArray.java:121-123 | The position always advances by one. The result is the element there while one is left, the empty (null) slot past the elements but inside the backing array, and `ArrayIndexOutOfBoundsException` (as `IndexOutOfBounds`) beyond it. |
| Sequences.Inserted | src/main/java/io/jfxdevelop/DynamicArray.java:51-61 | Positional insert: one longer, the new element at the index, earlier elements in place, later ones one place right. |
| Sequences.Removed | src/main/java/io/jfxdevelop/DynamicArray.java:62-73 | Positional remove: one shorter, earlier elements in place, later ones one place left. |
| Sequences.RemoveInserted | src/main/java/io/jfxdevelop/DynamicArray.java:51-73 | Removing at the index just inserted at gives back the original. |
| Sequences.InsertRemoved | src/main/java/io/jfxdevelop/LinkedList.java:48-115 | Inserting a removed element back at its index gives back the original. |
| Sequences.Reversed | src/main/java/io/jfxdevelop/LinkedList.java:171-182 | The reversal has the same length, element `i` being the old element `|s| - 1 - i`. |
| Sequences.ReversedReversed | src/main/java/io/jfxdevelop/LinkedList.java:171-182 | Reversing twice gives back the original. |
| SinglyLinked.Node.constructor | src/main/java/io/jfxdevelop/LinkedList.java:11-14 | A node holds its element and links to nothing. |
| SinglyLinked.LinkedLast | src/main/java/io/jfxdevelop/LinkedList.java:34-44 | Linking a fresh node after the last one gives a chain of the nodes followed by the new node, holding the elements followed by its element. |
| LinkedLists.LinkedBetween | src/main/java/io/jfxdevelop/LinkedList.java:56-62 | Linking a node between positions `k - 1` and `k` gives the chain with the node inserted at `k`. |
| LinkedLists.UnlinkedBetween | src/main/java/io/jfxdevelop/LinkedList.java:104-110 | Linking position `k - 1` to `k + 1` gives the chain without position `k`. |
| LinkedLists.CutLast | src/main/java/io/jfxdevelop/LinkedList.java:86-92 | Cutting the link to the last node gives the chain without its last node. |
| LinkedLists.ReversedChain | src/main/java/io/jfxdevelop/LinkedList.java:171-182 | Links all turned backwards make the reversed node sequence a chain holding the reversed elements. |
| LinkedLists.LinkedList.constructor | src/main/java/io/jfxdevelop/LinkedList.java:21-25 | The empty list. |
| LinkedLists.LinkedList.AddFirst | src/main/java/io/jfxdevelop/LinkedList.java:27-33 | The elements become the new one followed by the old ones; on an empty list the new node is also the tail. |
| LinkedLists.LinkedList.AddLast | src/main/java/io/jfxdevelop/LinkedList.java:34-44 | The elements become the old ones followed by the new one, and the new node is the tail (and the head of an empty list). |
| LinkedLists.LinkedList.Add | src/main/java/io/jfxdevelop/LinkedList.java:45-47 | The same as `addLast`. |
| LinkedLists.LinkedList.NodeAt | src/main/java/io/jfxdevelop/LinkedList.java:132-135 | The walk stops at the node at the index. |
| LinkedLists.LinkedList.Insert | src/main/java/io/jfxdevelop/LinkedList.java:48-66 | An index outside `[0, size]` is refused with nothing changed; otherwise the elements become `old[..index] + [e] + old[index..]`. |
| LinkedLists.LinkedList.LinkAfter | src/main/java/io/jfxdevelop/LinkedList.java:56-64 | The middle case of `insert` inserts the element at the index. |
| LinkedLists.LinkedList.RemoveFirst | src/main/java/io/jfxdevelop/LinkedList.java:67-76 | `NoSuchElementException` on the empty list; otherwise the first element is returned and dropped. |
| LinkedLists.LinkedList.RemoveLast | src/main/java/io/jfxdevelop/LinkedList.java:77-95 | `NoSuchElementException` on the empty list; otherwise the last element is returned and dropped, and its predecessor becomes the tail. |
| LinkedLists.LinkedList.Remove | src/main/java/io/jfxdevelop/LinkedList.java:96-115 | An index outside `[0, size)` is refused with nothing changed; otherwise the element at the index is returned and that position dropped, with the tail kept right. |
| LinkedLists.LinkedList.UnlinkAfter | src/main/java/io/jfxdevelop/LinkedList.java:104-112 | The middle case of `remove` returns the element at the index and drops that position. |
| LinkedLists.LinkedList.GetFirst | src/main/java/io/jfxdevelop/LinkedList.java:116-121 | The first element, or `NoSuchElementException` on the empty list. |
| LinkedLists.LinkedList.GetLast | src/main/java/io/jfxdevelop/LinkedList.java:122-127 | The tail's element, which is the last element of a valid list; `NoSuchElementException` when `tail` is null. |
| LinkedLists.LinkedList.Get | src/main/java/io/jfxdevelop/LinkedList.java:128-137 | The element at the index, or `IndexOutOfBoundsException` outside `[0, size)`. |
| LinkedLists.LinkedList.Set | src/main/java/io/jfxdevelop/LinkedList.java:138-147 | Only the element at the index changes, the nodes stay; outside `[0, size)` it is refused. |
| LinkedLists.LinkedList.Size | src/main/java/io/jfxdevelop/LinkedList.java:148-150 | The number of elements. |
| LinkedLists.LinkedList.IsEmpty | src/main/java/io/jfxdevelop/LinkedList.java:151-153 | True exactly when there are no elements. |
| LinkedLists.LinkedList.Clear | src/main/java/io/jfxdevelop/LinkedList.java:154-158 | The empty list. |
| LinkedLists.LinkedList.IndexOf | src/main/java/io/jfxdevelop/LinkedList.java:159-166 | The first position holding an equal element, or -1; `NullPointerException` when the walk reaches a stored null first. |
| LinkedLists.LinkedList.Contains | src/main/java/io/jfxdevelop/LinkedList.java:167-169 | True exactly when the element is stored, whenever `indexOf` does not throw. |
| LinkedLists.LinkedList.ReverseLinks | src/main/java/io/jfxdevelop/LinkedList.java:173-179 | The loop turns every link to the predecessor, ends with a null cursor, and returns the old last node. |
| LinkedLists.LinkedList.ReverseAsWritten | src/main/java/io/jfxdevelop/LinkedList.java:171-182 | The elements and nodes are reversed and linked from `head`, but `tail` is null, so a non-empty list no longer satisfies the full invariant. |
| LinkedLists.ReverseLosesTail | src/main/java/io/jfxdevelop/LinkedList.java:171-182 | A one-element list, reversed as written, answers `getLast()` with `NoSuchElementException`. |
| LinkedLists.LinkedList.Reverse | src/main/java/io/jfxdevelop/LinkedList.java:171-182 | With the old head as the new tail, the list stays valid and holds the reversed elements. |
| LinkedLists.LinkedListIterator.constructor | src/main/java/io/jfxdevelop/LinkedList.java:184-186 | The cursor starts at the head. |
| LinkedLists.LinkedListIterator.HasNext | src/main/java/io/jfxdevelop/LinkedList.java:187-189 | True exactly when an element is left. |
| LinkedLists.LinkedListIterator.Next | src/main/java/io/jfxdevelop/LinkedList.java:190-194 | The elements front to back, one per call. |
| Stacks.Stack.constructor | src/main/java/io/jfxdevelop/Stack.java:23-26 | The empty stack. |
| Stacks.Stack.Push | src/main/java/io/jfxdevelop/Stack.java:29-34 | The element goes on top; the nodes below are the old ones, unchanged. |
| Stacks.Stack.Pop | src/main/java/io/jfxdevelop/Stack.java:37-47 | `EmptyStackException` with nothing changed on the empty stack; otherwise the top element is returned and removed. |
| Stacks.PushThenPop | src/main/java/io/jfxdevelop/Stack.java:29-47 | `push(x); pop()` returns `x` and restores the previous elements and nodes. |
| Stacks.Stack.Top | src/main/java/io/jfxdevelop/Stack.java:49-54 | The top element, or `EmptyStackException` on the empty stack. |
| Stacks.Stack.IsEmpty | src/main/java/io/jfxdevelop/Stack.java:56-58 | True exactly when there are no elements. |
| Stacks.Stack.Size | src/main/java/io/jfxdevelop/Stack.java:60-62 | The number of elements. |
| Stacks.Stack.Clear | src/main/java/io/jfxdevelop/Stack.java:64-67 | The empty stack. |
| Stacks.Stack.Search | src/main/java/io/jfxdevelop/Stack.java:69-83 | The 1-based position from the top of the first equal element (two nulls being equal), or -1 exactly when there is none. |
| Stacks.Stack.Contains | src/main/java/io/jfxdevelop/Stack.java:85-87 | True exactly when the element is on the stack. |
| Stacks.StackIterator.constructor | src/main/java/io/jfxdevelop/Stack.java:92 | The cursor starts at the top. |
| Stacks.StackIterator.HasNext | src/main/java/io/jfxdevelop/Stack.java:95-97 | True exactly when an element is left. |
| Stacks.StackIterator.Next | src/main/java/io/jfxdevelop/Stack.java:100-107 | The elements top to bottom, one per call, then `NoSuchElementException` with nothing changed. |
| Queues.Queue.constructor | src/main/java/io/jfxdevelop/Queue.java:21-25 | The empty queue. |
| Queues.Queue.Enqueue | src/main/java/io/jfxdevelop/Queue.java:27-38 | A null element gives `IllegalArgumentException` with nothing changed; otherwise the element is appended at the rear, and the queue never holds null. |
| Queues.Queue.Add | src/main/java/io/jfxdevelop/Queue.java:40-42 | The same as `enqueue`. |
| Queues.Queue.Empty | src/main/java/io/jfxdevelop/Queue.java:44-46 | True exactly when there are no elements. |
| Queues.Queue.Size | src/main/java/io/jfxdevelop/Queue.java:48-50 | The number of elements, one per successful enqueue. |
| Queues.QueueIterator.constructor | src/main/java/io/jfxdevelop/Queue.java:57 | The cursor starts at the front. |
| Queues.QueueIterator.HasNext | src/main/java/io/jfxdevelop/Queue.java:60-62 | True exactly when an element is left. |
| Queues.QueueIterator.Next | src/main/java/io/jfxdevelop/Queue.java:65-69 | The elements in enqueue order, one per call, none of them null. |
| SearchTrees.InOrderElements | src/main/java/io/jfxdevelop/BinarySearchTree.java:112-139 | The in-order walk visits exactly the elements of the tree. |
| SearchTrees.InOrderAscending | src/main/java/io/jfxdevelop/BinarySearchTree.java:112-139 | On an ordered tree the in-order walk is strictly ascending under `compareTo`, so no element comes twice. |
| SearchTrees.AscendingJoin | src/main/java/io/jfxdevelop/BinarySearchTree.java:121-138 | Two ascending runs with a pivot between them form one ascending run. |
| SearchTrees.InsertOrdered | src/main/java/io/jfxdevelop/BinarySearchTree.java:34-46 | Insertion keeps left < node < right everywhere, and the element set becomes the old one plus the element. |
| SearchTrees.InsertPresent | src/main/java/io/jfxdevelop/BinarySearchTree.java:41-44 | Inserting an element that compares equal to a stored one leaves the tree as it was. |
| SearchTrees.MinOfIn | src/main/java/io/jfxdevelop/BinarySearchTree.java:78-81 | The leftmost element is an element of the tree. |
| SearchTrees.MinOfLeast | src/main/java/io/jfxdevelop/BinarySearchTree.java:78-88 | The leftmost element of an ordered tree is stored and compares below every other element. |
| SearchTrees.RemoveElements | src/main/java/io/jfxdevelop/BinarySearchTree.java:62-76 | Removal takes away exactly the element, including when a two-child node takes over its right subtree's minimum. |
| SearchTrees.RemoveOrdered | src/main/java/io/jfxdevelop/BinarySearchTree.java:62-76 | Removal keeps left < node < right everywhere. |
| SearchTrees.RemoveAbsent | src/main/java/io/jfxdevelop/BinarySearchTree.java:62-76 | Removing an element the tree does not hold leaves the tree as it was. |
| BinarySearchTrees.Node.constructor | src/main/java/io/jfxdevelop/BinarySearchTree.java:12-16 | A leaf holding the element. |
| BinarySearchTrees.BinarySearchTree.constructor | src/main/java/io/jfxdevelop/BinarySearchTree.java:23-26 | The empty tree, with `size` 0. |
| BinarySearchTrees.BinarySearchTree.InsertRecursive | src/main/java/io/jfxdevelop/BinarySearchTree.java:34-46 | The returned subtree root is the old one (or a new leaf for a null link), the subtree becomes the insertion of the element, and only new nodes are added. |
| BinarySearchTrees.BinarySearchTree.InsertLeft | src/main/java/io/jfxdevelop/BinarySearchTree.java:37-38 | An element below the node's goes into the left subtree: the node stays valid and its subtree becomes the insertion of the element. |
| BinarySearchTrees.BinarySearchTree.InsertRight | src/main/java/io/jfxdevelop/BinarySearchTree.java:39-40 | An element above the node's goes into the right subtree: the node stays valid and its subtree becomes the insertion of the element. |
| BinarySearchTrees.BinarySearchTree.Insert | src/main/java/io/jfxdevelop/BinarySearchTree.java:28-32 | A null element gives `IllegalArgumentException`; otherwise the tree stays ordered, its elements become the old ones plus the element, an equal element leaves it as it was, and `size` is untouched. |
| BinarySearchTrees.BinarySearchTree.ContainsRecursive | src/main/java/io/jfxdevelop/BinarySearchTree.java:51-57 | On an ordered subtree, the search answers true exactly when the element is in it. |
| BinarySearchTrees.BinarySearchTree.Contains | src/main/java/io/jfxdevelop/BinarySearchTree.java:48-50 | False on the empty tree whatever the argument; `NullPointerException` for null on a non-empty tree; otherwise whether the element is stored. |
| BinarySearchTrees.BinarySearchTree.RemoveRecursive | src/main/java/io/jfxdevelop/BinarySearchTree.java:62-76 | The returned subtree is the removal of the element from the old one, built from old nodes only. |
| BinarySearchTrees.BinarySearchTree.RemoveLeft | src/main/java/io/jfxdevelop/BinarySearchTree.java:65 | An element below the node's is removed from the left subtree; the node keeps its footprint and its subtree becomes the removal of the element. |
| BinarySearchTrees.BinarySearchTree.RemoveRight | src/main/java/io/jfxdevelop/BinarySearchTree.java:66 | An element above the node's is removed from the right subtree, with the same guarantees. |
| BinarySearchTrees.BinarySearchTree.ReplaceByMin | src/main/java/io/jfxdevelop/BinarySearchTree.java:70-73 | A found node with two children takes the least element of its right subtree, which leaves that subtree; the result is the removal of the element. |
| BinarySearchTrees.BinarySearchTree.Remove | src/main/java/io/jfxdevelop/BinarySearchTree.java:59-61 | The tree stays ordered and loses exactly the element; an absent element leaves it as it was; an empty tree stays empty; null on a non-empty tree gives `NullPointerException`; `size` is untouched. |
| BinarySearchTrees.BinarySearchTree.FindMin | src/main/java/io/jfxdevelop/BinarySearchTree.java:78-81 | The loop down the left links returns the leftmost element. |
| BinarySearchTrees.BinarySearchTree.FindMinRecursive | src/main/java/io/jfxdevelop/BinarySearchTree.java:85-88 | The recursion returns the leftmost element. |
| BinarySearchTrees.BinarySearchTree.FindMinimum | src/main/java/io/jfxdevelop/BinarySearchTree.java:82-84 | `NullPointerException` on the empty tree; otherwise a stored element that compares below every other one. |
| BinarySearchTrees.BinarySearchTree.Size | src/main/java/io/jfxdevelop/BinarySearchTree.java:89-91 | The `size` field, which is the element count only when it has been kept counted. |
| BinarySearchTrees.BinarySearchTree.IsEmpty | src/main/java/io/jfxdevelop/BinarySearchTree.java:93-95 | True exactly when `size` is 0, which means "no elements" only when it has been kept counted. |
| BinarySearchTrees.BinarySearchTree.Clear | src/main/java/io/jfxdevelop/BinarySearchTree.java:97-100 | No elements and `size` 0. |
| BinarySearchTrees.SizeAfterInsert | src/main/java/io/jfxdevelop/BinarySearchTree.java:89-95 | After inserting one element into a new tree, `size()` is 0 and `isEmpty()` is true. |
| BinarySearchTrees.BinarySearchTree.InsertCounted | src/main/java/io/jfxdevelop/BinarySearchTree.java:28-32 | `insert` with the count kept: afterwards `size` equals the number of elements. |
| BinarySearchTrees.BinarySearchTree.RemoveCounted | src/main/java/io/jfxdevelop/BinarySearchTree.java:59-61 | `remove` with the count kept: afterwards `size` equals the number of elements. |
| BinarySearchTrees.CountedSizeAfterInsert | src/main/java/io/jfxdevelop/BinarySearchTree.java:89-95 | With the count kept, one insert into a new tree gives `size()` 1 and `isEmpty()` false. |
| BinarySearchTrees.PendingStep | src/main/java/io/jfxdevelop/BinarySearchTree.java:121-126 | Pushing a node puts its left subtree's walk, its element and its right subtree's walk in front of what was pending. |
| BinarySearchTrees.StackedPush | src/main/java/io/jfxdevelop/BinarySearchTree.java:123 | A valid node of the tree can be pushed onto the iterator's stack. |
| BinarySearchTrees.StackedPop | src/main/java/io/jfxdevelop/BinarySearchTree.java:135 | Popping keeps every remaining stacked node valid. |
| BinarySearchTrees.BinarySearchTreeIterator.constructor | src/main/java/io/jfxdevelop/BinarySearchTree.java:113-119 | The elements still to come are the whole in-order walk: strictly ascending, without repeats, and exactly the tree's elements. |
| BinarySearchTrees.BinarySearchTreeIterator.PushLeft | src/main/java/io/jfxdevelop/BinarySearchTree.java:121-126 | Pushing the left spine of a node puts its whole in-order walk in front of what was still to come. |
| BinarySearchTrees.BinarySearchTreeIterator.HasNext | src/main/java/io/jfxdevelop/BinarySearchTree.java:128-131 | True exactly when some element is still to come. |
| BinarySearchTrees.BinarySearchTreeIterator.Next | src/main/java/io/jfxdevelop/BinarySearchTree.java:133-138 | The next element in order, which then leaves what is still to come; `EmptyStackException` with nothing changed once all are yielded. |

## Left out

- `HashTable.printStatistics` and every `toString` are left out. They are console and string formatting built on the elements' own `toString` and on floating-point averages.
- `keyStream`, `valueStream`, `entryStream`, `iterator()`, `valuesIterable()`, `entriesIterable()` and the package-private getters are left out. They are thin wrappers over `java.util.stream` or over the iterator classes that are modelled.
- The load-factor test `(double) size / capacity > 0.75` is modelled as the integer test `4 * size > 3 * capacity`. The two agree for all `int` values the table can reach.
- Java's 32-bit `int` overflow is not modelled. Capacity doubling stops at the `1 << 30` ceiling, as in the source, and sizes are unbounded integers.
- `HashTables.HashTable.FromPairs` takes the map's entries as a sequence in iteration order, because `java.util.Map` iteration order is not part of this model. A null key is an entry whose key is `None`.
- The hash table's chains are values, not `Entry` objects linked through `next`. Sharing of entries between tables or iterators, and in-place relinking as such, are not modelled; the resulting chain order is.
- `maxChainLength` is kept as an upper bound on every chain's length. `remove` never lowers it, as in the source, so it is not always the exact maximum.
- `hashCode`, `equals` and `compareTo` are modelled as given functions. `equals` is Dafny equality. `compareTo` is assumed to be a total order consistent with `equals` (`SearchTrees.TotalOrder`), which the tree's constructor requires.
- Iteration while the container is being changed is not modelled, except for the dynamic array's iterator, which reads the array's live state as the source does. The other iterators' invariants assume the container stays as it was when iteration began.
- `LinkedLists.LinkedListIterator.Next` and `Queues.QueueIterator.Next` require `hasNext()`. In the source, `next()` past the end dereferences a null node and throws `NullPointerException`.
- `LinkedLists.LinkedList.UnlinkAfter`: the branch at `LinkedList.java:111` that sets `tail` is unreachable, because its node is never the last one. The model proves it dead rather than executing it.
- `List`, `Stack` and `Queue` nodes share one node class (`SinglyLinked.Node`). The three source `Node` classes are identical.
- `BinarySearchTrees.BinarySearchTree.Size` and `IsEmpty` only relate to the element count while `Counted()` holds. The source never keeps `size` counted (see Findings).

## Findings

| source | as written | input that shows it | evidently intended | confidence | as-written member | corrected member |
|---|---|---|---|---|---|---|
| src/main/java/io/jfxdevelop/LinkedList.java:171-182 | `reverse` ends with `tail = current`, and `current` is null when the loop ends | a list holding one element, `reverse()`, then `getLast()` throws `NoSuchElementException` | the old head, now the last node, becomes the tail | high, not executed | LinkedLists.LinkedList.ReverseAsWritten | LinkedLists.LinkedList.Reverse |
| src/main/java/io/jfxdevelop/BinarySearchTree.java:28-32 | `insert` and `remove` never update `size`; only the constructor and `clear` write it | a new tree, `insert(x)`, then `size()` is 0 and `isEmpty()` is true | `size` counts the stored elements | high, not executed | BinarySearchTrees.SizeAfterInsert | BinarySearchTrees.BinarySearchTree.InsertCounted |
