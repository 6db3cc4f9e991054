/**
 * The value-level vocabulary of the hash table: entries, chains (the linked
 * list hanging off one bucket, in link order, head first), the bucket index,
 * and the concatenation of all chains in bucket order that iteration walks.
 */
module HashChains {
  import opened Common
  import opened Bits

  const DEFAULT_CAPACITY: int := 16
  const MAX_CAPACITY: int := 0x4000_0000   // 1 << 30

  /** One `HashTable.Entry`: an immutable key and its (nullable) value; the `next` link is the chain's order. */
  datatype Entry<K, V> = Entry(key: K, value: Option<V>)

  /**
   * The bucket index of a key whose `hashCode()` is `h`:
   * `(h ^ (h >>> 16)) & (capacity - 1)` on the 32-bit pattern of `h`.
   */
  function IndexFor(h: int, capacity: int): (r: int)
    requires 1 <= capacity
    ensures 0 <= r < capacity
  {
    AndAtMost(Spread(Unsigned(h)), capacity - 1);
    And(Spread(Unsigned(h)), capacity - 1)
  }

  /** Because the capacity is a power of two, the mask picks the same bucket as a remainder would. */
  lemma IndexIsRemainder(h: int, capacity: int)
    requires IsPowerOfTwo(capacity)
    ensures IndexFor(h, capacity) == Spread(Unsigned(h)) % capacity
  {
    AndLowMaskIsMod(Spread(Unsigned(h)), capacity);
  }

  predicate HasKey<K(==), V>(chain: seq<Entry<K, V>>, k: K)
  {
    exists j :: 0 <= j < |chain| && chain[j].key == k
  }

  predicate DistinctKeys<K(==), V>(chain: seq<Entry<K, V>>)
  {
    forall i, j :: 0 <= i < j < |chain| ==> chain[i].key != chain[j].key
  }

  function KeysOf<K, V>(s: seq<Entry<K, V>>): (ks: seq<K>)
    ensures |ks| == |s| && forall i :: 0 <= i < |s| ==> ks[i] == s[i].key
  {
    seq(|s|, i requires 0 <= i < |s| => s[i].key)
  }

  function ValuesOf<K, V>(s: seq<Entry<K, V>>): (vs: seq<Option<V>>)
    ensures |vs| == |s| && forall i :: 0 <= i < |s| ==> vs[i] == s[i].value
  {
    seq(|s|, i requires 0 <= i < |s| => s[i].value)
  }

  /** Appending an entry appends its key. */
  lemma KeysOfSnoc<K, V>(s: seq<Entry<K, V>>, e: Entry<K, V>)
    ensures KeysOf(s + [e]) == KeysOf(s) + [e.key]
  {
    assert forall i :: 0 <= i < |s| ==> (s + [e])[i] == s[i];
  }

  /** One more entry of a prefix contributes its key. */
  lemma KeysOfPrefixStep<K, V>(s: seq<Entry<K, V>>, i: nat)
    requires i < |s|
    ensures KeysOf(s[..i + 1]) == KeysOf(s[..i]) + [s[i].key]
  {
    assert s[..i + 1] == s[..i] + [s[i]];
    KeysOfSnoc(s[..i], s[i]);
  }

  /** Appending an entry appends its value. */
  lemma ValuesOfSnoc<K, V>(s: seq<Entry<K, V>>, e: Entry<K, V>)
    ensures ValuesOf(s + [e]) == ValuesOf(s) + [e.value]
  {
    assert forall i :: 0 <= i < |s| ==> (s + [e])[i] == s[i];
  }

  /** The number of entries in all chains together. */
  function TotalLength<K, V>(bs: seq<seq<Entry<K, V>>>): nat
  {
    if bs == [] then 0 else TotalLength(bs[..|bs| - 1]) + |bs[|bs| - 1]|
  }

  /** All chains one after the other, in ascending bucket order. */
  function Flatten<K, V>(bs: seq<seq<Entry<K, V>>>): seq<Entry<K, V>>
  {
    if bs == [] then [] else Flatten(bs[..|bs| - 1]) + bs[|bs| - 1]
  }

  lemma {:induction false} FlattenLength<K, V>(bs: seq<seq<Entry<K, V>>>)
    ensures |Flatten(bs)| == TotalLength(bs)
  {
    if bs != [] {
      FlattenLength(bs[..|bs| - 1]);
    }
  }

  /** The map a chain spells out when its entries are put one after another, head first. */
  function ChainMap<K, V>(c: seq<Entry<K, V>>): map<K, Option<V>>
  {
    if c == [] then map[] else ChainMap(c[..|c| - 1])[c[|c| - 1].key := c[|c| - 1].value]
  }

  /** The map all chains spell out when they are put one after another, in ascending bucket order. */
  function MapOfChains<K, V>(bs: seq<seq<Entry<K, V>>>): map<K, Option<V>>
  {
    if bs == [] then map[] else MapOfChains(bs[..|bs| - 1]) + ChainMap(bs[|bs| - 1])
  }

  /** Putting one more entry of a chain: the entry's key now maps to its value. */
  lemma ChainMapStep<K, V>(base: map<K, Option<V>>, c: seq<Entry<K, V>>, j: nat)
    requires j < |c|
    ensures base + ChainMap(c[..j + 1]) == (base + ChainMap(c[..j]))[c[j].key := c[j].value]
  {
    assert c[..j + 1][..j] == c[..j];
  }

  lemma PrefixStep<K, V>(bs: seq<seq<Entry<K, V>>>, i: nat)
    requires i < |bs|
    ensures TotalLength(bs[..i + 1]) == TotalLength(bs[..i]) + |bs[i]|
    ensures Flatten(bs[..i + 1]) == Flatten(bs[..i]) + bs[i]
    ensures MapOfChains(bs[..i + 1]) == MapOfChains(bs[..i]) + ChainMap(bs[i])
  {
    assert bs[..i + 1][..i] == bs[..i];
  }

  /** Replacing one chain changes the total by the difference in that chain's length. */
  lemma {:induction false} TotalLengthUpdate<K, V>(bs: seq<seq<Entry<K, V>>>, i: nat, c: seq<Entry<K, V>>)
    requires i < |bs|
    ensures TotalLength(bs[i := c]) == TotalLength(bs) - |bs[i]| + |c|
    decreases |bs|
  {
    var n := |bs| - 1;
    var bs': seq<seq<Entry<K, V>>> := bs[i := c];
    assert bs'[..n] == if i == n then bs[..n] else bs[..n][i := c];
    if i < n {
      TotalLengthUpdate(bs[..n], i, c);
    }
  }

  lemma {:induction false} TotalLengthPrefixAtMost<K, V>(bs: seq<seq<Entry<K, V>>>, i: nat)
    requires i <= |bs|
    ensures TotalLength(bs[..i]) <= TotalLength(bs)
    decreases |bs|
  {
    assert bs[..|bs|] == bs;
    if i < |bs| {
      var n := |bs| - 1;
      assert bs[..n][..i] == bs[..i];
      TotalLengthPrefixAtMost(bs[..n], i);
    }
  }

  /** The chains of the first `m` buckets are laid out at the front of the flattened table. */
  lemma {:induction false} FlattenPrefix<K, V>(bs: seq<seq<Entry<K, V>>>, m: nat)
    requires m <= |bs|
    ensures Flatten(bs[..m]) <= Flatten(bs)
    decreases |bs| - m
  {
    if m == |bs| {
      assert bs[..m] == bs;
    } else {
      FlattenPrefix(bs, m + 1);
      PrefixStep(bs, m);
    }
  }

  /** Entry `j` of chain `i` sits at position `TotalLength(bs[..i]) + j` of the flattened table. */
  lemma FlattenAt<K, V>(bs: seq<seq<Entry<K, V>>>, i: nat, j: nat)
    requires i < |bs| && j < |bs[i]|
    ensures TotalLength(bs[..i]) + j < |Flatten(bs)|
    ensures Flatten(bs)[TotalLength(bs[..i]) + j] == bs[i][j]
  {
    PrefixStep(bs, i);
    FlattenPrefix(bs, i + 1);
    FlattenLength(bs[..i]);
  }

  /** The value of entry `j` of chain `i` is the value met at position `TotalLength(bs[..i]) + j` of the walk. */
  lemma ValueAt<K, V>(bs: seq<seq<Entry<K, V>>>, i: nat, j: nat)
    requires i < |bs| && j < |bs[i]|
    ensures TotalLength(bs[..i]) + j < |ValuesOf(Flatten(bs))|
    ensures ValuesOf(Flatten(bs))[TotalLength(bs[..i]) + j] == bs[i][j].value
  {
    FlattenAt(bs, i, j);
  }

  /** Every entry of the flattened table comes from one of the chains. */
  lemma {:induction false} FlattenFrom<K, V>(bs: seq<seq<Entry<K, V>>>, p: nat)
    requires p < |Flatten(bs)|
    ensures exists i, j :: 0 <= i < |bs| && 0 <= j < |bs[i]| && bs[i][j] == Flatten(bs)[p]
    decreases |bs|
  {
    var n := |bs| - 1;
    var front := Flatten(bs[..n]);
    if p < |front| {
      FlattenFrom(bs[..n], p);
      var i, j :| 0 <= i < n && 0 <= j < |bs[..n][i]| && bs[..n][i][j] == front[p];
      assert bs[i][j] == Flatten(bs)[p];
    } else {
      assert bs[n][p - |front|] == Flatten(bs)[p];
    }
  }

  /**
   * When every entry of chain `i` carries tag `i` (its bucket index) and no
   * chain repeats a key, no key occurs twice in the flattened table.
   */
  lemma {:induction false} FlattenDistinct<K, V>(bs: seq<seq<Entry<K, V>>>, tag: K -> int)
    requires forall i, j :: 0 <= i < |bs| && 0 <= j < |bs[i]| ==> tag(bs[i][j].key) == i
    requires forall i :: 0 <= i < |bs| ==> DistinctKeys(bs[i])
    ensures DistinctKeys(Flatten(bs))
    decreases |bs|
  {
    if bs != [] {
      var n := |bs| - 1;
      var front, last := Flatten(bs[..n]), bs[n];
      var all: seq<Entry<K, V>> := front + last;
      FlattenDistinct(bs[..n], tag);
      forall p, q | 0 <= p < q < |all|
        ensures all[p].key != all[q].key
      {
        if p < |front| && q >= |front| {
          FlattenFrom(bs[..n], p);
          var i, j :| 0 <= i < n && 0 <= j < |bs[..n][i]| && bs[..n][i][j] == front[p];
          assert tag(front[p].key) == i;
          assert tag(last[q - |front|].key) == n;
        }
      }
    }
  }
}

/**
 * The representation invariant of the hash table, stated on the chains as
 * values, and one lemma per kind of chain update showing that it is kept.
 */
module HashLayout {
  import opened Common
  import opened HashChains

  /**
   * Chain `i` of `bs` is in order with the map `m`: no key occurs in it
   * twice, and each of its entries hashes to bucket `i` and agrees with `m`.
   */
  ghost predicate ChainOk<K, V>(bs: seq<seq<Entry<K, V>>>, i: int, m: map<K, Option<V>>, hashCode: K -> int)
    requires 0 <= i < |bs|
  {
    && DistinctKeys(bs[i])
    && forall j :: 0 <= j < |bs[i]| ==>
         && IndexFor(hashCode(bs[i][j].key), |bs|) == i
         && bs[i][j].key in m && m[bs[i][j].key] == bs[i][j].value
  }

  /** Key `k` is found in the chain of the bucket it hashes to. */
  ghost predicate Placed<K, V>(bs: seq<seq<Entry<K, V>>>, hashCode: K -> int, k: K)
    requires |bs| >= 1
  {
    HasKey(bs[IndexFor(hashCode(k), |bs|)], k)
  }

  /**
   * Chains `bs` represent the map `m` under `hashCode`: every chain is in
   * order with `m`, and every key of `m` is found in the bucket it hashes to.
   */
  ghost predicate Represents<K, V>(bs: seq<seq<Entry<K, V>>>, m: map<K, Option<V>>, hashCode: K -> int)
  {
    && |bs| >= 1
    && (forall i :: 0 <= i < |bs| ==> ChainOk(bs, i, m, hashCode))
    && (forall k {:trigger Placed(bs, hashCode, k)} :: k in m ==> Placed(bs, hashCode, k))
  }

  /** A table of empty chains represents the empty map. */
  lemma EmptyRepresents<K, V>(bs: seq<seq<Entry<K, V>>>, hashCode: K -> int)
    requires |bs| >= 1 && forall i :: 0 <= i < |bs| ==> bs[i] == []
    ensures Represents(bs, map[], hashCode)
    ensures TotalLength(bs) == 0
  {
    forall i | 0 <= i < |bs| ensures ChainOk(bs, i, map[], hashCode) {
      assert bs[i] == [];
    }
    EmptyTotal(bs);
  }

  lemma {:induction false} EmptyTotal<K, V>(bs: seq<seq<Entry<K, V>>>)
    requires forall i :: 0 <= i < |bs| ==> bs[i] == []
    ensures TotalLength(bs) == 0
  {
    if bs != [] {
      EmptyTotal(bs[..|bs| - 1]);
    }
  }

  /** A key of `m` is stored in its bucket with exactly `m`'s value; a key outside `m` is in no chain. */
  lemma Lookup<K, V>(bs: seq<seq<Entry<K, V>>>, m: map<K, Option<V>>, hashCode: K -> int, k: K)
    requires Represents(bs, m, hashCode)
    ensures k in m <==> HasKey(bs[IndexFor(hashCode(k), |bs|)], k)
    ensures forall j :: 0 <= j < |bs[IndexFor(hashCode(k), |bs|)]| && bs[IndexFor(hashCode(k), |bs|)][j].key == k
              ==> k in m && m[k] == bs[IndexFor(hashCode(k), |bs|)][j].value
  {
    assert ChainOk(bs, IndexFor(hashCode(k), |bs|), m, hashCode);
    if k in m {
      assert Placed(bs, hashCode, k);
    }
  }

  /** Linking a new key at the head of its bucket represents the map extended with that key. */
  lemma PutNew<K, V>(bs: seq<seq<Entry<K, V>>>, m: map<K, Option<V>>, hashCode: K -> int, k: K, v: Option<V>)
    requires Represents(bs, m, hashCode) && k !in m
    ensures var i := IndexFor(hashCode(k), |bs|);
      Represents(bs[i := [Entry(k, v)] + bs[i]], m[k := v], hashCode)
  {
    var i := IndexFor(hashCode(k), |bs|);
    var c: seq<Entry<K, V>> := [Entry(k, v)] + bs[i];
    var bs': seq<seq<Entry<K, V>>> := bs[i := c];
    var m' := m[k := v];
    forall p | 0 <= p < |bs'| ensures ChainOk(bs', p, m', hashCode) {
      assert ChainOk(bs, p, m, hashCode);
      if p == i {
        forall q | 0 <= q < |c|
          ensures IndexFor(hashCode(c[q].key), |bs'|) == p && c[q].key in m' && m'[c[q].key] == c[q].value
        {
          if q > 0 {
            assert c[q] == bs[i][q - 1];
          }
        }
        forall x, y | 0 <= x < y < |c| ensures c[x].key != c[y].key {
          assert c[y] == bs[i][y - 1];
          if x > 0 {
            assert c[x] == bs[i][x - 1];
          }
        }
      } else {
        assert bs'[p] == bs[p];
      }
    }
    forall k' | k' in m' ensures Placed(bs', hashCode, k') {
      var i' := IndexFor(hashCode(k'), |bs|);
      if k' == k {
        assert bs'[i][0].key == k;
      } else {
        assert Placed(bs, hashCode, k');
        var j :| 0 <= j < |bs[i']| && bs[i'][j].key == k';
        if i' == i {
          assert bs'[i][j + 1].key == k';
        } else {
          assert bs'[i'][j].key == k';
        }
      }
    }
  }

  /** Overwriting the value of entry `j` of chain `i` in place represents the map with that key updated. */
  lemma Overwrite<K, V>(bs: seq<seq<Entry<K, V>>>, m: map<K, Option<V>>, hashCode: K -> int, i: nat, j: nat, v: Option<V>)
    requires Represents(bs, m, hashCode) && i < |bs| && j < |bs[i]|
    ensures var k := bs[i][j].key;
      Represents(bs[i := bs[i][j := Entry(k, v)]], m[k := v], hashCode)
  {
    var k := bs[i][j].key;
    var c: seq<Entry<K, V>> := bs[i][j := Entry(k, v)];
    var bs': seq<seq<Entry<K, V>>> := bs[i := c];
    var m' := m[k := v];
    assert ChainOk(bs, i, m, hashCode);
    forall p | 0 <= p < |bs'| ensures ChainOk(bs', p, m', hashCode) {
      assert ChainOk(bs, p, m, hashCode);
      forall q | 0 <= q < |bs'[p]|
        ensures IndexFor(hashCode(bs'[p][q].key), |bs'|) == p
        ensures bs'[p][q].key in m' && m'[bs'[p][q].key] == bs'[p][q].value
      {
        assert bs'[p][q].key == bs[p][q].key;
        if p != i || q != j {
          assert bs'[p][q] == bs[p][q];
        }
      }
      forall x, y | 0 <= x < y < |bs'[p]| ensures bs'[p][x].key != bs'[p][y].key {
        assert bs'[p][x].key == bs[p][x].key && bs'[p][y].key == bs[p][y].key;
      }
    }
    forall k' | k' in m' ensures Placed(bs', hashCode, k') {
      var i' := IndexFor(hashCode(k'), |bs|);
      assert Placed(bs, hashCode, k');
      var j' :| 0 <= j' < |bs[i']| && bs[i'][j'].key == k';
      assert bs'[i'][j'].key == k';
    }
  }

  /** Unlinking entry `j` of chain `i` represents the map without that entry's key. */
  lemma Unlink<K, V>(bs: seq<seq<Entry<K, V>>>, m: map<K, Option<V>>, hashCode: K -> int, i: nat, j: nat)
    requires Represents(bs, m, hashCode) && i < |bs| && j < |bs[i]|
    ensures var k := bs[i][j].key;
      Represents(bs[i := bs[i][..j] + bs[i][j + 1..]], m - {k}, hashCode)
  {
    var k := bs[i][j].key;
    var c: seq<Entry<K, V>> := bs[i][..j] + bs[i][j + 1..];
    var bs': seq<seq<Entry<K, V>>> := bs[i := c];
    var m' := m - {k};
    UnlinkChains(bs, m, hashCode, i, j);
    forall k' | k' in m' ensures Placed(bs', hashCode, k') {
      var i' := IndexFor(hashCode(k'), |bs|);
      assert Placed(bs, hashCode, k');
      var j' :| 0 <= j' < |bs[i']| && bs[i'][j'].key == k';
      if i' == i {
        assert j' != j;
        assert c[if j' < j then j' else j' - 1].key == k';
      } else {
        assert bs'[i'][j'].key == k';
      }
    }
  }

  /** The chain half of `Unlink`: after unlinking, every chain is in order with the smaller map. */
  lemma UnlinkChains<K, V>(bs: seq<seq<Entry<K, V>>>, m: map<K, Option<V>>, hashCode: K -> int, i: nat, j: nat)
    requires Represents(bs, m, hashCode) && i < |bs| && j < |bs[i]|
    ensures var bs' := bs[i := bs[i][..j] + bs[i][j + 1..]];
      forall p :: 0 <= p < |bs'| ==> ChainOk(bs', p, m - {bs[i][j].key}, hashCode)
  {
    var k := bs[i][j].key;
    var c: seq<Entry<K, V>> := bs[i][..j] + bs[i][j + 1..];
    var bs': seq<seq<Entry<K, V>>> := bs[i := c];
    var m' := m - {k};
    assert ChainOk(bs, i, m, hashCode);
    forall p | 0 <= p < |c| ensures c[p] == bs[i][if p < j then p else p + 1] && c[p].key != k {
    }
    forall p | 0 <= p < |bs'| ensures ChainOk(bs', p, m', hashCode) {
      assert ChainOk(bs, p, m, hashCode);
      if p == i {
        forall x, y | 0 <= x < y < |c| ensures c[x].key != c[y].key {
          assert c[x] == bs[i][if x < j then x else x + 1];
          assert c[y] == bs[i][if y < j then y else y + 1];
        }
      } else {
        assert bs'[p] == bs[p];
        forall q | 0 <= q < |bs[p]| ensures bs[p][q].key != k {
          assert IndexFor(hashCode(bs[p][q].key), |bs|) == p;
        }
      }
    }
  }

  /** A chain whose entries all agree with `m` spells out exactly its own keys, with `m`'s values. */
  lemma {:induction false} ChainMapAgrees<K, V>(c: seq<Entry<K, V>>, m: map<K, Option<V>>)
    requires forall j :: 0 <= j < |c| ==> c[j].key in m && m[c[j].key] == c[j].value
    ensures forall k :: k in ChainMap(c) <==> HasKey(c, k)
    ensures forall k :: k in ChainMap(c) ==> k in m && ChainMap(c)[k] == m[k]
  {
    if c != [] {
      var n := |c| - 1;
      ChainMapAgrees(c[..n], m);
      forall k ensures k in ChainMap(c) <==> HasKey(c, k) {
        if HasKey(c, k) && k != c[n].key {
          var j :| 0 <= j < |c| && c[j].key == k;
          assert c[..n][j].key == k;
        }
        if HasKey(c[..n], k) {
          var j :| 0 <= j < n && c[..n][j].key == k;
          assert c[j].key == k;
        }
      }
    }
  }

  /**
   * Putting the chains of the first `i` buckets one after another spells out
   * exactly the part of `m` whose keys hash below bucket `i`.
   */
  lemma {:induction false} MapOfChainsPrefix<K, V>(bs: seq<seq<Entry<K, V>>>, m: map<K, Option<V>>, hashCode: K -> int, i: nat)
    requires Represents(bs, m, hashCode) && i <= |bs|
    ensures forall k :: k in MapOfChains(bs[..i]) ==>
      k in m && MapOfChains(bs[..i])[k] == m[k] && IndexFor(hashCode(k), |bs|) < i
    ensures forall k :: k in m && IndexFor(hashCode(k), |bs|) < i ==> k in MapOfChains(bs[..i])
    decreases i
  {
    if i > 0 {
      var p := i - 1;
      MapOfChainsPrefix(bs, m, hashCode, p);
      PrefixStep(bs, p);
      assert ChainOk(bs, p, m, hashCode);
      ChainMapAgrees(bs[p], m);
      forall k | k in ChainMap(bs[p]) ensures IndexFor(hashCode(k), |bs|) == p {
        var j :| 0 <= j < |bs[p]| && bs[p][j].key == k;
      }
      forall k | k in m && IndexFor(hashCode(k), |bs|) == p ensures k in ChainMap(bs[p]) {
        assert Placed(bs, hashCode, k);
      }
    } else {
      assert bs[..i] == [];
    }
  }

  /**
   * The chain of bucket `i` repeats no key and shares none with the chains
   * before it: it can be put after them without overwriting anything.
   */
  lemma ChainIsNew<K, V>(bs: seq<seq<Entry<K, V>>>, m: map<K, Option<V>>, hashCode: K -> int, i: nat)
    requires Represents(bs, m, hashCode) && i < |bs|
    ensures DistinctKeys(bs[i])
    ensures forall j :: 0 <= j < |bs[i]| ==> bs[i][j].key !in MapOfChains(bs[..i])
  {
    MapOfChainsPrefix(bs, m, hashCode, i);
    assert ChainOk(bs, i, m, hashCode);
  }

  /** The chains of a table spell out the map they represent. */
  lemma MapOfChainsIsMap<K, V>(bs: seq<seq<Entry<K, V>>>, m: map<K, Option<V>>, hashCode: K -> int)
    requires Represents(bs, m, hashCode)
    ensures MapOfChains(bs) == m
  {
    MapOfChainsPrefix(bs, m, hashCode, |bs|);
    assert bs[..|bs|] == bs;
  }

  /**
   * Walking the chains in ascending bucket order meets every key of `m`
   * exactly once, each time with `m`'s value for it, and nothing else.
   */
  lemma FlattenRepresents<K, V>(bs: seq<seq<Entry<K, V>>>, m: map<K, Option<V>>, hashCode: K -> int)
    requires Represents(bs, m, hashCode)
    ensures DistinctKeys(Flatten(bs))
    ensures forall p :: 0 <= p < |Flatten(bs)| ==>
      Flatten(bs)[p].key in m && m[Flatten(bs)[p].key] == Flatten(bs)[p].value
    ensures forall k :: k in m ==> HasKey(Flatten(bs), k)
  {
    var all := Flatten(bs);
    var tag := (k: K) => IndexFor(hashCode(k), |bs|);
    forall i, j | 0 <= i < |bs| && 0 <= j < |bs[i]| ensures tag(bs[i][j].key) == i {
      assert ChainOk(bs, i, m, hashCode);
    }
    forall i | 0 <= i < |bs| ensures DistinctKeys(bs[i]) {
      assert ChainOk(bs, i, m, hashCode);
    }
    FlattenDistinct(bs, tag);
    forall p | 0 <= p < |all| ensures all[p].key in m && m[all[p].key] == all[p].value {
      FlattenFrom(bs, p);
      var i, j :| 0 <= i < |bs| && 0 <= j < |bs[i]| && bs[i][j] == all[p];
      assert ChainOk(bs, i, m, hashCode);
    }
    forall k | k in m ensures HasKey(all, k) {
      assert Placed(bs, hashCode, k);
      var i := IndexFor(hashCode(k), |bs|);
      var j :| 0 <= j < |bs[i]| && bs[i][j].key == k;
      FlattenAt(bs, i, j);
      assert all[TotalLength(bs[..i]) + j].key == k;
    }
  }

  /** The keys met walking the chains in bucket order are exactly the keys of `m`, none of them twice. */
  lemma FlattenKeys<K, V>(bs: seq<seq<Entry<K, V>>>, m: map<K, Option<V>>, hashCode: K -> int)
    requires Represents(bs, m, hashCode)
    ensures forall k :: k in KeysOf(Flatten(bs)) <==> k in m
    ensures forall p, q :: 0 <= p < q < |KeysOf(Flatten(bs))| ==> KeysOf(Flatten(bs))[p] != KeysOf(Flatten(bs))[q]
  {
    var ks := KeysOf(Flatten(bs));
    FlattenRepresents(bs, m, hashCode);
    forall k | k in m ensures k in ks {
      var p :| 0 <= p < |Flatten(bs)| && Flatten(bs)[p].key == k;
      assert ks[p] == k;
    }
  }

  /** Entry `j` of chain `i` is one of `m`'s pairs. */
  lemma EntryInMap<K, V>(bs: seq<seq<Entry<K, V>>>, m: map<K, Option<V>>, hashCode: K -> int, i: nat, j: nat)
    requires Represents(bs, m, hashCode) && i < |bs| && j < |bs[i]|
    ensures bs[i][j].key in m && m[bs[i][j].key] == bs[i][j].value
  {
    assert ChainOk(bs, i, m, hashCode);
  }

  /**
   * The values met in iterator order are exactly the values of the map: some
   * key is mapped to `v` just when `v` is met, and a map holding no null
   * meets no null.
   */
  lemma ValuesReflectMap<K, V>(bs: seq<seq<Entry<K, V>>>, m: map<K, Option<V>>, hashCode: K -> int, v: Option<V>)
    requires Represents(bs, m, hashCode)
    ensures (exists k :: k in m && m[k] == v) <==> v in ValuesOf(Flatten(bs))
    ensures (forall k :: k in m ==> m[k].Some?) ==> None !in ValuesOf(Flatten(bs))
  {
    var all := Flatten(bs);
    var vs := ValuesOf(all);
    FlattenRepresents(bs, m, hashCode);
    if v in vs {
      var p :| 0 <= p < |vs| && vs[p] == v;
      assert all[p].key in m;
    }
    forall k | k in m && m[k] == v ensures v in vs {
      var p :| 0 <= p < |all| && all[p].key == k;
      assert vs[p] == v;
    }
    if None in vs {
      var p :| 0 <= p < |vs| && vs[p] == None;
      assert all[p].key in m;
    }
  }

  /** The whole table invariant: the chains represent `m`, none is longer than `maxLen`, and `size` counts both the entries and the keys. */
  ghost predicate TableInv<K, V>(bs: seq<seq<Entry<K, V>>>, m: map<K, Option<V>>, hashCode: K -> int, size: int, maxLen: int)
  {
    && Represents(bs, m, hashCode)
    && (forall i :: 0 <= i < |bs| ==> |bs[i]| <= maxLen)
    && size == TotalLength(bs)
    && |m| == size
  }

  /** Empty chains: the invariant of a new or cleared table. */
  lemma EmptyInv<K, V>(bs: seq<seq<Entry<K, V>>>, hashCode: K -> int)
    requires |bs| >= 1 && forall i :: 0 <= i < |bs| ==> bs[i] == []
    ensures TableInv(bs, map[], hashCode, 0, 0)
  {
    EmptyRepresents(bs, hashCode);
  }

  /** `put` of a new key: head insertion, one more entry, the longest chain possibly longer. */
  lemma PutNewInv<K, V>(bs: seq<seq<Entry<K, V>>>, m: map<K, Option<V>>, hashCode: K -> int, size: int, maxLen: int, k: K, v: Option<V>)
    requires TableInv(bs, m, hashCode, size, maxLen) && k !in m
    ensures var i := IndexFor(hashCode(k), |bs|);
      var c := [Entry(k, v)] + bs[i];
      TableInv(bs[i := c], m[k := v], hashCode, size + 1, if maxLen < |c| then |c| else maxLen)
  {
    var i := IndexFor(hashCode(k), |bs|);
    PutNew(bs, m, hashCode, k, v);
    TotalLengthUpdate(bs, i, [Entry(k, v)] + bs[i]);
  }

  /** `put` of a present key: same chain shapes, same size, the key's value replaced. */
  lemma OverwriteInv<K, V>(bs: seq<seq<Entry<K, V>>>, m: map<K, Option<V>>, hashCode: K -> int, size: int, maxLen: int, i: nat, j: nat, v: Option<V>)
    requires TableInv(bs, m, hashCode, size, maxLen) && i < |bs| && j < |bs[i]|
    ensures var k := bs[i][j].key;
      && k in m
      && TableInv(bs[i := bs[i][j := Entry(k, v)]], m[k := v], hashCode, size, maxLen)
  {
    assert ChainOk(bs, i, m, hashCode);
    Overwrite(bs, m, hashCode, i, j, v);
    TotalLengthUpdate(bs, i, bs[i][j := Entry(bs[i][j].key, v)]);
  }

  /** `remove` of a present key: one entry unlinked, one fewer key. */
  lemma UnlinkInv<K, V>(bs: seq<seq<Entry<K, V>>>, m: map<K, Option<V>>, hashCode: K -> int, size: int, maxLen: int, i: nat, j: nat)
    requires TableInv(bs, m, hashCode, size, maxLen) && i < |bs| && j < |bs[i]|
    ensures var k := bs[i][j].key;
      && k in m
      && TableInv(bs[i := bs[i][..j] + bs[i][j + 1..]], m - {k}, hashCode, size - 1, maxLen)
  {
    var k := bs[i][j].key;
    assert ChainOk(bs, i, m, hashCode);
    Unlink(bs, m, hashCode, i, j);
    TotalLengthUpdate(bs, i, bs[i][..j] + bs[i][j + 1..]);
    assert (m - {k}).Keys == m.Keys - {k};
  }
}
