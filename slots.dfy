/**
  The slot discipline of the slab buffer behind CPUHashmap, stated on plain values.

  A table maps a key to a slot address; the buffer stores, per address, the key
  bytes that were copied into it; the free list holds the addresses that the
  allocator may hand out next. `Consistent` is the invariant that ties the three
  together: the free list and the owned slots partition `[0, capacity)`, and every
  live key sits in the slot the table maps it to.
 */
module Slots {
  import opened Batch

  /** Keys and values are opaque byte strings of a table-wide fixed length. */
  type Key = seq<bv8>
  type Value = seq<bv8>

  predicate Distinct<T(==)>(s: seq<T>) {
    forall i, j :: 0 <= i < j < |s| ==> s[i] != s[j]
  }

  /** Every slot region of a store holds exactly `n` bytes. */
  predicate Uniform(store: seq<seq<bv8>>, n: nat) {
    forall a :: 0 <= a < |store| ==> |store[a]| == n
  }

  /** Slot `a` is owned when the key stored in it is live and mapped back to `a`. */
  predicate Owned(table: map<Key, nat>, keyStore: seq<Key>, a: nat)
    requires a < |keyStore|
  {
    keyStore[a] in table && table[keyStore[a]] == a
  }

  /** The slot invariant; the capacity is `|keyStore|`. */
  predicate Consistent(table: map<Key, nat>, keyStore: seq<Key>, free: seq<nat>) {
    && Distinct(free)
    && (forall a :: a in free ==> a < |keyStore|)
    && (forall k :: k in table ==> table[k] < |keyStore| && keyStore[table[k]] == k)
    && (forall a :: 0 <= a < |keyStore| ==> (a in free <==> !Owned(table, keyStore, a)))
  }

  /** The addresses below `capacity` that are not on the free list. */
  function Occupied(capacity: nat, free: seq<nat>): set<nat> {
    set a | 0 <= a < capacity && a !in free
  }

  /** The logical contents: each live key with the value bytes of its slot. */
  function Gather(table: map<Key, nat>, valueStore: seq<Value>): (m: map<Key, Value>)
    ensures forall k :: k in m <==> k in table && table[k] < |valueStore|
  {
    map k | k in table && table[k] < |valueStore| :: valueStore[table[k]]
  }

  /** `n` zero bytes: the contents of a fresh slot region and of an activated value. */
  function Zeros(n: nat): (z: seq<bv8>)
    ensures |z| == n && forall i :: 0 <= i < n ==> z[i] == 0
  {
    if n == 0 then [] else Zeros(n - 1) + [0]
  }

  /** Writing into a slot that no live key owns leaves the contents alone. */
  lemma GatherStoreUnowned(table: map<Key, nat>, valueStore: seq<Value>, a: nat, v: Value)
    requires a < |valueStore|
    requires forall k :: k in table ==> table[k] != a
    ensures Gather(table, valueStore[a := v]) == Gather(table, valueStore)
  {
  }

  /** Mapping a new key to an unowned slot that was just written adds that one entry. */
  lemma GatherStoreNew(table: map<Key, nat>, valueStore: seq<Value>, k: Key, a: nat, v: Value)
    requires a < |valueStore| && k !in table
    requires forall k' :: k' in table ==> table[k'] != a
    ensures Gather(table[k := a], valueStore[a := v]) == Gather(table, valueStore)[k := v]
  {
  }

  /** Distinct live keys occupy distinct slots, none of them free. */
  lemma SlotsUnique(table: map<Key, nat>, keyStore: seq<Key>, free: seq<nat>)
    requires Consistent(table, keyStore, free)
    ensures forall k, k' :: k in table && k' in table && k != k' ==> table[k] != table[k']
    ensures forall k :: k in table ==> table[k] !in free
  {
    forall k | k in table
      ensures table[k] !in free
    {
      assert Owned(table, keyStore, table[k]);
    }
  }

  /** The occupied slots are exactly the slots the table maps to. */
  lemma OccupiedAreMapped(table: map<Key, nat>, keyStore: seq<Key>, free: seq<nat>)
    requires Consistent(table, keyStore, free)
    ensures Occupied(|keyStore|, free) == table.Values
  {
    SlotsUnique(table, keyStore, free);
    forall a | a in Occupied(|keyStore|, free)
      ensures a in table.Values
    {
      assert Owned(table, keyStore, a);
      assert table[keyStore[a]] == a;
    }
  }

  /** No leak: the live entries and the free list together account for every slot. */
  lemma {:induction false} NoLeak(table: map<Key, nat>, keyStore: seq<Key>, free: seq<nat>)
    requires Consistent(table, keyStore, free)
    ensures |table| + |free| == |keyStore|
    ensures |Occupied(|keyStore|, free)| == |table|
  {
    var occupied := Occupied(|keyStore|, free);
    OccupiedAreMapped(table, keyStore, free);
    SlotsUnique(table, keyStore, free);
    InjectiveValues(table);
    assert |occupied| == |table|;
    SlotPartition(keyStore, free);
  }

  /** The occupied slots and the free slots split the address range. */
  lemma SlotPartition(keyStore: seq<Key>, free: seq<nat>)
    requires Distinct(free) && forall a :: a in free ==> a < |keyStore|
    ensures |Occupied(|keyStore|, free)| + |free| == |keyStore|
  {
    var occupied := Occupied(|keyStore|, free);
    var fs := set a | a in free;
    var all := Range(|keyStore|);
    DistinctCard(free);
    RangeCard(|keyStore|);
    forall a | a in all
      ensures a in occupied + fs
    {
      if a in free {
        assert a in fs;
      }
    }
    assert all == occupied + fs;
    assert occupied !! fs;
  }

  lemma {:induction false} InjectiveValues(m: map<Key, nat>)
    requires forall k, k' :: k in m && k' in m && k != k' ==> m[k] != m[k']
    ensures |m.Values| == |m|
  {
    if |m| > 0 {
      var k :| k in m;
      var m' := m - {k};
      InjectiveValues(m');
      assert m.Values == m'.Values + {m[k]};
      assert m[k] !in m'.Values;
    }
  }

  lemma {:induction false} DistinctCard<T>(s: seq<T>)
    requires Distinct(s)
    ensures |set x | x in s| == |s|
  {
    if |s| > 0 {
      var t := s[1..];
      assert Distinct(t);
      DistinctCard(t);
      assert (set x | x in s) == (set x | x in t) + {s[0]};
      assert s[0] !in t;
    }
  }

  /** The addresses `[0, n)`. */
  function Range(n: nat): (r: set<nat>)
    ensures forall a: int :: a in r <==> 0 <= a < n
  {
    if n == 0 then {} else Range(n - 1) + {n - 1}
  }

  lemma {:induction false} RangeCard(n: nat)
    ensures |Range(n)| == n
  {
    if n > 0 {
      var r := Range(n - 1);
      RangeCard(n - 1);
      assert n - 1 !in r;
      assert |r + {n - 1}| == |r| + 1;
    }
  }

  /** Erasing a live key and freeing its slot keeps the slot invariant. */
  lemma EraseKeepsConsistent(table: map<Key, nat>, keyStore: seq<Key>, free: seq<nat>, k: Key)
    requires Consistent(table, keyStore, free) && k in table
    ensures Consistent(table - {k}, keyStore, [table[k]] + free)
  {
    SlotsUnique(table, keyStore, free);
    var t := table - {k};
    var f := [table[k]] + free;
    forall a | 0 <= a < |keyStore|
      ensures a in f <==> !Owned(t, keyStore, a)
    {
      if a == table[k] {
        assert keyStore[a] == k;
      } else {
        assert a in f <==> a in free;
        assert Owned(t, keyStore, a) <==> Owned(table, keyStore, a);
      }
    }
  }

  /** The slots enumerated by GetActiveIndices hold every live key once, with its value. */
  lemma ExtractedEntries(table: map<Key, nat>, keyStore: seq<Key>, valueStore: seq<Value>, free: seq<nat>,
                         addrs: seq<nat>, keys: seq<Key>, values: seq<Value>)
    requires Consistent(table, keyStore, free) && |valueStore| == |keyStore|
    requires Distinct(addrs) && forall a :: a in addrs <==> a in Occupied(|keyStore|, free)
    requires |keys| == |addrs| && |values| == |addrs|
    requires forall j :: 0 <= j < |addrs| ==> addrs[j] < |keyStore| && keys[j] == keyStore[addrs[j]] && values[j] == valueStore[addrs[j]]
    ensures Distinct(keys)
    ensures forall k :: k in table <==> k in keys
    ensures forall j :: 0 <= j < |keys| ==> keys[j] in table && Gather(table, valueStore)[keys[j]] == values[j]
    ensures forall j :: 0 <= j < |keys| ==> InsertMasks({}, keys)[j]
    ensures InsertBatch(map[], keys, values) == Gather(table, valueStore)
  {
    ExtractedKeys(table, keyStore, free, addrs, keys);
    InsertDistinct(keys, values);
    InsertBatchKeys(map[], keys, values);
    var g := Gather(table, valueStore);
    var r := InsertBatch(map[], keys, values);
    forall k | k in g
      ensures k in r && r[k] == g[k]
    {
      var j :| 0 <= j < |keys| && keys[j] == k;
      assert table[keys[j]] == addrs[j];
    }
  }

  /** The keys stored in the occupied slots, each slot once, are the live keys, each once. */
  lemma ExtractedKeys(table: map<Key, nat>, keyStore: seq<Key>, free: seq<nat>, addrs: seq<nat>, keys: seq<Key>)
    requires Consistent(table, keyStore, free)
    requires Distinct(addrs) && forall a :: a in addrs <==> a in Occupied(|keyStore|, free)
    requires |keys| == |addrs|
    requires forall j :: 0 <= j < |addrs| ==> addrs[j] < |keyStore| && keys[j] == keyStore[addrs[j]]
    ensures Distinct(keys)
    ensures forall k :: k in table <==> k in keys
    ensures forall j :: 0 <= j < |keys| ==> keys[j] in table && table[keys[j]] == addrs[j]
  {
    forall j | 0 <= j < |addrs|
      ensures Owned(table, keyStore, addrs[j])
    {
      assert addrs[j] in addrs;
    }
    forall k | k in table
      ensures k in keys
    {
      assert Owned(table, keyStore, table[k]);
      assert table[k] in Occupied(|keyStore|, free);
      var j :| 0 <= j < |addrs| && addrs[j] == table[k];
      assert keys[j] == k;
    }
  }

  /** Erasing keys from the table erases the same keys from the contents. */
  lemma GatherErase(table: map<Key, nat>, valueStore: seq<Value>, keys: seq<Key>)
    ensures Gather(EraseBatch(table, keys), valueStore) == EraseBatch(Gather(table, valueStore), keys)
  {
    EraseBatchKeys(table, keys);
    EraseBatchKeys(Gather(table, valueStore), keys);
  }

  /** The free list after an erase batch: the slot of each key erased, pushed in batch order. */
  function ErasePushes(table: map<Key, nat>, keys: seq<Key>, free: seq<nat>): seq<nat> {
    if |keys| == 0 then free
    else
      var n := |keys| - 1;
      var prior := EraseBatch(table, keys[..n]);
      var pushed := ErasePushes(table, keys[..n], free);
      if keys[n] in prior then [prior[keys[n]]] + pushed else pushed
  }

  /** One more key extends the erase pushes by that key's slot, if it is still present. */
  lemma ErasePushesStep(table: map<Key, nat>, keys: seq<Key>, free: seq<nat>, i: nat)
    requires i < |keys|
    ensures ErasePushes(table, keys[..i + 1], free) ==
      var prior := EraseBatch(table, keys[..i]);
      if keys[i] in prior then [prior[keys[i]]] + ErasePushes(table, keys[..i], free)
      else ErasePushes(table, keys[..i], free)
  {
    assert keys[..i + 1][..i] == keys[..i];
  }

  /** An erase batch frees the slot of every key it reports erased, and keeps every free slot free. */
  lemma {:induction false} ErasedSlotsFreed(table: map<Key, nat>, keys: seq<Key>, free: seq<nat>)
    ensures forall i :: 0 <= i < |keys| && EraseMasks(table.Keys, keys)[i] ==> table[keys[i]] in ErasePushes(table, keys, free)
    ensures forall a :: a in free ==> a in ErasePushes(table, keys, free)
  {
    if |keys| > 0 {
      var n := |keys| - 1;
      ErasedSlotsFreed(table, keys[..n], free);
      EraseMaskStep(table, keys, n);
      EraseBatchKeys(table, keys[..n]);
      assert keys[..n + 1] == keys;
      var masks := EraseMasks(table.Keys, keys);
      assert masks[..n] == EraseMasks(table.Keys, keys[..n]);
      forall i | 0 <= i < |keys| && masks[i]
        ensures table[keys[i]] in ErasePushes(table, keys, free)
      {
        if i < n {
          assert masks[..n][i];
        }
      }
    }
  }

  /** The slots of the keys `ks`, in order. */
  function AddrsOf(table: map<Key, nat>, ks: seq<Key>): seq<nat>
    requires forall k :: k in ks ==> k in table
  {
    if |ks| == 0 then [] else AddrsOf(table, ks[..|ks| - 1]) + [table[ks[|ks| - 1]]]
  }

  /** Entry j of `AddrsOf` is the slot of key j. */
  lemma {:induction false} AddrsOfIndex(table: map<Key, nat>, ks: seq<Key>)
    requires forall k :: k in ks ==> k in table
    ensures |AddrsOf(table, ks)| == |ks|
    ensures forall j :: 0 <= j < |ks| ==> AddrsOf(table, ks)[j] == table[ks[j]]
  {
    if |ks| > 0 {
      var n := |ks| - 1;
      assert forall k :: k in ks[..n] ==> k in ks;
      AddrsOfIndex(table, ks[..n]);
    }
  }

  /** Appending a key appends its slot. */
  lemma AddrsOfSnoc(table: map<Key, nat>, ks: seq<Key>, k: Key)
    requires (forall k' :: k' in ks ==> k' in table) && k in table
    ensures AddrsOf(table, ks + [k]) == AddrsOf(table, ks) + [table[k]]
  {
    assert (ks + [k])[..|ks|] == ks;
  }

  /** Listing the slots of every live key once lists every occupied slot once. */
  lemma ActiveAddrs(table: map<Key, nat>, keyStore: seq<Key>, free: seq<nat>, visited: seq<Key>)
    requires Consistent(table, keyStore, free)
    requires Distinct(visited) && forall k :: k in visited <==> k in table
    ensures |AddrsOf(table, visited)| == |table|
    ensures Distinct(AddrsOf(table, visited))
    ensures forall a :: a in AddrsOf(table, visited) <==> a in Occupied(|keyStore|, free)
  {
    var addrs := AddrsOf(table, visited);
    AddrsOfIndex(table, visited);
    SlotsUnique(table, keyStore, free);
    OccupiedAreMapped(table, keyStore, free);
    DistinctCard(visited);
    assert (set k | k in visited) == table.Keys;
    forall a | a in Occupied(|keyStore|, free)
      ensures a in addrs
    {
      var k :| k in table && table[k] == a;
      var j :| 0 <= j < |visited| && visited[j] == k;
      assert addrs[j] == a;
    }
  }

  /** A fresh buffer, every slot on the free list, with an empty table is consistent. */
  lemma EmptyConsistent(keyStore: seq<Key>, free: seq<nat>)
    requires Distinct(free) && forall a: int :: a in free <==> 0 <= a < |keyStore|
    ensures Consistent(map[], keyStore, free)
  {
  }
}
