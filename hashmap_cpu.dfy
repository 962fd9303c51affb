/**
  CPUHashmap: a hash map from fixed-size byte keys to slot addresses in a slab buffer.

  `table` stands for the concurrent map `impl_` (key bytes to slot address), `buffer`
  for the slab buffer `buffer_`. Each `#pragma omp parallel for` loop is run in order
  i = 0 .. count - 1, so within one batch the first occurrence of a key wins.
 */
module HashmapCpu {
  import opened Slots
  import opened SlotInsert
  import opened Batch
  import opened Sizing
  import opened HashmapBuffer

  /** The source passes `nullptr` for the values when activating. */
  datatype Option<T> = None | Some(value: T)

  /** The value bytes written for key `i`: the caller's, or zeros when activating. */
  function Payloads(values: Option<seq<Value>>, count: nat, valueSize: nat): (vs: seq<Value>)
    requires values.Some? ==> |values.value| == count
    ensures |vs| == count
    ensures forall i :: 0 <= i < count ==> vs[i] == if values.Some? then values.value[i] else Zeros(valueSize)
  {
    if values.Some? then values.value else Repeat(Zeros(valueSize), count)
  }

  /** `count` copies of `v`. */
  function Repeat<T>(v: T, count: nat): (r: seq<T>)
    ensures |r| == count && forall i :: 0 <= i < count ==> r[i] == v
  {
    if count == 0 then [] else Repeat(v, count - 1) + [v]
  }

  class CpuHashmap {
    const keySize: nat
    const valueSize: nat
    var table: map<Key, nat>
    var buffer: SlabBuffer
    var capacity: nat
    var bucketCount: nat

    /** The object invariant: the slot discipline of `Slots.Consistent`, key and value
        regions of the table's fixed sizes, and a positive capacity and bucket count. */
    ghost predicate Valid()
      reads this, buffer, buffer.keyStore, buffer.valueStore
    {
      && buffer.Valid()
      && buffer.capacity == capacity
      && buffer.keySize == keySize && buffer.valueSize == valueSize
      && capacity > 0 && bucketCount > 0
      && Consistent(table, buffer.keyStore[..], buffer.freeList)
      && Uniform(buffer.keyStore[..], keySize)
      && Uniform(buffer.valueStore[..], valueSize)
    }

    /** The key/value mapping the table represents. */
    ghost function Contents(): (c: map<Key, Value>)
      reads this, buffer, buffer.keyStore, buffer.valueStore
      requires Valid()
      ensures c.Keys == table.Keys
    {
      Gather(table, buffer.valueStore[..])
    }

    constructor (initBuckets: nat, initCapacity: nat, keySize: nat, valueSize: nat)
      requires initBuckets > 0 && initCapacity > 0
      ensures Valid()
      ensures fresh(buffer) && fresh(buffer.keyStore) && fresh(buffer.valueStore)
      ensures table == map[] && capacity == initCapacity && bucketCount == initBuckets
      ensures this.keySize == keySize && this.valueSize == valueSize
      ensures |buffer.freeList| == initCapacity
    {
      this.keySize := keySize;
      this.valueSize := valueSize;
      table := map[];
      capacity := initCapacity;
      bucketCount := initBuckets;
      buffer := new SlabBuffer(initCapacity, keySize, valueSize);
    }

    /** The number of live entries (the size of the map `impl_`). */
    function Size(): nat
      reads this
    {
      |table|
    }

    /** The size is also the number of occupied slots: every slot not on the free list
        holds a live entry. */
    lemma SizeCountsOccupied()
      requires Valid()
      ensures Size() + |buffer.freeList| == capacity
      ensures Size() == |Occupied(capacity, buffer.freeList)|
    {
      NoLeak(table, buffer.keyStore[..], buffer.freeList);
    }

    /** What the postconditions of `Insert` and `Activate` give per key: when key i got in,
        the slot reported for it holds key i and value i. With `c0` the contents before
        the batch and `addrs` the reported slots. */
    lemma InsertedEntries(c0: map<Key, Value>, keys: seq<Key>, values: seq<Value>, addrs: seq<nat>)
      requires Valid() && |values| == |keys| && |addrs| == |keys|
      requires Contents() == InsertBatch(c0, keys, values)
      requires forall i :: 0 <= i < |keys| && InsertMasks(c0.Keys, keys)[i] ==> keys[i] in table && table[keys[i]] == addrs[i]
      ensures forall i :: 0 <= i < |keys| && InsertMasks(c0.Keys, keys)[i] ==>
        addrs[i] < capacity && buffer.keyStore[addrs[i]] == keys[i] && buffer.valueStore[addrs[i]] == values[i]
    {
      InsertWinners(c0, keys, values);
    }

    /** Batched insert-if-absent, after growing the table when the batch might not fit. */
    method Insert(keys: seq<Key>, values: seq<Value>, outAddrs: array<nat>, outMasks: array<bool>)
      requires Valid()
      requires |values| == |keys| && outAddrs.Length == |keys| && outMasks.Length == |keys|
      requires Uniform(keys, keySize) && Uniform(values, valueSize)
      modifies this, buffer, buffer.keyStore, buffer.valueStore, outAddrs, outMasks
      ensures Valid()
      ensures Sizes(capacity, bucketCount) == PreCheck(|old(table)| + |keys|, Sizes(old(capacity), old(bucketCount)))
      ensures |old(table)| + |keys| <= old(capacity) ==> buffer == old(buffer)
      ensures |keys| <= |old(buffer.freeList)| ==>
        outAddrs[..] == old(buffer.freeList)[..|keys|] && table == InsertBatch(old(table), keys, outAddrs[..])
      ensures outMasks[..] == InsertMasks(old(table).Keys, keys)
      ensures forall i :: 0 <= i < |keys| && outMasks[i] ==> keys[i] in table && table[keys[i]] == outAddrs[i]
      ensures forall i :: 0 <= i < |keys| && !outMasks[i] ==> outAddrs[i] in buffer.freeList
      ensures Contents() == InsertBatch(old(Contents()), keys, values)
      ensures |table| == |old(table)| + CountTrue(outMasks[..]) <= capacity
    {
      ghost var sizes0 := Sizes(capacity, bucketCount);
      SizeCountsOccupied();
      GrowFor(|keys|);
      ghost var sizes1 := Sizes(capacity, bucketCount);
      assert sizes1 == PreCheck(|old(table)| + |keys|, sizes0);
      SizeCountsOccupied();
      InsertImpl(keys, Some(values), outAddrs, outMasks);
      assert Sizes(capacity, bucketCount) == sizes1;
    }

    /** Batched insert-if-absent of keys with zero-filled values. */
    method Activate(keys: seq<Key>, outAddrs: array<nat>, outMasks: array<bool>)
      requires Valid()
      requires outAddrs.Length == |keys| && outMasks.Length == |keys|
      requires Uniform(keys, keySize)
      modifies this, buffer, buffer.keyStore, buffer.valueStore, outAddrs, outMasks
      ensures Valid()
      ensures Sizes(capacity, bucketCount) == PreCheck(|old(table)| + |keys|, Sizes(old(capacity), old(bucketCount)))
      ensures |old(table)| + |keys| <= old(capacity) ==> buffer == old(buffer)
      ensures |keys| <= |old(buffer.freeList)| ==>
        outAddrs[..] == old(buffer.freeList)[..|keys|] && table == InsertBatch(old(table), keys, outAddrs[..])
      ensures outMasks[..] == InsertMasks(old(table).Keys, keys)
      ensures forall i :: 0 <= i < |keys| && outMasks[i] ==> keys[i] in table && table[keys[i]] == outAddrs[i]
      ensures forall i :: 0 <= i < |keys| && !outMasks[i] ==> outAddrs[i] in buffer.freeList
      ensures Contents() == InsertBatch(old(Contents()), keys, Repeat(Zeros(valueSize), |keys|))
      ensures |table| == |old(table)| + CountTrue(outMasks[..]) <= capacity
    {
      ghost var sizes0 := Sizes(capacity, bucketCount);
      SizeCountsOccupied();
      GrowFor(|keys|);
      ghost var sizes1 := Sizes(capacity, bucketCount);
      assert sizes1 == PreCheck(|old(table)| + |keys|, sizes0);
      SizeCountsOccupied();
      InsertImpl(keys, None, outAddrs, outMasks);
      assert Sizes(capacity, bucketCount) == sizes1;
    }

    /** The capacity pre-check shared by Insert and Activate: when `count` more entries
        might not fit, rehash to the larger of twice the bucket count and the bucket count
        that holds them at the current capacity per bucket. Afterwards they fit. */
    method GrowFor(count: nat)
      requires Valid()
      modifies this
      ensures Valid()
      ensures |table| + count <= capacity
      ensures buffer == old(buffer) || (fresh(buffer) && fresh(buffer.keyStore) && fresh(buffer.valueStore))
      ensures table.Keys == old(table).Keys && Contents() == old(Contents())
      ensures Sizes(capacity, bucketCount) == PreCheck(|old(table)| + count, Sizes(old(capacity), old(bucketCount)))
      ensures |old(table)| + count <= old(capacity) ==> table == old(table) && buffer == old(buffer)
    {
      ghost var s0 := Sizes(capacity, bucketCount);
      var newSize := Size() + count;
      PreCheckSuffices(newSize, s0);
      if newSize > capacity {
        var expectedBuckets := ExpectedBuckets(newSize, capacity, bucketCount);
        Rehash(expectedBuckets);
        assert Sizes(capacity, bucketCount) == PreCheck(newSize, s0);
      } else {
        assert PreCheck(newSize, s0) == s0;
      }
    }

    /** Batched lookup; reads the table and writes only the output arrays. */
    method Find(keys: seq<Key>, outAddrs: array<nat>, outMasks: array<bool>)
      requires Valid()
      requires outAddrs.Length == |keys| && outMasks.Length == |keys|
      modifies outAddrs, outMasks
      ensures forall i :: 0 <= i < |keys| ==> (outMasks[i] <==> keys[i] in table)
      ensures forall i :: 0 <= i < |keys| && outMasks[i] ==>
        outAddrs[i] == table[keys[i]] && buffer.valueStore[outAddrs[i]] == Contents()[keys[i]]
      ensures forall i :: 0 <= i < |keys| && !outMasks[i] ==> outAddrs[i] == old(outAddrs[i])
    {
      for i := 0 to |keys|
        invariant forall j :: 0 <= j < i ==> (outMasks[j] <==> keys[j] in table)
        invariant forall j :: 0 <= j < i && outMasks[j] ==> outAddrs[j] == table[keys[j]]
        invariant forall j :: 0 <= j < |keys| && !(j < i && outMasks[j]) ==> outAddrs[j] == old(outAddrs[j])
      {
        if keys[i] !in table {
          outMasks[i] := false;
        } else {
          outAddrs[i] := table[keys[i]];
          outMasks[i] := true;
        }
      }
    }

    /** Batched erase, key by key in order: each present key's slot goes back onto the free list. */
    method Erase(keys: seq<Key>, outMasks: array<bool>)
      requires Valid()
      requires outMasks.Length == |keys|
      modifies this, buffer, outMasks
      ensures Valid()
      ensures buffer == old(buffer) && capacity == old(capacity) && bucketCount == old(bucketCount)
      ensures outMasks[..] == EraseMasks(old(table).Keys, keys)
      ensures table == EraseBatch(old(table), keys)
      ensures buffer.freeList == ErasePushes(old(table), keys, old(buffer.freeList))
      ensures Contents() == EraseBatch(old(Contents()), keys)
      ensures |table| + CountTrue(outMasks[..]) == |old(table)|
    {
      ghost var table0 := table;
      EraseAll(keys, outMasks);
      GatherErase(table0, buffer.valueStore[..], keys);
      EraseBatchSize(table0, keys);
    }

    /** The erase loop. */
    method EraseAll(keys: seq<Key>, outMasks: array<bool>)
      requires Valid()
      requires outMasks.Length == |keys|
      modifies this, buffer, outMasks
      ensures Valid()
      ensures buffer == old(buffer) && capacity == old(capacity) && bucketCount == old(bucketCount)
      ensures outMasks[..] == EraseMasks(old(table).Keys, keys)
      ensures table == EraseBatch(old(table), keys)
      ensures buffer.freeList == ErasePushes(old(table), keys, old(buffer.freeList))
    {
      ghost var table0 := table;
      ghost var free0 := buffer.freeList;
      for i := 0 to |keys|
        invariant buffer == old(buffer) && capacity == old(capacity) && bucketCount == old(bucketCount)
        invariant Valid()
        invariant table == EraseBatch(table0, keys[..i])
        invariant buffer.freeList == ErasePushes(table0, keys[..i], free0)
        invariant outMasks[..i] == EraseMasks(table0.Keys, keys[..i])
      {
        EraseMaskStep(table0, keys, i);
        EraseBatchStep(table0, keys, i);
        ErasePushesStep(table0, keys, free0, i);
        var erased := EraseKey(keys[i]);
        outMasks[i] := erased;
        assert outMasks[..i + 1] == outMasks[..i] + [erased];
      }
      assert keys[..|keys|] == keys;
      assert outMasks[..] == outMasks[..|keys|];
    }

    /** The body of the erase loop for one key: drop it from the map and free its slot. */
    method EraseKey(key: Key) returns (erased: bool)
      requires Valid()
      modifies this, buffer
      ensures Valid()
      ensures buffer == old(buffer) && capacity == old(capacity) && bucketCount == old(bucketCount)
      ensures erased == (key in old(table))
      ensures table == old(table) - {key}
      ensures buffer.freeList == if erased then [old(table)[key]] + old(buffer.freeList) else old(buffer.freeList)
    {
      if key !in table {
        erased := false;
      } else {
        var addr := table[key];
        ghost var free0 := buffer.freeList;
        SlotsUnique(table, buffer.keyStore[..], free0);
        buffer.Free(addr);
        EraseKeepsConsistent(table, buffer.keyStore[..], free0, key);
        table := table - {key};
        erased := true;
      }
    }

    /** The batch insert proper: key i gets the slot at the front of the free list, which
        receives its key and value bytes; the map insert succeeds only for a key not yet
        present, and the slot of every rejected key is freed again. */
    method InsertImpl(keys: seq<Key>, values: Option<seq<Value>>, outAddrs: array<nat>, outMasks: array<bool>)
      requires Valid()
      requires |keys| <= |buffer.freeList|
      requires outAddrs.Length == |keys| && outMasks.Length == |keys|
      requires Uniform(keys, keySize)
      requires values.Some? ==> |values.value| == |keys| && Uniform(values.value, valueSize)
      modifies this, buffer, buffer.keyStore, buffer.valueStore, outAddrs, outMasks
      ensures Valid()
      ensures buffer == old(buffer) && capacity == old(capacity) && bucketCount == old(bucketCount)
      ensures outAddrs[..] == old(buffer.freeList)[..|keys|]
      ensures outMasks[..] == InsertMasks(old(table).Keys, keys)
      ensures table == InsertBatch(old(table), keys, outAddrs[..])
      ensures buffer.keyStore[..] == Scatter(old(buffer.keyStore[..]), outAddrs[..], keys)
      ensures buffer.valueStore[..] == Scatter(old(buffer.valueStore[..]), outAddrs[..], Payloads(values, |keys|, valueSize))
      ensures buffer.freeList == FreeRejected(old(buffer.freeList)[|keys|..], outAddrs[..], outMasks[..])
      ensures forall i :: 0 <= i < |keys| && outMasks[i] ==> keys[i] in table && table[keys[i]] == outAddrs[i]
      ensures forall i :: 0 <= i < |keys| && !outMasks[i] ==> outAddrs[i] in buffer.freeList
      ensures Contents() == InsertBatch(old(Contents()), keys, Payloads(values, |keys|, valueSize))
      ensures |table| == |old(table)| + CountTrue(outMasks[..])
    {
      ghost var t0 := table;
      ghost var k0 := buffer.keyStore[..];
      ghost var v0 := buffer.valueStore[..];
      ghost var f0 := buffer.freeList;
      ghost var payloads := Payloads(values, |keys|, valueSize);
      var n := |keys|;
      ghost var alloc := f0[..n];
      InsertLoops(keys, values, outAddrs, outMasks);
      InsertedState(t0, k0, v0, f0, keys, payloads);
      ghost var masks := InsertMasks(t0.Keys, keys);
      assert outMasks[..] == masks && outAddrs[..] == alloc;
      forall i | 0 <= i < n
        ensures outMasks[i] == masks[i] && outAddrs[i] == f0[i]
      {
        assert outMasks[..][i] == masks[i] && outAddrs[..][i] == alloc[i];
      }
    }

    /** The two loops of the batch insert, one after the other. */
    method InsertLoops(keys: seq<Key>, values: Option<seq<Value>>, outAddrs: array<nat>, outMasks: array<bool>)
      requires buffer.Valid() && |keys| <= |buffer.freeList|
      requires outAddrs.Length == |keys| && outMasks.Length == |keys|
      requires values.Some? ==> |values.value| == |keys|
      modifies this`table, buffer, buffer.keyStore, buffer.valueStore, outAddrs, outMasks
      ensures buffer == old(buffer) && buffer.Valid()
      ensures outAddrs[..] == old(buffer.freeList)[..|keys|]
      ensures outMasks[..] == InsertMasks(old(table).Keys, keys)
      ensures table == InsertBatch(old(table), keys, outAddrs[..])
      ensures buffer.keyStore[..] == Scatter(old(buffer.keyStore[..]), outAddrs[..], keys)
      ensures buffer.valueStore[..] == Scatter(old(buffer.valueStore[..]), outAddrs[..], Payloads(values, |keys|, valueSize))
      ensures buffer.freeList == FreeRejected(old(buffer.freeList)[|keys|..], outAddrs[..], outMasks[..])
    {
      ghost var f0 := buffer.freeList;
      var n := |keys|;
      TryInsertAll(keys, values, outAddrs, outMasks);
      DistinctPrefix(f0, n);
      assert forall j :: 0 <= j < n ==> outAddrs[..][j] in f0;
      FreeRejectedSlots(outAddrs, outMasks);
    }

    /** The state the two loops of the batch insert leave behind, in terms of the state
        before them, satisfies the object invariant and holds the inserted entries. */
    lemma InsertedState(t0: map<Key, nat>, k0: seq<Key>, v0: seq<Value>, f0: seq<nat>,
                        keys: seq<Key>, payloads: seq<Value>)
      requires buffer.Valid() && buffer.capacity == capacity && capacity > 0 && bucketCount > 0
      requires buffer.keySize == keySize && buffer.valueSize == valueSize
      requires Consistent(t0, k0, f0) && |v0| == |k0| && |keys| <= |f0| && |payloads| == |keys|
      requires Uniform(k0, keySize) && Uniform(keys, keySize)
      requires Uniform(v0, valueSize) && Uniform(payloads, valueSize)
      requires table == InsertBatch(t0, keys, f0[..|keys|])
      requires buffer.keyStore[..] == Scatter(k0, f0[..|keys|], keys)
      requires buffer.valueStore[..] == Scatter(v0, f0[..|keys|], payloads)
      requires buffer.freeList == FreeRejected(f0[|keys|..], f0[..|keys|], InsertMasks(t0.Keys, keys))
      ensures Valid()
      ensures Contents() == InsertBatch(Gather(t0, v0), keys, payloads)
      ensures |table| == |t0| + CountTrue(InsertMasks(t0.Keys, keys))
      ensures forall i :: 0 <= i < |keys| && InsertMasks(t0.Keys, keys)[i] ==> keys[i] in table && table[keys[i]] == f0[i]
      ensures forall i :: 0 <= i < |keys| && !InsertMasks(t0.Keys, keys)[i] ==> f0[i] in buffer.freeList
    {
      InsertEffect(t0, k0, v0, f0, keys, payloads, keySize, valueSize);

      assert Consistent(table, buffer.keyStore[..], buffer.freeList);
      assert Uniform(buffer.keyStore[..], keySize) && Uniform(buffer.valueStore[..], valueSize);
    }

    /** The first loop of the batch insert: per key, in order, allocate a slot, copy the
        key and the value (or zeros) into it and try the map insert. */
    method TryInsertAll(keys: seq<Key>, values: Option<seq<Value>>, outAddrs: array<nat>, outMasks: array<bool>)
      requires buffer.Valid() && |keys| <= |buffer.freeList|
      requires outAddrs.Length == |keys| && outMasks.Length == |keys|
      requires values.Some? ==> |values.value| == |keys|
      modifies this`table, buffer, buffer.keyStore, buffer.valueStore, outAddrs, outMasks
      ensures buffer == old(buffer) && buffer.Valid()
      ensures outAddrs[..] == old(buffer.freeList)[..|keys|]
      ensures buffer.freeList == old(buffer.freeList)[|keys|..]
      ensures outMasks[..] == InsertMasks(old(table).Keys, keys)
      ensures table == InsertBatch(old(table), keys, outAddrs[..])
      ensures buffer.keyStore[..] == Scatter(old(buffer.keyStore[..]), outAddrs[..], keys)
      ensures buffer.valueStore[..] == Scatter(old(buffer.valueStore[..]), outAddrs[..], Payloads(values, |keys|, valueSize))
    {
      ghost var t0 := table;
      ghost var k0 := buffer.keyStore[..];
      ghost var v0 := buffer.valueStore[..];
      ghost var f0 := buffer.freeList;
      ghost var payloads := Payloads(values, |keys|, valueSize);
      var n := |keys|;
      for i := 0 to n
        invariant buffer == old(buffer) && buffer.Valid() && buffer.freeList == f0[i..]
        invariant outAddrs[..i] == f0[..i]
        invariant outMasks[..i] == InsertMasks(t0.Keys, keys[..i])
        invariant table == InsertBatch(t0, keys[..i], f0[..i])
        invariant buffer.keyStore[..] == Scatter(k0, f0[..i], keys[..i])
        invariant buffer.valueStore[..] == Scatter(v0, f0[..i], payloads[..i])
      {
        TryInsertNext(keys, values, outAddrs, outMasks, i, t0, k0, v0, f0, payloads);
      }
      assert keys[..n] == keys && payloads[..n] == payloads;
      assert outAddrs[..] == outAddrs[..n];
      assert outMasks[..] == outMasks[..n];
    }

    /** Iteration `i` of the first loop of the batch insert, stated as the step from the
        state after keys `0 .. i` to the state after keys `0 .. i + 1`. */
    method TryInsertNext(keys: seq<Key>, values: Option<seq<Value>>, outAddrs: array<nat>, outMasks: array<bool>, i: nat,
                         ghost t0: map<Key, nat>, ghost k0: seq<Key>, ghost v0: seq<Value>, ghost f0: seq<nat>,
                         ghost payloads: seq<Value>)
      requires i < |keys| <= |f0| && outAddrs.Length == |keys| && outMasks.Length == |keys|
      requires values.Some? ==> |values.value| == |keys|
      requires payloads == Payloads(values, |keys|, valueSize)
      requires buffer.Valid() && buffer.freeList == f0[i..]
      requires outAddrs[..i] == f0[..i]
      requires outMasks[..i] == InsertMasks(t0.Keys, keys[..i])
      requires table == InsertBatch(t0, keys[..i], f0[..i])
      requires buffer.keyStore[..] == Scatter(k0, f0[..i], keys[..i])
      requires buffer.valueStore[..] == Scatter(v0, f0[..i], payloads[..i])
      modifies this`table, buffer, buffer.keyStore, buffer.valueStore, outAddrs, outMasks
      ensures buffer == old(buffer) && buffer.Valid() && buffer.freeList == f0[i + 1..]
      ensures outAddrs[..i + 1] == f0[..i + 1]
      ensures outMasks[..i + 1] == InsertMasks(t0.Keys, keys[..i + 1])
      ensures table == InsertBatch(t0, keys[..i + 1], f0[..i + 1])
      ensures buffer.keyStore[..] == Scatter(k0, f0[..i + 1], keys[..i + 1])
      ensures buffer.valueStore[..] == Scatter(v0, f0[..i + 1], payloads[..i + 1])
    {
      assert f0[i] == buffer.freeList[0] && buffer.freeList[0] in buffer.freeList;
      assert |k0| == |v0| == buffer.capacity;
      InsertNext(t0, k0, v0, f0, keys, payloads, i);
      var payload := if values.Some? then values.value[i] else Zeros(valueSize);
      assert payload == payloads[i];
      ghost var addrs := outAddrs[..i];
      ghost var masks := outMasks[..i];
      var addr, inserted := InsertOne(keys[i], payload);
      outAddrs[i] := addr;
      outMasks[i] := inserted;
      assert outAddrs[..i + 1] == addrs + [addr];
      assert outMasks[..i + 1] == masks + [inserted];
    }

    /** The second loop of the batch insert: free the slot of every key whose insert failed. */
    method FreeRejectedSlots(addrs: array<nat>, masks: array<bool>)
      requires buffer.Valid() && addrs.Length == masks.Length
      requires Distinct(addrs[..] + buffer.freeList)
      requires forall j :: 0 <= j < addrs.Length ==> addrs[j] < buffer.capacity
      modifies buffer
      ensures buffer.Valid()
      ensures buffer.freeList == FreeRejected(old(buffer.freeList), addrs[..], masks[..])
    {
      ghost var rest := buffer.freeList;
      ghost var alloc := addrs[..];
      ghost var ms := masks[..];
      for i := 0 to addrs.Length
        invariant buffer.Valid()
        invariant buffer.freeList == FreeRejected(rest, alloc[..i], ms[..i])
      {
        FreeRejectedStep(rest, alloc, ms, i);
        if !masks[i] {
          ReclaimFresh(rest, alloc, ms, i);
          buffer.Free(addrs[i]);
        }
      }
      assert alloc[..addrs.Length] == alloc && ms[..addrs.Length] == ms;
    }

    /** One iteration of the insert loop: allocate a slot, copy the key and the value
        into it (extract_iterator and memcpy), and try the map insert, which succeeds
        only when the key is absent. */
    method InsertOne(key: Key, value: Value) returns (addr: nat, inserted: bool)
      requires buffer.Valid() && |buffer.freeList| > 0
      modifies this`table, buffer, buffer.keyStore, buffer.valueStore
      ensures buffer == old(buffer) && buffer.Valid()
      ensures addr == old(buffer.freeList)[0] && addr < buffer.capacity
      ensures buffer.freeList == old(buffer.freeList)[1..]
      ensures buffer.keyStore[..] == old(buffer.keyStore[..])[addr := key]
      ensures buffer.valueStore[..] == old(buffer.valueStore[..])[addr := value]
      ensures inserted == (key !in old(table))
      ensures table == if inserted then old(table)[key := addr] else old(table)
    {
      addr := buffer.Allocate();
      buffer.keyStore[addr] := key;
      buffer.valueStore[addr] := value;
      inserted := key !in table;
      if inserted {
        table := table[key := addr];
      }
    }

    /** Writes the address of every occupied slot into `outIndices[0 .. Size())`, once each,
        in the map's iteration order. */
    method GetActiveIndices(outIndices: array<nat>) returns (count: nat)
      requires Valid()
      requires outIndices.Length >= |table|
      modifies outIndices
      ensures count == |table|
      ensures Distinct(outIndices[..count])
      ensures forall a :: a in outIndices[..count] <==> a in Occupied(capacity, buffer.freeList)
      ensures outIndices[count..] == old(outIndices[count..])
    {
      count := |table|;
      ghost var visited := ListSlots(table, outIndices);
      ActiveAddrs(table, buffer.keyStore[..], buffer.freeList, visited);
    }

    /** The iteration over the map: the slot of each key, in the map's iteration order,
        goes into `outIndices[0 .. |t|)`; `visited` is that order. */
    static method ListSlots(t: map<Key, nat>, outIndices: array<nat>) returns (ghost visited: seq<Key>)
      requires outIndices.Length >= |t|
      modifies outIndices
      ensures Distinct(visited) && forall k :: k in visited <==> k in t
      ensures outIndices[..|t|] == AddrsOf(t, visited)
      ensures outIndices[|t|..] == old(outIndices[|t|..])
    {
      var i := 0;
      var rest := t.Keys;
      visited := [];
      while rest != {}
        invariant rest <= t.Keys
        invariant forall k :: k in visited <==> k in t && k !in rest
        invariant Distinct(visited) && |visited| == i && i + |rest| == |t|
        invariant outIndices[..i] == AddrsOf(t, visited)
        invariant forall j :: i <= j < outIndices.Length ==> outIndices[j] == old(outIndices[j])
        decreases rest
      {
        var k :| k in rest;
        AddrsOfSnoc(t, visited, k);
        ghost var prefix := outIndices[..i];
        outIndices[i] := t[k];
        assert outIndices[..i + 1] == prefix + [t[k]];
        rest := rest - {k};
        visited := visited + [k];
        i := i + 1;
      }
      assert outIndices[|t|..] == old(outIndices[|t|..]);
    }

    /** The live entries, gathered through the active slot addresses: `keys[j]` and
        `values[j]` are the key and value regions of the j-th active slot. The keys are
        distinct, and inserting them into an empty map rebuilds the contents. */
    method ExtractActive() returns (keys: seq<Key>, values: seq<Value>)
      requires Valid()
      ensures |keys| == |values| == |table|
      ensures Distinct(keys) && Uniform(keys, keySize) && Uniform(values, valueSize)
      ensures forall k :: k in table <==> k in keys
      ensures forall j :: 0 <= j < |keys| ==> Contents()[keys[j]] == values[j]
      ensures InsertBatch(map[], keys, values) == Contents()
    {
      var count := Size();
      var addrs := new nat[count];
      var _ := GetActiveIndices(addrs);
      assert addrs[..count] == addrs[..];
      forall j | 0 <= j < count
        ensures addrs[j] < capacity
      {
        assert addrs[j] in addrs[..count];
        assert addrs[j] in Occupied(capacity, buffer.freeList);
      }
      keys, values := [], [];
      for j := 0 to count
        invariant |keys| == j && |values| == j
        invariant forall i :: 0 <= i < j ==> keys[i] == buffer.keyStore[addrs[i]] && values[i] == buffer.valueStore[addrs[i]]
      {
        keys := keys + [buffer.keyStore[addrs[j]]];
        values := values + [buffer.valueStore[addrs[j]]];
      }
      ExtractedEntries(table, buffer.keyStore[..], buffer.valueStore[..], buffer.freeList, addrs[..], keys, values);
      assert Uniform(keys, keySize) by {
        forall j | 0 <= j < count
          ensures |keys[j]| == keySize
        {
          assert buffer.keyStore[..][addrs[j]] == keys[j];
        }
      }
      assert Uniform(values, valueSize) by {
        forall j | 0 <= j < count
          ensures |values[j]| == valueSize
        {
          assert buffer.valueStore[..][addrs[j]] == values[j];
        }
      }
    }

    /** Rebuilds the table and the buffer for `buckets` buckets and reinserts every entry. */
    method Rehash(buckets: nat)
      requires Valid()
      requires buckets > 0 && RehashCapacity(buckets, capacity, bucketCount) >= |table|
      modifies this
      ensures Valid()
      ensures fresh(buffer) && fresh(buffer.keyStore) && fresh(buffer.valueStore)
      ensures capacity == RehashCapacity(buckets, old(capacity), old(bucketCount))
      ensures bucketCount == buckets
      ensures table.Keys == old(table).Keys
      ensures Contents() == old(Contents())
      ensures |table| == |old(table)|
    {
      var iteratorCount := Size();
      var activeKeys: seq<Key> := [];
      var activeValues: seq<Value> := [];
      if iteratorCount > 0 {
        activeKeys, activeValues := ExtractActive();
      }
      assert InsertBatch(map[], activeKeys, activeValues) == Contents();
      Rebuild(buckets, activeKeys, activeValues);
    }

    /** The part of Rehash after the entries are extracted: a larger capacity, an empty
        map over a fresh buffer, and the batch insert of the extracted entries. */
    method Rebuild(buckets: nat, keys: seq<Key>, values: seq<Value>)
      requires capacity > 0 && bucketCount > 0
      requires buckets > 0 && RehashCapacity(buckets, capacity, bucketCount) >= |keys|
      requires |values| == |keys| && Distinct(keys)
      requires Uniform(keys, keySize) && Uniform(values, valueSize)
      modifies this
      ensures Valid()
      ensures fresh(buffer) && fresh(buffer.keyStore) && fresh(buffer.valueStore)
      ensures capacity == RehashCapacity(buckets, old(capacity), old(bucketCount))
      ensures bucketCount == buckets
      ensures Contents() == InsertBatch(map[], keys, values)
      ensures |table| == |keys|
    {
      RehashKeepsCapacity(buckets, capacity, bucketCount);
      capacity := RehashCapacity(buckets, capacity, bucketCount);
      table := map[];
      buffer := new SlabBuffer(capacity, keySize, valueSize);
      EmptyConsistent(buffer.keyStore[..], buffer.freeList);
      if |keys| > 0 {
        var outAddrs := new nat[|keys|];
        var outMasks := new bool[|keys|];
        InsertImpl(keys, Some(values), outAddrs, outMasks);
        InsertDistinct(keys, values);
        assert outMasks[..] == InsertMasks({}, keys);
        CountAllTrue(outMasks[..]);
      }
      bucketCount := buckets;
    }
  }
}
