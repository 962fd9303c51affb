/**
  What one insert batch does to the slots, stated on plain values.

  InsertImpl takes one slot off the free list per key, in order, and copies the
  key and value bytes into it before it tries the map insert; once every key is
  processed, the slots of the rejected keys are pushed back onto the free list.
  `Scatter` is the effect of those copies on a store, `Rejected` the set of slots
  handed out to rejected keys and `FreeRejected` the free list after they are
  pushed back. `Pending` is the slot invariant in the middle of the batch, while
  the rejected slots are neither owned nor free.
 */
module SlotInsert {
  import opened Batch
  import opened Slots

  /** Writes `vals[j]` into slot `addrs[j]`, for j in order; an address outside the store is skipped. */
  function Scatter<T>(store: seq<T>, addrs: seq<nat>, vals: seq<T>): (r: seq<T>)
    requires |addrs| == |vals|
    ensures |r| == |store|
  {
    if |addrs| == 0 then store
    else
      var n := |addrs| - 1;
      var prior := Scatter(store, addrs[..n], vals[..n]);
      if addrs[n] < |prior| then prior[addrs[n] := vals[n]] else prior
  }

  /** One more write extends a scatter by one slot update. */
  lemma ScatterStep<T>(store: seq<T>, addrs: seq<nat>, vals: seq<T>, i: nat)
    requires |addrs| == |vals| && i < |addrs|
    ensures Scatter(store, addrs[..i + 1], vals[..i + 1]) ==
      var prior := Scatter(store, addrs[..i], vals[..i]);
      if addrs[i] < |prior| then prior[addrs[i] := vals[i]] else prior
  {
    assert addrs[..i + 1][..i] == addrs[..i];
    assert vals[..i + 1][..i] == vals[..i];
  }

  /** A slot no write names keeps its old contents. */
  lemma {:induction false} ScatterKeeps<T>(store: seq<T>, addrs: seq<nat>, vals: seq<T>)
    requires |addrs| == |vals|
    ensures forall a :: 0 <= a < |store| && a !in addrs ==> Scatter(store, addrs, vals)[a] == store[a]
  {
    if |addrs| > 0 {
      var n := |addrs| - 1;
      ScatterKeeps(store, addrs[..n], vals[..n]);
      assert forall a :: a in addrs[..n] ==> a in addrs;
    }
  }

  /** When the addresses are distinct and in range, slot `addrs[j]` ends up holding `vals[j]`. */
  lemma {:induction false} ScatterAt<T>(store: seq<T>, addrs: seq<nat>, vals: seq<T>)
    requires |addrs| == |vals| && Distinct(addrs)
    requires forall j :: 0 <= j < |addrs| ==> addrs[j] < |store|
    ensures forall j :: 0 <= j < |addrs| ==> Scatter(store, addrs, vals)[addrs[j]] == vals[j]
  {
    if |addrs| > 0 {
      var n := |addrs| - 1;
      assert Distinct(addrs[..n]);
      ScatterAt(store, addrs[..n], vals[..n]);
    }
  }

  /** Writing regions of `size` bytes into a store of such regions keeps every region `size` bytes. */
  lemma {:induction false} ScatterUniform(store: seq<seq<bv8>>, addrs: seq<nat>, vals: seq<seq<bv8>>, size: nat)
    requires |addrs| == |vals| && Uniform(store, size) && Uniform(vals, size)
    ensures Uniform(Scatter(store, addrs, vals), size)
  {
    if |addrs| > 0 {
      var n := |addrs| - 1;
      assert Uniform(vals[..n], size);
      ScatterUniform(store, addrs[..n], vals[..n], size);
    }
  }

  /** The slot invariant in the middle of an insert batch: every slot is owned, free or
      pending, and exactly one of them. */
  predicate Pending(table: map<Key, nat>, keyStore: seq<Key>, free: seq<nat>, pending: set<nat>) {
    && Distinct(free)
    && (forall a :: a in free ==> a < |keyStore|)
    && (forall a :: a in pending ==> a < |keyStore| && a !in free)
    && (forall k :: k in table ==> table[k] < |keyStore| && keyStore[table[k]] == k)
    && (forall a :: 0 <= a < |keyStore| ==> (a in free || a in pending <==> !Owned(table, keyStore, a)))
  }

  /** With nothing pending, the mid-batch invariant is the slot invariant. */
  lemma PendingNone(table: map<Key, nat>, keyStore: seq<Key>, free: seq<nat>)
    ensures Pending(table, keyStore, free, {}) <==> Consistent(table, keyStore, free)
  {
  }

  /** Allocating the front slot for key `k` and copying `k` into it: a new key takes the
      slot, a present key leaves it pending. */
  lemma AllocateStep(table: map<Key, nat>, keyStore: seq<Key>, free: seq<nat>, pending: set<nat>, k: Key)
    requires Pending(table, keyStore, free, pending) && |free| > 0
    ensures free[0] < |keyStore| && free[0] !in pending
    ensures k !in table ==> Pending(table[k := free[0]], keyStore[free[0] := k], free[1..], pending)
    ensures k in table ==> Pending(table, keyStore[free[0] := k], free[1..], pending + {free[0]})
  {
    var a := free[0];
    assert a in free;
    var ks := keyStore[a := k];
    assert forall b :: b in free[1..] <==> b in free && b != a;
    forall k' | k' in table
      ensures table[k'] != a
    {
      assert Owned(table, keyStore, table[k']);
    }
    if k !in table {
      var t := table[k := a];
      forall b | 0 <= b < |ks| && b != a
        ensures Owned(t, ks, b) <==> Owned(table, keyStore, b)
      {
      }
      assert Owned(t, ks, a);
    } else {
      forall b | 0 <= b < |ks| && b != a
        ensures Owned(table, ks, b) <==> Owned(table, keyStore, b)
      {
      }
      assert !Owned(table, ks, a);
    }
  }

  /** Pushing a pending slot back onto the free list. */
  lemma ReleaseStep(table: map<Key, nat>, keyStore: seq<Key>, free: seq<nat>, pending: set<nat>, a: nat)
    requires Pending(table, keyStore, free, pending) && a in pending
    ensures Pending(table, keyStore, [a] + free, pending - {a})
  {
  }

  /** The slots handed to the keys whose insert failed. */
  function Rejected(addrs: seq<nat>, masks: seq<bool>): set<nat>
    requires |addrs| == |masks|
  {
    if |addrs| == 0 then {}
    else
      var n := |addrs| - 1;
      Rejected(addrs[..n], masks[..n]) + (if masks[n] then {} else {addrs[n]})
  }

  /** The free list after the rejected slots are pushed back onto `free`, in batch order. */
  function FreeRejected(free: seq<nat>, addrs: seq<nat>, masks: seq<bool>): seq<nat>
    requires |addrs| == |masks|
  {
    if |addrs| == 0 then free
    else
      var n := |addrs| - 1;
      var prior := FreeRejected(free, addrs[..n], masks[..n]);
      if masks[n] then prior else [addrs[n]] + prior
  }

  /** A rejected slot is one of the slots handed out, and every slot of a failed insert is rejected. */
  lemma {:induction false} RejectedSlots(addrs: seq<nat>, masks: seq<bool>)
    requires |addrs| == |masks|
    ensures forall a :: a in Rejected(addrs, masks) ==> a in addrs
    ensures forall j :: 0 <= j < |addrs| && !masks[j] ==> addrs[j] in Rejected(addrs, masks)
  {
    if |addrs| > 0 {
      var n := |addrs| - 1;
      RejectedSlots(addrs[..n], masks[..n]);
      assert forall a :: a in addrs[..n] ==> a in addrs;
      forall j | 0 <= j < n && !masks[j]
        ensures addrs[j] in Rejected(addrs, masks)
      {
        assert addrs[..n][j] == addrs[j] && masks[..n][j] == masks[j];
      }
    }
  }

  /** The free list after the push-back holds the old free slots and the rejected ones, and nothing else. */
  lemma {:induction false} FreeRejectedHas(free: seq<nat>, addrs: seq<nat>, masks: seq<bool>)
    requires |addrs| == |masks|
    ensures forall a :: a in FreeRejected(free, addrs, masks) <==> a in free || a in Rejected(addrs, masks)
  {
    if |addrs| > 0 {
      var n := |addrs| - 1;
      FreeRejectedHas(free, addrs[..n], masks[..n]);
    }
  }

  /** One more slot extends the push-back when its insert failed. */
  lemma FreeRejectedStep(free: seq<nat>, addrs: seq<nat>, masks: seq<bool>, i: nat)
    requires |addrs| == |masks| && i < |addrs|
    ensures FreeRejected(free, addrs[..i + 1], masks[..i + 1]) ==
      if masks[i] then FreeRejected(free, addrs[..i], masks[..i]) else [addrs[i]] + FreeRejected(free, addrs[..i], masks[..i])
  {
    assert addrs[..i + 1][..i] == addrs[..i];
    assert masks[..i + 1][..i] == masks[..i];
  }

  /** During the push-back, slot `alloc[i]` is not yet free, so freeing it is allowed. */
  lemma ReclaimFresh(rest: seq<nat>, alloc: seq<nat>, masks: seq<bool>, i: nat)
    requires |alloc| == |masks| && i < |alloc| && Distinct(alloc + rest)
    ensures alloc[i] !in FreeRejected(rest, alloc[..i], masks[..i])
  {
    FreeRejectedHas(rest, alloc[..i], masks[..i]);
    RejectedSlots(alloc[..i], masks[..i]);
    var s := alloc + rest;
    assert s[i] == alloc[i];
    forall j | 0 <= j < |rest|
      ensures rest[j] != alloc[i]
    {
      assert s[|alloc| + j] == rest[j];
    }
    forall j | 0 <= j < i
      ensures alloc[..i][j] != alloc[i]
    {
      assert s[j] == alloc[j];
    }
  }

  /** One more slot extends the rejected set when its insert failed. */
  lemma RejectedStep(addrs: seq<nat>, masks: seq<bool>, i: nat)
    requires |addrs| == |masks| && i < |addrs|
    ensures Rejected(addrs[..i + 1], masks[..i + 1]) ==
      Rejected(addrs[..i], masks[..i]) + (if masks[i] then {} else {addrs[i]})
  {
    assert addrs[..i + 1][..i] == addrs[..i];
    assert masks[..i + 1][..i] == masks[..i];
  }

  /** After the first n keys of a batch, the map holds their insert-if-absent, the key
      store their copies, and the slots of the rejected ones are pending. */
  lemma {:induction false} InsertPrefix(t0: map<Key, nat>, k0: seq<Key>, f0: seq<nat>, keys: seq<Key>, n: nat)
    requires Consistent(t0, k0, f0) && n <= |keys| && n <= |f0|
    ensures Pending(InsertBatch(t0, keys[..n], f0[..n]), Scatter(k0, f0[..n], keys[..n]), f0[n..],
                    Rejected(f0[..n], InsertMasks(t0.Keys, keys[..n])))
  {
    if n == 0 {
      assert f0[0..] == f0;
      PendingNone(t0, k0, f0);
    } else {
      var i := n - 1;
      InsertPrefix(t0, k0, f0, keys, i);
      var ks := keys[..n];
      var fs := f0[..n];
      var masks := InsertMasks(t0.Keys, ks);
      assert ks[..i] == keys[..i] && fs[..i] == f0[..i] && ks[..i + 1] == ks && fs[..i + 1] == fs;
      InsertBatchStep(t0, ks, fs, i);
      ScatterStep(k0, fs, ks, i);
      InsertMaskIsSequential(t0, ks, fs, i);
      InsertMasksPrefix(t0.Keys, ks, i);
      RejectedStep(fs, masks, i);
      assert masks[..i + 1] == masks;
      assert f0[i..][0] == f0[i] && f0[i..][1..] == f0[n..];
      AllocateStep(InsertBatch(t0, keys[..i], f0[..i]), Scatter(k0, f0[..i], keys[..i]), f0[i..],
                   Rejected(f0[..i], InsertMasks(t0.Keys, keys[..i])), keys[i]);
    }
  }

  /** Pushing back the first i rejected slots of a batch, in order. */
  lemma {:induction false} ReclaimPrefix(t: map<Key, nat>, ks: seq<Key>, rest: seq<nat>, alloc: seq<nat>, masks: seq<bool>, i: nat)
    requires |alloc| == |masks| && i <= |alloc| && Distinct(alloc)
    requires Pending(t, ks, rest, Rejected(alloc, masks))
    ensures Pending(t, ks, FreeRejected(rest, alloc[..i], masks[..i]), Rejected(alloc, masks) - Rejected(alloc[..i], masks[..i]))
  {
    if i > 0 {
      var j := i - 1;
      ReclaimPrefix(t, ks, rest, alloc, masks, j);
      FreeRejectedStep(rest, alloc, masks, j);
      var a := alloc[..i];
      var m := masks[..i];
      assert a[..j] == alloc[..j] && m[..j] == masks[..j];
      RejectedSlots(alloc, masks);
      RejectedSlots(alloc[..j], masks[..j]);
      if !masks[j] {
        assert alloc[j] !in alloc[..j];
        ReleaseStep(t, ks, FreeRejected(rest, alloc[..j], masks[..j]),
                    Rejected(alloc, masks) - Rejected(alloc[..j], masks[..j]), alloc[j]);
      }
      assert Rejected(alloc, masks) - Rejected(a, m) ==
        (Rejected(alloc, masks) - Rejected(alloc[..j], masks[..j])) - (if masks[j] then {} else {alloc[j]});
    }
  }

  /** The contents after an insert batch whose slots are distinct and unowned are the
      insert-if-absent of the batch's payloads into the old contents. */
  lemma {:induction false} GatherInsert(t0: map<Key, nat>, v0: seq<Value>, keys: seq<Key>, addrs: seq<nat>, payloads: seq<Value>)
    requires |keys| == |addrs| == |payloads| && Distinct(addrs)
    requires forall j :: 0 <= j < |addrs| ==> addrs[j] < |v0|
    requires forall k :: k in t0 ==> t0[k] < |v0| && t0[k] !in addrs
    ensures Gather(InsertBatch(t0, keys, addrs), Scatter(v0, addrs, payloads)) == InsertBatch(Gather(t0, v0), keys, payloads)
  {
    if |keys| > 0 {
      var n := |keys| - 1;
      var t := InsertBatch(t0, keys[..n], addrs[..n]);
      var v := Scatter(v0, addrs[..n], payloads[..n]);
      var g := InsertBatch(Gather(t0, v0), keys[..n], payloads[..n]);
      assert Gather(t, v) == g by {
        assert Distinct(addrs[..n]);
        assert forall a :: a in addrs[..n] ==> a in addrs;
        GatherInsert(t0, v0, keys[..n], addrs[..n], payloads[..n]);
      }
      assert forall k :: k in t ==> t[k] < |v| && t[k] != addrs[n] by {
        InsertBatchValues(t0, keys[..n], addrs[..n]);
        forall k | k in t
          ensures t[k] < |v| && t[k] != addrs[n]
        {
          if !(k in t0 && t[k] == t0[k]) {
            var j :| 0 <= j < n && addrs[..n][j] == t[k];
          }
        }
      }
      assert addrs[n] < |v|;
      assert keys[n] in t <==> keys[n] in g;
      if keys[n] in t {
        GatherStoreUnowned(t, v, addrs[n], payloads[n]);
      } else {
        GatherStoreNew(t, v, keys[n], addrs[n], payloads[n]);
      }
    }
  }

  /** The slot invariant holds again once the rejected slots of an insert batch are back
      on the free list. */
  lemma InsertConsistent(t0: map<Key, nat>, k0: seq<Key>, f0: seq<nat>, keys: seq<Key>)
    requires Consistent(t0, k0, f0) && |keys| <= |f0|
    ensures Consistent(InsertBatch(t0, keys, f0[..|keys|]), Scatter(k0, f0[..|keys|], keys),
                       FreeRejected(f0[|keys|..], f0[..|keys|], InsertMasks(t0.Keys, keys)))
  {
    var n := |keys|;
    var alloc := f0[..n];
    var masks := InsertMasks(t0.Keys, keys);
    var t := InsertBatch(t0, keys, alloc);
    var ks := Scatter(k0, alloc, keys);
    InsertPrefix(t0, k0, f0, keys, n);
    assert keys[..n] == keys;
    DistinctPrefix(f0, n);
    ReclaimPrefix(t, ks, f0[n..], alloc, masks, n);
    assert alloc[..n] == alloc && masks[..n] == masks;
    PendingNone(t, ks, FreeRejected(f0[n..], alloc, masks));
  }

  lemma DistinctPrefix(s: seq<nat>, n: nat)
    requires Distinct(s) && n <= |s|
    ensures Distinct(s[..n]) && s == s[..n] + s[n..]
  {
  }

  /** The contents after an insert batch are the insert-if-absent of its payloads into
      the old contents. */
  lemma InsertContents(t0: map<Key, nat>, k0: seq<Key>, v0: seq<Value>, f0: seq<nat>, keys: seq<Key>, payloads: seq<Value>)
    requires Consistent(t0, k0, f0) && |v0| == |k0|
    requires |keys| <= |f0| && |payloads| == |keys|
    ensures Gather(InsertBatch(t0, keys, f0[..|keys|]), Scatter(v0, f0[..|keys|], payloads)) ==
      InsertBatch(Gather(t0, v0), keys, payloads)
  {
    var alloc := f0[..|keys|];
    DistinctPrefix(f0, |keys|);
    SlotsUnique(t0, k0, f0);
    forall j | 0 <= j < |alloc|
      ensures alloc[j] < |v0|
    {
      assert alloc[j] in f0;
    }
    forall k | k in t0
      ensures t0[k] < |v0| && t0[k] !in alloc
    {
      assert t0[k] !in f0;
    }
    GatherInsert(t0, v0, keys, alloc, payloads);
  }

  /** A key whose insert succeeded lives in the slot handed to it; the slot of a key whose
      insert failed is back on the free list. */
  lemma InsertedSlots(t0: map<Key, nat>, rest: seq<nat>, keys: seq<Key>, alloc: seq<nat>)
    requires |alloc| == |keys|
    ensures forall i :: 0 <= i < |keys| && InsertMasks(t0.Keys, keys)[i] ==>
      keys[i] in InsertBatch(t0, keys, alloc) && InsertBatch(t0, keys, alloc)[keys[i]] == alloc[i]
    ensures forall i :: 0 <= i < |keys| && !InsertMasks(t0.Keys, keys)[i] ==>
      alloc[i] in FreeRejected(rest, alloc, InsertMasks(t0.Keys, keys))
  {
    InsertWinners(t0, keys, alloc);
    RejectedSlots(alloc, InsertMasks(t0.Keys, keys));
    FreeRejectedHas(rest, alloc, InsertMasks(t0.Keys, keys));
  }

  /** Everything an insert batch does to the slots, once the rejected slots are back on
      the free list: the slot invariant holds again, every region keeps its size, the
      contents are the insert-if-absent of the payloads, a key that got in lives in the
      slot handed to it, a rejected slot is free, and the size grows by the successes. */
  lemma InsertEffect(t0: map<Key, nat>, k0: seq<Key>, v0: seq<Value>, f0: seq<nat>,
                     keys: seq<Key>, payloads: seq<Value>, keySize: nat, valueSize: nat)
    requires Consistent(t0, k0, f0) && |v0| == |k0|
    requires |keys| <= |f0| && |payloads| == |keys|
    requires Uniform(k0, keySize) && Uniform(keys, keySize)
    requires Uniform(v0, valueSize) && Uniform(payloads, valueSize)
    ensures var alloc := f0[..|keys|];
      var masks := InsertMasks(t0.Keys, keys);
      var t := InsertBatch(t0, keys, alloc);
      && Consistent(t, Scatter(k0, alloc, keys), FreeRejected(f0[|keys|..], alloc, masks))
      && Uniform(Scatter(k0, alloc, keys), keySize)
      && Uniform(Scatter(v0, alloc, payloads), valueSize)
      && Gather(t, Scatter(v0, alloc, payloads)) == InsertBatch(Gather(t0, v0), keys, payloads)
      && (forall i :: 0 <= i < |keys| && masks[i] ==> keys[i] in t && t[keys[i]] == alloc[i])
      && (forall i :: 0 <= i < |keys| && !masks[i] ==> alloc[i] in FreeRejected(f0[|keys|..], alloc, masks))
      && |t| == |t0| + CountTrue(masks)
  {
    var alloc := f0[..|keys|];
    InsertConsistent(t0, k0, f0, keys);
    ScatterUniform(k0, alloc, keys, keySize);
    ScatterUniform(v0, alloc, payloads, valueSize);
    InsertContents(t0, k0, v0, f0, keys, payloads);
    InsertedSlots(t0, f0[|keys|..], keys, alloc);
    InsertBatchSize(t0, keys, alloc);
  }

  /** One iteration of the insert loop on values: key `i` goes to slot `f0[i]`, whose key
      and value regions are overwritten, and the map and the success mask grow by the
      sequential insert-if-absent step. */
  lemma InsertNext(t0: map<Key, nat>, k0: seq<Key>, v0: seq<Value>, f0: seq<nat>,
                   keys: seq<Key>, payloads: seq<Value>, i: nat)
    requires i < |keys| <= |f0| && |payloads| == |keys|
    requires f0[i] < |k0| && |v0| == |k0|
    ensures f0[..i + 1] == f0[..i] + [f0[i]] && f0[i..][0] == f0[i] && f0[i..][1..] == f0[i + 1..]
    ensures Scatter(k0, f0[..i + 1], keys[..i + 1]) == Scatter(k0, f0[..i], keys[..i])[f0[i] := keys[i]]
    ensures Scatter(v0, f0[..i + 1], payloads[..i + 1]) == Scatter(v0, f0[..i], payloads[..i])[f0[i] := payloads[i]]
    ensures var prior := InsertBatch(t0, keys[..i], f0[..i]);
      && InsertBatch(t0, keys[..i + 1], f0[..i + 1]) == (if keys[i] in prior then prior else prior[keys[i] := f0[i]])
      && InsertMasks(t0.Keys, keys[..i + 1]) == InsertMasks(t0.Keys, keys[..i]) + [keys[i] !in prior]
  {
    var alloc := f0[..|keys|];
    assert alloc[..i] == f0[..i] && alloc[..i + 1] == f0[..i + 1];
    InsertMaskStep(t0, keys, alloc, i);
    InsertBatchStep(t0, keys, alloc, i);
    ScatterStep(k0, alloc, keys, i);
    ScatterStep(v0, alloc, payloads, i);
  }
}
