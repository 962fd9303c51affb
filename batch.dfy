/**
  Reference semantics of one batch, with the per-key work done in order
  i = 0, 1, ..., count - 1. This is one legal interleaving of the parallel loops
  of CPUHashmap; under it, of several equal keys in one insert batch the first
  occurrence wins.

  `InsertBatch` and `EraseBatch` are plain folds over the batch; what they mean
  (which keys end up present, with which values, and how many) is stated by the
  lemmas below them.
 */
module Batch {

  /** The number of `true` entries of a mask. */
  function CountTrue(s: seq<bool>): (n: nat)
    ensures n <= |s|
  {
    if |s| == 0 then 0 else CountTrue(s[..|s| - 1]) + (if s[|s| - 1] then 1 else 0)
  }

  /** Insert-if-absent applied to the keys in order; a present key keeps its value. */
  function InsertBatch<K(!new), V>(m: map<K, V>, keys: seq<K>, values: seq<V>): map<K, V>
    requires |keys| == |values|
  {
    if |keys| == 0 then m
    else
      var n := |keys| - 1;
      var prior := InsertBatch(m, keys[..n], values[..n]);
      if keys[n] in prior then prior else prior[keys[n] := values[n]]
  }

  /** The success mask of an insert batch: key i is new to `present` and to the batch so far. */
  function InsertMasks<K(!new)>(present: set<K>, keys: seq<K>): (masks: seq<bool>)
    ensures |masks| == |keys|
  {
    seq(|keys|, i requires 0 <= i < |keys| => keys[i] !in present && keys[i] !in keys[..i])
  }

  /** Erase applied to the keys in order. */
  function EraseBatch<K(!new), V>(m: map<K, V>, keys: seq<K>): map<K, V>
  {
    if |keys| == 0 then m
    else
      var n := |keys| - 1;
      EraseBatch(m, keys[..n]) - {keys[n]}
  }

  /** The success mask of an erase batch: key i is present and not erased earlier in the batch. */
  function EraseMasks<K(!new)>(present: set<K>, keys: seq<K>): (masks: seq<bool>)
    ensures |masks| == |keys|
  {
    seq(|keys|, i requires 0 <= i < |keys| => keys[i] in present && keys[i] !in keys[..i])
  }

  /** After an insert batch the present keys are the old ones and the batch's; old keys keep their values. */
  lemma {:induction false} InsertBatchKeys<K(!new), V>(m: map<K, V>, keys: seq<K>, values: seq<V>)
    requires |keys| == |values|
    ensures forall k :: k in InsertBatch(m, keys, values) <==> k in m || k in keys
    ensures forall k :: k in m ==> InsertBatch(m, keys, values)[k] == m[k]
  {
    if |keys| > 0 {
      var n := |keys| - 1;
      InsertBatchKeys(m, keys[..n], values[..n]);
      assert keys == keys[..n] + [keys[n]];
    }
  }

  /** Every value of an insert batch's result is an old value of its key or one of the batch's values. */
  lemma {:induction false} InsertBatchValues<K(!new), V>(m: map<K, V>, keys: seq<K>, values: seq<V>)
    requires |keys| == |values|
    ensures forall k :: k in InsertBatch(m, keys, values) ==>
      (k in m && InsertBatch(m, keys, values)[k] == m[k]) || InsertBatch(m, keys, values)[k] in values
  {
    if |keys| > 0 {
      var n := |keys| - 1;
      InsertBatchValues(m, keys[..n], values[..n]);
      assert values == values[..n] + [values[n]];
    }
  }

  /** One more key extends an insert batch by one insert-if-absent. */
  lemma InsertBatchStep<K(!new), V>(m: map<K, V>, keys: seq<K>, values: seq<V>, i: nat)
    requires |keys| == |values| && i < |keys|
    ensures InsertBatch(m, keys[..i + 1], values[..i + 1]) ==
      var prior := InsertBatch(m, keys[..i], values[..i]);
      if keys[i] in prior then prior else prior[keys[i] := values[i]]
  {
    assert keys[..i + 1][..i] == keys[..i];
    assert values[..i + 1][..i] == values[..i];
  }

  /** Mask i is the sequential test "key i is absent when it is processed". */
  lemma InsertMaskIsSequential<K(!new), V>(m: map<K, V>, keys: seq<K>, values: seq<V>, i: nat)
    requires |keys| == |values| && i < |keys|
    ensures InsertMasks(m.Keys, keys)[i] <==> keys[i] !in InsertBatch(m, keys[..i], values[..i])
  {
    InsertBatchKeys(m, keys[..i], values[..i]);
  }

  /** The masks of a prefix of the batch are the prefix of its masks. */
  lemma InsertMasksPrefix<K(!new)>(present: set<K>, keys: seq<K>, i: nat)
    requires i <= |keys|
    ensures InsertMasks(present, keys)[..i] == InsertMasks(present, keys[..i])
  {
    forall j | 0 <= j < i
      ensures InsertMasks(present, keys)[j] == InsertMasks(present, keys[..i])[j]
    {
      assert keys[..i][..j] == keys[..j];
    }
  }

  /** One more key extends the insert masks by the sequential test on that key. */
  lemma InsertMaskStep<K(!new), V>(m: map<K, V>, keys: seq<K>, values: seq<V>, i: nat)
    requires |keys| == |values| && i < |keys|
    ensures InsertMasks(m.Keys, keys[..i + 1]) ==
      InsertMasks(m.Keys, keys[..i]) + [keys[i] !in InsertBatch(m, keys[..i], values[..i])]
  {
    var a := InsertMasks(m.Keys, keys[..i + 1]);
    var b := InsertMasks(m.Keys, keys[..i]);
    forall j | 0 <= j < i
      ensures a[j] == b[j]
    {
      assert keys[..i + 1][..j] == keys[..i][..j];
    }
    assert keys[..i + 1][..i] == keys[..i];
    InsertBatchKeys(m, keys[..i], values[..i]);
  }

  /** A successful insert stores the value given with the key. */
  lemma {:induction false} InsertFirstWins<K(!new), V>(m: map<K, V>, keys: seq<K>, values: seq<V>, i: nat)
    requires |keys| == |values| && i < |keys|
    requires InsertMasks(m.Keys, keys)[i]
    ensures keys[i] in InsertBatch(m, keys, values) && InsertBatch(m, keys, values)[keys[i]] == values[i]
  {
    var n := |keys| - 1;
    var prior := InsertBatch(m, keys[..n], values[..n]);
    InsertBatchKeys(m, keys[..n], values[..n]);
    if i < n {
      assert keys[..n][..i] == keys[..i];
      assert InsertMasks(m.Keys, keys[..n])[i];
      InsertFirstWins(m, keys[..n], values[..n], i);
    } else {
      assert keys[n] !in prior;
    }
  }

  /** Every successful insert of a batch stores its value. */
  lemma InsertWinners<K(!new), V>(m: map<K, V>, keys: seq<K>, values: seq<V>)
    requires |keys| == |values|
    ensures forall i :: 0 <= i < |keys| && InsertMasks(m.Keys, keys)[i] ==>
      keys[i] in InsertBatch(m, keys, values) && InsertBatch(m, keys, values)[keys[i]] == values[i]
  {
    forall i | 0 <= i < |keys| && InsertMasks(m.Keys, keys)[i]
      ensures keys[i] in InsertBatch(m, keys, values) && InsertBatch(m, keys, values)[keys[i]] == values[i]
    {
      InsertFirstWins(m, keys, values, i);
    }
  }

  /** An insert batch grows the map by exactly the number of true masks. */
  lemma {:induction false} InsertBatchSize<K(!new), V>(m: map<K, V>, keys: seq<K>, values: seq<V>)
    requires |keys| == |values|
    ensures |InsertBatch(m, keys, values)| == |m| + CountTrue(InsertMasks(m.Keys, keys))
  {
    if |keys| > 0 {
      var n := |keys| - 1;
      InsertBatchSize(m, keys[..n], values[..n]);
      InsertMaskStep(m, keys, values, n);
      assert keys[..n + 1] == keys && values[..n + 1] == values;
      var masks := InsertMasks(m.Keys, keys);
      assert masks[..n] == InsertMasks(m.Keys, keys[..n]);
    }
  }

  /** Reinserting distinct keys into an empty map succeeds for every key and keeps each value. */
  lemma InsertDistinct<K(!new), V>(keys: seq<K>, values: seq<V>)
    requires |keys| == |values|
    requires forall i, j :: 0 <= i < j < |keys| ==> keys[i] != keys[j]
    ensures forall i :: 0 <= i < |keys| ==> InsertMasks({}, keys)[i]
    ensures forall i :: 0 <= i < |keys| ==>
      keys[i] in InsertBatch(map[], keys, values) && InsertBatch(map[], keys, values)[keys[i]] == values[i]
  {
    forall i | 0 <= i < |keys|
      ensures InsertMasks({}, keys)[i]
      ensures keys[i] in InsertBatch(map[], keys, values) && InsertBatch(map[], keys, values)[keys[i]] == values[i]
    {
      assert keys[i] !in keys[..i];
      InsertFirstWins(map[], keys, values, i);
    }
  }

  /** A mask with no false entry counts every entry. */
  lemma {:induction false} CountAllTrue(s: seq<bool>)
    requires forall i :: 0 <= i < |s| ==> s[i]
    ensures CountTrue(s) == |s|
  {
    if |s| > 0 {
      CountAllTrue(s[..|s| - 1]);
    }
  }

  /** After an erase batch the present keys are the old ones not in the batch, with their old values. */
  lemma {:induction false} EraseBatchKeys<K(!new), V>(m: map<K, V>, keys: seq<K>)
    ensures forall k :: k in EraseBatch(m, keys) <==> k in m && k !in keys
    ensures forall k :: k in EraseBatch(m, keys) ==> EraseBatch(m, keys)[k] == m[k]
  {
    if |keys| > 0 {
      var n := |keys| - 1;
      EraseBatchKeys(m, keys[..n]);
      assert keys == keys[..n] + [keys[n]];
    }
  }

  /** One more key extends an erase batch by one erase. */
  lemma EraseBatchStep<K(!new), V>(m: map<K, V>, keys: seq<K>, i: nat)
    requires i < |keys|
    ensures EraseBatch(m, keys[..i + 1]) == EraseBatch(m, keys[..i]) - {keys[i]}
  {
    assert keys[..i + 1][..i] == keys[..i];
  }

  /** One more key extends the erase masks by the sequential test on that key. */
  lemma EraseMaskStep<K(!new), V>(m: map<K, V>, keys: seq<K>, i: nat)
    requires i < |keys|
    ensures EraseMasks(m.Keys, keys[..i + 1]) == EraseMasks(m.Keys, keys[..i]) + [keys[i] in EraseBatch(m, keys[..i])]
  {
    var a := EraseMasks(m.Keys, keys[..i + 1]);
    var b := EraseMasks(m.Keys, keys[..i]);
    forall j | 0 <= j < i
      ensures a[j] == b[j]
    {
      assert keys[..i + 1][..j] == keys[..i][..j];
    }
    assert keys[..i + 1][..i] == keys[..i];
    EraseBatchKeys(m, keys[..i]);
  }

  /** An erase batch shrinks the map by exactly the number of true masks. */
  lemma {:induction false} EraseBatchSize<K(!new), V>(m: map<K, V>, keys: seq<K>)
    ensures |EraseBatch(m, keys)| + CountTrue(EraseMasks(m.Keys, keys)) == |m|
  {
    if |keys| > 0 {
      var n := |keys| - 1;
      var prior := EraseBatch(m, keys[..n]);
      var before := EraseMasks(m.Keys, keys[..n]);
      EraseBatchSize(m, keys[..n]);
      EraseMaskStep(m, keys, n);
      assert keys[..n + 1] == keys;
      CountTrueSnoc(before, keys[n] in prior);
      RemoveCard(prior, keys[n]);
    }
  }

  lemma CountTrueSnoc(s: seq<bool>, b: bool)
    ensures CountTrue(s + [b]) == CountTrue(s) + (if b then 1 else 0)
  {
    assert (s + [b])[..|s|] == s;
  }

  lemma RemoveCard<K, V>(m: map<K, V>, k: K)
    ensures |m - {k}| == |m| - (if k in m then 1 else 0)
  {
    if k !in m {
      assert m - {k} == m;
    }
  }

  /** A present key repeated in one erase batch is reported erased at its first occurrence, then absent. */
  lemma EraseRepeated<K(!new)>(present: set<K>, keys: seq<K>, i: nat, j: nat)
    requires i < j < |keys| && keys[i] == keys[j] && keys[i] in present && keys[i] !in keys[..i]
    ensures EraseMasks(present, keys)[i] && !EraseMasks(present, keys)[j]
  {
    assert keys[..j][i] == keys[j];
  }
}
