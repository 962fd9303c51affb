# CPUHashmap, modelled in Dafny

This project models the CPU backend of Open3D's fixed-size-key hash map, `CPUHashmap`
(`cpp/open3d/core/hashmap/CPU/HashmapCPU.h`). The map sends opaque byte keys of a fixed
length to integer slot addresses in a pre-allocated slab buffer. Each slot holds a key
region and a value region. All operations work on batches and report one result per
key through caller-provided `output_addrs` / `output_masks` arrays.

The model has five modules:

- `HashmapCpu` (`hashmap_cpu.dfy`): the class `CpuHashmap`. Its fields are:
  - `table`, which stands for the concurrent map `impl_` (key bytes to slot address);
  - `buffer`, the slab buffer `buffer_`;
  - `capacity` (`capacity_`) and `bucketCount` (`bucket_count_`).

  The operations are its methods: the constructor, `Size`, `Insert`, `Activate`,
  `InsertImpl`, `Find`, `Erase`, `GetActiveIndices` and `Rehash`. They keep their loops,
  with invariants, and write the caller's output arrays in place. `Valid()` is the
  object invariant. `Contents()` is the key/value mapping the table represents.
- `HashmapBuffer` (`buffer.dfy`): the class `SlabBuffer`. It has:
  - key and value arrays with one region per slot;
  - a free list of slot addresses, taken to be a stack. `Allocate` pops its front and
    `Free` pushes onto it.

  The buffer's own source file is not part of this model. Only the `Allocate`, `Free`
  and `extract_iterator` uses that `CPUHashmap` makes of it are modelled, and the stack
  order is an assumption (see "Left out").
- `Slots` (`slots.dfy`): the slot invariant `Consistent` on plain values. The free list
  and the owned slots partition `[0, capacity)`, and every live key sits in the slot the
  table maps it to. This module also holds its consequences: no leak, unique slots, and
  the active slots.
- `SlotInsert` (`slot_insert.dfy`): the effect of one insert batch on the slots, on
  values.
- `Batch` (`batch.dfy`): the reference meaning of a batch, with the keys taken in order
  i = 0 .. count-1. It defines `InsertBatch`/`InsertMasks` (insert-if-absent) and
  `EraseBatch`/`EraseMasks`.
- `Sizing` (`sizing.dfy`): the growth heuristic in exact integer arithmetic.

Every `#pragma omp parallel for` loop is modelled as a sequential loop from `i = 0` to
`count - 1`. That is one legal schedule of the parallel loop. It fixes the tie-break
between equal keys in one insert batch: **the first occurrence wins**, and every later
copy of the key is reported as rejected.

Keys and values are `seq<bv8>`. Byte-sequence equality stands in for the `Hash` and
`KeyEq` functors.

## Model

| member | source | states |
|---|---|---|
| HashmapCpu.CpuHashmap.constructor | cpp/open3d/core/hashmap/CPU/HashmapCPU.h:93-112 | A new map is empty, has the requested capacity and bucket count, and every slot of its fresh buffer is free. |
| HashmapBuffer.SlabBuffer.constructor | cpp/open3d/core/hashmap/CPU/HashmapCPU.h:109-111 | A new buffer has `capacity` slots, all on the free list in address order, with regions of the fixed key and value sizes (zero-filled, see "Left out"). |
| HashmapBuffer.SlabBuffer.Allocate | cpp/open3d/core/hashmap/CPU/HashmapCPU.h:283 | Allocation hands out the front of the free list, an address below the capacity, and removes it from the list. |
| HashmapBuffer.SlabBuffer.Free | cpp/open3d/core/hashmap/CPU/HashmapCPU.h:309 | Freeing pushes a slot that was not free back onto the free list. |
| HashmapCpu.CpuHashmap.Size | cpp/open3d/core/hashmap/CPU/HashmapCPU.h:119-122 | No contract of its own: the number of live entries of the map, `|table|`. What that number means for the slots is `SizeCountsOccupied`. |
| HashmapCpu.CpuHashmap.SizeCountsOccupied | cpp/open3d/core/hashmap/CPU/HashmapCPU.h:119-122 | `Size()` is the number of occupied slots, and `Size()` plus the free slots is the capacity. |
| Slots.NoLeak | cpp/open3d/core/hashmap/CPU/HashmapCPU.h:120-122 | Under the slot invariant, live entries plus free slots account for every slot, and the occupied slots are exactly `Size()` many. |
| Slots.SlotsUnique | cpp/open3d/core/hashmap/CPU/HashmapCPU.h:283-311 | Distinct live keys occupy distinct slots, and no live key's slot is on the free list. |
| Slots.OccupiedAreMapped | cpp/open3d/core/hashmap/CPU/HashmapCPU.h:202-212 | The slots not on the free list are exactly the slots the table maps to. |
| HashmapCpu.CpuHashmap.Insert | cpp/open3d/core/hashmap/CPU/HashmapCPU.h:124-140 | The pre-check leaves capacity and bucket count as `PreCheck` prescribes, with no rehash when the batch fits. When the batch fits in the free slots, the table is `InsertBatch` of the old table with the front free slots as addresses, so a key already present keeps its slot. Mask i is the sequential "key i is new" test. A key that got in maps to its reported slot. A rejected key's slot is free again. The contents become the insert-if-absent of the batch. The size grows by the number of true masks and stays within the capacity. |
| HashmapCpu.CpuHashmap.Activate | cpp/open3d/core/hashmap/CPU/HashmapCPU.h:142-157 | Same as Insert, with every inserted value the zero byte string of the value size. |
| HashmapCpu.CpuHashmap.InsertedEntries | cpp/open3d/core/hashmap/CPU/HashmapCPU.h:286-303 | Given the postconditions of Insert or Activate: the slot reported for a key that got in holds that key's bytes and its value bytes (or zeros). |
| HashmapCpu.CpuHashmap.GrowFor | cpp/open3d/core/hashmap/CPU/HashmapCPU.h:130-138 | The capacity pre-check. Afterwards `Size() + count <= capacity`, the contents and keys are unchanged, and capacity and bucket count are `PreCheck(Size() + count, old sizes)`. When the batch already fits, nothing changes. |
| Sizing.ExpectedBuckets | cpp/open3d/core/hashmap/CPU/HashmapCPU.h:132-136 | The bucket count the pre-check asks for is at least double the old one; `ExpectedBucketsBounds` adds that it holds `newSize` entries at the current capacity per bucket. |
| Sizing.RehashCapacity | cpp/open3d/core/hashmap/CPU/HashmapCPU.h:230-233 | No contract of its own: `CeilDiv(buckets * capacity, bucketCount)`. `RehashCapacityBounds` proves it is the exact ceiling of `buckets * capacity / bucketCount`. |
| Sizing.PreCheck | cpp/open3d/core/hashmap/CPU/HashmapCPU.h:130-138 | When the size after the batch fits in the capacity, nothing changes. The bucket count never shrinks. `PreCheckSuffices` proves that afterwards the batch fits. |
| Sizing.PreCheckSuffices | cpp/open3d/core/hashmap/CPU/HashmapCPU.h:130-138 | After the pre-check the capacity is at least the size after the batch, and capacity and bucket count stay positive. |
| Sizing.GrowthSuffices | cpp/open3d/core/hashmap/CPU/HashmapCPU.h:230-233 | Rehashing to the expected bucket count gives a positive capacity of at least `newSize`, so no later `Allocate` can fail. |
| Sizing.ExpectedBucketsBounds | cpp/open3d/core/hashmap/CPU/HashmapCPU.h:132-136 | The expected bucket count is at least twice the old one, and it holds `newSize` entries at the old capacity per bucket. |
| Sizing.RehashCapacityBounds | cpp/open3d/core/hashmap/CPU/HashmapCPU.h:230-233 | The rehashed capacity is the ceiling of `buckets * capacity / bucketCount`: at least that quotient and less than one more. |
| Sizing.RehashKeepsCapacity | cpp/open3d/core/hashmap/CPU/HashmapCPU.h:230-233 | A positive bucket count gives a positive rehashed capacity. |
| Sizing.CeilDivBounds | cpp/open3d/core/hashmap/CPU/HashmapCPU.h:136 | `CeilDiv(a, b) * b` is at least `a` and below `a + b`: `CeilDiv` is the ceiling of `a / b` that `std::ceil` computes on an exact quotient. |
| HashmapCpu.CpuHashmap.InsertImpl | cpp/open3d/core/hashmap/CPU/HashmapCPU.h:270-314 | The whole new state: the free list, the key store and the value store, in terms of the old ones. The reported slots are the front of the old free list. The masks are `InsertMasks`. Afterwards the invariant holds again, the contents are the insert-if-absent, and the size grows by the successes. |
| HashmapCpu.CpuHashmap.InsertLoops | cpp/open3d/core/hashmap/CPU/HashmapCPU.h:278-311 | The two loops of the insert, in sequence. They leave the table, the key store, the value store, the free list and both output arrays as `InsertBatch`, `Scatter` and `FreeRejected` describe. |
| HashmapCpu.CpuHashmap.InsertedState | cpp/open3d/core/hashmap/CPU/HashmapCPU.h:276-311 | The state after both loops satisfies the object invariant, holds the insert-if-absent contents, has grown by the true masks, and has every rejected slot free again. |
| HashmapCpu.CpuHashmap.TryInsertAll | cpp/open3d/core/hashmap/CPU/HashmapCPU.h:278-304 | The first loop consumes the first `count` free slots, in order. It copies each key and value (or zeros) into its slot and records the sequential insert-if-absent masks. |
| HashmapCpu.CpuHashmap.TryInsertNext | cpp/open3d/core/hashmap/CPU/HashmapCPU.h:279-304 | One iteration of that loop moves each part of the state from its value after keys `0..i` to its value after keys `0..i+1`. |
| HashmapCpu.CpuHashmap.InsertOne | cpp/open3d/core/hashmap/CPU/HashmapCPU.h:283-303 | Allocate a slot and write the key and value regions. The map insert succeeds exactly when the key is absent, and only then changes the map. |
| HashmapCpu.CpuHashmap.FreeRejectedSlots | cpp/open3d/core/hashmap/CPU/HashmapCPU.h:306-311 | The second loop pushes back exactly the slots of the rejected keys, in batch order (`FreeRejected`). |
| Batch.InsertMaskIsSequential | cpp/open3d/core/hashmap/CPU/HashmapCPU.h:300-303 | Mask i is true exactly when key i is absent from the map as left by keys `0..i-1`. |
| Batch.InsertFirstWins | cpp/open3d/core/hashmap/CPU/HashmapCPU.h:286-303 | A key whose mask is true ends up mapped to the value given with it. |
| Batch.InsertWinners | cpp/open3d/core/hashmap/CPU/HashmapCPU.h:286-303 | The same, for every true mask of a batch at once. |
| Batch.InsertBatchKeys | cpp/open3d/core/hashmap/CPU/HashmapCPU.h:300-303 | After an insert batch the keys are the old ones plus the batch's. An already-present key keeps its value (and, for the table, its slot). |
| Batch.InsertBatchValues | cpp/open3d/core/hashmap/CPU/HashmapCPU.h:300-303 | Every value after an insert batch is the key's old value or one of the batch's values. |
| Batch.InsertBatchSize | cpp/open3d/core/hashmap/CPU/HashmapCPU.h:300-303 | An insert batch grows the map by exactly the number of true masks. |
| Batch.InsertMasksPrefix | cpp/open3d/core/hashmap/CPU/HashmapCPU.h:279-304 | The masks of a prefix of a batch are the prefix of its masks. Later keys never change earlier results. |
| SlotInsert.InsertEffect | cpp/open3d/core/hashmap/CPU/HashmapCPU.h:276-311 | After an insert batch: the slot invariant holds again, every region keeps its length, and the contents are the insert-if-absent. Winners live in their slot, rejected slots are free, and the size grows by the successes. |
| SlotInsert.InsertConsistent | cpp/open3d/core/hashmap/CPU/HashmapCPU.h:276-311 | No leak across a batch: once the rejected slots are pushed back, the free list and the owned slots partition the slots again. |
| SlotInsert.InsertPrefix | cpp/open3d/core/hashmap/CPU/HashmapCPU.h:279-304 | Midway through the first loop every slot is owned, free or pending (handed to a rejected key), and exactly one of them. |
| SlotInsert.ReclaimPrefix | cpp/open3d/core/hashmap/CPU/HashmapCPU.h:306-311 | Each push-back in the second loop turns one pending slot into a free one. |
| SlotInsert.AllocateStep | cpp/open3d/core/hashmap/CPU/HashmapCPU.h:283-303 | Allocating the front slot and copying a key into it: a new key takes the slot, and a present key leaves the slot pending. |
| SlotInsert.InsertContents | cpp/open3d/core/hashmap/CPU/HashmapCPU.h:286-303 | The contents after an insert batch are the insert-if-absent of its payloads into the old contents. |
| SlotInsert.GatherInsert | cpp/open3d/core/hashmap/CPU/HashmapCPU.h:286-303 | The same, for any distinct unowned slots in range. |
| SlotInsert.InsertedSlots | cpp/open3d/core/hashmap/CPU/HashmapCPU.h:300-311 | A key that got in is mapped to the slot handed to it, and the slot of a rejected key is on the free list. |
| SlotInsert.FreeRejectedHas | cpp/open3d/core/hashmap/CPU/HashmapCPU.h:306-311 | The free list after the push-back holds the old free slots and the rejected slots, and nothing else. |
| SlotInsert.RejectedSlots | cpp/open3d/core/hashmap/CPU/HashmapCPU.h:306-311 | The rejected slots are slots handed out in the batch, and every failed key's slot is among them. |
| SlotInsert.ReclaimFresh | cpp/open3d/core/hashmap/CPU/HashmapCPU.h:309 | During the push-back, the slot about to be freed is not free yet. No slot is freed twice. |
| SlotInsert.ScatterAt | cpp/open3d/core/hashmap/CPU/HashmapCPU.h:286-297 | With distinct in-range addresses, slot `addrs[j]` ends up holding the j-th region written. |
| SlotInsert.ScatterKeeps | cpp/open3d/core/hashmap/CPU/HashmapCPU.h:286-297 | A slot that no write names keeps its contents. |
| SlotInsert.ScatterUniform | cpp/open3d/core/hashmap/CPU/HashmapCPU.h:288-297 | Copies of `dsize` bytes keep every region `dsize` bytes long. |
| SlotInsert.InsertNext | cpp/open3d/core/hashmap/CPU/HashmapCPU.h:279-304 | One loop iteration on values: key i takes slot `f0[i]`, whose regions are overwritten, and the map and the masks grow by one insert-if-absent step. |
| HashmapCpu.Payloads | cpp/open3d/core/hashmap/CPU/HashmapCPU.h:290-297 | Value i written is the caller's value i, or `dsize_value` zero bytes when no values are given. |
| Slots.Zeros | cpp/open3d/core/hashmap/CPU/HashmapCPU.h:296 | `Zeros(n)` is `n` zero bytes. |
| HashmapCpu.CpuHashmap.Find | cpp/open3d/core/hashmap/CPU/HashmapCPU.h:159-178 | Read-only: only the output arrays are modified. Mask i is true exactly when key i is present. Then addr i is its slot, whose value region is the key's value. On a miss, addr i is left as it was. |
| HashmapCpu.CpuHashmap.Erase | cpp/open3d/core/hashmap/CPU/HashmapCPU.h:180-199 | Mask i is true exactly when key i is present and not erased earlier in the batch. The table and the contents lose exactly the batch's keys. Each erased key's slot is pushed onto the free list. The size drops by the number of true masks. |
| HashmapCpu.CpuHashmap.EraseAll | cpp/open3d/core/hashmap/CPU/HashmapCPU.h:185-197 | The erase loop keeps the invariant. It leaves the table as `EraseBatch`, the free list as `ErasePushes` and the masks as `EraseMasks`. |
| HashmapCpu.CpuHashmap.EraseKey | cpp/open3d/core/hashmap/CPU/HashmapCPU.h:189-196 | One key: if present, its slot is freed and the key removed, and the result is true; otherwise nothing changes and the result is false. |
| Slots.EraseKeepsConsistent | cpp/open3d/core/hashmap/CPU/HashmapCPU.h:193-194 | Freeing a live key's slot and erasing the key keeps the slot invariant. |
| Slots.ErasedSlotsFreed | cpp/open3d/core/hashmap/CPU/HashmapCPU.h:189-196 | Every slot of a key reported erased, and every slot already free, is on the free list after the batch. |
| Slots.GatherErase | cpp/open3d/core/hashmap/CPU/HashmapCPU.h:185-197 | Erasing keys from the table erases the same keys from the contents. Every other entry is untouched. |
| Batch.EraseBatchKeys | cpp/open3d/core/hashmap/CPU/HashmapCPU.h:185-197 | After an erase batch the keys are the old keys not in the batch, each with its old value. |
| Batch.EraseBatchSize | cpp/open3d/core/hashmap/CPU/HashmapCPU.h:185-197 | An erase batch shrinks the map by exactly the number of true masks. |
| Batch.EraseRepeated | cpp/open3d/core/hashmap/CPU/HashmapCPU.h:185-197 | A present key repeated in one erase batch reports true at its first occurrence and false at a later one. |
| HashmapCpu.CpuHashmap.GetActiveIndices | cpp/open3d/core/hashmap/CPU/HashmapCPU.h:201-212 | Returns `Size()`. It writes the occupied slot addresses into `output_indices[0..Size())`, each exactly once and no other, and leaves the rest of the array alone. |
| HashmapCpu.CpuHashmap.ListSlots | cpp/open3d/core/hashmap/CPU/HashmapCPU.h:205-209 | The iteration visits every key once and writes key j's slot at position j. |
| Slots.ActiveAddrs | cpp/open3d/core/hashmap/CPU/HashmapCPU.h:205-211 | Listing the slot of every live key once lists `Size()` addresses: distinct, and exactly the occupied slots. |
| Slots.AddrsOfIndex | cpp/open3d/core/hashmap/CPU/HashmapCPU.h:207-209 | Entry j of the listing is the slot of the j-th visited key. |
| HashmapCpu.CpuHashmap.ExtractActive | cpp/open3d/core/hashmap/CPU/HashmapCPU.h:221-228 | Gathering key and value regions through the active addresses yields each live key once, with its value. Inserting them into an empty map rebuilds the contents. |
| Slots.ExtractedEntries | cpp/open3d/core/hashmap/CPU/HashmapCPU.h:221-228 | The extracted keys are distinct and are exactly the live keys, each with its value. Every reinsertion mask is true, and reinserting them into an empty map gives the contents. |
| Slots.ExtractedKeys | cpp/open3d/core/hashmap/CPU/HashmapCPU.h:222-226 | The keys read from the occupied slots are the live keys, each once, each read from its own slot. |
| Batch.InsertDistinct | cpp/open3d/core/hashmap/CPU/HashmapCPU.h:241-249 | Distinct keys inserted into an empty map all succeed, and each keeps its value. |
| HashmapCpu.CpuHashmap.Rehash | cpp/open3d/core/hashmap/CPU/HashmapCPU.h:214-253 | Rehash preserves the key/value contents and the size. The new capacity is `ceil(buckets * capacity / bucketCount)`, the bucket count becomes `buckets`, and the buffer is fresh, so slot addresses may change. |
| HashmapCpu.CpuHashmap.Rebuild | cpp/open3d/core/hashmap/CPU/HashmapCPU.h:230-252 | After the new capacity, an empty map on a fresh buffer and the reinsertion, the contents are exactly the reinserted pairs, the size is the number of pairs (every reinsertion succeeds), and the invariant holds. |
| Slots.EmptyConsistent | cpp/open3d/core/hashmap/CPU/HashmapCPU.h:234-239 | An empty table over a buffer whose slots are all free satisfies the slot invariant. |

## Left out

- Concurrency: the TBB map and the OpenMP loops are modelled sequentially. Each
  parallel loop runs as `i = 0 .. count-1`, so the first of several equal keys in one
  insert batch wins. Under another schedule a different copy can win.
- Float arithmetic in the sizing (lines 132-136 and 230-233) is replaced by exact
  integer ceilings. Float rounding, and the `int64_t` conversions around it, are not
  modelled.
- HashmapCpu.CpuHashmap.Insert: the refresh `bucket_count_ = impl_->unsafe_bucket_count()`
  at the end of `InsertImpl` (line 313) is not modelled, because that value comes from
  TBB's internal bucket policy. The model keeps the bucket count the pre-check set.
- HashmapCpu.CpuHashmap.Activate: as for Insert, the bucket count refresh of line 313
  is not modelled.
- HashmapCpu.CpuHashmap.Erase: the bucket count refresh of line 198 is not modelled.
  The bucket count is stated unchanged.
- HashmapCpu.CpuHashmap.Rehash: sets the bucket count to `buckets` instead of to what
  `impl_->rehash(buckets)` and `unsafe_bucket_count()` report (lines 251-252).
- HashmapCpu.CpuHashmap.Rehash: requires the new capacity to be at least `Size()`. The
  source does not check this, and a smaller capacity would exhaust the allocator during
  reinsertion. `Insert` and `Activate` always meet it (`Sizing.GrowthSuffices`).
- HashmapCpu.CpuHashmap.Rehash: requires `buckets > 0`, which excludes `Rehash(0)` on an
  empty map. The source accepts that call and sets `capacity_` to 0; the model's object
  invariant keeps the capacity and the bucket count positive, because the next pre-check
  would divide by the zero capacity. `Insert` and `Activate` never pass 0
  (`Sizing.GrowthSuffices`).
- HashmapCpu.CpuHashmap.Rebuild: requires `buckets > 0`, for the same reason as `Rehash`.
- HashmapCpu.CpuHashmap.InsertImpl: requires at least `count` free slots. Running out of
  slots is an error inside the buffer; the model excludes it by this requirement, and
  `Insert`, `Activate` and `Rehash` never reach it (`GrowFor`, and `Rehash`'s requirement).
- HashmapBuffer.SlabBuffer.Allocate: requires a free slot, for the same reason.
- HashmapCpu.CpuHashmap.constructor: requires positive `init_buckets` and
  `init_capacity`. With zero, the source's sizing divides by zero.
- `BucketSizes` and `LoadFactor` are left out: they only report TBB internals.
- The destructor is left out: it only clears the map.
- `GetKeyTensor` / `GetValueTensor` are plain accessors. They correspond to the
  buffer's `keyStore` / `valueStore` arrays, which are public fields.
- Tensor plumbing is left out: `IndexGet`, `To(Dtype::Int64)`, the temporary tensors of
  `Rehash`, and `Device`. The extracted keys and values are sequences.
- The `Hash` and `KeyEq` functors are left out. Keys are compared by byte-sequence
  equality, which is what `KeyEq` does on `dsize_key` bytes.
- Integer widths are not modelled: `addr_t` (32-bit) and the `int64_t` counts are
  unbounded here.
- `CPUHashmapBuffer` (`HashmapBufferCPU.hpp`) is not part of this model. `SlabBuffer`
  only provides what `CPUHashmap` calls: `Allocate`, `Free` and the slot regions.
- The order of the free list is an assumption: `SlabBuffer` is a stack whose slots start
  in address order. Only order-sensitive clauses rely on it: the reported slots being the
  front of the old free list (`InsertImpl`, `TryInsertAll`, `Insert`, `Activate`), and
  the free list after the push-backs (`FreeRejectedSlots`, `InsertImpl`, `Erase`). The
  invariant, the contents, the masks and the sizes do not depend on it.
- HashmapBuffer.SlabBuffer.constructor: the zero-filled regions of a new buffer are an
  idealisation. No other contract relies on what a free slot holds.
- `examples/cpp/OnlineSLAMRGBD.cpp`, `cpp/tests/pipelines/registration/ColoredICP.cpp`
  and `cpp/open3d/core/nns/NNSIndex.cpp` are left out. They are an application, a
  point-cloud registration test and tensor getters, and none of them is part of the
  hash map.
