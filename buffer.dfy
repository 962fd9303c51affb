/**
  The slab buffer (CPUHashmapBuffer) as CPUHashmap uses it: a fixed number of slots,
  each a key region and a value region, and a free list of slot addresses. The buffer's
  own code is not part of this model; its free list is taken to be a stack, so that
  `Allocate` hands out its front and `Free` pushes onto its front.
 */
module HashmapBuffer {
  import opened Slots

  class SlabBuffer {
    const capacity: nat
    const keySize: nat
    const valueSize: nat
    const keyStore: array<Key>
    const valueStore: array<Value>
    var freeList: seq<nat>

    /** Both regions have one entry per slot; the free list names distinct slots. */
    ghost predicate Valid()
      reads this
    {
      && keyStore.Length == capacity
      && valueStore.Length == capacity
      && keyStore != valueStore
      && Distinct(freeList)
      && (forall a :: a in freeList ==> a < capacity)
    }

    /** A new buffer: every slot free, in address order; the regions are taken to start
        zero-filled. */
    constructor (capacity: nat, keySize: nat, valueSize: nat)
      ensures Valid()
      ensures fresh(keyStore) && fresh(valueStore)
      ensures this.capacity == capacity && this.keySize == keySize && this.valueSize == valueSize
      ensures |freeList| == capacity && forall a :: 0 <= a < capacity ==> freeList[a] == a
      ensures forall a: int :: a in freeList <==> 0 <= a < capacity
      ensures forall a :: 0 <= a < capacity ==> keyStore[a] == Zeros(keySize) && valueStore[a] == Zeros(valueSize)
    {
      this.capacity := capacity;
      this.keySize := keySize;
      this.valueSize := valueSize;
      keyStore := new Key[capacity](_ => Zeros(keySize));
      valueStore := new Value[capacity](_ => Zeros(valueSize));
      var heap := seq(capacity, a => a);
      forall a | 0 <= a < capacity
        ensures heap[a] == a && a in heap
      {
        assert heap[a] == a;
      }
      freeList := heap;
    }

    /** Takes the next free slot. Running out is an error inside the buffer; the
        precondition excludes it, and CpuHashmap never asks for more slots than are free. */
    method Allocate() returns (addr: nat)
      requires Valid() && |freeList| > 0
      modifies this
      ensures Valid()
      ensures addr == old(freeList)[0] && addr < capacity
      ensures freeList == old(freeList)[1..]
    {
      addr := freeList[0];
      assert addr in freeList;
      var rest := freeList[1..];
      assert forall a :: a in rest ==> a in freeList;
      freeList := rest;
    }

    /** Returns an occupied slot to the free list; CpuHashmap only frees a slot it holds. */
    method Free(addr: nat)
      requires Valid() && addr < capacity && addr !in freeList
      modifies this
      ensures Valid()
      ensures freeList == [addr] + old(freeList)
    {
      freeList := [addr] + freeList;
    }
  }
}
