/**
  The growth heuristic of CPUHashmap, in exact integer arithmetic.

  The source computes `capacity / bucket_count` as a float ("average capacity per
  bucket") and rounds with `std::ceil`; here both quotients are exact integer
  ceilings, so `ceil(x / (c / b))` becomes `CeilDiv(x * b, c)`.

  The functions carry only contracts without products of variables, and the ceiling is
  computed by repeated subtraction, so that a proof that only passes their results
  along does not have to reason about them; what they mean is stated by the lemmas
  below them.
 */
module Sizing {

  /** The least `r` with `r * b >= a` (see `CeilDivBounds`), by repeated subtraction. */
  function CeilDiv(a: nat, b: nat): nat
    requires b > 0
    decreases a
  {
    if a == 0 then 0 else if a <= b then 1 else 1 + CeilDiv(a - b, b)
  }

  /** The bucket count a batch pushing the size to `newSize` asks for: at least
      double, or enough buckets to hold `newSize` at the current capacity per bucket. */
  function ExpectedBuckets(newSize: nat, capacity: nat, bucketCount: nat): (e: nat)
    requires capacity > 0
    ensures e >= 2 * bucketCount
  {
    var byDensity := CeilDiv(newSize * bucketCount, capacity);
    if 2 * bucketCount >= byDensity then 2 * bucketCount else byDensity
  }

  /** The capacity after rehashing to `buckets`: the old capacity per bucket, times
      `buckets`, rounded up. */
  function RehashCapacity(buckets: nat, capacity: nat, bucketCount: nat): nat
    requires bucketCount > 0
  {
    CeilDiv(buckets * capacity, bucketCount)
  }

  /** The two numbers the growth heuristic works on. */
  datatype Sizes = Sizes(capacity: nat, bucketCount: nat)

  /** The capacity and bucket count the capacity pre-check of a batch leaves behind:
      when the size after the batch, `newSize`, exceeds the capacity, the table is rehashed
      to the expected bucket count and its capacity scaled; otherwise both stay. */
  function PreCheck(newSize: nat, s: Sizes): (r: Sizes)
    requires s.capacity > 0 && s.bucketCount > 0
    ensures newSize <= s.capacity ==> r == s
    ensures r.bucketCount >= s.bucketCount
  {
    if newSize > s.capacity then
      var buckets := ExpectedBuckets(newSize, s.capacity, s.bucketCount);
      Sizes(RehashCapacity(buckets, s.capacity, s.bucketCount), buckets)
    else s
  }

  /** `CeilDiv(a, b)` is the ceiling of `a / b`: the least multiple count of `b` reaching `a`. */
  lemma {:induction false} CeilDivBounds(a: nat, b: nat)
    requires b > 0
    ensures CeilDiv(a, b) * b >= a
    ensures CeilDiv(a, b) * b < a + b
    decreases a
  {
    if a > b {
      var q := CeilDiv(a - b, b);
      CeilDivBounds(a - b, b);
      assert CeilDiv(a, b) * b == q * b + b;
    }
  }

  /** The expected bucket count at least doubles the old one and holds `newSize` entries
      at `capacity / bucketCount` entries per bucket. */
  lemma ExpectedBucketsBounds(newSize: nat, capacity: nat, bucketCount: nat)
    requires capacity > 0
    ensures ExpectedBuckets(newSize, capacity, bucketCount) >= 2 * bucketCount
    ensures ExpectedBuckets(newSize, capacity, bucketCount) * capacity >= newSize * bucketCount
  {
    var byDensity := CeilDiv(newSize * bucketCount, capacity);
    CeilDivBounds(newSize * bucketCount, capacity);
    if 2 * bucketCount >= byDensity {
      assert 2 * bucketCount * capacity >= byDensity * capacity;
    }
  }

  /** The rehashed capacity keeps the old capacity per bucket, rounded up: it is the
      least `c` with `c * bucketCount >= buckets * capacity`. */
  lemma RehashCapacityBounds(buckets: nat, capacity: nat, bucketCount: nat)
    requires bucketCount > 0
    ensures RehashCapacity(buckets, capacity, bucketCount) * bucketCount >= buckets * capacity
    ensures RehashCapacity(buckets, capacity, bucketCount) * bucketCount < buckets * capacity + bucketCount
  {
    CeilDivBounds(buckets * capacity, bucketCount);
  }

  /** Rehashing to the expected bucket count leaves room for `newSize` entries,
      and keeps both the bucket count and the capacity positive. */
  lemma GrowthSuffices(newSize: nat, capacity: nat, bucketCount: nat)
    requires capacity > 0 && bucketCount > 0
    ensures ExpectedBuckets(newSize, capacity, bucketCount) > 0
    ensures RehashCapacity(ExpectedBuckets(newSize, capacity, bucketCount), capacity, bucketCount) >= newSize
    ensures RehashCapacity(ExpectedBuckets(newSize, capacity, bucketCount), capacity, bucketCount) > 0
  {
    var e := ExpectedBuckets(newSize, capacity, bucketCount);
    var c := RehashCapacity(e, capacity, bucketCount);
    ExpectedBucketsBounds(newSize, capacity, bucketCount);
    RehashCapacityBounds(e, capacity, bucketCount);
    ScaleBack(c, newSize, bucketCount);
    PositiveProduct(e, capacity);
    PositiveFactor(c, bucketCount);
  }

  /** Rehashing to a positive bucket count keeps the capacity positive. */
  lemma RehashKeepsCapacity(buckets: nat, capacity: nat, bucketCount: nat)
    requires buckets > 0 && capacity > 0 && bucketCount > 0
    ensures RehashCapacity(buckets, capacity, bucketCount) > 0
  {
    var c := RehashCapacity(buckets, capacity, bucketCount);
    RehashCapacityBounds(buckets, capacity, bucketCount);
    assert buckets * capacity > 0;
    assert c * bucketCount > 0;
  }

  /** After the pre-check a batch that takes the size to `newSize` fits, and both numbers
      stay positive. */
  lemma PreCheckSuffices(newSize: nat, s: Sizes)
    requires s.capacity > 0 && s.bucketCount > 0
    ensures PreCheck(newSize, s).capacity >= newSize
    ensures PreCheck(newSize, s).capacity > 0 && PreCheck(newSize, s).bucketCount > 0
  {
    if newSize > s.capacity {
      GrowthSuffices(newSize, s.capacity, s.bucketCount);
    }
  }

  lemma ScaleBack(x: nat, y: nat, b: nat)
    requires b > 0 && x * b >= y * b
    ensures x >= y
  {
    assert (x - y) * b == x * b - y * b;
  }

  lemma PositiveProduct(x: nat, y: nat)
    requires x > 0 && y > 0
    ensures x * y > 0
  {
  }

  lemma PositiveFactor(x: nat, y: nat)
    requires x * y > 0
    ensures x > 0
  {
  }
}
