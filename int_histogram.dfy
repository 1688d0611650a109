/** A fixed-width histogram over the integers [min, max]: n buckets of
    equal width, the last one also taking the remainder of the range, and
    one counter per bucket that adding a value increments. */
module Histograms {

  /** Number of integers in [min, max]. */
  function Range(min: int, max: int): int
  {
    max - min + 1
  }

  /** Buckets allocated: the requested number, but never more than the
      number of distinct values in the range. */
  function BucketCount(buckets: int, min: int, max: int): (n: int)
    ensures n == buckets || n == Range(min, max)
    ensures n <= buckets && n <= Range(min, max)
  {
    if Range(min, max) > buckets then buckets else Range(min, max)
  }

  /** Width of bucket `index`: the range divided evenly over n buckets,
      with the remainder added to the last bucket. */
  function BucketSize(min: int, max: int, n: int, index: int): int
    requires n >= 1 && min <= max
  {
    var w := Range(min, max);
    w / n + (if index == n - 1 && w % n != 0 then w % n else 0)
  }

  /** Java's integer cast of a quotient truncates toward zero. The double
      quotient of two 32-bit integers is never rounded up to the next
      integer, so it truncates to the integer quotient. */
  function TruncDiv(a: int, d: int): int
    requires d > 0
  {
    if a >= 0 then a / d else -((-a) / d)
  }

  /** The bucket of v as the histogram computes it: the largest value goes
      to the last bucket, any other to (v - min) / width of bucket 0. */
  function GetBucketAsWritten(min: int, max: int, n: int, v: int): (b: int)
    requires n >= 1 && min <= max && n <= Range(min, max)
    ensures min <= v ==> b >= 0
  {
    if v == max then n - 1 else TruncDiv(v - min, BucketSize(min, max, n, 0))
  }

  /** The bucket of v in [min, max], with values past the last regular
      bucket boundary placed in the last bucket, which is the one that
      holds the remainder of the range. */
  function BucketOf(min: int, max: int, n: int, v: int): (b: int)
    requires n >= 1 && min <= max && n <= Range(min, max) && min <= v <= max
    ensures 0 <= b < n
  {
    BucketSizePositive(min, max, n);
    if v == max then n - 1
    else
      var q := (v - min) / BucketSize(min, max, n, 0);
      if q < n - 1 then q else n - 1
  }

  /** First value of bucket i. */
  function BucketLow(min: int, max: int, n: int, i: int): int
    requires n >= 1 && min <= max
  {
    min + i * BucketSize(min, max, n, 0)
  }

  /** Last value of bucket i. */
  function BucketHigh(min: int, max: int, n: int, i: int): int
    requires n >= 1 && min <= max
  {
    BucketLow(min, max, n, i) + BucketSize(min, max, n, i) - 1
  }

  predicate InBucket(min: int, max: int, n: int, v: int, i: int)
    requires n >= 1 && min <= max
  {
    BucketLow(min, max, n, i) <= v <= BucketHigh(min, max, n, i)
  }

  /** Sum of the widths of buckets [0, k). */
  function WidthSum(min: int, max: int, n: int, k: nat): int
    requires n >= 1 && min <= max
  {
    if k == 0 then 0 else WidthSum(min, max, n, k - 1) + BucketSize(min, max, n, k - 1)
  }

  /** Every bucket is at least one value wide when there are no more
      buckets than values. */
  lemma BucketSizePositive(min: int, max: int, n: int)
    requires n >= 1 && min <= max && n <= Range(min, max)
    ensures forall i :: BucketSize(min, max, n, i) >= 1
  {
    var w := Range(min, max);
    var q := w / n;
    assert w == q * n + w % n;
    MulStep(q, 1, n);
  }

  lemma {:induction false} WidthSumRegular(min: int, max: int, n: int, k: nat)
    requires n >= 1 && min <= max && k <= n - 1
    ensures WidthSum(min, max, n, k) == k * BucketSize(min, max, n, 0)
    decreases k
  {
    if k > 0 {
      WidthSumRegular(min, max, n, k - 1);
      assert BucketSize(min, max, n, k - 1) == BucketSize(min, max, n, 0);
    }
  }

  /** The buckets together are exactly as wide as the range. */
  lemma WidthsCoverRange(min: int, max: int, n: int)
    requires n >= 1 && min <= max
    ensures WidthSum(min, max, n, n) == Range(min, max)
  {
    WidthSumRegular(min, max, n, n - 1);
    var w := Range(min, max);
    assert w == n * (w / n) + w % n;
    assert (n - 1) * (w / n) + w / n == n * (w / n);
  }

  /** The buckets tile [min, max]: bucket 0 starts at min, each next
      bucket starts right after the previous one ends, and the last one
      ends at max. */
  lemma BucketsTile(min: int, max: int, n: int)
    requires n >= 1 && min <= max
    ensures BucketLow(min, max, n, 0) == min
    ensures forall i :: 0 <= i < n - 1 ==> BucketHigh(min, max, n, i) + 1 == BucketLow(min, max, n, i + 1)
    ensures BucketHigh(min, max, n, n - 1) == max
  {
    var s := BucketSize(min, max, n, 0);
    forall i | 0 <= i < n - 1
      ensures BucketHigh(min, max, n, i) + 1 == BucketLow(min, max, n, i + 1)
    {
      assert BucketSize(min, max, n, i) == s;
      assert (i + 1) * s == i * s + s;
    }
    var w := Range(min, max);
    assert w == n * (w / n) + w % n;
    assert (n - 1) * s + s == n * s;
  }

  /** Multiplying by a non-negative factor keeps order, and a strict
      order leaves a gap of at least one factor. */
  lemma {:induction false} MulStep(x: int, y: int, s: int)
    requires s >= 0
    ensures x <= y ==> x * s <= y * s
    ensures x < y ==> x * s + s <= y * s
    decreases if x < y then y - x else 0
  {
    if x < y {
      MulStep(x, y - 1, s);
      assert y * s == (y - 1) * s + s;
    }
  }

  /** Every value of the range lies in its bucket and in no other one. */
  lemma BucketOfSpec(min: int, max: int, n: int, v: int, i: int)
    requires n >= 1 && min <= max && n <= Range(min, max) && min <= v <= max
    requires 0 <= i < n
    ensures InBucket(min, max, n, v, i) <==> i == BucketOf(min, max, n, v)
  {
    if i < n - 1 {
      RegularBucket(min, max, n, v, i);
    } else {
      LastBucket(min, max, n, v);
    }
  }

  lemma RegularBucket(min: int, max: int, n: int, v: int, i: int)
    requires n >= 1 && min <= max && n <= Range(min, max) && min <= v <= max
    requires 0 <= i < n - 1
    ensures InBucket(min, max, n, v, i) <==> i == BucketOf(min, max, n, v)
  {
    BucketSizePositive(min, max, n);
    BucketsTile(min, max, n);
    var s := BucketSize(min, max, n, 0);
    var a := v - min;
    var q := a / s;
    assert a == q * s + a % s;
    assert BucketSize(min, max, n, i) == s;
    MulStep(q, i, s);
    MulStep(i, q, s);
    MulStep(i + 1, n - 1, s);
    assert BucketHigh(min, max, n, i) + 1 == BucketLow(min, max, n, i + 1);
    assert BucketLow(min, max, n, n - 1) <= max;
  }

  lemma LastBucket(min: int, max: int, n: int, v: int)
    requires n >= 1 && min <= max && n <= Range(min, max) && min <= v <= max
    ensures InBucket(min, max, n, v, n - 1) <==> n - 1 == BucketOf(min, max, n, v)
  {
    BucketSizePositive(min, max, n);
    BucketsTile(min, max, n);
    var s := BucketSize(min, max, n, 0);
    var a := v - min;
    var q := a / s;
    assert a == q * s + a % s;
    MulStep(q, n - 1, s);
    MulStep(n - 1, q, s);
    assert BucketLow(min, max, n, n - 1) <= max;
  }

  /** When the range divides evenly, the computed bucket is the intended
      one. */
  lemma AsWrittenAgreesWhenEven(min: int, max: int, n: int, v: int)
    requires n >= 1 && min <= max && n <= Range(min, max) && min <= v <= max
    requires Range(min, max) % n == 0
    ensures GetBucketAsWritten(min, max, n, v) == BucketOf(min, max, n, v)
  {
    BucketSizePositive(min, max, n);
    var w := Range(min, max);
    var s := BucketSize(min, max, n, 0);
    assert w == n * s + w % n;
    var a := v - min;
    var q := a / s;
    assert a == q * s + a % s;
    MulStep(n, q, s);
    MulStep(n - 1, q, s);
  }

  /** Whenever the computed bucket is within the array, it is the intended
      one: the overflow is the only way the two differ. */
  lemma AsWrittenInBounds(min: int, max: int, n: int, v: int)
    requires n >= 1 && min <= max && n <= Range(min, max) && min <= v <= max
    ensures GetBucketAsWritten(min, max, n, v) < n <==> GetBucketAsWritten(min, max, n, v) == BucketOf(min, max, n, v)
  {
  }

  /** With 3 buckets over [0, 10] the width of bucket 0 is 3, so the
      value 9 is placed in bucket 3, past the end of the 3-element array. */
  lemma GetBucketOverflows()
    ensures BucketCount(3, 0, 10) == 3
    ensures GetBucketAsWritten(0, 10, 3, 9) == 3
    ensures BucketOf(0, 10, 3, 9) == 2
  {
  }

  /** Sum of the counters. */
  function Total(counts: seq<int>): int
  {
    if counts == [] then 0 else Total(counts[..|counts| - 1]) + counts[|counts| - 1]
  }

  /** Incrementing one counter adds one to the total. */
  lemma {:induction false} TotalIncrement(counts: seq<int>, b: int)
    requires 0 <= b < |counts|
    ensures Total(counts[b := counts[b] + 1]) == Total(counts) + 1
    decreases |counts|
  {
    var c' := counts[b := counts[b] + 1];
    var k := |counts| - 1;
    assert c'[..k] == if b < k then counts[..k][b := counts[b] + 1] else counts[..k];
    if b < k {
      TotalIncrement(counts[..k], b);
    }
  }

  /** How addValue ends: the value is counted, it is outside [min, max]
      (RuntimeException), or its computed bucket is past the end of the
      array (ArrayIndexOutOfBoundsException). */
  datatype AddOutcome = Added | IllegalValue | IndexOutOfBounds

  class IntHistogram {
    const min: int
    const max: int
    const buckets: array<int>

    ghost predicate Valid()
    {
      min <= max && 1 <= buckets.Length <= Range(min, max)
    }

    /** A histogram of `numBuckets` buckets (at most one per value) over
        [min, max], every counter zero. */
    constructor(numBuckets: int, min: int, max: int)
      requires numBuckets >= 1 && min <= max
      ensures Valid() && this.min == min && this.max == max
      ensures buckets.Length == BucketCount(numBuckets, min, max) && fresh(buckets)
      ensures forall i :: 0 <= i < buckets.Length ==> buckets[i] == 0
    {
      this.min := min;
      this.max := max;
      if max - min + 1 > numBuckets {
        this.buckets := new int[numBuckets](_ => 0);
      } else {
        this.buckets := new int[max - min + 1](_ => 0);
      }
    }

    /** addValue as written: a value outside [min, max] is refused; a value
        whose computed bucket lies past the array fails; either way nothing
        changes. Otherwise the counter of the computed bucket, which is then
        v's own bucket, goes up by one. */
    method AddValue(v: int) returns (outcome: AddOutcome)
      requires Valid()
      modifies buckets
      ensures outcome == IllegalValue <==> !(min <= v <= max)
      ensures outcome == IndexOutOfBounds <==>
        min <= v <= max && GetBucketAsWritten(min, max, buckets.Length, v) >= buckets.Length
      ensures outcome == Added ==> GetBucketAsWritten(min, max, buckets.Length, v) == BucketOf(min, max, buckets.Length, v)
      ensures outcome == Added ==> var b := BucketOf(min, max, buckets.Length, v);
        buckets[..] == old(buckets[..])[b := old(buckets[b]) + 1]
      ensures outcome != Added ==> buckets[..] == old(buckets[..])
      ensures Total(buckets[..]) == old(Total(buckets[..])) + (if outcome == Added then 1 else 0)
    {
      if v > max || v < min {
        return IllegalValue;
      }
      var b := GetBucketAsWritten(min, max, buckets.Length, v);
      if b >= buckets.Length {
        return IndexOutOfBounds;
      }
      AsWrittenInBounds(min, max, buckets.Length, v);
      TotalIncrement(buckets[..], b);
      buckets[b] := buckets[b] + 1;
      outcome := Added;
    }

    /** addValue with the corrected bucket: a value outside [min, max] is
        refused and nothing changes; otherwise exactly the counter of v's
        bucket goes up by one. */
    method AddValueClamped(v: int) returns (added: bool)
      requires Valid()
      modifies buckets
      ensures added <==> min <= v <= max
      ensures added ==> var b := BucketOf(min, max, buckets.Length, v);
        buckets[..] == old(buckets[..])[b := old(buckets[b]) + 1]
      ensures !added ==> buckets[..] == old(buckets[..])
      ensures Total(buckets[..]) == old(Total(buckets[..])) + (if added then 1 else 0)
    {
      if v > max || v < min {
        return false;
      }
      var b := BucketOf(min, max, buckets.Length, v);
      TotalIncrement(buckets[..], b);
      buckets[b] := buckets[b] + 1;
      added := true;
    }
  }
}
