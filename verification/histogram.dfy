/**
 * `Histogram`: the buckets laid out from a `Buckets` (one per bound plus a
 * catch-all), a counter per bucket, and the running sample count and sum.
 * `record` finds the bucket with the library's `upper_bound` search.
 */
module Histogram {
  import opened BucketBounds
  import opened Doubles

  /** A `HistogramBucket`: kind, id, number of bounds, lower and upper bound, and a value. */
  datatype Bucket = Bucket(kind: Kind, id: nat, numBuckets: nat, lower: real, upper: real, value: int)

  /** A histogram's state: its buckets, one counter per bucket, and the sample count and sum. */
  datatype Histogram = Histogram(buckets: seq<Bucket>, counts: seq<int>, sum: real, count: int)

  /** The upper bounds never decrease: what the binary search of `record` relies on. */
  predicate Sorted(bs: seq<Bucket>)
  {
    forall i, j :: 0 <= i < j < |bs| ==> bs[i].upper <= bs[j].upper
  }

  /** One counter per bucket, and each bucket's id is its position. */
  predicate WellFormed(h: Histogram)
  {
    |h.counts| == |h.buckets| && forall i :: 0 <= i < |h.buckets| ==> h.buckets[i].id == i
  }

  function Sum(xs: seq<int>): int
  {
    if xs == [] then 0 else Sum(xs[..|xs| - 1]) + xs[|xs| - 1]
  }

  /** Well-formed, and the per-bucket counters add up to the sample count. */
  predicate Consistent(h: Histogram)
  {
    WellFormed(h) && Sum(h.counts) == h.count
  }

  /** The bucket the `i`-th bound of `b` closes, per `create_buckets`. */
  function BoundBucket(b: Buckets, i: nat): Bucket
    requires i < b.num
  {
    Bucket(b.kind, i, b.num, if i == 0 then MIN_POSITIVE else Calculate(b.calculator, i - 1),
           Calculate(b.calculator, i), 0)
  }

  /** The catch-all bucket after the last bound, per `create_buckets`. */
  function CatchAll(b: Buckets): Bucket
    requires b.num > 0
  {
    Bucket(b.kind, b.num, b.num, Calculate(b.calculator, b.num - 1), MAX, 0)
  }

  /**
   * `create_buckets`: walk the bounds, each bucket's lower bound being the
   * previous upper one (the smallest positive double for the first), then
   * add a catch-all bucket up to the largest double. Zero bounds give the
   * single bucket 0 of 1 covering everything.
   */
  method CreateBuckets(b: Buckets) returns (r: seq<Bucket>)
    ensures b.num == 0 ==> r == [Bucket(b.kind, 0, 1, MIN_POSITIVE, MAX, 0)]
    ensures b.num > 0 ==> |r| == b.num + 1
    ensures b.num > 0 ==> forall i :: 0 <= i < b.num ==> r[i] == BoundBucket(b, i)
    ensures b.num > 0 ==> r[b.num] == CatchAll(b)
    ensures forall i :: 0 <= i < |r| ==> r[i].id == i && r[i].value == 0
    ensures r[0].lower == MIN_POSITIVE && r[|r| - 1].upper == MAX
  {
    if b.num == 0 {
      return [Bucket(b.kind, 0, 1, MIN_POSITIVE, MAX, 0)];
    }
    r := [];
    var lower := MIN_POSITIVE;
    var it := Begin(b);
    while NotEqual(it, End(b))
      invariant it.calculator == b.calculator && it.index <= b.num
      invariant |r| == it.index
      invariant forall i :: 0 <= i < |r| ==> r[i] == BoundBucket(b, i)
      invariant lower == if it.index == 0 then MIN_POSITIVE else Calculate(b.calculator, it.index - 1)
      decreases b.num - it.index
    {
      var upper := Deref(it);
      r := r + [Bucket(b.kind, it.index, b.num, lower, upper, 0)];
      lower := upper;
      it := PostIncrement(it).0;
    }
    r := r + [Bucket(b.kind, b.num, b.num, lower, MAX, 0)];
  }

  /** Laid out from bounds that stay below the largest double and do not decrease, the buckets are sorted. */
  lemma CreatedSorted(b: Buckets, r: seq<Bucket>)
    requires b.num > 0 && |r| == b.num + 1
    requires forall i :: 0 <= i < b.num ==> r[i] == BoundBucket(b, i)
    requires r[b.num] == CatchAll(b)
    requires forall i :: 0 <= i < b.num ==> Calculate(b.calculator, i) <= Calculate(b.calculator, i + 1)
    requires Calculate(b.calculator, b.num - 1) < MAX
    ensures Sorted(r)
  {
    forall i, j | 0 <= i < j < |r|
      ensures r[i].upper <= r[j].upper
    {
      if j < b.num {
        BoundsMonotone(b.calculator, i, j);
      } else {
        BoundsMonotone(b.calculator, i, b.num - 1);
      }
    }
  }

  lemma {:induction false} BoundsMonotone(c: Calculator, i: nat, j: nat)
    requires i <= j
    requires forall k :: i <= k < j ==> Calculate(c, k) <= Calculate(c, k + 1)
    ensures Calculate(c, i) <= Calculate(c, j)
  {
    if i < j {
      BoundsMonotone(c, i, j - 1);
    }
  }

  /** Linear bounds with a positive width never decrease. */
  lemma LinearBucketsSorted(b: Buckets, r: seq<Bucket>)
    requires b.calculator.growth == Linear && b.calculator.update > 0.0
    requires b.num > 0 && |r| == b.num + 1
    requires forall i :: 0 <= i < b.num ==> r[i] == BoundBucket(b, i)
    requires r[b.num] == CatchAll(b)
    requires Calculate(b.calculator, b.num - 1) < MAX
    ensures Sorted(r)
  {
    forall i: nat | i < b.num
      ensures Calculate(b.calculator, i) <= Calculate(b.calculator, i + 1)
    {
      BoundsOrder(b.calculator, i);
    }
    CreatedSorted(b, r);
  }

  /** The default-constructed histogram: no buckets, nothing recorded. */
  function Empty(): (h: Histogram)
    ensures Consistent(h) && h.buckets == [] && h.count == 0 && h.sum == 0.0
  {
    Histogram([], [], 0.0, 0)
  }

  function Zeros(n: nat): (r: seq<int>)
    ensures |r| == n && forall i :: 0 <= i < n ==> r[i] == 0
    ensures Sum(r) == 0
  {
    if n == 0 then [] else
      var z := Zeros(n - 1);
      assert (z + [0])[..n - 1] == z;
      z + [0]
  }

  /** The constructor from a `Buckets`: its buckets with a zero counter each. */
  method New(b: Buckets) returns (h: Histogram)
    ensures Consistent(h) && h.count == 0 && h.sum == 0.0
    ensures |h.buckets| == if b.num == 0 then 1 else b.num + 1
    ensures b.num > 0 ==> (forall i :: 0 <= i < b.num ==> h.buckets[i] == BoundBucket(b, i)) && h.buckets[b.num] == CatchAll(b)
    ensures h.counts == Zeros(|h.buckets|)
  {
    var bs := CreateBuckets(b);
    h := Histogram(bs, Zeros(|bs|), 0.0, 0);
  }

  /** `set_buckets`: only a histogram without buckets takes the new ones, with fresh counters. */
  method SetBuckets(h: Histogram, b: Buckets) returns (r: Histogram)
    ensures h.buckets != [] ==> r == h
    ensures h.buckets == [] ==> |r.buckets| >= 1 && r.counts == Zeros(|r.buckets|)
    ensures r.count == h.count && r.sum == h.sum
    ensures Consistent(h) ==> Consistent(r)
  {
    if h.buckets != [] {
      return h;
    }
    var bs := CreateBuckets(b);
    r := Histogram(bs, Zeros(|bs|), h.sum, h.count);
    if Consistent(h) {
      assert h.counts == [] && h.count == 0;
    }
  }

  /** The reference for `record`'s search: the first bucket whose upper bound is above `v`. */
  predicate FirstAbove(bs: seq<Bucket>, v: real, i: nat)
  {
    i < |bs| && v < bs[i].upper && forall j :: 0 <= j < i ==> bs[j].upper <= v
  }

  /** There is at most one such bucket. */
  lemma FirstAboveUnique(bs: seq<Bucket>, v: real, i: nat, k: nat)
    requires FirstAbove(bs, v, i) && FirstAbove(bs, v, k)
    ensures i == k
  {
  }

  /** `std::upper_bound` with "value below the upper bound": a binary search over sorted buckets. */
  method UpperBound(bs: seq<Bucket>, v: real) returns (i: nat)
    requires Sorted(bs)
    requires bs != [] && v < bs[|bs| - 1].upper
    ensures FirstAbove(bs, v, i)
  {
    var lo, hi := 0, |bs|;
    while lo < hi
      invariant 0 <= lo <= hi <= |bs|
      invariant forall j :: 0 <= j < lo ==> bs[j].upper <= v
      invariant forall j :: hi <= j < |bs| ==> v < bs[j].upper
    {
      var mid := lo + (hi - lo) / 2;
      if v < bs[mid].upper {
        hi := mid;
      } else {
        lo := mid + 1;
      }
    }
    i := lo;
  }

  function Bump(counts: seq<int>, i: nat): (r: seq<int>)
    requires i < |counts|
    ensures |r| == |counts| && r[i] == counts[i] + 1
    ensures forall j :: 0 <= j < |r| && j != i ==> r[j] == counts[j]
  {
    counts[i := counts[i] + 1]
  }

  lemma {:induction false} SumBump(counts: seq<int>, i: nat)
    requires i < |counts|
    ensures Sum(Bump(counts, i)) == Sum(counts) + 1
    decreases |counts|
  {
    var r := Bump(counts, i);
    var n := |counts| - 1;
    if i == n {
      assert r[..n] == counts[..n];
    } else {
      assert r[..n] == Bump(counts[..n], i);
      SumBump(counts[..n], i);
    }
  }

  /**
   * `record(v)`: nothing without buckets; otherwise one more in the first
   * bucket whose upper bound is above `v` (a value equal to a bound goes to
   * the next bucket), one more sample, and `v` added to the sum. The search
   * needs sorted buckets and `v` below the last upper bound.
   */
  method Record(h: Histogram, v: real) returns (r: Histogram)
    requires WellFormed(h) && Sorted(h.buckets)
    requires h.buckets != [] ==> v < h.buckets[|h.buckets| - 1].upper
    ensures h.buckets == [] ==> r == h
    ensures h.buckets != [] ==> exists i :: FirstAbove(h.buckets, v, i) && r.counts == Bump(h.counts, i)
    ensures h.buckets != [] ==> r.count == h.count + 1 && r.sum == h.sum + v
    ensures r.buckets == h.buckets
    ensures Consistent(h) ==> Consistent(r)
  {
    if h.buckets == [] {
      return h;
    }
    var i := UpperBound(h.buckets, v);
    var id := h.buckets[i].id;
    r := Histogram(h.buckets, Bump(h.counts, id), h.sum + v, h.count + 1);
    SumBump(h.counts, id);
  }

  /** A value equal to a bound lands in the bucket after the one that bound closes. */
  lemma BoundGoesToNextBucket(bs: seq<Bucket>, k: nat)
    requires k + 1 < |bs|
    requires forall i, j :: 0 <= i < j < |bs| ==> bs[i].upper < bs[j].upper
    ensures FirstAbove(bs, bs[k].upper, k + 1)
  {
  }

  /** `get_value`: the buckets with each value set to its counter, everything else as laid out. */
  function GetValue(h: Histogram): (r: seq<Bucket>)
    requires WellFormed(h)
    ensures |r| == |h.buckets|
    ensures forall i :: 0 <= i < |r| ==> r[i] == h.buckets[i].(value := h.counts[i])
  {
    seq(|h.buckets|, i requires 0 <= i < |h.buckets| => h.buckets[i].(value := h.counts[i]))
  }

  /** The values `get_value` reports add up to the sample count. */
  lemma {:induction false} ReportedValuesSum(h: Histogram)
    requires Consistent(h)
    ensures Sum(ValuesOf(GetValue(h))) == h.count
  {
    assert ValuesOf(GetValue(h)) == h.counts;
  }

  function ValuesOf(bs: seq<Bucket>): (r: seq<int>)
    ensures |r| == |bs| && forall i :: 0 <= i < |bs| ==> r[i] == bs[i].value
  {
    seq(|bs|, i requires 0 <= i < |bs| => bs[i].value)
  }

  /** Ten unit bounds from 0 lay out sorted buckets, and 1.5 belongs to bucket 2. */
  lemma UnitLayout(b: Buckets, bs: seq<Bucket>)
    requires b == Buckets(Values, Calculator(Linear, 0.0, 1.0), 10)
    requires |bs| == 11 && (forall i :: 0 <= i < 10 ==> bs[i] == BoundBucket(b, i)) && bs[10] == CatchAll(b)
    ensures Sorted(bs) && FirstAbove(bs, 1.5, 2)
  {
    LimitsOrder();
    assert Calculate(b.calculator, 9) == 9.0;
    LinearBucketsSorted(b, bs);
    assert bs[0] == BoundBucket(b, 0) && bs[1] == BoundBucket(b, 1) && bs[2] == BoundBucket(b, 2);
  }

  /** The library's test: ten unit bounds from 0; 1.5 is counted in the bucket from 1 to 2, bucket 2. */
  method RecordExample() returns (h: Histogram)
    ensures h.count == 1 && h.sum == 1.5
    ensures h.counts == Zeros(11)[2 := 1]
  {
    var b := Buckets(Values, Calculator(Linear, 0.0, 1.0), 10);
    var h0 := New(b);
    assert |h0.buckets| == 11;
    ghost var zeros := Zeros(11);
    assert h0.counts == zeros;
    UnitLayout(b, h0.buckets);
    h := Record(h0, 1.5);
    var i :| FirstAbove(h0.buckets, 1.5, i) && h.counts == Bump(h0.counts, i);
    FirstAboveUnique(h0.buckets, 1.5, i, 2);
    assert h.counts == zeros[2 := 1];
  }
}
