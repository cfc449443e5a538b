/**
 * Histogram bucket bounds: a `BucketsCalculator` that produces the i-th
 * upper bound by linear or exponential growth, the `Buckets` factories
 * that validate their arguments, and the input iterator over the bounds.
 * Bounds are real numbers; rounding of the library's doubles is not modelled.
 */
module BucketBounds {
  import opened Wrappers

  datatype Growth = Linear | Exponential

  /** A calculator: its growth, the first bound and the width or factor. */
  datatype Calculator = Calculator(growth: Growth, start: real, update: real)

  /** `x` raised to the natural power `n`. */
  function Power(x: real, n: nat): real
  {
    if n == 0 then 1.0 else x * Power(x, n - 1)
  }

  /** `calculate(i)`: start + update·i for linear growth, start·update^i for exponential growth. */
  function Calculate(c: Calculator, index: nat): (r: real)
  {
    if c.growth == Exponential then c.start * Power(c.update, index)
    else c.start + c.update * (index as real)
  }

  /** Both growths start at `start`. */
  lemma CalculateZero(c: Calculator)
    ensures Calculate(c, 0) == c.start
  {
  }

  /**
   * Each bound follows from the previous one as the library's tests walk
   * the iterator: adding the width, or multiplying by the factor.
   */
  lemma CalculateStep(c: Calculator, i: nat)
    ensures c.growth == Linear ==> Calculate(c, i + 1) == Calculate(c, i) + c.update
    ensures c.growth == Exponential ==> Calculate(c, i + 1) == Calculate(c, i) * c.update
  {
    if c.growth == Exponential {
      calc {
        Calculate(c, i + 1);
        c.start * (c.update * Power(c.update, i));
        c.start * Power(c.update, i) * c.update;
      }
    }
  }

  /** A power of a number above one grows with the exponent. */
  lemma {:induction false} PowerIncreases(x: real, n: nat)
    requires x > 1.0
    ensures Power(x, n) >= 1.0
    ensures Power(x, n + 1) > Power(x, n)
  {
    if n > 0 {
      PowerIncreases(x, n - 1);
    }
    assert Power(x, n + 1) == x * Power(x, n);
  }

  /**
   * With a positive width, or a factor above one and a positive start, the
   * bounds strictly increase; with a factor above one and a negative start
   * they strictly decrease, and with start zero they are all zero.
   */
  lemma BoundsOrder(c: Calculator, i: nat)
    ensures c.growth == Linear && c.update > 0.0 ==> Calculate(c, i) < Calculate(c, i + 1)
    ensures c.growth == Exponential && c.update > 1.0 && c.start > 0.0 ==> Calculate(c, i) < Calculate(c, i + 1)
    ensures c.growth == Exponential && c.update > 1.0 && c.start < 0.0 ==> Calculate(c, i) > Calculate(c, i + 1)
    ensures c.growth == Exponential && c.start == 0.0 ==> Calculate(c, i) == 0.0
  {
    CalculateStep(c, i);
    if c.growth == Exponential && c.update > 1.0 {
      PowerIncreases(c.update, i);
      var p := Power(c.update, i);
      assert Calculate(c, i + 1) - Calculate(c, i) == c.start * (p * c.update - p);
      assert p * c.update - p > 0.0;
    }
  }

  datatype Kind = Values | Durations

  /** A validated `Buckets`: its kind, its calculator and the number of bounds (a `uint64_t`). */
  datatype Buckets = Buckets(kind: Kind, calculator: Calculator, num: nat)

  /** The constructor: zero bounds is an invalid argument. */
  function NewBuckets(kind: Kind, calculator: Calculator, num: nat): (r: Result<Buckets>)
    ensures r.Failure? <==> num == 0
    ensures r.Failure? ==> r.code == InvalidArgument
    ensures r.Success? ==> r.value.kind == kind && r.value.calculator == calculator && r.value.num == num
  {
    if num == 0 then Failure(InvalidArgument) else Success(Buckets(kind, calculator, num))
  }

  /** `linear_values`: the width must be positive; the start is not checked. */
  function LinearValues(start: real, width: real, num: nat): (r: Result<Buckets>)
    ensures r.Success? <==> width > 0.0 && num > 0
    ensures r.Failure? ==> r.code == InvalidArgument
    ensures r.Success? ==> r.value.kind == Values && r.value.calculator == Calculator(Linear, start, width) && r.value.num == num
  {
    if width <= 0.0 then Failure(InvalidArgument)
    else NewBuckets(Values, Calculator(Linear, start, width), num)
  }

  /** `exponential_values`: the factor must exceed one; the start is not checked. */
  function ExponentialValues(start: real, factor: real, num: nat): (r: Result<Buckets>)
    ensures r.Success? <==> factor > 1.0 && num > 0
    ensures r.Failure? ==> r.code == InvalidArgument
    ensures r.Success? ==> r.value.kind == Values && r.value.calculator == Calculator(Exponential, start, factor) && r.value.num == num
  {
    if factor <= 1.0 then Failure(InvalidArgument)
    else NewBuckets(Values, Calculator(Exponential, start, factor), num)
  }

  /** `linear_durations`, with both durations given in microseconds. */
  function LinearDurations(startUs: real, widthUs: real, num: nat): (r: Result<Buckets>)
    ensures r.Success? <==> widthUs > 0.0 && num > 0
    ensures r.Failure? ==> r.code == InvalidArgument
    ensures r.Success? ==> r.value.kind == Durations && r.value.calculator == Calculator(Linear, startUs, widthUs) && r.value.num == num
  {
    if widthUs <= 0.0 then Failure(InvalidArgument)
    else NewBuckets(Durations, Calculator(Linear, startUs, widthUs), num)
  }

  /** `exponential_durations`: an integer factor above one, the start in microseconds. */
  function ExponentialDurations(startUs: real, factor: nat, num: nat): (r: Result<Buckets>)
    ensures r.Success? <==> factor > 1 && num > 0
    ensures r.Failure? ==> r.code == InvalidArgument
    ensures r.Success? ==> r.value.kind == Durations && r.value.calculator == Calculator(Exponential, startUs, factor as real) && r.value.num == num
  {
    if factor <= 1 then Failure(InvalidArgument)
    else NewBuckets(Durations, Calculator(Exponential, startUs, factor as real), num)
  }

  /** The bounds a `Buckets` stands for, in order: the reference for iterating it. */
  function Bounds(b: Buckets): (r: seq<real>)
    ensures |r| == b.num
    ensures forall i :: 0 <= i < |r| ==> r[i] == Calculate(b.calculator, i)
  {
    seq(b.num, i requires 0 <= i => Calculate(b.calculator, i))
  }

  /** An iterator: the calculator it reads and its current index. */
  datatype Iterator = Iterator(calculator: Calculator, index: nat)

  function Begin(b: Buckets): (it: Iterator)
    ensures it.calculator == b.calculator && it.index == 0
  {
    Iterator(b.calculator, 0)
  }

  function End(b: Buckets): (it: Iterator)
    ensures it.calculator == b.calculator && it.index == b.num
  {
    Iterator(b.calculator, b.num)
  }

  function Size(b: Buckets): (n: nat)
    ensures n == |Bounds(b)|
  {
    b.num
  }

  /** Prefix `++`: the next index, same calculator. */
  function Increment(it: Iterator): (r: Iterator)
    ensures r.calculator == it.calculator && r.index == it.index + 1
  {
    Iterator(it.calculator, it.index + 1)
  }

  /** Postfix `++`: the advanced iterator together with the one from before the call. */
  function PostIncrement(it: Iterator): (r: (Iterator, Iterator))
    ensures r.0 == Increment(it) && r.1 == it
  {
    (Increment(it), it)
  }

  /** `==`: same calculator (growth, start and update) and same index. */
  predicate Equal(a: Iterator, b: Iterator)
  {
    a.calculator.growth == b.calculator.growth && a.calculator.start == b.calculator.start &&
    a.calculator.update == b.calculator.update && a.index == b.index
  }

  /** `!=` is the negation of `==`. */
  predicate NotEqual(a: Iterator, b: Iterator)
  {
    !Equal(a, b)
  }

  /** The fieldwise comparisons of `==` amount to equality of iterators. */
  lemma EqualIsIdentity(a: Iterator, b: Iterator)
    ensures Equal(a, b) <==> a == b
    ensures NotEqual(a, b) <==> a != b
  {
  }

  /** `*it`: the bound at the iterator's index. */
  function Deref(it: Iterator): (r: real)
    ensures forall b: Buckets :: b.calculator == it.calculator && it.index < b.num ==> r == Bounds(b)[it.index]
  {
    Calculate(it.calculator, it.index)
  }

  /**
   * The range-for over a `Buckets`: from `begin()` until `!=` says `end()`,
   * dereference and post-increment. It visits exactly the bounds, in order.
   */
  method Iterate(b: Buckets) returns (vals: seq<real>)
    ensures vals == Bounds(b)
    ensures |vals| == Size(b)
  {
    vals := [];
    var it := Begin(b);
    var last := End(b);
    while NotEqual(it, last)
      invariant it.calculator == b.calculator && it.index <= b.num
      invariant |vals| == it.index
      invariant forall i :: 0 <= i < |vals| ==> vals[i] == Calculate(b.calculator, i)
      decreases b.num - it.index
    {
      vals := vals + [Deref(it)];
      var p := PostIncrement(it);
      it := p.0;
    }
  }

  /** `linear_values(4, 6, 3)` yields 4, 10, 16. */
  lemma LinearExample()
    ensures LinearValues(4.0, 6.0, 3).Success?
    ensures Bounds(LinearValues(4.0, 6.0, 3).value) == [4.0, 10.0, 16.0]
  {
    var b := LinearValues(4.0, 6.0, 3).value;
    var r := Bounds(b);
    assert r[0] == 4.0 && r[1] == 10.0 && r[2] == 16.0;
  }

  /** `exponential_values(4, 2, 3)` yields 4, 8, 16. */
  lemma ExponentialExample()
    ensures ExponentialValues(4.0, 2.0, 3).Success?
    ensures Bounds(ExponentialValues(4.0, 2.0, 3).value) == [4.0, 8.0, 16.0]
  {
    var b := ExponentialValues(4.0, 2.0, 3).value;
    var r := Bounds(b);
    assert Power(2.0, 2) == 4.0;
    assert r[0] == 4.0 && r[1] == 8.0 && r[2] == 16.0;
  }

  /** The sizes of the library's tests: 4 and 10 bounds. */
  lemma SizeExample()
    ensures Size(ExponentialValues(1.0, 2.0, 4).value) == 4
    ensures Size(ExponentialValues(1.0, 2.0, 10).value) == 10
  {
  }
}
