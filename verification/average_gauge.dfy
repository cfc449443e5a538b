/**
 * AverageGauge (IntRecorder): a sum and a count of integer samples, kept per
 * thread in one 64-bit slot and flushed into a global Stat before overflow.
 */
module AverageGauge {
  import opened Numeric
  import Combiner

  /** A running (sum, count) pair; both fields are `int64_t` in the source. */
  datatype Stat = Stat(sum: int, num: int)

  const ZERO: Stat := Stat(0, 0)

  /** `AddStat`: componentwise addition (the `+=` of Stat). */
  function AddStat(a: Stat, b: Stat): Stat
  {
    Stat(a.sum + b.sum, a.num + b.num)
  }

  /** `MinusStat`: componentwise subtraction (the `-=` of Stat). */
  function MinusStat(a: Stat, b: Stat): Stat
  {
    Stat(a.sum - b.sum, a.num - b.num)
  }

  lemma AddZero(x: Stat)
    ensures AddStat(ZERO, x) == x
  {
  }

  /** Subtracting what was added gives back the original Stat, and the other way round. */
  lemma MinusUndoesAdd(a: Stat, b: Stat)
    ensures MinusStat(AddStat(a, b), b) == a
    ensures AddStat(MinusStat(a, b), b) == a
  {
  }

  /** AddStat with ZERO is a commutative monoid, as the reducer requires of its operator. */
  lemma AddStatIsMonoid()
    ensures Combiner.IsCommutativeMonoid(AddStat, ZERO)
  {
  }

  /**
   * `get_average_int`: zero for an empty Stat, otherwise the average
   * truncated toward zero as C++ integer division does.
   */
  function GetAverageInt(s: Stat): (r: int)
    ensures s.num == 0 ==> r == 0
    ensures s.num != 0 ==> Abs(s.sum - r * s.num) < Abs(s.num)
    ensures s.num != 0 ==> s.sum - r * s.num == 0 || ((s.sum - r * s.num < 0) == (s.sum < 0))
  {
    if s.num == 0 then 0 else TruncDiv(s.sum, s.num)
  }

  // A slot is a `uint64_t` laid out as | 20-bit count | 44-bit two's-complement sum |.
  // Here it is an integer in [0, 2^64) and every bit operation of the source
  // is written out arithmetically: a mask of the low k bits is `% 2^k`, a
  // right shift by k is `/ 2^k`, a left shift is a multiplication wrapped at
  // 2^64, and OR of disjoint bit ranges is `+`. The powers of two are written
  // as literals (2^43 = 0x800_0000_0000, 2^44 = 0x1000_0000_0000,
  // 2^64 = 0x1_0000_0000_0000_0000) so that the divisions and remainders stay
  // linear arithmetic for the verifier.
  const SUM_BIT_WIDTH: nat := 44
  /** 2^44 - 1: the low 44 bits of a slot. */
  const MAX_SUM_PER_THREAD: int := 0xFFF_FFFF_FFFF
  /** 2^20 - 1: the largest count a slot can hold. */
  const MAX_NUM_PER_THREAD: int := 0xF_FFFF

  /** `_get_sum`: the low 44 bits of the slot. */
  function GetSum(n: int): (s: int)
    requires IsUint64(n)
    ensures 0 <= s <= MAX_SUM_PER_THREAD
  {
    n % 0x1000_0000_0000
  }

  /** `_get_num`: the slot shifted right by 44 bits. */
  function GetNum(n: int): (k: int)
    requires IsUint64(n)
    ensures 0 <= k <= MAX_NUM_PER_THREAD
  {
    n / 0x1000_0000_0000
  }

  /**
   * `_extend_sign_bit`: (2^21 - 1) * (2^43 & sum) sets bits 43..63 exactly
   * when bit 43 of `sum` is set; that is OR-ed into `sum` and the result read
   * as `int64_t`.
   */
  function ExtendSignBit(sum: int): (x: int)
    requires IsUint64(sum)
    ensures IsInt64(x)
    ensures sum <= MAX_SUM_PER_THREAD ==> -0x800_0000_0000 <= x < 0x800_0000_0000
  {
    var high := ((sum / 0x800_0000_0000) % 2) * (0x1_0000_0000_0000_0000 - 0x800_0000_0000);
    ToSigned(if high == 0 then sum else sum % 0x800_0000_0000 + high)
  }

  /** `_get_complement`: the low 44 bits of the two's-complement form of `n`. */
  function GetComplement(n: int): (c: int)
    requires IsInt64(n)
    ensures 0 <= c <= MAX_SUM_PER_THREAD
  {
    ToUnsigned(n) % 0x1000_0000_0000
  }

  /** `_compress`: `num` shifted into the top 20 bits above the low 44 bits of `sum`. */
  function Compress(num: int, sum: int): (n: int)
    requires IsUint64(num) && IsUint64(sum)
    ensures IsUint64(n)
  {
    (num * 0x1000_0000_0000) % 0x1_0000_0000_0000_0000 + sum % 0x1000_0000_0000
  }

  /**
   * `_will_overflow`: whether `lhs + rhs` leaves the 44-bit signed range;
   * only two operands of the same sign can do that.
   */
  function WillOverflow(lhs: int, rhs: int): bool
  {
    || (lhs > 0 && rhs > 0 && lhs + rhs > MAX_SUM_PER_THREAD / 2)
    || (lhs < 0 && rhs < 0 && lhs + rhs < -(MAX_SUM_PER_THREAD / 2) - 1)
  }

  /** For a 44-bit signed `lhs` and an `int` sample, the test is exact. */
  lemma WillOverflowExact(lhs: int, rhs: int)
    requires -0x800_0000_0000 <= lhs < 0x800_0000_0000 && IsInt32(rhs)
    ensures WillOverflow(lhs, rhs) <==> !(-0x800_0000_0000 <= lhs + rhs < 0x800_0000_0000)
  {
  }

  /** Count and sum packed by `_compress` are recovered by `_get_num` and `_get_sum`. */
  lemma CompressRoundTrip(num: int, sum: int)
    requires 0 <= num <= MAX_NUM_PER_THREAD && 0 <= sum <= MAX_SUM_PER_THREAD
    ensures GetNum(Compress(num, sum)) == num
    ensures GetSum(Compress(num, sum)) == sum
  {
    assert (num * 0x1000_0000_0000) % 0x1_0000_0000_0000_0000 == num * 0x1000_0000_0000;
  }

  /** A sum past 44 bits is packed as its low 44 bits. */
  lemma CompressWraps(num: int, sum: int)
    requires 0 <= num <= MAX_NUM_PER_THREAD && IsUint64(sum)
    ensures GetNum(Compress(num, sum)) == num
    ensures GetSum(Compress(num, sum)) == sum % 0x1000_0000_0000
  {
    var m := sum % 0x1000_0000_0000;
    assert Compress(num, sum) == Compress(num, m);
    CompressRoundTrip(num, m);
  }

  lemma ComplementIsMod(a: int)
    requires IsInt64(a)
    ensures GetComplement(a) == a % 0x1000_0000_0000
  {
    if a < 0 {
      assert ToUnsigned(a) == a + 0x1_0000_0000_0000_0000;
      assert a + 0x1_0000_0000_0000_0000 == a + (0x1_0000_0000_0000_0000 / 0x1000_0000_0000) * 0x1000_0000_0000;
    }
  }

  /** The sign extension of a 44-bit field: values from 2^43 on stand for negatives. */
  lemma ExtendSmall(s: int)
    requires 0 <= s < 0x1000_0000_0000
    ensures s < 0x800_0000_0000 ==> ExtendSignBit(s) == s
    ensures s >= 0x800_0000_0000 ==> ExtendSignBit(s) == s - 0x1000_0000_0000
  {
    if s < 0x800_0000_0000 {
      assert s / 0x800_0000_0000 == 0;
    } else {
      assert s / 0x800_0000_0000 == 1;
      assert s % 0x800_0000_0000 == s - 0x800_0000_0000;
    }
  }

  /** Any 44-bit signed value survives `_get_complement` followed by `_extend_sign_bit`. */
  lemma SignExtensionRoundTrip(a: int)
    requires -0x800_0000_0000 <= a < 0x800_0000_0000
    ensures ExtendSignBit(GetComplement(a)) == a
  {
    ComplementIsMod(a);
    if a >= 0 {
      ExtendSmall(a);
    } else {
      assert a % 0x1000_0000_0000 == a + 0x1000_0000_0000;
      ExtendSmall(a + 0x1000_0000_0000);
    }
  }

  /**
   * Adding the complement of a sample to a 44-bit field adds the sample to
   * the signed value the field stands for, as long as no overflow occurs.
   */
  lemma AddComplement(s: int, x: int)
    requires 0 <= s < 0x1000_0000_0000 && IsInt32(x)
    requires -0x800_0000_0000 <= ExtendSignBit(s) + x < 0x800_0000_0000
    ensures ExtendSignBit((s + GetComplement(x)) % 0x1000_0000_0000) == ExtendSignBit(s) + x
  {
    ComplementIsMod(x);
    ExtendSmall(s);
    var v := ExtendSignBit(s) + x;
    // s and the complement each exceed the signed value they stand for by 0 or 2^44
    var j := (if s < 0x800_0000_0000 then 0 else 1) + (if x >= 0 then 0 else 1);
    assert x >= 0 ==> x % 0x1000_0000_0000 == x;
    assert x < 0 ==> x % 0x1000_0000_0000 == x + 0x1000_0000_0000;
    assert s + GetComplement(x) == v + j * 0x1000_0000_0000;
    WrapField(v, j);
    if v >= 0 {
      ExtendSmall(v);
    } else {
      ExtendSmall(v + 0x1000_0000_0000);
    }
  }

  lemma WrapField(v: int, j: int)
    requires -0x800_0000_0000 <= v < 0x800_0000_0000 && 0 <= j <= 2
    ensures (v + j * 0x1000_0000_0000) % 0x1000_0000_0000 == if v >= 0 then v else v + 0x1000_0000_0000
  {
    if v >= 0 {
      assert v + j * 0x1000_0000_0000 == j * 0x1000_0000_0000 + v;
    } else {
      assert v + j * 0x1000_0000_0000 == (j - 1) * 0x1000_0000_0000 + (v + 0x1000_0000_0000);
    }
  }

  /** What one slot contributes when `AddToStat` folds it into a Stat. */
  function Decode(n: int): (s: Stat)
    requires IsUint64(n)
    ensures -0x800_0000_0000 <= s.sum < 0x800_0000_0000 && 0 <= s.num <= MAX_NUM_PER_THREAD
  {
    Stat(ExtendSignBit(GetSum(n)), GetNum(n))
  }

  /** A fresh agent's slot, 0, stands for the empty Stat. */
  lemma DecodeZero()
    ensures Decode(0) == ZERO
  {
    ExtendSmall(0);
  }

  /**
   * `AddToStat`: adds the slot's count and signed sum to a Stat. A slot can
   * raise the count by at most the 20-bit limit and move the sum by less
   * than 2^43 either way.
   */
  function AddToStat(lhs: Stat, n: int): (r: Stat)
    requires IsUint64(n)
    ensures lhs.num <= r.num <= lhs.num + MAX_NUM_PER_THREAD
    ensures lhs.sum - 0x800_0000_0000 <= r.sum < lhs.sum + 0x800_0000_0000
  {
    AddStat(lhs, Decode(n))
  }

  /**
   * A slot packed by `_compress` from a count and the complement of a 44-bit
   * signed sum adds exactly that count and that sum.
   */
  lemma AddToStatPacked(lhs: Stat, num: int, sum: int)
    requires 0 <= num <= MAX_NUM_PER_THREAD && -0x800_0000_0000 <= sum < 0x800_0000_0000
    ensures AddToStat(lhs, Compress(num, GetComplement(sum))) == AddStat(lhs, Stat(sum, num))
  {
    CompressRoundTrip(num, GetComplement(sum));
    SignExtensionRoundTrip(sum);
  }

  /** The clamping at the head of `operator<<`: samples outside `int` become INT_MAX or INT_MIN. */
  function Clamp(sample: int): (c: int)
    ensures IsInt32(c)
    ensures IsInt32(sample) ==> c == sample
    ensures sample > INT32_MAX ==> c == INT32_MAX
    ensures sample < INT32_MIN ==> c == INT32_MIN
  {
    if sample > INT32_MAX then INT32_MAX
    else if sample < INT32_MIN then INT32_MIN
    else sample
  }

  /**
   * The recorder's state: the combiner's global Stat, into which slots are
   * committed, and each thread's slot. A thread without an agent yet has
   * no entry; its agent starts at slot 0.
   */
  datatype Gauge = Gauge(global: Stat, slots: map<nat, int>)

  ghost predicate Valid(g: Gauge)
  {
    forall t :: t in g.slots ==> IsUint64(g.slots[t])
  }

  /** The value a read returns: the global Stat plus every slot folded in by `AddToStat`. */
  ghost function Value(g: Gauge): Stat
    requires Valid(g)
  {
    AddStat(g.global, Combiner.FoldMap(AddStat, ZERO, SlotStat, g.slots))
  }

  function SlotStat(n: int): Stat
  {
    if IsUint64(n) then Decode(n) else ZERO
  }

  /**
   * The slot step of `operator<<` for an already clamped sample: if the
   * slot's count would pass 2^20 - 1 or its 44-bit sum would overflow, the
   * slot is committed to the global Stat and restarted from zero; then
   * count + 1 and sum + sample are packed back into the slot.
   */
  function SlotStep(global: Stat, n: int, s: int): (r: (Stat, int))
    requires IsUint64(n) && IsInt32(s)
    ensures IsUint64(r.1)
  {
    var complement := GetComplement(s);
    var num := GetNum(n);
    var sum := GetSum(n);
    if num + 1 > MAX_NUM_PER_THREAD || WillOverflow(ExtendSignBit(sum), s) then
      (AddToStat(global, n), Compress(1, complement))
    else
      (global, Compress(num + 1, sum + complement))
  }

  /** A slot step keeps the global Stat plus the slot equal to the old pair plus the sample. */
  lemma SlotStepAccounts(global: Stat, n: int, s: int)
    requires IsUint64(n) && IsInt32(s)
    ensures var r := SlotStep(global, n, s);
      AddStat(r.0, Decode(r.1)) == AddStat(AddStat(global, Decode(n)), Stat(s, 1))
  {
    if GetNum(n) + 1 > MAX_NUM_PER_THREAD || WillOverflow(ExtendSignBit(GetSum(n)), s) {
      RestartSlot(s);
    } else {
      AppendSlot(n, s);
    }
  }

  /** `operator<<` on thread `t`: clamp the sample, then step the thread's slot. */
  function Append(g: Gauge, t: nat, sample: int): (g': Gauge)
    requires Valid(g) && IsInt64(sample)
    ensures Valid(g')
    ensures g'.slots.Keys == g.slots.Keys + {t}
    ensures forall u :: u in g.slots && u != t ==> g'.slots[u] == g.slots[u]
  {
    var n := if t in g.slots then g.slots[t] else 0;
    var r := SlotStep(g.global, n, Clamp(sample));
    Gauge(r.0, g.slots[t := r.1])
  }

  /** The new slot written by a step without flush stands for the old slot plus the sample. */
  lemma AppendSlot(n: int, s: int)
    requires IsUint64(n) && IsInt32(s)
    requires !(GetNum(n) + 1 > MAX_NUM_PER_THREAD || WillOverflow(ExtendSignBit(GetSum(n)), s))
    ensures Decode(Compress(GetNum(n) + 1, GetSum(n) + GetComplement(s))) == AddStat(Decode(n), Stat(s, 1))
  {
    var num, sum := GetNum(n), GetSum(n);
    CompressWraps(num + 1, sum + GetComplement(s));
    WillOverflowExact(ExtendSignBit(sum), s);
    AddComplement(sum, s);
  }

  /** After a flush the slot holds exactly the one new sample. */
  lemma RestartSlot(s: int)
    requires IsInt32(s)
    ensures Decode(Compress(1, GetComplement(s))) == Stat(s, 1)
  {
    CompressRoundTrip(1, GetComplement(s));
    SignExtensionRoundTrip(s);
  }

  /** How the fold over the slots splits around the slot of thread `t`, before and after it changes. */
  lemma SlotFold(slots: map<nat, int>, t: nat, x: int)
    ensures Combiner.FoldMap(AddStat, ZERO, SlotStat, slots)
         == AddStat(Combiner.FoldMap(AddStat, ZERO, SlotStat, slots - {t}), SlotStat(if t in slots then slots[t] else 0))
    ensures Combiner.FoldMap(AddStat, ZERO, SlotStat, slots[t := x])
         == AddStat(Combiner.FoldMap(AddStat, ZERO, SlotStat, slots - {t}), SlotStat(x))
  {
    AddStatIsMonoid();
    if t in slots {
      Combiner.FoldRemove(AddStat, ZERO, SlotStat, slots, t);
    } else {
      Combiner.FoldAbsent(AddStat, ZERO, SlotStat, slots, t);
      DecodeZero();
    }
    Combiner.FoldUpdate(AddStat, ZERO, SlotStat, slots, t, x);
  }

  /**
   * No sample is lost: one Append adds exactly (clamped sample, 1) to the
   * value, whether or not it flushes the slot first.
   */
  lemma AppendAccounts(g: Gauge, t: nat, sample: int)
    requires Valid(g) && IsInt64(sample)
    ensures Value(Append(g, t, sample)) == AddStat(Value(g), Stat(Clamp(sample), 1))
  {
    var n := if t in g.slots then g.slots[t] else 0;
    var r := SlotStep(g.global, n, Clamp(sample));
    SlotStepAccounts(g.global, n, Clamp(sample));
    ReplaceSlot(g, t, r.0, r.1, Stat(Clamp(sample), 1));
  }

  /** Replacing the global Stat and one slot so that together they gain `x` makes the value gain `x`. */
  lemma ReplaceSlot(g: Gauge, t: nat, global': Stat, slot': int, x: Stat)
    requires Valid(g) && IsUint64(slot')
    requires AddStat(global', Decode(slot')) == AddStat(AddStat(g.global, Decode(if t in g.slots then g.slots[t] else 0)), x)
    ensures Valid(Gauge(global', g.slots[t := slot']))
    ensures Value(Gauge(global', g.slots[t := slot'])) == AddStat(Value(g), x)
  {
    UpdateValid(g, t, global', slot');
    var n := if t in g.slots then g.slots[t] else 0;
    SlotFold(g.slots, t, slot');
    var rest := Combiner.FoldMap(AddStat, ZERO, SlotStat, g.slots - {t});
    Regroup(global', Decode(slot'), g.global, Decode(n), rest, x);
  }

  lemma UpdateValid(g: Gauge, t: nat, global': Stat, slot': int)
    requires Valid(g) && IsUint64(slot')
    ensures Valid(Gauge(global', g.slots[t := slot']))
  {
  }

  lemma Regroup(a: Stat, d: Stat, b: Stat, c: Stat, rest: Stat, x: Stat)
    requires AddStat(a, d) == AddStat(AddStat(b, c), x)
    ensures AddStat(a, AddStat(rest, d)) == AddStat(AddStat(b, AddStat(rest, c)), x)
  {
  }

  /** A log of samples, each tagged with the thread that recorded it. */
  function Feed(g: Gauge, log: seq<(nat, int)>): (g': Gauge)
    requires Valid(g)
    requires forall i :: 0 <= i < |log| ==> IsInt64(log[i].1)
    ensures Valid(g')
    decreases |log|
  {
    if |log| == 0 then g
    else Feed(Append(g, log[0].0, log[0].1), log[1..])
  }

  function SumClamped(log: seq<(nat, int)>): int
  {
    if |log| == 0 then 0 else Clamp(log[0].1) + SumClamped(log[1..])
  }

  /**
   * Whatever the threads and the flushes, the recorder's value after a log
   * is its starting value plus (sum of the clamped samples, number of samples).
   */
  lemma {:induction false} FeedAccounts(g: Gauge, log: seq<(nat, int)>)
    requires Valid(g)
    requires forall i :: 0 <= i < |log| ==> IsInt64(log[i].1)
    ensures Value(Feed(g, log)) == AddStat(Value(g), Stat(SumClamped(log), |log|))
    decreases |log|
  {
    if |log| > 0 {
      AppendAccounts(g, log[0].0, log[0].1);
      FeedAccounts(Append(g, log[0].0, log[0].1), log[1..]);
    }
  }

  const EMPTY: Gauge := Gauge(ZERO, map[])

  lemma EmptyValue()
    ensures Valid(EMPTY) && Value(EMPTY) == ZERO
  {
  }

  lemma {:induction false} SumOfConstant(t: nat, k: nat, v: int)
    ensures SumClamped(seq(k, _ => (t, v))) == k * Clamp(v)
    decreases k
  {
    if k > 0 {
      assert seq(k, _ => (t, v))[1..] == seq(k - 1, _ => (t, v));
      SumOfConstant(t, k - 1, v);
    }
  }

  /** k samples of v recorded on one thread read back as (k * clamped v, k). */
  lemma ConstantLog(t: nat, k: nat, v: int)
    requires IsInt64(v)
    ensures Value(Feed(EMPTY, seq(k, _ => (t, v)))) == Stat(k * Clamp(v), k)
  {
    var log := seq(k, _ => (t, v));
    FeedAccounts(EMPTY, log);
    EmptyValue();
    SumOfConstant(t, k, v);
    AddZero(Stat(SumClamped(log), |log|));
  }

  /** Samples above `int` are clamped: five INT64_MAX average to INT_MAX. */
  lemma ClampedHighAverage(t: nat)
    ensures GetAverageInt(Value(Feed(EMPTY, seq(5, _ => (t, INT64_MAX))))) == INT32_MAX
  {
    ConstantLog(t, 5, INT64_MAX);
    assert 5 * Clamp(INT64_MAX) == 10737418235;
    assert TruncDiv(10737418235, 5) == INT32_MAX;
  }

  /** Samples below `int` are clamped: five INT64_MIN average to INT_MIN. */
  lemma ClampedLowAverage(t: nat)
    ensures GetAverageInt(Value(Feed(EMPTY, seq(5, _ => (t, INT64_MIN))))) == INT32_MIN
  {
    ConstantLog(t, 5, INT64_MIN);
    assert 5 * Clamp(INT64_MIN) == -10737418240;
    assert TruncDiv(-10737418240, 5) == INT32_MIN;
  }

  /** A hundred samples of 2 average to 2. */
  lemma PositiveAverage(t: nat)
    ensures GetAverageInt(Value(Feed(EMPTY, seq(100, _ => (t, 2))))) == 2
  {
    ConstantLog(t, 100, 2);
    assert 100 * Clamp(2) == 200;
    assert TruncDiv(200, 100) == 2;
  }

  /** Three samples of -2 average to -2: the division truncates toward zero. */
  lemma NegativeAverage(t: nat)
    ensures GetAverageInt(Value(Feed(EMPTY, seq(3, _ => (t, -2))))) == -2
  {
    ConstantLog(t, 3, -2);
    assert 3 * Clamp(-2) == -6;
    assert TruncDiv(-6, 3) == -2;
  }
}
