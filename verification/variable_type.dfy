/**
 * `VariableType`: a 32-bit mask with one bit per kind of variable, and the
 * attribute factories that pair a type with a display filter. A mask is
 * modelled as the set of positions of its one bits, so `&` is intersection
 * and `|` is union.
 */
module VariableType {
  type Bits = s: set<nat> | forall i :: i in s ==> i < 32

  const COUNTER: Bits := {0}
  const GAUGE: Bits := {1}
  const HISTOGRAM: Bits := {2}
  const FLAG: Bits := {3}
  const METRIC: Bits := COUNTER + GAUGE + HISTOGRAM
  const CDF: Bits := {26}
  const SAMPLER: Bits := {27}
  const WINDOW: Bits := {28}
  const COLLECT: Bits := {29}
  const STATUS: Bits := {30}
  const EMPTY: Bits := {}

  function Pow2(i: nat): (r: nat)
    ensures r >= 1
  {
    if i == 0 then 1 else 2 * Pow2(i - 1)
  }

  /** The bits of `t` at positions `i` and above, as a number. */
  function ValueFrom(t: Bits, i: nat): (r: nat)
    requires i <= 32
    decreases 32 - i
  {
    if i == 32 then 0
    else (if i in t then Pow2(i) else 0) + ValueFrom(t, i + 1)
  }

  /** The `uint32_t` a mask stands for. */
  function Value(t: Bits): nat
  {
    ValueFrom(t, 0)
  }

  lemma {:induction false} ValueFromBound(t: Bits, i: nat)
    requires i <= 32
    ensures ValueFrom(t, i) + Pow2(i) <= Pow2(32)
    decreases 32 - i
  {
    if i < 32 {
      ValueFromBound(t, i + 1);
      assert Pow2(i + 1) == 2 * Pow2(i);
    }
  }

  lemma {:induction false} Pow2Add(a: nat, b: nat)
    ensures Pow2(a + b) == Pow2(a) * Pow2(b)
    decreases a
  {
    if a > 0 {
      Pow2Add(a - 1, b);
    }
  }

  lemma Pow2Values()
    ensures Pow2(1) == 2 && Pow2(2) == 4 && Pow2(3) == 8
    ensures Pow2(26) == 0x400_0000 && Pow2(27) == 0x800_0000 && Pow2(28) == 0x1000_0000
    ensures Pow2(29) == 0x2000_0000 && Pow2(30) == 0x4000_0000 && Pow2(32) == 0x1_0000_0000
  {
    assert Pow2(4) == 16;
    Pow2Add(4, 4);
    Pow2Add(8, 8);
    Pow2Add(16, 8);
    Pow2Add(24, 2);
    Pow2Add(26, 1);
    Pow2Add(27, 1);
    Pow2Add(28, 1);
    Pow2Add(29, 1);
    Pow2Add(30, 2);
  }

  /** Every mask fits in 32 bits. */
  lemma ValueIsUint32(t: Bits)
    ensures Value(t) < 0x1_0000_0000
  {
    ValueFromBound(t, 0);
    Pow2Values();
  }

  lemma {:induction false} ValueFromSingle(b: nat, i: nat)
    requires b < 32 && i <= 32
    ensures ValueFrom({b}, i) == if i <= b then Pow2(b) else 0
    decreases 32 - i
  {
    if i < 32 {
      ValueFromSingle(b, i + 1);
    }
  }

  /** A mask with one bit set at position `b` is `1 << b`. */
  lemma ValueOfSingle(b: nat)
    requires b < 32
    ensures Value({b}) == Pow2(b)
  {
    ValueFromSingle(b, 0);
  }

  lemma {:induction false} ValueFromUnion(t: Bits, u: Bits, i: nat)
    requires i <= 32 && t * u == {}
    ensures ValueFrom(t + u, i) == ValueFrom(t, i) + ValueFrom(u, i)
    decreases 32 - i
  {
    if i < 32 {
      ValueFromUnion(t, u, i + 1);
      assert i in t && i in u ==> i in t * u;
    }
  }

  /** OR of masks without common bits is their sum. */
  lemma ValueOfDisjointUnion(t: Bits, u: Bits)
    requires t * u == {}
    ensures Value(t + u) == Value(t) + Value(u)
  {
    ValueFromUnion(t, u, 0);
  }

  /** The constants have the values the header gives them. */
  lemma ConstantValues()
    ensures Value(EMPTY) == 0 && Value(COUNTER) == 1 && Value(GAUGE) == 2
    ensures Value(HISTOGRAM) == 4 && Value(FLAG) == 8 && Value(METRIC) == 7
    ensures Value(CDF) == 0x400_0000 && Value(SAMPLER) == 0x800_0000
    ensures Value(WINDOW) == 0x1000_0000 && Value(COLLECT) == 0x2000_0000
    ensures Value(STATUS) == 0x4000_0000
  {
    Pow2Values();
    ValueZero(EMPTY);
    ValueOfSingle(0);
    ValueOfSingle(1);
    ValueOfSingle(2);
    ValueOfSingle(3);
    ValueOfSingle(26);
    ValueOfSingle(27);
    ValueOfSingle(28);
    ValueOfSingle(29);
    ValueOfSingle(30);
    ValueOfDisjointUnion(COUNTER, GAUGE);
    ValueOfDisjointUnion(COUNTER + GAUGE, HISTOGRAM);
  }

  /** `type & mask` converted to bool, which every `is_X` predicate is. */
  predicate Has(t: Bits, mask: Bits)
  {
    t * mask != {}
  }

  predicate IsEmpty(t: Bits) { Has(t, EMPTY) }
  predicate IsCounter(t: Bits) { Has(t, COUNTER) }
  predicate IsGauge(t: Bits) { Has(t, GAUGE) }
  predicate IsHistogram(t: Bits) { Has(t, HISTOGRAM) }
  predicate IsFlag(t: Bits) { Has(t, FLAG) }
  predicate IsMetric(t: Bits) { Has(t, METRIC) }
  predicate IsStatus(t: Bits) { Has(t, STATUS) }
  predicate IsWindow(t: Bits) { Has(t, WINDOW) }
  predicate IsCollect(t: Bits) { Has(t, COLLECT) }
  predicate IsSampler(t: Bits) { Has(t, SAMPLER) }
  predicate IsCdf(t: Bits) { Has(t, CDF) }

  /** Every single-kind constant, in the header's order. */
  const KINDS: seq<Bits> := [COUNTER, GAUGE, HISTOGRAM, FLAG, CDF, SAMPLER, WINDOW, COLLECT, STATUS]

  /** The bit position of each of `KINDS`. */
  const KIND_BITS: seq<nat> := [0, 1, 2, 3, 26, 27, 28, 29, 30]

  /** `kEmpty` is zero, so `is_empty` can never hold. */
  lemma IsEmptyNever(t: Bits)
    ensures !IsEmpty(t)
  {
  }

  /** `is_metric` holds exactly when one of the counter, gauge or histogram bits is set. */
  lemma MetricIsAnyOfThree(t: Bits)
    ensures IsMetric(t) <==> IsCounter(t) || IsGauge(t) || IsHistogram(t)
  {
    assert t * METRIC == (t * COUNTER) + (t * GAUGE) + (t * HISTOGRAM);
  }

  /** Each `is_X` tests its own bit and no other: on a single-kind value exactly one holds. */
  lemma KindsAreExclusive(i: nat, j: nat)
    requires i < |KINDS| && j < |KINDS|
    ensures Has(KINDS[i], KINDS[j]) <==> i == j
  {
    assert forall k :: 0 <= k < |KINDS| ==> KINDS[k] == {KIND_BITS[k]};
    assert forall k :: 0 <= k < |KIND_BITS| - 1 ==> KIND_BITS[k] < KIND_BITS[k + 1];
    if i < j {
      IncreasingInjective(KIND_BITS, i, j);
      assert KIND_BITS[i] !in KINDS[j];
    } else if j < i {
      IncreasingInjective(KIND_BITS, j, i);
      assert KIND_BITS[i] !in KINDS[j];
    } else {
      assert KIND_BITS[i] in KINDS[i] * KINDS[j];
    }
  }

  lemma {:induction false} IncreasingInjective(s: seq<nat>, i: nat, j: nat)
    requires forall k :: 0 <= k < |s| - 1 ==> s[k] < s[k + 1]
    requires i < j < |s|
    ensures s[i] < s[j]
    decreases j - i
  {
    if i + 1 < j {
      IncreasingInjective(s, i + 1, j);
    }
  }

  /** `|=`: the bits of the result are the bits of either operand. */
  function OrAssign(t: Bits, v: Bits): (r: Bits)
    ensures forall i :: i in r <==> i in t || i in v
  {
    t + v
  }

  /** `&=`: the bits of the result are the bits of both operands. */
  function AndAssign(t: Bits, v: Bits): (r: Bits)
    ensures forall i :: i in r <==> i in t && i in v
  {
    t * v
  }

  /** Testing against a one-bit mask is membership of that bit. */
  lemma HasSingleton(t: Bits, b: nat)
    requires b < 32
    ensures Has(t, {b}) <==> b in t
  {
    if b in t {
      assert b in t * {b};
    }
  }

  /** After `t |= v`, each kind test holds iff it held for `t` or for `v`. */
  lemma OrAssignKinds(t: Bits, v: Bits, k: nat)
    requires k < |KINDS|
    ensures Has(OrAssign(t, v), KINDS[k]) <==> Has(t, KINDS[k]) || Has(v, KINDS[k])
  {
    assert KINDS[k] == {KIND_BITS[k]};
    HasSingleton(OrAssign(t, v), KIND_BITS[k]);
    HasSingleton(t, KIND_BITS[k]);
    HasSingleton(v, KIND_BITS[k]);
  }

  /** After `t &= v`, each kind test holds iff it held for both. */
  lemma AndAssignKinds(t: Bits, v: Bits, k: nat)
    requires k < |KINDS|
    ensures Has(AndAssign(t, v), KINDS[k]) <==> Has(t, KINDS[k]) && Has(v, KINDS[k])
  {
    assert KINDS[k] == {KIND_BITS[k]};
    HasSingleton(AndAssign(t, v), KIND_BITS[k]);
    HasSingleton(t, KIND_BITS[k]);
    HasSingleton(v, KIND_BITS[k]);
  }

  /** `operator|` returns bool: it holds iff the mask or the argument is non-zero. */
  function OrTest(t: Bits, v: Bits): (b: bool)
    ensures b <==> Value(t) != 0 || Value(v) != 0
  {
    ValueZero(t);
    ValueZero(v);
    t + v != {}
  }

  /** `operator&` returns bool: it holds iff the two masks share a bit. */
  function AndTest(t: Bits, v: Bits): (b: bool)
    ensures b <==> Value(AndAssign(t, v)) != 0
  {
    ValueZero(AndAssign(t, v));
    t * v != {}
  }

  lemma {:induction false} ValueFromZero(t: Bits, i: nat)
    requires i <= 32
    ensures ValueFrom(t, i) == 0 <==> forall j :: i <= j && j in t ==> false
    decreases 32 - i
  {
    if i < 32 {
      ValueFromZero(t, i + 1);
    }
  }

  /** A mask is zero exactly when no bit is set. */
  lemma ValueZero(t: Bits)
    ensures Value(t) == 0 <==> t == {}
  {
    ValueFromZero(t, 0);
  }

  /** Which outputs a variable is shown on; a bitmask of HTML (1) and plain text (2). */
  datatype DisplayFilter = DisplayOnHtml | DisplayOnPlainText | DisplayOnAll

  function FilterBits(f: DisplayFilter): (r: nat)
    ensures f == DisplayOnAll <==> r == 3
    ensures 1 <= r <= 3
  {
    match f
    case DisplayOnHtml => 1
    case DisplayOnPlainText => 2
    case DisplayOnAll => 3
  }

  /** `VariableAttr`: a type and a display filter. */
  datatype Attr = Attr(kind: Bits, display: DisplayFilter)

  /** A default-constructed attribute: empty type, shown everywhere. */
  const DEFAULT_ATTR := Attr(EMPTY, DisplayOnAll)

  /** The named attribute factories. */
  datatype Factory =
    | GaugeAttr | CounterAttr | HistogramAttr | StatusAttr | FlagAttr
    | WindowAttr | CollectAttr | SamplerAttr | CdfAttr | EmptyAttr

  /**
   * The attribute a factory builds. Every factory yields its own type, except
   * `empty_attr`, which yields the gauge type.
   */
  function MakeAttr(factory: Factory, display: DisplayFilter := DisplayOnAll): (a: Attr)
    ensures a.display == display
    ensures |a.kind| == 1
    ensures factory == EmptyAttr ==> a.kind == GAUGE && IsGauge(a.kind)
    ensures factory == EmptyAttr ==> !IsEmpty(a.kind)
  {
    match factory
    case GaugeAttr => Attr(GAUGE, display)
    case CounterAttr => Attr(COUNTER, display)
    case HistogramAttr => Attr(HISTOGRAM, display)
    case StatusAttr => Attr(STATUS, display)
    case FlagAttr => Attr(FLAG, display)
    case WindowAttr => Attr(WINDOW, display)
    case CollectAttr => Attr(COLLECT, display)
    case SamplerAttr => Attr(SAMPLER, display)
    case CdfAttr => Attr(CDF, display)
    case EmptyAttr => Attr(GAUGE, display)
  }

  /** Factories called without a filter show the variable everywhere. */
  lemma FactoriesDefaultToAll(factory: Factory)
    ensures MakeAttr(factory).display == DisplayOnAll
    ensures FilterBits(MakeAttr(factory).display) == 3
  {
  }
}
