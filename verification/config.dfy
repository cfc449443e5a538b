/**
 * The validators of the three latency-percentile flags p1, p2 and p3. Each
 * receives the flag's text, already read as an `int32_t` by the flag
 * library (`None` when that fails), and the current values of the other
 * flags it compares against.
 */
module Config {
  import opened Wrappers
  import opened Numeric

  /** A validator's answer: accepted, rejected with the message it writes, or the text did not parse. */
  datatype Verdict = Accepted | Rejected(message: string) | Unparsable

  const DEFAULT_P1: int := 80
  const DEFAULT_P2: int := 90
  const DEFAULT_P3: int := 99

  const OUT_OF_RANGE: string := "Percentile must be in (0, 100)"

  /** A percentile strictly between 0 and 100. */
  predicate InRange(v: int)
  {
    0 < v < 100
  }

  /** The validator of p1: in range and below p2. */
  function ValidateP1(parsed: Option<int>, p2: int): (r: Verdict)
    requires parsed.Some? ==> IsInt32(parsed.value)
    ensures r == Accepted <==> parsed.Some? && InRange(parsed.value) && parsed.value < p2
    ensures r == Unparsable <==> parsed.None?
    ensures r.Rejected? && parsed.Some? && !InRange(parsed.value) ==> r.message == OUT_OF_RANGE
  {
    match parsed
    case None => Unparsable
    case Some(v) =>
      if v <= 0 || v >= 100 then Rejected(OUT_OF_RANGE)
      else if v >= p2 then Rejected("Percentile must be less than var_latency_p2")
      else Accepted
  }

  /**
   * The validator of p2 as the library writes it: in range, below p3 and
   * above p1. Its message for the last check names p3 although it is about p1.
   */
  function ValidateP2(parsed: Option<int>, p1: int, p3: int): (r: Verdict)
    requires parsed.Some? ==> IsInt32(parsed.value)
    ensures r == Accepted <==> parsed.Some? && InRange(parsed.value) && p1 < parsed.value < p3
    ensures r == Unparsable <==> parsed.None?
    ensures r.Rejected? && parsed.Some? && !InRange(parsed.value) ==> r.message == OUT_OF_RANGE
  {
    match parsed
    case None => Unparsable
    case Some(v) =>
      if v <= 0 || v >= 100 then Rejected(OUT_OF_RANGE)
      else if v >= p3 then Rejected("Percentile must be less than var_latency_p3")
      else if v <= p1 then Rejected("Percentile must be less than var_latency_p3")
      else Accepted
  }

  /** The validator of p2 with the message for the check against p1 naming p1. */
  function ValidateP2Corrected(parsed: Option<int>, p1: int, p3: int): (r: Verdict)
    requires parsed.Some? ==> IsInt32(parsed.value)
    ensures r == Accepted <==> parsed.Some? && InRange(parsed.value) && p1 < parsed.value < p3
    ensures r == Unparsable <==> parsed.None?
    ensures r.Rejected? && parsed.Some? && !InRange(parsed.value) ==> r.message == OUT_OF_RANGE
    ensures r.Rejected? && parsed.Some? && InRange(parsed.value) && parsed.value < p3 ==>
      r.message == "Percentile must be larger than var_latency_p1"
    ensures r.Rejected? && parsed.Some? && InRange(parsed.value) && parsed.value >= p3 ==>
      r.message == "Percentile must be less than var_latency_p3"
  {
    match parsed
    case None => Unparsable
    case Some(v) =>
      if v <= 0 || v >= 100 then Rejected(OUT_OF_RANGE)
      else if v >= p3 then Rejected("Percentile must be less than var_latency_p3")
      else if v <= p1 then Rejected("Percentile must be larger than var_latency_p1")
      else Accepted
  }

  /** The validator of p3: in range and above p2. */
  function ValidateP3(parsed: Option<int>, p2: int): (r: Verdict)
    requires parsed.Some? ==> IsInt32(parsed.value)
    ensures r == Accepted <==> parsed.Some? && InRange(parsed.value) && parsed.value > p2
    ensures r == Unparsable <==> parsed.None?
    ensures r.Rejected? && parsed.Some? && !InRange(parsed.value) ==> r.message == OUT_OF_RANGE
  {
    match parsed
    case None => Unparsable
    case Some(v) =>
      if v <= 0 || v >= 100 then Rejected(OUT_OF_RANGE)
      else if v <= p2 then Rejected("Percentile must be larger than var_latency_p2")
      else Accepted
  }

  /** The three percentiles as the validators keep them: in range and strictly increasing. */
  predicate Ordered(p1: int, p2: int, p3: int)
  {
    0 < p1 < p2 < p3 < 100
  }

  /**
   * Values each validator accepts against the other two are exactly the
   * strictly increasing percentiles in (0, 100).
   */
  lemma AcceptedMeansOrdered(p1: int, p2: int, p3: int)
    requires IsInt32(p1) && IsInt32(p2) && IsInt32(p3)
    ensures (ValidateP1(Some(p1), p2) == Accepted && ValidateP2(Some(p2), p1, p3) == Accepted &&
             ValidateP3(Some(p3), p2) == Accepted) <==> Ordered(p1, p2, p3)
  {
  }

  /** The defaults 80, 90 and 99 pass all three validators. */
  lemma DefaultsAccepted()
    ensures ValidateP1(Some(DEFAULT_P1), DEFAULT_P2) == Accepted
    ensures ValidateP2(Some(DEFAULT_P2), DEFAULT_P1, DEFAULT_P3) == Accepted
    ensures ValidateP3(Some(DEFAULT_P3), DEFAULT_P2) == Accepted
    ensures Ordered(DEFAULT_P1, DEFAULT_P2, DEFAULT_P3)
  {
  }

  /**
   * A p2 not above p1 is refused with the message about p3, which it does
   * not violate; the corrected validator names p1 and agrees otherwise.
   */
  lemma P2MessageNamesWrongFlag()
    ensures ValidateP2(Some(70), 80, 99) == Rejected("Percentile must be less than var_latency_p3")
    ensures ValidateP2Corrected(Some(70), 80, 99) == Rejected("Percentile must be larger than var_latency_p1")
  {
  }

  /** The two p2 validators accept and refuse the same values; only the message differs. */
  lemma P2CorrectedAgrees(parsed: Option<int>, p1: int, p3: int)
    requires parsed.Some? ==> IsInt32(parsed.value)
    ensures ValidateP2(parsed, p1, p3).Rejected? <==> ValidateP2Corrected(parsed, p1, p3).Rejected?
    ensures parsed.Some? && parsed.value >= p3 ==> ValidateP2(parsed, p1, p3) == ValidateP2Corrected(parsed, p1, p3)
  {
  }
}
