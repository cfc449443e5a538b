/**
 * `LatencyRecorder`: the names of its eleven sub-variables and the order in
 * which `expose` registers them, the label of its percentile vector, the
 * scaling of recorded latencies, the QPS estimate and the CDF points. The
 * percentile engine and the windows are not part of this model: the number
 * at a given ratio is a function parameter, and a window's span is given as
 * its sample count and length in microseconds.
 */
module LatencyRecorder {
  import opened Wrappers
  import opened Strings
  import opened Numeric
  import Variable
  import Scope
  import Config
  import AverageGauge

  /** `expose`'s first step: cut a trailing "latency" in any case; nothing left is an invalid prefix. */
  function TrimPrefix(prefix: string): (r: Result<string>)
    ensures r.Failure? <==> EqualsIgnoreCase(prefix, "latency")
    ensures r.Failure? ==> r.code == InvalidArgument
    ensures r.Success? && EndsWithIgnoreCase(prefix, "latency") ==>
      r.value != "" && |r.value| == |prefix| - 7 && r.value == prefix[..|prefix| - 7]
    ensures r.Success? && !EndsWithIgnoreCase(prefix, "latency") ==> r.value == prefix
  {
    if EndsWithIgnoreCase(prefix, "latency") then
      var p := prefix[..|prefix| - 7];
      assert |prefix| == 7 ==> prefix[|prefix| - 7..] == prefix;
      if p == "" then Failure(InvalidArgument) else Success(p)
    else Success(prefix)
  }

  /** Appending "latency", in any case, to a non-empty prefix and trimming gives the prefix back. */
  lemma TrimUndoesAppend(p: string, s: string)
    requires p != "" && EqualsIgnoreCase(s, "latency")
    ensures TrimPrefix(p + s) == Success(p)
  {
    var x := p + s;
    assert x[|x| - 7..] == s;
    assert x[..|x| - 7] == p;
  }

  /** The decimal text of a percentile, as `%d` prints it. */
  function PercentText(p: int): string
  {
    IntToString(p)
  }

  /** What follows "_latency_" in the names of the seven percentile sub-variables. */
  function PercentileTails(p1: int, p2: int, p3: int): (r: seq<string>)
    ensures |r| == 7 && r[0] == PercentText(p1) && r[1] == PercentText(p2) && r[2] == PercentText(p3)
    ensures r[3..] == ["999", "9999", "percentiles", "cdf"]
  {
    [PercentText(p1), PercentText(p2), PercentText(p3), "999", "9999", "percentiles", "cdf"]
  }

  /** The suffixes of the four sub-variables that carry no percentile. */
  const PLAIN_SUFFIXES: seq<string> := ["_latency", "_max_latency", "_count", "_qps"]

  /** The suffixes of the sub-variable names, in the order `expose` registers them. */
  function Suffixes(p1: int, p2: int, p3: int): (r: seq<string>)
    ensures |r| == 11
    ensures r[..4] == PLAIN_SUFFIXES
    ensures forall k :: 4 <= k < 11 ==> r[k] == "_latency_" + PercentileTails(p1, p2, p3)[k - 4]
  {
    var t := PercentileTails(p1, p2, p3);
    PLAIN_SUFFIXES + seq(7, k requires 0 <= k < 7 => "_latency_" + t[k])
  }

  /** The names of the sub-variables: the trimmed prefix followed by each suffix. */
  function SubNames(prefix: string, p1: int, p2: int, p3: int): (r: seq<string>)
    ensures |r| == 11
    ensures forall k :: 0 <= k < 11 ==> r[k] == prefix + Suffixes(p1, p2, p3)[k]
  {
    var s := Suffixes(p1, p2, p3);
    seq(11, k requires 0 <= k < 11 => prefix + s[k])
  }

  /** A natural number below 100 prints as at most two digits. */
  lemma SmallText(n: nat)
    requires n < 100
    ensures 1 <= |NatToString(n)| <= 2
  {
    if n >= 10 {
      assert NatToString(n) == NatToString(n / 10) + [DigitChar(n % 10)];
    }
  }

  /** Different natural numbers print differently. */
  lemma TextInjective(a: nat, b: nat)
    requires NatToString(a) == NatToString(b)
    ensures a == b
  {
    DecimalRoundTrip(a);
    DecimalRoundTrip(b);
  }

  /** The percentile tails of ordered percentiles are pairwise different. */
  lemma TailsDistinct(p1: int, p2: int, p3: int)
    requires Config.Ordered(p1, p2, p3)
    ensures var t := PercentileTails(p1, p2, p3);
      forall i, j :: 0 <= i < j < 7 ==> t[i] != t[j]
  {
    var t := PercentileTails(p1, p2, p3);
    SmallText(p1);
    SmallText(p2);
    SmallText(p3);
    if t[0] == t[1] { TextInjective(p1, p2); }
    if t[0] == t[2] { TextInjective(p1, p3); }
    if t[1] == t[2] { TextInjective(p2, p3); }
    forall i | 0 <= i < 3 ensures t[i] != "percentiles" && t[i] != "cdf" {
      assert t[i][0] != 'p' && t[i][0] != 'c';
    }
  }

  /** The four plain suffixes differ from each other and from every suffix with a tail. */
  lemma PlainSuffixesDiffer(t: string)
    requires t != ""
    ensures forall i, j :: 0 <= i < j < 4 ==> PLAIN_SUFFIXES[i] != PLAIN_SUFFIXES[j]
    ensures forall i :: 0 <= i < 4 ==> PLAIN_SUFFIXES[i] != "_latency_" + t
  {
    var x := "_latency_" + t;
    assert |x| > 9 && x[1] == 'l';
  }

  /** With ordered percentiles the eleven suffixes are pairwise different. */
  lemma SuffixesDistinct(p1: int, p2: int, p3: int)
    requires Config.Ordered(p1, p2, p3)
    ensures var s := Suffixes(p1, p2, p3);
      forall i, j :: 0 <= i < j < 11 ==> s[i] != s[j]
  {
    var s := Suffixes(p1, p2, p3);
    var t := PercentileTails(p1, p2, p3);
    TailsDistinct(p1, p2, p3);
    SmallText(p1);
    SmallText(p2);
    SmallText(p3);
    forall i, j | 0 <= i < j < 11 ensures s[i] != s[j] {
      if j < 4 {
        assert s[i] == s[..4][i] && s[j] == s[..4][j];
      } else if i < 4 {
        assert t[j - 4] != "";
        PlainSuffixesDiffer(t[j - 4]);
        assert s[i] == s[..4][i] && s[j] == "_latency_" + t[j - 4];
      } else {
        assert t[i - 4] != t[j - 4];
        assert s[i][9..] == t[i - 4] && s[j][9..] == t[j - 4];
      }
    }
  }

  /**
   * With percentiles the validators accept, the eleven sub-variable names
   * are pairwise different, so exposing one can never collide with another.
   */
  lemma SubNamesDistinct(prefix: string, p1: int, p2: int, p3: int)
    requires Config.Ordered(p1, p2, p3)
    ensures var n := SubNames(prefix, p1, p2, p3);
      forall i, j :: 0 <= i < j < 11 ==> n[i] != n[j]
  {
    var s := Suffixes(p1, p2, p3);
    var n := SubNames(prefix, p1, p2, p3);
    SuffixesDistinct(p1, p2, p3);
    forall i, j | 0 <= i < j < 11 ensures n[i] != n[j] {
      assert n[i][|prefix|..] == s[i] && n[j][|prefix|..] == s[j];
    }
  }

  /** The variables of `ids` are live and pairwise different. */
  predicate LiveAndDistinct(w: Variable.World, ids: seq<Variable.VarId>)
  {
    (forall k :: 0 <= k < |ids| ==> ids[k] in w.vars) &&
    (forall i, j :: 0 <= i < j < |ids| ==> ids[i] != ids[j])
  }

  /** After the first variable is exposed, the rest are still live and pairwise different, and none is the first. */
  lemma TailLiveAndDistinct(w: Variable.World, w1: Variable.World, ids: seq<Variable.VarId>)
    requires |ids| > 0 && LiveAndDistinct(w, ids) && w1.vars.Keys == w.vars.Keys
    ensures LiveAndDistinct(w1, ids[1..]) && ids[0] !in ids[1..]
  {
    forall i, j | 0 <= i < j < |ids[1..]| ensures ids[1..][i] != ids[1..][j] {
      assert ids[1..][i] == ids[i + 1] && ids[1..][j] == ids[j + 1];
    }
    forall j | 0 <= j < |ids[1..]| ensures ids[1..][j] != ids[0] {
      assert ids[1..][j] == ids[j + 1];
    }
  }

  /** A chain whose first exposure failed failed at position 0. */
  lemma FailedAtFirst(w: Variable.World, w1: Variable.World, ids: seq<Variable.VarId>)
    requires |ids| > 0 && LiveAndDistinct(w, ids) && ids[0] !in ids[1..] && w1.vars.Keys == w.vars.Keys
    requires Variable.Unregistered(w1.vars[ids[0]]) && forall o :: o in w.vars && o != ids[0] ==> w1.vars[o] == w.vars[o]
    ensures FailedAt(w, w1, ids, 0)
  {
    forall j | 0 < j < |ids| ensures ids[j] != ids[0] { assert ids[1..][j - 1] == ids[j]; }
  }

  /** A chain that failed on the rest after the first succeeded failed one step later on the whole. */
  lemma FailedAtShift(w: Variable.World, w1: Variable.World, w2: Variable.World, ids: seq<Variable.VarId>, n: nat)
    requires |ids| > 0 && n < |ids| - 1 && LiveAndDistinct(w, ids) && ids[0] !in ids[1..]
    requires w1.vars.Keys == w.vars.Keys && w2.vars.Keys == w.vars.Keys && LiveAndDistinct(w1, ids[1..])
    requires w1.vars[ids[0]].exposed && forall o :: o in w.vars && o != ids[0] ==> w1.vars[o] == w.vars[o]
    requires forall o :: o in w1.vars && o !in ids[1..] ==> w2.vars[o] == w1.vars[o]
    requires FailedAt(w1, w2, ids[1..], n)
    ensures FailedAt(w, w2, ids, n + 1)
  {
    forall j | 0 <= j < |ids| - 1 ensures ids[1..][j] == ids[j + 1] && ids[j + 1] != ids[0] { }
  }

  /**
   * Expose each variable under its name in turn, stopping at the first
   * failure; the count says how many were exposed before it.
   */
  function ExposeInOrder(w: Variable.World, ids: seq<Variable.VarId>, names: seq<string>, help: string, sc: Scope.Scope): (r: (Variable.World, Status, nat))
    requires |ids| == |names| && |w.shards| == Variable.SUB_MAP_COUNT && LiveAndDistinct(w, ids)
    requires forall k :: 0 <= k < |names| ==> names[k] != ""
    ensures |r.0.shards| == Variable.SUB_MAP_COUNT && r.0.vars.Keys == w.vars.Keys
    ensures r.2 <= |ids|
    ensures r.1 == Ok <==> r.2 == |ids|
    ensures r.1 == Ok || r.1 == Err(AlreadyExists)
    decreases |ids|
  {
    if ids == [] then (w, Ok, 0)
    else
      var (w1, s) := Variable.ExposeImpl(w, ids[0], names[0], help, sc);
      if s != Ok then (w1, s, 0)
      else
        TailLiveAndDistinct(w, w1, ids);
        var (w2, s2, n) := ExposeInOrder(w1, ids[1..], names[1..], help, sc);
        (w2, s2, n + 1)
  }

  /** The variables the chain got through are exposed with the help text and scope. */
  lemma {:induction false} ExposedPrefix(w: Variable.World, ids: seq<Variable.VarId>, names: seq<string>, help: string, sc: Scope.Scope)
    requires |ids| == |names| && |w.shards| == Variable.SUB_MAP_COUNT && LiveAndDistinct(w, ids)
    requires forall k :: 0 <= k < |names| ==> names[k] != ""
    ensures var r := ExposeInOrder(w, ids, names, help, sc);
      forall j :: 0 <= j < r.2 ==> r.0.vars[ids[j]].exposed && r.0.vars[ids[j]].help == help && r.0.vars[ids[j]].scope == Some(sc)
    decreases |ids|
  {
    if ids != [] {
      var (w1, s) := Variable.ExposeImpl(w, ids[0], names[0], help, sc);
      if s == Ok {
        TailLiveAndDistinct(w, w1, ids);
        ExposedPrefix(w1, ids[1..], names[1..], help, sc);
        UntouchedOutside(w1, ids[1..], names[1..], help, sc);
        var r := ExposeInOrder(w1, ids[1..], names[1..], help, sc);
        forall j | 0 <= j < r.2 + 1
          ensures r.0.vars[ids[j]].exposed && r.0.vars[ids[j]].help == help && r.0.vars[ids[j]].scope == Some(sc)
        {
          if j > 0 { assert ids[1..][j - 1] == ids[j]; }
        }
      }
    }
  }

  /** Variables outside the list never change. */
  lemma {:induction false} UntouchedOutside(w: Variable.World, ids: seq<Variable.VarId>, names: seq<string>, help: string, sc: Scope.Scope)
    requires |ids| == |names| && |w.shards| == Variable.SUB_MAP_COUNT && LiveAndDistinct(w, ids)
    requires forall k :: 0 <= k < |names| ==> names[k] != ""
    ensures var r := ExposeInOrder(w, ids, names, help, sc);
      forall o :: o in w.vars && o !in ids ==> r.0.vars[o] == w.vars[o]
    decreases |ids|
  {
    if ids != [] {
      var (w1, s) := Variable.ExposeImpl(w, ids[0], names[0], help, sc);
      if s == Ok {
        TailLiveAndDistinct(w, w1, ids);
        UntouchedOutside(w1, ids[1..], names[1..], help, sc);
        assert forall o :: o !in ids ==> o != ids[0] && o !in ids[1..];
      }
    }
  }

  /** On a failure the failing variable is left unregistered and the ones after it untouched. */
  lemma {:induction false} FailurePosition(w: Variable.World, ids: seq<Variable.VarId>, names: seq<string>, help: string, sc: Scope.Scope)
    requires |ids| == |names| && |w.shards| == Variable.SUB_MAP_COUNT && LiveAndDistinct(w, ids)
    requires forall k :: 0 <= k < |names| ==> names[k] != ""
    ensures var r := ExposeInOrder(w, ids, names, help, sc);
      r.1 != Ok ==> r.2 < |ids| && FailedAt(w, r.0, ids, r.2)
    decreases |ids|
  {
    if ids != [] {
      var (w1, s) := Variable.ExposeImpl(w, ids[0], names[0], help, sc);
      TailLiveAndDistinct(w, w1, ids);
      if s != Ok {
        FailedAtFirst(w, w1, ids);
      } else {
        FailurePosition(w1, ids[1..], names[1..], help, sc);
        UntouchedOutside(w1, ids[1..], names[1..], help, sc);
        var (w2, s2, n) := ExposeInOrder(w1, ids[1..], names[1..], help, sc);
        if s2 != Ok { FailedAtShift(w, w1, w2, ids, n); }
      }
    }
  }

  /** Four pieces joined: each separated from the next by one separator. */
  lemma JoinFour(a: string, b: string, c: string, d: string, sep: string)
    ensures Join([a, b, c, d], sep) == a + sep + b + sep + c + sep + d
  {
    assert [a, b, c, d][1..] == [b, c, d] && [b, c, d][1..] == [c, d] && [c, d][1..] == [d];
    assert Join([c, d], sep) == c + sep + d;
    assert Join([b, c, d], sep) == b + sep + (c + sep + d);
  }

  /** The label of the percentile vector: "<p1>%,<p2>%,<p3>%,99.9%". */
  function PercentileLabel(p1: int, p2: int, p3: int): string
  {
    PercentText(p1) + "%," + PercentText(p2) + "%," + PercentText(p3) + "%,99.9%"
  }

  /** The label is the four entry names joined by commas. */
  lemma LabelIsJoin(p1: int, p2: int, p3: int)
    ensures PercentileLabel(p1, p2, p3) == Join(LabelParts(p1, p2, p3), ",")
  {
    var a, b, c := PercentText(p1), PercentText(p2), PercentText(p3);
    JoinFour(a + "%", b + "%", c + "%", "99.9%", ",");
    assert LabelParts(p1, p2, p3) == [a + "%", b + "%", c + "%", "99.9%"];
  }

  /** The four names of the percentile vector's entries. */
  function LabelParts(p1: int, p2: int, p3: int): (r: seq<string>)
    ensures |r| == 4 && r[3] == "99.9%"
    ensures forall k :: 0 <= k < 3 ==> r[k] == PercentText([p1, p2, p3][k]) + "%"
  {
    [PercentText(p1) + "%", PercentText(p2) + "%", PercentText(p3) + "%", "99.9%"]
  }

  /**
   * Splitting the label at commas gives back the four entry names, and for
   * percentiles the validators accept, the first three read back as p1, p2, p3.
   */
  lemma LabelSplits(p1: int, p2: int, p3: int)
    requires Config.Ordered(p1, p2, p3)
    ensures Split(PercentileLabel(p1, p2, p3), {','}) == LabelParts(p1, p2, p3)
    ensures forall k :: 0 <= k < 3 ==>
      var part := LabelParts(p1, p2, p3)[k];
      DecimalValue(part[..|part| - 1]) == [p1, p2, p3][k]
  {
    var parts := LabelParts(p1, p2, p3);
    LabelIsJoin(p1, p2, p3);
    forall k | 0 <= k < 4 ensures NoneOf(parts[k], {','}) {
      if k < 3 {
        var v := [p1, p2, p3][k];
        assert parts[k] == NatToString(v) + "%";
      }
    }
    JoinSplit(parts, ',');
    forall k | 0 <= k < 3 ensures DecimalValue(parts[k][..|parts[k]| - 1]) == [p1, p2, p3][k] {
      var v: nat := [p1, p2, p3][k];
      assert parts[k][..|parts[k]| - 1] == NatToString(v);
      DecimalRoundTrip(v);
    }
  }

  /**
   * The exposure chain stopped at `ids[n]`: the ones before it are exposed,
   * it is left unregistered, and the ones after it are untouched.
   */
  predicate FailedAt(w: Variable.World, w': Variable.World, ids: seq<Variable.VarId>, n: nat)
    requires n < |ids| && w.vars.Keys == w'.vars.Keys && LiveAndDistinct(w, ids)
  {
    (forall j :: 0 <= j < n ==> w'.vars[ids[j]].exposed) &&
    Variable.Unregistered(w'.vars[ids[n]]) &&
    (forall j :: n < j < |ids| ==> w'.vars[ids[j]] == w.vars[ids[j]])
  }

  /** What `expose` leaves: the registry, the status, and the percentile vector's label once named. */
  datatype Exposed = Exposed(world: Variable.World, status: Status, vectorNames: Option<string>)

  /**
   * `expose`: trim the prefix, then expose the eleven sub-variables in order
   * and stop at the first failure; only when all are exposed is the
   * percentile vector named. A missing scope means the root scope.
   */
  function Expose(w: Variable.World, ids: seq<Variable.VarId>, prefix: string, help: string,
                  scope: Option<Scope.Scope>, root: Scope.Scope, p1: int, p2: int, p3: int): (r: Exposed)
    requires |ids| == 11 && |w.shards| == Variable.SUB_MAP_COUNT && LiveAndDistinct(w, ids)
    ensures EqualsIgnoreCase(prefix, "latency") ==> r == Exposed(w, Err(InvalidArgument), None)
    ensures !EqualsIgnoreCase(prefix, "latency") ==> r.status == Ok || r.status == Err(AlreadyExists)
    ensures r.vectorNames.Some? <==> r.status == Ok
    ensures r.world.vars.Keys == w.vars.Keys
    ensures r.status == Ok ==> r.vectorNames == Some(PercentileLabel(p1, p2, p3))
    ensures r.status == Ok ==> forall k :: 0 <= k < 11 ==> r.world.vars[ids[k]].exposed && r.world.vars[ids[k]].help == help
    ensures r.status == Err(AlreadyExists) ==>
      (exists n :: 0 <= n < 11 && FailedAt(w, r.world, ids, n))
  {
    match TrimPrefix(prefix)
    case Failure(code) => Exposed(w, Err(code), None)
    case Success(base) =>
      var sc := if scope.Some? then scope.value else root;
      var names := SubNames(base, p1, p2, p3);
      assert forall k :: 0 <= k < 11 ==> |names[k]| >= |Suffixes(p1, p2, p3)[k]| > 0;
      ExposedPrefix(w, ids, names, help, sc);
      FailurePosition(w, ids, names, help, sc);
      var (w', s, n) := ExposeInOrder(w, ids, names, help, sc);
      assert s != Ok ==> FailedAt(w, w', ids, n);
      if s == Ok then Exposed(w', s, Some(PercentileLabel(p1, p2, p3)))
      else Exposed(w', s, None)
  }

  /**
   * `operator<<` as written divides an `int64_t` latency by the `uint64_t`
   * scale factor: the latency is converted to unsigned first, and the
   * quotient converted back.
   */
  function ScaleAsWritten(latency: int, factor: int): (r: int)
    requires IsInt64(latency) && IsUint64(factor) && factor > 0
    ensures IsInt64(r)
  {
    ToSigned(ToUnsigned(latency) / factor)
  }

  /** Dividing by a positive number never increases a natural number. */
  lemma DivShrinks(n: nat, f: int)
    requires f >= 1
    ensures n / f <= n
  {
  }

  /**
   * The scaling evidently intended: signed division truncated toward zero,
   * so the remainder is smaller than the factor and has the latency's sign.
   */
  function ScaleCorrected(latency: int, factor: int): (r: int)
    requires IsInt64(latency) && IsUint64(factor) && factor > 0
    ensures IsInt64(r)
    ensures Abs(latency - r * factor) < factor
    ensures latency - r * factor == 0 || ((latency - r * factor < 0) == (latency < 0))
  {
    DivShrinks(Abs(latency), factor);
    TruncDiv(latency, factor)
  }

  /** On a non-negative latency the written and the intended scaling agree. */
  lemma ScalingAgreesOnNonNegative(latency: int, factor: int)
    requires IsInt64(latency) && IsUint64(factor) && factor > 0 && latency >= 0
    ensures ScaleAsWritten(latency, factor) == ScaleCorrected(latency, factor)
  {
    DivShrinks(latency, factor);
  }

  /** A negative latency scaled by 2 becomes a huge positive value instead of half the latency. */
  lemma NegativeLatencyScaling()
    ensures ScaleAsWritten(-10, 2) == 0x7FFF_FFFF_FFFF_FFFB
    ensures ScaleCorrected(-10, 2) == -5
  {
  }

  /**
   * A negative latency scaled by a factor of at least 2 comes out
   * non-negative as written while the intended quotient is not positive;
   * for factors up to 2^63 the written result is positive, so the two never
   * agree. A factor of 1 leaves every latency unchanged either way.
   */
  lemma ScalingDiffersOnNegative(latency: int, factor: int)
    requires IsInt64(latency) && IsUint64(factor) && factor > 0 && latency < 0
    ensures factor >= 2 ==> ScaleAsWritten(latency, factor) >= 0 >= ScaleCorrected(latency, factor)
    ensures 2 <= factor <= 0x8000_0000_0000_0000 ==> ScaleAsWritten(latency, factor) > 0
    ensures factor == 1 ==> ScaleAsWritten(latency, factor) == ScaleCorrected(latency, factor) == latency
  {
    var u := ToUnsigned(latency);
    if factor >= 2 {
      var q := WrittenQuotient(u, factor);
      assert ScaleAsWritten(latency, factor) == q;
    }
  }

  /**
   * The unsigned quotient of a negative `int64_t` reinterpreted as unsigned:
   * for a factor of at least 2 it is below 2^63, and for a factor up to 2^63
   * it is positive.
   */
  lemma WrittenQuotient(u: int, factor: int) returns (q: int)
    requires 0x8000_0000_0000_0000 <= u < 0x1_0000_0000_0000_0000 && 2 <= factor
    ensures q == u / factor && 0 <= q < 0x8000_0000_0000_0000
    ensures factor <= 0x8000_0000_0000_0000 ==> q > 0
  {
    q := u / factor;
    QuotientBounds(u, factor);
    MulMonotone(2, factor, q);
    if factor <= 0x8000_0000_0000_0000 {
      PositiveFactor(q, factor);
    }
  }

  /** The quotient times the divisor is at most the dividend and within one divisor of it. */
  lemma QuotientBounds(n: nat, d: int)
    requires d >= 1
    ensures 0 <= (n / d) * d <= n < (n / d) * d + d
  {
  }

  lemma MulMonotone(a: int, b: int, c: nat)
    requires a <= b
    ensures c * a <= c * b
  {
  }

  /** A natural number whose product with a positive number is positive is itself positive. */
  lemma PositiveFactor(q: nat, d: int)
    requires d >= 1 && q * d > 0
    ensures q > 0
  {
  }

  /**
   * The three recorders a latency is fed to: the `AverageGauge` `_latency`
   * with its per-thread slots, the reduced value of the `MaxerGauge<int64_t>`
   * `_max_latency`, and the values handed to the percentile recorder.
   */
  datatype Recorder = Recorder(latency: AverageGauge.Gauge, max: int, samples: seq<int>)

  /**
   * A recorder with nothing recorded. `_max_latency(0)` selects the
   * `MaxerGauge(T v)` constructor, so the maximum's identity is 0, not the
   * smallest `int64_t`.
   */
  function NewRecorder(): (r: Recorder)
    ensures AverageGauge.Valid(r.latency) && AverageGauge.Value(r.latency) == AverageGauge.ZERO
    ensures r.max == 0 && r.samples == []
  {
    AverageGauge.EmptyValue();
    Recorder(AverageGauge.EMPTY, 0, [])
  }

  /**
   * `operator<<` on thread `t`: the latency is divided by the scale factor as
   * written, and the same value is fed to all three recorders. The average
   * clamps it to `int`; the maximum keeps its value unless it is smaller.
   */
  function Record(rec: Recorder, t: nat, latency: int, factor: int): (r: Recorder)
    requires AverageGauge.Valid(rec.latency) && IsInt64(latency) && IsUint64(factor) && factor > 0
    ensures AverageGauge.Valid(r.latency)
    ensures var x := ScaleAsWritten(latency, factor);
      AverageGauge.Value(r.latency) ==
        AverageGauge.AddStat(AverageGauge.Value(rec.latency), AverageGauge.Stat(AverageGauge.Clamp(x), 1)) &&
      r.samples == rec.samples + [x] &&
      r.max >= x && r.max >= rec.max && (r.max == x || r.max == rec.max)
  {
    var x := ScaleAsWritten(latency, factor);
    AverageGauge.AppendAccounts(rec.latency, t, x);
    Recorder(AverageGauge.Append(rec.latency, t, x), if rec.max < x then x else rec.max, rec.samples + [x])
  }

  /** The first record into a fresh recorder: each recorder holds exactly the scaled latency, the maximum only when it is positive. */
  lemma RecordIntoEmpty(rec: Recorder, t: nat, latency: int, factor: int)
    requires AverageGauge.Valid(rec.latency) && AverageGauge.Value(rec.latency) == AverageGauge.ZERO
    requires rec.max == 0 && rec.samples == []
    requires IsInt64(latency) && IsUint64(factor) && factor > 0
    ensures var r := Record(rec, t, latency, factor);
      var x := ScaleAsWritten(latency, factor);
      r.max == (if x > 0 then x else 0) && r.samples == [x] &&
      AverageGauge.Value(r.latency) == AverageGauge.Stat(AverageGauge.Clamp(x), 1)
  {
  }

  /**
   * With the default factor 1 a negative latency that fits an `int`, recorded
   * into a recorder that reads as new, is fed unchanged to the average and
   * the samples, and the maximum stays at its identity 0.
   */
  lemma NegativeLatencyKeepsMaxAtZero(rec: Recorder, t: nat, latency: int)
    requires AverageGauge.Valid(rec.latency) && AverageGauge.Value(rec.latency) == AverageGauge.ZERO
    requires rec.max == 0 && rec.samples == []
    requires INT32_MIN <= latency < 0
    ensures var r := Record(rec, t, latency, 1);
      r.max == 0 && r.samples == [latency] &&
      AverageGauge.Value(r.latency) == AverageGauge.Stat(latency, 1)
  {
    ScalingDiffersOnNegative(latency, 1);
    RecordIntoEmpty(rec, t, latency, 1);
  }

  /**
   * With factor 2 the latency -10 reaches all three recorders as 2^63 - 5:
   * the percentile samples and the maximum hold it, the average clamps it to
   * the largest `int`.
   */
  lemma NegativeLatencyRecordedHuge(t: nat)
    ensures var r := Record(NewRecorder(), t, -10, 2);
      r.max == 0x7FFF_FFFF_FFFF_FFFB && r.samples == [0x7FFF_FFFF_FFFF_FFFB] &&
      AverageGauge.Value(r.latency) == AverageGauge.Stat(INT32_MAX, 1)
  {
    NegativeLatencyScaling();
  }

  predicate AllInt64(log: seq<(nat, int)>)
  {
    forall k :: 0 <= k < |log| ==> IsInt64(log[k].1)
  }

  /** Recording every (thread, latency) pair of `log` in turn. */
  function RecordAll(rec: Recorder, log: seq<(nat, int)>, factor: int): (r: Recorder)
    requires AverageGauge.Valid(rec.latency) && AllInt64(log) && IsUint64(factor) && factor > 0
    ensures AverageGauge.Valid(r.latency)
    decreases |log|
  {
    if log == [] then rec
    else RecordAll(Record(rec, log[0].0, log[0].1, factor), log[1..], factor)
  }

  /** The scaled latencies of a log, in order. */
  function ScaledAll(log: seq<(nat, int)>, factor: int): (r: seq<int>)
    requires AllInt64(log) && IsUint64(factor) && factor > 0
    ensures |r| == |log|
    ensures forall k :: 0 <= k < |log| ==> r[k] == ScaleAsWritten(log[k].1, factor)
  {
    seq(|log|, k requires 0 <= k < |log| => ScaleAsWritten(log[k].1, factor))
  }

  /** The sum of a sequence with every element clamped to `int`. */
  function ClampedSum(xs: seq<int>): int
  {
    if xs == [] then 0 else AverageGauge.Clamp(xs[0]) + ClampedSum(xs[1..])
  }

  /**
   * After a log is recorded, whichever threads recorded it: the average has
   * gained the clamped sum and the length of the scaled log, the samples are
   * the scaled log in order, and the maximum bounds every scaled value and
   * is the old maximum or one of them.
   */
  lemma {:induction false} RecordAllAccounts(rec: Recorder, log: seq<(nat, int)>, factor: int)
    requires AverageGauge.Valid(rec.latency) && AllInt64(log) && IsUint64(factor) && factor > 0
    ensures var r := RecordAll(rec, log, factor);
      var xs := ScaledAll(log, factor);
      AverageGauge.Value(r.latency) ==
        AverageGauge.AddStat(AverageGauge.Value(rec.latency), AverageGauge.Stat(ClampedSum(xs), |log|)) &&
      r.samples == rec.samples + xs &&
      r.max >= rec.max && (forall k :: 0 <= k < |log| ==> r.max >= xs[k]) &&
      (r.max == rec.max || exists k :: 0 <= k < |log| && r.max == xs[k])
  {
    RecordAllAverage(rec, log, factor);
    RecordAllSamples(rec, log, factor);
    RecordAllMax(rec, log, factor);
  }

  /** Dropping the first entry of a log keeps every latency in `int64_t`, and scales the rest alike. */
  lemma ScaledAllCons(log: seq<(nat, int)>, factor: int)
    requires AllInt64(log) && IsUint64(factor) && factor > 0 && log != []
    ensures AllInt64(log[1..])
    ensures ScaledAll(log, factor) == [ScaleAsWritten(log[0].1, factor)] + ScaledAll(log[1..], factor)
  {
    forall k | 0 <= k < |log| - 1 ensures IsInt64(log[1..][k].1) {
      assert log[1..][k] == log[k + 1];
    }
    var xs, ys := ScaledAll(log, factor), ScaledAll(log[1..], factor);
    assert forall k :: 0 <= k < |ys| ==> ys[k] == xs[k + 1];
  }

  /** One step of `RecordAll`: the first entry is recorded, and the rest of the log is recorded into the result. */
  lemma RecordAllStep(rec: Recorder, log: seq<(nat, int)>, factor: int) returns (rec1: Recorder, x: int)
    requires AverageGauge.Valid(rec.latency) && AllInt64(log) && IsUint64(factor) && factor > 0 && log != []
    ensures x == ScaleAsWritten(log[0].1, factor) && rec1 == Record(rec, log[0].0, log[0].1, factor)
    ensures AverageGauge.Valid(rec1.latency) && AllInt64(log[1..])
    ensures RecordAll(rec, log, factor) == RecordAll(rec1, log[1..], factor)
    ensures ScaledAll(log, factor) == [x] + ScaledAll(log[1..], factor)
    ensures rec1.samples == rec.samples + [x]
    ensures rec1.max >= x && rec1.max >= rec.max && (rec1.max == x || rec1.max == rec.max)
  {
    ScaledAllCons(log, factor);
    x := ScaleAsWritten(log[0].1, factor);
    rec1 := Record(rec, log[0].0, log[0].1, factor);
  }

  /** The average of a recorded log gains its clamped sum and its length. */
  lemma {:induction false} RecordAllAverage(rec: Recorder, log: seq<(nat, int)>, factor: int)
    requires AverageGauge.Valid(rec.latency) && AllInt64(log) && IsUint64(factor) && factor > 0
    ensures AverageGauge.Value(RecordAll(rec, log, factor).latency) ==
      AverageGauge.AddStat(AverageGauge.Value(rec.latency), AverageGauge.Stat(ClampedSum(ScaledAll(log, factor)), |log|))
    decreases |log|
  {
    if log != [] {
      var rec1, x := RecordAllStep(rec, log, factor);
      RecordAllAverage(rec1, log[1..], factor);
      assert ([x] + ScaledAll(log[1..], factor))[1..] == ScaledAll(log[1..], factor);
    }
  }

  /** The samples of a recorded log gain its scaled latencies, in order. */
  lemma {:induction false} RecordAllSamples(rec: Recorder, log: seq<(nat, int)>, factor: int)
    requires AverageGauge.Valid(rec.latency) && AllInt64(log) && IsUint64(factor) && factor > 0
    ensures RecordAll(rec, log, factor).samples == rec.samples + ScaledAll(log, factor)
    decreases |log|
  {
    if log != [] {
      var rec1, x := RecordAllStep(rec, log, factor);
      RecordAllSamples(rec1, log[1..], factor);
      var ys := ScaledAll(log[1..], factor);
      ConcatAssoc(rec.samples, [x], ys);
    }
  }

  lemma ConcatAssoc<T>(a: seq<T>, b: seq<T>, c: seq<T>)
    ensures (a + b) + c == a + (b + c)
  {
  }

  /** The maximum of a recorded log bounds the old maximum and every scaled latency, and is one of them. */
  lemma {:induction false} RecordAllMax(rec: Recorder, log: seq<(nat, int)>, factor: int)
    requires AverageGauge.Valid(rec.latency) && AllInt64(log) && IsUint64(factor) && factor > 0
    ensures var r := RecordAll(rec, log, factor);
      var xs := ScaledAll(log, factor);
      r.max >= rec.max && (forall k :: 0 <= k < |log| ==> r.max >= xs[k]) &&
      (r.max == rec.max || exists k :: 0 <= k < |log| && r.max == xs[k])
    decreases |log|
  {
    if log != [] {
      var rec1, x := RecordAllStep(rec, log, factor);
      RecordAllMax(rec1, log[1..], factor);
      var m := RecordAll(rec1, log[1..], factor).max;
      var xs, ys := ScaledAll(log, factor), ScaledAll(log[1..], factor);
      forall k | 0 <= k < |log| ensures m >= xs[k] {
        if k > 0 {
          assert xs[k] == ys[k - 1];
        }
      }
      if m != rec.max {
        if m == rec1.max {
          assert m == xs[0];
        } else {
          var k :| 0 <= k < |ys| && m == ys[k];
          assert m == xs[k + 1];
        }
      }
    }
  }



  /** `static_cast<int64_t>` of a double: truncation toward zero. */
  function Trunc(d: real): (r: int)
    ensures (r as real) <= d < (r as real) + 1.0 || (r as real) - 1.0 < d <= (r as real)
    ensures d >= 0.0 ==> r == d.Floor
    ensures d < 0.0 ==> r == -((-d).Floor)
  {
    if d >= 0.0 then d.Floor else -((-d).Floor)
  }

  /**
   * `double_to_random_int`: the truncation, plus one when the value exceeds
   * it by more than the uniform draw `u` in [0, 1).
   */
  function DoubleToRandomInt(d: real, u: real): (r: int)
    requires 0.0 <= u < 1.0
    ensures r == Trunc(d) || r == Trunc(d) + 1
    ensures r == Trunc(d) + 1 <==> d > (Trunc(d) as real) + u
    ensures (r as real) - 1.0 < d < (r as real) + 1.0
  {
    var i := Trunc(d);
    if d > (i as real) + u then i + 1 else i
  }

  /** An integral value comes out unchanged, whatever the draw. */
  lemma IntegralIsExact(n: int, u: real)
    requires 0.0 <= u < 1.0
    ensures DoubleToRandomInt(n as real, u) == n
  {
  }

  /** A window's span: the number of samples in it and its length in microseconds. */
  datatype Span = Span(num: int, timeUs: int)

  /**
   * `qps`: zero when the span has no positive length; otherwise the rate
   * num·10^6 / time_us rounded to a neighbouring integer by the draw `u`.
   */
  function Qps(s: Span, u: real): (r: int)
    requires 0.0 <= u < 1.0
    ensures s.timeUs <= 0 ==> r == 0
    ensures s.timeUs > 0 ==> var rate := (s.num as real) * 1000000.0 / (s.timeUs as real);
      (r as real) - 1.0 < rate < (r as real) + 1.0
  {
    if s.timeUs <= 0 then 0
    else DoubleToRandomInt((s.num as real) * 1000000.0 / (s.timeUs as real), u)
  }

  /** A span of 1000 samples over one second gives 1000 whatever the draw. */
  lemma QpsExample(u: real)
    requires 0.0 <= u < 1.0
    ensures Qps(Span(1000, 1000000), u) == 1000
  {
    assert (1000 as real) * 1000000.0 / (1000000 as real) == 1000 as real;
    IntegralIsExact(1000, u);
  }

  /** The label of the k-th CDF point: 10..90 by tens, then 91..99, then 100 and 101. */
  function CdfLabel(k: nat): int
    requires k < 20
  {
    if k < 9 then (k + 1) * 10 else if k < 18 then k + 82 else if k == 18 then 100 else 101
  }

  /** The ratio the k-th CDF point asks the percentile engine for. */
  function CdfRatio(k: nat): real
    requires k < 20
  {
    if k < 9 then (k + 1) as real * 0.1 else if k < 18 then (k + 82) as real * 0.01
    else if k == 18 then 0.999 else 0.9999
  }

  /**
   * The labels increase strictly; up to 99 a label is its ratio in percent,
   * and the last two stand for the 99.9th and 99.99th percentiles.
   */
  lemma CdfLabelsMeanRatios()
    ensures forall i, j :: 0 <= i < j < 20 ==> CdfLabel(i) < CdfLabel(j)
    ensures forall k :: 0 <= k < 18 ==> CdfRatio(k) == CdfLabel(k) as real / 100.0
    ensures CdfLabel(18) == 100 && CdfRatio(18) == 0.999
    ensures CdfLabel(19) == 101 && CdfRatio(19) == 0.9999
  {
  }

  /**
   * The CDF points `describe` computes: nine tenths, nine hundredths from 91
   * to 99, then 99.9% and 99.99%, each with the number the engine gives.
   */
  method CdfPoints(getNumber: real -> int) returns (values: seq<(int, int)>)
    ensures |values| == 20
    ensures forall k :: 0 <= k < 20 ==> values[k] == (CdfLabel(k), getNumber(CdfRatio(k)))
  {
    values := [];
    var i := 1;
    while i < 10
      invariant 1 <= i <= 10 && |values| == i - 1
      invariant forall k :: 0 <= k < |values| ==> values[k] == (CdfLabel(k), getNumber(CdfRatio(k)))
    {
      values := values + [(i * 10, getNumber(i as real * 0.1))];
      i := i + 1;
    }
    i := 91;
    while i < 100
      invariant 91 <= i <= 100 && |values| == i - 82
      invariant forall k :: 0 <= k < |values| ==> values[k] == (CdfLabel(k), getNumber(CdfRatio(k)))
    {
      values := values + [(i, getNumber(i as real * 0.01))];
      i := i + 1;
    }
    values := values + [(100, getNumber(0.999))];
    values := values + [(101, getNumber(0.9999))];
  }

  /** `latency_percentiles`: the numbers at p1, p2 and p3 percent and at 99.9%. */
  function LatencyPercentiles(getNumber: real -> int, p1: int, p2: int, p3: int): (r: seq<int>)
    ensures |r| == 4
    ensures forall k :: 0 <= k < 3 ==> r[k] == getNumber([p1, p2, p3][k] as real / 100.0)
    ensures r[3] == getNumber(0.999)
  {
    [getNumber(p1 as real / 100.0), getNumber(p2 as real / 100.0), getNumber(p3 as real / 100.0), getNumber(0.999)]
  }
}
