/**
 * Reducer<T, Op, InvOp>: a variable whose value is the identity folded with
 * `Op` over every value fed in by any thread. Each thread feeds into its own
 * agent; reading folds all agents. The built-in operators are the functors
 * AddTo, MinusFrom, MaxTo and MinTo; Counter, MaxerGauge and MinerGauge are
 * reducers over them.
 */
module Reducer {
  import opened Numeric
  import opened Wrappers
  import Combiner

  /** The `int` instantiation used by the gauges in the tests. */
  type Int32 = x: int | IsInt32(x)

  /** `AddTo`: lhs += rhs. */
  function AddTo(lhs: int, rhs: int): int
  {
    lhs + rhs
  }

  /** `MinusFrom`: lhs -= rhs. */
  function MinusFrom(lhs: int, rhs: int): int
  {
    lhs - rhs
  }

  /** MinusFrom undoes AddTo and the other way round: it is the inverse a window needs. */
  lemma MinusFromInvertsAddTo(a: int, b: int)
    ensures MinusFrom(AddTo(a, b), b) == a
    ensures AddTo(MinusFrom(a, b), b) == a
  {
  }

  /** `MaxTo`: lhs is replaced only when it is smaller than rhs. */
  function MaxTo(lhs: Int32, rhs: Int32): (r: Int32)
    ensures lhs <= r && rhs <= r
    ensures r == lhs || r == rhs
    ensures r != lhs ==> lhs < rhs
  {
    if lhs < rhs then rhs else lhs
  }

  /** `MinTo`: lhs is replaced only when rhs is smaller than it. */
  function MinTo(lhs: Int32, rhs: Int32): (r: Int32)
    ensures r <= lhs && r <= rhs
    ensures r == lhs || r == rhs
    ensures r != lhs ==> rhs < lhs
  {
    if rhs < lhs then rhs else lhs
  }

  /**
   * The identities the gauges pass to their base: AddTo with 0, MaxTo with
   * the least `int` and MinTo with the greatest, each a commutative monoid as
   * the reducer demands of its operator.
   */
  lemma FunctorsAreMonoids()
    ensures Combiner.IsCommutativeMonoid(AddTo, 0)
    ensures Combiner.IsCommutativeMonoid(MaxTo, INT32_MIN as Int32)
    ensures Combiner.IsCommutativeMonoid(MinTo, INT32_MAX as Int32)
  {
  }

  /**
   * A reducer: its operator and identity, its inverse operator (None for
   * VoidOp), whether T is std::string, each thread's agent, and whether a
   * window sampler (`_sampler`) or a series sampler exists.
   */
  datatype Reducer<!T> = Reducer(
    op: (T, T) -> T,
    identity: T,
    invOp: Option<(T, T) -> T>,
    isString: bool,
    agents: map<nat, T>,
    hasWindowSampler: bool,
    hasSeriesSampler: bool)

  /** A reducer nobody has fed yet. */
  function Fresh<T>(op: (T, T) -> T, identity: T, invOp: Option<(T, T) -> T>, isString: bool): (r: Reducer<T>)
    ensures r.agents == map[] && !r.hasWindowSampler && !r.hasSeriesSampler
  {
    Reducer(op, identity, invOp, isString, map[], false, false)
  }

  /**
   * `get_value`: the fold of every agent. Reading is a checked failure when
   * the operator has no inverse and a window sampler exists.
   */
  ghost function GetValue<T>(r: Reducer<T>): T
    requires !(r.invOp.None? && r.hasWindowSampler)
  {
    Combiner.FoldMap(r.op, r.identity, x => x, r.agents)
  }

  /**
   * `operator<<` on thread `t`: the value is folded into that thread's agent
   * only (created holding the identity on first use); no other agent changes.
   */
  function Push<T>(r: Reducer<T>, t: nat, v: T): (r': Reducer<T>)
    ensures r'.agents.Keys == r.agents.Keys + {t}
    ensures r'.agents[t] == r.op(if t in r.agents then r.agents[t] else r.identity, v)
    ensures forall u :: u in r.agents && u != t ==> r'.agents[u] == r.agents[u]
    ensures r' == r.(agents := r'.agents)
  {
    var cur := if t in r.agents then r.agents[t] else r.identity;
    r.(agents := r.agents[t := r.op(cur, v)])
  }

  /** One Push folds the value into the reducer's value, whichever thread pushes it. */
  lemma PushFolds<T(!new)>(r: Reducer<T>, t: nat, v: T)
    requires Combiner.IsCommutativeMonoid(r.op, r.identity)
    requires !(r.invOp.None? && r.hasWindowSampler)
    ensures GetValue(Push(r, t, v)) == r.op(GetValue(r), v)
  {
    var id := (x: T) => x;
    var rest := Combiner.FoldMap(r.op, r.identity, id, r.agents - {t});
    Combiner.FoldUpdate(r.op, r.identity, id, r.agents, t, Push(r, t, v).agents[t]);
    if t in r.agents {
      Combiner.FoldRemove(r.op, r.identity, id, r.agents, t);
    } else {
      Combiner.FoldAbsent(r.op, r.identity, id, r.agents, t);
    }
  }

  /** Feeds a log of (thread, value) pairs in order. */
  function PushAll<T>(r: Reducer<T>, log: seq<(nat, T)>): (r': Reducer<T>)
    ensures r' == r.(agents := r'.agents)
    decreases |log|
  {
    if |log| == 0 then r else PushAll(Push(r, log[0].0, log[0].1), log[1..])
  }

  /** The values of a log, without the threads that fed them. */
  function Values<T>(log: seq<(nat, T)>): (vs: seq<T>)
    ensures |vs| == |log| && forall i :: 0 <= i < |log| ==> vs[i] == log[i].1
  {
    seq(|log|, i requires 0 <= i < |log| => log[i].1)
  }

  lemma ValuesCons<T>(log: seq<(nat, T)>)
    requires |log| > 0
    ensures Values(log) == [log[0].1] + Values(log[1..])
  {
  }

  /** Folding from `acc` over v then vs is folding from op(acc, v) over vs. */
  lemma {:induction false} FoldSeqCons<T>(op: (T, T) -> T, acc: T, v: T, vs: seq<T>)
    ensures Combiner.FoldSeq(op, acc, [v] + vs) == Combiner.FoldSeq(op, op(acc, v), vs)
    decreases |vs|
  {
    if |vs| > 0 {
      var n := |vs| - 1;
      assert ([v] + vs)[..|[v] + vs| - 1] == [v] + vs[..n];
      FoldSeqCons(op, acc, v, vs[..n]);
    } else {
      assert ([v] + vs)[..0] == [];
    }
  }

  /**
   * Feeding a log folds its values into the reducer's value in log order,
   * no matter which threads fed them.
   */
  lemma {:induction false} PushAllFolds<T(!new)>(r: Reducer<T>, log: seq<(nat, T)>)
    requires Combiner.IsCommutativeMonoid(r.op, r.identity)
    requires !(r.invOp.None? && r.hasWindowSampler)
    ensures GetValue(PushAll(r, log)) == Combiner.FoldSeq(r.op, GetValue(r), Values(log))
    decreases |log|
  {
    if |log| > 0 {
      var r1 := Push(r, log[0].0, log[0].1);
      PushFolds(r, log[0].0, log[0].1);
      PushAllFolds(r1, log[1..]);
      ValuesCons(log);
      FoldSeqCons(r.op, GetValue(r), log[0].1, Values(log[1..]));
    }
  }

  /** A reducer nobody has fed reads as its identity. */
  lemma FreshValue<T>(op: (T, T) -> T, identity: T, invOp: Option<(T, T) -> T>, isString: bool)
    ensures GetValue(Fresh(op, identity, invOp, isString)) == identity
  {
  }

  /**
   * The reduced value depends only on the multiset of values fed: two logs
   * with the same values, whatever their threads and order, give the same value.
   */
  lemma IndependentOfThreadsAndOrder<T(!new)>(
    op: (T, T) -> T, identity: T, invOp: Option<(T, T) -> T>, isString: bool,
    log1: seq<(nat, T)>, log2: seq<(nat, T)>)
    requires Combiner.IsCommutativeMonoid(op, identity)
    requires multiset(Values(log1)) == multiset(Values(log2))
    ensures GetValue(PushAll(Fresh(op, identity, invOp, isString), log1))
         == GetValue(PushAll(Fresh(op, identity, invOp, isString), log2))
  {
    var r := Fresh(op, identity, invOp, isString);
    PushAllFolds(r, log1);
    PushAllFolds(r, log2);
    Combiner.FoldSeqPermutation(op, identity, Values(log1), Values(log2));
  }

  /**
   * `reset`: every agent is set back to the identity and the fold of the
   * agents before the call is returned; afterwards the agents fold to the
   * identity. Unlike `get_value` it has no check, so it is allowed on a
   * reducer without inverse under a window (a `Window<MaxerGauge>` resets its
   * gauge on every sample).
   */
  ghost function Reset<T(!new)>(r: Reducer<T>): (res: (T, Reducer<T>))
    requires Combiner.IsCommutativeMonoid(r.op, r.identity)
    ensures res.0 == Combiner.FoldMap(r.op, r.identity, x => x, r.agents)
    ensures res.1 == r.(agents := res.1.agents)
    ensures res.1.agents.Keys == r.agents.Keys
    ensures forall t :: t in res.1.agents ==> res.1.agents[t] == r.identity
    ensures Combiner.FoldMap(r.op, r.identity, x => x, res.1.agents) == r.identity
  {
    var cleared := map t | t in r.agents :: r.identity;
    Combiner.FoldOfIdentities(r.op, r.identity, x => x, cleared);
    (Combiner.FoldMap(r.op, r.identity, x => x, r.agents), r.(agents := cleared))
  }

  /** Where `get_value` is allowed, `reset` returns what it would have read and the reducer then reads as the identity. */
  lemma ResetReturnsValue<T(!new)>(r: Reducer<T>)
    requires Combiner.IsCommutativeMonoid(r.op, r.identity)
    requires !(r.invOp.None? && r.hasWindowSampler)
    ensures Reset(r).0 == GetValue(r)
    ensures !(Reset(r).1.invOp.None? && Reset(r).1.hasWindowSampler) && GetValue(Reset(r).1) == r.identity
  {
  }

  /**
   * `expose_impl`: after the variable's own expose reports `exposed`, a
   * series sampler is created only if none exists yet, the operator has an
   * inverse, T is not std::string and series saving is switched on.
   */
  function ExposeSeries<T>(r: Reducer<T>, exposed: bool, saveSeries: bool): (res: (Reducer<T>, bool))
    ensures res.1 <==> exposed && !r.hasSeriesSampler && r.invOp.Some? && !r.isString && saveSeries
    ensures res.0 == r.(hasSeriesSampler := r.hasSeriesSampler || res.1)
  {
    var create := exposed && !r.hasSeriesSampler && r.invOp.Some? && !r.isString && saveSeries;
    (r.(hasSeriesSampler := r.hasSeriesSampler || create), create)
  }

  /** However often a reducer is exposed, at most one series sampler is ever created. */
  lemma SeriesSamplerCreatedOnce<T>(r: Reducer<T>, e1: bool, s1: bool, e2: bool, s2: bool)
    ensures !(ExposeSeries(r, e1, s1).1 && ExposeSeries(ExposeSeries(r, e1, s1).0, e2, s2).1)
  {
  }

  /** Counter<T>: a reducer over AddTo whose inverse is MinusFrom. */
  function Counter(): (r: Reducer<int>)
    ensures Combiner.IsCommutativeMonoid(r.op, r.identity)
    ensures r.invOp.Some? && forall a, b :: r.invOp.value(r.op(a, b), b) == a
  {
    Fresh(AddTo, 0, Some(MinusFrom), false)
  }

  /** MaxerGauge<int>: MaxTo with the least `int` as identity and no inverse. */
  function MaxerGauge(): (r: Reducer<Int32>)
    ensures Combiner.IsCommutativeMonoid(r.op, r.identity)
    ensures forall v: Int32 :: r.op(r.identity, v) == v && r.identity <= v
    ensures r.invOp.None?
  {
    FunctorsAreMonoids();
    Fresh(MaxTo, INT32_MIN as Int32, None, false)
  }

  /** MinerGauge<int>: MinTo with the greatest `int` as identity and no inverse. */
  function MinerGauge(): (r: Reducer<Int32>)
    ensures Combiner.IsCommutativeMonoid(r.op, r.identity)
    ensures forall v: Int32 :: r.op(r.identity, v) == v && v <= r.identity
    ensures r.invOp.None?
  {
    FunctorsAreMonoids();
    Fresh(MinTo, INT32_MAX as Int32, None, false)
  }

  function OnThread<T>(t: nat, vs: seq<T>): (log: seq<(nat, T)>)
    ensures Values(log) == vs
  {
    seq(|vs|, i requires 0 <= i < |vs| => (t, vs[i]))
  }

  lemma {:induction false} FoldSeqSnoc<T>(op: (T, T) -> T, acc: T, vs: seq<T>, v: T)
    ensures Combiner.FoldSeq(op, acc, vs + [v]) == op(Combiner.FoldSeq(op, acc, vs), v)
  {
    assert (vs + [v])[..|vs|] == vs;
  }

  lemma CounterFold()
    ensures Combiner.FoldSeq(AddTo, 0, [-9, 1, 0, 3]) == -5
  {
    FoldSeqSnoc(AddTo, 0, [], -9);
    FoldSeqSnoc(AddTo, 0, [-9], 1);
    FoldSeqSnoc(AddTo, 0, [-9, 1], 0);
    FoldSeqSnoc(AddTo, 0, [-9, 1, 0], 3);
    assert [] + [-9] == [-9] && [-9] + [1] == [-9, 1];
    assert [-9, 1] + [0] == [-9, 1, 0] && [-9, 1, 0] + [3] == [-9, 1, 0, 3];
  }

  /** Counter<int> fed -9, 1, 0, 3 reads -5. */
  lemma CounterExample(t: nat)
    ensures GetValue(PushAll(Counter(), OnThread(t, [-9, 1, 0, 3]))) == -5
  {
    PushAllFolds(Counter(), OnThread(t, [-9, 1, 0, 3]));
    CounterFold();
  }

  lemma MinerFold()
    ensures Combiner.FoldSeq(MinTo, INT32_MAX as Int32, [10, 20, -5, INT32_MAX as Int32, 0, INT32_MIN as Int32]) == INT32_MIN
  {
    var id := INT32_MAX as Int32;
    FoldSeqSnoc(MinTo, id, [], 10);
    FoldSeqSnoc(MinTo, id, [10], 20);
    FoldSeqSnoc(MinTo, id, [10, 20], -5);
    FoldSeqSnoc(MinTo, id, [10, 20, -5], id);
    FoldSeqSnoc(MinTo, id, [10, 20, -5, id], 0);
    FoldSeqSnoc(MinTo, id, [10, 20, -5, id, 0], INT32_MIN as Int32);
  }

  /** MinerGauge<int> fed 10, 20, -5, INT_MAX, 0, INT_MIN reads INT_MIN. */
  lemma MinerExample(t: nat)
    ensures GetValue(PushAll(MinerGauge(), OnThread(t, [10, 20, -5, INT32_MAX as Int32, 0, INT32_MIN as Int32]))) == INT32_MIN
  {
    PushAllFolds(MinerGauge(), OnThread(t, [10, 20, -5, INT32_MAX as Int32, 0, INT32_MIN as Int32]));
    FreshValue(MinTo, INT32_MAX as Int32, None, false);
    MinerFold();
  }

  lemma MaxerFold()
    ensures Combiner.FoldSeq(MaxTo, INT32_MIN as Int32, [20, 10, 30, 0, INT32_MAX as Int32]) == INT32_MAX
  {
    var id := INT32_MIN as Int32;
    FoldSeqSnoc(MaxTo, id, [], 20);
    FoldSeqSnoc(MaxTo, id, [20], 10);
    FoldSeqSnoc(MaxTo, id, [20, 10], 30);
    FoldSeqSnoc(MaxTo, id, [20, 10, 30], 0);
    FoldSeqSnoc(MaxTo, id, [20, 10, 30, 0], INT32_MAX as Int32);
  }

  /** MaxerGauge<int> fed 20, 10, 30, 0, INT_MAX reads INT_MAX. */
  lemma MaxerExample(t: nat)
    ensures GetValue(PushAll(MaxerGauge(), OnThread(t, [20, 10, 30, 0, INT32_MAX as Int32]))) == INT32_MAX
  {
    PushAllFolds(MaxerGauge(), OnThread(t, [20, 10, 30, 0, INT32_MAX as Int32]));
    FreshValue(MaxTo, INT32_MIN as Int32, None, false);
    MaxerFold();
  }
}
