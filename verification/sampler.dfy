/**
 * The sampler collector: samplers scheduled by any thread are combined into
 * a pending list; once a second the collector's thread splices that list
 * onto its own, walks the whole list once, deletes the samplers marked
 * unused and calls `take_sample` on the others. Linked lists are sequences
 * of sampler ids, and the objects they point at live in a heap map.
 */
module Sampler {
  import opened Wrappers

  type SamplerId = nat

  /** The part of a sampler the collector sees: its `_used` flag and how often it was sampled. */
  datatype Sampler = Sampler(used: bool, samples: nat)

  /**
   * `CombineSampler`: an absent right list leaves the left one, an absent
   * left list becomes the right one, otherwise the right list is spliced in
   * after the left one.
   */
  function CombineSampler(s1: Option<seq<SamplerId>>, s2: Option<seq<SamplerId>>): (r: Option<seq<SamplerId>>)
    ensures s2.None? ==> r == s1
    ensures s1.None? ==> r == s2
    ensures s1.Some? && s2.Some? ==> r.Some? && |r.value| == |s1.value| + |s2.value|
    ensures s1.Some? && s2.Some? ==> r.value[..|s1.value|] == s1.value && r.value[|s1.value|..] == s2.value
  {
    if s2.None? then s1
    else if s1.None? then s2
    else Some(s1.value + s2.value)
  }

  /**
   * CombineSampler with the null list as identity is associative, so the
   * collector's reducer may combine its agents' lists in any grouping.
   */
  lemma CombineSamplerAssociative(a: Option<seq<SamplerId>>, b: Option<seq<SamplerId>>, c: Option<seq<SamplerId>>)
    ensures CombineSampler(CombineSampler(a, b), c) == CombineSampler(a, CombineSampler(b, c))
    ensures CombineSampler(None, a) == a && CombineSampler(a, None) == a
  {
    if a.Some? && b.Some? && c.Some? {
      assert (a.value + b.value) + c.value == a.value + (b.value + c.value);
    }
  }

  /** Splicing [n3, n4] after [n1, n2] gives the list n1, n2, n3, n4. */
  lemma CombineExample(n1: SamplerId, n2: SamplerId, n3: SamplerId, n4: SamplerId)
    ensures CombineSampler(Some([n1, n2]), Some([n3, n4])) == Some([n1, n2, n3, n4])
  {
    assert [n1, n2] + [n3, n4] == [n1, n2, n3, n4];
  }

  /**
   * The collector: the list its thread walks, the pending list its reducer
   * holds, every sampler object not yet deleted, and the count of
   * consecutive cycles that did not sleep.
   */
  datatype Collector = Collector(
    list: seq<SamplerId>,
    pending: Option<seq<SamplerId>>,
    heap: map<SamplerId, Sampler>,
    busy: int)

  function Pending(c: Collector): seq<SamplerId>
  {
    if c.pending.Some? then c.pending.value else []
  }

  predicate Distinct(ids: seq<SamplerId>)
  {
    forall i, j :: 0 <= i < j < |ids| ==> ids[i] != ids[j]
  }

  /** Each sampler is linked at most once and every linked sampler is alive. */
  predicate Valid(c: Collector)
  {
    var all := c.list + Pending(c);
    && Distinct(all)
    && (forall i :: 0 <= i < |all| ==> all[i] in c.heap)
    && 0 <= c.busy < WARN_NOSLEEP_THRESHOLD
  }

  const WARN_NOSLEEP_THRESHOLD: int := 2

  /**
   * `schedule`: the sampler is handed to the collector only when sampling is
   * enabled; otherwise nothing changes.
   */
  function Schedule(c: Collector, id: SamplerId, enableSampling: bool): (c': Collector)
    ensures !enableSampling ==> c' == c
    ensures enableSampling ==> c' == c.(pending := c'.pending) && Pending(c') == Pending(c) + [id]
  {
    if enableSampling then c.(pending := CombineSampler(c.pending, Some([id]))) else c
  }

  /** Scheduling a new live sampler keeps the collector valid. */
  lemma ScheduleValid(c: Collector, id: SamplerId, enableSampling: bool)
    requires Valid(c) && id in c.heap && id !in c.list + Pending(c)
    ensures Valid(Schedule(c, id, enableSampling))
  {
    if enableSampling {
      var c' := Schedule(c, id, enableSampling);
      assert c'.list + Pending(c') == (c.list + Pending(c)) + [id];
    }
  }

  /** `destroy`: only the `_used` flag is cleared; the object stays alive and linked. */
  function Destroy(c: Collector, id: SamplerId): (c': Collector)
    requires id in c.heap
    ensures c'.heap.Keys == c.heap.Keys && c'.list == c.list && c'.pending == c.pending
    ensures !c'.heap[id].used && c'.heap[id].samples == c.heap[id].samples
    ensures forall k :: k in c.heap && k != id ==> c'.heap[k] == c.heap[k]
  {
    c.(heap := c.heap[id := c.heap[id].(used := false)])
  }

  /** The used samplers of `ids`, in order. */
  function KeepUsed(ids: seq<SamplerId>, heap: map<SamplerId, Sampler>): (r: seq<SamplerId>)
    requires forall i :: 0 <= i < |ids| ==> ids[i] in heap
    ensures forall x :: x in r <==> x in ids && heap[x].used
    ensures Distinct(ids) ==> Distinct(r)
    decreases |ids|
  {
    if |ids| == 0 then []
    else
      var n := |ids| - 1;
      var rest := KeepUsed(ids[..n], heap);
      assert forall x :: x in ids <==> x in ids[..n] || x == ids[n];
      if heap[ids[n]].used then rest + [ids[n]] else rest
  }

  /** What one cycle does to a sampler it visits: an unused one is deleted, a used one sampled. */
  function Visit(s: Sampler): Option<Sampler>
  {
    if s.used then Some(s.(samples := s.samples + 1)) else None
  }

  /** The busy counter after a cycle, and whether the cycle warns. */
  function NextBusy(busy: int, slept: bool): (r: (int, bool))
    requires 0 <= busy < WARN_NOSLEEP_THRESHOLD
    ensures 0 <= r.0 < WARN_NOSLEEP_THRESHOLD
    ensures slept ==> r == (0, false)
    ensures !slept ==> (r.1 <==> busy + 1 == WARN_NOSLEEP_THRESHOLD)
    ensures !slept && !r.1 ==> r.0 == busy + 1
  {
    if slept then (0, false)
    else if busy + 1 >= WARN_NOSLEEP_THRESHOLD then (0, true)
    else (busy + 1, false)
  }

  /**
   * The walk over the spliced list in `run`: every node is visited once in
   * order; an unused sampler is unlinked and deleted, a used one sampled.
   */
  method VisitList(all: seq<SamplerId>, heap0: map<SamplerId, Sampler>) returns (kept: seq<SamplerId>, heap: map<SamplerId, Sampler>)
    requires Distinct(all) && forall i :: 0 <= i < |all| ==> all[i] in heap0
    ensures kept == KeepUsed(all, heap0)
    ensures forall k :: k in heap <==> k in heap0 && (k in all ==> heap0[k].used)
    ensures forall k :: k in heap && k in all ==> Some(heap[k]) == Visit(heap0[k])
    ensures forall k :: k in heap && k !in all ==> heap[k] == heap0[k]
  {
    kept := [];
    heap := heap0;
    var i := 0;
    while i < |all|
      invariant 0 <= i <= |all|
      invariant kept == KeepUsed(all[..i], heap0)
      invariant forall k :: k in heap <==> k in heap0 && (k in all[..i] ==> heap0[k].used)
      invariant forall k :: k in heap && k in all[..i] ==> Some(heap[k]) == Visit(heap0[k])
      invariant forall k :: k in heap && k !in all[..i] ==> heap[k] == heap0[k]
    {
      var id := all[i];
      assert id !in all[..i];
      assert all[..i + 1][..i] == all[..i];
      assert forall k :: k in all[..i + 1] <==> k in all[..i] || k == id;
      var v := Visit(heap0[id]);
      if v.None? {
        heap := heap - {id};
      } else {
        heap := heap[id := v.value];
        kept := kept + [id];
      }
      i := i + 1;
    }
    assert all[..i] == all;
  }

  /**
   * One wake-up of the collector thread (`run`): drain the pending list and
   * append it after the collector's own list, visit every node once, and
   * update the busy counter from whether the thread slept.
   */
  method RunCycle(c: Collector, slept: bool) returns (c': Collector, warned: bool)
    requires Valid(c)
    ensures Valid(c')
    ensures c'.pending.None?
    ensures c'.list == KeepUsed(c.list + Pending(c), c.heap)
    ensures forall k :: k in c'.heap <==> k in c.heap && (k in c.list + Pending(c) ==> c.heap[k].used)
    ensures forall k :: k in c'.heap && k in c.list + Pending(c) ==> Some(c'.heap[k]) == Visit(c.heap[k])
    ensures forall k :: k in c'.heap && k !in c.list + Pending(c) ==> c'.heap[k] == c.heap[k]
    ensures (c'.busy, warned) == NextBusy(c.busy, slept)
  {
    var kept, heap := VisitList(c.list + Pending(c), c.heap);
    var b := NextBusy(c.busy, slept);
    c' := Collector(kept, None, heap, b.0);
    warned := b.1;
    assert c'.list + Pending(c') == kept;
  }

  /** A sampler destroyed before a cycle is unlinked and deleted by it; the other samplers are not affected by the destroy. */
  method DestroyThenCycle(c: Collector, id: SamplerId, slept: bool) returns (c': Collector)
    requires Valid(c) && id in c.heap && id in c.list + Pending(c)
    ensures Valid(c')
    ensures id !in c'.list && id !in c'.heap
    ensures forall k :: k in c.list + Pending(c) && k != id && c.heap[k].used ==> k in c'.list && k in c'.heap
  {
    var d := Destroy(c, id);
    assert Pending(d) == Pending(c);
    var warned;
    c', warned := RunCycle(d, slept);
  }

  /**
   * With sampling enabled, a newly created (used) sampler that is scheduled
   * is sampled exactly once by the next cycle and stays linked.
   */
  method ScheduleThenCycle(c: Collector, id: SamplerId, slept: bool) returns (c': Collector)
    requires Valid(c) && id !in c.heap && id !in c.list + Pending(c)
    ensures Valid(c')
    ensures id in c'.list && id in c'.heap && c'.heap[id] == Sampler(true, 1)
  {
    var created := c.(heap := c.heap[id := Sampler(true, 0)]);
    assert Valid(created);
    ScheduleValid(created, id, true);
    var scheduled := Schedule(created, id, true);
    var warned;
    c', warned := RunCycle(scheduled, slept);
  }
}
