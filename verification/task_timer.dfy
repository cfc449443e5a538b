/**
 * `TaskTimer` bookkeeping: a vector of events indexed by timer id, a queue
 * of (next time, id) entries ordered by time, and a stack of ids free for
 * reuse. Times are integers in microseconds. The worker thread's firing of
 * one entry is split in two steps around the handler call: `Take` removes
 * the earliest due entry, and `Finish` re-queues or frees it afterwards;
 * whatever the handler does in between is any sequence of `Add` and
 * `Remove` calls.
 */
module TaskTimer {
  import opened Wrappers

  /** An event: its id, start time, period, whether it still holds a handler, and whether it is valid. */
  datatype Event = Event(id: nat, start: int, period: int, hasHandler: bool, valid: bool)

  /** A queue entry: when the event is next due and the id it refers to. */
  datatype TimeEvent = TimeEvent(next: int, ref: nat)

  datatype Timer = Timer(events: seq<Event>, queue: seq<TimeEvent>, free: seq<nat>)

  /** The queue is ordered by due time, as the multiset keeps it. */
  predicate Sorted(q: seq<TimeEvent>)
  {
    forall i, j :: 0 <= i < j < |q| ==> q[i].next <= q[j].next
  }

  predicate DistinctRefs(q: seq<TimeEvent>)
  {
    forall i, j :: 0 <= i < j < |q| ==> q[i].ref != q[j].ref
  }

  predicate Distinct(s: seq<nat>)
  {
    forall i, j :: 0 <= i < j < |s| ==> s[i] != s[j]
  }

  /** The ids with an entry in the queue. */
  function Refs(q: seq<TimeEvent>): set<nat>
  {
    set e | e in q :: e.ref
  }

  /**
   * The bookkeeping invariant: each event sits at its id; every queued id
   * names a valid event and every free id an invalid one (so no id is both
   * queued and free); no id is queued or free twice; the queue is ordered.
   */
  predicate Inv(t: Timer)
  {
    (forall i :: 0 <= i < |t.events| ==> t.events[i].id == i) &&
    (forall e :: e in t.queue ==> e.ref < |t.events| && t.events[e.ref].valid) &&
    (forall id :: id in t.free ==> id < |t.events| && !t.events[id].valid) &&
    DistinctRefs(t.queue) && Distinct(t.free) && Sorted(t.queue)
  }

  /** An id is never both queued and free. */
  lemma QueuedNeverFree(t: Timer, id: nat)
    requires Inv(t)
    ensures id in Refs(t.queue) ==> id !in t.free
  {
    if id in Refs(t.queue) {
      var e :| e in t.queue && e.ref == id;
      assert t.events[id].valid;
    }
  }

  /** The timer a constructor makes: nothing at all. */
  function New(): (t: Timer)
    ensures Inv(t) && t.events == [] && t.queue == [] && t.free == []
  {
    Timer([], [], [])
  }

  /** Where `multiset::insert` puts an entry: before the first entry due strictly later. */
  function InsertPos(q: seq<TimeEvent>, next: int): (p: nat)
    ensures p <= |q|
    ensures forall j :: 0 <= j < p ==> q[j].next <= next
    ensures p < |q| ==> q[p].next > next
  {
    if q == [] || q[0].next > next then 0 else InsertPos(q[1..], next) + 1
  }

  /** The sequence `q` with `te` placed at position `p`. */
  function InsertAt(q: seq<TimeEvent>, p: nat, te: TimeEvent): (r: seq<TimeEvent>)
    requires p <= |q|
    ensures |r| == |q| + 1 && r[p] == te
    ensures forall i :: 0 <= i < p ==> r[i] == q[i]
    ensures forall i :: p < i < |r| ==> r[i] == q[i - 1]
  {
    q[..p] + [te] + q[p..]
  }

  /** Placing an entry at its insertion position keeps the queue ordered. */
  lemma InsertAtSorted(q: seq<TimeEvent>, te: TimeEvent)
    requires Sorted(q)
    ensures Sorted(InsertAt(q, InsertPos(q, te.next), te))
  {
    var p := InsertPos(q, te.next);
    var r := InsertAt(q, p, te);
    forall i, j | 0 <= i < j < |r| ensures r[i].next <= r[j].next {
      if i == p {
        assert q[p].next > te.next && q[p].next <= q[j - 1].next;
      } else if j != p && i > p {
        assert q[i - 1].next <= q[j - 1].next;
      } else if j > p && i < p {
        assert q[i].next <= q[j - 1].next;
      }
    }
  }

  /** Placing an entry for an id not yet queued keeps the ids distinct. */
  lemma InsertAtDistinct(q: seq<TimeEvent>, p: nat, te: TimeEvent)
    requires p <= |q| && DistinctRefs(q) && te.ref !in Refs(q)
    ensures DistinctRefs(InsertAt(q, p, te))
  {
    var r := InsertAt(q, p, te);
    forall i, j | 0 <= i < j < |r| ensures r[i].ref != r[j].ref {
      if i == p {
        assert q[j - 1] in q;
      } else if j == p {
        assert q[i] in q;
      } else {
        var i' := if i < p then i else i - 1;
        var j' := if j < p then j else j - 1;
        assert r[i] == q[i'] && r[j] == q[j'];
      }
    }
  }

  /** Placing an entry adds exactly that entry. */
  lemma InsertAtContents(q: seq<TimeEvent>, p: nat, te: TimeEvent)
    requires p <= |q|
    ensures multiset(InsertAt(q, p, te)) == multiset(q) + multiset{te}
    ensures forall e :: e in InsertAt(q, p, te) <==> e in q || e == te
  {
    assert q == q[..p] + q[p..];
    assert multiset(q) == multiset(q[..p]) + multiset(q[p..]);
  }

  /** Placing an entry at its insertion position keeps order, and distinct ids when the id is new. */
  lemma InsertKeeps(q: seq<TimeEvent>, te: TimeEvent)
    ensures Sorted(q) ==> Sorted(InsertAt(q, InsertPos(q, te.next), te))
    ensures DistinctRefs(q) && te.ref !in Refs(q) ==> DistinctRefs(InsertAt(q, InsertPos(q, te.next), te))
  {
    if Sorted(q) {
      InsertAtSorted(q, te);
    }
    if DistinctRefs(q) && te.ref !in Refs(q) {
      InsertAtDistinct(q, InsertPos(q, te.next), te);
    }
  }

  /** `multiset::insert`: the entry goes after every entry due no later than it. */
  function Insert(q: seq<TimeEvent>, te: TimeEvent): (r: seq<TimeEvent>)
    ensures |r| == |q| + 1
    ensures multiset(r) == multiset(q) + multiset{te}
    ensures forall e :: e in r <==> e in q || e == te
    ensures Sorted(q) ==> Sorted(r)
    ensures DistinctRefs(q) && te.ref !in Refs(q) ==> DistinctRefs(r)
  {
    var p := InsertPos(q, te.next);
    InsertAtContents(q, p, te);
    InsertKeeps(q, te);
    InsertAt(q, p, te)
  }

  /** A new event appended at the end, with its entry queued, keeps the invariant. */
  lemma AppendKeepsInv(t: Timer, when: int, period: int)
    requires Inv(t)
    ensures var id := |t.events|;
      Inv(Timer(t.events + [Event(id, when, period, true, true)], Insert(t.queue, TimeEvent(when, id)), t.free))
  {
    var id := |t.events|;
    assert id !in Refs(t.queue);
  }

  /** The top free id reused for a new event, with its entry queued, keeps the invariant. */
  lemma ReuseKeepsInv(t: Timer, when: int, period: int)
    requires Inv(t) && t.free != []
    ensures t.free[|t.free| - 1] < |t.events|
    ensures var n := |t.free| - 1; var id := t.free[n];
      Inv(Timer(t.events[id := Event(id, when, period, true, true)], Insert(t.queue, TimeEvent(when, id)), t.free[..n]))
  {
    var n := |t.free| - 1;
    var id := t.free[n];
    assert id in t.free;
    QueuedNeverFree(t, id);
    var r := Timer(t.events[id := Event(id, when, period, true, true)], Insert(t.queue, TimeEvent(when, id)), t.free[..n]);
    assert forall i :: 0 <= i < |r.events| ==> r.events[i].id == i;
    assert forall e :: e in r.queue ==> e.ref < |r.events| && r.events[e.ref].valid;
    forall k | 0 <= k < n ensures r.free[k] != id && r.free[k] in t.free {
      assert t.free[k] != t.free[n];
    }
    assert forall x :: x in r.free ==> x < |r.events| && !r.events[x].valid;
    assert Distinct(r.free);
  }

  /** The branch of `add_impl` with no free id: append an event with id `events.size()`. */
  function AddFresh(t: Timer, when: int, period: int): (r: (Timer, nat))
    requires Inv(t)
    ensures Inv(r.0)
    ensures r.1 == |t.events| && r.0.free == t.free && r.0.events == t.events + [Event(r.1, when, period, true, true)]
    ensures multiset(r.0.queue) == multiset(t.queue) + multiset{TimeEvent(when, r.1)}
    ensures forall e :: e in r.0.queue <==> e in t.queue || e == TimeEvent(when, r.1)
  {
    var id := |t.events|;
    AppendKeepsInv(t, when, period);
    (Timer(t.events + [Event(id, when, period, true, true)], Insert(t.queue, TimeEvent(when, id)), t.free), id)
  }

  /** The branch of `add_impl` with a free id: pop it and overwrite its event. */
  function AddReused(t: Timer, when: int, period: int): (r: (Timer, nat))
    requires Inv(t) && t.free != []
    ensures Inv(r.0)
    ensures r.1 == t.free[|t.free| - 1] && r.0.free == t.free[..|t.free| - 1]
    ensures r.1 < |t.events| && r.0.events == t.events[r.1 := Event(r.1, when, period, true, true)]
    ensures multiset(r.0.queue) == multiset(t.queue) + multiset{TimeEvent(when, r.1)}
    ensures forall e :: e in r.0.queue <==> e in t.queue || e == TimeEvent(when, r.1)
  {
    var n := |t.free| - 1;
    var id := t.free[n];
    ReuseKeepsInv(t, when, period);
    (Timer(t.events[id := Event(id, when, period, true, true)], Insert(t.queue, TimeEvent(when, id)), t.free[..n]), id)
  }

  /**
   * `add_impl`: reuse the id on top of the free stack if there is one,
   * else append a new event with id `events.size()`; then queue (when, id).
   */
  function Add(t: Timer, when: int, period: int): (r: (Timer, nat))
    requires Inv(t)
    ensures Inv(r.0)
    ensures t.free != [] ==> r.1 == t.free[|t.free| - 1] && r.0.free == t.free[..|t.free| - 1] && |r.0.events| == |t.events|
    ensures t.free == [] ==> r.1 == |t.events| && r.0.free == [] && |r.0.events| == |t.events| + 1
    ensures r.1 < |r.0.events| && r.0.events[r.1] == Event(r.1, when, period, true, true)
    ensures forall i :: 0 <= i < |t.events| && i != r.1 ==> r.0.events[i] == t.events[i]
    ensures multiset(r.0.queue) == multiset(t.queue) + multiset{TimeEvent(when, r.1)}
    ensures forall e :: e in r.0.queue <==> e in t.queue || e == TimeEvent(when, r.1)
  {
    if t.free == [] then AddFresh(t, when, period) else AddReused(t, when, period)
  }

  /** The first queue position referring to `id`, or the queue's length when there is none. */
  function FindRef(q: seq<TimeEvent>, id: nat): (k: nat)
    ensures k <= |q|
    ensures k < |q| ==> q[k].ref == id
    ensures forall j :: 0 <= j < k ==> q[j].ref != id
    ensures k == |q| <==> id !in Refs(q)
  {
    if q == [] then 0
    else if q[0].ref == id then 0
    else FindRef(q[1..], id) + 1
  }

  /** The queue without the entry at `k`. */
  function EraseAt(q: seq<TimeEvent>, k: nat): (r: seq<TimeEvent>)
    requires k < |q|
    ensures |r| == |q| - 1
    ensures forall j :: 0 <= j < k ==> r[j] == q[j]
    ensures forall j :: k <= j < |r| ==> r[j] == q[j + 1]
    ensures Sorted(q) ==> Sorted(r)
    ensures DistinctRefs(q) ==> DistinctRefs(r) && q[k].ref !in Refs(r)
    ensures forall e :: e in r ==> e in q
  {
    var r := q[..k] + q[k + 1..];
    assert forall j :: 0 <= j < |r| ==> r[j] == q[if j < k then j else j + 1];
    r
  }

  /**
   * `remove(id)`: false, changing nothing, when there are no events or the
   * id is out of range. Otherwise the event is invalidated and loses its
   * handler, and if an entry for it is queued, that entry is dropped and the
   * id freed; the answer is true.
   */
  function Remove(t: Timer, id: nat): (r: (Timer, bool))
    requires Inv(t)
    ensures Inv(r.0)
    ensures !r.1 <==> |t.events| == 0 || |t.events| <= id
    ensures !r.1 ==> r.0 == t
    ensures r.1 ==> |r.0.events| == |t.events| && !r.0.events[id].valid && !r.0.events[id].hasHandler
    ensures r.1 ==> forall i :: 0 <= i < |t.events| && i != id ==> r.0.events[i] == t.events[i]
    ensures r.1 ==> id !in Refs(r.0.queue)
    ensures r.1 && id in Refs(t.queue) ==> r.0.free == t.free + [id] && |r.0.queue| == |t.queue| - 1
    ensures r.1 && id !in Refs(t.queue) ==> r.0.free == t.free && r.0.queue == t.queue
    ensures forall e :: e in r.0.queue ==> e in t.queue
  {
    if |t.events| == 0 || |t.events| <= id then (t, false)
    else
      var ev := t.events[id];
      var events := t.events[id := Event(ev.id, ev.start, ev.period, false, false)];
      var k := FindRef(t.queue, id);
      if k < |t.queue| then
        QueuedNeverFree(t, id);
        var r := Timer(events, EraseAt(t.queue, k), t.free + [id]);
        (r, true)
      else
        (Timer(events, t.queue, t.free), true)
  }

  /** `id` is being handled: its entry was taken from the queue and it is not yet freed. */
  predicate InFlight(t: Timer, id: nat)
  {
    Inv(t) && id < |t.events| && id !in Refs(t.queue) && id !in t.free
  }

  /** The earliest queued entry is due at `now`. */
  predicate Due(t: Timer, now: int)
  {
    t.queue != [] && now >= t.queue[0].next
  }

  /** The first half of a firing: take the earliest entry off the queue, its event now in flight. */
  function Take(t: Timer, now: int): (r: (Timer, TimeEvent))
    requires Inv(t) && Due(t, now)
    ensures r.1 == t.queue[0] && r.0.queue == t.queue[1..]
    ensures r.1.next <= now && forall e :: e in t.queue ==> r.1.next <= e.next
    ensures r.0.events == t.events && r.0.free == t.free
    ensures InFlight(r.0, r.1.ref)
  {
    var te := t.queue[0];
    QueuedNeverFree(t, te.ref);
    var r := Timer(t.events, EraseAt(t.queue, 0), t.free);
    assert r.queue == t.queue[1..];
    (r, te)
  }

  /** `Add` called by a handler leaves the event being handled in flight. */
  lemma AddKeepsInFlight(t: Timer, when: int, period: int, id: nat)
    requires InFlight(t, id)
    ensures InFlight(Add(t, when, period).0, id)
  {
    var r := Add(t, when, period);
    assert r.1 != id;
    if t.free != [] {
      assert forall x :: x in r.0.free ==> x in t.free;
    }
  }

  /** `Remove` called by a handler, even on its own id, leaves the event being handled in flight. */
  lemma RemoveKeepsInFlight(t: Timer, other: nat, id: nat)
    requires InFlight(t, id)
    ensures InFlight(Remove(t, other).0, id)
  {
  }

  /** Queuing the handled event again keeps the invariant. */
  lemma RequeueKeepsInv(t: Timer, te: TimeEvent)
    requires InFlight(t, te.ref) && t.events[te.ref].valid
    ensures Inv(Timer(t.events, Insert(t.queue, TimeEvent(te.next + t.events[te.ref].period, te.ref)), t.free))
  {
  }

  /** Invalidating and freeing the handled event keeps the invariant. */
  lemma ReleaseKeepsInv(t: Timer, te: TimeEvent)
    requires InFlight(t, te.ref)
    ensures var ev := t.events[te.ref];
      Inv(Timer(t.events[te.ref := Event(ev.id, ev.start, ev.period, false, false)], t.queue, t.free + [te.ref]))
  {
  }

  /**
   * The second half of a firing: a still valid event with a positive period
   * is queued again one period after the time it was due; otherwise it is
   * invalidated, loses its handler and its id is freed.
   */
  function Finish(t: Timer, te: TimeEvent): (r: Timer)
    requires InFlight(t, te.ref)
    ensures Inv(r)
    ensures t.events[te.ref].valid && t.events[te.ref].period > 0 ==>
      r.events == t.events && r.free == t.free && multiset(r.queue) == multiset(t.queue) + multiset{TimeEvent(te.next + t.events[te.ref].period, te.ref)}
    ensures !(t.events[te.ref].valid && t.events[te.ref].period > 0) ==>
      r.queue == t.queue && r.free == t.free + [te.ref] && |r.events| == |t.events| && !r.events[te.ref].valid && !r.events[te.ref].hasHandler
  {
    var ev := t.events[te.ref];
    if ev.valid && ev.period > 0 then
      RequeueKeepsInv(t, te);
      Timer(t.events, Insert(t.queue, TimeEvent(te.next + ev.period, te.ref)), t.free)
    else
      ReleaseKeepsInv(t, te);
      Timer(t.events[te.ref := Event(ev.id, ev.start, ev.period, false, false)], t.queue, t.free + [te.ref])
  }

  /** The id of a fired one-shot timer is the one the next `Add` hands out. */
  lemma FiredOneShotIdReused(t: Timer, now: int, when: int, period: int)
    requires Inv(t) && Due(t, now)
    requires t.events[t.queue[0].ref].period <= 0
    ensures var taken := Take(t, now);
      Add(Finish(taken.0, taken.1), when, period).1 == t.queue[0].ref
  {
  }

  /** `run_at(when, h)`: a one-shot timer due at `when`. */
  function RunAt(t: Timer, when: int): (r: (Timer, nat))
    requires Inv(t)
    ensures Inv(r.0) && r.1 < |r.0.events| && r.0.events[r.1] == Event(r.1, when, 0, true, true)
  {
    Add(t, when, 0)
  }

  /** `run_after(d, h)` with a duration in microseconds: due `d` after `now`. */
  function RunAfter(t: Timer, now: int, d: int): (r: (Timer, nat))
    requires Inv(t)
    ensures Inv(r.0) && r.1 < |r.0.events| && r.0.events[r.1] == Event(r.1, now + d, 0, true, true)
  {
    Add(t, now + d, 0)
  }

  /** `run_every(first, h, d)` with durations: first due `first` after `now`, then every `d`. */
  function RunEvery(t: Timer, now: int, first: int, d: int): (r: (Timer, nat))
    requires Inv(t)
    ensures Inv(r.0) && r.1 < |r.0.events| && r.0.events[r.1] == Event(r.1, now + first, d, true, true)
  {
    Add(t, now + first, d)
  }

  /**
   * The `uint64_t` overload of `run_after`: its argument, named in
   * milliseconds, is taken as microseconds.
   */
  function RunAfterMs(t: Timer, now: int, whenMs: nat): (r: (Timer, nat))
    requires Inv(t)
    ensures Inv(r.0) && r.1 < |r.0.events| && r.0.events[r.1].start == now + whenMs
    ensures r == RunAfter(t, now, whenMs)
  {
    RunAfter(t, now, whenMs)
  }

  /** The `uint64_t` overload of `run_every`: both arguments are taken as microseconds. */
  function RunEveryMs(t: Timer, now: int, whenMs: nat, periodMs: nat): (r: (Timer, nat))
    requires Inv(t)
    ensures Inv(r.0) && r.1 < |r.0.events| && r.0.events[r.1].start == now + whenMs && r.0.events[r.1].period == periodMs
    ensures r == RunEvery(t, now, whenMs, periodMs)
  {
    RunEvery(t, now, whenMs, periodMs)
  }

  /**
   * The library's test of id reuse: timers A (due at 40) and B (due at 10)
   * are added; B fires and removes itself in its handler; the next two adds
   * get B's id back and then a fresh id.
   */
  lemma IdReuseExample()
    ensures var t0 := New();
      var (t1, a) := RunAt(t0, 40);
      var (t2, b) := RunAt(t1, 10);
      var (t3, te) := Take(t2, 30);
      var (t4, _) := Remove(t3, te.ref);
      var t5 := Finish(t4, te);
      var (t6, c) := RunAt(t5, 31);
      var (t7, d) := RunAt(t6, 31);
      te.ref == b && c == b && d != a && d != b
  {
    var t0 := New();
    var (t1, a) := RunAt(t0, 40);
    var (t2, b) := RunAt(t1, 10);
    assert a == 0 && b == 1;
    assert t2.queue == [TimeEvent(10, 1), TimeEvent(40, 0)];
    var (t3, te) := Take(t2, 30);
    RemoveKeepsInFlight(t3, te.ref, te.ref);
    var (t4, _) := Remove(t3, te.ref);
    var t5 := Finish(t4, te);
    assert t5.free == [1];
  }
}
