/**
  The accounting on the real scheduler: what a timer tick does to the thread
  that ran, and the weighted lag over whole runs of the scheduler.
 */
module FairScheduler {
  import opened Options
  import opened Sequences
  import opened SchedView
  import opened SchedPick
  import opened Accounting
  import opened Scheduler
  import F = Fairness

  /** Thread `t` after one millisecond on the processor, in 64-bit words. */
  predicate Ticked(t: Thread, t': Thread)
    requires t.weight >= 1
  {
    && t'.realRuntime == (t.realRuntime + 1_000_000) % 0x1_0000_0000_0000_0000
    && t'.vruntime == t'.realRuntime * 0x10_0000 % 0x1_0000_0000_0000_0000 / t.weight
    && t'.deadline ==
         (t'.vruntime + t.timeSlice * 0x10_0000 % 0x1_0000_0000_0000_0000 / t.weight) % 0x1_0000_0000_0000_0000
    && t'.burstScore == (t.burstScore + 1_000_000) / 2
    && t'.tid == t.tid && t'.state == t.state && t'.weight == t.weight && t'.timeSlice == t.timeSlice
    && t'.rbNode == t.rbNode
  }

  lemma ChargeTicks(t: Thread, clock: nat)
    requires Accounted(t)
    ensures Ticked(t, Charge(t, clock))
  {
    ChargeAccounted(t, clock);
  }

  /** Every thread but `id` and the reaped ones is as it was. */
  ghost predicate OthersKept(v: View, v': View, id: nat) {
    && (forall d :: d in v'.threads <==> d in v.threads && d !in v.graveyard)
    && (forall d :: d in v'.threads && d != id ==> v'.threads[d] == v.threads[d])
    && v'.queues == v.queues && v'.idle == v.idle
  }

  lemma ClockTicks(clock: nat, total: nat)
    ensures NextClock(clock, total) ==
      if total > 0 then (clock + 1_000_000 * 0x10_0000 / total) % 0x1_0000_0000_0000_0000 else clock
  {
  }

  /** The node of a ready thread is back in the tree with new keys, any other stays out of it. */
  ghost predicate Requeued(v: View, v': View, id: nat, t: Thread) {
    if t.state == Ready && v.idle != Some(id) then
      && v'.ready == v.ready + {t.rbNode} && t.rbNode in v.nodes
      && v'.nodes == v.nodes[t.rbNode := NodeKey(id, t.vruntime, t.deadline, v.nodes[t.rbNode].minDeadline)]
    else v'.ready == v.ready && v'.nodes == v.nodes
  }

  lemma RunningIsLive(v: View, id: nat)
    requires Inv(v) && v.current == Some(id)
    ensures id in v.threads && id !in v.graveyard
    ensures v.threads[id].state == Ready && v.idle != Some(id) ==> v.threads[id].rbNode in v.nodes
  {
    assert v.threads[id].state == Ready && v.idle != Some(id) ==> OwnsNode(v, id);
  }

  lemma StoppedShape(v: View, clock: nat, total: nat, stopped: View, clock': nat, id: nat)
    requires v.current == Some(id) && id in v.threads && id !in v.graveyard && StoppedFrom(v, clock, total, stopped, clock')
    requires v.threads[id].state == Ready && v.idle != Some(id) ==> v.threads[id].rbNode in v.nodes
    ensures id in stopped.threads && OthersKept(v, stopped, id) && stopped.current == None
    ensures if v.threads[id].state == Zombie then
        && stopped.threads[id] == v.threads[id].(rbNode := 0) && stopped.graveyard == [id] && clock' == clock
        && stopped.ready == v.ready
      else
        && stopped.threads[id] == Charge(v.threads[id], clock') && stopped.graveyard == []
        && clock' == NextClock(clock, total)
        && (Reaccounted(v.threads[id], Charge(v.threads[id], clock')) ==> Requeued(v, stopped, id, stopped.threads[id]))
  {
    assert id in ReapAll(v).threads && ReapAll(v).threads[id] == v.threads[id];
  }

  /** The thread that ran is charged one tick and, if it is ready, is back in
      the tree under its new virtual runtime; the system clock advances by its
      share; all other threads are untouched.  A dead thread is buried instead. */
  lemma PreemptedIsCharged(v: View, clock: nat, total: nat, stopped: View, clock': nat, id: nat)
    requires Inv(v) && AllAccounted(v.threads) && v.current == Some(id) && StoppedFrom(v, clock, total, stopped, clock')
    ensures id in v.threads && id in stopped.threads && OthersKept(v, stopped, id) && stopped.current == None
    ensures if v.threads[id].state == Zombie then
        && stopped.threads[id] == v.threads[id].(rbNode := 0) && stopped.graveyard == [id] && clock' == clock
        && stopped.ready == v.ready
      else
        && v.threads[id].weight >= 1 && Ticked(v.threads[id], stopped.threads[id]) && stopped.graveyard == []
        && clock' == (if total > 0 then (clock + 1_000_000 * 0x10_0000 / total) % 0x1_0000_0000_0000_0000 else clock)
        && Requeued(v, stopped, id, stopped.threads[id])
  {
    RunningIsLive(v, id);
    StoppedShape(v, clock, total, stopped, clock', id);
    if v.threads[id].state != Zombie {
      ChargeAccounted(v.threads[id], clock');
      ChargeTicks(v.threads[id], clock');
      ClockTicks(clock, total);
    }
  }

  // ----- a fixed set of threads on the scheduler -----

  ghost predicate AllIn(v: View, ids: seq<nat>) {
    forall i :: 0 <= i < |ids| ==> ids[i] in v.threads
  }

  /** The threads `ids`, in this order. */
  ghost function Listed(v: View, ids: seq<nat>): seq<Thread>
    requires AllIn(v, ids)
  {
    seq(|ids|, i requires 0 <= i < |ids| => v.threads[ids[i]])
  }

  /** One critical section, as far as the threads `ids` are concerned: a tick
      of one of them, a wake-up of one of them, or none of their business. */
  ghost predicate Section(ids: seq<nat>, total: nat, v: View, clock: nat, v': View, clock': nat, e: Option<F.Event>)
    requires AllIn(v, ids) && AllIn(v', ids)
  {
    match e
    case None => Listed(v', ids) == Listed(v, ids) && clock' == clock
    case Some(Tick(i)) =>
      && i < |ids| && v.current == Some(ids[i]) && v.threads[ids[i]].state != Zombie
      && exists stopped, q :: Switched(v, clock, total, stopped, q, v', clock')
    case Some(Woken(i)) =>
      i < |ids| && clock' == clock && exists q :: Head(v, q) == Some(ids[i]) && v' == HeadWoken(v, q, clock)
  }

  lemma NextThreads(q: RunQueue, v: View, v': View, clock: nat)
    requires Next(q, v, v', clock)
    ensures v'.threads == v.threads
  {
  }

  lemma ListedUpdate(v: View, v': View, ids: seq<nat>, i: nat)
    requires AllIn(v, ids) && AllIn(v', ids) && NoDup(ids) && i < |ids|
    requires forall d :: d in v'.threads && d in v.threads && d != ids[i] ==> v'.threads[d] == v.threads[d]
    ensures Listed(v', ids) == Listed(v, ids)[i := v'.threads[ids[i]]]
  {
  }

  lemma SectionTick(ids: seq<nat>, total: nat, v: View, clock: nat, v': View, clock': nat, i: nat)
    requires AllIn(v, ids) && AllIn(v', ids) && NoDup(ids) && Inv(v)
    requires Section(ids, total, v, clock, v', clock', Some(F.Tick(i)))
    ensures F.State(Listed(v', ids), clock') == F.Apply(F.State(Listed(v, ids), clock), total, F.Tick(i))
  {
    var stopped, q :| Switched(v, clock, total, stopped, q, v', clock');
    RunningIsLive(v, ids[i]);
    StoppedShape(v, clock, total, stopped, clock', ids[i]);
    NextThreads(q, stopped, v', clock');
    ListedUpdate(v, v', ids, i);
  }

  lemma SectionWoken(ids: seq<nat>, total: nat, v: View, clock: nat, v': View, clock': nat, i: nat)
    requires AllIn(v, ids) && AllIn(v', ids) && NoDup(ids)
    requires Section(ids, total, v, clock, v', clock', Some(F.Woken(i)))
    ensures F.State(Listed(v', ids), clock') == F.Apply(F.State(Listed(v, ids), clock), total, F.Woken(i))
  {
    var q :| Head(v, q) == Some(ids[i]) && v' == HeadWoken(v, q, clock);
    ListedUpdate(v, v', ids, i);
  }

  function Events(es: seq<Option<F.Event>>): seq<F.Event> {
    if es == [] then []
    else
      var e := es[|es| - 1];
      Events(es[..|es| - 1]) + if e.Some? then [e.value] else []
  }

  /** A run of the scheduler in which the threads `ids` stay alive. */
  ghost predicate Run(ids: seq<nat>, total: nat, views: seq<View>, clocks: seq<nat>, es: seq<Option<F.Event>>) {
    && |views| == |clocks| == |es| + 1
    && (forall k :: 0 <= k < |views| ==> Good(views[k], ids) && AllIn(views[k], ids))
    && (forall k :: 0 <= k < |es| ==> SectionAt(ids, total, views, clocks, es, k))
  }

  ghost predicate Good(v: View, ids: seq<nat>) {
    Inv(v) && AllAccounted(v.threads) && AllIn(v, ids)
  }

  ghost predicate SectionAt(ids: seq<nat>, total: nat, views: seq<View>, clocks: seq<nat>, es: seq<Option<F.Event>>, k: nat)
    requires |views| == |clocks| == |es| + 1 && k < |es|
  {
    && AllIn(views[k], ids) && AllIn(views[k + 1], ids)
    && Section(ids, total, views[k], clocks[k], views[k + 1], clocks[k + 1], es[k])
  }

  /** What happens to the listed threads and the clock. */
  ghost predicate Follows(s: F.State, total: nat, e: Option<F.Event>, s': F.State) {
    if e.None? then s' == s else e.value.i < |s.threads| && s' == F.Apply(s, total, e.value)
  }

  lemma SectionFollows(ids: seq<nat>, total: nat, v: View, clock: nat, v': View, clock': nat, e: Option<F.Event>)
    requires Good(v, ids) && AllIn(v', ids) && NoDup(ids) && Section(ids, total, v, clock, v', clock', e)
    ensures Follows(F.State(Listed(v, ids), clock), total, e, F.State(Listed(v', ids), clock'))
  {
    match e {
      case None =>
      case Some(Tick(i)) => SectionTick(ids, total, v, clock, v', clock', i);
      case Some(Woken(i)) => SectionWoken(ids, total, v, clock, v', clock', i);
    }
  }

  ghost predicate FollowsAt(states: seq<F.State>, total: nat, es: seq<Option<F.Event>>, k: nat)
    requires |states| == |es| + 1 && k < |es|
  {
    Follows(states[k], total, es[k], states[k + 1])
  }

  lemma {:induction false} StatesRun(states: seq<F.State>, total: nat, es: seq<Option<F.Event>>, k: nat)
    requires |states| == |es| + 1 && k <= |es| && forall j :: 0 <= j < |es| ==> FollowsAt(states, total, es, j)
    ensures F.Within(Events(es[..k]), |states[0].threads|)
    ensures states[k] == F.Run(states[0], total, Events(es[..k]))
  {
    if k > 0 {
      StatesRun(states, total, es, k - 1);
      assert FollowsAt(states, total, es, k - 1);
      EventsNext(es, k);
    }
  }

  lemma EventsNext(es: seq<Option<F.Event>>, k: nat)
    requires 0 < k <= |es|
    ensures var (before, after) := (Events(es[..k - 1]), Events(es[..k]));
      if es[k - 1].None? then after == before
      else after != [] && after[..|after| - 1] == before && after[|after| - 1] == es[k - 1].value
  {
    assert es[..k][..k - 1] == es[..k - 1];
  }

  /** The listed threads and the clock at every moment of a run. */
  ghost function Moments(ids: seq<nat>, views: seq<View>, clocks: seq<nat>): (s: seq<F.State>)
    requires |clocks| == |views| && forall k :: 0 <= k < |views| ==> AllIn(views[k], ids)
    ensures |s| == |views| && forall k :: 0 <= k < |s| ==> s[k] == F.State(Listed(views[k], ids), clocks[k])
  {
    if views == [] then []
    else
      var n := |views| - 1;
      Moments(ids, views[..n], clocks[..n]) + [F.State(Listed(views[n], ids), clocks[n])]
  }

  lemma RunIsFair(ids: seq<nat>, total: nat, views: seq<View>, clocks: seq<nat>, es: seq<Option<F.Event>>)
    requires Run(ids, total, views, clocks, es) && NoDup(ids)
    ensures var s := Moments(ids, views, clocks);
      F.Within(Events(es), |s[0].threads|) && s[|es|] == F.Run(s[0], total, Events(es))
  {
    var states := Moments(ids, views, clocks);
    forall k | 0 <= k < |es| ensures FollowsAt(states, total, es, k) {
      assert SectionAt(ids, total, views, clocks, es, k) && Good(views[k], ids);
      SectionFollows(ids, total, views[k], clocks[k], views[k + 1], clocks[k + 1], es[k]);
    }
    StatesRun(states, total, es, |es|);
    assert es[..|es|] == es;
  }

  /** In every run of the scheduler from zero that keeps the threads `ids`
      alive and charges the clock with their total weight, their weighted lag
      is a whole number of words give or take rounding. */
  lemma SchedulerLag(ids: seq<nat>, total: nat, views: seq<View>, clocks: seq<nat>, es: seq<Option<F.Event>>)
    requires Run(ids, total, views, clocks, es) && NoDup(ids) && ids != [] && clocks[0] == 0
    requires total == F.Weight(Moments(ids, views, clocks)[0].threads)
    requires forall i :: 0 <= i < |ids| ==> ids[i] in views[0].threads && views[0].threads[ids[i]].realRuntime == 0
    ensures var (last, events) := (Moments(ids, views, clocks)[|es|], Events(es));
      F.Within(events, |ids|) && total >= 1 && LagIs(last, total, |ids|, events)
  {
    var s := Moments(ids, views, clocks);
    RunIsFair(ids, total, views, clocks, es);
    ZeroStart(views[0], ids);
    LagFromZero(s[0], s[|es|], total, Events(es));
  }

  lemma LagFromZero(s: F.State, last: F.State, total: nat, events: seq<F.Event>)
    requires F.Within(events, |s.threads|) && s.threads != [] && s.clock == 0 && total == F.Weight(s.threads)
    requires forall i :: 0 <= i < |s.threads| ==> Accounted(s.threads[i]) && s.threads[i].realRuntime == 0
    requires last == F.Run(s, total, events)
    ensures total >= 1 && LagIs(last, total, |s.threads|, events)
  {
    F.WeightedLagExact(s, events);
  }

  ghost predicate LagIs(s: F.State, total: nat, n: nat, events: seq<F.Event>)
    requires total >= 1 && F.Within(events, n)
  {
    var k := F.Ticks(events);
    var words := F.Wraps(F.Counts(events, n)) - total * (k * F.Share(total) / WORD);
    -(k * (total - 1)) <= F.WeightedLag(s.threads, s.clock) - words * WORD <= total - n
  }

  lemma ZeroStart(v: View, ids: seq<nat>)
    requires Good(v, ids) && forall i :: 0 <= i < |ids| ==> v.threads[ids[i]].realRuntime == 0
    ensures forall i :: 0 <= i < |ids| ==> Accounted(Listed(v, ids)[i]) && Listed(v, ids)[i].realRuntime == 0
  {
  }
}
