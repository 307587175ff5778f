/**
  What the accounting adds up to over a whole run: when virtual runtimes are
  monotone, and what the weighted lag of a fixed set of threads is.
 */
module Fairness {
  import opened Powers
  import opened SchedView
  import opened Accounting

  /** Real runtimes below this fit a 64-bit word after the shift. */
  const SPAN: nat := 0x1000_0000_0000

  lemma ShiftMod(x: nat)
    ensures Shift20(x) == x % SPAN * MEBI
  {
    var q, r := x / SPAN, x % SPAN;
    assert x == q * SPAN + r && SPAN * MEBI == WORD;
    assert x * MEBI == q * WORD + r * MEBI;
    ModUnique(x * MEBI, q, r * MEBI);
  }

  lemma ModUnique(x: nat, q: nat, r: nat)
    requires x == q * WORD + r && r < WORD
    ensures x % WORD == r
  {
  }

  lemma DivMonotone(x: nat, y: nat, w: nat)
    requires x <= y && w >= 1
    ensures x / w <= y / w
  {
    if x / w > y / w {
      assert x == x / w * w + x % w && y == y / w * w + y % w;
      assert x / w * w >= (y / w + 1) * w by {
        ScaleMonotone(y / w + 1, x / w, w);
      }
    }
  }

  lemma DivGap(x: nat, y: nat, w: nat)
    requires x + w <= y && w >= 1
    ensures x / w < y / w
  {
    var a, b := x / w, y / w;
    assert x == a * w + x % w && y == b * w + y % w;
    assert (b - a) * w > 0;
  }

  /** One tick on the shifted real runtime. */
  lemma ShiftTick(runtime: nat)
    ensures var x, y := Shift20(runtime), Shift20(runtime + TICK);
      if runtime % SPAN + TICK < SPAN then x <= y else y + WORD / 2 <= x
  {
    ShiftMod(runtime);
    ShiftMod(runtime + TICK);
  }

  lemma ShiftExact(runtime: nat)
    requires runtime < SPAN
    ensures Shift20(runtime) == runtime * MEBI
  {
    ShiftMod(runtime);
  }

  /** Dropping the bits above a word does not change the shifted value. */
  lemma ShiftWrapped(x: nat)
    ensures Shift20(Wrap(x)) == Shift20(x) == x % SPAN * MEBI
  {
    ShiftMod(x);
    ShiftMod(Wrap(x));
    ModMod(x);
  }

  lemma ModMod(x: nat)
    ensures x % WORD % SPAN == x % SPAN
  {
    var q := x / WORD;
    assert x == q * WORD + x % WORD && q * WORD == q * MEBI * SPAN;
    ModSum(q * MEBI, x % WORD);
  }

  lemma ModSum(q: nat, r: nat)
    ensures (q * SPAN + r) % SPAN == r % SPAN
  {
    var n := q * SPAN + r;
    assert n - r % SPAN == (q + r / SPAN) * SPAN;
  }

  /** Quotients of words that are in order, or half the range apart. */
  lemma QuotientOrder(x: nat, y: nat, w: nat)
    requires x < WORD && w >= 1 && (x <= y || y + WORD / 2 <= x)
    ensures x / w <= y / w <==> x <= y || x < w
  {
    if x <= y {
      DivMonotone(x, y, w);
    } else if x < w {
      SmallQuotient(x, w);
    } else if w <= WORD / 2 {
      DivGap(y, x, w);
    } else {
      SmallQuotient(y, w);
      DivMonotone(w, x, w);
    }
  }

  lemma SmallQuotient(x: nat, w: nat)
    requires x < w
    ensures x / w == 0
  {
  }

  /** A tick takes a thread back in virtual time exactly when the shifted real
      runtime wraps and had reached the thread's weight. */
  lemma VruntimeMonotone(t: Thread, clock: nat)
    requires Accounted(t)
    ensures t.vruntime <= Charge(t, clock).vruntime <==>
      t.realRuntime % SPAN + TICK < SPAN || Shift20(t.realRuntime) < t.weight
    ensures t.realRuntime + TICK < SPAN ==> Charge(t, clock).vruntime == (t.realRuntime + TICK) * MEBI / t.weight
  {
    ChargeAccounted(t, clock);
    ShiftTick(t.realRuntime);
    ShiftWrapped(t.realRuntime + TICK);
    QuotientOrder(Shift20(t.realRuntime), Shift20(t.realRuntime + TICK), t.weight);
    if t.realRuntime + TICK < SPAN {
      ShiftExact(t.realRuntime + TICK);
    }
  }

  // ----- a fixed set of threads -----

  /** A charged tick of one thread, or its wake-up. */
  datatype Event = Tick(i: nat) | Woken(i: nat)

  datatype State = State(threads: seq<Thread>, clock: nat)

  function Apply(s: State, total: nat, e: Event): State
    requires e.i < |s.threads|
  {
    match e
    case Tick(i) =>
      var clock := NextClock(s.clock, total);
      State(s.threads[i := Charge(s.threads[i], clock)], clock)
    case Woken(i) => s.(threads := s.threads[i := Wake(s.threads[i], s.clock)])
  }

  predicate Within(events: seq<Event>, n: nat) {
    forall k :: 0 <= k < |events| ==> events[k].i < n
  }

  /** Any order of ticks and wake-ups. */
  function Run(s: State, total: nat, events: seq<Event>): (r: State)
    requires Within(events, |s.threads|)
    ensures |r.threads| == |s.threads|
  {
    if events == [] then s
    else Apply(Run(s, total, events[..|events| - 1]), total, events[|events| - 1])
  }

  function Ticks(events: seq<Event>): nat {
    if events == [] then 0
    else Ticks(events[..|events| - 1]) + if events[|events| - 1].Tick? then 1 else 0
  }

  function Weight(ts: seq<Thread>): nat {
    if ts == [] then 0 else ts[0].weight + Weight(ts[1..])
  }

  /** How often each of `n` threads was charged. */
  function Counts(events: seq<Event>, n: nat): (c: seq<nat>)
    requires Within(events, n)
    ensures |c| == n
  {
    if events == [] then seq(n, _ => 0)
    else
      var c, e := Counts(events[..|events| - 1], n), events[|events| - 1];
      if e.Tick? then c[e.i := c[e.i] + 1] else c
  }

  function Sum(c: seq<nat>): nat {
    if c == [] then 0 else c[0] + Sum(c[1..])
  }

  /** How often the shifted real runtimes have wrapped, in all. */
  function Wraps(c: seq<nat>): nat {
    if c == [] then 0 else c[0] * TICK / SPAN + Wraps(c[1..])
  }

  /** The weighted sum of (system clock - virtual runtime). */
  function WeightedLag(ts: seq<Thread>, clock: nat): int {
    if ts == [] then 0 else ts[0].weight * (clock - ts[0].vruntime) + WeightedLag(ts[1..], clock)
  }

  /** Every thread has the real runtime of its ticks. */
  ghost predicate Charged(ts: seq<Thread>, c: seq<nat>) {
    && |c| == |ts|
    && forall i :: 0 <= i < |ts| ==> Accounted(ts[i]) && ts[i].realRuntime == Wrap(c[i] * TICK)
  }

  function Share(total: nat): nat
    requires total >= 1
  {
    Shift20(TICK) / total
  }

  /** What a run that started from zero satisfies after `k` ticks, `c` of them on each thread. */
  ghost predicate After(s: State, total: nat, k: nat, c: seq<nat>) {
    && Charged(s.threads, c) && Sum(c) == k
    && total >= 1 && Weight(s.threads) == total
    && s.clock == Wrap(k * Share(total))
  }

  lemma {:induction false} WeightUpdate(ts: seq<Thread>, i: nat, t: Thread)
    requires i < |ts| && t.weight == ts[i].weight
    ensures Weight(ts[i := t]) == Weight(ts)
  {
    if i > 0 {
      assert ts[i := t][1..] == ts[1..][i - 1 := t];
      WeightUpdate(ts[1..], i - 1, t);
    } else {
      assert ts[i := t][1..] == ts[1..];
    }
  }

  lemma {:induction false} SumUpdate(c: seq<nat>, i: nat, x: nat)
    requires i < |c|
    ensures Sum(c[i := x]) == Sum(c) - c[i] + x
  {
    if i > 0 {
      assert c[i := x][1..] == c[1..][i - 1 := x];
      SumUpdate(c[1..], i - 1, x);
    } else {
      assert c[i := x][1..] == c[1..];
    }
  }

  lemma WrapSum(x: nat, y: nat)
    ensures Wrap(Wrap(x) + y) == Wrap(x + y)
  {
  }

  lemma Distribute(k: nat, share: nat)
    ensures (k + 1) * share == k * share + share
  {
  }

  lemma AfterStep(s: State, total: nat, k: nat, c: seq<nat>, e: Event)
    requires e.i < |s.threads| && After(s, total, k, c)
    ensures After(Apply(s, total, e), total, k + if e.Tick? then 1 else 0, if e.Tick? then c[e.i := c[e.i] + 1] else c)
  {
    match e {
      case Tick(i) =>
        TickCharged(s.threads, c, i, NextClock(s.clock, total));
        ClockTick(k, total);
        SumUpdate(c, i, c[i] + 1);
      case Woken(i) =>
        WokenCharged(s.threads, c, i, s.clock);
    }
  }

  lemma TickCharged(ts: seq<Thread>, c: seq<nat>, i: nat, clock: nat)
    requires i < |ts| && Charged(ts, c)
    ensures var ts' := ts[i := Charge(ts[i], clock)]; Charged(ts', c[i := c[i] + 1]) && Weight(ts') == Weight(ts)
  {
    ChargeAccounted(ts[i], clock);
    WeightUpdate(ts, i, Charge(ts[i], clock));
    Distribute(c[i], TICK);
    WrapSum(c[i] * TICK, TICK);
  }

  lemma WokenCharged(ts: seq<Thread>, c: seq<nat>, i: nat, clock: nat)
    requires i < |ts| && Charged(ts, c)
    ensures var ts' := ts[i := Wake(ts[i], clock)]; Charged(ts', c) && Weight(ts') == Weight(ts)
  {
    WakeAccounted(ts[i], clock);
    WeightUpdate(ts, i, Wake(ts[i], clock));
  }

  lemma ClockTick(k: nat, total: nat)
    requires total >= 1
    ensures NextClock(Wrap(k * Share(total)), total) == Wrap((k + 1) * Share(total))
  {
    WrapStep(k, Share(total));
  }

  lemma WrapStep(k: nat, share: nat)
    ensures Wrap(Wrap(k * share) + share) == Wrap((k + 1) * share)
  {
    Distribute(k, share);
    WrapSum(k * share, share);
  }

  lemma {:induction false} RunAfter(s: State, total: nat, events: seq<Event>)
    requires Within(events, |s.threads|) && After(s, total, 0, Counts([], |s.threads|))
    ensures After(Run(s, total, events), total, Ticks(events), Counts(events, |s.threads|))
  {
    if events != [] {
      var init, e := events[..|events| - 1], events[|events| - 1];
      RunAfter(s, total, init);
      AfterStep(Run(s, total, init), total, Ticks(init), Counts(init, |s.threads|), e);
      RunLast(s, total, events);
    }
  }

  lemma RunLast(s: State, total: nat, events: seq<Event>)
    requires Within(events, |s.threads|) && events != []
    ensures var init, e, n := events[..|events| - 1], events[|events| - 1], |s.threads|;
      && Run(s, total, events) == Apply(Run(s, total, init), total, e)
      && Ticks(events) == Ticks(init) + (if e.Tick? then 1 else 0)
      && Counts(events, n) == (if e.Tick? then Counts(init, n)[e.i := Counts(init, n)[e.i] + 1] else Counts(init, n))
  {
  }

  /** One thread: its runtime up to wrapping, and rounding by less than its weight. */
  lemma LagOfOne(t: Thread, n: nat, clock: nat)
    requires Accounted(t) && t.realRuntime == Wrap(n * TICK)
    ensures 0 <= t.weight * (clock - t.vruntime) - (t.weight * clock - n * TICK * MEBI + n * TICK / SPAN * WORD) <= t.weight - 1
  {
    var r, w := n * TICK, t.weight;
    ShiftWrapped(r);
    var x := r % SPAN * MEBI;
    assert r * MEBI == r / SPAN * WORD + x;
    assert x == x / w * w + x % w;
    assert w * (clock - x / w) == w * clock - x / w * w;
  }

  lemma {:induction false} LagOfAll(ts: seq<Thread>, c: seq<nat>, clock: nat)
    requires Charged(ts, c)
    ensures 0 <= WeightedLag(ts, clock) - (Weight(ts) * clock - Sum(c) * TICK * MEBI + Wraps(c) * WORD) <= Weight(ts) - |ts|
  {
    if ts != [] {
      LagOfOne(ts[0], c[0], clock);
      LagOfAll(ts[1..], c[1..], clock);
      ScaleSum(ts[0].weight, Weight(ts[1..]), clock);
    }
  }

  lemma ClockRounding(k: nat, total: nat)
    requires total >= 1
    ensures -(k * (total - 1)) <= total * (k * Share(total)) - k * TICK * MEBI <= 0
  {
    var t := Shift20(TICK);
    assert t == TICK * MEBI;
    assert t == t / total * total + t % total;
    assert total * (k * (t / total)) == k * (t / total * total);
    assert k * t == k * (t / total * total) + k * (t % total);
    ScaleMonotone(t % total, total - 1, k);
    assert k * (t % total) <= k * (total - 1);
  }

  lemma ClockWraps(total: nat, x: nat)
    ensures total * Wrap(x) == total * x - total * (x / WORD) * WORD
  {
    assert x == x / WORD * WORD + Wrap(x);
  }

  /** In every run of a fixed set of threads that starts from zero, the
      weighted lag is a number of whole words, from the threads' and the
      clock's wrap-arounds, give or take the rounding of the clock and of the
      virtual runtimes. */
  lemma WeightedLagExact(s: State, events: seq<Event>)
    requires Within(events, |s.threads|) && s.threads != [] && s.clock == 0
    requires forall i :: 0 <= i < |s.threads| ==> Accounted(s.threads[i]) && s.threads[i].realRuntime == 0
    ensures var total, k, r := Weight(s.threads), Ticks(events), Run(s, Weight(s.threads), events);
      && total >= 1
      && var words := Wraps(Counts(events, |s.threads|)) - total * (k * Share(total) / WORD);
      -(k * (total - 1)) <= WeightedLag(r.threads, r.clock) - words * WORD <= total - |s.threads|
  {
    var total, k := Weight(s.threads), Ticks(events);
    var r, c := Run(s, total, events), Counts(events, |s.threads|);
    NothingYet(s.threads);
    RunAfter(s, total, events);
    LagFrom(r, total, k, c);
  }

  lemma LagFrom(r: State, total: nat, k: nat, c: seq<nat>)
    requires After(r, total, k, c)
    ensures var words := Wraps(c) - total * (k * Share(total) / WORD);
      -(k * (total - 1)) <= WeightedLag(r.threads, r.clock) - words * WORD <= total - |r.threads|
  {
    LagOfAll(r.threads, c, r.clock);
    var x := k * Share(total);
    ClockRounding(k, total);
    ClockWraps(total, x);
    LagSum(WeightedLag(r.threads, r.clock), total * r.clock, total * x, k * TICK * MEBI, Wraps(c), total * (x / WORD),
           k * (total - 1), total - |r.threads|);
  }

  /** The linear part of the argument. */
  lemma LagSum(lag: int, clock: int, time: int, served: int, wraps: int, words: int, lo: int, hi: int)
    requires clock == time - words * WORD && 0 <= lag - (clock - served + wraps * WORD) <= hi
    requires -lo <= time - served <= 0
    ensures -lo <= lag - (wraps - words) * WORD <= hi
  {
  }

  lemma {:induction false} NothingYet(ts: seq<Thread>)
    requires forall i :: 0 <= i < |ts| ==> Accounted(ts[i]) && ts[i].realRuntime == 0
    ensures Weight(ts) >= |ts| && Charged(ts, Counts([], |ts|)) && Sum(Counts([], |ts|)) == 0
  {
    if ts != [] {
      NothingYet(ts[1..]);
      assert Counts([], |ts|)[1..] == Counts([], |ts[1..]|);
    }
  }

  /** Before anything can wrap, only the rounding is left. */
  lemma WeightedLagBounded(s: State, events: seq<Event>)
    requires Within(events, |s.threads|) && s.threads != [] && s.clock == 0
    requires forall i :: 0 <= i < |s.threads| ==> Accounted(s.threads[i]) && s.threads[i].realRuntime == 0
    requires Ticks(events) * TICK < SPAN
    ensures var total, k, r := Weight(s.threads), Ticks(events), Run(s, Weight(s.threads), events);
      -(k * (total - 1)) <= WeightedLag(r.threads, r.clock) <= total - |s.threads|
  {
    WeightedLagExact(s, events);
    CountsSum(events, |s.threads|);
    NoWraps(Counts(events, |s.threads|));
    ClockFits(Ticks(events), Weight(s.threads));
  }

  lemma ClockFits(k: nat, total: nat)
    requires total >= 1 && k * TICK < SPAN
    ensures k * Share(total) / WORD == 0
  {
    ShareBound(total);
    ShareTimes(k, Share(total));
  }

  lemma {:induction false} CountsSum(events: seq<Event>, n: nat)
    requires Within(events, n)
    ensures Sum(Counts(events, n)) == Ticks(events)
  {
    if events == [] {
      SumZeros(n);
    } else {
      var init, e := events[..|events| - 1], events[|events| - 1];
      CountsSum(init, n);
      if e.Tick? {
        SumUpdate(Counts(init, n), e.i, Counts(init, n)[e.i] + 1);
      }
    }
  }

  lemma {:induction false} SumZeros(n: nat)
    ensures Sum(Counts([], n)) == 0
  {
    if n > 0 {
      SumZeros(n - 1);
      assert Counts([], n)[1..] == Counts([], n - 1);
    }
  }

  lemma {:induction false} NoWraps(c: seq<nat>)
    requires Sum(c) * TICK < SPAN
    ensures Wraps(c) == 0
  {
    if c != [] {
      assert c[0] * TICK < SPAN && Sum(c[1..]) * TICK < SPAN;
      NoWraps(c[1..]);
    }
  }

  lemma ShareBound(total: nat)
    requires total >= 1
    ensures Share(total) <= TICK * MEBI
  {
  }

  lemma ShareTimes(n: nat, share: nat)
    requires n * TICK < SPAN && share <= TICK * MEBI
    ensures n * share < WORD
  {
    ScaleMonotone(share, TICK * MEBI, n);
    assert n * (TICK * MEBI) == (n * TICK) * MEBI;
  }
}
