/**
  Virtual time. Every charged tick adds one millisecond to a thread's real
  runtime and recomputes its virtual runtime and deadline in 64-bit words;
  the system clock advances by a share of the total weight.
 */
module Accounting {
  import opened Powers
  import opened RbShape
  import opened SchedView

  const TICK: nat := 1_000_000
  const MIN_GRANULARITY: nat := 4_000_000
  const TARGET_LATENCY: nat := 6_000_000
  const NICE_0_LOAD: nat := 1024
  const WORD: nat := 0x1_0000_0000_0000_0000
  const MEBI: nat := 0x10_0000

  function Wrap(x: int): (w: nat)
    ensures w < WORD && (0 <= x < WORD ==> w == x)
  {
    x % WORD
  }

  /** A shift left by 20 drops the bits that leave the word. */
  function Shift20(x: nat): nat {
    Wrap(x * MEBI)
  }

  function Signed(w: nat): int
    requires w < WORD
  {
    if w < WORD / 2 then w else w - WORD
  }

  /** The base weight shifted down by one for every 4 ms of burst, but at least 1. */
  function EffectiveWeight(t: Thread): (w: nat)
    ensures w >= 1
  {
    var shifted := Shr(t.weight, t.burstScore / MIN_GRANULARITY);
    if shifted < 1 then 1 else shifted
  }

  function UpdateDeadline(t: Thread): Thread {
    var w := EffectiveWeight(t);
    var v := Shift20(t.realRuntime) / w;
    t.(vruntime := v, deadline := Wrap(v + Shift20(t.timeSlice) / w))
  }

  function NextClock(clock: nat, totalWeight: nat): nat {
    if totalWeight > 0 then Wrap(clock + Shift20(TICK) / totalWeight) else clock
  }

  /** One tick on the thread that was running; `clock` is the advanced system clock. */
  function Charge(t: Thread, clock: nat): Thread {
    var c := UpdateDeadline(t.(realRuntime := Wrap(t.realRuntime + TICK), burstScore := (t.burstScore + TICK) / 2));
    c.(lag := Signed(Wrap(clock - c.vruntime)))
  }

  function SaturatingSub(x: nat, y: nat): nat {
    if x < y then 0 else x - y
  }

  /** A thread that is made ready again. */
  function Wake(t: Thread, clock: nat): Thread {
    var least := SaturatingSub(clock, t.timeSlice);
    var t1 := t.(state := Ready);
    var t2 := if t1.vruntime < least then t1.(vruntime := least) else t1;
    UpdateDeadline(t2.(burstScore := 0))
  }

  function NewSlice(weight: nat, totalWeight: nat): (slice: nat)
    requires weight > 0
    ensures slice >= MIN_GRANULARITY
  {
    var share := Quotient(Wrap(weight * TARGET_LATENCY), if totalWeight > 0 then totalWeight else weight);
    if share > MIN_GRANULARITY then share else MIN_GRANULARITY
  }

  function Quotient(x: nat, y: nat): nat
    requires y > 0
  {
    x / y
  }

  /** A thread as it is created: no runtime yet, and a slice of at least 4 ms. */
  function NewThread(weight: nat, totalWeight: nat, clock: nat): Thread
    requires weight > 0
  {
    var slice := NewSlice(weight, totalWeight);
    var deadline := Wrap(Quotient(Shift20(Wrap(slice * NICE_0_LOAD)), weight));
    Thread(0, Ready, weight, 0, 0, Signed(Wrap(clock)), slice, deadline, 0, NULL)
  }

  lemma NewThreadAccounted(weight: nat, totalWeight: nat, clock: nat)
    requires weight > 0
    ensures var t := NewThread(weight, totalWeight, clock);
      Accounted(t) && t.state == Ready && t.rbNode == NULL && t.timeSlice >= MIN_GRANULARITY
  {
    NoRuntime(weight);
  }

  /** The values of a new thread, as long as no product leaves its word. */
  lemma NewThreadValues(weight: nat, totalWeight: nat, clock: nat)
    requires 0 < weight && weight * 6_000_000 < WORD
    ensures var t := NewThread(weight, totalWeight, clock);
      var share := Quotient(weight * 6_000_000, if totalWeight > 0 then totalWeight else weight);
      && t.timeSlice == (if share > 4_000_000 then share else 4_000_000)
      && (clock < WORD / 2 ==> t.lag == clock)
      && (t.timeSlice * 0x4000_0000 < WORD ==>
            && t.deadline == Quotient(t.timeSlice * 0x4000_0000, weight)
            && (Due(t) <==> t.timeSlice * 0x4000_0000 < weight))
  {
    var t := NewThread(weight, totalWeight, clock);
    var slice := t.timeSlice;
    if slice * 0x4000_0000 < WORD {
      NoRuntime(weight);
      assert slice * NICE_0_LOAD * MEBI == slice * 0x4000_0000;
      QuotientBound(slice * 0x4000_0000, weight);
      QuotientBound(slice * MEBI, weight);
      LaterDeadline(slice * MEBI, weight);
    }
  }

  lemma QuotientBound(x: nat, y: nat)
    requires y > 0
    ensures Quotient(x, y) <= x
  {
    assert x == x / y * y + x % y;
    ScaleMonotone(1, y, x / y);
  }

  /** A deadline 1024 times as far away is the same only if it rounds to nothing. */
  lemma LaterDeadline(x: nat, w: nat)
    requires w > 0
    ensures Quotient(1024 * x, w) == Quotient(x, w) <==> 1024 * x < w
  {
    var q := Quotient(x, w);
    QuotientTimes(x, w);
    if 1024 * x < w {
      QuotientTimes(1024 * x, w);
    } else if q == 0 {
      QuotientAtLeast(1024 * x, 1, w);
    } else {
      ScaleAssoc(1024, q, w);
      QuotientAtLeast(1024 * x, 1024 * q, w);
    }
  }

  lemma QuotientTimes(x: nat, w: nat)
    requires w > 0
    ensures Quotient(x, w) * w <= x && (x < w ==> Quotient(x, w) == 0)
  {
  }

  lemma QuotientAtLeast(x: nat, q: nat, w: nat)
    requires w > 0 && q * w <= x
    ensures q <= Quotient(x, w)
  {
    if x / w < q {
      ScaleMonotone(x / w + 1, q, w);
      ScaleSum(x / w, 1, w);
    }
  }

  lemma NoRuntime(weight: nat)
    requires weight > 0
    ensures Shift20(0) / weight == 0
  {
  }

  /** What every thread satisfies after every operation. */
  ghost predicate Accounted(t: Thread) {
    && t.burstScore < TICK && t.weight >= 1
    && t.vruntime == Shift20(t.realRuntime) / t.weight
  }

  /** The deadline is one weighted slice after the virtual runtime. */
  ghost predicate Due(t: Thread)
    requires t.weight >= 1
  {
    t.deadline == Wrap(t.vruntime + Shift20(t.timeSlice) / t.weight)
  }

  /** The burst penalty never takes effect. */
  lemma WeightUnpenalised(t: Thread)
    requires t.burstScore < TICK && t.weight >= 1
    ensures EffectiveWeight(t) == t.weight
  {
    assert t.burstScore / MIN_GRANULARITY == 0;
  }

  lemma ChargeAccounted(t: Thread, clock: nat)
    requires Accounted(t)
    ensures Accounted(Charge(t, clock)) && Reaccounted(t, Charge(t, clock))
    ensures t.realRuntime + TICK < WORD ==> Charge(t, clock).realRuntime == t.realRuntime + TICK
    ensures Due(Charge(t, clock))
    ensures var c := Charge(t, clock);
      -0x8000_0000_0000_0000 <= clock - c.vruntime < 0x8000_0000_0000_0000 ==> c.lag == clock - c.vruntime
  {
    WeightUnpenalised(t.(realRuntime := Wrap(t.realRuntime + TICK), burstScore := (t.burstScore + TICK) / 2));
    SignedWrap(clock - Charge(t, clock).vruntime);
  }

  lemma SignedWrap(x: int)
    ensures -0x8000_0000_0000_0000 <= x < 0x8000_0000_0000_0000 ==> Signed(Wrap(x)) == x
  {
  }

  /** The sleeper clamp leaves no trace: waking changes the state, clears the
      burst score and brings the deadline up to date, no more.  So a woken
      thread is within a slice of the clock only if it was before. */
  lemma WakeAccounted(t: Thread, clock: nat)
    requires Accounted(t)
    ensures Accounted(Wake(t, clock)) && WokenAs(t, Wake(t, clock))
    ensures Wake(t, clock).vruntime == t.vruntime && Wake(t, clock).realRuntime == t.realRuntime
    ensures Due(Wake(t, clock)) && Wake(t, clock).lag == t.lag && Wake(t, clock).burstScore == 0
    ensures Wake(t, clock).vruntime >= SaturatingSub(clock, t.timeSlice) <==> t.vruntime >= SaturatingSub(clock, t.timeSlice)
  {
    WeightUnpenalised(t.(burstScore := 0));
    var least := SaturatingSub(clock, t.timeSlice);
    WeightUnpenalised(t.(state := Ready, vruntime := least, burstScore := 0));
  }
}
