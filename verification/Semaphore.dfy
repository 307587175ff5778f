/**
  The counting semaphore as interleaved steps.  Acquiring is one critical
  section per attempt; releasing is two steps, the increment and the wake-up,
  with any other step allowed in between.
 */
module Semaphore {
  import opened Agents

  datatype Pc =
    | Outside
    | Trying(woken: bool)  // at the head of acquire's loop
    | Asleep               // blocked, in the queue
    | Posted               // in release, after the increment

  datatype State = State(count: nat, waiters: seq<nat>, pc: map<nat, Pc>, taken: nat, given: nat)

  datatype Step =
    | Enter(t: nat)  // calls acquire
    | Try(t: nat)    // the critical section of one attempt
    | Retry(t: nat)  // an attempt whose weak exchange failed for no reason
    | Post(t: nat)   // calls release and increments
    | Wake(t: nat)   // wakes one waiter and returns

  predicate Enabled(s: State, e: Step) {
    && e.t in s.pc
    && match e
       case Enter(t) => s.pc[t] == Outside
       case Try(t) => s.pc[t].Trying?
       case Retry(t) => s.pc[t].Trying? && s.count > 0
       case Post(t) => s.pc[t] == Outside
       case Wake(t) => s.pc[t] == Posted
  }

  function Move(s: State, t: nat, p: Pc): State {
    s.(pc := s.pc[t := p])
  }

  function Do(s: State, e: Step): State
    requires Enabled(s, e)
  {
    match e
    case Enter(t) => Move(s, t, Trying(false))
    case Try(t) =>
      if s.count > 0 then Move(s, t, Outside).(count := s.count - 1, taken := s.taken + 1)
      else Move(s, t, Asleep).(waiters := s.waiters + [t])
    case Retry(t) => s
    case Post(t) => Move(s, t, Posted).(count := s.count + 1, given := s.given + 1)
    case Wake(t) =>
      if s.waiters == [] then Move(s, t, Outside)
      else Move(Move(s, t, Outside), s.waiters[0], Trying(true)).(waiters := s.waiters[1..])
  }

  /** Woken threads that have not tried again, and releases that have not woken anyone. */
  function Pending(s: State): nat {
    |Where(s.pc, Trying(true))| + |Where(s.pc, Posted)|
  }

  ghost predicate QueueOk(s: State) {
    Sleepers(s.waiters, s.pc, Asleep)
  }

  /** While anyone waits, every permit has a taker on the way. */
  ghost predicate NoneLost(s: State) {
    s.waiters != [] ==> s.count <= Pending(s)
  }

  ghost predicate Inv(s: State, initial: nat) {
    QueueOk(s) && NoneLost(s) && s.count + s.taken == initial + s.given
  }

  lemma QueueStep(s: State, e: Step)
    requires QueueOk(s) && Enabled(s, e)
    ensures QueueOk(Do(s, e))
  {
    SleepersStep(s.waiters, s.pc, Asleep, e.t, PcAfter(s, e));
    if e.Wake? && s.waiters != [] {
      SleepersPop(s.waiters, s.pc[e.t := Outside], Asleep, Trying(true));
    }
  }

  lemma NoneLostStep(s: State, e: Step)
    requires QueueOk(s) && NoneLost(s) && Enabled(s, e)
    ensures NoneLost(Do(s, e))
  {
    var t := e.t;
    Moved(s.pc, t, Trying(true), PcAfter(s, e));
    Moved(s.pc, t, Posted, PcAfter(s, e));
    if e.Wake? && s.waiters != [] {
      var h, pc' := s.waiters[0], s.pc[t := Outside];
      assert h in s.waiters && h != t;
      Moved(pc', h, Trying(true), Trying(true));
      Moved(pc', h, Posted, Trying(true));
    }
  }

  lemma InvStep(s: State, e: Step, initial: nat)
    requires Inv(s, initial) && Enabled(s, e)
    ensures Inv(Do(s, e), initial)
  {
    QueueStep(s, e);
    NoneLostStep(s, e);
  }

  /** Where the acting agent goes. */
  function PcAfter(s: State, e: Step): Pc
    requires Enabled(s, e)
  {
    match e
    case Enter(_) => Trying(false)
    case Retry(t) => s.pc[t]
    case Try(_) => if s.count > 0 then Outside else Asleep
    case Post(_) => Posted
    case Wake(_) => Outside
  }

  // ----- runs -----

  function Start(initial: nat, agents: set<nat>): State {
    State(initial, [], map t | t in agents :: Outside, 0, 0)
  }

  /** Every state follows from the one before by an enabled step. */
  ghost predicate Execution(states: seq<State>, steps: seq<Step>) {
    && |states| == |steps| + 1
    && forall i :: 0 <= i < |steps| ==> Enabled(states[i], steps[i]) && states[i + 1] == Do(states[i], steps[i])
  }

  /** Under every interleaving, no permit is lost or invented and no wake-up is lost. */
  lemma {:induction false} Always(states: seq<State>, steps: seq<Step>, initial: nat, agents: set<nat>, i: nat)
    requires Execution(states, steps) && states[0] == Start(initial, agents) && i < |states|
    ensures Inv(states[i], initial)
  {
    if i > 0 {
      Always(states, steps, initial, agents, i - 1);
      InvStep(states[i - 1], steps[i - 1], initial);
    }
  }

  function Releases(steps: seq<Step>): nat {
    if steps == [] then 0 else Releases(steps[..|steps| - 1]) + if steps[|steps| - 1].Post? then 1 else 0
  }

  /** Attempts that found a permit. */
  function Acquisitions(states: seq<State>, steps: seq<Step>, i: nat): nat
    requires i <= |steps| < |states|
  {
    if i == 0 then 0
    else Acquisitions(states, steps, i - 1) + if steps[i - 1].Try? && states[i - 1].count > 0 then 1 else 0
  }

  /** The count is what was there and was released, less what was acquired. */
  lemma {:induction false} Permits(states: seq<State>, steps: seq<Step>, initial: nat, agents: set<nat>, i: nat)
    requires Execution(states, steps) && states[0] == Start(initial, agents) && i < |states|
    ensures states[i].count == initial + Releases(steps[..i]) - Acquisitions(states, steps, i)
  {
    if i > 0 {
      Permits(states, steps, initial, agents, i - 1);
      assert steps[..i][..i - 1] == steps[..i - 1];
    }
  }

  // ----- waiting ends -----

  /** A step that finishes an operation already begun. */
  predicate Finishing(e: Step) {
    e.Try? || e.Wake?
  }

  /** Steps left to the agents that are neither outside nor asleep. */
  function Left(s: State): nat {
    |Where(s.pc, Trying(false))| + |Where(s.pc, Trying(true))| + 2 * |Where(s.pc, Posted)|
  }

  lemma LeftDecreases(s: State, e: Step)
    requires QueueOk(s) && Enabled(s, e) && Finishing(e)
    ensures Left(Do(s, e)) < Left(s)
  {
    var t, p := e.t, PcAfter(s, e);
    Moved(s.pc, t, Trying(false), p);
    Moved(s.pc, t, Trying(true), p);
    Moved(s.pc, t, Posted, p);
    if e.Wake? && s.waiters != [] {
      var h, pc' := s.waiters[0], s.pc[t := Outside];
      assert h in s.waiters && h != t;
      Moved(pc', h, Trying(false), Trying(true));
      Moved(pc', h, Trying(true), Trying(true));
      Moved(pc', h, Posted, Trying(true));
    }
  }

  /** If no new operation begins, at most `Left` steps remain, in any order. */
  lemma Settles(states: seq<State>, steps: seq<Step>, i: nat)
    requires Execution(states, steps) && i <= |steps| && QueueOk(states[0])
    requires forall k :: 0 <= k < |steps| ==> Finishing(steps[k])
    ensures QueueOk(states[i]) && i + Left(states[i]) <= Left(states[0])
  {
    var ok, left := (s: State) => QueueOk(s), (s: State) => Left(s);
    forall k | 0 <= k < |steps| ensures Drops(states, ok, left, k) {
      if QueueOk(states[k]) {
        QueueStep(states[k], steps[k]);
        LeftDecreases(states[k], steps[k]);
      }
    }
    RunsOut(states, ok, left, i);
  }

  /** And when none remains, nobody sleeps beside a permit. */
  lemma QuietState(s: State, initial: nat)
    requires Inv(s, initial) && forall e :: Finishing(e) ==> !Enabled(s, e)
    ensures s.waiters == [] || s.count == 0
  {
    forall t | t in s.pc ensures !s.pc[t].Trying? && s.pc[t] != Posted {
      assert !Enabled(s, Try(t)) && !Enabled(s, Wake(t));
    }
    assert Where(s.pc, Trying(true)) == {} && Where(s.pc, Posted) == {};
  }
}
