/**
  The sleeping mutex as interleaved steps.  Locking is one critical section
  per attempt; dropping a guard is two steps, the store that unlocks and the
  wake-up.
 */
module Mutex {
  import opened Agents

  datatype Pc =
    | Outside
    | Trying(woken: bool)  // at the head of lock's loop
    | Asleep               // blocked, in the queue
    | Holding              // owns the guard
    | Unlocked             // dropping the guard, after the store

  datatype State = State(locked: bool, waiters: seq<nat>, pc: map<nat, Pc>)

  datatype Step =
    | Enter(t: nat)   // calls lock
    | Try(t: nat)     // the critical section of one attempt
    | Unlock(t: nat)  // drops the guard: the store
    | Wake(t: nat)    // wakes one waiter and returns

  predicate Enabled(s: State, e: Step) {
    && e.t in s.pc
    && match e
       case Enter(t) => s.pc[t] == Outside
       case Try(t) => s.pc[t].Trying?
       case Unlock(t) => s.pc[t] == Holding
       case Wake(t) => s.pc[t] == Unlocked
  }

  function Move(s: State, t: nat, p: Pc): State {
    s.(pc := s.pc[t := p])
  }

  function Do(s: State, e: Step): State
    requires Enabled(s, e)
  {
    match e
    case Enter(t) => Move(s, t, Trying(false))
    case Try(t) =>
      if !s.locked then Move(s, t, Holding).(locked := true)
      else Move(s, t, Asleep).(waiters := s.waiters + [t])
    case Unlock(t) => Move(s, t, Unlocked).(locked := false)
    case Wake(t) =>
      if s.waiters == [] then Move(s, t, Outside)
      else Move(Move(s, t, Outside), s.waiters[0], Trying(true)).(waiters := s.waiters[1..])
  }

  /** Where the acting agent goes. */
  function PcAfter(s: State, e: Step): Pc
    requires Enabled(s, e)
  {
    match e
    case Enter(_) => Trying(false)
    case Try(_) => if s.locked then Asleep else Holding
    case Unlock(_) => Unlocked
    case Wake(_) => Outside
  }

  ghost predicate QueueOk(s: State) {
    Sleepers(s.waiters, s.pc, Asleep)
  }

  /** At most one guard, and one exactly while the lock word is set. */
  ghost predicate Exclusive(s: State) {
    && (forall t, u :: t in s.pc && u in s.pc && s.pc[t] == Holding && s.pc[u] == Holding ==> t == u)
    && (s.locked <==> Held(s))
  }

  ghost predicate Held(s: State) {
    exists t :: t in s.pc && s.pc[t] == Holding
  }

  /** While anyone waits, someone holds the lock, is about to wake a waiter, or is about to try again. */
  ghost predicate NoneLost(s: State) {
    s.waiters != [] ==> s.locked || Where(s.pc, Unlocked) != {} || Where(s.pc, Trying(true)) != {}
  }

  ghost predicate Inv(s: State) {
    QueueOk(s) && Exclusive(s) && NoneLost(s)
  }

  lemma QueueStep(s: State, e: Step)
    requires QueueOk(s) && Enabled(s, e)
    ensures QueueOk(Do(s, e))
  {
    SleepersStep(s.waiters, s.pc, Asleep, e.t, PcAfter(s, e));
    if e.Wake? && s.waiters != [] {
      SleepersPop(s.waiters, s.pc[e.t := Outside], Asleep, Trying(true));
    }
  }

  lemma ExclusiveStep(s: State, e: Step)
    requires QueueOk(s) && Exclusive(s) && Enabled(s, e)
    ensures Exclusive(Do(s, e))
  {
    var s' := Do(s, e);
    if e.Wake? && s.waiters != [] {
      assert s.waiters[0] in s.waiters;
    }
    if e.Try? && !s.locked {
      assert s'.pc[e.t] == Holding;
    } else if s'.locked {
      var t :| t in s.pc && s.pc[t] == Holding;
      assert s'.pc[t] == Holding;
    }
  }

  lemma NoneLostStep(s: State, e: Step)
    requires QueueOk(s) && NoneLost(s) && Enabled(s, e)
    ensures NoneLost(Do(s, e))
  {
    var s' := Do(s, e);
    if e.Unlock? {
      assert e.t in Where(s'.pc, Unlocked);
    } else if e.Wake? && s.waiters != [] {
      assert s.waiters[0] in Where(s'.pc, Trying(true));
    } else {
      assert forall t :: t in s.pc && t != e.t ==> s'.pc[t] == s.pc[t];
      assert forall x, t :: t in Where(s.pc, x) && t != e.t ==> t in Where(s'.pc, x);
    }
  }

  // ----- runs -----

  function Start(agents: set<nat>): State {
    State(false, [], map t | t in agents :: Outside)
  }

  ghost predicate Execution(states: seq<State>, steps: seq<Step>) {
    && |states| == |steps| + 1
    && forall i :: 0 <= i < |steps| ==> Enabled(states[i], steps[i]) && states[i + 1] == Do(states[i], steps[i])
  }

  /** Mutual exclusion and no lost wake-up, under every interleaving. */
  lemma {:induction false} Always(states: seq<State>, steps: seq<Step>, agents: set<nat>, i: nat)
    requires Execution(states, steps) && states[0] == Start(agents) && i < |states|
    ensures Inv(states[i])
  {
    if i > 0 {
      Always(states, steps, agents, i - 1);
      QueueStep(states[i - 1], steps[i - 1]);
      ExclusiveStep(states[i - 1], steps[i - 1]);
      NoneLostStep(states[i - 1], steps[i - 1]);
    }
  }

  // ----- waiting ends -----

  /** A step of a thread that does not hold the lock and has begun an operation. */
  predicate Finishing(e: Step) {
    e.Try? || e.Wake?
  }

  /** When no such step remains, a free lock has no waiters. */
  lemma QuietState(s: State)
    requires Inv(s) && forall e :: Finishing(e) ==> !Enabled(s, e)
    ensures s.waiters == [] || s.locked
  {
    forall t | t in s.pc ensures !s.pc[t].Trying? && s.pc[t] != Unlocked {
      assert !Enabled(s, Try(t)) && !Enabled(s, Wake(t));
    }
    assert Where(s.pc, Trying(true)) == {} && Where(s.pc, Unlocked) == {};
  }

  function Left(s: State): nat {
    |Where(s.pc, Trying(false))| + |Where(s.pc, Trying(true))| + 2 * |Where(s.pc, Unlocked)|
  }

  lemma LeftDecreases(s: State, e: Step)
    requires QueueOk(s) && Enabled(s, e) && Finishing(e)
    ensures Left(Do(s, e)) < Left(s)
  {
    var t, p := e.t, PcAfter(s, e);
    Moved(s.pc, t, Trying(false), p);
    Moved(s.pc, t, Trying(true), p);
    Moved(s.pc, t, Unlocked, p);
    if e.Wake? && s.waiters != [] {
      var h, pc' := s.waiters[0], s.pc[t := Outside];
      assert h in s.waiters && h != t;
      Moved(pc', h, Trying(false), Trying(true));
      Moved(pc', h, Trying(true), Trying(true));
      Moved(pc', h, Unlocked, Trying(true));
    }
  }

  /** If nobody locks anew or unlocks, at most `Left` steps remain, in any order. */
  lemma Settles(states: seq<State>, steps: seq<Step>, i: nat)
    requires Execution(states, steps) && i <= |steps| && QueueOk(states[0])
    requires forall k :: 0 <= k < |steps| ==> Finishing(steps[k])
    ensures QueueOk(states[i]) && i + Left(states[i]) <= Left(states[0])
  {
    var ok, left := (s: State) => QueueOk(s), (s: State) => Left(s);
    forall k | 0 <= k < |steps| ensures Drops(states, ok, left, k) {
      if QueueOk(states[k]) {
        QueueStep(states[k], steps[k]);
        LeftDecreases(states[k], steps[k]);
      }
    }
    RunsOut(states, ok, left, i);
  }
}
