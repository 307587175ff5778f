/**
  The semaphore and the mutex as objects over the scheduler: each critical
  section, on the real queues, is one step of the protocol's machine.
 */
module Blocking {
  import opened Options
  import opened Agents
  import opened SchedView
  import opened Scheduler
  import S = Semaphore
  import M = Mutex

  // ----- sleeping agents are blocked threads -----

  ghost predicate BlockedOn(v: View, t: nat, q: QueueId) {
    t in v.threads && v.threads[t].state == Blocked && t in Waiters(v.queues, q)
  }

  /** The agents asleep in the protocol are exactly the threads blocked in the queue. */
  ghost predicate SleepersBlocked<P>(v: View, q: QueueId, pc: map<nat, P>, asleep: P) {
    forall t :: BlockedOn(v, t, q) <==> t in pc && pc[t] == asleep
  }

  /** For a valid scheduler this is what the protocol knows of its queue. */
  lemma SleepersQueued<P>(v: View, q: QueueId, pc: map<nat, P>, asleep: P)
    requires Inv(v)
    ensures SleepersBlocked(v, q, pc, asleep) <==> Sleepers(Waiters(v.queues, q), pc, asleep)
  {
    forall t ensures BlockedOn(v, t, q) <==> t in Waiters(v.queues, q) {
    }
  }

  /** So whatever else the scheduler does, only the queue matters. */
  lemma SleepersKept<P>(v: View, v': View, q: QueueId, pc: map<nat, P>, asleep: P)
    requires Inv(v) && Inv(v') && Waiters(v'.queues, q) == Waiters(v.queues, q)
    requires SleepersBlocked(v, q, pc, asleep)
    ensures SleepersBlocked(v', q, pc, asleep)
  {
    SleepersQueued(v, q, pc, asleep);
    SleepersQueued(v', q, pc, asleep);
  }

  /** Waking the head pops it, and the rest of the queue sleeps on. */
  lemma HeadLeaves<P>(v: View, q: QueueId, clock: nat, pc: map<nat, P>, asleep: P)
    requires Inv(v) && AllAccounted(v.threads) && Sleepers(Tail(Waiters(v.queues, q)), pc, asleep)
    ensures var v' := HeadWoken(v, q, clock);
      Waiters(v'.queues, q) == Tail(Waiters(v.queues, q)) && SleepersBlocked(v', q, pc, asleep)
  {
    var v' := HeadWoken(v, q, clock);
    HeadWokenKeeps(v, q, clock);
    if Head(v, q).Some? {
      assert Head(v, q).value in v.queues[q];
    }
    SleepersQueued(v', q, pc, asleep);
  }

  function Tail(s: seq<nat>): seq<nat> {
    if s == [] then [] else s[1..]
  }

  class CountingSemaphore {
    const sched: Scheduler
    const id: nat
    var count: nat

    constructor (sched: Scheduler, id: nat, initial: nat)
      ensures this.sched == sched && this.id == id && count == initial
    {
      this.sched, this.id, count := sched, id, initial;
    }

    /** The object is in the protocol's state `s`. */
    ghost predicate Shows(s: S.State)
      reads this, sched, sched.arena, sched.tree
    {
      && s.count == count && s.waiters == Waiters(sched.queues, Other(id))
      && SleepersBlocked(sched.Now(), Other(id), s.pc, S.Asleep)
    }

    /** No thread is left blocked beside a permit: there are as many agents
        about to take or pass on permits as there are permits. */
    lemma NobodyForgotten(s: S.State, initial: nat, t: nat)
      requires sched.Valid() && Shows(s) && S.Inv(s, initial) && BlockedOn(sched.Now(), t, Other(id))
      ensures count <= S.Pending(s)
      ensures (forall e :: S.Finishing(e) ==> !S.Enabled(s, e)) ==> count == 0
    {
      if forall e :: S.Finishing(e) ==> !S.Enabled(s, e) {
        S.QuietState(s, initial);
      }
    }

    /** Beginning an attempt, or one that fails spuriously, touches nothing. */
    lemma Silent(s: S.State, e: S.Step)
      requires Shows(s) && S.Enabled(s, e) && (e.Enter? || e.Retry?)
      ensures Shows(S.Do(s, e))
    {
    }

    /** One attempt of acquire: takes a permit or puts the caller to sleep. */
    method Attempt(ghost s: S.State) returns (acquired: bool)
      requires sched.Valid() && sched.Acting() && Shows(s) && S.Enabled(s, S.Try(sched.currentTask.value))
      modifies this`count, sched`queues, sched.arena
      ensures sched.Valid() && Shows(S.Do(s, S.Try(sched.currentTask.value)))
      ensures acquired <==> old(count) > 0
      ensures sched.Now() == if acquired then old(sched.Now())
                             else BlockOn(old(sched.Now()), sched.currentTask.value, Other(id))
    {
      SleepersQueued(sched.Now(), Other(id), s.pc, S.Asleep);
      S.QueueStep(s, S.Try(sched.currentTask.value));
      acquired := count > 0;
      if acquired {
        count := count - 1;
      } else {
        sched.Block(Other(id));
      }
      SleepersQueued(sched.Now(), Other(id), S.Do(s, S.Try(sched.currentTask.value)).pc, S.Asleep);
    }

    /** The first half of release. */
    method Increment(ghost s: S.State, ghost t: nat)
      requires Shows(s) && S.Enabled(s, S.Post(t))
      modifies this`count
      ensures Shows(S.Do(s, S.Post(t)))
    {
      count := count + 1;
    }

    /** The second half of release. */
    method WakeWaiter(ghost s: S.State, ghost t: nat) returns (head: Option<nat>)
      requires sched.Valid() && Shows(s) && S.Enabled(s, S.Wake(t))
      modifies sched`queues, sched.arena, sched.tree
      ensures sched.Valid() && Shows(S.Do(s, S.Wake(t)))
      ensures head == if s.waiters == [] then None else Some(s.waiters[0])
      ensures sched.Now() == HeadWoken(old(sched.Now()), Other(id), sched.systemRuntime)
    {
      SleepersQueued(sched.Now(), Other(id), s.pc, S.Asleep);
      S.QueueStep(s, S.Wake(t));
      HeadLeaves(sched.Now(), Other(id), sched.systemRuntime, S.Do(s, S.Wake(t)).pc, S.Asleep);
      head := sched.WakeOne(Other(id));
    }
  }

  class SleepingMutex {
    const sched: Scheduler
    const id: nat
    var isLocked: bool

    constructor (sched: Scheduler, id: nat)
      ensures this.sched == sched && this.id == id && !isLocked
    {
      this.sched, this.id, isLocked := sched, id, false;
    }

    ghost predicate Shows(s: M.State)
      reads this, sched, sched.arena, sched.tree
    {
      && s.locked == isLocked && s.waiters == Waiters(sched.queues, Other(id))
      && SleepersBlocked(sched.Now(), Other(id), s.pc, M.Asleep)
    }

    /** A thread blocked on the mutex has someone to hold the lock, to pass it
        on, or about to try; at rest the lock is taken. */
    lemma NobodyForgotten(s: M.State, t: nat)
      requires sched.Valid() && Shows(s) && M.Inv(s) && BlockedOn(sched.Now(), t, Other(id))
      ensures isLocked || Where(s.pc, M.Unlocked) != {} || Where(s.pc, M.Trying(true)) != {}
      ensures (forall e :: M.Finishing(e) ==> !M.Enabled(s, e)) ==> isLocked
    {
      if forall e :: M.Finishing(e) ==> !M.Enabled(s, e) {
        M.QuietState(s);
      }
    }

    lemma Silent(s: M.State, e: M.Step)
      requires Shows(s) && M.Enabled(s, e) && e.Enter?
      ensures Shows(M.Do(s, e))
    {
    }

    /** One attempt of lock: takes the lock or puts the caller to sleep. */
    method Attempt(ghost s: M.State) returns (acquired: bool)
      requires sched.Valid() && sched.Acting() && Shows(s) && M.Enabled(s, M.Try(sched.currentTask.value))
      modifies this`isLocked, sched`queues, sched.arena
      ensures sched.Valid() && Shows(M.Do(s, M.Try(sched.currentTask.value)))
      ensures acquired <==> !old(isLocked)
      ensures sched.Now() == if acquired then old(sched.Now())
                             else BlockOn(old(sched.Now()), sched.currentTask.value, Other(id))
    {
      SleepersQueued(sched.Now(), Other(id), s.pc, M.Asleep);
      M.QueueStep(s, M.Try(sched.currentTask.value));
      acquired := !isLocked;
      if acquired {
        isLocked := true;
      } else {
        sched.Block(Other(id));
      }
      SleepersQueued(sched.Now(), Other(id), M.Do(s, M.Try(sched.currentTask.value)).pc, M.Asleep);
    }

    /** The first half of dropping the guard. */
    method Unlock(ghost s: M.State, ghost t: nat)
      requires Shows(s) && M.Enabled(s, M.Unlock(t))
      modifies this`isLocked
      ensures Shows(M.Do(s, M.Unlock(t)))
    {
      isLocked := false;
    }

    /** The second half of dropping the guard. */
    method WakeWaiter(ghost s: M.State, ghost t: nat) returns (head: Option<nat>)
      requires sched.Valid() && Shows(s) && M.Enabled(s, M.Wake(t))
      modifies sched`queues, sched.arena, sched.tree
      ensures sched.Valid() && Shows(M.Do(s, M.Wake(t)))
      ensures head == if s.waiters == [] then None else Some(s.waiters[0])
      ensures sched.Now() == HeadWoken(old(sched.Now()), Other(id), sched.systemRuntime)
    {
      SleepersQueued(sched.Now(), Other(id), s.pc, M.Asleep);
      M.QueueStep(s, M.Wake(t));
      HeadLeaves(sched.Now(), Other(id), sched.systemRuntime, M.Do(s, M.Wake(t)).pc, M.Asleep);
      head := sched.WakeOne(Other(id));
    }
  }
}
