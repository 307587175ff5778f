/**
  The mailbox: a queue of messages under a spinlock and a semaphore that
  counts them.  Sending is push, increment, wake-up; receiving is acquire,
  pop; the steps of different agents interleave.
 */
module Mailbox {
  import opened Options
  import S = Semaphore

  datatype State<T> = State(
    sem: S.State,
    queue: seq<T>,
    pushing: set<nat>,  // senders between the push and the increment
    owed: set<nat>,     // receivers between the acquire and the pop
    sent: seq<T>,       // every message ever pushed, in order
    received: seq<T>)   // every message ever popped, in order

  datatype Step<T> =
    | Push(t: nat, m: T)
    | Sem(e: S.Step)  // a step of the semaphore
    | Pop(t: nat)

  predicate Free<T(==)>(s: State<T>, t: nat) {
    t in s.sem.pc && s.sem.pc[t] == S.Outside && t !in s.pushing && t !in s.owed
  }

  /** Only a sender that has pushed increments, and only free agents begin. */
  predicate Enabled<T(==)>(s: State<T>, e: Step<T>) {
    match e
    case Push(t, _) => Free(s, t)
    case Pop(t) => t in s.owed
    case Sem(e) => S.Enabled(s.sem, e) && (e.Enter? ==> Free(s, e.t)) && (e.Post? ==> e.t in s.pushing)
  }

  function Do<T(==)>(s: State<T>, e: Step<T>): State<T>
    requires Enabled(s, e)
  {
    match e
    case Push(t, m) => s.(queue := s.queue + [m], sent := s.sent + [m], pushing := s.pushing + {t})
    case Pop(t) =>
      if s.queue == [] then s.(owed := s.owed - {t})
      else s.(queue := s.queue[1..], received := s.received + [s.queue[0]], owed := s.owed - {t})
    case Sem(e) =>
      s.(sem := S.Do(s.sem, e),
         pushing := if e.Post? then s.pushing - {e.t} else s.pushing,
         owed := if e.Try? && s.sem.count > 0 then s.owed + {e.t} else s.owed)
  }

  /** What receive returns at its pop. */
  function Result<T>(s: State<T>): Option<T> {
    if s.queue == [] then None else Some(s.queue[0])
  }

  /** Agents between two operations of the semaphore are outside it. */
  ghost predicate Apart<T(!new)>(s: State<T>) {
    && s.pushing !! s.owed
    && forall t :: t in s.pushing + s.owed ==> t in s.sem.pc && s.sem.pc[t] == S.Outside
  }

  ghost predicate Inv<T(!new)>(s: State<T>) {
    && S.Inv(s.sem, 0) && Apart(s)
    && |s.queue| == s.sem.count + |s.pushing| + |s.owed|
    && s.received + s.queue == s.sent
  }

  lemma ApartStep<T(!new)>(s: State<T>, e: Step<T>)
    requires S.QueueOk(s.sem) && Apart(s) && Enabled(s, e)
    ensures Apart(Do(s, e))
  {
    if e.Sem? && e.e.Wake? && s.sem.waiters != [] {
      assert s.sem.waiters[0] in s.sem.waiters;
    }
  }

  lemma CountStep<T(!new)>(s: State<T>, e: Step<T>)
    requires Apart(s) && Enabled(s, e) && |s.queue| == s.sem.count + |s.pushing| + |s.owed|
    ensures var s' := Do(s, e); |s'.queue| == s'.sem.count + |s'.pushing| + |s'.owed|
  {
    match e {
      case Push(t, m) => assert |s.pushing + {t}| == |s.pushing| + 1;
      case Pop(t) => assert |s.owed - {t}| == |s.owed| - 1;
      case Sem(f) => SemCounts(s, f);
    }
  }

  lemma SemCounts<T(!new)>(s: State<T>, f: S.Step)
    requires Apart(s) && Enabled(s, Sem(f))
    ensures var s' := Do(s, Sem(f)); s'.sem.count + |s'.pushing| + |s'.owed| == s.sem.count + |s.pushing| + |s.owed|
  {
    if f.Post? {
      assert |s.pushing - {f.t}| == |s.pushing| - 1;
    } else if f.Try? && s.sem.count > 0 {
      assert f.t !in s.owed;
      assert |s.owed + {f.t}| == |s.owed| + 1;
    }
  }

  lemma InvStep<T(!new)>(s: State<T>, e: Step<T>)
    requires Inv(s) && Enabled(s, e)
    ensures Inv(Do(s, e))
  {
    ApartStep(s, e);
    CountStep(s, e);
    match e {
      case Sem(f) => S.InvStep(s.sem, f, 0);
      case Push(t, m) => assert s.received + (s.queue + [m]) == s.sent + [m];
      case Pop(t) =>
        if s.queue != [] {
          assert s.received + [s.queue[0]] + s.queue[1..] == s.received + s.queue;
        }
    }
  }

  // ----- runs -----

  function Start<T>(agents: set<nat>): State<T> {
    State(S.Start(0, agents), [], {}, {}, [], [])
  }

  ghost predicate Execution<T(!new)>(states: seq<State<T>>, steps: seq<Step<T>>) {
    && |states| == |steps| + 1
    && forall i :: 0 <= i < |steps| ==> Enabled(states[i], steps[i]) && states[i + 1] == Do(states[i], steps[i])
  }

  lemma {:induction false} Always<T(!new)>(states: seq<State<T>>, steps: seq<Step<T>>, agents: set<nat>, i: nat)
    requires Execution(states, steps) && states[0] == Start(agents) && i < |states|
    ensures Inv(states[i])
  {
    if i > 0 {
      Always(states, steps, agents, i - 1);
      InvStep(states[i - 1], steps[i - 1]);
    }
  }

  /** Under every interleaving, a receive returns a message: the oldest one not yet received. */
  lemma ReceiveNeverEmpty<T(!new)>(states: seq<State<T>>, steps: seq<Step<T>>, agents: set<nat>, i: nat)
    requires Execution(states, steps) && states[0] == Start(agents) && i < |steps| && steps[i].Pop?
    ensures var s := states[i];
      |s.received| < |s.sent| && Result(s) == Some(s.sent[|s.received|])
  {
    Always(states, steps, agents, i);
    var s := states[i];
    assert steps[i].t in s.owed;
    assert s.owed != {} && s.queue != [];
  }

  /** The messages of all push steps, in order. */
  function Messages<T>(steps: seq<Step<T>>): seq<T> {
    if steps == [] then []
    else
      var e := steps[|steps| - 1];
      Messages(steps[..|steps| - 1]) + if e.Push? then [e.m] else []
  }

  /** What the pops among the first `i` steps returned, in order. */
  function Returned<T>(states: seq<State<T>>, steps: seq<Step<T>>, i: nat): seq<Option<T>>
    requires i <= |steps| < |states|
  {
    if i == 0 then []
    else Returned(states, steps, i - 1) + if steps[i - 1].Pop? then [Result(states[i - 1])] else []
  }

  lemma {:induction false} SentMessages<T(!new)>(states: seq<State<T>>, steps: seq<Step<T>>, agents: set<nat>, i: nat)
    requires Execution(states, steps) && states[0] == Start(agents) && i < |states|
    ensures states[i].sent == Messages(steps[..i])
  {
    if i > 0 {
      SentMessages(states, steps, agents, i - 1);
      assert steps[..i][..i - 1] == steps[..i - 1];
    }
  }

  lemma {:induction false} ReceivedValues<T(!new)>(states: seq<State<T>>, steps: seq<Step<T>>, agents: set<nat>, i: nat)
    requires Execution(states, steps) && states[0] == Start(agents) && i < |states|
    ensures Values(states[i].received) == Returned(states, steps, i)
  {
    if i > 0 {
      ReceivedValues(states, steps, agents, i - 1);
      if steps[i - 1].Pop? {
        ReceiveNeverEmpty(states, steps, agents, i - 1);
      }
    }
  }

  /** Under every interleaving, the receives return the first messages sent,
      in the order in which they were sent. */
  lemma FirstInFirstOut<T(!new)>(states: seq<State<T>>, steps: seq<Step<T>>, agents: set<nat>, i: nat)
    requires Execution(states, steps) && states[0] == Start(agents) && i < |states|
    ensures states[i].sent == Messages(steps[..i])
    ensures Returned(states, steps, i) <= Values(Messages(steps[..i]))
  {
    SentMessages(states, steps, agents, i);
    ReceivedValues(states, steps, agents, i);
    Always(states, steps, agents, i);
    assert states[i].received <= states[i].sent;
  }

  /** The documented equality of count and length holds exactly between operations. */
  lemma CountIsLength<T(!new)>(s: State<T>)
    requires Inv(s)
    ensures s.sem.count == |s.queue| <==> s.pushing == {} && s.owed == {}
  {
  }

  /** It fails as soon as one sender is between its two steps. */
  lemma CountLags<T(!new)>(agents: set<nat>, t: nat, m: T)
    requires t in agents
    ensures var s := Do(Start(agents), Push(t, m)); Inv(s) && s.sem.count == 0 && |s.queue| == 1
  {
    InvStep(Start(agents), Push(t, m));
  }

  /** No receiver sleeps beside a message for ever: somebody still has a step to take. */
  lemma NobodyStranded<T(!new)>(s: State<T>)
    requires Inv(s) && s.queue != [] && s.sem.waiters != []
    ensures s.pushing != {} || s.owed != {} || S.Pending(s.sem) > 0
  {
  }
}
