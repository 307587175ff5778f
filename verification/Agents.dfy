/** Program counters of concurrent agents: threads and interrupt handlers. */
module Agents {
  import opened Sequences

  /** The agents that are at `x`. */
  function Where<P(==)>(pc: map<nat, P>, x: P): set<nat> {
    set t | t in pc && pc[t] == x
  }

  lemma Moved<P>(pc: map<nat, P>, t: nat, x: P, y: P)
    requires t in pc
    ensures Where(pc[t := y], x) == if x == y then Where(pc, x) + {t} else Where(pc, x) - {t}
    ensures |Where(pc[t := y], x)| ==
      |Where(pc, x)| + (if y == x && pc[t] != x then 1 else 0) - (if pc[t] == x && y != x then 1 else 0)
  {
    var s, s' := Where(pc, x), Where(pc[t := y], x);
    assert s' == if x == y then s + {t} else s - {t};
    assert t in s <==> pc[t] == x;
    if t in s {
      assert s + {t} == s && |s - {t}| == |s| - 1;
    } else {
      assert s - {t} == s && |s + {t}| == |s| + 1;
    }
  }

  // ----- queues of sleepers -----

  /** The queue holds exactly the sleepers, once each. */
  ghost predicate Sleepers<P>(waiters: seq<nat>, pc: map<nat, P>, asleep: P) {
    && NoDup(waiters)
    && forall t :: t in waiters <==> t in pc && pc[t] == asleep
  }

  /** An agent that is awake falls asleep at the back of the queue, or moves and stays awake. */
  lemma SleepersStep<P>(waiters: seq<nat>, pc: map<nat, P>, asleep: P, t: nat, x: P)
    requires Sleepers(waiters, pc, asleep) && t in pc && pc[t] != asleep
    ensures Sleepers(if x == asleep then waiters + [t] else waiters, pc[t := x], asleep)
  {
    assert t !in waiters;
  }

  /** The head of the queue wakes up. */
  lemma SleepersPop<P>(waiters: seq<nat>, pc: map<nat, P>, asleep: P, x: P)
    requires Sleepers(waiters, pc, asleep) && waiters != [] && x != asleep
    ensures Sleepers(waiters[1..], pc[waiters[0] := x], asleep)
  {
    assert waiters == [waiters[0]] + waiters[1..] && waiters[0] in waiters;
    forall t ensures t in waiters[1..] <==> t in waiters && t != waiters[0] {
    }
  }

  // ----- steps that run out -----

  ghost predicate Drops<S(!new)>(states: seq<S>, ok: S -> bool, left: S -> nat, k: nat)
    requires k + 1 < |states|
  {
    ok(states[k]) ==> ok(states[k + 1]) && left(states[k + 1]) < left(states[k])
  }

  /** If every step keeps `ok` and makes `left` smaller, at most `left` steps are taken. */
  lemma {:induction false} RunsOut<S(!new)>(states: seq<S>, ok: S -> bool, left: S -> nat, i: nat)
    requires i < |states| && ok(states[0]) && forall k :: 0 <= k < |states| - 1 ==> Drops(states, ok, left, k)
    ensures ok(states[i]) && i + left(states[i]) <= left(states[0])
  {
    if i > 0 {
      RunsOut(states, ok, left, i - 1);
      assert Drops(states, ok, left, i - 1);
    }
  }
}
