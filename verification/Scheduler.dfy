/**
  The scheduler: an arena of threads, the run tree, the wait queues and the
  graveyard, changed by critical sections that run with interrupts off.
 */
module Scheduler {
  import opened Options
  import opened RbShape
  import opened NodeStore
  import opened SchedView
  import opened Sequences
  import opened Accounting
  import opened ThreadArena
  import opened RunTree
  import opened SchedPick

  // ----- whole operations on the view -----

  ghost function ReapAll(v: View): View {
    v.(threads := v.threads - (set id | id in v.graveyard), graveyard := [])
  }

  lemma ReapAllStep(v: View)
    requires v.graveyard != []
    ensures ReapAll(Reap(v)) == ReapAll(v)
  {
    var g := v.graveyard;
    assert g == [g[0]] + g[1..];
    assert (set id | id in g) == {g[0]} + (set id | id in g[1..]);
    assert v.threads - {g[0]} - (set id | id in g[1..]) == v.threads - (set id | id in g);
  }

  /** The timer took the processor from the running thread: a dead one is
      buried, a ready one returns to the run tree, the others just stop. */
  function Stopped(v: View, clock: nat): View
    requires v.current.Some? ==> v.current.value in v.threads
  {
    if v.current == None then v else
    var id := v.current.value;
    var t := v.threads[id];
    if t.state == Zombie then Bury(v, id)
    else if t.state == Ready && v.idle != Some(id) then PutBack(v, id, Charge(t, clock))
    else Leave(v, id, Charge(t, clock))
  }

  /** The clock advances for every thread but a dead one. */
  predicate Charged(v: View) {
    v.current.Some? && v.current.value in v.threads && v.threads[v.current.value].state != Zombie
  }

  /** `v'` is `v` reaped and stopped, and the clock went from `clock` to `clock'`. */
  ghost predicate StoppedFrom(v: View, clock: nat, totalWeight: nat, v': View, clock': nat) {
    && Stopped.requires(ReapAll(v), clock')
    && v' == Stopped(ReapAll(v), clock')
    && clock' == if Charged(ReapAll(v)) then NextClock(clock, totalWeight) else clock
  }

  /** What the timer relies on: the running thread is live and its node, if it needs one, is outside the tree. */
  ghost predicate Stoppable(v: View) {
    v.current.Some? ==>
      && v.current.value in v.threads
      && var t := v.threads[v.current.value];
      && t.tid == v.current.value
      && (t.state == Zombie || (t.state == Ready && v.idle != v.current) ==>
            t.rbNode != NULL && t.rbNode in v.nodes && t.rbNode !in v.ready && v.nodes[t.rbNode].taskId == t.tid)
  }

  lemma InvStoppable(v: View)
    requires Inv(v)
    ensures Stoppable(v)
  {
  }

  ghost predicate AllAccounted(threads: map<nat, Thread>) {
    forall id :: id in threads ==> Accounted(threads[id])
  }

  lemma StoppedKeeps(v: View, clock: nat)
    requires Inv(v) && AllAccounted(v.threads)
    ensures Inv(Stopped(v, clock)) && Stopped(v, clock).current == None
  {
    if v.current.Some? {
      var id := v.current.value;
      var t := v.threads[id];
      ChargeAccounted(t, clock);
      if t.state == Zombie {
        BuryKeeps(v, id);
      } else if t.state == Ready && v.idle != Some(id) {
        PutBackKeeps(v, id, Charge(t, clock));
      } else {
        LeaveKeeps(v, id, Charge(t, clock));
      }
    }
  }

  lemma StoppedAccounted(v: View, clock: nat)
    requires v.current.Some? ==> v.current.value in v.threads
    requires AllAccounted(v.threads)
    ensures AllAccounted(Stopped(v, clock).threads)
    ensures DeadUnjoined(v) ==> DeadUnjoined(Stopped(v, clock))
  {
    if v.current.Some? {
      ChargeAccounted(v.threads[v.current.value], clock);
    }
  }

  ghost predicate RunsReady(v: View) {
    v.current.Some? && v.current.value in v.threads && v.threads[v.current.value].state == Ready
  }

  /** From `v` the running thread was stopped, and from there a ready one was chosen. */
  ghost predicate Switched(v: View, clock: nat, totalWeight: nat, stopped: View, q: RunQueue, v': View, clock': nat) {
    && StoppedFrom(v, clock, totalWeight, stopped, clock') && QueueOf(q, stopped)
    && Next(q, stopped, v', clock') && RunsReady(v')
  }

  const NO_THREADS := View(map[], map[], {}, None, None, [], map[])

  lemma EmptyInv()
    ensures Inv(NO_THREADS) && DeadUnjoined(NO_THREADS)
  {
  }

  lemma NextKeeps(q: RunQueue, v: View, v': View, clock: nat)
    requires Inv(v) && v.current == None && v.idle.Some? && Next(q, v, v', clock)
    ensures Inv(v') && v'.current.Some? && v'.current.value in v'.threads && v'.threads[v'.current.value].state == Ready
    ensures DeadUnjoined(v) ==> DeadUnjoined(v')
  {
    if v.ready == {} {
      IdleKeeps(v);
    } else {
      var p :| p in v.ready && p in v.nodes && Chosen(q, p, clock) && v' == SchedView.Dispatch(v, p);
      DispatchKeeps(v, p);
    }
  }

  ghost predicate Waits(v: View, id: nat) {
    id in v.threads && (v.threads[id].state == Sleeping || v.threads[id].state == Blocked)
  }

  /** A thread that waits without running has a node outside the tree. */
  ghost predicate Wakeable(v: View, id: nat) {
    Waits(v, id) && v.current != Some(id) ==>
      var p := v.threads[id].rbNode;
      p != NULL && p in v.nodes && p !in v.ready && v.nodes[p].taskId == id
  }

  lemma InvWakeable(v: View, id: nat)
    requires ThreadsOk(v) && TreeOk(v)
    ensures Wakeable(v, id)
  {
    if Waits(v, id) && v.current != Some(id) {
      assert OwnsNode(v, id);
    }
  }

  function Head(v: View, q: QueueId): Option<nat> {
    if Waiters(v.queues, q) == [] then None else Some(v.queues[q][0])
  }

  /** The effect of waking one waiter. */
  function HeadWoken(v: View, q: QueueId, clock: nat): View {
    if Head(v, q).None? || Head(v, q).value !in v.threads then v
    else WakeHead(v, q, Wake(v.threads[Head(v, q).value], clock))
  }

  ghost predicate HeadReady(v: View, q: QueueId) {
    Head(v, q).Some? ==> Waits(v, Head(v, q).value) && Wakeable(v, Head(v, q).value)
  }

  lemma HeadWokenKeeps(v: View, q: QueueId, clock: nat)
    requires Inv(v) && AllAccounted(v.threads)
    ensures HeadReady(v, q) && Inv(HeadWoken(v, q, clock))
    ensures DeadUnjoined(v) ==> DeadUnjoined(HeadWoken(v, q, clock))
  {
    if Head(v, q).Some? {
      var id := Head(v, q).value;
      assert id in v.queues[q];
      var t := Wake(v.threads[id], clock);
      WakeAccounted(v.threads[id], clock);
      InvWakeable(v, id);
      WakeHeadKeeps(v, q, t);
      if DeadUnjoined(v) {
        WakeHeadUnjoined(v, q, t);
      }
    }
  }

  /** The first `n` waiters of `q` left it, and no other queue changed. */
  ghost predicate HeadsLeft(v0: View, v: View, q: QueueId, n: nat) {
    && n <= |Waiters(v0.queues, q)| && Waiters(v.queues, q) == Waiters(v0.queues, q)[n..]
    && forall r :: r != q ==> Waiters(v.queues, r) == Waiters(v0.queues, r)
  }

  /** Exactly the threads in `ids` were woken. */
  ghost predicate ThreadsWoken(v0: View, v: View, ids: seq<nat>, clock: nat) {
    && v.current == v0.current && v.idle == v0.idle && v.graveyard == v0.graveyard
    && v.threads.Keys == v0.threads.Keys
    && forall id :: id in v0.threads ==>
         v.threads[id] == if id in ids then Wake(v0.threads[id], clock) else v0.threads[id]
  }

  /** From `v0` to `v`, exactly the first `n` waiters of `q` were woken. */
  ghost predicate QueueWoken(v0: View, v: View, q: QueueId, n: nat, clock: nat) {
    HeadsLeft(v0, v, q, n) && ThreadsWoken(v0, v, Waiters(v0.queues, q)[..n], clock)
  }

  lemma WokenStep(v0: View, v: View, q: QueueId, n: nat, clock: nat)
    requires QueuesOk(v0) && QueuesOk(v) && QueueWoken(v0, v, q, n, clock)
    ensures if Head(v, q) == None then n == |Waiters(v0.queues, q)|
            else QueueWoken(v0, HeadWoken(v, q, clock), q, n + 1, clock)
  {
    var all := Waiters(v0.queues, q);
    if n < |all| {
      assert v.queues[q][0] == all[n] && all[n] in v.queues[q];
      HeadLeft(v0, v, q, n, clock);
      assert NoDup(all);
      HeadThread(v0, v, q, n, clock);
    }
  }

  lemma HeadLeft(v0: View, v: View, q: QueueId, n: nat, clock: nat)
    requires HeadsLeft(v0, v, q, n) && n < |Waiters(v0.queues, q)| && Head(v, q).Some? && Head(v, q).value in v.threads
    ensures HeadsLeft(v0, HeadWoken(v, q, clock), q, n + 1)
  {
  }

  lemma HeadThread(v0: View, v: View, q: QueueId, n: nat, clock: nat)
    requires n < |Waiters(v0.queues, q)| && NoDup(Waiters(v0.queues, q))
    requires ThreadsWoken(v0, v, Waiters(v0.queues, q)[..n], clock)
    requires Head(v, q) == Some(Waiters(v0.queues, q)[n]) && Head(v, q).value in v.threads
    ensures ThreadsWoken(v0, HeadWoken(v, q, clock), Waiters(v0.queues, q)[..n + 1], clock)
  {
    var all := Waiters(v0.queues, q);
    assert all[..n + 1] == all[..n] + [all[n]];
  }

  /** The running thread is dead and its joiners are woken. */
  ghost predicate Exited(v: View, v': View, clock: nat) {
    && v.current.Some? && v.current.value in v.threads
    && var q := Join(v.current.value);
    QueueWoken(SetState(v, v.current.value, Zombie), v', q, |Waiters(v.queues, q)|, clock)
  }

  lemma ExitUnjoined(v: View, v': View, clock: nat)
    requires Inv(v) && DeadUnjoined(v) && Exited(v, v', clock)
    ensures DeadUnjoined(v')
  {
    var id := v.current.value;
    var v1 := SetState(v, id, Zombie);
    assert Waiters(v'.queues, Join(id)) == [];
    forall d | d != id && (d in v'.threads ==> v'.threads[d].state == Zombie) ensures Waiters(v'.queues, Join(d)) == [] {
      assert d in v'.threads ==> d in v.threads;
      assert Waiters(v'.queues, Join(d)) == Waiters(v.queues, Join(d));
    }
  }

  // ----- the tree as the scheduler sees it -----

  lemma KeysKept(m: Store, m': Store, s: set<Ptr>)
    requires LinksOnly(m, m', s)
    ensures KeysOf(m') == KeysOf(m)
  {
  }

  /** A new node outside the tree. */
  method NewDetached(tree: RunTree, vruntime: nat, id: nat, deadline: nat) returns (p: Ptr)
    requires tree.Valid()
    modifies tree`mem
    ensures tree.Valid() && p != NULL && p !in old(tree.mem) && p in tree.mem && p !in Ids(tree.tree)
    ensures KeysOf(tree.mem) == old(KeysOf(tree.mem))[p := NodeKey(id, vruntime, deadline, deadline)]
  {
    IdsInorder(tree.tree);
    p := tree.NewNode(vruntime, id, deadline);
  }

  method Attach(tree: RunTree, p: Ptr)
    requires tree.Valid() && p != NULL && p in tree.mem && p !in Ids(tree.tree)
    modifies tree
    ensures tree.Valid() && Ids(tree.tree) == old(Ids(tree.tree)) + {p} && KeysOf(tree.mem) == old(KeysOf(tree.mem))
  {
    ghost var k := tree.Insert(p);
    KeysKept(old(tree.mem), tree.mem, old(Ids(tree.tree)) + {p});
  }

  method Detach(tree: RunTree, p: Ptr)
    requires tree.Valid() && p in Ids(tree.tree)
    modifies tree
    ensures tree.Valid() && Ids(tree.tree) == old(Ids(tree.tree)) - {p} && KeysOf(tree.mem) == old(KeysOf(tree.mem))
  {
    ghost var k := tree.Remove(p);
    KeysKept(old(tree.mem), tree.mem, old(Ids(tree.tree)));
  }

  method PickNode(tree: RunTree, ghost v: View, clock: nat) returns (p: Ptr)
    requires tree.Valid() && v.ready == Ids(tree.tree) && v.nodes == KeysOf(tree.mem)
    ensures if v.ready == {} then p == NULL
            else p in v.ready && p in tree.mem && Chosen(RunQueue(tree.mem, tree.root, tree.tree), p, clock)
  {
    ghost var walk;
    IdsInorder(tree.tree);
    p, walk := tree.Pick(clock);
    if p != NULL {
      assert ChosenBy(RunQueue(tree.mem, tree.root, tree.tree), p, clock, walk);
    }
  }

  /** Writes a node's keys and inserts it. */
  method Enqueue(tree: RunTree, p: Ptr, vruntime: nat, deadline: nat)
    requires tree.Valid() && p != NULL && p in tree.mem && p !in Ids(tree.tree)
    modifies tree
    ensures tree.Valid() && Ids(tree.tree) == old(Ids(tree.tree)) + {p}
    ensures KeysOf(tree.mem) ==
      old(KeysOf(tree.mem))[p := NodeKey(old(tree.mem[p].taskId), vruntime, deadline, old(tree.mem[p].minDeadline))]
  {
    tree.SetKeys(p, vruntime, deadline);
    Attach(tree, p);
  }

  /** Puts a thread into the arena and tells it its id. */
  method Enroll(arena: ThreadArena, task: Thread) returns (id: nat)
    requires arena.Valid()
    modifies arena
    ensures arena.Valid() && id !in Tasks(old(arena.slots))
    ensures Tasks(arena.slots) == Tasks(old(arena.slots))[id := task.(tid := id)]
  {
    id := arena.Insert(task);
    arena.Put(id, task.(tid := id));
  }

  class Scheduler {
    const arena: ThreadArena
    const tree: RunTree
    var totalWeight: nat
    var systemRuntime: nat
    var currentTask: Option<nat>
    var idleTask: Option<nat>
    var graveyard: seq<nat>
    var queues: map<QueueId, seq<nat>>

    /** The state, with `cur` in the place of the running thread. */
    ghost function Snapshot(cur: Option<nat>): View
      reads this, arena, tree
    {
      View(Tasks(arena.slots), KeysOf(tree.mem), Ids(tree.tree), cur, idleTask, graveyard, queues)
    }

    ghost function Queue(): RunQueue
      reads this, tree
    {
      RunQueue(tree.mem, tree.root, tree.tree)
    }

    ghost function Now(): View
      reads this, arena, tree
    {
      Snapshot(currentTask)
    }

    ghost predicate Parts()
      reads this, arena, tree
    {
      arena.Valid() && tree.Valid() && AllAccounted(Tasks(arena.slots))
    }

    /** Between the steps of an operation. */
    ghost predicate Settled()
      reads this, arena, tree
    {
      Parts() && Inv(Now())
    }

    ghost predicate Valid()
      reads this, arena, tree
    {
      Settled() && DeadUnjoined(Now())
    }

    constructor ()
      ensures Valid() && fresh(arena) && fresh(tree)
      ensures Now() == NO_THREADS
    {
      arena := new ThreadArena();
      tree := new RunTree();
      totalWeight, systemRuntime, currentTask, idleTask, graveyard, queues := 0, 0, None, None, [], map[];
      new;
      assert Now() == NO_THREADS;
      EmptyInv();
    }

    method Admit(task: Thread) returns (id: nat, node: Ptr)
      requires Parts() && Accounted(task)
      modifies this`totalWeight, arena, tree
      ensures Parts() && id !in old(Now()).threads && node != NULL && node !in old(Now()).nodes
      ensures totalWeight == Wrap(old(totalWeight) + task.weight)
      ensures Now() == SchedView.Spawn(old(Now()), id, task.(tid := id, rbNode := node))
    {
      totalWeight := Wrap(totalWeight + task.weight);
      id := Enroll(arena, task);
      node := NewDetached(tree, task.vruntime, id, task.deadline);
      arena.Put(id, task.(tid := id, rbNode := node));
      Attach(tree, node);
      assert Tasks(arena.slots) == old(Now()).threads[id := task.(tid := id, rbNode := node)];
    }

    /** A new thread gets an id no live thread has and enters the run tree. */
    method AddTask(task: Thread) returns (id: nat)
      requires Valid() && task.state == Ready && Accounted(task)
      modifies this`totalWeight, arena, tree
      ensures Valid() && id !in old(Now()).threads && totalWeight == Wrap(old(totalWeight) + task.weight)
      ensures exists node :: node != NULL && node !in old(Now()).nodes
                && Now() == SchedView.Spawn(old(Now()), id, task.(tid := id, rbNode := node))
    {
      var node;
      id, node := Admit(task);
      SpawnKeeps(old(Now()), id, task.(tid := id, rbNode := node));
    }

    method SetIdleTask(task: Thread)
      requires Valid() && task.state == Ready && task.rbNode == NULL && Accounted(task)
      modifies this`idleTask, arena
      ensures Parts() && (Valid() <==> old(idleTask) == None)
      ensures idleTask.Some? && idleTask.value !in old(Now()).threads
      ensures Now() == Install(old(Now()), idleTask.value, task.(tid := idleTask.value))
    {
      var id := Enroll(arena, task);
      idleTask := Some(id);
      InstallKeeps(old(Now()), id, task.(tid := id));
    }

    /** A buried thread leaves the arena; the running one would be put back. */
    method ReapOne()
      requires Parts() && graveyard != []
      modifies this`graveyard, arena
      ensures Parts()
      ensures Now() == if currentTask != Some(old(graveyard[0])) then Reap(old(Now()))
                       else old(Now()).(graveyard := old(graveyard[1..] + graveyard[..1]))
    {
      var zombie := graveyard[0];
      graveyard := graveyard[1..];
      if currentTask != Some(zombie) {
        var dead := arena.Remove(zombie);
      } else {
        graveyard := graveyard + [zombie];
      }
    }

    /** Every buried thread leaves the arena. */
    method ReapZombies()
      requires Valid()
      modifies this`graveyard, arena
      ensures Valid() && Now() == ReapAll(old(Now()))
    {
      var n := |graveyard|;
      for i := 0 to n
        invariant Valid() && |graveyard| == n - i && ReapAll(Now()) == ReapAll(old(Now()))
      {
        ReapKeeps(Now());
        ReapAllStep(Now());
        ReapOne();
      }
    }

    /** A dead thread loses its node and goes to the graveyard. */
    method BuryTask(id: nat, task: Thread)
      requires Parts() && id in Tasks(arena.slots) && Tasks(arena.slots)[id] == task && currentTask == Some(id)
      requires task.rbNode != NULL && task.rbNode in tree.mem && task.rbNode !in Ids(tree.tree)
      modifies this`graveyard, arena, tree
      ensures Parts() && Snapshot(None) == Bury(old(Now()), id)
    {
      if task.rbNode != NULL {
        tree.FreeNode(task.rbNode);
      }
      graveyard := graveyard + [id];
      arena.Put(id, task.(rbNode := NULL));
      assert KeysOf(tree.mem) == old(Now()).nodes - {task.rbNode};
    }

    method ChargeTask(id: nat, task: Thread) returns (charged: Thread)
      requires Parts() && id in Tasks(arena.slots) && Tasks(arena.slots)[id] == task
      modifies this`systemRuntime, arena
      ensures Parts() && systemRuntime == NextClock(old(systemRuntime), totalWeight)
      ensures charged == Charge(task, systemRuntime) && Tasks(arena.slots) == Tasks(old(arena.slots))[id := charged]
    {
      systemRuntime := NextClock(systemRuntime, totalWeight);
      charged := Charge(task, systemRuntime);
      ChargeAccounted(task, systemRuntime);
      arena.Put(id, charged);
    }

    /** Takes the processor from the running thread. */
    method StopCurrent()
      requires Parts() && Stoppable(Now()) && idleTask.Some?
      modifies this`graveyard, this`systemRuntime, arena, tree
      ensures Parts() && Snapshot(None) == Stopped(old(Now()), systemRuntime)
      ensures systemRuntime == if Charged(old(Now())) then NextClock(old(systemRuntime), totalWeight) else old(systemRuntime)
    {
      if currentTask.Some? {
        var id := currentTask.value;
        var r := arena.Get(id);
        var task := r.value;
        if task.state == Zombie {
          BuryTask(id, task);
        } else {
          task := ChargeTask(id, task);
        }
        if task.state == Ready && task.tid != idleTask.value {
          Enqueue(tree, task.rbNode, task.vruntime, task.deadline);
        }
      }
    }

    /** The owner of a tree node starts running.  It is always found in the arena. */
    method RunOwner(node: Ptr, ghost v: View)
      requires Parts() && v == Snapshot(None) && Inv(v) && node in v.ready
      modifies this`currentTask, tree
      ensures Parts() && node in v.nodes && Now() == SchedView.Dispatch(v, node)
    {
      DispatchKeeps(v, node);
      Detach(tree, node);
      var winner := tree.mem[node].taskId;
      currentTask := Some(winner);
      var r := arena.Get(winner);
      assert r.Some?;
    }

    /** Chooses the next thread: the owner of the node EEVDF picks, else the
        idle thread. */
    method Dispatch()
      requires Parts() && Inv(Snapshot(None)) && idleTask.Some?
      modifies this`currentTask, tree
      ensures Parts() && Next(old(Queue()), old(Snapshot(None)), Now(), systemRuntime)
    {
      ghost var v, q := Snapshot(None), Queue();
      var node;
      node := PickNode(tree, v, systemRuntime);
      if node == NULL {
        currentTask := idleTask;
      } else {
        RunOwner(node, v);
        assert Chosen(q, node, systemRuntime);
      }
    }

    /** Chooses the next thread after `v0` was stopped. */
    method Resume(ghost v0: View, ghost clock: nat, ghost v: View, ghost q: RunQueue)
      requires Parts() && Inv(v) && DeadUnjoined(v) && v == Snapshot(None) && q == Queue() && idleTask.Some?
      requires StoppedFrom(v0, clock, totalWeight, v, systemRuntime)
      modifies this`currentTask, tree
      ensures Valid() && Switched(v0, clock, totalWeight, v, q, Now(), systemRuntime)
    {
      Dispatch();
      NextKeeps(q, v, Now(), systemRuntime);
    }

    /** Reaps, then stops the running thread. */
    method Preempt() returns (ghost stopped: View)
      requires Valid() && idleTask.Some?
      modifies this`graveyard, this`systemRuntime, arena, tree
      ensures Parts() && Inv(stopped) && DeadUnjoined(stopped) && stopped == Snapshot(None)
      ensures StoppedFrom(old(Now()), old(systemRuntime), totalWeight, stopped, systemRuntime)
    {
      ReapZombies();
      ghost var v := Now();
      InvStoppable(v);
      StopCurrent();
      StoppedKeeps(v, systemRuntime);
      StoppedAccounted(v, systemRuntime);
      stopped := Snapshot(None);
    }

    /** The timer, when there are threads. */
    method Switch() returns (ghost stopped: View, ghost q: RunQueue)
      requires Valid() && idleTask.Some?
      modifies this`graveyard, this`systemRuntime, this`currentTask, arena, tree
      ensures Valid() && Switched(old(Now()), old(systemRuntime), totalWeight, stopped, q, Now(), systemRuntime)
    {
      stopped := Preempt();
      q := Queue();
      Resume(old(Now()), old(systemRuntime), stopped, q);
    }

    /** The timer: reap, stop the running thread, choose the next one, who is ready. */
    method Schedule() returns (ghost stopped: View, ghost q: RunQueue)
      requires Valid() && (idleTask.Some? || arena.slots == [])
      modifies this`graveyard, this`systemRuntime, this`currentTask, arena, tree
      ensures Valid()
      ensures old(arena.slots) == [] ==> Now() == old(Now()) && systemRuntime == old(systemRuntime)
      ensures old(arena.slots) != [] ==>
        Switched(old(Now()), old(systemRuntime), totalWeight, stopped, q, Now(), systemRuntime)
    {
      stopped, q := Now(), Queue();
      var none := arena.IsEmpty();
      if !none {
        stopped, q := Switch();
      }
    }

    /** A sleeping or blocked thread becomes ready; others are left alone. */
    method WakeTask(id: nat)
      requires Parts() && Wakeable(Now(), id)
      modifies arena, tree
      ensures Parts()
      ensures Now() == if Waits(old(Now()), id)
                       then MakeReady(old(Now()), id, Wake(old(Now()).threads[id], systemRuntime)) else old(Now())
    {
      var r := arena.Get(id);
      if r.Some? && (r.value.state == Sleeping || r.value.state == Blocked) {
        var task := Wake(r.value, systemRuntime);
        WakeAccounted(r.value, systemRuntime);
        arena.Put(id, task);
        if currentTask != Some(id) {
          Enqueue(tree, task.rbNode, task.vruntime, task.deadline);
        }
      }
    }

    /** wake_task for a thread that is in no queue: a sleeper becomes ready,
        and any other is left alone. */
    method WakeSleeper(id: nat)
      requires Valid() && (id in Now().threads ==> Now().threads[id].state != Blocked)
      modifies arena, tree
      ensures Valid()
      ensures Now() == if Waits(old(Now()), id)
                       then MakeReady(old(Now()), id, Wake(old(Now()).threads[id], systemRuntime)) else old(Now())
    {
      ghost var v := Now();
      if Waits(v, id) {
        WakeAccounted(v.threads[id], systemRuntime);
        MakeReadyTree(v, id, Wake(v.threads[id], systemRuntime));
        WakeSleeperKeeps(v, id, Wake(v.threads[id], systemRuntime));
      }
      WakeTask(id);
    }

    /** Pops the head of a queue and wakes it. */
    method PopAndWake(q: QueueId) returns (head: Option<nat>)
      requires Parts() && HeadReady(Now(), q)
      modifies this`queues, arena, tree
      ensures Parts() && head == Head(old(Now()), q) && Now() == HeadWoken(old(Now()), q, systemRuntime)
    {
      var waiters := if q in queues then queues[q] else [];
      if waiters == [] {
        return None;
      }
      head := Some(waiters[0]);
      queues := queues[q := waiters[1..]];
      WakeTask(waiters[0]);
    }

    /** The oldest waiter of a queue becomes ready. */
    method WakeOne(q: QueueId) returns (head: Option<nat>)
      requires Settled()
      modifies this`queues, arena, tree
      ensures Settled() && (old(Valid()) ==> Valid())
      ensures head == Head(old(Now()), q) && Now() == HeadWoken(old(Now()), q, systemRuntime)
      ensures var w := Waiters(old(queues), q);
        if w == [] then head == None && Now() == old(Now()) else head == Some(w[0]) && Waiters(queues, q) == w[1..]
    {
      HeadWokenKeeps(Now(), q, systemRuntime);
      head := PopAndWake(q);
    }

    /** Every waiter of a queue becomes ready, and nothing else changes. */
    method WakeAll(q: QueueId)
      requires Settled()
      modifies this`queues, arena, tree
      ensures Settled() && QueueWoken(old(Now()), Now(), q, |Waiters(old(queues), q)|, systemRuntime)
    {
      ghost var n := 0;
      ghost var v0 := Now();
      while true
        invariant Settled() && QueueWoken(v0, Now(), q, n, systemRuntime)
        decreases |Waiters(v0.queues, q)| - n
      {
        WokenStep(v0, Now(), q, n, systemRuntime);
        var head := WakeOne(q);
        if head == None {
          break;
        }
        n := n + 1;
      }
    }

    /** A thread other than the idle one runs and is ready: it may act. */
    ghost predicate Acting()
      reads this, arena, tree
    {
      currentTask.Some? && currentTask != idleTask && currentTask.value in Now().threads
      && Now().threads[currentTask.value].state == Ready
    }

    method SetCurrentState(st: ThreadState)
      requires Parts() && currentTask.Some? && currentTask.value in Now().threads
      modifies arena
      ensures Parts() && Now() == SetState(old(Now()), currentTask.value, st)
    {
      var r := arena.Get(currentTask.value);
      arena.Put(currentTask.value, r.value.(state := st));
    }

    method Enlist(q: QueueId)
      requires Parts() && currentTask.Some? && currentTask.value in Now().threads
      modifies this`queues, arena
      ensures Parts() && Now() == BlockOn(old(Now()), currentTask.value, q)
    {
      SetCurrentState(Blocked);
      queues := queues[q := (if q in queues then queues[q] else []) + [currentTask.value]];
    }

    /** The section of lock, acquire and wait that puts the caller to sleep. */
    method Block(q: QueueId)
      requires Valid() && Acting()
      requires q.Join? ==> q.tid in Now().threads && Now().threads[q.tid].state != Zombie
      modifies this`queues, arena
      ensures Valid() && Now() == BlockOn(old(Now()), currentTask.value, q)
      ensures Waiters(queues, q) == Waiters(old(queues), q) + [currentTask.value]
    {
      BlockOnKeeps(Now(), currentTask.value, q);
      Enlist(q);
    }

    /** Waits for a live thread to exit; returns at once for the caller itself
        and for threads that are dead or gone. */
    method Join(target: nat)
      requires Valid() && Acting()
      modifies this`queues, arena
      ensures Valid()
      ensures Now() == if target != currentTask.value && target in old(Now()).threads
                          && old(Now()).threads[target].state != Zombie
                       then BlockOn(old(Now()), currentTask.value, SchedView.Join(target)) else old(Now())
    {
      if currentTask.value == target {
        return;
      }
      var r := arena.Get(target);
      if r.None? || r.value.state == Zombie {
        return;
      }
      Block(SchedView.Join(target));
    }

    /** The caller dies and everyone who joined it becomes ready. */
    method ExitThread()
      requires Valid() && Acting()
      modifies this`queues, arena, tree
      ensures Valid() && Exited(old(Now()), Now(), systemRuntime)
    {
      ghost var v, id := Now(), currentTask.value;
      SetStateKeeps(v, id, Zombie);
      SetCurrentState(Zombie);
      WakeAll(SchedView.Join(currentTask.value));
      ExitUnjoined(v, Now(), systemRuntime);
    }

    method SleepCurrentTask()
      requires Valid() && (currentTask.Some? ==> Acting())
      modifies arena
      ensures Valid() && Now() == if currentTask.Some? then SetState(old(Now()), currentTask.value, Sleeping) else old(Now())
    {
      if currentTask.Some? {
        SetStateKeeps(Now(), currentTask.value, Sleeping);
        SetCurrentState(Sleeping);
      }
    }
  }
}
