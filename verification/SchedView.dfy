/**
  Where every thread is: the scheduler's state as values, and the invariant
  that ties a thread's state to the run tree, the wait queues and the
  graveyard.
 */
module SchedView {
  import opened Options
  import opened RbShape
  import opened NodeStore
  import opened Sequences

  datatype ThreadState = Running | Ready | Sleeping | Blocked | Zombie

  datatype Thread = Thread(
    tid: nat, state: ThreadState, weight: nat, realRuntime: nat, vruntime: nat, lag: int,
    timeSlice: nat, deadline: nat, burstScore: nat, rbNode: Ptr)

  /** A wait queue is a thread's join queue or belongs to a lock, semaphore or process. */
  datatype QueueId = Join(tid: nat) | Other(id: nat)

  /** What the scheduler writes into a node; the links are the tree's business. */
  datatype NodeKey = NodeKey(taskId: nat, vruntime: nat, deadline: nat, minDeadline: nat)

  function KeysOf(m: Store): map<Ptr, NodeKey> {
    map p | p in m :: NodeKey(m[p].taskId, m[p].vruntime, m[p].deadline, m[p].minDeadline)
  }

  /** The node of thread `id` gets the thread's keys; its minDeadline is set
      when the node is new and never again. */
  function Rekeyed(nodes: map<Ptr, NodeKey>, id: nat, t: Thread): map<Ptr, NodeKey> {
    var hint := if t.rbNode in nodes then nodes[t.rbNode].minDeadline else t.deadline;
    nodes[t.rbNode := NodeKey(id, t.vruntime, t.deadline, hint)]
  }

  datatype View = View(
    threads: map<nat, Thread>,
    nodes: map<Ptr, NodeKey>,
    ready: set<Ptr>,
    current: Option<nat>,
    idle: Option<nat>,
    graveyard: seq<nat>,
    queues: map<QueueId, seq<nat>>)

  function Waiters(queues: map<QueueId, seq<nat>>, q: QueueId): seq<nat> {
    if q in queues then queues[q] else []
  }

  /** Neither idle nor already buried: a thread that owns a node. */
  ghost predicate OwnsNode(v: View, id: nat)
    requires id in v.threads
  {
    v.idle != Some(id) && !(v.threads[id].state == Zombie && v.current != Some(id))
  }

  /** Threads, their ids and their nodes. */
  ghost predicate ThreadsOk(v: View) {
    && (forall id :: id in v.threads ==> v.threads[id].tid == id)
    && (v.current.Some? ==> v.current.value in v.threads)
    && (v.idle.Some? ==> v.idle.value in v.threads && v.threads[v.idle.value].state == Ready)
    && (forall id :: id in v.threads && OwnsNode(v, id) ==>
          v.threads[id].rbNode != NULL && v.threads[id].rbNode in v.nodes && v.nodes[v.threads[id].rbNode].taskId == id)
    && (forall id :: id in v.threads && !OwnsNode(v, id) ==> v.threads[id].rbNode == NULL)
  }

  /** In the run tree, with up-to-date keys, iff ready and not running. */
  ghost predicate TreeOk(v: View) {
    && (forall p :: p in v.ready ==>
          p != NULL && p in v.nodes && v.nodes[p].taskId in v.threads && v.threads[v.nodes[p].taskId].rbNode == p)
    && (forall id :: id in v.threads && v.idle != Some(id) ==>
          (v.threads[id].rbNode in v.ready <==> v.threads[id].state == Ready && v.current != Some(id)))
    && (forall id :: id in v.threads && v.threads[id].rbNode in v.ready ==>
          && v.nodes[v.threads[id].rbNode].vruntime == v.threads[id].vruntime
          && v.nodes[v.threads[id].rbNode].deadline == v.threads[id].deadline)
  }

  /** In the graveyard, once, iff dead and not running any more. */
  ghost predicate GraveyardOk(v: View) {
    && NoDup(v.graveyard)
    && forall id :: id in v.graveyard <==> id in v.threads && v.threads[id].state == Zombie && v.current != Some(id)
  }

  /** In exactly one wait queue, once, iff blocked. */
  ghost predicate QueuesOk(v: View) {
    && (forall q :: q in v.queues ==> NoDup(v.queues[q]))
    && (forall q, id :: q in v.queues && id in v.queues[q] ==> id in v.threads && v.threads[id].state == Blocked)
    && (forall q, r, id :: q in v.queues && r in v.queues && id in v.queues[q] && id in v.queues[r] ==> q == r)
    && (forall id :: id in v.threads && v.threads[id].state == Blocked ==> Queued(v, id))
  }

  ghost predicate Queued(v: View, id: nat) {
    exists q :: q in v.queues && id in v.queues[q]
  }

  ghost predicate Inv(v: View) {
    ThreadsOk(v) && TreeOk(v) && GraveyardOk(v) && QueuesOk(v)
  }

  /** Nobody waits for a thread that is gone. */
  ghost predicate DeadUnjoined(v: View) {
    && (forall id :: id in v.threads && v.threads[id].state == Zombie ==> Waiters(v.queues, Join(id)) == [])
    && (forall id :: id !in v.threads ==> Waiters(v.queues, Join(id)) == [])
  }

  /** Every thread but the idle one is in exactly the place its state says, once. */
  lemma InOnePlace(v: View, id: nat)
    requires Inv(v) && id in v.threads && v.idle != Some(id)
    ensures v.threads[id].rbNode in v.ready <==> v.threads[id].state == Ready && v.current != Some(id)
    ensures multiset(v.graveyard)[id] == if v.threads[id].state == Zombie && v.current != Some(id) then 1 else 0
    ensures v.threads[id].state != Blocked ==> forall q :: q in v.queues ==> multiset(v.queues[q])[id] == 0
    ensures v.threads[id].state == Blocked ==>
      exists q :: q in v.queues && multiset(v.queues[q])[id] == 1
        && forall r :: r in v.queues && r != q ==> multiset(v.queues[r])[id] == 0
  {
    Once(v.graveyard, id);
    if v.threads[id].state == Blocked {
      assert Queued(v, id);
      var q :| q in v.queues && id in v.queues[q];
      Once(v.queues[q], id);
      forall r | r in v.queues && r != q ensures multiset(v.queues[r])[id] == 0 {
        assert id !in v.queues[r];
      }
    } else {
      forall q | q in v.queues ensures multiset(v.queues[q])[id] == 0 {
        assert id !in v.queues[q];
      }
    }
  }

  lemma {:induction false} Once(s: seq<nat>, id: nat)
    requires NoDup(s)
    ensures multiset(s)[id] == if id in s then 1 else 0
  {
    if s != [] {
      assert s == [s[0]] + s[1..];
      Once(s[1..], id);
    }
  }

  /** Queues are fine as long as the same threads are blocked. */
  lemma QueuesFrame(v: View, v': View)
    requires QueuesOk(v) && v'.queues == v.queues
    requires forall id :: id in v.threads && v.threads[id].state == Blocked
                     <==> id in v'.threads && v'.threads[id].state == Blocked
    ensures QueuesOk(v')
  {
    forall id | id in v'.threads && v'.threads[id].state == Blocked ensures Queued(v', id) {
      assert Queued(v, id);
    }
  }

  ghost predicate Dead(v: View, id: nat) {
    id in v.threads && v.threads[id].state == Zombie && v.current != Some(id)
  }

  lemma GraveyardFrame(v: View, v': View)
    requires GraveyardOk(v) && v'.graveyard == v.graveyard
    requires forall id :: Dead(v, id) <==> Dead(v', id)
    ensures GraveyardOk(v')
  {
    forall id ensures id in v'.graveyard <==> Dead(v', id) {
      assert Dead(v, id) <==> Dead(v', id);
    }
  }

  // ----- steps -----

  /** `t` with new accounting values only. */
  predicate Reaccounted(t: Thread, t': Thread) {
    t'.tid == t.tid && t'.state == t.state && t'.rbNode == t.rbNode && t'.weight == t.weight && t'.timeSlice == t.timeSlice
  }

  /** The running thread is ready: it returns to the run tree. */
  function PutBack(v: View, id: nat, t: Thread): View {
    v.(threads := v.threads[id := t], current := None, ready := v.ready + {t.rbNode},
       nodes := Rekeyed(v.nodes, id, t))
  }

  lemma PutBackKeeps(v: View, id: nat, t: Thread)
    requires Inv(v) && v.current == Some(id) && v.idle != Some(id)
    requires v.threads[id].state == Ready && Reaccounted(v.threads[id], t)
    ensures Inv(PutBack(v, id, t)) && t.rbNode !in v.ready && t.rbNode in v.nodes && t.rbNode != NULL
  {
    QueuesFrame(v, PutBack(v, id, t));
    PutBackTree(v, id, t);
  }

  lemma PutBackTree(v: View, id: nat, t: Thread)
    requires ThreadsOk(v) && TreeOk(v) && v.current == Some(id) && v.idle != Some(id)
    requires v.threads[id].state == Ready && Reaccounted(v.threads[id], t)
    ensures TreeOk(PutBack(v, id, t)) && ThreadsOk(PutBack(v, id, t))
  {
    assert t.rbNode !in v.ready;
  }

  /** The running thread is blocked, asleep or idle: it just stops running. */
  function Leave(v: View, id: nat, t: Thread): View {
    v.(threads := v.threads[id := t], current := None)
  }

  lemma LeaveKeeps(v: View, id: nat, t: Thread)
    requires Inv(v) && v.current == Some(id) && Reaccounted(v.threads[id], t)
    requires v.idle == Some(id) || (t.state != Ready && t.state != Zombie)
    ensures Inv(Leave(v, id, t))
  {
    QueuesFrame(v, Leave(v, id, t));
    LeaveTree(v, id, t);
  }

  lemma LeaveTree(v: View, id: nat, t: Thread)
    requires ThreadsOk(v) && TreeOk(v) && v.current == Some(id) && Reaccounted(v.threads[id], t)
    requires v.idle == Some(id) || (t.state != Ready && t.state != Zombie)
    ensures TreeOk(Leave(v, id, t)) && ThreadsOk(Leave(v, id, t))
  {
    assert t.rbNode !in v.ready;
  }

  /** The running thread is dead: its node is freed and it goes to the graveyard. */
  function Bury(v: View, id: nat): View
    requires id in v.threads
  {
    var t := v.threads[id];
    v.(threads := v.threads[id := t.(rbNode := NULL)], nodes := v.nodes - {t.rbNode},
       graveyard := v.graveyard + [id], current := None)
  }

  lemma BuryKeeps(v: View, id: nat)
    requires Inv(v) && v.current == Some(id) && v.threads[id].state == Zombie
    ensures Inv(Bury(v, id)) && v.threads[id].rbNode in v.nodes && v.threads[id].rbNode !in v.ready
  {
    var v' := Bury(v, id);
    QueuesFrame(v, v');
    BuryThreads(v, id);
    BuryTree(v, id);
    assert v'.graveyard[..|v.graveyard|] == v.graveyard;
  }

  lemma BuryThreads(v: View, id: nat)
    requires Inv(v) && v.current == Some(id) && v.threads[id].state == Zombie
    ensures ThreadsOk(Bury(v, id))
  {
  }

  lemma BuryTree(v: View, id: nat)
    requires Inv(v) && v.current == Some(id) && v.threads[id].state == Zombie
    ensures TreeOk(Bury(v, id))
  {
    var p := v.threads[id].rbNode;
    assert p !in v.ready && NULL !in v.ready;
  }

  /** The owner of a tree node starts running. */
  function Dispatch(v: View, p: Ptr): View
    requires p in v.nodes
  {
    v.(ready := v.ready - {p}, current := Some(v.nodes[p].taskId))
  }

  lemma DispatchKeeps(v: View, p: Ptr)
    requires Inv(v) && v.current == None && p in v.ready
    ensures p in v.nodes && v.nodes[p].taskId in v.threads && Inv(Dispatch(v, p))
  {
    QueuesFrame(v, Dispatch(v, p));
  }

  lemma IdleKeeps(v: View)
    requires Inv(v) && v.current == None && v.idle.Some?
    ensures Inv(v.(current := v.idle))
  {
    QueuesFrame(v, v.(current := v.idle));
  }

  /** The oldest dead thread is removed from the arena. */
  function Reap(v: View): View
    requires v.graveyard != []
  {
    v.(threads := v.threads - {v.graveyard[0]}, graveyard := v.graveyard[1..])
  }

  lemma ReapKeeps(v: View)
    requires Inv(v) && DeadUnjoined(v) && v.graveyard != []
    ensures Inv(Reap(v)) && DeadUnjoined(Reap(v))
    ensures v.graveyard[0] in v.threads && v.current != Some(v.graveyard[0]) && v.idle != Some(v.graveyard[0])
  {
    var v', id := Reap(v), v.graveyard[0];
    assert id in v.graveyard;
    QueuesFrame(v, v');
    ReapTree(v);
    forall d ensures d in v'.graveyard <==> d in v.graveyard && d != id {
      assert v.graveyard == [id] + v.graveyard[1..];
    }
  }

  lemma ReapTree(v: View)
    requires ThreadsOk(v) && TreeOk(v) && GraveyardOk(v) && v.graveyard != []
    ensures ThreadsOk(Reap(v)) && TreeOk(Reap(v))
  {
    var id := v.graveyard[0];
    assert id in v.graveyard && v.threads[id].rbNode == NULL && NULL !in v.ready;
  }

  /** A new thread, with a new node already in the run tree. */
  function Spawn(v: View, id: nat, t: Thread): View {
    v.(threads := v.threads[id := t], ready := v.ready + {t.rbNode},
       nodes := Rekeyed(v.nodes, id, t))
  }

  lemma SpawnKeeps(v: View, id: nat, t: Thread)
    requires Inv(v) && DeadUnjoined(v) && id !in v.threads && t.tid == id && t.state == Ready
    requires t.rbNode != NULL && t.rbNode !in v.nodes
    ensures Inv(Spawn(v, id, t)) && DeadUnjoined(Spawn(v, id, t))
  {
    QueuesFrame(v, Spawn(v, id, t));
    GraveyardFrame(v, Spawn(v, id, t));
    SpawnThreads(v, id, t);
    SpawnTree(v, id, t);
  }

  lemma SpawnThreads(v: View, id: nat, t: Thread)
    requires ThreadsOk(v) && id !in v.threads && t.tid == id && t.state == Ready
    requires t.rbNode != NULL && t.rbNode !in v.nodes
    ensures ThreadsOk(Spawn(v, id, t))
  {
  }

  lemma SpawnTree(v: View, id: nat, t: Thread)
    requires ThreadsOk(v) && TreeOk(v) && id !in v.threads && t.tid == id && t.state == Ready
    requires t.rbNode != NULL && t.rbNode !in v.nodes
    ensures TreeOk(Spawn(v, id, t))
  {
    assert t.rbNode !in v.ready;
    assert forall d :: d in v.threads ==> v.threads[d].rbNode != t.rbNode;
  }

  /** The idle thread has no node. */
  function Install(v: View, id: nat, t: Thread): View {
    v.(threads := v.threads[id := t], idle := Some(id))
  }

  /** The invariant survives exactly the first installation: a second one
      would leave the old idle thread ready and without a node. */
  lemma InstallKeeps(v: View, id: nat, t: Thread)
    requires Inv(v) && DeadUnjoined(v) && id !in v.threads
    requires t.tid == id && t.state == Ready && t.rbNode == NULL
    ensures Inv(Install(v, id, t)) <==> v.idle == None
    ensures DeadUnjoined(Install(v, id, t))
  {
    if v.idle == None {
      QueuesFrame(v, Install(v, id, t));
      GraveyardFrame(v, Install(v, id, t));
      InstallTree(v, id, t);
    } else {
      assert OwnsNode(Install(v, id, t), v.idle.value);
    }
  }

  lemma InstallTree(v: View, id: nat, t: Thread)
    requires ThreadsOk(v) && TreeOk(v) && id !in v.threads && v.idle == None
    requires t.tid == id && t.state == Ready && t.rbNode == NULL
    ensures ThreadsOk(Install(v, id, t)) && TreeOk(Install(v, id, t))
  {
    assert NULL !in v.ready;
  }

  /** The running thread goes to the back of a queue. */
  function BlockOn(v: View, id: nat, q: QueueId): View
    requires id in v.threads
  {
    v.(threads := v.threads[id := v.threads[id].(state := Blocked)],
       queues := v.queues[q := Waiters(v.queues, q) + [id]])
  }

  lemma BlockOnKeeps(v: View, id: nat, q: QueueId)
    requires Inv(v) && DeadUnjoined(v) && v.current == Some(id) && v.idle != Some(id)
    requires v.threads[id].state == Ready
    requires q.Join? ==> q.tid in v.threads && v.threads[q.tid].state != Zombie
    ensures Inv(BlockOn(v, id, q)) && DeadUnjoined(BlockOn(v, id, q))
  {
    BlockOnQueues(v, id, q);
    GraveyardFrame(v, BlockOn(v, id, q));
    BlockOnTree(v, id, q);
  }

  lemma BlockOnTree(v: View, id: nat, q: QueueId)
    requires ThreadsOk(v) && TreeOk(v) && v.current == Some(id) && v.idle != Some(id)
    requires v.threads[id].state == Ready
    ensures ThreadsOk(BlockOn(v, id, q)) && TreeOk(BlockOn(v, id, q))
  {
  }

  lemma BlockOnQueues(v: View, id: nat, q: QueueId)
    requires QueuesOk(v) && id in v.threads && v.threads[id].state == Ready
    ensures QueuesOk(BlockOn(v, id, q))
  {
    var v' := BlockOn(v, id, q);
    forall d | d in v'.threads && v'.threads[d].state == Blocked ensures Queued(v', d) {
      if d == id {
        assert id in v'.queues[q];
      } else {
        assert Queued(v, d);
        var r :| r in v.queues && d in v.queues[r];
        assert r in v'.queues && d in v'.queues[r];
      }
    }
  }

  /** Thread `id` becomes ready with accounting `t`: a running thread keeps
      running, any other enters the run tree. */
  function MakeReady(v: View, id: nat, t: Thread): View {
    if v.current == Some(id) then v.(threads := v.threads[id := t])
    else v.(threads := v.threads[id := t], ready := v.ready + {t.rbNode},
            nodes := Rekeyed(v.nodes, id, t))
  }

  predicate WokenAs(t: Thread, t': Thread) {
    t'.state == Ready && t'.tid == t.tid && t'.rbNode == t.rbNode && t'.weight == t.weight && t'.timeSlice == t.timeSlice
  }

  lemma MakeReadyThreads(v: View, id: nat, t: Thread)
    requires ThreadsOk(v) && id in v.threads && WokenAs(v.threads[id], t)
    requires v.threads[id].state == Blocked || v.threads[id].state == Sleeping
    ensures ThreadsOk(MakeReady(v, id, t))
  {
    assert OwnsNode(v, id);
  }

  lemma MakeReadyTree(v: View, id: nat, t: Thread)
    requires ThreadsOk(v) && TreeOk(v) && id in v.threads && WokenAs(v.threads[id], t)
    requires v.threads[id].state == Blocked || v.threads[id].state == Sleeping
    ensures TreeOk(MakeReady(v, id, t))
    ensures v.idle != Some(id) && t.rbNode != NULL && t.rbNode in v.nodes && t.rbNode !in v.ready
  {
    assert OwnsNode(v, id);
    assert forall d :: d in v.threads && d != id ==> v.threads[d].rbNode != t.rbNode;
  }

  /** A sleeping thread, which is in no queue, may be woken directly. */
  lemma WakeSleeperKeeps(v: View, id: nat, t: Thread)
    requires Inv(v) && DeadUnjoined(v) && id in v.threads && v.threads[id].state == Sleeping && WokenAs(v.threads[id], t)
    ensures Inv(MakeReady(v, id, t)) && DeadUnjoined(MakeReady(v, id, t))
  {
    MakeReadyThreads(v, id, t);
    MakeReadyTree(v, id, t);
    SleeperElsewhere(v, id, t);
  }

  lemma SleeperElsewhere(v: View, id: nat, t: Thread)
    requires QueuesOk(v) && GraveyardOk(v) && DeadUnjoined(v)
    requires id in v.threads && v.threads[id].state == Sleeping && t.state == Ready
    ensures var v' := MakeReady(v, id, t); QueuesOk(v') && GraveyardOk(v') && DeadUnjoined(v')
  {
    QueuesFrame(v, MakeReady(v, id, t));
    GraveyardFrame(v, MakeReady(v, id, t));
  }

  /** The head of a queue leaves it and becomes ready. */
  function WakeHead(v: View, q: QueueId, t: Thread): View
    requires Waiters(v.queues, q) != []
  {
    var id := v.queues[q][0];
    MakeReady(v.(queues := v.queues[q := v.queues[q][1..]]), id, t)
  }

  lemma HeadBlocked(v: View, q: QueueId)
    requires QueuesOk(v) && Waiters(v.queues, q) != []
    ensures v.queues[q][0] in v.threads && v.threads[v.queues[q][0]].state == Blocked
  {
    assert v.queues[q][0] in v.queues[q];
  }

  lemma WakeHeadKeeps(v: View, q: QueueId, t: Thread)
    requires Inv(v) && Waiters(v.queues, q) != []
    ensures v.queues[q][0] in v.threads && v.threads[v.queues[q][0]].state == Blocked
    ensures WokenAs(v.threads[v.queues[q][0]], t) ==>
      && Inv(WakeHead(v, q, t)) && t.rbNode != NULL && t.rbNode in v.nodes && t.rbNode !in v.ready
      && v.idle != Some(v.queues[q][0])
  {
    HeadBlocked(v, q);
    if WokenAs(v.threads[v.queues[q][0]], t) {
      WakeHeadTree(v, q, t);
      WakeHeadGraveyard(v, q, t);
      WakeHeadQueues(v, q, t);
    }
  }

  lemma WakeHeadTree(v: View, q: QueueId, t: Thread)
    requires ThreadsOk(v) && TreeOk(v) && Waiters(v.queues, q) != [] && v.queues[q][0] in v.threads
    requires v.threads[v.queues[q][0]].state == Blocked && WokenAs(v.threads[v.queues[q][0]], t)
    ensures ThreadsOk(WakeHead(v, q, t)) && TreeOk(WakeHead(v, q, t))
    ensures t.rbNode != NULL && t.rbNode in v.nodes && t.rbNode !in v.ready && v.idle != Some(v.queues[q][0])
  {
    var u := v.(queues := v.queues[q := v.queues[q][1..]]);
    MakeReadyThreads(u, v.queues[q][0], t);
    MakeReadyTree(u, v.queues[q][0], t);
  }

  lemma WakeHeadGraveyard(v: View, q: QueueId, t: Thread)
    requires GraveyardOk(v) && Waiters(v.queues, q) != [] && v.queues[q][0] in v.threads
    requires v.threads[v.queues[q][0]].state == Blocked && t.state == Ready
    ensures GraveyardOk(WakeHead(v, q, t))
  {
    GraveyardFrame(v, WakeHead(v, q, t));
  }

  lemma WakeHeadQueues(v: View, q: QueueId, t: Thread)
    requires QueuesOk(v) && Waiters(v.queues, q) != [] && t.state == Ready
    ensures QueuesOk(WakeHead(v, q, t))
  {
    var v', id := WakeHead(v, q, t), v.queues[q][0];
    var s := v.queues[q];
    assert s == [id] + s[1..] && id in s;
    assert id !in s[1..];
    forall d | d in v'.threads && v'.threads[d].state == Blocked ensures Queued(v', d) {
      assert Queued(v, d);
      var r :| r in v.queues && d in v.queues[r];
      assert r in v'.queues && d in v'.queues[r];
    }
  }

  /** Wakers never touch the queue of a dead thread: it is empty. */
  lemma WakeHeadUnjoined(v: View, q: QueueId, t: Thread)
    requires DeadUnjoined(v) && Waiters(v.queues, q) != [] && v.queues[q][0] in v.threads
    requires WokenAs(v.threads[v.queues[q][0]], t)
    ensures DeadUnjoined(WakeHead(v, q, t))
  {
  }

  /** The running thread changes state without changing place. */
  function SetState(v: View, id: nat, st: ThreadState): View
    requires id in v.threads
  {
    v.(threads := v.threads[id := v.threads[id].(state := st)])
  }

  /** Exit and sleep: the running thread is no longer ready, but still runs. */
  lemma SetStateKeeps(v: View, id: nat, st: ThreadState)
    requires Inv(v) && v.current == Some(id) && v.idle != Some(id) && v.threads[id].state == Ready
    requires st == Zombie || st == Sleeping
    ensures Inv(SetState(v, id, st))
  {
    var v' := SetState(v, id, st);
    QueuesFrame(v, v');
    GraveyardFrame(v, v');
    SetStateTree(v, id, st);
  }

  lemma SetStateTree(v: View, id: nat, st: ThreadState)
    requires ThreadsOk(v) && TreeOk(v) && v.current == Some(id) && v.idle != Some(id) && v.threads[id].state == Ready
    requires st == Zombie || st == Sleeping
    ensures ThreadsOk(SetState(v, id, st)) && TreeOk(SetState(v, id, st))
  {
  }
}
