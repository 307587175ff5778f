/**
  The EEVDF pick as the scheduler sees it: which thread runs next, in terms
  of the run queue and of the threads that are ready.
 */
module SchedPick {
  import opened Options
  import opened RbShape
  import opened NodeStore
  import opened SchedView
  import opened EevdfWalk
  import opened EevdfTrace
  import opened EevdfOptimal

  /** The run tree at some moment: the nodes, their root and the tree they form. */
  datatype RunQueue = RunQueue(mem: Store, root: Ptr, tree: Tree)

  /** The run queue of the view `v`. */
  ghost predicate QueueOf(q: RunQueue, v: View) {
    && Zipped(q.mem, q.root, Top, q.tree) && RedBlack(q.tree) && Sorted(q.mem, Inorder(q.tree))
    && Ids(q.tree) == v.ready && KeysOf(q.mem) == v.nodes
  }

  /** The node EEVDF picks: the end of its walk or, if nothing is eligible, the first node. */
  ghost predicate Chosen(q: RunQueue, p: Ptr, clock: nat) {
    exists walk :: ChosenBy(q, p, clock, walk)
  }

  ghost predicate ChosenBy(q: RunQueue, p: Ptr, clock: nat, walk: seq<Ptr>) {
    && (forall x :: x in walk ==> x in Ids(q.tree))
    && Trace(q.mem, q.root, walk, clock, if SomeEligible(q.mem, q.tree, clock) then p else NULL)
    && (!SomeEligible(q.mem, q.tree, clock) ==> Inorder(q.tree) != [] && p == Inorder(q.tree)[0])
  }

  /** The next thread is the owner of the picked node, or the idle thread if none is ready. */
  ghost predicate Next(q: RunQueue, v: View, v': View, clock: nat) {
    if v.ready == {} then v' == v.(current := v.idle)
    else exists p :: p in v.ready && p in v.nodes && Chosen(q, p, clock) && v' == Dispatch(v, p)
  }

  // ----- there is no choice -----

  lemma NodesNotNull(m: Store, t: Tree, par: Ptr)
    requires Holds(m, t, par)
    ensures NULL !in Ids(t) && forall x :: x in Ids(t) ==> x in m
  {
  }

  lemma ChosenIsCourse(q: RunQueue, v: View, p: Ptr, clock: nat)
    requires QueueOf(q, v) && Chosen(q, p, clock) && SomeEligible(q.mem, q.tree, clock)
    ensures p == Course(q.mem, q.tree, clock, NULL).1
  {
    var walk :| ChosenBy(q, p, clock, walk);
    var w, b := Course(q.mem, q.tree, clock, NULL).0, Course(q.mem, q.tree, clock, NULL).1;
    NodesNotNull(q.mem, q.tree, NULL);
    CourseTraces(q.mem, q.tree, clock);
    CourseBest(q.mem, q.tree, NULL, clock, NULL);
    TraceUnique(q.mem, q.root, walk, w, clock, p, b);
  }

  /** One run queue has one next thread. */
  lemma NextUnique(q: RunQueue, v: View, a: View, b: View, clock: nat)
    requires QueueOf(q, v) && Next(q, v, a, clock) && Next(q, v, b, clock)
    ensures a == b
  {
    if v.ready != {} {
      var x :| x in v.ready && x in v.nodes && Chosen(q, x, clock) && a == Dispatch(v, x);
      var y :| y in v.ready && y in v.nodes && Chosen(q, y, clock) && b == Dispatch(v, y);
      if SomeEligible(q.mem, q.tree, clock) {
        ChosenIsCourse(q, v, x, clock);
        ChosenIsCourse(q, v, y, clock);
      }
    }
  }

  // ----- in terms of threads -----

  /** Thread `id` may run: ready and not running. */
  predicate Runnable(v: View, id: nat) {
    id in v.threads && v.threads[id].state == Ready && v.current != Some(id) && v.idle != Some(id)
  }

  /** Thread `id` has the earliest deadline of all runnable threads whose
      virtual time has come. */
  ghost predicate EarliestThread(v: View, id: nat, clock: nat) {
    && Runnable(v, id) && v.threads[id].vruntime <= clock
    && forall d :: Runnable(v, d) && v.threads[d].vruntime <= clock ==> v.threads[id].deadline <= v.threads[d].deadline
  }

  /** A node and its owner carry the same keys. */
  lemma Owner(q: RunQueue, v: View, p: Ptr)
    requires ThreadsOk(v) && TreeOk(v) && QueueOf(q, v) && p in v.ready
    ensures p in q.mem && p in v.nodes && Runnable(v, v.nodes[p].taskId) && v.threads[v.nodes[p].taskId].rbNode == p
    ensures var t := v.threads[v.nodes[p].taskId]; q.mem[p].vruntime == t.vruntime && q.mem[p].deadline == t.deadline
  {
  }

  lemma NodeOf(q: RunQueue, v: View, id: nat)
    requires ThreadsOk(v) && TreeOk(v) && QueueOf(q, v) && Runnable(v, id)
    ensures v.threads[id].rbNode in v.ready && v.threads[id].rbNode in v.nodes && v.nodes[v.threads[id].rbNode].taskId == id
  {
    assert OwnsNode(v, id);
  }

  lemma EligibleThread(q: RunQueue, v: View, id: nat, clock: nat)
    requires ThreadsOk(v) && TreeOk(v) && QueueOf(q, v) && Runnable(v, id) && v.threads[id].vruntime <= clock
    ensures SomeEligible(q.mem, q.tree, clock)
  {
    NodeOf(q, v, id);
    Owner(q, v, v.threads[id].rbNode);
    assert Eligible(q.mem, v.threads[id].rbNode, clock);
  }

  /** Earliest among the nodes is earliest among the threads. */
  lemma EarliestOwner(q: RunQueue, v: View, p: Ptr, clock: nat)
    requires ThreadsOk(v) && TreeOk(v) && QueueOf(q, v) && p in v.ready && p in v.nodes
    ensures Earliest(q.mem, q.tree, clock, p) <==> EarliestThread(v, v.nodes[p].taskId, clock)
  {
    Owner(q, v, p);
    if Earliest(q.mem, q.tree, clock, p) {
      forall d | Runnable(v, d) && v.threads[d].vruntime <= clock
        ensures v.threads[v.nodes[p].taskId].deadline <= v.threads[d].deadline
      {
        NodeOf(q, v, d);
        Owner(q, v, v.threads[d].rbNode);
        assert Eligible(q.mem, v.threads[d].rbNode, clock);
      }
    }
    if EarliestThread(v, v.nodes[p].taskId, clock) {
      forall x | x in Ids(q.tree) && Eligible(q.mem, x, clock) ensures q.mem[p].deadline <= q.mem[x].deadline {
        Owner(q, v, x);
      }
    }
  }

  /** What the choice of the next thread means.  If any runnable thread's
      virtual time has come, so has that of the thread that runs next; it has
      the earliest deadline of all those exactly when nothing the walk
      bypassed is earlier; and no eligible thread the walk looked at, the
      root's owner first of all, is earlier.  Otherwise a thread of least
      virtual runtime runs. */
  lemma NextMeaning(q: RunQueue, v: View, v': View, clock: nat)
    requires ThreadsOk(v) && TreeOk(v) && v.current == None && QueueOf(q, v) && v.ready != {} && Next(q, v, v', clock)
    ensures v'.current.Some? && Runnable(v, v'.current.value)
    ensures var t := v.threads[v'.current.value];
      if exists d :: Runnable(v, d) && v.threads[d].vruntime <= clock then
        && t.vruntime <= clock
        && (EarliestThread(v, v'.current.value, clock) <==>
            NoneEarlier(q.mem, Bypassed(q.mem, q.tree, clock, NULL), clock, t.rbNode))
        && (forall x :: x in Course(q.mem, q.tree, clock, NULL).0 && Eligible(q.mem, x, clock) ==>
              t.deadline <= q.mem[x].deadline)
        && (q.root in q.mem && q.mem[q.root].vruntime <= clock ==> t.deadline <= q.mem[q.root].deadline)
      else
        forall d :: Runnable(v, d) ==> t.vruntime <= v.threads[d].vruntime
  {
    var p :| p in v.ready && p in v.nodes && Chosen(q, p, clock) && v' == Dispatch(v, p);
    Owner(q, v, p);
    if d :| Runnable(v, d) && v.threads[d].vruntime <= clock {
      EligibleThread(q, v, d, clock);
      EligibleChoice(q, v, p, clock);
    } else {
      FirstChoice(q, v, p, clock);
    }
  }

  lemma EligibleChoice(q: RunQueue, v: View, p: Ptr, clock: nat)
    requires ThreadsOk(v) && TreeOk(v) && QueueOf(q, v) && p in v.ready && p in v.nodes && Chosen(q, p, clock)
    requires SomeEligible(q.mem, q.tree, clock)
    ensures p in q.mem && q.mem[p].vruntime <= clock
    ensures EarliestThread(v, v.nodes[p].taskId, clock) <==>
      NoneEarlier(q.mem, Bypassed(q.mem, q.tree, clock, NULL), clock, p)
    ensures forall x :: x in Course(q.mem, q.tree, clock, NULL).0 && Eligible(q.mem, x, clock) ==>
      q.mem[p].deadline <= q.mem[x].deadline
    ensures q.root in q.mem && q.mem[q.root].vruntime <= clock ==> q.mem[p].deadline <= q.mem[q.root].deadline
  {
    ChosenIsCourse(q, v, p, clock);
    PickIsEarliest(q.mem, q.tree, clock);
    EarliestOwner(q, v, p, clock);
    CourseBest(q.mem, q.tree, NULL, clock, NULL);
    CourseFinds(q.mem, q.tree, NULL, clock, NULL);
    CourseTraces(q.mem, q.tree, clock);
    assert Course(q.mem, q.tree, clock, NULL).0[0] == q.root;
  }

  lemma FirstChoice(q: RunQueue, v: View, p: Ptr, clock: nat)
    requires ThreadsOk(v) && TreeOk(v) && QueueOf(q, v) && p in v.ready && p in v.nodes && Chosen(q, p, clock)
    requires forall d :: Runnable(v, d) ==> v.threads[d].vruntime > clock
    ensures forall d :: Runnable(v, d) ==> v.threads[v.nodes[p].taskId].vruntime <= v.threads[d].vruntime
  {
    forall x | x in Ids(q.tree) ensures !Eligible(q.mem, x, clock) {
      Owner(q, v, x);
    }
    IdsInorder(q.tree);
    Owner(q, v, p);
    forall d | Runnable(v, d) ensures v.threads[v.nodes[p].taskId].vruntime <= v.threads[d].vruntime {
      NodeOf(q, v, d);
      Owner(q, v, v.threads[d].rbNode);
    }
  }
}
