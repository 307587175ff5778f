/**
  The EEVDF walk told from the fields of the nodes alone: which child it
  turns to at every node, and which node it ends with.
 */
module EevdfTrace {
  import opened RbShape
  import opened NodeStore
  import opened EevdfWalk

  /** `b` is the eligible node of `s` with the earliest deadline, the first one
      on ties; NULL if none is eligible. */
  ghost predicate FirstBest(m: Store, s: seq<Ptr>, v: nat, b: Ptr) {
    if b == NULL then forall j :: 0 <= j < |s| ==> s[j] in m && m[s[j]].vruntime > v
    else exists k :: 0 <= k < |s| && FirstBestAt(m, s, v, b, k)
  }

  ghost predicate FirstBestAt(m: Store, s: seq<Ptr>, v: nat, b: Ptr, k: nat)
    requires k < |s|
  {
    && s[k] == b && b in m && m[b].vruntime <= v
    && (forall j :: 0 <= j < |s| ==> s[j] in m)
    && (forall j :: 0 <= j < k && m[s[j]].vruntime <= v ==> m[b].deadline < m[s[j]].deadline)
    && (forall j :: k <= j < |s| && m[s[j]].vruntime <= v ==> m[b].deadline <= m[s[j]].deadline)
  }

  /** Where the walk goes from its node number `i`; NULL where it ends. */
  function After(walk: seq<Ptr>, i: nat): Ptr {
    if i + 1 < |walk| then walk[i + 1] else NULL
  }

  /** From an ineligible node the walk goes left.  From an eligible one, with
      `b` the best node so far, it goes left if there is a left child whose
      minDeadline is earlier than the deadline of `b`, else right if there is
      such a right child, and else it ends. */
  predicate Turn(m: Store, q: Ptr, next: Ptr, v: nat, b: Ptr) {
    && q in m
    && var (l, r) := (m[q].left, m[q].right);
    && (l != NULL ==> l in m) && (r != NULL ==> r in m)
    && if m[q].vruntime > v then next == l
       else
         && b in m
         && next == if l != NULL && m[l].minDeadline < m[b].deadline then l
                    else if r != NULL && m[r].minDeadline < m[b].deadline then r
                    else NULL
  }

  ghost predicate TurnAt(m: Store, walk: seq<Ptr>, i: nat, v: nat)
    requires i < |walk|
  {
    exists b :: FirstBest(m, walk[..i + 1], v, b) && Turn(m, walk[i], After(walk, i), v, b)
  }

  /** The whole walk, and the node it ends with. */
  ghost predicate Trace(m: Store, root: Ptr, walk: seq<Ptr>, v: nat, b: Ptr) {
    && (if root == NULL then walk == [] else walk != [] && walk[0] == root)
    && (forall i :: 0 <= i < |walk| ==> TurnAt(m, walk, i, v))
    && FirstBest(m, walk, v, b)
  }

  // ----- the course is such a walk -----

  lemma FirstBestNext(m: Store, s: seq<Ptr>, v: nat, b: Ptr, p: Ptr)
    requires FirstBest(m, s, v, b) && p in m && p != NULL
    ensures FirstBest(m, s + [p], v, if m[p].vruntime > v then b else if b == NULL || m[p].deadline < m[b].deadline then p else b)
  {
    var n := |s|;
    if b != NULL {
      var k :| 0 <= k < |s| && FirstBestAt(m, s, v, b, k);
      if m[p].vruntime > v || m[b].deadline <= m[p].deadline {
        assert FirstBestAt(m, s + [p], v, b, k);
      } else {
        assert FirstBestAt(m, s + [p], v, p, n);
      }
    } else if m[p].vruntime <= v {
      assert FirstBestAt(m, s + [p], v, p, n);
    }
  }

  /** From the root of `t` on, with `done` behind. */
  lemma {:induction false} CourseTurns(m: Store, t: Tree, par: Ptr, v: nat, best: Ptr, done: seq<Ptr>)
    requires Holds(m, t, par) && FirstBest(m, done, v, best)
    ensures var (w, b) := Course(m, t, v, best);
      && FirstBest(m, done + w, v, b) && (t.Node? ==> w != [] && w[0] == t.p) && (t.Leaf? ==> w == [])
      && forall i :: |done| <= i < |done + w| ==> TurnAt(m, done + w, i, v)
    decreases Height(t)
  {
    if t.Leaf? {
      assert done + [] == done;
    } else {
      var s, b := NextTree(m, t, v, best), NextBest(m, t, v, best);
      var here, w := done + [t.p], done + Course(m, t, v, best).0;
      FirstBestNext(m, done, v, best, t.p);
      CourseTurns(m, s, t.p, v, b, here);
      CourseJoin(m, t, v, best, done);
      assert w == here + Course(m, s, v, b).0;
      assert w[..|done| + 1] == here && w[|done|] == t.p;
      assert After(w, |done|) == Root(s);
      assert Turn(m, t.p, Root(s), v, b);
      assert TurnAt(m, w, |done|, v);
    }
  }

  lemma CourseTraces(m: Store, t: Tree, v: nat)
    requires Holds(m, t, NULL)
    ensures var (w, b) := Course(m, t, v, NULL); Trace(m, Root(t), w, v, b)
  {
    var w, b := Course(m, t, v, NULL).0, Course(m, t, v, NULL).1;
    CourseTurns(m, t, NULL, v, NULL, []);
    assert [] + w == w;
  }

  // ----- and there is only one -----

  lemma FirstBestUnique(m: Store, s: seq<Ptr>, v: nat, b: Ptr, c: Ptr)
    requires FirstBest(m, s, v, b) && FirstBest(m, s, v, c)
    ensures b == c
  {
    if b != NULL && c != NULL {
      var j :| 0 <= j < |s| && FirstBestAt(m, s, v, b, j);
      var k :| 0 <= k < |s| && FirstBestAt(m, s, v, c, k);
    }
  }

  lemma SameTurn(m: Store, w: seq<Ptr>, x: seq<Ptr>, v: nat, i: nat)
    requires i < |w| && i < |x| && w[..i + 1] == x[..i + 1] && TurnAt(m, w, i, v) && TurnAt(m, x, i, v)
    ensures After(w, i) == After(x, i)
  {
    var d :| FirstBest(m, w[..i + 1], v, d) && Turn(m, w[i], After(w, i), v, d);
    var e :| FirstBest(m, x[..i + 1], v, e) && Turn(m, x[i], After(x, i), v, e);
    FirstBestUnique(m, w[..i + 1], v, d, e);
    assert w[i] == w[..i + 1][i] == x[i];
  }

  lemma {:induction false} SameWalk(m: Store, root: Ptr, w: seq<Ptr>, x: seq<Ptr>, v: nat, b: Ptr, c: Ptr, n: nat)
    requires Trace(m, root, w, v, b) && Trace(m, root, x, v, c) && n <= |w|
    requires NULL !in w && NULL !in x
    ensures n <= |x| && w[..n] == x[..n]
  {
    if n == 1 {
      assert w[..1] == [root] == x[..1];
    } else if n > 1 {
      SameWalk(m, root, w, x, v, b, c, n - 1);
      SameTurn(m, w, x, v, n - 2);
      assert w[n - 1] in w;
      assert w[..n] == w[..n - 1] + [w[n - 1]] && x[..n] == x[..n - 1] + [x[n - 1]];
    }
  }

  /** The fields determine the walk and its end. */
  lemma TraceUnique(m: Store, root: Ptr, w: seq<Ptr>, x: seq<Ptr>, v: nat, b: Ptr, c: Ptr)
    requires Trace(m, root, w, v, b) && Trace(m, root, x, v, c) && NULL !in w && NULL !in x
    ensures w == x && b == c
  {
    SameWalk(m, root, w, x, v, b, c, |w|);
    SameWalk(m, root, x, w, v, c, b, |x|);
    assert w[..|w|] == w && x[..|x|] == x;
    FirstBestUnique(m, w, v, b, c);
  }
}
