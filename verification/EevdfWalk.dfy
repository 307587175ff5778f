/**
  The walk of the EEVDF pick, as a function of the tree: which nodes it looks
  at and which one it ends with.
 */
module EevdfWalk {
  import opened RbShape
  import opened NodeStore

  predicate Eligible(m: Store, q: Ptr, v: nat) {
    q in m && m[q].vruntime <= v
  }

  ghost predicate SomeEligible(m: Store, t: Tree, v: nat) {
    exists q :: q in Ids(t) && Eligible(m, q, v)
  }

  /** The earlier deadline of the best node so far and the current one. */
  function Better(m: Store, best: Ptr, p: Ptr): Ptr
    requires p in m
  {
    if best == NULL || best !in m || m[p].deadline < m[best].deadline then p else best
  }

  /** A subtree is entered when its hint promises an earlier deadline. */
  predicate Promises(m: Store, t: Tree, best: Ptr) {
    t.Node? && t.p in m && best in m && m[t.p].minDeadline < m[best].deadline
  }

  /** The best node after looking at the root of `t`. */
  function NextBest(m: Store, t: Tree, v: nat, best: Ptr): Ptr
    requires t.Node? && t.p in m
  {
    if m[t.p].vruntime <= v then Better(m, best, t.p) else best
  }

  /** The subtree entered next; a leaf when the walk ends. */
  function NextTree(m: Store, t: Tree, v: nat, best: Ptr): (s: Tree)
    requires t.Node? && t.p in m
    ensures Height(s) < Height(t)
  {
    var b := NextBest(m, t, v, best);
    if m[t.p].vruntime > v || Promises(m, t.left, b) then t.left
    else if Promises(m, t.right, b) then t.right
    else Leaf
  }

  /** The nodes looked at from the root of `t` on, and the best one at the end. */
  function Course(m: Store, t: Tree, v: nat, best: Ptr): (seq<Ptr>, Ptr)
    decreases Height(t)
  {
    if t.Leaf? || t.p !in m then ([], best)
    else Prepend(t.p, Course(m, NextTree(m, t, v, best), v, NextBest(m, t, v, best)))
  }

  lemma CourseJoin(m: Store, t: Tree, v: nat, best: Ptr, done: seq<Ptr>)
    requires t.Node? && t.p in m
    ensures var (s, b) := (NextTree(m, t, v, best), NextBest(m, t, v, best));
      && done + Course(m, t, v, best).0 == (done + [t.p]) + Course(m, s, v, b).0
      && Course(m, t, v, best).1 == Course(m, s, v, b).1
  {
  }

  function Prepend(p: Ptr, c: (seq<Ptr>, Ptr)): (seq<Ptr>, Ptr) {
    ([p] + c.0, c.1)
  }

  // ----- what the course guarantees -----

  /** The best node is eligible and has the earliest deadline of all eligible nodes looked at. */
  ghost predicate Best(m: Store, walk: seq<Ptr>, b: Ptr, v: nat) {
    && (b != NULL ==> Eligible(m, b, v))
    && forall q :: q in walk && Eligible(m, q, v) ==> b != NULL && m[b].deadline <= m[q].deadline
  }

  lemma {:induction false} CourseBest(m: Store, t: Tree, par: Ptr, v: nat, best: Ptr)
    requires Holds(m, t, par) && (best != NULL ==> Eligible(m, best, v))
    ensures var (w, b) := Course(m, t, v, best);
      && Best(m, w, b, v) && (b != NULL ==> b == best || b in w)
      && (best != NULL ==> b != NULL && m[b].deadline <= m[best].deadline)
      && (forall q :: q in w ==> q in Ids(t)) && |w| <= Height(t)
    decreases Height(t)
  {
    if t.Node? {
      CourseBest(m, NextTree(m, t, v, best), t.p, v, NextBest(m, t, v, best));
    }
  }

  /** Below an ineligible node only the left subtree can hold eligible ones. */
  lemma {:induction false} EligibleLeft(m: Store, t: Tree, v: nat)
    requires t.Node? && Sorted(m, Inorder(t)) && !Eligible(m, t.p, v)
    ensures SomeEligible(m, t, v) ==> SomeEligible(m, t.left, v)
  {
    SortedMiddle(m, Inorder(t.left), t.p, Inorder(t.right));
    IdsInorder(t.right);
  }

  /** If any node is eligible the walk ends with one. */
  lemma {:induction false} CourseFinds(m: Store, t: Tree, par: Ptr, v: nat, best: Ptr)
    requires Holds(m, t, par) && Sorted(m, Inorder(t)) && (best != NULL ==> Eligible(m, best, v))
    ensures SomeEligible(m, t, v) ==> Course(m, t, v, best).1 != NULL
  {
    if t.Node? {
      CourseBest(m, t, par, v, best);
      assert t.p == Course(m, t, v, best).0[0];
      if !Eligible(m, t.p, v) {
        EligibleLeft(m, t, v);
        SortedMiddle(m, Inorder(t.left), t.p, Inorder(t.right));
        CourseFinds(m, t.left, t.p, v, best);
      }
    }
  }

  // ----- the course is a descent -----

  /** One step: to the left child, or from an eligible node to the right one. */
  predicate GoesTo(m: Store, q: Ptr, c: Ptr, v: nat) {
    q in m && c != NULL && (c == m[q].left || (Eligible(m, q, v) && c == m[q].right))
  }

  predicate StepAt(m: Store, walk: seq<Ptr>, i: nat, v: nat)
    requires i + 1 < |walk|
  {
    GoesTo(m, walk[i], walk[i + 1], v)
  }

  predicate Descent(m: Store, walk: seq<Ptr>, v: nat) {
    forall i :: 0 <= i < |walk| - 1 ==> StepAt(m, walk, i, v)
  }

  /** An ineligible last node has no left child; no child of an eligible one promises an earlier deadline. */
  predicate Stops(m: Store, q: Ptr, b: Ptr, v: nat) {
    && q in m
    && if !Eligible(m, q, v) then m[q].left == NULL
       else
         && b in m
         && (m[q].left in m && m[q].left != NULL ==> m[b].deadline <= m[m[q].left].minDeadline)
         && (m[q].right in m && m[q].right != NULL ==> m[b].deadline <= m[m[q].right].minDeadline)
  }

  lemma {:induction false} CourseDescends(m: Store, t: Tree, par: Ptr, v: nat, best: Ptr)
    requires Holds(m, t, par) && t.Node?
    ensures var (w, b) := Course(m, t, v, best);
      w != [] && w[0] == t.p && Descent(m, w, v) && Stops(m, w[|w| - 1], b, v)
    decreases Height(t)
  {
    var s, b := NextTree(m, t, v, best), NextBest(m, t, v, best);
    var w, rest := Course(m, t, v, best).0, Course(m, s, v, b).0;
    assert w == [t.p] + rest;
    if s.Node? {
      CourseDescends(m, s, t.p, v, b);
      forall i | 0 <= i < |w| - 1 ensures StepAt(m, w, i, v) {
        if i > 0 {
          assert w[i] == rest[i - 1] && w[i + 1] == rest[i] && StepAt(m, rest, i - 1, v);
        }
      }
    }
  }
}
