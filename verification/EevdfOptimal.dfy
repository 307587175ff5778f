/**
  When the EEVDF pick is earliest-deadline-first.  The walk commits to one
  child at every node and never returns, so what it leaves behind decides.
 */
module EevdfOptimal {
  import opened RbShape
  import opened NodeStore
  import opened EevdfWalk

  /** No eligible node of `s` has an earlier deadline than `b`. */
  ghost predicate NoneEarlier(m: Store, s: set<Ptr>, v: nat, b: Ptr) {
    b in m && forall q :: q in s && Eligible(m, q, v) ==> m[b].deadline <= m[q].deadline
  }

  /** `b` is what earliest-eligible-virtual-deadline-first asks for. */
  ghost predicate Earliest(m: Store, t: Tree, v: nat, b: Ptr) {
    b in Ids(t) && Eligible(m, b, v) && NoneEarlier(m, Ids(t), v, b)
  }

  // ----- what the walk leaves behind -----

  /** The nodes below an eligible visited node that the walk does not enter. */
  ghost function Bypassed(m: Store, t: Tree, v: nat, best: Ptr): set<Ptr>
    decreases Height(t)
  {
    if t.Leaf? || t.p !in m then {}
    else
      var s, b := NextTree(m, t, v, best), NextBest(m, t, v, best);
      Bypassed(m, s, v, b) +
      if m[t.p].vruntime > v then {}
      else if Promises(m, t.left, b) then Ids(t.right)
      else if Promises(m, t.right, b) then Ids(t.left)
      else Ids(t.left) + Ids(t.right)
  }

  /** Of these, the right subtrees left behind on a left turn. */
  ghost function LeftBehind(m: Store, t: Tree, v: nat, best: Ptr): set<Ptr>
    decreases Height(t)
  {
    if t.Leaf? || t.p !in m then {}
    else
      var s, b := NextTree(m, t, v, best), NextBest(m, t, v, best);
      LeftBehind(m, s, v, b) +
      if m[t.p].vruntime <= v && Promises(m, t.left, b) then Ids(t.right) else {}
  }

  /** Right of an ineligible node nothing is eligible. */
  lemma NoneRight(m: Store, t: Tree, v: nat)
    requires t.Node? && Sorted(m, Inorder(t)) && !Eligible(m, t.p, v) && t.p in m
    ensures forall q :: q in Ids(t.right) ==> !Eligible(m, q, v)
  {
    SortedMiddle(m, Inorder(t.left), t.p, Inorder(t.right));
    IdsInorder(t.right);
  }

  /** Every eligible node is looked at or bypassed. */
  lemma {:induction false} CourseCovers(m: Store, t: Tree, par: Ptr, v: nat, best: Ptr)
    requires Holds(m, t, par) && Sorted(m, Inorder(t))
    ensures Bypassed(m, t, v, best) <= Ids(t)
    ensures forall q :: q in Ids(t) && Eligible(m, q, v) ==> q in Course(m, t, v, best).0 || q in Bypassed(m, t, v, best)
    decreases Height(t)
  {
    if t.Node? {
      SortedMiddle(m, Inorder(t.left), t.p, Inorder(t.right));
      if !Eligible(m, t.p, v) {
        NoneRight(m, t, v);
      }
      CourseCovers(m, NextTree(m, t, v, best), t.p, v, NextBest(m, t, v, best));
    }
  }

  /** The pick is earliest-deadline-first exactly when nothing it bypassed
      would have been better, whatever the hints are. */
  lemma PickIsEarliest(m: Store, t: Tree, v: nat)
    requires Holds(m, t, NULL) && Sorted(m, Inorder(t)) && SomeEligible(m, t, v)
    ensures var b := Course(m, t, v, NULL).1;
      Earliest(m, t, v, b) <==> NoneEarlier(m, Bypassed(m, t, v, NULL), v, b)
  {
    CourseCovers(m, t, NULL, v, NULL);
    CourseBest(m, t, NULL, v, NULL);
    CourseFinds(m, t, NULL, v, NULL);
  }

  // ----- with hints that can be trusted -----

  /** The hint of every subtree is at most every deadline in it. */
  ghost predicate HintsBelow(m: Store, t: Tree) {
    t.Node? ==>
      && t.p in m && (forall q :: q in Ids(t) && q in m ==> m[t.p].minDeadline <= m[q].deadline)
      && HintsBelow(m, t.left) && HintsBelow(m, t.right)
  }

  /** Moreover it is the deadline of some node in it. */
  ghost predicate HintsExact(m: Store, t: Tree) {
    && HintsBelow(m, t)
    && (t.Node? ==>
          && (exists q :: q in Ids(t) && q in m && m[t.p].minDeadline == m[q].deadline)
          && HintsExact(m, t.left) && HintsExact(m, t.right))
  }

  /** A subtree that promises nothing hides nothing. */
  lemma NoPromise(m: Store, t: Tree, par: Ptr, v: nat, b: Ptr)
    requires Holds(m, t, par) && HintsBelow(m, t) && b in m && !Promises(m, t, b)
    ensures NoneEarlier(m, Ids(t), v, b)
  {
  }

  /** Nothing bypassed on a right turn, or at the end, is better than the final node. */
  lemma {:induction false} OnlyLeftBehind(m: Store, t: Tree, par: Ptr, v: nat, best: Ptr)
    requires Holds(m, t, par) && HintsBelow(m, t) && (best != NULL ==> Eligible(m, best, v))
    ensures LeftBehind(m, t, v, best) <= Bypassed(m, t, v, best)
    ensures var b := Course(m, t, v, best).1;
      b != NULL ==> NoneEarlier(m, Bypassed(m, t, v, best) - LeftBehind(m, t, v, best), v, b)
    decreases Height(t)
  {
    if t.Node? {
      var s, b := NextTree(m, t, v, best), NextBest(m, t, v, best);
      OnlyLeftBehind(m, s, t.p, v, b);
      CourseBest(m, s, t.p, v, b);
      if m[t.p].vruntime <= v {
        if !Promises(m, t.left, b) {
          NoPromise(m, t.left, t.p, v, b);
          if !Promises(m, t.right, b) {
            NoPromise(m, t.right, t.p, v, b);
          }
        }
      }
    }
  }

  /** With trustworthy hints only a left turn can miss the earliest deadline. */
  lemma TrustedPickIsEarliest(m: Store, t: Tree, v: nat)
    requires Holds(m, t, NULL) && Sorted(m, Inorder(t)) && SomeEligible(m, t, v) && HintsBelow(m, t)
    ensures var b := Course(m, t, v, NULL).1;
      Earliest(m, t, v, b) <==> NoneEarlier(m, LeftBehind(m, t, v, NULL), v, b)
  {
    PickIsEarliest(m, t, v);
    OnlyLeftBehind(m, t, NULL, v, NULL);
    CourseFinds(m, t, NULL, v, NULL);
  }

  // ----- and it does miss -----

  /** Three eligible threads with exact hints: the root sees the best thread
      on its right, but any promise on its left goes first. */
  function ExactStore(): Store {
    map[8 := SchedNode(5, 0, 10, 2, 4, 12, 0, false),
        4 := SchedNode(3, 1, 9, 9, 0, 0, 8, true),
        12 := SchedNode(6, 2, 2, 2, 0, 0, 8, true)]
  }

  function ExactTree(): Tree {
    Node(Node(Leaf, 4, true, Leaf), 8, false, Node(Leaf, 12, true, Leaf))
  }

  lemma ExactHintsMiss()
    ensures var (m, t) := (ExactStore(), ExactTree());
      && Zipped(m, 8, Top, t) && RedBlack(t) && Sorted(m, Inorder(t)) && HintsExact(m, t) && SomeEligible(m, t, 10)
      && Course(m, t, 10, NULL).1 == 4 && Earliest(m, t, 10, 12) && !Earliest(m, t, 10, 4)
  {
    var m, t := ExactStore(), ExactTree();
    assert Inorder(t) == [4, 8, 12] && Ids(t) == {4, 8, 12};
    assert Ids(t.left) == {4} && Ids(t.right) == {12};
    assert NextTree(m, t, 10, NULL) == t.left && NextBest(m, t, 10, NULL) == 8;
    assert NextTree(m, t.left, 10, 8) == Leaf && NextBest(m, t.left, 10, 8) == 4;
    assert Course(m, t.left, 10, 8).1 == 4;
    assert Eligible(m, 12, 10);
  }

  /** Four eligible threads whose hints are their own deadlines, which is what
      a thread is created with: the walk stops at the root. */
  function OwnStore(): Store {
    map[8 := SchedNode(5, 0, 5, 5, 4, 12, 0, false),
        4 := SchedNode(3, 1, 6, 6, 2, 0, 8, false),
        12 := SchedNode(6, 2, 7, 7, 0, 0, 8, false),
        2 := SchedNode(1, 3, 1, 1, 0, 0, 4, true)]
  }

  function OwnTree(): Tree {
    Node(Node(Node(Leaf, 2, true, Leaf), 4, false, Leaf), 8, false, Node(Leaf, 12, false, Leaf))
  }

  lemma OwnHintsMiss()
    ensures var (m, t) := (OwnStore(), OwnTree());
      && Zipped(m, 8, Top, t) && RedBlack(t) && Sorted(m, Inorder(t)) && SomeEligible(m, t, 10)
      && (forall q :: q in Ids(t) ==> q in m && m[q].minDeadline == m[q].deadline)
      && Course(m, t, 10, NULL).1 == 8 && Earliest(m, t, 10, 2) && !Earliest(m, t, 10, 8)
  {
    var m, t := OwnStore(), OwnTree();
    assert Inorder(t) == [2, 4, 8, 12] by {
      assert Inorder(t.left) == [2, 4] by {
        assert Inorder(t.left.left) == [2];
      }
    }
    assert Ids(t) == {2, 4, 8, 12} by {
      assert Ids(t.left) == {2, 4} by {
        assert Ids(t.left.left) == {2};
      }
    }
    assert NextTree(m, t, 10, NULL) == Leaf;
    assert Eligible(m, 2, 10);
  }
}
