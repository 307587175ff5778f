/**
  The cases of the insertion fixup as rewrites of a zipper, and what each one
  does to the one permitted violation: a red focus under a red parent.
 */
module InsertFixup {
  import opened RbShape
  import opened NodeStore
  import opened Rotation

  /** All is balanced except that the red focus may have a red parent (or be the root). */
  ghost predicate RedFocus(path: Path, t: Tree, h: nat) {
    IsRed(t) && Balanced(t, h) && PathBalanced(path, h)
  }

  ghost predicate HasUncle(path: Path) {
    !path.Top? && !path.up.Top?
  }

  /** A red parent is not the root, so there is a grandparent, and it is black. */
  lemma {:induction false} RedParent(path: Path, t: Tree, h: nat)
    requires RedFocus(path, t, h) && PathRed(path)
    ensures HasUncle(path) && !path.up.red
    ensures Balanced(path.sib, h) && !IsRed(path.sib)
    ensures Balanced(path.up.sib, h) && PathBalanced(path.up.up, h + 1)
  {
    assert PathBalanced(path.up, h);
  }

  /** Parent, grandparent and uncle, as the pointers read. */
  lemma {:induction false} Family(m: Store, root: Ptr, path: Path, t: Tree, h: nat)
    requires Zipped(m, root, path, t) && RedFocus(path, t, h) && PathRed(path)
    ensures HasUncle(path)
    ensures t.p in m && path.p in m && path.up.p in m
    ensures m[t.p].parent == path.p && m[path.p].parent == path.up.p
    ensures (path.p == m[path.up.p].left) <==> path.up.InLeft?
    ensures Root(path.up.sib) == if path.up.InLeft? then m[path.up.p].right else m[path.up.p].left
    ensures Root(path.up.sib) != NULL ==> path.up.sib.Node? && path.up.sib.p in m
    ensures IsRed(path.up.sib) <==> Root(path.up.sib) != NULL && m[path.up.sib.p].red
  {
    RedParent(path, t, h);
    Neighbours(m, root, path, t);
    FocusUp(m, root, path, t);
    Neighbours(m, root, path.up, Lift(path, t));
  }

  // ----- red uncle: recolour and move two levels up -----

  function BlackUncle(up: Path): Path
    requires !up.Top?
  {
    if up.InLeft? then InLeft(up.up, up.p, up.red, Paint(up.sib, false))
    else InRight(up.up, up.p, up.red, Paint(up.sib, false))
  }

  ghost function Recolored(path: Path, t: Tree): Tree
    requires HasUncle(path)
  {
    Paint(Lift(BlackUncle(path.up), Paint(Lift(path, t), false)), true)
  }

  lemma {:induction false} RecolorStep(path: Path, t: Tree, h: nat)
    requires RedFocus(path, t, h) && PathRed(path)
    requires HasUncle(path) && IsRed(path.up.sib)
    ensures RedFocus(path.up.up, Recolored(path, t), h + 1)
  {
    RedParent(path, t, h);
    assert Balanced(Paint(Lift(path, t), false), h + 1);
    assert Balanced(Paint(path.up.sib, false), h + 1);
  }

  // ----- black uncle: straighten a triangle, then rotate the line -----

  /** The zipper after the rotation that straightens a triangle. */
  ghost function Straight(path: Path, t: Tree): (r: (Path, Tree))
    requires !path.Top? && t.Node?
  {
    if path.InRight?
    then (InLeft(path.up, t.p, t.red, t.right), Node(path.sib, path.p, path.red, t.left))
    else (InRight(path.up, t.p, t.red, t.left), Node(t.right, path.p, path.red, path.sib))
  }

  lemma {:induction false} StraightenStep(path: Path, t: Tree, h: nat)
    requires RedFocus(path, t, h) && PathRed(path)
    ensures var (q, s) := Straight(path, t);
      && RedFocus(q, s, h) && PathRed(q) && Depth(q) == Depth(path)
      && q.up == path.up && q.InLeft? == path.InRight?
      && Lift(q, s) == (if path.InRight? then RotLeft(Lift(path, t)) else RotRight(Lift(path, t)))
  {
    RedParent(path, t, h);
  }

  /** The path above the focus after the rotation at the grandparent. */
  ghost function Lined(path: Path): Path
    requires HasUncle(path)
  {
    var g := path.up;
    if path.InLeft? then InLeft(g.up, path.p, false, Node(path.sib, g.p, true, g.sib))
    else InRight(g.up, path.p, false, Node(g.sib, g.p, true, path.sib))
  }

  lemma {:induction false} LineStep(path: Path, t: Tree, h: nat)
    requires RedFocus(path, t, h) && PathRed(path)
    requires HasUncle(path) && !IsRed(path.up.sib)
    requires path.InLeft? == path.up.InLeft?
    ensures RedFocus(Lined(path), t, h) && !PathRed(Lined(path))
    ensures Depth(Lined(path)) < Depth(path)
  {
    RedParent(path, t, h);
    assert Balanced(Node(path.sib, path.up.p, true, path.up.sib), h);
    assert Balanced(Node(path.up.sib, path.up.p, true, path.sib), h);
  }

  /** The tree at the grandparent, recoloured for the rotation. */
  ghost function LineTree(path: Path, t: Tree): Tree
    requires HasUncle(path)
  {
    Paint(Lift(path.up, Paint(Lift(path, t), false)), true)
  }

  lemma {:induction false} LineRotation(path: Path, t: Tree)
    requires HasUncle(path) && path.InLeft? == path.up.InLeft?
    ensures Lift(Lined(path), t)
         == if path.InLeft? then RotRight(LineTree(path, t)) else RotLeft(LineTree(path, t))
    ensures Lined(path).up == path.up.up
  {
  }

  // ----- leaving the loop -----

  lemma {:induction false} PlugNode(path: Path, t: Tree)
    requires t.Node?
    ensures Plug(path, t).Node?
  {
    if !path.Top? {
      PlugNode(path.up, Lift(path, t));
    }
  }

  lemma {:induction false} InsertDone(path: Path, t: Tree, h: nat)
    requires RedFocus(path, t, h) && !PathRed(path)
    ensures Plug(path, t).Node? && RedBlack(Paint(Plug(path, t), false))
  {
    PlugBalanced(path, t, h);
    PlugNode(path, t);
    if path.Top? {
      assert Balanced(Paint(t, false), h + 1);
      BalancedHeight(Paint(t, false), h + 1);
    }
  }

  // ----- finding the place, and attaching a new leaf -----

  /** Descending with key `v`: everything passed on the left is at most `v`,
      everything passed on the right is above it. */
  ghost predicate Searching(m: Store, path: Path, t: Tree, v: nat) {
    && AllAtMost(m, Before(path), v) && AllAbove(m, After(path), v)
    && Sorted(m, Inorder(t))
    && (!path.Top? ==> path.p in m && (path.InLeft? <==> v < m[path.p].vruntime))
  }

  lemma {:induction false} Descend(m: Store, path: Path, t: Tree, v: nat, left: bool)
    requires Searching(m, path, t, v) && t.Node?
    requires t.p in m && (left <==> v < m[t.p].vruntime)
    ensures Searching(m, Child(path, t, left), if left then t.left else t.right, v)
  {
    SortedMiddle(m, Inorder(t.left), t.p, Inorder(t.right));
  }

  /** The store after a red leaf `n` is hung in the hole of `path`. */
  ghost predicate Hung(m: Store, m': Store, path: Path, n: Ptr)
    requires !path.Top?
  {
    && n in m && m'.Keys == m.Keys && path.p in m
    && m'[n] == m[n].(left := NULL, right := NULL, parent := path.p, red := true)
    && m'[path.p] == (if path.InLeft? then m[path.p].(left := n) else m[path.p].(right := n))
    && forall q :: q in m && q != n && q != path.p ==> m'[q] == m[q]
  }

  lemma {:induction false} HungZipped(m: Store, m': Store, root: Ptr, path: Path, n: Ptr)
    requires Zipped(m, root, path, Leaf) && !path.Top? && n != NULL && n !in PathIds(path)
    requires Hung(m, m', path, n)
    ensures Zipped(m', root, path, Node(Leaf, n, true, Leaf))
    ensures LinksOnly(m, m', PathIds(path) + {n})
  {
    Redirected(m, root, path, NULL, n);
    HoldsPathFrame(Redirect(m, path, n), m', root, path, n);
  }

  /** `s'` is `s` with `n` put behind every key that is not larger. */
  ghost predicate InsertedAt(m: Store, s: seq<Ptr>, s': seq<Ptr>, n: Ptr, k: nat) {
    && n in m && k <= |s| && s' == s[..k] + [n] + s[k..]
    && AllAtMost(m, s[..k], m[n].vruntime) && AllAbove(m, s[k..], m[n].vruntime)
  }

  lemma {:induction false} InsertPosition(m: Store, path: Path, n: Ptr)
    requires n in m && Searching(m, path, Leaf, m[n].vruntime)
    requires Sorted(m, Inorder(Plug(path, Leaf)))
    ensures var s := Inorder(Plug(path, Leaf));
            var s' := Inorder(Plug(path, Node(Leaf, n, true, Leaf)));
            InsertedAt(m, s, s', n, |Before(path)|) && Sorted(m, s')
  {
    var a, b := Before(path), After(path);
    InorderPlug(path, Leaf);
    InorderPlug(path, Node(Leaf, n, true, Leaf));
    var s := a + [] + b;
    assert s[..|a|] == a && s[|a|..] == b;
    assert Inorder(Node(Leaf, n, true, Leaf)) == [n];
    assert a == s[..|a|] && Sorted(m, a);
    assert forall i :: 0 <= i < |b| ==> b[i] == s[|a| + i];
    assert Sorted(m, b);
    SortedJoin(m, a, n, b);
  }

  lemma {:induction false} InsertedAtKept(m: Store, m': Store, t: set<Ptr>, s: seq<Ptr>, s': seq<Ptr>, n: Ptr, k: nat)
    requires InsertedAt(m, s, s', n, k) && LinksOnly(m, m', t)
    ensures InsertedAt(m', s, s', n, k)
  {
  }

  lemma {:induction false} InsertedIds(m: Store, t: Tree, t': Tree, n: Ptr, k: nat)
    requires InsertedAt(m, Inorder(t), Inorder(t'), n, k)
    ensures Ids(t') == Ids(t) + {n}
  {
    IdsInorder(t);
    IdsInorder(t');
    var s, s' := Inorder(t), Inorder(t');
    forall q ensures q in s' <==> q in s || q == n {
      assert s == s[..k] + s[k..];
    }
  }
}
