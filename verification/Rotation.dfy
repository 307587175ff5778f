/**
  Rotations: their effect on a tree value, and the pointer writes that bring
  it about in the node store.
 */
module Rotation {
  import opened RbShape
  import opened NodeStore

  /** Rotation at the root; without a child to lift, nothing happens. */
  function RotLeft(t: Tree): Tree {
    match t
    case Node(a, x, cx, Node(b, y, cy, c)) => Node(Node(a, x, cx, b), y, cy, c)
    case _ => t
  }

  function RotRight(t: Tree): Tree {
    match t
    case Node(Node(a, x, cx, b), y, cy, c) => Node(a, x, cx, Node(b, y, cy, c))
    case _ => t
  }

  lemma {:induction false} RotLeftContents(a: Tree, x: Ptr, cx: bool, b: Tree, y: Ptr, cy: bool, c: Tree)
    ensures var t, t' := Node(a, x, cx, Node(b, y, cy, c)), Node(Node(a, x, cx, b), y, cy, c);
      Inorder(t') == Inorder(t) && Ids(t') == Ids(t) && (Distinct(t) <==> Distinct(t'))
  {
    var yt, xt := Node(b, y, cy, c), Node(a, x, cx, b);
    assert Inorder(a) + [x] + (Inorder(b) + [y] + Inorder(c))
        == (Inorder(a) + [x] + Inorder(b)) + [y] + Inorder(c);
    assert Ids(yt) == Ids(b) + {y} + Ids(c) && Ids(xt) == Ids(a) + {x} + Ids(b);
    assert Distinct(yt) <==> y !in Ids(b) && y !in Ids(c) && Ids(b) !! Ids(c) && Distinct(b) && Distinct(c);
    assert Distinct(xt) <==> x !in Ids(a) && x !in Ids(b) && Ids(a) !! Ids(b) && Distinct(a) && Distinct(b);
  }

  /** Rotations keep the in-order sequence and the set of nodes. */
  lemma {:induction false} RotationContents(t: Tree)
    ensures Inorder(RotLeft(t)) == Inorder(t) && Inorder(RotRight(t)) == Inorder(t)
    ensures Ids(RotLeft(t)) == Ids(t) && Ids(RotRight(t)) == Ids(t)
    ensures Distinct(t) ==> Distinct(RotLeft(t)) && Distinct(RotRight(t))
  {
    if t.Node? && t.right.Node? {
      RotLeftContents(t.left, t.p, t.red, t.right.left, t.right.p, t.right.red, t.right.right);
    }
    if t.Node? && t.left.Node? {
      RotLeftContents(t.left.left, t.left.p, t.left.red, t.left.right, t.p, t.red, t.right);
    }
  }

  /** The writes of a rotation that lifts `up` over `down`: `b`, the subtree
      between them, moves under `down`.  Everything else is as before. */
  ghost predicate Rotated(m: Store, m': Store, path: Path, down: Ptr, up: Ptr, b: Ptr, left: bool) {
    && m'.Keys == m.Keys && down in m && up in m
    && m'[down] == (if left then m[down].(right := b, parent := up) else m[down].(left := b, parent := up))
    && m'[up] == (if left then m[up].(left := down, parent := Parent(path))
                  else m[up].(right := down, parent := Parent(path)))
    && (b != NULL && b in m ==> m'[b] == m[b].(parent := down))
    && (path.InLeft? && path.p in m ==> m'[path.p] == m[path.p].(left := up))
    && (path.InRight? && path.p in m ==> m'[path.p] == m[path.p].(right := up))
    && (forall q :: q in m && q != down && q != up && (q != b || b == NULL) && (q != Parent(path) || path.Top?)
          ==> m'[q] == m[q])
  }

  lemma {:induction false} RotatedFrame(m: Store, m': Store, path: Path, down: Ptr, up: Ptr, b: Ptr, left: bool, s: Tree, par: Ptr)
    requires Rotated(m, m', path, down, up, b, left)
    requires Holds(m, s, par)
    requires down !in Ids(s) && up !in Ids(s) && b !in Ids(s) && (path.Top? || path.p !in Ids(s))
    ensures Holds(m', s, par)
  {
    HoldsFrame(m, m', s, par);
  }

  lemma {:induction false} RotatedMiddle(m: Store, m': Store, path: Path, down: Ptr, up: Ptr, b: Tree, left: bool)
    requires Rotated(m, m', path, down, up, Root(b), left)
    requires Holds(m, b, up) && Distinct(b)
    requires down !in Ids(b) && up !in Ids(b) && (path.Top? || path.p !in Ids(b))
    ensures Holds(m', b, down)
  {
    Reparent(m, b, up, down);
    HoldsFrame(SetParent(m, Root(b), down), m', b, down);
  }

  lemma {:induction false} RotatedPath(m: Store, m': Store, root: Ptr, path: Path, down: Ptr, up: Ptr, b: Ptr, left: bool)
    requires Rotated(m, m', path, down, up, b, left)
    requires HoldsPath(m, root, path, down) && DistinctPath(path)
    requires down !in PathIds(path) && up !in PathIds(path) && b !in PathIds(path)
    ensures HoldsPath(m', RedirectRoot(root, path, up), path, up)
  {
    Redirected(m, root, path, down, up);
    HoldsPathFrame(Redirect(m, path, up), m', RedirectRoot(root, path, up), path, up);
  }

  lemma {:induction false} HoldsNull(m: Store, t: Tree, par: Ptr)
    requires Holds(m, t, par)
    ensures NULL !in Ids(t)
  {
    if t.Node? {
      HoldsNull(m, t.left, t.p);
      HoldsNull(m, t.right, t.p);
    }
  }

  lemma {:induction false} HoldsPathNull(m: Store, root: Ptr, path: Path, hole: Ptr)
    requires HoldsPath(m, root, path, hole)
    ensures NULL !in PathIds(path)
  {
    if !path.Top? {
      HoldsNull(m, path.sib, path.p);
      HoldsPathNull(m, root, path.up, path.p);
    }
  }

  /** The addresses a rotation touches: all present, all different. */
  ghost predicate Apart(m: Store, path: Path, down: Ptr, up: Ptr, b: Ptr) {
    && down in m && up in m && down != NULL && up != NULL && down != up
    && b != down && b != up && (b != NULL ==> b in m)
    && m[down].parent == Parent(path)
    && (!path.Top? ==>
          && path.p != NULL && path.p in m && path.p != down && path.p != up && path.p != b
          && (path.InLeft? ==> m[path.p].left == down)
          && (path.InRight? ==> m[path.p].left != down && m[path.p].right == down))
  }

  lemma {:induction false} RotateApart(m: Store, root: Ptr, path: Path, t: Tree, left: bool)
    requires Zipped(m, root, path, t) && t.Node?
    ensures t.p in m && m[t.p].right == Root(t.right) && m[t.p].left == Root(t.left)
    ensures left && t.right.Node? ==>
      && Apart(m, path, t.p, t.right.p, Root(t.right.left)) && m[t.right.p].left == Root(t.right.left)
    ensures !left && t.left.Node? ==>
      && Apart(m, path, t.p, t.left.p, Root(t.left.right)) && m[t.left.p].right == Root(t.left.right)
  {
    var s := if left then t.right else t.left;
    if s.Node? {
      assert Holds(m, s, t.p) && Distinct(s);
      var b := if left then s.left else s.right;
      assert Holds(m, b, s.p);
      HoldsNull(m, b, s.p);
      HoldsPathNull(m, root, path, t.p);
      assert Root(b) in Ids(b) + {NULL};
    }
  }

  lemma {:induction false} RotatedKeeps(m: Store, m': Store, root: Ptr, path: Path, t: Tree, t': Tree, up: Ptr, b: Ptr, left: bool)
    requires Zipped(m, root, path, t) && t.Node? && up in Ids(t) && (b != NULL ==> b in Ids(t))
    requires Rotated(m, m', path, t.p, up, b, left)
    requires Inorder(t') == Inorder(t) && Ids(t') == Ids(t)
    ensures Keeps(m, path, t, m', path, t')
  {
    InorderAt(path, t, t');
  }

  lemma {:induction false} RotLeftZipped(m: Store, m': Store, root: Ptr, path: Path, t: Tree)
    requires Zipped(m, root, path, t) && t.Node? && t.right.Node?
    requires Rotated(m, m', path, t.p, t.right.p, Root(t.right.left), true)
    ensures Zipped(m', RedirectRoot(root, path, t.right.p), path, RotLeft(t))
    ensures Keeps(m, path, t, m', path, RotLeft(t))
  {
    var a, x, b, y, c := t.left, t.p, t.right.left, t.right.p, t.right.right;
    assert Holds(m, t.right, x) && Distinct(t.right);
    HoldsNull(m, t, Parent(path));
    HoldsPathNull(m, root, path, x);
    RotatedFrame(m, m', path, x, y, Root(b), true, a, x);
    RotatedFrame(m, m', path, x, y, Root(b), true, c, y);
    RotatedMiddle(m, m', path, x, y, b, true);
    RotatedPath(m, m', root, path, x, y, Root(b), true);
    RotationContents(t);
    RotatedKeeps(m, m', root, path, t, RotLeft(t), y, Root(b), true);
    assert Holds(m', Node(a, x, t.red, b), y);
  }

  lemma {:induction false} RotRightZipped(m: Store, m': Store, root: Ptr, path: Path, t: Tree)
    requires Zipped(m, root, path, t) && t.Node? && t.left.Node?
    requires Rotated(m, m', path, t.p, t.left.p, Root(t.left.right), false)
    ensures Zipped(m', RedirectRoot(root, path, t.left.p), path, RotRight(t))
    ensures Keeps(m, path, t, m', path, RotRight(t))
  {
    var a, x, b, y, c := t.left.left, t.left.p, t.left.right, t.p, t.right;
    assert Holds(m, t.left, y) && Distinct(t.left);
    HoldsNull(m, t, Parent(path));
    HoldsPathNull(m, root, path, y);
    RotatedFrame(m, m', path, y, x, Root(b), false, a, x);
    RotatedFrame(m, m', path, y, x, Root(b), false, c, y);
    RotatedMiddle(m, m', path, y, x, b, false);
    RotatedPath(m, m', root, path, y, x, Root(b), false);
    RotationContents(t);
    RotatedKeeps(m, m', root, path, t, RotRight(t), x, Root(b), false);
    assert Holds(m', Node(b, y, t.red, c), x);
  }
}
