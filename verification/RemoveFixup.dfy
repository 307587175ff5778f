/**
  The cases of the removal fixup as rewrites of a zipper.  The focus is one
  black node short; each case either repairs that, or passes it upwards, or
  brings the sibling into a shape that the next round can use.
 */
module RemoveFixup {
  import opened RbShape
  import opened NodeStore
  import opened Rotation

  /** The path wants black height h + 1; the focus has h, or is red and has
      h + 1 once painted black (a red focus may sit above a red child). */
  ghost predicate Short(path: Path, t: Tree, h: nat) {
    && PathBalanced(path, h + 1)
    && (if IsRed(t) then Balanced(Paint(t, false), h + 1) else Balanced(t, h))
  }

  ghost predicate Pending(path: Path, t: Tree) {
    !path.Top? && !IsRed(t)
  }

  // The sibling's children, named by their side: `near` is on the focus's side.

  function MkPath(left: bool, up: Path, p: Ptr, red: bool, sib: Tree): Path {
    if left then InLeft(up, p, red, sib) else InRight(up, p, red, sib)
  }

  function MkSib(left: bool, near: Tree, p: Ptr, red: bool, far: Tree): Tree {
    if left then Node(near, p, red, far) else Node(far, p, red, near)
  }

  function Near(path: Path): Tree
    requires !path.Top? && path.sib.Node?
  {
    if path.InLeft? then path.sib.left else path.sib.right
  }

  function Far(path: Path): Tree
    requires !path.Top? && path.sib.Node?
  {
    if path.InLeft? then path.sib.right else path.sib.left
  }

  /** Lifts the sibling of the focus over its parent. */
  function LiftSibling(left: bool, t: Tree): Tree {
    if left then RotLeft(t) else RotRight(t)
  }

  /** A short focus has a sibling, even when it is itself NULL. */
  lemma {:induction false} HasSibling(path: Path, t: Tree, h: nat)
    requires Short(path, t, h) && Pending(path, t)
    ensures path.sib.Node? && Balanced(path.sib, h + 1) && Balanced(t, h)
    ensures PathBalanced(path.up, if path.red then h + 1 else h + 2)
    ensures path.red ==> !path.sib.red && !path.up.Top? && !path.up.red
  {
  }

  /** Sibling and nephews, as the pointers read. */
  lemma {:induction false} Nephews(m: Store, root: Ptr, path: Path, t: Tree)
    requires Zipped(m, root, path, t) && !path.Top? && path.sib.Node?
    ensures path.p in m && path.sib.p in m && path.sib.p != NULL
    ensures path.sib.p == if path.InLeft? then m[path.p].right else m[path.p].left
    ensures m[path.sib.p].red == path.sib.red
    ensures Root(Near(path)) == if path.InLeft? then m[path.sib.p].left else m[path.sib.p].right
    ensures Root(Far(path)) == if path.InLeft? then m[path.sib.p].right else m[path.sib.p].left
    ensures forall u :: u in {Near(path), Far(path)} ==>
      && (u.Node? <==> Root(u) != NULL) && (u.Node? ==> u.p in m && m[u.p].red == u.red)
  {
    Neighbours(m, root, path, t);
    assert Holds(m, path.sib, path.p);
    assert Holds(m, Near(path), path.sib.p) && Holds(m, Far(path), path.sib.p);
  }

  // ----- the loop's measure -----

  /** A red parent is always the last stop; otherwise rounds move up. */
  ghost function Rounds(path: Path, t: Tree): nat {
    if !Pending(path, t) then 0 else if path.red then 1 else 1 + Depth(path)
  }

  ghost function Shapes(path: Path): nat {
    if !path.Top? && path.sib.Node? && IsRed(Near(path)) && !IsRed(Far(path)) then 1 else 0
  }

  ghost predicate Progress(path: Path, t: Tree, path': Path, t': Tree) {
    || Rounds(path', t') < Rounds(path, t)
    || (Rounds(path', t') == Rounds(path, t) && Shapes(path') < Shapes(path))
  }

  // ----- CASE 1: red sibling -----

  ghost function RedSibling(path: Path): Path
    requires !path.Top? && path.sib.Node?
  {
    var left := path.InLeft?;
    MkPath(left, MkPath(left, path.up, path.sib.p, false, Far(path)), path.p, true, Near(path))
  }

  lemma {:induction false} RedSiblingStep(path: Path, t: Tree, h: nat)
    requires Short(path, t, h) && Pending(path, t) && IsRed(path.sib)
    ensures Short(RedSibling(path), t, h) && Progress(path, t, RedSibling(path), t)
  {
    HasSibling(path, t, h);
    var q := RedSibling(path);
    assert PathBalanced(q.up, h + 1);
  }

  lemma {:induction false} RedSiblingRotation(path: Path, t: Tree)
    requires !path.Top? && path.sib.Node?
    ensures var q := RedSibling(path);
      && q.up.up == path.up
      && Lift(q.up, Lift(q, t))
        == LiftSibling(path.InLeft?, Paint(Lift(path.(sib := Paint(path.sib, false)), t), true))
  {
  }

  // ----- CASE 2: black sibling with black children -----

  ghost function PassedUp(path: Path, t: Tree): Tree
    requires !path.Top?
  {
    Lift(path.(sib := Paint(path.sib, true)), t)
  }

  lemma {:induction false} PassUpStep(path: Path, t: Tree, h: nat)
    requires Short(path, t, h) && Pending(path, t) && path.sib.Node? && !IsRed(path.sib)
    requires !IsRed(Near(path)) && !IsRed(Far(path))
    ensures Short(path.up, PassedUp(path, t), if path.red then h else h + 1)
    ensures Progress(path, t, path.up, PassedUp(path, t))
  {
    HasSibling(path, t, h);
    assert Balanced(Paint(path.sib, true), h);
  }

  // ----- CASE 3: black sibling, red near child, black far child -----

  ghost function Turned(path: Path): Tree
    requires !path.Top? && path.sib.Node? && Near(path).Node?
  {
    var left, near := path.InLeft?, Near(path);
    var (outer, inner) := if left then (near.left, near.right) else (near.right, near.left);
    MkSib(left, outer, near.p, false, MkSib(left, inner, path.sib.p, true, Far(path)))
  }

  lemma {:induction false} TurnStep(path: Path, t: Tree, h: nat)
    requires Short(path, t, h) && Pending(path, t) && path.sib.Node? && !IsRed(path.sib)
    requires IsRed(Near(path)) && !IsRed(Far(path))
    ensures var q := path.(sib := Turned(path));
      Short(q, t, h) && Progress(path, t, q, t)
  {
    HasSibling(path, t, h);
    var near := Near(path);
    assert Balanced(near, h);
    assert Balanced(near.left, h) && Balanced(near.right, h);
    var q := path.(sib := Turned(path));
    assert Balanced(Far(q), h);
    assert Balanced(Turned(path), h + 1);
  }

  /** The sibling with the colours set for the turn. */
  ghost function TurnTree(path: Path): Tree
    requires !path.Top? && path.sib.Node?
  {
    Paint(MkSib(path.InLeft?, Paint(Near(path), false), path.sib.p, path.sib.red, Far(path)), true)
  }

  lemma {:induction false} TurnRotation(path: Path)
    requires !path.Top? && path.sib.Node? && Near(path).Node?
    ensures Turned(path) == LiftSibling(!path.InLeft?, TurnTree(path))
  {
  }

  // ----- CASE 4: black sibling, red far child -----

  ghost function Absorbed(path: Path, t: Tree): Tree
    requires !path.Top? && path.sib.Node?
  {
    var left := path.InLeft?;
    MkSib(left, MkSib(left, t, path.p, false, Near(path)), path.sib.p, path.red, Paint(Far(path), false))
  }

  lemma {:induction false} AbsorbStep(path: Path, t: Tree, h: nat)
    requires Short(path, t, h) && Pending(path, t) && path.sib.Node? && !IsRed(path.sib)
    requires IsRed(Far(path))
    ensures var whole := Plug(path.up, Absorbed(path, t));
      RedBlack(whole) && Short(Top, whole, BlackHeight(whole)) && Progress(path, t, Top, whole)
  {
    HasSibling(path, t, h);
    var left := path.InLeft?;
    assert Balanced(Near(path), h) && Balanced(Paint(Far(path), false), h + 1);
    assert Balanced(MkSib(left, t, path.p, false, Near(path)), h + 1);
    var k := if path.red then h + 1 else h + 2;
    assert Balanced(Absorbed(path, t), k);
    PlugBalanced(path.up, Absorbed(path, t), k);
  }

  ghost function AbsorbSibling(path: Path): Tree
    requires !path.Top? && path.sib.Node?
  {
    MkSib(path.InLeft?, Near(path), path.sib.p, path.red, Paint(Far(path), false))
  }

  lemma {:induction false} AbsorbRotation(path: Path, t: Tree)
    requires !path.Top? && path.sib.Node?
    ensures Absorbed(path, t)
         == LiftSibling(path.InLeft?, Paint(Lift(path.(sib := AbsorbSibling(path)), t), false))
  {
  }

  // ----- leaving the loop -----

  lemma {:induction false} RemoveDone(path: Path, t: Tree, h: nat)
    requires Short(path, t, h) && !Pending(path, t)
    ensures RedBlack(Plug(path, Paint(t, false)))
  {
    if IsRed(t) {
      PlugBalanced(path, Paint(t, false), h + 1);
    } else {
      PlugBalanced(path, t, h);
    }
  }
}
