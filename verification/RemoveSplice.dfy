/**
  Taking a node out of the tree: splicing out a node with at most one child,
  and moving the in-order successor into the place of a node with two.
 */
module RemoveSplice {
  import opened RbShape
  import opened Sequences
  import opened NodeStore
  import opened Rotation
  import opened RemoveFixup

  // ----- paths below paths -----

  function Append(q: Path, base: Path): Path {
    match q
    case Top => base
    case InLeft(up, p, red, sib) => InLeft(Append(up, base), p, red, sib)
    case InRight(up, p, red, sib) => InRight(Append(up, base), p, red, sib)
  }

  lemma {:induction false} PlugAppend(q: Path, base: Path, t: Tree)
    ensures Plug(Append(q, base), t) == Plug(base, Plug(q, t))
  {
    if !q.Top? {
      PlugAppend(q.up, base, Lift(q, t));
    }
  }

  lemma {:induction false} FocusBelow(m: Store, root: Ptr, q: Path, base: Path, t: Tree)
    ensures Zipped(m, root, Append(q, base), t) <==> Zipped(m, root, base, Plug(q, t))
    ensures Nodes(Append(q, base), t) == Nodes(base, Plug(q, t))
  {
    PlugAppend(q, base, t);
    ZippedPlug(m, root, Append(q, base), t);
    ZippedPlug(m, root, base, Plug(q, t));
    PlugIds(Append(q, base), t);
    PlugIds(base, Plug(q, t));
  }

  lemma {:induction false} BelowPath(q: Path, base: Path)
    requires DistinctPath(Append(q, base)) && !base.Top?
    ensures !Append(q, base).Top? && base.p in PathIds(Append(q, base))
    ensures Parent(Append(q, base)) == base.p <==> q.Top?
    ensures !q.Top? ==> Parent(Append(q, base)) == q.p
  {
    if !q.Top? {
      BelowPath(q.up, base);
    }
  }

  /** Balance looks at colours only: renaming the node under `q` is invisible. */
  lemma {:induction false} AppendBalanced(q: Path, up: Path, z: Ptr, y: Ptr, red: bool, sib: Tree, h: nat)
    requires PathBalanced(Append(q, InRight(up, z, red, sib)), h)
    ensures PathBalanced(Append(q, InRight(up, y, red, sib)), h)
  {
    if !q.Top? {
      AppendBalanced(q.up, up, z, y, red, sib, if q.red then h else h + 1);
    }
  }

  // ----- splicing out -----

  ghost predicate OneChild(t: Tree, c: Tree) {
    t.Node? && ((t.left.Leaf? && c == t.right) || (t.right.Leaf? && c == t.left))
  }

  /** The store after rb_transplant puts `v` where the hole of `path` is. */
  ghost function Transplanted(m: Store, path: Path, v: Ptr): Store {
    SetParent(Redirect(m, path, v), v, Parent(path))
  }

  lemma {:induction false} SpliceZipped(m: Store, root: Ptr, path: Path, t: Tree, c: Tree)
    requires Zipped(m, root, path, t) && OneChild(t, c)
    ensures Zipped(Transplanted(m, path, Root(c)), RedirectRoot(root, path, Root(c)), path, c)
    ensures LinksOnly(m, Transplanted(m, path, Root(c)), Nodes(path, t))
  {
    var v := Root(c);
    var m1 := Redirect(m, path, v);
    var m2 := Transplanted(m, path, v);
    assert Holds(m, c, t.p);
    HoldsPathNull(m, root, path, t.p);
    HoldsNull(m, c, t.p);
    HoldsFrame(m, m1, c, t.p);
    Reparent(m1, c, t.p, Parent(path));
    Redirected(m, root, path, t.p, v);
    HoldsPathFrame(m1, m2, RedirectRoot(root, path, v), path, v);
  }

  /** What the fixup starts from. */
  lemma {:induction false} SpliceBalance(path: Path, t: Tree, c: Tree, h: nat)
    requires OneChild(t, c) && Balanced(t, h) && PathBalanced(path, h)
    requires path.Top? ==> !t.red
    ensures !t.red ==> h > 0 && Short(path, c, h - 1)
    ensures t.red ==> RedBlack(Plug(path, c))
  {
    if t.red {
      assert h == 0 && c.Leaf?;
      PlugBalanced(path, c, h);
    }
  }

  // ----- moving the successor -----

  /** The store after `y` has taken the links, the colour and the place of
      `z`, whose subtrees are rooted at `l` and `r`. */
  ghost predicate Swapped(m: Store, m': Store, path: Path, z: Ptr, y: Ptr, l: Ptr, r: Ptr) {
    && m'.Keys == m.Keys && y in m && z in m
    && m'[y] == m[y].(left := l, right := r, parent := Parent(path), red := m[z].red)
    && (l != NULL && l in m ==> m'[l] == m[l].(parent := y))
    && (r != NULL && r in m ==> m'[r] == m[r].(parent := y))
    && (path.InLeft? && path.p in m ==> m'[path.p] == m[path.p].(left := y))
    && (path.InRight? && path.p in m ==> m'[path.p] == m[path.p].(right := y))
    && (forall q :: q in m && q != y && (q != l || l == NULL) && (q != r || r == NULL) && (q != Parent(path) || path.Top?)
          ==> m'[q] == m[q])
  }

  /** Everything `y` comes to sit between, before the move. */
  ghost predicate Around(m: Store, root: Ptr, path: Path, l: Tree, z: Ptr, r: Tree, rpar: Ptr, y: Ptr) {
    && Holds(m, l, z) && Holds(m, r, rpar) && HoldsPath(m, root, path, z)
    && Distinct(l) && Distinct(r) && DistinctPath(path)
    && Ids(l) !! Ids(r) && Ids(l) !! PathIds(path) && Ids(r) !! PathIds(path)
    && y != NULL && y in m && y !in Ids(l) && y !in Ids(r) && y !in PathIds(path)
    && z in m
  }

  /** The addresses the move touches. */
  ghost predicate SwapApart(m: Store, root: Ptr, path: Path, z: Ptr, y: Ptr, l: Ptr, r: Ptr) {
    && z in m && y in m && z != NULL && y != NULL && y != z
    && m[z].parent == Parent(path) && m[z].left == l && m[y].right == r
    && (l != NULL ==> l in m && l != y && l != z && l != r)
    && (r != NULL ==> r in m && r != y && r != z && m[r].parent == y)
    && HoldsPath(m, root, path, z)
    && (!path.Top? ==>
          && path.p in m && path.p != NULL && path.p != y && path.p != z && path.p != l && path.p != r
          && Root(path.sib) != z)
  }

  ghost predicate Placed(m: Store, path: Path, l: Tree, z: Ptr, r: Tree, y: Ptr) {
    && z in m && z != NULL && y in m && y != z
    && m[z].parent == Parent(path) && m[z].left == Root(l) && m[y].right == Root(r)
    && z !in Ids(l) && z !in Ids(r) && z !in PathIds(path)
  }

  lemma {:induction false} AroundApart(m: Store, root: Ptr, path: Path, l: Tree, z: Ptr, r: Tree, y: Ptr)
    requires Around(m, root, path, l, z, r, y, y) && Placed(m, path, l, z, r, y)
    ensures SwapApart(m, root, path, z, y, Root(l), Root(r))
  {
    HoldsNull(m, l, z);
    HoldsNull(m, r, y);
    HoldsPathNull(m, root, path, z);
    assert Root(l) != NULL ==> Root(l) in Ids(l);
    assert Root(r) != NULL ==> Root(r) in Ids(r);
    assert !path.Top? ==> path.p in PathIds(path) && (path.sib.Node? ==> path.sib.p in PathIds(path));
  }

  lemma {:induction false} SwapLinks(m: Store, m': Store, path: Path, l: Tree, z: Ptr, r: Tree, y: Ptr)
    requires Swapped(m, m', path, z, y, Root(l), Root(r))
    ensures LinksOnly(m, m', PathIds(path) + Ids(l) + Ids(r) + {y})
  {
    assert l.Node? ==> Root(l) in Ids(l);
    assert r.Node? ==> Root(r) in Ids(r);
    assert !path.Top? ==> path.p in PathIds(path);
  }

  /** The successor is z's right child: it carries its right subtree already. */
  lemma {:induction false} DirectAround(m: Store, root: Ptr, path: Path, t: Tree)
    requires Zipped(m, root, path, t) && t.Node? && t.right.Node?
    ensures Around(m, root, path, t.left, t.p, t.right.right, t.right.p, t.right.p)
    ensures Placed(m, path, t.left, t.p, t.right.right, t.right.p)
  {
    assert Holds(m, t.right, t.p) && Distinct(t.right);
  }

  /** The successor was deeper: spliced out, then given z's right subtree. */
  lemma {:induction false} DetachedAround(m: Store, root: Ptr, path: Path, t: Tree, y: Ptr)
    requires Zipped(m, root, path, t) && t.Node?
    requires y in m && y != NULL && y !in Nodes(path, t)
    ensures var m' := SetParent(m[y := m[y].(right := Root(t.right))], Root(t.right), y);
      && Around(m', root, path, t.left, t.p, t.right, y, y) && Placed(m', path, t.left, t.p, t.right, y)
      && LinksOnly(m, m', Nodes(path, t) + {y})
  {
    var m1 := m[y := m[y].(right := Root(t.right))];
    var m' := SetParent(m1, Root(t.right), y);
    HoldsNull(m, t.right, t.p);
    HoldsFrame(m, m', t.left, t.p);
    HoldsFrame(m, m1, t.right, t.p);
    Reparent(m1, t.right, t.p, y);
    HoldsPathFrame(m, m', root, path, t.p);
    assert t.right.Node? ==> Root(t.right) in Ids(t.right);
  }

  lemma {:induction false} SwapFrame(m: Store, m': Store, path: Path, z: Ptr, y: Ptr, l: Ptr, r: Ptr, s: Tree, par: Ptr)
    requires Swapped(m, m', path, z, y, l, r)
    requires Holds(m, s, par) && Distinct(s) && NULL !in Ids(s) && y !in Ids(s)
    requires path.Top? || path.p !in Ids(s)
    requires (Root(s) == l && r !in Ids(s)) || (Root(s) == r && l !in Ids(s))
    ensures Holds(m', s, y)
  {
    Reparent(m, s, par, y);
    HoldsFrame(SetParent(m, Root(s), y), m', s, y);
  }

  lemma {:induction false} SwapZipped(m: Store, m': Store, root: Ptr, path: Path, l: Tree, z: Ptr, r: Tree, rpar: Ptr, y: Ptr)
    requires Around(m, root, path, l, z, r, rpar, y)
    requires Swapped(m, m', path, z, y, Root(l), Root(r))
    ensures Zipped(m', RedirectRoot(root, path, y), path, Node(l, y, m[z].red, r))
  {
    HoldsNull(m, l, z);
    HoldsNull(m, r, rpar);
    HoldsPathNull(m, root, path, z);
    SwapFrame(m, m', path, z, y, Root(l), Root(r), l, z);
    SwapFrame(m, m', path, z, y, Root(l), Root(r), r, rpar);
    Redirected(m, root, path, z, y);
    HoldsPathFrame(Redirect(m, path, y), m', RedirectRoot(root, path, y), path, y);
  }

  // ----- the effect on the sequence -----

  /** `s'` is `s` without its element at `k`, which is `z`. */
  ghost predicate RemovedAt(s: seq<Ptr>, s': seq<Ptr>, z: Ptr, k: nat) {
    k < |s| && s[k] == z && s' == s[..k] + s[k + 1..]
  }

  lemma {:induction false} RemovedMiddle(a: seq<Ptr>, b: seq<Ptr>, z: Ptr, c: seq<Ptr>, d: seq<Ptr>)
    ensures RemovedAt(a + (b + [z] + c) + d, a + (b + c) + d, z, |a| + |b|)
  {
    var s, k := a + (b + [z] + c) + d, |a| + |b|;
    assert s[..k] == a + b;
    assert s[k + 1..] == c + d;
    assert a + (b + c) + d == (a + b) + (c + d);
  }

  lemma {:induction false} RemovedWithin(s: seq<Ptr>, s': seq<Ptr>, a: seq<Ptr>, b: seq<Ptr>, z: Ptr, c: seq<Ptr>, w: seq<Ptr>, d: seq<Ptr>)
    requires s == a + (b + [z] + c) + d && s' == a + w + d && w == b + c
    ensures RemovedAt(s, s', z, |a| + |b|)
  {
    RemovedMiddle(a, b, z, c, d);
  }

  lemma {:induction false} OneChildInorder(t: Tree, c: Tree)
    requires OneChild(t, c)
    ensures Inorder(c) == Inorder(t.left) + Inorder(t.right)
  {
    if t.left.Leaf? {
      assert Inorder(t.left) + Inorder(t.right) == Inorder(c);
    } else {
      assert Inorder(t.left) + Inorder(t.right) == Inorder(c);
    }
  }

  lemma {:induction false} SpliceSequence(path: Path, t: Tree, c: Tree)
    requires OneChild(t, c)
    ensures RemovedAt(Inorder(Plug(path, t)), Inorder(Plug(path, c)), t.p,
                      |Before(path)| + |Inorder(t.left)|)
  {
    OneChildInorder(t, c);
    InorderPlug(path, t);
    InorderPlug(path, c);
    RemovedWithin(Inorder(Plug(path, t)), Inorder(Plug(path, c)),
                  Before(path), Inorder(t.left), t.p, Inorder(t.right), Inorder(c), After(path));
  }

  lemma {:induction false} FirstOf(q: Path, y: Ptr, red: bool, yr: Tree)
    requires Before(q) == []
    ensures Inorder(Plug(q, Node(Leaf, y, red, yr))) == [y] + Inorder(Plug(q, yr))
  {
    InorderPlug(q, Node(Leaf, y, red, yr));
    InorderPlug(q, yr);
    assert Inorder(Node(Leaf, y, red, yr)) == [y] + Inorder(yr);
  }

  /** The successor is the first node of the right subtree. */
  lemma {:induction false} SwapSequence(path: Path, l: Tree, z: Ptr, red: bool, q: Path, y: Ptr, yred: bool, yr: Tree)
    requires Before(q) == []
    ensures RemovedAt(Inorder(Plug(path, Node(l, z, red, Plug(q, Node(Leaf, y, yred, yr))))),
                      Inorder(Plug(path, Node(l, y, red, Plug(q, yr)))), z,
                      |Before(path)| + |Inorder(l)|)
  {
    var u, v := Plug(q, Node(Leaf, y, yred, yr)), Plug(q, yr);
    FirstOf(q, y, yred, yr);
    InorderPlug(path, Node(l, z, red, u));
    InorderPlug(path, Node(l, y, red, v));
    SkipMiddle(Inorder(l), y, Inorder(v), Inorder(u));
    RemovedWithin(Inorder(Plug(path, Node(l, z, red, u))), Inorder(Plug(path, Node(l, y, red, v))),
                  Before(path), Inorder(l), z, Inorder(u), Inorder(Node(l, y, red, v)), After(path));
  }

  lemma {:induction false} SkipMiddle(a: seq<Ptr>, y: Ptr, b: seq<Ptr>, c: seq<Ptr>)
    requires c == [y] + b
    ensures a + [y] + b == a + c
  {
  }

  // ----- summary of a splice -----

  /** The focus `c` in `path` is ready for the fixup (black removed) or done (red removed). */
  ghost predicate Spliced(path: Path, c: Tree, red: bool, h: nat) {
    if red then RedBlack(Plug(path, c)) else Short(path, c, h)
  }

  ghost function ShortBy(t: Tree): nat {
    if IsRed(t) || BlackHeight(t) == 0 then 0 else BlackHeight(t) - 1
  }

  lemma {:induction false} SpliceShape(path: Path, t: Tree, c: Tree)
    requires RedBlack(Plug(path, t)) && DistinctZip(path, t) && OneChild(t, c)
    ensures Spliced(path, c, t.red, ShortBy(t))
    ensures RemovedAt(Inorder(Plug(path, t)), Inorder(Plug(path, c)), t.p,
                      |Before(path)| + |Inorder(t.left)|)
    ensures Nodes(path, t) == Ids(Plug(path, t)) && Nodes(path, c) == Ids(Plug(path, t)) - {t.p}
  {
    Unplug(path, t);
    PlugIds(path, t);
    SpliceBalance(path, t, c, BlackHeight(t));
    SpliceSequence(path, t, c);
  }

  /** The same summary when the successor `y`, rooting `s`, moved up. */
  lemma {:induction false} SwapShape(path: Path, t: Tree, q: Path, s: Tree)
    requires RedBlack(Plug(path, t)) && DistinctZip(path, t) && t.Node? && t.right == Plug(q, s)
    requires s.Node? && s.left.Leaf? && Before(q) == []
    ensures var p := Append(q, InRight(path, s.p, t.red, t.left));
      && Spliced(p, s.right, s.red, ShortBy(s))
      && RemovedAt(Inorder(Plug(path, t)), Inorder(Plug(p, s.right)), t.p, |Before(path)| + |Inorder(t.left)|)
      && Plug(p, s.right) == Plug(path, Node(t.left, s.p, t.red, Plug(q, s.right)))
  {
    var base, base' := InRight(path, t.p, t.red, t.left), InRight(path, s.p, t.red, t.left);
    var p := Append(q, base);
    PlugAppend(q, base, s);
    Unplug(p, s);
    AppendBalanced(q, path, t.p, s.p, t.red, t.left, BlackHeight(s));
    assert !p.Top? && !Append(q, base').Top?;
    SpliceBalance(Append(q, base'), s, s.right, BlackHeight(s));
    PlugAppend(q, base', s.right);
    SwapSequence(path, t.left, t.p, t.red, q, s.p, s.red, s.right);
  }

  lemma {:induction false} SwapFocus(m: Store, root: Ptr, path: Path, t: Tree, q: Path, s: Tree)
    requires t.Node? && s.Node? && Zipped(m, root, path, Node(t.left, s.p, t.red, Plug(q, s.right)))
    ensures var p := Append(q, InRight(path, s.p, t.red, t.left));
      Zipped(m, root, p, s.right) && Parent(p) == if q.Top? then s.p else q.p
  {
    var base := InRight(path, s.p, t.red, t.left);
    FocusUp(m, root, base, Plug(q, s.right));
    FocusBelow(m, root, q, base, s.right);
    BelowPath(q, base);
  }

  lemma RemovedMember(s: seq<Ptr>, s': seq<Ptr>, z: Ptr, k: nat, q: Ptr)
    requires NoDup(s) && RemovedAt(s, s', z, k)
    ensures q in s' <==> q in s && q != z
  {
    if q in s && q != z {
      var i :| 0 <= i < |s| && s[i] == q;
      assert s'[if i < k then i else i - 1] == q;
    }
    if q in s' {
      var i :| 0 <= i < |s'| && s'[i] == q;
      assert s[if i < k then i else i + 1] == q;
    }
  }

  lemma {:induction false} RemovedIds(t: Tree, t': Tree, z: Ptr, k: nat)
    requires Distinct(t) && RemovedAt(Inorder(t), Inorder(t'), z, k)
    ensures Ids(t') == Ids(t) - {z}
  {
    InorderNoDup(t);
    IdsInorder(t);
    IdsInorder(t');
    forall q ensures q in Ids(t') <==> q in Ids(t) && q != z {
      RemovedMember(Inorder(t), Inorder(t'), z, k, q);
    }
  }

  lemma {:induction false} SortedRemoved(m: Store, s: seq<Ptr>, s': seq<Ptr>, z: Ptr, k: nat)
    requires Sorted(m, s) && RemovedAt(s, s', z, k)
    ensures Sorted(m, s')
  {
    forall i | 0 <= i < |s'| ensures s'[i] == if i < k then s[i] else s[i + 1] {
    }
  }
}
