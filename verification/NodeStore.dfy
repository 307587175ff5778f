/**
  The memory in which scheduler nodes live, and what it means for it to hold
  a tree: every node is linked to its children, to its parent, and carries
  its colour.
 */
module NodeStore {
  import opened RbShape

  /** One scheduler node.  The source packs `parent` and `red` in one word;
      PackedWord.dfy shows that the two halves behave as independent fields. */
  datatype SchedNode = SchedNode(
    vruntime: nat, taskId: nat, deadline: nat, minDeadline: nat,
    left: Ptr, right: Ptr, parent: Ptr, red: bool)

  type Store = map<Ptr, SchedNode>

  predicate Linked(n: SchedNode, l: Ptr, r: Ptr, par: Ptr, red: bool) {
    n.left == l && n.right == r && n.parent == par && n.red == red
  }

  ghost predicate Holds(m: Store, t: Tree, par: Ptr) {
    t.Node? ==>
      && t.p != NULL && t.p in m
      && Linked(m[t.p], Root(t.left), Root(t.right), par, t.red)
      && Holds(m, t.left, t.p) && Holds(m, t.right, t.p)
  }

  ghost predicate HoldsPath(m: Store, root: Ptr, path: Path, hole: Ptr) {
    match path
    case Top => root == hole
    case InLeft(up, p, red, sib) =>
      && p != NULL && p in m && Linked(m[p], hole, Root(sib), Parent(up), red)
      && Holds(m, sib, p) && HoldsPath(m, root, up, p)
    case InRight(up, p, red, sib) =>
      && p != NULL && p in m && Linked(m[p], Root(sib), hole, Parent(up), red)
      && Holds(m, sib, p) && HoldsPath(m, root, up, p)
  }

  /** The store, entered at `root`, holds exactly the tree Plug(path, t). */
  ghost predicate Zipped(m: Store, root: Ptr, path: Path, t: Tree) {
    && DistinctZip(path, t)
    && Holds(m, t, Parent(path)) && HoldsPath(m, root, path, Root(t))
  }

  lemma {:induction false} ZippedPlug(m: Store, root: Ptr, path: Path, t: Tree)
    ensures Zipped(m, root, path, t) <==> Zipped(m, root, Top, Plug(path, t))
  {
    match path
    case Top =>
    case InLeft(up, p, red, sib) => ZippedPlug(m, root, up, Node(t, p, red, sib));
    case InRight(up, p, red, sib) => ZippedPlug(m, root, up, Node(sib, p, red, t));
  }

  // ----- framing -----

  ghost predicate SameOn(m: Store, m': Store, s: set<Ptr>) {
    forall q :: q in s && q in m ==> q in m' && m'[q] == m[q]
  }

  lemma {:induction false} HoldsFrame(m: Store, m': Store, t: Tree, par: Ptr)
    requires Holds(m, t, par) && SameOn(m, m', Ids(t))
    ensures Holds(m', t, par)
  {
    if t.Node? {
      HoldsFrame(m, m', t.left, t.p);
      HoldsFrame(m, m', t.right, t.p);
    }
  }

  lemma {:induction false} HoldsPathFrame(m: Store, m': Store, root: Ptr, path: Path, hole: Ptr)
    requires HoldsPath(m, root, path, hole) && SameOn(m, m', PathIds(path))
    ensures HoldsPath(m', root, path, hole)
  {
    if !path.Top? {
      HoldsFrame(m, m', path.sib, path.p);
      HoldsPathFrame(m, m', root, path.up, path.p);
    }
  }

  /** A write at `q` outside a tree does not disturb it. */
  lemma {:induction false} HoldsWrite(m: Store, q: Ptr, n: SchedNode, t: Tree, par: Ptr)
    requires Holds(m, t, par) && q !in Ids(t)
    ensures Holds(m[q := n], t, par)
  {
    HoldsFrame(m, m[q := n], t, par);
  }

  lemma {:induction false} HoldsPathWrite(m: Store, q: Ptr, n: SchedNode, root: Ptr, path: Path, hole: Ptr)
    requires HoldsPath(m, root, path, hole) && q !in PathIds(path)
    ensures HoldsPath(m[q := n], root, path, hole)
  {
    HoldsPathFrame(m, m[q := n], root, path, hole);
  }

  // ----- the three elementary writes -----

  /** The store after `parent` of the tree's root is overwritten (NULL: no write). */
  function SetParent(m: Store, q: Ptr, par: Ptr): Store {
    if q == NULL || q !in m then m else m[q := m[q].(parent := par)]
  }

  lemma {:induction false} Reparent(m: Store, t: Tree, par: Ptr, par': Ptr)
    requires Holds(m, t, par) && Distinct(t)
    ensures Holds(SetParent(m, Root(t), par'), t, par')
  {
    if t.Node? {
      var n := m[t.p].(parent := par');
      HoldsWrite(m, t.p, n, t.left, t.p);
      HoldsWrite(m, t.p, n, t.right, t.p);
    }
  }

  /** The store after the path's hole is redirected from `old` to `hole`; an
      empty path has its hole in the root pointer instead. */
  ghost function Redirect(m: Store, path: Path, hole: Ptr): Store
  {
    if path.Top? || path.p !in m then m else
    match path
    case InLeft(_, p, _, _) => m[p := m[p].(left := hole)]
    case InRight(_, p, _, _) => m[p := m[p].(right := hole)]
  }

  ghost function RedirectRoot(root: Ptr, path: Path, hole: Ptr): Ptr {
    if path.Top? then hole else root
  }

  lemma {:induction false} Redirected(m: Store, root: Ptr, path: Path, old_: Ptr, hole: Ptr)
    requires HoldsPath(m, root, path, old_) && DistinctPath(path)
    ensures HoldsPath(Redirect(m, path, hole), RedirectRoot(root, path, hole), path, hole)
  {
    if !path.Top? {
      var m' := Redirect(m, path, hole);
      HoldsFrame(m, m', path.sib, path.p);
      HoldsPathFrame(m, m', root, path.up, path.p);
    }
  }

  // ----- reading the neighbourhood of the focus -----

  lemma {:induction false} RootInPath(m: Store, root: Ptr, path: Path, hole: Ptr)
    requires HoldsPath(m, root, path, hole) && !path.Top?
    ensures root in PathIds(path) && root != NULL
  {
    if !path.up.Top? {
      RootInPath(m, root, path.up, path.p);
    }
  }

  /** What the pointers around the focus read as. */
  lemma {:induction false} Neighbours(m: Store, root: Ptr, path: Path, t: Tree)
    requires Zipped(m, root, path, t)
    ensures t.Node? ==> t.p != NULL && t.p in m && Linked(m[t.p], Root(t.left), Root(t.right), Parent(path), t.red)
    ensures path.Top? <==> root == Root(t)
    ensures !path.Top? ==>
      && path.p != NULL && path.p in m
      && m[path.p].red == path.red && m[path.p].parent == Parent(path.up)
    ensures path.InLeft? ==> m[path.p].left == Root(t) && m[path.p].right == Root(path.sib)
    ensures path.InRight? ==> m[path.p].right == Root(t) && m[path.p].left == Root(path.sib)
    ensures path.InRight? && t.Node? ==> m[path.p].left != t.p
    ensures !path.Top? && path.sib.Node? ==>
      && path.sib.p != NULL && path.sib.p in m
      && m[path.sib.p].red == path.sib.red
      && m[path.sib.p].left == Root(path.sib.left) && m[path.sib.p].right == Root(path.sib.right)
      && path.sib.p != Root(t)
  {
    if !path.Top? {
      RootInPath(m, root, path, Root(t));
      assert Holds(m, path.sib, path.p);
    }
  }

  // ----- moving the focus -----

  /** The subtree one level up. */
  function Lift(path: Path, t: Tree): Tree
    requires !path.Top?
  {
    if path.InLeft? then Node(t, path.p, path.red, path.sib)
    else Node(path.sib, path.p, path.red, t)
  }

  lemma {:induction false} FocusUp(m: Store, root: Ptr, path: Path, t: Tree)
    requires !path.Top?
    ensures Zipped(m, root, path, t) <==> Zipped(m, root, path.up, Lift(path, t))
    ensures Plug(path, t) == Plug(path.up, Lift(path, t))
    ensures Nodes(path, t) == Nodes(path.up, Lift(path, t))
  {
  }

  /** The path of the focus's sibling. */
  function Across(path: Path, t: Tree): Path
    requires !path.Top?
  {
    if path.InLeft? then InRight(path.up, path.p, path.red, t)
    else InLeft(path.up, path.p, path.red, t)
  }

  lemma {:induction false} FocusAcross(m: Store, root: Ptr, path: Path, t: Tree)
    requires !path.Top?
    ensures Zipped(m, root, path, t) <==> Zipped(m, root, Across(path, t), path.sib)
    ensures Plug(path, t) == Plug(Across(path, t), path.sib)
    ensures Nodes(path, t) == Nodes(Across(path, t), path.sib)
  {
    FocusUp(m, root, path, t);
    FocusUp(m, root, Across(path, t), path.sib);
  }

  /** The path of the focus's left or right child. */
  function Child(path: Path, t: Tree, left: bool): Path
    requires t.Node?
  {
    if left then InLeft(path, t.p, t.red, t.right) else InRight(path, t.p, t.red, t.left)
  }

  // ----- what an in-place step keeps -----

  function Nodes(path: Path, t: Tree): set<Ptr> {
    PathIds(path) + Ids(t)
  }

  predicate SameKey(a: SchedNode, b: SchedNode) {
    && a.vruntime == b.vruntime && a.taskId == b.taskId
    && a.deadline == b.deadline && a.minDeadline == b.minDeadline
  }

  /** Only links changed, and only inside `s`. */
  ghost predicate LinksOnly(m: Store, m': Store, s: set<Ptr>) {
    && m'.Keys == m.Keys
    && (forall q :: q in m ==> SameKey(m[q], m'[q]))
    && (forall q :: q in m && q !in s ==> m'[q] == m[q])
  }

  /** Same nodes in the same order; keys and foreign nodes untouched. */
  ghost predicate Keeps(m: Store, path: Path, t: Tree, m': Store, path': Path, t': Tree) {
    && LinksOnly(m, m', Nodes(path, t))
    && Nodes(path', t') == Nodes(path, t)
    && Inorder(Plug(path', t')) == Inorder(Plug(path, t))
  }

  lemma {:induction false} KeepsTransitive(m: Store, p: Path, t: Tree, m1: Store, p1: Path, t1: Tree, m2: Store, p2: Path, t2: Tree)
    requires Keeps(m, p, t, m1, p1, t1) && Keeps(m1, p1, t1, m2, p2, t2)
    ensures Keeps(m, p, t, m2, p2, t2)
  {
  }

  lemma {:induction false} FocusTop(m: Store, p: Path, t: Tree, m': Store, root: Ptr, p': Path, t': Tree)
    requires Keeps(m, p, t, m', p', t') && Zipped(m', root, p', t')
    ensures Keeps(m, p, t, m', Top, Plug(p', t')) && Zipped(m', root, Top, Plug(p', t'))
  {
    ZippedPlug(m', root, p', t');
    PlugIds(p', t');
  }

  lemma {:induction false} InorderAt(path: Path, t: Tree, t': Tree)
    requires Inorder(t') == Inorder(t)
    ensures Inorder(Plug(path, t')) == Inorder(Plug(path, t))
  {
    InorderPlug(path, t);
    InorderPlug(path, t');
  }

  function Paint(t: Tree, red: bool): Tree {
    if t.Leaf? then t else t.(red := red)
  }

  lemma {:induction false} Painted(m: Store, root: Ptr, path: Path, t: Tree, red: bool)
    requires Zipped(m, root, path, t) && t.Node?
    ensures t.p in m
    ensures var m' := m[t.p := m[t.p].(red := red)];
      && Zipped(m', root, path, Paint(t, red)) && Keeps(m, path, t, m', path, Paint(t, red))
  {
    var n := m[t.p].(red := red);
    HoldsWrite(m, t.p, n, t.left, t.p);
    HoldsWrite(m, t.p, n, t.right, t.p);
    HoldsPathWrite(m, t.p, n, root, path, t.p);
    InorderAt(path, t, Paint(t, red));
  }

  // ----- order -----

  ghost predicate Sorted(m: Store, s: seq<Ptr>) {
    && (forall i :: 0 <= i < |s| ==> s[i] in m)
    && (forall i, j :: 0 <= i < j < |s| ==> m[s[i]].vruntime <= m[s[j]].vruntime)
  }

  ghost predicate AllAtMost(m: Store, s: seq<Ptr>, v: nat) {
    forall q :: q in s ==> q in m && m[q].vruntime <= v
  }

  ghost predicate AllAbove(m: Store, s: seq<Ptr>, v: nat) {
    forall q :: q in s ==> q in m && v < m[q].vruntime
  }

  lemma {:induction false} SortedJoin(m: Store, s: seq<Ptr>, p: Ptr, u: seq<Ptr>)
    requires p in m && Sorted(m, s) && Sorted(m, u)
    requires AllAtMost(m, s, m[p].vruntime) && AllAbove(m, u, m[p].vruntime)
    ensures Sorted(m, s + [p] + u)
  {
    var w := s + [p] + u;
    forall i, j | 0 <= i < j < |w| ensures w[i] in m && w[j] in m && m[w[i]].vruntime <= m[w[j]].vruntime {
      assert i < |s| ==> w[i] in s;
      assert j > |s| ==> w[j] in u;
    }
  }

  lemma {:induction false} SortedMiddle(m: Store, a: seq<Ptr>, p: Ptr, b: seq<Ptr>)
    requires Sorted(m, a + [p] + b)
    ensures p in m && Sorted(m, a) && Sorted(m, b)
    ensures forall q :: q in a ==> q in m && m[q].vruntime <= m[p].vruntime
    ensures forall q :: q in b ==> q in m && m[p].vruntime <= m[q].vruntime
  {
    var w := a + [p] + b;
    assert w[|a|] == p;
    forall q | q in a ensures q in m && m[q].vruntime <= m[p].vruntime {
      var i :| 0 <= i < |a| && a[i] == q;
      assert w[i] == q;
    }
    forall q | q in b ensures q in m && m[p].vruntime <= m[q].vruntime {
      var i :| 0 <= i < |b| && b[i] == q;
      assert w[|a| + 1 + i] == q;
    }
    assert forall i :: 0 <= i < |a| ==> a[i] == w[i];
    assert forall i :: 0 <= i < |b| ==> b[i] == w[|a| + 1 + i];
  }

  /** Links may change; order depends on keys only. */
  lemma {:induction false} SortedKept(m: Store, m': Store, s: seq<Ptr>, t: set<Ptr>)
    requires Sorted(m, s) && LinksOnly(m, m', t)
    ensures Sorted(m', s)
  {
  }
}
