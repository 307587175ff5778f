/**
  Red-black trees as values, and the zipper (a focused subtree plus the path
  above it) in which the fixup loops of the run queue are explained.

  A node carries only its address; the scheduling keys stay in the node store
  (see RunTree.dfy) because no tree operation ever writes them.
 */
module RbShape {
  import opened Powers
  import opened Sequences

  type Ptr = nat
  const NULL: Ptr := 0

  datatype Tree = Leaf | Node(left: Tree, p: Ptr, red: bool, right: Tree)

  /** The ancestors of a focused subtree, innermost first.  `InLeft` says that
      the focus is the left child of `p`, whose right subtree is `sib`. */
  datatype Path =
    | Top
    | InLeft(up: Path, p: Ptr, red: bool, sib: Tree)
    | InRight(up: Path, p: Ptr, red: bool, sib: Tree)

  function Plug(path: Path, t: Tree): Tree {
    match path
    case Top => t
    case InLeft(up, p, red, sib) => Plug(up, Node(t, p, red, sib))
    case InRight(up, p, red, sib) => Plug(up, Node(sib, p, red, t))
  }

  function Root(t: Tree): Ptr {
    if t.Leaf? then NULL else t.p
  }

  function Parent(path: Path): Ptr {
    if path.Top? then NULL else path.p
  }

  function Depth(path: Path): nat {
    if path.Top? then 0 else 1 + Depth(path.up)
  }

  function Height(t: Tree): nat {
    if t.Leaf? then 0
    else 1 + if Height(t.left) > Height(t.right) then Height(t.left) else Height(t.right)
  }

  // ----- contents -----

  function Inorder(t: Tree): seq<Ptr> {
    match t
    case Leaf => []
    case Node(l, p, _, r) => Inorder(l) + [p] + Inorder(r)
  }

  function Before(path: Path): seq<Ptr> {
    match path
    case Top => []
    case InLeft(up, _, _, _) => Before(up)
    case InRight(up, p, _, sib) => Before(up) + (Inorder(sib) + [p])
  }

  function After(path: Path): seq<Ptr> {
    match path
    case Top => []
    case InLeft(up, p, _, sib) => ([p] + Inorder(sib)) + After(up)
    case InRight(up, _, _, _) => After(up)
  }

  lemma SplitAfter(a: seq<Ptr>, b: seq<Ptr>, c: seq<Ptr>, d: seq<Ptr>, e: seq<Ptr>)
    ensures a + (b + c + d) + e == a + b + ((c + d) + e)
  {
  }

  lemma SplitBefore(a: seq<Ptr>, b: seq<Ptr>, c: seq<Ptr>, d: seq<Ptr>, e: seq<Ptr>)
    ensures a + (b + c + d) + e == (a + (b + c)) + d + e
  {
  }

  lemma {:induction false} InorderPlug(path: Path, t: Tree)
    ensures Inorder(Plug(path, t)) == Before(path) + Inorder(t) + After(path)
  {
    match path
    case Top =>
    case InLeft(up, p, red, sib) =>
      InorderPlug(up, Node(t, p, red, sib));
      SplitAfter(Before(up), Inorder(t), [p], Inorder(sib), After(up));
    case InRight(up, p, red, sib) =>
      InorderPlug(up, Node(sib, p, red, t));
      SplitBefore(Before(up), Inorder(sib), [p], Inorder(t), After(up));
  }

  // ----- addresses, and their distinctness -----

  function Ids(t: Tree): set<Ptr> {
    match t
    case Leaf => {}
    case Node(l, p, _, r) => Ids(l) + {p} + Ids(r)
  }

  function PathIds(path: Path): set<Ptr> {
    if path.Top? then {} else PathIds(path.up) + {path.p} + Ids(path.sib)
  }

  predicate Distinct(t: Tree) {
    t.Node? ==>
      && t.p !in Ids(t.left) && t.p !in Ids(t.right) && Ids(t.left) !! Ids(t.right)
      && Distinct(t.left) && Distinct(t.right)
  }

  predicate DistinctPath(path: Path) {
    !path.Top? ==>
      && path.p !in Ids(path.sib) && path.p !in PathIds(path.up)
      && Ids(path.sib) !! PathIds(path.up)
      && Distinct(path.sib) && DistinctPath(path.up)
  }

  predicate DistinctZip(path: Path, t: Tree) {
    Distinct(t) && DistinctPath(path) && Ids(t) !! PathIds(path)
  }

  lemma {:induction false} PlugIds(path: Path, t: Tree)
    ensures Ids(Plug(path, t)) == PathIds(path) + Ids(t)
    ensures Distinct(Plug(path, t)) <==> DistinctZip(path, t)
  {
    match path
    case Top =>
    case InLeft(up, p, red, sib) => PlugIds(up, Node(t, p, red, sib));
    case InRight(up, p, red, sib) => PlugIds(up, Node(sib, p, red, t));
  }

  lemma {:induction false} IdsInorder(t: Tree)
    ensures forall q :: q in Inorder(t) <==> q in Ids(t)
  {
    if t.Node? {
      IdsInorder(t.left);
      IdsInorder(t.right);
    }
  }

  lemma {:induction false} NoDupJoin(s: seq<Ptr>, p: Ptr, u: seq<Ptr>)
    requires NoDup(s) && NoDup(u) && p !in s && p !in u
    requires forall q :: q in s ==> q !in u
    ensures NoDup(s + [p] + u)
  {
    var w := s + [p] + u;
    forall i, j | 0 <= i < j < |w| ensures w[i] != w[j] {
      if i < |s| < j {
        assert w[i] in s && w[j] in u;
      }
    }
  }

  /** A node occurs exactly once in the in-order sequence. */
  lemma {:induction false} InorderNoDup(t: Tree)
    requires Distinct(t)
    ensures NoDup(Inorder(t))
  {
    if t.Node? {
      InorderNoDup(t.left);
      InorderNoDup(t.right);
      IdsInorder(t.left);
      IdsInorder(t.right);
      NoDupJoin(Inorder(t.left), t.p, Inorder(t.right));
    }
  }

  /** Every node of a tree can be brought into focus. */
  function PathTo(t: Tree, q: Ptr, above: Path): (r: (Path, Tree))
    requires q in Ids(t)
    ensures r.1.Node? && r.1.p == q
    ensures Plug(r.0, r.1) == Plug(above, t)
  {
    if q == t.p then (above, t)
    else if q in Ids(t.left) then PathTo(t.left, q, InLeft(above, t.p, t.red, t.right))
    else PathTo(t.right, q, InRight(above, t.p, t.red, t.left))
  }

  // ----- the red-black conditions -----

  predicate IsRed(t: Tree) {
    t.Node? && t.red
  }

  predicate PathRed(path: Path) {
    !path.Top? && path.red
  }

  /** No red node has a red child, and every way down meets `h` black nodes. */
  predicate Balanced(t: Tree, h: nat) {
    match t
    case Leaf => h == 0
    case Node(l, _, red, r) =>
      if red then !IsRed(l) && !IsRed(r) && Balanced(l, h) && Balanced(r, h)
      else h > 0 && Balanced(l, h - 1) && Balanced(r, h - 1)
  }

  /** What a path asks of the subtree in its hole: black height `h`.  The top
      of a non-empty path is black. */
  predicate PathBalanced(path: Path, h: nat) {
    path.Top? || (
      && Balanced(path.sib, h)
      && (path.red ==> !IsRed(path.sib) && !path.up.Top? && !path.up.red)
      && PathBalanced(path.up, if path.red then h else h + 1))
  }

  function BlackHeight(t: Tree): nat {
    if t.Leaf? then 0 else BlackHeight(t.left) + if t.red then 0 else 1
  }

  predicate RedBlack(t: Tree) {
    !IsRed(t) && Balanced(t, BlackHeight(t))
  }

  lemma {:induction false} BalancedHeight(t: Tree, h: nat)
    requires Balanced(t, h)
    ensures BlackHeight(t) == h
  {
    if t.Node? {
      BalancedHeight(t.left, if t.red then h else h - 1);
    }
  }

  /** A balanced subtree in a balanced path makes a red-black tree, except
      that the root is red when the path is empty and the subtree is red. */
  lemma {:induction false} PlugBalanced(path: Path, t: Tree, h: nat)
    requires Balanced(t, h) && PathBalanced(path, h)
    requires !(IsRed(t) && PathRed(path))
    ensures Balanced(Plug(path, t), BlackHeight(Plug(path, t)))
    ensures !path.Top? || !IsRed(t) ==> RedBlack(Plug(path, t))
  {
    match path
    case Top => BalancedHeight(t, h);
    case InLeft(up, p, red, sib) =>
      PlugBalanced(up, Node(t, p, red, sib), if red then h else h + 1);
    case InRight(up, p, red, sib) =>
      PlugBalanced(up, Node(sib, p, red, t), if red then h else h + 1);
  }

  /** Conversely, focusing anywhere in a red-black tree yields a balanced
      subtree in a balanced path. */
  lemma {:induction false} Unplug(path: Path, t: Tree)
    requires RedBlack(Plug(path, t))
    ensures Balanced(t, BlackHeight(t)) && PathBalanced(path, BlackHeight(t))
    ensures !(IsRed(t) && PathRed(path))
    ensures path.Top? ==> !IsRed(t)
  {
    match path
    case Top =>
    case InLeft(up, p, red, sib) =>
      var n := Node(t, p, red, sib);
      Unplug(up, n);
      BalancedHeight(t, if red then BlackHeight(n) else BlackHeight(n) - 1);
    case InRight(up, p, red, sib) =>
      var n := Node(sib, p, red, t);
      Unplug(up, n);
      BalancedHeight(t, if red then BlackHeight(n) else BlackHeight(n) - 1);
  }

  // ----- height -----

  lemma {:induction false} BalancedBounds(t: Tree, h: nat)
    requires Balanced(t, h)
    ensures Pow2(h) <= |Inorder(t)| + 1
    ensures Height(t) <= 2 * h + if IsRed(t) then 1 else 0
  {
    if t.Node? {
      var g := if t.red then h else h - 1;
      BalancedBounds(t.left, g);
      BalancedBounds(t.right, g);
    }
  }

  lemma {:induction false} SquareMonotone(a: nat, b: nat)
    requires a <= b
    ensures a * a <= b * b
  {
    assert b * b - a * a == (b - a) * (b + a);
  }

  /** Height is logarithmic: Height(t) <= 2 * log2(n + 1), in multiplied-out form. */
  lemma {:induction false} HeightBound(t: Tree)
    requires RedBlack(t)
    ensures Pow2(Height(t)) <= (|Inorder(t)| + 1) * (|Inorder(t)| + 1)
  {
    var h, n := BlackHeight(t), |Inorder(t)| + 1;
    BalancedBounds(t, h);
    Pow2Monotone(Height(t), h + h);
    Pow2Add(h, h);
    SquareMonotone(Pow2(h), n);
  }
}
