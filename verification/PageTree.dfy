/**
  Four-level page tables (section 4.5 of the Intel SDM, volume 3A) held in a
  memory of 512-entry tables, and the tree they form in the user half.

  A node of the tree is named by its path: the indices followed from the
  PML4.  Paths of length 0 to 3 name tables, paths of length 4 mapped frames.
 */
module PageTree {
  import opened Options
  import opened Sequences

  type Frame = nat
  type Node = seq<nat>

  datatype Flag = PRESENT | WRITABLE | USER_ACCESSIBLE | HUGE_PAGE | NO_EXECUTE

  datatype Entry = Entry(addr: Frame, flags: set<Flag>)

  predicate Unused(e: Entry) {
    e == Entry(0, {})
  }

  /** The access rights of every entry that points to a table. */
  const TABLE_FLAGS: set<Flag> := {PRESENT, WRITABLE, USER_ACCESSIBLE}

  type Table = seq<Entry>
  type Tables = map<Frame, Table>

  const ENTRIES: nat := 512
  const USER_ENTRIES: nat := 256

  /** A zeroed frame, read as a table. */
  predicate Zeroed(table: Table) {
    |table| == ENTRIES && forall i :: 0 <= i < ENTRIES ==> Unused(table[i])
  }

  /** The nodes of a tree, each with the entry that points to it. */
  type Tree = map<Node, Entry>

  ghost function Frames(node: Tree): set<Frame> {
    set q | q in node :: node[q].addr
  }

  /** The frames that hold tables: all but those of mapped pages. */
  ghost function TableFrames(node: Tree): set<Frame> {
    set q | q in node && |q| < 4 :: node[q].addr
  }

  /** The part of a table that belongs to the user half. */
  function Width(p: Node): nat {
    if p == [] then USER_ENTRIES else ENTRIES
  }

  // ----- what the tables say about one page -----

  datatype Mapping = Mapping(frame: Frame, rights: set<Flag>)

  /** Rights through one more level: access needs every level, execution is
      forbidden by any. */
  function Through(rights: set<Flag>, flags: set<Flag>): set<Flag> {
    (rights * flags * TABLE_FLAGS) + ((rights + flags) * {NO_EXECUTE})
  }

  /** The walk through the tables, gathering rights. */
  function Walk(t: Tables, f: Frame, rights: set<Flag>, path: Node): Option<Mapping>
    decreases |path|
  {
    if path == [] then Some(Mapping(f, rights))
    else if f !in t || path[0] >= |t[f]| then None
    else
      var e := t[f][path[0]];
      if Unused(e) then None else Walk(t, e.addr, Through(rights, e.flags), path[1..])
  }

  /** What the hardware makes of a page. */
  function Translate(t: Tables, root: Frame, page: Node): Option<Mapping> {
    Walk(t, root, TABLE_FLAGS, page)
  }

  /** What it makes of a page that is mapped by entry `e`. */
  function Leaf(e: Entry): Mapping {
    Mapping(e.addr, Through(TABLE_FLAGS, e.flags))
  }

  // ----- tree shape -----

  ghost predicate LinkOk(e: Entry, q: Node, node: Tree) {
    if q in node then e == node[q] && PRESENT in e.flags && (|q| < 4 ==> e.flags == TABLE_FLAGS)
    else Unused(e)
  }

  ghost predicate TableOk(t: Tables, node: Tree, p: Node)
    requires p in node
  {
    && node[p].addr in t && |t[node[p].addr]| == ENTRIES
    && forall i :: 0 <= i < Width(p) ==> LinkOk(t[node[p].addr][i], p + [i], node)
  }

  ghost predicate PathOk(p: Node) {
    |p| <= 4 && forall j :: 0 <= j < |p| ==> p[j] < Width(p[..j])
  }

  ghost predicate HasParent(node: Tree, p: Node)
    requires p != []
  {
    p[..|p| - 1] in node
  }

  ghost predicate Injective(node: Tree) {
    forall p, q :: p in node && q in node && node[p].addr == node[q].addr ==> p == q
  }

  ghost predicate TablesApart(node: Tree) {
    forall p, q :: p in node && q in node && |p| < 4 && |q| < 4 && node[p].addr == node[q].addr ==> p == q
  }

  /** The user half below `root` is a tree that shares no table; mapped frames may be shared. */
  ghost predicate Shape(t: Tables, root: Frame, node: Tree) {
    && [] in node && node[[]] == Entry(root, TABLE_FLAGS)
    && (forall p :: p in node ==> PathOk(p))
    && (forall p {:trigger HasParent(node, p)} :: p in node && p != [] ==> HasParent(node, p))
    && TablesApart(node)
    && (forall p {:trigger TableOk(t, node, p)} :: p in node && |p| < 4 ==> TableOk(t, node, p))
  }

  // ----- the walk reads the tree -----

  lemma {:induction false} WalkFrom(t: Tables, root: Frame, node: Tree, p: Node, rest: Node)
    requires Shape(t, root, node) && p in node && |p| < 4 && |p| + |rest| == 4 && PathOk(p + rest)
    ensures Walk(t, node[p].addr, TABLE_FLAGS, rest)
         == if p + rest in node then Some(Leaf(node[p + rest])) else None
    decreases |rest|
  {
    var q := p + [rest[0]];
    assert (p + rest)[|p|] == rest[0] && (p + rest)[..|p|] == p;
    assert p + rest == q + rest[1..];
    assert TableOk(t, node, p);
    assert LinkOk(t[node[p].addr][rest[0]], q, node);
    if q !in node {
      NotBelow(t, root, node, q, rest[1..]);
    } else if |rest| > 1 {
      assert Through(TABLE_FLAGS, TABLE_FLAGS) == TABLE_FLAGS;
      WalkFrom(t, root, node, q, rest[1..]);
    } else {
      assert q == p + rest;
    }
  }

  lemma {:induction false} NotBelow(t: Tables, root: Frame, node: Tree, q: Node, rest: Node)
    requires Shape(t, root, node) && q !in node
    ensures q + rest !in node
    decreases |rest|
  {
    if rest == [] {
      assert q + rest == q;
    } else {
      var r := q + rest;
      assert r[..|r| - 1] == q + rest[..|rest| - 1];
      assert r in node ==> HasParent(node, r);
      NotBelow(t, root, node, q, rest[..|rest| - 1]);
    }
  }

  lemma PrefixMissing(t: Tables, root: Frame, node: Tree, page: Node, k: nat, m: nat)
    requires Shape(t, root, node) && k <= m <= |page| && page[..k] !in node
    ensures page[..m] !in node
  {
    NotBelow(t, root, node, page[..k], page[k..m]);
    assert page[..k] + page[k..m] == page[..m];
  }

  /** Translation of a user page is a lookup in the tree. */
  lemma WalkIsNode(t: Tables, root: Frame, node: Tree, page: Node)
    requires Shape(t, root, node) && |page| == 4 && PathOk(page)
    ensures Translate(t, root, page) == if page in node then Some(Leaf(node[page])) else None
  {
    assert [] + page == page;
    WalkFrom(t, root, node, [], page);
  }

  /** The tree grew by tables only: no page changed. */
  ghost predicate TablesGrew(node: Tree, node': Tree) {
    && (forall q :: q in node ==> q in node' && node'[q] == node[q])
    && (forall q :: q in node' && q !in node ==> |q| < 4)
  }

  lemma PrefixNext(page: Node, k: nat)
    requires k < |page|
    ensures page[..k] + [page[k]] == page[..k + 1]
    ensures PathOk(page) ==> page[k] < Width(page[..k])
  {
  }

  /** How many tables the way to a page lacks. */
  ghost function Missing(node: Tree, page: Node): nat
    requires |page| == 4
  {
    if page[..1] !in node then 3 else if page[..2] !in node then 2 else if page[..3] !in node then 1 else 0
  }

  /** The first absent table: adding it leaves one fewer to add. */
  lemma MissingStep(t: Tables, root: Frame, node: Tree, node': Tree, page: Node, k: nat)
    requires Shape(t, root, node) && |page| == 4 && 1 <= k <= 3 && page[..k - 1] in node && page[..k] !in node
    requires node'.Keys == node.Keys + {page[..k]}
    ensures Missing(node, page) == 4 - k && Missing(node', page) == 3 - k
  {
    forall j | k <= j <= 3 ensures page[..j] !in node {
      PrefixMissing(t, root, node, page, k, j);
    }
    forall j | 1 <= j < k ensures page[..j] in node {
      if page[..j] !in node {
        PrefixMissing(t, root, node, page, j, k - 1);
      }
    }
    assert |page[..1]| == 1 && |page[..2]| == 2 && |page[..3]| == 3;
  }

  /** The paths of the three tables on the way to a page. */
  ghost function TablesOnWay(page: Node): set<Node>
    requires |page| == 4
  {
    {page[..1], page[..2], page[..3]}
  }

  lemma MissingIsCount(t: Tables, root: Frame, node: Tree, page: Node)
    requires Shape(t, root, node) && |page| == 4
    ensures Missing(node, page) == |TablesOnWay(page) - node.Keys|
  {
    assert |page[..1]| == 1 && |page[..2]| == 2 && |page[..3]| == 3;
    Lacking(page[..1], page[..2], page[..3], node.Keys);
    if page[..1] !in node {
      PrefixMissing(t, root, node, page, 1, 2);
      PrefixMissing(t, root, node, page, 1, 3);
    } else if page[..2] !in node {
      PrefixMissing(t, root, node, page, 2, 3);
    }
  }

  lemma Lacking(a: Node, b: Node, c: Node, keys: set<Node>)
    requires a != b && b != c && a != c
    ensures |{a, b, c} - keys| ==
      (if a in keys then 0 else 1) + (if b in keys then 0 else 1) + (if c in keys then 0 else 1)
  {
    var x, y, z := {a} - keys, {b} - keys, {c} - keys;
    assert {a, b, c} - keys == x + y + z;
    SizeOfUnion(x + y, z);
    SizeOfUnion(x, y);
    LackingOne(a, keys);
    LackingOne(b, keys);
    LackingOne(c, keys);
  }

  lemma LackingOne(a: Node, keys: set<Node>)
    ensures |{a} - keys| == if a in keys then 0 else 1
  {
    if a !in keys {
      assert {a} - keys == {a};
    }
  }

  /** Nodes were added, all of them on the way to `page`. */
  ghost predicate WayGrew(node: Tree, node': Tree, page: Node) {
    && (forall q :: q in node ==> q in node')
    && (forall q :: q in node' && q !in node ==> q <= page)
  }

  /** What one level of the way costs. */
  lemma DescentCost(t: Tables, root: Frame, node: Tree, node': Tree, page: Node, k: nat)
    requires Shape(t, root, node) && |page| == 4 && 1 <= k <= 3 && page[..k - 1] in node
    requires node'.Keys == node.Keys + {page[..k]}
    ensures Missing(node', page) == Missing(node, page) - if page[..k] in node then 0 else 1
  {
    if page[..k] !in node {
      MissingStep(t, root, node, node', page, k);
    } else {
      assert node'.Keys == node.Keys;
    }
  }

  lemma WayBlocked(t: Tables, root: Frame, node: Tree, page: Node, k: nat)
    requires Shape(t, root, node) && |page| == 4 && 1 <= k <= 3 && page[..k] !in node
    ensures page[..3] !in node && Missing(node, page) > 0
  {
    PrefixMissing(t, root, node, page, k, 3);
  }

  lemma ReachedAll(t: Tables, root: Frame, node: Tree, page: Node)
    requires Shape(t, root, node) && |page| == 4 && page[..3] in node
    ensures Missing(node, page) == 0
  {
    if page[..1] !in node {
      PrefixMissing(t, root, node, page, 1, 3);
    } else if page[..2] !in node {
      PrefixMissing(t, root, node, page, 2, 3);
    }
  }

  // ----- the frames of the tree -----

  lemma FramesAdd(node: Tree, q: Node, e: Entry)
    requires q !in node
    ensures Frames(node[q := e]) == Frames(node) + {e.addr}
  {
    var node' := node[q := e];
    assert q in node' && node'[q].addr == e.addr;
    forall f | f in Frames(node) ensures f in Frames(node') {
      var p :| p in node && node[p].addr == f;
      assert p in node' && node'[p].addr == f;
    }
  }

  lemma TableFramesIn(node: Tree)
    ensures TableFrames(node) <= Frames(node)
  {
  }

  lemma TableFramesAdd(node: Tree, q: Node, e: Entry)
    requires q !in node
    ensures TableFrames(node[q := e]) == if |q| < 4 then TableFrames(node) + {e.addr} else TableFrames(node)
  {
    var node' := node[q := e];
    assert q in node' && node'[q].addr == e.addr;
    forall f | f in TableFrames(node) ensures f in TableFrames(node') {
      var p :| p in node && |p| < 4 && node[p].addr == f;
      assert p in node' && node'[p].addr == f;
    }
  }

  lemma TableFramesRemove(node: Tree, q: Node)
    requires |q| == 4
    ensures TableFrames(node - {q}) == TableFrames(node)
  {
    forall f | f in TableFrames(node) ensures f in TableFrames(node - {q}) {
      var p :| p in node && |p| < 4 && node[p].addr == f;
      assert p in node - {q} && (node - {q})[p].addr == f;
    }
  }

  /** A frame that is not in the tree keeps all frames different. */
  lemma InjectiveAdd(node: Tree, q: Node, e: Entry)
    requires Injective(node) && q !in node && e.addr !in Frames(node)
    ensures Injective(node[q := e])
  {
    forall p | p in node ensures node[p].addr != e.addr {
      assert node[p].addr in Frames(node);
    }
  }

  lemma FramesRemove(node: Tree, q: Node)
    requires Injective(node) && q in node
    ensures Frames(node - {q}) == Frames(node) - {node[q].addr}
  {
    var node' := node - {q};
    forall f | f in Frames(node) && f != node[q].addr ensures f in Frames(node') {
      var p :| p in node && node[p].addr == f;
      assert p in node' && node'[p].addr == f;
    }
    forall f | f in Frames(node') ensures f in Frames(node) && f != node[q].addr {
      var p :| p in node' && node'[p].addr == f;
      assert p in node && node[p].addr == f;
    }
  }

  // ----- elementary writes -----

  function WriteEntry(t: Tables, f: Frame, i: nat, e: Entry): Tables
    requires f in t && i < |t[f]|
  {
    t[f := t[f][i := e]]
  }

  /** The entries of the root above the user half, shared with the kernel. */
  ghost predicate KernelKept(t: Tables, t': Tables, root: Frame) {
    root in t ==> root in t' && |t'[root]| == |t[root]| && forall i :: 256 <= i < |t[root]| ==> t'[root][i] == t[root][i]
  }

  /** A write to a user entry of a table in the tree leaves the kernel half alone. */
  lemma KernelWrite(t: Tables, root: Frame, node: Tree, p: Node, i: nat, e: Entry)
    requires Shape(t, root, node) && p in node && |p| < 4 && i < Width(p)
    requires node[p].addr in t && i < |t[node[p].addr]|
    ensures KernelKept(t, WriteEntry(t, node[p].addr, i, e), root)
  {
    assert node[p].addr == node[[]].addr ==> p == [];
  }

  lemma ReadLink(t: Tables, root: Frame, node: Tree, p: Node, i: nat)
    requires Shape(t, root, node) && p in node && |p| < 4 && i < Width(p)
    ensures node[p].addr in t && i < |t[node[p].addr]| && LinkOk(t[node[p].addr][i], p + [i], node)
    ensures PathOk(p + [i])
  {
    var q := p + [i];
    assert TableOk(t, node, p) && PathOk(p);
    forall j | 0 <= j < |q| ensures q[j] < Width(q[..j]) {
      assert q[..j] == p[..j];
    }
  }

  lemma ChildPath(p: Node, i: nat, r: Node, j: nat)
    ensures r + [j] == p + [i] <==> r == p && j == i
  {
    assert (r + [j])[..|r + [j]| - 1] == r && (p + [i])[..|p + [i]| - 1] == p;
    assert (r + [j])[|r|] == j && (p + [i])[|p|] == i;
  }

  /** What a link can be added to: a free entry of a table in the tree. */
  ghost predicate CanAdd(t: Tables, root: Frame, node: Tree, p: Node, i: nat, e: Entry) {
    && Shape(t, root, node) && p in node && |p| < 4 && i < Width(p)
    && p + [i] !in node
    && (|p| < 3 ==> e.addr !in TableFrames(node) && e.addr in t && Zeroed(t[e.addr]))
    && node[p].addr in t && i < |t[node[p].addr]|
  }

  lemma AddNodeTable(t: Tables, root: Frame, node: Tree, p: Node, i: nat, e: Entry, r: Node)
    requires CanAdd(t, root, node, p, i, e) && PRESENT in e.flags && (|p| < 3 ==> e.flags == TABLE_FLAGS)
    requires r in node && |r| < 4
    ensures TableOk(WriteEntry(t, node[p].addr, i, e), node[p + [i] := e], r)
  {
    var q := p + [i];
    var t', node' := WriteEntry(t, node[p].addr, i, e), node[q := e];
    assert TableOk(t, node, r);
    forall j | 0 <= j < Width(r) ensures LinkOk(t'[node'[r].addr][j], r + [j], node') {
      ChildPath(p, i, r, j);
      assert LinkOk(t[node[r].addr][j], r + [j], node);
    }
  }

  lemma AddNodeFresh(t: Tables, root: Frame, node: Tree, p: Node, i: nat, e: Entry)
    requires CanAdd(t, root, node, p, i, e) && |p| < 3
    ensures TableOk(WriteEntry(t, node[p].addr, i, e), node[p + [i] := e], p + [i])
  {
    var q := p + [i];
    NoChildren(t, root, node, q);
    forall j: nat | j < Width(q) ensures q + [j] !in node[q := e] {
      assert |q + [j]| != |q|;
    }
  }

  /** Linking a frame under a free entry adds one node. */
  lemma AddNode(t: Tables, root: Frame, node: Tree, p: Node, i: nat, e: Entry)
    requires CanAdd(t, root, node, p, i, e) && PRESENT in e.flags && (|p| < 3 ==> e.flags == TABLE_FLAGS)
    ensures Shape(WriteEntry(t, node[p].addr, i, e), root, node[p + [i] := e])
  {
    ReadLink(t, root, node, p, i);
    assert forall r :: r in node && |r| < 4 ==> node[r].addr in TableFrames(node);
    var q := p + [i];
    var t', node' := WriteEntry(t, node[p].addr, i, e), node[q := e];
    forall r | r in node' && r != [] ensures HasParent(node', r) {
      assert q[..|q| - 1] == p;
      assert r != q ==> HasParent(node, r);
    }
    forall r | r in node' && |r| < 4 ensures TableOk(t', node', r) {
      if r == q {
        AddNodeFresh(t, root, node, p, i, e);
      } else {
        AddNodeTable(t, root, node, p, i, e, r);
      }
    }
  }

  lemma NoChildren(t: Tables, root: Frame, node: Tree, q: Node)
    requires Shape(t, root, node) && q !in node
    ensures forall j :: q + [j] !in node
  {
    forall j ensures q + [j] !in node {
      assert (q + [j])[..|q + [j]| - 1] == q;
      assert q + [j] in node ==> HasParent(node, q + [j]);
    }
  }

  /** Entries that point to tables have all access rights already: raising
      them changes nothing. */
  lemma RaiseFlags(t: Tables, root: Frame, node: Tree, p: Node, i: nat, more: set<Flag>)
    requires Shape(t, root, node) && p in node && |p| < 3 && i < Width(p) && p + [i] in node
    requires more <= TABLE_FLAGS && node[p].addr in t && i < |t[node[p].addr]|
    ensures var e := t[node[p].addr][i]; WriteEntry(t, node[p].addr, i, e.(flags := e.flags + more)) == t
  {
    ReadLink(t, root, node, p, i);
    var f := node[p].addr;
    var e := t[f][i];
    assert e.flags + more == e.flags;
    assert t[f][i := e] == t[f];
  }

  /** Clearing the entry of a mapped page removes one leaf. */
  lemma RemoveLeaf(t: Tables, root: Frame, node: Tree, p: Node, i: nat)
    requires Shape(t, root, node) && p in node && |p| == 3 && i < ENTRIES && p + [i] in node
    requires node[p].addr in t && i < |t[node[p].addr]|
    ensures Shape(WriteEntry(t, node[p].addr, i, Entry(0, {})), root, node - {p + [i]})
  {
    var q := p + [i];
    var t', node' := WriteEntry(t, node[p].addr, i, Entry(0, {})), node - {q};
    forall r | r in node' && r != [] ensures HasParent(node', r) {
      assert HasParent(node, r) && PathOk(r);
    }
    forall r | r in node' && |r| < 4 ensures TableOk(t', node', r) {
      assert TableOk(t, node, r);
      forall j | 0 <= j < Width(r) ensures LinkOk(t'[node'[r].addr][j], r + [j], node') {
        ChildPath(p, i, r, j);
        assert LinkOk(t[node[r].addr][j], r + [j], node);
      }
    }
  }

  /** Writing a frame outside the tree does not disturb it. */
  lemma ShapeFrame(t: Tables, t': Tables, root: Frame, node: Tree)
    requires Shape(t, root, node)
    requires forall f :: f in TableFrames(node) && f in t ==> f in t' && t'[f] == t[f]
    ensures Shape(t', root, node)
  {
    forall r | r in node && |r| < 4 ensures TableOk(t', node, r) {
      assert TableOk(t, node, r) && node[r].addr in TableFrames(node);
    }
  }

  // ----- the tree and the free frames -----

  /** The tables form a tree and none of them is free. */
  ghost predicate SoundTree(t: Tables, root: Frame, node: Tree, free: set<Frame>) {
    Shape(t, root, node) && TableFrames(node) !! free
  }

  /** Moreover every frame of the tree has one place in it, and none is free. */
  ghost predicate ValidTree(t: Tables, root: Frame, node: Tree, free: set<Frame>) {
    SoundTree(t, root, node, free) && Injective(node) && Frames(node) !! free
  }

  /** A free frame, zeroed (`t1`), becomes the table at `p + [i]`. */
  lemma NewTableKeeps(t: Tables, t1: Tables, root: Frame, node: Tree, free: set<Frame>, p: Node, i: nat, g: Frame)
    requires SoundTree(t, root, node, free) && g in free && g in t1 && t1 == t[g := t1[g]] && Zeroed(t1[g])
    requires p in node && |p| < 3 && i < Width(p) && p + [i] !in node
    ensures node[p].addr in t1 && i < |t1[node[p].addr]|
    ensures var t', node' := WriteEntry(t1, node[p].addr, i, Entry(g, TABLE_FLAGS)), node[p + [i] := Entry(g, TABLE_FLAGS)];
      && SoundTree(t', root, node', free - {g}) && KernelKept(t, t', root)
      && (ValidTree(t, root, node, free) ==> ValidTree(t', root, node', free - {g}))
  {
    var e := Entry(g, TABLE_FLAGS);
    ShapeFrame(t, t1, root, node);
    ReadLink(t1, root, node, p, i);
    AddNode(t1, root, node, p, i, e);
    KernelWrite(t1, root, node, p, i, e);
    assert node[[]].addr in TableFrames(node);
    FramesAdd(node, p + [i], e);
    TableFramesAdd(node, p + [i], e);
    if ValidTree(t, root, node, free) {
      InjectiveAdd(node, p + [i], e);
    }
  }

  /** A free entry of a last-level table is pointed at a frame. */
  lemma NewLeafKeeps(t: Tables, root: Frame, node: Tree, free: set<Frame>, page: Node, e: Entry)
    requires SoundTree(t, root, node, free) && |page| == 4 && PathOk(page) && page[..3] in node && page !in node
    requires PRESENT in e.flags
    ensures node[page[..3]].addr in t && page[3] < |t[node[page[..3]].addr]|
    ensures var t', node' := WriteEntry(t, node[page[..3]].addr, page[3], e), node[page := e];
      && SoundTree(t', root, node', free) && KernelKept(t, t', root) && Frames(node') == Frames(node) + {e.addr}
      && (ValidTree(t, root, node, free) && e.addr !in free + Frames(node) ==> ValidTree(t', root, node', free))
  {
    PrefixNext(page, 3);
    assert page[..4] == page;
    ReadLink(t, root, node, page[..3], page[3]);
    AddNode(t, root, node, page[..3], page[3], e);
    KernelWrite(t, root, node, page[..3], page[3], e);
    FramesAdd(node, page, e);
    TableFramesAdd(node, page, e);
    if ValidTree(t, root, node, free) && e.addr !in free + Frames(node) {
      InjectiveAdd(node, page, e);
    }
  }

  // ----- translations -----

  ghost predicate IsPage(q: Node) {
    |q| == 4 && PathOk(q)
  }

  /** The two memories translate every user page other than `page` alike. */
  ghost predicate SameElsewhere(t: Tables, t': Tables, root: Frame, page: Node) {
    forall q :: IsPage(q) && q != page ==> Translate(t', root, q) == Translate(t, root, q)
  }

  ghost predicate SameTranslation(t: Tables, t': Tables, root: Frame) {
    forall q :: IsPage(q) ==> Translate(t', root, q) == Translate(t, root, q)
  }

  lemma SameThrough(t: Tables, t1: Tables, t2: Tables, root: Frame, page: Node)
    requires SameElsewhere(t, t1, root, page) && SameTranslation(t1, t2, root) && IsPage(page)
    ensures SameElsewhere(t, t2, root, page) && Translate(t2, root, page) == Translate(t1, root, page)
  {
  }

  /** The two trees hold the same pages, except perhaps `page`. */
  ghost predicate PagesAgree(node: Tree, node': Tree, page: Node) {
    forall q :: |q| == 4 && q != page ==> ((q in node <==> q in node') && (q in node ==> node[q] == node'[q]))
  }

  /** Growing tables, then adding one leaf, changes no other page. */
  lemma LeafAfterGrowth(node: Tree, grown: Tree, node': Tree, page: Node, e: Entry)
    requires TablesGrew(node, grown) && |page| == 4 && (node' == grown || node' == grown[page := e])
    ensures PagesAgree(node, node', page) && (page in grown <==> page in node) && (page in node ==> grown[page] == node[page])
  {
  }

  lemma TranslationsAgree(t: Tables, node: Tree, t': Tables, node': Tree, root: Frame, page: Node)
    requires Shape(t, root, node) && Shape(t', root, node')
    requires PagesAgree(node, node', page)
    ensures SameElsewhere(t, t', root, page)
  {
    forall q | IsPage(q) && q != page ensures Translate(t', root, q) == Translate(t, root, q) {
      WalkIsNode(t, root, node, q);
      WalkIsNode(t', root, node', q);
    }
  }

  /** How the translation follows the tree when at most one page is added or removed. */
  lemma TranslationStep(t: Tables, node: Tree, t': Tables, node': Tree, root: Frame, page: Node)
    requires Shape(t, root, node) && Shape(t', root, node') && IsPage(page)
    requires PagesAgree(node, node', page)
    ensures SameElsewhere(t, t', root, page)
    ensures Translate(t, root, page) == if page in node then Some(Leaf(node[page])) else None
    ensures Translate(t', root, page) == if page in node' then Some(Leaf(node'[page])) else None
  {
    TranslationsAgree(t, node, t', node', root, page);
    WalkIsNode(t, root, node, page);
    WalkIsNode(t', root, node', page);
  }

  /** A table with an empty user half is a tree of one node. */
  lemma EmptyTree(t: Tables, root: Frame)
    requires root in t && |t[root]| == ENTRIES
    requires forall i :: 0 <= i < USER_ENTRIES ==> Unused(t[root][i])
    ensures var node := map[[] := Entry(root, TABLE_FLAGS)]; Shape(t, root, node) && Frames(node) == {root}
  {
  }

  lemma EmptyTranslation(t: Tables, root: Frame, node: Tree)
    requires Shape(t, root, node) && node.Keys == {[]}
    ensures forall q :: IsPage(q) ==> Translate(t, root, q) == None
  {
    forall q | IsPage(q) ensures Translate(t, root, q) == None {
      WalkIsNode(t, root, node, q);
    }
  }

  lemma UntouchedTranslation(t: Tables, t': Tables, root: Frame, node: Tree)
    requires Shape(t, root, node) && Shape(t', root, node)
    ensures SameTranslation(t, t', root)
  {
    forall q | IsPage(q) ensures Translate(t', root, q) == Translate(t, root, q) {
      WalkIsNode(t, root, node, q);
      WalkIsNode(t', root, node, q);
    }
  }
}
