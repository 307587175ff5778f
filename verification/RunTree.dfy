/**
  The scheduler's run queue: a red-black tree with parent pointers, updated
  in place.  Methods follow the source statement by statement; ghost zippers
  say which tree the node store holds at each point.
 */
module RunTree {
  import opened Powers
  import opened RbShape
  import opened NodeStore
  import opened Rotation
  import opened InsertFixup
  import opened RemoveFixup
  import opened RemoveSplice
  import opened EevdfWalk
  import opened EevdfTrace
  import opened EevdfOptimal

  /** Some address outside a finite set: what the heap allocator provides. */
  method FreshAddress(used: set<Ptr>) returns (p: Ptr)
    ensures p !in used
  {
    p := 0;
    var rest := used;
    while rest != {}
      invariant rest <= used && forall q :: q in used - rest ==> q < p
      decreases rest
    {
      var q :| q in rest;
      assert used - (rest - {q}) == used - rest + {q};
      rest := rest - {q};
      p := if q < p then p else q + 1;
    }
    assert used - rest == used;
  }

  class RunTree {
    var root: Ptr
    var mem: Store
    ghost var tree: Tree

    ghost predicate Shape(path: Path, t: Tree)
      reads this
    {
      Zipped(mem, root, path, t)
    }

    // ----- rotations -----

    /** The middle of a rotation: `up` gets the parent of `down`. */
    method LinkAbove(down: Ptr, up: Ptr, ghost path: Path)
      requires down in mem && up in mem && up != NULL && mem[down].parent == Parent(path)
      requires !path.Top? ==> path.p in mem && path.p != NULL && path.p != up && (path.InLeft? <==> mem[path.p].left == down)
      modifies this`root, this`mem
      ensures mem == Transplanted(old(mem), path, up) && root == RedirectRoot(old(root), path, up)
    {
      var parent := mem[down].parent;
      if parent == NULL {
        root := up;
        mem := mem[up := mem[up].(parent := NULL)];
      } else {
        mem := mem[up := mem[up].(parent := parent)];
        if down == mem[parent].left {
          mem := mem[parent := mem[parent].(left := up)];
        } else {
          mem := mem[parent := mem[parent].(right := up)];
        }
      }
    }

    /** The writes of a left rotation at `x`, whose right child is `y`. */
    method TurnLeft(x: Ptr, y: Ptr, ghost path: Path)
      requires x in mem && y in mem && y != NULL && Apart(mem, path, x, y, mem[y].left)
      modifies this`root, this`mem
      ensures Rotated(old(mem), mem, path, x, y, old(mem)[y].left, true) && root == RedirectRoot(old(root), path, y)
    {
      var b := mem[y].left;
      mem := mem[x := mem[x].(right := b)];
      if b != NULL {
        mem := mem[b := mem[b].(parent := x)];
      }
      LinkAbove(x, y, path);
      mem := mem[y := mem[y].(left := x)];
      mem := mem[x := mem[x].(parent := y)];
    }

    method RotateLeft(x: Ptr, ghost path: Path, ghost t: Tree)
      requires Shape(path, t) && t.Node? && t.p == x
      modifies this`root, this`mem
      ensures Shape(path, RotLeft(t))
      ensures Keeps(old(mem), path, t, mem, path, RotLeft(t))
    {
      ghost var m, r := mem, root;
      RotateApart(m, r, path, t, true);
      var y := mem[x].right;
      if y == NULL {
        return;
      }
      TurnLeft(x, y, path);
      RotLeftZipped(m, mem, r, path, t);
    }

    method TurnRight(y: Ptr, x: Ptr, ghost path: Path)
      requires y in mem && x in mem && x != NULL && Apart(mem, path, y, x, mem[x].right)
      modifies this`root, this`mem
      ensures Rotated(old(mem), mem, path, y, x, old(mem)[x].right, false) && root == RedirectRoot(old(root), path, x)
    {
      var b := mem[x].right;
      mem := mem[y := mem[y].(left := b)];
      if b != NULL {
        mem := mem[b := mem[b].(parent := y)];
      }
      LinkAbove(y, x, path);
      mem := mem[x := mem[x].(right := y)];
      mem := mem[y := mem[y].(parent := x)];
    }

    method RotateRight(y: Ptr, ghost path: Path, ghost t: Tree)
      requires Shape(path, t) && t.Node? && t.p == y
      modifies this`root, this`mem
      ensures Shape(path, RotRight(t))
      ensures Keeps(old(mem), path, t, mem, path, RotRight(t))
    {
      ghost var m, r := mem, root;
      RotateApart(m, r, path, t, false);
      var x := mem[y].left;
      if x == NULL {
        return;
      }
      TurnRight(y, x, path);
      RotRightZipped(m, mem, r, path, t);
    }

    method SetColor(p: Ptr, red: bool, ghost path: Path, ghost t: Tree)
      requires Shape(path, t) && t.Node? && t.p == p
      modifies this`mem
      ensures Shape(path, Paint(t, red))
      ensures Keeps(old(mem), path, t, mem, path, Paint(t, red))
    {
      Painted(mem, root, path, t, red);
      mem := mem[p := mem[p].(red := red)];
    }

    // ----- insertion fixup -----

    /** CASE 1: the uncle is red. */
    method InsertRecolor(parent: Ptr, uncle: Ptr, grandparent: Ptr, ghost path: Path, ghost t: Tree)
      requires Shape(path, t) && HasUncle(path) && path.up.sib.Node?
      requires parent == path.p && grandparent == path.up.p && uncle == path.up.sib.p
      modifies this`mem
      ensures Shape(path.up.up, Recolored(path, t))
      ensures Keeps(old(mem), path, t, mem, path.up.up, Recolored(path, t))
    {
      ghost var up, pt := path.up, Lift(path, t);
      ghost var pt' := Paint(pt, false);
      FocusUp(mem, root, path, t);
      SetColor(parent, false, up, pt);
      FocusUp(mem, root, up, pt');
      ghost var side := if up.InLeft? then InRight(up.up, up.p, up.red, pt')
                        else InLeft(up.up, up.p, up.red, pt');
      FocusUp(mem, root, side, up.sib);
      SetColor(uncle, false, side, up.sib);
      ghost var uncle' := Paint(up.sib, false);
      FocusUp(mem, root, side, uncle');
      SetColor(grandparent, true, up.up, Lift(side, uncle'));
    }

    /** CASE 3: parent and grandparent change colours, and the grandparent is
        rotated away from the focus. */
    method InsertLine(parent: Ptr, grandparent: Ptr, left: bool, ghost path: Path, ghost t: Tree)
      requires Shape(path, t) && HasUncle(path) && path.InLeft? == path.up.InLeft?
      requires parent == path.p && grandparent == path.up.p && left == path.InLeft?
      modifies this`mem, this`root
      ensures Shape(Lined(path), t)
      ensures Keeps(old(mem), path, t, mem, Lined(path), t)
    {
      ghost var up, pt := path.up, Lift(path, t);
      FocusUp(mem, root, path, t);
      SetColor(parent, false, up, pt);
      FocusUp(mem, root, up, Paint(pt, false));
      SetColor(grandparent, true, up.up, Lift(up, Paint(pt, false)));
      ghost var g := LineTree(path, t);
      LineRotation(path, t);
      if left {
        RotateRight(grandparent, up.up, g);
      } else {
        RotateLeft(grandparent, up.up, g);
      }
      FocusUp(mem, root, Lined(path), t);
    }

    /** CASE 2 followed by CASE 3: the uncle is black.  `left` says that the
        parent is the grandparent's left child. */
    method InsertRotate(node: Ptr, parent: Ptr, grandparent: Ptr, left: bool, ghost path: Path, ghost t: Tree, ghost h: nat)
      returns (node': Ptr, ghost path': Path, ghost t': Tree)
      requires Shape(path, t) && RedFocus(path, t, h) && PathRed(path)
      requires HasUncle(path) && !IsRed(path.up.sib) && left == path.up.InLeft?
      requires node == t.p && parent == path.p && grandparent == path.up.p
      modifies this`mem, this`root
      ensures Shape(path', t') && RedFocus(path', t', h) && node' == t'.p
      ensures !PathRed(path') && Depth(path') < Depth(path)
      ensures Keeps(old(mem), path, t, mem, path', t')
    {
      ghost var m := mem;
      var parent' := parent;
      node', path', t' := node, path, t;
      Neighbours(mem, root, path, t);
      if left {
        if node == mem[parent].right {
          node' := parent;
          StraightenStep(path, t, h);
          FocusUp(mem, root, path, t);
          RotateLeft(node', path.up, Lift(path, t));
          path', t' := Straight(path, t).0, Straight(path, t).1;
          FocusUp(mem, root, path', t');
          Neighbours(mem, root, path', t');
          parent' := mem[node'].parent;
        }
      } else {
        if node == mem[parent].left {
          node' := parent;
          StraightenStep(path, t, h);
          FocusUp(mem, root, path, t);
          RotateRight(node', path.up, Lift(path, t));
          path', t' := Straight(path, t).0, Straight(path, t).1;
          FocusUp(mem, root, path', t');
          Neighbours(mem, root, path', t');
          parent' := mem[node'].parent;
        }
      }
      LineStep(path', t', h);
      ghost var m1, path1 := mem, path';
      InsertLine(parent', grandparent, left, path', t');
      path' := Lined(path');
      KeepsTransitive(m, path, t, m1, path1, t', mem, path', t');
    }

    /** One round of the loop, entered with a red parent. */
    method InsertStep(node: Ptr, ghost path: Path, ghost t: Tree, ghost h: nat)
      returns (node': Ptr, ghost path': Path, ghost t': Tree, ghost h': nat)
      requires Shape(path, t) && RedFocus(path, t, h) && PathRed(path) && node == t.p
      modifies this`mem, this`root
      ensures Shape(path', t') && RedFocus(path', t', h') && node' == t'.p
      ensures Depth(path') < Depth(path)
      ensures Keeps(old(mem), path, t, mem, path', t')
    {
      Family(mem, root, path, t, h);
      h' := h;
      var parent := mem[node].parent;
      var grandparent := mem[parent].parent;
      if parent == mem[grandparent].left {
        var uncle := mem[grandparent].right;
        if uncle != NULL && mem[uncle].red {
          RecolorStep(path, t, h);
          InsertRecolor(parent, uncle, grandparent, path, t);
          node', path', t', h' := grandparent, path.up.up, Recolored(path, t), h + 1;
        } else {
          node', path', t' := InsertRotate(node, parent, grandparent, true, path, t, h);
        }
      } else {
        var uncle := mem[grandparent].left;
        if uncle != NULL && mem[uncle].red {
          RecolorStep(path, t, h);
          InsertRecolor(parent, uncle, grandparent, path, t);
          node', path', t', h' := grandparent, path.up.up, Recolored(path, t), h + 1;
        } else {
          node', path', t' := InsertRotate(node, parent, grandparent, false, path, t, h);
        }
      }
    }

    /** The root rule: paint the root black. */
    method BlackenRoot(ghost path: Path, ghost t: Tree)
      requires Shape(path, t) && Plug(path, t).Node?
      modifies this`mem
      ensures Shape(Top, Paint(Plug(path, t), false))
      ensures Keeps(old(mem), path, t, mem, Top, Paint(Plug(path, t), false))
    {
      ZippedPlug(mem, root, path, t);
      PlugIds(path, t);
      SetColor(root, false, Top, Plug(path, t));
    }

    method InsertFixup(node: Ptr, ghost path: Path, ghost t: Tree, ghost h: nat)
      returns (ghost t': Tree)
      requires Shape(path, t) && RedFocus(path, t, h) && node == t.p
      modifies this`mem, this`root
      ensures Shape(Top, t') && RedBlack(t')
      ensures Keeps(old(mem), path, t, mem, Top, t')
    {
      var n := node;
      ghost var p, s, k := path, t, h;
      Neighbours(mem, root, p, s);
      while n != root && mem[mem[n].parent].red
        invariant Shape(p, s) && RedFocus(p, s, k) && n == s.p
        invariant n in mem && mem[n].parent == Parent(p) && (n == root <==> p.Top?)
        invariant !p.Top? ==> p.p in mem && mem[p.p].red == p.red
        invariant Keeps(old(mem), path, t, mem, p, s)
        decreases Depth(p)
      {
        ghost var m0, p0, s0 := mem, p, s;
        n, p, s, k := InsertStep(n, p, s, k);
        KeepsTransitive(old(mem), path, t, m0, p0, s0, mem, p, s);
        Neighbours(mem, root, p, s);
      }
      InsertDone(p, s, k);
      ghost var m1 := mem;
      BlackenRoot(p, s);
      t' := Paint(Plug(p, s), false);
      KeepsTransitive(old(mem), path, t, m1, p, s, mem, Top, t');
    }

    // ----- insertion -----

    ghost predicate Valid()
      reads this
    {
      Shape(Top, tree) && RedBlack(tree) && Sorted(mem, Inorder(tree))
    }

    constructor ()
      ensures Valid() && tree == Leaf && mem == map[]
    {
      root, mem, tree := NULL, map[], Leaf;
    }

    /** The descent of rbtree_insert: the node under which key `v` belongs. */
    method FindParent(v: nat) returns (parent: Ptr, ghost path: Path)
      requires Valid() && root != NULL
      ensures Shape(path, Leaf) && Searching(mem, path, Leaf, v) && Plug(path, Leaf) == tree
      ensures !path.Top? && parent == path.p && parent in mem && parent != NULL
      ensures if v < mem[parent].vruntime then mem[parent].left == NULL else mem[parent].right == NULL
    {
      parent := NULL;
      var current := root;
      path := Top;
      ghost var t := tree;
      while current != NULL
        invariant Shape(path, t) && Searching(mem, path, t, v) && Plug(path, t) == tree
        invariant current == Root(t) && parent == Parent(path)
        invariant path.Top? ==> t == tree
        decreases t
      {
        Neighbours(mem, root, path, t);
        parent := current;
        ghost var left := v < mem[current].vruntime;
        Descend(mem, path, t, v, left);
        ghost var down := Child(path, t, left);
        if v < mem[current].vruntime {
          current := mem[current].left;
          FocusUp(mem, root, down, t.left);
          path, t := down, t.left;
        } else {
          current := mem[current].right;
          FocusUp(mem, root, down, t.right);
          path, t := down, t.right;
        }
      }
      Neighbours(mem, root, path, t);
    }

    /** Hangs `node`, coloured red, where the descent ended. */
    method Hang(node: Ptr, parent: Ptr, ghost path: Path)
      requires Shape(path, Leaf) && !path.Top? && parent == path.p
      requires node in mem && node != NULL && node !in PathIds(path)
      requires mem[node].left == NULL && mem[node].right == NULL
      requires Searching(mem, path, Leaf, mem[node].vruntime)
      modifies this`mem
      ensures Shape(path, Node(Leaf, node, true, Leaf))
      ensures LinksOnly(old(mem), mem, PathIds(path) + {node})
    {
      Neighbours(mem, root, path, Leaf);
      mem := mem[node := mem[node].(parent := parent)];
      mem := mem[node := mem[node].(red := true)];
      if mem[node].vruntime < mem[parent].vruntime {
        mem := mem[parent := mem[parent].(left := node)];
      } else {
        mem := mem[parent := mem[parent].(right := node)];
      }
      HungZipped(old(mem), mem, root, path, node);
    }

    // ----- nodes outside the tree -----

    /** A fresh node, as Box::new hands it out. */
    method NewNode(vruntime: nat, taskId: nat, deadline: nat) returns (p: Ptr)
      requires Valid()
      modifies this`mem
      ensures Valid() && p != NULL && p !in old(mem)
      ensures mem == old(mem)[p := SchedNode(vruntime, taskId, deadline, deadline, NULL, NULL, NULL, false)]
    {
      p := FreshAddress(mem.Keys + {NULL});
      mem := mem[p := SchedNode(vruntime, taskId, deadline, deadline, NULL, NULL, NULL, false)];
      HoldsFrame(old(mem), mem, tree, NULL);
    }

    /** New keys for a node that is not in the tree. */
    method SetKeys(p: Ptr, vruntime: nat, deadline: nat)
      requires Valid() && p in mem && p !in Ids(tree)
      modifies this`mem
      ensures Valid() && mem == old(mem)[p := old(mem)[p].(vruntime := vruntime, deadline := deadline)]
    {
      IdsInorder(tree);
      mem := mem[p := mem[p].(vruntime := vruntime)];
      mem := mem[p := mem[p].(deadline := deadline)];
      HoldsFrame(old(mem), mem, tree, NULL);
    }

    /** Gives a node that is not in the tree back to the heap. */
    method FreeNode(p: Ptr)
      requires Valid() && p in mem && p !in Ids(tree)
      modifies this`mem
      ensures Valid() && mem == old(mem) - {p}
    {
      IdsInorder(tree);
      mem := mem - {p};
      HoldsFrame(old(mem), mem, tree, NULL);
    }

    /** rbtree_insert on a non-empty tree, once the node's links are cleared. */
    method InsertBelow(node: Ptr) returns (ghost k: nat)
      requires Valid() && root != NULL && node in mem && node != NULL && node !in Ids(tree)
      requires mem[node].left == NULL && mem[node].right == NULL
      modifies this
      ensures Valid()
      ensures InsertedAt(mem, Inorder(old(tree)), Inorder(tree), node, k)
      ensures LinksOnly(old(mem), mem, Ids(old(tree)) + {node})
    {
      ghost var path;
      var parent;
      parent, path := FindParent(mem[node].vruntime);
      PlugIds(path, Leaf);
      Unplug(path, Leaf);
      InsertPosition(mem, path, node);
      Hang(node, parent, path);
      ghost var m, t := mem, Node(Leaf, node, true, Leaf);
      SortedKept(old(mem), m, Inorder(Plug(path, t)), Ids(tree) + {node});
      InsertedAtKept(old(mem), m, Ids(tree) + {node}, Inorder(tree), Inorder(Plug(path, t)), node, |Before(path)|);
      ghost var was := tree;
      tree := InsertFixup(node, path, t, 0);
      k := |Before(path)|;
      SortedKept(m, mem, Inorder(tree), Nodes(path, t));
      InsertedAtKept(m, mem, Nodes(path, t), Inorder(was), Inorder(tree), node, k);
    }

    /** rbtree_insert. */
    method Insert(node: Ptr) returns (ghost k: nat)
      requires Valid() && node in mem && node != NULL && node !in Ids(tree)
      modifies this
      ensures Valid()
      ensures InsertedAt(mem, Inorder(old(tree)), Inorder(tree), node, k) && Ids(tree) == Ids(old(tree)) + {node}
      ensures LinksOnly(old(mem), mem, Ids(old(tree)) + {node})
    {
      mem := mem[node := mem[node].(left := NULL)];
      mem := mem[node := mem[node].(right := NULL)];
      if root == NULL {
        root := node;
        mem := mem[node := mem[node].(parent := NULL)];
        mem := mem[node := mem[node].(red := false)];
        assert tree == Leaf;
        tree := Node(Leaf, node, false, Leaf);
        assert Inorder(tree) == [node] && Distinct(tree) && DistinctPath(Top);
        assert Holds(mem, tree, Parent(Top)) && HoldsPath(mem, root, Top, node);
        k := 0;
      } else {
        HoldsFrame(old(mem), mem, tree, NULL);
        SortedKept(old(mem), mem, Inorder(tree), {node});
        k := InsertBelow(node);
        InsertedIds(mem, old(tree), tree, node, k);
      }
    }

    // ----- removal fixup -----

    method PaintParent(q: Ptr, red: bool, ghost path: Path, ghost t: Tree)
      requires Shape(path, t) && !path.Top? && q == path.p
      modifies this`mem
      ensures Shape(path.(red := red), t)
      ensures Keeps(old(mem), path, t, mem, path.(red := red), t)
    {
      FocusUp(mem, root, path, t);
      SetColor(q, red, path.up, Lift(path, t));
      FocusUp(mem, root, path.(red := red), t);
    }

    method PaintSibling(q: Ptr, red: bool, ghost path: Path, ghost t: Tree)
      requires Shape(path, t) && !path.Top? && path.sib.Node? && q == path.sib.p
      modifies this`mem
      ensures Shape(path.(sib := Paint(path.sib, red)), t)
      ensures Keeps(old(mem), path, t, mem, path.(sib := Paint(path.sib, red)), t)
    {
      FocusAcross(mem, root, path, t);
      SetColor(q, red, Across(path, t), path.sib);
      FocusAcross(mem, root, path.(sib := Paint(path.sib, red)), t);
    }

    method PaintNephew(q: Ptr, red: bool, left: bool, ghost path: Path, ghost t: Tree)
      returns (ghost sib: Tree)
      requires Shape(path, t) && !path.Top? && path.sib.Node?
      requires (if left then path.sib.left else path.sib.right).Node?
      requires q == if left then path.sib.left.p else path.sib.right.p
      modifies this`mem
      ensures sib == if left then path.sib.(left := Paint(path.sib.left, red))
                     else path.sib.(right := Paint(path.sib.right, red))
      ensures Shape(path.(sib := sib), t)
      ensures Keeps(old(mem), path, t, mem, path.(sib := sib), t)
    {
      ghost var side := Across(path, t);
      ghost var child := Child(side, path.sib, left);
      ghost var u := if left then path.sib.left else path.sib.right;
      FocusAcross(mem, root, path, t);
      FocusUp(mem, root, child, u);
      SetColor(q, red, child, u);
      FocusUp(mem, root, child, Paint(u, red));
      sib := Lift(child, Paint(u, red));
      FocusAcross(mem, root, path.(sib := sib), t);
    }

    /** CASE 1: the sibling is red. */
    method RemoveRedSibling(w: Ptr, xParent: Ptr, left: bool, ghost path: Path, ghost t: Tree)
      requires Shape(path, t) && !path.Top? && path.sib.Node?
      requires w == path.sib.p && xParent == path.p && left == path.InLeft?
      modifies this`mem, this`root
      ensures Shape(RedSibling(path), t)
      ensures Keeps(old(mem), path, t, mem, RedSibling(path), t)
    {
      PaintParent(xParent, true, path, t);
      ghost var p1 := path.(red := true);
      PaintSibling(w, false, p1, t);
      ghost var p2 := p1.(sib := Paint(path.sib, false));
      FocusUp(mem, root, p2, t);
      RedSiblingRotation(path, t);
      if left {
        RotateLeft(xParent, path.up, Lift(p2, t));
      } else {
        RotateRight(xParent, path.up, Lift(p2, t));
      }
      ghost var q := RedSibling(path);
      FocusUp(mem, root, q, t);
      FocusUp(mem, root, q.up, Lift(q, t));
    }

    /** CASE 3: only the sibling's near child is red. */
    method RemoveTurn(w: Ptr, xParent: Ptr, left: bool, ghost path: Path, ghost t: Tree)
      requires Shape(path, t) && !path.Top? && path.sib.Node? && Near(path).Node?
      requires w == path.sib.p && xParent == path.p && left == path.InLeft?
      modifies this`mem, this`root
      ensures Shape(path.(sib := Turned(path)), t)
      ensures Keeps(old(mem), path, t, mem, path.(sib := Turned(path)), t)
    {
      FocusAcross(mem, root, path, t);
      Neighbours(mem, root, Across(path, t), path.sib);
      ghost var sib := PaintNephew(if left then mem[w].left else mem[w].right, false, left, path, t);
      ghost var p1 := path.(sib := sib);
      PaintSibling(w, true, p1, t);
      ghost var p2 := p1.(sib := Paint(sib, true));
      TurnRotation(path);
      FocusAcross(mem, root, p2, t);
      if left {
        RotateRight(w, Across(p2, t), p2.sib);
      } else {
        RotateLeft(w, Across(p2, t), p2.sib);
      }
      FocusAcross(mem, root, path.(sib := Turned(path)), t);
    }

    /** CASE 2: the sibling and its children are black. */
    method RemovePassUp(w: Ptr, xParent: Ptr, ghost path: Path, ghost t: Tree)
      returns (x': Ptr, xParent': Ptr)
      requires Shape(path, t) && !path.Top? && path.sib.Node? && w == path.sib.p && xParent == path.p
      modifies this`mem
      ensures Shape(path.up, PassedUp(path, t)) && x' == path.p && xParent' == Parent(path.up)
      ensures Keeps(old(mem), path, t, mem, path.up, PassedUp(path, t))
    {
      PaintSibling(w, true, path, t);
      FocusUp(mem, root, path.(sib := Paint(path.sib, true)), t);
      Neighbours(mem, root, path.up, PassedUp(path, t));
      x' := xParent;
      xParent' := mem[x'].parent;
    }

    /** CASE 4: the sibling's far child is red. */
    method RemoveAbsorb(w: Ptr, xParent: Ptr, left: bool, ghost path: Path, ghost t: Tree)
      requires Shape(path, t) && !path.Top? && path.sib.Node? && Far(path).Node?
      requires w == path.sib.p && xParent == path.p && left == path.InLeft?
      modifies this`mem, this`root
      ensures Shape(path.up, Absorbed(path, t))
      ensures Keeps(old(mem), path, t, mem, path.up, Absorbed(path, t))
    {
      Neighbours(mem, root, path, t);
      PaintSibling(w, mem[xParent].red, path, t);
      ghost var p1 := path.(sib := Paint(path.sib, path.red));
      PaintParent(xParent, false, p1, t);
      ghost var p2 := p1.(red := false);
      Neighbours(mem, root, p2, t);
      ghost var sib := PaintNephew(if left then mem[w].right else mem[w].left, false, !left, p2, t);
      ghost var p3 := p2.(sib := sib);
      FocusUp(mem, root, p3, t);
      AbsorbRotation(path, t);
      if left {
        RotateLeft(xParent, path.up, Lift(p3, t));
      } else {
        RotateRight(xParent, path.up, Lift(p3, t));
      }
    }

    /** rb_color_safe: NULL counts as black. */
    function ColorSafe(q: Ptr): bool
      reads this`mem
      requires q != NULL ==> q in mem
    {
      q != NULL && mem[q].red
    }

    /** One round of the loop; `left` tells which of the two mirrored halves runs. */
    method RemoveStep(x: Ptr, xParent: Ptr, left: bool, ghost path: Path, ghost t: Tree, ghost h: nat)
      returns (x': Ptr, xParent': Ptr, ghost path': Path, ghost t': Tree, ghost h': nat)
      requires Shape(path, t) && Short(path, t, h) && Pending(path, t)
      requires x == Root(t) && xParent == path.p && left == path.InLeft?
      modifies this`mem, this`root
      ensures Shape(path', t') && Short(path', t', h') && Progress(path, t, path', t')
      ensures x' == Root(t') && (!path'.Top? ==> xParent' == path'.p)
      ensures Keeps(old(mem), path, t, mem, path', t')
    {
      HasSibling(path, t, h);
      Nephews(mem, root, path, t);
      x', xParent', path', t', h' := x, xParent, path, t, h;
      var w := if left then mem[xParent].right else mem[xParent].left;
      var near := if left then mem[w].left else mem[w].right;
      var far := if left then mem[w].right else mem[w].left;
      if ColorSafe(w) {
        RedSiblingStep(path, t, h);
        RemoveRedSibling(w, xParent, left, path, t);
        path' := RedSibling(path);
      } else if !ColorSafe(near) && !ColorSafe(far) {
        PassUpStep(path, t, h);
        path', t', h' := path.up, PassedUp(path, t), if path.red then h else h + 1;
        x', xParent' := RemovePassUp(w, xParent, path, t);
      } else if ColorSafe(near) && !ColorSafe(far) {
        TurnStep(path, t, h);
        RemoveTurn(w, xParent, left, path, t);
        path' := path.(sib := Turned(path));
      } else {
        AbsorbStep(path, t, h);
        RemoveAbsorb(w, xParent, left, path, t);
        FocusTop(old(mem), path, t, mem, root, path.up, Absorbed(path, t));
        path', t' := Top, Plug(path.up, Absorbed(path, t));
        h' := BlackHeight(t');
        x' := root;
      }
    }

    method RemoveFixup(x: Ptr, xParent: Ptr, ghost path: Path, ghost t: Tree, ghost h: nat)
      returns (ghost t': Tree)
      requires Shape(path, t) && Short(path, t, h)
      requires x == Root(t) && (!path.Top? ==> xParent == path.p)
      modifies this`mem, this`root
      ensures Shape(Top, t') && RedBlack(t')
      ensures Keeps(old(mem), path, t, mem, Top, t')
    {
      var n, np := x, xParent;
      ghost var p, s, k := path, t, h;
      Neighbours(mem, root, p, s);
      while n != root && !ColorSafe(n)
        invariant Shape(p, s) && Short(p, s, k) && n == Root(s) && (!p.Top? ==> np == p.p)
        invariant n != NULL ==> n in mem
        invariant Pending(p, s) <==> n != root && !ColorSafe(n)
        invariant Keeps(old(mem), path, t, mem, p, s)
        decreases Rounds(p, s), Shapes(p)
      {
        ghost var m0, p0, s0 := mem, p, s;
        HasSibling(p, s, k);
        Neighbours(mem, root, p, s);
        var left := n == mem[np].left;
        n, np, p, s, k := RemoveStep(n, np, left, p, s, k);
        KeepsTransitive(old(mem), path, t, m0, p0, s0, mem, p, s);
        Neighbours(mem, root, p, s);
      }
      RemoveDone(p, s, k);
      if n != NULL {
        ghost var m0 := mem;
        SetColor(n, false, p, s);
        KeepsTransitive(old(mem), path, t, m0, p, s, mem, p, Paint(s, false));
      }
      FocusTop(old(mem), path, t, mem, root, p, Paint(s, false));
      t' := Plug(p, Paint(s, false));
    }

    // ----- removal -----

    /** rb_transplant: `v` takes the place of `u` under u's parent. */
    method Transplant(u: Ptr, v: Ptr, ghost path: Path)
      requires u != NULL && u in mem && mem[u].parent == Parent(path)
      requires v != NULL ==> v in mem
      requires HoldsPath(mem, root, path, u) && (!path.Top? ==> Root(path.sib) != u)
      modifies this`mem, this`root
      ensures mem == Transplanted(old(mem), path, v) && root == RedirectRoot(old(root), path, v)
    {
      var up := mem[u].parent;
      if up == NULL {
        root := v;
      } else if u == mem[up].left {
        mem := mem[up := mem[up].(left := v)];
      } else {
        mem := mem[up := mem[up].(right := v)];
      }
      if v != NULL {
        mem := mem[v := mem[v].(parent := up)];
      }
    }

    /** rbtree_leftmost, from the subtree `t` below `base`. */
    method Leftmost(start: Ptr, ghost base: Path, ghost t: Tree)
      returns (y: Ptr, ghost q: Path, ghost s: Tree)
      requires Shape(base, t) && start == Root(t)
      ensures t.Leaf? ==> y == NULL
      ensures t.Node? ==>
        && Before(q) == [] && Plug(q, s) == t && Shape(Append(q, base), s)
        && s.Node? && s.left.Leaf? && s.p == y
    {
      y, q, s := start, Top, t;
      if start == NULL {
        return;
      }
      Neighbours(mem, root, base, t);
      while mem[y].left != NULL
        invariant Before(q) == [] && Plug(q, s) == t && Shape(Append(q, base), s)
        invariant s.Node? && s.p == y && y in mem && mem[y].left == Root(s.left)
        decreases s
      {
        ghost var p := Append(q, base);
        Neighbours(mem, root, p, s);
        ghost var down := InLeft(q, s.p, s.red, s.right);
        FocusUp(mem, root, Append(down, base), s.left);
        y := mem[y].left;
        q, s := down, s.left;
        Neighbours(mem, root, Append(q, base), s);
      }
      assert Holds(mem, s.left, y);
    }

    /** z has at most one child, `x`. */
    method UnlinkOne(z: Ptr, x: Ptr, ghost path: Path, ghost t: Tree, ghost c: Tree)
      requires Shape(path, t) && OneChild(t, c) && z == t.p && x == Root(c)
      modifies this`mem, this`root
      ensures Shape(path, c) && LinksOnly(old(mem), mem, Nodes(path, t))
    {
      Neighbours(mem, root, path, t);
      assert Holds(mem, c, z);
      SpliceZipped(mem, root, path, t, c);
      Transplant(z, x, path);
    }

    /** `y` takes over the left child of `z`. */
    method AdoptLeft(z: Ptr, y: Ptr)
      requires z in mem && y in mem && y != z && (mem[z].left != NULL ==> mem[z].left in mem && mem[z].left != y)
      modifies this`mem
      ensures var l := old(mem)[z].left; mem == SetParent(old(mem)[y := old(mem)[y].(left := l)], l, y)
    {
      mem := mem[y := mem[y].(left := mem[z].left)];
      if mem[y].left != NULL {
        mem := mem[mem[y].left := mem[mem[y].left].(parent := y)];
      }
    }

    /** The writes that put `y`, which already carries the right subtree, in
        the place of `z`. */
    method TakePlace(z: Ptr, y: Ptr, ghost path: Path, ghost l: Ptr, ghost r: Ptr)
      requires SwapApart(mem, root, path, z, y, l, r)
      modifies this`mem, this`root
      ensures Swapped(old(mem), mem, path, z, y, l, r) && root == RedirectRoot(old(root), path, y)
    {
      Transplant(z, y, path);
      AdoptLeft(z, y);
      mem := mem[y := mem[y].(red := mem[z].red)];
    }

    method MoveSuccessor(z: Ptr, y: Ptr, ghost path: Path, ghost l: Tree, ghost r: Tree)
      requires Around(mem, root, path, l, z, r, y, y) && Placed(mem, path, l, z, r, y)
      modifies this`mem, this`root
      ensures Shape(path, Node(l, y, old(mem)[z].red, r))
      ensures LinksOnly(old(mem), mem, PathIds(path) + Ids(l) + Ids(r) + {y})
    {
      ghost var m, root0 := mem, root;
      AroundApart(m, root0, path, l, z, r, y);
      TakePlace(z, y, path, Root(l), Root(r));
      SwapZipped(m, mem, root0, path, l, z, r, y, y);
      SwapLinks(m, mem, path, l, z, r, y);
    }

    /** `y`, already spliced out, takes over both subtrees and the place of `z`. */
    method Replace(z: Ptr, y: Ptr, ghost path: Path, ghost t: Tree)
      requires Shape(path, t) && t.Node? && t.p == z
      requires y in mem && y != NULL && y !in Nodes(path, t)
      modifies this`mem, this`root
      ensures Shape(path, Node(t.left, y, t.red, t.right))
      ensures LinksOnly(old(mem), mem, Nodes(path, t) + {y})
    {
      Neighbours(mem, root, path, t);
      DetachedAround(mem, root, path, t, y);
      assert t.right.Node? ==> Holds(mem, t.right, z);
      mem := mem[y := mem[y].(right := mem[z].right)];
      if mem[y].right != NULL {
        mem := mem[mem[y].right := mem[mem[y].right].(parent := y)];
      }
      assert mem[z].red == t.red;
      MoveSuccessor(z, y, path, t.left, t.right);
    }

    /** The successor `y` (the root of `s`) is not z's own child. */
    method LiftDeep(z: Ptr, y: Ptr, ghost path: Path, ghost t: Tree, ghost q: Path, ghost s: Tree)
      requires Shape(path, t) && t.Node? && t.p == z && t.right == Plug(q, s)
      requires s.Node? && s.left.Leaf? && s.p == y
      modifies this`mem, this`root
      ensures Shape(path, Node(t.left, y, t.red, Plug(q, s.right)))
      ensures LinksOnly(old(mem), mem, Nodes(path, t))
    {
      ghost var base := InRight(path, z, t.red, t.left);
      FocusUp(mem, root, base, t.right);
      FocusBelow(mem, root, q, base, s);
      ghost var p := Append(q, base);
      Neighbours(mem, root, p, s);
      UnlinkOne(y, mem[y].right, p, s, s.right);
      FocusBelow(mem, root, q, base, s.right);
      FocusUp(mem, root, base, Plug(q, s.right));
      ghost var rest := Node(t.left, z, t.red, Plug(q, s.right));
      assert Nodes(path, rest) + {y} <= Nodes(path, t) && y !in Nodes(path, rest);
      Replace(z, y, path, rest);
    }

    /** z has two children: its successor moves up. */
    method UnlinkTwo(z: Ptr, ghost path: Path, ghost t: Tree)
      returns (x: Ptr, xParent: Ptr, red: bool, ghost q: Path, ghost s: Tree)
      requires Shape(path, t) && t.Node? && t.p == z && t.right.Node?
      modifies this`mem, this`root
      ensures t.right == Plug(q, s) && Before(q) == [] && s.Node? && s.left.Leaf? && red == s.red
      ensures Shape(path, Node(t.left, s.p, t.red, Plug(q, s.right)))
      ensures x == Root(s.right) && xParent == if q.Top? then s.p else q.p
      ensures LinksOnly(old(mem), mem, Nodes(path, t))
    {
      ghost var base := InRight(path, z, t.red, t.left);
      Neighbours(mem, root, path, t);
      FocusUp(mem, root, base, t.right);
      var y;
      y, q, s := Leftmost(mem[z].right, base, t.right);
      ghost var p := Append(q, base);
      Neighbours(mem, root, p, s);
      BelowPath(q, base);
      red := mem[y].red;
      x := mem[y].right;
      if mem[y].parent == z {
        xParent := y;
        DirectAround(mem, root, path, t);
        MoveSuccessor(z, y, path, t.left, s.right);
      } else {
        xParent := mem[y].parent;
        LiftDeep(z, y, path, t, q, s);
      }
    }

    /** Unlinks `z`, the root of `t`; what remains is `Plug(p, c)`, short of a
        black node at the focus unless the node that left its place was red. */
    method UnlinkAt(z: Ptr, ghost path: Path, ghost t: Tree)
      returns (x: Ptr, xParent: Ptr, red: bool, ghost p: Path, ghost c: Tree, ghost h: nat)
      requires Shape(path, t) && t.Node? && t.p == z && RedBlack(Plug(path, t))
      modifies this`mem, this`root
      ensures Shape(p, c) && x == Root(c) && xParent == Parent(p) && Spliced(p, c, red, h)
      ensures RemovedAt(Inorder(Plug(path, t)), Inorder(Plug(p, c)), z, |Before(path)| + |Inorder(t.left)|)
      ensures LinksOnly(old(mem), mem, Nodes(path, t))
    {
      Neighbours(mem, root, path, t);
      h := ShortBy(t);
      assert Holds(mem, t.left, z) && Holds(mem, t.right, z);
      if mem[z].left == NULL {
        x, xParent, red := mem[z].right, mem[z].parent, mem[z].red;
        p, c := path, t.right;
        SpliceShape(path, t, c);
        UnlinkOne(z, x, path, t, c);
      } else if mem[z].right == NULL {
        x, xParent, red := mem[z].left, mem[z].parent, mem[z].red;
        p, c := path, t.left;
        SpliceShape(path, t, c);
        UnlinkOne(z, x, path, t, c);
      } else {
        ghost var q, s;
        x, xParent, red, q, s := UnlinkTwo(z, path, t);
        SwapShape(path, t, q, s);
        p, c, h := Append(q, InRight(path, s.p, t.red, t.left)), s.right, ShortBy(s);
        SwapFocus(mem, root, path, t, q, s);
      }
    }

    method Unlink(z: Ptr) returns (x: Ptr, xParent: Ptr, red: bool, ghost p: Path, ghost c: Tree, ghost h: nat, ghost k: nat)
      requires Valid() && z in Ids(tree)
      modifies this`mem, this`root
      ensures Shape(p, c) && x == Root(c) && xParent == Parent(p) && Spliced(p, c, red, h)
      ensures RemovedAt(Inorder(tree), Inorder(Plug(p, c)), z, k)
      ensures LinksOnly(old(mem), mem, Ids(tree))
    {
      ghost var zipper := PathTo(tree, z, Top);
      ghost var path, t := zipper.0, zipper.1;
      ZippedPlug(mem, root, path, t);
      PlugIds(path, t);
      k := |Before(path)| + |Inorder(t.left)|;
      x, xParent, red, p, c, h := UnlinkAt(z, path, t);
    }

    /** rbtree_remove. */
    method Remove(z: Ptr) returns (ghost k: nat)
      requires Valid() && z in Ids(tree)
      modifies this
      ensures Valid()
      ensures RemovedAt(Inorder(old(tree)), Inorder(tree), z, k) && Ids(tree) == Ids(old(tree)) - {z}
      ensures LinksOnly(old(mem), mem, Ids(old(tree)))
    {
      var x, xParent, red;
      ghost var p, c, h;
      x, xParent, red, p, c, h, k := Unlink(z);
      ghost var m, rest := mem, Plug(p, c);
      RemovedIds(tree, rest, z, k);
      SortedRemoved(m, Inorder(tree), Inorder(rest), z, k);
      PlugIds(p, c);
      if !red {
        tree := RemoveFixup(x, xParent, p, c, h);
        SortedKept(m, mem, Inorder(tree), Nodes(p, c));
      } else {
        ZippedPlug(mem, root, p, c);
        tree := rest;
      }
    }

    // ----- picking the next task -----

    /** The walk of rbtree_pick_eevdf.  `walk` lists the nodes it looks at;
        minDeadline is only a hint for it and may hold anything. */
    method Walk(v: nat) returns (best: Ptr, ghost walk: seq<Ptr>)
      requires Valid()
      ensures (walk, best) == Course(mem, tree, v, NULL) && Trace(mem, root, walk, v, best)
    {
      CourseTraces(mem, tree, v);
      var current := root;
      ghost var t, par := tree, NULL;
      best, walk := NULL, [];
      ghost var whole := Course(mem, tree, v, NULL);
      assert [] + whole.0 == whole.0;
      while current != NULL
        invariant current == Root(t) && Holds(mem, t, par) && (best != NULL ==> best in mem)
        invariant whole.0 == walk + Course(mem, t, v, best).0 && whole.1 == Course(mem, t, v, best).1
        decreases Height(t)
      {
        ghost var here := t;
        CourseJoin(mem, t, v, best, walk);
        walk := walk + [current];
        t, par := NextTree(mem, here, v, best), here.p;
        assert here.left.Node? ==> Holds(mem, here.left, here.p);
        assert here.right.Node? ==> Holds(mem, here.right, here.p);
        if mem[current].vruntime <= v {
          if best == NULL || mem[current].deadline < mem[best].deadline {
            best := current;
          }
          var l, r := mem[current].left, mem[current].right;
          if l != NULL && mem[l].minDeadline < mem[best].deadline {
            current := l;
            continue;
          }
          if r != NULL && mem[r].minDeadline < mem[best].deadline {
            current := r;
            continue;
          }
          break;
        } else {
          current := mem[current].left;
        }
      }
      assert t == Leaf && walk + [] == walk;
    }

    /** The first node in order, which has the least vruntime. */
    method First() returns (y: Ptr)
      requires Valid()
      ensures y == NULL <==> tree.Leaf?
      ensures tree.Node? ==>
        && y in Ids(tree) && y in mem && Inorder(tree) != [] && y == Inorder(tree)[0]
        && forall q :: q in Ids(tree) ==> q in mem && mem[y].vruntime <= mem[q].vruntime
    {
      Neighbours(mem, root, Top, tree);
      ghost var q, s;
      y, q, s := Leftmost(root, Top, tree);
      if tree.Node? {
        FirstOf(q, s.p, s.red, s.right);
        IdsInorder(tree);
        assert s == Node(Leaf, s.p, s.red, s.right) && Inorder(tree)[0] == y;
      }
    }

    lemma CourseFacts(m: Store, t: Tree, v: nat)
      requires Holds(m, t, NULL) && Sorted(m, Inorder(t))
      ensures var (w, b) := Course(m, t, v, NULL);
        && (b != NULL <==> SomeEligible(m, t, v)) && (b != NULL ==> b in Ids(t) && Eligible(m, b, v) && b in w)
        && Best(m, w, b, v) && (forall q :: q in w ==> q in Ids(t)) && |w| <= Height(t)
        && (t.Node? ==> w != [] && w[0] == t.p && Descent(m, w, v))
    {
      CourseBest(m, t, NULL, v, NULL);
      CourseFinds(m, t, NULL, v, NULL);
      if t.Node? {
        CourseDescends(m, t, NULL, v, NULL);
      }
    }

    lemma OptimalFacts(m: Store, t: Tree, v: nat)
      requires Holds(m, t, NULL) && Sorted(m, Inorder(t)) && SomeEligible(m, t, v)
      ensures var b := Course(m, t, v, NULL).1;
        && (Earliest(m, t, v, b) <==> NoneEarlier(m, Bypassed(m, t, v, NULL), v, b))
        && (HintsBelow(m, t) ==> (Earliest(m, t, v, b) <==> NoneEarlier(m, LeftBehind(m, t, v, NULL), v, b)))
    {
      PickIsEarliest(m, t, v);
      if HintsBelow(m, t) {
        TrustedPickIsEarliest(m, t, v);
      }
    }

    /** A descent is at most twice the logarithm of the size. */
    lemma WalkBound(t: Tree, k: nat)
      requires RedBlack(t) && k <= Height(t)
      ensures Pow2(k) <= (|Inorder(t)| + 1) * (|Inorder(t)| + 1)
    {
      HeightBound(t);
      Pow2Monotone(k, Height(t));
    }

    /** rbtree_pick_eevdf. */
    method Pick(v: nat) returns (best: Ptr, ghost walk: seq<Ptr>)
      requires Valid()
      ensures best == NULL <==> tree.Leaf?
      ensures best != NULL ==> best in Ids(tree) && best in mem
      ensures walk == Course(mem, tree, v, NULL).0
      ensures Trace(mem, root, walk, v, if SomeEligible(mem, tree, v) then best else NULL)
      ensures SomeEligible(mem, tree, v) ==>
        best == Course(mem, tree, v, NULL).1 && Eligible(mem, best, v) && best in walk && Best(mem, walk, best, v)
      ensures SomeEligible(mem, tree, v) ==>
        && (Earliest(mem, tree, v, best) <==> NoneEarlier(mem, Bypassed(mem, tree, v, NULL), v, best))
        && (HintsBelow(mem, tree) ==>
              (Earliest(mem, tree, v, best) <==> NoneEarlier(mem, LeftBehind(mem, tree, v, NULL), v, best)))
      ensures tree.Node? && !SomeEligible(mem, tree, v) ==>
        && Inorder(tree) != [] && best == Inorder(tree)[0]
        && forall q :: q in Ids(tree) ==> q in mem && mem[best].vruntime <= mem[q].vruntime
      ensures forall q :: q in walk ==> q in Ids(tree)
      ensures tree.Node? ==> walk != [] && walk[0] == root && Descent(mem, walk, v)
      ensures Pow2(|walk|) <= (|Inorder(tree)| + 1) * (|Inorder(tree)| + 1)
    {
      best, walk := Walk(v);
      CourseFacts(mem, tree, v);
      if SomeEligible(mem, tree, v) {
        OptimalFacts(mem, tree, v);
      }
      WalkBound(tree, |walk|);
      if best == NULL {
        best := First();
      }
    }
  }
}
