/**
  Taking a tree of page tables apart: which frames lie below a node, and
  what is left of the tables while they are released one entry at a time.
 */
module PageRelease {
  import opened PageTree

  // ----- subtrees -----

  /** The frames strictly below `p` whose path continues with an index below `i`. */
  ghost function BelowUpTo(node: Tree, p: Node, i: nat): set<Frame> {
    set q | q in node && p < q && q[|p|] < i :: node[q].addr
  }

  ghost function Below(node: Tree, p: Node): set<Frame> {
    set q | q in node && p < q :: node[q].addr
  }

  lemma BelowStart(node: Tree, p: Node)
    ensures BelowUpTo(node, p, 0) == {}
  {
  }

  lemma BelowAll(t: Tables, root: Frame, node: Tree, p: Node)
    requires Shape(t, root, node)
    ensures BelowUpTo(node, p, Width(p)) == Below(node, p)
  {
    forall q | q in node && p < q ensures q[|p|] < Width(p) {
      assert PathOk(q) && q[..|p|] == p;
    }
  }

  lemma Continues(p: Node, i: nat, q: Node)
    ensures p < q && q[|p|] == i <==> q == p + [i] || p + [i] < q
  {
    if p < q && q[|p|] == i {
      assert q[..|p| + 1] == p + [i];
    }
  }

  /** Moving on by one index takes in the child there, if any, and all below it. */
  lemma BelowNext(t: Tables, root: Frame, node: Tree, p: Node, i: nat)
    requires Shape(t, root, node)
    ensures var c := p + [i];
      BelowUpTo(node, p, i + 1)
        == BelowUpTo(node, p, i) + (if c in node then {node[c].addr} + Below(node, c) else {})
  {
    var c := p + [i];
    var more := if c in node then {node[c].addr} + Below(node, c) else {};
    forall q | q in node && p < q && q[|p|] == i ensures node[q].addr in more {
      Continues(p, i, q);
      assert q == c + q[|c|..];
      if c !in node {
        NotBelow(t, root, node, c, q[|c|..]);
      }
    }
    forall f | f in more ensures f in BelowUpTo(node, p, i + 1) {
      var q :| q in node && node[q].addr == f && (q == c || c < q);
      Continues(p, i, q);
      assert q in node && p < q && q[|p|] < i + 1;
    }
    forall f | f in BelowUpTo(node, p, i + 1) ensures f in BelowUpTo(node, p, i) + more {
      var q :| q in node && p < q && q[|p|] < i + 1 && node[q].addr == f;
      if q[|p|] == i {
        assert node[q].addr in more;
      }
    }
  }

  /** The child at index `i` has not been taken in by smaller indices, nor by its own subtree. */
  lemma BelowDisjoint(node: Tree, p: Node, i: nat)
    requires Injective(node) && p + [i] in node
    ensures node[p + [i]].addr !in BelowUpTo(node, p, i) + Below(node, p + [i])
    ensures Below(node, p + [i]) !! BelowUpTo(node, p, i)
    ensures node[p + [i]].addr in Below(node, p) && Below(node, p + [i]) <= Below(node, p)
  {
    assert p < p + [i];
    forall q, r | q in node && p < q && q[|p|] < i && r in node && (r == p + [i] || p + [i] < r)
      ensures node[q].addr != node[r].addr
    {
      Continues(p, i, r);
    }
  }

  /** The frames at index `i` and below it. */
  ghost function ChildFrames(node: Tree, c: Node): set<Frame> {
    if c in node then {node[c].addr} + Below(node, c) else {}
  }

  /** Releasing in index order never meets a frame that is already free. */
  lemma ReleaseStep(t: Tables, root: Frame, node: Tree, p: Node, i: nat, before: set<Frame>, free: set<Frame>)
    requires Shape(t, root, node) && Injective(node)
    requires Below(node, p) !! before && free == before + BelowUpTo(node, p, i)
    ensures ChildFrames(node, p + [i]) !! free
    ensures p + [i] in node ==> node[p + [i]].addr !in Below(node, p + [i])
    ensures free + ChildFrames(node, p + [i]) == before + BelowUpTo(node, p, i + 1)
  {
    BelowNext(t, root, node, p, i);
    if p + [i] in node {
      BelowDisjoint(node, p, i);
    }
  }

  lemma BelowRoot(t: Tables, root: Frame, node: Tree)
    requires Shape(t, root, node) && Injective(node)
    ensures Below(node, []) + {root} == Frames(node) && root !in Below(node, [])
  {
    forall f | f in Frames(node) ensures f in Below(node, []) + {root} {
      var q :| q in node && node[q].addr == f;
      assert q == [] || [] < q;
    }
    forall f | f in Below(node, []) ensures f in Frames(node) {
      var q :| q in node && [] < q && node[q].addr == f;
    }
    assert node[[]].addr in Frames(node);
  }

  // ----- tearing a tree down -----

  /** Tables of the tree at or below `p`, from index `i` on, still read as in `t`. */
  ghost predicate Intact(t: Tables, now: Tables, n: Tree, p: Node, i: nat)
    requires p in n
  {
    && n[p].addr in t && n[p].addr in now && |t[n[p].addr]| == ENTRIES && |now[n[p].addr]| == ENTRIES
    && (forall j :: i <= j < ENTRIES ==> now[n[p].addr][j] == t[n[p].addr][j])
    && (forall q :: q in n && |q| < 4 && p < q && q[|p|] >= i ==>
          n[q].addr in t && n[q].addr in now && now[n[q].addr] == t[n[q].addr])
  }

  /** The frames in `gone` left the memory; apart from them only the table of
      `p` may have changed, and only at the last level. */
  ghost predicate Emptied(before: Tables, now: Tables, n: Tree, p: Node, gone: set<Frame>)
    requires p in n
  {
    && now.Keys == before.Keys - gone
    && forall f :: f in now && !(|p| == 3 && f == n[p].addr) ==> now[f] == before[f]
  }

  lemma EmptiedTwice(a: Tables, b: Tables, c: Tables, n: Tree, p: Node, first: set<Frame>, second: set<Frame>)
    requires p in n && Emptied(a, b, n, p, first) && Emptied(b, c, n, p, second)
    ensures Emptied(a, c, n, p, first + second)
  {
  }

  lemma IntactSkip(t: Tables, root: Frame, now: Tables, n: Tree, p: Node, i: nat)
    requires Shape(t, root, n) && p in n && |p| < 4 && i < Width(p) && Intact(t, now, n, p, i)
    ensures Intact(t, now, n, p, i + 1) && Emptied(now, now, n, p, {})
  {
  }

  lemma IntactChild(t: Tables, root: Frame, now: Tables, n: Tree, p: Node, i: nat)
    requires Shape(t, root, n) && p in n && |p| < 3 && i < Width(p) && Intact(t, now, n, p, i) && p + [i] in n
    ensures Intact(t, now, n, p + [i], 0)
  {
    var c := p + [i];
    assert TableOk(t, n, c);
    assert p < c && c[|p|] == i;
    forall q | q in n && |q| < 4 && c < q ensures n[q].addr in t && n[q].addr in now && now[n[q].addr] == t[n[q].addr] {
      Continues(p, i, q);
    }
  }

  /** Nodes that are not at or below `c` keep their frames when those of `c` go. */
  lemma FramesOutside(n: Tree, c: Node, q: Node)
    requires Injective(n) && q in n && q != c && !(c < q)
    ensures n[q].addr !in ChildFrames(n, c)
  {
  }

  /** After the child's table and everything below it have gone. */
  lemma IntactAfterChild(t: Tables, root: Frame, was: Tables, now: Tables, n: Tree, p: Node, i: nat)
    requires Shape(t, root, n) && Injective(n) && p in n && |p| < 3 && i < Width(p) && Intact(t, was, n, p, i)
    requires p + [i] in n
    requires now.Keys == was.Keys - ChildFrames(n, p + [i]) && forall f :: f in now ==> now[f] == was[f]
    ensures Intact(t, now, n, p, i + 1) && Emptied(was, now, n, p, ChildFrames(n, p + [i]))
  {
    var c := p + [i];
    FramesOutside(n, c, p);
    forall q | q in n && |q| < 4 && p < q && q[|p|] >= i + 1 ensures n[q].addr in now && now[n[q].addr] == t[n[q].addr] {
      Continues(p, i, q);
      FramesOutside(n, c, q);
    }
  }

  /** After a last-level entry was cleared and its frame has gone. */
  lemma IntactAfterLeaf(t: Tables, root: Frame, was: Tables, n: Tree, p: Node, i: nat)
    requires Shape(t, root, n) && Injective(n) && p in n && |p| == 3 && i < ENTRIES && Intact(t, was, n, p, i)
    requires p + [i] in n
    ensures var now := WriteEntry(was, n[p].addr, i, Entry(0, {})) - {n[p + [i]].addr};
      Intact(t, now, n, p, i + 1) && Emptied(was, now, n, p, ChildFrames(n, p + [i]))
    ensures Below(n, p + [i]) == {}
  {
    forall q | q in n ensures !(p + [i] < q) && (|q| < 4 ==> !(p < q)) {
      assert PathOk(q);
    }
    assert n[p].addr != n[p + [i]].addr;
  }

  lemma IntactInitially(t: Tables, root: Frame, n: Tree)
    requires Shape(t, root, n)
    ensures Intact(t, t, n, [], 0)
  {
    assert TableOk(t, n, []);
    forall q | q in n && |q| < 4 ensures n[q].addr in t {
      assert TableOk(t, n, q);
    }
  }
}
