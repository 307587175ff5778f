/**
  A user address space: mapping and unmapping pages through four levels of
  tables in place, creating and destroying the whole tree.
 */
module AddressSpace {
  import opened Options
  import opened PageTree
  import opened PageRelease

  datatype MapResult = Ok | FrameAllocationFailed | PageAlreadyMapped

  class AddressSpace {
    /** Page-table memory, by frame. */
    var tables: Tables
    /** Frames the frame allocator can still hand out. */
    var free: set<Frame>
    var root: Frame
    ghost var node: Tree

    /** The tables form a tree and none of them is free. */
    ghost predicate Sound()
      reads this
    {
      SoundTree(tables, root, node, free)
    }

    /** Moreover every frame of the tree has one place in it, and none is free. */
    ghost predicate Valid()
      reads this
    {
      ValidTree(tables, root, node, free)
    }

    // ----- the frame allocator's interface -----

    method AllocateZeroedFrame() returns (r: Option<Frame>)
      modifies this`free, this`tables
      ensures r.None? ==> old(free) == {} && free == old(free) && tables == old(tables)
      ensures r.Some? ==>
        && r.value in old(free) && free == old(free) - {r.value} && |free| == |old(free)| - 1
        && (exists z :: Zeroed(z) && tables == old(tables)[r.value := z])
    {
      if free == {} {
        return None;
      }
      var f :| f in free;
      free := free - {f};
      var zero := seq(ENTRIES, _ => Entry(0, {}));
      assert Zeroed(zero);
      tables := tables[f := zero];
      r := Some(f);
    }

    /** Releasing a frame twice is excluded by the precondition; what a table
        in it held is lost. */
    method ClearFrame(f: Frame)
      requires f !in free
      modifies this`free, this`tables
      ensures free == old(free) + {f} && tables == old(tables) - {f}
    {
      free := free + {f};
      tables := tables - {f};
    }

    // ----- one level of the walk -----

    /** Allocates a table for an absent entry. */
    method NewTable(f: Frame, i: nat, ghost p: Node) returns (r: Option<Frame>)
      requires Sound() && p in node && node[p].addr == f && |p| < 3 && i < Width(p) && p + [i] !in node
      modifies this`tables, this`free, this`node
      ensures Sound() && (old(Valid()) ==> Valid()) && KernelKept(old(tables), tables, root)
      ensures r.None? <==> old(free) == {}
      ensures r.None? ==> node == old(node) && free == old(free)
      ensures r.Some? ==>
        && r.value in old(free) && free == old(free) - {r.value} && |free| == |old(free)| - 1
        && node == old(node)[p + [i] := Entry(r.value, TABLE_FLAGS)]
    {
      var g := AllocateZeroedFrame();
      if g.None? {
        return None;
      }
      NewTableKeeps(old(tables), tables, root, node, old(free), p, i, g.value);
      tables := WriteEntry(tables, f, i, Entry(g.value, TABLE_FLAGS));
      node := node[p + [i] := Entry(g.value, TABLE_FLAGS)];
      r := g;
    }

    /** The next table on the way down; an absent one is allocated, an
        existing entry gets at least the access rights of the new mapping. */
    method NextTable(f: Frame, i: nat, flags: set<Flag>, ghost p: Node) returns (r: Option<Frame>)
      requires Sound() && p in node && node[p].addr == f && |p| < 3 && i < Width(p)
      modifies this`tables, this`free, this`node
      ensures Sound() && (old(Valid()) ==> Valid()) && KernelKept(old(tables), tables, root)
      ensures r.None? <==> p + [i] !in old(node) && old(free) == {}
      ensures r.None? ==> node == old(node) && free == old(free)
      ensures r.Some? ==>
        && node.Keys == old(node).Keys + {p + [i]} && node[p + [i]].addr == r.value && TablesGrew(old(node), node)
        && |free| == |old(free)| - (if p + [i] in old(node) then 0 else 1)
      ensures free + Frames(node) == old(free) + Frames(old(node)) && free <= old(free)
    {
      ReadLink(tables, root, node, p, i);
      var e := tables[f][i];
      if Unused(e) {
        r := NewTable(f, i, p);
        if r.Some? {
          FramesAdd(old(node), p + [i], Entry(r.value, TABLE_FLAGS));
        }
      } else {
        var required := flags * {PRESENT, WRITABLE, USER_ACCESSIBLE};
        RaiseFlags(tables, root, node, p, i, required);
        tables := WriteEntry(tables, f, i, e.(flags := e.flags + required));
        r := Some(e.addr);
      }
    }

    // ----- mapping -----

    /** The leaf entry: refused when in use, otherwise pointed at the frame. */
    method SetLeaf(pt: Frame, page: Node, frame: Frame, flags: set<Flag>, ghost all: set<Frame>) returns (r: MapResult)
      requires Sound() && IsPage(page) && page[..3] in node && node[page[..3]].addr == pt && free + Frames(node) == all
      modifies this`tables, this`node
      ensures Sound() && r != FrameAllocationFailed && KernelKept(old(tables), tables, root)
      ensures old(Valid()) && frame !in all ==> Valid()
      ensures r == PageAlreadyMapped <==> page in old(node)
      ensures node == if r == Ok then old(node)[page := Entry(frame, flags + {PRESENT})] else old(node)
      ensures free + Frames(node) == all + (if r == Ok then {frame} else {})
    {
      PrefixNext(page, 3);
      assert page[..4] == page;
      ReadLink(tables, root, node, page[..3], page[3]);
      var e := tables[pt][page[3]];
      if !Unused(e) {
        return PageAlreadyMapped;
      }
      NewLeafKeeps(tables, root, node, free, page, Entry(frame, flags + {PRESENT}));
      tables := WriteEntry(tables, pt, page[3], Entry(frame, flags + {PRESENT}));
      node := node[page := Entry(frame, flags + {PRESENT})];
      r := Ok;
    }

    /** The table of the way at level `k`, with what it costs. */
    method Descend(f: Frame, page: Node, k: nat, flags: set<Flag>) returns (r: Option<Frame>)
      requires Sound() && IsPage(page) && 1 <= k <= 3 && page[..k - 1] in node && node[page[..k - 1]].addr == f
      modifies this`tables, this`free, this`node
      ensures Sound() && (old(Valid()) ==> Valid()) && KernelKept(old(tables), tables, root)
      ensures TablesGrew(old(node), node) && WayGrew(old(node), node, page)
      ensures r.None? <==> page[..k] !in old(node) && old(free) == {}
      ensures r.None? ==> node == old(node) && free == {} && page[..3] !in node && Missing(node, page) > 0
      ensures r.Some? ==>
        && page[..k] in node && node[page[..k]].addr == r.value
        && |free| - Missing(node, page) == |old(free)| - Missing(old(node), page)
      ensures free + Frames(node) == old(free) + Frames(old(node)) && free <= old(free)
    {
      PrefixNext(page, k - 1);
      r := NextTable(f, page[k - 1], flags, page[..k - 1]);
      if r.Some? {
        DescentCost(old(tables), root, old(node), node, page, k);
      } else {
        WayBlocked(tables, root, node, page, k);
      }
    }

    /** The first three levels of map_to: they fail exactly when there are
        fewer free frames than tables to add. */
    method WalkToTable(page: Node, flags: set<Flag>) returns (r: Option<Frame>)
      requires Sound() && IsPage(page)
      modifies this`tables, this`free, this`node
      ensures Sound() && (old(Valid()) ==> Valid()) && KernelKept(old(tables), tables, root)
      ensures TablesGrew(old(node), node) && WayGrew(old(node), node, page)
      ensures r.None? <==> |old(free)| < Missing(old(node), page)
      ensures r.None? ==> free == {} && page[..3] !in node
      ensures r.Some? ==>
        && page[..3] in node && node[page[..3]].addr == r.value
        && |free| == |old(free)| - Missing(old(node), page)
      ensures free + Frames(node) == old(free) + Frames(old(node)) && free <= old(free)
    {
      assert page[..0] == [];
      var pdpt := Descend(root, page, 1, flags);
      if pdpt.None? {
        return None;
      }
      var pd := Descend(pdpt.value, page, 2, flags);
      if pd.None? {
        return None;
      }
      r := Descend(pd.value, page, 3, flags);
      if r.Some? {
        ReachedAll(tables, root, node, page);
      }
    }

    /** map_to, in terms of the tree. */
    method MapNode(page: Node, frame: Frame, flags: set<Flag>) returns (r: MapResult)
      requires Sound() && IsPage(page)
      modifies this`tables, this`free, this`node
      ensures Sound() && PagesAgree(old(node), node, page) && KernelKept(old(tables), tables, root)
      ensures WayGrew(old(node), node, page)
      ensures old(Valid()) && frame !in old(free) + Frames(old(node)) ==> Valid()
      ensures match r
        case Ok => page !in old(node) && page in node && node[page] == Entry(frame, flags + {PRESENT})
        case PageAlreadyMapped => page in old(node) && page in node && node[page] == old(node)[page]
        case FrameAllocationFailed => page !in old(node) && page !in node && free == {}
      ensures r == FrameAllocationFailed <==> |old(free)| < Missing(old(node), page)
      ensures r != FrameAllocationFailed ==> |free| == |old(free)| - Missing(old(node), page)
      ensures free + Frames(node) == old(free) + Frames(old(node)) + (if r == Ok then {frame} else {})
      ensures free <= old(free)
    {
      var pt := WalkToTable(page, flags);
      ghost var grown, e := node, Entry(frame, flags + {PRESENT});
      if pt.None? {
        PrefixMissing(tables, root, node, page, 3, 4);
        assert page[..4] == page;
        LeafAfterGrowth(old(node), grown, node, page, e);
        return FrameAllocationFailed;
      }
      r := SetLeaf(pt.value, page, frame, flags, old(free) + Frames(old(node)));
      LeafAfterGrowth(old(node), grown, node, page, e);
    }

    /** map_to, for any frame.  Ok, PageAlreadyMapped and FrameAllocationFailed
        are decided by the translation and by the frames left. */
    method MapTo(page: Node, frame: Frame, flags: set<Flag>) returns (r: MapResult)
      requires Sound() && IsPage(page)
      modifies this`tables, this`free, this`node
      ensures Sound() && KernelKept(old(tables), tables, root)
      ensures old(Valid()) && frame !in old(free) + Frames(old(node)) ==> Valid()
      ensures SameElsewhere(old(tables), tables, root, page)
      ensures r == if |old(free)| < Missing(old(node), page) then FrameAllocationFailed
                   else if Translate(old(tables), root, page).Some? then PageAlreadyMapped else Ok
      ensures r == Ok ==>
        && Translate(old(tables), root, page) == None
        && Translate(tables, root, page) == Some(Leaf(Entry(frame, flags + {PRESENT})))
      ensures WayGrew(old(node), node, page)
      ensures r != Ok ==> Translate(tables, root, page) == Translate(old(tables), root, page)
      ensures r == FrameAllocationFailed ==> free == {} && Translate(tables, root, page) == None
      ensures r != FrameAllocationFailed ==> |free| == |old(free)| - Missing(old(node), page)
      ensures free + Frames(node) == old(free) + Frames(old(node)) + (if r == Ok then {frame} else {})
      ensures free <= old(free) && |free| + 3 >= |old(free)|
    {
      r := MapNode(page, frame, flags);
      TranslationStep(old(tables), old(node), tables, node, root, page);
    }

    // ----- unmapping -----

    predicate Present(f: Frame, i: nat)
      reads this`tables
      requires f in tables && i < |tables[f]|
    {
      PRESENT in tables[f][i].flags
    }

    /** unmap. */
    method Unmap(page: Node) returns (r: Option<Frame>)
      requires Sound() && IsPage(page)
      modifies this`tables, this`node
      ensures Sound() && (old(Valid()) ==> Valid()) && KernelKept(old(tables), tables, root)
      ensures Translate(tables, root, page) == None
      ensures r == match Translate(old(tables), root, page) case None => None case Some(m) => Some(m.frame)
      ensures SameElsewhere(old(tables), tables, root, page)
      ensures r.None? ==> tables == old(tables) && node == old(node)
      ensures r.Some? && old(Valid()) ==> Frames(node) == Frames(old(node)) - {r.value} && r.value in Frames(old(node))
    {
      WalkIsNode(tables, root, node, page);
      r := UnmapNode(page);
      TranslationStep(old(tables), old(node), tables, node, root, page);
    }

    method UnmapNode(page: Node) returns (r: Option<Frame>)
      requires Sound() && IsPage(page)
      modifies this`tables, this`node
      ensures Sound() && (old(Valid()) ==> Valid())
      ensures PagesAgree(old(node), node, page) && page !in node && KernelKept(old(tables), tables, root)
      ensures r == if page in old(node) then Some(old(node)[page].addr) else None
      ensures r.None? ==> tables == old(tables) && node == old(node)
      ensures r.Some? && old(Valid()) ==> Frames(node) == Frames(old(node)) - {r.value} && r.value in Frames(old(node))
    {
      var f := FindTable(page);
      if f.None? {
        return None;
      }
      PrefixNext(page, 3);
      assert page[..4] == page;
      ReadLink(tables, root, node, page[..3], page[3]);
      if !Present(f.value, page[3]) {
        return None;
      }
      r := Some(tables[f.value][page[3]].addr);
      RemoveLeaf(tables, root, node, page[..3], page[3]);
      KernelWrite(tables, root, node, page[..3], page[3], Entry(0, {}));
      TableFramesRemove(node, page);
      if old(Valid()) {
        FramesRemove(node, page);
      }
      tables := WriteEntry(tables, f.value, page[3], Entry(0, {}));
      node := node - {page};
    }

    /** The three reads on the way to the last table. */
    method FindTable(page: Node) returns (r: Option<Frame>)
      requires Sound() && IsPage(page)
      ensures r.Some? ==> page[..3] in node && node[page[..3]].addr == r.value
      ensures r.None? ==> page !in node
    {
      PrefixNext(page, 0);
      PrefixNext(page, 1);
      PrefixNext(page, 2);
      assert page[..0] == [] && page[..4] == page;
      ReadLink(tables, root, node, page[..0], page[0]);
      if !Present(root, page[0]) {
        PrefixMissing(tables, root, node, page, 1, 4);
        return None;
      }
      var pdpt := tables[root][page[0]].addr;
      ReadLink(tables, root, node, page[..1], page[1]);
      if !Present(pdpt, page[1]) {
        PrefixMissing(tables, root, node, page, 2, 4);
        return None;
      }
      var pd := tables[pdpt][page[1]].addr;
      ReadLink(tables, root, node, page[..2], page[2]);
      if !Present(pd, page[2]) {
        PrefixMissing(tables, root, node, page, 3, 4);
        return None;
      }
      r := Some(tables[pd][page[2]].addr);
    }

    // ----- teardown -----

    /** One of the four nested loops of destroy_user_address_space: releases
        everything below the table `f` at the given depth. */
    method DestroyBelow(f: Frame, depth: nat, ghost p: Node, ghost n: Tree, ghost t: Tables)
      requires Shape(t, root, n) && Injective(n) && p in n && n[p].addr == f && depth == |p| < 4
      requires Intact(t, tables, n, p, 0) && Below(n, p) !! free
      modifies this`tables, this`free
      ensures free == old(free) + Below(n, p)
      ensures Emptied(old(tables), tables, n, p, Below(n, p))
      decreases 4 - depth
    {
      var width := if depth == 0 then USER_ENTRIES else ENTRIES;
      BelowStart(n, p);
      for i := 0 to width
        invariant free == old(free) + BelowUpTo(n, p, i)
        invariant Intact(t, tables, n, p, i) && Emptied(old(tables), tables, n, p, BelowUpTo(n, p, i))
      {
        ghost var now := tables;
        ReleaseStep(t, root, n, p, i, old(free), free);
        BelowNext(t, root, n, p, i);
        DestroyEntry(f, depth, i, p, n, t);
        EmptiedTwice(old(tables), now, tables, n, p, BelowUpTo(n, p, i), ChildFrames(n, p + [i]));
      }
      BelowAll(t, root, n, p);
    }

    method DestroyEntry(f: Frame, depth: nat, i: nat, ghost p: Node, ghost n: Tree, ghost t: Tables)
      requires Shape(t, root, n) && Injective(n) && p in n && n[p].addr == f && depth == |p| < 4 && i < Width(p)
      requires Intact(t, tables, n, p, i)
      requires ChildFrames(n, p + [i]) !! free && (p + [i] in n ==> n[p + [i]].addr !in Below(n, p + [i]))
      modifies this`tables, this`free
      ensures free == old(free) + ChildFrames(n, p + [i])
      ensures Intact(t, tables, n, p, i + 1) && Emptied(old(tables), tables, n, p, ChildFrames(n, p + [i]))
      decreases 4 - depth, 0
    {
      ReadLink(t, root, n, p, i);
      ghost var c := p + [i];
      if Present(f, i) {
        var child := tables[f][i].addr;
        if depth == 3 {
          IntactAfterLeaf(t, root, tables, n, p, i);
          tables := WriteEntry(tables, f, i, Entry(0, {}));
          ClearFrame(child);
        } else {
          IntactChild(t, root, tables, n, p, i);
          DestroyBelow(child, depth + 1, c, n, t);
          ClearFrame(child);
          IntactAfterChild(t, root, old(tables), tables, n, p, i);
        }
      } else {
        IntactSkip(t, root, tables, n, p, i);
      }
    }

    /** destroy_user_address_space: every frame of the tree is released, once,
        and no table is read after it was given back. */
    method Destroy()
      requires Valid()
      modifies this`tables, this`free, this`node
      ensures free == old(free) + Frames(old(node)) && node == map[]
      ensures tables == old(tables) - Frames(old(node))
    {
      BelowRoot(tables, root, node);
      assert TableOk(tables, node, []);
      IntactInitially(tables, root, node);
      DestroyBelow(root, 0, [], node, tables);
      ClearFrame(root);
      node := map[];
    }

    // ----- creation -----

    /** create_user_address_space: an empty user half, and the kernel half of
        the active table. */
    method Create(active: Table) returns (r: Option<Frame>)
      requires node == map[] && |active| == 512
      modifies this
      ensures r.None? ==> free == old(free) == {} && node == map[]
      ensures r.Some? ==>
        && Valid() && root == r.value && node == map[[] := Entry(root, TABLE_FLAGS)]
        && root in old(free) && free == old(free) - {root}
        && root in tables && |tables[root]| == 512 && tables[root][256..] == active[256..]
        && forall i :: 0 <= i < 256 ==> Unused(tables[root][i])
    {
      r := AllocateZeroedFrame();
      if r.None? {
        return;
      }
      root := r.value;
      var table := tables[root];
      for i := USER_ENTRIES to ENTRIES
        invariant |table| == ENTRIES
        invariant forall j :: 0 <= j < USER_ENTRIES ==> Unused(table[j])
        invariant forall j :: USER_ENTRIES <= j < i ==> table[j] == active[j]
      {
        table := table[i := active[i]];
      }
      tables := tables[root := table];
      node := map[[] := Entry(root, TABLE_FLAGS)];
      EmptyTree(tables, root);
    }

    // ----- whole lives of an address space -----

    /** A frame outside the tree goes back to the pool. */
    method GiveBack(f: Frame, ghost all: set<Frame>)
      requires Valid() && f !in free && f !in Frames(node) && free + Frames(node) == all
      modifies this`tables, this`free
      ensures Valid() && free == old(free) + {f} && |free| == |old(free)| + 1 && SameTranslation(old(tables), tables, root)
      ensures free + Frames(node) == all + {f}
    {
      TableFramesIn(node);
      ClearFrame(f);
      ShapeFrame(old(tables), tables, root, node);
      UntouchedTranslation(old(tables), tables, root, node);
    }

    /** A frame from the pool, for use outside the tree. */
    method TakeFrame() returns (r: Option<Frame>)
      requires Valid()
      modifies this`tables, this`free
      ensures Valid() && SameTranslation(old(tables), tables, root)
      ensures r.None? ==> old(free) == {} && free == old(free)
      ensures r.Some? ==>
        && r.value in old(free) && r.value !in Frames(node) && free == old(free) - {r.value} && |free| == |old(free)| - 1
    {
      r := AllocateZeroedFrame();
      TableFramesIn(node);
      ShapeFrame(old(tables), tables, root, node);
      UntouchedTranslation(old(tables), tables, root, node);
    }

    /** Maps a frame taken from the pool, or gives it back. */
    method PlaceFrame(page: Node, f: Frame, flags: set<Flag>) returns (ok: bool)
      requires Valid() && IsPage(page) && f !in free && f !in Frames(node)
      modifies this`tables, this`free, this`node
      ensures Valid() && free + Frames(node) == old(free) + Frames(old(node)) + {f}
      ensures SameElsewhere(old(tables), tables, root, page)
      ensures ok <==> Translate(old(tables), root, page) == None && |old(free)| >= Missing(old(node), page)
      ensures ok ==>
        && Translate(tables, root, page) == Some(Leaf(Entry(f, flags + {PRESENT})))
        && |free| == |old(free)| - Missing(old(node), page)
      ensures WayGrew(old(node), node, page)
      ensures !ok ==> Translate(tables, root, page) == Translate(old(tables), root, page)
      ensures |free| + 3 >= |old(free)|
    {
      var r := MapTo(page, f, flags);
      if r == Ok {
        return true;
      }
      ghost var t := tables;
      GiveBack(f, old(free) + Frames(old(node)));
      SameThrough(old(tables), t, tables, root, page);
      ok := false;
    }

    /** Maps a fresh frame at `page`, or gives it back when that fails: it
        succeeds exactly when the page is free and there are frames for it and
        for the tables on the way. */
    method MapFresh(page: Node, flags: set<Flag>) returns (ok: bool)
      requires Valid() && IsPage(page)
      modifies this`tables, this`free, this`node
      ensures Valid() && root == old(root)
      ensures free + Frames(node) == old(free) + Frames(old(node))
      ensures SameElsewhere(old(tables), tables, root, page)
      ensures ok <==> Translate(old(tables), root, page) == None && |old(free)| > Missing(old(node), page)
      ensures ok ==>
        && Translate(tables, root, page).Some?
        && Translate(tables, root, page).value.rights == Through(TABLE_FLAGS, flags + {PRESENT})
        && |free| == |old(free)| - 1 - Missing(old(node), page)
      ensures WayGrew(old(node), node, page)
      ensures !ok ==> Translate(tables, root, page) == Translate(old(tables), root, page)
      ensures |free| + 4 >= |old(free)|
    {
      var f := TakeFrame();
      if f.None? {
        return false;
      }
      assert old(free) == free + {f.value};
      ok := PlaceFrame(page, f.value, flags);
    }

    /** Unmaps `page` and releases its frame. */
    method UnmapRelease(page: Node) returns (was: bool)
      requires Valid() && IsPage(page)
      modifies this`tables, this`free, this`node
      ensures Valid() && root == old(root)
      ensures was <==> Translate(old(tables), root, page).Some?
      ensures free == if was then old(free) + {Translate(old(tables), root, page).value.frame} else old(free)
      ensures |free| == |old(free)| + if was then 1 else 0
      ensures free + Frames(node) == old(free) + Frames(old(node))
      ensures SameElsewhere(old(tables), tables, root, page) && Translate(tables, root, page) == None
    {
      var f := Unmap(page);
      if f.Some? {
        GiveBack(f.value, free + Frames(node));
      }
      was := f.Some?;
    }

    method Perform(op: Operation) returns (ok: bool)
      requires Valid() && IsPage(op.page)
      modifies this`tables, this`free, this`node
      ensures Valid() && root == old(root) && |free| + 4 >= |old(free)|
      ensures free + Frames(node) == old(free) + Frames(old(node))
      ensures SameElsewhere(old(tables), tables, root, op.page)
      ensures Outcome(Rights(old(tables), root, op.page), op, ok, |old(free)| < 4)
      ensures Rights(tables, root, op.page) == Effect(Rights(old(tables), root, op.page), op, ok)
    {
      match op {
        case Map(page, flags) => ok := MapFresh(page, flags);
        case Unmap(page) => ok := UnmapRelease(page);
      }
    }

    /** Any sequence of mappings and unmappings: `oks` tells which took effect. */
    method Apply(ops: seq<Operation>) returns (oks: seq<bool>)
      requires Valid() && forall op :: op in ops ==> IsPage(op.page)
      modifies this`tables, this`free, this`node
      ensures Valid() && root == old(root) && |oks| == |ops|
      ensures free + Frames(node) == old(free) + Frames(old(node))
      ensures forall q :: IsPage(q) ==> Rights(tables, root, q) == RightsAfter(Rights(old(tables), root, q), ops, oks, q)
      ensures Outcomes(old(tables), root, ops, oks, |old(free)|)
    {
      oks := [];
      for i := 0 to |ops|
        invariant Valid() && root == old(root) && |oks| == i && |free| + 4 * i >= |old(free)|
        invariant free + Frames(node) == old(free) + Frames(old(node))
        invariant Replayed(old(tables), tables, root, ops[..i], oks)
        invariant Outcomes(old(tables), root, ops[..i], oks, |old(free)|)
      {
        ghost var t, few := tables, |free| < 4;
        var ok := Perform(ops[i]);
        ReplayStep(old(tables), t, tables, root, ops, oks, i, ok, few, |old(free)|);
        oks := oks + [ok];
      }
      assert ops[..|ops|] == ops;
    }

    /** The same on an address space without pages. */
    method ApplyFresh(ops: seq<Operation>, ghost all: set<Frame>) returns (oks: seq<bool>)
      requires Valid() && node.Keys == {[]} && free + Frames(node) == all && forall op :: op in ops ==> IsPage(op.page)
      modifies this`tables, this`free, this`node
      ensures Valid() && free + Frames(node) == all
      ensures root == old(root) && |oks| == |ops| && FreshOutcomes(ops, oks, |old(free)|)
      ensures ReplayedFresh(tables, root, ops, oks)
    {
      EmptyTranslation(tables, root, node);
      oks := Apply(ops);
      FreshFromEmpty(old(tables), root, ops, oks, |old(free)|);
    }

    /** And then gives everything back. */
    method UseUp(ops: seq<Operation>, ghost all: set<Frame>) returns (oks: seq<bool>, ghost last: Tables)
      requires Valid() && node == map[[] := Entry(root, TABLE_FLAGS)] && root in all && free == all - {root}
      requires forall op :: op in ops ==> IsPage(op.page)
      modifies this`tables, this`free, this`node
      ensures free == all && node == map[]
      ensures root == old(root)
      ensures |oks| == |ops| && FreshOutcomes(ops, oks, |all| - 1) && ReplayedFresh(last, root, ops, oks)
    {
      RootOnly(root, free, all);
      oks := ApplyFresh(ops, all);
      last := tables;
      Destroy();
    }
  }

  datatype Operation = Map(page: Node, flags: set<Flag>) | Unmap(page: Node)

  /** The rights a page is mapped with, if it is mapped. */
  function Rights(t: Tables, root: Frame, page: Node): Option<set<Flag>> {
    match Translate(t, root, page)
    case None => None
    case Some(m) => Some(m.rights)
  }

  /** What an operation on a page makes of it. */
  function Effect(before: Option<set<Flag>>, op: Operation, ok: bool): Option<set<Flag>> {
    if !ok then before
    else match op
      case Map(_, flags) => Some(Through(TABLE_FLAGS, flags + {PRESENT}))
      case Unmap(_) => None
  }

  /** What a page is mapped with after operations of which `oks` took effect. */
  function RightsAfter(before: Option<set<Flag>>, ops: seq<Operation>, oks: seq<bool>, page: Node): Option<set<Flag>>
    requires |oks| == |ops|
  {
    if ops == [] then before
    else
      var n := |ops| - 1;
      var earlier := RightsAfter(before, ops[..n], oks[..n], page);
      if ops[n].page == page then Effect(earlier, ops[n], oks[n]) else earlier
  }

  ghost predicate Replayed(t0: Tables, t: Tables, root: Frame, ops: seq<Operation>, oks: seq<bool>)
    requires |oks| == |ops|
  {
    forall q :: IsPage(q) ==> Rights(t, root, q) == RightsAfter(Rights(t0, root, q), ops, oks, q)
  }

  /** Unmapping takes effect exactly on mapped pages, mapping only on unmapped
      ones, and it fails on those only for want of frames. */
  ghost predicate Outcome(before: Option<set<Flag>>, op: Operation, ok: bool, few: bool) {
    match op
    case Unmap(_) => ok <==> before.Some?
    case Map(_, _) => (ok ==> before.None?) && (!ok ==> before.Some? || few)
  }

  /** Every operation needs at most four frames: a page and three tables. */
  ghost predicate Outcomes(t0: Tables, root: Frame, ops: seq<Operation>, oks: seq<bool>, frames: nat)
    requires |oks| == |ops|
  {
    forall i :: 0 <= i < |ops| ==> OutcomeAt(t0, root, ops, oks, frames, i)
  }

  ghost predicate OutcomeAt(t0: Tables, root: Frame, ops: seq<Operation>, oks: seq<bool>, frames: nat, i: nat)
    requires |oks| == |ops| && i < |ops|
  {
    Outcome(RightsAfter(Rights(t0, root, ops[i].page), ops[..i], oks[..i], ops[i].page), ops[i], oks[i], frames < 4 * (i + 1))
  }

  /** One more operation. */
  lemma ReplayStep(t0: Tables, t: Tables, t': Tables, root: Frame, ops: seq<Operation>, oks: seq<bool>, i: nat, ok: bool,
                   few: bool, frames: nat)
    requires i < |ops| && |oks| == i && IsPage(ops[i].page)
    requires Replayed(t0, t, root, ops[..i], oks) && Outcomes(t0, root, ops[..i], oks, frames)
    requires SameElsewhere(t, t', root, ops[i].page)
    requires Outcome(Rights(t, root, ops[i].page), ops[i], ok, few) && (few ==> frames < 4 * (i + 1))
    requires Rights(t', root, ops[i].page) == Effect(Rights(t, root, ops[i].page), ops[i], ok)
    ensures Replayed(t0, t', root, ops[..i + 1], oks + [ok]) && Outcomes(t0, root, ops[..i + 1], oks + [ok], frames)
  {
    var ops', oks' := ops[..i + 1], oks + [ok];
    assert ops'[..i] == ops[..i] && oks'[..i] == oks;
    forall j | 0 <= j < |ops'| ensures OutcomeAt(t0, root, ops', oks', frames, j) {
      if j < i {
        assert OutcomeAt(t0, root, ops[..i], oks, frames, j);
        assert ops[..i][..j] == ops'[..j] && oks[..j] == oks'[..j];
      }
    }
  }

  lemma RootOnly(root: Frame, free: set<Frame>, all: set<Frame>)
    requires root in all && free == all - {root}
    ensures free + Frames(map[[] := Entry(root, TABLE_FLAGS)]) == all && |free| == |all| - 1
  {
    var node: Tree := map[[] := Entry(root, TABLE_FLAGS)];
    assert [] in node && node[[]].addr == root;
    assert Frames(node) == {root};
  }

  lemma FreshFromEmpty(t: Tables, root: Frame, ops: seq<Operation>, oks: seq<bool>, frames: nat)
    requires |oks| == |ops| && Outcomes(t, root, ops, oks, frames) && forall op :: op in ops ==> IsPage(op.page)
    requires forall q :: IsPage(q) ==> Translate(t, root, q) == None
    ensures FreshOutcomes(ops, oks, frames)
  {
    forall i | 0 <= i < |ops| ensures FreshOutcomeAt(ops, oks, frames, i) {
      assert OutcomeAt(t, root, ops, oks, frames, i) && ops[i] in ops;
    }
  }

  /** From creation through any sequence of mappings and unmappings to
      destruction: the operations have their outcomes, the tables just before
      the end (`last`) show their effect, and no frame is lost and none is
      released twice. */
  method Lifetime(a: AddressSpace, active: Table, ops: seq<Operation>)
    returns (created: bool, oks: seq<bool>, ghost last: Tables)
    requires a.node == map[] && |active| == 512
    requires forall op :: op in ops ==> IsPage(op.page)
    modifies a
    ensures a.free == old(a.free) && a.node == map[]
    ensures created <==> old(a.free) != {}
    ensures created ==>
      |oks| == |ops| && FreshOutcomes(ops, oks, |old(a.free)| - 1) && ReplayedFresh(last, a.root, ops, oks)
  {
    oks, last := [], map[];
    var r := a.Create(active);
    created := r.Some?;
    if !created {
      return;
    }
    oks, last := a.UseUp(ops, old(a.free));
  }

  /** The translations of an address space that started empty. */
  ghost predicate ReplayedFresh(t: Tables, root: Frame, ops: seq<Operation>, oks: seq<bool>)
    requires |oks| == |ops|
  {
    forall q :: IsPage(q) ==> Rights(t, root, q) == RightsAfter(None, ops, oks, q)
  }

  /** The outcomes on an address space that started empty. */
  ghost predicate FreshOutcomes(ops: seq<Operation>, oks: seq<bool>, frames: int)
    requires |oks| == |ops|
  {
    forall i :: 0 <= i < |ops| ==> FreshOutcomeAt(ops, oks, frames, i)
  }

  ghost predicate FreshOutcomeAt(ops: seq<Operation>, oks: seq<bool>, frames: int, i: nat)
    requires |oks| == |ops| && i < |ops|
  {
    Outcome(RightsAfter(None, ops[..i], oks[..i], ops[i].page), ops[i], oks[i], frames < 4 * (i + 1))
  }
}
