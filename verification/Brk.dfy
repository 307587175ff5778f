/**
  The brk system call: moving the end of a process's heap, page by page,
  with rollback when memory runs out.
 */
module Brk {
  import opened Options
  import opened PageTree
  import opened VirtualPages
  import opened PageCost
  import opened AddressSpace

  const HEAP_FLAGS: set<Flag> := {PRESENT, WRITABLE, USER_ACCESSIBLE, NO_EXECUTE}
  const GUARD_PAGE_SIZE: nat := 4096

  /** align_to(addr, 4096), as a page number: the first page that starts at or behind `addr`. */
  function PageEnd(addr: nat): (w: nat)
    ensures addr <= 4096 * w < addr + 4096
  {
    (addr + 4095) / 4096
  }

  /** Pages lo..hi are all free, and there are frames enough to map them. */
  ghost predicate Affordable(t: Tables, root: Frame, node: Tree, frames: nat, lo: nat, hi: nat) {
    lo <= hi && AllUnmapped(t, root, lo, hi) && frames >= Cost(node, lo, hi)
  }

  /** A moment of an address space: its tables, their tree and how many frames are left. */
  datatype Memory = Memory(tables: Tables, node: Tree, frames: nat)

  /** Pages lo..v have been mapped on the way from `a` to `b`, at their cost. */
  ghost predicate Grown(a: Memory, b: Memory, root: Frame, lo: nat, v: nat) {
    && lo <= v && SameOutside(a.tables, b.tables, root, lo, v)
    && NewlyMapped(a.tables, b.tables, root, lo, v, HEAP_FLAGS)
    && Paved(a.node, b.node, lo, v) && b.frames == a.frames - Cost(a.node, lo, v)
  }

  lemma GrownStep(a: Memory, b: Memory, c: Memory, root: Frame, lo: nat, v: nat)
    requires Grown(a, b, root, lo, v) && v < USER_PAGES
    requires Shape(b.tables, root, b.node) && Shape(c.tables, root, c.node)
    requires SameOutside(b.tables, c.tables, root, v, v + 1) && NewlyMapped(b.tables, c.tables, root, v, v + 1, HEAP_FLAGS)
    requires WayGrew(b.node, c.node, PageOf(v)) && PageOf(v) in c.node
    requires c.frames == b.frames - 1 - Missing(b.node, PageOf(v))
    ensures Grown(a, c, root, lo, v + 1)
  {
    CostStep(a.node, b.tables, root, b.node, lo, v);
    SameOutsideJoin(a.tables, b.tables, c.tables, root, lo, v);
    NewlyMappedJoin(a.tables, b.tables, c.tables, root, lo, v, HEAP_FLAGS);
    PavedStep(a.node, b.node, c.tables, root, c.node, lo, v);
  }

  /** A page that cannot be mapped stands in the way of the whole range. */
  lemma GrownStuck(a: Memory, b: Memory, root: Frame, lo: nat, v: nat, hi: nat)
    requires Grown(a, b, root, lo, v) && v < hi && v < USER_PAGES && Shape(b.tables, root, b.node)
    requires At(b.tables, root, v).Some? || b.frames <= Missing(b.node, PageOf(v))
    ensures !Affordable(a.tables, root, a.node, a.frames, lo, hi)
  {
    CostStep(a.node, b.tables, root, b.node, lo, v);
    CostMonotone(a.node, lo, v + 1, hi);
  }

  lemma GrownAll(a: Memory, b: Memory, root: Frame, lo: nat, hi: nat)
    requires Grown(a, b, root, lo, hi)
    ensures Affordable(a.tables, root, a.node, a.frames, lo, hi)
  {
  }

  /** Page `w` lies between the heap's start and the guard page. */
  predicate InWindow(heapStart: nat, stackStart: nat, w: nat) {
    heapStart <= 4096 * w && 4096 * w + 4096 + 4096 <= stackStart
  }

  /** The mapped pages between the heap's start and the guard page are exactly
      those that start below the break. */
  ghost predicate HeapMapped(t: Tables, root: Frame, heapStart: nat, stackStart: nat, brk: nat) {
    forall w: nat :: InWindow(heapStart, stackStart, w) ==> (At(t, root, w).Some? <==> 4096 * w < brk)
  }

  /** Every page of [lo, hi) was unmapped and is mapped readable, writable and
      not executable for the user. */
  ghost predicate HeapPages(t: Tables, t': Tables, root: Frame, lo: nat, hi: nat) {
    forall w: nat :: lo <= w < hi ==>
      && At(t, root, w) == None && At(t', root, w).Some?
      && At(t', root, w).value.rights == {PRESENT, WRITABLE, USER_ACCESSIBLE, NO_EXECUTE}
  }

  lemma HeapRights(t: Tables, t': Tables, root: Frame, lo: nat, hi: nat)
    requires NewlyMapped(t, t', root, lo, hi, HEAP_FLAGS)
    ensures HeapPages(t, t', root, lo, hi)
  {
    assert Through(TABLE_FLAGS, HEAP_FLAGS + {PRESENT}) == {PRESENT, WRITABLE, USER_ACCESSIBLE, NO_EXECUTE};
  }

  /** The break moved from `was` to `now`: the pages in between were mapped or
      unmapped, and no other. */
  ghost predicate Moved(t: Tables, t': Tables, root: Frame, was: nat, now: nat) {
    if PageEnd(was) <= PageEnd(now) then
      && SameOutside(t, t', root, PageEnd(was), PageEnd(now))
      && HeapPages(t, t', root, PageEnd(was), PageEnd(now))
    else
      && SameOutside(t, t', root, PageEnd(now), PageEnd(was))
      && AllUnmapped(t', root, PageEnd(now), PageEnd(was))
  }

  lemma MovedExact(t: Tables, t': Tables, root: Frame, heapStart: nat, stackStart: nat, was: nat, now: nat)
    requires Moved(t, t', root, was, now) && HeapMapped(t, root, heapStart, stackStart, was)
    requires stackStart <= 0x8000_0000_0000
    ensures HeapMapped(t', root, heapStart, stackStart, now)
  {
    forall w: nat | InWindow(heapStart, stackStart, w) ensures At(t', root, w).Some? <==> 4096 * w < now {
      assert w < PageEnd(was) <==> 4096 * w < was;
      assert w < PageEnd(now) <==> 4096 * w < now;
    }
  }

  /** Above the break of such a heap everything is free. */
  lemma FreeAbove(t: Tables, root: Frame, heapStart: nat, stackStart: nat, brk: nat, requested: nat)
    requires HeapMapped(t, root, heapStart, stackStart, brk) && heapStart <= brk
    requires requested + 4096 < stackStart && stackStart % 4096 == 0
    ensures AllUnmapped(t, root, PageEnd(brk), PageEnd(requested))
  {
    forall w: nat | PageEnd(brk) <= w < PageEnd(requested) ensures At(t, root, w) == None {
      AboveBreak(heapStart, stackStart, brk, requested, w);
    }
  }

  lemma AboveBreak(heapStart: nat, stackStart: nat, brk: nat, requested: nat, w: nat)
    requires heapStart <= brk && requested + 4096 < stackStart && stackStart % 4096 == 0
    requires PageEnd(brk) <= w < PageEnd(requested)
    ensures InWindow(heapStart, stackStart, w) && 4096 * w >= brk
  {
  }

  class Process {
    const heapStart: nat
    const stackStart: nat
    var programBreak: nat
    const space: AddressSpace

    /** A new process has an empty heap. */
    constructor (space: AddressSpace, heapStart: nat, stackStart: nat)
      requires space.Valid() && heapStart % 4096 == 0 && stackStart % 4096 == 0
      requires heapStart + GUARD_PAGE_SIZE <= stackStart <= 0x8000_0000_0000
      ensures Valid() && programBreak == heapStart
      ensures this.space == space && this.heapStart == heapStart && this.stackStart == stackStart
    {
      this.space, this.heapStart, this.stackStart := space, heapStart, stackStart;
      programBreak := heapStart;
    }

    /** The heap starts on a page boundary and ends below the guard page. */
    ghost predicate Valid()
      reads this, space
    {
      && space.Valid() && heapStart % 4096 == 0 && heapStart <= programBreak
      && programBreak + GUARD_PAGE_SIZE <= stackStart <= 0x8000_0000_0000 && stackStart % 4096 == 0
    }

    ghost predicate HeapExact()
      reads this, space
    {
      HeapMapped(space.tables, space.root, heapStart, stackStart, programBreak)
    }

    /** In bytes: every byte of the heap is mapped, and no page behind it is. */
    lemma HeapBytes(a: nat)
      requires Valid() && HeapExact()
      ensures heapStart <= a < programBreak ==> At(space.tables, space.root, a / 4096).Some?
      ensures programBreak <= 4096 * (a / 4096) && InWindow(heapStart, stackStart, a / 4096) ==>
        At(space.tables, space.root, a / 4096) == None
    {
      if heapStart <= a < programBreak {
        assert InWindow(heapStart, stackStart, a / 4096) && 4096 * (a / 4096) <= a;
      }
    }

    /** The requests that sys_brk grants: above the heap's start, below the
        guard page, and growing only into pages that are free and paid for. */
    ghost predicate Granted(requested: nat)
      reads this, space
    {
      && requested != 0 && heapStart <= requested && requested + 4096 < stackStart
      && (PageEnd(requested) <= PageEnd(programBreak)
          || Affordable(space.tables, space.root, space.node, |space.free|, PageEnd(programBreak), PageEnd(requested)))
    }

    /** On a heap that is mapped exactly up to the break, a request in range
        is refused only for want of frames. */
    lemma GrantedByFrames(requested: nat)
      requires Valid() && HeapExact()
      requires requested != 0 && heapStart <= requested && requested + 4096 < stackStart
      ensures Granted(requested) <==>
        PageEnd(requested) > PageEnd(programBreak) ==>
          |space.free| >= Cost(space.node, PageEnd(programBreak), PageEnd(requested))
    {
      FreeAbove(space.tables, space.root, heapStart, stackStart, programBreak, requested);
    }

    // ----- single pages -----

    method ReleasePage(v: nat)
      requires space.Valid() && v < USER_PAGES
      modifies space`tables, space`free, space`node
      ensures space.Valid() && space.root == old(space.root)
      ensures SameOutside(old(space.tables), space.tables, space.root, v, v + 1)
      ensures At(space.tables, space.root, v) == None
      ensures space.free + Frames(space.node) == old(space.free) + Frames(old(space.node))
    {
      PageOfUser(v);
      var _ := space.UnmapRelease(PageOf(v));
      SameElsewhereAt(old(space.tables), space.tables, space.root, v);
    }

    method GrowPage(v: nat) returns (ok: bool)
      requires space.Valid() && v < USER_PAGES
      modifies space`tables, space`free, space`node
      ensures space.Valid() && space.root == old(space.root)
      ensures SameOutside(old(space.tables), space.tables, space.root, v, v + 1)
      ensures ok <==> At(old(space.tables), space.root, v) == None && |old(space.free)| > Missing(old(space.node), PageOf(v))
      ensures ok ==>
        && NewlyMapped(old(space.tables), space.tables, space.root, v, v + 1, HEAP_FLAGS)
        && |space.free| == |old(space.free)| - 1 - Missing(old(space.node), PageOf(v))
        && WayGrew(old(space.node), space.node, PageOf(v)) && PageOf(v) in space.node
      ensures !ok ==> Unchanged(old(space.tables), space.tables, space.root)
      ensures space.free + Frames(space.node) == old(space.free) + Frames(old(space.node))
    {
      PageOfUser(v);
      ok := space.MapFresh(PageOf(v), HEAP_FLAGS);
      WalkIsNode(space.tables, space.root, space.node, PageOf(v));
      SameElsewhereAt(old(space.tables), space.tables, space.root, v);
    }

    // ----- ranges -----

    /** Unmaps pages lo..hi and releases their frames. */
    method ReleaseRange(lo: nat, hi: nat)
      requires space.Valid() && lo <= hi <= USER_PAGES
      modifies space`tables, space`free, space`node
      ensures space.Valid() && space.root == old(space.root)
      ensures SameOutside(old(space.tables), space.tables, space.root, lo, hi)
      ensures AllUnmapped(space.tables, space.root, lo, hi)
      ensures space.free + Frames(space.node) == old(space.free) + Frames(old(space.node))
    {
      for v := lo to hi
        invariant space.Valid() && space.root == old(space.root)
        invariant SameOutside(old(space.tables), space.tables, space.root, lo, v)
        invariant AllUnmapped(space.tables, space.root, lo, v)
        invariant space.free + Frames(space.node) == old(space.free) + Frames(old(space.node))
      {
        ghost var t := space.tables;
        ReleasePage(v);
        SameOutsideJoin(old(space.tables), t, space.tables, space.root, lo, v);
        AllUnmappedJoin(t, space.tables, space.root, lo, v);
      }
    }

    /** The rollback loops: back to the translations of `t`. */
    method Undo(lo: nat, v: nat, ghost t: Tables)
      requires space.Valid() && lo <= v <= USER_PAGES
      requires NewlyMapped(t, space.tables, space.root, lo, v, HEAP_FLAGS)
      requires SameOutside(t, space.tables, space.root, lo, v)
      modifies space`tables, space`free, space`node
      ensures space.Valid() && space.root == old(space.root)
      ensures Unchanged(t, space.tables, space.root)
      ensures space.free + Frames(space.node) == old(space.free) + Frames(old(space.node))
    {
      ReleaseRange(lo, v);
      Rollback(t, old(space.tables), space.tables, space.root, lo, v, HEAP_FLAGS);
    }

    ghost function Now(): Memory
      reads space
    {
      Memory(space.tables, space.node, |space.free|)
    }

    /** One turn of the loop that started at `a`. */
    method GrowNext(ghost lo: nat, v: nat, ghost hi: nat, ghost a: Memory) returns (ok: bool)
      requires space.Valid() && lo <= v < hi <= USER_PAGES && Grown(a, Now(), space.root, lo, v)
      modifies space`tables, space`free, space`node
      ensures space.Valid() && space.root == old(space.root)
      ensures ok ==> Grown(a, Now(), space.root, lo, v + 1)
      ensures !ok ==>
        && !Affordable(a.tables, space.root, a.node, a.frames, lo, hi)
        && NewlyMapped(a.tables, space.tables, space.root, lo, v, HEAP_FLAGS)
        && SameOutside(a.tables, space.tables, space.root, lo, v)
      ensures space.free + Frames(space.node) == old(space.free) + Frames(old(space.node))
    {
      ok := GrowPage(v);
      if ok {
        GrownStep(a, old(Now()), Now(), space.root, lo, v);
      } else {
        GrownStuck(a, old(Now()), space.root, lo, v, hi);
        UnchangedAfter(a.tables, old(space.tables), space.tables, space.root, lo, v, HEAP_FLAGS);
      }
    }

    /** Maps fresh zeroed frames at lo..hi; on failure undoes what it did.
        It succeeds exactly when no page is mapped yet and there are frames for
        the pages and for the tables they lack. */
    method GrowRange(lo: nat, hi: nat) returns (ok: bool)
      requires space.Valid() && lo <= hi <= USER_PAGES
      modifies space`tables, space`free, space`node
      ensures space.Valid() && space.root == old(space.root)
      ensures SameOutside(old(space.tables), space.tables, space.root, lo, hi)
      ensures ok <==> Affordable(old(space.tables), space.root, old(space.node), |old(space.free)|, lo, hi)
      ensures ok ==>
        && NewlyMapped(old(space.tables), space.tables, space.root, lo, hi, HEAP_FLAGS)
        && |space.free| == |old(space.free)| - Cost(old(space.node), lo, hi)
      ensures !ok ==> Unchanged(old(space.tables), space.tables, space.root)
      ensures space.free + Frames(space.node) == old(space.free) + Frames(old(space.node))
    {
      for v := lo to hi
        invariant space.Valid() && space.root == old(space.root)
        invariant Grown(old(Now()), Now(), space.root, lo, v)
        invariant space.free + Frames(space.node) == old(space.free) + Frames(old(space.node))
      {
        var mapped := GrowNext(lo, v, hi, old(Now()));
        if !mapped {
          Undo(lo, v, old(space.tables));
          return false;
        }
      }
      GrownAll(old(Now()), Now(), space.root, lo, hi);
      ok := true;
    }

    /** Maps or unmaps the pages between the break `was` and the break `now`. */
    method MoveEnd(was: nat, now: nat) returns (ok: bool)
      requires space.Valid() && PageEnd(was) <= USER_PAGES && PageEnd(now) <= USER_PAGES
      modifies space`tables, space`free, space`node
      ensures space.Valid() && space.root == old(space.root)
      ensures ok <==>
        || PageEnd(now) <= PageEnd(was)
        || Affordable(old(space.tables), space.root, old(space.node), |old(space.free)|, PageEnd(was), PageEnd(now))
      ensures ok ==> Moved(old(space.tables), space.tables, space.root, was, now)
      ensures !ok ==> Unchanged(old(space.tables), space.tables, space.root)
      ensures space.free + Frames(space.node) == old(space.free) + Frames(old(space.node))
    {
      var oldEnd, newEnd := PageEnd(was), PageEnd(now);
      ok := true;
      if newEnd > oldEnd {
        ok := GrowRange(oldEnd, newEnd);
        if ok {
          HeapRights(old(space.tables), space.tables, space.root, oldEnd, newEnd);
        }
      } else if newEnd < oldEnd {
        ReleaseRange(newEnd, oldEnd);
      }
    }

    /** sys_brk. */
    method SysBrk(requested: nat) returns (r: nat)
      requires Valid()
      modifies this`programBreak, space`tables, space`free, space`node
      ensures Valid() && r == programBreak
      ensures programBreak == if old(Granted(requested)) then requested else old(programBreak)
      ensures r != requested ==> Unchanged(old(space.tables), space.tables, space.root)
      ensures Moved(old(space.tables), space.tables, space.root, old(programBreak), programBreak)
      ensures requested == 0 || requested < heapStart || requested + 4096 >= stackStart ==>
        programBreak == old(programBreak) && Unchanged(old(space.tables), space.tables, space.root)
      ensures old(HeapExact()) ==> HeapExact()
      ensures space.free + Frames(space.node) == old(space.free) + Frames(old(space.node))
    {
      if requested == 0 || requested < heapStart || requested >= stackStart {
        return programBreak;
      }
      var guard := if stackStart < GUARD_PAGE_SIZE then 0 else stackStart - GUARD_PAGE_SIZE;
      if requested >= guard {
        return programBreak;
      }
      var oldBreak := programBreak;
      var ok := MoveEnd(oldBreak, requested);
      if !ok {
        return oldBreak;
      }
      programBreak := requested;
      r := requested;
      if old(HeapExact()) {
        MovedExact(old(space.tables), space.tables, space.root, heapStart, stackStart, oldBreak, requested);
      }
    }
  }
}
