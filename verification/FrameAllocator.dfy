/**
  Single physical frames from the buddy allocator.  Seen from outside, the
  allocator is a set of free pages from which one is taken or to which one is
  returned: splitting and coalescing do not show.
 */
module FrameAllocator {
  import opened Options
  import opened BuddyBlocks
  import opened BuddyGeometry
  import opened BuddyCount
  import opened BuddyAllocator

  lemma FreePagesOf(s: Pool)
    requires Inv(s)
    ensures forall page :: page in PagesOf(s.free) <==> page in s.pages && page !in PagesOf(s.live)
  {
    forall page ensures page in PagesOf(s.free) <==> page in s.pages && page !in PagesOf(s.live) {
      PagesOfCovered(s.free, page);
      PagesOfCovered(s.live, page);
      FreePages(s, page);
    }
  }

  lemma SinglePage(page: nat)
    ensures BlockPages(Block(0, page)) == {page} && First(Block(0, page)) == page
  {
    BlockPagesSize(Block(0, page));
    forall q ensures q in BlockPages(Block(0, page)) <==> q == page {
      BlockPagesCover(Block(0, page), q);
    }
  }

  lemma TakePage(s: Pool, s': Pool, page: nat)
    requires Inv(s) && Inv(s') && s'.pages == s.pages
    requires Block(0, page) !in s.live && s'.live == s.live + {Block(0, page)}
    ensures page in PagesOf(s.free) && PagesOf(s'.free) == PagesOf(s.free) - {page}
  {
    SinglePage(page);
    FreePagesOf(s);
    FreePagesOf(s');
    PagesOfAdd(s.live, Block(0, page));
    var b := Block(0, page);
    BlockPagesCover(b, page);
    assert b in s'.free + s'.live;
    PagesOfCovered(s.live, page);
    assert forall c :: c in s.live ==> c in s'.free + s'.live;
  }

  lemma PagesOfAdd(bs: set<Block>, b: Block)
    ensures PagesOf(bs + {b}) == PagesOf(bs) + BlockPages(b)
  {
  }

  /** Exactly `page` went from free to handed out. */
  ghost predicate PageTaken(s: Pool, s': Pool, page: nat) {
    && s'.pages == s.pages && s'.live == s.live + {Block(0, page)}
    && page in PagesOf(s.free) && PagesOf(s'.free) == PagesOf(s.free) - {page}
  }

  /** Allocation of a single page, on the sets. */
  lemma AllocPage(s: Pool, d: Block)
    requires Inv(s) && d in s.free
    ensures LeftEnd(d, 0).order == 0 && PageTaken(s, Carve(Take(s, d), d, 0), LeftEnd(d, 0).index)
  {
    TakeKeeps(s, d);
    CarveKeeps(Take(s, d), d, 0);
    assert s.live + {d} - {d} == s.live;
    TakePage(s, Carve(Take(s, d), d, 0), LeftEnd(d, 0).index);
  }

  /** Release of a single page, on the sets. */
  lemma ReleasePage(s: Pool, page: nat)
    requires Inv(s) && Block(0, page) in s.live
    ensures var s' := Absorb(s, Block(0, page));
      && s'.pages == s.pages && s'.live == s.live - {Block(0, page)}
      && PagesOf(s'.free) == PagesOf(s.free) + {page} && page !in PagesOf(s.free)
  {
    var b := Block(0, page);
    AbsorbKeeps(s, b);
    var s' := Absorb(s, b);
    assert s'.live + {b} == s.live;
    TakePage(s', s, page);
  }

  lemma NoPages(bs: set<Block>)
    ensures PagesOf(bs) == {} <==> bs == {}
  {
    if b :| b in bs {
      CoversFirst(b);
      PagesOfCovered(bs, First(b));
      assert Covered(bs, First(b));
    }
  }

  lemma PageAddr(base: nat, page: nat, phys: nat)
    ensures Addr(base, Block(0, page)) == base + phys <==> phys % 4096 == 0 && phys / 4096 == page
  {
    SinglePage(page);
  }

  /** allocate_frame. */
  method AllocateFrame(a: BuddyAllocator) returns (r: Option<nat>)
    requires a.Valid()
    modifies a, a.bitmap
    ensures a.Valid()
    ensures r.None? <==> PagesOf(old(a.pool.free)) == {}
    ensures r.None? ==> a.pool == old(a.pool)
    ensures r.Some? ==> r.value % 4096 == 0 && PageTaken(old(a.pool), a.pool, r.value / 4096)
  {
    var virt;
    ghost var d;
    virt, d := a.Alloc(0);
    NoPages(old(a.pool.free));
    if virt.None? {
      return None;
    }
    AllocPage(old(a.pool), d);
    ghost var page := LeftEnd(d, 0).index;
    var phys := virt.value - a.base;
    PageAddr(a.base, page, phys);
    r := Some(phys);
  }

  /** clear_frame. */
  method ClearFrame(a: BuddyAllocator, phys: nat)
    requires a.Valid() && phys % 4096 == 0 && Block(0, phys / 4096) in a.pool.live
    modifies a, a.bitmap
    ensures a.Valid() && a.pool.pages == old(a.pool.pages)
    ensures a.pool.live == old(a.pool.live) - {Block(0, phys / 4096)}
    ensures PagesOf(a.pool.free) == PagesOf(old(a.pool.free)) + {phys / 4096}
  {
    ReleasePage(a.pool, phys / 4096);
    PageAddr(a.base, phys / 4096, phys);
    a.Free(phys + a.base, 0, Block(0, phys / 4096));
  }
}
