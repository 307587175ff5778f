/**
  The kernel heap: small requests from slab pages that are bumped off a
  virtual window, large ones from the buddy allocator.  Routing looks at the
  layout only; no block carries metadata.
 */
module Heap {
  import opened Options
  import opened Slab
  import opened HeapLayout
  import V = HeapView
  import U = HeapService
  import B = BuddyBlocks
  import G = BuddyGeometry
  import opened BuddyAllocator

  class HeapAllocator {
    const slab: SlabAllocator
    const buddy: BuddyAllocator
    ghost const start: nat
    var bump: nat
    var end: nat
    ghost var pages: map<nat, nat>
    ghost var live: map<nat, Layout>

    ghost function Now(): V.View
      reads this, slab, buddy
    {
      V.View(slab.lists, pages, live, start, bump, buddy.base, buddy.pool)
    }

    ghost predicate Valid()
      reads this, slab, buddy, buddy.bitmap
    {
      slab.Valid() && buddy.Valid() && V.Inv(Now())
    }

    /** The window lies above all memory of the buddy allocator. */
    constructor (buddy: BuddyAllocator, heapStart: nat, heapSize: nat)
      requires buddy.Valid() && heapStart > 0 && heapStart % 4096 == 0
      requires forall n :: n in buddy.pool.pages ==> buddy.base + 4096 * n + 4096 <= heapStart
      ensures Valid() && live == map[] && fresh(slab) && this.buddy == buddy
    {
      slab := new SlabAllocator();
      this.buddy := buddy;
      start, bump, end := heapStart, heapStart, heapStart + heapSize;
      pages, live := map[], map[];
    }

    /** Takes the next page off the window. */
    method AllocateVirtualPage() returns (r: Option<nat>)
      modifies this`bump
      ensures r == if old(bump) + 4096 > end then None else Some(old(bump))
      ensures bump == if r.None? then old(bump) else old(bump) + 4096
    {
      if bump + 4096 > end {
        return None;
      }
      r := Some(bump);
      bump := bump + 4096;
    }

    ghost predicate Parts()
      reads this, slab, buddy, buddy.bitmap
    {
      slab.Valid() && buddy.Valid()
    }

    method AllocSmall(l: Layout, k: nat) returns (p: nat)
      requires Parts() && Small(l) && k == ClassOf(Rounded(l)) && bump > 0 && Outside(slab.lists, bump)
      modifies this`bump, this`pages, this`live, slab
      ensures Parts() && V.Allocated(old(Now()), Now(), l, end, p)
    {
      var cached := slab.Alloc(AlignTo(l.size, l.align));
      if cached.Some? {
        live := live[cached.value := l];
        return cached.value;
      }
      var page := AllocateVirtualPage();
      if page.None? {
        return 0;
      }
      slab.PopulateCache(k, page.value);
      pages, live := pages[page.value / 4096 := k], live[page.value := l];
      p := page.value;
    }

    method AllocLarge(l: Layout) returns (p: nat)
      requires Parts() && l.align > 0 && !Small(l)
      modifies this`live, buddy, buddy.bitmap
      ensures Parts() && V.Allocated(old(Now()), Now(), l, end, p)
    {
      var size := AlignTo(AlignTo(l.size, l.align), 4096);
      if size > 4 * 1024 * 1024 {
        return 0;
      }
      var r;
      ghost var d;
      r, d := buddy.Alloc(SizeToOrder(size));
      if r.None? {
        return 0;
      }
      live := live[r.value := l];
      p := r.value;
      assert V.BestBlock(old(Now()), l, d);
    }

    /** alloc: null and no change, or a new live request. */
    method Alloc(l: Layout) returns (p: nat)
      requires Valid() && Proper(l) && l.align > 0
      modifies this`bump, this`pages, this`live, slab, buddy, buddy.bitmap
      ensures Valid() && V.Allocated(old(Now()), Now(), l, end, p)
      ensures U.Served(old(Now()), Now(), l, end, p)
      ensures if p == 0 then Now() == old(Now()) else p !in old(live) && live == old(live)[p := l]
      ensures forall n :: n in old(pages) ==> n in pages && pages[n] == old(pages)[n]
    {
      ghost var v := Now();
      var index := ListIndex(AlignTo(l.size, l.align));
      if index.Some? {
        V.OutsideBump(v);
        assert Chain(slab.next, slab.heads[index.value], slab.lists[index.value]);
        p := AllocSmall(l, index.value);
      } else {
        p := AllocLarge(l);
      }
      V.AllocatedKeeps(v, Now(), l, end, p);
      U.AllocatedServed(v, Now(), l, end, p);
    }

    method PushSmall(p: nat, l: Layout)
      requires Parts() && p != 0 && p in live && live[p] == l && Small(l) && !Listed(slab.lists, p)
      modifies this`live, slab
      ensures Parts() && Now() == V.PushBlock(old(Now()), p)
    {
      slab.Free(p, AlignTo(l.size, l.align));
      live := live - {p};
    }

    method FreeLarge(p: nat, l: Layout, ghost b: B.Block)
      requires Parts() && p in live && live[p] == l && l.align > 0 && !Small(l)
      requires b in buddy.pool.live && b.order == LargeOrder(l) && p == G.Addr(buddy.base, b) && p % 4096 == 0
      modifies this`live, buddy, buddy.bitmap
      ensures Parts() && Now() == V.LargeFree(old(Now()), p, b)
    {
      var size := AlignTo(AlignTo(l.size, l.align), 4096);
      buddy.Free(p, SizeToOrder(size), b);
      live := live - {p};
    }

    method DeallocLarge(p: nat, l: Layout, ghost v: V.View)
      requires Valid() && v == Now() && p in live && live[p] == l && !Small(l)
      modifies this`live, buddy, buddy.bitmap
      ensures Valid() && live == old(live) - {p} && l.align > 0 && V.Deallocated(v, Now(), p) && U.Returned(v, Now(), p)
    {
      ghost var b := V.LargeFreeKeeps(v, p);
      FreeLarge(p, l, b);
      U.DeallocatedReturned(v, Now(), p);
    }

    method DeallocSmall(p: nat, l: Layout, ghost v: V.View)
      requires Valid() && v == Now() && p in live && live[p] == l && Small(l)
      modifies this`live, slab
      ensures Valid() && live == old(live) - {p} && V.Deallocated(v, Now(), p) && U.Returned(v, Now(), p)
    {
      V.Fits(v, p);
      V.PushBlockKeeps(v, p);
      PushSmall(p, l);
      U.DeallocatedReturned(v, Now(), p);
    }

    /** dealloc, with the layout the request was made with. */
    method Dealloc(p: nat, l: Layout)
      requires Valid() && p in live && live[p] == l
      modifies this`live, slab, buddy, buddy.bitmap
      ensures Valid() && live == old(live) - {p} && V.Deallocated(old(Now()), Now(), p)
      ensures U.Returned(old(Now()), Now(), p)
    {
      var index := ListIndex(AlignTo(l.size, l.align));
      if index.Some? {
        DeallocSmall(p, l, Now());
      } else {
        DeallocLarge(p, l, Now());
      }
    }
  }
}
