/**
  Bringing up physical memory: reserved regions, the bump allocator that
  finds room for the buddy bitmap, and the loop that feeds every usable page
  to the buddy allocator.
 */
module Boot {
  import opened Options
  import opened Sequences
  import opened BuddyBlocks
  import opened BuddyGeometry
  import opened BuddyCount
  import opened BuddyAllocator
  import Map = BuddyBitmap

  const MAX_RESERVED: nat := 32

  datatype Region = Region(start: nat, end: nat)

  /** A memory map entry; type 1 is usable memory. */
  datatype Entry = Entry(base: nat, length: nat, typ: nat)

  // ----- reserved regions -----

  predicate Hits(r: Region, addr: nat, size: nat) {
    addr < r.end && addr + size > r.start
  }

  ghost predicate Reserved(regions: seq<Region>, addr: nat, size: nat) {
    exists i :: 0 <= i < |regions| && Hits(regions[i], addr, size)
  }

  /** The test means that some byte is shared, or that one of the two is
      empty and lies strictly inside the other. */
  lemma HitsIsOverlap(r: Region, addr: nat, size: nat)
    ensures Hits(r, addr, size) <==>
      || (exists x: nat :: SharedByte(r, addr, size, x))
      || EmptyInside(r, addr, size)
      || (size == 0 && r.start < addr < r.end)
  {
    if Hits(r, addr, size) && r.start < r.end && size > 0 {
      assert SharedByte(r, addr, size, if addr < r.start then r.start else addr);
    }
  }

  /** A region without bytes, strictly inside the range. */
  predicate EmptyInside(r: Region, addr: nat, size: nat) {
    addr < r.end <= r.start < addr + size
  }

  predicate SharedByte(r: Region, addr: nat, size: nat, x: nat) {
    r.start <= x < r.end && addr <= x < addr + size
  }

  /** The table of reserved regions. */
  class RegionTracker {
    const regions: array<Region>
    var count: nat

    ghost predicate Valid()
      reads this
    {
      regions.Length == MAX_RESERVED && count <= MAX_RESERVED
    }

    ghost function Known(): seq<Region>
      requires Valid()
      reads this, regions
    {
      regions[..count]
    }

    constructor ()
      ensures Valid() && fresh(regions) && Known() == []
    {
      regions := new Region[MAX_RESERVED](_ => Region(0, 0));
      count := 0;
    }

    /** A full table is a panic in the kernel; here `ok` is false. */
    method Reserve(start: nat, end: nat) returns (ok: bool)
      requires Valid()
      modifies this, regions
      ensures Valid() && ok == (old(count) < 32)
      ensures Known() == if ok then old(Known()) + [Region(start, end)] else old(Known())
    {
      ok := count < MAX_RESERVED;
      if ok {
        regions[count] := Region(start, end);
        count := count + 1;
      }
    }

    method IsReserved(addr: nat, size: nat) returns (r: bool)
      requires Valid()
      ensures r <==> Reserved(Known(), addr, size)
    {
      for i := 0 to count
        invariant forall j :: 0 <= j < i ==> !Hits(regions[j], addr, size)
      {
        if addr < regions[i].end && addr + size > regions[i].start {
          assert Hits(Known()[i], addr, size);
          return true;
        }
      }
      r := false;
    }
  }

  // ----- the bump allocator -----

  /** x & !4095 */
  function PageFloor(x: nat): (r: nat)
    ensures r % 4096 == 0 && r <= x < r + 4096
  {
    x - x % 4096
  }

  function End(e: Entry): nat {
    e.base + e.length
  }

  /** `count` frames at `c` lie in the entry, above the bump pointer, and none is reserved. */
  ghost predicate Room(e: Entry, regions: seq<Region>, next: nat, count: nat, c: nat) {
    && e.typ == 1 && c % 4096 == 0 && e.base <= c && next <= c && c + 4096 * count <= End(e)
    && forall i :: 0 <= i < count ==> FrameFree(regions, c, i)
  }

  ghost predicate FrameFree(regions: seq<Region>, c: nat, i: nat) {
    !Reserved(regions, c + 4096 * i, 4096)
  }

  /** A run with room shares no byte with a reserved region. */
  lemma RoomApart(e: Entry, regions: seq<Region>, next: nat, count: nat, c: nat, j: nat, x: nat)
    requires Room(e, regions, next, count, c) && j < |regions|
    ensures !SharedByte(regions[j], c, 4096 * count, x)
  {
    if c <= x < c + 4096 * count {
      var i := (x - c) / 4096;
      assert FrameFree(regions, c, i);
      assert !Hits(regions[j], c + 4096 * i, 4096);
    }
  }

  /** There is room at `c`, in some entry. */
  ghost predicate RoomAt(entries: seq<Entry>, regions: seq<Region>, next: nat, count: nat, c: nat) {
    exists k :: 0 <= k < |entries| && Room(entries[k], regions, next, count, c)
  }

  ghost predicate SomeRoom(entries: seq<Entry>, regions: seq<Region>, next: nat, count: nat) {
    exists c: nat :: RoomAt(entries, regions, next, count, c)
  }

  /** No run that starts below `c` fits. */
  ghost predicate NoRoomBelow(e: Entry, regions: seq<Region>, next: nat, count: nat, c: nat) {
    forall d: nat :: d < c ==> !Room(e, regions, next, count, d)
  }

  ghost predicate NoRoom(e: Entry, regions: seq<Region>, next: nat, count: nat) {
    forall d: nat :: !Room(e, regions, next, count, d)
  }

  /** A reserved frame rules out every start from which the run would reach it. */
  lemma JumpPast(e: Entry, regions: seq<Region>, next: nat, count: nat, c: nat, i: nat)
    requires c % 4096 == 0 && i < count && !FrameFree(regions, c, i) && NoRoomBelow(e, regions, next, count, c)
    ensures NoRoomBelow(e, regions, next, count, c + 4096 * i + 4096)
  {
    forall d: nat | c <= d < c + 4096 * i + 4096 ensures !Room(e, regions, next, count, d) {
      if d % 4096 == 0 {
        var k := (c + 4096 * i - d) / 4096;
        assert d + 4096 * k == c + 4096 * i;
        assert !FrameFree(regions, d, k);
      }
    }
  }

  class BumpAllocator {
    var nextFreeFrame: nat
    const memoryMap: seq<Entry>
    const tracker: RegionTracker

    constructor (kernelEnd: nat, memoryMap: seq<Entry>, tracker: RegionTracker)
      ensures nextFreeFrame % 4096 == 0 && kernelEnd <= nextFreeFrame < kernelEnd + 4096
      ensures this.memoryMap == memoryMap && this.tracker == tracker
    {
      nextFreeFrame := PageFloor(kernelEnd + 4095);
      this.memoryMap, this.tracker := memoryMap, tracker;
    }

    /** The first reserved frame of a run, if any. */
    method FirstReserved(c: nat, count: nat) returns (r: Option<nat>)
      requires tracker.Valid()
      ensures r.None? ==> forall i :: 0 <= i < count ==> FrameFree(tracker.Known(), c, i)
      ensures r.Some? ==> r.value < count && !FrameFree(tracker.Known(), c, r.value)
    {
      for i := 0 to count
        invariant forall j :: 0 <= j < i ==> FrameFree(tracker.Known(), c, j)
      {
        var hit := tracker.IsReserved(c + i * 4096, 4096);
        if hit {
          return Some(i);
        }
      }
      r := None;
    }

    /** The lowest run of `count` free frames in one entry, if there is one. */
    method Search(e: Entry, count: nat) returns (r: Option<nat>)
      requires tracker.Valid() && e.typ == 1
      ensures r.None? ==> NoRoom(e, tracker.Known(), nextFreeFrame, count)
      ensures r.Some? ==> Room(e, tracker.Known(), nextFreeFrame, count, r.value)
                          && NoRoomBelow(e, tracker.Known(), nextFreeFrame, count, r.value)
    {
      var size := count * 4096;
      var candidate := e.base;
      if nextFreeFrame > candidate {
        candidate := nextFreeFrame;
      }
      candidate := PageFloor(candidate + 4095);
      while candidate + size <= End(e)
        invariant candidate % 4096 == 0 && e.base <= candidate && nextFreeFrame <= candidate
        invariant NoRoomBelow(e, tracker.Known(), nextFreeFrame, count, candidate)
        decreases End(e) - candidate
      {
        var hit := FirstReserved(candidate, count);
        if hit.None? {
          return Some(candidate);
        }
        JumpPast(e, tracker.Known(), nextFreeFrame, count, candidate, hit.value);
        candidate := PageFloor(candidate + hit.value * 4096 + 4096);
      }
      r := None;
    }

    /** The lowest run in the first usable entry that has one; the next search starts behind it. */
    method AllocateContiguousFrames(count: nat) returns (r: Option<nat>, ghost k: nat)
      requires tracker.Valid()
      modifies this`nextFreeFrame
      ensures r.None? ==>
        && nextFreeFrame == old(nextFreeFrame)
        && forall j :: 0 <= j < |memoryMap| ==> NoRoom(memoryMap[j], tracker.Known(), old(nextFreeFrame), count)
      ensures r.Some? ==>
        && k < |memoryMap| && nextFreeFrame == r.value + 4096 * count
        && Room(memoryMap[k], tracker.Known(), old(nextFreeFrame), count, r.value)
        && NoRoomBelow(memoryMap[k], tracker.Known(), old(nextFreeFrame), count, r.value)
        && forall j :: 0 <= j < k ==> NoRoom(memoryMap[j], tracker.Known(), old(nextFreeFrame), count)
    {
      k := 0;
      for i := 0 to |memoryMap|
        invariant nextFreeFrame == old(nextFreeFrame)
        invariant forall j :: 0 <= j < i ==> NoRoom(memoryMap[j], tracker.Known(), old(nextFreeFrame), count)
      {
        if memoryMap[i].typ == 1 {
          var c := Search(memoryMap[i], count);
          if c.Some? {
            nextFreeFrame := c.value + count * 4096;
            return c, i;
          }
        }
      }
      r := None;
    }
  }

  // ----- feeding the buddy allocator -----

  /** First page that starts in the entry, and first page that does not end in it. */
  function Lo(e: Entry): nat {
    (e.base + 4095) / 4096
  }

  function Hi(e: Entry): nat {
    End(e) / 4096
  }

  /** Page `n` lies wholly inside a usable entry. */
  predicate Inside(e: Entry, n: nat) {
    e.typ == 1 && e.base <= 4096 * n && 4096 * n + 4096 <= End(e)
  }

  lemma InsideRange(e: Entry, n: nat)
    ensures Inside(e, n) <==> e.typ == 1 && Lo(e) <= n < Hi(e)
  {
  }

  ghost predicate PageFree(regions: seq<Region>, n: nat) {
    !Reserved(regions, 4096 * n, 4096)
  }

  /** Page `n` is usable through one of the first `k` entries. */
  ghost predicate Usable(entries: seq<Entry>, k: nat, regions: seq<Region>, n: nat)
    requires k <= |entries|
  {
    PageFree(regions, n) && exists i :: 0 <= i < k && Inside(entries[i], n)
  }

  /** Usable entries share no page. */
  ghost predicate Disjoint(entries: seq<Entry>) {
    forall i, j, n :: 0 <= i < j < |entries| && Inside(entries[i], n) ==> !Inside(entries[j], n)
  }

  /** And no page of one is next to a page of another. */
  ghost predicate Untouching(entries: seq<Entry>) {
    forall i, j, n: nat :: 0 <= i < |entries| && 0 <= j < |entries| && i != j && Inside(entries[i], n) ==>
      !Inside(entries[j], n + 1)
  }

  /** Exactly the unreserved pages of [lo, page) were added. */
  ghost predicate FedTo(before: set<nat>, after: set<nat>, regions: seq<Region>, lo: nat, page: nat) {
    forall n :: n in after <==> n in before || (lo <= n < page && PageFree(regions, n))
  }

  lemma FedChunk(before: set<nat>, mid: set<nat>, regions: seq<Region>, lo: nat, page: nat, end: nat)
    requires FedTo(before, mid, regions, lo, page) && lo <= page <= end
    requires forall n :: page <= n < end ==> PageFree(regions, n) && n !in before
    ensures FedTo(before, mid + Range(page, end), regions, lo, end) && mid !! Range(page, end)
    ensures |mid + Range(page, end)| == |mid| + (end - page)
  {
    RangeSize(page, end);
    forall n | n in Range(page, end) ensures n !in mid {
    }
    SizeOfUnion(mid, Range(page, end));
  }

  /** No managed page is next to a page of the entry. */
  ghost predicate Lonely(pages: set<nat>, e: Entry) {
    forall n: nat :: n in pages ==> !Inside(e, n + 1) && (n > 0 ==> !Inside(e, n - 1))
  }

  /** The end of the run of unreserved frames that starts at page `page`. */
  method RunEnd(tracker: RegionTracker, start: nat, regionEnd: nat,
                ghost regions: seq<Region>, ghost page: nat, ghost hi: nat)
    returns (end: nat, frames: nat)
    requires tracker.Valid() && tracker.Known() == regions
    requires start == 4096 * page && regionEnd == 4096 * hi && page < hi && PageFree(regions, page)
    ensures end == 4096 * (page + frames) && 0 < frames && page + frames <= hi
    ensures forall n :: page <= n < page + frames ==> PageFree(regions, n)
    ensures page + frames < hi ==> !PageFree(regions, page + frames)
  {
    end, frames := start, 0;
    while end < regionEnd
      invariant end == 4096 * (page + frames) && page + frames <= hi
      invariant forall n :: page <= n < page + frames ==> PageFree(regions, n)
      invariant frames == 0 ==> page + frames < hi
    {
      var reserved := tracker.IsReserved(end, 4096);
      if reserved {
        break;
      }
      end := end + 4096;
      frames := frames + 1;
    }
  }

  /** Pages page..last are new, and if `lonely` next to none that is not. */
  ghost predicate NewChunk(now: set<nat>, pages: set<nat>, page: nat, last: nat, lonely: bool) {
    && now !! Range(page, last) && pages == now + Range(page, last)
    && (lonely ==> last !in now && (page > 0 ==> page - 1 !in now))
  }

  /** How far an entry has been fed: up to `page`, with `frames` new pages. */
  ghost predicate Feeding(before: set<nat>, pages: set<nat>, regions: seq<Region>, e: Entry, page: nat, frames: nat) {
    && Lo(e) <= page && (page <= Hi(e) || page == Lo(e))
    && FedTo(before, pages, regions, Lo(e), page) && |pages| == |before| + frames
    && (Lo(e) < page < Hi(e) ==> !PageFree(regions, page - 1) || !PageFree(regions, page))
  }

  lemma FeedingChunk(before: set<nat>, pages: set<nat>, regions: seq<Region>, e: Entry, page: nat, frames: nat, run: nat)
    requires e.typ == 1 && Feeding(before, pages, regions, e, page, frames) && page + run <= Hi(e) && 0 < run
    requires forall n :: n in before ==> !Inside(e, n)
    requires forall n :: page <= n < page + run ==> PageFree(regions, n)
    requires page + run < Hi(e) ==> !PageFree(regions, page + run)
    ensures NewChunk(pages, pages + Range(page, page + run), page, page + run, Lonely(before, e))
    ensures Feeding(before, pages + Range(page, page + run), regions, e, page + run, frames + run)
  {
    forall n | page <= n < page + run ensures n !in before {
      InsideRange(e, n);
    }
    FedChunk(before, pages, regions, Lo(e), page, page + run);
    InsideRange(e, page);
    InsideRange(e, page + run - 1);
  }

  /** One run of unreserved pages. */
  method FeedChunk(buddy: BuddyAllocator, start: nat, end: nat,
                   ghost page: nat, ghost last: nat, ghost now: set<nat>, ghost pages: set<nat>, ghost lonely: bool)
    requires buddy.Valid() && start == 4096 * page && end == 4096 * last && page <= last <= buddy.bitmap.Length * 8
    requires buddy.pool.pages == now && NewChunk(now, pages, page, last, lonely)
    requires lonely ==> Coalesced(buddy.pool.free)
    modifies buddy, buddy.bitmap
    ensures buddy.Valid() && buddy.pool.live == old(buddy.pool.live) && buddy.pool.pages == pages
    ensures lonely ==> Coalesced(buddy.pool.free)
  {
    ghost var _ := buddy.AddFreeRegion(start + buddy.base, end + buddy.base, page, last);
  }

  /** Feeds the run of unreserved frames that starts at `chunk`. */
  method FeedRun(buddy: BuddyAllocator, tracker: RegionTracker, chunk: nat, regionEnd: nat, ghost e: Entry,
                 ghost regions: seq<Region>, ghost before: set<nat>, ghost now: set<nat>, ghost page: nat, ghost frames: nat,
                 ghost lonely: bool)
    returns (end: nat, run: nat, ghost pages: set<nat>)
    requires buddy.Valid() && tracker.Valid() && tracker.Known() == regions && e.typ == 1 && Hi(e) <= buddy.bitmap.Length * 8
    requires chunk == 4096 * page && regionEnd == 4096 * Hi(e) && page < Hi(e) && PageFree(regions, page)
    requires forall n :: n in before ==> !Inside(e, n)
    requires Feeding(before, now, regions, e, page, frames) && buddy.pool.pages == now
    requires lonely ==> Lonely(before, e) && Coalesced(buddy.pool.free)
    modifies buddy, buddy.bitmap
    ensures buddy.Valid() && buddy.pool.live == old(buddy.pool.live) && buddy.pool.pages == pages
    ensures run > 0 && end == 4096 * (page + run)
    ensures Feeding(before, pages, regions, e, page + run, frames + run)
    ensures lonely ==> Coalesced(buddy.pool.free)
  {
    end, run := RunEnd(tracker, chunk, regionEnd, regions, page, Hi(e));
    pages := now + Range(page, page + run);
    FeedingChunk(before, now, regions, e, page, frames, run);
    FeedChunk(buddy, chunk, end, page, page + run, now, pages, Lonely(before, e) && lonely);
  }

  lemma FeedingSkip(before: set<nat>, pages: set<nat>, regions: seq<Region>, e: Entry, page: nat, frames: nat)
    requires Feeding(before, pages, regions, e, page, frames) && page < Hi(e) && !PageFree(regions, page)
    ensures Feeding(before, pages, regions, e, page + 1, frames)
  {
  }

  lemma FeedingStart(pages: set<nat>, regions: seq<Region>, e: Entry)
    ensures Feeding(pages, pages, regions, e, Lo(e), 0)
  {
  }

  lemma FeedingDone(before: set<nat>, pages: set<nat>, regions: seq<Region>, e: Entry, page: nat, frames: nat)
    requires Feeding(before, pages, regions, e, page, frames) && page >= Hi(e)
    ensures FedTo(before, pages, regions, Lo(e), Hi(e)) && |pages| == |before| + frames
  {
  }

  /** Skips a reserved frame or feeds a run. */
  method FeedStep(buddy: BuddyAllocator, tracker: RegionTracker, chunk: nat, regionEnd: nat, ghost e: Entry,
                  ghost regions: seq<Region>, ghost before: set<nat>, ghost page: nat, ghost frames: nat, ghost lonely: bool)
    returns (end: nat, run: nat, ghost next: nat, ghost pages: set<nat>)
    requires buddy.Valid() && tracker.Valid() && tracker.Known() == regions && e.typ == 1 && Hi(e) <= buddy.bitmap.Length * 8
    requires chunk == 4096 * page && regionEnd == 4096 * Hi(e) && page < Hi(e)
    requires forall n :: n in before ==> !Inside(e, n)
    requires Feeding(before, buddy.pool.pages, regions, e, page, frames)
    requires lonely ==> Lonely(before, e) && Coalesced(buddy.pool.free)
    modifies buddy, buddy.bitmap
    ensures buddy.Valid() && buddy.pool.live == old(buddy.pool.live) && buddy.pool.pages == pages
    ensures page < next && end == 4096 * next && Feeding(before, pages, regions, e, next, frames + run)
    ensures lonely ==> Coalesced(buddy.pool.free)
  {
    var reserved := tracker.IsReserved(chunk, 4096);
    if reserved {
      FeedingSkip(before, buddy.pool.pages, regions, e, page, frames);
      end, run, next, pages := chunk + 4096, 0, page + 1, buddy.pool.pages;
    } else {
      end, run, pages := FeedRun(buddy, tracker, chunk, regionEnd, e, regions, before, buddy.pool.pages, page, frames, lonely);
      next := page + run;
    }
  }

  /** Feeds one entry: every unreserved page of it, once. */
  method FeedEntry(buddy: BuddyAllocator, tracker: RegionTracker, e: Entry, ghost regions: seq<Region>, ghost lonely: bool)
    returns (frames: nat, ghost pages: set<nat>)
    requires buddy.Valid() && tracker.Valid() && tracker.Known() == regions && e.typ == 1 && Hi(e) <= buddy.bitmap.Length * 8
    requires forall n :: n in buddy.pool.pages ==> !Inside(e, n)
    requires lonely ==> Lonely(buddy.pool.pages, e) && Coalesced(buddy.pool.free)
    modifies buddy, buddy.bitmap
    ensures buddy.Valid() && buddy.pool.live == old(buddy.pool.live) && buddy.pool.pages == pages
    ensures FedTo(old(buddy.pool.pages), pages, regions, Lo(e), Hi(e)) && |pages| == |old(buddy.pool.pages)| + frames
    ensures lonely ==> Coalesced(buddy.pool.free)
  {
    ghost var before, page := buddy.pool.pages, Lo(e);
    var chunk, regionEnd := PageFloor(e.base + 4095), PageFloor(e.base + e.length);
    frames, pages := 0, before;
    FeedingStart(before, regions, e);
    while chunk < regionEnd
      invariant buddy.Valid() && buddy.pool.live == old(buddy.pool.live) && buddy.pool.pages == pages
      invariant chunk == 4096 * page && regionEnd == 4096 * Hi(e)
      invariant Feeding(before, pages, regions, e, page, frames)
      invariant lonely ==> Coalesced(buddy.pool.free)
      decreases if chunk < regionEnd then regionEnd - chunk else 0
    {
      var run;
      ghost var next;
      chunk, run, next, pages := FeedStep(buddy, tracker, chunk, regionEnd, e, regions, before, page, frames, lonely);
      frames, page := frames + run, next;
    }
    FeedingDone(before, pages, regions, e, page, frames);
  }

  // ----- the whole map -----

  /** Exactly the pages usable through the first `k` entries were added. */
  ghost predicate AllFed(pages: set<nat>, entries: seq<Entry>, k: nat, regions: seq<Region>)
    requires k <= |entries|
  {
    forall n :: n in pages <==> Usable(entries, k, regions, n)
  }

  /** In terms of bytes: a page is managed iff it lies wholly in a usable
      entry, shares no byte with a reserved region, and has no empty region in
      its interior. */
  lemma FedMeaning(pages: set<nat>, entries: seq<Entry>, regions: seq<Region>, n: nat)
    requires AllFed(pages, entries, |entries|, regions)
    ensures n in pages <==>
      && (exists i :: 0 <= i < |entries| && Inside(entries[i], n))
      && (forall j, x: nat :: 0 <= j < |regions| ==> !SharedByte(regions[j], 4096 * n, 4096, x))
      && (forall j :: 0 <= j < |regions| ==> !EmptyInside(regions[j], 4096 * n, 4096))
  {
    assert n in pages <==> Usable(entries, |entries|, regions, n);
    forall j | 0 <= j < |regions|
      ensures Hits(regions[j], 4096 * n, 4096) <==>
        (exists x: nat :: SharedByte(regions[j], 4096 * n, 4096, x)) || EmptyInside(regions[j], 4096 * n, 4096)
    {
      HitsIsOverlap(regions[j], 4096 * n, 4096);
    }
  }

  lemma NextEntry(pages: set<nat>, entries: seq<Entry>, k: nat, regions: seq<Region>)
    requires k < |entries| && AllFed(pages, entries, k, regions) && Disjoint(entries)
    ensures forall n :: n in pages ==> !Inside(entries[k], n)
    ensures Untouching(entries) ==> Lonely(pages, entries[k])
  {
    forall n | n in pages ensures !Inside(entries[k], n) {
      assert Usable(entries, k, regions, n);
    }
    if Untouching(entries) {
      forall n: nat | n in pages ensures !Inside(entries[k], n + 1) && (n > 0 ==> !Inside(entries[k], n - 1)) {
        assert Usable(entries, k, regions, n);
      }
    }
  }

  lemma EntryFed(before: set<nat>, pages: set<nat>, entries: seq<Entry>, k: nat, regions: seq<Region>)
    requires k < |entries| && AllFed(before, entries, k, regions)
    requires if entries[k].typ == 1 then FedTo(before, pages, regions, Lo(entries[k]), Hi(entries[k])) else pages == before
    ensures AllFed(pages, entries, k + 1, regions)
  {
    forall n ensures n in pages <==> Usable(entries, k + 1, regions, n) {
      InsideRange(entries[k], n);
      assert Usable(entries, k, regions, n) <==> n in before;
      assert Usable(entries, k + 1, regions, n) <==>
             Usable(entries, k, regions, n) || (PageFree(regions, n) && Inside(entries[k], n));
    }
  }

  ghost predicate InReach(entries: seq<Entry>, limit: nat) {
    forall i :: 0 <= i < |entries| && entries[i].typ == 1 ==> Hi(entries[i]) <= limit
  }

  /** One entry of any type. */
  method FeedOne(buddy: BuddyAllocator, tracker: RegionTracker, entries: seq<Entry>, i: nat, ghost regions: seq<Region>)
    returns (frames: nat, ghost pages: set<nat>)
    requires buddy.Valid() && tracker.Valid() && tracker.Known() == regions
    requires i < |entries| && Disjoint(entries) && InReach(entries, buddy.bitmap.Length * 8)
    requires AllFed(buddy.pool.pages, entries, i, regions) && (Untouching(entries) ==> Coalesced(buddy.pool.free))
    modifies buddy, buddy.bitmap
    ensures buddy.Valid() && buddy.pool.live == old(buddy.pool.live) && buddy.pool.pages == pages
    ensures AllFed(pages, entries, i + 1, regions) && tracker.Known() == regions
    ensures |pages| == |old(buddy.pool.pages)| + frames
    ensures Untouching(entries) ==> Coalesced(buddy.pool.free)
  {
    ghost var before := buddy.pool.pages;
    frames, pages := 0, before;
    if entries[i].typ == 1 {
      NextEntry(before, entries, i, regions);
      frames, pages := FeedEntry(buddy, tracker, entries[i], regions, Untouching(entries));
    }
    EntryFed(before, pages, entries, i, regions);
  }

  /** Feeds every usable page of the map, each once. */
  method FeedAll(buddy: BuddyAllocator, tracker: RegionTracker, entries: seq<Entry>, ghost regions: seq<Region>)
    returns (frames: nat, ghost pages: set<nat>)
    requires buddy.Valid() && tracker.Valid() && buddy.pool == Pool({}, {}, {}) && tracker.Known() == regions
    requires Disjoint(entries) && InReach(entries, buddy.bitmap.Length * 8)
    modifies buddy, buddy.bitmap
    ensures buddy.Valid() && buddy.pool.live == {} && buddy.pool.pages == pages && tracker.Known() == regions
    ensures AllFed(pages, entries, |entries|, regions)
    ensures frames == |pages| && PagesOf(buddy.pool.free) == pages
    ensures Untouching(entries) ==> Coalesced(buddy.pool.free)
  {
    frames, pages := 0, {};
    for i := 0 to |entries|
      invariant buddy.Valid() && buddy.pool.live == {} && buddy.pool.pages == pages && tracker.Known() == regions
      invariant AllFed(pages, entries, i, regions) && |pages| == frames
      invariant Untouching(entries) ==> Coalesced(buddy.pool.free)
    {
      var more;
      more, pages := FeedOne(buddy, tracker, entries, i, regions);
      frames := frames + more;
    }
    AllFree(buddy.pool);
  }

  lemma AllFree(s: Pool)
    requires Inv(s) && s.live == {}
    ensures PagesOf(s.free) == s.pages
  {
    forall n ensures n in PagesOf(s.free) <==> n in s.pages {
      PagesOfCovered(s.free, n);
      assert s.free + s.live == s.free;
    }
  }

  /** The bitmap asked for `highest` bytes describes every page below. */
  lemma BitmapReaches(entries: seq<Entry>, highest: nat)
    requires 0x1_0000 <= highest <= 0x800_0000
    requires forall i :: 0 <= i < |entries| && entries[i].typ == 1 ==> End(entries[i]) <= highest
    ensures InReach(entries, Map.BitmapSize(highest) * 8) && Map.WholePages(Map.BitmapSize(highest))
  {
    Map.BitmapSizeSuffices(highest);
  }

  /** The bitmap for `highest` bytes can be placed: a slot is left in the
      table, and some usable entry has room. */
  ghost predicate Placeable(entries: seq<Entry>, regions: seq<Region>, next: nat, highest: nat) {
    |regions| < 32 && SomeRoom(entries, regions, next, Map.BitmapSize(highest) / 4096)
  }

  /** Where the bitmap went: in a run with room, if it could be placed. */
  ghost predicate Placed(entries: seq<Entry>, before: seq<Region>, next: nat, highest: nat, at: Option<nat>,
                         regions: seq<Region>) {
    match at
    case None => !Placeable(entries, before, next, highest) && regions == before
    case Some(c) =>
      && Placeable(entries, before, next, highest)
      && RoomAt(entries, before, next, Map.BitmapSize(highest) / 4096, c)
      && regions == before + [Region(c, c + Map.BitmapSize(highest))]
  }

  /** Finds unreserved usable memory for the bitmap and reserves it. */
  method PlaceBitmap(highest: nat, bump: BumpAllocator, tracker: RegionTracker) returns (r: Option<nat>)
    requires tracker.Valid() && bump.tracker == tracker
    modifies bump, tracker, tracker.regions
    ensures tracker.Valid()
    ensures Placed(bump.memoryMap, old(tracker.Known()), old(bump.nextFreeFrame), highest, r, tracker.Known())
  {
    var size := Map.BitmapSize(highest);
    var count := (size + 4095) / 4096;
    assert count * 4096 == size;
    ghost var k;
    r, k := bump.AllocateContiguousFrames(count);
    if r.Some? {
      assert RoomAt(bump.memoryMap, tracker.Known(), old(bump.nextFreeFrame), count, r.value);
      var ok := tracker.Reserve(r.value, r.value + count * 4096);
      if !ok {
        r := None;
      }
    }
  }

  /** A buddy allocator over a zeroed bitmap, with no memory yet. */
  method EmptyBuddy(size: nat, base: nat) returns (buddy: BuddyAllocator)
    requires Map.WholePages(size) && BaseAligned(base)
    ensures fresh(buddy) && fresh(buddy.bitmap) && buddy.Valid() && buddy.pool == Pool({}, {}, {})
    ensures buddy.bitmap.Length == size && buddy.base == base
  {
    var bitmap := new bv8[size](_ => 0);
    buddy := new BuddyAllocator(bitmap, base);
  }

  /** All usable memory is free in the new allocator, and nothing else. */
  ghost predicate MapFed(pool: Pool, pages: set<nat>, frames: nat, entries: seq<Entry>, regions: seq<Region>) {
    && pool.live == {} && pool.pages == pages && PagesOf(pool.free) == pages && frames == |pages|
    && AllFed(pages, entries, |entries|, regions)
    && (Untouching(entries) ==> Coalesced(pool.free))
  }

  method FedBuddy(highest: nat, entries: seq<Entry>, tracker: RegionTracker, base: nat, ghost regions: seq<Region>)
    returns (buddy: BuddyAllocator, frames: nat, ghost pages: set<nat>)
    requires tracker.Valid() && tracker.Known() == regions && BaseAligned(base) && Disjoint(entries)
    requires 0x1_0000 <= highest <= 0x800_0000
    requires forall i :: 0 <= i < |entries| && entries[i].typ == 1 ==> End(entries[i]) <= highest
    ensures fresh(buddy) && fresh(buddy.bitmap) && buddy.Valid() && buddy.base == base
    ensures MapFed(buddy.pool, pages, frames, entries, regions)
  {
    BitmapReaches(entries, highest);
    buddy := EmptyBuddy(Map.BitmapSize(highest), base);
    frames, pages := FeedAll(buddy, tracker, entries, regions);
  }

  /** Places and zeroes the bitmap, reserves it, and feeds all other usable
      memory.  `None` is the panic when the bitmap finds no room or no slot. */
  method InitPhysicalMemory(highest: nat, bump: BumpAllocator, tracker: RegionTracker, physOffset: nat)
    returns (r: Option<BuddyAllocator>, frames: nat, at: Option<nat>, ghost pages: set<nat>, ghost regions: seq<Region>)
    requires tracker.Valid() && bump.tracker == tracker && BaseAligned(physOffset) && Disjoint(bump.memoryMap)
    requires 0x1_0000 <= highest <= 0x800_0000
    requires forall i :: 0 <= i < |bump.memoryMap| && bump.memoryMap[i].typ == 1 ==> End(bump.memoryMap[i]) <= highest
    modifies bump, tracker, tracker.regions
    ensures Placed(bump.memoryMap, old(tracker.Known()), old(bump.nextFreeFrame), highest, at, regions)
    ensures tracker.Valid() && tracker.Known() == regions && (r.Some? <==> at.Some?)
    ensures r.Some? ==>
      && r.value.Valid() && r.value.base == physOffset
      && MapFed(r.value.pool, pages, frames, bump.memoryMap, regions)
  {
    at := PlaceBitmap(highest, bump, tracker);
    regions, r, frames, pages := tracker.Known(), None, 0, {};
    if at.Some? {
      var buddy;
      buddy, frames, pages := FedBuddy(highest, bump.memoryMap, tracker, physOffset, regions);
      r := Some(buddy);
    }
  }
}
