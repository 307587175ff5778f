/**
  The binary buddy frame allocator: intrusive free lists, one parity bit per
  pair of buddies, splitting on allocation and coalescing on release.
 */
module BuddyAllocator {
  import opened Powers
  import opened Sequences
  import opened BuddyBlocks
  import opened BuddyGeometry
  import opened BuddyRuns
  import opened BuddyBitmap
  import opened BuddyCount
  import opened Options
  import FL = FreeList

  const MAX_ORDER: nat := 11

  /** List k holds exactly the addresses of the free blocks of order k. */
  ghost predicate Matches(base: nat, lists: seq<seq<nat>>, free: set<Block>) {
    && |lists| == MAX_ORDER
    && (forall b :: b in free ==> b.order < MAX_ORDER && Addr(base, b) in lists[b.order])
    && (forall k, a :: 0 <= k < MAX_ORDER && a in lists[k] ==>
          a >= base && BlockAt(base, a, k) in free && Addr(base, BlockAt(base, a, k)) == a)
  }

  function PairIndex(size: nat, b: Block): nat {
    b.index / 2 + Offset(size, b.order)
  }

  /** The pair of `b` has a bit in a bitmap of `size` bytes. */
  predicate HasBit(size: nat, b: Block) {
    b.order <= TOP_ORDER && b.index / 2 < Shr(size * 8, b.order + 1)
  }

  ghost predicate ParityAt(bytes: seq<bv8>, free: set<Block>, b: Block) {
    && PairIndex(|bytes|, b) < 8 * |bytes|
    && (Bit(bytes, PairIndex(|bytes|, b)) <==> (b in free) != (Buddy(b) in free))
  }

  /** Pair bits below the top order: set when exactly one buddy is free. */
  ghost predicate Parity(bytes: seq<bv8>, free: set<Block>) {
    forall b: Block :: HasBit(|bytes|, b) && b.order < TOP_ORDER ==> ParityAt(bytes, free, b)
  }

  ghost predicate InReach(size: nat, pages: set<nat>) {
    forall page :: page in pages ==> page < size * 8
  }

  // ----- parity under a toggle -----

  lemma PairInPart(size: nat, b: Block)
    requires WholePages(size) && HasBit(size, b)
    ensures Offset(size, b.order) <= PairIndex(size, b) < Offset(size, b.order + 1)
    ensures PairIndex(size, b) < size * 8
  {
    OffsetClosed(size, b.order + 1);
  }

  lemma PairInjective(size: nat, b: Block, c: Block)
    requires WholePages(size) && HasBit(size, b) && HasBit(size, c)
    requires PairIndex(size, b) == PairIndex(size, c)
    ensures c == b || c == Buddy(b)
  {
    PairInPart(size, b);
    PairInPart(size, c);
    if b.order < c.order {
      OffsetMonotone(size, b.order + 1, c.order);
    } else if c.order < b.order {
      OffsetMonotone(size, c.order + 1, b.order);
    }
  }

  /** `free'` differs from `free` in the one block `b`. */
  ghost predicate Flipped(free: set<Block>, free': set<Block>, b: Block) {
    (free' == free + {b} && b !in free) || (free' == free - {b} && b in free)
  }

  lemma FlippedPair(free: set<Block>, free': set<Block>, b: Block, c: Block)
    requires Flipped(free, free', b)
    ensures ((c in free') != (Buddy(c) in free'))
       == if c == b || c == Buddy(b) then (c in free) == (Buddy(c) in free) else (c in free) != (Buddy(c) in free)
  {
    assert Buddy(Buddy(c)) == c && Buddy(c) != c && Buddy(Buddy(b)) == b && Buddy(b) != b;
  }

  lemma ParityToggledAt(bytes: seq<bv8>, free: set<Block>, free': set<Block>, b: Block, c: Block)
    requires WholePages(|bytes|) && ParityAt(bytes, free, c) && Flipped(free, free', b)
    requires HasBit(|bytes|, b) && HasBit(|bytes|, c) && PairIndex(|bytes|, b) < 8 * |bytes|
    ensures ParityAt(Toggled(bytes, PairIndex(|bytes|, b)), free', c)
  {
    ToggledBits(bytes, PairIndex(|bytes|, b), PairIndex(|bytes|, c));
    FlippedPair(free, free', b, c);
    if PairIndex(|bytes|, b) == PairIndex(|bytes|, c) {
      PairInjective(|bytes|, b, c);
    }
  }

  /** Toggling a pair's bit keeps step with one of the two changing sides. */
  lemma ParityToggled(bytes: seq<bv8>, free: set<Block>, free': set<Block>, b: Block)
    requires WholePages(|bytes|) && Parity(bytes, free) && Flipped(free, free', b) && HasBit(|bytes|, b)
    ensures PairIndex(|bytes|, b) < 8 * |bytes|
    ensures Parity(Toggled(bytes, PairIndex(|bytes|, b)), free')
  {
    PairInPart(|bytes|, b);
    var t := Toggled(bytes, PairIndex(|bytes|, b));
    forall c: Block | HasBit(|t|, c) && c.order < TOP_ORDER ensures ParityAt(t, free', c) {
      assert ParityAt(bytes, free, c);
      ParityToggledAt(bytes, free, free', b, c);
    }
  }

  /** Top-order membership is not tracked by any bit that is ever consulted. */
  lemma ParityTop(bytes: seq<bv8>, free: set<Block>, free': set<Block>, b: Block)
    requires Parity(bytes, free) && Flipped(free, free', b) && b.order == TOP_ORDER
    ensures Parity(bytes, free')
  {
    forall c: Block | HasBit(|bytes|, c) && c.order < TOP_ORDER ensures ParityAt(bytes, free', c) {
      assert ParityAt(bytes, free, c);
    }
  }

  /** Pages within reach have their pair bits inside the bitmap. */
  lemma PairInReach(size: nat, b: Block)
    requires WholePages(size) && b.order <= TOP_ORDER && First(b) < size * 8
    ensures HasBit(size, b)
  {
    ShrBits(size, b.order + 1);
    ShrBelow(First(b), size * 8, b.order + 1, Shr(size * 8, b.order + 1));
    CoversFirst(b);
  }

  // ----- lists under a push and a removal -----

  /** An address that is not on any list: its block is disjoint from all free ones. */
  lemma NotListed(base: nat, lists: seq<seq<nat>>, free: set<Block>, b: Block)
    requires Matches(base, lists, free) && b !in free && Apart(free + {b})
    ensures !FL.Listed(lists, Addr(base, b))
  {
    forall k | 0 <= k < |lists| ensures Addr(base, b) !in lists[k] {
      if Addr(base, b) in lists[k] {
        var c := BlockAt(base, Addr(base, b), k);
        SameAddr(base, b, c);
      }
    }
  }

  lemma MatchesPush(base: nat, lists: seq<seq<nat>>, free: set<Block>, b: Block)
    requires Matches(base, lists, free) && b.order < MAX_ORDER
    ensures Matches(base, lists[b.order := [Addr(base, b)] + lists[b.order]], free + {b})
  {
    BlockAtAddr(base, b);
  }

  lemma MatchesRemove(base: nat, lists: seq<seq<nat>>, free: set<Block>, b: Block, i: nat)
    requires Matches(base, lists, free) && b.order < MAX_ORDER
    requires i < |lists[b.order]| && lists[b.order][i] == Addr(base, b) && NoDup(lists[b.order])
    ensures b in free
    ensures Matches(base, lists[b.order := FL.Without(lists[b.order], i)], free - {b})
  {
    var k, s := b.order, lists[b.order];
    var lists' := lists[k := FL.Without(s, i)];
    BlockAtAddr(base, b);
    forall c | c in free - {b} ensures c.order < MAX_ORDER && Addr(base, c) in lists'[c.order] {
      if c.order == k {
        if Addr(base, c) == Addr(base, b) {
          SameAddr(base, b, c);
        }
        FL.WithoutMembers(s, i, Addr(base, c));
      }
    }
    forall j, a | 0 <= j < MAX_ORDER && a in lists'[j]
      ensures a >= base && BlockAt(base, a, j) in free - {b} && Addr(base, BlockAt(base, a, j)) == a
    {
      if j == k {
        FL.WithoutMembers(s, i, a);
      }
    }
  }

  class BuddyAllocator {
    const base: nat
    const bitmap: array<bv8>
    var freeList: seq<nat>
    var mem: FL.Memory
    ghost var lists: seq<seq<nat>>
    ghost var pool: Pool

    /** Lists and sets agree, and the sets tile the memory fed in. */
    ghost predicate Consistent()
      reads this
    {
      && BaseAligned(base) && WholePages(bitmap.Length)
      && FL.Lists(mem, freeList, lists) && Matches(base, lists, pool.free)
      && Inv(pool) && InReach(bitmap.Length, pool.pages)
    }

    ghost predicate Valid()
      reads this, bitmap
    {
      Consistent() && Parity(bitmap[..], pool.free)
    }

    /** new, over a zeroed bitmap. */
    constructor (bitmap: array<bv8>, base: nat)
      requires BaseAligned(base) && WholePages(bitmap.Length)
      requires forall i :: 0 <= i < bitmap.Length ==> bitmap[i] == 0
      ensures Valid() && pool == Pool({}, {}, {})
      ensures this.bitmap == bitmap && this.base == base
    {
      this.base, this.bitmap := base, bitmap;
      freeList := seq(MAX_ORDER, _ => FL.NULL);
      mem := map[];
      lists := seq(MAX_ORDER, _ => []);
      pool := Pool({}, {}, {});
      new;
      forall b: Block | HasBit(bitmap.Length, b) && b.order < TOP_ORDER ensures ParityAt(bitmap[..], {}, b) {
        PairInPart(bitmap.Length, b);
      }
    }

    // ----- primitives -----

    /** push_block. */
    method PushBlock(order: nat, block: nat)
      requires FL.Lists(mem, freeList, lists) && order < |lists|
      requires block != FL.NULL && !FL.Listed(lists, block)
      modifies this`freeList, this`mem, this`lists
      ensures FL.Lists(mem, freeList, lists)
      ensures lists == old(lists)[order := [block] + old(lists)[order]]
    {
      FL.PushLists(mem, freeList, lists, order, block);
      var head := freeList[order];
      FL.ChainCells(mem, head, lists[order]);
      assert head != FL.NULL ==> head in lists[order];
      mem := mem[block := FL.FreeBlock(head, FL.NULL)];
      if head != FL.NULL {
        mem := mem[head := mem[head].(prev := block)];
      }
      freeList := freeList[order := block];
      lists := lists[order := [block] + lists[order]];
    }

    /** remove_block. */
    method RemoveBlock(order: nat, block: nat) returns (ghost i: nat)
      requires FL.Lists(mem, freeList, lists) && order < |lists| && block in lists[order]
      modifies this`freeList, this`mem, this`lists
      ensures FL.Lists(mem, freeList, lists)
      ensures i < |old(lists)[order]| && old(lists)[order][i] == block
      ensures lists == old(lists)[order := FL.Without(old(lists)[order], i)]
    {
      i :| 0 <= i < |lists[order]| && lists[order][i] == block;
      FL.UnlinkLists(mem, freeList, lists, order, i);
      FL.ChainCells(mem, freeList[order], lists[order]);
      assert FL.Linked(mem, lists[order], i);
      assert mem[block].prev == FL.NULL <==> i == 0;
      var next, prev := mem[block].next, mem[block].prev;
      if prev != FL.NULL {
        mem := mem[prev := mem[prev].(next := next)];
      } else {
        freeList := freeList[order := next];
      }
      if next != FL.NULL {
        mem := mem[next := mem[next].(prev := prev)];
      }
      lists := lists[order := FL.Without(lists[order], i)];
    }

    method WriteByte(i: nat, byte: bv8)
      requires i < bitmap.Length
      modifies bitmap
      ensures bitmap[..] == old(bitmap[..])[i := byte]
    {
      bitmap[i] := byte;
    }

    /** The byte access at the end of toggle_bit. */
    method FlipByte(bitIndex: nat) returns (clear: bool)
      requires bitIndex < 8 * bitmap.Length
      modifies bitmap
      ensures bitmap[..] == Toggled(old(bitmap[..]), bitIndex)
      ensures clear <==> !Bit(bitmap[..], bitIndex)
    {
      var byte := FlipIn(bitmap[bitIndex / 8], bitIndex % 8);
      WriteByte(bitIndex / 8, byte);
      clear := !BitOf(byte, bitIndex % 8);
    }

    /** Where the part of an order starts in the bitmap. */
    method PartOffset(order: nat) returns (offset: nat)
      ensures offset == Offset(bitmap.Length, order)
    {
      offset := 0;
      for i := 0 to order
        invariant offset == Offset(bitmap.Length, i)
      {
        offset := offset + Shr(bitmap.Length * 8, i + 1);
      }
    }

    /** toggle_bit: true when the pair's bit is now clear.  The panic on an
        index outside the bitmap is unreachable. */
    method ToggleBit(order: nat, addr: nat, ghost b: Block) returns (clear: bool)
      requires WholePages(bitmap.Length) && HasBit(bitmap.Length, b)
      requires b.order == order && addr == Addr(base, b)
      modifies bitmap
      ensures PairIndex(bitmap.Length, b) < 8 * bitmap.Length
      ensures bitmap[..] == Toggled(old(bitmap[..]), PairIndex(bitmap.Length, b))
      ensures clear <==> !Bit(bitmap[..], PairIndex(bitmap.Length, b))
    {
      PairOfAddr(base, b);
      PairInPart(bitmap.Length, b);
      var phys := if addr < base then 0 else addr - base;
      var bitIndex := Shr(phys, 12 + order + 1);
      var offset := PartOffset(order);
      clear := FlipByte(bitIndex + offset);
    }

    // ----- allocation -----

    lemma LiveOrFreeHasBit(b: Block)
      requires Consistent() && b in pool.free + pool.live
      ensures HasBit(bitmap.Length, b)
    {
      CoversFirst(b);
      PairInReach(bitmap.Length, b);
    }

    /** Unlinks the head of a list and toggles its bit. */
    method PopHead(order: nat) returns (block: nat, ghost b: Block)
      requires Valid() && order < MAX_ORDER && freeList[order] != FL.NULL
      modifies this`freeList, this`mem, this`lists, this`pool, bitmap
      ensures Valid()
      ensures b in old(pool.free) && b.order == order && block == Addr(base, b)
      ensures pool == Take(old(pool), b)
    {
      block := freeList[order];
      assert FL.Chain(mem, block, lists[order]) && block in lists[order];
      b := BlockAt(base, block, order);
      LiveOrFreeHasBit(b);
      ghost var lists0 := lists;
      ghost var i := RemoveBlock(order, block);
      MatchesRemove(base, lists0, pool.free, b, i);
      ParityToggled(bitmap[..], pool.free, pool.free - {b}, b);
      var _ := ToggleBit(order, block, b);
      TakeKeeps(pool, b);
      pool := Take(pool, b);
    }

    /** Puts a block on its list; the ghost state moves to `next`. */
    method PushFree(order: nat, addr: nat, ghost b: Block, ghost next: Pool)
      requires Consistent() && Inv(next) && InReach(bitmap.Length, next.pages)
      requires b !in pool.free && next.free == pool.free + {b}
      requires b.order == order && addr == Addr(base, b)
      modifies this`freeList, this`mem, this`lists, this`pool
      ensures Consistent() && pool == next
    {
      assert b in next.free + next.live && Apart(next.free);
      NotListed(base, lists, pool.free, b);
      MatchesPush(base, lists, pool.free, b);
      PushBlock(order, addr);
      pool := next;
    }

    /** push_block followed by toggle_bit. */
    method PushToggle(order: nat, addr: nat, ghost b: Block, ghost next: Pool)
      requires Valid() && Inv(next) && InReach(bitmap.Length, next.pages)
      requires b !in pool.free && next.free == pool.free + {b}
      requires b.order == order && addr == Addr(base, b)
      modifies this`freeList, this`mem, this`lists, this`pool, bitmap
      ensures Valid() && pool == next
    {
      PushFree(order, addr, b, next);
      LiveOrFreeHasBit(b);
      ParityToggled(bitmap[..], old(pool.free), pool.free, b);
      var _ := ToggleBit(order, addr, b);
    }

    /** One round of splitting: the upper half goes to the list below. */
    method SplitOnce(block: nat, order: nat, ghost b: Block)
      requires Valid() && b in pool.live && b.order == order + 1 && block == Addr(base, b)
      modifies this`freeList, this`mem, this`lists, this`pool, bitmap
      ensures Valid() && pool == Split(old(pool), b) && block == Addr(base, LeftHalf(b))
    {
      var half := Pow2(12 + order);
      var buddyAddr := block + half;
      FirstOfHalves(b);
      Pow2Pages(order);
      SplitKeeps(pool, b);
      PushToggle(order, buddyAddr, RightHalf(b), Split(pool, b));
    }

    /** alloc.  A block comes from the lowest order that has one; its left end
        is returned and the other halves stay free. */
    method Alloc(order: nat) returns (r: Option<nat>, ghost d: Block)
      requires Valid()
      modifies this`freeList, this`mem, this`lists, this`pool, bitmap
      ensures Valid()
      ensures var k := if order < 10 then order else 10;
        if r.None? then pool == old(pool) && forall c :: c in pool.free ==> c.order < k
        else
          && d in old(pool.free) && d.order >= k
          && (forall c :: c in old(pool.free) && c.order >= k ==> d.order <= c.order)
          && pool == Carve(Take(old(pool), d), d, k) && r.value == Addr(base, LeftEnd(d, k)) == base + 4096 * First(d)
    {
      var k := if order < TOP_ORDER then order else TOP_ORDER;
      var ord := k;
      d := Block(0, 0);
      while ord < MAX_ORDER && freeList[ord] == FL.NULL
        invariant k <= ord <= MAX_ORDER
        invariant forall c :: c in pool.free && c.order >= k ==> ord <= c.order
      {
        assert FL.Chain(mem, freeList[ord], lists[ord]);
        ord := ord + 1;
      }
      if ord == MAX_ORDER {
        return None, d;
      }
      var block;
      block, d := PopHead(ord);
      ghost var b, popped := d, pool;
      while ord > k
        invariant Valid() && b in pool.live && b.order == ord >= k && block == Addr(base, b)
        invariant Carve(popped, d, k) == Carve(pool, b, k) && LeftEnd(d, k) == LeftEnd(b, k)
      {
        ord := ord - 1;
        SplitOnce(block, ord, b);
        b := LeftHalf(b);
      }
      r := Some(block);
      LeftEndFirst(d, k);
    }

    // ----- release -----

    /** The toggled bit tells whether the buddy of a live block is free. */
    method ToggleLive(order: nat, addr: nat, ghost b: Block) returns (buddyIsFree: bool)
      requires Valid() && b in pool.live && b.order == order < TOP_ORDER && addr == Addr(base, b)
      modifies bitmap
      ensures Consistent() && (buddyIsFree <==> Buddy(b) in pool.free)
      ensures if buddyIsFree then Parity(bitmap[..], pool.free - {Buddy(b)})
              else Parity(bitmap[..], pool.free + {b})
    {
      LiveOrFreeHasBit(b);
      ghost var bytes := bitmap[..];
      assert ParityAt(bytes, pool.free, b);
      assert PairIndex(|bytes|, Buddy(b)) == PairIndex(|bytes|, b);
      if Buddy(b) in pool.free {
        ParityToggled(bytes, pool.free, pool.free - {Buddy(b)}, Buddy(b));
      } else {
        ParityToggled(bytes, pool.free, pool.free + {b}, b);
      }
      ToggledBits(bytes, PairIndex(|bytes|, b), PairIndex(|bytes|, b));
      buddyIsFree := ToggleBit(order, addr, b);
    }

    /** Unlinks the free buddy of a live block and merges the two. */
    method MergeBuddy(order: nat, addr: nat, ghost b: Block) returns (merged: nat)
      requires Consistent() && b in pool.live && b.order == order < TOP_ORDER && addr == Addr(base, b)
      requires Buddy(b) in pool.free && Parity(bitmap[..], pool.free - {Buddy(b)})
      modifies this`freeList, this`mem, this`lists, this`pool
      ensures Valid() && pool == Merge(old(pool), b) && merged == Addr(base, Parent(b))
    {
      BuddyAddr(base, b);
      MergeKeeps(pool, b);
      var buddyAddr := FlipBit(addr, 12 + order);
      ghost var lists0 := lists;
      ghost var i := RemoveBlock(order, buddyAddr);
      MatchesRemove(base, lists0, pool.free, Buddy(b), i);
      pool := Merge(pool, b);
      merged := ClearBit(addr, 12 + order);
    }

    /** free.  The low twelve address bits are ignored; the order is capped. */
    method Free(addr: nat, order: nat, ghost b: Block)
      requires Valid() && b in pool.live
      requires b.order == if order < 10 then order else 10
      requires Addr(base, b) == addr - addr % 4096
      modifies this`freeList, this`mem, this`lists, this`pool, bitmap
      ensures Valid() && pool == Absorb(old(pool), b)
    {
      var a := addr - addr % 4096;
      var k := if order < TOP_ORDER then order else TOP_ORDER;
      ghost var c := b;
      while k < TOP_ORDER
        invariant Valid() && c in pool.live && c.order == k <= TOP_ORDER && a == Addr(base, c)
        invariant Absorb(pool, c) == Absorb(old(pool), b)
      {
        var buddyIsFree := ToggleLive(k, a, c);
        if buddyIsFree {
          a := MergeBuddy(k, a, c);
          c := Parent(c);
          k := k + 1;
        } else {
          GiveKeeps(pool, c);
          PushFree(k, a, c, Give(pool, c));
          return;
        }
      }
      GiveKeeps(pool, c);
      ParityTop(bitmap[..], pool.free, pool.free + {c}, c);
      PushFree(k, a, c, Give(pool, c));
    }

    // ----- feeding -----

    /** Carves one block off the front of what is left of a region. */
    method FeedBlock(start: nat, end: nat, ghost page: nat, ghost lo: nat, ghost hi: nat, ghost pieces: set<Block>)
      returns (next: nat, ghost b: Block)
      requires Valid() && start == base + 4096 * page && end == base + 4096 * hi
      requires lo <= page < hi <= bitmap.Length * 8 && pool.pages !! Range(page, hi)
      requires Cutting(pieces, lo, page, hi)
      modifies this`freeList, this`mem, this`lists, this`pool, bitmap
      ensures Valid() && pool == Feed(old(pool), b) && FitsCut(pieces, b, lo, page, hi)
      ensures next == base + 4096 * (page + Pow2(b.order))
    {
      var order := CarveOrder(start, (end - start) / 4096);
      b := Block(order, Shr(page, order));
      FeedFacts(bitmap.Length, pool, base, pieces, lo, page, hi);
      PushToggle(order, start, b, Feed(pool, b));
      Pow2Pages(order);
      next := start + Pow2(12 + order);
    }

    method FeedNext(start: nat, end: nat, ghost page: nat, ghost lo: nat, ghost hi: nat,
                    ghost pieces: set<Block>, ghost before: Pool)
      returns (next: nat, ghost page': nat, ghost pieces': set<Block>)
      requires Valid() && start == base + 4096 * page && end == base + 4096 * hi
      requires lo <= page < hi <= bitmap.Length * 8 && before.pages !! Range(lo, hi)
      requires Cutting(pieces, lo, page, hi) && pool == Grow(before, pieces, lo, page)
      modifies this`freeList, this`mem, this`lists, this`pool, bitmap
      ensures Valid() && page < page' <= hi && next == base + 4096 * page'
      ensures Cutting(pieces', lo, page', hi) && pool == Grow(before, pieces', lo, page')
    {
      GrowApart(before, pieces, lo, page, hi);
      ghost var b;
      next, b := FeedBlock(start, end, page, lo, hi, pieces);
      GrowNext(before, pieces, lo, page, b);
      page', pieces' := page + Pow2(b.order), pieces + {b};
    }

    /** add_free_region, for page-aligned bounds over memory not fed in before:
        the region is cut into the largest possible blocks, and all of them
        become free. */
    method AddFreeRegion(start: nat, end: nat, ghost lo: nat, ghost hi: nat) returns (ghost pieces: set<Block>)
      requires Valid() && start == base + 4096 * lo && end == base + 4096 * hi
      requires hi <= bitmap.Length * 8 && pool.pages !! Range(lo, hi)
      modifies this`freeList, this`mem, this`lists, this`pool, bitmap
      ensures Valid() && Cut(pieces, lo, hi) && pool == Grow(old(pool), pieces, lo, hi)
      ensures Coalesced(pool.free) <==> Coalesced(old(pool.free)) && Clean(old(pool.free), pieces)
      ensures Coalesced(old(pool.free)) && Island(old(pool), lo, hi) ==> Coalesced(pool.free)
    {
      pieces := {};
      var s := start;
      ghost var page := lo;
      CuttingStart(lo, hi);
      GrowNothing(pool, lo);
      while s < end
        invariant Valid() && s == base + 4096 * page && lo <= page && (page <= hi || page == lo)
        invariant Cutting(pieces, lo, page, hi) && pool == Grow(old(pool), pieces, lo, page)
        decreases hi - page
      {
        s, page, pieces := FeedNext(s, end, page, lo, hi, pieces, old(pool));
      }
      RegionDone(old(pool), pieces, lo, page, hi);
    }

    // ----- counting -----

    /** The walk over one list. */
    method CountList(order: nat) returns (count: nat)
      requires Valid() && order < MAX_ORDER
      ensures count == |lists[order]|
    {
      ghost var s := lists[order];
      assert FL.Chain(mem, freeList[order], s);
      var curr := freeList[order];
      count := 0;
      while curr != FL.NULL
        invariant count <= |s| && curr == FL.At(s, count)
        decreases |s| - count
      {
        assert FL.Linked(mem, s, count);
        curr := mem[curr].next;
        count := count + 1;
      }
    }

    /** count_free_memory: the bytes of all pages in free blocks. */
    method CountFreeMemory() returns (total: nat)
      requires Valid()
      ensures total == 4096 * |PagesOf(pool.free)|
    {
      total := 0;
      ghost var seen: set<Block> := {};
      for order := 0 to MAX_ORDER
        invariant total == 4096 * |PagesOf(seen)|
        invariant forall b :: b in seen <==> b in pool.free && b.order < order
      {
        var count := CountList(order);
        assert FL.Chain(mem, freeList[order], lists[order]);
        seen := CountWhole(base, lists, pool.free, seen, order);
        CountBytes(count, Pow2(order));
        total := total + count * (4096 * Pow2(order));
      }
      assert seen == pool.free;
    }
  }

  /** `seen` holds the free blocks below order `k` and those of the first `i` entries of list `k`. */
  ghost predicate Counted(base: nat, s: seq<nat>, free: set<Block>, seen: set<Block>, k: nat, i: nat)
    requires i <= |s|
  {
    forall b :: b in seen <==> b in free && (b.order < k || (b.order == k && Addr(base, b) in s[..i]))
  }

  lemma CountBytes(count: nat, p: nat)
    ensures count * (4096 * p) == 4096 * (count * p)
  {
  }

  lemma CountNext(base: nat, lists: seq<seq<nat>>, free: set<Block>, seen: set<Block>, k: nat, i: nat)
    returns (seen': set<Block>)
    requires Matches(base, lists, free) && Apart(free) && k < MAX_ORDER && NoDup(lists[k])
    requires i < |lists[k]| && Counted(base, lists[k], free, seen, k, i)
    ensures Counted(base, lists[k], free, seen', k, i + 1)
    ensures |PagesOf(seen')| == |PagesOf(seen)| + Pow2(k)
  {
    var s := lists[k];
    var a := s[i];
    assert a in s;
    var b := BlockAt(base, a, k);
    seen' := seen + {b};
    assert s[..i + 1] == s[..i] + [a];
    forall c | c in free && c.order == k && Addr(base, c) == a ensures c == b {
      SameAddr(base, b, c);
    }
    AddBlock(seen, b);
  }

  lemma CountWhole(base: nat, lists: seq<seq<nat>>, free: set<Block>, seen: set<Block>, k: nat)
    returns (seen': set<Block>)
    requires Matches(base, lists, free) && Apart(free) && k < MAX_ORDER && NoDup(lists[k])
    requires forall b :: b in seen <==> b in free && b.order < k
    ensures forall b :: b in seen' <==> b in free && b.order < k + 1
    ensures |PagesOf(seen')| == |PagesOf(seen)| + |lists[k]| * Pow2(k)
  {
    seen' := seen;
    var i, p := 0, Pow2(k);
    while i < |lists[k]|
      invariant i <= |lists[k]| && Counted(base, lists[k], free, seen', k, i)
      invariant |PagesOf(seen')| == |PagesOf(seen)| + i * p
    {
      seen' := CountNext(base, lists, free, seen', k, i);
      ScaleSum(i, 1, p);
      i := i + 1;
    }
    assert lists[k][..i] == lists[k];
  }

  /** The block is the next piece of the region. */
  ghost predicate FitsCut(pieces: set<Block>, b: Block, lo: nat, page: nat, hi: nat) {
    && b.order <= TOP_ORDER && First(b) == page && page < page + Pow2(b.order) <= hi
    && Cutting(pieces + {b}, lo, page + Pow2(b.order), hi)
  }

  /** Everything about the block that add_free_region carves at `page`. */
  lemma FeedFacts(size: nat, s: Pool, base: nat, pieces: set<Block>, lo: nat, page: nat, hi: nat)
    requires Inv(s) && BaseAligned(base) && page < hi <= size * 8 && s.pages !! Range(page, hi)
    requires InReach(size, s.pages) && Cutting(pieces, lo, page, hi)
    ensures var b := Carved(base, page, hi);
      && FitsCut(pieces, b, lo, page, hi) && Inv(Feed(s, b)) && b !in s.free + s.live && InReach(size, Feed(s, b).pages)
  {
    CuttingNext(base, pieces, lo, page, hi);
    FeedKeeps(s, Carved(base, page, hi));
  }

  /** The loop leaves at or behind the end of the region. */
  lemma RegionDone(s: Pool, pieces: set<Block>, lo: nat, page: nat, hi: nat)
    requires Inv(s) && s.pages !! Range(lo, hi)
    requires Cutting(pieces, lo, page, hi) && page >= hi && (page <= hi || page == lo)
    ensures Cut(pieces, lo, hi) && Grow(s, pieces, lo, page) == Grow(s, pieces, lo, hi)
    ensures Coalesced(Grow(s, pieces, lo, hi).free) <==> Coalesced(s.free) && Clean(s.free, pieces)
    ensures Coalesced(s.free) && Island(s, lo, hi) ==> Coalesced(Grow(s, pieces, lo, hi).free)
  {
    assert Range(lo, page) == Range(lo, hi);
    GrowKeeps(s, pieces, lo, hi);
    if Island(s, lo, hi) {
      IslandClean(s, pieces, lo, hi);
    }
  }
}
