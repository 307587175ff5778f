/**
  Where buddy blocks lie in memory: block (k, i) starts 4096 * i * 2^k bytes
  above the base address.  The base is a multiple of twice the largest block,
  so address bits tell buddies apart.
 */
module BuddyGeometry {
  import opened Powers
  import opened BuddyBlocks

  /** The first page of a block. */
  function First(b: Block): nat {
    b.index * Pow2(b.order)
  }

  function Addr(base: nat, b: Block): nat {
    base + 4096 * First(b)
  }

  /** The order-`k` block at address `a`. */
  function BlockAt(base: nat, a: nat, k: nat): Block
    requires a >= base
  {
    Block(k, Shr((a - base) / 4096, k))
  }

  predicate BaseAligned(base: nat) {
    base > 0 && base % 0x80_0000 == 0
  }

  lemma CoversRange(b: Block, page: nat)
    ensures Covers(b, page) <==> First(b) <= page < First(b) + Pow2(b.order)
  {
    ShrRange(page, b.order);
    var p, q := Pow2(b.order), Shr(page, b.order);
    if q < b.index {
      ScaleMonotone(q + 1, b.index, p);
    } else if q > b.index {
      ScaleMonotone(b.index + 1, q, p);
    }
    assert (b.index + 1) * p == First(b) + p;
  }

  lemma CoversFirst(b: Block)
    ensures Covers(b, First(b)) && First(b) + Pow2(b.order) > First(b)
  {
    Pow2Monotone(0, b.order);
    CoversRange(b, First(b));
  }

  lemma BlockAtAddr(base: nat, b: Block)
    ensures BlockAt(base, Addr(base, b), b.order) == b
  {
    CoversFirst(b);
  }

  /** Disjoint blocks have different addresses. */
  lemma SameAddr(base: nat, b: Block, c: Block)
    requires Addr(base, b) == Addr(base, c)
    ensures Covers(b, First(b)) && Covers(c, First(b))
    ensures b.order == c.order ==> b == c
  {
    CoversFirst(b);
    CoversFirst(c);
  }

  lemma FirstOfHalves(b: Block)
    requires b.order > 0
    ensures First(LeftHalf(b)) == First(b)
    ensures First(RightHalf(b)) == First(b) + Pow2(b.order - 1)
  {
    var p := Pow2(b.order - 1);
    assert (2 * b.index) * p == b.index * (2 * p);
    assert (2 * b.index + 1) * p == (2 * b.index) * p + p;
  }

  /** The left end of a block starts where the block starts. */
  lemma {:induction false} LeftEndFirst(b: Block, k: nat)
    requires k <= b.order
    ensures First(LeftEnd(b, k)) == First(b) && LeftEnd(b, k).order == k
    decreases b.order
  {
    if k < b.order {
      FirstOfHalves(b);
      LeftEndFirst(LeftHalf(b), k);
    }
  }

  // ----- bit tricks on addresses -----

  lemma OddShr(a: nat, n: nat)
    requires Shr(a, n) > 0
    ensures a >= Pow2(n)
  {
    ShrRange(a, n);
    ScaleMonotone(1, Shr(a, n), Pow2(n));
  }

  /** a ^ (1 << n) */
  function FlipBit(a: nat, n: nat): nat {
    if Shr(a, n) % 2 == 0 then a + Pow2(n) else OddShr(a, n); a - Pow2(n)
  }

  /** a & !(1 << n) */
  function ClearBit(a: nat, n: nat): nat {
    if Shr(a, n) % 2 == 0 then a else OddShr(a, n); a - Pow2(n)
  }

  lemma EvenScale(n: nat, j: nat)
    requires j > 0
    ensures n * Pow2(j) % 2 == 0
  {
    ScaleDouble(n, Pow2(j - 1));
  }

  lemma SumParity(e: nat, x: nat)
    requires e % 2 == 0
    ensures (e + x) % 2 == x % 2
  {
  }

  lemma ShrPlaced(n: nat, b: Block)
    requires b.order <= TOP_ORDER
    ensures Shr(n * 2048 + First(b), b.order) % 2 == b.index % 2
  {
    var k := b.order;
    Constants();
    ShrMultiple(n, 11, First(b), k);
    CoversFirst(b);
    EvenScale(n, 11 - k);
    SumParity(n * Pow2(11 - k), b.index);
  }

  lemma ShrAddr(base: nat, b: Block)
    requires BaseAligned(base) && b.order <= TOP_ORDER
    ensures Shr(Addr(base, b), 12 + b.order) % 2 == b.index % 2
  {
    var page := (base / 0x80_0000) * 2048 + First(b);
    assert Addr(base, b) == 4096 * page;
    ShrPages(page);
    ShrShr(4096 * page, 12, b.order);
    ShrPlaced(base / 0x80_0000, b);
  }

  /** addr ^ size is the buddy's address, addr & !size the merged block's. */
  lemma BuddyAddr(base: nat, b: Block)
    requires BaseAligned(base) && b.order < TOP_ORDER
    ensures FlipBit(Addr(base, b), 12 + b.order) == Addr(base, Buddy(b))
    ensures ClearBit(Addr(base, b), 12 + b.order) == Addr(base, Parent(b))
  {
    ShrAddr(base, b);
    Pow2Pages(b.order);
    FirstOfHalves(Parent(b));
  }

  /** The bitmap's pair number of a block, computed from its address. */
  lemma PairOfAddr(base: nat, b: Block)
    ensures Shr(Addr(base, b) - base, 12 + b.order + 1) == b.index / 2
  {
    ShrPages(First(b));
    ShrShr(4096 * First(b), 12, b.order);
    CoversFirst(b);
  }

  // ----- feeding memory -----

  predicate Between(lo: nat, page: nat, hi: nat) {
    lo <= page < hi
  }

  function Range(lo: nat, hi: nat): (r: set<nat>)
    ensures forall page: nat :: page in r <==> Between(lo, page, hi)
  {
    set page: nat | page < hi && Between(lo, page, hi)
  }

  lemma RangeJoin(lo: nat, mid: nat, hi: nat)
    requires lo <= mid <= hi
    ensures Range(lo, mid) + Range(mid, hi) == Range(lo, hi)
  {
  }

  function Feed(s: Pool, b: Block): Pool {
    Pool(s.free + {b}, s.live, s.pages + Range(First(b), First(b) + Pow2(b.order)))
  }

  lemma FeedKeeps(s: Pool, b: Block)
    requires Inv(s) && b.order <= TOP_ORDER && s.pages !! Range(First(b), First(b) + Pow2(b.order))
    ensures Inv(Feed(s, b)) && b !in s.free + s.live
  {
    var s' := Feed(s, b);
    forall page ensures Covers(b, page) <==> page in Range(First(b), First(b) + Pow2(b.order)) {
      CoversRange(b, page);
    }
    CoversFirst(b);
    assert First(b) in Range(First(b), First(b) + Pow2(b.order));
    forall page | page in s'.pages ensures Covered(s'.free + s'.live, page) {
      if page in s.pages {
        assert Covered(s.free + s.live, page);
      } else {
        assert b in s'.free + s'.live && Covers(b, page);
      }
    }
  }

  /** The largest f with 2^f <= n. */
  function FloorLog2(n: nat): nat
    requires n > 0
  {
    if n == 1 then 0 else 1 + FloorLog2(n / 2)
  }

  lemma {:induction false} FloorLog2Range(n: nat)
    requires n > 0
    ensures Pow2(FloorLog2(n)) <= n < Pow2(FloorLog2(n) + 1)
  {
    if n > 1 {
      FloorLog2Range(n / 2);
    }
  }

  function TrailingZeros(n: nat): nat
    requires n > 0
  {
    if n % 2 == 1 then 0 else 1 + TrailingZeros(n / 2)
  }

  lemma {:induction false} TrailingZerosShr(n: nat, k: nat)
    requires n > 0 && k <= TrailingZeros(n)
    ensures Aligned(n, k)
    ensures k == TrailingZeros(n) <==> Shr(n, k) % 2 == 1
  {
    if k > 0 {
      TrailingZerosShr(n / 2, k - 1);
      ShrHalf(n, k - 1);
      ScaleDouble(Shr(n / 2, k - 1), Pow2(k - 1));
    }
  }

  /** The order add_free_region picks for a block at `start` with `pages` left. */
  function CarveOrder(start: nat, pages: nat): nat
    requires pages > 0
  {
    var fit := FloorLog2(pages);
    var align := if start == 0 then 10 else if TrailingZeros(start) < 12 then 0 else TrailingZeros(start) - 12;
    var least := if fit < align then fit else align;
    if least < 10 then least else 10
  }

  /** Alignment of an address above the base is alignment of its page. */
  lemma PageAligned(n: nat, page: nat, k: nat)
    requires k <= TOP_ORDER
    ensures Aligned(n * 2048 + page, k) <==> Aligned(page, k)
    ensures Shr(n * 2048 + page, k) % 2 == Shr(page, k) % 2
  {
    Constants();
    ShrMultiple(n, 11, page, k);
    var x, y := n * Pow2(11 - k), Shr(page, k);
    ScaleSum(x, y, Pow2(k));
    Pow2Add(11 - k, k);
    ScaleAssoc(n, Pow2(11 - k), Pow2(k));
    EvenScale(n, 11 - k);
    SumParity(x, y);
  }

  lemma AddrAligned(n: nat, k: nat)
    ensures Aligned(4096 * n, 12 + k) <==> Aligned(n, k)
    ensures Shr(4096 * n, 12 + k) == Shr(n, k)
  {
    ShrPages(n);
    ShrShr(4096 * n, 12, k);
    Pow2Pages(k);
    var q := Shr(n, k);
    assert q * (4096 * Pow2(k)) == 4096 * (q * Pow2(k));
  }

  /** The carved block starts at `start`, fits, and cannot be doubled. */
  lemma CarveBlock(base: nat, page: nat, pages: nat)
    requires BaseAligned(base) && pages > 0
    ensures var k := CarveOrder(base + 4096 * page, pages);
      var b := Block(k, Shr(page, k));
      && k <= TOP_ORDER && First(b) == page && Pow2(k) <= pages
      && (k == TOP_ORDER || b.index % 2 == 1 || pages < Pow2(k + 1))
  {
    var start, fit := base + 4096 * page, FloorLog2(pages);
    var k := CarveOrder(start, pages);
    var n := base / 0x80_0000;
    assert start == 4096 * (n * 2048 + page) && start % 4096 == 0;
    FloorLog2Range(pages);
    Pow2Monotone(k, fit);
    Constants();
    ScaledZeros(12, n * 2048 + page);
    TrailingZerosShr(start, 12 + k);
    AddrAligned(n * 2048 + page, k);
    PageAligned(n, page, k);
  }

  lemma {:induction false} ScaledZeros(k: nat, n: nat)
    requires n > 0
    ensures Pow2(k) * n > 0 && TrailingZeros(Pow2(k) * n) == k + TrailingZeros(n)
  {
    if k > 0 {
      ScaledZeros(k - 1, n);
      ScaleAssoc(2, Pow2(k - 1), n);
      DoubleZeros(Pow2(k - 1) * n);
    }
  }

  lemma DoubleZeros(n: nat)
    requires n > 0
    ensures TrailingZeros(2 * n) == 1 + TrailingZeros(n)
  {
  }

  // ----- feeding keeps the free blocks coalesced -----

  /** Blocks carved from the region [lo, hi) so far, up to `page`, could not
      have been larger. */
  ghost predicate Greedy(free: set<Block>, lo: nat, page: nat, hi: nat) {
    forall c :: c in free && lo <= First(c) < page ==>
      c.order == TOP_ORDER || c.index % 2 == 1 || First(c) + Pow2(c.order + 1) > hi
  }

  lemma BuddyFirst(b: Block)
    ensures First(Buddy(b)) == if b.index % 2 == 0 then First(b) + Pow2(b.order) else First(b) - Pow2(b.order)
    ensures b.index % 2 == 1 ==> First(b) >= Pow2(b.order)
  {
    FirstOfHalves(Parent(b));
  }

  lemma BuddyNotFree(s: Pool, b: Block, lo: nat, hi: nat)
    requires Inv(s) && b.order < TOP_ORDER && Greedy(s.free, lo, First(b), hi)
    requires lo <= First(b) && First(b) + Pow2(b.order) <= hi
    requires s.pages !! Range(First(b), hi) && hi !in s.pages && (lo > 0 ==> lo - 1 !in s.pages)
    ensures Buddy(b) !in s.free
  {
    var c, page, p := Buddy(b), First(b), Pow2(b.order);
    BuddyFirst(b);
    CoversFirst(c);
    CoversFirst(b);
    if c in s.free {
      if b.index % 2 == 1 {
        CoversRange(c, page - 1);
        if page == lo || First(c) < lo {
          CoversRange(c, lo - 1);
        }
      }
    }
  }

  lemma FeedCoalesced(s: Pool, b: Block, lo: nat, hi: nat)
    requires Inv(s) && b.order <= TOP_ORDER && Greedy(s.free, lo, First(b), hi)
    requires lo <= First(b) && First(b) + Pow2(b.order) <= hi
    requires s.pages !! Range(First(b), hi) && hi !in s.pages && (lo > 0 ==> lo - 1 !in s.pages)
    requires Coalesced(s.free)
    ensures Coalesced(Feed(s, b).free)
  {
    if b.order < TOP_ORDER {
      BuddyNotFree(s, b, lo, hi);
    }
    assert forall c :: Buddy(c) == b ==> c == Buddy(b);
  }
}
