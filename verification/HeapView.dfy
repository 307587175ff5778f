/**
  The two-tier heap as values: slab pages and their blocks, buddy blocks, and
  the requests that are live.
 */
module HeapView {
  import opened Powers
  import opened Sequences
  import opened Slab
  import opened HeapLayout
  import B = BuddyBlocks
  import G = BuddyGeometry

  datatype View = View(
    lists: seq<seq<nat>>,      // free slab blocks per class
    pages: map<nat, nat>,      // number of a slab page -> its class
    live: map<nat, Layout>,    // address -> request
    start: nat, bump: nat,     // the heap window in use
    base: nat, pool: B.Pool)   // the buddy allocator

  /** A block of some slab page. */
  predicate IsBlock(pages: map<nat, nat>, p: nat) {
    p / 4096 in pages && pages[p / 4096] < |BLOCK_SIZES| && Divides(BLOCK_SIZES[pages[p / 4096]], p)
  }

  /** Every slab block is free in the list of its page's class, or live for a request of that class. */
  ghost predicate SlabOk(v: View) {
    && |v.lists| == |BLOCK_SIZES|
    && (forall k, p :: 0 <= k < |v.lists| && p in v.lists[k] ==>
          IsBlock(v.pages, p) && v.pages[p / 4096] == k && p !in v.live)
    && (forall p :: p in v.live && Small(v.live[p]) ==>
          IsBlock(v.pages, p) && v.pages[p / 4096] == ClassOf(Rounded(v.live[p])))
    && (forall p: nat {:trigger IsBlock(v.pages, p)} :: IsBlock(v.pages, p) ==>
          p in v.live || p in v.lists[v.pages[p / 4096]])
  }

  /** Slab pages lie in the used part of the window; buddy memory lies below it. */
  ghost predicate WindowOk(v: View) {
    && v.start > 0 && v.start % 4096 == 0 && v.bump % 4096 == 0 && v.start <= v.bump
    && (forall n :: n in v.pages ==> v.start <= 4096 * n && 4096 * n + 4096 <= v.bump && v.pages[n] < |BLOCK_SIZES|)
    && (forall n :: n in v.pool.pages ==> v.base + 4096 * n + 4096 <= v.start)
  }

  /** A large live request owns the live buddy block of its order at its address. */
  ghost predicate LargeOk(v: View) {
    && B.Inv(v.pool) && G.BaseAligned(v.base)
    && forall p :: p in v.live && v.live[p].align > 0 && !Small(v.live[p]) ==> OwnsBlock(v, p, v.live[p])
  }

  ghost predicate OwnsBlock(v: View, p: nat, l: Layout)
    requires l.align > 0
  {
    exists b :: b in v.pool.live && b.order == LargeOrder(l) && p == G.Addr(v.base, b)
  }

  ghost predicate Requests(v: View) {
    forall p :: p in v.live ==> Proper(v.live[p]) && v.live[p].align > 0 && !Refused(v.live[p])
  }

  ghost predicate Inv(v: View) {
    Requests(v) && SlabOk(v) && WindowOk(v) && LargeOk(v)
  }

  // ----- what callers rely on -----

  lemma SlabPlace(v: View, p: nat)
    requires Inv(v) && p in v.live && Small(v.live[p])
    ensures Divides(Extent(v.live[p]), p) && Divides(Extent(v.live[p]), 4096)
    ensures p / 4096 in v.pages && v.start <= p && p + Extent(v.live[p]) <= 4096 * (p / 4096) + 4096 <= v.bump
  {
    var k := ClassOf(Rounded(v.live[p]));
    assert IsBlock(v.pages, p);
    SizeDivides(k, 4096);
    BlockEnd(k, p);
  }

  /** A block ends in its page. */
  lemma BlockEnd(k: nat, p: nat)
    requires k < |BLOCK_SIZES| && Divides(BLOCK_SIZES[k], p)
    ensures p + BLOCK_SIZES[k] <= 4096 * (p / 4096) + 4096
  {
    var end := 4096 * (p / 4096) + 4096;
    assert p < end && end % 4096 == 0;
    SizeDivides(k, end);
    MultiplesApart(BLOCK_SIZES[k], p, end);
  }

  /** Block sizes divide page addresses. */
  lemma SizeDivides(k: nat, page: nat)
    requires k < |BLOCK_SIZES| && page % 4096 == 0
    ensures Divides(BLOCK_SIZES[k], page)
  {
    BlockSizes(k);
    DividesMod(BLOCK_SIZES[k], 4096);
    DividesMod(4096, page);
    DividesTrans(BLOCK_SIZES[k], 4096, page);
  }

  lemma LargePlace(v: View, p: nat) returns (b: B.Block)
    requires Inv(v) && p in v.live && !Small(v.live[p])
    ensures b in v.pool.live && b.order == LargeOrder(v.live[p]) && p == G.Addr(v.base, b)
    ensures Extent(v.live[p]) == 4096 * Pow2(b.order) && p + Extent(v.live[p]) <= v.start
    ensures p >= v.base > 0 && Divides(Extent(v.live[p]), p) && p % 4096 == 0
  {
    assert OwnsBlock(v, p, v.live[p]);
    b :| b in v.pool.live && b.order == LargeOrder(v.live[p]) && p == G.Addr(v.base, b);
    var last := G.First(b) + Pow2(b.order) - 1;
    G.CoversFirst(b);
    G.CoversRange(b, last);
    assert b in v.pool.free + v.pool.live && last in v.pool.pages;
    BlockAligned(v.base, b);
    PageMultiple(p, b.order);
  }

  lemma BlockAligned(base: nat, b: B.Block)
    requires G.BaseAligned(base) && b.order <= B.TOP_ORDER
    ensures Divides(4096 * Pow2(b.order), G.Addr(base, b))
  {
    var m := 4096 * Pow2(b.order);
    Pow2Pages(b.order);
    Constants();
    Pow2Pages(11);
    Pow2Divides(12 + b.order, 23);
    DividesMod(0x80_0000, base);
    DividesTrans(m, 0x80_0000, base);
    assert 4096 * G.First(b) == b.index * m;
    DividesMultiple(m, b.index);
    DividesSum(m, base, 4096 * G.First(b));
  }

  /** Every live address is non-null, aligned as asked, and has room for the request. */
  lemma Fits(v: View, p: nat)
    requires Inv(v) && p in v.live
    ensures p != 0 && p % v.live[p].align == 0 && v.live[p].size <= Extent(v.live[p])
  {
    var l := v.live[p];
    ExtentSuffices(l);
    if Small(l) {
      SlabPlace(v, p);
    } else {
      var b := LargePlace(v, p);
    }
    DividesTrans(l.align, Extent(l), p);
    DividesMod(l.align, p);
  }

  lemma BlocksApart(b: B.Block, c: B.Block)
    requires forall page :: !(B.Covers(b, page) && B.Covers(c, page))
    ensures G.First(b) + Pow2(b.order) <= G.First(c) || G.First(c) + Pow2(c.order) <= G.First(b)
  {
    G.CoversFirst(b);
    G.CoversFirst(c);
    G.CoversRange(b, G.First(c));
    G.CoversRange(c, G.First(b));
  }

  lemma LargeSeparate(v: View, p: nat, q: nat)
    requires Inv(v) && p in v.live && q in v.live && p != q && !Small(v.live[p]) && !Small(v.live[q])
    ensures p + Extent(v.live[p]) <= q || q + Extent(v.live[q]) <= p
  {
    var b := LargePlace(v, p);
    var c := LargePlace(v, q);
    assert b in v.pool.free + v.pool.live && c in v.pool.free + v.pool.live && b != c;
    BlocksApart(b, c);
  }

  lemma SmallSeparate(v: View, p: nat, q: nat)
    requires Inv(v) && p in v.live && q in v.live && p < q && Small(v.live[p]) && Small(v.live[q])
    ensures p + Extent(v.live[p]) <= q
  {
    SlabPlace(v, p);
    SlabPlace(v, q);
    if p / 4096 == q / 4096 {
      assert IsBlock(v.pages, p) && IsBlock(v.pages, q);
      MultiplesApart(Extent(v.live[p]), p, q);
    }
  }

  /** Live requests never overlap. */
  lemma Separate(v: View, p: nat, q: nat)
    requires Inv(v) && p in v.live && q in v.live && p != q
    ensures p + v.live[p].size <= q || q + v.live[q].size <= p
  {
    Fits(v, p);
    Fits(v, q);
    if Small(v.live[p]) && Small(v.live[q]) {
      if p < q {
        SmallSeparate(v, p, q);
      } else {
        SmallSeparate(v, q, p);
      }
    } else if !Small(v.live[p]) && !Small(v.live[q]) {
      LargeSeparate(v, p, q);
    } else if Small(v.live[p]) {
      SlabPlace(v, p);
      var c := LargePlace(v, q);
    } else {
      SlabPlace(v, q);
      var b := LargePlace(v, p);
    }
  }

  // ----- steps -----

  /** A cached block is handed out. */
  function PopBlock(v: View, k: nat, l: Layout): View
    requires k < |v.lists| && v.lists[k] != []
  {
    v.(lists := v.lists[k := v.lists[k][1..]], live := v.live[v.lists[k][0] := l])
  }

  lemma PopBlockKeeps(v: View, l: Layout)
    requires Inv(v) && Proper(l) && Small(l)
    requires v.lists[ClassOf(Rounded(l))] != [] && NoDup(v.lists[ClassOf(Rounded(l))])
    ensures Inv(PopBlock(v, ClassOf(Rounded(l)), l)) && v.lists[ClassOf(Rounded(l))][0] !in v.live
  {
    var k := ClassOf(Rounded(l));
    assert v.lists[k][0] in v.lists[k];
    PopBlockSlab(v, k, l);
    LargeFrame(v, PopBlock(v, k, l));
  }

  lemma PopBlockSlab(v: View, k: nat, l: Layout)
    requires SlabOk(v) && Small(l) && k == ClassOf(Rounded(l)) && v.lists[k] != [] && NoDup(v.lists[k])
    ensures SlabOk(PopBlock(v, k, l))
  {
    var s := v.lists[k];
    var v' := PopBlock(v, k, l);
    assert s == [s[0]] + s[1..] && s[0] in s;
    forall p: nat | IsBlock(v'.pages, p) ensures p in v'.live || p in v'.lists[v'.pages[p / 4096]] {
      assert IsBlock(v.pages, p);
    }
    forall j, p | 0 <= j < |v'.lists| && p in v'.lists[j]
      ensures IsBlock(v'.pages, p) && v'.pages[p / 4096] == j && p !in v'.live
    {
      assert p in v.lists[j];
    }
  }

  /** Large requests are not affected by the slab. */
  lemma LargeFrame(v: View, v': View)
    requires LargeOk(v) && v'.pool == v.pool && v'.base == v.base
    requires forall p :: p in v'.live && v'.live[p].align > 0 && !Small(v'.live[p]) ==> p in v.live && v.live[p] == v'.live[p]
    ensures LargeOk(v')
  {
    forall p | p in v'.live && v'.live[p].align > 0 && !Small(v'.live[p]) ensures OwnsBlock(v', p, v'.live[p]) {
      assert OwnsBlock(v, p, v.live[p]);
    }
  }

  /** A new page is cut up for class `k`; its first block is handed out. */
  function NewPage(v: View, k: nat, l: Layout): View
    requires k < |v.lists| == |BLOCK_SIZES|
  {
    v.(lists := v.lists[k := PageBlocks(v.bump, k)],
       pages := v.pages[v.bump / 4096 := k], live := v.live[v.bump := l], bump := v.bump + 4096)
  }

  function PageBlocks(page: nat, k: nat): seq<nat>
    requires k < |BLOCK_SIZES|
  {
    BlockSizes(k);
    Blocks(page, BLOCK_SIZES[k], 4096 / BLOCK_SIZES[k])
  }

  lemma CellIsBlock(page: nat, k: nat, i: nat)
    requires k < |BLOCK_SIZES| && page % 4096 == 0 && 0 < i < 4096 / BLOCK_SIZES[k]
    ensures var p := Cell(page, BLOCK_SIZES[k], i);
      p / 4096 == page / 4096 && Divides(BLOCK_SIZES[k], p) && p != page
  {
    var size := BLOCK_SIZES[k];
    BlockSizes(k);
    CellInside(page, k, i);
    CellOrder(page, size, 0, i);
    CellAt(page, size, i);
    SizeDivides(k, page);
    DividesMultiple(size, i);
    DividesSum(size, page, i * size);
    SamePage(page, Cell(page, size, i));
  }

  lemma SamePage(page: nat, p: nat)
    requires page % 4096 == 0
    ensures p / 4096 == page / 4096 <==> page <= p < page + 4096
  {
  }

  lemma BlockIsCell(page: nat, k: nat, p: nat) returns (i: nat)
    requires k < |BLOCK_SIZES| && page % 4096 == 0 && page < p < page + 4096 && Divides(BLOCK_SIZES[k], p)
    ensures 0 < i < 4096 / BLOCK_SIZES[k] && p == Cell(page, BLOCK_SIZES[k], i)
  {
    var size := BLOCK_SIZES[k];
    BlockSizes(k);
    SizeDivides(k, page);
    var q := Quotient(size, p);
    var r := Quotient(size, page);
    PageOffset(page, p, q, r, size, 4096 / size);
    i := q - r;
    CellAt(page, size, i);
  }

  /** The blocks of a page are the multiples of the block size in it: the page itself and the rest. */
  lemma PageBlocksAre(page: nat, k: nat, p: nat)
    requires k < |BLOCK_SIZES| && page % 4096 == 0
    ensures p in PageBlocks(page, k) <==> p / 4096 == page / 4096 && Divides(BLOCK_SIZES[k], p) && p != page
  {
    var s := PageBlocks(page, k);
    if p in s {
      var j :| 0 <= j < |s| && s[j] == p;
      CellIsBlock(page, k, j + 1);
    }
    if p / 4096 == page / 4096 && Divides(BLOCK_SIZES[k], p) && p != page {
      SamePage(page, p);
      var i := BlockIsCell(page, k, p);
      assert s[i - 1] == p;
    }
  }

  lemma PageOffset(page: nat, p: nat, q: nat, r: nat, size: nat, n: nat)
    requires page < p < page + 4096 && p == q * size && page == r * size && size > 0 && n * size == 4096
    ensures 0 < q - r < n && p == page + (q - r) * size
  {
    assert p - page == (q - r) * size;
    if q <= r {
      ScaleMonotone(q, r, size);
    } else if q - r >= n {
      ScaleMonotone(n, q - r, size);
    }
  }

  lemma NewPageKeeps(v: View, l: Layout)
    requires Inv(v) && Proper(l) && Small(l) && v.lists[ClassOf(Rounded(l))] == []
    ensures Inv(NewPage(v, ClassOf(Rounded(l)), l)) && v.bump !in v.live && v.bump / 4096 !in v.pages
  {
    var k := ClassOf(Rounded(l));
    BumpFresh(v);
    NewPageSlab(v, k, l);
    NewPageWindow(v, k, l);
    LargeFrame(v, NewPage(v, k, l));
  }

  lemma NewPageWindow(v: View, k: nat, l: Layout)
    requires WindowOk(v) && k < |v.lists| == |BLOCK_SIZES|
    ensures WindowOk(NewPage(v, k, l))
  {
  }

  /** The page at the bump pointer is neither a slab page nor in use. */
  lemma BumpFresh(v: View)
    requires Inv(v)
    ensures v.bump / 4096 !in v.pages && forall p :: p in v.live ==> p / 4096 != v.bump / 4096
  {
    forall p | p in v.live ensures p / 4096 != v.bump / 4096 {
      if Small(v.live[p]) {
        SlabPlace(v, p);
      } else {
        var b := LargePlace(v, p);
        assert Extent(v.live[p]) >= 4096 by {
          Pow2Monotone(0, b.order);
        }
      }
    }
  }

  lemma NewPageSlab(v: View, k: nat, l: Layout)
    requires SlabOk(v) && WindowOk(v) && Small(l) && k == ClassOf(Rounded(l)) && v.lists[k] == []
    requires v.bump / 4096 !in v.pages && forall p :: p in v.live ==> p / 4096 != v.bump / 4096
    ensures SlabOk(NewPage(v, k, l))
  {
    var v', n := NewPage(v, k, l), v.bump / 4096;
    forall p: nat ensures p in v'.lists[k] <==> p / 4096 == n && Divides(BLOCK_SIZES[k], p) && p != v.bump {
      PageBlocksAre(v.bump, k, p);
    }
    NewPageCovers(v, v', k);
    assert IsBlock(v'.pages, v.bump) by {
      SizeDivides(k, v.bump);
    }
    NewPageLists(v, v', k);
  }

  lemma NewPageCovers(v: View, v': View, k: nat)
    requires SlabOk(v) && k < |v.lists| && v.lists[k] == [] && |v'.lists| == |v.lists|
    requires v'.pages == v.pages[v.bump / 4096 := k] && v'.live.Keys == v.live.Keys + {v.bump}
    requires forall j :: 0 <= j < |v.lists| && j != k ==> v'.lists[j] == v.lists[j]
    requires forall p: nat :: p in v'.lists[k] <==> p / 4096 == v.bump / 4096 && Divides(BLOCK_SIZES[k], p) && p != v.bump
    ensures forall p: nat {:trigger IsBlock(v'.pages, p)} :: IsBlock(v'.pages, p) ==>
      p in v'.live || p in v'.lists[v'.pages[p / 4096]]
  {
    forall p: nat | IsBlock(v'.pages, p) ensures p in v'.live || p in v'.lists[v'.pages[p / 4096]] {
      if p / 4096 != v.bump / 4096 {
        assert IsBlock(v.pages, p);
      }
    }
  }

  lemma NewPageLists(v: View, v': View, k: nat)
    requires SlabOk(v) && k < |v.lists| && v.lists[k] == [] && v.bump / 4096 !in v.pages
    requires |v'.lists| == |v.lists| && v'.pages == v.pages[v.bump / 4096 := k] && v'.live.Keys == v.live.Keys + {v.bump}
    requires forall j :: 0 <= j < |v.lists| && j != k ==> v'.lists[j] == v.lists[j]
    requires forall p :: p in v'.lists[k] ==> p / 4096 == v.bump / 4096 && Divides(BLOCK_SIZES[k], p) && p != v.bump
    requires forall p :: p in v.live ==> p / 4096 != v.bump / 4096
    ensures forall j, p :: 0 <= j < |v'.lists| && p in v'.lists[j] ==>
      IsBlock(v'.pages, p) && v'.pages[p / 4096] == j && p !in v'.live
  {
    forall j, p | 0 <= j < |v'.lists| && p in v'.lists[j]
      ensures IsBlock(v'.pages, p) && v'.pages[p / 4096] == j && p !in v'.live
    {
      if j != k {
        assert p in v.lists[j] && IsBlock(v.pages, p);
      }
    }
  }

  /** A slab block returns to the list of its class. */
  function PushBlock(v: View, p: nat): View
    requires p in v.live && Small(v.live[p]) && |v.lists| == |BLOCK_SIZES|
  {
    var k := ClassOf(Rounded(v.live[p]));
    v.(lists := v.lists[k := [p] + v.lists[k]], live := v.live - {p})
  }

  lemma PushBlockKeeps(v: View, p: nat)
    requires Inv(v) && p in v.live && Small(v.live[p])
    ensures Inv(PushBlock(v, p)) && !Listed(v.lists, p)
  {
    PushBlockSlab(v, p);
    LargeFrame(v, PushBlock(v, p));
  }

  lemma PushBlockSlab(v: View, p: nat)
    requires SlabOk(v) && p in v.live && Small(v.live[p])
    ensures SlabOk(PushBlock(v, p)) && !Listed(v.lists, p)
  {
    var v', k := PushBlock(v, p), ClassOf(Rounded(v.live[p]));
    assert IsBlock(v.pages, p);
    forall q: nat | IsBlock(v'.pages, q) ensures q in v'.live || q in v'.lists[v'.pages[q / 4096]] {
      assert IsBlock(v.pages, q);
      assert q != p ==> q in v.live || q in v.lists[v.pages[q / 4096]];
    }
    forall j, q | 0 <= j < |v'.lists| && q in v'.lists[j]
      ensures IsBlock(v'.pages, q) && v'.pages[q / 4096] == j && q !in v'.live
    {
      assert q == p || q in v.lists[j];
    }
  }

  /** A step on buddy memory, below the window, leaves the slab alone. */
  lemma SlabFrame(v: View, v': View)
    requires SlabOk(v) && WindowOk(v) && v'.lists == v.lists && v'.pages == v.pages
    requires forall p :: v.start <= p ==> (p in v.live <==> p in v'.live) && (p in v.live ==> v'.live[p] == v.live[p])
    requires forall p :: p in v'.live && p < v.start ==> !Small(v'.live[p])
    ensures SlabOk(v')
  {
    forall p: nat | IsBlock(v'.pages, p) ensures v.start <= p && (p in v'.live || p in v'.lists[v'.pages[p / 4096]]) {
      assert IsBlock(v.pages, p);
    }
  }

  lemma SmallAbove(v: View)
    requires Inv(v)
    ensures forall p :: p in v.live && p < v.start ==> !Small(v.live[p])
  {
    forall p | p in v.live && Small(v.live[p]) ensures v.start <= p {
      SlabPlace(v, p);
    }
  }

  /** Only buddy memory and the requests below the window changed. */
  ghost predicate LargeStep(v: View, v': View) {
    && v'.lists == v.lists && v'.pages == v.pages && v'.start == v.start && v'.bump == v.bump && v'.base == v.base
    && v'.pool.pages == v.pool.pages
    && (forall p :: v.start <= p ==> (p in v.live <==> p in v'.live) && (p in v.live ==> v'.live[p] == v.live[p]))
    && (forall p :: p in v'.live && p < v.start ==> !Small(v'.live[p]))
  }

  lemma LargeStepKeeps(v: View, v': View)
    requires Inv(v) && LargeStep(v, v') && Requests(v') && LargeOk(v')
    ensures Inv(v')
  {
    SlabFrame(v, v');
  }

  /** The view after a buddy block was handed out for a large request. */
  function LargeAlloc(v: View, l: Layout, d: B.Block): View
    requires l.align > 0 && d.order >= LargeOrder(l)
  {
    var k := LargeOrder(l);
    v.(pool := B.Carve(B.Take(v.pool, d), d, k), live := v.live[G.Addr(v.base, B.LeftEnd(d, k)) := l])
  }

  lemma PoolAlloc(pool: B.Pool, d: B.Block, k: nat)
    requires B.Inv(pool) && d in pool.free && k <= d.order
    ensures var pool', b := B.Carve(B.Take(pool, d), d, k), B.LeftEnd(d, k);
      && B.Inv(pool') && pool'.pages == pool.pages && b.order == k
      && b !in pool.live && pool'.live == pool.live + {b}
  {
    B.TakeKeeps(pool, d);
    B.CarveKeeps(B.Take(pool, d), d, k);
    assert pool.live + {d} - {d} == pool.live;
  }

  lemma LargeAllocKeeps(v: View, l: Layout, d: B.Block)
    requires Inv(v) && Proper(l) && l.align > 0 && !Small(l) && !Refused(l)
    requires d in v.pool.free && d.order >= LargeOrder(l)
    ensures Inv(LargeAlloc(v, l, d))
    ensures var p := G.Addr(v.base, B.LeftEnd(d, LargeOrder(l))); p !in v.live && p != 0
  {
    var b, v' := B.LeftEnd(d, LargeOrder(l)), LargeAlloc(v, l, d);
    PoolAlloc(v.pool, d, LargeOrder(l));
    NewAddress(v, v'.pool, b);
    LargeOwner(v, v', b, l);
    SmallAbove(v);
    NewBelow(v, v', G.Addr(v.base, b), l);
    LargeStepKeeps(v, v');
  }

  lemma LargeOwner(v: View, v': View, b: B.Block, l: Layout)
    requires LargeOk(v) && B.Inv(v'.pool) && v'.base == v.base && v'.pool.live == v.pool.live + {b}
    requires l.align > 0 && b.order == LargeOrder(l) && v'.live == v.live[G.Addr(v.base, b) := l]
    ensures LargeOk(v')
  {
    OwnersKept(v, v', b);
  }

  lemma NewBelow(v: View, v': View, p: nat, l: Layout)
    requires Requests(v) && forall q :: q in v.live && q < v.start ==> !Small(v.live[q])
    requires p < v.start && Proper(l) && l.align > 0 && !Small(l) && !Refused(l)
    requires v' == v.(pool := v'.pool, live := v.live[p := l]) && v'.pool.pages == v.pool.pages
    ensures LargeStep(v, v') && Requests(v')
  {
  }

  lemma OwnersKept(v: View, v': View, b: B.Block)
    requires LargeOk(v) && v'.base == v.base && v'.pool.live == v.pool.live + {b}
    requires forall q :: q in v'.live ==>
      || (q in v.live && v'.live[q] == v.live[q])
      || (q == G.Addr(v.base, b) && v'.live[q].align > 0 && b.order == LargeOrder(v'.live[q]))
    ensures forall q :: q in v'.live && v'.live[q].align > 0 && !Small(v'.live[q]) ==> OwnsBlock(v', q, v'.live[q])
  {
    forall q | q in v'.live && v'.live[q].align > 0 && !Small(v'.live[q]) ensures OwnsBlock(v', q, v'.live[q]) {
      if q in v.live && v'.live[q] == v.live[q] {
        assert OwnsBlock(v, q, v.live[q]);
      } else {
        assert b in v'.pool.live;
      }
    }
  }

  /** The address of a block that was free is not in use. */
  lemma NewAddress(v: View, pool: B.Pool, b: B.Block)
    requires Inv(v) && B.Inv(pool) && pool.pages == v.pool.pages && b !in v.pool.live && pool.live == v.pool.live + {b}
    ensures G.Addr(v.base, b) !in v.live && G.Addr(v.base, b) + 4096 <= v.start && G.Addr(v.base, b) > 0
  {
    var p := G.Addr(v.base, b);
    G.CoversFirst(b);
    assert b in pool.free + pool.live && G.First(b) in pool.pages;
    assert forall c :: c in v.pool.live ==> c in pool.free + pool.live;
    if p in v.live {
      if Small(v.live[p]) {
        SlabPlace(v, p);
      } else {
        var c := LargePlace(v, p);
        G.SameAddr(v.base, b, c);
      }
    }
  }

  /** The view after the buddy block of a large request was freed. */
  function LargeFree(v: View, p: nat, b: B.Block): View {
    v.(pool := B.Absorb(v.pool, b), live := v.live - {p})
  }

  lemma LargeFreeKeeps(v: View, p: nat) returns (b: B.Block)
    requires Inv(v) && p in v.live && !Small(v.live[p])
    ensures b in v.pool.live && b.order == LargeOrder(v.live[p]) && p == G.Addr(v.base, b) && p % 4096 == 0
    ensures Inv(LargeFree(v, p, b)) && Deallocated(v, LargeFree(v, p, b), p)
  {
    b := LargePlace(v, p);
    B.AbsorbKeeps(v.pool, b);
    SmallAbove(v);
    OwnersStay(v, p, b);
    LargeStepKeeps(v, LargeFree(v, p, b));
  }

  lemma PageMultiple(p: nat, k: nat)
    requires Divides(4096 * Pow2(k), p)
    ensures p % 4096 == 0
  {
    DividesMultiple(4096, Pow2(k));
    assert 4096 * Pow2(k) == Pow2(k) * 4096;
    DividesTrans(4096, 4096 * Pow2(k), p);
    DividesMod(4096, p);
  }

  lemma OwnersStay(v: View, p: nat, b: B.Block)
    requires LargeOk(v) && b in v.pool.live && p == G.Addr(v.base, b)
    ensures LargeOk(LargeFree(v, p, b))
  {
    var v' := LargeFree(v, p, b);
    B.AbsorbKeeps(v.pool, b);
    forall q | q in v'.live && v'.live[q].align > 0 && !Small(v'.live[q]) ensures OwnsBlock(v', q, v'.live[q]) {
      assert OwnsBlock(v, q, v.live[q]);
      var c :| c in v.pool.live && c.order == LargeOrder(v.live[q]) && q == G.Addr(v.base, c);
      assert c != b;
    }
  }

  // ----- whole calls -----

  /** No cached block lies in the page at the bump pointer. */
  lemma OutsideBump(v: View)
    requires Inv(v)
    ensures Outside(v.lists, v.bump)
  {
    forall p: nat | Listed(v.lists, p) ensures p < v.bump {
      var k :| 0 <= k < |v.lists| && p in v.lists[k];
      assert IsBlock(v.pages, p);
    }
  }

  /** What an allocation does and returns; 0 is the null pointer. */
  ghost predicate Allocated(v: View, v': View, l: Layout, end: nat, p: nat)
    requires l.align > 0 && |v.lists| == |BLOCK_SIZES|
  {
    if Small(l) then
      var k := ClassOf(Rounded(l));
      if v.lists[k] != [] then p == v.lists[k][0] && v' == PopBlock(v, k, l)
      else if v.bump + 4096 <= end then p == v.bump && v' == NewPage(v, k, l)
      else p == 0 && v' == v
    else if Refused(l) || (forall d :: d in v.pool.free ==> d.order < LargeOrder(l)) then p == 0 && v' == v
    else exists d :: BestBlock(v, l, d) && v' == LargeAlloc(v, l, d) && p == G.Addr(v.base, B.LeftEnd(d, LargeOrder(l)))
  }

  /** A smallest free buddy block that is large enough. */
  ghost predicate BestBlock(v: View, l: Layout, d: B.Block)
    requires l.align > 0
  {
    && d in v.pool.free && d.order >= LargeOrder(l)
    && forall c :: c in v.pool.free && c.order >= LargeOrder(l) ==> d.order <= c.order
  }

  lemma AllocatedKeeps(v: View, v': View, l: Layout, end: nat, p: nat)
    requires Inv(v) && Proper(l) && l.align > 0 && Allocated(v, v', l, end, p)
    requires Small(l) ==> NoDup(v.lists[ClassOf(Rounded(l))])
    ensures Inv(v')
    ensures if p == 0 then v' == v else p !in v.live && v'.live == v.live[p := l]
    ensures v.pages.Keys <= v'.pages.Keys && forall n :: n in v.pages ==> v'.pages[n] == v.pages[n]
  {
    if Small(l) {
      var k := ClassOf(Rounded(l));
      if v.lists[k] != [] {
        PopBlockKeeps(v, l);
        assert p in v.lists[k] && IsBlock(v.pages, p);
      } else if p != 0 {
        NewPageKeeps(v, l);
      }
    } else if p != 0 {
      var d :| BestBlock(v, l, d) && v' == LargeAlloc(v, l, d) && p == G.Addr(v.base, B.LeftEnd(d, LargeOrder(l)));
      LargeAllocKeeps(v, l, d);
    }
  }

  /** What a deallocation does: the block goes back to the list or the order it came from. */
  ghost predicate Deallocated(v: View, v': View, p: nat)
    requires p in v.live && v.live[p].align > 0 && |v.lists| == |BLOCK_SIZES|
  {
    if Small(v.live[p]) then v' == PushBlock(v, p)
    else exists b ::
      b in v.pool.live && b.order == LargeOrder(v.live[p]) && p == G.Addr(v.base, b) && v' == LargeFree(v, p, b)
  }

  /** Freeing what was just allocated from the cache undoes the allocation. */
  lemma AllocFreeRestores(v: View, l: Layout)
    requires SlabOk(v) && Small(l) && v.lists[ClassOf(Rounded(l))] != []
    ensures var p := v.lists[ClassOf(Rounded(l))][0];
      PushBlock(PopBlock(v, ClassOf(Rounded(l)), l), p) == v
  {
    var k := ClassOf(Rounded(l));
    var s := v.lists[k];
    assert s[0] in s && s == [s[0]] + s[1..];
    var v' := PushBlock(PopBlock(v, k, l), s[0]);
    assert v'.lists == v.lists && v'.live == v.live;
  }
}
