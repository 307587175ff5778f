/**
  What the kernel heap does for a request, in bytes and blocks: from which
  tier it is served, when it gets the null pointer, and how much is set aside.
 */
module HeapService {
  import opened Powers
  import opened Slab
  import opened HeapLayout
  import opened HeapView
  import B = BuddyBlocks
  import G = BuddyGeometry

  /** The size of a request, rounded up to its alignment. */
  function Bytes(l: Layout): nat
    requires l.align > 0
  {
    (l.size + l.align - 1) / l.align * l.align
  }

  /** The same, rounded up to whole pages. */
  function PageBytes(l: Layout): nat
    requires l.align > 0
  {
    (Bytes(l) + 4095) / 4096 * 4096
  }

  /** Class `k`, of blocks of 8 * 2^k bytes, is the least that holds `bytes`. */
  predicate LeastClass(k: nat, bytes: nat) {
    k < 9 && bytes <= Pow2(3 + k) && (k > 0 ==> Pow2(3 + k - 1) < bytes)
  }

  /** Order `k`, of 2^k pages, is the least that holds `bytes`. */
  predicate LeastOrder(k: nat, bytes: nat) {
    bytes <= 4096 * Pow2(k) && (k > 0 ==> 4096 * Pow2(k - 1) < bytes)
  }

  /** Up to 2048 bytes: the first cached block of the least class, else the
      first block of the next page of the window, else null. */
  ghost predicate SmallServed(v: View, v': View, l: Layout, end: nat, p: nat, k: nat)
    requires |v.lists| == 9 && k < 9
  {
    && (p == 0 <==> v.lists[k] == [] && v.bump + 4096 > end)
    && (v.lists[k] != [] ==>
          p == v.lists[k][0] && v' == v.(lists := v.lists[k := v.lists[k][1..]], live := v.live[p := l]))
    && (v.lists[k] == [] && p != 0 ==>
          && p == v.bump && v'.bump == v.bump + 4096 && v'.pages == v.pages[p / 4096 := k]
          && v'.live == v.live[p := l] && v'.pool == v.pool)
  }

  /** Above: a buddy block of the least order, null beyond 4 MiB or when no
      free block is large enough. */
  ghost predicate LargeServed(v: View, v': View, l: Layout, p: nat)
    requires l.align > 0
  {
    && (p == 0 <==>
          PageBytes(l) > 4 * 1024 * 1024 || forall d :: d in v.pool.free ==> 4096 * Pow2(d.order) < PageBytes(l))
    && (p != 0 ==> exists b :: LargeBlock(v, v', l, p, b))
  }

  ghost predicate LargeBlock(v: View, v': View, l: Layout, p: nat, b: B.Block)
    requires l.align > 0
  {
    && LeastOrder(b.order, PageBytes(l)) && p == G.Addr(v.base, b)
    && b !in v.pool.live && v' == v.(live := v.live[p := l], pool := v'.pool)
    && v'.pool.live == v.pool.live + {b} && v'.pool.pages == v.pool.pages
  }

  ghost predicate Served(v: View, v': View, l: Layout, end: nat, p: nat)
    requires l.align > 0 && |v.lists| == 9
  {
    && (p == 0 ==> v' == v)
    && if Bytes(l) <= 2048 then exists k: nat :: LeastClass(k, Bytes(l)) && SmallServed(v, v', l, end, p, k)
       else LargeServed(v, v', l, p)
  }

  /** A release puts the block where the request came from. */
  ghost predicate Returned(v: View, v': View, p: nat)
    requires p in v.live && v.live[p].align > 0 && |v.lists| == 9
  {
    var l := v.live[p];
    if Bytes(l) <= 2048 then
      exists k: nat :: LeastClass(k, Bytes(l)) && v' == v.(lists := v.lists[k := [p] + v.lists[k]], live := v.live - {p})
    else
      exists b :: LargeReturned(v, v', p, b)
  }

  ghost predicate LargeReturned(v: View, v': View, p: nat, b: B.Block)
    requires p in v.live && v.live[p].align > 0
  {
    && LeastOrder(b.order, PageBytes(v.live[p])) && p == G.Addr(v.base, b)
    && b in v.pool.live && v' == v.(live := v.live - {p}, pool := v'.pool)
    && v'.pool.live == v.pool.live - {b} && v'.pool.pages == v.pool.pages
  }

  // ----- the routing does this -----

  lemma Rounding(l: Layout)
    requires l.align > 0
    ensures Rounded(l) == Bytes(l) && AlignTo(Rounded(l), 4096) == PageBytes(l)
  {
    AlignToCuts(l.size, l.align);
    AlignToCuts(Rounded(l), 4096);
  }

  lemma SmallBytes(l: Layout)
    requires l.align > 0
    ensures Small(l) <==> Bytes(l) <= 2048
    ensures Small(l) ==> LeastClass(ClassOf(Rounded(l)), Bytes(l))
  {
    Rounding(l);
    var k := ClassOf(Rounded(l));
    if k < |BLOCK_SIZES| {
      BlockSizes(k);
      if k > 0 {
        BlockSizes(k - 1);
      }
    } else {
      assert BLOCK_SIZES[8] < Rounded(l);
    }
  }

  lemma RefusedBytes(l: Layout)
    requires l.align > 0 && !Small(l)
    ensures Refused(l) <==> PageBytes(l) > 4 * 1024 * 1024
  {
    Rounding(l);
  }

  lemma LargeBytes(l: Layout)
    requires l.align > 0 && !Small(l)
    ensures Refused(l) <==> PageBytes(l) > 4 * 1024 * 1024
    ensures !Refused(l) ==> LeastOrder(LargeOrder(l), PageBytes(l))
  {
    RefusedBytes(l);
    Rounding(l);
    SizeToOrderFits(PageBytes(l));
  }

  lemma OrderHolds(k: nat, bytes: nat, order: nat)
    requires LeastOrder(k, bytes)
    ensures order < k <==> 4096 * Pow2(order) < bytes
  {
    if order < k {
      Pow2Monotone(order, k - 1);
    } else {
      Pow2Monotone(k, order);
    }
  }

  lemma EnoughRoom(l: Layout, free: set<B.Block>)
    requires l.align > 0 && !Small(l) && !Refused(l)
    ensures (forall d :: d in free ==> d.order < LargeOrder(l)) <==>
            (forall d :: d in free ==> 4096 * Pow2(d.order) < PageBytes(l))
  {
    LargeBytes(l);
    forall d | d in free ensures d.order < LargeOrder(l) <==> 4096 * Pow2(d.order) < PageBytes(l) {
      OrderHolds(LargeOrder(l), PageBytes(l), d.order);
    }
  }

  lemma LargeIsServed(v: View, v': View, l: Layout, end: nat, p: nat)
    requires Inv(v) && Proper(l) && l.align > 0 && !Small(l) && Allocated(v, v', l, end, p)
    ensures LargeServed(v, v', l, p)
  {
    LargeBytes(l);
    if !Refused(l) {
      EnoughRoom(l, v.pool.free);
      if d :| BestBlock(v, l, d) && v' == LargeAlloc(v, l, d) && p == G.Addr(v.base, B.LeftEnd(d, LargeOrder(l))) {
        LargeAllocKeeps(v, l, d);
        PoolAlloc(v.pool, d, LargeOrder(l));
        assert LargeBlock(v, v', l, p, B.LeftEnd(d, LargeOrder(l)));
      }
    }
  }

  lemma SmallIsServed(v: View, v': View, l: Layout, end: nat, p: nat)
    requires Inv(v) && Small(l) && Allocated(v, v', l, end, p)
    ensures SmallServed(v, v', l, end, p, ClassOf(Rounded(l)))
  {
    var k := ClassOf(Rounded(l));
    if v.lists[k] != [] {
      assert p in v.lists[k] && IsBlock(v.pages, p);
    }
  }

  /** Every allocation is served as the sizes say. */
  lemma AllocatedServed(v: View, v': View, l: Layout, end: nat, p: nat)
    requires Inv(v) && Proper(l) && l.align > 0 && Allocated(v, v', l, end, p) && (p == 0 ==> v' == v)
    ensures Served(v, v', l, end, p)
  {
    SmallBytes(l);
    if Small(l) {
      SmallIsServed(v, v', l, end, p);
    } else {
      LargeIsServed(v, v', l, end, p);
    }
  }

  lemma DeallocatedReturned(v: View, v': View, p: nat)
    requires Inv(v) && p in v.live && Deallocated(v, v', p)
    ensures Returned(v, v', p)
  {
    var l := v.live[p];
    SmallBytes(l);
    if Small(l) {
      assert LeastClass(ClassOf(Rounded(l)), Bytes(l));
    } else {
      LargeBytes(l);
      var b :| b in v.pool.live && b.order == LargeOrder(l) && p == G.Addr(v.base, b) && v' == LargeFree(v, p, b);
      B.AbsorbKeeps(v.pool, b);
      assert LargeReturned(v, v', p, b);
    }
  }
}
