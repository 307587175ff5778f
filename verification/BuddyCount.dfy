/** Counting the pages of disjoint blocks. */
module BuddyCount {
  import opened Powers
  import opened BuddyBlocks
  import opened BuddyGeometry

  lemma {:induction false} RangeSize(lo: nat, hi: nat)
    requires lo <= hi
    ensures |Range(lo, hi)| == hi - lo
    decreases hi - lo
  {
    if lo < hi {
      RangeSize(lo + 1, hi);
      assert Range(lo, hi) == {lo} + Range(lo + 1, hi);
    } else {
      assert Range(lo, hi) == {};
    }
  }

  function BlockPages(b: Block): set<nat> {
    Range(First(b), First(b) + Pow2(b.order))
  }

  lemma BlockPagesCover(b: Block, page: nat)
    ensures page in BlockPages(b) <==> Covers(b, page)
  {
    CoversRange(b, page);
  }

  lemma BlockPagesSize(b: Block)
    ensures |BlockPages(b)| == Pow2(b.order)
  {
    RangeSize(First(b), First(b) + Pow2(b.order));
  }

  ghost function PagesOf(bs: set<Block>): set<nat> {
    set b, page | b in bs && page in BlockPages(b) :: page
  }

  lemma PagesOfCovered(bs: set<Block>, page: nat)
    ensures page in PagesOf(bs) <==> Covered(bs, page)
  {
    if page in PagesOf(bs) {
      var b :| b in bs && page in BlockPages(b);
      BlockPagesCover(b, page);
    }
    if Covered(bs, page) {
      var b :| b in bs && Covers(b, page);
      BlockPagesCover(b, page);
    }
  }

  /** Adding a block that is disjoint from the others adds its size. */
  lemma AddBlock(bs: set<Block>, b: Block)
    requires b !in bs && Apart(bs + {b})
    ensures |PagesOf(bs + {b})| == |PagesOf(bs)| + Pow2(b.order)
  {
    forall page | page in PagesOf(bs) ensures page !in BlockPages(b) {
      PagesOfCovered(bs, page);
      BlockPagesCover(b, page);
    }
    assert PagesOf(bs + {b}) == PagesOf(bs) + BlockPages(b);
    BlockPagesSize(b);
  }
}
