/**
  Buddy blocks and the bookkeeping of a buddy allocator, on sets.

  A block is named by its order and its index among the blocks of that order,
  so natural alignment is built in: block (k, i) covers the pages whose
  number shifted right by k is i.
 */
module BuddyBlocks {
  import opened Powers

  const TOP_ORDER: nat := 10

  datatype Block = Block(order: nat, index: nat)

  /** Shifting a page number right by `order` yields the index of its block. */
  predicate Covers(b: Block, page: nat) {
    Shr(page, b.order) == b.index
  }

  function Buddy(b: Block): Block {
    Block(b.order, if b.index % 2 == 0 then b.index + 1 else b.index - 1)
  }

  function Parent(b: Block): Block {
    Block(b.order + 1, b.index / 2)
  }

  function LeftHalf(b: Block): Block
    requires b.order > 0
  {
    Block(b.order - 1, 2 * b.index)
  }

  function RightHalf(b: Block): Block
    requires b.order > 0
  {
    Block(b.order - 1, 2 * b.index + 1)
  }

  /** A block is the disjoint union of its two halves. */
  lemma Halves(b: Block, page: nat)
    requires b.order > 0
    ensures Covers(b, page) <==> Covers(LeftHalf(b), page) || Covers(RightHalf(b), page)
    ensures !(Covers(LeftHalf(b), page) && Covers(RightHalf(b), page))
  {
  }

  /** Every block covers some page. */
  lemma {:induction false} SomePage(b: Block) returns (page: nat)
    ensures Covers(b, page)
    decreases b.order
  {
    if b.order == 0 {
      page := b.index;
    } else {
      page := SomePage(LeftHalf(b));
      Halves(b, page);
    }
  }

  // ----- families of blocks -----

  ghost predicate Apart(bs: set<Block>) {
    forall b, c, page :: b in bs && c in bs && Covers(b, page) && Covers(c, page) ==> b == c
  }

  ghost predicate Within(bs: set<Block>, pages: set<nat>) {
    forall b, page :: b in bs && Covers(b, page) ==> page in pages
  }

  ghost predicate Covered(bs: set<Block>, page: nat) {
    exists b :: b in bs && Covers(b, page)
  }

  /** The blocks are disjoint and together cover exactly `pages`. */
  ghost predicate Tiles(bs: set<Block>, pages: set<nat>) {
    Apart(bs) && Within(bs, pages) && forall page :: page in pages ==> Covered(bs, page)
  }

  lemma SplitTiles(bs: set<Block>, pages: set<nat>, b: Block)
    requires Tiles(bs, pages) && b in bs && b.order > 0
    ensures Tiles(bs - {b} + {LeftHalf(b), RightHalf(b)}, pages)
    ensures LeftHalf(b) !in bs && RightHalf(b) !in bs
  {
    var l, r := LeftHalf(b), RightHalf(b);
    var cs := bs - {b} + {l, r};
    forall page ensures Covers(b, page) <==> Covers(l, page) || Covers(r, page) {
      Halves(b, page);
    }
    forall page ensures !(Covers(l, page) && Covers(r, page)) {
      Halves(b, page);
    }
    forall page | page in pages ensures Covered(cs, page) {
      var c :| c in bs && Covers(c, page);
      if c == b {
        assert Covers(l, page) || Covers(r, page);
        assert l in cs && r in cs;
      } else {
        assert c in cs;
      }
    }
    var lp := SomePage(l);
    var rp := SomePage(r);
    assert Covers(b, lp) && Covers(b, rp);
  }

  lemma MergeTiles(bs: set<Block>, pages: set<nat>, b: Block)
    requires Tiles(bs, pages) && b.order > 0 && LeftHalf(b) in bs && RightHalf(b) in bs
    ensures Tiles(bs - {LeftHalf(b), RightHalf(b)} + {b}, pages)
    ensures b !in bs
  {
    var l, r := LeftHalf(b), RightHalf(b);
    var cs := bs - {l, r} + {b};
    forall page ensures Covers(b, page) <==> Covers(l, page) || Covers(r, page) {
      Halves(b, page);
    }
    forall page | page in pages ensures Covered(cs, page) {
      var c :| c in bs && Covers(c, page);
      if c == l || c == r {
        assert Covers(b, page) && b in cs;
      } else {
        assert c in cs;
      }
    }
    var lp := SomePage(l);
    assert Covers(b, lp);
  }

  // ----- the allocator's state, seen as sets -----

  /** Free blocks, blocks handed out, and the pages ever fed in. */
  datatype Pool = Pool(free: set<Block>, live: set<Block>, pages: set<nat>)

  ghost predicate Inv(s: Pool) {
    && s.free !! s.live && Tiles(s.free + s.live, s.pages)
    && forall b :: b in s.free + s.live ==> b.order <= TOP_ORDER
  }

  /** No two buddies below the top order are both free. */
  ghost predicate Coalesced(free: set<Block>) {
    forall b :: b in free && b.order < TOP_ORDER ==> Buddy(b) !in free
  }

  // Elementary steps.  A block on its way in or out counts as live.

  function Take(s: Pool, b: Block): Pool {
    s.(free := s.free - {b}, live := s.live + {b})
  }

  function Give(s: Pool, b: Block): Pool {
    s.(free := s.free + {b}, live := s.live - {b})
  }

  function Split(s: Pool, b: Block): Pool
    requires b.order > 0
  {
    s.(free := s.free + {RightHalf(b)}, live := s.live - {b} + {LeftHalf(b)})
  }

  function Merge(s: Pool, b: Block): Pool {
    s.(free := s.free - {Buddy(b)}, live := s.live - {b} + {Parent(b)})
  }

  lemma TakeKeeps(s: Pool, b: Block)
    requires Inv(s) && b in s.free
    ensures Inv(Take(s, b)) && (Coalesced(s.free) ==> Coalesced(Take(s, b).free))
  {
    assert (s.free - {b}) + (s.live + {b}) == s.free + s.live;
  }

  lemma GiveKeeps(s: Pool, b: Block)
    requires Inv(s) && b in s.live
    ensures Inv(Give(s, b))
    ensures Coalesced(s.free) && (b.order == TOP_ORDER || Buddy(b) !in s.free) ==> Coalesced(Give(s, b).free)
  {
    assert (s.free + {b}) + (s.live - {b}) == s.free + s.live;
    assert forall c :: Buddy(c) == b ==> c == Buddy(b);
  }

  lemma SplitKeeps(s: Pool, b: Block)
    requires Inv(s) && b in s.live && b.order > 0
    ensures Inv(Split(s, b)) && (Coalesced(s.free) ==> Coalesced(Split(s, b).free))
    ensures RightHalf(b) !in s.free && LeftHalf(b) !in s.free
  {
    var l, r := LeftHalf(b), RightHalf(b);
    SplitTiles(s.free + s.live, s.pages, b);
    var s' := Split(s, b);
    assert s'.free + s'.live == (s.free + s.live) - {b} + {l, r};
    assert Buddy(r) == l && forall c :: Buddy(c) == r ==> c == l;
  }

  lemma MergeKeeps(s: Pool, b: Block)
    requires Inv(s) && b in s.live && Buddy(b) in s.free && b.order < TOP_ORDER
    ensures Inv(Merge(s, b)) && (Coalesced(s.free) ==> Coalesced(Merge(s, b).free))
  {
    var p := Parent(b);
    assert {LeftHalf(p), RightHalf(p)} == {b, Buddy(b)};
    MergeTiles(s.free + s.live, s.pages, p);
    var s' := Merge(s, b);
    assert s'.free + s'.live == (s.free + s.live) - {b, Buddy(b)} + {p};
  }

  // ----- whole calls -----

  /** Halves the live block `b` until its left end has the wanted order. */
  function Carve(s: Pool, b: Block, order: nat): Pool
    requires order <= b.order
    decreases b.order
  {
    if b.order == order then s else Carve(Split(s, b), LeftHalf(b), order)
  }

  function LeftEnd(b: Block, order: nat): Block
    requires order <= b.order
    decreases b.order
  {
    if b.order == order then b else LeftEnd(LeftHalf(b), order)
  }

  lemma {:induction false} CarveKeeps(s: Pool, b: Block, order: nat)
    requires Inv(s) && b in s.live && order <= b.order
    ensures var (s', c) := (Carve(s, b, order), LeftEnd(b, order));
      && Inv(s') && (Coalesced(s.free) ==> Coalesced(s'.free))
      && s'.live == s.live - {b} + {c} && s'.pages == s.pages
      && c.order == order && Inside(c, b) && c !in s.live - {b}
    decreases b.order
  {
    if b.order > order {
      SplitKeeps(s, b);
      SplitTiles(s.free + s.live, s.pages, b);
      var l := LeftHalf(b);
      CarveKeeps(Split(s, b), l, order);
      assert s.live - {b} + {l} - {l} == s.live - {b};
      forall page | Covers(LeftEnd(b, order), page) ensures Covers(b, page) {
        Halves(b, page);
      }
    }
  }

  /** Merges the live block `b` with free buddies as far as possible, then frees it. */
  function Absorb(s: Pool, b: Block): Pool
    decreases TOP_ORDER - b.order
  {
    if b.order < TOP_ORDER && Buddy(b) in s.free then Absorb(Merge(s, b), Parent(b)) else Give(s, b)
  }

  lemma {:induction false} AbsorbKeeps(s: Pool, b: Block)
    requires Inv(s) && b in s.live
    ensures var s' := Absorb(s, b);
      && Inv(s') && (Coalesced(s.free) ==> Coalesced(s'.free))
      && s'.live == s.live - {b} && s'.pages == s.pages
    decreases TOP_ORDER - b.order
  {
    if b.order < TOP_ORDER && Buddy(b) in s.free {
      MergeKeeps(s, b);
      var p := Parent(b);
      assert {LeftHalf(p), RightHalf(p)} == {b, Buddy(b)};
      MergeTiles(s.free + s.live, s.pages, p);
      AbsorbKeeps(Merge(s, b), p);
      assert s.live - {b} + {p} - {p} == s.live - {b};
    } else {
      GiveKeeps(s, b);
    }
  }

  // ----- canonical form -----

  lemma {:induction false} SameShr(p: nat, q: nat, k: nat, m: nat)
    requires Shr(p, k) == Shr(q, k) && k <= m
    ensures Shr(p, m) == Shr(q, m)
    decreases m - k
  {
    if k < m {
      SameShr(p, q, k, m - 1);
    }
  }

  ghost predicate Inside(b: Block, c: Block) {
    b.order <= c.order && forall page :: Covers(b, page) ==> Covers(c, page)
  }

  /** Blocks that share a page are nested. */
  lemma Nested(b: Block, c: Block, page: nat)
    requires Covers(b, page) && Covers(c, page) && b.order <= c.order
    ensures Inside(b, c)
    ensures b.order == c.order ==> b == c
  {
    forall q | Covers(b, q) ensures Covers(c, q) {
      SameShr(page, q, b.order, c.order);
    }
  }

  /** In a coalesced family, a block whose pages are all covered lies inside
      one member: two halves cannot be covered separately. */
  lemma {:induction false} CoveredByOne(bs: set<Block>, b: Block) returns (c: Block)
    requires Apart(bs) && Coalesced(bs) && b.order <= TOP_ORDER
    requires forall page :: Covers(b, page) ==> Covered(bs, page)
    ensures c in bs && Inside(b, c)
    decreases b.order
  {
    if b.order == 0 {
      assert Covers(b, b.index);
      c :| c in bs && Covers(c, b.index);
      Nested(b, c, b.index);
    } else {
      var l, r := LeftHalf(b), RightHalf(b);
      forall page | Covers(l, page) || Covers(r, page) ensures Covered(bs, page) {
        Halves(b, page);
      }
      c := CoveredByOne(bs, l);
      var d := CoveredByOne(bs, r);
      var lp := SomePage(l);
      var rp := SomePage(r);
      Halves(b, lp);
      Halves(b, rp);
      assert Buddy(l) == r;
      if c.order > l.order {
        Nested(b, c, lp);
      } else if d.order > r.order {
        Nested(b, d, rp);
        c := d;
      } else {
        Nested(l, c, lp);
        Nested(r, d, rp);
        assert false;
      }
    }
  }

  lemma {:induction false} CanonicalSubset(bs: set<Block>, cs: set<Block>, b: Block)
    requires Apart(bs) && Coalesced(bs) && Apart(cs) && Coalesced(cs)
    requires forall c :: c in bs + cs ==> c.order <= TOP_ORDER
    requires forall page :: Covered(bs, page) <==> Covered(cs, page)
    requires b in bs
    ensures b in cs
  {
    forall page | Covers(b, page) ensures Covered(cs, page) {
      assert Covered(bs, page);
    }
    var c := CoveredByOne(cs, b);
    forall page | Covers(c, page) ensures Covered(bs, page) {
      assert Covered(cs, page);
    }
    var d := CoveredByOne(bs, c);
    var page := SomePage(b);
    assert Covers(d, page);
    Nested(b, c, page);
  }

  /** A coalesced family is determined by the pages it covers. */
  lemma {:induction false} CanonicalForm(bs: set<Block>, cs: set<Block>)
    requires Apart(bs) && Coalesced(bs) && Apart(cs) && Coalesced(cs)
    requires forall c :: c in bs + cs ==> c.order <= TOP_ORDER
    requires forall page :: Covered(bs, page) <==> Covered(cs, page)
    ensures bs == cs
  {
    forall b ensures b in bs <==> b in cs {
      if b in bs {
        CanonicalSubset(bs, cs, b);
      } else if b in cs {
        CanonicalSubset(cs, bs, b);
      }
    }
  }

  lemma FreePages(s: Pool, page: nat)
    requires Inv(s)
    ensures Covered(s.free, page) <==> page in s.pages && !Covered(s.live, page)
  {
    if page in s.pages {
      assert Covered(s.free + s.live, page);
    }
  }

  /** What is free depends only on what was fed in and what is handed out,
      not on the order of the calls that led there.  In particular, freeing
      everything in any order restores the initial free blocks. */
  lemma {:induction false} FreeDeterminedByLive(s: Pool, s': Pool)
    requires Inv(s) && Inv(s') && Coalesced(s.free) && Coalesced(s'.free)
    requires s.pages == s'.pages && s.live == s'.live
    ensures s.free == s'.free
  {
    forall page ensures Covered(s.free, page) <==> Covered(s'.free, page) {
      FreePages(s, page);
      FreePages(s', page);
    }
    CanonicalForm(s.free, s'.free);
  }
}
