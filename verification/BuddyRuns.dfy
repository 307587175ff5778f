/**
  Feeding whole regions of memory to the buddy allocator, and every run of
  feeding, allocating and releasing.
 */
module BuddyRuns {
  import opened Powers
  import opened BuddyBlocks
  import opened BuddyGeometry

  // ----- one region -----

  /** `pieces` cover exactly pages lo..hi and could not be larger. */
  ghost predicate Cut(pieces: set<Block>, lo: nat, hi: nat) {
    Inv(Pool(pieces, {}, Range(lo, hi))) && Coalesced(pieces)
  }

  /** There is only one way to cut a region. */
  lemma CutUnique(pieces: set<Block>, others: set<Block>, lo: nat, hi: nat)
    requires Cut(pieces, lo, hi) && Cut(others, lo, hi)
    ensures pieces == others
  {
    FreeDeterminedByLive(Pool(pieces, {}, Range(lo, hi)), Pool(others, {}, Range(lo, hi)));
  }

  /** A region that was not managed before becomes free memory. */
  function Grow(s: Pool, pieces: set<Block>, lo: nat, hi: nat): Pool {
    Pool(s.free + pieces, s.live, s.pages + Range(lo, hi))
  }

  /** No free block is the buddy of a piece. */
  ghost predicate Clean(free: set<Block>, pieces: set<Block>) {
    forall b :: b in free && b.order < TOP_ORDER ==> Buddy(b) !in pieces
  }

  /** Feeding never joins blocks, so the free blocks stay coalesced exactly
      when no piece of the region has a free buddy. */
  lemma GrowKeeps(s: Pool, pieces: set<Block>, lo: nat, hi: nat)
    requires Inv(s) && Cut(pieces, lo, hi) && s.pages !! Range(lo, hi)
    ensures Inv(Grow(s, pieces, lo, hi))
    ensures Coalesced(Grow(s, pieces, lo, hi).free) <==> Coalesced(s.free) && Clean(s.free, pieces)
  {
    GrowTiles(s, pieces, lo, hi);
    forall b | b in pieces && b.order < TOP_ORDER && Clean(s.free, pieces) ensures Buddy(b) !in s.free {
      assert Buddy(Buddy(b)) == b;
    }
  }

  lemma GrowTiles(s: Pool, pieces: set<Block>, lo: nat, hi: nat)
    requires Inv(s) && Cut(pieces, lo, hi) && s.pages !! Range(lo, hi)
    ensures Inv(Grow(s, pieces, lo, hi))
  {
    var s', r := Grow(s, pieces, lo, hi), Pool(pieces, {}, Range(lo, hi));
    assert r.free + r.live == pieces && s'.free + s'.live == s.free + s.live + pieces;
    forall b | b in pieces ensures b !in s.free + s.live {
      CoversFirst(b);
    }
    forall page ensures page in s'.pages <==> Covered(s'.free + s'.live, page) {
      if page in s'.pages {
        assert Covered(if page in s.pages then s.free + s.live else pieces, page);
      }
    }
  }

  /** Pages around a region are not managed. */
  ghost predicate Island(s: Pool, lo: nat, hi: nat) {
    hi !in s.pages && (lo > 0 ==> lo - 1 !in s.pages)
  }

  lemma IslandClean(s: Pool, pieces: set<Block>, lo: nat, hi: nat)
    requires Inv(s) && Cut(pieces, lo, hi) && s.pages !! Range(lo, hi) && Island(s, lo, hi)
    ensures Clean(s.free, pieces)
  {
    forall b | b in s.free && b.order < TOP_ORDER ensures Buddy(b) !in pieces {
      if Buddy(b) in pieces {
        Neighbours(s, pieces, lo, hi, b);
      }
    }
  }

  /** A free block beside a piece that is its buddy touches the region. */
  lemma Neighbours(s: Pool, pieces: set<Block>, lo: nat, hi: nat, b: Block)
    requires Inv(s) && Cut(pieces, lo, hi) && s.pages !! Range(lo, hi) && b in s.free && Buddy(b) in pieces
    ensures !Island(s, lo, hi)
  {
    var c, p := Buddy(b), Pow2(b.order);
    Pow2Monotone(0, b.order);
    BuddyFirst(b);
    PieceInside(pieces, lo, hi, c);
    if b.index % 2 == 1 {
      CoversFirst(b);
      assert First(b) == First(c) + p && First(b) in s.pages;
    } else {
      CoversRange(b, First(c) - 1);
      assert First(c) - 1 in s.pages;
    }
  }

  lemma PieceInside(pieces: set<Block>, lo: nat, hi: nat, c: Block)
    requires Cut(pieces, lo, hi) && c in pieces
    ensures lo <= First(c) && First(c) + Pow2(c.order) <= hi
  {
    Pow2Monotone(0, c.order);
    CoversFirst(c);
    CoversRange(c, First(c) + Pow2(c.order) - 1);
    assert First(c) in Range(lo, hi) && First(c) + Pow2(c.order) - 1 in Range(lo, hi);
  }

  /** It does happen: two pages fed one after the other remain two blocks. */
  lemma TouchingRegions()
    ensures var (a, b) := (Block(0, 0), Block(0, 1));
      && Cut({a}, 0, 1) && Cut({b}, 1, 2)
      && Inv(Pool({a}, {}, Range(0, 1))) && Coalesced({a}) && !Coalesced(Grow(Pool({a}, {}, Range(0, 1)), {b}, 1, 2).free)
  {
    SinglePage(0);
    SinglePage(1);
    assert Buddy(Block(0, 0)) == Block(0, 1);
  }

  lemma SinglePage(n: nat)
    ensures Cut({Block(0, n)}, n, n + 1)
  {
    var b := Block(0, n);
    assert {b} + {} == {b};
    forall page ensures Covers(b, page) <==> page == n {
    }
    assert Covered({b}, n);
  }

  // ----- cutting a region, block by block -----

  /** The block that add_free_region carves at `page` when the region ends at `hi`. */
  function Carved(base: nat, page: nat, hi: nat): Block
    requires page < hi
  {
    var k := CarveOrder(base + 4096 * page, hi - page);
    Block(k, Shr(page, k))
  }

  /** Pages lo..page of the region lo..hi have been cut. */
  ghost predicate Cutting(pieces: set<Block>, lo: nat, page: nat, hi: nat) {
    lo <= page && Cut(pieces, lo, page) && Greedy(pieces, lo, page, hi)
  }

  lemma CuttingStart(lo: nat, hi: nat)
    ensures Cutting({}, lo, lo, hi)
  {
    assert Range(lo, lo) == {};
  }

  lemma FeedGreedy(s: Pool, b: Block, lo: nat, hi: nat)
    requires Inv(s) && Greedy(s.free, lo, First(b), hi)
    requires b.order == TOP_ORDER || b.index % 2 == 1 || hi - First(b) < Pow2(b.order + 1)
    requires First(b) + Pow2(b.order) <= hi && s.pages !! Range(First(b), hi)
    ensures Greedy(Feed(s, b).free, lo, First(b) + Pow2(b.order), hi)
  {
    forall c | First(b) <= First(c) < hi ensures c !in s.free {
      CoversFirst(c);
      assert First(c) in Range(First(b), hi);
    }
  }

  lemma CuttingNext(base: nat, pieces: set<Block>, lo: nat, page: nat, hi: nat)
    requires BaseAligned(base) && page < hi && Cutting(pieces, lo, page, hi)
    ensures var b := Carved(base, page, hi);
      && b.order <= TOP_ORDER && First(b) == page && page < page + Pow2(b.order) <= hi
      && Cutting(pieces + {b}, lo, page + Pow2(b.order), hi)
  {
    var b, s := Carved(base, page, hi), Pool(pieces, {}, Range(lo, page));
    CarveBlock(base, page, hi - page);
    Pow2Monotone(0, b.order);
    FeedKeeps(s, b);
    FeedGreedy(s, b, lo, hi);
    FeedCoalesced(s, b, lo, hi);
    RangeJoin(lo, page, page + Pow2(b.order));
    assert Feed(s, b) == Pool(pieces + {b}, {}, Range(lo, page + Pow2(b.order)));
  }

  lemma GrowNothing(s: Pool, lo: nat)
    ensures Grow(s, {}, lo, lo) == s
  {
    assert Range(lo, lo) == {};
  }

  lemma GrowApart(s: Pool, pieces: set<Block>, lo: nat, page: nat, hi: nat)
    requires lo <= page && s.pages !! Range(lo, hi)
    ensures Grow(s, pieces, lo, page).pages !! Range(page, hi)
  {
  }

  lemma GrowNext(s: Pool, pieces: set<Block>, lo: nat, page: nat, b: Block)
    requires lo <= page && First(b) == page
    ensures Feed(Grow(s, pieces, lo, page), b) == Grow(s, pieces + {b}, lo, page + Pow2(b.order))
  {
    RangeJoin(lo, page, page + Pow2(b.order));
  }

  // ----- runs -----

  datatype Call = Insert(lo: nat, hi: nat, pieces: set<Block>) | Allocate(from: Block, order: nat) | Release(block: Block)

  /** One add_free_region over new memory, one successful alloc or one legal free. */
  ghost predicate Step(s: Pool, c: Call, s': Pool) {
    match c
    case Insert(lo, hi, pieces) => s.pages !! Range(lo, hi) && Cut(pieces, lo, hi) && s' == Grow(s, pieces, lo, hi)
    case Allocate(d, k) => d in s.free && k <= d.order && s' == Carve(Take(s, d), d, k)
    case Release(b) => b in s.live && s' == Absorb(s, b)
  }

  ghost predicate Run(states: seq<Pool>, calls: seq<Call>) {
    && |states| == |calls| + 1
    && forall i :: 0 <= i < |calls| ==> Step(states[i], calls[i], states[i + 1])
  }

  ghost function Fed(c: Call): set<nat> {
    match c
    case Insert(lo, hi, _) => Range(lo, hi)
    case Allocate(_, _) => {}
    case Release(_) => {}
  }

  ghost function FedBy(calls: seq<Call>): set<nat> {
    if calls == [] then {} else FedBy(calls[..|calls| - 1]) + Fed(calls[|calls| - 1])
  }

  /** The call feeds nothing next to a free buddy. */
  ghost predicate Joined(s: Pool, c: Call) {
    c.Insert? ==> Clean(s.free, c.pieces)
  }

  ghost predicate AllJoined(states: seq<Pool>, calls: seq<Call>, i: nat) {
    forall j :: 0 <= j < i && j < |states| && j < |calls| ==> Joined(states[j], calls[j])
  }

  lemma {:induction false} StepKeeps(s: Pool, c: Call, s': Pool)
    requires Inv(s) && Step(s, c, s')
    ensures Inv(s') && s'.pages == s.pages + Fed(c)
    ensures Coalesced(s.free) && Joined(s, c) ==> Coalesced(s'.free)
    ensures c.Insert? ==> (Coalesced(s'.free) <==> Coalesced(s.free) && Joined(s, c))
    ensures s'.live == match c
      case Insert(_, _, _) => s.live
      case Allocate(d, k) => s.live + {LeftEnd(d, k)}
      case Release(b) => s.live - {b}
    ensures c.Allocate? ==> LeftEnd(c.from, c.order) !in s.live
  {
    match c
    case Insert(lo, hi, pieces) => GrowKeeps(s, pieces, lo, hi);
    case Allocate(d, k) =>
      TakeKeeps(s, d);
      CarveKeeps(Take(s, d), d, k);
      assert s.live + {d} - {d} == s.live;
    case Release(b) => AbsorbKeeps(s, b);
  }

  /** In every run the blocks stay disjoint and cover exactly the fed pages. */
  lemma {:induction false} RunKeeps(states: seq<Pool>, calls: seq<Call>, i: nat)
    requires Run(states, calls) && Inv(states[0]) && i < |states|
    ensures Inv(states[i]) && states[i].pages == states[0].pages + FedBy(calls[..i])
    ensures Coalesced(states[0].free) && AllJoined(states, calls, i) ==> Coalesced(states[i].free)
  {
    if i > 0 {
      RunKeeps(states, calls, i - 1);
      StepKeeps(states[i - 1], calls[i - 1], states[i]);
      assert calls[..i][..i - 1] == calls[..i - 1];
    }
  }

  /** Whenever the same blocks are handed out, of the same memory, at two
      points of a run, the same blocks are free: once everything is released,
      in whatever order, the initial free blocks are back. */
  lemma RunRestores(states: seq<Pool>, calls: seq<Call>, i: nat, j: nat)
    requires Run(states, calls) && Inv(states[0]) && Coalesced(states[0].free)
    requires AllJoined(states, calls, |calls|)
    requires i < |states| && j < |states| && states[i].live == states[j].live && states[i].pages == states[j].pages
    ensures states[i].free == states[j].free
  {
    RunKeeps(states, calls, i);
    RunKeeps(states, calls, j);
    FreeDeterminedByLive(states[i], states[j]);
  }
}
