/**
  The slab allocator: nine singly linked free lists threaded through the free
  blocks themselves, one per block size.
 */
module Slab {
  import opened Options
  import opened Powers
  import opened Sequences

  const BLOCK_SIZES: seq<nat> := [8, 16, 32, 64, 128, 256, 512, 1024, 2048]
  const NULL: nat := 0

  lemma BlockSizes(i: nat)
    requires i < |BLOCK_SIZES|
    ensures BLOCK_SIZES[i] == Pow2(3 + i) && 4096 % BLOCK_SIZES[i] == 0 && 8 <= BLOCK_SIZES[i] <= 2048
  {
    assert Pow2(3) == 8 && Pow2(7) == 128;
    assert Pow2(11) == 2048;
  }

  /** The first class from `i` on that fits. */
  function FirstFit(size: nat, i: nat): (k: nat)
    requires i <= |BLOCK_SIZES|
    ensures i <= k <= |BLOCK_SIZES|
    ensures k < |BLOCK_SIZES| ==> size <= BLOCK_SIZES[k]
    ensures forall j :: i <= j < k ==> BLOCK_SIZES[j] < size
    decreases |BLOCK_SIZES| - i
  {
    if i == |BLOCK_SIZES| || size <= BLOCK_SIZES[i] then i else FirstFit(size, i + 1)
  }

  /** The class of a size; |BLOCK_SIZES| if it is too large for any. */
  function ClassOf(size: nat): nat {
    FirstFit(size, 0)
  }

  /** list_index: the smallest class that fits, none above 2048 bytes. */
  method ListIndex(size: nat) returns (r: Option<nat>)
    ensures r.None? <==> size > 2048
    ensures r.Some? ==> r.value < |BLOCK_SIZES| && size <= BLOCK_SIZES[r.value]
                        && forall j :: 0 <= j < r.value ==> BLOCK_SIZES[j] < size
    ensures ClassOf(size) == if r.Some? then r.value else |BLOCK_SIZES|
  {
    assert ClassOf(size) == |BLOCK_SIZES| ==> BLOCK_SIZES[8] < size;
    if size > BLOCK_SIZES[|BLOCK_SIZES| - 1] {
      return None;
    }
    for i := 0 to |BLOCK_SIZES|
      invariant forall j :: 0 <= j < i ==> BLOCK_SIZES[j] < size
    {
      if size <= BLOCK_SIZES[i] {
        return Some(i);
      }
    }
    r := None;
  }

  // ----- singly linked lists -----

  function Elem(s: seq<nat>, i: nat): nat {
    if i < |s| then s[i] else NULL
  }

  /** `s` is the list that starts at `head`. */
  ghost predicate Chain(next: map<nat, nat>, head: nat, s: seq<nat>) {
    && head == Elem(s, 0)
    && (forall i :: 0 <= i < |s| ==> Follows(next, s, i))
    && NoDup(s)
  }

  /** Element `i` points at the next one. */
  ghost predicate Follows(next: map<nat, nat>, s: seq<nat>, i: nat)
    requires i < |s|
  {
    s[i] != NULL && s[i] in next && next[s[i]] == Elem(s, i + 1)
  }

  ghost predicate Listed(lists: seq<seq<nat>>, p: nat) {
    exists k :: 0 <= k < |lists| && p in lists[k]
  }

  ghost predicate Lists(next: map<nat, nat>, heads: seq<nat>, lists: seq<seq<nat>>) {
    && |heads| == |lists| == |BLOCK_SIZES|
    && (forall k :: 0 <= k < |lists| ==> Chain(next, heads[k], lists[k]))
    && (forall j, k, p :: 0 <= j < |lists| && 0 <= k < |lists| && p in lists[j] && p in lists[k] ==> j == k)
  }

  lemma PopChain(next: map<nat, nat>, s: seq<nat>)
    requires s != [] && Chain(next, s[0], s)
    ensures s[0] != NULL && s[0] in next && Chain(next, next[s[0]], s[1..]) && s[0] !in s[1..]
  {
    assert Follows(next, s, 0);
    forall i | 0 <= i < |s[1..]| ensures Follows(next, s[1..], i) {
      assert Follows(next, s, i + 1);
    }
  }

  lemma PopLists(next: map<nat, nat>, heads: seq<nat>, lists: seq<seq<nat>>, k: nat)
    requires Lists(next, heads, lists) && k < |lists| && lists[k] != []
    ensures heads[k] == lists[k][0] != NULL && heads[k] in next
    ensures Lists(next, heads[k := next[heads[k]]], lists[k := lists[k][1..]])
  {
    assert Chain(next, heads[k], lists[k]);
    PopChain(next, lists[k]);
    assert forall p :: p in lists[k][1..] ==> p in lists[k];
  }

  lemma PushChain(next: map<nat, nat>, head: nat, s: seq<nat>, p: nat)
    requires Chain(next, head, s) && p != NULL && p !in s
    ensures Chain(next[p := head], p, [p] + s)
  {
    var s', next' := [p] + s, next[p := head];
    forall i | 0 <= i < |s'| ensures Follows(next', s', i) {
      if i > 0 {
        assert s'[i] == s[i - 1] && Follows(next, s, i - 1);
      }
    }
  }

  /** A cell outside a list may be written. */
  lemma ChainFrame(next: map<nat, nat>, next': map<nat, nat>, head: nat, s: seq<nat>)
    requires Chain(next, head, s)
    requires forall p :: p in s && p in next ==> p in next' && next'[p] == next[p]
    ensures Chain(next', head, s)
  {
    forall i | 0 <= i < |s| ensures Follows(next', s, i) {
      assert Follows(next, s, i) && s[i] in s;
    }
  }

  lemma PushLists(next: map<nat, nat>, heads: seq<nat>, lists: seq<seq<nat>>, k: nat, p: nat)
    requires Lists(next, heads, lists) && k < |lists| && p != NULL && !Listed(lists, p)
    ensures Lists(next[p := heads[k]], heads[k := p], lists[k := [p] + lists[k]])
  {
    PushChain(next, heads[k], lists[k], p);
    forall j | 0 <= j < |lists| && j != k ensures Chain(next[p := heads[k]], heads[j], lists[j]) {
      ChainFrame(next, next[p := heads[k]], heads[j], lists[j]);
    }
  }

  // ----- carving a page -----

  /** Block number `j` of a page. */
  function Cell(page: nat, size: nat, j: nat): nat {
    if j == 0 then page else Cell(page, size, j - 1) + size
  }

  lemma {:induction false} CellAt(page: nat, size: nat, j: nat)
    ensures Cell(page, size, j) == page + j * size
  {
    if j > 0 {
      CellAt(page, size, j - 1);
    }
  }

  /** The blocks of a page from number 1 on. */
  function Blocks(page: nat, size: nat, n: nat): seq<nat>
    requires n >= 1
  {
    seq(n - 1, j requires 0 <= j < n - 1 => Cell(page, size, j + 1))
  }

  /** The first `i` blocks of a page are linked, each to the next. */
  ghost predicate Linked(next: map<nat, nat>, page: nat, size: nat, i: nat) {
    forall j :: 0 <= j < i ==> LinkedAt(next, page, size, j)
  }

  ghost predicate LinkedAt(next: map<nat, nat>, page: nat, size: nat, j: nat) {
    Cell(page, size, j) in next && next[Cell(page, size, j)] == Cell(page, size, j + 1)
  }

  lemma {:induction false} CellOrder(page: nat, size: nat, i: nat, j: nat)
    requires i < j && size >= 1
    ensures page <= Cell(page, size, i) < Cell(page, size, j)
  {
    if i + 1 < j {
      CellOrder(page, size, i, j - 1);
    } else if i > 0 {
      CellOrder(page, size, i - 1, i);
    }
  }

  lemma LinkOne(next: map<nat, nat>, page: nat, size: nat, i: nat)
    requires Linked(next, page, size, i) && size >= 1
    ensures Linked(next[Cell(page, size, i) := Cell(page, size, i + 1)], page, size, i + 1)
  {
    var next' := next[Cell(page, size, i) := Cell(page, size, i + 1)];
    forall j | 0 <= j < i + 1 ensures LinkedAt(next', page, size, j) {
      if j < i {
        CellOrder(page, size, j, i);
        assert LinkedAt(next, page, size, j);
      }
    }
  }

  lemma LinkedChain(next: map<nat, nat>, page: nat, size: nat, n: nat)
    requires n >= 2 && Linked(next, page, size, n - 1) && size >= 1 && page != NULL
    ensures Chain(next[Cell(page, size, n - 1) := NULL], Cell(page, size, 1), Blocks(page, size, n))
  {
    var s, last := Blocks(page, size, n), Cell(page, size, n - 1);
    var next' := next[last := NULL];
    forall i | 0 <= i < |s| ensures Follows(next', s, i) {
      CellOrder(page, size, 0, i + 1);
      if i + 1 < |s| {
        CellOrder(page, size, i + 1, n - 1);
        assert LinkedAt(next, page, size, i + 1);
      }
    }
    forall i, j | 0 <= i < j < |s| ensures s[i] != s[j] {
      CellOrder(page, size, i + 1, j + 1);
    }
  }

  /** No list reaches into the page. */
  ghost predicate Outside(lists: seq<seq<nat>>, page: nat) {
    forall p: nat :: Listed(lists, p) ==> p < page || page + 4096 <= p
  }

  lemma CellInside(page: nat, k: nat, j: nat)
    requires k < |BLOCK_SIZES| && j < 4096 / BLOCK_SIZES[k]
    ensures page <= Cell(page, BLOCK_SIZES[k], j) <= page + 4096 - BLOCK_SIZES[k]
  {
    var size := BLOCK_SIZES[k];
    BlockSizes(k);
    CellAt(page, size, j);
    ScaleMonotone(j + 1, 4096 / size, size);
    assert (j + 1) * size == j * size + size;
  }

  lemma CarveLists(next: map<nat, nat>, next': map<nat, nat>, heads: seq<nat>, lists: seq<seq<nat>>, k: nat, page: nat)
    requires Lists(next, heads, lists) && k < |lists| && page != NULL && Outside(lists, page)
    requires forall p :: p in next && (p < page || page + 4096 <= p) ==> p in next' && next'[p] == next[p]
    requires Chain(next', Cell(page, BLOCK_SIZES[k], 1), Blocks(page, BLOCK_SIZES[k], 4096 / BLOCK_SIZES[k]))
    ensures Lists(next', heads[k := Cell(page, BLOCK_SIZES[k], 1)],
                  lists[k := Blocks(page, BLOCK_SIZES[k], 4096 / BLOCK_SIZES[k])])
  {
    var n, s := 4096 / BLOCK_SIZES[k], Blocks(page, BLOCK_SIZES[k], 4096 / BLOCK_SIZES[k]);
    forall j | 0 <= j < |lists| && j != k ensures Chain(next', heads[j], lists[j]) {
      assert forall p :: p in lists[j] ==> Listed(lists, p);
      ChainFrame(next, next', heads[j], lists[j]);
    }
    forall j, p | 0 <= j < |lists| && j != k && p in lists[j] ensures p !in s {
      assert Listed(lists, p);
      forall i | 0 <= i < |s| ensures s[i] != p {
        CellInside(page, k, i + 1);
      }
    }
  }

  class SlabAllocator {
    var heads: seq<nat>
    var next: map<nat, nat>  // the next pointers stored in the blocks
    ghost var lists: seq<seq<nat>>

    ghost predicate Valid()
      reads this
    {
      Lists(next, heads, lists)
    }

    constructor ()
      ensures Valid() && lists == seq(|BLOCK_SIZES|, _ => [])
    {
      heads, next, lists := seq(|BLOCK_SIZES|, _ => NULL), map[], seq(|BLOCK_SIZES|, _ => []);
    }

    /** Pops the head of the list for `size`, if there is one. */
    method Alloc(size: nat) returns (r: Option<nat>)
      requires Valid()
      modifies this`heads, this`lists
      ensures Valid()
      ensures var k := ClassOf(size);
        if k == |BLOCK_SIZES| || old(lists)[k] == [] then r == None && lists == old(lists)
        else r == Some(old(lists)[k][0]) && lists == old(lists)[k := old(lists)[k][1..]]
    {
      var index := ListIndex(size);
      if index.None? {
        return None;
      }
      var k := index.value;
      var head := heads[k];
      if lists[k] != [] {
        PopLists(next, heads, lists, k);
      }
      if head == NULL {
        return None;
      }
      heads := heads[k := next[head]];
      lists := lists[k := lists[k][1..]];
      r := Some(head);
    }

    /** Cuts a page into blocks and makes all but the first the list of class `k`. */
    method PopulateCache(k: nat, page: nat)
      requires Valid() && k < |BLOCK_SIZES| && page != NULL && Outside(lists, page)
      modifies this
      ensures Valid() && lists == old(lists)[k := Blocks(page, BLOCK_SIZES[k], 4096 / BLOCK_SIZES[k])]
    {
      var size := BLOCK_SIZES[k];
      BlockSizes(k);
      var n := 4096 / size;
      var current := page;
      for i := 0 to n - 1
        invariant current == Cell(page, size, i) && Linked(next, page, size, i) && heads == old(heads) && lists == old(lists)
        invariant forall p :: p in old(next) && (p < page || page + 4096 <= p) ==> p in next && next[p] == old(next)[p]
      {
        var following := current + size;
        LinkOne(next, page, size, i);
        CellInside(page, k, i);
        next := next[current := following];
        current := following;
      }
      CellInside(page, k, n - 1);
      LinkedChain(next, page, size, n);
      next := next[current := NULL];
      CarveLists(old(next), next, heads, lists, k, page);
      heads := heads[k := page + size];
      lists := lists[k := Blocks(page, size, n)];
    }

    /** Pushes a block onto the list for `size`. */
    method Free(p: nat, size: nat)
      requires Valid() && size <= 2048 && p != NULL && !Listed(lists, p)
      modifies this
      ensures Valid() && ClassOf(size) < |BLOCK_SIZES|
      ensures lists == old(lists)[ClassOf(size) := [p] + old(lists)[ClassOf(size)]]
    {
      var index := ListIndex(size);
      var k := index.value;
      PushLists(next, heads, lists, k, p);
      next := next[p := heads[k]];
      heads := heads[k := p];
      lists := lists[k := [p] + lists[k]];
    }
  }
}
