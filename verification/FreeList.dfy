/**
  Intrusive doubly linked lists: the free list of one order, threaded through
  the first bytes of the free blocks themselves.
 */
module FreeList {
  import opened Sequences

  type Addr = nat
  const NULL: Addr := 0

  datatype FreeBlock = FreeBlock(next: Addr, prev: Addr)
  type Memory = map<Addr, FreeBlock>

  /** Starting at `head`, the memory links exactly the blocks of `s`, both ways. */
  ghost predicate Chain(m: Memory, head: Addr, s: seq<Addr>) {
    && head == (if s == [] then NULL else s[0])
    && NoDup(s) && NULL !in s
    && forall i :: 0 <= i < |s| ==> Linked(m, s, i)
  }

  /** Element `i` points at its two neighbours. */
  ghost predicate Linked(m: Memory, s: seq<Addr>, i: nat)
    requires i < |s|
  {
    s[i] in m && m[s[i]] == FreeBlock(At(s, i + 1), At(s, i - 1))
  }

  function At(s: seq<Addr>, i: int): Addr {
    if 0 <= i < |s| then s[i] else NULL
  }

  lemma ChainFrame(m: Memory, m': Memory, head: Addr, s: seq<Addr>)
    requires Chain(m, head, s)
    requires forall a :: a in s && a in m ==> a in m' && m'[a] == m[a]
    ensures Chain(m', head, s)
  {
    forall i | 0 <= i < |s| ensures Linked(m', s, i) {
      assert Linked(m, s, i) && s[i] in s;
    }
  }

  lemma ChainCells(m: Memory, head: Addr, s: seq<Addr>)
    requires Chain(m, head, s)
    ensures forall a :: a in s ==> a in m
  {
    forall i | 0 <= i < |s| ensures s[i] in m {
      assert Linked(m, s, i);
    }
  }

  /** The memory after `b` is pushed in front of `head`. */
  function Pushed(m: Memory, head: Addr, b: Addr): Memory {
    var m1 := m[b := FreeBlock(head, NULL)];
    if head == NULL || head !in m1 then m1 else m1[head := m1[head].(prev := b)]
  }

  lemma PushChain(m: Memory, head: Addr, s: seq<Addr>, b: Addr)
    requires Chain(m, head, s) && b !in s && b != NULL
    ensures Chain(Pushed(m, head, b), b, [b] + s)
  {
    var s' := [b] + s;
    var m' := Pushed(m, head, b);
    assert s != [] ==> Linked(m, s, 0);
    forall i | 0 <= i < |s'| ensures Linked(m', s', i) {
      if i > 0 {
        assert s'[i] == s[i - 1] && Linked(m, s, i - 1);
      }
    }
  }

  function Without(s: seq<Addr>, i: nat): seq<Addr>
    requires i < |s|
  {
    s[..i] + s[i + 1..]
  }

  /** The memory after `b` is unlinked from its neighbours. */
  function Unlinked(m: Memory, b: Addr): Memory
    requires b in m
  {
    var n, p := m[b].next, m[b].prev;
    var m1 := if p == NULL || p !in m then m else m[p := m[p].(next := n)];
    if n == NULL || n !in m1 then m1 else m1[n := m1[n].(prev := p)]
  }

  /** Only the two neighbours of the unlinked node change. */
  lemma UnlinkCell(m: Memory, head: Addr, s: seq<Addr>, i: nat, k: nat)
    requires Chain(m, head, s) && i < |s| && k < |s| && k != i
    ensures s[i] in m && var m' := Unlinked(m, s[i]);
      && s[k] in m'
      && m'[s[k]].next == At(s, if k + 1 == i then i + 1 else k + 1)
      && m'[s[k]].prev == At(s, if k == i + 1 then i - 1 else k - 1)
  {
    assert Linked(m, s, i) && Linked(m, s, k);
    assert i > 0 ==> Linked(m, s, i - 1);
    assert i + 1 < |s| ==> Linked(m, s, i + 1);
    assert s[k] == At(s, i - 1) <==> k == i - 1;
    assert s[k] == At(s, i + 1) <==> k == i + 1;
  }

  lemma WithoutAt(s: seq<Addr>, i: nat, j: int)
    requires i < |s|
    ensures At(Without(s, i), j) == At(s, if j < i then j else j + 1)
  {
  }

  lemma UnlinkChain(m: Memory, head: Addr, s: seq<Addr>, i: nat)
    requires Chain(m, head, s) && i < |s|
    ensures s[i] in m && Chain(Unlinked(m, s[i]), if i == 0 then m[s[i]].next else head, Without(s, i))
  {
    assert Linked(m, s, i);
    var s', m' := Without(s, i), Unlinked(m, s[i]);
    forall j | 0 <= j < |s'| ensures Linked(m', s', j) {
      UnlinkCell(m, head, s, i, if j < i then j else j + 1);
      WithoutAt(s, i, j + 1);
      WithoutAt(s, i, j - 1);
    }
    WithoutNoDup(s, i);
  }

  lemma WithoutNoDup(s: seq<Addr>, i: nat)
    requires i < |s| && NoDup(s)
    ensures NoDup(Without(s, i))
  {
    var s' := Without(s, i);
    forall j, k | 0 <= j < k < |s'| ensures s'[j] != s'[k] {
      assert s'[j] == s[if j < i then j else j + 1] && s'[k] == s[if k < i then k else k + 1];
    }
  }

  lemma WithoutMembers(s: seq<Addr>, i: nat, a: Addr)
    requires i < |s| && NoDup(s)
    ensures a in Without(s, i) <==> a in s && a != s[i]
  {
    var s' := Without(s, i);
    if a in s && a != s[i] {
      var j :| 0 <= j < |s| && s[j] == a;
      assert s'[if j < i then j else j - 1] == a;
    }
    if a in s' {
      var j :| 0 <= j < |s'| && s'[j] == a;
      assert s[if j < i then j else j + 1] == a;
    }
  }

  // ----- one list per order, sharing no block -----

  ghost predicate Lists(m: Memory, heads: seq<Addr>, lists: seq<seq<Addr>>) {
    && |heads| == |lists|
    && (forall k :: 0 <= k < |lists| ==> Chain(m, heads[k], lists[k]))
    && (forall j, k, a :: 0 <= j < k < |lists| && a in lists[j] ==> a !in lists[k])
  }

  ghost predicate Listed(lists: seq<seq<Addr>>, a: Addr) {
    exists k :: 0 <= k < |lists| && a in lists[k]
  }

  lemma PushLists(m: Memory, heads: seq<Addr>, lists: seq<seq<Addr>>, k: nat, b: Addr)
    requires Lists(m, heads, lists) && k < |lists| && b != NULL && !Listed(lists, b)
    ensures Lists(Pushed(m, heads[k], b), heads[k := b], lists[k := [b] + lists[k]])
  {
    var m' := Pushed(m, heads[k], b);
    PushChain(m, heads[k], lists[k], b);
    assert heads[k] == NULL || heads[k] in lists[k];
    forall j | 0 <= j < |lists| && j != k ensures Chain(m', heads[j], lists[j]) {
      ChainFrame(m, m', heads[j], lists[j]);
    }
  }

  lemma UnlinkLists(m: Memory, heads: seq<Addr>, lists: seq<seq<Addr>>, k: nat, i: nat)
    requires Lists(m, heads, lists) && k < |lists| && i < |lists[k]|
    ensures lists[k][i] in m
    ensures Lists(Unlinked(m, lists[k][i]), if i == 0 then heads[k := m[lists[k][i]].next] else heads,
                  lists[k := Without(lists[k], i)])
  {
    var s := lists[k];
    assert Chain(m, heads[k], s) && Linked(m, s, i);
    var m' := Unlinked(m, s[i]);
    UnlinkChain(m, heads[k], s, i);
    forall j | 0 <= j < |lists| && j != k ensures Chain(m', heads[j], lists[j]) {
      ChainFrame(m, m', heads[j], lists[j]);
    }
    forall a | a in Without(s, i) ensures a in s {
      WithoutMembers(s, i, a);
    }
  }
}
