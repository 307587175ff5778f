/**
  What mapping a range of pages costs in frames: one for every page, and one
  for every table that the ways to them lack.
 */
module PageCost {
  import opened Sequences
  import opened PageTree
  import opened VirtualPages

  /** The paths of all tables on the ways to pages lo..hi. */
  ghost function TablesFor(lo: nat, hi: nat): set<Node>
    requires lo <= hi
    decreases hi
  {
    if lo == hi then {} else TablesFor(lo, hi - 1) + TablesOnWay(PageOf(hi - 1))
  }

  /** The frames it takes to map pages lo..hi, none of which is mapped. */
  ghost function Cost(node: Tree, lo: nat, hi: nat): nat
    requires lo <= hi
  {
    hi - lo + |TablesFor(lo, hi) - node.Keys|
  }

  /** The tables of `node'` are those of `node` and those for pages lo..hi. */
  ghost predicate Paved(node: Tree, node': Tree, lo: nat, hi: nat)
    requires lo <= hi
  {
    forall q :: |q| < 4 ==> (q in node' <==> q in node || q in TablesFor(lo, hi))
  }

  /** One more page costs its frame and the tables that are still missing. */
  lemma CostStep(node: Tree, t: Tables, root: Frame, now: Tree, lo: nat, v: nat)
    requires lo <= v && Paved(node, now, lo, v) && Shape(t, root, now)
    ensures Cost(node, lo, v + 1) == Cost(node, lo, v) + 1 + Missing(now, PageOf(v))
  {
    MissingIsCount(t, root, now, PageOf(v));
    WayIsShort(PageOf(v));
    NewOnes(TablesFor(lo, v), TablesOnWay(PageOf(v)), node.Keys, now.Keys);
  }

  lemma WayIsShort(page: Node)
    requires |page| == 4
    ensures forall q :: q in TablesOnWay(page) ==> |q| < 4
  {
  }

  /** Of the tables on a way, those that are in neither `keys` nor `tables` are new. */
  lemma NewOnes(tables: set<Node>, way: set<Node>, keys: set<Node>, now: set<Node>)
    requires forall q :: q in way ==> (q in now <==> q in keys || q in tables)
    ensures |tables + way - keys| == |tables - keys| + |way - now|
  {
    assert tables + way - keys == (tables - keys) + (way - now);
    SizeOfUnion(tables - keys, way - now);
  }

  /** Mapping page `v` adds the tables on its way. */
  lemma PavedStep(node: Tree, now: Tree, t': Tables, root: Frame, now': Tree, lo: nat, v: nat)
    requires lo <= v && [] in now && Paved(node, now, lo, v) && WayGrew(now, now', PageOf(v))
    requires Shape(t', root, now') && PageOf(v) in now'
    ensures Paved(node, now', lo, v + 1)
  {
    var page := PageOf(v);
    forall q | |q| < 4 ensures q in now' <==> q in node || q in TablesFor(lo, v + 1) {
      OnTheWay(t', root, now', page, q);
      assert [] in now' && [] !in TablesOnWay(page) && (q in now ==> q in now');
    }
  }

  lemma OnTheWay(t: Tables, root: Frame, node: Tree, page: Node, q: Node)
    requires Shape(t, root, node) && |page| == 4 && page in node && |q| < 4
    ensures q <= page <==> q in TablesOnWay(page) || q == []
    ensures q <= page ==> q in node
  {
    if q <= page {
      assert q == page[..|q|] && page[..4] == page;
      if q !in node {
        PrefixMissing(t, root, node, page, |q|, 4);
      }
    }
  }

  lemma {:induction false} TablesForGrows(lo: nat, v: nat, hi: nat)
    requires lo <= v <= hi
    ensures TablesFor(lo, v) <= TablesFor(lo, hi)
    decreases hi
  {
    if v < hi {
      TablesForGrows(lo, v, hi - 1);
    }
  }

  /** Longer ranges cost more. */
  lemma CostMonotone(node: Tree, lo: nat, v: nat, hi: nat)
    requires lo <= v <= hi
    ensures Cost(node, lo, v) + (hi - v) <= Cost(node, lo, hi)
  {
    TablesForGrows(lo, v, hi);
    SubsetCard(TablesFor(lo, v) - node.Keys, TablesFor(lo, hi) - node.Keys);
  }

  lemma SubsetCard<T>(a: set<T>, b: set<T>)
    requires a <= b
    ensures |a| <= |b|
  {
    assert b == a + (b - a);
    SizeOfUnion(a, b - a);
  }
}
