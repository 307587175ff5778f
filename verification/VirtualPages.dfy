/**
  Virtual addresses and virtual page numbers, and the table indices they
  stand for.
 */
module VirtualPages {
  import opened Options
  import opened Powers
  import opened PageTree

  /** Pages of the lower canonical half. */
  const USER_PAGES: nat := 0x8_0000_0000

  /** The four table indices of a page number. */
  function PageOf(vpn: nat): Node {
    [vpn / 512 / 512 / 512 % 512, vpn / 512 / 512 % 512, vpn / 512 % 512, vpn % 512]
  }

  lemma PageOfUser(vpn: nat)
    requires vpn < USER_PAGES
    ensures IsPage(PageOf(vpn))
  {
    var p := PageOf(vpn);
    assert p[..0] == [];
    assert |p[..1]| == 1 && |p[..2]| == 2 && |p[..3]| == 3;
  }

  lemma PageOfInjective(v: nat, w: nat)
    requires v < USER_PAGES && w < USER_PAGES && PageOf(v) == PageOf(w)
    ensures v == w
  {
    var p, q := PageOf(v), PageOf(w);
    assert p[0] == q[0] && p[1] == q[1] && p[2] == q[2] && p[3] == q[3];
    Digit(v, w);
    Digit(v / 512, w / 512);
    Digit(v / 512 / 512, w / 512 / 512);
  }

  lemma Digit(v: nat, w: nat)
    ensures v % 512 == w % 512 && v / 512 == w / 512 ==> v == w
  {
  }

  /** The indices are the digits of the page number to the base 512, the PML4 index first. */
  lemma PageOfDigits(vpn: nat)
    requires vpn < 0x8_0000_0000
    ensures var p := PageOf(vpn);
      && p[0] < 256 && p[1] < 512 && p[2] < 512 && p[3] < 512
      && p[0] * 0x800_0000 + p[1] * 0x4_0000 + p[2] * 0x200 + p[3] == vpn
  {
    var a := vpn / 512;
    var b := a / 512;
    assert vpn == a * 512 + vpn % 512 && a == b * 512 + a % 512 && b == b / 512 * 512 + b % 512;
  }

  lemma Shr9(x: nat)
    ensures Shr(x, 9) == x / 512
  {
    ShrRange(x, 9);
    assert Pow2(9) == 512;
  }

  lemma Shr12(x: nat)
    ensures Shr(x, 12) == x / 4096
  {
    ShrRange(x, 12);
    Constants();
  }

  /** They are nine bits each of the address, from bits 39, 30, 21 and 12 on. */
  lemma PageOfBits(virt: nat)
    ensures PageOf(virt / 4096) == [Shr(virt, 39) % 512, Shr(virt, 30) % 512, Shr(virt, 21) % 512, Shr(virt, 12) % 512]
  {
    Shr12(virt);
    ShrShr(virt, 12, 9);
    ShrShr(virt, 21, 9);
    ShrShr(virt, 30, 9);
    Shr9(Shr(virt, 12));
    Shr9(Shr(virt, 21));
    Shr9(Shr(virt, 30));
  }

  /** The translation of page number `vpn`. */
  function At(t: Tables, root: Frame, vpn: nat): Option<Mapping> {
    Translate(t, root, PageOf(vpn))
  }

  // ----- translate_addr -----

  function Slot(t: Tables, f: Frame, i: nat): Entry {
    if f in t && i < |t[f]| then t[f][i] else Entry(0, {})
  }

  // The four reads of translate_addr, last level first; `small` and `large`
  // are the byte offsets in a 4 KiB and in a 2 MiB page.

  function ReadPt(t: Tables, pt: Frame, page: Node, small: nat): Option<nat>
    requires |page| == 4
  {
    var p1 := Slot(t, pt, page[3]);
    if Unused(p1) then None else Some(p1.addr + small)
  }

  function ReadPd(t: Tables, pd: Frame, page: Node, small: nat, large: nat): Option<nat>
    requires |page| == 4
  {
    var p2 := Slot(t, pd, page[2]);
    if Unused(p2) then None
    else if HUGE_PAGE in p2.flags then Some(p2.addr + large)
    else ReadPt(t, p2.addr, page, small)
  }

  function ReadPdpt(t: Tables, pdpt: Frame, page: Node, small: nat, large: nat): Option<nat>
    requires |page| == 4
  {
    var p3 := Slot(t, pdpt, page[1]);
    if Unused(p3) then None else ReadPd(t, p3.addr, page, small, large)
  }

  function ReadPage(t: Tables, root: Frame, page: Node, small: nat, large: nat): Option<nat>
    requires |page| == 4
  {
    var p4 := Slot(t, root, page[0]);
    if Unused(p4) then None else ReadPdpt(t, p4.addr, page, small, large)
  }

  /** translate_addr. */
  function TranslateAddr(t: Tables, root: Frame, virt: nat): Option<nat> {
    ReadPage(t, root, PageOf(virt / 4096), virt % 4096, virt % 0x20_0000)
  }

  /** One level of the walk, read off the tree. */
  lemma Follow(t: Tables, root: Frame, node: Tree, page: Node, k: nat)
    requires Shape(t, root, node) && IsPage(page) && k < 4 && page[..k] in node
    ensures var e := Slot(t, node[page[..k]].addr, page[k]);
      if page[..k + 1] in node then e == node[page[..k + 1]] && !Unused(e) && (k < 3 ==> HUGE_PAGE !in e.flags)
      else Unused(e) && page !in node
  {
    PrefixNext(page, k);
    ReadLink(t, root, node, page[..k], page[k]);
    assert page[..4] == page;
    if page[..k + 1] !in node {
      PrefixMissing(t, root, node, page, k + 1, 4);
    }
  }

  lemma ReadPdIsNode(t: Tables, root: Frame, node: Tree, page: Node, small: nat, large: nat)
    requires Shape(t, root, node) && IsPage(page) && page[..2] in node
    ensures ReadPd(t, node[page[..2]].addr, page, small, large)
         == if page in node then Some(node[page].addr + small) else None
  {
    Follow(t, root, node, page, 2);
    if page[..3] in node {
      Follow(t, root, node, page, 3);
      assert page[..4] == page;
    }
  }

  lemma ReadPdptIsNode(t: Tables, root: Frame, node: Tree, page: Node, small: nat, large: nat)
    requires Shape(t, root, node) && IsPage(page) && page[..1] in node
    ensures ReadPdpt(t, node[page[..1]].addr, page, small, large)
         == if page in node then Some(node[page].addr + small) else None
  {
    Follow(t, root, node, page, 1);
    if page[..2] in node {
      ReadPdIsNode(t, root, node, page, small, large);
    }
  }

  lemma ReadPageIsNode(t: Tables, root: Frame, node: Tree, page: Node, small: nat, large: nat)
    requires Shape(t, root, node) && IsPage(page)
    ensures ReadPage(t, root, page, small, large) == if page in node then Some(node[page].addr + small) else None
  {
    assert page[..0] == [];
    Follow(t, root, node, page, 0);
    if page[..1] in node {
      ReadPdptIsNode(t, root, node, page, small, large);
    }
  }

  function FrameOf(m: Option<Mapping>): Option<Frame> {
    if m.None? then None else Some(m.value.frame)
  }

  function Plus(base: Option<nat>, offset: nat): Option<nat> {
    if base.None? then None else Some(base.value + offset)
  }

  lemma ReadIsTranslate(t: Tables, root: Frame, node: Tree, page: Node, small: nat, large: nat)
    requires Shape(t, root, node) && IsPage(page)
    ensures ReadPage(t, root, page, small, large) == Plus(FrameOf(Translate(t, root, page)), small)
  {
    WalkIsNode(t, root, node, page);
    ReadPageIsNode(t, root, node, page, small, large);
  }

  /** On a user tree translate_addr agrees with the hardware walk, byte for byte. */
  lemma TranslateAddrIsTranslate(t: Tables, root: Frame, node: Tree, virt: nat)
    requires Shape(t, root, node) && virt / 4096 < USER_PAGES
    ensures TranslateAddr(t, root, virt) == Plus(FrameOf(At(t, root, virt / 4096)), virt % 4096)
  {
    PageOfUser(virt / 4096);
    ReadIsTranslate(t, root, node, PageOf(virt / 4096), virt % 4096, virt % 0x20_0000);
  }

  /** A 2 MiB page is one run of bytes: `start` is its first address, `e` its entry. */
  lemma HugePageBytes(t: Tables, root: Frame, start: nat, x: nat, pdpt: Frame, pd: Frame, e: Entry)
    requires start % 0x20_0000 == 0 && x < 0x20_0000
    requires var (i, j, k) := (Shr(start, 39) % 512, Shr(start, 30) % 512, Shr(start, 21) % 512);
      && !Unused(Slot(t, root, i)) && Slot(t, root, i).addr == pdpt
      && !Unused(Slot(t, pdpt, j)) && Slot(t, pdpt, j).addr == pd
      && Slot(t, pd, k) == e && !Unused(e) && HUGE_PAGE in e.flags
    ensures TranslateAddr(t, root, start + x) == Some(e.addr + x)
  {
    HugeSplit(start, x);
    HugeIndices(start, start / 4096, x / 4096);
    HugeRead(t, root, PageOf((start + x) / 4096), (start + x) % 4096, x, pdpt, pd, e);
  }

  lemma HugeIndices(start: nat, vpn: nat, y: nat)
    requires vpn == start / 4096 && vpn % 512 == 0 && y < 512
    ensures var q := PageOf(vpn + y);
      q[0] == Shr(start, 39) % 512 && q[1] == Shr(start, 30) % 512 && q[2] == Shr(start, 21) % 512
  {
    PageOfBits(start);
    SameUpper(vpn, y);
  }

  lemma HugeSplit(start: nat, x: nat)
    requires start % 0x20_0000 == 0 && x < 0x20_0000
    ensures (start + x) % 0x20_0000 == x && (start + x) / 4096 == start / 4096 + x / 4096
    ensures start / 4096 % 512 == 0 && x / 4096 < 512
  {
    var s, y, z := start / 0x20_0000, x / 4096, x % 4096;
    assert start == s * 0x20_0000 && x == y * 4096 + z && y < 512;
    assert start + x == (s * 512 + y) * 4096 + z;
    PageSplit(s * 512 + y, z);
    PageSplit(s * 512, 0);
  }

  lemma PageSplit(q: nat, r: nat)
    requires r < 4096
    ensures (q * 4096 + r) / 4096 == q
  {
  }

  lemma SameUpper(vpn: nat, y: nat)
    requires vpn % 512 == 0 && y < 512
    ensures var (p, q) := (PageOf(vpn), PageOf(vpn + y)); q[0] == p[0] && q[1] == p[1] && q[2] == p[2]
  {
    assert (vpn + y) / 512 == vpn / 512;
  }

  lemma HugeRead(t: Tables, root: Frame, page: Node, small: nat, large: nat, pdpt: Frame, pd: Frame, e: Entry)
    requires |page| == 4 && !Unused(Slot(t, root, page[0])) && Slot(t, root, page[0]).addr == pdpt
    requires !Unused(Slot(t, pdpt, page[1])) && Slot(t, pdpt, page[1]).addr == pd
    requires Slot(t, pd, page[2]) == e && !Unused(e) && HUGE_PAGE in e.flags
    ensures ReadPage(t, root, page, small, large) == Some(e.addr + large)
  {
  }

  // ----- ranges of pages -----

  /** Pages outside [lo, hi) translate alike. */
  ghost predicate SameOutside(t: Tables, t': Tables, root: Frame, lo: nat, hi: nat) {
    forall w: nat :: w < USER_PAGES && !(lo <= w < hi) ==> At(t', root, w) == At(t, root, w)
  }

  /** Every page of [lo, hi) was unmapped and is mapped with the given flags. */
  ghost predicate NewlyMapped(t: Tables, t': Tables, root: Frame, lo: nat, hi: nat, flags: set<Flag>) {
    forall w: nat :: lo <= w < hi ==>
      && At(t, root, w) == None
      && At(t', root, w).Some? && At(t', root, w).value.rights == Through(TABLE_FLAGS, flags + {PRESENT})
  }

  ghost predicate AllUnmapped(t: Tables, root: Frame, lo: nat, hi: nat) {
    forall w: nat :: lo <= w < hi ==> At(t, root, w) == None
  }

  lemma SameElsewhereAt(t: Tables, t': Tables, root: Frame, v: nat)
    requires v < USER_PAGES && SameElsewhere(t, t', root, PageOf(v))
    ensures SameOutside(t, t', root, v, v + 1)
  {
    forall w: nat | w < USER_PAGES && w != v ensures At(t', root, w) == At(t, root, w) {
      PageOfUser(w);
      if PageOf(v) == PageOf(w) {
        PageOfInjective(v, w);
      }
    }
  }

  lemma SameOutsideJoin(t: Tables, t1: Tables, t2: Tables, root: Frame, lo: nat, v: nat)
    requires lo <= v && SameOutside(t, t1, root, lo, v) && SameOutside(t1, t2, root, v, v + 1)
    ensures SameOutside(t, t2, root, lo, v + 1)
  {
  }

  lemma AllUnmappedJoin(t1: Tables, t2: Tables, root: Frame, lo: nat, v: nat)
    requires lo <= v < USER_PAGES && AllUnmapped(t1, root, lo, v) && SameOutside(t1, t2, root, v, v + 1)
    requires At(t2, root, v) == None
    ensures AllUnmapped(t2, root, lo, v + 1)
  {
  }

  lemma NewlyMappedJoin(t: Tables, t1: Tables, t2: Tables, root: Frame, lo: nat, v: nat, flags: set<Flag>)
    requires lo <= v < USER_PAGES && SameOutside(t, t1, root, lo, v)
    requires NewlyMapped(t, t1, root, lo, v, flags) && NewlyMapped(t1, t2, root, v, v + 1, flags)
    requires SameOutside(t1, t2, root, v, v + 1)
    ensures NewlyMapped(t, t2, root, lo, v + 1, flags)
  {
  }

  /** Every user page translates alike. */
  ghost predicate Unchanged(t: Tables, t': Tables, root: Frame) {
    forall w: nat :: w < USER_PAGES ==> At(t', root, w) == At(t, root, w)
  }

  lemma UnchangedAfter(t: Tables, t1: Tables, t2: Tables, root: Frame, lo: nat, v: nat, flags: set<Flag>)
    requires lo <= v < USER_PAGES && Unchanged(t1, t2, root)
    requires NewlyMapped(t, t1, root, lo, v, flags) && SameOutside(t, t1, root, lo, v)
    ensures NewlyMapped(t, t2, root, lo, v, flags) && SameOutside(t, t2, root, lo, v)
  {
  }

  /** Releasing what was newly mapped restores every translation. */
  lemma Rollback(t: Tables, t1: Tables, t2: Tables, root: Frame, lo: nat, v: nat, flags: set<Flag>)
    requires NewlyMapped(t, t1, root, lo, v, flags) && SameOutside(t, t1, root, lo, v)
    requires AllUnmapped(t2, root, lo, v) && SameOutside(t1, t2, root, lo, v)
    ensures Unchanged(t, t2, root)
  {
  }
}
