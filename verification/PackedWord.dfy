/**
  The word that holds both the parent pointer and the colour of a scheduler
  node: bit 0 is the colour, bits 2 and up are the pointer.
 */
module PackedWord {

  function Color(w: bv64): bv64 {
    w & 1
  }

  function ParentOf(w: bv64): bv64 {
    w & 0xFFFF_FFFF_FFFF_FFFC
  }

  /** Writing a colour is read back, and leaves the parent alone. */
  function WithColor(w: bv64, color: bv64): (r: bv64)
    requires color == 0 || color == 1
    ensures Color(r) == color && ParentOf(r) == ParentOf(w)
  {
    (w & 0xFFFF_FFFF_FFFF_FFFE) | color
  }

  lemma AlignedPointer(p: bv64)
    ensures (p & 0xFFFF_FFFF_FFFF_FFFC) == p <==> p & 3 == 0
  {
  }

  /** Writing a parent leaves the colour alone, and is read back exactly when
      the pointer is 4-byte aligned. */
  function WithParent(w: bv64, parent: bv64): (r: bv64)
    ensures Color(r) == Color(w)
    ensures ParentOf(r) == parent <==> parent & 3 == 0
  {
    var r := (w & 1) | (parent & 0xFFFF_FFFF_FFFF_FFFC);
    assert Color(r) == Color(w);
    assert ParentOf(r) == parent & 0xFFFF_FFFF_FFFF_FFFC;
    AlignedPointer(parent);
    r
  }
}
