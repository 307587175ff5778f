/**
  The pair bitmap of the buddy allocator: one bit per pair of buddies, orders
  laid out one after the other in shrinking parts of the same byte array.
 */
module BuddyBitmap {
  import opened Powers

  /** Bits that precede the part of order `k` in a bitmap of `size` bytes. */
  function Offset(size: nat, k: nat): nat {
    if k == 0 then 0 else Offset(size, k - 1) + Shr(size * 8, k)
  }

  /** The bit that stands for the pair of buddies around `phys` at order `k`. */
  function BitIndex(size: nat, k: nat, phys: nat): nat {
    Shr(phys, 12 + k + 1) + Offset(size, k)
  }

  predicate WholePages(size: nat) {
    size > 0 && size % 4096 == 0
  }

  /** The bytes of memory a bitmap of `size` bytes can describe. */
  function Reach(size: nat): nat {
    size * 32768
  }

  lemma ScaleSplit(m: nat, j: nat, k: nat)
    ensures m * Pow2(j) * Pow2(k) == m * Pow2(j + k)
  {
    Pow2Add(j, k);
    ScaleAssoc(m, Pow2(j), Pow2(k));
  }

  lemma ShrBits(size: nat, k: nat)
    requires WholePages(size) && k <= 15
    ensures Shr(size * 8, k) == (size / 4096) * Pow2(15 - k)
    ensures Shr(size * 8, k) * Pow2(k) == size * 8
  {
    var m := size / 4096;
    Constants();
    ShrMultiple(m, 15, 0, k);
    ShrZero(k);
    ScaleSplit(m, 15 - k, k);
  }

  lemma ShrBitsHalve(size: nat, k: nat)
    requires WholePages(size) && 0 < k <= 15
    ensures Shr(size * 8, k - 1) == 2 * Shr(size * 8, k)
  {
    ShrBits(size, k - 1);
    ShrBits(size, k);
    ScaleDouble(size / 4096, Pow2(15 - k));
  }

  /** The part of order `k` starts where 1/2^k of the bitmap remains. */
  lemma {:induction false} OffsetClosed(size: nat, k: nat)
    requires WholePages(size) && k <= 11
    ensures Offset(size, k) == size * 8 - Shr(size * 8, k)
    ensures k > 0 ==> Shr(size * 8, k - 1) == 2 * Shr(size * 8, k)
  {
    if k > 0 {
      OffsetClosed(size, k - 1);
      ShrBitsHalve(size, k);
    }
  }

  lemma {:induction false} OffsetMonotone(size: nat, j: nat, k: nat)
    requires j <= k
    ensures Offset(size, j) <= Offset(size, k)
  {
    if j < k {
      OffsetMonotone(size, j, k - 1);
    }
  }

  lemma ShrBelow(x: nat, n: nat, k: nat, q: nat)
    requires x < n && n == q * Pow2(k)
    ensures Shr(x, k) < q
  {
    ShrRange(x, k);
    if Shr(x, k) >= q {
      ScaleMonotone(q, Shr(x, k), Pow2(k));
    }
  }

  /** Within reach, a bit lies in the part of its own order, inside the bitmap. */
  lemma BitInPart(size: nat, k: nat, phys: nat)
    requires WholePages(size) && k <= 10 && phys < Reach(size)
    ensures Offset(size, k) <= BitIndex(size, k, phys) < Offset(size, k + 1)
    ensures BitIndex(size, k, phys) < size * 8
  {
    ShrShr(phys, 12, k + 1);
    Constants();
    ShrBelow(phys, Reach(size), 12, size * 8);
    ShrBits(size, k + 1);
    ShrBelow(Shr(phys, 12), size * 8, k + 1, Shr(size * 8, k + 1));
    OffsetClosed(size, k + 1);
  }

  /** Distinct pairs have distinct bits. */
  ghost predicate NoAlias(size: nat, limit: nat) {
    forall j: nat, k: nat, p: nat, q: nat ::
      j <= 10 && k <= 10 && p < limit && q < limit && BitIndex(size, j, p) == BitIndex(size, k, q)
      ==> j == k && Shr(p, 13 + j) == Shr(q, 13 + k)
  }

  /** One bit per pair, for all orders at once, exactly up to the reach. */
  lemma NoAliasIff(size: nat, limit: nat)
    requires WholePages(size)
    ensures NoAlias(size, limit) <==> limit <= Reach(size)
  {
    if limit <= Reach(size) {
      forall j: nat, k: nat, p: nat, q: nat | j <= 10 && k <= 10 && p < limit && q < limit
        && BitIndex(size, j, p) == BitIndex(size, k, q)
        ensures j == k && Shr(p, 13 + j) == Shr(q, 13 + k)
      {
        BitInPart(size, j, p);
        BitInPart(size, k, q);
        if j < k {
          OffsetMonotone(size, j + 1, k);
        } else if k < j {
          OffsetMonotone(size, k + 1, j);
        }
      }
    } else {
      Alias(size);
    }
  }

  lemma ShrReach(size: nat)
    ensures Shr(Reach(size), 13) == size * 4 && Shr(size * 8, 1) == size * 4
  {
    Constants();
    ShrMultiple(size * 4, 13, 0, 13);
    ShrZero(13);
    assert Shr(size * 8, 0) == size * 8;
  }

  /** The first pair out of reach shares its bit with the first pair of order 1. */
  lemma Alias(size: nat)
    requires WholePages(size)
    ensures BitIndex(size, 0, Reach(size)) == BitIndex(size, 1, 0)
  {
    ShrReach(size);
    ShrZero(14);
    OffsetClosed(size, 1);
  }

  // ----- how large a bitmap the boot code asks for -----

  /** calculate_bitmap_size. */
  function BitmapSize(highest: nat): nat {
    (highest / 65536 + 4095) / 4096 * 4096
  }

  /** The requested bitmap reaches all of memory only between 64 KiB and 128 MiB. */
  lemma BitmapSizeSuffices(highest: nat)
    requires highest > 0
    ensures WholePages(BitmapSize(highest)) && highest <= Reach(BitmapSize(highest))
       <==> 0x1_0000 <= highest <= 0x800_0000
  {
    var raw := highest / 65536;
    var size := BitmapSize(highest);
    assert raw <= size < raw + 4096;
  }

  // ----- bits in bytes -----

  function Mask(i: nat): bv8
    requires i < 8
  {
    if i == 0 then 1 else if i == 1 then 2 else if i == 2 then 4 else if i == 3 then 8
    else if i == 4 then 16 else if i == 5 then 32 else if i == 6 then 64 else 128
  }

  function BitOf(byte: bv8, i: nat): bool
    requires i < 8
  {
    byte & Mask(i) != 0
  }

  function FlipIn(byte: bv8, i: nat): bv8
    requires i < 8
  {
    byte ^ Mask(i)
  }

  function Bit(bytes: seq<bv8>, i: nat): bool
    requires i < 8 * |bytes|
  {
    BitOf(bytes[i / 8], i % 8)
  }

  function Toggled(bytes: seq<bv8>, i: nat): seq<bv8>
    requires i < 8 * |bytes|
  {
    bytes[i / 8 := FlipIn(bytes[i / 8], i % 8)]
  }

  lemma MasksApart(a: nat, b: nat)
    requires a < 8 && b < 8 && a != b
    ensures Mask(a) & Mask(b) == 0
  {
  }

  lemma XorOther(x: bv8, m: bv8, n: bv8)
    requires m & n == 0
    ensures (x ^ m) & n == x & n
  {
  }

  lemma XorSame(x: bv8, m: bv8)
    ensures (x ^ m) & m == m ^ (x & m)
  {
  }

  lemma FlipSame(x: bv8, a: nat)
    requires a < 8
    ensures BitOf(FlipIn(x, a), a) <==> !BitOf(x, a)
  {
    var m := Mask(a);
    XorSame(x, m);
    assert x & m == 0 || x & m == m;
  }

  lemma FlipOther(x: bv8, a: nat, b: nat)
    requires a < 8 && b < 8 && a != b
    ensures BitOf(FlipIn(x, a), b) <==> BitOf(x, b)
  {
    MasksApart(a, b);
    XorOther(x, Mask(a), Mask(b));
  }

  /** Toggling changes one bit and no other. */
  lemma ToggledBits(bytes: seq<bv8>, i: nat, j: nat)
    requires i < 8 * |bytes| && j < 8 * |bytes|
    ensures Bit(Toggled(bytes, i), j) <==> (if i == j then !Bit(bytes, j) else Bit(bytes, j))
  {
    if i == j {
      FlipSame(bytes[i / 8], i % 8);
    } else if i / 8 == j / 8 {
      FlipOther(bytes[i / 8], i % 8, j % 8);
    }
  }
}
