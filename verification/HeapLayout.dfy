/**
  Sizes, alignments and routing of heap requests: which slab class or which
  buddy order serves a layout, and why the block it gets is large and aligned
  enough.
 */
module HeapLayout {
  import opened Powers
  import opened Slab

  /** A request; Rust guarantees a power-of-two alignment and a non-zero size. */
  datatype Layout = Layout(size: nat, align: nat)

  ghost predicate Proper(l: Layout) {
    l.size > 0 && exists k: nat :: l.align == Pow2(k)
  }

  // ----- divisibility -----

  /** `x` is a multiple of `m`. */
  predicate Divides(m: nat, x: nat)
    decreases x
  {
    m > 0 && (x == 0 || (x >= m && Divides(m, x - m)))
  }

  lemma {:induction false} DividesMultiple(m: nat, q: nat)
    requires m > 0
    ensures Divides(m, q * m)
  {
    if q > 0 {
      DividesMultiple(m, q - 1);
      LessOne(m, q);
    }
  }

  lemma LessOne(m: nat, q: nat)
    requires q > 0
    ensures q * m == (q - 1) * m + m
  {
  }

  lemma {:induction false} Quotient(m: nat, x: nat) returns (q: nat)
    requires Divides(m, x)
    ensures x == q * m
    decreases x
  {
    if x == 0 {
      q := 0;
    } else {
      q := Quotient(m, x - m);
      q := q + 1;
      LessOne(m, q);
    }
  }

  /** In terms of the remainder operator. */
  lemma DividesMod(m: nat, x: nat)
    requires m > 0
    ensures Divides(m, x) <==> x % m == 0
  {
    if Divides(m, x) {
      var q := Quotient(m, x);
      ModMultiple(m, q);
    } else if x % m == 0 {
      DividesMultiple(m, x / m);
    }
  }

  lemma ModMultiple(m: nat, q: nat)
    requires m > 0
    ensures (q * m) % m == 0
  {
    var k := q - (q * m) / m;
    SmallMultiple(k, m, (q * m) % m);
  }

  /** A multiple of m smaller than m is 0. */
  lemma SmallMultiple(k: int, m: nat, r: nat)
    requires r == k * m && r < m
    ensures r == 0
  {
  }

  lemma DividesTrans(a: nat, b: nat, x: nat)
    requires Divides(a, b) && Divides(b, x)
    ensures Divides(a, x)
  {
    var p := Quotient(a, b);
    var q := Quotient(b, x);
    ScaleAssoc(q, p, a);
    DividesMultiple(a, q * p);
  }

  lemma DividesSum(m: nat, x: nat, y: nat)
    requires Divides(m, x) && Divides(m, y)
    ensures Divides(m, x + y)
  {
    var p := Quotient(m, x);
    var q := Quotient(m, y);
    ScaleSum(p, q, m);
    DividesMultiple(m, p + q);
  }

  /** Different multiples are at least one multiple apart. */
  lemma MultiplesApart(m: nat, x: nat, y: nat)
    requires Divides(m, x) && Divides(m, y) && x < y
    ensures x + m <= y
  {
    var p := Quotient(m, x);
    var q := Quotient(m, y);
    if q <= p {
      ScaleMonotone(q, p, m);
    } else {
      ScaleMonotone(p + 1, q, m);
      LessOne(m, p + 1);
    }
  }

  lemma Pow2Divides(a: nat, b: nat)
    requires a <= b
    ensures Divides(Pow2(a), Pow2(b))
  {
    Pow2Monotone(0, a);
    Pow2Add(b - a, a);
    DividesMultiple(Pow2(a), Pow2(b - a));
  }

  /** Of two powers of two the smaller divides the larger. */
  lemma PowersDivide(a: nat, b: nat)
    requires Pow2(a) <= Pow2(b)
    ensures Divides(Pow2(a), Pow2(b))
  {
    if a > b {
      Pow2Monotone(b, a - 1);
      Pow2Monotone(0, b);
      assert false;
    }
    Pow2Divides(a, b);
  }

  // ----- rounding -----

  /** align_to: the least multiple of `align` that is not below `addr`. */
  function AlignTo(addr: nat, align: nat): (r: nat)
    requires align > 0
    ensures Divides(align, r) && addr <= r < addr + align
    decreases addr
  {
    if addr == 0 then 0
    else if addr <= align then align
    else align + AlignTo(addr - align, align)
  }

  /** In closed form: addr + align - 1 with the part below `align` cut off. */
  lemma {:induction false} AlignToCuts(addr: nat, align: nat)
    requires align > 0
    ensures AlignTo(addr, align) == (addr + align - 1) / align * align
    decreases addr
  {
    var x := addr + align - 1;
    var q := Quotient(align, AlignTo(addr, align));
    QuotientUnique(x, q, align);
  }

  lemma QuotientUnique(x: nat, q: nat, m: nat)
    requires m > 0 && q * m <= x < q * m + m
    ensures x / m == q
  {
    var k := x / m - q;
    assert x == x / m * m + x % m;
    assert k * m == x - x % m - q * m;
    if k >= 1 {
      ScaleMonotone(1, k, m);
    }
  }

  function Rounded(l: Layout): nat
    requires l.align > 0
  {
    AlignTo(l.size, l.align)
  }

  lemma ProperRounded(l: Layout)
    requires Proper(l)
    ensures l.align > 0 && l.align <= Rounded(l) && l.size <= Rounded(l)
  {
    var k: nat :| l.align == Pow2(k);
    Pow2Monotone(0, k);
    MultiplesApart(l.align, 0, Rounded(l));
  }

  /** The exponent of the least power of two that is at least `n`. */
  function CeilLog2(n: nat): (k: nat)
    ensures n <= Pow2(k) && (k > 0 ==> Pow2(k - 1) < n)
  {
    if n <= 1 then 0 else 1 + CeilLog2((n + 1) / 2)
  }

  /** size_to_order */
  function SizeToOrder(size: nat): (k: nat)
    ensures k <= 10
  {
    var order := CeilLog2((size + 4095) / 4096);
    if order < 10 then order else 10
  }

  /** Up to 4 MiB the order is the least that fits; above, it is too small. */
  lemma SizeToOrderFits(size: nat)
    ensures size <= 4096 * Pow2(SizeToOrder(size)) <==> size <= 4 * 1024 * 1024
    ensures var k := SizeToOrder(size); k > 0 && size <= 4 * 1024 * 1024 ==> 4096 * Pow2(k - 1) < size
  {
    var pages := (size + 4095) / 4096;
    var order := CeilLog2(pages);
    assert Pow2(5) == 32;
    assert Pow2(10) == 1024;
    if order > 10 {
      Pow2Monotone(10, order - 1);
    } else {
      Pow2Monotone(order, 10);
    }
  }

  // ----- routing -----

  predicate Small(l: Layout) {
    l.align > 0 && ClassOf(Rounded(l)) < |BLOCK_SIZES|
  }

  function LargeOrder(l: Layout): nat
    requires l.align > 0
  {
    SizeToOrder(AlignTo(Rounded(l), 4096))
  }

  /** The bytes set aside for a request. */
  function Extent(l: Layout): nat
    requires l.align > 0
  {
    if Small(l) then BLOCK_SIZES[ClassOf(Rounded(l))] else 4096 * Pow2(LargeOrder(l))
  }

  predicate Refused(l: Layout)
    requires l.align > 0
  {
    !Small(l) && AlignTo(Rounded(l), 4096) > 4 * 1024 * 1024
  }

  /** The extent is a power of two that holds the request and is a multiple of its alignment. */
  lemma ExtentSuffices(l: Layout)
    requires Proper(l) && l.align > 0 && !Refused(l)
    ensures l.size <= Extent(l) && Divides(l.align, Extent(l))
  {
    ProperRounded(l);
    var a: nat :| l.align == Pow2(a);
    if Small(l) {
      BlockSizes(ClassOf(Rounded(l)));
      PowersDivide(a, 3 + ClassOf(Rounded(l)));
    } else {
      SizeToOrderFits(AlignTo(Rounded(l), 4096));
      Pow2Pages(LargeOrder(l));
      PowersDivide(a, 12 + LargeOrder(l));
    }
  }
}
