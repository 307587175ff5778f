/** Powers of two, as far as the kernel's size arithmetic needs them. */
module Powers {

  function Pow2(n: nat): nat {
    if n == 0 then 1 else 2 * Pow2(n - 1)
  }

  lemma {:induction false} Pow2Add(m: nat, n: nat)
    ensures Pow2(m + n) == Pow2(m) * Pow2(n)
  {
    if m > 0 {
      Pow2Add(m - 1, n);
    }
  }

  lemma {:induction false} Pow2Monotone(m: nat, n: nat)
    requires m <= n
    ensures 1 <= Pow2(m) <= Pow2(n)
  {
    if m < n {
      Pow2Monotone(m, n - 1);
    } else if m > 0 {
      Pow2Monotone(m - 1, m - 1);
    }
  }

  lemma Constants()
    ensures Pow2(11) == 2048 && Pow2(12) == 4096 && Pow2(13) == 8192 && Pow2(15) == 32768
  {
    assert Pow2(6) == 64 && Pow2(9) == 512;
  }

  // ----- shifts -----

  /** n >> k. */
  function Shr(n: nat, k: nat): nat {
    if k == 0 then n else Shr(n, k - 1) / 2
  }

  lemma {:induction false} ShrZero(k: nat)
    ensures Shr(0, k) == 0
  {
    if k > 0 {
      ShrZero(k - 1);
    }
  }

  lemma {:induction false} ShrShr(n: nat, j: nat, k: nat)
    ensures Shr(n, j + k) == Shr(Shr(n, j), k)
  {
    if k > 0 {
      ShrShr(n, j, k - 1);
    }
  }

  lemma {:induction false} ShrHalf(n: nat, k: nat)
    ensures Shr(n / 2, k) == Shr(n, k + 1)
  {
    if k > 0 {
      ShrHalf(n, k - 1);
    }
  }

  lemma ScaleDouble(m: nat, p: nat)
    ensures m * (2 * p) == 2 * (m * p)
  {
  }

  lemma ScaleAssoc(m: nat, p: nat, q: nat)
    ensures m * p * q == m * (p * q)
  {
  }

  lemma HalfSum(y: nat, z: nat)
    ensures (2 * y + z) / 2 == y + z / 2
  {
  }

  /** Shifting right past the zeros of a multiple of 2^m. */
  lemma {:induction false} ShrMultiple(b: nat, m: nat, x: nat, k: nat)
    requires k <= m
    ensures Shr(b * Pow2(m) + x, k) == b * Pow2(m - k) + Shr(x, k)
  {
    if k > 0 {
      ShrMultiple(b, m, x, k - 1);
      ScaleDouble(b, Pow2(m - k));
      HalfSum(b * Pow2(m - k), Shr(x, k - 1));
    }
  }

  lemma Pow2Pages(k: nat)
    ensures Pow2(12 + k) == 4096 * Pow2(k)
  {
    Pow2Add(12, k);
    Constants();
  }

  lemma ScaleSum(a: nat, b: nat, p: nat)
    ensures (a + b) * p == a * p + b * p
  {
  }

  lemma ScaleMonotone(a: nat, b: nat, p: nat)
    requires a <= b
    ensures a * p <= b * p
  {
  }

  lemma HalfRange(n: nat, q: nat, h: nat, p: nat)
    requires q * p <= n < (q + 1) * p && 2 * h <= q <= 2 * h + 1
    ensures h * (2 * p) <= n < (h + 1) * (2 * p)
  {
    ScaleMonotone(2 * h, q, p);
    ScaleMonotone(q + 1, 2 * h + 2, p);
    assert (2 * h) * p == h * (2 * p);
    assert (2 * h + 2) * p == (h + 1) * (2 * p);
  }

  /** Shr(n, k) is the quotient of n by 2^k. */
  lemma {:induction false} ShrRange(n: nat, k: nat)
    ensures Shr(n, k) * Pow2(k) <= n < (Shr(n, k) + 1) * Pow2(k)
  {
    if k > 0 {
      ShrRange(n, k - 1);
      HalfRange(n, Shr(n, k - 1), Shr(n, k), Pow2(k - 1));
    }
  }

  lemma ShrPages(page: nat)
    ensures Shr(4096 * page, 12) == page
  {
    Constants();
    ShrMultiple(page, 12, 0, 12);
    ShrZero(12);
    assert page * Pow2(12) + 0 == 4096 * page;
  }

  /** 2^k divides n. */
  predicate Aligned(n: nat, k: nat) {
    Shr(n, k) * Pow2(k) == n
  }
}
