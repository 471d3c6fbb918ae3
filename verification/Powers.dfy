/** Powers of a fixed base, and 64-bit words. */
module Powers {
  const TWO_TO_64: int := 0x1_0000_0000_0000_0000

  type Word64 = n: int | 0 <= n < 0x1_0000_0000_0000_0000

  function Pow(b: int, n: nat): (p: int)
    requires 1 <= b
    ensures p >= 1
  {
    if n == 0 then 1 else b * Pow(b, n - 1)
  }

  lemma {:induction false} PowAdd(b: int, m: nat, n: nat)
    requires 1 <= b
    ensures Pow(b, m + n) == Pow(b, m) * Pow(b, n)
  {
    if m > 0 {
      PowAdd(b, m - 1, n);
      assert b * (Pow(b, m - 1) * Pow(b, n)) == (b * Pow(b, m - 1)) * Pow(b, n);
    }
  }

  lemma {:induction false} PowMonotone(b: int, m: nat, n: nat)
    requires 1 <= b && m <= n
    ensures Pow(b, m) <= Pow(b, n)
  {
    if m < n {
      PowMonotone(b, m, n - 1);
      assert Pow(b, n - 1) * 1 <= Pow(b, n - 1) * b;
    }
  }

  /** The powers of ten that the digit algorithms compare with. */
  lemma PowersOfTen()
    ensures Pow(10, 9) == 1_000_000_000
    ensures Pow(10, 17) == 100_000_000_000_000_000
    ensures Pow(10, 19) == 10_000_000_000_000_000_000
  {
    assert Pow(10, 4) == 10_000;
    assert Pow(10, 8) == 100_000_000;
    assert Pow(10, 12) == 1_000_000_000_000;
    assert Pow(10, 16) == 10_000_000_000_000_000;
  }

  lemma PowersOfTwo()
    ensures Pow(2, 32) == 0x1_0000_0000
    ensures Pow(2, 60) == 0x1000_0000_0000_0000
    ensures Pow(2, 64) == TWO_TO_64
  {
    assert Pow(2, 8) == 0x100;
    assert Pow(2, 16) == 0x1_0000;
    assert Pow(2, 24) == 0x100_0000;
    PowAdd(2, 16, 16);
    PowAdd(2, 32, 24);
    assert Pow(2, 60) == 16 * Pow(2, 56);
    PowAdd(2, 32, 32);
  }

  lemma Distribute(a: int, b: int, c: int)
    ensures (a + b) * c == a * c + b * c
    ensures c * (a + b) == c * a + c * b
  {
  }

  lemma MultiplyAssociates(a: int, b: int, c: int)
    ensures (a * b) * c == a * (b * c)
  {
  }

  lemma MultiplyMonotone(a: int, b: int, c: int)
    requires a <= b && 0 <= c
    ensures a * c <= b * c && c * a <= c * b
  {
  }

  lemma DivideBelow(x: int, d: int, bound: int)
    requires 0 <= x < bound * d && 0 < d
    ensures 0 <= x / d < bound && x == (x / d) * d + x % d && 0 <= x % d < d
  {
    var q := x / d;
    if q >= bound {
      MultiplyMonotone(bound, q, d);
    }
    if q < 0 {
      MultiplyMonotone(q, -1, d);
    }
  }

  /** A product of two halves fits a word. */
  function HalfProduct(x: int, y: int): (p: Word64)
    requires 0 <= x < 0x1_0000_0000 && 0 <= y < 0x1_0000_0000
    ensures p == x * y && p <= 0xFFFF_FFFE_0000_0001
  {
    MultiplyMonotone(x, 0xFFFF_FFFF, y);
    MultiplyMonotone(y, 0xFFFF_FFFF, 0xFFFF_FFFF);
    x * y
  }

  lemma FourParts(a: int, b: int, c: int, d: int)
    ensures (a * 0x1_0000_0000 + b) * (c * 0x1_0000_0000 + d)
         == (a * c) * TWO_TO_64 + (a * d + b * c) * 0x1_0000_0000 + b * d
  {
    Distribute(a * 0x1_0000_0000, b, c * 0x1_0000_0000 + d);
    Distribute(c * 0x1_0000_0000, d, a * 0x1_0000_0000);
    Distribute(c * 0x1_0000_0000, d, b);
    assert (a * 0x1_0000_0000) * (c * 0x1_0000_0000) == (a * c) * TWO_TO_64;
    assert (a * 0x1_0000_0000) * d == (a * d) * 0x1_0000_0000;
    assert b * (c * 0x1_0000_0000) == (b * c) * 0x1_0000_0000;
  }

  lemma ProductFits(f: Word64, g: Word64)
    ensures 0 <= f * g <= 0xFFFF_FFFF_FFFF_FFFE_0000_0000_0000_0001
  {
    MultiplyMonotone(f, TWO_TO_64 - 1, g);
    MultiplyMonotone(g, TWO_TO_64 - 1, TWO_TO_64 - 1);
    MultiplyMonotone(0, f, g);
  }
}
