/** The do-it-yourself floating point of diyfp.h: 64-bit significands with a binary exponent. */
module DiyFp {
  import opened Bits
  import opened Powers

  const HIDDEN_BIT: int := 0x10_0000_0000_0000
  const EXPONENT_BIAS: int := 1075
  const MIN_EXPONENT: int := -1075

  /** The number f * 2^e. */
  datatype Fp = Fp(f: Word64, e: int)

  // -----------------------------------------------------------------------------------------------
  // The product
  // -----------------------------------------------------------------------------------------------

  /** operator* where there are 128-bit integers: the high word, rounded by the top bit of the low word. */
  method MultiplyWide(x: Fp, y: Fp) returns (z: Fp)
    ensures z == Fp(RoundedHigh(x.f, y.f), x.e + y.e + 64)
  {
    var p := x.f * y.f;
    MultiplyMonotone(x.f, TWO_TO_64 - 1, y.f);
    MultiplyMonotone(y.f, TWO_TO_64 - 1, TWO_TO_64 - 1);
    DivideBelow(p, TWO_TO_64, TWO_TO_64 - 1);
    var h, l := p / TWO_TO_64, p % TWO_TO_64;
    Rounding(p, h, l);
    if l / 0x8000_0000_0000_0000 % 2 == 1 {
      h := h + 1;
    }
    z := Fp(h, x.e + y.e + 64);
  }

  /** The product divided by 2^64, to the nearest. */
  function RoundedHigh(f: Word64, g: Word64): Word64 {
    ProductFits(f, g);
    WordAndHalf(f * g);
    (f * g + 0x8000_0000_0000_0000) / TWO_TO_64
  }

  lemma WordAndHalf(p: int)
    requires 0 <= p <= 0xFFFF_FFFF_FFFF_FFFE_0000_0000_0000_0001
    ensures 0 <= (p + 0x8000_0000_0000_0000) / TWO_TO_64 < TWO_TO_64
  {
  }

  /** The product errs by half a unit of its last place at most. */
  lemma ProductError(f: Word64, g: Word64)
    ensures -0x8000_0000_0000_0000 <= f * g - RoundedHigh(f, g) * TWO_TO_64 < 0x8000_0000_0000_0000
  {
    NearestMultiple(f * g);
  }

  lemma NearestMultiple(p: int)
    ensures -0x8000_0000_0000_0000 <= p - (p + 0x8000_0000_0000_0000) / TWO_TO_64 * TWO_TO_64 < 0x8000_0000_0000_0000
  {
  }

  lemma Rounding(p: int, h: int, l: int)
    requires p == h * TWO_TO_64 + l && 0 <= l < TWO_TO_64
    ensures (p + 0x8000_0000_0000_0000) / TWO_TO_64 == if l < 0x8000_0000_0000_0000 then h else h + 1
  {
  }

  /** operator* in four parts, none of which overflows. */
  method Multiply(x: Fp, y: Fp) returns (z: Fp)
    ensures z == Fp(RoundedHigh(x.f, y.f), x.e + y.e + 64)
  {
    var a, b := x.f / 0x1_0000_0000, x.f % 0x1_0000_0000;
    var c, d := y.f / 0x1_0000_0000, y.f % 0x1_0000_0000;
    var ac: Word64, bc: Word64, ad: Word64, bd: Word64 := HalfProduct(a, c), HalfProduct(b, c), HalfProduct(a, d), HalfProduct(b, d);
    var tmp: Word64 := bd / 0x1_0000_0000 + ad % 0x1_0000_0000 + bc % 0x1_0000_0000;
    tmp := tmp + 0x8000_0000;
    FourParts(a, b, c, d);
    FromParts(x.f * y.f, ac, ad, bc, bd, tmp);
    var h: Word64 := ac + ad / 0x1_0000_0000 + bc / 0x1_0000_0000 + tmp / 0x1_0000_0000;
    z := Fp(h, x.e + y.e + 64);
  }

  lemma FromParts(p: int, ac: Word64, ad: Word64, bc: Word64, bd: Word64, tmp: int)
    requires p == ac * TWO_TO_64 + (ad + bc) * 0x1_0000_0000 + bd
    requires tmp == bd / 0x1_0000_0000 + ad % 0x1_0000_0000 + bc % 0x1_0000_0000 + 0x8000_0000
    ensures (p + 0x8000_0000_0000_0000) / TWO_TO_64
         == ac + ad / 0x1_0000_0000 + bc / 0x1_0000_0000 + tmp / 0x1_0000_0000
  {
    var low := tmp % 0x1_0000_0000 * 0x1_0000_0000 + bd % 0x1_0000_0000;
    Remainder(p + 0x8000_0000_0000_0000,
              ac + ad / 0x1_0000_0000 + bc / 0x1_0000_0000 + tmp / 0x1_0000_0000, TWO_TO_64, low);
  }

  // -----------------------------------------------------------------------------------------------
  // Normalising
  // -----------------------------------------------------------------------------------------------

  /** x is the number of y, its exponent lowered by s. */
  ghost predicate IsShifted(x: Fp, y: Fp, s: nat) {
    x.f == y.f * Pow(2, s) && x.e == y.e - s
  }

  lemma ShiftedOnce(x: Fp, y: Fp, s: nat)
    requires IsShifted(x, y, s) && 2 * x.f < TWO_TO_64
    ensures IsShifted(Fp(2 * x.f, x.e - 1), y, s + 1)
  {
    assert Pow(2, s + 1) == 2 * Pow(2, s);
    MultiplyAssociates(y.f, Pow(2, s), 2);
  }

  lemma ShiftedMore(x: Fp, y: Fp, s: nat, n: nat)
    requires IsShifted(x, y, s) && x.f * Pow(2, n) < TWO_TO_64
    ensures 0 <= x.f * Pow(2, n) && IsShifted(Fp(x.f * Pow(2, n), x.e - n), y, s + n)
  {
    PowAdd(2, s, n);
    MultiplyAssociates(y.f, Pow(2, s), Pow(2, n));
    MultiplyMonotone(0, x.f, Pow(2, n));
  }

  /** Normalize: the leading zeros are shifted out. */
  method Normalize(x: Fp) returns (z: Fp, ghost s: nat)
    requires x.f != 0
    ensures IsShifted(z, x, s) && z.f >= 0x8000_0000_0000_0000
  {
    z, s := x, 0;
    while z.f < 0x8000_0000_0000_0000
      invariant IsShifted(z, x, s) && z.f > 0
      decreases TWO_TO_64 - z.f
    {
      ShiftedOnce(z, x, s);
      z, s := Fp(2 * z.f, z.e - 1), s + 1;
    }
  }

  /** NormalizeBoundary: bit 53 is brought up to bit 63. Only that bit is looked at, so no higher one may be set. */
  method NormalizeBoundary(x: Fp) returns (z: Fp, ghost s: nat)
    requires 0 < x.f < 4 * HIDDEN_BIT
    ensures IsShifted(z, x, s) && s >= 10 && z.f >= 0x8000_0000_0000_0000
  {
    z, s := x, 0;
    while z.f / (2 * HIDDEN_BIT) % 2 == 0
      invariant IsShifted(z, x, s) && 0 < z.f < 4 * HIDDEN_BIT
      decreases 4 * HIDDEN_BIT - z.f
    {
      ShiftedOnce(z, x, s);
      z, s := Fp(2 * z.f, z.e - 1), s + 1;
    }
    assert Pow(2, 10) == 1024;
    ShiftedMore(z, x, s, 10);
    z, s := Fp(z.f * 1024, z.e - 10), s + 10;
  }

  // -----------------------------------------------------------------------------------------------
  // Boundaries
  // -----------------------------------------------------------------------------------------------

  /** NormalizedBoundaries, for the significand of a double. */
  method NormalizedBoundaries(v: Fp) returns (minus: Fp, plus: Fp)
    requires 0 < v.f < 2 * HIDDEN_BIT
    ensures plus.e == minus.e <= v.e - 11 && plus.f >= 0x8000_0000_0000_0000
    ensures IsShifted(plus, Fp(2 * v.f + 1, v.e - 1), v.e - 1 - plus.e)
    ensures if v.f == HIDDEN_BIT then IsShifted(minus, Fp(4 * v.f - 1, v.e - 2), v.e - 2 - plus.e)
            else IsShifted(minus, Fp(2 * v.f - 1, v.e - 1), v.e - 1 - plus.e)
  {
    ghost var s;
    plus, s := NormalizeBoundary(Fp(2 * v.f + 1, v.e - 1));
    var mi := if v.f == HIDDEN_BIT then Fp(4 * v.f - 1, v.e - 2) else Fp(2 * v.f - 1, v.e - 1);
    MinusFits(v, s);
    var shift := mi.e - plus.e;
    minus := Fp(mi.f * Pow(2, shift), plus.e);
  }

  /** The lower boundary is below the upper one, so its shift does not overflow. */
  lemma MinusFits(v: Fp, s: nat)
    requires 0 < v.f < 2 * HIDDEN_BIT && s >= 10 && (2 * v.f + 1) * Pow(2, s) < TWO_TO_64
    ensures 0 <= (2 * v.f - 1) * Pow(2, s) < TWO_TO_64
    ensures 0 <= (4 * v.f - 1) * Pow(2, s - 1) < TWO_TO_64
  {
    var p := Pow(2, s - 1);
    assert Pow(2, s) == 2 * p;
    MultiplyMonotone(2 * v.f - 1, 2 * v.f + 1, 2 * p);
    MultiplyMonotone(0, 2 * v.f - 1, 2 * p);
    MultiplyMonotone(4 * v.f - 1, 4 * v.f + 2, p);
    MultiplyMonotone(0, 4 * v.f - 1, p);
    assert (4 * v.f + 2) * p == (2 * v.f + 1) * (2 * p);
  }

  /** The positive finite doubles, by their bits. */
  predicate IsPositiveDouble(bits: int) {
    0 < bits < 0x7FF0_0000_0000_0000
  }

  /** The constructor from a double. Infinity reads as the number that would follow the largest double. */
  function FromBits(bits: int): (v: Fp)
    requires 0 <= bits <= 0x7FF0_0000_0000_0000
    ensures v.f < 2 * HIDDEN_BIT && (bits > 0 ==> v.f > 0) && v.e >= MIN_EXPONENT + 1
  {
    var biased, significand := bits / HIDDEN_BIT, bits % HIDDEN_BIT;
    if biased != 0 then Fp(significand + HIDDEN_BIT, biased - EXPONENT_BIAS) else Fp(significand, MIN_EXPONENT + 1)
  }

  /** The number of v in units of 2^e. */
  ghost function Scaled(v: Fp, e: int): int
    requires e <= v.e
  {
    v.f * Pow(2, v.e - e)
  }

  lemma ScaledDown(v: Fp, w: Fp, e: int)
    requires w.f == 2 * v.f && w.e == v.e - 1 && e <= w.e
    ensures Scaled(v, e) == Scaled(w, e)
  {
    assert Pow(2, v.e - e) == 2 * Pow(2, w.e - e);
    MultiplyAssociates(v.f, 2, Pow(2, w.e - e));
  }

  /** The double after this one is one unit of its last place larger. */
  lemma NextDouble(bits: int, e: int)
    requires IsPositiveDouble(bits) && e <= FromBits(bits).e
    ensures var v, w := FromBits(bits), FromBits(bits + 1);
            e <= w.e && Scaled(w, e) == (v.f + 1) * Pow(2, v.e - e)
  {
    var v, w := FromBits(bits), FromBits(bits + 1);
    if bits % HIDDEN_BIT == HIDDEN_BIT - 1 && bits / HIDDEN_BIT != 0 {
      assert w == Fp(HIDDEN_BIT, v.e + 1);
      if e <= v.e {
        ScaledDown(w, Fp(2 * HIDDEN_BIT, v.e), e);
      }
    }
  }

  /** The double before this one: a unit smaller, or half a unit at the bottom of a binade, but for the lowest. */
  lemma PreviousDouble(bits: int, e: int)
    requires IsPositiveDouble(bits) && e < FromBits(bits).e
    ensures var v, w := FromBits(bits), FromBits(bits - 1);
            && e <= w.e
            && Scaled(w, e) == if v.f == HIDDEN_BIT && bits != HIDDEN_BIT then (2 * v.f - 1) * Pow(2, v.e - 1 - e)
                               else (v.f - 1) * Pow(2, v.e - e)
  {
  }

  /** The boundaries are half way to the neighbouring doubles, the lower one exactly unless the double is the
      smallest normal one: below it the spacing does not halve, but the boundary is put as if it did. */
  lemma BoundariesAreHalfWay(bits: int, minus: Fp, plus: Fp)
    requires IsPositiveDouble(bits) && plus.e == minus.e <= FromBits(bits).e - 11
    requires var v := FromBits(bits);
             && IsShifted(plus, Fp(2 * v.f + 1, v.e - 1), v.e - 1 - plus.e)
             && if v.f == HIDDEN_BIT then IsShifted(minus, Fp(4 * v.f - 1, v.e - 2), v.e - 2 - plus.e)
                else IsShifted(minus, Fp(2 * v.f - 1, v.e - 1), v.e - 1 - plus.e)
    ensures plus.e <= FromBits(bits + 1).e && plus.e <= FromBits(bits - 1).e
    ensures 2 * plus.f == Scaled(FromBits(bits), plus.e) + Scaled(FromBits(bits + 1), plus.e)
    ensures 2 * minus.f == Scaled(FromBits(bits), plus.e) + Scaled(FromBits(bits - 1), plus.e) <==> bits != HIDDEN_BIT
  {
    hide FromBits;
    var v, e := FromBits(bits), plus.e;
    NextDouble(bits, e);
    PreviousDouble(bits, e);
    LowestNormal(bits);
    var p := Pow(2, v.e - 2 - e);
    assert Pow(2, v.e - 1 - e) == 2 * p && Pow(2, v.e - e) == 2 * Pow(2, v.e - 1 - e);
    HalfWay(v.f, p);
  }

  lemma LowestNormal(bits: int)
    requires IsPositiveDouble(bits)
    ensures bits == HIDDEN_BIT ==> FromBits(bits).f == HIDDEN_BIT
  {
  }

  lemma HalfWay(f: int, p: int)
    requires p >= 1
    ensures 2 * ((2 * f + 1) * (2 * p)) == f * (2 * (2 * p)) + (f + 1) * (2 * (2 * p))
    ensures 2 * ((2 * f - 1) * (2 * p)) == f * (2 * (2 * p)) + (f - 1) * (2 * (2 * p))
    ensures 2 * ((4 * f - 1) * p) == f * (2 * (2 * p)) + (2 * f - 1) * (2 * p)
    ensures 2 * ((4 * f - 1) * p) != f * (2 * (2 * p)) + (f - 1) * (2 * (2 * p))
  {
    var x := f * p;
    assert (2 * f + 1) * (2 * p) == 4 * x + 2 * p && f * (2 * (2 * p)) == 4 * x && (f + 1) * (2 * (2 * p)) == 4 * x + 4 * p;
    assert (2 * f - 1) * (2 * p) == 4 * x - 2 * p && (f - 1) * (2 * (2 * p)) == 4 * x - 4 * p;
    assert (4 * f - 1) * p == 4 * x - p;
  }
}
