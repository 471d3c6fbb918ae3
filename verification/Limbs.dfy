/** Numbers as sequences of 64-bit limbs, least significant first. */
module Limbs {
  import opened Powers

  type Limbs = seq<Word64>

  /** Powers of 2^64. */
  function Base(n: nat): int {
    Pow(TWO_TO_64, n)
  }

  function Value(s: Limbs): (v: int)
    ensures 0 <= v
  {
    if s == [] then 0 else
    MultiplyMonotone(0, s[|s| - 1], Base(|s| - 1));
    Value(s[..|s| - 1]) + s[|s| - 1] * Base(|s| - 1)
  }

  lemma ValueAppend(s: Limbs, x: Word64)
    ensures Value(s + [x]) == Value(s) + x * Base(|s|)
  {
    assert (s + [x])[..|s|] == s;
  }

  /** The next limb of `s` after its first `i`. */
  lemma ValuePrefix(s: Limbs, i: nat)
    requires i < |s|
    ensures Value(s[..i + 1]) == Value(s[..i]) + s[i] * Base(i)
  {
    assert s[..i + 1] == s[..i] + [s[i]];
    ValueAppend(s[..i], s[i]);
  }

  lemma {:induction false} ValueBound(s: Limbs)
    ensures Value(s) < Base(|s|)
  {
    if s != [] {
      var n := |s| - 1;
      ValueBound(s[..n]);
      var top: int := s[n];
      MultiplyMonotone(top + 1, TWO_TO_64, Base(n));
      Distribute(top, 1, Base(n));
    }
  }

  /** Without leading zeros a number of n limbs is at least 2^(64 (n - 1)). */
  lemma ValueLowerBound(s: Limbs)
    requires s != [] && s[|s| - 1] != 0
    ensures Value(s) >= Base(|s| - 1)
  {
    MultiplyMonotone(1, s[|s| - 1], Base(|s| - 1));
  }

  lemma {:induction false} ValueConcat(a: Limbs, b: Limbs)
    ensures Value(a + b) == Value(a) + Value(b) * Base(|a|)
    decreases |b|
  {
    if b == [] {
      assert a + b == a;
    } else {
      hide Value;
      var n := |b| - 1;
      var top: int := b[n];
      ValueConcat(a, b[..n]);
      assert b == b[..n] + [b[n]] && a + b == (a + b[..n]) + [b[n]];
      ValueAppend(b[..n], b[n]);
      ValueAppend(a + b[..n], b[n]);
      PowAdd(TWO_TO_64, n, |a|);
      Distribute(Value(b[..n]), top * Base(n), Base(|a|));
      MultiplyAssociates(top, Base(n), Base(|a|));
    }
  }

  lemma {:induction false} ValueZeros(s: Limbs)
    requires forall i :: 0 <= i < |s| ==> s[i] == 0
    ensures Value(s) == 0
  {
    if s != [] {
      ValueZeros(s[..|s| - 1]);
    }
  }

  /** No leading zero limb, except in zero itself, which has one limb. */
  predicate Normalised(s: Limbs) {
    s != [] && (|s| > 1 ==> s[|s| - 1] != 0)
  }

  /** Of two normalised numbers the longer is the greater. */
  lemma LongerIsGreater(a: Limbs, b: Limbs)
    requires Normalised(a) && Normalised(b) && |a| < |b|
    ensures Value(a) < Value(b)
  {
    ValueBound(a);
    ValueLowerBound(b);
    PowMonotone(TWO_TO_64, |a|, |b| - 1);
  }

  /** Of two numbers of the same length the one with the greater limb, equal ones above it, is greater. */
  lemma {:induction false} HigherLimbDecides(a: Limbs, b: Limbs, i: nat)
    requires |a| == |b| && i < |a| && a[i] < b[i]
    requires forall k :: i < k < |a| ==> a[k] == b[k]
    ensures Value(a) < Value(b)
    decreases |a|
  {
    var n := |a| - 1;
    if i == n {
      ValueBound(a[..n]);
      MultiplyMonotone(a[n] + 1, b[n], Base(n));
      Distribute(a[n], 1, Base(n));
    } else {
      HigherLimbDecides(a[..n], b[..n], i);
    }
  }

  lemma {:induction false} SameLengthInjective(a: Limbs, b: Limbs)
    requires |a| == |b| && Value(a) == Value(b)
    ensures a == b
  {
    if a != [] {
      var n := |a| - 1;
      ValueBound(a[..n]);
      ValueBound(b[..n]);
      if a[n] < b[n] {
        HigherLimbDecides(a, b, n);
      } else if b[n] < a[n] {
        HigherLimbDecides(b, a, n);
      }
      SameLengthInjective(a[..n], b[..n]);
    }
  }

  /** A number has one form without leading zero limbs. */
  lemma ValueInjective(a: Limbs, b: Limbs)
    requires Normalised(a) && Normalised(b) && Value(a) == Value(b)
    ensures a == b
  {
    if |a| < |b| {
      LongerIsGreater(a, b);
    } else if |b| < |a| {
      LongerIsGreater(b, a);
    } else {
      SameLengthInjective(a, b);
    }
  }

  /** One column of a calculation: what exceeds the limb goes into the next column. */
  lemma Carry(low: int, high: int, total: int, base: int)
    requires low + high * TWO_TO_64 == total
    ensures low * base + high * (TWO_TO_64 * base) == total * base
  {
    MultiplyAssociates(high, TWO_TO_64, base);
    Distribute(low, high * TWO_TO_64, base);
  }

  /** Numbers that agree from limb `k` on differ as their low parts do. */
  lemma SameTail(a: Limbs, b: Limbs, k: nat)
    requires k <= |a| == |b| && a[k..] == b[k..]
    ensures Value(a) - Value(a[..k]) == Value(b) - Value(b[..k])
  {
    hide Value;
    ValueConcat(a[..k], a[k..]);
    ValueConcat(b[..k], b[k..]);
    assert a == a[..k] + a[k..] && b == b[..k] + b[k..];
  }

  /** A value of at least 2^(64 (n - 1)) fills n limbs. */
  lemma TopLimbNotZero(s: Limbs)
    requires s != [] && Value(s) >= Base(|s| - 1)
    ensures s[|s| - 1] != 0
  {
    ValueBound(s[..|s| - 1]);
  }

  /** A normalised number below 2^(64 n) has at most n limbs. */
  lemma LimbCount(s: Limbs, n: nat)
    requires Normalised(s) && Value(s) < Base(n) && 1 <= n
    ensures |s| <= n
  {
    if |s| > n {
      ValueLowerBound(s);
      PowMonotone(TWO_TO_64, n, |s| - 1);
    }
  }

  lemma {:induction false} BaseIsPowerOfTwo(n: nat)
    ensures Base(n) == Pow(2, 64 * n)
  {
    if n > 0 {
      BaseIsPowerOfTwo(n - 1);
      PowersOfTwo();
      PowAdd(2, 64, 64 * (n - 1));
    }
  }

  // ---------------------------------------------------------------------------------------------
  // Shifting
  // ---------------------------------------------------------------------------------------------

  /** The limbs of `d` shifted left by less than a limb: `up` is 2^shift, `down` is 2^(64 - shift). */
  function ShiftedLimb(d: Limbs, i: nat, up: int, down: int): Word64
    requires i <= |d| && 0 < up && 0 < down && up * down == TWO_TO_64
  {
    var high := if i < |d| then d[i] * up % TWO_TO_64 else 0;
    if i == 0 then high else
    SplitProduct(d[i - 1], up, down);
    ShiftedBits(if i < |d| then d[i] else 0, up, down);
    high + d[i - 1] / down
  }

  function Shifted(d: Limbs, up: int, down: int): (s: Limbs)
    requires 0 < up && 0 < down && up * down == TWO_TO_64
    ensures |s| == |d| + 1
  {
    seq(|d| + 1, i requires 0 <= i <= |d| => ShiftedLimb(d, i, up, down))
  }

  /** A product by 2^shift: its high limb is what a shift right by 64 - shift leaves. */
  lemma SplitProduct(x: Word64, up: int, down: int)
    requires 0 < up && 0 < down && up * down == TWO_TO_64
    ensures x * up == x * up % TWO_TO_64 + (x / down) * TWO_TO_64
    ensures 0 <= x / down < up
  {
    DivideBelow(x, down, up);
    var q, r := x / down, x % down;
    Distribute(q * down, r, up);
    MultiplyAssociates(q, down, up);
    MultiplyMonotone(0, r, up);
    MultiplyMonotone(r + 1, down, up);
    Distribute(r, 1, up);
    assert x * up == r * up + q * TWO_TO_64;
    RemainderIs(x * up, q, r * up);
  }

  lemma RemainderIs(total: int, q: int, r: int)
    requires total == r + q * TWO_TO_64 && 0 <= r < TWO_TO_64
    ensures total % TWO_TO_64 == r
  {
  }

  /** The bits shifted in from below fit under the bits shifted up. */
  lemma ShiftedBits(x: Word64, up: int, down: int)
    requires 0 < up && 0 < down && up * down == TWO_TO_64
    ensures x * up % TWO_TO_64 <= TWO_TO_64 - up
  {
    DivideBelow(x, down, up);
    var q, r := x / down, x % down;
    Distribute(q * down, r, up);
    MultiplyAssociates(q, down, up);
    MultiplyMonotone(0, r, up);
    MultiplyMonotone(r + 1, down, up);
    Distribute(r, 1, up);
    RemainderIs(x * up, q, r * up);
  }

  lemma {:induction false} ShiftedPrefix(d: Limbs, i: nat, up: int, down: int)
    requires 1 <= i <= |d| && 0 < up && 0 < down && up * down == TWO_TO_64
    ensures Value(Shifted(d, up, down)[..i]) + (d[i - 1] / down) * Base(i) == Value(d[..i]) * up
    decreases i
  {
    hide Value;
    var s := Shifted(d, up, down);
    var base := Base(i - 1);
    var x: int, q: int, m: int := d[i - 1], d[i - 1] / down, d[i - 1] * up % TWO_TO_64;
    SplitProduct(d[i - 1], up, down);
    ValuePrefix(s, i - 1);
    ValuePrefix(d, i - 1);
    Carry(m, q, x * up, base);
    Distribute(Value(d[..i - 1]), x * base, up);
    MultiplyAssociates(x, base, up);
    MultiplyAssociates(x, up, base);
    assert (x * base) * up == (x * up) * base;
    if i == 1 {
      assert s[..0] == [] && d[..0] == [];
      ValueZeros(s[..0]);
    } else {
      ShiftedPrefix(d, i - 1, up, down);
      Distribute(m, d[i - 2] / down, base);
    }
  }

  /** Shifting limbs multiplies by the power of two. */
  lemma ShiftedValue(d: Limbs, up: int, down: int)
    requires d != [] && 0 < up && 0 < down && up * down == TWO_TO_64
    ensures Value(Shifted(d, up, down)) == Value(d) * up
  {
    var s := Shifted(d, up, down);
    ShiftedPrefix(d, |d|, up, down);
    ValuePrefix(s, |d|);
    assert s[..|d| + 1] == s && d[..|d|] == d;
  }
}
