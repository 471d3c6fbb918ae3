/** The fixed-capacity big integer of biginteger.h, limb by limb. */
module BigInteger {
  import opened Bytes
  import opened Decimals
  import opened Powers
  import opened Limbs

  const CAPACITY: nat := 416  // kBitCount / sizeof(Type)

  /** What `capacity` limbs can hold. */
  ghost predicate Fits(v: int) {
    v < Base(CAPACITY)
  }

  /** MulAdd64 where there are 128-bit integers: a * b + k in two words. */
  method MulAdd64(a: Word64, b: Word64, k: Word64) returns (low: Word64, high: Word64)
    ensures low + high * TWO_TO_64 == a * b + k
  {
    var wa: int, wb: int := a, b;
    MultiplyMonotone(0, wa, wb);
    MultiplyMonotone(wa, TWO_TO_64 - 1, wb);
    var p := wa * wb + k;
    DivideBelow(p, TWO_TO_64, TWO_TO_64);
    low, high := p % TWO_TO_64, p / TWO_TO_64;
  }

  /** MulAdd64 elsewhere: four products of halves, all sums modulo 2^64. A sum that came out smaller than what
      was added to it has wrapped around, and its carry goes to the high word. */
  method MulAdd64ByParts(a: Word64, b: Word64, k: Word64) returns (low: Word64, high: Word64)
    ensures low + high * TWO_TO_64 == a * b + k
  {
    hide HalfProduct;
    var a0, a1, b0, b1 := a % 0x1_0000_0000, a / 0x1_0000_0000, b % 0x1_0000_0000, b / 0x1_0000_0000;
    ghost var product := ProductByParts(a, b);
    low, high := AddProducts(HalfProduct(a0, b0), HalfProduct(a0, b1), HalfProduct(a1, b0), HalfProduct(a1, b1));
    low := (low + k) % TWO_TO_64;
    if low < k {
      high := high + 1;
    }
  }

  lemma ProductByParts(a: Word64, b: Word64) returns (product: int)
    ensures var a0, a1, b0, b1 := a % 0x1_0000_0000, a / 0x1_0000_0000, b % 0x1_0000_0000, b / 0x1_0000_0000;
            product == HalfProduct(a1, b1) * TWO_TO_64
                       + (HalfProduct(a1, b0) + HalfProduct(a0, b1)) * 0x1_0000_0000 + HalfProduct(a0, b0)
    ensures product == a * b && 0 <= product <= 0xFFFF_FFFF_FFFF_FFFE_0000_0000_0000_0001
  {
    product := a * b;
    FourParts(a / 0x1_0000_0000, a % 0x1_0000_0000, b / 0x1_0000_0000, b % 0x1_0000_0000);
    ProductFits(a, b);
  }

  /** The four products in two words, with the carry of the middle column. */
  method AddProducts(x0: Word64, x1: Word64, x2: Word64, x3: Word64) returns (low: Word64, high: Word64)
    requires x1 <= 0xFFFF_FFFE_0000_0001
    requires x3 * TWO_TO_64 + (x2 + x1) * 0x1_0000_0000 + x0 <= 0xFFFF_FFFF_FFFF_FFFE_0000_0000_0000_0001
    ensures low + high * TWO_TO_64 == x3 * TWO_TO_64 + (x2 + x1) * 0x1_0000_0000 + x0
  {
    var middle: Word64 := x1 + x0 / 0x1_0000_0000;  // cannot carry
    ghost var sum := middle + x2;
    middle := (middle + x2) % TWO_TO_64;
    var carry := if middle < x2 then 1 else 0;
    assert sum == carry * TWO_TO_64 + middle;
    HalvesOf(middle);
    var upper: Word64 := x3 + carry * 0x1_0000_0000;
    low := (middle * 0x1_0000_0000) % TWO_TO_64 + x0 % 0x1_0000_0000;
    high := upper + middle / 0x1_0000_0000;
  }

  lemma HalvesOf(x: Word64)
    ensures x == x / 0x1_0000_0000 * 0x1_0000_0000 + x % 0x1_0000_0000
    ensures x * 0x1_0000_0000 % TWO_TO_64 == x % 0x1_0000_0000 * 0x1_0000_0000
  {
    var h, l := x / 0x1_0000_0000, x % 0x1_0000_0000;
    assert x * 0x1_0000_0000 == h * TWO_TO_64 + l * 0x1_0000_0000;
  }

  /** The column of operator*= for a 32-bit factor, in two halves; `k` never exceeds 32 bits. */
  method MulAdd32(a: Word64, u: int, k: Word64) returns (low: Word64, high: Word64)
    requires 0 <= u < 0x1_0000_0000 && k < 0x1_0000_0000
    ensures low + high * TWO_TO_64 == a * u + k && high < 0x1_0000_0000
  {
    var c, d := a / 0x1_0000_0000, a % 0x1_0000_0000;
    MultiplyMonotone(0, u, c);
    MultiplyMonotone(0, u, d);
    MultiplyMonotone(u, 0xFFFF_FFFF, c);
    MultiplyMonotone(u, 0xFFFF_FFFF, d);
    var uc: Word64 := u * c;
    var ud: Word64 := u * d;
    var p0: Word64 := ud + k;
    var p1: Word64 := uc + p0 / 0x1_0000_0000;
    low := p0 % 0x1_0000_0000 + (p1 % 0x1_0000_0000) * 0x1_0000_0000;
    high := p1 / 0x1_0000_0000;
    Distribute(0x1_0000_0000 * c, d, u);
    MultiplyAssociates(0x1_0000_0000, c, u);
  }

  /** ParseUint64: at most 19 digits, so it cannot overflow. */
  method ParseUint64(decimals: seq<Byte>) returns (r: Word64)
    requires AllDigits(decimals) && |decimals| <= 19
    ensures r == DecimalValue(decimals) < Pow(10, |decimals|)
  {
    PowersOfTen();
    r := 0;
    assert decimals[..0] == [];
    for i := 0 to |decimals|
      invariant r == DecimalValue(decimals[..i]) < Pow(10, i)
    {
      assert decimals[..i + 1][..i] == decimals[..i];
      PowMonotone(10, i + 1, 19);
      r := r * 10 + (decimals[i] - ZERO);
    }
    assert decimals[..|decimals|] == decimals;
  }

  class BigInteger {
    const digits: array<Word64>
    var count: nat

    ghost predicate Valid()
      reads this, digits
    {
      digits.Length == CAPACITY && 1 <= count <= CAPACITY && Normalised(digits[..count])
    }

    ghost function Number(): int
      requires Valid()
      reads this, digits
    {
      Value(digits[..count])
    }

    constructor (u: Word64)
      ensures Valid() && fresh(digits) && Number() == u
    {
      digits := new Word64[CAPACITY](_ => 0);
      count := 1;
      new;
      digits[0] := u;
      OneLimb(u);
      assert digits[..1] == [u];
    }

    method Assign(u: Word64)
      requires Valid()
      modifies this, digits
      ensures Valid() && Number() == u
    {
      digits[0] := u;
      count := 1;
      OneLimb(u);
      assert digits[..1] == [u];
    }

    predicate IsWord(u: Word64)
      requires Valid()
      reads this, digits
    {
      count == 1 && digits[0] == u
    }

    predicate IsZero()
      requires Valid()
      reads this, digits
    {
      IsWord(0)
    }

    method PushBack(digit: Word64)
      requires digits.Length == CAPACITY && count < CAPACITY
      modifies this, digits
      ensures count == old(count) + 1 && digits[..count] == old(digits[..count]) + [digit]
    {
      digits[count] := digit;
      count := count + 1;
    }

    /** operator+= with its chain of carries: a limb carries exactly if it came out smaller than it was. */
    method AddWord(u: Word64)
      requires Valid() && Fits(Number() + u)
      modifies this, digits
      ensures Valid() && Number() == old(Number()) + u
    {
      hide Value, Pow, Base, Fits, Normalised, Added, Multiplied;
      ghost var before := digits[..count];
      var backup := digits[0];
      digits[0] := (digits[0] + u) % TWO_TO_64;
      AddedFirst(before, digits[..count], u);
      for i := 0 to count - 1
        invariant count == old(count) && Added(before, digits[..count], i, u, digits[i] < backup)
      {
        if digits[i] >= backup {
          AddedDone(before, digits[..count], i, u);
          return;
        }
        ghost var after := digits[..count];
        backup := digits[i + 1];
        digits[i + 1] := (digits[i + 1] + 1) % TWO_TO_64;
        assert digits[..count] == after[i + 1 := (after[i + 1] + 1) % TWO_TO_64];
        AddedNext(before, after, digits[..count], i, u);
      }
      if digits[count - 1] < backup {
        AddedOverflow(before, digits[..count], u);
        PushBack(1);
      } else {
        AddedDone(before, digits[..count], count - 1, u);
      }
    }

    /** operator*= by a 64-bit factor. */
    method MultiplyWord(u: Word64)
      requires Valid() && Fits(Number() * u)
      modifies this, digits
      ensures Valid() && Number() == old(Number()) * u
    {
      hide Value, Pow, Base, Fits, Normalised, Added, Multiplied;
      if u == 0 {
        Assign(0);
      } else if u == 1 {
      } else if IsWord(1) {
        assert digits[..1] == [1];
        OneLimb(1);
        Assign(u);
      } else {
        ghost var before := digits[..count];
        var k: Word64 := 0;
        MultipliedNone(before, digits[..count], u);
        for i := 0 to count
          invariant count == old(count) && Multiplied(before, digits[..count], i, u, k)
        {
          ghost var after := digits[..count];
          var high;
          digits[i], high := MulAdd64(digits[i], u, k);
          assert digits[..count] == after[i := digits[i]];
          MultipliedNext(before, after, digits[..count], i, u, k, high);
          k := high;
        }
        MultipliedAll(before, digits[..count], u, k);
        if k > 0 {
          PushBack(k);
        }
      }
    }

    /** operator*= by a 32-bit factor: the same columns, computed in halves. */
    method MultiplyHalfWord(u: Word64)
      requires Valid() && Fits(Number() * u) && u < 0x1_0000_0000
      modifies this, digits
      ensures Valid() && Number() == old(Number()) * u
    {
      hide Value, Pow, Base, Fits, Normalised, Added, Multiplied;
      if u == 0 {
        Assign(0);
      } else if u == 1 {
      } else if IsWord(1) {
        assert digits[..1] == [1];
        OneLimb(1);
        Assign(u);
      } else {
        ghost var before := digits[..count];
        var k: Word64 := 0;
        MultipliedNone(before, digits[..count], u);
        for i := 0 to count
          invariant count == old(count) && Multiplied(before, digits[..count], i, u, k) && k < 0x1_0000_0000
        {
          ghost var after := digits[..count];
          var high;
          digits[i], high := MulAdd32(digits[i], u, k);
          assert digits[..count] == after[i := digits[i]];
          MultipliedNext(before, after, digits[..count], i, u, k, high);
          k := high;
        }
        MultipliedAll(before, digits[..count], u, k);
        if k > 0 {
          PushBack(k);
        }
      }
    }

    /** MultiplyPow5: by 5^27 and 5^13 as long as they fit, then by a table entry. */
    method MultiplyPow5(exp: nat)
      requires Valid() && Fits(Number() * Pow(5, exp))
      modifies this, digits
      ensures Valid() && Number() == old(Number()) * Pow(5, exp)
    {
      hide Value, Pow, Base, Fits, Normalised, TimesPow5;
      ghost var before := Number();
      var e := exp;
      FivePowers();
      PowerNone(before);
      ghost var done: nat := 0;
      while e >= 27
        invariant Valid() && done + e == exp && Number() == TimesPow5(before, done)
        decreases e
      {
        PowerSoFar(before, done, 27, done + 27, exp);
        MultiplyWord(0x6765C793FA10079D);
        e, done := e - 27, done + 27;
      }
      while e >= 13
        invariant Valid() && done + e == exp && Number() == TimesPow5(before, done)
        decreases e
      {
        PowerSoFar(before, done, 13, done + 13, exp);
        MultiplyHalfWord(1220703125);
        e, done := e - 13, done + 13;
      }
      if e > 0 {
        PowerSoFar(before, done, e, done + e, exp);
        PowMonotone(5, e, 12);
        MultiplyHalfWord(Pow(5, e));  // kPow5[e - 1]
        done := done + e;
      }
      assert done == exp;
      PowerDone(before, done);
    }

    /** operator<<=: whole limbs are moved, bits are shifted through from the top limb down, in place. */
    method ShiftLeft(shift: nat)
      requires Valid()
      requires IsZero() || shift == 0 || HighestLimbWritten(count, shift) < CAPACITY
      modifies this, digits
      ensures Valid() && Number() == old(Number()) * Pow(2, shift)
    {
      hide Value, Pow, Base, Normalised, ShiftedBy;
      ghost var d := digits[..count];
      if IsZero() || shift == 0 {
        ShiftOfNothing(d, shift);
        return;
      }
      NotZero(d);
      var offset, interShift := shift / 64, shift % 64;
      ShiftUp(offset, interShift);
      ghost var high := digits[offset..count];
      ClearLimbs(offset);
      assert digits[..count][offset..] == high;
      ShiftDone(d, digits[..count], offset, interShift, shift);
    }

    /** The limbs from offset on: moved when the shift is by whole limbs, shifted bit by bit otherwise. */
    method ShiftUp(offset: nat, interShift: nat)
      requires Valid() && interShift < 64
      requires if interShift == 0 then count + offset <= CAPACITY else count + offset < CAPACITY
      modifies this`count, digits
      ensures offset < count <= CAPACITY && ShiftedBy(old(digits[..count]), digits[offset..count], interShift)
    {
      hide Value, Pow, Base, Normalised, Shifted;
      if interShift == 0 {
        MoveLimbs(offset);
        count := count + offset;
      } else {
        ShiftFactors(interShift);
        ShiftBits(offset, Pow(2, interShift), Pow(2, 64 - interShift));
        ghost var t := digits[offset..offset + count + 1];
        count := count + offset;
        if digits[count] != 0 {
          count := count + 1;
        }
        assert digits[offset..count] == if t[|t| - 1] != 0 then t else t[..|t| - 1];
      }
    }

    /** The memmove of a shift by whole limbs. */
    method MoveLimbs(offset: nat)
      requires Valid() && count + offset <= CAPACITY
      modifies digits
      ensures digits[offset..count + offset] == old(digits[..count])
    {
      ghost var d := digits[..count];
      var i := count;
      while i > 0
        invariant 0 <= i <= count
        invariant forall k :: i + offset <= k < count + offset ==> digits[k] == d[k - offset]
        invariant forall k :: 0 <= k < count && k < i + offset ==> digits[k] == d[k]
      {
        i := i - 1;
        digits[i + offset] := digits[i];
      }
    }

    method ClearLimbs(n: nat)
      requires n <= digits.Length
      modifies digits
      ensures forall j :: 0 <= j < n ==> digits[j] == 0
      ensures forall j :: n <= j < digits.Length ==> digits[j] == old(digits[j])
    {
      for i := 0 to n
        invariant forall j :: 0 <= j < i ==> digits[j] == 0
        invariant forall j :: i <= j < digits.Length ==> digits[j] == old(digits[j])
      {
        digits[i] := 0;
      }
    }

    /** The loop that shifts bits from limb to limb. It writes one limb more than it reads. */
    method ShiftBits(offset: nat, up: Word64, down: Word64)
      requires Valid() && count + offset < CAPACITY
      requires 0 < up && 0 < down && up * down == TWO_TO_64
      modifies digits
      ensures digits[offset..offset + count + 1] == Shifted(old(digits[..count]), up, down)
    {
      hide Value, Normalised, Shifted;
      ghost var d := digits[..count];
      ghost var t := Shifted(d, up, down);
      digits[count] := 0;
      var i := count;
      while i > 0
        invariant 0 <= i <= count
        invariant forall k :: i + offset < k <= count + offset ==> digits[k] == t[k - offset]
        invariant forall k :: 0 <= k < count && k <= i + offset ==> digits[k] == d[k]
        invariant count <= i + offset ==> digits[count] == 0
      {
        ShiftedAt(d, i, up, down);
        SplitProduct(digits[i - 1], up, down);
        ShiftedBits(digits[i], up, down);
        digits[i + offset] := digits[i] * up % TWO_TO_64 + digits[i - 1] / down;
        i := i - 1;
      }
      ShiftedAt(d, 0, up, down);
      digits[offset] := digits[0] * up % TWO_TO_64;
    }

    /** The constructor from decimal digits, 19 at a time. */
    constructor FromDecimals(decimals: seq<Byte>)
      requires decimals != [] && AllDigits(decimals) && LastStepFits(decimals)
      ensures Valid() && fresh(digits) && Number() == DecimalValue(decimals)
    {
      digits := new Word64[CAPACITY](_ => 0);
      count := 1;
      new;
      hide Base, Pow, LastStepFits, Value, Normalised;
      OneLimb(0);
      assert digits[..1] == [0];
      var i, length := 0, |decimals|;
      ghost var steps := 0;
      NothingRead(decimals);
      while length >= 19
        invariant 0 <= i <= |decimals| == i + length
        invariant i == 19 * steps && Valid() && fresh(digits) && Number() == DecimalValue(decimals[..i])
      {
        StepFits(decimals, i, steps, 19);
        AppendDecimal64(decimals, i, 19);
        length, i, steps := length - 19, i + 19, steps + 1;
      }
      if length > 0 {
        StepFits(decimals, i, steps, length);
        AppendDecimal64(decimals, i, length);
      }
      assert decimals[..|decimals|] == decimals;
    }

    /** AppendDecimal64: this = this * 10^exp + u, by powers of five and a shift. */
    method AppendDecimal64(decimals: seq<Byte>, begin: nat, exp: nat)
      requires Valid() && begin + exp <= |decimals| && 0 < exp <= 19 && AllDigits(decimals)
      requires Number() == DecimalValue(decimals[..begin]) && Number() * Pow(5, exp) < Base(CAPACITY - 1)
      modifies this, digits
      ensures Valid() && Number() == DecimalValue(decimals[..begin + exp])
    {
      hide Value, Pow, Base, Normalised, DecimalValue;
      var u := ParseUint64(decimals[begin..begin + exp]);
      DecimalConcat(decimals, begin, begin + exp);
      if IsZero() {
        ZeroLimbs(digits[..count]);
        Assign(u);
      } else {
        DecimalsFit(exp, Number(), u);
        MultiplyPow5(exp);
        LimbCount(digits[..count], CAPACITY - 1);
        ShiftLeft(exp);
        AddWord(u);
      }
    }

    /** Compare: by length, then from the top limb down. */
    method Compare(rhs: BigInteger) returns (cmp: int)
      requires Valid() && rhs.Valid()
      ensures cmp < 0 <==> Number() < rhs.Number()
      ensures cmp == 0 <==> Number() == rhs.Number()
      ensures cmp > 0 <==> Number() > rhs.Number()
    {
      hide Value, Base;
      ghost var a, b := digits[..count], rhs.digits[..rhs.count];
      if count != rhs.count {
        if count < rhs.count {
          LongerIsGreater(a, b);
          return -1;
        } else {
          LongerIsGreater(b, a);
          return 1;
        }
      }
      var i := count;
      while i > 0
        invariant 0 <= i <= count && forall k :: i <= k < count ==> a[k] == b[k]
      {
        i := i - 1;
        if digits[i] != rhs.digits[i] {
          if digits[i] < rhs.digits[i] {
            HigherLimbDecides(a, b, i);
            return -1;
          } else {
            HigherLimbDecides(b, a, i);
            return 1;
          }
        }
      }
      assert a == b;
      return 0;
    }

    /** Difference: |this - rhs| into `out`, and whether this is the smaller. The subtraction is exact if
        and only if no borrow gets lost. */
    method Difference(rhs: BigInteger, out: BigInteger) returns (less: bool)
      requires Valid() && rhs.Valid() && out.Valid() && Number() != rhs.Number()
      requires out.digits != digits && out.digits != rhs.digits && out != this && out != rhs
      modifies out, out.digits
      ensures out.Valid() && digits[..count] == old(digits[..count]) && rhs.digits[..rhs.count] == old(rhs.digits[..rhs.count])
      ensures less <==> Number() < rhs.Number()
      ensures var a, b := if less then rhs.digits[..rhs.count] else digits[..count],
                          if less then digits[..count] else rhs.digits[..rhs.count];
              !LosesBorrow(a, b) <==> out.Number() == Value(a) - Value(b)
    {
      hide Value, Base, Pow, LosesBorrow;
      var cmp := Compare(rhs);
      less := cmp < 0;
      if less {
        rhs.Subtract(this, out);
      } else {
        Subtract(rhs, out);
      }
    }

    /** The loop of Difference, this being the greater. */
    method Subtract(b: BigInteger, out: BigInteger)
      requires Valid() && b.Valid() && out.Valid() && Number() > b.Number()
      requires out.digits != digits && out.digits != b.digits && out != this && out != b
      modifies out, out.digits
      ensures out.Valid() && digits[..count] == old(digits[..count]) && b.digits[..b.count] == old(b.digits[..b.count])
      ensures !LosesBorrow(digits[..count], b.digits[..b.count]) <==> out.Number() == Number() - b.Number()
    {
      hide Value, Base, Pow, LosesBorrow, Subtracted, TopIs, Normalised, LostAt;
      ghost var x, y := digits[..count], b.digits[..b.count];
      SmallerIsNotLonger(x, y);
      var borrow: Word64 := 0;
      ghost var lost := 0;
      NothingSubtracted(x, y, out.digits[..0], out.count);
      for i := 0 to count
        invariant digits[..count] == x && b.digits[..b.count] == y && borrow <= 1
        invariant Subtracted(x, y, out.digits[..i], i, borrow, lost)
        invariant TopIs(out.digits[..i], out.count)
      {
        ghost var before := out.digits[..i];
        assert digits[i] == x[i] && (i < b.count ==> b.digits[i] == y[i]);
        var d: Word64 := (digits[i] - borrow) % TWO_TO_64;
        if i < b.count {
          d := (d - b.digits[i]) % TWO_TO_64;
        }
        ghost var borrowIn := borrow;
        borrow := if d > digits[i] then 1 else 0;
        SubtractColumn(x, y, before, i, borrowIn, lost, d, borrow);
        TopStep(before, d, out.count);
        out.digits[i] := d;
        if d != 0 {
          out.count := i + 1;
        }
        assert out.digits[..i + 1] == before + [d];
        lost := lost + LostAt(x, y, i, borrowIn);
      }
      SubtractedAll(x, y, out.digits[..count], borrow, lost);
      TopLimbs(out.digits[..count], out.count);
      assert out.digits[..count][..out.count] == out.digits[..out.count];
    }
  }

  ghost function TimesPow5(n: int, exp: nat): int {
    n * Pow(5, exp)
  }

  lemma PowerNone(before: int)
    ensures TimesPow5(before, 0) == before
  {
  }

  lemma PowerDone(before: int, exp: nat)
    ensures TimesPow5(before, exp) == before * Pow(5, exp)
  {
  }

  lemma OneLimb(u: Word64)
    ensures Value([u]) == u
  {
    assert [u][..0] == [];
  }

  // ---------------------------------------------------------------------------------------------
  // Addition
  // ---------------------------------------------------------------------------------------------

  /** The first i + 1 limbs hold the sum so far, but for a carry into the next. */
  ghost predicate Added(before: Limbs, after: Limbs, i: nat, u: Word64, carry: bool) {
    && i < |before| == |after| && after[i + 1..] == before[i + 1..]
    && Value(after[..i + 1]) + (if carry then Base(i + 1) else 0) == Value(before[..i + 1]) + u
  }

  lemma AddedFirst(before: Limbs, after: Limbs, u: Word64)
    requires before != [] && after == before[0 := (before[0] + u) % TWO_TO_64]
    ensures Added(before, after, 0, u, after[0] < before[0])
  {
    assert after[..1] == [after[0]] && before[..1] == [before[0]];
    OneLimb(after[0]);
    OneLimb(before[0]);
  }

  lemma AddedNext(before: Limbs, after: Limbs, next: Limbs, i: nat, u: Word64)
    requires Added(before, after, i, u, true) && i + 1 < |before|
    requires next == after[i + 1 := (after[i + 1] + 1) % TWO_TO_64]
    ensures Added(before, next, i + 1, u, next[i + 1] < after[i + 1])
  {
    hide Value;
    assert after[i + 1] == after[i + 1..][0] == before[i + 1];
    assert next[..i + 1] == after[..i + 1];
    assert next[i + 2..] == after[i + 1..][1..] == before[i + 2..];
    ValuePrefix(before, i + 1);
    ValuePrefix(next, i + 1);
    var base := Base(i + 1);
    var x: int := before[i + 1];
    Distribute(x, 1, base);
    if x + 1 == TWO_TO_64 {
      assert next[i + 1] == 0;
    }
  }

  lemma AddedDone(before: Limbs, after: Limbs, i: nat, u: Word64)
    requires Normalised(before) && Added(before, after, i, u, false)
    ensures Normalised(after) && Value(after) == Value(before) + u
  {
    SameTail(after, before, i + 1);
    if |before| > 1 {
      ValueLowerBound(before);
      TopLimbNotZero(after);
    }
  }

  lemma AddedOverflow(before: Limbs, after: Limbs, u: Word64)
    requires Normalised(before) && Added(before, after, |before| - 1, u, true)
    requires Fits(Value(before) + u) && |before| <= CAPACITY
    ensures |before| < CAPACITY && Normalised(after + [1]) && Value(after + [1]) == Value(before) + u
  {
    assert after[..|before|] == after && before[..|before|] == before;
    ValueAppend(after, 1);
  }

  // ---------------------------------------------------------------------------------------------
  // Multiplication
  // ---------------------------------------------------------------------------------------------

  /** The first i limbs hold the product of the first i, but for the word k that goes on. */
  ghost predicate Multiplied(before: Limbs, after: Limbs, i: nat, u: int, k: int) {
    && i <= |before| == |after| && after[i..] == before[i..]
    && Value(after[..i]) + k * Base(i) == Value(before[..i]) * u
  }

  lemma MultipliedNone(before: Limbs, after: Limbs, u: int)
    requires before == after
    ensures Multiplied(before, after, 0, u, 0)
  {
    assert before[..0] == [];
  }

  lemma MultipliedNext(before: Limbs, after: Limbs, next: Limbs, i: nat, u: int, k: int, high: int)
    requires Multiplied(before, after, i, u, k) && i < |before| == |next| && next == after[i := next[i]]
    requires next[i] + high * TWO_TO_64 == after[i] * u + k
    ensures Multiplied(before, next, i + 1, u, high)
  {
    hide Value;
    assert after[i] == after[i..][0] == before[i];
    assert next[..i] == after[..i];
    assert next[i + 1..] == after[i..][1..] == before[i + 1..];
    ValuePrefix(before, i);
    ValuePrefix(next, i);
    var base := Base(i);
    var x: int := before[i];
    Carry(next[i], high, x * u + k, base);
    Distribute(x * u, k, base);
    Distribute(Value(before[..i]), x * base, u);
    assert (x * base) * u == (x * u) * base;
  }

  lemma MultipliedAll(before: Limbs, after: Limbs, u: int, k: Word64)
    requires Normalised(before) && Multiplied(before, after, |before|, u, k) && 1 <= u
    requires Fits(Value(before) * u) && |before| <= CAPACITY
    ensures k > 0 ==> |before| < CAPACITY && Normalised(after + [k]) && Value(after + [k]) == Value(before) * u
    ensures k == 0 ==> Normalised(after) && Value(after) == Value(before) * u
  {
    hide Value, Pow;
    assert after[..|before|] == after && before[..|before|] == before;
    if k > 0 {
      ValueAppend(after, k);
      MultiplyMonotone(1, k, Base(|before|));
      if |before| == CAPACITY {
        assert false;
      }
    } else if |before| > 1 {
      ValueLowerBound(before);
      MultiplyMonotone(1, u, Value(before));
      TopLimbNotZero(after);
    }
  }

  lemma FivePowers()
    ensures Pow(5, 0) == 1 && Pow(5, 27) == 0x6765C793FA10079D && Pow(5, 13) == 1220703125 && Pow(5, 12) == 244140625
  {
    assert Pow(5, 4) == 625;
    assert Pow(5, 8) == 390625;
    assert Pow(5, 12) == 244140625;
    PowAdd(5, 13, 13);
    assert Pow(5, 27) == 5 * Pow(5, 26);
  }

  /** Multiplying by the next factor of a power of five keeps within what the whole power needs. */
  lemma PowerSoFar(before: int, done: nat, step: nat, next: nat, exp: nat)
    requires 0 <= before && done + step == next <= exp && Fits(before * Pow(5, exp))
    ensures TimesPow5(before, done) * Pow(5, step) == TimesPow5(before, next)
    ensures Fits(TimesPow5(before, done) * Pow(5, step))
  {
    hide Pow, Base;
    PowAdd(5, done, step);
    MultiplyAssociates(before, Pow(5, done), Pow(5, step));
    PowMonotone(5, next, exp);
    MultiplyMonotone(Pow(5, next), Pow(5, exp), before);
  }

  // ---------------------------------------------------------------------------------------------
  // Shifting
  // ---------------------------------------------------------------------------------------------

  /** The highest limb that a shift of a nonzero number writes. */
  function HighestLimbWritten(count: nat, shift: nat): nat
    requires 1 <= count
  {
    if shift % 64 == 0 then count + shift / 64 - 1 else count + shift / 64
  }

  /** The source asserts count + offset <= capacity. That keeps every write inside except when a shift by
      a part of a limb meets it with equality, as 416 limbs shifted by one bit do. */
  lemma ShiftAssertionIsOneShort(count: nat, shift: nat)
    requires 1 <= count && count + shift / 64 <= CAPACITY
    ensures HighestLimbWritten(count, shift) < CAPACITY <==> shift % 64 == 0 || count + shift / 64 < CAPACITY
    ensures CAPACITY + 1 / 64 <= CAPACITY && HighestLimbWritten(CAPACITY, 1) == CAPACITY
  {
  }

  lemma ShiftFactors(inter: nat)
    requires 0 < inter < 64
    ensures Pow(2, inter) * Pow(2, 64 - inter) == TWO_TO_64
    ensures Pow(2, inter) < TWO_TO_64 && Pow(2, 64 - inter) < TWO_TO_64
  {
    PowersOfTwo();
    PowAdd(2, inter, 64 - inter);
    var up, down := Pow(2, inter), Pow(2, 64 - inter);
    assert up == 2 * Pow(2, inter - 1) && down == 2 * Pow(2, 63 - inter);
    MultiplyMonotone(2, up, down);
    MultiplyMonotone(2, down, up);
  }

  lemma ZeroLimbs(d: Limbs)
    requires d == [0]
    ensures Value(d) == 0
  {
    OneLimb(0);
  }

  lemma NotZero(d: Limbs)
    requires Normalised(d) && d != [0]
    ensures d[|d| - 1] != 0
  {
  }

  lemma ShiftOfNothing(d: Limbs, shift: nat)
    requires d == [0] || shift == 0
    ensures Value(d) == Value(d) * Pow(2, shift)
  {
    if d == [0] {
      ZeroLimbs(d);
    } else {
      assert Pow(2, shift) == 1;
    }
  }

  /** A limb of the shifted number, a zero limb taken to stand above the others. */
  lemma ShiftedAt(d: Limbs, i: nat, up: int, down: int)
    requires i <= |d| && 0 < up && 0 < down && up * down == TWO_TO_64
    ensures Shifted(d, up, down)[i]
         == (if i < |d| then d[i] else 0) * up % TWO_TO_64 + (if i == 0 then 0 else d[i - 1] / down)
  {
    assert 0 * up % TWO_TO_64 == 0;
  }

  /** What high holds once d has been shifted up by inter bits, less than one limb. */
  ghost predicate ShiftedBy(d: Limbs, high: Limbs, inter: nat)
    requires inter < 64
  {
    if inter == 0 then high == d
    else
      && 0 < Pow(2, inter) && 0 < Pow(2, 64 - inter) && Pow(2, inter) * Pow(2, 64 - inter) == TWO_TO_64
      && (var t := Shifted(d, Pow(2, inter), Pow(2, 64 - inter));
          high == if t[|d|] != 0 then t else t[..|d|])
  }

  /** Zeros below and the shifted limbs above, with or without the topmost: that is d * 2^shift. */
  lemma ShiftDone(d: Limbs, s: Limbs, offset: nat, inter: nat, shift: nat)
    requires Normalised(d) && d[|d| - 1] != 0 && inter < 64 && shift == 64 * offset + inter && offset < |s|
    requires forall j :: 0 <= j < offset ==> s[j] == 0
    requires ShiftedBy(d, s[offset..], inter)
    ensures Normalised(s) && Value(s) == Value(d) * Pow(2, shift)
  {
    hide Value, Pow, Base, ShiftedBy;
    var high := s[offset..];
    ShiftedPart(d, high, inter);
    ValueConcat(s[..offset], high);
    ValueZeros(s[..offset]);
    assert s == s[..offset] + high;
    BaseIsPowerOfTwo(offset);
    PowAdd(2, inter, 64 * offset);
    MultiplyAssociates(Value(d), Pow(2, inter), Pow(2, 64 * offset));
    assert inter + 64 * offset == shift;
  }

  lemma ShiftedPart(d: Limbs, high: Limbs, inter: nat)
    requires Normalised(d) && d[|d| - 1] != 0 && inter < 64 && ShiftedBy(d, high, inter)
    ensures high != [] && high[|high| - 1] != 0 && Value(high) == Value(d) * Pow(2, inter)
  {
    if inter == 0 {
      assert Pow(2, 0) == 1;
    } else {
      hide Pow;
      var t := Shifted(d, Pow(2, inter), Pow(2, 64 - inter));
      ShiftedValue(d, Pow(2, inter), Pow(2, 64 - inter));
      if t[|d|] == 0 {
        ValuePrefix(t, |d|);
        assert t[..|d| + 1] == t;
        ValueLowerBound(d);
        MultiplyMonotone(1, Pow(2, inter), Value(d));
        TopLimbNotZero(high);
      }
    }
  }

  // ---------------------------------------------------------------------------------------------
  // Decimals
  // ---------------------------------------------------------------------------------------------

  lemma TenIsFiveTimesTwo(n: nat)
    ensures Pow(10, n) == Pow(5, n) * Pow(2, n)
  {
    if n > 0 {
      TenIsFiveTimesTwo(n - 1);
      var f, t := Pow(5, n - 1), Pow(2, n - 1);
      assert 10 * (f * t) == (5 * f) * (2 * t);
    }
  }

  /** The intermediate products of AppendDecimal64 leave one limb to spare. */
  lemma DecimalsFit(exp: nat, n: int, u: int)
    requires 0 <= n && 0 <= u < TWO_TO_64 && exp <= 19 && n * Pow(5, exp) < Base(CAPACITY - 1)
    ensures Fits(n * Pow(5, exp)) && n * Pow(5, exp) * Pow(2, exp) == n * Pow(10, exp)
    ensures Fits(n * Pow(5, exp) * Pow(2, exp) + u)
  {
    hide Pow, Base;
    TenIsFiveTimesTwo(exp);
    var product, base := n * Pow(5, exp), Base(CAPACITY - 1);
    MultiplyAssociates(n, Pow(5, exp), Pow(2, exp));
    MultiplyMonotone(0, n, Pow(5, exp));
    PowMonotone(2, exp, 60);
    PowersOfTwo();
    MultiplyMonotone(Pow(2, exp), 0x1000_0000_0000_0000, product);
    BaseMonotone(1, CAPACITY - 1);
    NextBase();
  }

  lemma NextBase()
    ensures Base(CAPACITY) == TWO_TO_64 * Base(CAPACITY - 1) && Base(1) == TWO_TO_64
  {
    assert Base(0) == 1;
  }

  /** The digits left for the last turn of the constructor. */
  function LastStep(length: nat): (e: nat)
    requires length > 0
    ensures 1 <= e <= 19 && e <= length && (length - e) % 19 == 0
  {
    (length - 1) % 19 + 1
  }

  /** Before the last shift of the constructor one limb is free. */
  ghost predicate LastStepFits(decimals: seq<Byte>)
    requires decimals != [] && AllDigits(decimals)
  {
    var e := LastStep(|decimals|);
    DecimalValue(decimals[..|decimals| - e]) * Pow(5, e) < Base(CAPACITY - 1)
  }

  lemma NothingRead(decimals: seq<Byte>)
    ensures AllDigits(decimals[..0]) && DecimalValue(decimals[..0]) == 0
    ensures Normalised([0])
  {
  }

  /** If it is so before the last shift, it is so before every shift. */
  lemma StepFits(decimals: seq<Byte>, begin: nat, steps: int, exp: nat)
    requires decimals != [] && AllDigits(decimals) && LastStepFits(decimals)
    requires begin == 19 * steps && begin + exp <= |decimals|
    requires exp == 19 || (0 < exp < 19 && begin + exp == |decimals|)
    ensures DecimalValue(decimals[..begin]) * Pow(5, exp) < Base(CAPACITY - 1)
  {
    hide DecimalValue, Base, Pow;
    var e := LastStep(|decimals|);
    var last := |decimals| - e;
    if begin != last {
      assert begin + exp <= last;
      var n, m, o := DecimalValue(decimals[..begin]), DecimalValue(decimals[..begin + exp]), DecimalValue(decimals[..last]);
      PrefixValues(decimals, begin, begin + exp);
      PrefixValues(decimals, begin + exp, last);
      FewerFives(exp);
      StepBelow(n, Pow(5, exp), Pow(10, exp), m, Pow(10, last - begin - exp), o, Pow(5, e));
    }
  }

  lemma StepBelow(n: int, five: int, ten: int, m: int, more: int, o: int, last: int)
    requires 0 <= n && 0 <= m && 0 <= o && five <= ten && 1 <= more && 1 <= last
    requires n * ten <= m && m * more <= o
    ensures n * five <= o * last
  {
    MultiplyMonotone(five, ten, n);
    MultiplyMonotone(1, more, m);
    MultiplyMonotone(1, last, o);
  }

  lemma {:induction false} FewerFives(n: nat)
    ensures Pow(5, n) <= Pow(10, n)
  {
    TenIsFiveTimesTwo(n);
    MultiplyMonotone(1, Pow(2, n), Pow(5, n));
  }

  lemma PrefixValues(decimals: seq<Byte>, begin: nat, end: nat)
    requires begin <= end <= |decimals| && AllDigits(decimals)
    ensures 0 <= DecimalValue(decimals[..begin])
    ensures DecimalValue(decimals[..begin]) * Pow(10, end - begin) <= DecimalValue(decimals[..end])
  {
    DecimalConcat(decimals, begin, end);
  }

  /** The condition is exact: with less room the shift writes behind the last limb. */
  lemma LastStepFitsExactly(decimals: seq<Byte>, product: Limbs)
    requires decimals != [] && AllDigits(decimals) && Normalised(product)
    requires var e := LastStep(|decimals|);
             Value(product) == DecimalValue(decimals[..|decimals| - e]) * Pow(5, e)
    ensures LastStepFits(decimals) <==> HighestLimbWritten(|product|, LastStep(|decimals|)) < CAPACITY
  {
    hide Value, DecimalValue, Base, Pow;
    if LastStepFits(decimals) {
      LimbCount(product, CAPACITY - 1);
    } else if |product| < CAPACITY {
      ValueBound(product);
      BaseMonotone(|product|, CAPACITY - 1);
    }
  }

  /** A number that leaves a limb to spare fits, whatever its leading zeros. */
  lemma SmallEnoughFits(decimals: seq<Byte>)
    requires decimals != [] && AllDigits(decimals) && DecimalValue(decimals) < Base(CAPACITY - 1)
    ensures LastStepFits(decimals)
  {
    hide DecimalValue, Base, Pow;
    var e := LastStep(|decimals|);
    var n := DecimalValue(decimals[..|decimals| - e]);
    assert decimals[..|decimals|] == decimals;
    PrefixValues(decimals, |decimals| - e, |decimals|);
    FewerFives(e);
    MultiplyMonotone(Pow(5, e), Pow(10, e), n);
  }

  lemma BaseMonotone(m: nat, n: nat)
    requires m <= n
    ensures Base(m) <= Base(n)
  {
    PowMonotone(TWO_TO_64, m, n);
  }

  // ---------------------------------------------------------------------------------------------
  // Subtraction
  // ---------------------------------------------------------------------------------------------

  const MAX_WORD: Word64 := 0xFFFF_FFFF_FFFF_FFFF

  /** Some limb of `b` above the lowest is 2^64 - 1, and the limbs below it borrow from it. There the code
      computes a - 1 - (2^64 - 1) = a, sees no decrease, and forgets the borrow. */
  ghost predicate LosesBorrow(a: Limbs, b: Limbs) {
    LosesBorrowBelow(a, b, |b|)
  }

  ghost predicate LosesBorrowBelow(a: Limbs, b: Limbs, n: nat) {
    exists k :: 0 < k < n && k < |b| && k <= |a| && b[k] == MAX_WORD && Value(a[..k]) < Value(b[..k])
  }

  /** No borrow is lost if no limb of the smaller operand above its lowest is 2^64 - 1. */
  lemma NoFullLimbNoLoss(a: Limbs, b: Limbs)
    requires forall k :: 0 < k < |b| ==> b[k] != MAX_WORD
    ensures !LosesBorrow(a, b)
  {
  }

  /** The loss is real: 2^128 - ((2^64 - 1) * 2^64 + 1) comes out wrong. */
  lemma BorrowGetsLost()
    ensures Value([1, MAX_WORD]) < Value([0, 0, 1]) && LosesBorrow([0, 0, 1], [1, MAX_WORD])
  {
    LongerIsGreater([1, MAX_WORD], [0, 0, 1]);
    var a: Limbs, b: Limbs := [0, 0, 1], [1, MAX_WORD];
    assert a[..1] == [0] && b[..1] == [1];
    OneLimb(0);
    OneLimb(1);
    assert b[1] == MAX_WORD && Value(a[..1]) < Value(b[..1]);
  }

  function Least(m: nat, n: nat): nat {
    if m < n then m else n
  }

  /** The columns below i: exact, but for the borrow and for what lost borrows added. */
  ghost predicate Subtracted(a: Limbs, b: Limbs, s: Limbs, i: nat, borrow: int, lost: int) {
    && i <= |a| && |s| == i && 0 <= lost
    && Value(s) + Value(b[..Least(i, |b|)]) == Value(a[..i]) + borrow * Base(i) + lost
    && (lost > 0 <==> LosesBorrowBelow(a, b, i))
  }

  lemma NothingSubtracted(a: Limbs, b: Limbs, s: Limbs, count: nat)
    requires s == []
    ensures Subtracted(a, b, s, 0, 0, 0) && TopIs(s, count)
  {
    assert a[..0] == [] && b[..0] == [];
  }

  ghost function LostAt(a: Limbs, b: Limbs, i: nat, borrow: int): int {
    if i < |b| && borrow == 1 && b[i] == MAX_WORD then Base(i + 1) else 0
  }

  /** One column in 64-bit arithmetic: right, unless the borrow is lost. */
  lemma ColumnDifference(x: Word64, y: Word64, borrowIn: Word64, d: Word64, borrow: Word64)
    requires borrowIn <= 1 && d == ((x - borrowIn) % TWO_TO_64 - y) % TWO_TO_64
    requires borrow == if d > x then 1 else 0
    ensures d + y + borrowIn == x + borrow * TWO_TO_64 + (if borrowIn == 1 && y == MAX_WORD then TWO_TO_64 else 0)
  {
  }

  lemma SubtractColumn(a: Limbs, b: Limbs, s: Limbs, i: nat, borrowIn: Word64, lost: int, d: Word64, borrow: Word64)
    requires i < |a| && |b| <= |a| && borrowIn <= 1 && Subtracted(a, b, s, i, borrowIn, lost)
    requires d == (if i < |b| then ((a[i] - borrowIn) % TWO_TO_64 - b[i]) % TWO_TO_64 else (a[i] - borrowIn) % TWO_TO_64)
    requires borrow == if d > a[i] then 1 else 0
    ensures Subtracted(a, b, s + [d], i + 1, borrow, lost + LostAt(a, b, i, borrowIn))
  {
    hide Value;
    var y: Word64 := if i < |b| then b[i] else 0;
    var base := Base(i);
    var x: int, yi: int, di: int, bi: int, bo: int := a[i], y, d, borrowIn, borrow;
    ColumnDifference(a[i], y, borrowIn, d, borrow);
    ValuePrefix(a, i);
    ValueAppend(s, d);
    if i < |b| {
      ValuePrefix(b, i);
    }
    var more := if bi == 1 && y == MAX_WORD then 1 else 0;
    ColumnSum(di, yi, bi, x, bo + more, base);
    Distribute(bo, more, TWO_TO_64 * base);
    LossRecorded(a, b, s, i, borrowIn, lost);
  }

  lemma ColumnSum(d: int, y: int, borrowIn: int, x: int, carry: int, base: int)
    requires d + y + borrowIn == x + carry * TWO_TO_64
    ensures d * base + y * base + borrowIn * base == x * base + carry * (TWO_TO_64 * base)
  {
    Distribute(d + y, borrowIn, base);
    Distribute(d, y, base);
    Distribute(x, carry * TWO_TO_64, base);
    MultiplyAssociates(carry, TWO_TO_64, base);
  }

  /** Until the first loss the borrow is the true one; so the first loss is where the definition says. */
  lemma LossRecorded(a: Limbs, b: Limbs, s: Limbs, i: nat, borrow: Word64, lost: int)
    requires i < |a| && |b| <= |a| && borrow <= 1 && Subtracted(a, b, s, i, borrow, lost)
    ensures lost + LostAt(a, b, i, borrow) > 0 <==> LosesBorrowBelow(a, b, i + 1)
  {
    hide Value;
    if lost == 0 && i < |b| {
      ValueBound(s);
      assert borrow == 1 <==> Value(a[..i]) < Value(b[..i]);
      if i == 0 {
        assert a[..0] == [] && b[..0] == [];
      }
    }
  }

  lemma SmallerIsNotLonger(a: Limbs, b: Limbs)
    requires Normalised(a) && Normalised(b) && Value(b) < Value(a)
    ensures |b| <= |a|
  {
    if |a| < |b| {
      LongerIsGreater(a, b);
    }
  }

  lemma SubtractedAll(a: Limbs, b: Limbs, s: Limbs, borrow: int, lost: int)
    requires Value(b) < Value(a) && |b| <= |a| && 0 <= borrow <= 1 && Subtracted(a, b, s, |a|, borrow, lost)
    ensures Value(s) > 0
    ensures !LosesBorrow(a, b) <==> Value(s) == Value(a) - Value(b)
  {
    hide Value;
    assert a[..|a|] == a && b[..|b|] == b;
    ValueBound(s);
    assert LosesBorrowBelow(a, b, |a|) <==> LosesBorrow(a, b);
  }

  /** `count` is one past the last limb of `s` that is not zero, if there is one. */
  ghost predicate TopIs(s: Limbs, count: nat) {
    (exists k :: 0 <= k < |s| && s[k] != 0) ==>
      1 <= count <= |s| && s[count - 1] != 0 && forall k :: count <= k < |s| ==> s[k] == 0
  }

  lemma TopStep(s: Limbs, d: Word64, count: nat)
    requires TopIs(s, count)
    ensures TopIs(s + [d], if d != 0 then |s| + 1 else count)
  {
  }

  lemma TopLimbs(s: Limbs, count: nat)
    requires Value(s) > 0 && TopIs(s, count)
    ensures 1 <= count <= |s| && Normalised(s[..count]) && Value(s[..count]) == Value(s)
  {
    hide Value;
    NonzeroLimb(s);
    ZeroLimbsAbove(s, count);
  }

  lemma NonzeroLimb(s: Limbs)
    requires Value(s) > 0
    ensures exists k :: 0 <= k < |s| && s[k] != 0
  {
    if forall k :: 0 <= k < |s| ==> s[k] == 0 {
      ValueZeros(s);
    }
  }

  lemma ZeroLimbsAbove(s: Limbs, count: nat)
    requires count <= |s| && forall k :: count <= k < |s| ==> s[k] == 0
    ensures Value(s[..count]) == Value(s)
  {
    hide Value, Base;
    ValueConcat(s[..count], s[count..]);
    ValueZeros(s[count..]);
    assert s == s[..count] + s[count..];
  }
}
