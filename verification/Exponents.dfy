/** The decimal exponents of reader.h, in 32 bits: where the loops over their digits stop, and from which fraction
    exponent on no `int` overflows. */
module Exponents {
  import opened Bytes
  import opened Decimals
  import opened ReaderSpec

  /** Digits from `p` on are added to `exp` until it exceeds the bound or no digit follows. */
  function CutFrom(t: seq<Byte>, p: nat, exp: int, maxExp: int): (c: int)
    ensures exp >= 0 ==> c >= exp
    decreases |t| - p
  {
    if p >= |t| || !IsDigit(t[p]) then exp else
    var next := exp * 10 + (t[p] - ZERO);
    if next > maxExp then next else CutFrom(t, p + 1, next, maxExp)
  }

  /** The loop behind the first digit, which is not compared with the bound. */
  function CutExponent(t: seq<Byte>, s: nat, maxExp: int): (c: int)
    requires s < |t| && IsDigit(t[s])
    ensures c >= 0
  {
    CutFrom(t, s + 1, t[s] - ZERO, maxExp)
  }

  /** (expFrac + 2147483639) / 10, in C. */
  function LargestNegative(expFrac: int): int {
    var n := expFrac + 2147483639;
    if n < 0 then -(-n / 10) else n / 10
  }

  const LEAST_FOR_NEGATIVE: int := -2147483549
  const LEAST_FOR_POSITIVE: int := -214748055

  lemma CutNext(t: seq<Byte>, p: nat, exp: int, maxExp: int)
    ensures CutFrom(t, p, exp, maxExp) ==
            if !IsDigit(At(t, p)) then exp
            else if exp * 10 + (At(t, p) - ZERO) > maxExp then exp * 10 + (At(t, p) - ZERO)
            else CutFrom(t, p + 1, exp * 10 + (At(t, p) - ZERO), maxExp)
    ensures exp >= 0 ==> CutFrom(t, p, exp, maxExp) >= exp
  {
  }

  /** What stops growing is the number written or a smaller one beyond the bound. */
  lemma {:induction false} CutValue(t: seq<Byte>, s: nat, p: nat, maxExp: int)
    requires s < p <= |t| && AllDigits(t[s..p])
    ensures AllDigits(t[s..DigitsEnd(t, p)])
    ensures var c, x := CutFrom(t, p, DecimalValue(t[s..p]), maxExp), DecimalValue(t[s..DigitsEnd(t, p)]);
            c == x || maxExp < c <= x
    decreases |t| - p
  {
    if p < |t| && IsDigit(t[p]) {
      AppendDigit(t, s, p);
      CutValue(t, s, p + 1, maxExp);
      DigitsGrow(t, s, p + 1, DigitsEnd(t, p));
    }
  }

  lemma {:induction false} CutBound(t: seq<Byte>, p: nat, exp: int, maxExp: int)
    requires 0 <= exp <= maxExp
    ensures CutFrom(t, p, exp, maxExp) <= maxExp * 10 + 9
    decreases |t| - p
  {
    if p < |t| && IsDigit(t[p]) && exp * 10 + (t[p] - ZERO) <= maxExp {
      CutBound(t, p + 1, exp * 10 + (t[p] - ZERO), maxExp);
    }
  }

  lemma NegativeExponentIsCut(t: seq<Byte>, s: nat, expFrac: int)
    requires s < |t| && IsDigit(t[s])
    ensures AllDigits(t[s..DigitsEnd(t, s)])
    ensures var c, x := CutExponent(t, s, LargestNegative(expFrac)), DecimalValue(t[s..DigitsEnd(t, s)]);
            c == x || LargestNegative(expFrac) < c <= x
  {
    hide DecimalValue, CutFrom, DigitsEnd, AllDigits;
    FirstDigit(t, s);
    DigitsEndNext(t, s);
    CutValue(t, s, s + 1, LargestNegative(expFrac));
  }

  // -----------------------------------------------------------------------------------------------
  // 32 bits
  // -----------------------------------------------------------------------------------------------

  /** Neither the digits of a negative exponent nor the sum `exp + expFrac` leave an int. */
  predicate NegativeFits(t: seq<Byte>, s: nat, expFrac: int) {
    s < |t| && IsDigit(t[s]) ==>
      var c := CutExponent(t, s, LargestNegative(expFrac)); c < INT32_BOUND && -c + expFrac >= -INT32_BOUND
  }

  /** The digits of a positive exponent do not leave an int. */
  predicate PositiveFits(t: seq<Byte>, s: nat, expFrac: int) {
    s < |t| && IsDigit(t[s]) ==> CutExponent(t, s, 308 - expFrac) < INT32_BOUND
  }

  lemma NegativeExponentFits(t: seq<Byte>, s: nat, expFrac: int)
    requires LEAST_FOR_NEGATIVE <= expFrac <= 0
    ensures NegativeFits(t, s, expFrac)
  {
    if s < |t| && IsDigit(t[s]) {
      CutBound(t, s + 1, t[s] - ZERO, LargestNegative(expFrac));
    }
  }

  /** With one less than that bound the exponent 99 overflows. */
  lemma NegativeExponentsFitExactly(expFrac: int)
    requires expFrac <= 0
    ensures (forall t, s: nat :: NegativeFits(t, s, expFrac)) <==> expFrac >= LEAST_FOR_NEGATIVE
  {
    if expFrac >= LEAST_FOR_NEGATIVE {
      forall t, s: nat
        ensures NegativeFits(t, s, expFrac)
      {
        NegativeExponentFits(t, s, expFrac);
      }
    } else {
      var nines: seq<Byte> := [NINE, NINE];
      assert LargestNegative(expFrac) <= 8;
      assert CutFrom(nines, 2, 99, LargestNegative(expFrac)) == 99;
      assert !NegativeFits(nines, 0, expFrac);
    }
  }

  lemma LargeExponent(t: seq<Byte>, maxExp: int)
    requires t == [0x32, 0x31, 0x34, 0x37, 0x34, 0x38, 0x33, 0x36, 0x34, 0x39] && maxExp >= 214748364
    ensures CutExponent(t, 0, maxExp) == 2147483649
  {
    hide CutFrom;
    CutNext(t, 1, 2, maxExp);
    CutNext(t, 2, 21, maxExp);
    CutNext(t, 3, 214, maxExp);
    CutNext(t, 4, 2147, maxExp);
    CutNext(t, 5, 21474, maxExp);
    CutNext(t, 6, 214748, maxExp);
    CutNext(t, 7, 2147483, maxExp);
    CutNext(t, 8, 21474836, maxExp);
    CutNext(t, 9, 214748364, maxExp);
    CutNext(t, 10, 2147483649, maxExp);
  }

  /** Below that bound the exponent 2147483649 overflows before it is found to be too big. */
  lemma PositiveExponentsFitExactly(expFrac: int)
    requires expFrac <= 0
    ensures (forall t, s: nat :: PositiveFits(t, s, expFrac)) <==> expFrac >= LEAST_FOR_POSITIVE
  {
    var maxExp := 308 - expFrac;
    if expFrac >= LEAST_FOR_POSITIVE {
      forall t, s: nat
        ensures PositiveFits(t, s, expFrac)
      {
        if s < |t| && IsDigit(t[s]) {
          CutBound(t, s + 1, t[s] - ZERO, maxExp);
        }
      }
    } else {
      var t: seq<Byte> := [0x32, 0x31, 0x34, 0x37, 0x34, 0x38, 0x33, 0x36, 0x34, 0x39];
      LargeExponent(t, maxExp);
      assert !PositiveFits(t, 0, expFrac);
    }
  }
}
