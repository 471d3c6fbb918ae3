/** The reader takes exactly the numbers of the grammar, to their end, and tells integers, doubles and numbers that
    are too big apart. */
module NumberReading {
  import opened Bytes
  import opened Decimals
  import opened JsonGrammar
  import opened Powers
  import opened ReaderSpec

  /** The weight of every place and Horner's scheme give the same number. */
  lemma {:induction false} DecimalIs(s: seq<Byte>)
    requires IsDigits(s)
    ensures AllDigits(s) && Decimal(s) == DecimalValue(s) >= 0
  {
    if s != [] {
      DecimalIs(s[1..]);
      DecimalConcat(s, 1, |s|);
      FirstDigit(s, 0);
      assert s[..|s|] == s && s[0..1] == s[..1] && s[1..|s|] == s[1..];
    }
  }

  /** Without a leading zero, all places count. */
  lemma DecimalAtLeast(s: seq<Byte>)
    requires s != [] && IsDigits(s) && s[0] != 0x30
    ensures Pow(10, |s| - 1) <= Decimal(s)
  {
    DecimalIs(s[1..]);
    MultiplyMonotone(1, s[0] - 0x30, Pow(10, |s| - 1));
  }

  // ---------------------------------------------------------------------------------------------
  // The fraction digits that count
  // ---------------------------------------------------------------------------------------------

  function Least(a: int, b: int): int {
    if a <= b then a else b
  }

  /** Beyond 2^53 digits count up to the seventeenth. */
  lemma {:induction false} LateRun(t: seq<Byte>, q: nat, significand: nat, digits: nat)
    requires q <= |t| && significand > SIGNIFICAND_LIMIT
    ensures FractionDigits(t, q, significand, digits)
         == if digits < 17 then Least(DigitsEnd(t, q) - q, 17 - digits) else 0
    decreases |t| - q
  {
    DigitsEndNext(t, q);
    if IsDigit(At(t, q)) && digits < 17 {
      LateRun(t, q + 1, significand, digits + 1);
    }
  }

  /** A number of `digits` digits, or one more, that is below 2^53: no seventeen digits have been counted yet. */
  lemma {:induction false} MiddleRun(t: seq<Byte>, q: nat, significand: nat, digits: nat)
    requires q <= |t| && 0 < significand <= SIGNIFICAND_LIMIT && Pow(10, digits) <= 10 * significand
    ensures digits <= 16
    ensures FractionDigits(t, q, significand, digits) == Least(DigitsEnd(t, q) - q, 17 - digits)
    decreases |t| - q
  {
    PowersOfTen();
    if digits >= 17 {
      PowMonotone(10, 17, digits);
    }
    DigitsEndNext(t, q);
    if IsDigit(At(t, q)) {
      var next := significand * 10 + (t[q] - ZERO);
      assert Pow(10, digits + 1) == 10 * Pow(10, digits);
      if next <= SIGNIFICAND_LIMIT {
        MiddleRun(t, q + 1, next, digits + 1);
      } else {
        LateRun(t, q + 1, next, digits + 1);
      }
    }
  }

  /** From zero on, leading zeros count and are not counted. */
  lemma {:induction false} ZeroRun(t: seq<Byte>, q: nat, fraction: seq<Byte>)
    requires q <= |t| && fraction == t[q..DigitsEnd(t, q)]
    ensures FractionDigits(t, q, 0, 0) == Least(|fraction|, LeadingZeros(fraction) + 17)
    decreases |t| - q
  {
    DigitsEndNext(t, q);
    if IsDigit(At(t, q)) {
      assert fraction[0] == t[q] && fraction[1..] == t[q + 1..DigitsEnd(t, q + 1)];
      if t[q] == ZERO {
        ZeroRun(t, q + 1, fraction[1..]);
      } else {
        assert Pow(10, 1) == 10 * Pow(10, 0) == 10;
        MiddleRun(t, q + 1, t[q] - ZERO, 1);
      }
    }
  }

  /** The decimal exponent of a fraction is the number of places of the grammar. */
  lemma PlacesCount(n: Number, t: seq<Byte>, q: nat, e: nat)
    requires NumberForm(n) && Has(t, q, n.whole) && e == q + |n.whole|
    requires if n.fraction == [] then At(t, e) != 0x2E
             else At(t, e) == 0x2E && Has(t, e + 1, n.fraction) && DigitsEnd(t, e + 1) == e + 1 + |n.fraction|
    ensures e <= |t| && AllDigits(t[q..e]) && DecimalValue(t[q..e]) == Decimal(n.whole)
    ensures FractionExponent(t, n.minus, q, e) == -Places(n)
  {
    hide DecimalValue, FractionDigits, Pow, Decimal, Places;
    assert t[q..e] == n.whole;
    DecimalIs(n.whole);
    if n.fraction != [] && Holds64(n.minus, Decimal(n.whole)) {
      assert t[e + 1..e + 1 + |n.fraction|] == n.fraction;
      CountedPlaces(n, t, e + 1);
    } else {
      NoPlaces(n);
    }
  }

  lemma NoPlaces(n: Number)
    requires n.fraction == [] || !Holds64(n.minus, Decimal(n.whole))
    ensures Places(n) == 0
  {
  }

  lemma CountedPlaces(n: Number, t: seq<Byte>, p: nat)
    requires NumberForm(n) && n.fraction != [] && Holds64(n.minus, Decimal(n.whole))
    requires p <= |t| && n.fraction == t[p..DigitsEnd(t, p)]
    ensures Decimal(n.whole) >= 0 && FractionDigits(t, p, Decimal(n.whole), |n.whole| - 1) == Places(n)
  {
    hide DecimalValue, FractionDigits, Pow, Decimal;
    DecimalIs(n.whole);
    var v := Decimal(n.whole);
    if n.whole[0] == 0x30 {
      assert n.whole == [0x30];
      ZeroDecimal();
      ZeroRun(t, p, n.fraction);
    } else {
      DecimalAtLeast(n.whole);
      PowPositive(|n.whole| - 1);
      if v > SIGNIFICAND_LIMIT {
        LateRun(t, p, v, |n.whole| - 1);
      } else {
        MiddleRun(t, p, v, |n.whole| - 1);
      }
    }
  }

  lemma ZeroDecimal()
    ensures Decimal([0x30]) == 0
  {
    assert Decimal([0x30][1..]) == 0;
  }

  lemma PowPositive(n: nat)
    ensures Pow(10, n) >= 1
  {
  }

  // ---------------------------------------------------------------------------------------------
  // Reading a number
  // ---------------------------------------------------------------------------------------------

  /** What ScanNumber answers for a number of the grammar. */
  function Scanned(n: Number, p: nat): Leaf<Numeral> {
    var end := p + |NumberText(n)|;
    if IsInteger(n) then Good(end, Whole(n.minus, Decimal(n.whole)))
    else if IsTooBig(n) then Bad(NumberTooBig, p)
    else Good(end, Floating)
  }

  lemma DigitsAreDigits(s: seq<Byte>)
    ensures IsDigits(s) <==> AllDigits(s)
  {
  }

  lemma SignIsRead(t: seq<Byte>, p: nat, minus: bool, s: seq<Byte>) returns (q: nat)
    requires Has(t, p, (if minus then [0x2D] else []) + s) && s != [] && 0x30 <= s[0] <= 0x39
    ensures Has(t, q, s) && q == (if minus then p + 1 else p) && (minus <==> At(t, p) == 0x2D)
    ensures IsDigit(At(t, q))
  {
    hide Has;
    var sign := if minus then [0x2D] else [];
    HasParts(t, p, sign, s);
    if minus {
      HasAt(t, p, sign, 0);
    }
    q := p + |sign|;
    HasAt(t, q, s, 0);
  }

  lemma ExponentIsRead(e: Exponent, t: seq<Byte>, f: nat, maxExp: int, startOffset: nat)
    requires e.Exponent? && e.digits != [] && IsDigits(e.digits) && Has(t, f, ExponentText(e))
    requires !IsDigit(At(t, f + |ExponentText(e)|))
    ensures f < |t| && At(t, f) == if e.upper then 0x45 else 0x65
    ensures ScanExponent(t, f + 1, maxExp, startOffset)
         == if e.sign != MinusSign && Decimal(e.digits) > maxExp then Bad(NumberTooBig, startOffset)
            else Good(f + |ExponentText(e)|, ())
  {
    hide DecimalValue, Decimal, Has, DigitsEnd;
    var first: Byte := if e.upper then 0x45 else 0x65;
    HasParts(t, f, [first], SignText(e.sign) + e.digits);
    HasAt(t, f, [first], 0);
    HasParts(t, f + 1, SignText(e.sign), e.digits);
    if e.sign != NoSign {
      HasAt(t, f + 1, SignText(e.sign), 0);
    }
    var s := f + 1 + |SignText(e.sign)|;
    HasAt(t, s, e.digits, 0);
    DecimalIs(e.digits);
    DigitsRun(t, s, e.digits);
    HasIs(t, s, e.digits);
  }

  /** The fraction, up to where it ends. */
  lemma FractionIsRead(fraction: seq<Byte>, t: seq<Byte>, e: nat)
    requires fraction != [] && IsDigits(fraction) && Has(t, e, FractionText(fraction))
    requires !IsDigit(At(t, e + 1 + |fraction|))
    ensures At(t, e) == 0x2E && Has(t, e + 1, fraction) && IsDigit(At(t, e + 1))
    ensures DigitsEnd(t, e + 1) == e + 1 + |fraction| <= |t|
  {
    hide Has, DigitsEnd;
    HasParts(t, e, [0x2E], fraction);
    HasAt(t, e, [0x2E], 0);
    HasAt(t, e + 1, fraction, 0);
    DigitsAreDigits(fraction);
    DigitsRun(t, e + 1, fraction);
    HasIs(t, e + 1, fraction);
  }

  lemma WholeIsRead(whole: seq<Byte>, t: seq<Byte>, q: nat)
    requires whole != [] && IsDigits(whole) && (whole[0] == 0x30 ==> |whole| == 1) && Has(t, q, whole)
    requires whole[0] != 0x30 ==> !IsDigit(At(t, q + |whole|))
    ensures q < |t| && IsDigit(t[q]) && IntegerEnd(t, q) == q + |whole| <= |t|
  {
    hide Has, DigitsEnd;
    HasAt(t, q, whole, 0);
    HasIs(t, q, whole);
    if whole[0] != 0x30 {
      DigitsAreDigits(whole);
      DigitsRun(t, q, whole);
    }
  }

  /** Every number of the grammar, wherever it stands before a byte that cannot continue it, is read to its
      end: as an integer exactly if it has neither fraction nor exponent and 64 bits hold it, and otherwise as
      a number for a double, unless its exponent is too big. */
  lemma NumberIsRead(n: Number, t: seq<Byte>, p: nat)
    requires NumberForm(n) && Has(t, p, NumberText(n)) && !Continues(n, At(t, p + |NumberText(n)|))
    ensures p + |NumberText(n)| <= |t| && ScanNumber(t, p) == Scanned(n, p)
  {
    hide Has, DigitsEnd, Decimal, DecimalValue, FractionExponent, ScanExponent, IntegerEnd, Places, ExponentText, FractionText;
    hide Scanned, ScanNumber;
    var fraction, exponent := FractionText(n.fraction), ExponentText(n.exponent);
    HasIs(t, p, NumberText(n));
    var q := SignIsRead(t, p, n.minus, n.whole + (fraction + exponent));
    hide IsDigits;
    var e := q + |n.whole|;
    var f := e + |fraction|;
    HasParts(t, q, n.whole, fraction + exponent);
    HasParts(t, e, fraction, exponent);
    TextsBegin(n);
    if n.exponent.Exponent? {
      ExponentIsRead(n.exponent, t, f, 308 + Places(n), p);
    }
    if n.fraction != [] {
      FractionIsRead(n.fraction, t, e);
    }
    WholeIsRead(n.whole, t, q);
    PlacesCount(n, t, q, e);
    ScanIs(n, t, p, q, e, f);
  }

  /** The decisions of ScanNumber, once the parts have been found. */
  lemma ScanIs(n: Number, t: seq<Byte>, p: nat, q: nat, e: nat, f: nat)
    requires q == (if n.minus then p + 1 else p) && (n.minus <==> At(t, p) == 0x2D)
    requires var end := p + |NumberText(n)|; p <= q < e <= f <= end <= |t| && (n.exponent.NoExponent? <==> f == end)
    requires IsDigit(At(t, q)) && IntegerEnd(t, q) == e && !Continues(n, At(t, p + |NumberText(n)|))
    requires AllDigits(t[q..e]) && DecimalValue(t[q..e]) == Decimal(n.whole) >= 0
    requires FractionExponent(t, n.minus, q, e) == -Places(n)
    requires if n.fraction == [] then f == e && At(t, e) != 0x2E
             else At(t, e) == 0x2E && IsDigit(At(t, e + 1)) && DigitsEnd(t, e + 1) == f
    requires n.exponent.Exponent? ==>
               && At(t, f) == (if n.exponent.upper then 0x45 else 0x65)
               && ScanExponent(t, f + 1, 308 + Places(n), p) == if IsTooBig(n) then Bad(NumberTooBig, p)
                                                                else Good(p + |NumberText(n)|, ())
    ensures ScanNumber(t, p) == Scanned(n, p)
  {
    hide DigitsEnd, Decimal, DecimalValue, FractionExponent, ScanExponent, IntegerEnd, Places, NumberText;
  }

  lemma TextsBegin(n: Number)
    ensures n.fraction == [] <==> FractionText(n.fraction) == []
    ensures n.fraction != [] ==> |FractionText(n.fraction)| == 1 + |n.fraction|
    ensures n.exponent.NoExponent? <==> ExponentText(n.exponent) == []
  {
  }

  /** What the reader takes for a number, or for one that is too big, is one of the grammar, and the longest that
      begins there. */
  lemma NumberIsThere(t: seq<Byte>, p: nat) returns (n: Number)
    requires p <= |t| && (ScanNumber(t, p).Good? || ScanNumber(t, p).code == NumberTooBig)
    ensures NumberForm(n) && Has(t, p, NumberText(n)) && !Continues(n, At(t, p + |NumberText(n)|))
  {
    hide DecimalValue, DigitsEnd, IntegerEnd, Has, NumberText, ExponentText, FractionText, IsDigits, ScanNumber;
    hide FractionExponent, ScanExponent;
    ScanParts(t, p);
    var minus := At(t, p) == MINUS;
    var q := if minus then p + 1 else p;
    var e := IntegerEnd(t, q);
    WholeIsThere(t, q);
    var fraction, f := FractionIsThere(t, e);
    var exponent := ExponentOrNone(t, f, 308 - FractionExponent(t, minus, q, e), p);
    n := Number(minus, t[q..e], fraction, exponent);
    SignIsThere(t, p, minus);
    PutTogether(n, t, p, q, e, f);
  }

  lemma ScanParts(t: seq<Byte>, p: nat)
    requires p <= |t| && (ScanNumber(t, p).Good? || ScanNumber(t, p).code == NumberTooBig)
    ensures var minus := At(t, p) == MINUS;
            var q := if minus then p + 1 else p;
            && IsDigit(At(t, q))
            && var e := IntegerEnd(t, q);
               var point := At(t, e) == DOT;
               var f := if point then DigitsEnd(t, e + 1) else e;
               && (point ==> IsDigit(At(t, e + 1)))
               && (At(t, f) == LOWER_E || At(t, f) == UPPER_E ==>
                     var r := ScanExponent(t, f + 1, 308 - FractionExponent(t, minus, q, e), p);
                     r.Good? || r.code == NumberTooBig)
  {
    hide FractionExponent, DecimalValue, DigitsEnd, IntegerEnd, FitsInteger, ScanExponent;
  }

  lemma PutTogether(n: Number, t: seq<Byte>, p: nat, q: nat, e: nat, f: nat)
    requires Has(t, p, if n.minus then [0x2D] else []) && q == (if n.minus then p + 1 else p)
    requires Has(t, q, n.whole) && e == q + |n.whole|
    requires Has(t, e, FractionText(n.fraction)) && f == e + |FractionText(n.fraction)|
    requires Has(t, f, ExponentText(n.exponent))
    ensures Has(t, p, NumberText(n)) && p + |NumberText(n)| == f + |ExponentText(n.exponent)|
  {
    hide Has, FractionText, ExponentText;
    var fraction, exponent := FractionText(n.fraction), ExponentText(n.exponent);
    HasBoth(t, e, fraction, exponent);
    HasBoth(t, q, n.whole, fraction + exponent);
    HasBoth(t, p, if n.minus then [0x2D] else [], n.whole + (fraction + exponent));
  }

  lemma SignIsThere(t: seq<Byte>, p: nat, minus: bool)
    requires p <= |t| && (minus ==> At(t, p) == MINUS)
    ensures Has(t, p, if minus then [0x2D] else [])
  {
    if minus {
      HasOne(t, p);
    }
  }

  lemma WholeIsThere(t: seq<Byte>, q: nat)
    requires IsDigit(At(t, q))
    ensures var e := IntegerEnd(t, q);
            var whole := t[q..e];
            && whole != [] && IsDigits(whole) && (whole[0] == 0x30 ==> |whole| == 1) && Has(t, q, whole)
            && (whole == [0x30] || !IsDigit(At(t, e)))
  {
    var whole := t[q..IntegerEnd(t, q)];
    assert whole[0] == t[q];
  }

  lemma FractionIsThere(t: seq<Byte>, e: nat) returns (fraction: seq<Byte>, f: nat)
    requires e <= |t| && (At(t, e) == DOT ==> IsDigit(At(t, e + 1)))
    ensures IsDigits(fraction) && Has(t, e, FractionText(fraction)) && f == e + |FractionText(fraction)|
    ensures f == if At(t, e) == DOT then DigitsEnd(t, e + 1) else e
    ensures if fraction == [] then At(t, e) != DOT else !IsDigit(At(t, f))
  {
    if At(t, e) == DOT {
      DigitsEndNext(t, e + 1);
      f := DigitsEnd(t, e + 1);
      fraction := t[e + 1..f];
      assert t[e..f] == [0x2E] + fraction;
    } else {
      fraction, f := [], e;
      HasNothing(t, e);
    }
  }

  lemma ExponentOrNone(t: seq<Byte>, f: nat, maxExp: int, startOffset: nat) returns (x: Exponent)
    requires f <= |t|
    requires At(t, f) == LOWER_E || At(t, f) == UPPER_E ==>
               var r := ScanExponent(t, f + 1, maxExp, startOffset); r.Good? || r.code == NumberTooBig
    ensures x.Exponent? ==> x.digits != [] && IsDigits(x.digits) && !IsDigit(At(t, f + |ExponentText(x)|))
    ensures x.NoExponent? ==> At(t, f) != LOWER_E && At(t, f) != UPPER_E && ExponentText(x) == []
    ensures Has(t, f, ExponentText(x))
  {
    hide ScanExponent, IsDigit;
    if At(t, f) == LOWER_E || At(t, f) == UPPER_E {
      x := ExponentIsThere(t, f, maxExp, startOffset);
    } else {
      HasNothing(t, f);
      x := NoExponent;
    }
  }

  lemma ExponentIsThere(t: seq<Byte>, f: nat, maxExp: int, startOffset: nat) returns (x: Exponent)
    requires f < |t| && (At(t, f) == LOWER_E || At(t, f) == UPPER_E)
    requires var r := ScanExponent(t, f + 1, maxExp, startOffset); r.Good? || r.code == NumberTooBig
    ensures x.Exponent? && x.digits != [] && IsDigits(x.digits)
    ensures Has(t, f, ExponentText(x)) && !IsDigit(At(t, f + |ExponentText(x)|))
  {
    hide DecimalValue;
    var c := At(t, f + 1);
    var sign := if c == PLUS then PlusSign else if c == MINUS then MinusSign else NoSign;
    var s := if sign == NoSign then f + 1 else f + 2;
    var g := DigitsEnd(t, s);
    DigitsEndNext(t, s);
    x := Exponent(At(t, f) == UPPER_E, sign, t[s..g]);
    ExponentSpelled(t, f, sign, s, g);
  }

  lemma ExponentSpelled(t: seq<Byte>, f: nat, sign: Sign, s: nat, g: nat)
    requires f < s <= g <= |t| && s == f + 1 + |SignText(sign)| && (sign != NoSign ==> t[f + 1] == SignText(sign)[0])
    ensures t[f..g] == [t[f]] + (SignText(sign) + t[s..g])
  {
  }

  /** A text begins with a number, or one that is too big, exactly if it begins with one of the grammar that no byte
      continues; and there the reader answers what that number is. */
  lemma NumberExactly(t: seq<Byte>, p: nat)
    requires p <= |t|
    ensures (exists n :: NumberForm(n) && Has(t, p, NumberText(n)) && !Continues(n, At(t, p + |NumberText(n)|)))
       <==> ScanNumber(t, p).Good? || ScanNumber(t, p).code == NumberTooBig
    ensures forall n :: NumberForm(n) && Has(t, p, NumberText(n)) && !Continues(n, At(t, p + |NumberText(n)|)) ==>
              ScanNumber(t, p) == Scanned(n, p)
  {
    hide ScanNumber, Has, NumberForm, Continues, IsInteger, IsTooBig, NumberText;
    forall n | NumberForm(n) && Has(t, p, NumberText(n)) && !Continues(n, At(t, p + |NumberText(n)|))
      ensures ScanNumber(t, p) == Scanned(n, p)
    {
      NumberIsRead(n, t, p);
    }
    if ScanNumber(t, p).Good? || ScanNumber(t, p).code == NumberTooBig {
      var n := NumberIsThere(t, p);
    }
  }
}
