/** Doubles as the writer prints them: dtoa, up to the digits that Grisu2 yields. */
module Doubles {
  import opened Bytes
  import opened Decimals
  import opened Layout
  import ReaderSpec

  /** Digits and a decimal exponent: digits * 10^k. */
  datatype Decimal = Decimal(digits: seq<Byte>, k: int)

  /** What Grisu2 leaves for a finite double other than zero. */
  type Shortest = d: Decimal | IsShortest(d) witness Decimal([ZERO + 1], 0)

  predicate IsShortest(d: Decimal) {
    && 1 <= |d.digits| <= 17 && -323 <= |d.digits| + d.k <= 309
    && d.digits[0] != ZERO && forall i :: 0 <= i < |d.digits| ==> IsDigit(d.digits[i])
  }

  type Places = n: int | 1 <= n witness 324

  /** What decides how a writer prints doubles: the digits of each, given by its bits without the sign, and
      maxDecimalPlaces_. */
  datatype DoubleFormat = DoubleFormat(grisu: int -> Shortest, maxDecimalPlaces: Places)

  const SIGN_BIT: int := 0x8000_0000_0000_0000

  predicate Sign(bits: int) {
    bits / SIGN_BIT % 2 == 1
  }

  predicate IsZero(bits: int) {
    bits % SIGN_BIT == 0
  }

  predicate IsNanOrInf(bits: int) {
    bits / 0x10_0000_0000_0000 % 0x800 == 0x7FF
  }

  predicate IsFinite(bits: int) {
    !IsNanOrInf(bits)
  }

  /** A value that is not negative. */
  function MagnitudeText(format: DoubleFormat, bits: int): seq<Byte> {
    if IsZero(bits) then [ZERO, DOT, ZERO]
    else
      var d := format.grisu(bits % SIGN_BIT);
      Text(Pretty(d.digits, d.k, format.maxDecimalPlaces))
  }

  function DoubleText(format: DoubleFormat, bits: int): seq<Byte> {
    (if Sign(bits) then [MINUS] else []) + MagnitudeText(format, bits)
  }

  /** Of a 64-bit pattern: finite unless all eleven exponent bits are set. */
  lemma FinitePattern(bits: int)
    requires 0 <= bits < 0x1_0000_0000_0000_0000
    ensures IsFinite(bits)
       <==> (if bits >= 0x8000_0000_0000_0000 then bits - 0x8000_0000_0000_0000 else bits) < 0x7FF0_0000_0000_0000
  {
    var magnitude := if bits >= 0x8000_0000_0000_0000 then bits - 0x8000_0000_0000_0000 else bits;
    var top := magnitude / 0x10_0000_0000_0000;
    assert bits / 0x10_0000_0000_0000 == if bits >= 0x8000_0000_0000_0000 then top + 0x800 else top;
  }

  /** What a literal denotes that stands for a double without its sign: zero, or the digits of Grisu2, cut off if
      they are written without an exponent. */
  ghost predicate Shows(format: DoubleFormat, pattern: int, l: Literal) {
    if pattern == 0 then Denotes(l, 0, 0)
    else
      var d := format.grisu(pattern);
      var cut := CutOff(DecimalValue(d.digits), d.k, format.maxDecimalPlaces);
      if l.exponent.Some? then Denotes(l, DecimalValue(d.digits), d.k) else Denotes(l, cut.0, cut.1)
  }

  /** The text of every 64-bit pattern begins with a minus exactly if bit 63 is set; what follows denotes the digits
      that Grisu2 yields for the other bits, and zero for the two zeros. */
  lemma DoubleDenotes(format: DoubleFormat, bits: int) returns (l: Literal)
    requires 0 <= bits < 0x1_0000_0000_0000_0000
    ensures var t := DoubleText(format, bits);
            && t != [] && (t[0] == 0x2D <==> bits >= 0x8000_0000_0000_0000)
            && Grammatical(l)
            && (if bits >= 0x8000_0000_0000_0000
                then t[1..] == Text(l) && Shows(format, bits - 0x8000_0000_0000_0000, l)
                else t == Text(l) && Shows(format, bits, l))
  {
    hide Text, Pretty, Denotes, DecimalValue, CutOff;
    var pattern := if bits >= 0x8000_0000_0000_0000 then bits - 0x8000_0000_0000_0000 else bits;
    assert bits % SIGN_BIT == pattern && (bits / SIGN_BIT == if bits >= 0x8000_0000_0000_0000 then 1 else 0);
    if pattern == 0 {
      l := Literal([ZERO], [ZERO], ReaderSpec.None);
      ZeroText();
      ZeroDenotes();
    } else {
      var d := format.grisu(pattern);
      l := Pretty(d.digits, d.k, format.maxDecimalPlaces);
      PrettyIsGrammatical(d.digits, d.k, format.maxDecimalPlaces);
      PrettyDenotes(d.digits, d.k, format.maxDecimalPlaces);
      PrettyAlphabet(d.digits, d.k, format.maxDecimalPlaces);
    }
    var t := DoubleText(format, bits);
    assert bits >= 0x8000_0000_0000_0000 ==> t[1..] == MagnitudeText(format, bits);
    assert bits < 0x8000_0000_0000_0000 ==> t == MagnitudeText(format, bits);
  }

  lemma ZeroDenotes()
    ensures Denotes(Literal([ZERO], [ZERO], ReaderSpec.None), 0, 0)
  {
    var s: seq<Byte> := [ZERO] + [ZERO];
    assert s[..1] == [ZERO] && [ZERO][..0] == [];
    assert DecimalValue([ZERO]) == 0 && DecimalValue(s) == 0;
    SameZero();
  }

  lemma SameZero()
    ensures SameNumber(0, -1, 0, 0)
  {
  }

  /** The text of a double holds digits, a point, minus signs and an e only, and begins with a minus or a digit. */
  lemma DoubleAlphabet(format: DoubleFormat, bits: int)
    ensures var t := DoubleText(format, bits);
            && t != [] && (IsDigit(t[0]) || t[0] == MINUS)
            && forall i :: 0 <= i < |t| ==> IsDigit(t[i]) || t[i] in {DOT, MINUS, LOWER_E}
  {
    hide Text, Pretty;
    if !IsZero(bits) {
      var d := format.grisu(bits % SIGN_BIT);
      PrettyAlphabet(d.digits, d.k, format.maxDecimalPlaces);
    }
  }

  lemma ZeroText()
    ensures Text(Literal([ZERO], [ZERO], ReaderSpec.None)) == [ZERO, DOT, ZERO]
  {
  }

  /** dtoa behind the sign: the digits are laid out in place in a buffer of 24 bytes. */
  method FormatMagnitude(format: DoubleFormat, bits: int) returns (buffer: array<Byte>, end: nat)
    ensures fresh(buffer) && end <= buffer.Length && buffer[..end] == MagnitudeText(format, bits)
  {
    hide Text, Pretty;
    buffer := new Byte[24](_ => 0);
    if IsZero(bits) {
      buffer[0], buffer[1], buffer[2] := ZERO, DOT, ZERO;
      end := 3;
      assert buffer[..3] == [ZERO, DOT, ZERO];
    } else {
      var d := format.grisu(bits % SIGN_BIT);
      for i := 0 to |d.digits|
        invariant buffer[..i] == d.digits[..i]
      {
        buffer[i] := d.digits[i];
      }
      assert d.digits[..|d.digits|] == d.digits;
      end := Prettify(buffer, |d.digits|, d.k, format.maxDecimalPlaces);
    }
  }
}
