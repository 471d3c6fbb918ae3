/** How dtoa.h lays out digits and a decimal exponent as text, in place. */
module Layout {
  import opened Bytes
  import opened Decimals
  import opened Powers
  import ReaderSpec

  /** A decimal literal. */
  datatype Literal = Literal(whole: seq<Byte>, fraction: seq<Byte>, exponent: ReaderSpec.Option<int>)

  function Text(l: Literal): seq<Byte> {
    l.whole + (if l.fraction == [] then [] else [DOT] + l.fraction) + ExponentText(l.exponent)
  }

  function ExponentText(exponent: ReaderSpec.Option<int>): seq<Byte> {
    match exponent
    case None => []
    case Some(x) => [LOWER_E] + IntegerText(x)
  }

  /** a * 10^m and b * 10^n are the same number. */
  ghost predicate SameNumber(a: int, m: int, b: int, n: int) {
    if m >= n then a * Pow(10, m - n) == b else a == b * Pow(10, n - m)
  }

  /** The literal is the number a * 10^n. */
  ghost predicate Denotes(l: Literal, a: int, n: int) {
    && AllDigits(l.whole + l.fraction)
    && SameNumber(DecimalValue(l.whole + l.fraction),
                  (if l.exponent.Some? then l.exponent.value else 0) - |l.fraction|, a, n)
  }

  function Zeros(n: nat): seq<Byte> {
    seq(n, _ => ZERO)
  }

  /** Without trailing zeros, but one digit remains. */
  function Strip(f: seq<Byte>): (r: seq<Byte>)
    ensures r <= f && (f != [] ==> r != [])
  {
    if |f| <= 1 || f[|f| - 1] != ZERO then f else Strip(f[..|f| - 1])
  }

  /** The five layouts: which one is a matter of where the decimal point falls. */
  function Pretty(digits: seq<Byte>, k: int, maxDecimalPlaces: int): Literal
    requires digits != [] && 1 <= maxDecimalPlaces
  {
    var kk := |digits| + k;
    if 0 <= k && kk <= 21 then
      Literal(digits + Zeros(k), [ZERO], ReaderSpec.None)
    else if 0 < kk <= 21 then
      Literal(digits[..kk], if -k > maxDecimalPlaces then Strip(digits[kk..kk + maxDecimalPlaces]) else digits[kk..],
              ReaderSpec.None)
    else if -6 < kk <= 0 then
      var f := Zeros(-kk) + digits;
      Literal([ZERO], if |f| > maxDecimalPlaces then Strip(f[..maxDecimalPlaces]) else f, ReaderSpec.None)
    else if kk + maxDecimalPlaces < 0 then
      Literal([ZERO], [ZERO], ReaderSpec.None)
    else
      Literal(digits[..1], digits[1..], ReaderSpec.Some(kk - 1))
  }

  // -----------------------------------------------------------------------------------------------
  // What the text denotes
  // -----------------------------------------------------------------------------------------------

  lemma {:induction false} ZerosBehind(digits: seq<Byte>, n: nat)
    requires AllDigits(digits)
    ensures AllDigits(digits + Zeros(n)) && DecimalValue(digits + Zeros(n)) == DecimalValue(digits) * Pow(10, n)
  {
    if n == 0 {
      assert digits + Zeros(0) == digits;
    } else {
      ZerosBehind(digits, n - 1);
      var s := digits + Zeros(n);
      assert s[..|s| - 1] == digits + Zeros(n - 1);
      MultiplyAssociates(DecimalValue(digits), Pow(10, n - 1), 10);
    }
  }

  lemma {:induction false} ZerosBefore(n: nat, digits: seq<Byte>)
    requires AllDigits(digits)
    ensures AllDigits(Zeros(n) + digits) && DecimalValue(Zeros(n) + digits) == DecimalValue(digits)
  {
    var s := Zeros(n) + digits;
    if digits == [] {
      ZerosBehind([], n);
      assert s == [] + Zeros(n);
    } else {
      ZerosBefore(n, digits[..|digits| - 1]);
      assert s[..|s| - 1] == Zeros(n) + digits[..|digits| - 1];
    }
  }

  /** The first digits of a number are what a division by a power of ten leaves. */
  lemma FirstDigits(digits: seq<Byte>, n: nat)
    requires AllDigits(digits) && n <= |digits|
    ensures AllDigits(digits[..n]) && DecimalValue(digits[..n]) == DecimalValue(digits) / Pow(10, |digits| - n)
  {
    hide DecimalValue, Pow;
    DecimalConcat(digits, n, |digits|);
    assert digits[..|digits|] == digits && |digits[n..|digits|]| == |digits| - n;
    DecimalValueBound(digits[n..|digits|]);
    Quotient(DecimalValue(digits), DecimalValue(digits[..n]), Pow(10, |digits| - n), DecimalValue(digits[n..|digits|]));
  }

  lemma Quotient(a: int, q: int, d: int, r: int)
    requires a == q * d + r && 0 <= r < d
    ensures a / d == q
  {
    var x := a / d - q;
    assert a == (a / d) * d + a % d;
    assert x * d == r - a % d;
    if x > 0 {
      MultiplyMonotone(1, x, d);
    } else if x < 0 {
      MultiplyMonotone(x, -1, d);
    }
  }

  /** Trailing zeros of a fraction do not count. */
  lemma {:induction false} StripKeepsNumber(whole: seq<Byte>, f: seq<Byte>, a: int)
    requires AllDigits(whole + f) && DecimalValue(whole + f) == a
    ensures AllDigits(whole + Strip(f)) && SameNumber(DecimalValue(whole + Strip(f)), -|Strip(f)|, a, -|f|)
    decreases |f|
  {
    if |f| <= 1 || f[|f| - 1] != ZERO {
      assert Pow(10, 0) == 1;
    } else {
      var g := f[..|f| - 1];
      var s := whole + f;
      assert s[..|s| - 1] == whole + g;
      StripKeepsNumber(whole, g, DecimalValue(whole + g));
      OneMoreZero(DecimalValue(whole + Strip(g)), -|Strip(g)|, DecimalValue(whole + g), -|g|);
    }
  }

  lemma OneMoreZero(a: int, m: int, b: int, n: int)
    requires m >= n && SameNumber(a, m, b, n)
    ensures SameNumber(a, m, b * 10, n - 1)
  {
    var p := Pow(10, m - n);
    assert Pow(10, m - n + 1) == 10 * p;
    MultiplyAssociates(a, p, 10);
  }

  /** The number written without an exponent is the given one, cut off behind maxDecimalPlaces places. */
  ghost function CutOff(a: int, k: int, maxDecimalPlaces: int): (int, int) {
    if -k <= maxDecimalPlaces then (a, k) else (a / Pow(10, -k - maxDecimalPlaces), -maxDecimalPlaces)
  }

  /** Every layout denotes exactly digits * 10^k, except that the ones without an exponent are cut off. */
  lemma PrettyDenotes(digits: seq<Byte>, k: int, maxDecimalPlaces: int)
    requires digits != [] && AllDigits(digits) && 1 <= maxDecimalPlaces
    ensures var l := Pretty(digits, k, maxDecimalPlaces);
            var cut := CutOff(DecimalValue(digits), k, maxDecimalPlaces);
            if l.exponent.Some? then Denotes(l, DecimalValue(digits), k) else Denotes(l, cut.0, cut.1)
  {
    hide DecimalValue, Strip, Denotes, AllDigits;
    var kk := |digits| + k;
    if 0 <= k && kk <= 21 {
      LargeDenotes(digits, k, maxDecimalPlaces);
    } else if 0 < kk <= 21 {
      MixedDenotes(digits, kk, maxDecimalPlaces);
    } else if -6 < kk <= 0 {
      SmallDenotes(digits, k, maxDecimalPlaces);
    } else if kk + maxDecimalPlaces < 0 {
      TinyDenotes(digits, k, maxDecimalPlaces);
    } else {
      ScientificDenotes(digits, kk);
    }
  }

  /** a * 10^k is at least 10^p. */
  ghost predicate AtLeast(a: int, k: int, p: int) {
    if k >= p then a * Pow(10, k - p) >= 1 else a >= Pow(10, p - k)
  }

  /** How large a number is shows in how many digits it has. */
  lemma DigitsBracket(digits: seq<Byte>, k: int, p: int)
    requires digits != [] && AllDigits(digits) && digits[0] != ZERO
    ensures AtLeast(DecimalValue(digits), k, p) <==> |digits| + k > p
  {
    hide DecimalValue;
    var n := |digits|;
    DecimalValueBound(digits);
    DecimalConcat(digits, 1, n);
    FirstDigit(digits, 0);
    assert digits[..n] == digits && digits[0..1] == digits[..1];
    var v := DecimalValue(digits);
    MultiplyMonotone(1, digits[0] - ZERO, Pow(10, n - 1));
    if k >= p {
      MultiplyMonotone(1, Pow(10, k - p), v);
    } else if n + k > p {
      PowMonotone(10, p - k, n - 1);
    } else {
      PowMonotone(10, n, p - k);
    }
  }

  /** The exponent is written exactly for numbers from 10^21 on, and for those below 10^-6 that are not cut off to
      zero. */
  lemma PrettyForm(digits: seq<Byte>, k: int, maxDecimalPlaces: int)
    requires digits != [] && AllDigits(digits) && digits[0] != ZERO && 1 <= maxDecimalPlaces
    ensures Pretty(digits, k, maxDecimalPlaces).exponent.Some?
       <==> || AtLeast(DecimalValue(digits), k, 21)
            || (!AtLeast(DecimalValue(digits), k, -6) && AtLeast(DecimalValue(digits), k, -maxDecimalPlaces - 1))
  {
    hide DecimalValue, AtLeast, Strip;
    DigitsBracket(digits, k, 21);
    DigitsBracket(digits, k, -6);
    DigitsBracket(digits, k, -maxDecimalPlaces - 1);
  }

  lemma ScientificDenotes(digits: seq<Byte>, kk: int)
    requires digits != [] && AllDigits(digits)
    ensures Denotes(Literal(digits[..1], digits[1..], ReaderSpec.Some(kk - 1)), DecimalValue(digits), kk - |digits|)
  {
    hide DecimalValue, AllDigits;
    Rejoin(digits, 1);
    assert Pow(10, 0) == 1;
  }

  lemma LargeDenotes(digits: seq<Byte>, k: nat, maxDecimalPlaces: int)
    requires digits != [] && AllDigits(digits)
    ensures Denotes(Literal(digits + Zeros(k), [ZERO], ReaderSpec.None), DecimalValue(digits), k)
  {
    ZerosBehind(digits, k + 1);
    assert digits + Zeros(k) + [ZERO] == digits + Zeros(k + 1);
  }

  lemma Join(s: seq<Byte>, m: nat, n: nat)
    requires m <= n <= |s|
    ensures s[..m] + s[m..n] == s[..n]
  {
  }

  lemma Rejoin(s: seq<Byte>, n: nat)
    requires n <= |s|
    ensures s[..n] + s[n..] == s
  {
  }

  lemma MixedDenotes(digits: seq<Byte>, kk: nat, maxDecimalPlaces: int)
    requires AllDigits(digits) && 0 < kk < |digits| && 1 <= maxDecimalPlaces
    ensures var k := kk - |digits|;
            var cut := CutOff(DecimalValue(digits), k, maxDecimalPlaces);
            var f := if -k > maxDecimalPlaces then Strip(digits[kk..kk + maxDecimalPlaces]) else digits[kk..];
            Denotes(Literal(digits[..kk], f, ReaderSpec.None), cut.0, cut.1)
  {
    hide DecimalValue, Strip, Denotes, AllDigits;
    if |digits| - kk > maxDecimalPlaces {
      CutDenotes(digits, kk, kk + maxDecimalPlaces);
    } else {
      WholeDenotes(digits, kk);
    }
  }

  /** The digits up to the n-th, with a point after the kk-th, are the number divided by a power of ten. */
  lemma CutDenotes(digits: seq<Byte>, kk: nat, n: nat)
    requires AllDigits(digits) && kk < n <= |digits|
    ensures Denotes(Literal(digits[..kk], Strip(digits[kk..n]), ReaderSpec.None),
                    DecimalValue(digits) / Pow(10, |digits| - n), kk - n)
  {
    hide DecimalValue, Strip, AllDigits;
    FirstDigits(digits, n);
    Join(digits, kk, n);
    StripKeepsNumber(digits[..kk], digits[kk..n], DecimalValue(digits[..n]));
  }

  lemma WholeDenotes(digits: seq<Byte>, kk: nat)
    requires AllDigits(digits) && kk <= |digits|
    ensures Denotes(Literal(digits[..kk], digits[kk..], ReaderSpec.None), DecimalValue(digits), kk - |digits|)
  {
    hide DecimalValue, AllDigits;
    Rejoin(digits, kk);
    assert Pow(10, 0) == 1;
  }

  lemma SmallDenotes(digits: seq<Byte>, k: int, maxDecimalPlaces: int)
    requires digits != [] && AllDigits(digits) && |digits| + k <= 0 && 1 <= maxDecimalPlaces
    ensures var cut := CutOff(DecimalValue(digits), k, maxDecimalPlaces);
            var all := Zeros(-(|digits| + k)) + digits;
            var f := if |all| > maxDecimalPlaces then Strip(all[..maxDecimalPlaces]) else all;
            Denotes(Literal([ZERO], f, ReaderSpec.None), cut.0, cut.1)
  {
    hide DecimalValue, Strip;
    var all := Zeros(-(|digits| + k)) + digits;
    ZerosBefore(-(|digits| + k), digits);
    var n := if |all| > maxDecimalPlaces then maxDecimalPlaces else |all|;
    FirstDigits(all, n);
    ZerosBefore(1, all[..n]);
    assert Zeros(1) + all[..n] == [ZERO] + all[..n];
    if n < |all| {
      StripKeepsNumber([ZERO], all[..n], DecimalValue(all[..n]));
    } else {
      assert all[..n] == all;
      assert Pow(10, 0) == 1;
    }
  }

  lemma TinyDenotes(digits: seq<Byte>, k: int, maxDecimalPlaces: int)
    requires digits != [] && AllDigits(digits) && 1 <= maxDecimalPlaces && |digits| + k + maxDecimalPlaces < 0
    ensures var cut := CutOff(DecimalValue(digits), k, maxDecimalPlaces);
            Denotes(Literal([ZERO], [ZERO], ReaderSpec.None), cut.0, cut.1)
  {
    DecimalValueBound(digits);
    var d := Pow(10, -k - maxDecimalPlaces);
    PowMonotone(10, |digits|, -k - maxDecimalPlaces);
    Quotient(DecimalValue(digits), 0, d, DecimalValue(digits));
    ZerosBehind([], 2);
    assert [] + Zeros(2) == [ZERO] + [ZERO];
  }

  // -----------------------------------------------------------------------------------------------
  // How long it is, and what it is made of
  // -----------------------------------------------------------------------------------------------

  /** The digits of a number below a thousand, one by one. */
  lemma ShortDigits(n: nat)
    requires n < 1000
    ensures Digits(n) ==
              if n >= 100 then [ZERO + n / 100, ZERO + n / 10 % 10, ZERO + n % 10]
              else if n >= 10 then [ZERO + n / 10, ZERO + n % 10]
              else [ZERO + n]
  {
    assert n / 100 == n / 10 / 10;
    if n >= 10 {
      assert Digits(n) == Digits(n / 10) + [ZERO + n % 10];
    }
    if n >= 100 {
      assert Digits(n / 10) == Digits(n / 100) + [ZERO + n / 10 % 10];
    }
  }

  /** Seventeen digits in the range of a double take 24 characters at most: with a sign they fit into 25. */
  lemma PrettyLength(digits: seq<Byte>, k: int, maxDecimalPlaces: int)
    requires 1 <= |digits| <= 17 && -323 <= |digits| + k <= 309 && 1 <= maxDecimalPlaces
    ensures |Text(Pretty(digits, k, maxDecimalPlaces))| <= 24
  {
    hide Strip, Text, ExponentText;
    var kk := |digits| + k;
    TextLength(Pretty(digits, k, maxDecimalPlaces));
    ExponentLength(kk - 1);
  }

  lemma TextLength(l: Literal)
    ensures |Text(l)| == |l.whole| + (if l.fraction == [] then 0 else 1 + |l.fraction|) + |ExponentText(l.exponent)|
    ensures ExponentText(ReaderSpec.None) == []
  {
    hide IntegerText;
  }

  lemma ExponentLength(x: int)
    requires -1000 < x < 1000
    ensures |ExponentText(ReaderSpec.Some(x))| <= if x < 0 then 5 else 4
  {
    hide Digits;
    ShortDigits(if x >= 0 then x else -x);
  }

  /** The text begins with a digit and holds digits, a point, a minus and an e only. */
  lemma PrettyAlphabet(digits: seq<Byte>, k: int, maxDecimalPlaces: int)
    requires digits != [] && AllDigits(digits) && 1 <= maxDecimalPlaces
    ensures var t := Text(Pretty(digits, k, maxDecimalPlaces));
            t != [] && IsDigit(t[0]) && forall i :: 0 <= i < |t| ==> IsDigit(t[i]) || t[i] in {DOT, MINUS, LOWER_E}
  {
    hide Strip, Digits, IntegerText;
    var l := Pretty(digits, k, maxDecimalPlaces);
    PrettyIsGrammatical(digits, k, maxDecimalPlaces);
    if l.exponent.Some? {
      IntegerAlphabet(l.exponent.value);
    }
    var t, n, f := Text(l), |l.whole|, |Text(l)| - |ExponentText(l.exponent)|;
    assert forall i :: 0 <= i < n ==> t[i] == l.whole[i];
    assert forall i :: f <= i < |t| ==> t[i] == ExponentText(l.exponent)[i - f];
    assert l.fraction != [] ==> t[n] == DOT && forall i :: n < i < f ==> t[i] == l.fraction[i - n - 1];
  }

  lemma IntegerAlphabet(x: int)
    ensures forall i :: 0 <= i < |IntegerText(x)| ==> IsDigit(IntegerText(x)[i]) || IntegerText(x)[i] == MINUS
  {
    hide Digits;
  }

  /** A literal of the grammar that is no whole number, with an exponent that a double can have. */
  ghost predicate Grammatical(l: Literal) {
    && l.whole != [] && AllDigits(l.whole) && (l.whole[0] == ZERO ==> |l.whole| == 1)
    && AllDigits(l.fraction) && (l.exponent.None? ==> l.fraction != [])
    && (l.exponent.Some? ==> l.exponent.value <= 308)
  }

  lemma PrettyIsGrammatical(digits: seq<Byte>, k: int, maxDecimalPlaces: int)
    requires digits != [] && AllDigits(digits) && 1 <= maxDecimalPlaces
    ensures var l := Pretty(digits, k, maxDecimalPlaces);
            && l.whole != [] && AllDigits(l.whole) && AllDigits(l.fraction) && (l.exponent.None? ==> l.fraction != [])
            && (digits[0] != ZERO && |digits| + k <= 309 ==> Grammatical(l))
  {
  }

  // -----------------------------------------------------------------------------------------------
  // In place
  // -----------------------------------------------------------------------------------------------

  /** memmove towards the end. */
  method MoveUp(buffer: array<Byte>, to: nat, from: nat, n: nat)
    requires from <= to && to + n <= buffer.Length
    modifies buffer
    ensures buffer[to..to + n] == old(buffer[from..from + n])
    ensures forall j :: 0 <= j < to || to + n <= j < buffer.Length ==> buffer[j] == old(buffer[j])
  {
    ghost var before := buffer[..];
    var k := n;
    while k > 0
      invariant 0 <= k <= n
      invariant forall j :: to + k <= j < to + n ==> buffer[j] == before[j - (to - from)]
      invariant forall j :: 0 <= j < to + k || to + n <= j < buffer.Length ==> buffer[j] == before[j]
    {
      k := k - 1;
      buffer[to + k] := buffer[from + k];
    }
    assert buffer[to..to + n] == before[from..from + n];
  }

  method WriteExponent(K: int, buffer: array<Byte>, at: nat) returns (end: nat)
    requires -1000 < K < 1000 && at + |IntegerText(K)| <= buffer.Length
    modifies buffer
    ensures at <= end <= buffer.Length && buffer[at..end] == IntegerText(K)
    ensures forall j :: 0 <= j < at ==> buffer[j] == old(buffer[j])
  {
    hide Digits;
    if K < 0 {
      buffer[at] := MINUS;
      end := WriteDigits(-K, buffer, at + 1);
      assert buffer[at..end] == [MINUS] + buffer[at + 1..end];
    } else {
      end := WriteDigits(K, buffer, at);
    }
  }

  lemma LastTwo(n: nat)
    ensures n % 100 / 10 == n / 10 % 10 && n % 100 % 10 == n % 10
  {
    var q, r := n / 100, n % 100;
    assert n == 10 * (10 * q + r / 10) + r % 10;
  }

  /** One to three digits, the last two of a three-digit number from a table of pairs. */
  method WriteDigits(K: nat, buffer: array<Byte>, at: nat) returns (end: nat)
    requires K < 1000 && at + |Digits(K)| <= buffer.Length
    modifies buffer
    ensures at <= end <= buffer.Length && buffer[at..end] == Digits(K)
    ensures forall j :: 0 <= j < at ==> buffer[j] == old(buffer[j])
  {
    hide Digits;
    ShortDigits(K);
    if K >= 100 {
      var r := K % 100;
      LastTwo(K);
      buffer[at] := ZERO + K / 100;
      buffer[at + 1], buffer[at + 2] := ZERO + r / 10, ZERO + r % 10;
      end := at + 3;
      assert buffer[at..end] == [buffer[at], buffer[at + 1], buffer[at + 2]];
    } else if K >= 10 {
      buffer[at], buffer[at + 1] := ZERO + K / 10, ZERO + K % 10;
      end := at + 2;
      assert buffer[at..end] == [buffer[at], buffer[at + 1]];
    } else {
      buffer[at] := ZERO + K;
      end := at + 1;
    }
  }

  /** Prettify: the digits in the buffer become the text, whose end is returned. */
  method Prettify(buffer: array<Byte>, length: nat, k: int, maxDecimalPlaces: int) returns (end: nat)
    requires 1 <= length <= 17 && 24 <= buffer.Length && 1 <= maxDecimalPlaces
    requires -323 <= length + k <= 309  // the decimal exponents of doubles
    modifies buffer
    ensures end <= 24 && buffer[..end] == Text(Pretty(old(buffer[..length]), k, maxDecimalPlaces))
  {
    hide Strip, IntegerText, Zeros;
    PrettyLength(buffer[..length], k, maxDecimalPlaces);
    var kk := length + k;
    if 0 <= k && kk <= 21 {
      end := PutZerosBehind(buffer, length, k);
    } else if 0 < kk && kk <= 21 {
      end := PutPoint(buffer, length, kk, maxDecimalPlaces);
    } else if -6 < kk && kk <= 0 {
      end := PutZerosBefore(buffer, length, kk, maxDecimalPlaces);
    } else if kk + maxDecimalPlaces < 0 {
      buffer[0], buffer[1], buffer[2] := ZERO, DOT, ZERO;
      end := 3;
      assert buffer[..3] == [ZERO, DOT, ZERO];
    } else {
      end := PutExponent(buffer, length, kk);
    }
  }

  /** 1234e7 -> 12340000000.0 */
  method PutZerosBehind(buffer: array<Byte>, length: nat, k: nat) returns (end: nat)
    requires length + k + 2 <= buffer.Length
    modifies buffer
    ensures end == length + k + 2 && buffer[..end] == old(buffer[..length]) + Zeros(k) + ([DOT] + [ZERO])
  {
    var kk := length + k;
    FillZeros(buffer, length, kk);
    assert buffer[..kk] == buffer[..length] + buffer[length..kk];
    ghost var head := buffer[..kk];
    buffer[kk], buffer[kk + 1] := DOT, ZERO;
    end := kk + 2;
    assert buffer[..end] == buffer[..kk] + [DOT, ZERO] && buffer[..kk] == head;
  }

  method FillZeros(buffer: array<Byte>, from: nat, to: nat)
    requires from <= to <= buffer.Length
    modifies buffer
    ensures buffer[from..to] == Zeros(to - from)
    ensures forall j :: 0 <= j < from || to <= j < buffer.Length ==> buffer[j] == old(buffer[j])
  {
    for i := from to to
      invariant forall j :: from <= j < i ==> buffer[j] == ZERO
      invariant forall j :: 0 <= j < from || i <= j < buffer.Length ==> buffer[j] == old(buffer[j])
    {
      buffer[i] := ZERO;
    }
  }

  /** 1234e-2 -> 12.34: the point goes between the digits. */
  method PutPoint(buffer: array<Byte>, length: nat, kk: nat, maxDecimalPlaces: int) returns (end: nat)
    requires 0 < kk < length < buffer.Length && 1 <= maxDecimalPlaces
    modifies buffer
    ensures end <= length + 1
    ensures var digits := old(buffer[..length]);
            var f := if length - kk > maxDecimalPlaces then Strip(digits[kk..kk + maxDecimalPlaces]) else digits[kk..];
            buffer[..end] == digits[..kk] + ([DOT] + f)
  {
    hide Strip;
    ghost var digits := buffer[..length];
    assert buffer[kk..length] == digits[kk..];
    MoveUp(buffer, kk + 1, kk, length - kk);
    buffer[kk] := DOT;
    assert buffer[kk + 1..length + 1] == digits[kk..];
    assert buffer[..kk + 1] == digits[..kk] + [DOT];
    if 0 > kk - length + maxDecimalPlaces {
      assert buffer[kk + 1..kk + maxDecimalPlaces + 1] == buffer[kk + 1..length + 1][..maxDecimalPlaces];
      assert digits[kk..][..maxDecimalPlaces] == digits[kk..kk + maxDecimalPlaces];
      end := LastDigit(buffer, kk + 1, kk + maxDecimalPlaces, digits[kk..kk + maxDecimalPlaces]);
    } else {
      end := length + 1;
    }
    HeadAndTail(buffer[..end], digits[..kk], DOT, buffer[kk + 1..end]);
  }

  lemma HeadAndTail(s: seq<Byte>, head: seq<Byte>, c: Byte, tail: seq<Byte>)
    requires |s| == |head| + 1 + |tail| && s[..|head| + 1] == head + [c] && s[|head| + 1..] == tail
    ensures s == head + ([c] + tail)
  {
    assert s == s[..|head| + 1] + s[|head| + 1..];
  }

  /** 1234e-6 -> 0.001234: zeros and the point go before the digits. */
  method PutZerosBefore(buffer: array<Byte>, length: nat, kk: int, maxDecimalPlaces: int) returns (end: nat)
    requires -6 < kk <= 0 && 1 <= length && length + 2 - kk <= buffer.Length && 1 <= maxDecimalPlaces
    modifies buffer
    ensures end <= length + 2 - kk
    ensures var f := Zeros(-kk) + old(buffer[..length]);
            buffer[..end] == [ZERO] + ([DOT] + if |f| > maxDecimalPlaces then Strip(f[..maxDecimalPlaces]) else f)
  {
    hide Strip, Zeros;
    ghost var f := Zeros(-kk) + buffer[..length];
    InsertZeros(buffer, length, 2 - kk);
    if length - kk > maxDecimalPlaces {
      assert buffer[2..maxDecimalPlaces + 2] == buffer[2..2 - kk + length][..maxDecimalPlaces];
      end := LastDigit(buffer, 2, maxDecimalPlaces + 1, f[..maxDecimalPlaces]);
    } else {
      end := length + 2 - kk;
    }
    assert buffer[..end][..2] == [ZERO] + [DOT];
    HeadAndTail(buffer[..end], [ZERO], DOT, buffer[2..end]);
  }

  method InsertZeros(buffer: array<Byte>, length: nat, offset: nat)
    requires 2 <= offset && offset + length <= buffer.Length
    modifies buffer
    ensures buffer[0] == ZERO && buffer[1] == DOT
    ensures buffer[2..offset + length] == Zeros(offset - 2) + old(buffer[..length])
  {
    hide Zeros;
    ghost var digits := buffer[..length];
    assert buffer[0..length] == digits;
    MoveUp(buffer, offset, 0, length);
    buffer[0], buffer[1] := ZERO, DOT;
    assert buffer[offset..offset + length] == digits;
    FillZeros(buffer, 2, offset);
    assert buffer[offset..offset + length] == digits;
    assert buffer[2..offset + length] == buffer[2..offset] + buffer[offset..offset + length];
  }

  /** 1e30, or 1234e30 -> 1.234e33 */
  method PutExponent(buffer: array<Byte>, length: nat, kk: int) returns (end: nat)
    requires 1 <= length && -1000 < kk - 1 < 1000
    requires length + (if length == 1 then 1 else 2) + |IntegerText(kk - 1)| <= buffer.Length
    modifies buffer
    ensures end <= buffer.Length
    ensures var digits := old(buffer[..length]);
            buffer[..end] == Text(Literal(digits[..1], digits[1..], ReaderSpec.Some(kk - 1)))
  {
    hide IntegerText;
    ghost var digits := buffer[..length];
    var point := if length == 1 then 1 else length + 1;
    if length > 1 {
      assert buffer[1..length] == digits[1..];
      MoveUp(buffer, 2, 1, length - 1);
      assert buffer[2..length + 1] == digits[1..];
      buffer[1] := DOT;
      assert buffer[..2] == digits[..1] + [DOT];
      HeadAndTail(buffer[..point], digits[..1], DOT, buffer[2..point]);
    } else {
      assert buffer[..1] == digits[..1];
    }
    ghost var head := buffer[..point];
    buffer[point] := LOWER_E;
    end := WriteExponent(kk - 1, buffer, point + 1);
    assert buffer[..point] == head;
    HeadAndTail(buffer[..end], head, LOWER_E, buffer[point + 1..end]);
  }

  /** The end of the fraction that stands from first to last, its trailing zeros left out. */
  method LastDigit(buffer: array<Byte>, first: nat, last: nat, ghost f: seq<Byte>) returns (end: nat)
    requires first <= last < buffer.Length && buffer[first..last + 1] == f
    ensures first < end <= last + 1 && buffer[first..end] == Strip(f)
  {
    var i := last;
    while i > first && buffer[i] == ZERO
      invariant first <= i <= last && Strip(buffer[first..i + 1]) == Strip(f)
    {
      assert buffer[first..i + 1][..i - first] == buffer[first..i];
      i := i - 1;
    }
    end := i + 1;
  }
}
