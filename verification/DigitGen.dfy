/** Digit generation of dtoa.h (Grisu2): from a scaled interval, the shortest decimal in it, as close to
    the scaled value as that length allows. All words are unsigned 64-bit unless said otherwise. */
module DigitGen {
  import opened Bytes
  import opened Powers

  /** `m` units. (A name for the product, so that statements about all multiples can be instantiated.) */
  function Multiple(m: int, unit: int): int {
    m * unit
  }

  function Distance(a: int, b: int): int {
    if a < b then b - a else a - b
  }

  /** The multiple `n` of `unit` lies in [low, high], is as near to `w` as any multiple there, and no
      multiple of ten units lies in (low, high]: one digit less would not do. */
  ghost predicate ShortestAndClosest(n: int, unit: int, low: int, high: int, w: int) {
    && low <= Multiple(n, unit) <= high
    && (forall m {:trigger Multiple(m, unit)} :: low <= Multiple(m, unit) <= high ==>
          Distance(Multiple(n, unit), w) <= Distance(Multiple(m, unit), w))
    && (forall m {:trigger Multiple(m, 10 * unit)} :: !(low < Multiple(m, 10 * unit) <= high))
  }

  // ---------------------------------------------------------------------------------------------
  // Rounding the last digit
  // ---------------------------------------------------------------------------------------------

  /** Among the steps that keep within `delta`, `n` steps bring `rest` nearest to `w`. */
  ghost predicate NearestStep(n: nat, delta: int, rest: int, unit: int, w: int) {
    && rest + Multiple(n, unit) <= delta
    && forall m: nat {:trigger Multiple(m, unit)} :: rest + Multiple(m, unit) <= delta ==>
         Distance(rest + Multiple(n, unit), w) <= Distance(rest + Multiple(m, unit), w)
  }

  lemma MultipleMonotone(m: int, n: int, unit: int)
    requires m <= n && 0 <= unit
    ensures Multiple(m, unit) <= Multiple(n, unit)
    ensures Multiple(n + 1, unit) == Multiple(n, unit) + unit
  {
    assert (n - m) * unit >= 0;
  }

  lemma NearestStepFound(n: nat, delta: int, rest: int, unit: int, w: int)
    requires 0 < unit && rest + Multiple(n, unit) <= delta
    requires n > 0 ==> rest + Multiple(n - 1, unit) < w
                       && Distance(rest + Multiple(n, unit), w) < Distance(rest + Multiple(n - 1, unit), w)
    requires var r := rest + Multiple(n, unit);
             r >= w || delta - r < unit || (r + unit >= w && w - r <= r + unit - w)
    ensures NearestStep(n, delta, rest, unit, w)
  {
    forall m: nat {:trigger Multiple(m, unit)} | rest + Multiple(m, unit) <= delta
      ensures Distance(rest + Multiple(n, unit), w) <= Distance(rest + Multiple(m, unit), w)
    {
      MultipleMonotone(n, n, unit);
      if m < n {
        MultipleMonotone(m, n - 1, unit);
      } else if m > n {
        MultipleMonotone(n + 1, m, unit);
      }
    }
  }

  /** GrisuRound: lower the last digit while that comes closer to `wp_w` and stays within `delta`. The
      digit cannot fall below '0', because the whole digit was needed to get within `delta`. */
  method GrisuRound(buffer: array<Byte>, len: nat, delta: Word64, rest: Word64, tenKappa: Word64, wpW: Word64)
      returns (ghost n: nat)
    requires 1 <= len <= buffer.Length && IsDigit(buffer[len - 1])
    requires rest <= delta && 0 < tenKappa && wpW <= delta
    requires delta <= rest + Multiple(buffer[len - 1] - ZERO, tenKappa)
    modifies buffer
    ensures NearestStep(n, delta, rest, tenKappa, wpW)
    ensures n <= old(buffer[len - 1]) - ZERO
    ensures delta < rest + Multiple(old(buffer[len - 1]) - ZERO, tenKappa) ==> n < old(buffer[len - 1]) - ZERO
    ensures buffer[..] == old(buffer[..])[len - 1 := old(buffer[len - 1]) - n]
  {
    n := 0;
    var r := rest;
    ghost var d := buffer[len - 1] - ZERO;
    while r < wpW && delta - r >= tenKappa && (r + tenKappa < wpW || wpW - r > r + tenKappa - wpW)
      invariant r == rest + Multiple(n, tenKappa) <= delta
      invariant n > 0 ==> rest + Multiple(n - 1, tenKappa) < wpW
                          && Distance(r, wpW) < Distance(rest + Multiple(n - 1, tenKappa), wpW)
      invariant n <= d
      invariant buffer[..] == old(buffer[..])[len - 1 := old(buffer[len - 1]) - n]
      decreases delta - r
    {
      MultipleMonotone(n, n, tenKappa);
      if n >= d {
        MultipleMonotone(d, n, tenKappa);
      }
      buffer[len - 1] := buffer[len - 1] - 1;
      r := r + tenKappa;  // at most delta: no overflow
      n := n + 1;
    }
    NearestStepFound(n, delta, rest, tenKappa, wpW);
    if n >= d {
      MultipleMonotone(d, n, tenKappa);
    }
  }

  // ---------------------------------------------------------------------------------------------
  // From steps to multiples
  // ---------------------------------------------------------------------------------------------

  /** If `d` units and `rest` make `high`, taking `n` nearest steps back yields the nearest multiple. */
  lemma NearestMultiple(d: int, n: nat, unit: int, delta: int, rest: int, w: int, high: int)
    requires 0 < unit && 0 <= rest < unit && high == Multiple(d, unit) + rest
    requires NearestStep(n, delta, rest, unit, high - w)
    ensures high - delta <= Multiple(d - n, unit) <= high
    ensures forall m {:trigger Multiple(m, unit)} :: high - delta <= Multiple(m, unit) <= high ==>
              Distance(Multiple(d - n, unit), w) <= Distance(Multiple(m, unit), w)
  {
    assert Multiple(d - n, unit) == Multiple(d, unit) - Multiple(n, unit);
    assert n * unit >= 0;
    forall m {:trigger Multiple(m, unit)} | high - delta <= Multiple(m, unit) <= high
      ensures Distance(Multiple(d - n, unit), w) <= Distance(Multiple(m, unit), w)
    {
      assert Multiple(d - m, unit) == Multiple(d, unit) - Multiple(m, unit);
      if m > d {
        MultipleMonotone(d + 1, m, unit);
        MultipleMonotone(d, d, unit);
      }
    }
  }

  /** If the rest beyond `d` units is at least `delta`, no other multiple is within `delta` either. */
  lemma NoMultipleWithin(d: int, unit: int, delta: int, rest: int, high: int)
    requires 0 < unit && delta <= rest < unit && high == Multiple(d, unit) + rest
    ensures forall m {:trigger Multiple(m, unit)} :: !(high - delta < Multiple(m, unit) <= high)
  {
    forall m {:trigger Multiple(m, unit)}
      ensures !(high - delta < Multiple(m, unit) <= high)
    {
      if m <= d {
        MultipleMonotone(m, d, unit);
      } else {
        MultipleMonotone(d + 1, m, unit);
        MultipleMonotone(d, d, unit);
      }
    }
  }

  // ---------------------------------------------------------------------------------------------
  // Digits
  // ---------------------------------------------------------------------------------------------

  /** The number of decimal digits of a number below 10^9; of a larger one, nine. */
  function CountDecimalDigit32(n: int): (c: nat)
    requires 0 <= n < 0x1_0000_0000
    ensures 1 <= c <= 9 && (n == 0 ==> c == 1) && (n >= 1_000_000_000 ==> c == 9)
    ensures 1 <= n < 1_000_000_000 ==> Pow(10, c - 1) <= n < Pow(10, c)
  {
    PowersOfTen();
    assert Pow(10, 1) == 10 && Pow(10, 2) == 100 && Pow(10, 3) == 1_000 && Pow(10, 4) == 10_000;
    assert Pow(10, 5) == 100_000 && Pow(10, 6) == 1_000_000 && Pow(10, 7) == 10_000_000 && Pow(10, 8) == 100_000_000;
    if n < 10 then 1
    else if n < 100 then 2
    else if n < 1000 then 3
    else if n < 10000 then 4
    else if n < 100000 then 5
    else if n < 1000000 then 6
    else if n < 10000000 then 7
    else if n < 100000000 then 8
    else 9
  }

  /** The number in the first `len` bytes of the buffer. */
  ghost function Number(buffer: array<Byte>, len: nat): int
    requires len <= buffer.Length && AllDigits(buffer[..len])
    reads buffer
  {
    DecimalValue(buffer[..len])
  }

  lemma DigitAppended(before: seq<Byte>, after: seq<Byte>, len: nat, d: int)
    requires len < |before| == |after| && 0 <= d <= 9 && AllDigits(before[..len])
    requires after == before[len := ZERO + d]
    ensures AllDigits(after[..len + 1]) && DecimalValue(after[..len + 1]) == DecimalValue(before[..len]) * 10 + d
  {
    assert after[..len + 1] == before[..len] + [ZERO + d];
  }

  lemma LastDigitLowered(before: seq<Byte>, after: seq<Byte>, len: nat, n: nat)
    requires 1 <= len <= |before| == |after| && AllDigits(before[..len]) && n <= before[len - 1] - ZERO
    requires after == before[len - 1 := before[len - 1] - n]
    ensures AllDigits(after[..len]) && DecimalValue(after[..len]) == DecimalValue(before[..len]) - n
  {
    assert before[..len][..len - 1] == after[..len][..len - 1];
    assert before[..len][len - 1] == before[len - 1];
    assert forall k :: 0 <= k < len - 1 ==> after[k] == before[..len][k];
  }

  /** What DigitGen promises: `len` digits without a leading zero, denoting, with the decimal exponent
      `kappa`, the shortest decimal of the interval and the closest of its length. */
  ghost predicate Generated(digits: seq<Byte>, kappa: int, one: int, w: int, mp: int, delta: int) {
    && digits != [] && AllDigits(digits) && digits[0] != ZERO
    && -19 <= kappa <= 8
    && (if kappa >= 0 then
          ShortestAndClosest(DecimalValue(digits), Pow(10, kappa) * one, mp - delta, mp, w)
        else
          ShortestAndClosest(DecimalValue(digits), one,
                             (mp - delta) * Pow(10, -kappa), mp * Pow(10, -kappa), w * Pow(10, -kappa)))
  }

  /** With `k` integral digits to go, Mp is the number so far, then p1, then p2; and what is not in the
      number yet does not fit `delta`. */
  ghost predicate Split(number: int, k: nat, p1: int, p2: int, one: int, mp: int, delta: int) {
    && mp == (number * Pow(10, k) + p1) * one + p2
    && 0 <= number && 0 <= p1 < Pow(10, k) && 0 <= p2 < one
    && delta < p1 * one + p2
  }

  /** One integral digit `d` of p1, leaving `m`: the sum is kept, now also as units of the new digit. */
  lemma IntegralStep(number: int, k: nat, p1: int, p2: int, one: int, mp: int, delta: int)
    requires 0 < k && 0 < one && 0 < delta && Split(number, k, p1, p2, one, mp, delta)
    ensures var unit := Pow(10, k - 1);
            var d, m := p1 / unit, p1 % unit;
            var n, u, rest, previous := number * 10 + d, unit * one, m * one + p2, p1 * one + p2;
            && 0 <= d <= 9 && 0 <= m && 0 <= rest < u
            && (number > 0 || d > 0 ==> u <= mp) && rest <= mp
            && mp == Multiple(n, u) + rest
            && delta < previous < 10 * u && mp == Multiple(number, 10 * u) + previous
            && previous == Multiple(d, u) + rest
            && (delta < rest ==> Split(n, k - 1, m, p2, one, mp, delta))
            && (p1 >= unit ==> d >= 1)
  {
    var unit := Pow(10, k - 1);
    DivideBelow(p1, unit, 10);
    var d, m := p1 / unit, p1 % unit;
    var n := number * 10 + d;
    MultiplyAssociates(number, 10, unit);
    Distribute(number * 10, d, unit);
    assert number * (10 * unit) + p1 == n * unit + m;
    Distribute(n * unit, m, one);
    MultiplyAssociates(n, unit, one);
    Distribute(d * unit, m, one);
    MultiplyAssociates(d, unit, one);
    MultiplyMonotone(m + 1, unit, one);
    Distribute(m, 1, one);
    MultiplyMonotone(0, m, one);
    PreviousRest(number, p1, p2, unit, one, mp);
    MultiplyMonotone(1, one, unit);
    MultiplyMonotone(0, n, unit * one);
    if number > 0 || d > 0 {
      MultiplyMonotone(1, n, unit * one);
    }
    if p1 >= unit && d < 1 {
      MultiplyMonotone(d, 0, unit);
    }
  }

  /** What was left before a digit is taken is less than ten of its units. */
  lemma PreviousRest(number: int, p1: int, p2: int, unit: int, one: int, mp: int)
    requires 0 < unit && 0 < one && 0 <= p2 < one && 0 <= p1 < 10 * unit
    requires mp == (number * (10 * unit) + p1) * one + p2
    ensures p1 * one + p2 < 10 * (unit * one)
    ensures mp == Multiple(number, 10 * (unit * one)) + (p1 * one + p2)
  {
    MultiplyMonotone(p1 + 1, 10 * unit, one);
    Distribute(p1, 1, one);
    MultiplyAssociates(10, unit, one);
    Distribute(number * (10 * unit), p1, one);
    MultiplyAssociates(number, 10 * unit, one);
  }

  /** The loop over the integral part p1. Nothing overflows: every word stays at or below Mp. */
  method IntegralDigits(w: Word64, mp: Word64, delta: Word64, one: Word64, buffer: array<Byte>)
      returns (len: nat, kappa: nat, done: bool, p2: Word64)
    requires 0 < delta < mp && mp - delta <= w <= mp
    requires 0x1_0000_0000 <= one && 1 <= mp / one < 1_000_000_000 && 9 <= buffer.Length
    modifies buffer
    ensures 1 <= len <= 9 && AllDigits(buffer[..len]) && buffer[0] != ZERO
    ensures done ==> kappa <= 8 && Generated(buffer[..len], kappa, one, w, mp, delta)
    ensures !done ==> kappa == 0 && mp == Number(buffer, len) * one + p2 && delta < p2 < one
  {
    var p1: Word64 := mp / one;
    p2 := mp % one;
    var k: nat := CountDecimalDigit32(p1);
    len, done := 0, false;
    assert Number(buffer, 0) == 0 && Split(0, k, p1, p2, one, mp, delta);
    hide DecimalValue, ShortestAndClosest, Split;
    while k > 0
      invariant k <= 9 && len + k <= 9 && AllDigits(buffer[..len])
      invariant len == 0 ==> k > 0 && p1 >= Pow(10, k - 1)
      invariant len > 0 ==> buffer[0] != ZERO
      invariant Split(Number(buffer, len), k, p1, p2, one, mp, delta)
    {
      len, p1, done := IntegralDigit(w, mp, delta, one, buffer, len, p1, p2, k);
      k := k - 1;
      if done {
        kappa := k;
        return;
      }
    }
    kappa := 0;
    IntegralPartDone(Number(buffer, len), p1, p2, one, mp, delta);
  }

  lemma IntegralPartDone(number: int, p1: int, p2: int, one: int, mp: int, delta: int)
    requires Split(number, 0, p1, p2, one, mp, delta)
    ensures mp == number * one + p2 && delta < p2 < one
  {
  }

  /** One turn of that loop, at `k` digits to go. */
  method IntegralDigit(w: Word64, mp: Word64, delta: Word64, one: Word64, buffer: array<Byte>,
                       len: nat, p1: Word64, p2: Word64, k: nat)
      returns (len': nat, p1': Word64, done: bool)
    requires 0 < delta < mp && mp - delta <= w <= mp && 0 < one
    requires 0 < k <= 9 && len + k <= 9 && 9 <= buffer.Length && AllDigits(buffer[..len])
    requires len == 0 ==> p1 >= Pow(10, k - 1)
    requires len > 0 ==> buffer[0] != ZERO
    requires Split(Number(buffer, len), k, p1, p2, one, mp, delta)
    modifies buffer
    ensures len' == len + 1 && AllDigits(buffer[..len']) && buffer[0] != ZERO
    ensures done ==> Generated(buffer[..len'], k - 1, one, w, mp, delta)
    ensures !done ==> Split(Number(buffer, len'), k - 1, p1', p2, one, mp, delta)
  {
    ghost var number := Number(buffer, len);
    LeadingDigit(buffer[..len]);
    hide DecimalValue, ShortestAndClosest, Multiple, Split, Pow;
    ghost var before := buffer[..];
    var d, tmp, tenKappa;
    ghost var previous;
    d, p1', tmp, tenKappa, previous := TakeDigit(mp, delta, one, p1, p2, k, number);
    len', done := len, false;
    if d != 0 || len != 0 {
      buffer[len] := ZERO + d;
      len' := len + 1;
    }
    DigitAppended(before, buffer[..], len, d);
    if tmp <= delta {
      done := true;
      RoundDigits(buffer, len', delta, tmp, tenKappa, mp - w, mp, number * 10 + d, number, previous);
    }
  }

  /** The digit, what is left of p1 and of Mp behind it, and the unit it counts. */
  method TakeDigit(mp: Word64, delta: Word64, one: Word64, p1: Word64, p2: Word64, k: nat, ghost number: int)
      returns (d: int, m: Word64, tmp: Word64, tenKappa: Word64, ghost previous: int)
    requires 0 < k && 0 < one && 0 < delta && Split(number, k, p1, p2, one, mp, delta)
    requires number > 0 || p1 >= Pow(10, k - 1)
    ensures 0 <= d <= 9 && (p1 >= Pow(10, k - 1) ==> d >= 1) && tmp < tenKappa == Pow(10, k - 1) * one
    ensures mp == Multiple(number * 10 + d, tenKappa) + tmp
    ensures delta < previous < 10 * tenKappa && mp == Multiple(number, 10 * tenKappa) + previous
    ensures previous == Multiple(d, tenKappa) + tmp
    ensures delta < tmp ==> Split(number * 10 + d, k - 1, m, p2, one, mp, delta)
  {
    hide Multiple, Split;
    var unit := Pow(10, k - 1);
    IntegralStep(number, k, p1, p2, one, mp, delta);
    d := p1 / unit;
    previous := p1 * one + p2;
    m := p1 % unit;
    tmp, tenKappa := m * one + p2, unit * one;
  }

  /** Digits that do not begin with a zero. */
  lemma {:induction false} LeadingDigit(s: seq<Byte>)
    requires AllDigits(s)
    ensures s != [] && s[0] != ZERO ==> DecimalValue(s) >= Pow(10, |s| - 1) >= 1
    decreases |s|
  {
    if |s| > 1 {
      LeadingDigit(s[..|s| - 1]);
    } else if |s| == 1 {
      assert DecimalValue(s) == DecimalValue(s[..0]) * 10 + (s[0] - ZERO);
    }
  }

  /** GrisuRound on the digits so far, which denote `n` of the `unit` that the last of them counts. */
  method RoundDigits(buffer: array<Byte>, len: nat, delta: Word64, rest: Word64, unit: Word64, wpW: Word64,
                     ghost high: int, ghost n: int, ghost number: int, ghost previous: int)
    requires 1 <= len <= buffer.Length && AllDigits(buffer[..len]) && Number(buffer, len) == n
    requires rest <= delta && rest < unit && wpW <= delta && high == Multiple(n, unit) + rest
    requires delta <= previous < 10 * unit && high == Multiple(number, 10 * unit) + previous
    requires previous == Multiple(buffer[len - 1] - ZERO, unit) + rest
    requires buffer[0] != ZERO && (len == 1 ==> delta < previous)
    modifies buffer
    ensures AllDigits(buffer[..len]) && buffer[0] != ZERO
    ensures ShortestAndClosest(Number(buffer, len), unit, high - delta, high, high - wpW)
  {
    hide DecimalValue, Multiple, ShortestAndClosest;
    ghost var before := buffer[..];
    assert IsDigit(before[..len][len - 1]);
    ghost var steps := GrisuRound(buffer, len, delta, rest, unit, wpW);
    LastDigitLowered(before, buffer[..], len, steps);
    ChosenAtUnit(n, steps, unit, delta, rest, high - wpW, high, number, previous);
  }

  /** The step taken at the unit where the rest first fits is the shortest and closest choice: at the
      next larger unit the rest did not fit. */
  lemma ChosenAtUnit(n: int, steps: nat, unit: int, delta: int, rest: int, w: int, high: int, number: int, previous: int)
    requires 0 < unit && 0 <= rest < unit && high == Multiple(n, unit) + rest
    requires NearestStep(steps, delta, rest, unit, high - w)
    requires delta <= previous < 10 * unit && high == Multiple(number, 10 * unit) + previous
    ensures ShortestAndClosest(n - steps, unit, high - delta, high, w)
  {
    NearestMultiple(n, steps, unit, delta, rest, w, high);
    NoMultipleWithin(number, 10 * unit, delta, previous, high);
  }

  // ---------------------------------------------------------------------------------------------
  // Fractional digits
  // ---------------------------------------------------------------------------------------------

  /** After `index` fractional digits: `delta` has been scaled along and does not reach the rest yet. */
  ghost predicate Scaled(index: nat, mp: int, delta0: int, one: int, number: int, p2: int, delta: int) {
    && delta == delta0 * Pow(10, index) && delta <= p2 < one
    && mp * Pow(10, index) == number * one + p2
  }

  /** The loop over the fractional part p2. `delta` is scaled along, so it is at least 10^-kappa; since
      it stays below `one`, at most 19 digits are taken and no product overflows. All digits together are
      at most 21, because Mp has 64 bits. */
  method FractionalDigits(w: Word64, mp: Word64, delta0: Word64, one: Word64, buffer: array<Byte>, len0: nat, rest: Word64)
      returns (len: nat, kappa: int)
    requires 0 < delta0 < mp && mp - delta0 <= w <= mp && 0 < one <= 0x1000_0000_0000_0000
    requires 1 <= len0 <= 9 && 21 <= buffer.Length && AllDigits(buffer[..len0]) && buffer[0] != ZERO
    requires mp == Number(buffer, len0) * one + rest && delta0 < rest < one
    modifies buffer
    ensures -19 <= kappa < 0 && len == len0 - kappa <= 21
    ensures AllDigits(buffer[..len]) && Generated(buffer[..len], kappa, one, w, mp, delta0)
  {
    assert Scaled(0, mp, delta0, one, Number(buffer, len0), rest, delta0);
    IntegralBound(buffer[..len0], one, mp, rest);
    hide DecimalValue, ShortestAndClosest, Scaled, Pow;
    len, kappa := len0, 0;
    var p2, delta := rest, delta0;
    while true
      invariant -18 <= kappa <= 0 && len == len0 - kappa <= 21 && AllDigits(buffer[..len]) && buffer[0] != ZERO
      invariant Scaled(-kappa, mp, delta0, one, Number(buffer, len), p2, delta)
      decreases one - delta
    {
      ghost var number := Number(buffer, len);
      ScaleBound(-kappa, mp, delta0, one, number, p2, delta);
      DigitsBound(-kappa, len0, mp, delta0, one, number, p2, delta);
      var done;
      len, p2, delta, done := FractionalDigit(w, mp, delta0, one, buffer, len, p2, delta, -kappa);
      kappa := kappa - 1;
      if done {
        return;
      }
      ScaleBound(-kappa, mp, delta0, one, Number(buffer, len), p2, delta);
    }
  }

  /** One turn of that loop, after `index` fractional digits. */
  method FractionalDigit(w: Word64, mp: Word64, delta0: Word64, one: Word64, buffer: array<Byte>,
                         len: nat, p2: Word64, delta: Word64, index: nat)
      returns (len': nat, p2': Word64, delta': Word64, done: bool)
    requires 0 < delta0 < mp && mp - delta0 <= w <= mp && 0 < one <= 0x1000_0000_0000_0000
    requires index <= 18 && 1 <= len < buffer.Length && AllDigits(buffer[..len]) && buffer[0] != ZERO
    requires Scaled(index, mp, delta0, one, Number(buffer, len), p2, delta)
    modifies buffer
    ensures len' == len + 1 && AllDigits(buffer[..len']) && buffer[0] != ZERO && delta < delta'
    ensures done ==> Generated(buffer[..len'], -(index + 1), one, w, mp, delta0)
    ensures !done ==> Scaled(index + 1, mp, delta0, one, Number(buffer, len'), p2', delta')
  {
    hide DecimalValue, ShortestAndClosest, Multiple;
    ghost var number, before := Number(buffer, len), buffer[..];
    ghost var scale := Pow(10, index);
    FractionalStep(number, p2, one, mp, scale, delta0, w);
    MultiplyMonotone(1, delta0, scale);
    p2' := p2 * 10;
    delta' := delta * 10;
    ghost var previous: int := p2';
    var d := p2' / one;
    len', done := len, false;
    if d != 0 || len != 0 {
      buffer[len] := ZERO + d;
      len' := len + 1;
    }
    DigitAppended(before, buffer[..], len, d);
    p2' := p2' % one;
    if p2' < delta' {
      done := true;
      var wpW := if index + 1 < 20 then (mp - w) * Pow(10, index + 1) else 0;
      assert buffer[len' - 1] == ZERO + d;
      RoundDigits(buffer, len', delta', p2', one, wpW, mp * (10 * scale), number * 10 + d, number, previous);
    }
  }

  lemma FractionalStep(number: int, p2: int, one: int, mp: int, scale: int, delta0: int, w: int)
    requires 0 < one && 0 < scale && 0 <= p2 < one && mp * scale == number * one + p2
    requires mp - delta0 <= w <= mp
    ensures var d, rest := p2 * 10 / one, p2 * 10 % one;
            && 0 <= d <= 9 && 0 <= rest < one
            && mp * (10 * scale) == (number * 10 + d) * one + rest
            && mp * (10 * scale) == Multiple(number * 10 + d, one) + rest
            && mp * (10 * scale) == Multiple(number, 10 * one) + p2 * 10
            && p2 * 10 == Multiple(d, one) + rest
    ensures delta0 * (10 * scale) == delta0 * scale * 10
    ensures 0 <= (mp - w) * (10 * scale) <= delta0 * (10 * scale)
    ensures mp * (10 * scale) - (mp - w) * (10 * scale) == w * (10 * scale)
    ensures mp * (10 * scale) - delta0 * (10 * scale) == (mp - delta0) * (10 * scale)
  {
    DivideBelow(p2 * 10, one, 10);
    var d, rest := p2 * 10 / one, p2 * 10 % one;
    assert mp * (10 * scale) == 10 * (mp * scale);
    Distribute(number * 10, d, one);
    MultiplyMonotone(0, mp - w, 10 * scale);
    MultiplyMonotone(mp - w, delta0, 10 * scale);
    Distribute(mp, -w, 10 * scale);
    Distribute(mp, -delta0, 10 * scale);
  }

  /** While the scaled delta is below 2^60 the scale is below 10^19. */
  lemma ScaleBound(index: nat, mp: int, delta0: int, one: int, number: int, p2: int, delta: int)
    requires 0 < delta0 && one <= 0x1000_0000_0000_0000
    requires Scaled(index, mp, delta0, one, number, p2, delta)
    ensures index <= 18 && delta < one
  {
    if index >= 19 {
      PowersOfTen();
      PowMonotone(10, 19, index);
      MultiplyMonotone(1, delta0, Pow(10, index));
    }
  }

  lemma IntegralBound(digits: seq<Byte>, one: int, mp: int, rest: int)
    requires digits != [] && AllDigits(digits) && digits[0] != ZERO
    requires 0 < one && 0 <= rest && mp == DecimalValue(digits) * one + rest
    ensures Pow(10, |digits| - 1) * one <= mp
  {
    LeadingDigit(digits);
    MultiplyMonotone(Pow(10, |digits| - 1), DecimalValue(digits), one);
  }

  /** The scale times the integral part fits 64 bits. */
  lemma DigitsBound(index: nat, len0: nat, mp: int, delta0: int, one: int, number: int, p2: int, delta: int)
    requires 0 < delta0 && 1 <= len0 && Pow(10, len0 - 1) * one <= mp < TWO_TO_64
    requires Scaled(index, mp, delta0, one, number, p2, delta)
    ensures len0 + index <= 20
  {
    MultiplyMonotone(1, delta0, Pow(10, index));
    MultiplyMonotone(Pow(10, index), one, Pow(10, len0 - 1));
    PowAdd(10, len0 - 1, index);
    PowersOfTen();
    assert Pow(10, 20) == 10 * Pow(10, 19);
    if len0 - 1 + index >= 20 {
      PowMonotone(10, 20, len0 - 1 + index);
    }
  }

  /** DigitGen for the upper bound Mp = mp * 2^-s of an interval of width delta that holds W: the digits
      and K describe the shortest decimal in [Mp - delta, Mp], and no decimal of that length lies closer
      to W. */
  method DigitGen(w: Word64, mp: Word64, s: nat, delta: Word64, buffer: array<Byte>, K: int)
      returns (len: nat, K': int)
    requires 32 <= s <= 60 && 1 <= mp / Pow(2, s) < 1_000_000_000
    requires 0 < delta < mp && mp - delta <= w <= mp
    requires 21 <= buffer.Length
    modifies buffer
    ensures 1 <= len <= 21 && Generated(buffer[..len], K' - K, Pow(2, s), w, mp, delta)
  {
    PowersOfTwo();
    PowMonotone(2, 32, s);
    PowMonotone(2, s, 60);
    var one := Pow(2, s);
    var kappa, done, p2;
    len, kappa, done, p2 := IntegralDigits(w, mp, delta, one, buffer);
    if !done {
      len, kappa := FractionalDigits(w, mp, delta, one, buffer, len, p2);
    }
    K' := K + kappa;
  }
}
