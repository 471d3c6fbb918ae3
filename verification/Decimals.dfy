/** Facts about the numbers that decimal digits write. */
module Decimals {
  import opened Bytes
  import opened Powers

  lemma FirstDigit(t: seq<Byte>, s: nat)
    requires s < |t| && IsDigit(t[s])
    ensures AllDigits(t[s..s + 1]) && DecimalValue(t[s..s + 1]) == t[s] - ZERO
  {
    assert t[s..s + 1] == [t[s]];
    assert DecimalValue([t[s]]) == DecimalValue([]) * 10 + (t[s] - ZERO);
  }

  lemma AppendDigit(t: seq<Byte>, s: nat, p: nat)
    requires s <= p < |t| && AllDigits(t[s..p]) && IsDigit(t[p])
    ensures AllDigits(t[s..p + 1])
    ensures DecimalValue(t[s..p + 1]) == DecimalValue(t[s..p]) * 10 + (t[p] - ZERO)
  {
    assert t[s..p + 1] == t[s..p] + [t[p]];
  }

  /** More digits make no smaller number. */
  lemma {:induction false} DigitsGrow(t: seq<Byte>, q: nat, k: nat, e: nat)
    requires q <= k <= e <= |t| && AllDigits(t[q..k])
    requires forall j :: k <= j < e ==> IsDigit(t[j])
    ensures AllDigits(t[q..e]) && DecimalValue(t[q..k]) <= DecimalValue(t[q..e])
    ensures k < e ==> DecimalValue(t[q..k]) * 10 + (t[k] - ZERO) <= DecimalValue(t[q..e])
    decreases e - k
  {
    assert forall j :: q <= j < k ==> t[j] == t[q..k][j - q];
    if k < e {
      assert t[q..k + 1] == t[q..k] + [t[k]];
      DigitsGrow(t, q, k + 1, e);
    }
  }

  lemma {:induction false} DecimalValueBound(s: seq<Byte>)
    requires AllDigits(s)
    ensures DecimalValue(s) < Pow(10, |s|)
  {
    if s != [] {
      DecimalValueBound(s[..|s| - 1]);
    }
  }

  lemma Horner(v: int, p: int, x: int, d: int)
    ensures (v * p + x) * 10 + d == v * (10 * p) + (x * 10 + d)
  {
  }

  /** Digits appended to digits: the number so far is scaled by a power of ten. */
  lemma {:induction false} DecimalConcat(s: seq<Byte>, begin: nat, end: nat)
    requires begin <= end <= |s| && AllDigits(s)
    ensures DecimalValue(s[..end]) == DecimalValue(s[..begin]) * Pow(10, end - begin) + DecimalValue(s[begin..end])
    decreases end
  {
    if begin < end {
      DecimalConcat(s, begin, end - 1);
      assert s[..end][..end - 1] == s[..end - 1];
      assert s[begin..end][..end - begin - 1] == s[begin..end - 1];
      Horner(DecimalValue(s[..begin]), Pow(10, end - 1 - begin), DecimalValue(s[begin..end - 1]), s[end - 1] - ZERO);
    } else {
      assert s[begin..end] == [];
    }
  }

  /** The decimal digits of a number, without leading zeros (u32toa and u64toa). */
  function Digits(n: nat): (s: seq<Byte>)
    ensures s != [] && AllDigits(s) && DecimalValue(s) == n
    ensures s[0] == ZERO ==> n == 0 && s == [ZERO]
  {
    if n < 10 then
      assert DecimalValue([ZERO + n]) == DecimalValue([]) * 10 + n;
      [ZERO + n]
    else
      var s := Digits(n / 10) + [ZERO + n % 10];
      assert s[..|s| - 1] == Digits(n / 10);
      s
  }

  function IntegerText(i: int): (s: seq<Byte>)
    ensures s != []
  {
    if i < 0 then [MINUS] + Digits(-i) else Digits(i)
  }

  /** Digits are read up to what follows them. */
  lemma DigitsRun(t: seq<Byte>, p: nat, s: seq<Byte>)
    requires Has(t, p, s) && AllDigits(s) && !IsDigit(At(t, p + |s|))
    ensures DigitsEnd(t, p) == p + |s|
  {
    assert forall i :: p <= i < p + |s| ==> t[i] == s[i - p];
    assert DigitsEnd(t, p) <= p + |s|;
  }
}
