/** Bytes, texts and the few character classes that the JSON grammar needs.

    A text is the sequence of bytes before the terminating NUL of a C string; reading at or past its
    end yields that NUL, as `Peek` does on the streams of stream.h. */
module Bytes {
  type Byte = b: int | 0 <= b < 256

  const NUL: int := 0x00
  const TAB: int := 0x09
  const LF: int := 0x0A
  const CR: int := 0x0D
  const SPACE: int := 0x20
  const QUOTE: int := 0x22
  const PLUS: int := 0x2B
  const COMMA: int := 0x2C
  const MINUS: int := 0x2D
  const DOT: int := 0x2E
  const SLASH: int := 0x2F
  const ZERO: int := 0x30
  const NINE: int := 0x39
  const COLON: int := 0x3A
  const UPPER_E: int := 0x45
  const LBRACKET: int := 0x5B
  const BACKSLASH: int := 0x5C
  const RBRACKET: int := 0x5D
  const LOWER_A: int := 0x61
  const LOWER_B: int := 0x62
  const LOWER_E: int := 0x65
  const LOWER_F: int := 0x66
  const LOWER_L: int := 0x6C
  const LOWER_N: int := 0x6E
  const LOWER_R: int := 0x72
  const LOWER_S: int := 0x73
  const LOWER_T: int := 0x74
  const LOWER_U: int := 0x75
  const LBRACE: int := 0x7B
  const RBRACE: int := 0x7D

  /** The byte under the cursor; the terminating NUL from the end of the text on. */
  function At(t: seq<Byte>, p: nat): Byte {
    if p < |t| then t[p] else 0
  }

  predicate IsWhitespace(c: Byte) {
    c == SPACE || c == LF || c == CR || c == TAB
  }

  predicate IsDigit(c: Byte) {
    ZERO <= c <= NINE
  }

  /** SkipWhitespace of reader.h: the first position at or after `p` that holds no whitespace. */
  function SkipWs(t: seq<Byte>, p: nat): (q: nat)
    requires p <= |t|
    ensures p <= q <= |t|
    ensures !IsWhitespace(At(t, q))
    ensures forall k :: p <= k < q ==> IsWhitespace(t[k])
    decreases |t| - p
  {
    if p < |t| && IsWhitespace(t[p]) then SkipWs(t, p + 1) else p
  }

  /** The end of the maximal run of decimal digits that starts at `p`. */
  function DigitsEnd(t: seq<Byte>, p: nat): (q: nat)
    requires p <= |t|
    ensures p <= q <= |t|
    ensures !IsDigit(At(t, q))
    ensures forall k :: p <= k < q ==> IsDigit(t[k])
    decreases |t| - p
  {
    if p < |t| && IsDigit(t[p]) then DigitsEnd(t, p + 1) else p
  }

  lemma DigitsEndNext(t: seq<Byte>, p: nat)
    requires p <= |t|
    ensures if IsDigit(At(t, p)) then p < |t| && DigitsEnd(t, p) == DigitsEnd(t, p + 1) else DigitsEnd(t, p) == p
  {
  }

  ghost predicate AllDigits(s: seq<Byte>) {
    forall k :: 0 <= k < |s| ==> IsDigit(s[k])
  }

  /** The number written by a string of decimal digits. */
  function DecimalValue(s: seq<Byte>): (v: int)
    requires AllDigits(s)
    ensures 0 <= v
  {
    if s == [] then 0 else DecimalValue(s[..|s| - 1]) * 10 + (s[|s| - 1] - ZERO)
  }

  lemma Associative<T>(a: seq<T>, b: seq<T>, c: seq<T>)
    ensures a + b + c == a + (b + c)
  {
  }

  /** `s` stands in `t` at position `p`. */
  ghost predicate Has(t: seq<Byte>, p: nat, s: seq<Byte>) {
    p + |s| <= |t| && t[p..p + |s|] == s
  }

  lemma HasParts(t: seq<Byte>, p: nat, a: seq<Byte>, b: seq<Byte>)
    requires Has(t, p, a + b)
    ensures Has(t, p, a) && Has(t, p + |a|, b)
  {
    assert t[p..p + |a|] == t[p..p + |a + b|][..|a|];
    assert t[p + |a|..p + |a| + |b|] == t[p..p + |a + b|][|a|..];
  }

  lemma HasAt(t: seq<Byte>, p: nat, s: seq<Byte>, k: nat)
    requires Has(t, p, s) && k < |s|
    ensures At(t, p + k) == t[p + k] == s[k]
  {
    assert t[p..p + |s|][k] == s[k];
  }

  lemma HasOne(t: seq<Byte>, p: nat)
    requires p < |t|
    ensures Has(t, p, [t[p]])
  {
  }

  lemma HasBoth(t: seq<Byte>, p: nat, a: seq<Byte>, b: seq<Byte>)
    requires Has(t, p, a) && Has(t, p + |a|, b)
    ensures Has(t, p, a + b)
  {
    var n := p + |a|;
    assert t[p..n + |b|] == t[p..n] + t[n..n + |b|];
  }

  lemma HasIs(t: seq<Byte>, p: nat, s: seq<Byte>)
    requires Has(t, p, s)
    ensures p + |s| <= |t| && t[p..p + |s|] == s
  {
  }

  lemma HasNothing(t: seq<Byte>, p: nat)
    requires p <= |t|
    ensures Has(t, p, [])
  {
  }

  predicate IsHexDigit(c: Byte) {
    || 0x30 <= c <= 0x39
    || 0x41 <= c <= 0x46
    || 0x61 <= c <= 0x66
  }

  function HexDigitValue(c: Byte): (v: nat)
    requires IsHexDigit(c)
    ensures v < 16
  {
    if c <= 0x39 then c - 0x30 else if c <= 0x46 then c - 0x41 + 10 else c - 0x61 + 10
  }

  function HexDigit(n: nat): Byte
    requires n < 16
  {
    if n < 10 then 0x30 + n else 0x41 + n - 10
  }

  lemma HexDigitsRead(c: Byte)
    ensures IsHexDigit(HexDigit(c / 16)) && IsHexDigit(HexDigit(c % 16))
    ensures HexDigitValue(HexDigit(c / 16)) * 0x10 + HexDigitValue(HexDigit(c % 16)) == c
  {
  }
}
