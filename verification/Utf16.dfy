/** The UTF-16 codec of encodings.h, and the Transcoder between it and UTF-8. */
module Utf16 {
  import opened Bits
  import opened Powers
  import Bytes
  import Utf8

  type Unit = u: int | 0 <= u < 0x1_0000

  /** One unit, or the surrogate pair of section 2.1 of RFC 2781. */
  function Encode(cp: nat): (s: seq<Unit>)
    requires Utf8.IsScalar(cp)
    ensures 1 <= |s| <= 2
  {
    if cp <= 0xFFFF then [cp] else [0xD800 + (cp - 0x10000) / 0x400, 0xDC00 + (cp - 0x10000) % 0x400]
  }

  /** How many units the character has that `s` begins with; 0 when a surrogate stands without its partner. */
  function CharLength(s: seq<Unit>): (n: nat)
    ensures n <= |s| && n <= 2
  {
    if |s| >= 1 && (s[0] < 0xD800 || s[0] > 0xDFFF) then 1
    else if |s| >= 2 && s[0] <= 0xDBFF && 0xDC00 <= s[1] <= 0xDFFF then 2
    else 0
  }

  function CodePoint(s: seq<Unit>): nat
    requires CharLength(s) > 0
  {
    if CharLength(s) == 1 then s[0] else 0x10000 + Offset(s[0], 0xD800) * 0x400 + Offset(s[1], 0xDC00)
  }

  function Offset(u: Unit, base: int): int {
    u - base
  }

  lemma EncodingIsWellFormed(cp: nat, rest: seq<Unit>)
    requires Utf8.IsScalar(cp)
    ensures CharLength(Encode(cp) + rest) == |Encode(cp)| && CodePoint(Encode(cp) + rest) == cp
  {
  }

  lemma WellFormedIsEncoding(s: seq<Unit>)
    requires CharLength(s) > 0
    ensures Utf8.IsScalar(CodePoint(s)) && s[..CharLength(s)] == Encode(CodePoint(s))
  {
    if CharLength(s) == 2 {
      Joined(s[0] - 0xD800, s[1] - 0xDC00);
    }
  }

  lemma Joined(high: nat, low: nat)
    requires low < 0x400
    ensures (high * 0x400 + low) / 0x400 == high && (high * 0x400 + low) % 0x400 == low
  {
  }

  // -----------------------------------------------------------------------------------------------
  // Strings
  // -----------------------------------------------------------------------------------------------

  function EncodeAll(cps: seq<nat>): seq<Unit>
    requires Utf8.AllScalars(cps)
  {
    if cps == [] then [] else Encode(cps[0]) + EncodeAll(cps[1..])
  }

  ghost predicate IsUtf16(s: seq<Unit>) {
    s == [] || (CharLength(s) > 0 && IsUtf16(s[CharLength(s)..]))
  }

  function DecodeAll(s: seq<Unit>): seq<nat>
    requires IsUtf16(s)
  {
    if s == [] then [] else [CodePoint(s)] + DecodeAll(s[CharLength(s)..])
  }

  lemma {:induction false} DecodeOfEncode(cps: seq<nat>)
    requires Utf8.AllScalars(cps)
    ensures IsUtf16(EncodeAll(cps)) && DecodeAll(EncodeAll(cps)) == cps
  {
    hide Encode, CharLength, CodePoint;
    if cps != [] {
      var first, rest := Encode(cps[0]), EncodeAll(cps[1..]);
      EncodingIsWellFormed(cps[0], rest);
      DecodeOfEncode(cps[1..]);
      assert (first + rest)[|first|..] == rest;
    }
  }

  lemma {:induction false} EncodeOfDecode(s: seq<Unit>)
    requires IsUtf16(s)
    ensures Utf8.AllScalars(DecodeAll(s)) && EncodeAll(DecodeAll(s)) == s
  {
    hide Encode, CharLength, CodePoint;
    if s != [] {
      var n := CharLength(s);
      WellFormedIsEncoding(s);
      EncodeOfDecode(s[n..]);
      assert DecodeAll(s)[1..] == DecodeAll(s[n..]);
      assert s == s[..n] + s[n..];
    }
  }

  /** A well-formed UTF-8 string is the same after a detour through UTF-16. */
  lemma ThereAndBack(s: seq<Bytes.Byte>)
    requires Utf8.IsUtf8(s)
    ensures Utf8.AllScalars(Utf8.DecodeAll(s))
    ensures var wide := EncodeAll(Utf8.DecodeAll(s));
            IsUtf16(wide) && Utf8.AllScalars(DecodeAll(wide)) && Utf8.EncodeAll(DecodeAll(wide)) == s
  {
    Utf8.EncodeOfDecode(s);
    DecodeOfEncode(Utf8.DecodeAll(s));
  }

  /** And a well-formed UTF-16 string is the same after one through UTF-8. */
  lemma BackAndThere(s: seq<Unit>)
    requires IsUtf16(s)
    ensures Utf8.AllScalars(DecodeAll(s))
    ensures var narrow := Utf8.EncodeAll(DecodeAll(s));
            Utf8.IsUtf8(narrow) && Utf8.AllScalars(Utf8.DecodeAll(narrow)) && EncodeAll(Utf8.DecodeAll(narrow)) == s
  {
    EncodeOfDecode(s);
    Utf8.DecodeOfEncode(DecodeAll(s));
  }

  // -----------------------------------------------------------------------------------------------
  // The bit formulas
  // -----------------------------------------------------------------------------------------------

  lemma Masked(a: nat)
    ensures And(a, 0x3FF) == a % 0x400
  {
    assert Pow(2, 5) == 0x20;
    PowAdd(2, 5, 5);
    AndMask(a, 10);
  }

  /** The two tags have no bit below the tenth. */
  lemma Tagged(tag: nat, x: nat)
    requires (tag == 0xD800 || tag == 0xDC00) && x < 0x400
    ensures Or(x, tag) == tag + x
  {
    hide Or;
    assert Pow(2, 5) == 0x20;
    PowAdd(2, 5, 5);
    OrCommutes(x, tag);
    OrBeside(if tag == 0xD800 then 54 else 55, x, 10);
  }

  /** UTF16::Encode as it is written. */
  method PutCodePoint(cp: nat) returns (out: seq<Unit>)
    requires Utf8.IsScalar(cp)
    ensures out == Encode(cp)
  {
    hide And, Or;
    if cp <= 0xFFFF {
      out := [cp];
    } else {
      var v := cp - 0x10000;
      Masked(v);
      Tagged(0xD800, v / 0x400);
      Tagged(0xDC00, v % 0x400);
      out := [Or(v / 0x400, 0xD800), Or(And(v, 0x3FF), 0xDC00)];
    }
  }

  function At(s: seq<Unit>, i: nat): Unit {
    if i < |s| then s[i] else 0
  }

  /** UTF16::Decode as it is written. */
  method Decode(s: seq<Unit>) returns (ok: bool, codepoint: nat, taken: nat)
    ensures ok <==> CharLength(s + [0]) > 0
    ensures ok ==> codepoint == CodePoint(s + [0]) && taken == CharLength(s + [0])
  {
    hide And, Or;
    var c := At(s, 0);
    if c < 0xD800 || c > 0xDFFF {
      return true, c, 1;
    }
    if c > 0xDBFF {
      return false, 0, 1;
    }
    Masked(c);
    codepoint := And(c, 0x3FF) * 0x400;
    ghost var high := c;
    c := At(s, 1);
    Masked(c);
    Beside(high % 0x400, c % 0x400);
    codepoint := Or(codepoint, And(c, 0x3FF));
    codepoint := codepoint + 0x10000;
    ok, taken := 0xDC00 <= c <= 0xDFFF, 2;
  }

  lemma Beside(high: nat, low: nat)
    requires low < 0x400
    ensures Or(high * 0x400, low) == high * 0x400 + low
  {
    assert Pow(2, 5) == 0x20;
    PowAdd(2, 5, 5);
    OrBeside(high, low, 10);
  }

  /** Transcoder<UTF8, UTF16>::Transcode: one character from the one stream to the other. */
  method TranscodeToUtf16(s: seq<Bytes.Byte>) returns (ok: bool, out: seq<Unit>, taken: nat)
    ensures ok <==> Utf8.CharLength(s + [Bytes.NUL]) > 0
    ensures ok ==> taken == Utf8.CharLength(s + [Bytes.NUL]) && Utf8.IsScalar(Utf8.CodePoint(s + [Bytes.NUL]))
                   && out == Encode(Utf8.CodePoint(s + [Bytes.NUL]))
  {
    hide Utf8.CharLength, Utf8.CodePoint, Encode;
    var codepoint;
    ok, codepoint, taken := Utf8.Decode(s);
    if !ok {
      return false, [], taken;
    }
    Utf8.WellFormedIsEncoding(s + [Bytes.NUL]);
    out := PutCodePoint(codepoint);
  }

  /** Transcoder<UTF16, UTF8>::Transcode. */
  method TranscodeToUtf8(s: seq<Unit>) returns (ok: bool, out: seq<Bytes.Byte>, taken: nat)
    ensures ok <==> CharLength(s + [0]) > 0
    ensures ok ==> taken == CharLength(s + [0]) && Utf8.IsScalar(CodePoint(s + [0]))
                   && out == Utf8.Encode(CodePoint(s + [0]))
  {
    hide CharLength, CodePoint, Utf8.Encode;
    var codepoint;
    ok, codepoint, taken := Decode(s);
    if !ok {
      return false, [], taken;
    }
    WellFormedIsEncoding(s + [0]);
    out := Utf8.PutCodePoint(codepoint);
  }
}
