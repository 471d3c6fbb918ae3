/** The UTF-8 codec of encodings.h against RFC 3629.

    The grammar of section 4 of that standard and the encoding of section 3 are the reference;
    the range table and the bit masks of the source are proved to accept and produce the same bytes. */
module Utf8 {
  import opened Bits
  import opened Bytes
  import opened Powers

  /** Unicode scalar values: every code point but the surrogates. */
  predicate IsScalar(cp: nat) {
    cp <= 0x10FFFF && !(0xD800 <= cp <= 0xDFFF)
  }

  /** Section 3: one to four bytes, six payload bits in every byte but the first. */
  function Encode(cp: nat): (s: seq<Byte>)
    requires cp <= 0x10FFFF
    ensures 1 <= |s| <= 4
  {
    if cp <= 0x7F then
      [cp]
    else if cp <= 0x7FF then
      [0xC0 + cp / 0x40, 0x80 + cp % 0x40]
    else if cp <= 0xFFFF then
      [0xE0 + cp / 0x1000, 0x80 + cp / 0x40 % 0x40, 0x80 + cp % 0x40]
    else
      [0xF0 + cp / 0x40000, 0x80 + cp / 0x1000 % 0x40, 0x80 + cp / 0x40 % 0x40, 0x80 + cp % 0x40]
  }

  predicate IsTail(b: Byte) {
    0x80 <= b <= 0xBF
  }

  /** The second byte after this first one, where section 4 admits less than every tail byte. */
  predicate IsSecond(first: Byte, b: Byte) {
    if first == 0xE0 then 0xA0 <= b <= 0xBF
    else if first == 0xED then 0x80 <= b <= 0x9F
    else if first == 0xF0 then 0x90 <= b <= 0xBF
    else if first == 0xF4 then 0x80 <= b <= 0x8F
    else IsTail(b)
  }

  /** How many bytes the UTF8-char of section 4 has that `s` begins with; 0 when it begins with none. */
  function CharLength(s: seq<Byte>): (n: nat)
    ensures n <= |s| && n <= 4
  {
    if |s| >= 1 && s[0] <= 0x7F then 1
    else if |s| >= 2 && 0xC2 <= s[0] <= 0xDF && IsTail(s[1]) then 2
    else if |s| >= 3 && 0xE0 <= s[0] <= 0xEF && IsSecond(s[0], s[1]) && IsTail(s[2]) then 3
    else if |s| >= 4 && 0xF0 <= s[0] <= 0xF4 && IsSecond(s[0], s[1]) && IsTail(s[2]) && IsTail(s[3]) then 4
    else 0
  }

  /** The payload bits of the UTF8-char that `s` begins with. */
  function CodePoint(s: seq<Byte>): nat
    requires CharLength(s) > 0
  {
    if CharLength(s) == 1 then s[0]
    else if CharLength(s) == 2 then Payload(s[0], 0xC0) * 0x40 + Payload(s[1], 0x80)
    else if CharLength(s) == 3 then
      Payload(s[0], 0xE0) * 0x1000 + Payload(s[1], 0x80) * 0x40 + Payload(s[2], 0x80)
    else
      Payload(s[0], 0xF0) * 0x40000 + Payload(s[1], 0x80) * 0x1000 + Payload(s[2], 0x80) * 0x40 + Payload(s[3], 0x80)
  }

  function Payload(b: Byte, tag: int): int {
    b - tag
  }

  /** Every scalar value is encoded by the grammar's bytes, and read back from them whatever follows. */
  lemma EncodingIsWellFormed(cp: nat, rest: seq<Byte>)
    requires IsScalar(cp)
    ensures CharLength(Encode(cp) + rest) == |Encode(cp)| && CodePoint(Encode(cp) + rest) == cp
  {
    Digits64(cp);
  }

  /** The grammar accepts nothing else: its bytes encode a scalar value, the one they denote. */
  lemma WellFormedIsEncoding(s: seq<Byte>)
    requires CharLength(s) > 0
    ensures IsScalar(CodePoint(s)) && s[..CharLength(s)] == Encode(CodePoint(s))
  {
    hide Encode;
    var n := CharLength(s);
    if n == 1 {
      OneByte(s[0]);
    } else if n == 2 {
      TwoBytes(s[0] - 0xC0, s[1] - 0x80);
    } else if n == 3 {
      ThreeBytes(s[0] - 0xE0, s[1] - 0x80, s[2] - 0x80);
    } else {
      FourBytes(s[0] - 0xF0, s[1] - 0x80, s[2] - 0x80, s[3] - 0x80);
    }
  }

  lemma OneByte(x: nat)
    requires x <= 0x7F
    ensures Encode(x) == [x]
  {
  }

  lemma TwoBytes(x: nat, y: nat)
    requires 2 <= x < 0x20 && y < 0x40
    ensures Encode(x * 0x40 + y) == [0xC0 + x, 0x80 + y]
  {
    Joined(x, y);
  }

  lemma ThreeBytes(x: nat, y: nat, z: nat)
    requires x < 0x10 && y < 0x40 && z < 0x40 && x * 0x40 + y >= 0x20
    ensures Encode(x * 0x1000 + y * 0x40 + z) == [0xE0 + x, 0x80 + y, 0x80 + z]
  {
    Joined(x, y);
    Joined(x * 0x40 + y, z);
    Digits64(x * 0x1000 + y * 0x40 + z);
  }

  lemma FourBytes(x: nat, y: nat, z: nat, w: nat)
    requires 0x10 <= x * 0x40 + y < 0x110 && y < 0x40 && z < 0x40 && w < 0x40
    ensures Encode(x * 0x40000 + y * 0x1000 + z * 0x40 + w) == [0xF0 + x, 0x80 + y, 0x80 + z, 0x80 + w]
  {
    Joined(x, y);
    Joined(x * 0x40 + y, z);
    Joined(x * 0x1000 + y * 0x40 + z, w);
    Digits64(x * 0x40000 + y * 0x1000 + z * 0x40 + w);
  }

  lemma Joined(high: nat, low: nat)
    requires low < 0x40
    ensures (high * 0x40 + low) / 0x40 == high && (high * 0x40 + low) % 0x40 == low
  {
  }

  lemma Digits64(cp: nat)
    ensures cp / 0x1000 == cp / 0x40 / 0x40 && cp / 0x40000 == cp / 0x1000 / 0x40
  {
  }

  /** Bytes begin with a character's encoding if and only if the grammar finds that character there. */
  lemma GrammarIsEncoding(s: seq<Byte>, cp: nat)
    requires IsScalar(cp)
    ensures Encode(cp) <= s <==> CharLength(s) > 0 && CodePoint(s) == cp
  {
    hide Encode, CharLength, CodePoint;
    if Encode(cp) <= s {
      EncodingIsWellFormed(cp, s[|Encode(cp)|..]);
      assert s == Encode(cp) + s[|Encode(cp)|..];
    }
    if CharLength(s) > 0 {
      WellFormedIsEncoding(s);
    }
  }

  // -----------------------------------------------------------------------------------------------
  // Strings
  // -----------------------------------------------------------------------------------------------

  ghost predicate AllScalars(cps: seq<nat>) {
    forall i :: 0 <= i < |cps| ==> IsScalar(cps[i])
  }

  function EncodeAll(cps: seq<nat>): seq<Byte>
    requires AllScalars(cps)
  {
    if cps == [] then [] else Encode(cps[0]) + EncodeAll(cps[1..])
  }

  /** The string of UTF8-chars that `s` is, if it is one. */
  ghost predicate IsUtf8(s: seq<Byte>) {
    s == [] || (CharLength(s) > 0 && IsUtf8(s[CharLength(s)..]))
  }

  function DecodeAll(s: seq<Byte>): seq<nat>
    requires IsUtf8(s)
  {
    if s == [] then [] else [CodePoint(s)] + DecodeAll(s[CharLength(s)..])
  }

  /** Encoding a string of scalar values and decoding the bytes is the identity. */
  lemma {:induction false} DecodeOfEncode(cps: seq<nat>)
    requires AllScalars(cps)
    ensures IsUtf8(EncodeAll(cps)) && DecodeAll(EncodeAll(cps)) == cps
  {
    hide Encode, CharLength, CodePoint;
    if cps != [] {
      var first, rest := Encode(cps[0]), EncodeAll(cps[1..]);
      EncodingIsWellFormed(cps[0], rest);
      DecodeOfEncode(cps[1..]);
      assert (first + rest)[|first|..] == rest;
    }
  }

  /** Decoding well-formed bytes and encoding the characters is the identity too. */
  lemma {:induction false} EncodeOfDecode(s: seq<Byte>)
    requires IsUtf8(s)
    ensures AllScalars(DecodeAll(s)) && EncodeAll(DecodeAll(s)) == s
  {
    hide Encode, CharLength, CodePoint;
    if s != [] {
      var n := CharLength(s);
      WellFormedIsEncoding(s);
      EncodeOfDecode(s[n..]);
      assert DecodeAll(s)[1..] == DecodeAll(s[n..]);
      assert s == s[..n] + s[n..];
    }
  }

  // -----------------------------------------------------------------------------------------------
  // The bit formulas
  // -----------------------------------------------------------------------------------------------

  /** UTF8::Encode as it is written, with shifts, masks and or. */
  method PutCodePoint(cp: nat) returns (out: seq<Byte>)
    requires cp <= 0x10FFFF
    ensures out == Encode(cp)
  {
    hide And, Or;
    if cp <= 0x7F {
      Low(cp, 8);
      out := [And(cp, 0xFF)];
    } else if cp <= 0x7FF {
      out := PutLead(0xC0, cp / 0x40);
      out := PutTail(out, cp);
    } else if cp <= 0xFFFF {
      out := PutLead(0xE0, cp / 0x1000);
      out := PutTail(out, cp / 0x40);
      out := PutTail(out, cp);
    } else {
      out := PutLead(0xF0, cp / 0x40000);
      out := PutTail(out, cp / 0x1000);
      out := PutTail(out, cp / 0x40);
      out := PutTail(out, cp);
    }
  }

  /** A tag and the bits of x, which lie below it. */
  method PutLead(tag: Byte, x: nat) returns (out: seq<Byte>)
    requires (tag == 0xC0 && x < 0x20) || (tag == 0xE0 && x < 0x10) || (tag == 0xF0 && x < 8)
    ensures out == [tag + x]
  {
    hide And, Or;
    Low(x, 8);
    Tagged(tag, if tag == 0xC0 then 3 else tag / 0x10, x);
    out := [Or(tag, And(x, 0xFF))];
  }

  /** The low six bits of x, tagged. */
  method PutTail(os: seq<Byte>, x: nat) returns (out: seq<Byte>)
    ensures out == os + [0x80 + x % 0x40]
  {
    hide And, Or;
    Low(x, 6);
    Tagged(0x80, 2, x % 0x40);
    out := os + [Or(0x80, And(x, 0x3F))];
  }

  lemma Low(a: nat, k: nat)
    requires k == 6 || k == 8
    ensures k == 6 ==> And(a, 0x3F) == a % 0x40
    ensures k == 8 ==> And(a, 0xFF) == a % 0x100
  {
    AndMask(a, k);
    assert Pow(2, 6) == 0x40;
    assert Pow(2, 8) == 0x100;
  }

  /** The tag of a byte and the payload below it. */
  lemma Tagged(tag: nat, high: nat, x: nat)
    requires (tag == high * 0x40 && x < 0x40) || (tag == high * 0x10 && x < 0x10)
    ensures Or(tag, x) == tag + x
  {
    assert Pow(2, 6) == 0x40 && Pow(2, 4) == 0x10;
    if tag == high * 0x40 && x < 0x40 {
      OrBeside(high, x, 6);
    } else {
      OrBeside(high, x, 4);
    }
  }

  // -----------------------------------------------------------------------------------------------
  // The range table
  // -----------------------------------------------------------------------------------------------

  /** GetRange, its table read row by row. */
  function GetRange(c: Byte): Byte {
    if c <= 0x7F then 0
    else if c <= 0x8F then 0x10
    else if c <= 0x9F then 0x40
    else if c <= 0xBF then 0x20
    else if c <= 0xC1 then 8
    else if c <= 0xDF then 2
    else if c == 0xE0 then 10
    else if c <= 0xEC then 3
    else if c == 0xED then 4
    else if c <= 0xEF then 3
    else if c == 0xF0 then 11
    else if c <= 0xF3 then 6
    else if c == 0xF4 then 5
    else 8
  }

  /** RAPIDJSON_TRANS: the masks admit exactly the byte ranges that the grammar names. */
  lemma Transitions(c: Byte)
    ensures And(GetRange(c), 0x70) != 0 <==> IsTail(c)
    ensures And(GetRange(c), 0x50) != 0 <==> IsSecond(0xED, c)
    ensures And(GetRange(c), 0x10) != 0 <==> IsSecond(0xF4, c)
    ensures And(GetRange(c), 0x20) != 0 <==> IsSecond(0xE0, c)
    ensures And(GetRange(c), 0x60) != 0 <==> IsSecond(0xF0, c)
  {
    hide And;
    var r := GetRange(c);
    if c <= 0x7F || c >= 0xC0 {
      NoHighBits(r);
    } else {
      var k := if r == 0x10 then 4 else if r == 0x20 then 5 else 6;
      BitUnderMask(k, 0x70);
      BitUnderMask(k, 0x50);
      BitUnderMask(k, 0x10);
      BitUnderMask(k, 0x20);
      BitUnderMask(k, 0x60);
    }
  }

  /** A type that is a single bit, under a mask. */
  lemma BitUnderMask(k: nat, mask: Byte)
    requires 4 <= k <= 6
    ensures And(if k == 4 then 0x10 else if k == 5 then 0x20 else 0x40, mask) != 0
       <==> mask / (if k == 4 then 0x10 else if k == 5 then 0x20 else 0x40) % 2 == 1
  {
    hide And;
    AndBit(k, mask);
    assert Pow(2, 4) == 0x10 && Pow(2, 5) == 0x20 && Pow(2, 6) == 0x40;
  }

  /** The types of lead bytes share no bit with the masks. */
  lemma NoHighBits(r: Byte)
    requires r < 0x10
    ensures And(r, 0x70) == 0 && And(r, 0x50) == 0 && And(r, 0x10) == 0 && And(r, 0x20) == 0 && And(r, 0x60) == 0
  {
    SharesNothing(r, 7, 4);
    SharesNothing(r, 5, 4);
    SharesNothing(r, 1, 4);
    SharesNothing(r, 2, 4);
    SharesNothing(r, 6, 4);
    assert Pow(2, 4) == 0x10;
  }

  lemma {:induction false} SharesNothing(a: nat, b: nat, k: nat)
    requires a < Pow(2, k)
    ensures And(a, b * Pow(2, k)) == 0
  {
    if k > 0 {
      SharesNothing(a / 2, b, k - 1);
      assert b * Pow(2, k) == 2 * (b * Pow(2, k - 1));
    }
  }

  // -----------------------------------------------------------------------------------------------
  // Decode and Validate
  // -----------------------------------------------------------------------------------------------

  /** The first byte's payload, as the source cuts it out by its type. */
  lemma FirstPayload(c: Byte)
    requires 0xC2 <= c <= 0xF4
    ensures And(0xFF / Pow(2, GetRange(c)), c) == FirstBits(c)
  {
    hide And;
    var range := GetRange(c);
    SmallPowers();
    if range < 8 {
      AndCommutes(0xFF / Pow(2, range), c);
      AndMask(c, 8 - range);
    } else {
      assert 0xFF / Pow(2, range) == 0;
      AndCommutes(0, c);
      AndMask(c, 0);
    }
  }

  lemma SmallPowers()
    ensures Pow(2, 0) == 1 && Pow(2, 1) == 2 && Pow(2, 2) == 4 && Pow(2, 3) == 8 && Pow(2, 4) == 0x10
    ensures Pow(2, 5) == 0x20 && Pow(2, 6) == 0x40 && Pow(2, 8) == 0x100 && Pow(2, 10) == 0x400 && Pow(2, 11) == 0x800
  {
  }

  /** Length and value of the character that a text begins with, read through its cursor. The NUL behind
      the text is the character of the empty one; no other character reaches it. */
  lemma CharacterByBytes(s: seq<Byte>)
    ensures CharLength(s + [NUL]) == LengthOf(At(s, 0), At(s, 1), At(s, 2), At(s, 3))
    ensures CharLength(s + [NUL]) > 0
        ==> CodePoint(s + [NUL]) == ValueOf(CharLength(s + [NUL]), At(s, 0), At(s, 1), At(s, 2), At(s, 3))
  {
    var u := s + [NUL];
    assert forall i: nat :: i < |u| ==> u[i] == At(s, i);
  }

  lemma LongCharacter(s: seq<Byte>)
    ensures CharLength(s) > 1 ==> s[0] >= 0xC2
    ensures s == [] ==> CharLength(s) == 0 && CharLength(s + [NUL]) == 1
  {
  }

  /** The NUL behind a text lengthens no character of it. */
  lemma NulEndsCharacter(s: seq<Byte>)
    requires s != []
    ensures CharLength(s + [NUL]) == CharLength(s)
  {
    assert forall i :: 0 <= i < |s| ==> (s + [NUL])[i] == s[i];
  }

  function LengthOf(a: Byte, b: Byte, c: Byte, d: Byte): nat {
    if a <= 0x7F then 1
    else if 0xC2 <= a <= 0xDF && IsTail(b) then 2
    else if 0xE0 <= a <= 0xEF && IsSecond(a, b) && IsTail(c) then 3
    else if 0xF0 <= a <= 0xF4 && IsSecond(a, b) && IsTail(c) && IsTail(d) then 4
    else 0
  }

  function ValueOf(n: nat, a: Byte, b: Byte, c: Byte, d: Byte): int {
    if n == 1 then a
    else if n == 2 then Payload(a, 0xC0) * 0x40 + b % 0x40
    else if n == 3 then (Payload(a, 0xE0) * 0x40 + b % 0x40) * 0x40 + c % 0x40
    else ((Payload(a, 0xF0) * 0x40 + b % 0x40) * 0x40 + c % 0x40) * 0x40 + d % 0x40
  }

  /** The bytes that a mask admits. */
  predicate Admits(mask: Byte, b: Byte) {
    IsSecond(if mask == 0x10 then 0xF4 else if mask == 0x20 then 0xE0 else if mask == 0x50 then 0xED
             else if mask == 0x60 then 0xF0 else 0, b)
  }

  predicate IsMask(mask: Byte) {
    mask == 0x10 || mask == 0x20 || mask == 0x50 || mask == 0x60 || mask == 0x70
  }

  /** COPY and TRANS of Decode: take a byte, append its six low bits to the code point, check its range. */
  method CopyTrans(s: seq<Byte>, taken: nat, codepoint: nat, mask: Byte, result: bool)
    returns (position: nat, joined: nat, still: bool)
    requires IsMask(mask)
    ensures position == taken + 1 && joined == codepoint * 0x40 + At(s, taken) % 0x40
    ensures still == (result && Admits(mask, At(s, taken)))
  {
    hide And, Or;
    var c := At(s, taken);
    position := taken + 1;
    Low(c, 6);
    assert Pow(2, 6) == 0x40;
    OrBeside(codepoint, c % 0x40, 6);
    joined := Or(codepoint * 0x40, And(c, 0x3F));
    Transitions(c);
    still := result && And(GetRange(c), mask) != 0;
  }

  /** UTF8::Decode: by the type of the first byte, each further byte checked against a mask. */
  method Decode(s: seq<Byte>) returns (ok: bool, codepoint: nat, taken: nat)
    ensures ok <==> CharLength(s + [NUL]) > 0
    ensures ok ==> codepoint == CodePoint(s + [NUL]) && taken == CharLength(s + [NUL])
  {
    hide And, CharLength, CodePoint;
    CharacterByBytes(s);
    var c := At(s, 0);
    taken := 1;
    HighBit(c);
    if And(c, 0x80) == 0 {
      return true, c, 1;
    }
    var range := GetRange(c);
    codepoint := if range >= 32 then 0 else And(0xFF / Pow(2, range), c);
    if 0xC2 <= c <= 0xF4 {
      FirstPayload(c);
    }
    ok, codepoint, taken := DecodeTails(s, range, codepoint);
  }

  /** The switch of Decode. */
  method DecodeTails(s: seq<Byte>, range: Byte, first: nat) returns (ok: bool, codepoint: nat, taken: nat)
    requires At(s, 0) > 0x7F && range == GetRange(At(s, 0))
    requires 0xC2 <= At(s, 0) <= 0xF4 ==> first == FirstBits(At(s, 0))
    ensures ok <==> LengthOf(At(s, 0), At(s, 1), At(s, 2), At(s, 3)) > 0
    ensures ok ==> taken == LengthOf(At(s, 0), At(s, 1), At(s, 2), At(s, 3))
    ensures ok ==> codepoint == ValueOf(taken, At(s, 0), At(s, 1), At(s, 2), At(s, 3))
  {
    hide At;
    ok, codepoint, taken := true, first, 1;
    if range == 2 {
      taken, codepoint, ok := CopyTrans(s, taken, codepoint, 0x70, ok);
    } else if range == 3 {
      taken, codepoint, ok := CopyTrans(s, taken, codepoint, 0x70, ok);
      taken, codepoint, ok := CopyTrans(s, taken, codepoint, 0x70, ok);
    } else if range == 4 {
      taken, codepoint, ok := CopyTrans(s, taken, codepoint, 0x50, ok);
      taken, codepoint, ok := CopyTrans(s, taken, codepoint, 0x70, ok);
    } else if range == 5 {
      taken, codepoint, ok := CopyTrans(s, taken, codepoint, 0x10, ok);
      taken, codepoint, ok := CopyTrans(s, taken, codepoint, 0x70, ok);
      taken, codepoint, ok := CopyTrans(s, taken, codepoint, 0x70, ok);
    } else if range == 6 {
      taken, codepoint, ok := CopyTrans(s, taken, codepoint, 0x70, ok);
      taken, codepoint, ok := CopyTrans(s, taken, codepoint, 0x70, ok);
      taken, codepoint, ok := CopyTrans(s, taken, codepoint, 0x70, ok);
    } else if range == 10 {
      taken, codepoint, ok := CopyTrans(s, taken, codepoint, 0x20, ok);
      taken, codepoint, ok := CopyTrans(s, taken, codepoint, 0x70, ok);
    } else if range == 11 {
      taken, codepoint, ok := CopyTrans(s, taken, codepoint, 0x60, ok);
      taken, codepoint, ok := CopyTrans(s, taken, codepoint, 0x70, ok);
      taken, codepoint, ok := CopyTrans(s, taken, codepoint, 0x70, ok);
    } else {
      ok := false;
    }
  }

  function FirstBits(c: Byte): nat
    requires 0xC2 <= c <= 0xF4
  {
    if c <= 0xDF then c - 0xC0 else if c <= 0xEF then c - 0xE0 else c - 0xF0
  }

  /** UTF8::Validate: the same checks, but the bytes are copied to the output instead of decoded. */
  method Validate(s: seq<Byte>) returns (ok: bool, out: seq<Byte>)
    ensures ok <==> CharLength(s + [NUL]) > 0
    ensures ok ==> out == (s + [NUL])[..CharLength(s + [NUL])]
    ensures 1 <= |out| <= 4
  {
    hide And, CharLength, CodePoint;
    CharacterByBytes(s);
    var c := At(s, 0);
    out := [c];
    HighBit(c);
    if And(c, 0x80) == 0 {
      return true, out;
    }
    var range := GetRange(c);
    ok := true;
    if range == 2 {
      out, ok := PutTrans(s, out, 0x70, ok);
    } else if range == 3 {
      out, ok := PutTrans(s, out, 0x70, ok);
      out, ok := PutTrans(s, out, 0x70, ok);
    } else if range == 4 {
      out, ok := PutTrans(s, out, 0x50, ok);
      out, ok := PutTrans(s, out, 0x70, ok);
    } else if range == 5 {
      out, ok := PutTrans(s, out, 0x10, ok);
      out, ok := PutTrans(s, out, 0x70, ok);
      out, ok := PutTrans(s, out, 0x70, ok);
    } else if range == 6 {
      out, ok := PutTrans(s, out, 0x70, ok);
      out, ok := PutTrans(s, out, 0x70, ok);
      out, ok := PutTrans(s, out, 0x70, ok);
    } else if range == 10 {
      out, ok := PutTrans(s, out, 0x20, ok);
      out, ok := PutTrans(s, out, 0x70, ok);
    } else if range == 11 {
      out, ok := PutTrans(s, out, 0x60, ok);
      out, ok := PutTrans(s, out, 0x70, ok);
      out, ok := PutTrans(s, out, 0x70, ok);
    } else {
      ok := false;
    }
  }

  /** COPY and TRANS of Validate. */
  method PutTrans(s: seq<Byte>, os: seq<Byte>, mask: Byte, result: bool) returns (out: seq<Byte>, still: bool)
    requires IsMask(mask)
    ensures out == os + [At(s, |os|)] && still == (result && Admits(mask, At(s, |os|)))
  {
    hide And, Or;
    var c := At(s, |os|);
    out := os + [c];
    Transitions(c);
    still := result && And(GetRange(c), mask) != 0;
  }

  lemma HighBit(c: Byte)
    ensures And(c, 0x80) == 0 <==> c <= 0x7F
  {
    hide And;
    AndCommutes(c, 0x80);
    assert Pow(2, 7) == 0x80;
    AndBit(7, c);
  }
}
