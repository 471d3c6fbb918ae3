/** JSON Pointers as values: what the parse and stringify routines of pointer.h compute. */
module PointerSpec {
  import opened Bytes
  import opened ReaderSpec
  import opened Decimals
  import opened Powers
  import Utf8

  const HASH: int := 0x23
  const PERCENT: int := 0x25
  const TILDE: int := 0x7E

  const INVALID_INDEX: int := 0xFFFF_FFFF

  /** A name, and the array index it reads as; INVALID_INDEX when it is none. */
  datatype Token = Token(name: seq<Byte>, index: int)

  datatype PointerError =
    | TokenMustBeginWithSolidus
    | InvalidEscape
    | InvalidPercentEncoding
    | CharacterMustPercentEncode

  datatype ParseResult =
    | Pointer(tokens: seq<Token>)
    | Rejected(error: PointerError, offset: nat)

  // -----------------------------------------------------------------------------------------------
  // Indices
  // -----------------------------------------------------------------------------------------------

  /** Only digits, at least one, and no leading zero but in "0" itself. */
  ghost predicate IsNumeric(name: seq<Byte>) {
    name != [] && AllDigits(name) && (|name| > 1 ==> name[0] != ZERO)
  }

  /** The conversion loop: 32-bit arithmetic that wraps around, given up when the number seems to shrink. */
  ghost function Convert(digits: seq<Byte>): (r: Option<nat>)
    requires AllDigits(digits)
    ensures r.Some? ==> r.value < UINT32_BOUND
  {
    if digits == [] then Some(0) else
    var last := |digits| - 1;
    match Convert(digits[..last])
    case None => None
    case Some(n) =>
      var m := (n * 10 + (digits[last] - ZERO)) % UINT32_BOUND;
      if m < n then None else Some(m)
  }

  ghost function IndexOf(name: seq<Byte>): (index: int)
    ensures 0 <= index <= INVALID_INDEX
  {
    if IsNumeric(name) && Convert(name).Some? then Convert(name).value else INVALID_INDEX
  }

  /** The number modulo 2^32 becomes smaller when the j-th digit is appended. */
  ghost predicate ShrinksAt(digits: seq<Byte>, j: nat)
    requires AllDigits(digits) && j < |digits|
  {
    DecimalValue(digits[..j + 1]) % UINT32_BOUND < DecimalValue(digits[..j]) % UINT32_BOUND
  }

  ghost predicate Shrinks(digits: seq<Byte>)
    requires AllDigits(digits)
  {
    exists j :: 0 <= j < |digits| && ShrinksAt(digits, j)
  }

  lemma ShrinksLater(digits: seq<Byte>)
    requires AllDigits(digits) && digits != []
    ensures Shrinks(digits) <==> Shrinks(digits[..|digits| - 1]) || ShrinksAt(digits, |digits| - 1)
  {
    hide DecimalValue;
    var front := digits[..|digits| - 1];
    forall j | 0 <= j < |front|
      ensures ShrinksAt(digits, j) <==> ShrinksAt(front, j)
    {
      assert digits[..j + 1] == front[..j + 1] && digits[..j] == front[..j];
    }
    if Shrinks(front) {
      var j :| 0 <= j < |front| && ShrinksAt(front, j);
      assert ShrinksAt(digits, j);
    }
  }

  lemma FirstAndLast(digits: seq<Byte>)
    requires AllDigits(digits)
    ensures digits == [] ==> DecimalValue(digits) == 0 && !Shrinks(digits)
    ensures digits != [] ==>
      DecimalValue(digits) == DecimalValue(digits[..|digits| - 1]) * 10 + (digits[|digits| - 1] - ZERO)
  {
  }

  /** The loop notices exactly those overflows that make the wrapped number smaller. */
  lemma {:induction false} ConvertWraps(digits: seq<Byte>)
    requires AllDigits(digits)
    ensures Convert(digits).None? <==> Shrinks(digits)
    ensures Convert(digits).Some? ==> Convert(digits).value == DecimalValue(digits) % UINT32_BOUND
  {
    hide Shrinks, DecimalValue;
    FirstAndLast(digits);
    if digits != [] {
      var last := |digits| - 1;
      ConvertWraps(digits[..last]);
      ShrinksLater(digits);
      assert digits[..last + 1] == digits;
      WrapStep(DecimalValue(digits[..last]), digits[last] - ZERO);
    }
  }

  lemma WrapStep(v: nat, d: nat)
    ensures (v % UINT32_BOUND * 10 + d) % UINT32_BOUND == (v * 10 + d) % UINT32_BOUND
  {
    var q := v / UINT32_BOUND;
    assert v * 10 + d == v % UINT32_BOUND * 10 + d + (q * 10) * UINT32_BOUND;
    RemainderShift(v % UINT32_BOUND * 10 + d, q * 10);
  }

  lemma {:induction false} RemainderShift(x: int, k: nat)
    ensures (x + k * UINT32_BOUND) % UINT32_BOUND == x % UINT32_BOUND
  {
    if k > 0 {
      RemainderShift(x, k - 1);
      assert (x + k * UINT32_BOUND) == (x + (k - 1) * UINT32_BOUND) + UINT32_BOUND;
    }
  }

  /** The index that RFC 6901 means: the number if 32 bits hold it and it is not the reserved one. */
  ghost function IdealIndex(name: seq<Byte>): int {
    if IsNumeric(name) && DecimalValue(name) < UINT32_BOUND then DecimalValue(name) else INVALID_INDEX
  }

  /** A number that 32 bits hold never shrinks on the way. */
  lemma {:induction false} SmallNeverShrinks(digits: seq<Byte>)
    requires AllDigits(digits) && DecimalValue(digits) < UINT32_BOUND
    ensures !Shrinks(digits)
  {
    hide Shrinks, DecimalValue;
    FirstAndLast(digits);
    if digits != [] {
      SmallNeverShrinks(digits[..|digits| - 1]);
      ShrinksLater(digits);
      assert digits[..|digits|] == digits;
    }
  }

  /** The index is the one that is meant if and only if the number fits, or its overflow shows as a decrease
      at some digit, or it wraps around to the reserved index. */
  lemma IndexIsIdealExactlyWhen(name: seq<Byte>)
    requires IsNumeric(name)
    ensures IndexOf(name) == IdealIndex(name) <==>
              || DecimalValue(name) < UINT32_BOUND
              || Shrinks(name)
              || DecimalValue(name) % UINT32_BOUND == INVALID_INDEX
  {
    hide Shrinks, DecimalValue;
    ConvertWraps(name);
    if DecimalValue(name) < UINT32_BOUND {
      SmallNeverShrinks(name);
    }
  }

  /** Up to nine digits there is no doubt. */
  lemma ShortIndexIsIdeal(name: seq<Byte>)
    requires |name| <= 9
    ensures IndexOf(name) == IdealIndex(name)
  {
    hide DecimalValue, Shrinks, Convert;
    if IsNumeric(name) {
      DecimalValueBound(name);
      PowersOfTen();
      PowMonotone(10, |name|, 9);
      IndexIsIdealExactlyWhen(name);
    }
  }

  /** A reference token whose overflow is missed: 10000000000 is taken for the index 1410065408. */
  lemma OverflowGetsLost()
    ensures var name: seq<Byte> := [0x31, 0x30, 0x30, 0x30, 0x30, 0x30, 0x30, 0x30, 0x30, 0x30, 0x30];
            IsNumeric(name) && IndexOf(name) == 1410065408 && IdealIndex(name) == INVALID_INDEX
  {
    var name: seq<Byte> := [0x31, 0x30, 0x30, 0x30, 0x30, 0x30, 0x30, 0x30, 0x30, 0x30, 0x30];
    hide DecimalValue, Shrinks;
    OneAndZeros(name);
    OneAndZeros(name[..10]);
    SmallNeverShrinks(name[..10]);
    ConvertWraps(name[..10]);
    assert Pow(10, 9) == 1_000_000_000 && Pow(10, 10) == 10_000_000_000 by {
      PowersOfTen();
      assert Pow(10, 10) == 10 * Pow(10, 9);
    }
  }

  lemma {:induction false} OneAndZeros(s: seq<Byte>)
    requires s != [] && s[0] == 0x31 && forall i :: 1 <= i < |s| ==> s[i] == ZERO
    ensures DecimalValue(s) == Pow(10, |s| - 1)
  {
    var front := s[..|s| - 1];
    if |s| == 1 {
      assert DecimalValue(s) == DecimalValue([]) * 10 + 1;
    } else {
      OneAndZeros(front);
    }
  }

  // -----------------------------------------------------------------------------------------------
  // Parsing
  // -----------------------------------------------------------------------------------------------

  /** Everything but the unreserved characters of section 2.3 of RFC 3986. */
  predicate NeedPercentEncode(c: Byte) {
    !(IsDigit(c) || 0x41 <= c <= 0x5A || 0x61 <= c <= 0x7A || c == MINUS || c == DOT || c == 0x5F || c == TILDE)
  }

  /** The triplet %XY at `i`, if there is one. */
  function Triplet(t: seq<Byte>, i: nat): (r: Option<Byte>)
    ensures r.Some? ==> i + 3 <= |t|
  {
    if i + 3 <= |t| && t[i] == PERCENT && IsHexDigit(t[i + 1]) && IsHexDigit(t[i + 2]) then
      Some(HexDigitValue(t[i + 1]) * 0x10 + HexDigitValue(t[i + 2]))
    else
      None
  }

  /** Up to `limit` bytes written as consecutive triplets. */
  function Triplets(t: seq<Byte>, i: nat, limit: nat): (s: seq<Byte>)
    ensures |s| <= limit && (s != [] ==> i + 3 * |s| <= |t|)
    decreases limit
  {
    if limit == 0 || Triplet(t, i).None? then [] else [Triplet(t, i).value] + Triplets(t, i + 3, limit - 1)
  }

  /** What one turn of the inner loop makes of the source: bytes of the name, or an error. */
  datatype Piece =
    | Piece(bytes: seq<Byte>, next: nat)
    | BadPiece(error: PointerError, offset: nat)

  /** "~0" stands for a tilde and "~1" for a solidus; `c` has been read, `i` is behind it. */
  function Unescaped(t: seq<Byte>, i: nat, c: Byte): (r: Piece)
    requires i <= |t|
    ensures r.Piece? ==> i <= r.next <= |t|
  {
    if c != TILDE then Piece([c], i)
    else if At(t, i) == ZERO then Piece([TILDE], i + 1)
    else if At(t, i) == 0x31 then Piece([SLASH], i + 1)
    else BadPiece(InvalidEscape, i)
  }

  function NextPiece(t: seq<Byte>, i: nat, uriFragment: bool): (r: Piece)
    requires i < |t|
    ensures r.Piece? ==> i < r.next <= |t|
  {
    if uriFragment && t[i] == PERCENT then
      var bytes := Triplets(t, i, 4);
      var n := Utf8.CharLength(bytes);
      if n == 0 then BadPiece(InvalidPercentEncoding, i)
      else if n == 1 then Unescaped(t, i + 3, bytes[0])
      else Piece(bytes[..n], i + 3 * n)
    else if uriFragment && NeedPercentEncode(t[i]) then
      BadPiece(CharacterMustPercentEncode, i)
    else
      Unescaped(t, i + 1, t[i])
  }

  datatype NameResult =
    | Name(bytes: seq<Byte>, end: nat)
    | BadName(error: PointerError, offset: nat)

  /** The inner loop: a name up to the next solidus. */
  function ParseName(t: seq<Byte>, i: nat, uriFragment: bool, name: seq<Byte>): (r: NameResult)
    requires i <= |t|
    ensures r.Name? ==> i <= r.end <= |t| && (r.end == |t| || t[r.end] == SLASH)
    decreases |t| - i
  {
    if i == |t| || t[i] == SLASH then Name(name, i) else
    match NextPiece(t, i, uriFragment)
    case Piece(bytes, next) => ParseName(t, next, uriFragment, name + bytes)
    case BadPiece(error, offset) => BadName(error, offset)
  }

  /** The outer loop. */
  ghost function ParseTokens(t: seq<Byte>, i: nat, uriFragment: bool, tokens: seq<Token>): ParseResult
    requires i <= |t| && (i == |t| || t[i] == SLASH)
    decreases |t| - i
  {
    if i == |t| then Pointer(tokens) else
    match ParseName(t, i + 1, uriFragment, [])
    case Name(bytes, end) => ParseTokens(t, end, uriFragment, tokens + [Token(bytes, IndexOf(bytes))])
    case BadName(error, offset) => Rejected(error, offset)
  }

  ghost function Parse(t: seq<Byte>): ParseResult {
    var uriFragment := At(t, 0) == HASH;
    var i := if uriFragment then 1 else 0;
    if i != |t| && At(t, i) != SLASH then Rejected(TokenMustBeginWithSolidus, i)
    else ParseTokens(t, i, uriFragment, [])
  }

  // -----------------------------------------------------------------------------------------------
  // Stringifying
  // -----------------------------------------------------------------------------------------------

  function PercentEncode(s: seq<Byte>): (r: seq<Byte>)
    ensures |r| == 3 * |s|
  {
    if s == [] then [] else [PERCENT, HexDigit(s[0] / 16), HexDigit(s[0] % 16)] + PercentEncode(s[1..])
  }

  /** How much of the name one turn of the loop prints: one byte, or one UTF-8 character; 0 if it is none. */
  function PieceLength(name: seq<Byte>, uriFragment: bool): (n: nat)
    requires name != []
    ensures n <= |name|
  {
    if uriFragment && NeedPercentEncode(name[0]) && name[0] != SLASH then Utf8.CharLength(name) else 1
  }

  function PieceText(piece: seq<Byte>, uriFragment: bool): (s: seq<Byte>)
    requires piece != []
  {
    if piece[0] == TILDE then [TILDE, ZERO]
    else if piece[0] == SLASH then [TILDE, 0x31]
    else if uriFragment && NeedPercentEncode(piece[0]) then PercentEncode(piece)
    else [piece[0]]
  }

  function NameText(name: seq<Byte>, uriFragment: bool): Option<seq<Byte>> {
    if name == [] then Some([]) else
    var n := PieceLength(name, uriFragment);
    if n == 0 then None else
    match NameText(name[n..], uriFragment)
    case None => None
    case Some(rest) => Some(PieceText(name[..n], uriFragment) + rest)
  }

  function TokensText(tokens: seq<Token>, uriFragment: bool): Option<seq<Byte>> {
    if tokens == [] then Some([]) else
    match NameText(tokens[0].name, uriFragment)
    case None => None
    case Some(first) =>
      match TokensText(tokens[1..], uriFragment)
      case None => None
      case Some(rest) => Some([SLASH] + first + rest)
  }

  /** Stringify: the text of a pointer, or nothing when a name cannot be put into a URI. */
  function Stringify(tokens: seq<Token>, uriFragment: bool): Option<seq<Byte>> {
    match TokensText(tokens, uriFragment)
    case None => None
    case Some(text) => Some((if uriFragment then [HASH] else []) + text)
  }
}
