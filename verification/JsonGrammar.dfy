/** JSON texts after RFC 8259, as concrete syntax trees: every byte of the text, and the events it stands for.
    Bytes are given by their numbers, and nothing of the reader is taken for granted. */
module JsonGrammar {
  import opened Bytes
  import opened Powers
  import opened ReaderSpec
  import Utf8

  /** Section 2: a run of spaces, horizontal tabs, line feeds and carriage returns. */
  ghost predicate IsBlank(s: seq<Byte>) {
    forall k :: 0 <= k < |s| ==> s[k] in {0x20, 0x09, 0x0A, 0x0D}
  }

  // ---------------------------------------------------------------------------------------------
  // Section 7: strings
  // ---------------------------------------------------------------------------------------------

  /** A byte that stands for itself, a two-character escape, \uXXXX, or two of them for a surrogate pair. */
  datatype Char =
    | Plain(byte: Byte)
    | Short(letter: Byte)
    | Unit(digits: seq<Byte>)
    | Pair(high: seq<Byte>, low: seq<Byte>)

  const ESCAPES: map<Byte, Byte> := map[
    0x22 := 0x22, 0x5C := 0x5C, 0x2F := 0x2F, 0x62 := 0x08, 0x66 := 0x0C, 0x6E := 0x0A, 0x72 := 0x0D, 0x74 := 0x09]

  /** A hexadecimal digit in either case. */
  function Hex(c: Byte): (v: int)
    ensures v < 16
  {
    if 0x30 <= c <= 0x39 then c - 0x30
    else if 0x41 <= c <= 0x46 then c - 0x37
    else if 0x61 <= c <= 0x66 then c - 0x57
    else -1
  }

  predicate IsQuad(h: seq<Byte>) {
    |h| == 4 && Hex(h[0]) >= 0 && Hex(h[1]) >= 0 && Hex(h[2]) >= 0 && Hex(h[3]) >= 0
  }

  function Quad(h: seq<Byte>): (v: nat)
    requires IsQuad(h)
    ensures v < 0x10000
  {
    ((Hex(h[0]) * 16 + Hex(h[1])) * 16 + Hex(h[2])) * 16 + Hex(h[3])
  }

  predicate CharForm(c: Char) {
    match c
    case Plain(b) => 0x20 <= b && b != 0x22 && b != 0x5C
    case Short(letter) => letter in ESCAPES
    case Unit(h) => IsQuad(h) && !(0xD800 <= Quad(h) <= 0xDFFF)
    case Pair(h, l) => IsQuad(h) && IsQuad(l) && 0xD800 <= Quad(h) <= 0xDBFF && 0xDC00 <= Quad(l) <= 0xDFFF
  }

  function CharText(c: Char): seq<Byte> {
    match c
    case Plain(b) => [b]
    case Short(letter) => [0x5C, letter]
    case Unit(h) => [0x5C, 0x75] + h
    case Pair(h, l) => [0x5C, 0x75] + h + ([0x5C, 0x75] + l)
  }

  /** The bytes that a character stands for, in UTF-8; a pair by the formula of RFC 2781, section 2.2. */
  function CharMeaning(c: Char): seq<Byte> {
    if !CharForm(c) then [] else
    match c
    case Plain(b) => [b]
    case Short(letter) => [ESCAPES[letter]]
    case Unit(h) => Utf8.Encode(Quad(h))
    case Pair(h, l) => Utf8.Encode((Quad(h) - 0xD800) * 0x400 + (Quad(l) - 0xDC00) + 0x10000)
  }

  ghost predicate CharsForm(chars: seq<Char>) {
    forall k :: 0 <= k < |chars| ==> CharForm(chars[k])
  }

  function CharsText(chars: seq<Char>): seq<Byte> {
    if chars == [] then [] else CharText(chars[0]) + CharsText(chars[1..])
  }

  function CharsMeaning(chars: seq<Char>): seq<Byte> {
    if chars == [] then [] else CharMeaning(chars[0]) + CharsMeaning(chars[1..])
  }

  /** A string in its quotation marks. */
  function Quoted(chars: seq<Char>): seq<Byte> {
    [0x22] + (CharsText(chars) + [0x22])
  }

  // ---------------------------------------------------------------------------------------------
  // Section 6: numbers
  // ---------------------------------------------------------------------------------------------

  datatype Sign = NoSign | PlusSign | MinusSign

  datatype Exponent = NoExponent | Exponent(upper: bool, sign: Sign, digits: seq<Byte>)

  datatype Number = Number(minus: bool, whole: seq<Byte>, fraction: seq<Byte>, exponent: Exponent)

  ghost predicate IsDigits(s: seq<Byte>) {
    forall k :: 0 <= k < |s| ==> 0x30 <= s[k] <= 0x39
  }

  /** No leading zero; without a fraction there is no point; an exponent has digits. */
  ghost predicate NumberForm(n: Number) {
    && n.whole != [] && IsDigits(n.whole) && (n.whole[0] == 0x30 ==> |n.whole| == 1)
    && IsDigits(n.fraction)
    && (n.exponent.Exponent? ==> n.exponent.digits != [] && IsDigits(n.exponent.digits))
  }

  function FractionText(fraction: seq<Byte>): seq<Byte> {
    if fraction == [] then [] else [0x2E] + fraction
  }

  function ExponentText(e: Exponent): seq<Byte> {
    match e
    case NoExponent => []
    case Exponent(upper, sign, digits) =>
      [if upper then 0x45 else 0x65] + (SignText(sign) + digits)
  }

  function SignText(sign: Sign): seq<Byte> {
    match sign
    case NoSign => []
    case PlusSign => [0x2B]
    case MinusSign => [0x2D]
  }

  function NumberText(n: Number): seq<Byte> {
    (if n.minus then [0x2D] else []) + (n.whole + (FractionText(n.fraction) + ExponentText(n.exponent)))
  }

  /** A byte with which the literal would go on. */
  predicate Continues(n: Number, c: Byte) {
    if n.exponent.Exponent? then 0x30 <= c <= 0x39
    else || c == 0x65 || c == 0x45
         || (n.fraction == [] && c == 0x2E)
         || ((n.fraction != [] || n.whole != [0x30]) && 0x30 <= c <= 0x39)
  }

  /** The number that digits write, each with the weight of its place. */
  function Decimal(s: seq<Byte>): int {
    if s == [] then 0 else (s[0] - 0x30) * Pow(10, |s| - 1) + Decimal(s[1..])
  }

  /** The integers of the 64-bit types. */
  predicate Holds64(minus: bool, v: int) {
    if minus then v <= 0x8000_0000_0000_0000 else v <= 0xFFFF_FFFF_FFFF_FFFF
  }

  function LeadingZeros(s: seq<Byte>): nat {
    if s == [] || s[0] != 0x30 then 0 else 1 + LeadingZeros(s[1..])
  }

  /** The fraction digits that move the limit of the exponent: those among the first eighteen digits or, if the
      integer is 0, among seventeen from the first that is not 0; none behind an integer beyond 64 bits. */
  function Places(n: Number): (k: int)
    ensures 0 <= k <= |n.fraction|
  {
    var all := |n.fraction|;
    var some := if n.whole == [0x30] then LeadingZeros(n.fraction) + 17
                else if |n.whole| <= 18 then 18 - |n.whole| else 0;
    if !Holds64(n.minus, Decimal(n.whole)) then 0 else if all <= some then all else some
  }

  /** An exponent that is not negative and lifts the digits beyond 10^308. */
  predicate IsTooBig(n: Number) {
    n.exponent.Exponent? && n.exponent.sign != MinusSign && Decimal(n.exponent.digits) > 308 + Places(n)
  }

  /** A number that is delivered as an integer. */
  predicate IsInteger(n: Number) {
    n.fraction == [] && n.exponent == NoExponent && Holds64(n.minus, Decimal(n.whole))
  }

  /** The event of a number, if it is not too big: the integer, with 32 bits if they hold it, or a double. */
  function NumberMeaning(flags: Flags, n: Number): Option<Event> {
    if IsInteger(n) then
      var v := Decimal(n.whole);
      Some(if n.minus then (if v <= 0x8000_0000 then Int(-v) else Int64(-v))
           else (if v <= 0xFFFF_FFFF then Uint(v) else Uint64(v)))
    else if IsTooBig(n) then None
    else
      match flags.strtod(NumberText(n))
      case None => None
      case Some(bits) => Some(Double(bits))
  }

  // ---------------------------------------------------------------------------------------------
  // Sections 3 to 5: values
  // ---------------------------------------------------------------------------------------------

  /** Blanks of a container stand before its closing bracket where there is no element, or behind a trailing
      comma, which the grammar does not know but a flag allows. */
  datatype Json =
    | NullJson
    | TrueJson
    | FalseJson
    | NumberJson(number: Number)
    | StringJson(chars: seq<Char>)
    | ArrayJson(elements: seq<Spaced>, trailing: bool, blank: seq<Byte>)
    | ObjectJson(pairs: seq<NameValue>, trailing: bool, blank: seq<Byte>)

  /** A value and the blanks around it. */
  datatype Spaced = Spaced(before: seq<Byte>, value: Json, after: seq<Byte>)

  /** A name with the blanks before it and before its colon, and a value. */
  datatype NameValue = NameValue(before: seq<Byte>, name: seq<Char>, gap: seq<Byte>, spaced: Spaced)

  ghost predicate JsonForm(commas: bool, j: Json) {
    match j
    case NumberJson(n) => NumberForm(n)
    case StringJson(chars) => CharsForm(chars)
    case ArrayJson(elements, trailing, blank) =>
      && IsBlank(blank) && (trailing ==> commas && elements != [])
      && forall i :: 0 <= i < |elements| ==> SpacedForm(commas, elements[i])
    case ObjectJson(pairs, trailing, blank) =>
      && IsBlank(blank) && (trailing ==> commas && pairs != [])
      && forall i :: 0 <= i < |pairs| ==> PairForm(commas, pairs[i])
    case _ => true
  }

  ghost predicate SpacedForm(commas: bool, s: Spaced) {
    IsBlank(s.before) && IsBlank(s.after) && JsonForm(commas, s.value)
  }

  ghost predicate PairForm(commas: bool, m: NameValue) {
    IsBlank(m.before) && CharsForm(m.name) && IsBlank(m.gap) && SpacedForm(commas, m.spaced)
  }

  function JsonText(j: Json): seq<Byte> {
    match j
    case NullJson => [0x6E, 0x75, 0x6C, 0x6C]
    case TrueJson => [0x74, 0x72, 0x75, 0x65]
    case FalseJson => [0x66, 0x61, 0x6C, 0x73, 0x65]
    case NumberJson(n) => NumberText(n)
    case StringJson(chars) => Quoted(chars)
    case ArrayJson(elements, trailing, blank) =>
      [0x5B] + (if elements == [] then blank + [0x5D] else ElementsText(elements, trailing, blank))
    case ObjectJson(pairs, trailing, blank) =>
      [0x7B] + (if pairs == [] then blank + [0x7D] else PairsText(pairs, trailing, blank))
  }

  /** The elements from one on, and the closing bracket. */
  function ElementsText(elements: seq<Spaced>, trailing: bool, blank: seq<Byte>): seq<Byte>
    requires elements != []
    decreases elements
  {
    SpacedText(elements[0])
    + (if |elements| > 1 then [0x2C] + ElementsText(elements[1..], trailing, blank)
       else Closing(trailing, blank, 0x5D))
  }

  function Closing(trailing: bool, blank: seq<Byte>, bracket: Byte): seq<Byte> {
    if trailing then [0x2C] + (blank + [bracket]) else [bracket]
  }

  function SpacedText(s: Spaced): seq<Byte> {
    s.before + (JsonText(s.value) + s.after)
  }

  function PairsText(pairs: seq<NameValue>, trailing: bool, blank: seq<Byte>): seq<Byte>
    requires pairs != []
    decreases pairs
  {
    PairText(pairs[0])
    + (if |pairs| > 1 then [0x2C] + PairsText(pairs[1..], trailing, blank) else Closing(trailing, blank, 0x7D))
  }

  function PairText(m: NameValue): seq<Byte> {
    m.before + (Quoted(m.name) + (m.gap + ([0x3A] + SpacedText(m.spaced))))
  }

  // ---------------------------------------------------------------------------------------------
  // What a text stands for
  // ---------------------------------------------------------------------------------------------

  /** No number in it is too big. */
  ghost predicate Fits(flags: Flags, j: Json) {
    match j
    case NumberJson(n) => NumberMeaning(flags, n).Some?
    case ArrayJson(elements, _, _) => forall i :: 0 <= i < |elements| ==> Fits(flags, elements[i].value)
    case ObjectJson(pairs, _, _) => forall i :: 0 <= i < |pairs| ==> Fits(flags, pairs[i].spaced.value)
    case _ => true
  }

  /** The events of a text in which no number is too big. Counts have 32 bits. */
  function Meaning(flags: Flags, j: Json): seq<Event> {
    match j
    case NullJson => [Null]
    case TrueJson => [Bool(true)]
    case FalseJson => [Bool(false)]
    case NumberJson(n) => var e := NumberMeaning(flags, n); if e.Some? then [e.value] else []
    case StringJson(chars) => [String(Copied(CharsMeaning(chars)))]
    case ArrayJson(elements, _, _) =>
      [StartArray] + ElementsMeaning(flags, elements) + [EndArray(|elements| % 0x1_0000_0000)]
    case ObjectJson(pairs, _, _) =>
      [StartObject] + PairsMeaning(flags, pairs) + [EndObject(|pairs| % 0x1_0000_0000)]
  }

  function ElementsMeaning(flags: Flags, elements: seq<Spaced>): seq<Event> {
    if elements == [] then [] else Meaning(flags, elements[0].value) + ElementsMeaning(flags, elements[1..])
  }

  function PairsMeaning(flags: Flags, pairs: seq<NameValue>): seq<Event> {
    if pairs == [] then [] else PairMeaning(flags, pairs[0]) + PairsMeaning(flags, pairs[1..])
  }

  function PairMeaning(flags: Flags, m: NameValue): seq<Event> {
    [Key(Copied(CharsMeaning(m.name)))] + Meaning(flags, m.spaced.value)
  }
}
