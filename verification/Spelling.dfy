/** What the writer prints is JSON: for every value, number and string the text of the grammar that it prints. */
module Spelling {
  import opened Bytes
  import opened Decimals
  import opened Document
  import opened JsonGrammar
  import opened ReaderSpec
  import opened Writer
  import Doubles
  import Layout
  import NumberReading
  import Utf8

  // ---------------------------------------------------------------------------------------------
  // Strings
  // ---------------------------------------------------------------------------------------------

  function SpellByte(c: Byte): Char {
    if c == 0x08 then Short(0x62)
    else if c == 0x09 then Short(0x74)
    else if c == 0x0A then Short(0x6E)
    else if c == 0x0C then Short(0x66)
    else if c == 0x0D then Short(0x72)
    else if c < 0x20 then Unit([0x30, 0x30, HexDigit(c / 16), HexDigit(c % 16)])
    else if c == 0x22 || c == 0x5C then Short(c)
    else Plain(c)
  }

  function Spell(s: seq<Byte>): seq<Char> {
    if s == [] then [] else [SpellByte(s[0])] + Spell(s[1..])
  }

  lemma ByteIsSpelled(c: Byte)
    ensures CharForm(SpellByte(c)) && CharText(SpellByte(c)) == Escape(c) && CharMeaning(SpellByte(c)) == [c]
  {
    if SpellByte(c).Unit? {
      assert Quad(SpellByte(c).digits) == c;
      assert Utf8.Encode(c) == [c];
    }
  }

  /** No spelling of a byte is shorter than the one printed; one as long differs in the case of a digit at most, and
      the digits printed are upper-case. */
  lemma EscapeIsShortest(c: Byte, other: Char)
    requires CharForm(other) && CharMeaning(other) == [c]
    ensures |Escape(c)| <= |CharText(other)|
    ensures |Escape(c)| == |CharText(other)| ==>
              forall k :: 0 <= k < |Escape(c)| ==>
                || Escape(c)[k] == CharText(other)[k]
                || (0x41 <= Escape(c)[k] <= 0x46 && CharText(other)[k] == Escape(c)[k] + 0x20)
  {
    match other
    case Plain(b) =>
    case Short(letter) =>
    case Unit(h) =>
      OneByteEncoded(Quad(h), c);
      if |Escape(c)| == 6 {
        SameQuad(h, c);
      }
    case Pair(_, _) =>
  }

  lemma OneByteEncoded(cp: nat, c: Byte)
    requires cp <= 0x10FFFF && Utf8.Encode(cp) == [c]
    ensures cp == c < 0x80
  {
  }

  lemma SameQuad(h: seq<Byte>, c: Byte)
    requires IsQuad(h) && Quad(h) == c < 0x20
    ensures Hex(h[0]) == 0 && Hex(h[1]) == 0 && Hex(h[2]) == c / 16 && Hex(h[3]) == c % 16
  {
  }

  /** A printed string is a string of the grammar that stands for the bytes printed, whatever they are. */
  lemma {:induction false} StringIsSpelled(s: seq<Byte>)
    ensures CharsForm(Spell(s)) && CharsText(Spell(s)) == EscapeAll(s) && CharsMeaning(Spell(s)) == s
    ensures Quoted(Spell(s)) == StringText(s)
  {
    hide SpellByte, CharForm, CharText, CharMeaning, Escape;
    if s != [] {
      ByteIsSpelled(s[0]);
      StringIsSpelled(s[1..]);
      assert Spell(s)[1..] == Spell(s[1..]);
    }
    Associative([0x22], EscapeAll(s), [0x22]);
  }

  // ---------------------------------------------------------------------------------------------
  // Numbers
  // ---------------------------------------------------------------------------------------------

  function SpellInteger(i: int): Number {
    Number(i < 0, Digits(if i < 0 then -i else i), [], NoExponent)
  }

  lemma IntegerTextIsSpelled(i: int)
    ensures NumberForm(SpellInteger(i)) && NumberText(SpellInteger(i)) == IntegerText(i)
  {
    hide Digits, JsonGrammar.Decimal, DecimalValue;
    var n := SpellInteger(i);
    NumberReading.DigitsAreDigits(n.whole);
    assert n.whole + ([] + []) == n.whole;
  }

  /** A printed integer of 64 bits stands for the event that carries it. */
  lemma IntegerIsSpelled(flags: Flags, i: int)
    requires -INT64_BOUND <= i < UINT64_BOUND
    ensures NumberForm(SpellInteger(i)) && NumberText(SpellInteger(i)) == IntegerText(i)
    ensures NumberMeaning(flags, SpellInteger(i)) == Some(IntegerEvent(i < 0, if i < 0 then -i else i))
  {
    hide Digits, JsonGrammar.Decimal, DecimalValue;
    var n := SpellInteger(i);
    NumberReading.DigitsAreDigits(n.whole);
    NumberReading.DecimalIs(n.whole);
    assert n.whole + ([] + []) == n.whole;
  }

  function SpellLiteral(minus: bool, l: Layout.Literal): Number {
    Number(minus, l.whole, l.fraction,
           if l.exponent.None? then NoExponent
           else Exponent(false, if l.exponent.value < 0 then MinusSign else NoSign,
                         Digits(if l.exponent.value < 0 then -l.exponent.value else l.exponent.value)))
  }

  /** The text of a layout, with a minus or without, is a number of the grammar that is no integer and not too big. */
  lemma LiteralIsSpelled(minus: bool, l: Layout.Literal)
    requires Layout.Grammatical(l)
    ensures var n := SpellLiteral(minus, l);
            && NumberForm(n) && NumberText(n) == (if minus then [0x2D] else []) + Layout.Text(l)
            && !IsInteger(n) && !IsTooBig(n)
  {
    hide Digits, JsonGrammar.Decimal, DecimalValue, Places;
    var n := SpellLiteral(minus, l);
    NumberReading.DigitsAreDigits(l.whole);
    NumberReading.DigitsAreDigits(l.fraction);
    if l.exponent.Some? {
      NumberReading.DigitsAreDigits(n.exponent.digits);
      NumberReading.DecimalIs(n.exponent.digits);
    }
    ExponentIsSpelled(l);
    Associative(l.whole, FractionText(n.fraction), ExponentText(n.exponent));
  }

  lemma ExponentIsSpelled(l: Layout.Literal)
    ensures ExponentText(SpellLiteral(false, l).exponent) == Layout.ExponentText(l.exponent)
  {
    hide Digits;
  }

  function LiteralOf(format: Doubles.DoubleFormat, bits: int): Layout.Literal {
    if Doubles.IsZero(bits) then Layout.Literal([0x30], [0x30], None)
    else
      var d := format.grisu(bits % Doubles.SIGN_BIT);
      Layout.Pretty(d.digits, d.k, format.maxDecimalPlaces)
  }

  function SpellDouble(format: Doubles.DoubleFormat, bits: int): Number {
    SpellLiteral(Doubles.Sign(bits), LiteralOf(format, bits))
  }

  /** A printed double stands for what its text is converted to. */
  lemma DoubleIsSpelled(flags: Flags, format: Doubles.DoubleFormat, bits: int)
    ensures NumberForm(SpellDouble(format, bits))
    ensures NumberText(SpellDouble(format, bits)) == Doubles.DoubleText(format, bits)
    ensures var d := flags.strtod(Doubles.DoubleText(format, bits));
            NumberMeaning(flags, SpellDouble(format, bits)) == if d.None? then None else Some(Double(d.value))
  {
    hide Layout.Text, Layout.Pretty, SpellLiteral, IsInteger, IsTooBig, NumberText, NumberForm;
    var l := LiteralOf(format, bits);
    if Doubles.IsZero(bits) {
      Doubles.ZeroText();
    } else {
      var d := format.grisu(bits % Doubles.SIGN_BIT);
      Layout.PrettyIsGrammatical(d.digits, d.k, format.maxDecimalPlaces);
    }
    LiteralIsSpelled(Doubles.Sign(bits), l);
  }

  /** ParseNumber reads the whole text of a literal, after a minus or without, as a number for a double. */
  lemma LiteralIsRead(minus: bool, l: Layout.Literal, t: seq<Byte>, p: nat)
    requires Layout.Grammatical(l)
    requires var text := (if minus then [0x2D] else []) + Layout.Text(l);
             Has(t, p, text) && !IsDigit(At(t, p + |text|)) && At(t, p + |text|) !in {0x2E, 0x45, 0x65}
    ensures var text := (if minus then [0x2D] else []) + Layout.Text(l);
            p <= |t| && ScanNumber(t, p) == Good(p + |text|, Floating)
  {
    hide Layout.Text, SpellLiteral, ScanNumber, IsInteger, IsTooBig, NumberText, NumberForm, Has;
    LiteralIsSpelled(minus, l);
    NumberReading.NumberIsRead(SpellLiteral(minus, l), t, p);
  }

  /** So it does with what Prettify lays out. */
  lemma PrettyIsRead(digits: seq<Byte>, k: int, maxDecimalPlaces: int, t: seq<Byte>, p: nat, minus: bool)
    requires digits != [] && AllDigits(digits) && digits[0] != ZERO && |digits| + k <= 309 && 1 <= maxDecimalPlaces
    requires var text := (if minus then [0x2D] else []) + Layout.Text(Layout.Pretty(digits, k, maxDecimalPlaces));
             Has(t, p, text) && !IsDigit(At(t, p + |text|)) && At(t, p + |text|) !in {0x2E, 0x45, 0x65}
    ensures var text := (if minus then [0x2D] else []) + Layout.Text(Layout.Pretty(digits, k, maxDecimalPlaces));
            p <= |t| && ScanNumber(t, p) == Good(p + |text|, Floating)
  {
    hide Layout.Text, Layout.Pretty, ScanNumber, Has;
    Layout.PrettyIsGrammatical(digits, k, maxDecimalPlaces);
    LiteralIsRead(minus, Layout.Pretty(digits, k, maxDecimalPlaces), t, p);
  }

  /** And with every finite double. */
  lemma DoubleIsRead(format: Doubles.DoubleFormat, bits: int, t: seq<Byte>, p: nat)
    requires var text := Doubles.DoubleText(format, bits);
             Has(t, p, text) && !IsDigit(At(t, p + |text|)) && At(t, p + |text|) !in {0x2E, 0x45, 0x65}
    ensures p <= |t| && ScanNumber(t, p) == Good(p + |Doubles.DoubleText(format, bits)|, Floating)
  {
    hide Layout.Text, Layout.Pretty, ScanNumber, Has, Doubles.IsZero, Doubles.Sign;
    LiteralOfIsGrammatical(format, bits);
    Doubles.ZeroText();
    LiteralIsRead(Doubles.Sign(bits), LiteralOf(format, bits), t, p);
  }

  lemma LiteralOfIsGrammatical(format: Doubles.DoubleFormat, bits: int)
    ensures Layout.Grammatical(LiteralOf(format, bits))
  {
    hide Layout.Pretty;
    if !Doubles.IsZero(bits) {
      var d := format.grisu(bits % Doubles.SIGN_BIT);
      Layout.PrettyIsGrammatical(d.digits, d.k, format.maxDecimalPlaces);
    }
  }

  // ---------------------------------------------------------------------------------------------
  // Values
  // ---------------------------------------------------------------------------------------------

  /** The text of the grammar that Print prints: no blanks. */
  function SpellValue(format: Doubles.DoubleFormat, v: Value): Json
    decreases v
  {
    match v
    case NullValue => NullJson
    case FalseValue => FalseJson
    case TrueValue => TrueJson
    case StringValue(bytes) => StringJson(Spell(bytes))
    case NumberValue(_, _) => NumberJson(SpellInteger(NumberOf(v)))
    case DoubleValue(bits) => NumberJson(SpellDouble(format, bits))
    case ArrayValue(elements) => ArrayJson(SpellAll(format, elements), false, [])
    case ObjectValue(members) => ObjectJson(SpellMembers(format, members), false, [])
  }

  function SpellAll(format: Doubles.DoubleFormat, elements: seq<Value>): (r: seq<Spaced>)
    ensures |r| == |elements|
    decreases elements
  {
    if elements == [] then []
    else [Spaced([], SpellValue(format, elements[0]), [])] + SpellAll(format, elements[1..])
  }

  function SpellMembers(format: Doubles.DoubleFormat, members: seq<Member>): (r: seq<NameValue>)
    ensures |r| == |members|
    decreases members
  {
    if members == [] then []
    else [SpellMember(format, members[0])] + SpellMembers(format, members[1..])
  }

  function SpellMember(format: Doubles.DoubleFormat, m: Member): NameValue
    decreases m
  {
    NameValue([], Spell(if m.name.StringValue? then m.name.bytes else []), [], Spaced([], SpellValue(format, m.value), []))
  }

  /** The text of every tree is a text of the grammar, without blanks. */
  lemma {:induction false} PrintIsJson(commas: bool, format: Doubles.DoubleFormat, v: Value)
    requires Storable(v)
    ensures JsonForm(commas, SpellValue(format, v)) && JsonText(SpellValue(format, v)) == Print(format, v)
    decreases v
  {
    match v
    case ArrayValue(elements) =>
      ElementsAreJson(commas, format, elements);
      ArrayIsPrinted(commas, format, elements);
    case ObjectValue(members) =>
      MembersAreJson(commas, format, members);
      ObjectIsPrinted(commas, format, members);
    case StringValue(bytes) => StringIsSpelled(bytes);
    case NumberValue(_, _) =>
      IntegerValueIsConstructed(v);
      IntegerIsSpelled(Flags(false, false, _ => None), NumberOf(v));
    case DoubleValue(bits) => DoubleIsSpelled(Flags(false, false, _ => None), format, bits);
    case NullValue | FalseValue | TrueValue =>
  }

  /** The text of a list, split after its first element and its first comma. */
  lemma PrintedElements(format: Doubles.DoubleFormat, elements: seq<Value>)
    requires elements != []
    ensures PrintElements(format, true, elements) + [RBRACKET]
         == Print(format, elements[0]) + (PrintElements(format, false, elements[1..]) + [RBRACKET])
    ensures |elements| == 1 ==> PrintElements(format, false, elements[1..]) + [RBRACKET] == [RBRACKET]
    ensures |elements| > 1 ==>
              PrintElements(format, false, elements[1..]) + [RBRACKET]
                == [COMMA] + (PrintElements(format, true, elements[1..]) + [RBRACKET])
  {
    hide Print;
    Associative(Print(format, elements[0]), PrintElements(format, false, elements[1..]), [RBRACKET]);
    assert [] + Print(format, elements[0]) == Print(format, elements[0]);
    if |elements| > 1 {
      var rest := elements[1..];
      assert [] + Print(format, rest[0]) == Print(format, rest[0]);
      Associative([COMMA], Print(format, rest[0]), PrintElements(format, false, rest[1..]));
      Associative([COMMA], PrintElements(format, true, rest), [RBRACKET]);
    }
  }

  lemma PrintedMembers(format: Doubles.DoubleFormat, members: seq<Member>)
    requires members != []
    ensures PrintMembers(format, true, members) + [RBRACE]
         == PrintMember(format, members[0]) + (PrintMembers(format, false, members[1..]) + [RBRACE])
    ensures |members| == 1 ==> PrintMembers(format, false, members[1..]) + [RBRACE] == [RBRACE]
    ensures |members| > 1 ==>
              PrintMembers(format, false, members[1..]) + [RBRACE]
                == [COMMA] + (PrintMembers(format, true, members[1..]) + [RBRACE])
  {
    hide PrintMember;
    Associative(PrintMember(format, members[0]), PrintMembers(format, false, members[1..]), [RBRACE]);
    assert [] + PrintMember(format, members[0]) == PrintMember(format, members[0]);
    if |members| > 1 {
      var rest := members[1..];
      assert [] + PrintMember(format, rest[0]) == PrintMember(format, rest[0]);
      Associative([COMMA], PrintMember(format, rest[0]), PrintMembers(format, false, rest[1..]));
      Associative([COMMA], PrintMembers(format, true, rest), [RBRACE]);
    }
  }

  ghost predicate ElementsAre(commas: bool, format: Doubles.DoubleFormat, elements: seq<Value>) {
    && (forall i :: 0 <= i < |elements| ==> SpacedForm(commas, SpellAll(format, elements)[i]))
    && (elements != [] ==>
          ElementsText(SpellAll(format, elements), false, []) == PrintElements(format, true, elements) + [RBRACKET])
  }

  lemma {:induction false} ElementsAreJson(commas: bool, format: Doubles.DoubleFormat, elements: seq<Value>)
    requires forall i :: 0 <= i < |elements| ==> Storable(elements[i])
    ensures ElementsAre(commas, format, elements)
    decreases elements
  {
    hide JsonText, Print, PrintElements, SpellValue, JsonForm;
    if elements != [] {
      PrintIsJson(commas, format, elements[0]);
      ElementsAreJson(commas, format, elements[1..]);
      PrintedElements(format, elements);
      var spelled := SpellAll(format, elements);
      assert spelled[1..] == SpellAll(format, elements[1..]);
      assert forall i :: 0 < i < |spelled| ==> spelled[i] == spelled[1..][i - 1];
      NoBlanks(spelled[0]);
    }
  }

  lemma NoBlanks(s: Spaced)
    requires s.before == [] && s.after == []
    ensures SpacedText(s) == JsonText(s.value)
  {
    hide JsonText;
  }

  lemma ArrayIsPrinted(commas: bool, format: Doubles.DoubleFormat, elements: seq<Value>)
    requires ElementsAre(commas, format, elements)
    ensures var v := ArrayValue(elements);
            JsonForm(commas, SpellValue(format, v)) && JsonText(SpellValue(format, v)) == Print(format, v)
  {
    hide ElementsText, PrintElements, SpellAll, SpacedForm;
    Associative([LBRACKET], PrintElements(format, true, elements), [RBRACKET]);
    NothingPrinted(format);
  }

  lemma NothingPrinted(format: Doubles.DoubleFormat)
    ensures PrintElements(format, true, []) == [] && PrintMembers(format, true, []) == []
  {
  }

  ghost predicate MembersAre(commas: bool, format: Doubles.DoubleFormat, members: seq<Member>) {
    && (forall i :: 0 <= i < |members| ==> PairForm(commas, SpellMembers(format, members)[i]))
    && (members != [] ==>
          PairsText(SpellMembers(format, members), false, []) == PrintMembers(format, true, members) + [RBRACE])
  }

  lemma {:induction false} MembersAreJson(commas: bool, format: Doubles.DoubleFormat, members: seq<Member>)
    requires forall i :: 0 <= i < |members| ==> members[i].name.StringValue? && Storable(members[i].value)
    ensures MembersAre(commas, format, members)
    decreases members
  {
    hide PairText, PrintMember, PrintMembers, SpellMember, PairForm;
    if members != [] {
      MemberIsJson(commas, format, members[0]);
      MembersAreJson(commas, format, members[1..]);
      PrintedMembers(format, members);
      var spelled := SpellMembers(format, members);
      assert spelled[1..] == SpellMembers(format, members[1..]);
      assert forall i :: 0 < i < |spelled| ==> spelled[i] == spelled[1..][i - 1];
    }
  }

  lemma {:induction false} MemberIsJson(commas: bool, format: Doubles.DoubleFormat, m: Member)
    requires m.name.StringValue? && Storable(m.value)
    ensures PairForm(commas, SpellMember(format, m)) && PairText(SpellMember(format, m)) == PrintMember(format, m)
    decreases m
  {
    hide JsonText, SpellValue, JsonForm, Spell, StringText, Quoted, Print, PrintMember, PairText;
    StringIsSpelled(m.name.bytes);
    PrintIsJson(commas, format, m.value);
    NoBlanks(SpellMember(format, m).spaced);
    NoBlanksInPair(SpellMember(format, m));
    PrintedMember(format, m);
  }

  lemma NoBlanksInPair(m: NameValue)
    requires m.before == [] && m.gap == []
    ensures PairText(m) == Quoted(m.name) + ([0x3A] + SpacedText(m.spaced))
  {
    hide SpacedText, Quoted;
  }

  lemma PrintedMember(format: Doubles.DoubleFormat, m: Member)
    requires m.name.StringValue?
    ensures PrintMember(format, m) == StringText(m.name.bytes) + ([COLON] + Print(format, m.value))
  {
    hide StringText;
    Associative(Print(format, m.name), [COLON], Print(format, m.value));
  }

  lemma ObjectIsPrinted(commas: bool, format: Doubles.DoubleFormat, members: seq<Member>)
    requires MembersAre(commas, format, members)
    ensures var v := ObjectValue(members);
            JsonForm(commas, SpellValue(format, v)) && JsonText(SpellValue(format, v)) == Print(format, v)
  {
    hide PairsText, PrintMembers, SpellMembers, PairForm;
    Associative([LBRACE], PrintMembers(format, true, members), [RBRACE]);
    NothingPrinted(format);
  }
}
