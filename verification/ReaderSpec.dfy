/** What the two parsers of reader.h compute, as functions of the text: the leaf routines they share
    (strings, numbers, literals), the recursive descent, and the pushdown machine step by step. */
module ReaderSpec {
  import opened Bytes
  import Utf8

  datatype Option<+T> = None | Some(value: T)

  /** rapidjson's 32-bit count. */
  type SizeType = n: int | 0 <= n < 0x1_0000_0000

  /** How a handler receives a string: a private copy, or a slice of the buffer being parsed. */
  datatype Text = Copied(bytes: seq<Byte>) | InPlace(begin: nat, length: nat)

  datatype Event =
    | Null
    | Bool(b: bool)
    | Int(i: int)
    | Uint(i: int)
    | Int64(i: int)
    | Uint64(i: int)
    | Double(bits: int)
    | String(text: Text)
    | Key(text: Text)
    | StartObject
    | EndObject(count: SizeType)
    | StartArray
    | EndArray(count: SizeType)

  datatype ErrorCode =
    | DocumentEmpty
    | DocumentRootNotSingular
    | ValueInvalid
    | ObjectMissName
    | ObjectMissColon
    | ObjectMissCommaOrCurlyBracket
    | ArrayMissCommaOrSquareBracket
    | StringUnicodeEscapeInvalidHex
    | StringUnicodeSurrogateInvalid
    | StringEscapeInvalid
    | StringMissQuotationMark
    | StringInvalidEncoding
    | NumberTooBig
    | NumberMissFraction
    | NumberMissExponent

  /** The parse flags. `strtod` stands for the floating-point conversion of a number literal:
      the bits of the double, or None where the result exceeds the largest double. */
  datatype Flags = Flags(trailingCommas: bool, stopWhenDone: bool,
                         strtod: seq<Byte> -> Option<int>)

  /** What a parse routine leaves behind: the new position or an error, and the handler's log. */
  datatype Outcome =
    | Done(pos: nat, events: seq<Event>)
    | Failed(code: ErrorCode, offset: nat, events: seq<Event>)

  /** The result of a leaf routine, which fires at most one event. */
  datatype Leaf<+T> = Good(pos: nat, value: T) | Bad(code: ErrorCode, offset: nat)

  // ---------------------------------------------------------------------------------------------
  // Strings
  // ---------------------------------------------------------------------------------------------

  /** The four hexadecimal digits at `p`, if there are four. */
  function Hex4(t: seq<Byte>, p: nat): (r: Option<nat>)
    ensures r.Some? ==> r.value < 0x10000 && p + 4 <= |t|
  {
    if IsHexDigit(At(t, p)) && IsHexDigit(At(t, p + 1)) && IsHexDigit(At(t, p + 2)) && IsHexDigit(At(t, p + 3)) then
      Some(HexDigitValue(t[p]) * 0x1000 + HexDigitValue(t[p + 1]) * 0x100
           + HexDigitValue(t[p + 2]) * 0x10 + HexDigitValue(t[p + 3]))
    else
      None
  }

  /** The escape table of ParseStringToStream: the byte that a two-character escape stands for. */
  function Unescape(e: Byte): Option<Byte> {
    if e == QUOTE || e == SLASH || e == BACKSLASH then Some(e)
    else if e == LOWER_B then Some(0x08)
    else if e == LOWER_F then Some(0x0C)
    else if e == LOWER_N then Some(LF)
    else if e == LOWER_R then Some(CR)
    else if e == LOWER_T then Some(TAB)
    else None
  }

  /** The `\uXXXX` escape whose backslash is at `p`, with its low surrogate if it needs one. */
  function UnicodeEscape(t: seq<Byte>, p: nat): (r: Leaf<nat>)
    ensures r.Good? ==> p + 6 <= r.pos <= |t| && r.value <= 0x10FFFF && r.pos <= p + 12
    ensures r.Good? && r.value > 0xFFFF ==> r.pos == p + 12
    ensures r.Bad? ==> r.offset == p
  {
    match Hex4(t, p + 2)
    case None => Bad(StringUnicodeEscapeInvalidHex, p)
    case Some(hi) =>
      if hi < 0xD800 || hi > 0xDFFF then
        Good(p + 6, hi)
      else if hi > 0xDBFF || At(t, p + 6) != BACKSLASH || At(t, p + 7) != LOWER_U then
        Bad(StringUnicodeSurrogateInvalid, p)
      else
        match Hex4(t, p + 8)
        case None => Bad(StringUnicodeEscapeInvalidHex, p)
        case Some(lo) =>
          if lo < 0xDC00 || lo > 0xDFFF then Bad(StringUnicodeSurrogateInvalid, p)
          else Good(p + 12, (hi - 0xD800) * 0x400 + (lo - 0xDC00) + 0x10000)
  }

  /** The rest of a string from `p` on, after `acc` has been decoded already. */
  function StringBody(t: seq<Byte>, p: nat, acc: seq<Byte>): (r: Leaf<seq<Byte>>)
    requires p <= |t|
    ensures r.Good? ==> p < r.pos <= |t|
    decreases |t| - p
  {
    var c := At(t, p);
    if c == BACKSLASH then
      var e := At(t, p + 1);
      if Unescape(e).Some? then
        StringBody(t, p + 2, acc + [Unescape(e).value])
      else if e == LOWER_U then
        var u := UnicodeEscape(t, p);
        if u.Good? then StringBody(t, u.pos, acc + Utf8.Encode(u.value)) else Bad(u.code, u.offset)
      else
        Bad(StringEscapeInvalid, p)
    else if c == QUOTE then
      Good(p + 1, acc)
    else if c < 0x20 then
      Bad(if c == NUL then StringMissQuotationMark else StringInvalidEncoding, p)
    else
      StringBody(t, p + 1, acc + [c])
  }

  // ---------------------------------------------------------------------------------------------
  // Numbers
  // ---------------------------------------------------------------------------------------------

  const INT32_BOUND: int := 0x8000_0000
  const UINT32_BOUND: int := 0x1_0000_0000
  const INT64_BOUND: int := 0x8000_0000_0000_0000
  const UINT64_BOUND: int := 0x1_0000_0000_0000_0000
  const SIGNIFICAND_LIMIT: int := 0x1F_FFFF_FFFF_FFFF

  /** Whether a literal with this sign and magnitude fits a 64-bit integer event. */
  predicate FitsInteger(minus: bool, v: int) {
    if minus then v <= INT64_BOUND else v < UINT64_BOUND
  }

  /** The event for an integer literal: the 32-bit one whenever the value fits it. */
  function IntegerEvent(minus: bool, v: int): Event
    requires 0 <= v && FitsInteger(minus, v)
  {
    if minus then
      if v <= INT32_BOUND then Int(-v) else Int64(-v)
    else
      if v < UINT32_BOUND then Uint(v) else Uint64(v)
  }

  /** How many fraction digits from `q` on still go into the significand: all of them while it is
      below 2^53, then enough for seventeen significant digits. */
  function FractionDigits(t: seq<Byte>, q: nat, significand: nat, digits: nat): (n: nat)
    requires q <= |t|
    ensures q + n <= DigitsEnd(t, q)
    decreases |t| - q
  {
    if !IsDigit(At(t, q)) then 0
    else if significand <= SIGNIFICAND_LIMIT then
      var s := significand * 10 + (t[q] - ZERO);
      1 + FractionDigits(t, q + 1, s, if s != 0 then digits + 1 else digits)
    else if digits < 17 then
      1 + FractionDigits(t, q + 1, significand, digits + 1)
    else 0
  }

  /** Where the integer part that starts at `q` ends: one zero stands alone. */
  function IntegerEnd(t: seq<Byte>, q: nat): (e: nat)
    requires q <= |t| && IsDigit(At(t, q))
    ensures q < e <= |t|
    ensures AllDigits(t[q..e])
  {
    if t[q] == ZERO then q + 1 else DigitsEnd(t, q)
  }

  /** The decimal exponent that the fraction contributes (`expFrac`), never positive. */
  function FractionExponent(t: seq<Byte>, minus: bool, q: nat, e: nat): (x: int)
    requires q < e <= |t| && AllDigits(t[q..e])
    ensures -|t| <= x <= 0
  {
    var v := DecimalValue(t[q..e]);
    if At(t, e) == DOT && FitsInteger(minus, v) then
      var n: int := FractionDigits(t, e + 1, v, e - q - 1);
      -n
    else 0
  }

  /** What a number literal denotes: a whole number that fits 64 bits, or something for a double. */
  datatype Numeral = Whole(minus: bool, magnitude: int) | Floating

  /** The grammar of ParseNumber: an optional minus, an integer part, and an optional fraction and exponent. */
  function ScanNumber(t: seq<Byte>, p: nat): (r: Leaf<Numeral>)
    requires p <= |t|
    ensures r.Good? ==> p < r.pos <= |t|
    ensures r.Good? && r.value.Whole? ==> 0 <= r.value.magnitude && FitsInteger(r.value.minus, r.value.magnitude)
  {
    var minus := At(t, p) == MINUS;
    var q := if minus then p + 1 else p;
    if !IsDigit(At(t, q)) then
      Bad(ValueInvalid, q)
    else
      var e := IntegerEnd(t, q);
      var v := DecimalValue(t[q..e]);
      if At(t, e) == DOT && !IsDigit(At(t, e + 1)) then
        Bad(NumberMissFraction, e + 1)
      else
        var f := if At(t, e) == DOT then DigitsEnd(t, e + 1) else e;
        if At(t, f) == LOWER_E || At(t, f) == UPPER_E then
          var x := ScanExponent(t, f + 1, 308 - FractionExponent(t, minus, q, e), p);
          if x.Bad? then Bad(x.code, x.offset) else Good(x.pos, Floating)
        else if At(t, e) == DOT || !FitsInteger(minus, v) then
          Good(f, Floating)
        else
          Good(e, Whole(minus, v))
  }

  /** An exponent from its sign on: without a minus it may not exceed `maxExp`. */
  function ScanExponent(t: seq<Byte>, p: nat, maxExp: int, startOffset: nat): (r: Leaf<()>)
    requires p <= |t|
    ensures r.Good? ==> p < r.pos <= |t|
  {
    var s := if At(t, p) == PLUS || At(t, p) == MINUS then p + 1 else p;
    if !IsDigit(At(t, s)) then
      Bad(NumberMissExponent, s)
    else
      var g := DigitsEnd(t, s);
      if At(t, p) != MINUS && DecimalValue(t[s..g]) > maxExp then Bad(NumberTooBig, startOffset) else Good(g, ())
  }

  /** ParseNumber. */
  function NumberLeaf(flags: Flags, t: seq<Byte>, p: nat): (r: Leaf<Event>)
    requires p <= |t|
    ensures r.Good? ==> p < r.pos <= |t|
  {
    match ScanNumber(t, p)
    case Bad(code, offset) => Bad(code, offset)
    case Good(end, Whole(minus, magnitude)) => Good(end, IntegerEvent(minus, magnitude))
    case Good(end, Floating) =>
      match flags.strtod(t[p..end])
      case None => Bad(NumberTooBig, p)
      case Some(bits) => Good(end, Double(bits))
  }

  // ---------------------------------------------------------------------------------------------
  // Values without structure
  // ---------------------------------------------------------------------------------------------

  /** A literal name: its first letter is known to match; the error offset is the first that does not. */
  function LiteralLeaf(t: seq<Byte>, p: nat, rest: seq<Byte>, event: Event): (r: Leaf<Event>)
    requires p <= |t|
    requires NUL !in rest
    ensures r.Good? ==> p + |rest| == r.pos <= |t|
    decreases rest
  {
    if rest == [] then Good(p, event)
    else if At(t, p) == rest[0] then LiteralLeaf(t, p + 1, rest[1..], event)
    else Bad(ValueInvalid, p)
  }

  const NULL_TAIL: seq<Byte> := [LOWER_U, LOWER_L, LOWER_L]
  const TRUE_TAIL: seq<Byte> := [LOWER_R, LOWER_U, LOWER_E]
  const FALSE_TAIL: seq<Byte> := [LOWER_A, LOWER_L, LOWER_S, LOWER_E]

  function StringLeaf(t: seq<Byte>, p: nat, isKey: bool): (r: Leaf<Event>)
    requires p < |t|
    ensures r.Good? ==> p < r.pos <= |t|
  {
    match StringBody(t, p + 1, [])
    case Good(q, s) => Good(q, if isKey then Key(Copied(s)) else String(Copied(s)))
    case Bad(code, offset) => Bad(code, offset)
  }

  predicate StartsContainer(c: Byte) {
    c == LBRACE || c == LBRACKET
  }

  /** ParseValue on anything but an object or an array. */
  function ScalarLeaf(flags: Flags, t: seq<Byte>, p: nat): (r: Leaf<Event>)
    requires p <= |t|
    ensures r.Good? ==> p < r.pos <= |t|
  {
    var c := At(t, p);
    if c == LOWER_N then LiteralLeaf(t, p + 1, NULL_TAIL, Null)
    else if c == LOWER_T then LiteralLeaf(t, p + 1, TRUE_TAIL, Bool(true))
    else if c == LOWER_F then LiteralLeaf(t, p + 1, FALSE_TAIL, Bool(false))
    else if c == QUOTE then StringLeaf(t, p, false)
    else NumberLeaf(flags, t, p)
  }

  function Fire(leaf: Leaf<Event>, events: seq<Event>): Outcome {
    match leaf
    case Good(pos, event) => Done(pos, events + [event])
    case Bad(code, offset) => Failed(code, offset, events)
  }

  /** A SizeType counter: 32 bits. */
  function Increment(count: SizeType): SizeType {
    (count + 1) % UINT32_BOUND
  }

  // ---------------------------------------------------------------------------------------------
  // Recursive descent
  // ---------------------------------------------------------------------------------------------

  function ParseValue(flags: Flags, t: seq<Byte>, p: nat, events: seq<Event>): (r: Outcome)
    requires p <= |t|
    ensures r.Done? ==> p < r.pos <= |t|
    decreases |t| - p, 0
  {
    if At(t, p) == LBRACE then
      var q := SkipWs(t, p + 1);
      if At(t, q) == RBRACE then Done(q + 1, events + [StartObject, EndObject(0)])
      else ParseMembers(flags, t, q, 0, events + [StartObject])
    else if At(t, p) == LBRACKET then
      var q := SkipWs(t, p + 1);
      if At(t, q) == RBRACKET then Done(q + 1, events + [StartArray, EndArray(0)])
      else ParseElements(flags, t, q, 0, events + [StartArray])
    else
      Fire(ScalarLeaf(flags, t, p), events)
  }

  /** The loop of ParseArray, about to parse the element after the first `count`. */
  function ParseElements(flags: Flags, t: seq<Byte>, p: nat, count: SizeType, events: seq<Event>): (r: Outcome)
    requires p <= |t|
    ensures r.Done? ==> p < r.pos <= |t|
    decreases |t| - p, 1
  {
    var v := ParseValue(flags, t, p, events);
    if v.Failed? then v else NextElement(flags, t, v.pos, Increment(count), v.events)
  }

  /** The loop of ParseArray once the `count`-th element has been read. */
  function NextElement(flags: Flags, t: seq<Byte>, p: nat, count: SizeType, events: seq<Event>): (r: Outcome)
    requires p <= |t|
    ensures r.Done? ==> p < r.pos <= |t|
    decreases |t| - p, 1
  {
    var q := SkipWs(t, p);
    if At(t, q) == COMMA then
      var next := SkipWs(t, q + 1);
      if flags.trailingCommas && At(t, next) == RBRACKET then Done(next + 1, events + [EndArray(count)])
      else ParseElements(flags, t, next, count, events)
    else if At(t, q) == RBRACKET then
      Done(q + 1, events + [EndArray(count)])
    else
      Failed(ArrayMissCommaOrSquareBracket, q, events)
  }

  /** A name, a colon and a value. */
  function ParseMember(flags: Flags, t: seq<Byte>, p: nat, events: seq<Event>): (r: Outcome)
    requires p <= |t|
    ensures r.Done? ==> p < r.pos <= |t|
    decreases |t| - p, 1
  {
    if At(t, p) != QUOTE then Failed(ObjectMissName, p, events) else
    var key := Fire(StringLeaf(t, p, true), events);
    if key.Failed? then key else
    var colon := SkipWs(t, key.pos);
    if At(t, colon) != COLON then Failed(ObjectMissColon, colon, key.events)
    else ParseValue(flags, t, SkipWs(t, colon + 1), key.events)
  }

  /** The loop of ParseObject, about to parse the member after the first `count`. */
  function ParseMembers(flags: Flags, t: seq<Byte>, p: nat, count: SizeType, events: seq<Event>): (r: Outcome)
    requires p <= |t|
    ensures r.Done? ==> p < r.pos <= |t|
    decreases |t| - p, 2
  {
    var v := ParseMember(flags, t, p, events);
    if v.Failed? then v else NextMember(flags, t, v.pos, Increment(count), v.events)
  }

  /** The loop of ParseObject once the `count`-th member has been read. */
  function NextMember(flags: Flags, t: seq<Byte>, p: nat, count: SizeType, events: seq<Event>): (r: Outcome)
    requires p <= |t|
    ensures r.Done? ==> p < r.pos <= |t|
    decreases |t| - p, 1
  {
    var q := SkipWs(t, p);
    if At(t, q) == COMMA then
      var next := SkipWs(t, q + 1);
      if flags.trailingCommas && At(t, next) == RBRACE then Done(next + 1, events + [EndObject(count)])
      else ParseMembers(flags, t, next, count, events)
    else if At(t, q) == RBRACE then
      Done(q + 1, events + [EndObject(count)])
    else
      Failed(ObjectMissCommaOrCurlyBracket, q, events)
  }

  /** GenericReader::Parse without the iterative flag. */
  function RecursiveParse(flags: Flags, t: seq<Byte>): (r: Outcome)
    ensures r.Done? ==> r.pos <= |t|
  {
    var p := SkipWs(t, 0);
    if At(t, p) == NUL then Failed(DocumentEmpty, p, []) else
    var v := ParseValue(flags, t, p, []);
    if v.Failed? || flags.stopWhenDone then v else
    var q := SkipWs(t, v.pos);
    if At(t, q) != NUL then Failed(DocumentRootNotSingular, q, v.events) else Done(q, v.events)
  }

  // ---------------------------------------------------------------------------------------------
  // The pushdown machine
  // ---------------------------------------------------------------------------------------------

  datatype State =
    | Finish
    | Error
    | Start
    | ObjectInitial
    | MemberKey
    | MemberValue
    | ObjectFinish
    | ArrayInitial
    | Element
    | ArrayFinish
    | SingleValue
    | ElementDelimiter
    | MemberDelimiter
    | KeyValueDelimiter

  datatype Token =
    | LeftBracketToken
    | RightBracketToken
    | LeftCurlyBracketToken
    | RightCurlyBracketToken
    | CommaToken
    | ColonToken
    | StringToken
    | FalseToken
    | TrueToken
    | NullToken
    | NumberToken

  function Tokenize(c: Byte): Token {
    if c == LBRACKET then LeftBracketToken
    else if c == RBRACKET then RightBracketToken
    else if c == LBRACE then LeftCurlyBracketToken
    else if c == RBRACE then RightCurlyBracketToken
    else if c == COMMA then CommaToken
    else if c == COLON then ColonToken
    else if c == QUOTE then StringToken
    else if c == LOWER_F then FalseToken
    else if c == LOWER_T then TrueToken
    else if c == LOWER_N then NullToken
    else NumberToken
  }

  /** The tokens that can begin a value other than a container. */
  predicate IsScalarToken(token: Token) {
    token.StringToken? || token.FalseToken? || token.TrueToken? || token.NullToken? || token.NumberToken?
  }

  /** The transition table, row by row. */
  function Predict(state: State, token: Token): State {
    match state
    case Start =>
      (match token
       case LeftBracketToken => ArrayInitial
       case LeftCurlyBracketToken => ObjectInitial
       case _ => if IsScalarToken(token) then SingleValue else Error)
    case ObjectInitial =>
      (match token
       case RightCurlyBracketToken => ObjectFinish
       case StringToken => MemberKey
       case _ => Error)
    case MemberKey => if token == ColonToken then KeyValueDelimiter else Error
    case MemberValue =>
      (match token
       case RightCurlyBracketToken => ObjectFinish
       case CommaToken => MemberDelimiter
       case _ => Error)
    case ArrayInitial =>
      (match token
       case LeftBracketToken => ArrayInitial
       case RightBracketToken => ArrayFinish
       case LeftCurlyBracketToken => ObjectInitial
       case _ => if IsScalarToken(token) then Element else Error)
    case Element =>
      (match token
       case RightBracketToken => ArrayFinish
       case CommaToken => ElementDelimiter
       case _ => Error)
    case ElementDelimiter =>
      (match token
       case LeftBracketToken => ArrayInitial
       case RightBracketToken => ArrayFinish
       case LeftCurlyBracketToken => ObjectInitial
       case _ => if IsScalarToken(token) then Element else Error)
    case MemberDelimiter =>
      (match token
       case RightCurlyBracketToken => ObjectFinish
       case StringToken => MemberKey
       case _ => Error)
    case KeyValueDelimiter =>
      (match token
       case LeftBracketToken => ArrayInitial
       case LeftCurlyBracketToken => ObjectInitial
       case _ => if IsScalarToken(token) then MemberValue else Error)
    case _ => Error
  }

  /** One nesting level on the machine's stack: the state to resume in, and the count so far. */
  datatype Frame = Frame(resume: State, count: SizeType)

  datatype Machine = Machine(pos: nat, state: State, stack: seq<Frame>, events: seq<Event>)

  /** The stack discipline: a state inside a container has a frame, and only the bottom frame resumes
      in the start state. */
  ghost predicate WellFormed(m: Machine) {
    && !IsTransient(m.state)
    && (m.stack == [] <==> m.state.Start? || m.state.Finish?)
    && forall i :: 0 <= i < |m.stack| ==>
         && IsResume(m.stack[i].resume)
         && (m.stack[i].resume.Start? <==> i == 0)
  }

  /** The states that Transit never leaves the machine in. */
  predicate IsTransient(state: State) {
    state.Error? || state.ObjectFinish? || state.ArrayFinish? || state.SingleValue?
  }

  predicate IsResume(state: State) {
    state.Start? || state.Element? || state.MemberValue?
  }

  /** The state pushed when a container opens in state `src`. */
  function ResumeState(src: State): State {
    match src
    case ArrayInitial => Element
    case ElementDelimiter => Element
    case KeyValueDelimiter => MemberValue
    case _ => src
  }

  /** The code that HandleError reports for the state in which no token fits. */
  function StateError(state: State): ErrorCode {
    match state
    case Start => DocumentEmpty
    case Finish => DocumentRootNotSingular
    case ObjectInitial => ObjectMissName
    case MemberDelimiter => ObjectMissName
    case MemberKey => ObjectMissColon
    case MemberValue => ObjectMissCommaOrCurlyBracket
    case KeyValueDelimiter => ValueInvalid
    case ArrayInitial => ValueInvalid
    case ElementDelimiter => ValueInvalid
    case _ => ArrayMissCommaOrSquareBracket
  }

  datatype Move = Next(m: Machine) | Stop(code: ErrorCode, offset: nat, events: seq<Event>)

  function LeafMove(m: Machine, leaf: Leaf<Event>, next: State): Move {
    match leaf
    case Good(pos, event) => Next(m.(pos := pos, state := next, events := m.events + [event]))
    case Bad(code, offset) => Stop(code, offset, m.events)
  }

  /** Leaving a container: pop its frame, report its size, resume. */
  function Leave(m: Machine, last: State, isObject: bool): Machine
    requires m.stack != []
  {
    var top := m.stack[|m.stack| - 1];
    var n := if m.state == last then Increment(top.count) else top.count;
    Machine(m.pos + 1,
            if top.resume == Start then Finish else top.resume,
            m.stack[..|m.stack| - 1],
            m.events + [if isObject then EndObject(n) else EndArray(n)])
  }

  /** One turn of the loop of IterativeParse: Tokenize, Predict, Transit, and HandleError. */
  function Step(flags: Flags, t: seq<Byte>, m: Machine): (r: Move)
    requires m.pos < |t| && t[m.pos] != NUL
    requires WellFormed(m)
    ensures r.Next? ==> m.pos < r.m.pos <= |t| && WellFormed(r.m)
  {
    var dst := Predict(m.state, Tokenize(t[m.pos]));
    match dst
    case Error => Stop(StateError(m.state), m.pos, m.events)
    case ObjectInitial =>
      Next(Machine(m.pos + 1, dst, m.stack + [Frame(ResumeState(m.state), 0)], m.events + [StartObject]))
    case ArrayInitial =>
      Next(Machine(m.pos + 1, dst, m.stack + [Frame(ResumeState(m.state), 0)], m.events + [StartArray]))
    case MemberKey => LeafMove(m, StringLeaf(t, m.pos, true), dst)
    case KeyValueDelimiter => Next(m.(pos := m.pos + 1, state := dst))
    case MemberDelimiter => Next(CountOne(m, dst))
    case ElementDelimiter => Next(CountOne(m, dst))
    case ObjectFinish =>
      if !flags.trailingCommas && m.state == MemberDelimiter then Stop(ObjectMissName, m.pos, m.events)
      else Next(Leave(m, MemberValue, true))
    case ArrayFinish =>
      if !flags.trailingCommas && m.state == ElementDelimiter then Stop(ValueInvalid, m.pos, m.events)
      else Next(Leave(m, Element, false))
    case SingleValue => LeafMove(m, ScalarLeaf(flags, t, m.pos), Finish)
    case _ => LeafMove(m, ScalarLeaf(flags, t, m.pos), dst)
  }

  /** Taking a comma: the top frame counts the value before it. */
  function CountOne(m: Machine, dst: State): Machine
    requires m.stack != []
  {
    var top := m.stack[|m.stack| - 1];
    Machine(m.pos + 1, dst, m.stack[..|m.stack| - 1] + [Frame(top.resume, Increment(top.count))], m.events)
  }

  /** The machine from `m` on, whitespace before the cursor skipped. */
  function Run(flags: Flags, t: seq<Byte>, m: Machine): (r: Outcome)
    requires m.pos <= |t| && WellFormed(m)
    decreases |t| - m.pos
  {
    if At(t, m.pos) == NUL then
      if m.state == Finish then Done(m.pos, m.events) else Failed(StateError(m.state), m.pos, m.events)
    else
      match Step(flags, t, m)
      case Stop(code, offset, events) => Failed(code, offset, events)
      case Next(n) =>
        if flags.stopWhenDone && n.state == Finish then Done(n.pos, n.events)
        else Run(flags, t, n.(pos := SkipWs(t, n.pos)))
  }

  /** GenericReader::IterativeParse. */
  function IterativeParse(flags: Flags, t: seq<Byte>): Outcome {
    Run(flags, t, Machine(SkipWs(t, 0), Start, [], []))
  }
}
