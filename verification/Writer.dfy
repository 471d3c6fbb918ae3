/** The writer of writer.h: a handler that prints its events as JSON text. */
module Writer {
  import opened Bytes
  import opened Decimals
  import opened Document
  import opened Doubles
  import opened ReaderSpec

  // ---------------------------------------------------------------------------------------------
  // Text of scalars
  // ---------------------------------------------------------------------------------------------

  const NULL_TEXT: seq<Byte> := [LOWER_N] + NULL_TAIL
  const TRUE_TEXT: seq<Byte> := [LOWER_T] + TRUE_TAIL
  const FALSE_TEXT: seq<Byte> := [LOWER_F] + FALSE_TAIL

  /** WriteString's treatment of one byte: its row of the escape table. */
  function Escape(c: Byte): (s: seq<Byte>)
    ensures s != []
  {
    if c == 0x08 then [BACKSLASH, LOWER_B]
    else if c == TAB then [BACKSLASH, LOWER_T]
    else if c == LF then [BACKSLASH, LOWER_N]
    else if c == 0x0C then [BACKSLASH, LOWER_F]
    else if c == CR then [BACKSLASH, LOWER_R]
    else if c < 0x20 then [BACKSLASH, LOWER_U, ZERO, ZERO, HexDigit(c / 16), HexDigit(c % 16)]
    else if c == QUOTE || c == BACKSLASH then [BACKSLASH, c]
    else [c]
  }

  function EscapeAll(s: seq<Byte>): seq<Byte> {
    if s == [] then [] else Escape(s[0]) + EscapeAll(s[1..])
  }

  function StringText(s: seq<Byte>): seq<Byte> {
    [QUOTE] + EscapeAll(s) + [QUOTE]
  }

  /** The events that WriteNull to WriteDouble and WriteString print. NaN and the infinities are refused. */
  predicate IsScalar(event: Event) {
    event.Null? || event.Bool? || event.Int? || event.Uint? || event.Int64? || event.Uint64?
    || (event.Double? && IsFinite(event.bits))
    || ((event.String? || event.Key?) && event.text.Copied?)
  }

  function ScalarText(format: DoubleFormat, event: Event): seq<Byte>
    requires IsScalar(event)
  {
    match event
    case Null => NULL_TEXT
    case Bool(b) => if b then TRUE_TEXT else FALSE_TEXT
    case Int(i) => IntegerText(i)
    case Uint(i) => IntegerText(i)
    case Int64(i) => IntegerText(i)
    case Uint64(i) => IntegerText(i)
    case Double(bits) => DoubleText(format, bits)
    case String(text) => StringText(text.bytes)
    case Key(text) => StringText(text.bytes)
  }

  // ---------------------------------------------------------------------------------------------
  // The writer's state
  // ---------------------------------------------------------------------------------------------

  datatype Level = Level(valueCount: nat, inArray: bool)

  datatype WriterState = WriterState(out: seq<Byte>, levels: seq<Level>, hasRoot: bool, doubles: DoubleFormat)

  function EmptyWriter(doubles: DoubleFormat): WriterState {
    WriterState([], [], false, doubles)
  }

  /** One whole value has been written. */
  predicate Complete(s: WriterState) {
    s.hasRoot && s.levels == []
  }

  function Top(s: WriterState): Level
    requires s.levels != []
  {
    s.levels[|s.levels| - 1]
  }

  /** The assertions of Prefix: one root only, and names where names belong. */
  predicate TakesValue(s: WriterState, isString: bool) {
    if s.levels == [] then !s.hasRoot
    else Top(s).inArray || Top(s).valueCount % 2 == 1 || isString
  }

  /** The comma or colon before the next value. */
  function Separator(s: WriterState): seq<Byte> {
    if s.levels == [] || Top(s).valueCount == 0 then []
    else if Top(s).inArray || Top(s).valueCount % 2 == 0 then [COMMA]
    else [COLON]
  }

  /** One more value on the current level. */
  function Count(s: WriterState): WriterState {
    if s.levels == [] then s.(hasRoot := true)
    else s.(levels := s.levels[..|s.levels| - 1] + [Top(s).(valueCount := Top(s).valueCount + 1)])
  }

  /** The state after a whole value with this text. */
  function Wrote(s: WriterState, text: seq<Byte>): WriterState {
    Count(s).(out := s.out + Separator(s) + text)
  }

  /** The assertions of the handler methods. */
  predicate Takes(s: WriterState, event: Event) {
    match event
    case StartObject => TakesValue(s, false)
    case StartArray => TakesValue(s, false)
    case EndObject(_) => s.levels != [] && !Top(s).inArray && Top(s).valueCount % 2 == 0
    case EndArray(_) => s.levels != [] && Top(s).inArray
    case _ => IsScalar(event) && TakesValue(s, event.String? || event.Key?)
  }

  /** The writer's state after one event. */
  function Write(s: WriterState, event: Event): WriterState
    requires Takes(s, event)
  {
    match event
    case StartObject => var w := Wrote(s, [LBRACE]); w.(levels := w.levels + [Level(0, false)])
    case StartArray => var w := Wrote(s, [LBRACKET]); w.(levels := w.levels + [Level(0, true)])
    case EndObject(_) => s.(levels := s.levels[..|s.levels| - 1], out := s.out + [RBRACE])
    case EndArray(_) => s.(levels := s.levels[..|s.levels| - 1], out := s.out + [RBRACKET])
    case _ => Wrote(s, ScalarText(s.doubles, event))
  }

  /** A run of events that trips no assertion and ends in `result`. */
  ghost predicate Writes(s: WriterState, events: seq<Event>, result: WriterState)
    decreases |events|
  {
    if events == [] then s == result
    else Takes(s, events[0]) && Writes(Write(s, events[0]), events[1..], result)
  }

  lemma {:induction false} WritesAppend(s: WriterState, a: seq<Event>, middle: WriterState, b: seq<Event>, result: WriterState)
    requires Writes(s, a, middle) && Writes(middle, b, result)
    ensures Writes(s, a + b, result)
    decreases |a|
  {
    if a == [] {
      assert a + b == b;
    } else {
      assert (a + b)[1..] == a[1..] + b;
      WritesAppend(Write(s, a[0]), a[1..], middle, b, result);
    }
  }

  lemma WritesOne(s: WriterState, event: Event)
    requires Takes(s, event)
    ensures Writes(s, [event], Write(s, event))
  {
    assert [event][1..] == [];
  }

  // ---------------------------------------------------------------------------------------------
  // Printing a tree
  // ---------------------------------------------------------------------------------------------

  /** The JSON text of a value, defined on the tree. */
  function Print(format: DoubleFormat, v: Value): (s: seq<Byte>)
    decreases v
  {
    match v
    case NullValue => NULL_TEXT
    case FalseValue => FALSE_TEXT
    case TrueValue => TRUE_TEXT
    case StringValue(bytes) => StringText(bytes)
    case NumberValue(_, _) => IntegerText(NumberOf(v))
    case DoubleValue(bits) => DoubleText(format, bits)
    case ArrayValue(elements) => [LBRACKET] + PrintElements(format, true, elements) + [RBRACKET]
    case ObjectValue(members) => [LBRACE] + PrintMembers(format, true, members) + [RBRACE]
  }

  function PrintElements(format: DoubleFormat, first: bool, elements: seq<Value>): seq<Byte>
    decreases elements
  {
    if elements == [] then []
    else (if first then [] else [COMMA]) + Print(format, elements[0]) + PrintElements(format, false, elements[1..])
  }

  function PrintMembers(format: DoubleFormat, first: bool, members: seq<Member>): seq<Byte>
    decreases members
  {
    if members == [] then []
    else (if first then [] else [COMMA]) + PrintMember(format, members[0]) + PrintMembers(format, false, members[1..])
  }

  function PrintMember(format: DoubleFormat, m: Member): seq<Byte>
    decreases m
  {
    Print(format, m.name) + [COLON] + Print(format, m.value)
  }

  /** A tree that the writer can print: its doubles are finite. */
  ghost predicate Printable(v: Value) {
    IsTree(v, IsFinite)
  }

  /** Wherever a value may stand, the events of Accept make the writer print that value's text, separated
      from what came before, and trip no assertion. */
  lemma {:induction false} WriterPrints(v: Value, s: WriterState)
    requires Printable(v) && TakesValue(s, v.StringValue?)
    ensures Writes(s, Events(Accepted, v), Wrote(s, Print(s.doubles, v)))
    decreases v
  {
    match v
    case ArrayValue(elements) =>
      var inside := Write(s, StartArray);
      WriterPrintsElements(elements, inside);
      ClosingArray(elements, s);
    case ObjectValue(members) =>
      var inside := Write(s, StartObject);
      WriterPrintsMembers(members, inside);
      ClosingObject(members, s);
    case NumberValue(_, _) =>
      NumberEventIsExact(v);
      WritesOne(s, NumberEvent(v));
    case NullValue | FalseValue | TrueValue | StringValue(_) | DoubleValue(_) =>
      WritesOne(s, Events(Accepted, v)[0]);
  }

  /** The state in a container of which `count` values and the text `text` were written since `s`. */
  function Inside(s: WriterState, text: seq<Byte>, count: nat): WriterState
    requires s.levels != []
  {
    s.(out := s.out + text,
       levels := s.levels[..|s.levels| - 1] + [Top(s).(valueCount := Top(s).valueCount + count)])
  }

  /** Opening a container, filling it and closing it writes the container as one value. */
  lemma Closing(s: WriterState, open: Event, text: seq<Byte>, count: nat, end: Event)
    requires (open == StartArray && end.EndArray?) || (open == StartObject && end.EndObject? && count % 2 == 0)
    requires TakesValue(s, false)
    ensures var full := Inside(Write(s, open), text, count);
            && Takes(full, end)
            && Write(full, end) == Wrote(s, (if end.EndArray? then [LBRACKET] + text + [RBRACKET]
                                             else [LBRACE] + text + [RBRACE]))
  {
    hide ScalarText;
    var inside := Write(s, open);
    var full := Inside(inside, text, count);
    var b := if end.EndArray? then LBRACKET else LBRACE;
    var e: Byte := if end.EndArray? then RBRACKET else RBRACE;
    assert inside.levels[..|inside.levels| - 1] == Count(s).levels;
    assert full.levels[..|full.levels| - 1] == Count(s).levels;
    Associative(s.out + Separator(s), [b], text);
    Associative(s.out + Separator(s), [b] + text, [e]);
  }

  lemma Opens(s: WriterState, open: Event)
    requires (open == StartArray || open == StartObject) && TakesValue(s, false)
    ensures Takes(s, open) && Write(s, open).levels != [] && Write(s, open).doubles == s.doubles
  {
  }

  lemma ArrayShape(format: DoubleFormat, elements: seq<Value>)
    requires |elements| < UINT32_BOUND
    ensures Print(format, ArrayValue(elements)) == [LBRACKET] + PrintElements(format, true, elements) + [RBRACKET]
    ensures Events(Accepted, ArrayValue(elements))
         == [StartArray] + ElementEvents(Accepted, elements) + [EndArray(|elements|)]
  {
    hide ElementEvents, PrintElements, DoubleText, IntegerText, StringText, NumberEventBy;
  }

  lemma ObjectShape(format: DoubleFormat, members: seq<Member>)
    requires |members| < UINT32_BOUND
    ensures Print(format, ObjectValue(members)) == [LBRACE] + PrintMembers(format, true, members) + [RBRACE]
    ensures Events(Accepted, ObjectValue(members))
         == [StartObject] + MembersEvents(Accepted, members) + [EndObject(|members|)]
  {
    hide MembersEvents, PrintMembers, DoubleText, IntegerText, StringText, NumberEventBy;
  }

  lemma ClosingArray(elements: seq<Value>, s: WriterState)
    requires |elements| < UINT32_BOUND && TakesValue(s, false)
    requires Writes(Write(s, StartArray), ElementEvents(Accepted, elements),
                    Inside(Write(s, StartArray), PrintElements(s.doubles, true, elements), |elements|))
    ensures Writes(s, Events(Accepted, ArrayValue(elements)), Wrote(s, Print(s.doubles, ArrayValue(elements))))
  {
    hide Writes, ElementEvents, PrintElements, Wrote, Inside, Print, Events, Write;
    Opens(s, StartArray);
    ArrayShape(s.doubles, elements);
    var inside := Write(s, StartArray);
    var full := Inside(inside, PrintElements(s.doubles, true, elements), |elements|);
    var end := EndArray(|elements|);
    var events := ElementEvents(Accepted, elements);
    Closing(s, StartArray, PrintElements(s.doubles, true, elements), |elements|, end);
    WritesOne(full, end);
    WritesAppend(inside, events, full, [end], Write(full, end));
    WritesOne(s, StartArray);
    WritesAppend(s, [StartArray], inside, events + [end], Write(full, end));
    Associative([StartArray], events, [end]);
  }

  lemma ClosingObject(members: seq<Member>, s: WriterState)
    requires |members| < UINT32_BOUND && TakesValue(s, false)
    requires Writes(Write(s, StartObject), MembersEvents(Accepted, members),
                    Inside(Write(s, StartObject), PrintMembers(s.doubles, true, members), 2 * |members|))
    ensures Writes(s, Events(Accepted, ObjectValue(members)), Wrote(s, Print(s.doubles, ObjectValue(members))))
  {
    hide Writes, MembersEvents, PrintMembers, Wrote, Inside, Print, Events, Write;
    Opens(s, StartObject);
    ObjectShape(s.doubles, members);
    var inside := Write(s, StartObject);
    var full := Inside(inside, PrintMembers(s.doubles, true, members), 2 * |members|);
    var end := EndObject(|members|);
    var events := MembersEvents(Accepted, members);
    Closing(s, StartObject, PrintMembers(s.doubles, true, members), 2 * |members|, end);
    WritesOne(full, end);
    WritesAppend(inside, events, full, [end], Write(full, end));
    WritesOne(s, StartObject);
    WritesAppend(s, [StartObject], inside, events + [end], Write(full, end));
    Associative([StartObject], events, [end]);
  }

  /** Values written one after the other in a container add up. */
  lemma InsideTwice(s: WriterState, a: seq<Byte>, m: nat, b: seq<Byte>, n: nat)
    requires s.levels != []
    ensures Inside(Inside(s, a, m), b, n) == Inside(s, a + b, m + n)
  {
    assert s.out + a + b == s.out + (a + b);
  }

  lemma WroteIsInside(s: WriterState, text: seq<Byte>)
    requires s.levels != []
    ensures Wrote(s, text) == Inside(s, Separator(s) + text, 1)
  {
    assert s.out + Separator(s) + text == s.out + (Separator(s) + text);
  }

  lemma {:induction false} WriterPrintsElements(elements: seq<Value>, s: WriterState)
    requires forall i :: 0 <= i < |elements| ==> Printable(elements[i])
    requires s.levels != [] && Top(s).inArray
    ensures Writes(s, ElementEvents(Accepted, elements),
                   Inside(s, PrintElements(s.doubles, Top(s).valueCount == 0, elements), |elements|))
    decreases elements
  {
    hide Writes, Print, Events, Separator, IsTree;
    if elements == [] {
      WritesNothing(s);
      assert Inside(s, [], 0) == s;
    } else {
      var next := Wrote(s, Print(s.doubles, elements[0]));
      WriterPrints(elements[0], s);
      WriterPrintsElements(elements[1..], next);
      var head, rest := Separator(s) + Print(s.doubles, elements[0]), PrintElements(s.doubles, false, elements[1..]);
      WroteIsInside(s, Print(s.doubles, elements[0]));
      InsideTwice(s, head, 1, rest, |elements| - 1);
      FirstPrinted(s, elements);
      WritesAppend(s, Events(Accepted, elements[0]), next, ElementEvents(Accepted, elements[1..]),
                   Inside(s, head + rest, |elements|));
    }
  }

  lemma FirstPrinted(s: WriterState, elements: seq<Value>)
    requires elements != [] && s.levels != [] && Top(s).inArray
    ensures Separator(s) + Print(s.doubles, elements[0]) + PrintElements(s.doubles, false, elements[1..])
         == PrintElements(s.doubles, Top(s).valueCount == 0, elements)
  {
    hide Print;
  }

  lemma WritesNothing(s: WriterState)
    ensures Writes(s, [], s)
  {
  }

  lemma {:induction false} WriterPrintsMembers(members: seq<Member>, s: WriterState)
    requires forall i :: 0 <= i < |members| ==> members[i].name.StringValue? && Printable(members[i].value)
    requires s.levels != [] && !Top(s).inArray && Top(s).valueCount % 2 == 0
    ensures Writes(s, MembersEvents(Accepted, members),
                   Inside(s, PrintMembers(s.doubles, Top(s).valueCount == 0, members), 2 * |members|))
    decreases members
  {
    hide Writes, PrintMember, MemberEvents;
    if members == [] {
      WritesNothing(s);
      assert Inside(s, [], 0) == s;
    } else {
      var head, rest := Separator(s) + PrintMember(s.doubles, members[0]), PrintMembers(s.doubles, false, members[1..]);
      var next := Inside(s, head, 2);
      WriterPrintsMember(members[0], s);
      WriterPrintsMembers(members[1..], next);
      InsideTwice(s, head, 2, rest, 2 * |members| - 2);
      assert head + rest == PrintMembers(s.doubles, Top(s).valueCount == 0, members);
      WritesAppend(s, MemberEvents(Accepted, members[0]), next, MembersEvents(Accepted, members[1..]),
                   Inside(s, head + rest, 2 * |members|));
    }
  }

  lemma {:induction false} WriterPrintsMember(m: Member, s: WriterState)
    requires m.name.StringValue? && Printable(m.value)
    requires s.levels != [] && !Top(s).inArray && Top(s).valueCount % 2 == 0
    ensures Writes(s, MemberEvents(Accepted, m), Inside(s, Separator(s) + PrintMember(s.doubles, m), 2))
    decreases m
  {
    hide Writes, DoubleText, IntegerText, StringText, NumberEventBy;
    var key := Key(Copied(m.name.bytes));
    var named := Wrote(s, Print(s.doubles, m.name));
    WritesOne(s, key);
    assert Write(s, key) == named;
    WriterPrints(m.value, named);
    WroteIsInside(s, Print(s.doubles, m.name));
    WroteIsInside(named, Print(s.doubles, m.value));
    InsideTwice(s, Separator(s) + Print(s.doubles, m.name), 1, [COLON] + Print(s.doubles, m.value), 1);
    assert Separator(s) + Print(s.doubles, m.name) + ([COLON] + Print(s.doubles, m.value)) == Separator(s) + PrintMember(s.doubles, m);
    WritesAppend(s, [key], named, Events(Accepted, m.value), Inside(s, Separator(s) + PrintMember(s.doubles, m), 2));
  }

  // ---------------------------------------------------------------------------------------------
  // What the writer refuses
  // ---------------------------------------------------------------------------------------------

  ghost predicate AllFinite(events: seq<Event>) {
    forall e :: e in events && e.Double? ==> IsFinite(e.bits)
  }

  lemma {:induction false} TakenAreFinite(s: WriterState, events: seq<Event>, r: WriterState)
    requires Writes(s, events, r)
    ensures AllFinite(events)
    decreases |events|
  {
    hide Write, TakesValue, IsFinite;
    if events != [] {
      TakenAreFinite(Write(s, events[0]), events[1..], r);
    }
  }

  lemma {:induction false} FiniteElements(elements: seq<Value>, i: nat)
    requires i < |elements| && AllFinite(ElementEvents(Accepted, elements))
    ensures AllFinite(Events(Accepted, elements[i]))
  {
    hide Events, IsFinite;
    if i > 0 {
      FiniteElements(elements[1..], i - 1);
    }
  }

  lemma {:induction false} FiniteMembers(members: seq<Member>, i: nat)
    requires i < |members| && AllFinite(MembersEvents(Accepted, members))
    ensures AllFinite(Events(Accepted, members[i].value))
  {
    hide Events, IsFinite;
    if i > 0 {
      FiniteMembers(members[1..], i - 1);
    }
  }

  lemma {:induction false} FiniteEventsOfPrintable(v: Value)
    requires Storable(v) && AllFinite(Events(Accepted, v))
    ensures Printable(v)
    decreases v
  {
    hide IsFinite;
    match v
    case ArrayValue(elements) =>
      assert AllFinite(ElementEvents(Accepted, elements));
      forall i | 0 <= i < |elements|
        ensures IsTree(elements[i], IsFinite)
      {
        FiniteElements(elements, i);
        FiniteEventsOfPrintable(elements[i]);
      }
    case ObjectValue(members) =>
      assert AllFinite(MembersEvents(Accepted, members));
      forall i | 0 <= i < |members|
        ensures IsTree(members[i].value, IsFinite)
      {
        FiniteMembers(members, i);
        FiniteEventsOfPrintable(members[i].value);
      }
    case DoubleValue(bits) => assert Double(bits) in Events(Accepted, v);
    case _ =>
  }

  /** Of the trees that a document can hold, the writer prints those whose doubles are finite, and no other. */
  lemma PrintsExactlyFinite(v: Value, s: WriterState)
    requires Storable(v) && TakesValue(s, v.StringValue?)
    ensures (exists r :: Writes(s, Events(Accepted, v), r)) <==> Printable(v)
  {
    hide Writes, Events, Storable, Printable, Print;
    if Printable(v) {
      WriterPrints(v, s);
    }
    if r :| Writes(s, Events(Accepted, v), r) {
      TakenAreFinite(s, Events(Accepted, v), r);
      FiniteEventsOfPrintable(v);
    }
  }

  // ---------------------------------------------------------------------------------------------
  // The writer as it runs
  // ---------------------------------------------------------------------------------------------

  class Writer {
    const doubles: DoubleFormat   // maxDecimalPlaces_, and what Grisu2 computes
    var os: seq<Byte>             // the output stream's contents
    var levelStack: seq<Level>
    var hasRoot: bool

    constructor (doubles: DoubleFormat)
      ensures State() == EmptyWriter(doubles)
    {
      this.doubles, os, levelStack, hasRoot := doubles, [], [], false;
    }

    function State(): WriterState
      reads this
    {
      WriterState(os, levelStack, hasRoot, doubles)
    }

    predicate IsComplete()
      reads this
      ensures IsComplete() <==> Complete(State())
    {
      hasRoot && levelStack == []
    }

    method Put(c: Byte)
      modifies this`os
      ensures os == old(os) + [c]
    {
      os := os + [c];
    }

    method PutAll(text: seq<Byte>)
      modifies this`os
      ensures os == old(os) + text
    {
      for k := 0 to |text|
        invariant os == old(os) + text[..k]
      {
        Put(text[k]);
      }
    }

    method Prefix(isString: bool)
      requires TakesValue(State(), isString)
      modifies this
      ensures State() == Wrote(old(State()), [])
    {
      if |levelStack| != 0 {
        var level := levelStack[|levelStack| - 1];
        if level.valueCount > 0 {
          if level.inArray {
            Put(COMMA);
          } else {
            Put(if level.valueCount % 2 == 0 then COMMA else COLON);
          }
        }
        levelStack := levelStack[..|levelStack| - 1] + [level.(valueCount := level.valueCount + 1)];
      } else {
        hasRoot := true;
      }
    }

    /** i32toa and its kin, into a buffer that is then copied to the stream. */
    method WriteInteger(i: int)
      modifies this`os
      ensures os == old(os) + IntegerText(i)
    {
      PutAll(IntegerText(i));
    }

    /** dtoa into a buffer that is then copied to the stream. */
    method WriteDouble(bits: int)
      requires IsFinite(bits)
      modifies this`os
      ensures os == old(os) + DoubleText(doubles, bits)
    {
      hide MagnitudeText;
      if Sign(bits) {
        Put(MINUS);
      }
      var buffer, end := FormatMagnitude(doubles, bits);
      PutAll(buffer[..end]);
    }

    /** The loop body of WriteString. */
    method WriteByte(c: Byte)
      modifies this`os
      ensures os == old(os) + Escape(c)
    {
      if Escape(c) != [c] {
        Put(BACKSLASH);
        Put(Escape(c)[1]);
        if Escape(c)[1] == LOWER_U {
          Put(ZERO);
          Put(ZERO);
          Put(HexDigit(c / 16));
          Put(HexDigit(c % 16));
        }
      } else {
        Put(c);
      }
    }

    method WriteString(str: seq<Byte>)
      modifies this`os
      ensures os == old(os) + StringText(str)
    {
      hide Escape;
      Put(QUOTE);
      for k := 0 to |str|
        invariant os == old(os) + ([QUOTE] + EscapeAll(str[..k]))
      {
        EscapeAllAppend(str[..k], str[k]);
        assert str[..k + 1] == str[..k] + [str[k]];
        WriteByte(str[k]);
      }
      assert str[..|str|] == str;
      Put(QUOTE);
    }

    method WriteScalar(event: Event)
      requires IsScalar(event)
      modifies this`os
      ensures os == old(os) + ScalarText(doubles, event)
    {
      match event
      case Null => PutAll(NULL_TEXT);
      case Bool(b) =>
        if b {
          PutAll(TRUE_TEXT);
        } else {
          PutAll(FALSE_TEXT);
        }
      case Int(i) => WriteInteger(i);
      case Uint(i) => WriteInteger(i);
      case Int64(i) => WriteInteger(i);
      case Uint64(i) => WriteInteger(i);
      case Double(bits) => WriteDouble(bits);
      case String(text) => WriteString(text.bytes);
      case Key(text) => WriteString(text.bytes);
    }

    method StartContainer(inArray: bool)
      requires TakesValue(State(), false)
      modifies this
      ensures State() == Write(old(State()), if inArray then StartArray else StartObject)
    {
      Prefix(false);
      levelStack := levelStack + [Level(0, inArray)];
      Put(if inArray then LBRACKET else LBRACE);
    }

    method EndContainer(inArray: bool)
      requires levelStack != []
      modifies this
      ensures State() == WriterState(old(os) + [if inArray then RBRACKET else RBRACE],
                                     old(levelStack)[..|old(levelStack)| - 1], old(hasRoot), doubles)
    {
      levelStack := levelStack[..|levelStack| - 1];
      Put(if inArray then RBRACKET else RBRACE);
    }

    /** The handler methods. */
    method Notify(event: Event)
      requires Takes(State(), event)
      modifies this
      ensures State() == Write(old(State()), event)
    {
      hide ScalarText;
      if event.StartObject? || event.StartArray? {
        StartContainer(event.StartArray?);
      } else if event.EndObject? || event.EndArray? {
        EndContainer(event.EndArray?);
      } else {
        Prefix(event.String? || event.Key?);
        WriteScalar(event);
      }
    }
  }

  lemma {:induction false} EscapeAllAppend(s: seq<Byte>, c: Byte)
    ensures EscapeAll(s + [c]) == EscapeAll(s) + Escape(c)
  {
    hide Escape;
    if s == [] {
      assert s + [c] == [c] && EscapeAll([c]) == Escape(c) + EscapeAll([]);
    } else {
      EscapeAllAppend(s[1..], c);
      assert (s + [c])[1..] == s[1..] + [c];
      Associative(Escape(s[0]), EscapeAll(s[1..]), Escape(c));
    }
  }
}
