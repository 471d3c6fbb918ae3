/** The values of document.h, the events they fire, and the document as a handler that builds them. */
module Document {
  import opened Bits
  import opened Bytes
  import opened Powers
  import opened ReaderSpec

  datatype NumberFlag = IntFlag | UintFlag | Int64Flag | Uint64Flag

  /** A GenericValue. A number holds 64 raw bits and the set of types it can be read as. */
  datatype Value =
    | NullValue
    | FalseValue
    | TrueValue
    | StringValue(bytes: seq<Byte>)
    | NumberValue(bits: Word64, flags: set<NumberFlag>)
    | DoubleValue(double: int)
    | ArrayValue(elements: seq<Value>)
    | ObjectValue(members: seq<Member>)

  datatype Member = Member(name: Value, value: Value)

  // ---------------------------------------------------------------------------------------------
  // Integers and their type flags
  // ---------------------------------------------------------------------------------------------

  /** An integer as 64 bits, in two's complement. */
  function ToBits(i: int): Word64
    requires -INT64_BOUND <= i < UINT64_BOUND
  {
    if i < 0 then i + UINT64_BOUND else i
  }

  /** The constructor for `int`. */
  function FromInt(i: int): Value
    requires -INT32_BOUND <= i < INT32_BOUND
  {
    NumberValue(ToBits(i), if i >= 0 then {IntFlag, Int64Flag, UintFlag, Uint64Flag} else {IntFlag, Int64Flag})
  }

  /** The constructor for `unsigned`. */
  function FromUint(u: int): Value
    requires 0 <= u < UINT32_BOUND
  {
    NumberValue(u, if u >= INT32_BOUND then {UintFlag, Uint64Flag, Int64Flag}
                   else {UintFlag, Uint64Flag, Int64Flag, IntFlag})
  }

  /** The constructor for `int64_t`. */
  function FromInt64(i: int): Value
    requires -INT64_BOUND <= i < INT64_BOUND
  {
    NumberValue(ToBits(i),
      if i >= 0 then
        {Int64Flag, Uint64Flag} + (if i < UINT32_BOUND then {UintFlag} else {}) + (if i < INT32_BOUND then {IntFlag} else {})
      else
        {Int64Flag} + (if i >= -INT32_BOUND then {IntFlag} else {}))
  }

  /** The constructor for `uint64_t`. */
  function FromUint64(u: int): Value
    requires 0 <= u < UINT64_BOUND
  {
    NumberValue(u, {Uint64Flag} + (if u < INT64_BOUND then {Int64Flag} else {})
                   + (if u < UINT32_BOUND then {UintFlag} else {}) + (if u < INT32_BOUND then {IntFlag} else {}))
  }

  /** The bits that the constructors mask: bit 31, the upper 33 or 32 of 64 bits, bit 63. */
  lemma FlagMasks(u: Word64)
    ensures u < UINT32_BOUND ==> (And(u, 0x8000_0000) == 0 <==> u < INT32_BOUND)
    ensures And(u, 0xFFFF_FFFF_8000_0000) == 0 <==> u < INT32_BOUND
    ensures And(u, 0xFFFF_FFFF_0000_0000) == 0 <==> u < UINT32_BOUND
    ensures And(u, 0x8000_0000_0000_0000) == 0 <==> u < INT64_BOUND
  {
    hide And, Pow;
    MaskPowers();
    if u < UINT32_BOUND {
      HighMask(u, 1, 31);
    }
    HighMask(u, 33, 31);
    HighMask(u, 32, 32);
    HighMask(u, 1, 63);
  }

  lemma MaskPowers()
    ensures Pow(2, 1) == 2 && Pow(2, 31) == 0x8000_0000 && Pow(2, 32) == 0x1_0000_0000
    ensures Pow(2, 33) == 0x2_0000_0000 && Pow(2, 63) == 0x8000_0000_0000_0000
  {
    PowersOfTwo();
  }

  /** The constructors with the masks of the source. */
  method ConstructUint(u: int) returns (v: Value)
    requires 0 <= u < UINT32_BOUND
    ensures v == FromUint(u)
  {
    FlagMasks(u);
    v := NumberValue(u, if And(u, 0x8000_0000) != 0 then {UintFlag, Uint64Flag, Int64Flag}
                        else {UintFlag, Uint64Flag, Int64Flag, IntFlag});
  }

  method ConstructInt64(i: int) returns (v: Value)
    requires -INT64_BOUND <= i < INT64_BOUND
    ensures v == FromInt64(i)
  {
    FlagMasks(ToBits(i));
    var flags := {Int64Flag};
    if i >= 0 {
      flags := flags + {Uint64Flag};
      if And(ToBits(i), 0xFFFF_FFFF_0000_0000) == 0 {
        flags := flags + {UintFlag};
      }
      if And(ToBits(i), 0xFFFF_FFFF_8000_0000) == 0 {
        flags := flags + {IntFlag};
      }
    } else if i >= 0xFFFF_FFFF_8000_0000 - UINT64_BOUND {
      flags := flags + {IntFlag};
    }
    v := NumberValue(ToBits(i), flags);
  }

  method ConstructUint64(u: int) returns (v: Value)
    requires 0 <= u < UINT64_BOUND
    ensures v == FromUint64(u)
  {
    FlagMasks(u);
    var flags := {Uint64Flag};
    if And(u, 0x8000_0000_0000_0000) == 0 {
      flags := flags + {Int64Flag};
    }
    if And(u, 0xFFFF_FFFF_0000_0000) == 0 {
      flags := flags + {UintFlag};
    }
    if And(u, 0xFFFF_FFFF_8000_0000) == 0 {
      flags := flags + {IntFlag};
    }
    v := NumberValue(u, flags);
  }

  /** The flags as documented: a value has the flag of every integer type that can hold it. */
  ghost predicate HasFlagsOf(v: Value, i: int) {
    && v.NumberValue?
    && (IntFlag in v.flags <==> -INT32_BOUND <= i < INT32_BOUND)
    && (UintFlag in v.flags <==> 0 <= i < UINT32_BOUND)
    && (Int64Flag in v.flags <==> -INT64_BOUND <= i < INT64_BOUND)
    && (Uint64Flag in v.flags <==> 0 <= i < UINT64_BOUND)
  }

  /** The integer that a number value denotes. */
  function NumberOf(v: Value): int
    requires v.NumberValue?
  {
    if Uint64Flag !in v.flags && v.bits >= INT64_BOUND then v.bits - UINT64_BOUND else v.bits
  }

  /** A number as some constructor makes it. */
  ghost predicate IsIntegerValue(v: Value) {
    v.NumberValue? && HasFlagsOf(v, NumberOf(v))
  }

  /** Whichever constructor an integer comes through, its bits and its flags are the same: those of the
      types that can hold it. */
  lemma ConstructorsAgree(i: int)
    ensures -INT32_BOUND <= i < INT32_BOUND ==> HasFlagsOf(FromInt(i), i) && FromInt(i) == FromInt64(i)
    ensures 0 <= i < UINT32_BOUND ==> HasFlagsOf(FromUint(i), i) && FromUint(i) == FromUint64(i)
    ensures -INT64_BOUND <= i < INT64_BOUND ==> HasFlagsOf(FromInt64(i), i) && NumberOf(FromInt64(i)) == i
    ensures 0 <= i < UINT64_BOUND ==> HasFlagsOf(FromUint64(i), i) && NumberOf(FromUint64(i)) == i
    ensures 0 <= i < INT64_BOUND ==> FromInt64(i) == FromUint64(i)
  {
  }

  /** A number value is what the constructors make of the integer it denotes. */
  lemma IntegerValueIsConstructed(v: Value)
    requires IsIntegerValue(v)
    ensures var i := NumberOf(v);
            && -INT64_BOUND <= i < UINT64_BOUND
            && v == (if i < 0 then FromInt64(i) else FromUint64(i))
  {
    var i := NumberOf(v);
    var w := if i < 0 then FromInt64(i) else FromUint64(i);
    forall f
      ensures f in v.flags <==> f in w.flags
    {
      match f
      case IntFlag =>
      case UintFlag =>
      case Int64Flag =>
      case Uint64Flag =>
    }
    assert v.flags == w.flags;
  }

  /** operator== on two numbers that are no doubles. */
  predicate NumbersEqual(a: Value, b: Value)
    requires a.NumberValue? && b.NumberValue?
  {
    a.bits == b.bits
  }

  /** The comparison looks at raw bits: it is right unless the integers differ by 2^64, as -1 and
      2^64 - 1 do. */
  lemma EqualityIsOfBits(a: Value, b: Value)
    requires IsIntegerValue(a) && IsIntegerValue(b)
    ensures NumbersEqual(a, b)
       <==> NumberOf(a) - NumberOf(b) in {0, UINT64_BOUND, -UINT64_BOUND}
    ensures NumbersEqual(FromInt(-1), FromUint64(UINT64_BOUND - 1))
  {
    IntegerValueIsConstructed(a);
    IntegerValueIsConstructed(b);
  }

  // ---------------------------------------------------------------------------------------------
  // Events of a value
  // ---------------------------------------------------------------------------------------------

  /** A tree of values as a document holds it, its doubles being of a kind. */
  ghost predicate IsTree(v: Value, kind: int -> bool) {
    match v
    case NumberValue(_, _) => IsIntegerValue(v)
    case DoubleValue(bits) => kind(bits)
    case ArrayValue(elements) =>
      |elements| < UINT32_BOUND && forall i :: 0 <= i < |elements| ==> IsTree(elements[i], kind)
    case ObjectValue(members) =>
      && |members| < UINT32_BOUND
      && forall i :: 0 <= i < |members| ==> members[i].name.StringValue? && IsTree(members[i].value, kind)
    case _ => true
  }

  predicate AnyDouble(bits: int) {
    true
  }

  /** A tree that a document can hold. */
  ghost predicate Storable(v: Value) {
    IsTree(v, AnyDouble)
  }

  /** A wider kind of doubles allows the same trees. */
  lemma {:induction false} WiderKind(v: Value, kind: int -> bool, wider: int -> bool)
    requires IsTree(v, kind) && forall bits :: kind(bits) ==> wider(bits)
    ensures IsTree(v, wider)
    decreases v
  {
    match v
    case ArrayValue(elements) =>
      forall i | 0 <= i < |elements|
        ensures IsTree(elements[i], wider)
      {
        WiderKind(elements[i], kind, wider);
      }
    case ObjectValue(members) =>
      forall i | 0 <= i < |members|
        ensures IsTree(members[i].value, wider)
      {
        WiderKind(members[i].value, kind, wider);
      }
    case _ =>
  }

  /** The event that Accept fires for a number: the first type flag in a fixed order decides. */
  function NumberEvent(v: Value): Event
    requires v.NumberValue?
  {
    var low := v.bits % UINT32_BOUND;
    if IntFlag in v.flags then Int(if low < INT32_BOUND then low else low - UINT32_BOUND)
    else if UintFlag in v.flags then Uint(low)
    else if Int64Flag in v.flags then Int64(if v.bits < INT64_BOUND then v.bits else v.bits - UINT64_BOUND)
    else Uint64(v.bits)
  }

  /** Who fires the events of a value: Accept, by its type flags, or a parser, by its literal. */
  datatype Source = Accepted | Parsed

  /** The event for a number. A parser cannot know more of it than its sign and magnitude. */
  function NumberEventBy(source: Source, v: Value): Event
    requires v.NumberValue?
  {
    var i := NumberOf(v);
    match source
    case Accepted => NumberEvent(v)
    case Parsed => if i < 0 then IntegerEvent(true, -i) else IntegerEvent(false, i)
  }

  /** The events of a value, in order: Accept for the one source, ParseValue for the other. */
  function Events(source: Source, v: Value): seq<Event> {
    match v
    case NullValue => [Null]
    case FalseValue => [Bool(false)]
    case TrueValue => [Bool(true)]
    case StringValue(bytes) => [String(Copied(bytes))]
    case NumberValue(_, _) => [NumberEventBy(source, v)]
    case DoubleValue(bits) => [Double(bits)]
    case ArrayValue(elements) =>
      [StartArray] + ElementEvents(source, elements) + [EndArray(|elements| % UINT32_BOUND)]
    case ObjectValue(members) =>
      [StartObject] + MembersEvents(source, members) + [EndObject(|members| % UINT32_BOUND)]
  }

  function ElementEvents(source: Source, elements: seq<Value>): seq<Event> {
    if elements == [] then [] else Events(source, elements[0]) + ElementEvents(source, elements[1..])
  }

  function MembersEvents(source: Source, members: seq<Member>): seq<Event> {
    if members == [] then [] else MemberEvents(source, members[0]) + MembersEvents(source, members[1..])
  }

  function MemberEvents(source: Source, m: Member): seq<Event> {
    [Key(Copied(if m.name.StringValue? then m.name.bytes else []))] + Events(source, m.value)
  }

  /** For a constructed number the event carries the number, in the narrowest signed-first type. */
  lemma NumberEventIsExact(v: Value)
    requires IsIntegerValue(v)
    ensures var i := NumberOf(v);
            NumberEvent(v) == (if -INT32_BOUND <= i < INT32_BOUND then Int(i)
                               else if 0 <= i < UINT32_BOUND then Uint(i)
                               else if i < INT64_BOUND then Int64(i)
                               else Uint64(i))
  {
    IntegerValueIsConstructed(v);
  }

  // ---------------------------------------------------------------------------------------------
  // Building a value from events
  // ---------------------------------------------------------------------------------------------

  /** The integers that a handler can be handed. */
  ghost predicate InRange(event: Event) {
    match event
    case Int(i) => -INT32_BOUND <= i < INT32_BOUND
    case Uint(i) => 0 <= i < UINT32_BOUND
    case Int64(i) => -INT64_BOUND <= i < INT64_BOUND
    case Uint64(i) => 0 <= i < UINT64_BOUND
    case String(text) => text.Copied?
    case Key(text) => text.Copied?
    case _ => true
  }

  /** Whether the builder's stack is deep enough for an event. */
  ghost predicate Deep(stack: seq<Value>, event: Event) {
    match event
    case EndArray(n) => n < |stack|
    case EndObject(n) => 2 * n < |stack|
    case _ => true
  }

  /** Pairs of values as members: a Member is two GenericValues side by side. */
  function Pairs(values: seq<Value>): (members: seq<Member>)
    requires |values| % 2 == 0
    ensures |members| == |values| / 2
    ensures forall i :: 0 <= i < |members| ==> members[i] == Member(values[2 * i], values[2 * i + 1])
  {
    seq(|values| / 2, i requires 0 <= i < |values| / 2 => Member(values[2 * i], values[2 * i + 1]))
  }

  /** The stack of values after one event. */
  function Build(stack: seq<Value>, event: Event): (r: seq<Value>)
    requires InRange(event) && Deep(stack, event)
  {
    match event
    case Null => stack + [NullValue]
    case Bool(b) => stack + [if b then TrueValue else FalseValue]
    case Int(i) => stack + [FromInt(i)]
    case Uint(i) => stack + [FromUint(i)]
    case Int64(i) => stack + [FromInt64(i)]
    case Uint64(i) => stack + [FromUint64(i)]
    case Double(bits) => stack + [DoubleValue(bits)]
    case String(text) => stack + [StringValue(text.bytes)]
    case Key(text) => stack + [StringValue(text.bytes)]
    case StartObject => stack + [ObjectValue([])]
    case StartArray => stack + [ArrayValue([])]
    case EndObject(n) => stack[..|stack| - 2 * n - 1] + [ObjectValue(Pairs(stack[|stack| - 2 * n..]))]
    case EndArray(n) => stack[..|stack| - n - 1] + [ArrayValue(stack[|stack| - n..])]
  }

  /** Whether a run of events can be built from this stack, and what it leaves. */
  ghost predicate Builds(stack: seq<Value>, events: seq<Event>, result: seq<Value>)
    decreases |events|
  {
    if events == [] then stack == result
    else InRange(events[0]) && Deep(stack, events[0]) && Builds(Build(stack, events[0]), events[1..], result)
  }

  lemma {:induction false} BuildsAppend(stack: seq<Value>, a: seq<Event>, middle: seq<Value>, b: seq<Event>, result: seq<Value>)
    requires Builds(stack, a, middle) && Builds(middle, b, result)
    ensures Builds(stack, a + b, result)
    decreases |a|
  {
    if a == [] {
      assert a + b == b;
    } else {
      assert (a + b)[1..] == a[1..] + b;
      BuildsAppend(Build(stack, a[0]), a[1..], middle, b, result);
    }
  }

  /** Both event streams of a value build that value, and leave the stack below it alone. */
  lemma {:induction false} EventsBuildValue(source: Source, v: Value, stack: seq<Value>)
    requires Storable(v)
    ensures Builds(stack, Events(source, v), stack + [v])
    decreases v
  {
    match v
    case ArrayValue(elements) =>
      EventsBuildElements(source, elements, stack + [ArrayValue([])]);
      ClosingBuildsArray(source, elements, stack);
    case ObjectValue(members) =>
      EventsBuildMembers(source, members, stack + [ObjectValue([])]);
      ClosingBuildsObject(source, members, stack);
    case NumberValue(_, _) =>
      NumberEventIsExact(v);
      IntegerValueIsConstructed(v);
      ConstructorsAgree(NumberOf(v));
      BuildsOne(stack, NumberEventBy(source, v), stack + [v]);
    case NullValue | FalseValue | TrueValue | StringValue(_) | DoubleValue(_) =>
      BuildsOne(stack, Events(source, v)[0], stack + [v]);
  }

  lemma Unstack(stack: seq<Value>, bottom: Value, top: seq<Value>)
    ensures var full := stack + [bottom] + top;
            full[..|full| - |top| - 1] == stack && full[|full| - |top|..] == top
  {
  }

  /** EndArray takes the elements off the stack and puts them into the array below them. */
  lemma ClosingBuildsArray(source: Source, elements: seq<Value>, stack: seq<Value>)
    requires |elements| < UINT32_BOUND
    requires Builds(stack + [ArrayValue([])], ElementEvents(source, elements), stack + [ArrayValue([])] + elements)
    ensures Builds(stack, Events(source, ArrayValue(elements)), stack + [ArrayValue(elements)])
  {
    hide Builds, ElementEvents, MembersEvents;
    var v := ArrayValue(elements);
    var n: SizeType := |elements|;
    var empty := stack + [ArrayValue([])];
    var full := empty + elements;
    Unstack(stack, ArrayValue([]), elements);
    BuildsOne(full, EndArray(n), stack + [v]);
    BuildsAppend(empty, ElementEvents(source, elements), full, [EndArray(n)], stack + [v]);
    BuildsOne(stack, StartArray, empty);
    BuildsAppend(stack, [StartArray], empty, ElementEvents(source, elements) + [EndArray(n)], stack + [v]);
    assert Events(source, v) == [StartArray] + (ElementEvents(source, elements) + [EndArray(n)]);
  }

  /** EndObject takes names and values off the stack in pairs. */
  lemma ClosingBuildsObject(source: Source, members: seq<Member>, stack: seq<Value>)
    requires |members| < UINT32_BOUND
    requires Builds(stack + [ObjectValue([])], MembersEvents(source, members), stack + [ObjectValue([])] + Flat(members))
    ensures Builds(stack, Events(source, ObjectValue(members)), stack + [ObjectValue(members)])
  {
    hide Builds, ElementEvents, MembersEvents, Pairs, Flat;
    var v := ObjectValue(members);
    var n: SizeType := |members|;
    var empty := stack + [ObjectValue([])];
    var full := empty + Flat(members);
    FlatPairs(members);
    Unstack(stack, ObjectValue([]), Flat(members));
    assert Build(full, EndObject(n)) == stack + [v];
    BuildsOne(full, EndObject(n), stack + [v]);
    BuildsAppend(empty, MembersEvents(source, members), full, [EndObject(n)], stack + [v]);
    BuildsOne(stack, StartObject, empty);
    BuildsAppend(stack, [StartObject], empty, MembersEvents(source, members) + [EndObject(n)], stack + [v]);
    assert Events(source, v) == [StartObject] + (MembersEvents(source, members) + [EndObject(n)]);
  }

  lemma BuildsOne(stack: seq<Value>, event: Event, result: seq<Value>)
    requires InRange(event) && Deep(stack, event) && Build(stack, event) == result
    ensures Builds(stack, [event], result)
  {
    assert [event][1..] == [];
  }

  lemma {:induction false} EventsBuildElements(source: Source, elements: seq<Value>, stack: seq<Value>)
    requires forall i :: 0 <= i < |elements| ==> Storable(elements[i])
    ensures Builds(stack, ElementEvents(source, elements), stack + elements)
    decreases elements
  {
    hide Events, MemberEvents, Build;
    if elements == [] {
      assert stack + elements == stack;
    } else {
      var first := stack + [elements[0]];
      EventsBuildValue(source, elements[0], stack);
      EventsBuildElements(source, elements[1..], first);
      assert first + elements[1..] == stack + elements;
      BuildsAppend(stack, Events(source, elements[0]), first, ElementEvents(source, elements[1..]), stack + elements);
    }
  }

  /** The members of an object as the builder stacks them: name, value, name, value. */
  function Flat(members: seq<Member>): (values: seq<Value>)
    ensures |values| == 2 * |members|
  {
    if members == [] then [] else [members[0].name, members[0].value] + Flat(members[1..])
  }

  lemma {:induction false} FlatPairs(members: seq<Member>)
    ensures Pairs(Flat(members)) == members
  {
    if members != [] {
      FlatPairs(members[1..]);
      forall i | 0 <= i < |members|
        ensures Flat(members)[2 * i] == members[i].name && Flat(members)[2 * i + 1] == members[i].value
      {
        if i > 0 {
          assert Pairs(Flat(members[1..]))[i - 1] == members[i];
        }
      }
    }
  }

  lemma {:induction false} EventsBuildMembers(source: Source, members: seq<Member>, stack: seq<Value>)
    requires forall i :: 0 <= i < |members| ==> members[i].name.StringValue? && Storable(members[i].value)
    ensures Builds(stack, MembersEvents(source, members), stack + Flat(members))
    decreases members
  {
    hide Events, MemberEvents, Build;
    if members == [] {
      assert stack + Flat(members) == stack;
    } else {
      var first := stack + [members[0].name, members[0].value];
      EventsBuildMember(source, members[0], stack);
      EventsBuildMembers(source, members[1..], first);
      assert first + Flat(members[1..]) == stack + Flat(members);
      BuildsAppend(stack, MemberEvents(source, members[0]), first,
                   MembersEvents(source, members[1..]), stack + Flat(members));
    }
  }

  lemma {:induction false} EventsBuildMember(source: Source, m: Member, stack: seq<Value>)
    requires m.name.StringValue? && Storable(m.value)
    ensures Builds(stack, MemberEvents(source, m), stack + [m.name, m.value])
    decreases m
  {
    var named := stack + [m.name];
    BuildsOne(stack, Key(Copied(m.name.bytes)), named);
    EventsBuildValue(source, m.value, named);
    assert named + [m.value] == stack + [m.name, m.value];
    BuildsAppend(stack, [Key(Copied(m.name.bytes))], named, Events(source, m.value), stack + [m.name, m.value]);
  }

  /** The document as a handler. */
  class Builder {
    var stack: seq<Value>

    constructor ()
      ensures stack == []
    {
      stack := [];
    }

    method Push(v: Value)
      modifies this
      ensures stack == old(stack) + [v]
    {
      stack := stack + [v];
    }

    /** Pop: the topmost `count` values, oldest first. */
    method Pop(count: nat) returns (values: seq<Value>)
      requires count <= |stack|
      modifies this
      ensures values == old(stack)[|old(stack)| - count..] && stack == old(stack)[..|old(stack)| - count]
    {
      values := stack[|stack| - count..];
      stack := stack[..|stack| - count];
    }

    method SetTop(v: Value)
      requires stack != []
      modifies this
      ensures stack == old(stack)[..|old(stack)| - 1] + [v]
    {
      stack := stack[..|stack| - 1] + [v];
    }

    /** The handler methods of GenericDocument. */
    method Notify(event: Event)
      requires InRange(event) && Deep(stack, event)
      modifies this
      ensures stack == Build(old(stack), event)
    {
      match event
      case Null => Push(NullValue);
      case Bool(b) => Push(if b then TrueValue else FalseValue);
      case Int(i) => Push(FromInt(i));
      case Uint(i) => Push(FromUint(i));
      case Int64(i) => Push(FromInt64(i));
      case Uint64(i) => Push(FromUint64(i));
      case Double(bits) => Push(DoubleValue(bits));
      case String(text) => Push(StringValue(text.bytes));
      case Key(text) => Push(StringValue(text.bytes));
      case StartObject => Push(ObjectValue([]));
      case StartArray => Push(ArrayValue([]));
      case EndObject(n) =>
        var values := Pop(2 * n);
        SetTop(ObjectValue(Pairs(values)));
      case EndArray(n) =>
        var values := Pop(n);
        SetTop(ArrayValue(values));
    }
  }
}
