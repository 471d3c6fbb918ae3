/** Whatever events the writer takes: once it is complete, its text is a JSON text of the grammar. */
module WriterText {
  import opened Bytes
  import opened Decimals
  import opened Document
  import opened Doubles
  import opened JsonGrammar
  import opened ReaderSpec
  import opened Spelling
  import opened Writer

  /** A container that is still open, with its elements, or its names and values in turn. */
  datatype Container = Container(inArray: bool, items: seq<Json>)

  ghost predicate ContainerForm(c: Container) {
    && (forall i :: 0 <= i < |c.items| ==> JsonForm(false, c.items[i]))
    && (!c.inArray ==> forall i :: 0 <= i < |c.items| && i % 2 == 0 ==> c.items[i].StringJson?)
  }

  /** What stands before item i. */
  function Before(inArray: bool, i: nat): seq<Byte> {
    if i == 0 then [] else if inArray || i % 2 == 0 then [0x2C] else [0x3A]
  }

  /** The items from k on, each behind what stands before it. */
  function ItemsFrom(c: Container, k: nat): seq<Byte>
    decreases |c.items| - k
  {
    if k >= |c.items| then [] else Before(c.inArray, k) + JsonText(c.items[k]) + ItemsFrom(c, k + 1)
  }

  function OpenText(c: Container): seq<Byte> {
    [if c.inArray then 0x5B else 0x7B] + ItemsFrom(c, 0)
  }

  function With(c: Container, j: Json): Container {
    c.(items := c.items + [j])
  }

  lemma {:induction false} OneMoreItem(c: Container, j: Json, k: nat)
    requires k <= |c.items|
    ensures ItemsFrom(With(c, j), k) == ItemsFrom(c, k) + (Before(c.inArray, |c.items|) + JsonText(j))
    decreases |c.items| - k
  {
    hide JsonText, Before;
    var end := Before(c.inArray, |c.items|) + JsonText(j);
    if k < |c.items| {
      OneMoreItem(c, j, k + 1);
      Associative(Before(c.inArray, k) + JsonText(c.items[k]), ItemsFrom(c, k + 1), end);
    } else {
      assert ItemsFrom(With(c, j), k + 1) == [];
      assert end + [] == end == [] + end;
    }
  }

  /** The text grows by what stands before the item, and the item. */
  lemma ItemWritten(c: Container, j: Json)
    requires ContainerForm(c) && JsonForm(false, j) && (!c.inArray && |c.items| % 2 == 0 ==> j.StringJson?)
    ensures ContainerForm(With(c, j))
    ensures OpenText(With(c, j)) == OpenText(c) + (Before(c.inArray, |c.items|) + JsonText(j))
  {
    hide JsonText, JsonForm, ItemsFrom, Before;
    OneMoreItem(c, j, 0);
    Associative([if c.inArray then 0x5B else 0x7B], ItemsFrom(c, 0), Before(c.inArray, |c.items|) + JsonText(j));
  }

  // ---------------------------------------------------------------------------------------------
  // Closing
  // ---------------------------------------------------------------------------------------------

  function Bare(j: Json): Spaced {
    Spaced([], j, [])
  }

  function ElementsFrom(items: seq<Json>, k: nat): (r: seq<Spaced>)
    ensures k <= |items| ==> |r| == |items| - k
    decreases |items| - k
  {
    if k >= |items| then [] else [Bare(items[k])] + ElementsFrom(items, k + 1)
  }

  function PairsFrom(items: seq<Json>, k: nat): (r: seq<NameValue>)
    ensures k < |items| - 1 ==> r != []
    decreases |items| - k
  {
    if k >= |items| - 1 then []
    else
      [NameValue([], if items[k].StringJson? then items[k].chars else [], [], Bare(items[k + 1]))]
      + PairsFrom(items, k + 2)
  }

  function Closed(c: Container): Json {
    if c.inArray then ArrayJson(ElementsFrom(c.items, 0), false, []) else ObjectJson(PairsFrom(c.items, 0), false, [])
  }

  function ClosingByte(inArray: bool): Byte {
    if inArray then 0x5D else 0x7D
  }

  lemma {:induction false} ElementsClose(c: Container, k: nat)
    requires c.inArray && k < |c.items| && ContainerForm(c)
    ensures ElementsText(ElementsFrom(c.items, k), false, []) == JsonText(c.items[k]) + ItemsFrom(c, k + 1) + [0x5D]
    ensures forall i :: 0 <= i < |ElementsFrom(c.items, k)| ==> SpacedForm(false, ElementsFrom(c.items, k)[i])
    decreases |c.items| - k
  {
    hide JsonText, JsonForm;
    var all := ElementsFrom(c.items, k);
    NoBlanks(all[0]);
    assert all[1..] == ElementsFrom(c.items, k + 1);
    if k + 1 < |c.items| {
      ElementsClose(c, k + 1);
      assert forall i :: 0 < i < |all| ==> all[i] == all[1..][i - 1];
      var next, more := JsonText(c.items[k + 1]), ItemsFrom(c, k + 2);
      Associative([0x2C], next, more);
      Associative([0x2C], next + more, [0x5D]);
      Associative(JsonText(c.items[k]), [0x2C] + (next + more), [0x5D]);
    } else {
      assert JsonText(c.items[k]) + [] == JsonText(c.items[k]);
    }
  }

  lemma {:induction false} PairsClose(c: Container, k: nat)
    requires !c.inArray && k % 2 == 0 && |c.items| % 2 == 0 && k < |c.items| && ContainerForm(c)
    ensures PairsText(PairsFrom(c.items, k), false, []) == JsonText(c.items[k]) + ItemsFrom(c, k + 1) + [0x7D]
    ensures forall i :: 0 <= i < |PairsFrom(c.items, k)| ==> PairForm(false, PairsFrom(c.items, k)[i])
    decreases |c.items| - k
  {
    hide JsonText, JsonForm, ItemsFrom, PairText, PairForm, ContainerForm, PairsText, PairsFrom;
    var all := PairsFrom(c.items, k);
    PairsFromNext(c.items, k);
    PairsTextIs(all);
    var name, value := JsonText(c.items[k]), JsonText(c.items[k + 1]);
    PairCloses(c, k);
    NextItem(c, k + 1);
    NextItem(c, k + 2);
    if k + 2 < |c.items| {
      PairsClose(c, k + 2);
      assert forall i :: 0 < i < |all| ==> all[i] == all[1..][i - 1];
      Regrouped(name, [0x3A] + value, [0x2C], JsonText(c.items[k + 2]), ItemsFrom(c, k + 3), [0x7D]);
    } else {
      assert [0x3A] + value + [] == [0x3A] + value;
    }
  }

  lemma PairsFromNext(items: seq<Json>, k: nat)
    requires k + 1 < |items| && |items| % 2 == 0 && k % 2 == 0
    ensures PairsFrom(items, k) != [] && PairsFrom(items, k)[1..] == PairsFrom(items, k + 2)
    ensures |PairsFrom(items, k)| > 1 <==> k + 2 < |items|
  {
    assert PairsFrom(items, k)[1..] == PairsFrom(items, k + 2);
  }

  lemma PairsTextIs(all: seq<NameValue>)
    requires all != []
    ensures PairsText(all, false, [])
         == PairText(all[0]) + (if |all| > 1 then [0x2C] + PairsText(all[1..], false, []) else [0x7D])
  {
    hide PairText;
  }

  lemma NextItem(c: Container, k: nat)
    requires k >= 1
    ensures ItemsFrom(c, k)
         == if k >= |c.items| then []
            else [if c.inArray || k % 2 == 0 then 0x2C else 0x3A] + JsonText(c.items[k]) + ItemsFrom(c, k + 1)
  {
    hide JsonText;
  }

  lemma Regrouped<T>(a: seq<T>, b: seq<T>, c: seq<T>, d: seq<T>, e: seq<T>, f: seq<T>)
    ensures a + b + (c + (d + e + f)) == a + (b + (c + d + e)) + f
  {
  }

  lemma PairCloses(c: Container, k: nat)
    requires !c.inArray && k % 2 == 0 && k + 1 < |c.items| && ContainerForm(c)
    ensures var m := PairsFrom(c.items, k)[0];
            PairForm(false, m) && PairText(m) == JsonText(c.items[k]) + ([0x3A] + JsonText(c.items[k + 1]))
  {
    hide JsonForm;
    var m := PairsFrom(c.items, k)[0];
    NoBlanks(m.spaced);
    NoBlanksInPair(m);
    NameForm(c.items[k]);
  }

  lemma NameForm(j: Json)
    requires j.StringJson? && JsonForm(false, j)
    ensures CharsForm(j.chars)
  {
  }

  /** A container that may be closed is a value of the grammar with its closing bracket. */
  lemma ContainerCloses(c: Container)
    requires ContainerForm(c) && (!c.inArray ==> |c.items| % 2 == 0)
    ensures JsonForm(false, Closed(c)) && JsonText(Closed(c)) == OpenText(c) + [ClosingByte(c.inArray)]
  {
    hide ElementsText, PairsText, ElementsFrom, PairsFrom, ItemsFrom, ContainerForm, SpacedForm, PairForm, OpenText;
    hide Closed, JsonText, JsonForm;
    NothingFrom(c);
    ClosedText(c);
    if c.items == [] {
      EmptyContainer(c);
    } else {
      if c.inArray {
        ElementsClose(c, 0);
      } else {
        PairsClose(c, 0);
      }
      FirstItem(c);
      OpenTextIs(c);
    }
  }

  lemma OpenTextIs(c: Container)
    ensures OpenText(c) + [ClosingByte(c.inArray)]
         == [if c.inArray then 0x5B else 0x7B] + (ItemsFrom(c, 0) + [ClosingByte(c.inArray)])
  {
    hide ItemsFrom;
  }

  lemma ClosedText(c: Container)
    requires c.inArray || |c.items| % 2 == 0
    ensures c.items == [] ==> JsonForm(false, Closed(c)) && JsonText(Closed(c)) == [if c.inArray then 0x5B else 0x7B] + [ClosingByte(c.inArray)]
    ensures c.items != [] && c.inArray ==>
              && JsonText(Closed(c)) == [0x5B] + ElementsText(ElementsFrom(c.items, 0), false, [])
              && (JsonForm(false, Closed(c)) <==>
                    forall i :: 0 <= i < |ElementsFrom(c.items, 0)| ==> SpacedForm(false, ElementsFrom(c.items, 0)[i]))
    ensures c.items != [] && !c.inArray ==>
              && PairsFrom(c.items, 0) != []
              && JsonText(Closed(c)) == [0x7B] + PairsText(PairsFrom(c.items, 0), false, [])
              && (JsonForm(false, Closed(c)) <==>
                    forall i :: 0 <= i < |PairsFrom(c.items, 0)| ==> PairForm(false, PairsFrom(c.items, 0)[i]))
  {
    hide ElementsText, PairsText, ElementsFrom, PairsFrom, ItemsFrom, SpacedForm, PairForm;
    NothingFrom(c);
    assert [] + [ClosingByte(c.inArray)] == [ClosingByte(c.inArray)];
  }

  lemma NothingFrom(c: Container)
    ensures c.items == [] ==> ElementsFrom(c.items, 0) == [] && PairsFrom(c.items, 0) == [] && ItemsFrom(c, 0) == []
    ensures c.items != [] ==> ElementsFrom(c.items, 0) != []
    ensures |c.items| > 1 ==> PairsFrom(c.items, 0) != []
  {
  }

  lemma FirstItem(c: Container)
    requires c.items != []
    ensures ItemsFrom(c, 0) == JsonText(c.items[0]) + ItemsFrom(c, 1)
  {
    hide JsonText;
    assert [] + JsonText(c.items[0]) == JsonText(c.items[0]);
  }

  // ---------------------------------------------------------------------------------------------
  // Runs
  // ---------------------------------------------------------------------------------------------

  /** The text of the containers that are open, outermost first. */
  function StackText(stack: seq<Container>): seq<Byte> {
    if stack == [] then []
    else
      var front := stack[..|stack| - 1];
      StackText(front) + BeforeOn(front) + OpenText(stack[|stack| - 1])
  }

  /** What stands before the next item of the innermost container. */
  function BeforeOn(stack: seq<Container>): seq<Byte> {
    if stack == [] then [] else Before(stack[|stack| - 1].inArray, |stack[|stack| - 1].items|)
  }

  /** Level i counts the items of container i, and the container in it that is open; in an object that is a value. */
  ghost predicate LevelFits(levels: seq<Level>, stack: seq<Container>, i: nat)
    requires |levels| == |stack| && i < |stack|
  {
    && ContainerForm(stack[i]) && levels[i].inArray == stack[i].inArray
    && levels[i].valueCount == |stack[i].items| + (if i + 1 < |stack| then 1 else 0)
    && (i + 1 < |stack| && !stack[i].inArray ==> |stack[i].items| % 2 == 1)
  }

  ghost predicate Stands(s: WriterState, stack: seq<Container>) {
    && |s.levels| == |stack| && (forall i :: 0 <= i < |stack| ==> LevelFits(s.levels, stack, i))
    && (if stack != [] then s.hasRoot && s.out == StackText(stack)
        else if s.hasRoot then exists j :: JsonForm(false, j) && s.out == JsonText(j)
        else s.out == [])
  }

  /** A value that is no container, as the grammar spells it. */
  function SpellScalar(format: DoubleFormat, event: Event): Json
    requires IsScalar(event)
  {
    match event
    case Null => NullJson
    case Bool(b) => if b then TrueJson else FalseJson
    case Int(i) => NumberJson(SpellInteger(i))
    case Uint(i) => NumberJson(SpellInteger(i))
    case Int64(i) => NumberJson(SpellInteger(i))
    case Uint64(i) => NumberJson(SpellInteger(i))
    case Double(bits) => NumberJson(SpellDouble(format, bits))
    case String(text) => StringJson(Spell(text.bytes))
    case Key(text) => StringJson(Spell(text.bytes))
  }

  lemma ScalarIsSpelled(format: DoubleFormat, event: Event)
    requires IsScalar(event)
    ensures JsonForm(false, SpellScalar(format, event)) && JsonText(SpellScalar(format, event)) == ScalarText(format, event)
  {
    hide NumberForm, NumberText, SpellInteger, SpellDouble, IntegerText, DoubleText, Spell, EscapeAll;
    if event.Int? || event.Uint? || event.Int64? || event.Uint64? {
      IntegerTextIsSpelled(event.i);
    } else if event.Double? {
      DoubleIsSpelled(Flags(false, false, _ => None), format, event.bits);
    } else if event.String? || event.Key? {
      StringIsSpelled(event.text.bytes);
    }
  }

  /** A whole value behind what stands before it. */
  lemma ValueAdded(s: WriterState, stack: seq<Container>, j: Json, w: WriterState) returns (next: seq<Container>)
    requires JsonForm(false, j) && |s.levels| == |stack| && (stack == [] ==> s.out == [])
    requires forall i :: 0 <= i < |stack| ==> LevelFits(s.levels, stack, i)
    requires stack != [] ==> s.hasRoot && s.out == StackText(stack)
    requires stack != [] && !Top(s).inArray && Top(s).valueCount % 2 == 0 ==> j.StringJson?
    requires w.levels == Count(s).levels && w.hasRoot && w.out == s.out + BeforeOn(stack) + JsonText(j)
    ensures Stands(w, next)
  {
    hide JsonText, JsonForm, OpenText, Before;
    if stack == [] {
      next := [];
      assert w.out == JsonText(j);
    } else {
      var last := |stack| - 1;
      var top := stack[last];
      assert LevelFits(s.levels, stack, last);
      ItemWritten(top, j);
      next := stack[..last] + [With(top, j)];
      assert next[..last] == stack[..last];
      Associative(StackText(stack[..last]) + BeforeOn(stack[..last]), OpenText(top), BeforeOn(stack) + JsonText(j));
      Associative(s.out, BeforeOn(stack), JsonText(j));
      LevelsCounted(s, stack, next, w.levels);
    }
  }

  lemma LevelsCounted(s: WriterState, stack: seq<Container>, next: seq<Container>, levels: seq<Level>)
    requires |s.levels| == |stack| == |next| > 0 && levels == Count(s).levels
    requires forall i :: 0 <= i < |stack| ==> LevelFits(s.levels, stack, i)
    requires forall i :: 0 <= i < |stack| - 1 ==> next[i] == stack[i]
    requires var last := |stack| - 1;
             && ContainerForm(next[last]) && next[last].inArray == stack[last].inArray
             && |next[last].items| == |stack[last].items| + 1
    ensures |levels| == |next| && forall i :: 0 <= i < |next| ==> LevelFits(levels, next, i)
  {
    hide ContainerForm;
    forall i | 0 <= i < |next|
      ensures |levels| == |next| && LevelFits(levels, next, i)
    {
      assert LevelFits(s.levels, stack, i);
    }
  }

  lemma SeparatorIs(s: WriterState, stack: seq<Container>)
    requires |s.levels| == |stack| && forall i :: 0 <= i < |stack| ==> LevelFits(s.levels, stack, i)
    ensures Separator(s) == BeforeOn(stack)
    ensures stack != [] ==> Top(s).inArray == stack[|stack| - 1].inArray && Top(s).valueCount == |stack[|stack| - 1].items|
  {
    if stack != [] {
      assert LevelFits(s.levels, stack, |stack| - 1);
    }
  }

  lemma ScalarStands(s: WriterState, stack: seq<Container>, event: Event) returns (next: seq<Container>)
    requires Stands(s, stack) && IsScalar(event) && Takes(s, event)
    ensures Stands(Write(s, event), next)
  {
    hide JsonText, JsonForm, ScalarText, SpellScalar, Separator, BeforeOn, LevelFits, StackText;
    ScalarIsSpelled(s.doubles, event);
    SeparatorIs(s, stack);
    ScalarIsString(s.doubles, event);
    next := ValueAdded(s, stack, SpellScalar(s.doubles, event), Write(s, event));
  }

  lemma ScalarIsString(format: DoubleFormat, event: Event)
    requires IsScalar(event)
    ensures event.String? || event.Key? ==> SpellScalar(format, event).StringJson?
  {
  }

  lemma StartStands(s: WriterState, stack: seq<Container>, inArray: bool) returns (next: seq<Container>)
    requires Stands(s, stack) && TakesValue(s, false)
    ensures Stands(Write(s, if inArray then StartArray else StartObject), next)
  {
    hide JsonText, JsonForm, Separator, BeforeOn, OpenText, StackText, LevelFits, Count;
    var c := Container(inArray, []);
    next := stack + [c];
    SeparatorIs(s, stack);
    EmptyContainer(c);
    EmptyStack();
    StackGrows(stack, c);
    LevelsOpened(s, stack, c);
    RootIsTaken(s);
  }

  lemma RootIsTaken(s: WriterState)
    ensures s.levels == [] ==> Count(s).hasRoot
    ensures s.levels != [] ==> Count(s).hasRoot == s.hasRoot
  {
  }

  lemma StackGrows(stack: seq<Container>, c: Container)
    ensures StackText(stack + [c]) == StackText(stack) + BeforeOn(stack) + OpenText(c)
  {
    hide OpenText, BeforeOn;
    assert (stack + [c])[..|stack|] == stack;
  }

  lemma LevelsOpened(s: WriterState, stack: seq<Container>, c: Container)
    requires |s.levels| == |stack| && forall i :: 0 <= i < |stack| ==> LevelFits(s.levels, stack, i)
    requires TakesValue(s, false) && c.items == [] && ContainerForm(c)
    ensures var levels := Count(s).levels + [Level(0, c.inArray)];
            |levels| == |stack| + 1 && forall i :: 0 <= i <= |stack| ==> LevelFits(levels, stack + [c], i)
  {
    hide ContainerForm;
    var levels, next := Count(s).levels + [Level(0, c.inArray)], stack + [c];
    forall i | 0 <= i <= |stack|
      ensures |levels| == |next| && LevelFits(levels, next, i)
    {
      assert i < |stack| ==> LevelFits(s.levels, stack, i);
    }
  }

  lemma EmptyContainer(c: Container)
    requires c.items == []
    ensures OpenText(c) == [if c.inArray then 0x5B else 0x7B] && ContainerForm(c)
  {
    assert ItemsFrom(c, 0) == [];
  }

  lemma EmptyStack()
    ensures StackText([]) == []
  {
  }

  lemma EndStands(s: WriterState, stack: seq<Container>, event: Event) returns (next: seq<Container>)
    requires Stands(s, stack) && (event.EndObject? || event.EndArray?) && Takes(s, event)
    ensures Stands(Write(s, event), next)
  {
    hide JsonText, JsonForm, OpenText, BeforeOn, ContainerForm, Closed;
    var last := |stack| - 1;
    var c, front := stack[last], stack[..last];
    var w, byte := Write(s, event), ClosingByte(stack[last].inArray);
    SeparatorIs(s, stack);
    assert LevelFits(s.levels, stack, last);
    ContainerCloses(c);
    Associative(StackText(front) + BeforeOn(front), OpenText(c), [byte]);
    var before := BeforeOpening(s, stack, front);
    next := ValueAdded(before, front, Closed(c), w);
  }

  /** The state in which the innermost container is not yet there, but for the root flag. */
  lemma BeforeOpening(s: WriterState, stack: seq<Container>, front: seq<Container>) returns (before: WriterState)
    requires Stands(s, stack) && stack != [] && front == stack[..|stack| - 1]
    ensures before.hasRoot && before.out == StackText(front)
    ensures |before.levels| == |front| && Count(before).levels == s.levels[..|front|]
    ensures forall i :: 0 <= i < |front| ==> LevelFits(before.levels, front, i)
    ensures front != [] ==> Top(before).inArray || Top(before).valueCount % 2 == 1
  {
    hide StackText, ContainerForm;
    var last := |front|;
    if last == 0 {
      before := s.(levels := [], out := StackText(front));
    } else {
      var inner := s.levels[last - 1];
      assert LevelFits(s.levels, stack, last - 1);
      before := s.(levels := s.levels[..last - 1] + [Level(inner.valueCount - 1, inner.inArray)], out := StackText(front));
      assert before.levels[..last - 1] == s.levels[..last - 1];
      assert Count(before).levels == s.levels[..last - 1] + [inner] == s.levels[..last];
      forall i | 0 <= i < last
        ensures LevelFits(before.levels, front, i)
      {
        assert LevelFits(s.levels, stack, i);
      }
    }
  }

  lemma StepStands(s: WriterState, stack: seq<Container>, event: Event) returns (next: seq<Container>)
    requires Stands(s, stack) && Takes(s, event)
    ensures Stands(Write(s, event), next)
  {
    hide Stands, Write;
    if event.StartObject? || event.StartArray? {
      next := StartStands(s, stack, event.StartArray?);
    } else if event.EndObject? || event.EndArray? {
      next := EndStands(s, stack, event);
    } else {
      next := ScalarStands(s, stack, event);
    }
  }

  lemma {:induction false} RunStands(s: WriterState, stack: seq<Container>, events: seq<Event>, r: WriterState)
      returns (next: seq<Container>)
    requires Stands(s, stack) && Writes(s, events, r)
    ensures Stands(r, next)
    decreases |events|
  {
    hide Stands, Write;
    if events == [] {
      next := stack;
    } else {
      next := StepStands(s, stack, events[0]);
      next := RunStands(Write(s, events[0]), next, events[1..], r);
    }
  }

  /** Whatever the events, not only those of a tree: if no assertion of the writer trips and it is complete at the
      end, what it has written is one JSON text of the grammar, without blanks. */
  lemma CompleteIsJson(doubles: DoubleFormat, events: seq<Event>, r: WriterState) returns (j: Json)
    requires Writes(EmptyWriter(doubles), events, r) && Complete(r)
    ensures JsonForm(false, j) && r.out == JsonText(j)
  {
    hide Writes, LevelFits, StackText, JsonForm, JsonText;
    assert Stands(EmptyWriter(doubles), []);
    var stack := RunStands(EmptyWriter(doubles), [], events, r);
    j :| JsonForm(false, j) && r.out == JsonText(j);
  }
}
