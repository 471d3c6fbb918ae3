/** Printing a tree and parsing the text rebuilds the tree. */
module RoundTrip {
  import opened Bytes
  import opened Document
  import opened Doubles
  import opened ReaderSpec
  import opened Spelling
  import opened Writer
  import JsonGrammar
  import TextReading

  /** The doubles whose text some double is read from: the conversion of literals does not overflow. */
  ghost function Readable(flags: Flags, format: DoubleFormat): int -> bool {
    bits => IsFinite(bits) && flags.strtod(DoubleText(format, bits)).Some?
  }

  /** The doubles that are read back from their text: the conversion undoes the printing. */
  ghost function Undone(flags: Flags, format: DoubleFormat): int -> bool {
    bits => IsFinite(bits) && flags.strtod(DoubleText(format, bits)) == Some(bits)
  }

  /** A tree with every double replaced by what its text is read as. */
  function Reread(flags: Flags, format: DoubleFormat, v: Value): (w: Value)
    decreases v
  {
    match v
    case DoubleValue(bits) =>
      var d := flags.strtod(DoubleText(format, bits));
      if d.Some? then DoubleValue(d.value) else v
    case ArrayValue(elements) => ArrayValue(RereadAll(flags, format, elements))
    case ObjectValue(members) => ObjectValue(RereadMembers(flags, format, members))
    case _ => v
  }

  function RereadAll(flags: Flags, format: DoubleFormat, elements: seq<Value>): (r: seq<Value>)
    ensures |r| == |elements|
    decreases elements
  {
    if elements == [] then []
    else [Reread(flags, format, elements[0])] + RereadAll(flags, format, elements[1..])
  }

  function RereadMembers(flags: Flags, format: DoubleFormat, members: seq<Member>): (r: seq<Member>)
    ensures |r| == |members|
    decreases members
  {
    if members == [] then []
    else [RereadMember(flags, format, members[0])] + RereadMembers(flags, format, members[1..])
  }

  function RereadMember(flags: Flags, format: DoubleFormat, m: Member): (r: Member)
    ensures r.name == m.name
    decreases m
  {
    Member(m.name, Reread(flags, format, m.value))
  }

  // ---------------------------------------------------------------------------------------------
  // What a printed tree means
  // ---------------------------------------------------------------------------------------------

  ghost predicate AllTrees(elements: seq<Value>, kind: int -> bool) {
    forall i :: 0 <= i < |elements| ==> IsTree(elements[i], kind)
  }

  ghost predicate AllMembers(members: seq<Member>, kind: int -> bool) {
    forall i :: 0 <= i < |members| ==> members[i].name.StringValue? && IsTree(members[i].value, kind)
  }

  lemma AllTreesFirst(elements: seq<Value>, kind: int -> bool)
    requires elements != []
    ensures AllTrees(elements, kind) <==> IsTree(elements[0], kind) && AllTrees(elements[1..], kind)
  {
    hide IsTree;
    assert forall i :: 0 < i < |elements| ==> elements[i] == elements[1..][i - 1];
  }

  lemma AllMembersFirst(members: seq<Member>, kind: int -> bool)
    requires members != []
    ensures AllMembers(members, kind)
       <==> members[0].name.StringValue? && IsTree(members[0].value, kind) && AllMembers(members[1..], kind)
  {
    hide IsTree;
    assert forall i :: 0 < i < |members| ==> members[i] == members[1..][i - 1];
  }

  /** The text printed for a tree with finite doubles means the events of the reread tree, if its doubles can be
      read, and otherwise nothing. */
  lemma {:induction false} SpellingMeans(flags: Flags, format: DoubleFormat, v: Value)
    requires Printable(v)
    ensures JsonGrammar.Fits(flags, SpellValue(format, v)) <==> IsTree(v, Readable(flags, format))
    ensures IsTree(v, Readable(flags, format)) ==>
              JsonGrammar.Meaning(flags, SpellValue(format, v)) == Events(Parsed, Reread(flags, format, v))
    decreases v
  {
    hide JsonGrammar.NumberMeaning, SpellInteger, SpellDouble, DoubleText, Spell, IsFinite;
    hide JsonGrammar.ElementsMeaning, JsonGrammar.PairsMeaning, ElementEvents, MembersEvents, SpellAll, SpellMembers;
    hide RereadAll, RereadMembers;
    match v
    case ArrayValue(elements) => ElementsMean(flags, format, elements);
    case ObjectValue(members) => MembersMean(flags, format, members);
    case StringValue(bytes) => StringIsSpelled(bytes);
    case NumberValue(_, _) =>
      IntegerValueIsConstructed(v);
      IntegerIsSpelled(flags, NumberOf(v));
    case DoubleValue(bits) => DoubleIsSpelled(flags, format, bits);
    case NullValue | FalseValue | TrueValue =>
  }

  lemma {:induction false} ElementsMean(flags: Flags, format: DoubleFormat, elements: seq<Value>)
    requires AllTrees(elements, IsFinite)
    ensures TextReading.AllFit(flags, SpellAll(format, elements)) <==> AllTrees(elements, Readable(flags, format))
    ensures AllTrees(elements, Readable(flags, format)) ==>
              JsonGrammar.ElementsMeaning(flags, SpellAll(format, elements))
                == ElementEvents(Parsed, RereadAll(flags, format, elements))
    decreases elements
  {
    hide JsonGrammar.Meaning, JsonGrammar.Fits, IsTree, Readable, Reread, SpellValue, Events, AllTrees, TextReading.AllFit, IsFinite;
    NoneAtAll(Readable(flags, format), flags);
    if elements != [] {
      AllTreesFirst(elements, IsFinite);
      AllTreesFirst(elements, Readable(flags, format));
      TextReading.FirstElement(flags, true, SpellAll(format, elements));
      SpellingMeans(flags, format, elements[0]);
      ElementsMean(flags, format, elements[1..]);
      assert SpellAll(format, elements)[1..] == SpellAll(format, elements[1..]);
      assert RereadAll(flags, format, elements)[1..] == RereadAll(flags, format, elements[1..]);
    }
  }

  lemma NoneAtAll(kind: int -> bool, flags: Flags)
    ensures AllTrees([], kind) && AllMembers([], kind)
    ensures TextReading.AllFit(flags, []) && TextReading.PairsFit(flags, [])
  {
  }

  lemma {:induction false} MembersMean(flags: Flags, format: DoubleFormat, members: seq<Member>)
    requires AllMembers(members, IsFinite)
    ensures TextReading.PairsFit(flags, SpellMembers(format, members)) <==> AllMembers(members, Readable(flags, format))
    ensures AllMembers(members, Readable(flags, format)) ==>
              JsonGrammar.PairsMeaning(flags, SpellMembers(format, members))
                == MembersEvents(Parsed, RereadMembers(flags, format, members))
    decreases members
  {
    hide JsonGrammar.PairMeaning, JsonGrammar.Fits, IsTree, Readable, RereadMember, SpellMember, MemberEvents, AllMembers;
    hide TextReading.PairsFit, IsFinite;
    NoneAtAll(Readable(flags, format), flags);
    if members != [] {
      AllMembersFirst(members, IsFinite);
      AllMembersFirst(members, Readable(flags, format));
      TextReading.FirstPair(flags, true, SpellMembers(format, members));
      MemberMeans(flags, format, members[0]);
      MembersMean(flags, format, members[1..]);
      assert SpellMembers(format, members)[1..] == SpellMembers(format, members[1..]);
      assert RereadMembers(flags, format, members)[1..] == RereadMembers(flags, format, members[1..]);
    }
  }

  lemma {:induction false} MemberMeans(flags: Flags, format: DoubleFormat, m: Member)
    requires m.name.StringValue? && Printable(m.value)
    ensures JsonGrammar.Fits(flags, SpellMember(format, m).spaced.value) <==> IsTree(m.value, Readable(flags, format))
    ensures IsTree(m.value, Readable(flags, format)) ==>
              JsonGrammar.PairMeaning(flags, SpellMember(format, m)) == MemberEvents(Parsed, RereadMember(flags, format, m))
    decreases m
  {
    hide JsonGrammar.Meaning, JsonGrammar.Fits, IsTree, Readable, Reread, SpellValue, Events, Spell;
    StringIsSpelled(m.name.bytes);
    SpellingMeans(flags, format, m.value);
  }

  // ---------------------------------------------------------------------------------------------
  // Round trips
  // ---------------------------------------------------------------------------------------------

  /** A reread tree is a tree, and the same one exactly if every double has been read back. */
  lemma {:induction false} RereadIs(flags: Flags, format: DoubleFormat, v: Value)
    requires IsTree(v, Readable(flags, format))
    ensures Storable(Reread(flags, format, v))
    ensures Reread(flags, format, v) == v <==> IsTree(v, Undone(flags, format))
    decreases v
  {
    hide DoubleText, IsFinite;
    match v
    case ArrayValue(elements) =>
      forall i | 0 <= i < |elements|
        ensures var x, w := elements[i], RereadAll(flags, format, elements)[i];
                Storable(w) && (w == x <==> IsTree(x, Undone(flags, format)))
      {
        RereadAt(flags, format, elements, i);
        RereadIs(flags, format, elements[i]);
      }
    case ObjectValue(members) =>
      forall i | 0 <= i < |members|
        ensures var x, w := members[i], RereadMembers(flags, format, members)[i];
                && w.name == x.name && Storable(w.value)
                && (w == x <==> IsTree(x.value, Undone(flags, format)))
      {
        RereadMemberAt(flags, format, members, i);
        RereadIs(flags, format, members[i].value);
      }
    case _ =>
  }

  lemma {:induction false} RereadAt(flags: Flags, format: DoubleFormat, elements: seq<Value>, i: nat)
    requires i < |elements|
    ensures RereadAll(flags, format, elements)[i] == Reread(flags, format, elements[i])
  {
    hide Reread;
    if i > 0 {
      RereadAt(flags, format, elements[1..], i - 1);
    }
  }

  lemma {:induction false} RereadMemberAt(flags: Flags, format: DoubleFormat, members: seq<Member>, i: nat)
    requires i < |members|
    ensures RereadMembers(flags, format, members)[i] == RereadMember(flags, format, members[i])
  {
    hide RereadMember;
    if i > 0 {
      RereadMemberAt(flags, format, members[1..], i - 1);
    }
  }

  /** For every tree with finite doubles, whatever its nesting, its string bytes and its names: the writer, fed
      by Accept, prints it and is complete. Both parsers read the text to its end, and the document, fed by
      either, is left with exactly that tree, member order and number flags included, its doubles reread; or
      both fail with NumberTooBig, exactly if the conversion of some double's text overflows. */
  lemma PrintThenParse(flags: Flags, format: DoubleFormat, v: Value)
    requires Printable(v)
    ensures var text, w := Print(format, v), Reread(flags, format, v);
            var r := WriterState(text, [], true, format);
            && Writes(EmptyWriter(format), Events(Accepted, v), r) && Complete(r)
            && IterativeParse(flags, text) == RecursiveParse(flags, text)
            && (if IsTree(v, Readable(flags, format)) then
                  && RecursiveParse(flags, text) == Done(|text|, Events(Parsed, w))
                  && Builds([], Events(Parsed, w), [w])
                else TextReading.TooBig(RecursiveParse(flags, text)))
  {
    hide RecursiveParse, IterativeParse, Print, Writes, Builds, Readable, IsTree, Events, Reread, SpellValue;
    var text, w := Print(format, v), Reread(flags, format, v);
    WriterPrints(v, EmptyWriter(format));
    assert Wrote(EmptyWriter(format), text) == WriterState(text, [], true, format);
    PrintIsParsed(flags, format, v);
    if IsTree(v, Readable(flags, format)) {
      RereadIs(flags, format, v);
      EventsBuildValue(Parsed, w, []);
      assert [] + [w] == [w];
    }
  }

  lemma PrintIsParsed(flags: Flags, format: DoubleFormat, v: Value)
    requires Printable(v)
    ensures IterativeParse(flags, Print(format, v)) == RecursiveParse(flags, Print(format, v))
    ensures var r := RecursiveParse(flags, Print(format, v));
            if IsTree(v, Readable(flags, format))
            then r == Done(|Print(format, v)|, Events(Parsed, Reread(flags, format, v)))
            else TextReading.TooBig(r)
  {
    hide RecursiveParse, IterativeParse, Print, Readable, IsTree, Events, Reread, SpellValue;
    hide JsonGrammar.JsonText, JsonGrammar.Meaning, JsonGrammar.Fits, JsonGrammar.JsonForm;
    var text, s := Print(format, v), JsonGrammar.Spaced([], SpellValue(format, v), []);
    FiniteIsStorable(v);
    PrintIsJson(flags.trailingCommas, format, v);
    NoBlanks(s);
    assert [] + text == text && text[0..|text|] == text;
    assert TextReading.IsWholeText(flags, text, s);
    TextReading.TextIsRead(flags, text, s);
    SpellingMeans(flags, format, v);
    assert [] + Events(Parsed, Reread(flags, format, v)) == Events(Parsed, Reread(flags, format, v));
  }

  lemma FiniteIsStorable(v: Value)
    requires Printable(v)
    ensures Storable(v)
  {
    WiderKind(v, IsFinite, AnyDouble);
  }

  /** A tree with finite doubles comes back from its text if and only if the conversion of literals undoes the
      printing of each of its doubles. */
  lemma RoundTrip(flags: Flags, format: DoubleFormat, v: Value)
    requires Printable(v)
    ensures RecursiveParse(flags, Print(format, v)) == IterativeParse(flags, Print(format, v))
    ensures RecursiveParse(flags, Print(format, v)) == Done(|Print(format, v)|, Events(Parsed, v))
       <==> IsTree(v, Undone(flags, format))
    ensures Builds([], Events(Parsed, v), [v])
  {
    hide ParseValue, Print, Builds, Events, Reread, RecursiveParse, IterativeParse;
    PrintThenParse(flags, format, v);
    WiderKind(v, IsFinite, AnyDouble);
    EventsBuildValue(Parsed, v, []);
    assert [] + [v] == [v];
    if IsTree(v, Readable(flags, format)) {
      RereadIs(flags, format, v);
      var w := Reread(flags, format, v);
      if Events(Parsed, w) == Events(Parsed, v) {
        BuildsOneResult([], Events(Parsed, v), [v], [w]);
      }
    } else if IsTree(v, Undone(flags, format)) {
      WiderKind(v, Undone(flags, format), Readable(flags, format));
    }
  }

  predicate NoDouble(bits: int) {
    false
  }

  /** A tree without doubles comes back whatever the conversions. */
  lemma WithoutDoubles(flags: Flags, format: DoubleFormat, v: Value)
    requires IsTree(v, NoDouble)
    ensures Printable(v) && IsTree(v, Undone(flags, format))
  {
    WiderKind(v, NoDouble, IsFinite);
    WiderKind(v, NoDouble, Undone(flags, format));
  }

  /** Accept can also feed a document directly: that copies the tree, doubles bit for bit. */
  lemma CloneRebuilds(v: Value)
    requires Storable(v)
    ensures Builds([], Events(Accepted, v), [v])
  {
    EventsBuildValue(Accepted, v, []);
    assert [] + [v] == [v];
  }

  /** Two trees with the same text are the same tree, if some conversion gives back their doubles. */
  lemma PrintIsInjective(flags: Flags, format: DoubleFormat, v: Value, w: Value)
    requires IsTree(v, Undone(flags, format)) && IsTree(w, Undone(flags, format)) && Print(format, v) == Print(format, w)
    ensures v == w
  {
    hide Events, Print, Builds, RecursiveParse;
    WiderKind(v, Undone(flags, format), IsFinite);
    WiderKind(w, Undone(flags, format), IsFinite);
    RoundTrip(flags, format, v);
    RoundTrip(flags, format, w);
    BuildsOneResult([], Events(Parsed, v), [v], [w]);
  }

  lemma {:induction false} BuildsOneResult(stack: seq<Value>, events: seq<Event>, a: seq<Value>, b: seq<Value>)
    requires Builds(stack, events, a) && Builds(stack, events, b)
    ensures a == b
    decreases |events|
  {
    if events != [] {
      BuildsOneResult(Build(stack, events[0]), events[1..], a, b);
    }
  }
}
