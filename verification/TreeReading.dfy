/** The tree that a document is left with after parsing a text of the grammar. */
module TreeReading {
  import opened Bytes
  import opened Document
  import opened JsonGrammar
  import opened ReaderSpec
  import NumberReading
  import TextReading

  /** No container with 2^32 elements. */
  ghost predicate CountsFit(j: Json) {
    match j
    case ArrayJson(elements, _, _) =>
      |elements| < 0x1_0000_0000 && forall i :: 0 <= i < |elements| ==> CountsFit(elements[i].value)
    case ObjectJson(pairs, _, _) =>
      |pairs| < 0x1_0000_0000 && forall i :: 0 <= i < |pairs| ==> CountsFit(pairs[i].spaced.value)
    case _ => true
  }

  /** What a number is stored as: the integer itself, or what its text is converted to. */
  function NumberTree(flags: Flags, n: Number): Value {
    if IsInteger(n) then
      var v := Decimal(n.whole);
      if n.minus && 0 <= v <= 0x8000_0000_0000_0000 then FromInt64(-v)
      else if 0 <= v <= 0xFFFF_FFFF_FFFF_FFFF then FromUint64(v) else NullValue
    else
      var d := flags.strtod(NumberText(n));
      if d.Some? then DoubleValue(d.value) else NullValue
  }

  /** The tree that a text denotes: elements and members in their order, repeated names kept. */
  function TreeOf(flags: Flags, j: Json): Value {
    match j
    case NullJson => NullValue
    case TrueJson => TrueValue
    case FalseJson => FalseValue
    case NumberJson(n) => NumberTree(flags, n)
    case StringJson(chars) => StringValue(CharsMeaning(chars))
    case ArrayJson(elements, _, _) => ArrayValue(TreesOf(flags, elements))
    case ObjectJson(pairs, _, _) => ObjectValue(MembersOf(flags, pairs))
  }

  function TreesOf(flags: Flags, elements: seq<Spaced>): (r: seq<Value>)
    ensures |r| == |elements|
  {
    if elements == [] then [] else [TreeOf(flags, elements[0].value)] + TreesOf(flags, elements[1..])
  }

  function MembersOf(flags: Flags, pairs: seq<NameValue>): (r: seq<Member>)
    ensures |r| == |pairs|
  {
    if pairs == [] then [] else [MemberOf(flags, pairs[0])] + MembersOf(flags, pairs[1..])
  }

  function MemberOf(flags: Flags, m: NameValue): Member {
    Member(StringValue(CharsMeaning(m.name)), TreeOf(flags, m.spaced.value))
  }

  lemma NumberIsBuilt(flags: Flags, n: Number, stack: seq<Value>)
    requires NumberForm(n) && NumberMeaning(flags, n).Some?
    ensures Builds(stack, [NumberMeaning(flags, n).value], stack + [NumberTree(flags, n)])
  {
    hide Decimal, IsTooBig, NumberText;
    NumberReading.DecimalIs(n.whole);
    var v := Decimal(n.whole);
    if IsInteger(n) {
      ConstructorsAgree(if n.minus then -v else v);
    }
    BuildsOne(stack, NumberMeaning(flags, n).value, stack + [NumberTree(flags, n)]);
  }

  lemma {:induction false} TreeIsBuilt(flags: Flags, commas: bool, j: Json, stack: seq<Value>)
    requires JsonForm(commas, j) && Fits(flags, j) && CountsFit(j)
    ensures Builds(stack, Meaning(flags, j), stack + [TreeOf(flags, j)])
    decreases j
  {
    hide NumberForm, NumberMeaning, NumberTree, ElementsMeaning, PairsMeaning, TreesOf, MembersOf, CharsMeaning, CharsForm;
    match j
    case ArrayJson(elements, _, _) =>
      ElementsAreBuilt(flags, commas, elements, stack + [ArrayValue([])]);
      ArrayIsBuilt(flags, elements, stack);
    case ObjectJson(pairs, _, _) =>
      forall i | 0 <= i < |pairs|
        ensures JsonForm(commas, pairs[i].spaced.value) && CountsFit(pairs[i].spaced.value)
      {
        assert PairForm(commas, pairs[i]) && SpacedForm(commas, pairs[i].spaced);
      }
      PairsAreBuilt(flags, commas, pairs, stack + [ObjectValue([])]);
      ObjectIsBuilt(flags, pairs, stack);
    case NumberJson(n) => NumberIsBuilt(flags, n, stack);
    case NullJson | TrueJson | FalseJson | StringJson(_) =>
      BuildsOne(stack, Meaning(flags, j)[0], stack + [TreeOf(flags, j)]);
  }

  lemma ArrayIsBuilt(flags: Flags, elements: seq<Spaced>, stack: seq<Value>)
    requires |elements| < 0x1_0000_0000
    requires Builds(stack + [ArrayValue([])], ElementsMeaning(flags, elements), stack + [ArrayValue([])] + TreesOf(flags, elements))
    ensures Builds(stack, [StartArray] + ElementsMeaning(flags, elements) + [EndArray(|elements| % 0x1_0000_0000)],
                   stack + [ArrayValue(TreesOf(flags, elements))])
  {
    hide Builds, ElementsMeaning, TreesOf;
    var n: SizeType := |elements|;
    var trees := TreesOf(flags, elements);
    var empty, result := stack + [ArrayValue([])], stack + [ArrayValue(trees)];
    Unstack(stack, ArrayValue([]), trees);
    BuildsOne(empty + trees, EndArray(n), result);
    BuildsOne(stack, StartArray, empty);
    BuildsAppend(empty, ElementsMeaning(flags, elements), empty + trees, [EndArray(n)], result);
    BuildsAppend(stack, [StartArray], empty, ElementsMeaning(flags, elements) + [EndArray(n)], result);
    Associative([StartArray], ElementsMeaning(flags, elements), [EndArray(n)]);
  }

  lemma {:induction false} ElementsAreBuilt(flags: Flags, commas: bool, elements: seq<Spaced>, stack: seq<Value>)
    requires forall i :: 0 <= i < |elements| ==> JsonForm(commas, elements[i].value) && CountsFit(elements[i].value)
    requires TextReading.AllFit(flags, elements)
    ensures Builds(stack, ElementsMeaning(flags, elements), stack + TreesOf(flags, elements))
    decreases elements
  {
    hide Meaning, TreeOf, JsonForm, CountsFit, Fits, Build;
    if elements == [] {
      assert stack + TreesOf(flags, elements) == stack;
    } else {
      var j := elements[0].value;
      var first, rest := stack + [TreeOf(flags, j)], TreesOf(flags, elements[1..]);
      TreeIsBuilt(flags, commas, j, stack);
      ElementsAreBuilt(flags, commas, elements[1..], first);
      assert first + rest == stack + TreesOf(flags, elements);
      BuildsAppend(stack, Meaning(flags, j), first, ElementsMeaning(flags, elements[1..]), first + rest);
    }
  }

  lemma ObjectIsBuilt(flags: Flags, pairs: seq<NameValue>, stack: seq<Value>)
    requires |pairs| < 0x1_0000_0000
    requires Builds(stack + [ObjectValue([])], PairsMeaning(flags, pairs), stack + [ObjectValue([])] + Flat(MembersOf(flags, pairs)))
    ensures Builds(stack, [StartObject] + PairsMeaning(flags, pairs) + [EndObject(|pairs| % 0x1_0000_0000)],
                   stack + [ObjectValue(MembersOf(flags, pairs))])
  {
    hide Builds, PairsMeaning, MembersOf, Flat, Pairs;
    var n: SizeType := |pairs|;
    var members := MembersOf(flags, pairs);
    var empty, result := stack + [ObjectValue([])], stack + [ObjectValue(members)];
    FlatPairs(members);
    Unstack(stack, ObjectValue([]), Flat(members));
    assert Build(empty + Flat(members), EndObject(n)) == result;
    BuildsOne(empty + Flat(members), EndObject(n), result);
    BuildsOne(stack, StartObject, empty);
    BuildsAppend(empty, PairsMeaning(flags, pairs), empty + Flat(members), [EndObject(n)], result);
    BuildsAppend(stack, [StartObject], empty, PairsMeaning(flags, pairs) + [EndObject(n)], result);
    Associative([StartObject], PairsMeaning(flags, pairs), [EndObject(n)]);
  }

  lemma {:induction false} PairsAreBuilt(flags: Flags, commas: bool, pairs: seq<NameValue>, stack: seq<Value>)
    requires forall i :: 0 <= i < |pairs| ==> JsonForm(commas, pairs[i].spaced.value) && CountsFit(pairs[i].spaced.value)
    requires TextReading.PairsFit(flags, pairs)
    ensures Builds(stack, PairsMeaning(flags, pairs), stack + Flat(MembersOf(flags, pairs)))
    decreases pairs
  {
    hide PairMeaning, MemberOf, JsonForm, CountsFit, Fits, Build;
    if pairs == [] {
      assert stack + Flat(MembersOf(flags, pairs)) == stack;
    } else {
      var m := MemberOf(flags, pairs[0]);
      var first, rest := stack + [m.name, m.value], Flat(MembersOf(flags, pairs[1..]));
      PairIsBuilt(flags, commas, pairs[0], stack);
      PairsAreBuilt(flags, commas, pairs[1..], first);
      assert MembersOf(flags, pairs)[1..] == MembersOf(flags, pairs[1..]);
      assert first + rest == stack + Flat(MembersOf(flags, pairs));
      BuildsAppend(stack, PairMeaning(flags, pairs[0]), first, PairsMeaning(flags, pairs[1..]), first + rest);
    }
  }

  lemma {:induction false} PairIsBuilt(flags: Flags, commas: bool, m: NameValue, stack: seq<Value>)
    requires JsonForm(commas, m.spaced.value) && CountsFit(m.spaced.value) && Fits(flags, m.spaced.value)
    ensures var w := MemberOf(flags, m); Builds(stack, PairMeaning(flags, m), stack + [w.name, w.value])
    decreases m
  {
    hide Meaning, TreeOf, JsonForm, CountsFit, Fits, CharsMeaning;
    var w := MemberOf(flags, m);
    var named, key := stack + [w.name], Key(Copied(CharsMeaning(m.name)));
    BuildsOne(stack, key, named);
    TreeIsBuilt(flags, commas, m.spaced.value, named);
    assert named + [w.value] == stack + [w.name, w.value];
    BuildsAppend(stack, [key], named, Meaning(flags, m.spaced.value), stack + [w.name, w.value]);
  }

  /** A document fed by either parser with a text of the grammar is left with exactly the tree that the text
      denotes, unless a number is too big. */
  lemma TextBuildsTree(flags: Flags, t: seq<Byte>, s: Spaced)
    requires TextReading.IsWholeText(flags, t, s) && Fits(flags, s.value) && CountsFit(s.value)
    ensures IterativeParse(flags, t) == RecursiveParse(flags, t) && RecursiveParse(flags, t).Done?
    ensures Builds([], RecursiveParse(flags, t).events, [TreeOf(flags, s.value)])
  {
    hide RecursiveParse, IterativeParse, Meaning, TreeOf, Builds, JsonForm;
    TextReading.TextIsRead(flags, t, s);
    TreeIsBuilt(flags, flags.trailingCommas, s.value, []);
    assert [] + Meaning(flags, s.value) == Meaning(flags, s.value);
    assert [] + [TreeOf(flags, s.value)] == [TreeOf(flags, s.value)];
  }
}
