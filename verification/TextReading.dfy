/** The reader accepts exactly the texts of the grammar, and fires the events that they stand for. */
module TextReading {
  import opened Bytes
  import opened JsonGrammar
  import opened ReaderSpec
  import NumberReading
  import ReaderEquivalence
  import StringReading

  /** A parse that fails because a number is too big. */
  predicate TooBig(r: Outcome) {
    r.Failed? && r.code == NumberTooBig
  }

  /** What may stand behind the blanks that follow a value. */
  predicate IsEnder(c: Byte) {
    c in {0x2C, 0x5D, 0x7D, 0x00}
  }

  predicate IsBlankByte(c: Byte) {
    c in {0x20, 0x09, 0x0A, 0x0D}
  }

  lemma {:induction false} BlankIsSkipped(t: seq<Byte>, p: nat, blank: seq<Byte>)
    requires Has(t, p, blank) && IsBlank(blank) && !IsBlankByte(At(t, p + |blank|))
    ensures p <= |t| && SkipWs(t, p) == p + |blank|
    decreases |blank|
  {
    if blank != [] {
      HasAt(t, p, blank, 0);
      assert blank == blank[..1] + blank[1..];
      HasParts(t, p, blank[..1], blank[1..]);
      BlankIsSkipped(t, p + 1, blank[1..]);
    }
  }

  lemma SkippedIsBlank(t: seq<Byte>, p: nat)
    requires p <= |t|
    ensures IsBlank(t[p..SkipWs(t, p)]) && Has(t, p, t[p..SkipWs(t, p)]) && !IsBlankByte(At(t, SkipWs(t, p)))
  {
    var blank := t[p..SkipWs(t, p)];
    forall k | 0 <= k < |blank|
      ensures blank[k] in {0x20, 0x09, 0x0A, 0x0D}
    {
      assert IsWhitespace(t[p + k]);
    }
  }

  /** A value begins with a byte that nothing else in a text begins with. */
  lemma FirstByte(commas: bool, j: Json)
    requires JsonForm(commas, j)
    ensures JsonText(j) != [] && !IsBlankByte(JsonText(j)[0]) && !IsEnder(JsonText(j)[0]) && JsonText(j)[0] != 0x3A
  {
    hide CharsText, ElementsText, PairsText, FractionText, ExponentText;
  }

  // ---------------------------------------------------------------------------------------------
  // Values without structure
  // ---------------------------------------------------------------------------------------------

  lemma {:induction false} LettersAreRead(t: seq<Byte>, p: nat, rest: seq<Byte>, event: Event)
    requires p <= |t| && NUL !in rest
    ensures LiteralLeaf(t, p, rest, event) == Good(p + |rest|, event) <==> Has(t, p, rest)
    ensures LiteralLeaf(t, p, rest, event).Good? <==> Has(t, p, rest)
    ensures LiteralLeaf(t, p, rest, event).Bad? ==> LiteralLeaf(t, p, rest, event).code == ValueInvalid
    decreases rest
  {
    if rest == [] {
      HasNothing(t, p);
    } else {
      assert rest == rest[..1] + rest[1..];
      if Has(t, p, rest) {
        HasAt(t, p, rest, 0);
        HasParts(t, p, rest[..1], rest[1..]);
      }
      if At(t, p) == rest[0] {
        LettersAreRead(t, p + 1, rest[1..], event);
        HasOne(t, p);
        if Has(t, p + 1, rest[1..]) {
          HasBoth(t, p, [t[p]], rest[1..]);
        }
      }
    }
  }

  /** The letters of a name behind the first. */
  function NameTail(j: Json): (tail: seq<Byte>)
    requires j.NullJson? || j.TrueJson? || j.FalseJson?
    ensures JsonText(j) == [JsonText(j)[0]] + tail && NUL !in tail
  {
    JsonText(j)[1..]
  }

  lemma NameLeaf(flags: Flags, t: seq<Byte>, p: nat, j: Json)
    requires j.NullJson? || j.TrueJson? || j.FalseJson?
    requires p < |t| && t[p] == JsonText(j)[0]
    ensures !StartsContainer(At(t, p))
    ensures ScalarLeaf(flags, t, p) == LiteralLeaf(t, p + 1, NameTail(j), Meaning(flags, j)[0])
  {
    hide LiteralLeaf, NumberLeaf, StringLeaf;
  }

  /** The three names. */
  lemma NameIsRead(flags: Flags, t: seq<Byte>, p: nat, j: Json)
    requires j.NullJson? || j.TrueJson? || j.FalseJson?
    requires p < |t| && t[p] == JsonText(j)[0]
    ensures !StartsContainer(At(t, p))
    ensures if Has(t, p, JsonText(j)) then ScalarLeaf(flags, t, p) == Good(p + |JsonText(j)|, Meaning(flags, j)[0])
            else ScalarLeaf(flags, t, p).Bad? && ScalarLeaf(flags, t, p).code == ValueInvalid
  {
    hide LiteralLeaf, ScalarLeaf, JsonText, NameTail, Has;
    var tail := NameTail(j);
    NameLeaf(flags, t, p, j);
    LettersAreRead(t, p + 1, tail, Meaning(flags, j)[0]);
    HasOne(t, p);
    if Has(t, p, JsonText(j)) {
      HasParts(t, p, [t[p]], tail);
    }
    if Has(t, p + 1, tail) {
      HasBoth(t, p, [t[p]], tail);
    }
  }

  lemma FollowersDoNotContinue(n: Number, c: Byte)
    requires IsBlankByte(c) || IsEnder(c)
    ensures !Continues(n, c)
  {
  }

  /** A number stands for the event that the grammar gives it. */
  lemma NumberIsDelivered(flags: Flags, t: seq<Byte>, p: nat, n: Number)
    requires NumberForm(n) && Has(t, p, NumberText(n)) && !Continues(n, At(t, p + |NumberText(n)|))
    ensures p < |t| && (t[p] == 0x2D || 0x30 <= t[p] <= 0x39)
    ensures var e := NumberMeaning(flags, n);
            NumberLeaf(flags, t, p) == if e.Some? then Good(p + |NumberText(n)|, e.value) else Bad(NumberTooBig, p)
  {
    hide ScanNumber, Decimal, Places, IsTooBig;
    NumberReading.NumberIsRead(n, t, p);
    NumberReading.DecimalIs(n.whole);
    HasIs(t, p, NumberText(n));
    NumberBegins(n);
    HasAt(t, p, NumberText(n), 0);
  }

  lemma NumberBegins(n: Number)
    requires NumberForm(n)
    ensures NumberText(n) != [] && (NumberText(n)[0] == 0x2D || 0x30 <= NumberText(n)[0] <= 0x39)
  {
    hide FractionText, ExponentText;
  }

  lemma ScalarIsRead(flags: Flags, t: seq<Byte>, p: nat, j: Json)
    requires JsonForm(flags.trailingCommas, j) && !j.ArrayJson? && !j.ObjectJson? && Has(t, p, JsonText(j))
    requires IsBlankByte(At(t, p + |JsonText(j)|)) || IsEnder(At(t, p + |JsonText(j)|))
    ensures p <= |t| && !StartsContainer(At(t, p))
    ensures Fits(flags, j) ==> |Meaning(flags, j)| == 1
    ensures ScalarLeaf(flags, t, p)
         == if Fits(flags, j) then Good(p + |JsonText(j)|, Meaning(flags, j)[0]) else Bad(NumberTooBig, p)
  {
    hide ScanNumber, LiteralLeaf, StringLeaf, NumberLeaf, Has, NumberText, NumberMeaning, CharsText;
    FirstByte(flags.trailingCommas, j);
    HasAt(t, p, JsonText(j), 0);
    match j
    case NumberJson(n) =>
      FollowersDoNotContinue(n, At(t, p + |JsonText(j)|));
      NumberIsDelivered(flags, t, p, n);
    case StringJson(chars) => StringReading.StringExactly(t, p, false);
    case NullJson | TrueJson | FalseJson => NameIsRead(flags, t, p, j);
  }

  /** What the leaf routines accept is a value of the grammar. */
  lemma ScalarIsThere(flags: Flags, t: seq<Byte>, p: nat) returns (j: Json)
    requires p <= |t| && !StartsContainer(At(t, p)) && ScalarLeaf(flags, t, p).Good?
    ensures JsonForm(flags.trailingCommas, j) && Has(t, p, JsonText(j)) && Fits(flags, j)
    ensures |Meaning(flags, j)| == 1 && ScalarLeaf(flags, t, p) == Good(p + |JsonText(j)|, Meaning(flags, j)[0])
  {
    hide ScanNumber, LiteralLeaf, StringLeaf, Has, NumberText, NumberMeaning, CharsText;
    var c := At(t, p);
    if c == 0x6E || c == 0x74 || c == 0x66 {
      j := if c == 0x6E then NullJson else if c == 0x74 then TrueJson else FalseJson;
      NameIsRead(flags, t, p, j);
    } else if c == 0x22 {
      StringReading.StringExactly(t, p, false);
      var chars :| CharsForm(chars) && Has(t, p, Quoted(chars));
      j := StringJson(chars);
    } else {
      var n := NumberReading.NumberIsThere(t, p);
      NumberIsDelivered(flags, t, p, n);
      j := NumberJson(n);
    }
  }

  // ---------------------------------------------------------------------------------------------
  // Every text of the grammar is read
  // ---------------------------------------------------------------------------------------------

  ghost predicate AllForm(commas: bool, elements: seq<Spaced>) {
    forall i :: 0 <= i < |elements| ==> SpacedForm(commas, elements[i])
  }

  ghost predicate AllFit(flags: Flags, elements: seq<Spaced>) {
    forall i :: 0 <= i < |elements| ==> Fits(flags, elements[i].value)
  }

  lemma FirstElement(flags: Flags, commas: bool, elements: seq<Spaced>)
    requires elements != []
    ensures AllForm(commas, elements) <==> SpacedForm(commas, elements[0]) && AllForm(commas, elements[1..])
    ensures AllFit(flags, elements) <==> Fits(flags, elements[0].value) && AllFit(flags, elements[1..])
  {
    hide SpacedForm, Fits;
    assert forall i :: 0 < i < |elements| ==> elements[i] == elements[1..][i - 1];
  }

  ghost predicate PairsForm(commas: bool, pairs: seq<NameValue>) {
    forall i :: 0 <= i < |pairs| ==> PairForm(commas, pairs[i])
  }

  ghost predicate PairsFit(flags: Flags, pairs: seq<NameValue>) {
    forall i :: 0 <= i < |pairs| ==> Fits(flags, pairs[i].spaced.value)
  }

  lemma FirstPair(flags: Flags, commas: bool, pairs: seq<NameValue>)
    requires pairs != []
    ensures PairsForm(commas, pairs) <==> PairForm(commas, pairs[0]) && PairsForm(commas, pairs[1..])
    ensures PairsFit(flags, pairs) <==> Fits(flags, pairs[0].spaced.value) && PairsFit(flags, pairs[1..])
  {
    hide PairForm, Fits;
    assert forall i :: 0 < i < |pairs| ==> pairs[i] == pairs[1..][i - 1];
  }

  lemma NothingLeftOver(flags: Flags, commas: bool)
    ensures AllForm(commas, []) && AllFit(flags, []) && PairsForm(commas, []) && PairsFit(flags, [])
  {
  }

  /** The outcome of reading a stretch of text that means `meaning` unless a number in it is too big. */
  ghost predicate Reads(r: Outcome, fits: bool, end: nat, events: seq<Event>, meaning: seq<Event>) {
    if fits then r == Done(end, events + meaning) else TooBig(r)
  }

  lemma ReadsMore(r: Outcome, fits: bool, end: nat, events: seq<Event>, a: seq<Event>, b: seq<Event>)
    requires Reads(r, fits, end, events + a, b)
    ensures Reads(r, fits, end, events, a + b)
  {
    Associative(events, a, b);
  }

  lemma ReadsIs(r: Outcome, fits: bool, end: nat, events: seq<Event>, meaning: seq<Event>)
    ensures Reads(r, fits, end, events, meaning) <==> if fits then r == Done(end, events + meaning) else TooBig(r)
  {
  }

  lemma {:induction false} ValueIsRead(flags: Flags, t: seq<Byte>, p: nat, j: Json, events: seq<Event>)
    requires JsonForm(flags.trailingCommas, j) && Has(t, p, JsonText(j))
    requires IsBlankByte(At(t, p + |JsonText(j)|)) || IsEnder(At(t, p + |JsonText(j)|))
    ensures p <= |t|
    ensures Reads(ParseValue(flags, t, p, events), Fits(flags, j), p + |JsonText(j)|, events, Meaning(flags, j))
    decreases j
  {
    hide Has, JsonText, Meaning, ScalarLeaf;
    HasIs(t, p, JsonText(j));
    match j
    case ArrayJson(elements, trailing, blank) => ArrayIsRead(flags, t, p, elements, trailing, blank, events);
    case ObjectJson(pairs, trailing, blank) => ObjectIsRead(flags, t, p, pairs, trailing, blank, events);
    case NullJson | TrueJson | FalseJson | NumberJson(_) | StringJson(_) =>
      ScalarIsRead(flags, t, p, j);
  }

  /** A value between its blanks, before a byte that ends it. */
  lemma {:induction false} SpacedIsRead(flags: Flags, t: seq<Byte>, p: nat, s: Spaced, events: seq<Event>)
    requires SpacedForm(flags.trailingCommas, s) && Has(t, p, SpacedText(s)) && IsEnder(At(t, p + |SpacedText(s)|))
    ensures p <= |t|
    ensures var q := SkipWs(t, p);
            var end := q + |JsonText(s.value)|;
            && q == p + |s.before| && !IsEnder(At(t, q)) && At(t, q) != 0x3A
            && Reads(ParseValue(flags, t, q, events), Fits(flags, s.value), end, events, Meaning(flags, s.value))
            && end <= |t| && SkipWs(t, end) == p + |SpacedText(s)|
    decreases s, 0
  {
    hide Has, JsonText, Meaning, ParseValue, Fits, IsBlank, SkipWs, Reads;
    var text := JsonText(s.value);
    HasParts(t, p, s.before, text + s.after);
    var q := p + |s.before|;
    HasParts(t, q, text, s.after);
    var end := q + |text|;
    HasIs(t, end, s.after);
    FirstByte(flags.trailingCommas, s.value);
    HasAt(t, q, text, 0);
    BlankIsSkipped(t, p, s.before);
    EndersAreNoBlanks(At(t, end + |s.after|));
    BlankIsSkipped(t, end, s.after);
    BehindValue(t, end, s.after);
    ValueIsRead(flags, t, q, s.value, events);
  }

  lemma EndersAreNoBlanks(c: Byte)
    requires IsEnder(c) || c == 0x3A || c == 0x22
    ensures !IsBlankByte(c)
  {
  }

  lemma BehindValue(t: seq<Byte>, end: nat, after: seq<Byte>)
    requires Has(t, end, after) && IsBlank(after) && IsEnder(At(t, end + |after|))
    ensures IsBlankByte(At(t, end)) || IsEnder(At(t, end))
  {
    if after != [] {
      HasAt(t, end, after, 0);
    }
  }

  lemma ArrayShape(flags: Flags, elements: seq<Spaced>, trailing: bool, blank: seq<Byte>)
    ensures var j := ArrayJson(elements, trailing, blank);
            && JsonText(j) == [0x5B] + (if elements == [] then blank + [0x5D] else ElementsText(elements, trailing, blank))
            && Meaning(flags, j) == [StartArray] + (ElementsMeaning(flags, elements) + [EndArray(|elements| % 0x1_0000_0000)])
            && (Fits(flags, j) <==> AllFit(flags, elements))
            && (JsonForm(flags.trailingCommas, j) <==>
                  IsBlank(blank) && (trailing ==> flags.trailingCommas && elements != []) && AllForm(flags.trailingCommas, elements))
  {
    hide ElementsText, ElementsMeaning, SpacedForm;
    Associative([StartArray], ElementsMeaning(flags, elements), [EndArray(|elements| % 0x1_0000_0000)]);
  }

  lemma ArrayOpens(flags: Flags, t: seq<Byte>, p: nat, events: seq<Event>)
    requires p < |t| && t[p] == 0x5B
    ensures ParseValue(flags, t, p, events)
         == var q := SkipWs(t, p + 1);
            if At(t, q) == 0x5D then Done(q + 1, events + [StartArray, EndArray(0)])
            else ParseElements(flags, t, q, 0, events + [StartArray])
  {
    hide ParseElements, ParseMembers, ScalarLeaf, SkipWs;
  }

  lemma {:induction false} ArrayIsRead(flags: Flags, t: seq<Byte>, p: nat, elements: seq<Spaced>, trailing: bool,
                                       blank: seq<Byte>, events: seq<Event>)
    requires JsonForm(flags.trailingCommas, ArrayJson(elements, trailing, blank))
    requires Has(t, p, JsonText(ArrayJson(elements, trailing, blank)))
    ensures p <= |t|
    ensures var j := ArrayJson(elements, trailing, blank);
            Reads(ParseValue(flags, t, p, events), Fits(flags, j), p + |JsonText(j)|, events, Meaning(flags, j))
    decreases elements, 3
  {
    hide Has, ElementsText, ElementsMeaning, ParseElements, ParseValue, SkipWs, IsBlank, AllForm, AllFit;
    hide JsonText, Meaning, Fits, JsonForm, Reads, Raised;
    RaisedFromZero(|elements|);
    ArrayShape(flags, elements, trailing, blank);
    var inner := if elements == [] then blank + [0x5D] else ElementsText(elements, trailing, blank);
    Opened(t, p, 0x5B, inner);
    ArrayOpens(flags, t, p, events);
    if elements == [] {
      NothingLeftOver(flags, flags.trailingCommas);
      NoMeaning(flags);
      TwoEvents(StartArray, EndArray(0));
      EmptyIsRead(ParseValue(flags, t, p, events), t, p, blank, 0x5D, events, [StartArray, EndArray(0)]);
    } else {
      ElementsAreRead(flags, t, p + 1, elements, trailing, blank, 0, events + [StartArray]);
      ReadsMore(ParseValue(flags, t, p, events), AllFit(flags, elements), p + 1 + |inner|, events, [StartArray],
                ElementsMeaning(flags, elements) + [EndArray(|elements| % 0x1_0000_0000)]);
    }
  }

  lemma TwoEvents(a: Event, b: Event)
    ensures [a] + ([] + [b]) == [a, b]
  {
  }

  lemma NoMeaning(flags: Flags)
    ensures ElementsMeaning(flags, []) == [] && PairsMeaning(flags, []) == []
  {
  }

  lemma Opened(t: seq<Byte>, p: nat, bracket: Byte, inner: seq<Byte>)
    requires Has(t, p, [bracket] + inner)
    ensures p < |t| && t[p] == bracket && Has(t, p + 1, inner) && |[bracket] + inner| == 1 + |inner|
  {
    HasParts(t, p, [bracket], inner);
    HasAt(t, p, [bracket], 0);
  }

  lemma EmptyIsRead(r: Outcome, t: seq<Byte>, p: nat, blank: seq<Byte>, bracket: Byte, events: seq<Event>, both: seq<Event>)
    requires IsBlank(blank) && IsEnder(bracket) && p < |t| && Has(t, p + 1, blank + [bracket])
    requires var q := SkipWs(t, p + 1); At(t, q) == bracket ==> r == Done(q + 1, events + both)
    ensures Reads(r, true, p + 1 + |blank + [bracket]|, events, both)
  {
    hide Has, SkipWs, IsBlank;
    ClosingIsRead(t, p + 1, blank, bracket);
  }

  /** Blanks and a closing bracket. */
  lemma ClosingIsRead(t: seq<Byte>, p: nat, blank: seq<Byte>, bracket: Byte)
    requires IsBlank(blank) && IsEnder(bracket) && Has(t, p, blank + [bracket])
    ensures p <= |t| && SkipWs(t, p) == p + |blank| < |t| && At(t, p + |blank|) == bracket
  {
    hide Has, SkipWs, IsBlank;
    HasParts(t, p, blank, [bracket]);
    HasAt(t, p + |blank|, [bracket], 0);
    HasIs(t, p + |blank|, [bracket]);
    EndersAreNoBlanks(bracket);
    BlankIsSkipped(t, p, blank);
  }

  /** A count raised n times, in 32 bits. */
  function Raised(count: SizeType, n: nat): SizeType {
    (count + n) % 0x1_0000_0000
  }

  lemma RaisedOnce(count: SizeType, n: nat)
    requires n > 0
    ensures Raised(Increment(count), n - 1) == Raised(count, n)
    ensures n == 1 ==> Increment(count) == Raised(count, n)
  {
    if count + 1 == 0x1_0000_0000 {
      OnceAround(n - 1);
    } else {
      assert Increment(count) == count + 1;
    }
  }

  lemma OnceAround(n: nat)
    ensures (n + 0x1_0000_0000) % 0x1_0000_0000 == n % 0x1_0000_0000
  {
  }

  lemma RaisedFromZero(n: nat)
    ensures Raised(0, n) == n % 0x1_0000_0000
  {
  }

  lemma ElementsShape(flags: Flags, elements: seq<Spaced>, trailing: bool, blank: seq<Byte>)
    requires elements != []
    ensures ElementsText(elements, trailing, blank)
         == SpacedText(elements[0]) + (if |elements| > 1 then [0x2C] + ElementsText(elements[1..], trailing, blank)
                                       else Closing(trailing, blank, 0x5D))
    ensures ElementsMeaning(flags, elements) == Meaning(flags, elements[0].value) + ElementsMeaning(flags, elements[1..])
    ensures |elements| == 1 ==> ElementsMeaning(flags, elements) == Meaning(flags, elements[0].value)
  {
    hide SpacedText, Meaning, Closing;
  }

  lemma {:induction false} ElementsAreRead(flags: Flags, t: seq<Byte>, p: nat, elements: seq<Spaced>, trailing: bool,
                                           blank: seq<Byte>, count: SizeType, events: seq<Event>)
    requires elements != [] && AllForm(flags.trailingCommas, elements)
    requires IsBlank(blank) && (trailing ==> flags.trailingCommas)
    requires Has(t, p, ElementsText(elements, trailing, blank))
    ensures p <= |t| && At(t, SkipWs(t, p)) != 0x5D
    ensures Reads(ParseElements(flags, t, SkipWs(t, p), count, events), AllFit(flags, elements),
                  p + |ElementsText(elements, trailing, blank)|, events,
                  ElementsMeaning(flags, elements) + [EndArray(Raised(count, |elements|))])
    decreases elements, 2
  {
    hide Has, SpacedText, Meaning, ParseElements, SkipWs, IsBlank, SpacedForm, Fits, AllForm, AllFit, Increment, Raised;
    hide NextElement, JsonText, ElementsText, ElementsMeaning, Closing, Reads;
    var s := elements[0];
    FirstElement(flags, flags.trailingCommas, elements);
    ElementsShape(flags, elements, trailing, blank);
    ClosingBegins(trailing, blank, 0x5D);
    var tail := if |elements| > 1 then [0x2C] + ElementsText(elements[1..], trailing, blank)
                else Closing(trailing, blank, 0x5D);
    ElementIsRead(flags, t, p, s, tail, count, events);
    var one, q := Meaning(flags, s.value), p + |SpacedText(s)|;
    var from := SkipWs(t, p) + |JsonText(s.value)|;
    var end := [EndArray(Raised(count, |elements|))];
    var r := ParseElements(flags, t, SkipWs(t, p), count, events);
    RaisedOnce(count, |elements|);
    if !Fits(flags, s.value) {
      ReadsIs(r, false, q + |tail|, events, ElementsMeaning(flags, elements) + end);
    } else if |elements| > 1 {
      var more := ElementsMeaning(flags, elements[1..]);
      HasParts(t, q, [0x2C], ElementsText(elements[1..], trailing, blank));
      ElementsAreRead(flags, t, q + 1, elements[1..], trailing, blank, Increment(count), events + one);
      ElementsGoOn(flags, t, from, q, Increment(count), events + one);
      Associative(one, more, end);
      ReadsMore(r, AllFit(flags, elements), q + |tail|, events, one, more + end);
    } else {
      NothingLeftOver(flags, flags.trailingCommas);
      assert elements[1..] == [];
      LastElement(flags, t, from, q, trailing, blank, Increment(count), events + one);
      ReadsIs(r, true, q + |tail|, events + one, end);
      ReadsMore(r, true, q + |tail|, events, one, end);
    }
  }

  /** The first of several elements, before a comma or a bracket. */
  lemma {:induction false} ElementIsRead(flags: Flags, t: seq<Byte>, p: nat, s: Spaced, tail: seq<Byte>, count: SizeType,
                                         events: seq<Event>)
    requires SpacedForm(flags.trailingCommas, s) && Has(t, p, SpacedText(s) + tail) && tail != [] && IsEnder(tail[0])
    ensures p <= |t| && At(t, SkipWs(t, p)) != 0x5D
    ensures var q, from := p + |SpacedText(s)|, SkipWs(t, p) + |JsonText(s.value)|;
            var r := ParseElements(flags, t, SkipWs(t, p), count, events);
            && q + |tail| <= |t| && Has(t, q, tail) && t[q] == tail[0] && from <= |t| && SkipWs(t, from) == q
            && (if Fits(flags, s.value)
                then r == NextElement(flags, t, from, Increment(count), events + Meaning(flags, s.value)) else TooBig(r))
    decreases s, 1
  {
    hide Has, SpacedText, Meaning, ParseValue, SkipWs, IsBlank, SpacedForm, Fits, NextElement, JsonText, Increment, Reads;
    HasParts(t, p, SpacedText(s), tail);
    var q := p + |SpacedText(s)|;
    HasAt(t, q, tail, 0);
    HasIs(t, q, tail);
    SpacedIsRead(flags, t, p, s, events);
    ReadsIs(ParseValue(flags, t, SkipWs(t, p), events), Fits(flags, s.value), SkipWs(t, p) + |JsonText(s.value)|, events,
            Meaning(flags, s.value));
  }

  lemma ClosingBegins(trailing: bool, blank: seq<Byte>, bracket: Byte)
    ensures Closing(trailing, blank, bracket) != []
    ensures Closing(trailing, blank, bracket)[0] == if trailing then 0x2C else bracket
  {
  }

  lemma LastElement(flags: Flags, t: seq<Byte>, from: nat, q: nat, trailing: bool, blank: seq<Byte>, count: SizeType,
                    events: seq<Event>)
    requires IsBlank(blank) && (trailing ==> flags.trailingCommas) && Has(t, q, Closing(trailing, blank, 0x5D))
    requires from <= |t| && SkipWs(t, from) == q < |t|
    ensures NextElement(flags, t, from, count, events)
         == Done(q + |Closing(trailing, blank, 0x5D)|, events + [EndArray(count)])
  {
    hide Has, SkipWs, IsBlank, NextElement;
    HasAt(t, q, Closing(trailing, blank, 0x5D), 0);
    if trailing {
      HasParts(t, q, [0x2C], blank + [0x5D]);
      ClosingIsRead(t, q + 1, blank, 0x5D);
    }
    ElementsGoOn(flags, t, from, q, count, events);
  }

  /** Behind an element: a comma and the next one, a trailing comma, or the end. */
  lemma ElementsGoOn(flags: Flags, t: seq<Byte>, from: nat, q: nat, count: SizeType, events: seq<Event>)
    requires from <= |t| && SkipWs(t, from) == q < |t|
    ensures t[q] == 0x5D ==> NextElement(flags, t, from, count, events) == Done(q + 1, events + [EndArray(count)])
    ensures t[q] == 0x2C ==>
              var next := SkipWs(t, q + 1);
              NextElement(flags, t, from, count, events)
                == if At(t, next) != 0x5D then ParseElements(flags, t, next, count, events)
                   else if flags.trailingCommas then Done(next + 1, events + [EndArray(count)])
                   else ParseElements(flags, t, next, count, events)
  {
    hide ParseElements, SkipWs;
  }

  // ---------------------------------------------------------------------------------------------
  // Objects
  // ---------------------------------------------------------------------------------------------

  lemma ObjectShape(flags: Flags, pairs: seq<NameValue>, trailing: bool, blank: seq<Byte>)
    ensures var j := ObjectJson(pairs, trailing, blank);
            && JsonText(j) == [0x7B] + (if pairs == [] then blank + [0x7D] else PairsText(pairs, trailing, blank))
            && Meaning(flags, j) == [StartObject] + (PairsMeaning(flags, pairs) + [EndObject(|pairs| % 0x1_0000_0000)])
            && (Fits(flags, j) <==> PairsFit(flags, pairs))
            && (JsonForm(flags.trailingCommas, j) <==>
                  IsBlank(blank) && (trailing ==> flags.trailingCommas && pairs != []) && PairsForm(flags.trailingCommas, pairs))
  {
    hide PairsText, PairsMeaning, PairForm;
    Associative([StartObject], PairsMeaning(flags, pairs), [EndObject(|pairs| % 0x1_0000_0000)]);
  }

  lemma ObjectOpens(flags: Flags, t: seq<Byte>, p: nat, events: seq<Event>)
    requires p < |t| && t[p] == 0x7B
    ensures ParseValue(flags, t, p, events)
         == var q := SkipWs(t, p + 1);
            if At(t, q) == 0x7D then Done(q + 1, events + [StartObject, EndObject(0)])
            else ParseMembers(flags, t, q, 0, events + [StartObject])
  {
    hide ParseElements, ParseMembers, ScalarLeaf, SkipWs;
  }

  lemma {:induction false} ObjectIsRead(flags: Flags, t: seq<Byte>, p: nat, pairs: seq<NameValue>, trailing: bool,
                                        blank: seq<Byte>, events: seq<Event>)
    requires JsonForm(flags.trailingCommas, ObjectJson(pairs, trailing, blank))
    requires Has(t, p, JsonText(ObjectJson(pairs, trailing, blank)))
    ensures p <= |t|
    ensures var j := ObjectJson(pairs, trailing, blank);
            Reads(ParseValue(flags, t, p, events), Fits(flags, j), p + |JsonText(j)|, events, Meaning(flags, j))
    decreases pairs, 4
  {
    hide Has, PairsText, PairsMeaning, ParseMembers, ParseValue, SkipWs, IsBlank, PairsForm, PairsFit;
    hide JsonText, Meaning, Fits, JsonForm, Reads, Raised;
    RaisedFromZero(|pairs|);
    ObjectShape(flags, pairs, trailing, blank);
    var inner := if pairs == [] then blank + [0x7D] else PairsText(pairs, trailing, blank);
    Opened(t, p, 0x7B, inner);
    ObjectOpens(flags, t, p, events);
    if pairs == [] {
      NothingLeftOver(flags, flags.trailingCommas);
      NoMeaning(flags);
      TwoEvents(StartObject, EndObject(0));
      EmptyIsRead(ParseValue(flags, t, p, events), t, p, blank, 0x7D, events, [StartObject, EndObject(0)]);
    } else {
      PairsAreRead(flags, t, p + 1, pairs, trailing, blank, 0, events + [StartObject]);
      ReadsMore(ParseValue(flags, t, p, events), PairsFit(flags, pairs), p + 1 + |inner|, events, [StartObject],
                PairsMeaning(flags, pairs) + [EndObject(|pairs| % 0x1_0000_0000)]);
    }
  }

  lemma PairsShape(flags: Flags, pairs: seq<NameValue>, trailing: bool, blank: seq<Byte>)
    requires pairs != []
    ensures PairsText(pairs, trailing, blank)
         == PairText(pairs[0]) + (if |pairs| > 1 then [0x2C] + PairsText(pairs[1..], trailing, blank)
                                  else Closing(trailing, blank, 0x7D))
    ensures PairsMeaning(flags, pairs) == PairMeaning(flags, pairs[0]) + PairsMeaning(flags, pairs[1..])
    ensures |pairs| == 1 ==> PairsMeaning(flags, pairs) == PairMeaning(flags, pairs[0])
  {
    hide PairText, PairMeaning, Closing;
  }

  lemma {:induction false} PairsAreRead(flags: Flags, t: seq<Byte>, p: nat, pairs: seq<NameValue>, trailing: bool,
                                        blank: seq<Byte>, count: SizeType, events: seq<Event>)
    requires pairs != [] && PairsForm(flags.trailingCommas, pairs)
    requires IsBlank(blank) && (trailing ==> flags.trailingCommas)
    requires Has(t, p, PairsText(pairs, trailing, blank))
    ensures p <= |t| && At(t, SkipWs(t, p)) == 0x22
    ensures Reads(ParseMembers(flags, t, SkipWs(t, p), count, events), PairsFit(flags, pairs),
                  p + |PairsText(pairs, trailing, blank)|, events,
                  PairsMeaning(flags, pairs) + [EndObject(Raised(count, |pairs|))])
    decreases pairs, 3
  {
    hide Has, PairText, PairMeaning, ParseMembers, SkipWs, IsBlank, PairForm, Fits, PairsForm, PairsFit, Increment, Raised;
    hide NextMember, PairsText, PairsMeaning, Closing, Reads;
    var m := pairs[0];
    FirstPair(flags, flags.trailingCommas, pairs);
    PairsShape(flags, pairs, trailing, blank);
    ClosingBegins(trailing, blank, 0x7D);
    var tail := if |pairs| > 1 then [0x2C] + PairsText(pairs[1..], trailing, blank) else Closing(trailing, blank, 0x7D);
    var from := PairIsCounted(flags, t, p, m, tail, count, events);
    var one, q := PairMeaning(flags, m), p + |PairText(m)|;
    var end := [EndObject(Raised(count, |pairs|))];
    var r := ParseMembers(flags, t, SkipWs(t, p), count, events);
    RaisedOnce(count, |pairs|);
    if !Fits(flags, m.spaced.value) {
      ReadsIs(r, false, q + |tail|, events, PairsMeaning(flags, pairs) + end);
    } else if |pairs| > 1 {
      var more := PairsMeaning(flags, pairs[1..]);
      HasParts(t, q, [0x2C], PairsText(pairs[1..], trailing, blank));
      PairsAreRead(flags, t, q + 1, pairs[1..], trailing, blank, Increment(count), events + one);
      MembersGoOn(flags, t, from, q, Increment(count), events + one);
      Associative(one, more, end);
      ReadsMore(r, PairsFit(flags, pairs), q + |tail|, events, one, more + end);
    } else {
      NothingLeftOver(flags, flags.trailingCommas);
      assert pairs[1..] == [];
      LastPair(flags, t, from, q, trailing, blank, Increment(count), events + one);
      ReadsIs(r, true, q + |tail|, events + one, end);
      ReadsMore(r, true, q + |tail|, events, one, end);
    }
  }

  /** The first of several members, before a comma or a brace. */
  lemma {:induction false} PairIsCounted(flags: Flags, t: seq<Byte>, p: nat, m: NameValue, tail: seq<Byte>,
                                         count: SizeType, events: seq<Event>) returns (from: nat)
    requires PairForm(flags.trailingCommas, m) && Has(t, p, PairText(m) + tail) && tail != [] && IsEnder(tail[0])
    ensures p <= |t| && At(t, SkipWs(t, p)) == 0x22
    ensures var q, r := p + |PairText(m)|, ParseMembers(flags, t, SkipWs(t, p), count, events);
            && q + |tail| <= |t| && Has(t, q, tail) && t[q] == tail[0] && from <= |t| && SkipWs(t, from) == q
            && (if Fits(flags, m.spaced.value)
                then r == NextMember(flags, t, from, Increment(count), events + PairMeaning(flags, m)) else TooBig(r))
    decreases m, 2
  {
    hide Has, PairText, PairMeaning, ParseMember, SkipWs, IsBlank, PairForm, Fits, NextMember, Increment;
    HasParts(t, p, PairText(m), tail);
    var q := p + |PairText(m)|;
    HasAt(t, q, tail, 0);
    HasIs(t, q, tail);
    from := PairIsRead(flags, t, p, m, events);
  }

  /** A name, a colon and a value, with the blanks between them. */
  lemma {:induction false} PairIsRead(flags: Flags, t: seq<Byte>, p: nat, m: NameValue, events: seq<Event>)
      returns (from: nat)
    requires PairForm(flags.trailingCommas, m) && Has(t, p, PairText(m)) && IsEnder(At(t, p + |PairText(m)|))
    ensures p <= |t| && At(t, SkipWs(t, p)) == 0x22 && from <= |t| && SkipWs(t, from) == p + |PairText(m)|
    ensures var r := ParseMember(flags, t, SkipWs(t, p), events);
            if Fits(flags, m.spaced.value) then r == Done(from, events + PairMeaning(flags, m)) else TooBig(r)
    decreases m, 1
  {
    hide Has, SpacedText, Meaning, ParseValue, ParseMember, SkipWs, IsBlank, SpacedForm, Fits, JsonText, CharsText, Reads;
    hide Quoted, PairText;
    var s, key := m.spaced, [Key(Copied(CharsMeaning(m.name)))];
    var at := NameIsReadWithColon(flags, t, p, m, events);
    SpacedIsRead(flags, t, at, s, events + key);
    from := SkipWs(t, at) + |JsonText(s.value)|;
    ReadsIs(ParseValue(flags, t, SkipWs(t, at), events + key), Fits(flags, s.value), from, events + key,
            Meaning(flags, s.value));
    Associative(events, key, Meaning(flags, s.value));
  }

  lemma NameIsReadWithColon(flags: Flags, t: seq<Byte>, p: nat, m: NameValue, events: seq<Event>) returns (at: nat)
    requires PairForm(flags.trailingCommas, m) && Has(t, p, PairText(m))
    ensures p <= |t| && At(t, SkipWs(t, p)) == 0x22
    ensures at <= |t| && at + |SpacedText(m.spaced)| == p + |PairText(m)| && Has(t, at, SpacedText(m.spaced))
    ensures ParseMember(flags, t, SkipWs(t, p), events)
         == ParseValue(flags, t, SkipWs(t, at), events + [Key(Copied(CharsMeaning(m.name)))])
  {
    hide Has, SpacedText, ParseValue, ParseMember, SkipWs, IsBlank, SpacedForm, CharsText, CharsForm, Quoted, PairText;
    PairParts(t, p, m);
    var q := p + |m.before|;
    var gap := q + |Quoted(m.name)|;
    var colon := gap + |m.gap|;
    at := colon + 1;
    QuotedBegins(m.name);
    HasAt(t, q, Quoted(m.name), 0);
    EndersAreNoBlanks(0x3A);
    EndersAreNoBlanks(0x22);
    BlankIsSkipped(t, p, m.before);
    BlankIsSkipped(t, gap, m.gap);
    StringReading.StringExactly(t, q, true);
    MemberLeads(flags, t, q, gap, colon, CharsMeaning(m.name), events);
  }

  /** Where the parts of a member stand. */
  lemma PairParts(t: seq<Byte>, p: nat, m: NameValue)
    requires Has(t, p, PairText(m))
    ensures var q := p + |m.before|;
            var gap := q + |Quoted(m.name)|;
            var colon := gap + |m.gap|;
            && Has(t, p, m.before) && Has(t, q, Quoted(m.name)) && Has(t, gap, m.gap) && At(t, colon) == 0x3A
            && Has(t, colon + 1, SpacedText(m.spaced))
            && colon + 1 + |SpacedText(m.spaced)| == p + |PairText(m)| <= |t|
  {
    hide Has, SpacedText, Quoted;
    var name, spaced := Quoted(m.name), SpacedText(m.spaced);
    HasIs(t, p, PairText(m));
    HasParts(t, p, m.before, name + (m.gap + ([0x3A] + spaced)));
    var q := p + |m.before|;
    HasParts(t, q, name, m.gap + ([0x3A] + spaced));
    var gap := q + |name|;
    HasParts(t, gap, m.gap, [0x3A] + spaced);
    var colon := gap + |m.gap|;
    HasParts(t, colon, [0x3A], spaced);
    HasAt(t, colon, [0x3A], 0);
  }

  lemma MemberLeads(flags: Flags, t: seq<Byte>, q: nat, gap: nat, colon: nat, name: seq<Byte>, events: seq<Event>)
    requires q < |t| && t[q] == 0x22 && gap <= |t| && StringLeaf(t, q, true) == Good(gap, Key(Copied(name)))
    requires SkipWs(t, gap) == colon < |t| && t[colon] == 0x3A
    ensures ParseMember(flags, t, q, events)
         == ParseValue(flags, t, SkipWs(t, colon + 1), events + [Key(Copied(name))])
  {
    hide StringLeaf, SkipWs, ParseValue;
  }

  lemma QuotedBegins(chars: seq<Char>)
    ensures Quoted(chars) != [] && Quoted(chars)[0] == 0x22
  {
  }

  lemma LastPair(flags: Flags, t: seq<Byte>, from: nat, q: nat, trailing: bool, blank: seq<Byte>, count: SizeType,
                 events: seq<Event>)
    requires IsBlank(blank) && (trailing ==> flags.trailingCommas) && Has(t, q, Closing(trailing, blank, 0x7D))
    requires from <= |t| && SkipWs(t, from) == q < |t|
    ensures NextMember(flags, t, from, count, events)
         == Done(q + |Closing(trailing, blank, 0x7D)|, events + [EndObject(count)])
  {
    hide Has, SkipWs, IsBlank, NextMember;
    HasAt(t, q, Closing(trailing, blank, 0x7D), 0);
    if trailing {
      HasParts(t, q, [0x2C], blank + [0x7D]);
      ClosingIsRead(t, q + 1, blank, 0x7D);
    }
    MembersGoOn(flags, t, from, q, count, events);
  }

  /** Behind a member: a comma and the next one, a trailing comma, or the end. */
  lemma MembersGoOn(flags: Flags, t: seq<Byte>, from: nat, q: nat, count: SizeType, events: seq<Event>)
    requires from <= |t| && SkipWs(t, from) == q < |t|
    ensures t[q] == 0x7D ==> NextMember(flags, t, from, count, events) == Done(q + 1, events + [EndObject(count)])
    ensures t[q] == 0x2C ==>
              var next := SkipWs(t, q + 1);
              NextMember(flags, t, from, count, events)
                == if At(t, next) != 0x7D then ParseMembers(flags, t, next, count, events)
                   else if flags.trailingCommas then Done(next + 1, events + [EndObject(count)])
                   else ParseMembers(flags, t, next, count, events)
  {
    hide ParseMembers, SkipWs;
  }

  // ---------------------------------------------------------------------------------------------
  // Every text that is read is one of the grammar
  // ---------------------------------------------------------------------------------------------

  lemma {:induction false} ValueIsThere(flags: Flags, t: seq<Byte>, p: nat, events: seq<Event>) returns (j: Json)
    requires p <= |t| && ParseValue(flags, t, p, events).Done?
    ensures JsonForm(flags.trailingCommas, j) && Has(t, p, JsonText(j)) && Fits(flags, j)
    ensures ParseValue(flags, t, p, events) == Done(p + |JsonText(j)|, events + Meaning(flags, j))
    decreases |t| - p, 1
  {
    hide Has, JsonText, Meaning, ParseValue, JsonForm, Fits, ScalarLeaf;
    if p < |t| && t[p] == 0x5B {
      j := ArrayIsThere(flags, t, p, events);
    } else if p < |t| && t[p] == 0x7B {
      j := ObjectIsThere(flags, t, p, events);
    } else {
      ScalarLeads(flags, t, p, events);
      j := ScalarIsThere(flags, t, p);
      assert [Meaning(flags, j)[0]] == Meaning(flags, j);
    }
  }

  lemma ScalarLeads(flags: Flags, t: seq<Byte>, p: nat, events: seq<Event>)
    requires p <= |t| && At(t, p) != 0x5B && At(t, p) != 0x7B
    ensures !StartsContainer(At(t, p)) && ParseValue(flags, t, p, events) == Fire(ScalarLeaf(flags, t, p), events)
  {
    hide ScalarLeaf;
  }

  /** A value with the blanks before and behind it. */
  lemma {:induction false} SpacedIsThere(flags: Flags, t: seq<Byte>, p: nat, events: seq<Event>) returns (s: Spaced)
    requires p <= |t| && ParseValue(flags, t, SkipWs(t, p), events).Done?
    ensures SpacedForm(flags.trailingCommas, s) && Has(t, p, SpacedText(s)) && Fits(flags, s.value)
    ensures var from := SkipWs(t, p) + |JsonText(s.value)|;
            && ParseValue(flags, t, SkipWs(t, p), events) == Done(from, events + Meaning(flags, s.value))
            && from <= |t| && SkipWs(t, from) == p + |SpacedText(s)|
    decreases |t| - p, 2
  {
    hide Has, JsonText, Meaning, ParseValue, JsonForm, Fits, IsBlank, SkipWs;
    var q := SkipWs(t, p);
    var j := ValueIsThere(flags, t, q, events);
    var from := q + |JsonText(j)|;
    HasIs(t, q, JsonText(j));
    SkippedIsBlank(t, p);
    SkippedIsBlank(t, from);
    s := Spaced(t[p..q], j, t[from..SkipWs(t, from)]);
    HasBoth(t, q, JsonText(j), s.after);
    HasBoth(t, p, s.before, JsonText(j) + s.after);
  }

  lemma {:induction false} ArrayIsThere(flags: Flags, t: seq<Byte>, p: nat, events: seq<Event>) returns (j: Json)
    requires p < |t| && t[p] == 0x5B && ParseValue(flags, t, p, events).Done?
    ensures JsonForm(flags.trailingCommas, j) && Has(t, p, JsonText(j)) && Fits(flags, j)
    ensures ParseValue(flags, t, p, events) == Done(p + |JsonText(j)|, events + Meaning(flags, j))
    decreases |t| - p, 0
  {
    hide Has, JsonText, Meaning, ParseValue, ParseElements, JsonForm, Fits, IsBlank, SkipWs, AllForm, AllFit;
    hide ElementsText, ElementsMeaning, Raised;
    ArrayOpens(flags, t, p, events);
    HasOne(t, p);
    var q := SkipWs(t, p + 1);
    if At(t, q) == 0x5D {
      var blank := t[p + 1..q];
      j := ArrayJson([], false, blank);
      ArrayShape(flags, [], false, blank);
      NothingLeftOver(flags, flags.trailingCommas);
      NoMeaning(flags);
      ClosingIsThere(t, p + 1, q);
      HasBoth(t, p, [0x5B], blank + [0x5D]);
      TwoEvents(StartArray, EndArray(0));
    } else {
      var elements, trailing, blank := ElementsAreThere(flags, t, p + 1, 0, events + [StartArray]);
      j := ArrayJson(elements, trailing, blank);
      RaisedFromZero(|elements|);
      ArrayShape(flags, elements, trailing, blank);
      HasBoth(t, p, [0x5B], ElementsText(elements, trailing, blank));
      Associative(events, [StartArray], ElementsMeaning(flags, elements) + [EndArray(|elements| % 0x1_0000_0000)]);
    }
  }

  lemma ClosingIsThere(t: seq<Byte>, p: nat, q: nat)
    requires p <= |t| && q == SkipWs(t, p) < |t|
    ensures IsBlank(t[p..q]) && Has(t, p, t[p..q] + [t[q]])
  {
    hide Has, IsBlank, SkipWs;
    SkippedIsBlank(t, p);
    HasOne(t, q);
    HasBoth(t, p, t[p..q], [t[q]]);
  }

  lemma {:induction false} ElementsAreThere(flags: Flags, t: seq<Byte>, p: nat, count: SizeType, events: seq<Event>)
      returns (elements: seq<Spaced>, trailing: bool, blank: seq<Byte>)
    requires p <= |t| && ParseElements(flags, t, SkipWs(t, p), count, events).Done?
    ensures elements != [] && AllForm(flags.trailingCommas, elements) && AllFit(flags, elements)
    ensures IsBlank(blank) && (trailing ==> flags.trailingCommas) && Has(t, p, ElementsText(elements, trailing, blank))
    ensures ParseElements(flags, t, SkipWs(t, p), count, events)
         == Done(p + |ElementsText(elements, trailing, blank)|,
                 events + (ElementsMeaning(flags, elements) + [EndArray(Raised(count, |elements|))]))
    decreases |t| - p, 3
  {
    hide Has, SpacedText, Meaning, ParseElements, SkipWs, IsBlank, SpacedForm, Fits, AllForm, AllFit, Increment, Raised;
    hide NextElement, JsonText, ElementsText, ElementsMeaning, Closing;
    ElementLeads(flags, t, SkipWs(t, p), count, events);
    var s := SpacedIsThere(flags, t, p, events);
    var one, q := Meaning(flags, s.value), p + |SpacedText(s)|;
    var from := SkipWs(t, p) + |JsonText(s.value)|;
    CommaOrBracket(flags, t, from, q, Increment(count), events + one);
    SpacedIsNotEmpty(flags, s);
    ElementsGoOn(flags, t, from, q, Increment(count), events + one);
    var next := SkipWs(t, q + 1);
    if t[q] == 0x2C && !(flags.trailingCommas && At(t, next) == 0x5D) {
      var rest;
      rest, trailing, blank := ElementsAreThere(flags, t, q + 1, Increment(count), events + one);
      elements := [s] + rest;
      ElementBefore(flags, t, p, s, rest, trailing, blank);
      RaisedOnce(count, |elements|);
      MeaningAdds(events, one, ElementsMeaning(flags, rest), [EndArray(Raised(count, |elements|))]);
    } else {
      elements, trailing := [s], t[q] == 0x2C;
      blank := if trailing then t[q + 1..next] else [];
      LastIsThere(t, q, trailing, blank, 0x5D);
      OnlyElement(flags, t, p, s, trailing, blank);
      RaisedOnce(count, 1);
      Associative(events, one, [EndArray(Raised(count, 1))]);
    }
  }

  lemma ElementBefore(flags: Flags, t: seq<Byte>, p: nat, s: Spaced, rest: seq<Spaced>, trailing: bool, blank: seq<Byte>)
    requires Has(t, p, SpacedText(s)) && SpacedForm(flags.trailingCommas, s) && Fits(flags, s.value)
    requires rest != [] && AllForm(flags.trailingCommas, rest) && AllFit(flags, rest)
    requires var q := p + |SpacedText(s)|;
             q < |t| && t[q] == 0x2C && Has(t, q + 1, ElementsText(rest, trailing, blank))
    ensures var elements := [s] + rest;
            && AllForm(flags.trailingCommas, elements) && AllFit(flags, elements)
            && Has(t, p, ElementsText(elements, trailing, blank))
            && |ElementsText(elements, trailing, blank)| == |SpacedText(s)| + 1 + |ElementsText(rest, trailing, blank)|
            && ElementsMeaning(flags, elements) == Meaning(flags, s.value) + ElementsMeaning(flags, rest)
  {
    hide Has, SpacedText, Meaning, SpacedForm, Fits, AllForm, AllFit, ElementsText, ElementsMeaning;
    var elements, q := [s] + rest, p + |SpacedText(s)|;
    assert elements[0] == s && elements[1..] == rest;
    ElementsShape(flags, elements, trailing, blank);
    FirstElement(flags, flags.trailingCommas, elements);
    HasOne(t, q);
    HasBoth(t, q, [0x2C], ElementsText(rest, trailing, blank));
    HasBoth(t, p, SpacedText(s), [0x2C] + ElementsText(rest, trailing, blank));
  }

  lemma OnlyElement(flags: Flags, t: seq<Byte>, p: nat, s: Spaced, trailing: bool, blank: seq<Byte>)
    requires Has(t, p, SpacedText(s)) && SpacedForm(flags.trailingCommas, s) && Fits(flags, s.value)
    requires Has(t, p + |SpacedText(s)|, Closing(trailing, blank, 0x5D))
    ensures AllForm(flags.trailingCommas, [s]) && AllFit(flags, [s]) && Has(t, p, ElementsText([s], trailing, blank))
    ensures |ElementsText([s], trailing, blank)| == |SpacedText(s)| + |Closing(trailing, blank, 0x5D)|
    ensures ElementsMeaning(flags, [s]) == Meaning(flags, s.value)
  {
    hide Has, SpacedText, Meaning, SpacedForm, Fits, AllForm, AllFit, ElementsText, ElementsMeaning, Closing;
    assert [s][1..] == [];
    ElementsShape(flags, [s], trailing, blank);
    FirstElement(flags, flags.trailingCommas, [s]);
    NothingLeftOver(flags, flags.trailingCommas);
    HasBoth(t, p, SpacedText(s), Closing(trailing, blank, 0x5D));
  }

  lemma MeaningAdds(events: seq<Event>, one: seq<Event>, more: seq<Event>, end: seq<Event>)
    ensures events + one + (more + end) == events + (one + more + end)
  {
  }

  lemma ElementLeads(flags: Flags, t: seq<Byte>, p: nat, count: SizeType, events: seq<Event>)
    requires p <= |t| && ParseElements(flags, t, p, count, events).Done?
    ensures var v := ParseValue(flags, t, p, events);
            && v.Done?
            && ParseElements(flags, t, p, count, events) == NextElement(flags, t, v.pos, Increment(count), v.events)
  {
    hide ParseValue, NextElement, Increment;
  }

  lemma CommaOrBracket(flags: Flags, t: seq<Byte>, from: nat, q: nat, count: SizeType, events: seq<Event>)
    requires from <= |t| && SkipWs(t, from) == q && NextElement(flags, t, from, count, events).Done?
    ensures q < |t| && (t[q] == 0x2C || t[q] == 0x5D)
  {
    hide ParseElements, SkipWs;
  }

  lemma SpacedIsNotEmpty(flags: Flags, s: Spaced)
    requires SpacedForm(flags.trailingCommas, s)
    ensures SpacedText(s) != []
  {
    hide JsonText, IsBlank;
    FirstByte(flags.trailingCommas, s.value);
  }

  /** A closing bracket, or a comma, blanks and a closing bracket. */
  lemma LastIsThere(t: seq<Byte>, q: nat, trailing: bool, blank: seq<Byte>, bracket: Byte)
    requires q < |t| && t[q] == if trailing then 0x2C else bracket
    requires if trailing then
               var next := SkipWs(t, q + 1); blank == t[q + 1..next] && At(t, next) == bracket && bracket != NUL
             else blank == []
    ensures IsBlank(blank) && Has(t, q, Closing(trailing, blank, bracket))
    ensures q + |Closing(trailing, blank, bracket)| == (if trailing then SkipWs(t, q + 1) + 1 else q + 1)
  {
    hide Has, SkipWs;
    HasOne(t, q);
    if trailing {
      ClosingIsThere(t, q + 1, SkipWs(t, q + 1));
      HasBoth(t, q, [0x2C], blank + [bracket]);
    }
  }

  lemma {:induction false} ObjectIsThere(flags: Flags, t: seq<Byte>, p: nat, events: seq<Event>) returns (j: Json)
    requires p < |t| && t[p] == 0x7B && ParseValue(flags, t, p, events).Done?
    ensures JsonForm(flags.trailingCommas, j) && Has(t, p, JsonText(j)) && Fits(flags, j)
    ensures ParseValue(flags, t, p, events) == Done(p + |JsonText(j)|, events + Meaning(flags, j))
    decreases |t| - p, 0
  {
    hide Has, JsonText, Meaning, ParseValue, ParseMembers, JsonForm, Fits, IsBlank, SkipWs, PairsForm, PairsFit;
    hide PairsText, PairsMeaning, Raised;
    ObjectOpens(flags, t, p, events);
    HasOne(t, p);
    var q := SkipWs(t, p + 1);
    if At(t, q) == 0x7D {
      var blank := t[p + 1..q];
      j := ObjectJson([], false, blank);
      ObjectShape(flags, [], false, blank);
      NothingLeftOver(flags, flags.trailingCommas);
      NoMeaning(flags);
      ClosingIsThere(t, p + 1, q);
      HasBoth(t, p, [0x7B], blank + [0x7D]);
      TwoEvents(StartObject, EndObject(0));
    } else {
      var pairs, trailing, blank := PairsAreThere(flags, t, p + 1, 0, events + [StartObject]);
      j := ObjectJson(pairs, trailing, blank);
      RaisedFromZero(|pairs|);
      ObjectShape(flags, pairs, trailing, blank);
      HasBoth(t, p, [0x7B], PairsText(pairs, trailing, blank));
      Associative(events, [StartObject], PairsMeaning(flags, pairs) + [EndObject(|pairs| % 0x1_0000_0000)]);
    }
  }

  lemma {:induction false} PairsAreThere(flags: Flags, t: seq<Byte>, p: nat, count: SizeType, events: seq<Event>)
      returns (pairs: seq<NameValue>, trailing: bool, blank: seq<Byte>)
    requires p <= |t| && ParseMembers(flags, t, SkipWs(t, p), count, events).Done?
    ensures pairs != [] && PairsForm(flags.trailingCommas, pairs) && PairsFit(flags, pairs)
    ensures IsBlank(blank) && (trailing ==> flags.trailingCommas) && Has(t, p, PairsText(pairs, trailing, blank))
    ensures ParseMembers(flags, t, SkipWs(t, p), count, events)
         == Done(p + |PairsText(pairs, trailing, blank)|,
                 events + (PairsMeaning(flags, pairs) + [EndObject(Raised(count, |pairs|))]))
    decreases |t| - p, 4
  {
    hide Has, PairText, PairMeaning, ParseMembers, SkipWs, IsBlank, PairForm, Fits, PairsForm, PairsFit, Increment, Raised;
    hide NextMember, JsonText, PairsText, PairsMeaning, Closing;
    MemberComesFirst(flags, t, SkipWs(t, p), count, events);
    var m, from := PairIsThere(flags, t, p, events);
    var one, q := PairMeaning(flags, m), p + |PairText(m)|;
    CommaOrBrace(flags, t, from, q, Increment(count), events + one);
    MembersGoOn(flags, t, from, q, Increment(count), events + one);
    var next := SkipWs(t, q + 1);
    if t[q] == 0x2C && !(flags.trailingCommas && At(t, next) == 0x7D) {
      var rest;
      rest, trailing, blank := PairsAreThere(flags, t, q + 1, Increment(count), events + one);
      pairs := [m] + rest;
      PairBefore(flags, t, p, m, rest, trailing, blank);
      RaisedOnce(count, |pairs|);
      MeaningAdds(events, one, PairsMeaning(flags, rest), [EndObject(Raised(count, |pairs|))]);
    } else {
      pairs, trailing := [m], t[q] == 0x2C;
      blank := if trailing then t[q + 1..next] else [];
      LastIsThere(t, q, trailing, blank, 0x7D);
      OnlyPair(flags, t, p, m, trailing, blank);
      RaisedOnce(count, 1);
      Associative(events, one, [EndObject(Raised(count, 1))]);
    }
  }

  lemma PairBefore(flags: Flags, t: seq<Byte>, p: nat, m: NameValue, rest: seq<NameValue>, trailing: bool, blank: seq<Byte>)
    requires Has(t, p, PairText(m)) && PairForm(flags.trailingCommas, m) && Fits(flags, m.spaced.value)
    requires rest != [] && PairsForm(flags.trailingCommas, rest) && PairsFit(flags, rest)
    requires var q := p + |PairText(m)|; q < |t| && t[q] == 0x2C && Has(t, q + 1, PairsText(rest, trailing, blank))
    ensures var pairs := [m] + rest;
            && PairsForm(flags.trailingCommas, pairs) && PairsFit(flags, pairs)
            && Has(t, p, PairsText(pairs, trailing, blank))
            && |PairsText(pairs, trailing, blank)| == |PairText(m)| + 1 + |PairsText(rest, trailing, blank)|
            && PairsMeaning(flags, pairs) == PairMeaning(flags, m) + PairsMeaning(flags, rest)
  {
    hide Has, PairText, PairMeaning, PairForm, Fits, PairsForm, PairsFit, PairsText, PairsMeaning;
    var pairs, q := [m] + rest, p + |PairText(m)|;
    assert pairs[0] == m && pairs[1..] == rest;
    PairsShape(flags, pairs, trailing, blank);
    FirstPair(flags, flags.trailingCommas, pairs);
    HasOne(t, q);
    HasBoth(t, q, [0x2C], PairsText(rest, trailing, blank));
    HasBoth(t, p, PairText(m), [0x2C] + PairsText(rest, trailing, blank));
  }

  lemma OnlyPair(flags: Flags, t: seq<Byte>, p: nat, m: NameValue, trailing: bool, blank: seq<Byte>)
    requires Has(t, p, PairText(m)) && PairForm(flags.trailingCommas, m) && Fits(flags, m.spaced.value)
    requires Has(t, p + |PairText(m)|, Closing(trailing, blank, 0x7D))
    ensures PairsForm(flags.trailingCommas, [m]) && PairsFit(flags, [m]) && Has(t, p, PairsText([m], trailing, blank))
    ensures |PairsText([m], trailing, blank)| == |PairText(m)| + |Closing(trailing, blank, 0x7D)|
    ensures PairsMeaning(flags, [m]) == PairMeaning(flags, m)
  {
    hide Has, PairText, PairMeaning, PairForm, Fits, PairsForm, PairsFit, PairsText, PairsMeaning, Closing;
    assert [m][1..] == [];
    PairsShape(flags, [m], trailing, blank);
    FirstPair(flags, flags.trailingCommas, [m]);
    NothingLeftOver(flags, flags.trailingCommas);
    HasBoth(t, p, PairText(m), Closing(trailing, blank, 0x7D));
  }

  lemma MemberComesFirst(flags: Flags, t: seq<Byte>, p: nat, count: SizeType, events: seq<Event>)
    requires p <= |t| && ParseMembers(flags, t, p, count, events).Done?
    ensures var v := ParseMember(flags, t, p, events);
            && v.Done?
            && ParseMembers(flags, t, p, count, events) == NextMember(flags, t, v.pos, Increment(count), v.events)
  {
    hide ParseMember, NextMember, Increment;
  }

  lemma CommaOrBrace(flags: Flags, t: seq<Byte>, from: nat, q: nat, count: SizeType, events: seq<Event>)
    requires from <= |t| && SkipWs(t, from) == q && NextMember(flags, t, from, count, events).Done?
    ensures q < |t| && (t[q] == 0x2C || t[q] == 0x7D)
  {
    hide ParseMembers, SkipWs;
  }

  lemma {:induction false} PairIsThere(flags: Flags, t: seq<Byte>, p: nat, events: seq<Event>)
      returns (m: NameValue, from: nat)
    requires p <= |t| && ParseMember(flags, t, SkipWs(t, p), events).Done?
    ensures PairForm(flags.trailingCommas, m) && Has(t, p, PairText(m)) && Fits(flags, m.spaced.value)
    ensures ParseMember(flags, t, SkipWs(t, p), events) == Done(from, events + PairMeaning(flags, m))
    ensures from <= |t| && SkipWs(t, from) == p + |PairText(m)| && |PairText(m)| > 0
    decreases |t| - p, 3
  {
    hide Has, SpacedText, Meaning, ParseValue, ParseMember, SkipWs, IsBlank, SpacedForm, Fits, JsonText, CharsText, CharsForm;
    hide Quoted, PairText, StringLeaf;
    var q := SkipWs(t, p);
    var name, gap, colon := NameIsThere(flags, t, q, events);
    var key := [Key(Copied(CharsMeaning(name)))];
    var s := SpacedIsThere(flags, t, colon + 1, events + key);
    from := SkipWs(t, colon + 1) + |JsonText(s.value)|;
    m := NameValue(t[p..q], name, t[gap..colon], s);
    SkippedIsBlank(t, p);
    SkippedIsBlank(t, gap);
    PairPutTogether(t, p, m);
    Associative(events, key, Meaning(flags, s.value));
  }

  lemma NameIsThere(flags: Flags, t: seq<Byte>, q: nat, events: seq<Event>)
      returns (name: seq<Char>, gap: nat, colon: nat)
    requires q <= |t| && ParseMember(flags, t, q, events).Done?
    ensures CharsForm(name) && Has(t, q, Quoted(name)) && gap == q + |Quoted(name)| && q < gap <= |t|
    ensures colon == SkipWs(t, gap) < |t| && t[colon] == 0x3A
    ensures ParseMember(flags, t, q, events)
         == ParseValue(flags, t, SkipWs(t, colon + 1), events + [Key(Copied(CharsMeaning(name)))])
  {
    hide Has, ParseValue, ParseMember, SkipWs, CharsText, CharsForm, CharsMeaning, Quoted, StringLeaf;
    MemberIsThere(flags, t, q, events);
    StringReading.StringExactly(t, q, true);
    name :| CharsForm(name) && Has(t, q, Quoted(name));
    gap := q + |Quoted(name)|;
    colon := SkipWs(t, gap);
    MemberLeads(flags, t, q, gap, colon, CharsMeaning(name), events);
  }

  lemma MemberIsThere(flags: Flags, t: seq<Byte>, q: nat, events: seq<Event>)
    requires q <= |t| && ParseMember(flags, t, q, events).Done?
    ensures q < |t| && t[q] == 0x22
    ensures var name := StringLeaf(t, q, true);
            && name.Good? && var colon := SkipWs(t, name.pos); colon < |t| && t[colon] == 0x3A
  {
    hide StringLeaf, SkipWs, ParseValue;
  }

  lemma PairPutTogether(t: seq<Byte>, p: nat, m: NameValue)
    requires Has(t, p, m.before)
    requires var q := p + |m.before|;
             var gap := q + |Quoted(m.name)|;
             var colon := gap + |m.gap|;
             && Has(t, q, Quoted(m.name)) && Has(t, gap, m.gap) && At(t, colon) == 0x3A
             && Has(t, colon + 1, SpacedText(m.spaced))
    ensures Has(t, p, PairText(m)) && |PairText(m)| > 0
    ensures p + |PairText(m)| == p + |m.before| + |Quoted(m.name)| + |m.gap| + 1 + |SpacedText(m.spaced)|
  {
    hide Has, SpacedText, Quoted;
    var q := p + |m.before|;
    var gap := q + |Quoted(m.name)|;
    var colon := gap + |m.gap|;
    HasOne(t, colon);
    HasBoth(t, colon, [0x3A], SpacedText(m.spaced));
    HasBoth(t, gap, m.gap, [0x3A] + SpacedText(m.spaced));
    HasBoth(t, q, Quoted(m.name), m.gap + ([0x3A] + SpacedText(m.spaced)));
    HasBoth(t, p, m.before, Quoted(m.name) + (m.gap + ([0x3A] + SpacedText(m.spaced))));
  }

  // ---------------------------------------------------------------------------------------------
  // Whole texts
  // ---------------------------------------------------------------------------------------------

  /** `s` is the text up to its first NUL. */
  ghost predicate IsWholeText(flags: Flags, t: seq<Byte>, s: Spaced) {
    SpacedForm(flags.trailingCommas, s) && Has(t, 0, SpacedText(s)) && At(t, |SpacedText(s)|) == 0x00
  }

  /** Every text of the grammar, whatever the blanks around its tokens and the spellings of its strings and
      numbers, is read to its end, by both parsers, as the events it stands for; or a number in it is too big. */
  lemma TextIsRead(flags: Flags, t: seq<Byte>, s: Spaced)
    requires IsWholeText(flags, t, s)
    ensures var end := if flags.stopWhenDone then |s.before + JsonText(s.value)| else |SpacedText(s)|;
            Reads(RecursiveParse(flags, t), Fits(flags, s.value), end, [], Meaning(flags, s.value))
    ensures IterativeParse(flags, t) == RecursiveParse(flags, t)
  {
    hide Has, SpacedText, Meaning, ParseValue, SkipWs, SpacedForm, Fits, JsonText, IterativeParse;
    SpacedIsRead(flags, t, 0, s, []);
    ReaderEquivalence.ParsersAgree(flags, t);
  }

  /** And what is read is such a text. */
  lemma TextIsThere(flags: Flags, t: seq<Byte>) returns (s: Spaced)
    requires !flags.stopWhenDone && RecursiveParse(flags, t).Done?
    ensures IsWholeText(flags, t, s) && Fits(flags, s.value)
  {
    hide Has, SpacedText, Meaning, ParseValue, SkipWs, SpacedForm, Fits, JsonText;
    s := SpacedIsThere(flags, t, 0, []);
  }

  /** Both parsers accept a text exactly if it is one of the grammar and no number in it is too big, and then they
      fire the events it stands for. */
  lemma AcceptsExactlyTheGrammar(flags: Flags, t: seq<Byte>, end: nat, events: seq<Event>)
    requires !flags.stopWhenDone
    ensures RecursiveParse(flags, t) == Done(end, events)
       <==> exists s :: IsWholeText(flags, t, s) && Fits(flags, s.value) && end == |SpacedText(s)| && events == Meaning(flags, s.value)
    ensures IterativeParse(flags, t) == Done(end, events) <==> RecursiveParse(flags, t) == Done(end, events)
  {
    hide SpacedText, Meaning, RecursiveParse, IterativeParse, Fits, IsWholeText;
    ReaderEquivalence.ParsersAgree(flags, t);
    if RecursiveParse(flags, t) == Done(end, events) {
      var s := TextIsThere(flags, t);
      TextIsRead(flags, t, s);
      assert [] + Meaning(flags, s.value) == Meaning(flags, s.value);
    }
    forall s | IsWholeText(flags, t, s) && Fits(flags, s.value) && end == |SpacedText(s)| && events == Meaning(flags, s.value)
      ensures RecursiveParse(flags, t) == Done(end, events)
    {
      TextIsRead(flags, t, s);
      assert [] + Meaning(flags, s.value) == Meaning(flags, s.value);
    }
  }
}
