/** The pretty text as a function of the plain text: which whitespace stands between two tokens is decided by the
    bytes on either side and the brackets that are open. Bytes are given by their numbers. */
module PrettyLayout {
  import opened Bytes
  import opened Decimals
  import opened Document
  import opened Doubles
  import opened PrettyWriter
  import opened ReaderSpec
  import opened Writer

  /** Where a scan of a text stands: in a string or not, the brackets that are open, and the byte before. */
  datatype Place = Place(mode: Mode, open: seq<Byte>, last: Byte)

  const START: Place := Place(Outside, [], 0x00)

  predicate IsOpening(c: Byte) {
    c == 0x5B || c == 0x7B
  }

  predicate IsClosing(c: Byte) {
    c == 0x5D || c == 0x7D
  }

  /** The innermost open bracket is one whose elements stand on one line. */
  predicate OnOneLine(f: Format, open: seq<Byte>) {
    f.singleLineArray && open != [] && open[|open| - 1] == 0x5B
  }

  function Line(f: Format, depth: nat): seq<Byte> {
    [0x0A] + seq(depth * f.indentCharCount, _ => f.indentChar)
  }

  /** The whitespace before a token byte: a space behind a colon; a new line for every element and for the closing
      bracket of a container that has any, indented by depth; on one line just a space behind a comma. */
  function Gap(f: Format, p: Place, c: Byte): seq<Byte> {
    if p.mode != Outside then []
    else if IsClosing(c) then
      if IsOpening(p.last) || OnOneLine(f, p.open) || p.open == [] then [] else Line(f, |p.open| - 1)
    else if p.last == 0x3A then [0x20]
    else if p.last == 0x2C then if OnOneLine(f, p.open) then [0x20] else Line(f, |p.open|)
    else if IsOpening(p.last) then if OnOneLine(f, p.open) then [] else Line(f, |p.open|)
    else []
  }

  function Advance(p: Place, c: Byte): Place {
    Place(NextMode(p.mode, c),
          if p.mode != Outside then p.open
          else if IsOpening(c) then p.open + [c]
          else if IsClosing(c) && p.open != [] then p.open[..|p.open| - 1]
          else p.open,
          c)
  }

  function After(p: Place, t: seq<Byte>): Place
    decreases |t|
  {
    if t == [] then p else After(Advance(p, t[0]), t[1..])
  }

  /** The text with the gaps before its bytes. */
  function Formatted(f: Format, p: Place, t: seq<Byte>): seq<Byte>
    decreases |t|
  {
    if t == [] then [] else Gap(f, p, t[0]) + [t[0]] + Formatted(f, Advance(p, t[0]), t[1..])
  }

  lemma {:induction false} FormattedAppend(f: Format, p: Place, a: seq<Byte>, b: seq<Byte>)
    ensures After(p, a + b) == After(After(p, a), b)
    ensures Formatted(f, p, a + b) == Formatted(f, p, a) + Formatted(f, After(p, a), b)
    decreases |a|
  {
    hide Gap, Advance;
    if a == [] {
      assert a + b == b;
    } else {
      assert (a + b)[1..] == a[1..] + b;
      FormattedAppend(f, Advance(p, a[0]), a[1..], b);
      Associative(Gap(f, p, a[0]) + [a[0]], Formatted(f, Advance(p, a[0]), a[1..]), Formatted(f, After(p, a), b));
    }
  }

  lemma OneByte(f: Format, p: Place, c: Byte)
    ensures After(p, [c]) == Advance(p, c) && Formatted(f, p, [c]) == Gap(f, p, c) + [c]
  {
    hide Gap, Advance;
    assert [c][1..] == [];
  }

  // -----------------------------------------------------------------------------------------------
  // Values
  // -----------------------------------------------------------------------------------------------

  /** A byte that ends a value, or continues one outside strings. */
  predicate IsQuiet(c: Byte) {
    !IsOpening(c) && !IsClosing(c) && c != 0x2C && c != 0x3A && c != 0x22
  }

  lemma {:induction false} QuietBytes(f: Format, p: Place, t: seq<Byte>)
    requires p.mode == Outside && IsQuiet(p.last) && forall k :: 0 <= k < |t| ==> IsQuiet(t[k])
    ensures Formatted(f, p, t) == t
    ensures After(p, t) == p.(last := if t == [] then p.last else t[|t| - 1])
    decreases |t|
  {
    if t != [] {
      QuietBytes(f, Advance(p, t[0]), t[1..]);
    }
  }

  lemma {:induction false} InsideString(f: Format, p: Place, t: seq<Byte>)
    requires p.mode == InString && forall k :: 0 <= k < |t| ==> t[k] != 0x22 && t[k] != 0x5C
    ensures Formatted(f, p, t) == t && After(p, t).mode == InString && After(p, t).open == p.open
    decreases |t|
  {
    if t != [] {
      InsideString(f, Advance(p, t[0]), t[1..]);
    }
  }

  lemma EscapeInside(f: Format, p: Place, c: Byte)
    requires p.mode == InString
    ensures Formatted(f, p, Escape(c)) == Escape(c)
    ensures After(p, Escape(c)).mode == InString && After(p, Escape(c)).open == p.open
  {
    hide Escape;
    EscapeShape(c);
    if |Escape(c)| == 1 {
      InsideString(f, p, Escape(c));
    } else {
      BackslashInside(f, p, Escape(c)[1], Escape(c)[2..]);
    }
  }

  /** An escape is one harmless byte, or a backslash, a byte and harmless ones. */
  lemma EscapeShape(c: Byte)
    ensures |Escape(c)| == 1 ==> Escape(c)[0] != 0x22 && Escape(c)[0] != 0x5C
    ensures |Escape(c)| != 1 ==>
              && |Escape(c)| >= 2 && Escape(c) == [0x5C] + ([Escape(c)[1]] + Escape(c)[2..])
              && forall k :: 2 <= k < |Escape(c)| ==> Escape(c)[k] != 0x22 && Escape(c)[k] != 0x5C
  {
  }

  lemma BackslashInside(f: Format, p: Place, e: Byte, rest: seq<Byte>)
    requires p.mode == InString && forall k :: 0 <= k < |rest| ==> rest[k] != 0x22 && rest[k] != 0x5C
    ensures var s := [0x5C] + ([e] + rest);
            Formatted(f, p, s) == s && After(p, s).mode == InString && After(p, s).open == p.open
  {
    var q := Advance(p, 0x5C);
    FormattedAppend(f, p, [0x5C], [e] + rest);
    OneByte(f, p, 0x5C);
    FormattedAppend(f, q, [e], rest);
    OneByte(f, q, e);
    InsideString(f, Advance(q, e), rest);
  }

  lemma {:induction false} EscapesInside(f: Format, p: Place, s: seq<Byte>)
    requires p.mode == InString
    ensures Formatted(f, p, EscapeAll(s)) == EscapeAll(s)
    ensures After(p, EscapeAll(s)).mode == InString && After(p, EscapeAll(s)).open == p.open
    decreases |s|
  {
    hide Escape, Gap, Advance;
    if s != [] {
      EscapeInside(f, p, s[0]);
      EscapesInside(f, After(p, Escape(s[0])), s[1..]);
      FormattedAppend(f, p, Escape(s[0]), EscapeAll(s[1..]));
    }
  }

  lemma StringFormatted(f: Format, p: Place, s: seq<Byte>)
    requires p.mode == Outside
    ensures Formatted(f, p, StringText(s)) == Gap(f, p, 0x22) + StringText(s)
    ensures After(p, StringText(s)) == p.(last := 0x22)
  {
    hide EscapeAll, Gap;
    var q := Advance(p, 0x22);
    var inner := EscapeAll(s);
    Associative([0x22], inner, [0x22]);
    OneByte(f, p, 0x22);
    EscapesInside(f, q, s);
    OneByte(f, After(q, inner), 0x22);
    FormattedAppend(f, q, inner, [0x22]);
    FormattedAppend(f, p, [0x22], inner + [0x22]);
    NoGapInside(f, After(q, inner), 0x22);
    Associative(Gap(f, p, 0x22), [0x22], inner + [0x22]);
  }

  lemma NoGapInside(f: Format, p: Place, c: Byte)
    requires p.mode == InString
    ensures Gap(f, p, c) == []
  {
  }

  /** A scalar is written as it is, behind the gap before its first byte. */
  lemma ScalarFormatted(f: Format, p: Place, format: DoubleFormat, event: Event)
    requires IsScalar(event) && p.mode == Outside
    ensures var t := ScalarText(format, event);
            && t != [] && !IsOpening(t[0]) && !IsClosing(t[0]) && t[0] != 0x2C && t[0] != 0x3A
            && Formatted(f, p, t) == Gap(f, p, t[0]) + t
            && After(p, t).mode == Outside && After(p, t).open == p.open
            && !IsOpening(After(p, t).last) && After(p, t).last != 0x2C && After(p, t).last != 0x3A
  {
    hide StringText, DoubleText, Digits, Gap, After, Formatted;
    var t := ScalarText(format, event);
    if event.String? || event.Key? {
      QuoteFirst(event.text.bytes);
      StringFormatted(f, p, event.text.bytes);
    } else {
      if event.Double? {
        DoubleAlphabet(format, event.bits);
      }
      QuietText(f, p, t);
    }
  }

  lemma QuietText(f: Format, p: Place, t: seq<Byte>)
    requires p.mode == Outside && t != [] && forall k :: 0 <= k < |t| ==> IsQuiet(t[k])
    ensures Formatted(f, p, t) == Gap(f, p, t[0]) + t && After(p, t) == p.(last := t[|t| - 1])
  {
    hide Gap;
    QuietBytes(f, Advance(p, t[0]), t[1..]);
    assert t == [t[0]] + t[1..];
    Associative(Gap(f, p, t[0]), [t[0]], t[1..]);
  }

  lemma QuoteFirst(s: seq<Byte>)
    ensures StringText(s) != [] && StringText(s)[0] == 0x22
  {
  }

  // -----------------------------------------------------------------------------------------------
  // Lock step
  // -----------------------------------------------------------------------------------------------

  function Brackets(levels: seq<Level>): (open: seq<Byte>)
    ensures |open| == |levels|
  {
    seq(|levels|, i requires 0 <= i < |levels| => if levels[i].inArray then 0x5B else 0x7B)
  }

  /** The scan of the plain text stands where the writer's state says. */
  ghost predicate Standing(s: WriterState, p: Place) {
    && p.mode == Outside && p.open == Brackets(s.levels)
    && (forall i :: 0 <= i < |s.levels| - 1 ==> s.levels[i].valueCount > 0)
    && (if s.levels != [] && Top(s).valueCount == 0 then p.last == p.open[|p.open| - 1]
        else !IsOpening(p.last) && p.last != 0x2C && p.last != 0x3A)
  }

  ghost predicate InStep(f: Format, p: WriterState, s: WriterState) {
    && p.levels == s.levels && p.hasRoot == s.hasRoot && p.doubles == s.doubles
    && Standing(s, After(START, s.out)) && p.out == Formatted(f, START, s.out)
  }

  /** Separator and gap before a value make up what the pretty writer puts there. */
  lemma SeparatorFormatted(f: Format, s: WriterState, p: Place, c: Byte)
    requires Standing(s, p) && !IsClosing(c)
    ensures var q := After(p, Separator(s));
            && q.mode == Outside && q.open == p.open
            && Formatted(f, p, Separator(s)) + Gap(f, q, c) == PrettySeparator(f, s)
  {
    if Separator(s) != [] {
      OneByte(f, p, Separator(s)[0]);
    }
  }

  lemma ValueInStep(f: Format, p: WriterState, s: WriterState, text: seq<Byte>)
    requires InStep(f, p, s) && text != [] && !IsClosing(text[0])
    requires var q := After(After(START, s.out), Separator(s));
             Formatted(f, q, text) == Gap(f, q, text[0]) + text
    ensures PrettyWrote(f, p, text).out == Formatted(f, START, Wrote(s, text).out)
    ensures After(START, Wrote(s, text).out) == After(After(After(START, s.out), Separator(s)), text)
  {
    hide Gap, PrettySeparator, Standing, Separator;
    var at := After(START, s.out);
    SeparatorFormatted(f, s, at, text[0]);
    FormattedAppend(f, START, s.out, Separator(s));
    FormattedAppend(f, START, s.out + Separator(s), text);
    SameLevels(f, p, s);
    var q := After(at, Separator(s));
    Associative(Formatted(f, START, s.out), Formatted(f, at, Separator(s)), Gap(f, q, text[0]) + text);
    Associative(Formatted(f, at, Separator(s)), Gap(f, q, text[0]), text);
    Associative(p.out, PrettySeparator(f, s), text);
  }

  lemma SameLevels(f: Format, p: WriterState, s: WriterState)
    requires p.levels == s.levels
    ensures PrettySeparator(f, p) == PrettySeparator(f, s)
  {
  }

  lemma BracketsCounted(s: WriterState)
    ensures Brackets(Count(s).levels) == Brackets(s.levels)
  {
  }

  lemma BracketsPushed(levels: seq<Level>, l: Level)
    ensures Brackets(levels + [l]) == Brackets(levels) + [if l.inArray then 0x5B else 0x7B]
  {
  }

  lemma BracketsPopped(levels: seq<Level>)
    requires levels != []
    ensures Brackets(levels[..|levels| - 1]) == Brackets(levels)[..|levels| - 1]
  {
  }

  lemma ScalarInStep(f: Format, p: WriterState, s: WriterState, event: Event)
    requires InStep(f, p, s) && IsScalar(event) && Takes(s, event)
    ensures InStep(f, PrettyWrite(f, p, event), Write(s, event))
  {
    hide Gap, PrettySeparator, ScalarText, Separator, After, Formatted;
    var text := ScalarText(s.doubles, event);
    var q := After(After(START, s.out), Separator(s));
    SeparatorFormatted(f, s, After(START, s.out), 0x22);
    ScalarFormatted(f, q, s.doubles, event);
    ValueInStep(f, p, s, text);
    BracketsCounted(s);
  }

  lemma OpeningInStep(f: Format, p: WriterState, s: WriterState, event: Event)
    requires InStep(f, p, s) && (event.StartObject? || event.StartArray?) && Takes(s, event)
    ensures InStep(f, PrettyWrite(f, p, event), Write(s, event))
  {
    hide Gap, PrettySeparator, Separator, After, Formatted;
    var c: Byte := if event.StartArray? then 0x5B else 0x7B;
    var q := After(After(START, s.out), Separator(s));
    SeparatorFormatted(f, s, After(START, s.out), c);
    OneByte(f, q, c);
    ValueInStep(f, p, s, [c]);
    BracketsCounted(s);
    BracketsPushed(Count(s).levels, Level(0, event.StartArray?));
  }

  lemma ClosingInStep(f: Format, p: WriterState, s: WriterState, event: Event)
    requires InStep(f, p, s) && (event.EndObject? || event.EndArray?) && Takes(s, event)
    ensures InStep(f, PrettyWrite(f, p, event), Write(s, event))
  {
    hide After, Formatted;
    var c: Byte := if event.EndArray? then 0x5D else 0x7D;
    var at := After(START, s.out);
    OneByte(f, at, c);
    FormattedAppend(f, START, s.out, [c]);
    BracketsPopped(s.levels);
    assert Gap(f, at, c) == ClosingSpace(f, p);
    Associative(p.out, Gap(f, at, c), [c]);
  }

  lemma {:induction false} RunInStep(f: Format, p: WriterState, s: WriterState, events: seq<Event>, r: WriterState)
      returns (q: WriterState)
    requires InStep(f, p, s) && Writes(s, events, r)
    ensures PrettyWrites(f, p, events, q) && InStep(f, q, r)
    decreases |events|
  {
    hide InStep, PrettyWrite, Write;
    if events == [] {
      q := p;
    } else {
      StepInStep(f, p, s, events[0]);
      q := RunInStep(f, PrettyWrite(f, p, events[0]), Write(s, events[0]), events[1..], r);
    }
  }

  lemma StepInStep(f: Format, p: WriterState, s: WriterState, event: Event)
    requires InStep(f, p, s) && Takes(s, event)
    ensures Takes(p, event) && InStep(f, PrettyWrite(f, p, event), Write(s, event))
  {
    hide Standing, After, Formatted, PrettyWrite, Write;
    SameTakes(p, s, event);
    if event.StartObject? || event.StartArray? {
      OpeningInStep(f, p, s, event);
    } else if event.EndObject? || event.EndArray? {
      ClosingInStep(f, p, s, event);
    } else {
      ScalarInStep(f, p, s, event);
    }
  }

  lemma SameTakes(p: WriterState, s: WriterState, event: Event)
    requires p.levels == s.levels && p.hasRoot == s.hasRoot
    ensures Takes(p, event) == Takes(s, event)
  {
  }

  /** Whatever events the writer takes, under every format: the pretty writer's text is the plain text with the
      gaps that its bytes decide. */
  lemma PrettyTextIsFormatted(f: Format, doubles: DoubleFormat, events: seq<Event>, r: WriterState) returns (q: WriterState)
    requires Writes(EmptyWriter(doubles), events, r)
    ensures PrettyWrites(f, EmptyWriter(doubles), events, q) && q.out == Formatted(f, START, r.out)
  {
    hide Writes, PrettyWrites;
    assert InStep(f, EmptyWriter(doubles), EmptyWriter(doubles));
    q := RunInStep(f, EmptyWriter(doubles), EmptyWriter(doubles), events, r);
  }

  /** In particular for a tree. */
  lemma PrettyPrintIsFormatted(f: Format, doubles: DoubleFormat, v: Value) returns (q: WriterState)
    requires Printable(v)
    ensures PrettyWrites(f, EmptyWriter(doubles), Events(Accepted, v), q) && q.out == Formatted(f, START, Print(doubles, v))
  {
    hide Writes, PrettyWrites, Print, Events, Formatted;
    WriterPrints(v, EmptyWriter(doubles));
    var text := Print(doubles, v);
    assert [] + [] + text == text;
    q := PrettyTextIsFormatted(f, doubles, Events(Accepted, v), Wrote(EmptyWriter(doubles), text));
  }
}
