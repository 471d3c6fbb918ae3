/** The pretty writer of prettywriter.h: the same text as the plain writer's, but for whitespace. */
module PrettyWriter {
  import opened Bytes
  import opened ReaderSpec
  import opened Decimals
  import opened Document
  import opened Doubles
  import opened Writer

  /** Indentation and format options. SetIndent accepts whitespace only. */
  datatype Format = Format(indentChar: Byte, indentCharCount: nat, singleLineArray: bool)

  predicate ValidFormat(f: Format) {
    IsWhitespace(f.indentChar)
  }

  /** WriteIndent at nesting depth `depth`. */
  function Indent(f: Format, depth: nat): (s: seq<Byte>)
    ensures forall k :: 0 <= k < |s| ==> s[k] == f.indentChar
  {
    seq(depth * f.indentCharCount, _ => f.indentChar)
  }

  /** What PrettyPrefix puts before the next value. */
  function PrettySeparator(f: Format, s: WriterState): seq<Byte> {
    if s.levels == [] then []
    else if Top(s).inArray then
      (if Top(s).valueCount == 0 then [] else if f.singleLineArray then [COMMA, SPACE] else [COMMA])
      + (if f.singleLineArray then [] else [LF] + Indent(f, |s.levels|))
    else if Top(s).valueCount % 2 == 1 then
      [COLON, SPACE]
    else
      (if Top(s).valueCount == 0 then [LF] else [COMMA, LF]) + Indent(f, |s.levels|)
  }

  /** What EndObject and EndArray put before the closing bracket. */
  function ClosingSpace(f: Format, s: WriterState): seq<Byte>
    requires s.levels != []
  {
    if Top(s).valueCount == 0 || (Top(s).inArray && f.singleLineArray) then []
    else [LF] + Indent(f, |s.levels| - 1)
  }

  function PrettyWrote(f: Format, s: WriterState, text: seq<Byte>): WriterState {
    Count(s).(out := s.out + PrettySeparator(f, s) + text)
  }

  /** The pretty writer's state after one event. */
  function PrettyWrite(f: Format, s: WriterState, event: Event): WriterState
    requires Takes(s, event)
  {
    match event
    case StartObject => var w := PrettyWrote(f, s, [LBRACE]); w.(levels := w.levels + [Level(0, false)])
    case StartArray => var w := PrettyWrote(f, s, [LBRACKET]); w.(levels := w.levels + [Level(0, true)])
    case EndObject(_) => s.(levels := s.levels[..|s.levels| - 1], out := s.out + ClosingSpace(f, s) + [RBRACE])
    case EndArray(_) => s.(levels := s.levels[..|s.levels| - 1], out := s.out + ClosingSpace(f, s) + [RBRACKET])
    case _ => PrettyWrote(f, s, ScalarText(s.doubles, event))
  }

  ghost predicate PrettyWrites(f: Format, s: WriterState, events: seq<Event>, result: WriterState)
    decreases |events|
  {
    if events == [] then s == result
    else Takes(s, events[0]) && PrettyWrites(f, PrettyWrite(f, s, events[0]), events[1..], result)
  }

  // ---------------------------------------------------------------------------------------------
  // Whitespace outside strings
  // ---------------------------------------------------------------------------------------------

  /** Where a scan of JSON text stands: between tokens, in a string, or after a backslash in one. */
  datatype Mode = Outside | InString | Escaped

  function NextMode(mode: Mode, c: Byte): Mode {
    match mode
    case Outside => if c == QUOTE then InString else Outside
    case InString => if c == BACKSLASH then Escaped else if c == QUOTE then Outside else InString
    case Escaped => InString
  }

  function ModeAfter(mode: Mode, t: seq<Byte>): Mode
    decreases t
  {
    if t == [] then mode else ModeAfter(NextMode(mode, t[0]), t[1..])
  }

  /** The text without the whitespace that stands outside its strings. */
  function Strip(mode: Mode, t: seq<Byte>): seq<Byte>
    decreases t
  {
    if t == [] then []
    else (if mode == Outside && IsWhitespace(t[0]) then [] else [t[0]]) + Strip(NextMode(mode, t[0]), t[1..])
  }

  lemma {:induction false} StripAppend(mode: Mode, a: seq<Byte>, b: seq<Byte>)
    ensures ModeAfter(mode, a + b) == ModeAfter(ModeAfter(mode, a), b)
    ensures Strip(mode, a + b) == Strip(mode, a) + Strip(ModeAfter(mode, a), b)
    decreases |a|
  {
    if a == [] {
      assert a + b == b;
    } else {
      assert (a + b)[1..] == a[1..] + b;
      StripAppend(NextMode(mode, a[0]), a[1..], b);
    }
  }

  /** Stripping `a` between tokens leaves `b` and ends between tokens. */
  ghost predicate StripsTo(a: seq<Byte>, b: seq<Byte>) {
    Strip(Outside, a) == b && ModeAfter(Outside, a) == Outside
  }

  lemma StripsToAppend(a: seq<Byte>, b: seq<Byte>, c: seq<Byte>, d: seq<Byte>)
    requires StripsTo(a, b) && StripsTo(c, d)
    ensures StripsTo(a + c, b + d)
  {
    StripAppend(Outside, a, c);
  }

  lemma {:induction false} WhitespaceStrips(a: seq<Byte>)
    requires forall k :: 0 <= k < |a| ==> IsWhitespace(a[k])
    ensures StripsTo(a, [])
  {
    if a != [] {
      WhitespaceStrips(a[1..]);
    }
  }

  lemma {:induction false} PlainStrips(a: seq<Byte>)
    requires forall k :: 0 <= k < |a| ==> !IsWhitespace(a[k]) && a[k] != QUOTE
    ensures StripsTo(a, a)
  {
    if a != [] {
      PlainStrips(a[1..]);
    }
  }

  lemma EscapeStaysInString(c: Byte)
    ensures ModeAfter(InString, Escape(c)) == InString
    ensures Strip(InString, Escape(c)) == Escape(c)
  {
    var s := Escape(c);
    if |s| == 1 {
      PlainInString(s);
    } else {
      BackslashInString(s[1]);
      PlainInString(s[2..]);
      StripAppend(InString, [BACKSLASH, s[1]], s[2..]);
      assert s == [BACKSLASH, s[1]] + s[2..];
    }
  }

  lemma BackslashInString(e: Byte)
    ensures ModeAfter(InString, [BACKSLASH, e]) == InString
    ensures Strip(InString, [BACKSLASH, e]) == [BACKSLASH, e]
  {
    var s: seq<Byte> := [BACKSLASH, e];
    assert s[1..] == [e] && [e][1..] == [];
    assert Strip(Escaped, [e]) == [e] + Strip(InString, []);
    assert ModeAfter(Escaped, [e]) == ModeAfter(InString, []);
    assert Strip(InString, s) == [BACKSLASH] + Strip(Escaped, [e]);
  }

  lemma {:induction false} PlainInString(a: seq<Byte>)
    requires forall k :: 0 <= k < |a| ==> a[k] != QUOTE && a[k] != BACKSLASH
    ensures ModeAfter(InString, a) == InString && Strip(InString, a) == a
  {
    if a != [] {
      PlainInString(a[1..]);
    }
  }

  lemma {:induction false} EscapeAllStaysInString(s: seq<Byte>)
    ensures ModeAfter(InString, EscapeAll(s)) == InString
    ensures Strip(InString, EscapeAll(s)) == EscapeAll(s)
  {
    if s != [] {
      EscapeStaysInString(s[0]);
      EscapeAllStaysInString(s[1..]);
      StripAppend(InString, Escape(s[0]), EscapeAll(s[1..]));
    }
  }

  /** A printed string, whatever it holds, is untouched by stripping. */
  lemma StringStrips(s: seq<Byte>)
    ensures StripsTo(StringText(s), StringText(s))
  {
    hide EscapeAll;
    EscapeAllStaysInString(s);
    StripAppend(Outside, [QUOTE], EscapeAll(s));
    StripAppend(Outside, [QUOTE] + EscapeAll(s), [QUOTE]);
    assert [QUOTE][1..] == [];
  }

  lemma ScalarStrips(format: DoubleFormat, event: Event)
    requires IsScalar(event)
    ensures StripsTo(ScalarText(format, event), ScalarText(format, event))
  {
    hide StringText, Digits, StripsTo, DoubleText;
    if event.String? || event.Key? {
      StringStrips(event.text.bytes);
    } else {
      if event.Double? {
        DoubleAlphabet(format, event.bits);
      }
      PlainStrips(ScalarText(format, event));
    }
  }

  /** Both writers put the same separator, one of them with whitespace around it. */
  lemma SeparatorStrips(f: Format, s: WriterState)
    requires ValidFormat(f)
    ensures StripsTo(PrettySeparator(f, s), Separator(s))
  {
    hide StripsTo, Indent;
    var p, c := PrettySeparator(f, s), Separator(s);
    assert |c| <= |p| && p[..|c|] == c;
    PlainStrips(c);
    WhitespaceStrips(p[|c|..]);
    StripsToAppend(c, c, p[|c|..], []);
    assert p == c + p[|c|..] && c + [] == c;
  }

  // ---------------------------------------------------------------------------------------------
  // Lock step
  // ---------------------------------------------------------------------------------------------

  /** The pretty writer has written what the plain one has, but for whitespace. */
  ghost predicate Follows(p: WriterState, s: WriterState) {
    p.levels == s.levels && p.hasRoot == s.hasRoot && p.doubles == s.doubles && StripsTo(p.out, s.out)
  }

  lemma WroteFollows(f: Format, p: WriterState, s: WriterState, text: seq<Byte>)
    requires ValidFormat(f) && Follows(p, s) && StripsTo(text, text)
    ensures Follows(PrettyWrote(f, p, text), Wrote(s, text))
  {
    hide StripsTo, PrettySeparator;
    SeparatorStrips(f, p);
    StripsToAppend(p.out, s.out, PrettySeparator(f, p), Separator(s));
    StripsToAppend(p.out + PrettySeparator(f, p), s.out + Separator(s), text, text);
  }

  lemma StepFollows(f: Format, p: WriterState, s: WriterState, event: Event)
    requires ValidFormat(f) && Follows(p, s) && Takes(s, event)
    ensures Takes(p, event) && Follows(PrettyWrite(f, p, event), Write(s, event))
  {
    hide StripsTo, PrettySeparator, Indent, ScalarText, Strip, ModeAfter, PrettyWrote, Wrote;
    if event.StartObject? {
      PlainStrips([LBRACE]);
      WroteFollows(f, p, s, [LBRACE]);
    } else if event.StartArray? {
      PlainStrips([LBRACKET]);
      WroteFollows(f, p, s, [LBRACKET]);
    } else if event.EndObject? || event.EndArray? {
      var close: Byte := if event.EndObject? then RBRACE else RBRACKET;
      WhitespaceStrips(ClosingSpace(f, p));
      PlainStrips([close]);
      StripsToAppend(p.out, s.out, ClosingSpace(f, p), []);
      assert s.out + [] == s.out;
      StripsToAppend(p.out + ClosingSpace(f, p), s.out, [close], [close]);
    } else {
      ScalarStrips(s.doubles, event);
      WroteFollows(f, p, s, ScalarText(s.doubles, event));
    }
  }

  /** Whatever events the plain writer takes, the pretty writer takes too, and stays in step. */
  lemma {:induction false} PrettyFollows(f: Format, p: WriterState, s: WriterState, events: seq<Event>, r: WriterState)
      returns (q: WriterState)
    requires ValidFormat(f) && Follows(p, s) && Writes(s, events, r)
    ensures PrettyWrites(f, p, events, q) && Follows(q, r)
    decreases |events|
  {
    hide Follows, PrettyWrite, Write;
    if events == [] {
      q := p;
    } else {
      StepFollows(f, p, s, events[0]);
      q := PrettyFollows(f, PrettyWrite(f, p, events[0]), Write(s, events[0]), events[1..], r);
    }
  }

  /** How far a run of events goes up or down in nesting. */
  function Depth(events: seq<Event>): int {
    if events == [] then 0
    else
      (if events[0].StartObject? || events[0].StartArray? then 1
       else if events[0].EndObject? || events[0].EndArray? then -1
       else 0) + Depth(events[1..])
  }

  lemma {:induction false} LevelsAreDepth(s: WriterState, events: seq<Event>, r: WriterState)
    requires Writes(s, events, r)
    ensures |r.levels| == |s.levels| + Depth(events)
    ensures s.hasRoot ==> r.hasRoot
    ensures events != [] && s.levels == [] ==> r.hasRoot
    decreases |events|
  {
    hide ScalarText;
    if events != [] {
      LevelsAreDepth(Write(s, events[0]), events[1..], r);
    }
  }

  /** For every balanced event sequence that the writer takes as one root value, under every format and
      however doubles are printed: the pretty writer takes it too, both end complete, and the pretty text
      without its whitespace outside strings is the plain text. */
  lemma PrettyTextStripsToText(f: Format, doubles: DoubleFormat, events: seq<Event>, r: WriterState)
      returns (q: WriterState)
    requires ValidFormat(f) && Writes(EmptyWriter(doubles), events, r)
    requires events != [] && Depth(events) == 0
    ensures PrettyWrites(f, EmptyWriter(doubles), events, q)
    ensures Complete(q) && Complete(r) && Strip(Outside, q.out) == r.out
  {
    hide Writes, PrettyWrites, Depth;
    q := PrettyFollows(f, EmptyWriter(doubles), EmptyWriter(doubles), events, r);
    LevelsAreDepth(EmptyWriter(doubles), events, r);
  }

  /** In particular for the events of a tree: stripping its pretty text gives its plain text. */
  lemma PrettyPrintStripsToPrint(f: Format, doubles: DoubleFormat, v: Value) returns (q: WriterState)
    requires ValidFormat(f) && Printable(v)
    ensures PrettyWrites(f, EmptyWriter(doubles), Events(Accepted, v), q)
    ensures Complete(q) && Strip(Outside, q.out) == Print(doubles, v)
  {
    hide Writes, PrettyWrites, Print, Events;
    WriterPrints(v, EmptyWriter(doubles));
    var r := Wrote(EmptyWriter(doubles), Print(doubles, v));
    q := PrettyFollows(f, EmptyWriter(doubles), EmptyWriter(doubles), Events(Accepted, v), r);
  }

  // ---------------------------------------------------------------------------------------------
  // The pretty writer as it runs
  // ---------------------------------------------------------------------------------------------

  class PrettyWriter {
    const format: Format
    const doubles: DoubleFormat
    var os: seq<Byte>
    var levelStack: seq<Level>
    var hasRoot: bool

    constructor (format: Format, doubles: DoubleFormat)
      ensures this.format == format && State() == EmptyWriter(doubles)
    {
      this.format, this.doubles, os, levelStack, hasRoot := format, doubles, [], [], false;
    }

    function State(): WriterState
      reads this
    {
      WriterState(os, levelStack, hasRoot, doubles)
    }

    method Put(c: Byte)
      modifies this`os
      ensures os == old(os) + [c]
    {
      os := os + [c];
    }

    method WriteIndent()
      modifies this`os
      ensures os == old(os) + Indent(format, |levelStack|)
    {
      var count := |levelStack| * format.indentCharCount;
      for i := 0 to count
        invariant os == old(os) + Indent(format, |levelStack|)[..i]
      {
        Put(format.indentChar);
      }
    }

    method PrettyPrefix(isString: bool)
      requires TakesValue(State(), isString)
      modifies this
      ensures State() == PrettyWrote(format, old(State()), [])
    {
      hide Indent;
      if |levelStack| != 0 {
        var level := levelStack[|levelStack| - 1];
        if level.inArray {
          if level.valueCount > 0 {
            Put(COMMA);
            if format.singleLineArray {
              Put(SPACE);
            }
          }
          if !format.singleLineArray {
            Put(LF);
            WriteIndent();
          }
        } else {
          if level.valueCount > 0 {
            if level.valueCount % 2 == 0 {
              Put(COMMA);
              Put(LF);
            } else {
              Put(COLON);
              Put(SPACE);
            }
          } else {
            Put(LF);
          }
          if level.valueCount % 2 == 0 {
            WriteIndent();
          }
        }
        assert os == old(os) + PrettySeparator(format, old(State()));
        levelStack := levelStack[..|levelStack| - 1] + [level.(valueCount := level.valueCount + 1)];
      } else {
        hasRoot := true;
      }
    }

    method StartContainer(inArray: bool)
      requires TakesValue(State(), false)
      modifies this
      ensures State() == PrettyWrite(format, old(State()), if inArray then StartArray else StartObject)
    {
      hide PrettySeparator;
      PrettyPrefix(false);
      levelStack := levelStack + [Level(0, inArray)];
      Put(if inArray then LBRACKET else LBRACE);
    }

    /** EndObject and EndArray: the level is popped first, so its brackets are indented like its parent. */
    method EndContainer(event: Event)
      requires (event.EndObject? || event.EndArray?) && Takes(State(), event)
      modifies this
      ensures State() == PrettyWrite(format, old(State()), event)
    {
      hide Indent;
      var empty := levelStack[|levelStack| - 1].valueCount == 0;
      levelStack := levelStack[..|levelStack| - 1];
      if !empty && (event.EndObject? || !format.singleLineArray) {
        Put(LF);
        WriteIndent();
      }
      assert os == old(os) + ClosingSpace(format, old(State()));
      Put(if event.EndArray? then RBRACKET else RBRACE);
    }

    /** A scalar is written as the plain writer writes it. */
    method Scalar(event: Event)
      requires IsScalar(event) && TakesValue(State(), event.String? || event.Key?)
      modifies this
      ensures State() == PrettyWrite(format, old(State()), event)
    {
      hide ScalarText, PrettySeparator;
      PrettyPrefix(event.String? || event.Key?);
      var base := new Writer(doubles);
      base.WriteScalar(event);
      os := os + base.os;
    }
  }
}
