/** The pushdown machine computes what the recursive descent computes: same events, same counts, same
    verdict, same error code and offset, but for the code of one kind of malformed root. */
module ReaderEquivalence {
  import opened Bytes
  import opened ReaderSpec

  /** The states in which the grammar calls for a value. */
  predicate WantsValue(state: State) {
    state.Start? || state.ArrayInitial? || state.ElementDelimiter? || state.KeyValueDelimiter?
  }

  /** The bytes that begin no value and that Tokenize does not call a number. */
  predicate IsStray(c: Byte) {
    c == RBRACKET || c == RBRACE || c == COMMA || c == COLON
  }

  /** The states in which a closing bracket ends the container. */
  predicate MayLeave(flags: Flags, state: State, isObject: bool) {
    if isObject then state.ObjectInitial? || state.MemberValue? || (state.MemberDelimiter? && flags.trailingCommas)
    else state.ArrayInitial? || state.Element? || (state.ElementDelimiter? && flags.trailingCommas)
  }

  /** The state after a value was read in state `state`. */
  function AfterValue(state: State): State {
    if state == Start then Finish else ResumeState(state)
  }

  /** The state after the container of this frame was closed. */
  function AfterContainer(frame: Frame): State {
    if frame.resume == Start then Finish else frame.resume
  }

  function Top(m: Machine): Frame
    requires m.stack != []
  {
    m.stack[|m.stack| - 1]
  }

  /** How the machine goes on after a recursive parse routine ended with `r`. */
  ghost function Resume(flags: Flags, t: seq<Byte>, r: Outcome, state: State, stack: seq<Frame>): Outcome
    requires r.Done? ==> r.pos <= |t| && WellFormed(Machine(r.pos, state, stack, r.events))
  {
    if r.Failed? then r
    else if flags.stopWhenDone && state == Finish then r
    else Run(flags, t, Machine(SkipWs(t, r.pos), state, stack, r.events))
  }

  // ---------------------------------------------------------------------------------------------
  // Single moves of the machine
  // ---------------------------------------------------------------------------------------------

  lemma ScalarMove(flags: Flags, t: seq<Byte>, m: Machine)
    requires m.pos < |t| && WellFormed(m) && WantsValue(m.state)
    requires IsScalarToken(Tokenize(t[m.pos])) && t[m.pos] != NUL
    ensures Run(flags, t, m) == Resume(flags, t, Fire(ScalarLeaf(flags, t, m.pos), m.events), AfterValue(m.state), m.stack)
  {
    hide ScalarLeaf, StringLeaf;
    assert Step(flags, t, m) == LeafMove(m, ScalarLeaf(flags, t, m.pos), AfterValue(m.state));
  }

  /** A step that does not finish the document only hands the run on. */
  lemma RunNext(flags: Flags, t: seq<Byte>, m: Machine, n: Machine)
    requires m.pos < |t| && t[m.pos] != NUL && WellFormed(m)
    requires Step(flags, t, m) == Next(n) && n.state != Finish
    ensures n.pos <= |t| && WellFormed(n) && forall q: nat :: WellFormed(n.(pos := q))
    ensures Run(flags, t, m) == Run(flags, t, n.(pos := SkipWs(t, n.pos)))
  {
    hide Step;
  }

  lemma OpenMove(flags: Flags, t: seq<Byte>, m: Machine)
    requires m.pos < |t| && WellFormed(m) && WantsValue(m.state)
    requires StartsContainer(t[m.pos])
    ensures var isObject := t[m.pos] == LBRACE;
            var inside := Machine(SkipWs(t, m.pos + 1), if isObject then ObjectInitial else ArrayInitial,
                                  m.stack + [Frame(ResumeState(m.state), 0)],
                                  m.events + [if isObject then StartObject else StartArray]);
            WellFormed(inside) && Run(flags, t, m) == Run(flags, t, inside)
  {
    hide ScalarLeaf, StringLeaf, LeafMove, Leave, CountOne, Run, WellFormed;
    var isObject := t[m.pos] == LBRACE;
    RunNext(flags, t, m,
      Machine(m.pos + 1, if isObject then ObjectInitial else ArrayInitial,
              m.stack + [Frame(ResumeState(m.state), 0)], m.events + [if isObject then StartObject else StartArray]));
  }

  lemma LeaveStep(flags: Flags, t: seq<Byte>, m: Machine, isObject: bool)
    requires m.pos < |t| && WellFormed(m) && m.stack != []
    requires t[m.pos] == if isObject then RBRACE else RBRACKET
    requires MayLeave(flags, m.state, isObject)
    ensures Step(flags, t, m) == Next(Leave(m, if isObject then MemberValue else Element, isObject))
  {
    hide ScalarLeaf, StringLeaf, LeafMove, CountOne, Leave;
    assert Predict(m.state, Tokenize(t[m.pos])) == if isObject then ObjectFinish else ArrayFinish;
  }

  /** The closing bracket pops the frame and resumes outside. */
  lemma LeaveMove(flags: Flags, t: seq<Byte>, m: Machine, outer: seq<Frame>, isObject: bool)
    requires m.pos <= |t| && WellFormed(m) && m.stack != [] && m.stack[..|m.stack| - 1] == outer
    requires At(t, m.pos) == if isObject then RBRACE else RBRACKET
    requires MayLeave(flags, m.state, isObject)
    ensures var n := if m.state.MemberValue? || m.state.Element? then Increment(Top(m).count) else Top(m).count;
            Run(flags, t, m) == Resume(flags, t,
              Done(m.pos + 1, m.events + [if isObject then EndObject(n) else EndArray(n)]), AfterContainer(Top(m)), outer)
  {
    hide Step;
    LeaveStep(flags, t, m, isObject);
  }

  lemma CommaMove(flags: Flags, t: seq<Byte>, m: Machine, outer: seq<Frame>)
    requires m.pos <= |t| && WellFormed(m) && m.stack != [] && m.stack[..|m.stack| - 1] == outer
    requires (m.state.Element? || m.state.MemberValue?) && At(t, m.pos) == COMMA
    ensures var delimiter := Machine(SkipWs(t, m.pos + 1), if m.state == Element then ElementDelimiter else MemberDelimiter,
                                     outer + [Frame(Top(m).resume, Increment(Top(m).count))], m.events);
            WellFormed(delimiter) && Run(flags, t, m) == Run(flags, t, delimiter)
  {
    hide ScalarLeaf, StringLeaf, LeafMove, Leave, Run, WellFormed;
    RunNext(flags, t, m, CountOne(m, if m.state == Element then ElementDelimiter else MemberDelimiter));
  }

  lemma KeyMove(flags: Flags, t: seq<Byte>, m: Machine)
    requires m.pos <= |t| && WellFormed(m) && (m.state.ObjectInitial? || m.state.MemberDelimiter?)
    requires At(t, m.pos) == QUOTE
    ensures Run(flags, t, m) == Resume(flags, t, Fire(StringLeaf(t, m.pos, true), m.events), MemberKey, m.stack)
  {
    hide ScalarLeaf, StringLeaf;
    assert Step(flags, t, m) == LeafMove(m, StringLeaf(t, m.pos, true), MemberKey);
  }

  lemma ColonMove(flags: Flags, t: seq<Byte>, m: Machine)
    requires m.pos <= |t| && WellFormed(m) && m.state == MemberKey
    requires At(t, m.pos) == COLON
    ensures var valued := Machine(SkipWs(t, m.pos + 1), KeyValueDelimiter, m.stack, m.events);
            WellFormed(valued) && Run(flags, t, m) == Run(flags, t, valued)
  {
    hide ScalarLeaf, StringLeaf, LeafMove, Leave, CountOne, Run, WellFormed;
    RunNext(flags, t, m, m.(pos := m.pos + 1, state := KeyValueDelimiter));
  }

  /** A byte that fits no transition, or the end of the text, is reported by state. */
  lemma MisfitMove(flags: Flags, t: seq<Byte>, m: Machine)
    requires m.pos <= |t| && WellFormed(m) && m.state != Finish
    requires At(t, m.pos) == NUL || Predict(m.state, Tokenize(At(t, m.pos))) == Error
    ensures Run(flags, t, m) == Failed(StateError(m.state), m.pos, m.events)
  {
    hide ScalarLeaf, StringLeaf, LeafMove, Leave, CountOne;
  }

  /** After a value only a comma or the closing bracket fits. */
  lemma MissingComma(flags: Flags, t: seq<Byte>, m: Machine)
    requires m.pos <= |t| && WellFormed(m) && (m.state.Element? || m.state.MemberValue?)
    requires At(t, m.pos) != COMMA && At(t, m.pos) != if m.state.Element? then RBRACKET else RBRACE
    ensures Run(flags, t, m)
         == Failed(if m.state.Element? then ArrayMissCommaOrSquareBracket else ObjectMissCommaOrCurlyBracket, m.pos, m.events)
  {
    hide WellFormed, Run, Step;
    MisfitMove(flags, t, m);
  }

  /** Only a name may begin a member, and only a colon may follow it. */
  lemma MissingName(flags: Flags, t: seq<Byte>, m: Machine)
    requires m.pos <= |t| && WellFormed(m)
    requires m.state.ObjectInitial? || m.state.MemberDelimiter? || m.state.MemberKey?
    requires if m.state.MemberKey? then At(t, m.pos) != COLON else At(t, m.pos) != QUOTE && At(t, m.pos) != RBRACE
    ensures Run(flags, t, m)
         == Failed(if m.state.MemberKey? then ObjectMissColon else ObjectMissName, m.pos, m.events)
  {
    hide WellFormed, Run, Step;
    MisfitMove(flags, t, m);
  }

  /** A closing bracket right after a comma, where trailing commas are not allowed. */
  lemma TrailingCommaMove(flags: Flags, t: seq<Byte>, m: Machine)
    requires m.pos <= |t| && WellFormed(m) && !flags.trailingCommas
    requires || (m.state == ElementDelimiter && At(t, m.pos) == RBRACKET)
             || (m.state == MemberDelimiter && At(t, m.pos) == RBRACE)
    ensures Run(flags, t, m) == Failed(StateError(m.state), m.pos, m.events)
  {
    hide ScalarLeaf, StringLeaf, LeafMove, Leave, CountOne;
  }

  /** Where no value begins, the recursive parser falls through to ParseNumber, which rejects. */
  lemma StrayValue(flags: Flags, t: seq<Byte>, p: nat, events: seq<Event>)
    requires p <= |t| && (At(t, p) == NUL || IsStray(At(t, p)))
    ensures ParseValue(flags, t, p, events) == Failed(ValueInvalid, p, events)
  {
    assert NumberLeaf(flags, t, p) == Bad(ValueInvalid, p);
  }

  /** The stack discipline inside a container just entered, and after the value that was due. */
  lemma EnterWellFormed(m: Machine, inside: Machine)
    requires WellFormed(m) && WantsValue(m.state) && (inside.state.ObjectInitial? || inside.state.ArrayInitial?)
    requires inside.stack == m.stack + [Frame(ResumeState(m.state), 0)]
    ensures WellFormed(inside) && inside.stack != [] && inside.stack[..|inside.stack| - 1] == m.stack
    ensures Top(inside) == Frame(ResumeState(m.state), 0) && AfterContainer(Top(inside)) == AfterValue(m.state)
    ensures forall pos: nat, events :: WellFormed(Machine(pos, AfterValue(m.state), m.stack, events))
  {
  }

  /** The stack discipline after a comma. */
  lemma CommaWellFormed(m: Machine, delimiter: Machine, outer: seq<Frame>)
    requires WellFormed(m) && (m.state.Element? || m.state.MemberValue?) && m.stack[..|m.stack| - 1] == outer
    requires delimiter.state.ElementDelimiter? || delimiter.state.MemberDelimiter?
    requires delimiter.stack == outer + [Frame(Top(m).resume, Increment(Top(m).count))]
    ensures WellFormed(delimiter) && delimiter.stack[..|delimiter.stack| - 1] == outer
    ensures Top(delimiter) == Frame(Top(m).resume, Increment(Top(m).count))
  {
  }

  /** Inside a container there is a frame, moving on keeps the discipline, and so does leaving. */
  lemma InsideContainer(m: Machine, outer: seq<Frame>)
    requires WellFormed(m) && !m.state.Start? && !m.state.Finish? && m.stack[..|m.stack| - 1] == outer
    ensures m.stack != []
    ensures forall s: State, pos: nat, events :: !IsTransient(s) && !s.Start? && !s.Finish?
              ==> WellFormed(Machine(pos, s, m.stack, events))
    ensures forall pos: nat, events :: WellFormed(Machine(pos, AfterContainer(Top(m)), outer, events))
  {
  }

  // ---------------------------------------------------------------------------------------------
  // Simulation
  // ---------------------------------------------------------------------------------------------

  /** A value read by the machine is a value read by ParseValue. */
  lemma {:induction false} ValueSimulation(flags: Flags, t: seq<Byte>, m: Machine)
    requires m.pos <= |t| && WellFormed(m) && WantsValue(m.state)
    requires At(t, m.pos) == RBRACKET ==> m.state == KeyValueDelimiter
    requires m.state == Start ==> At(t, m.pos) != NUL && !IsStray(At(t, m.pos))
    ensures Run(flags, t, m)
         == Resume(flags, t, ParseValue(flags, t, m.pos, m.events), AfterValue(m.state), m.stack)
    decreases |t| - m.pos, 1
  {
    hide ScalarLeaf, ParseElements, ParseMembers, Run, Step;
    var c := At(t, m.pos);
    if c == LBRACE {
      ObjectSimulation(flags, t, m);
    } else if c == LBRACKET {
      ArraySimulation(flags, t, m);
    } else if c == NUL || IsStray(c) {
      StrayValue(flags, t, m.pos, m.events);
      MisfitMove(flags, t, m);
    } else {
      ScalarMove(flags, t, m);
    }
  }

  lemma {:induction false} ObjectSimulation(flags: Flags, t: seq<Byte>, m: Machine)
    requires m.pos <= |t| && WellFormed(m) && WantsValue(m.state)
    requires At(t, m.pos) == LBRACE
    ensures Run(flags, t, m)
         == Resume(flags, t, ParseValue(flags, t, m.pos, m.events), AfterValue(m.state), m.stack)
    decreases |t| - m.pos, 0
  {
    hide ScalarLeaf, ParseElements, ParseMembers, Run, Step, WellFormed;
    var q := SkipWs(t, m.pos + 1);
    var inside := Machine(q, ObjectInitial, m.stack + [Frame(ResumeState(m.state), 0)], m.events + [StartObject]);
    EnterWellFormed(m, inside);
    OpenMove(flags, t, m);
    if At(t, q) == RBRACE {
      LeaveMove(flags, t, inside, m.stack, true);
      assert m.events + [StartObject] + [EndObject(0)] == m.events + [StartObject, EndObject(0)];
    } else {
      MembersSimulation(flags, t, inside, m.stack);
    }
  }

  lemma {:induction false} ArraySimulation(flags: Flags, t: seq<Byte>, m: Machine)
    requires m.pos <= |t| && WellFormed(m) && WantsValue(m.state)
    requires At(t, m.pos) == LBRACKET
    ensures Run(flags, t, m)
         == Resume(flags, t, ParseValue(flags, t, m.pos, m.events), AfterValue(m.state), m.stack)
    decreases |t| - m.pos, 0
  {
    hide ScalarLeaf, ParseElements, ParseMembers, Run, Step, WellFormed;
    var q := SkipWs(t, m.pos + 1);
    var inside := Machine(q, ArrayInitial, m.stack + [Frame(ResumeState(m.state), 0)], m.events + [StartArray]);
    EnterWellFormed(m, inside);
    OpenMove(flags, t, m);
    if At(t, q) == RBRACKET {
      LeaveMove(flags, t, inside, m.stack, false);
      assert m.events + [StartArray] + [EndArray(0)] == m.events + [StartArray, EndArray(0)];
    } else {
      ElementsSimulation(flags, t, inside, m.stack);
    }
  }

  lemma {:induction false} ElementsSimulation(flags: Flags, t: seq<Byte>, m: Machine, outer: seq<Frame>)
    requires m.pos <= |t| && WellFormed(m) && (m.state.ArrayInitial? || m.state.ElementDelimiter?)
    requires m.stack[..|m.stack| - 1] == outer
    requires At(t, m.pos) == RBRACKET ==> m.state == ElementDelimiter && !flags.trailingCommas
    ensures Run(flags, t, m) == Resume(flags, t, ParseElements(flags, t, m.pos, Top(m).count, m.events),
                                       AfterContainer(Top(m)), outer)
    decreases |t| - m.pos, 2
  {
    hide Run, Step, ParseValue, NextElement;
    if At(t, m.pos) == RBRACKET {
      StrayValue(flags, t, m.pos, m.events);
      TrailingCommaMove(flags, t, m);
    } else {
      ValueSimulation(flags, t, m);
      var v := ParseValue(flags, t, m.pos, m.events);
      if v.Done? {
        NextElementSimulation(flags, t, Machine(v.pos, Element, m.stack, v.events), outer);
      }
    }
  }

  lemma {:induction false} NextElementSimulation(flags: Flags, t: seq<Byte>, m: Machine, outer: seq<Frame>)
    requires m.pos <= |t| && WellFormed(m) && m.state == Element
    requires m.stack[..|m.stack| - 1] == outer
    ensures Run(flags, t, m.(pos := SkipWs(t, m.pos)))
         == Resume(flags, t, NextElement(flags, t, m.pos, Increment(Top(m).count), m.events),
                   AfterContainer(Top(m)), outer)
    decreases |t| - m.pos, 1
  {
    hide Run, Step, ParseElements, WellFormed, Predict, Tokenize, SkipWs, Increment;
    InsideContainer(m, outer);
    var q := SkipWs(t, m.pos);
    var after := m.(pos := q);
    if At(t, q) == COMMA {
      CommaMove(flags, t, after, outer);
      var next := SkipWs(t, q + 1);
      var delimiter := Machine(next, ElementDelimiter,
                               outer + [Frame(Top(m).resume, Increment(Top(m).count))], m.events);
      CommaWellFormed(m, delimiter, outer);
      if flags.trailingCommas && At(t, next) == RBRACKET {
        LeaveMove(flags, t, delimiter, outer, false);
      } else {
        ElementsSimulation(flags, t, delimiter, outer);
      }
    } else if At(t, q) == RBRACKET {
      LeaveMove(flags, t, after, outer, false);
    } else {
      MissingComma(flags, t, after);
    }
  }

  lemma {:induction false} MembersSimulation(flags: Flags, t: seq<Byte>, m: Machine, outer: seq<Frame>)
    requires m.pos <= |t| && WellFormed(m) && (m.state.ObjectInitial? || m.state.MemberDelimiter?)
    requires m.stack[..|m.stack| - 1] == outer
    requires At(t, m.pos) == RBRACE ==> m.state == MemberDelimiter && !flags.trailingCommas
    ensures Run(flags, t, m) == Resume(flags, t, ParseMembers(flags, t, m.pos, Top(m).count, m.events),
                                       AfterContainer(Top(m)), outer)
    decreases |t| - m.pos, 1
  {
    hide Run, Step, ParseValue, StringLeaf, NextMember, WellFormed, SkipWs, Predict, Tokenize;
    InsideContainer(m, outer);
    if At(t, m.pos) == RBRACE {
      TrailingCommaMove(flags, t, m);
    } else if At(t, m.pos) != QUOTE {
      MissingName(flags, t, m);
    } else {
      KeyMove(flags, t, m);
      var key := Fire(StringLeaf(t, m.pos, true), m.events);
      if key.Done? {
        var colon := SkipWs(t, key.pos);
        var named := Machine(colon, MemberKey, m.stack, key.events);
        if At(t, colon) != COLON {
          MissingName(flags, t, named);
        } else {
          ColonMove(flags, t, named);
          var valued := Machine(SkipWs(t, colon + 1), KeyValueDelimiter, m.stack, key.events);
          ValueSimulation(flags, t, valued);
          var v := ParseValue(flags, t, valued.pos, valued.events);
          if v.Done? {
            NextMemberSimulation(flags, t, Machine(v.pos, MemberValue, m.stack, v.events), outer);
          }
        }
      }
    }
  }

  lemma {:induction false} NextMemberSimulation(flags: Flags, t: seq<Byte>, m: Machine, outer: seq<Frame>)
    requires m.pos <= |t| && WellFormed(m) && m.state == MemberValue
    requires m.stack[..|m.stack| - 1] == outer
    ensures Run(flags, t, m.(pos := SkipWs(t, m.pos)))
         == Resume(flags, t, NextMember(flags, t, m.pos, Increment(Top(m).count), m.events),
                   AfterContainer(Top(m)), outer)
    decreases |t| - m.pos, 1
  {
    hide Run, Step, ParseMembers, WellFormed, Predict, Tokenize, SkipWs, Increment;
    InsideContainer(m, outer);
    var q := SkipWs(t, m.pos);
    var after := m.(pos := q);
    if At(t, q) == COMMA {
      CommaMove(flags, t, after, outer);
      var next := SkipWs(t, q + 1);
      var delimiter := Machine(next, MemberDelimiter,
                               outer + [Frame(Top(m).resume, Increment(Top(m).count))], m.events);
      CommaWellFormed(m, delimiter, outer);
      if flags.trailingCommas && At(t, next) == RBRACE {
        LeaveMove(flags, t, delimiter, outer, true);
      } else {
        MembersSimulation(flags, t, delimiter, outer);
      }
    } else if At(t, q) == RBRACE {
      LeaveMove(flags, t, after, outer, true);
    } else {
      MissingComma(flags, t, after);
    }
  }

  /** The two parsers agree on every text and under every flag, unless the text's first token is one of
      `]` `}` `,` `:`; then both fail there, with different codes. */
  lemma ParsersAgree(flags: Flags, t: seq<Byte>)
    ensures var p := SkipWs(t, 0);
            if IsStray(At(t, p)) then
              && RecursiveParse(flags, t) == Failed(ValueInvalid, p, [])
              && IterativeParse(flags, t) == Failed(DocumentEmpty, p, [])
            else
              IterativeParse(flags, t) == RecursiveParse(flags, t)
  {
    hide ScalarLeaf, ParseElements, ParseMembers;
    var p := SkipWs(t, 0);
    var m := Machine(p, Start, [], []);
    if IsStray(At(t, p)) {
      StrayValue(flags, t, p, []);
      MisfitMove(flags, t, m);
    } else if At(t, p) != NUL {
      ValueSimulation(flags, t, m);
    }
  }

  /** The exception is exactly that: the outcomes differ if and only if the first token is stray. */
  lemma ParsersDifferExactlyOnStrayRoots(flags: Flags, t: seq<Byte>)
    ensures IterativeParse(flags, t) != RecursiveParse(flags, t) <==> IsStray(At(t, SkipWs(t, 0)))
  {
    ParsersAgree(flags, t);
  }
}
