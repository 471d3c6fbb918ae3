/** Every error of the reader is what its code says, at its offset. Bytes are given by their numbers. */
module Errors {
  import opened Bytes
  import opened JsonGrammar
  import opened ReaderSpec
  import opened TextReading
  import NumberReading
  import ReaderEquivalence
  import StringReading
  import Utf8

  const NAMES: seq<seq<Byte>> := [[0x6E, 0x75, 0x6C, 0x6C], [0x74, 0x72, 0x75, 0x65], [0x66, 0x61, 0x6C, 0x73, 0x65]]

  predicate IsDigitByte(c: Byte) {
    0x30 <= c <= 0x39
  }

  /** Behind k letters of a name another byte stands than the next letter. */
  ghost predicate NameBreaks(t: seq<Byte>, o: nat, name: seq<Byte>, k: nat) {
    name in NAMES && 1 <= k < |name| && k <= o && Has(t, o - k, name[..k]) && At(t, o) != name[k]
  }

  /** The last byte before `o` that is no blank is one of these. */
  ghost predicate Follows(t: seq<Byte>, o: nat, before: set<Byte>) {
    exists q :: 0 <= q < o <= |t| && t[q] in before && IsBlank(t[q + 1..o])
  }

  predicate QuadAt(t: seq<Byte>, p: nat) {
    p + 4 <= |t| && IsQuad(t[p..p + 4])
  }

  predicate IsUnicode(t: seq<Byte>, o: nat) {
    At(t, o) == 0x5C && At(t, o + 1) == 0x75
  }

  /** The first half of a pair stands at `o`, and a second escape behind it. */
  predicate IsPair(t: seq<Byte>, o: nat) {
    IsUnicode(t, o) && QuadAt(t, o + 2) && 0xD800 <= Quad(t[o + 2..o + 6]) <= 0xDBFF && IsUnicode(t, o + 6)
  }

  ghost predicate IsErrorWithin(flags: Flags, t: seq<Byte>, code: ErrorCode, o: nat) {
    var c := At(t, o);
    match code
    case DocumentEmpty => false
    case DocumentRootNotSingular => false
    case ValueInvalid =>
      || (!IsDigitByte(c) && c !in {0x22, 0x2D, 0x5B, 0x66, 0x6E, 0x74, 0x7B})
      || (o > 0 && At(t, o - 1) == 0x2D && !IsDigitByte(c))
      || exists name, k :: NameBreaks(t, o, name, k)
    case ObjectMissName => c != 0x22 && !IsBlankByte(c) && Follows(t, o, {0x7B, 0x2C})
    case ObjectMissColon => c != 0x3A && !IsBlankByte(c) && Follows(t, o, {0x22})
    case ObjectMissCommaOrCurlyBracket => c != 0x2C && c != 0x7D && !IsBlankByte(c)
    case ArrayMissCommaOrSquareBracket => c != 0x2C && c != 0x5D && !IsBlankByte(c)
    case StringMissQuotationMark => c == 0x00
    case StringInvalidEncoding => 0x00 < c < 0x20
    case StringEscapeInvalid => c == 0x5C && At(t, o + 1) !in ESCAPES && At(t, o + 1) != 0x75
    case StringUnicodeEscapeInvalidHex => IsUnicode(t, o) && (!QuadAt(t, o + 2) || (IsPair(t, o) && !QuadAt(t, o + 8)))
    case StringUnicodeSurrogateInvalid =>
      && IsUnicode(t, o) && QuadAt(t, o + 2) && 0xD800 <= Quad(t[o + 2..o + 6]) <= 0xDFFF
      && (IsPair(t, o) ==> QuadAt(t, o + 8) && !(0xDC00 <= Quad(t[o + 8..o + 12]) <= 0xDFFF))
    case NumberTooBig =>
      exists n :: NumberForm(n) && Has(t, o, NumberText(n)) && !Continues(n, At(t, o + |NumberText(n)|))
                  && NumberMeaning(flags, n).None?
    case NumberMissFraction => o > 0 && At(t, o - 1) == 0x2E && !IsDigitByte(c)
    case NumberMissExponent =>
      && !IsDigitByte(c) && o > 1
      && (At(t, o - 1) in {0x45, 0x65} || (At(t, o - 1) in {0x2B, 0x2D} && At(t, o - 2) in {0x45, 0x65}))
  }

  /** What a code says of the text at the offset. */
  ghost predicate IsError(flags: Flags, t: seq<Byte>, code: ErrorCode, o: nat) {
    match code
    case DocumentEmpty => At(t, o) == 0x00 && IsBlank(t[..if o <= |t| then o else 0])
    case DocumentRootNotSingular =>
      && At(t, o) != 0x00 && !IsBlankByte(At(t, o))
      && exists s :: SpacedForm(flags.trailingCommas, s) && Has(t, 0, SpacedText(s)) && o == |SpacedText(s)|
    case _ => IsErrorWithin(flags, t, code, o)
  }

  // ---------------------------------------------------------------------------------------------
  // Leaves
  // ---------------------------------------------------------------------------------------------

  lemma HexExactly(t: seq<Byte>, p: nat)
    ensures Hex4(t, p).Some? <==> QuadAt(t, p)
    ensures QuadAt(t, p) ==> Hex4(t, p) == Some(Quad(t[p..p + 4]))
  {
    if QuadAt(t, p) {
      StringReading.QuadIsRead(t, p, t[p..p + 4]);
    }
    if Hex4(t, p).Some? {
      StringReading.QuadIsThere(t, p);
    }
  }

  lemma UnicodeError(flags: Flags, t: seq<Byte>, p: nat)
    requires IsUnicode(t, p) && UnicodeEscape(t, p).Bad?
    ensures UnicodeEscape(t, p).offset == p && IsErrorWithin(flags, t, UnicodeEscape(t, p).code, p)
  {
    hide Hex4, QuadAt, Quad;
    HexExactly(t, p + 2);
    HexExactly(t, p + 8);
  }

  lemma {:induction false} StringError(flags: Flags, t: seq<Byte>, p: nat, acc: seq<Byte>)
    requires p <= |t| && StringBody(t, p, acc).Bad?
    ensures var r := StringBody(t, p, acc); p <= r.offset <= |t| && IsErrorWithin(flags, t, r.code, r.offset)
    decreases |t| - p
  {
    hide UnicodeEscape;
    var c := At(t, p);
    if c == BACKSLASH {
      var e := At(t, p + 1);
      StringReading.EscapesKnown(e);
      if Unescape(e).Some? {
        StringError(flags, t, p + 2, acc + [Unescape(e).value]);
      } else if e == LOWER_U {
        var u := UnicodeEscape(t, p);
        if u.Good? {
          StringError(flags, t, u.pos, acc + Utf8.Encode(u.value));
        } else {
          UnicodeError(flags, t, p);
        }
      }
    } else if c != QUOTE && c >= 0x20 {
      StringError(flags, t, p + 1, acc + [c]);
    }
  }

  lemma {:induction false} LettersError(flags: Flags, t: seq<Byte>, p: nat, name: seq<Byte>, k: nat, event: Event)
    requires name in NAMES && 1 <= k <= |name| && p <= |t| && k <= p && Has(t, p - k, name[..k]) && NUL !in name[k..]
    requires LiteralLeaf(t, p, name[k..], event).Bad?
    ensures var r := LiteralLeaf(t, p, name[k..], event);
            r.code == ValueInvalid && p <= r.offset <= |t| && IsErrorWithin(flags, t, ValueInvalid, r.offset)
    decreases |name| - k
  {
    if k < |name| {
      if At(t, p) == name[k] {
        assert name[k..][1..] == name[k + 1..];
        OneMoreLetter(t, p, name, k);
        LettersError(flags, t, p + 1, name, k + 1, event);
      } else {
        assert NameBreaks(t, p, name, k);
      }
    }
  }

  lemma OneMoreLetter(t: seq<Byte>, p: nat, name: seq<Byte>, k: nat)
    requires k < |name| && k <= p < |t| && Has(t, p - k, name[..k]) && t[p] == name[k]
    ensures Has(t, p - k, name[..k + 1])
  {
    HasOne(t, p);
    HasBoth(t, p - k, name[..k], [name[k]]);
    assert name[..k + 1] == name[..k] + [name[k]];
  }

  lemma NumberError(flags: Flags, t: seq<Byte>, p: nat)
    requires p <= |t| && NumberLeaf(flags, t, p).Bad?
    requires At(t, p) !in {0x22, 0x5B, 0x66, 0x6E, 0x74, 0x7B}
    ensures var r := NumberLeaf(flags, t, p); p <= r.offset <= |t| && IsErrorWithin(flags, t, r.code, r.offset)
  {
    hide NumberMeaning, ScanNumber, NumberForm, NumberText, Continues, Has;
    if ScanNumber(t, p).Good? || ScanNumber(t, p).code == NumberTooBig {
      var n := NumberReading.NumberIsThere(t, p);
      NumberIsDelivered(flags, t, p, n);
    } else {
      ScanError(flags, t, p);
      LeafOfScan(flags, t, p);
    }
  }

  lemma LeafOfScan(flags: Flags, t: seq<Byte>, p: nat)
    requires p <= |t| && ScanNumber(t, p).Bad?
    ensures NumberLeaf(flags, t, p) == Bad(ScanNumber(t, p).code, ScanNumber(t, p).offset)
  {
    hide ScanNumber;
  }

  lemma ScanError(flags: Flags, t: seq<Byte>, p: nat)
    requires p <= |t| && ScanNumber(t, p).Bad? && ScanNumber(t, p).code != NumberTooBig
    requires At(t, p) !in {0x22, 0x5B, 0x66, 0x6E, 0x74, 0x7B}
    ensures var r := ScanNumber(t, p); p <= r.offset <= |t| && IsErrorWithin(flags, t, r.code, r.offset)
  {
    hide FractionExponent, DecimalValue, FitsInteger;
  }

  /** A name, from its second letter on. */
  lemma NameError(flags: Flags, t: seq<Byte>, p: nat, j: Json)
    requires (j.NullJson? || j.TrueJson? || j.FalseJson?) && p < |t| && t[p] == JsonText(j)[0]
    requires ScalarLeaf(flags, t, p).Bad?
    ensures var r := ScalarLeaf(flags, t, p); p <= r.offset <= |t| && IsErrorWithin(flags, t, r.code, r.offset)
  {
    hide LiteralLeaf, ScalarLeaf, IsErrorWithin;
    var name := JsonText(j);
    NameLeaf(flags, t, p, j);
    assert name in NAMES by {
      assert name == NAMES[0] || name == NAMES[1] || name == NAMES[2];
    }
    HasOne(t, p);
    assert name[..1] == [t[p]] && name[1..] == NameTail(j);
    LettersError(flags, t, p + 1, name, 1, Meaning(flags, j)[0]);
  }

  lemma ScalarError(flags: Flags, t: seq<Byte>, p: nat)
    requires p <= |t| && !StartsContainer(At(t, p)) && ScalarLeaf(flags, t, p).Bad?
    ensures var r := ScalarLeaf(flags, t, p); p <= r.offset <= |t| && IsErrorWithin(flags, t, r.code, r.offset)
  {
    hide LiteralLeaf, StringBody, NumberLeaf, IsErrorWithin;
    var c := At(t, p);
    if c == 0x6E || c == 0x74 || c == 0x66 {
      NameError(flags, t, p, if c == 0x6E then NullJson else if c == 0x74 then TrueJson else FalseJson);
    } else if c == 0x22 {
      StringError(flags, t, p + 1, []);
    } else {
      NumberError(flags, t, p);
    }
  }

  // ---------------------------------------------------------------------------------------------
  // Containers
  // ---------------------------------------------------------------------------------------------

  ghost predicate Fails(flags: Flags, t: seq<Byte>, p: nat, r: Outcome) {
    r.Failed? ==> p <= r.offset <= |t| && IsErrorWithin(flags, t, r.code, r.offset)
  }

  lemma {:induction false} ValueError(flags: Flags, t: seq<Byte>, p: nat, events: seq<Event>)
    requires p <= |t|
    ensures Fails(flags, t, p, ParseValue(flags, t, p, events))
    decreases |t| - p, 2
  {
    hide ParseElements, ParseMembers, ScalarLeaf, IsErrorWithin, SkipWs;
    if At(t, p) == 0x7B {
      ObjectOpens(flags, t, p, events);
      MembersError(flags, t, p, 0, events + [StartObject]);
    } else if At(t, p) == 0x5B {
      ArrayOpens(flags, t, p, events);
      ElementsError(flags, t, SkipWs(t, p + 1), 0, events + [StartArray]);
    } else if ScalarLeaf(flags, t, p).Bad? {
      ScalarError(flags, t, p);
    }
  }

  lemma {:induction false} ElementsError(flags: Flags, t: seq<Byte>, p: nat, count: SizeType, events: seq<Event>)
    requires p <= |t|
    ensures Fails(flags, t, p, ParseElements(flags, t, p, count, events))
    decreases |t| - p, 3
  {
    hide ParseValue, NextElement, IsErrorWithin, Increment;
    ValueError(flags, t, p, events);
    var v := ParseValue(flags, t, p, events);
    if v.Done? {
      NextElementError(flags, t, v.pos, Increment(count), v.events);
    }
  }

  lemma {:induction false} NextElementError(flags: Flags, t: seq<Byte>, p: nat, count: SizeType, events: seq<Event>)
    requires p <= |t|
    ensures Fails(flags, t, p, NextElement(flags, t, p, count, events))
    decreases |t| - p, 4
  {
    hide ParseElements, SkipWs;
    var q := SkipWs(t, p);
    SkippedIsBlank(t, p);
    if At(t, q) == COMMA {
      ElementsError(flags, t, SkipWs(t, q + 1), count, events);
    }
  }

  /** Behind a brace or a comma at q. */
  lemma {:induction false} MembersError(flags: Flags, t: seq<Byte>, q: nat, count: SizeType, events: seq<Event>)
    requires q < |t| && t[q] in {0x7B, 0x2C}
    ensures Fails(flags, t, q, ParseMembers(flags, t, SkipWs(t, q + 1), count, events))
    decreases |t| - q, 1
  {
    hide ParseMember, NextMember, IsErrorWithin, Increment, SkipWs;
    var p := SkipWs(t, q + 1);
    MemberError(flags, t, q, events);
    var v := ParseMember(flags, t, p, events);
    if v.Done? {
      NextMemberError(flags, t, v.pos, Increment(count), v.events);
    }
  }

  lemma {:induction false} NextMemberError(flags: Flags, t: seq<Byte>, p: nat, count: SizeType, events: seq<Event>)
    requires p <= |t|
    ensures Fails(flags, t, p, NextMember(flags, t, p, count, events))
    decreases |t| - p, 4
  {
    hide ParseMembers, SkipWs;
    var q := SkipWs(t, p);
    SkippedIsBlank(t, p);
    if At(t, q) == COMMA {
      MembersError(flags, t, q, count, events);
    }
  }

  lemma {:induction false} MemberError(flags: Flags, t: seq<Byte>, q: nat, events: seq<Event>)
    requires q < |t| && t[q] in {0x7B, 0x2C}
    ensures Fails(flags, t, q, ParseMember(flags, t, SkipWs(t, q + 1), events))
    decreases |t| - q, 0
  {
    hide ParseValue, ParseMember, SkipWs, StringBody, IsErrorWithin;
    var p := SkipWs(t, q + 1);
    if At(t, p) == 0x22 && StringBody(t, p + 1, []).Good? && At(t, SkipWs(t, StringBody(t, p + 1, []).pos)) == 0x3A {
      var name := StringBody(t, p + 1, []);
      var colon := SkipWs(t, name.pos);
      MemberLeads(flags, t, p, name.pos, colon, name.value, events);
      ValueError(flags, t, SkipWs(t, colon + 1), events + [Key(Copied(name.value))]);
    } else {
      NameOrColonError(flags, t, q, events);
    }
  }

  lemma NameOrColonError(flags: Flags, t: seq<Byte>, q: nat, events: seq<Event>)
    requires q < |t| && t[q] in {0x7B, 0x2C}
    requires var p := SkipWs(t, q + 1);
             At(t, p) == 0x22 && StringBody(t, p + 1, []).Good? ==> At(t, SkipWs(t, StringBody(t, p + 1, []).pos)) != 0x3A
    ensures Fails(flags, t, q, ParseMember(flags, t, SkipWs(t, q + 1), events))
  {
    hide ParseValue, SkipWs, StringBody, IsBlank;
    var p := SkipWs(t, q + 1);
    SkippedIsBlank(t, q + 1);
    if At(t, p) != 0x22 {
      assert Follows(t, p, {0x7B, 0x2C});
    } else if StringBody(t, p + 1, []).Bad? {
      StringError(flags, t, p + 1, []);
    } else {
      var end := StringBody(t, p + 1, []).pos;
      SkippedIsBlank(t, end);
      ClosingQuote(t, p + 1, []);
      assert Follows(t, SkipWs(t, end), {0x22});
    }
  }

  lemma {:induction false} ClosingQuote(t: seq<Byte>, p: nat, acc: seq<Byte>)
    requires p <= |t| && StringBody(t, p, acc).Good?
    ensures t[StringBody(t, p, acc).pos - 1] == 0x22
    decreases |t| - p
  {
    hide UnicodeEscape, Unescape;
    var c := At(t, p);
    if c == BACKSLASH {
      if Unescape(At(t, p + 1)).Some? {
        ClosingQuote(t, p + 2, acc + [Unescape(At(t, p + 1)).value]);
      } else {
        var u := UnicodeEscape(t, p);
        ClosingQuote(t, u.pos, acc + Utf8.Encode(u.value));
      }
    } else if c != QUOTE {
      ClosingQuote(t, p + 1, acc + [c]);
    }
  }

  /** Whatever text fails, in either parser, it fails with a code that says what stands at the offset. */
  lemma ErrorsAreTrue(flags: Flags, t: seq<Byte>)
    ensures var r := RecursiveParse(flags, t); r.Failed? ==> r.offset <= |t| && IsError(flags, t, r.code, r.offset)
    ensures RecursiveParse(flags, t).Failed? <==> IterativeParse(flags, t).Failed?
    ensures var r := IterativeParse(flags, t);
            r.Failed? ==> r == RecursiveParse(flags, t) || (r.code == DocumentEmpty && At(t, r.offset) in {0x5D, 0x7D, 0x2C, 0x3A})
  {
    hide ParseValue, SkipWs, SpacedForm, SpacedText, Has, IterativeParse;
    ReaderEquivalence.ParsersAgree(flags, t);
    var p := SkipWs(t, 0);
    SkippedIsBlank(t, 0);
    assert t[0..p] == t[..p];
    ValueError(flags, t, p, []);
    var v := ParseValue(flags, t, p, []);
    if At(t, p) != NUL && v.Done? && !flags.stopWhenDone {
      SkippedIsBlank(t, v.pos);
      var s := SpacedIsThere(flags, t, 0, []);
    }
  }
}
