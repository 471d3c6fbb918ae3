/** GenericReader of reader.h: the two parsers as they run, over a stream, a handler and one byte stack.

    Strings are decoded in two forms: onto the byte stack, or in place over the text read already. */
module Reader {
  import opened Bytes
  import opened Decimals
  import opened Exponents
  import opened Powers
  import opened ReaderSpec
  import opened Streams
  import Utf8

  datatype ParseError = ParseError(code: ErrorCode, offset: nat)

  /** While a string is being decoded, its output is either the tail of `stack` from `base` on or the
      stretch of the buffer between `head` and the write cursor. */
  class GenericReader {
    const flags: Flags
    const insitu: bool  // kParseInsituFlag: no event may depend on it
    var stack: seq<Byte>
    var error: Option<ParseError>  // parseResult_

    constructor (flags: Flags, insitu: bool)
      ensures this.flags == flags && this.insitu == insitu && stack == [] && error == None
    {
      this.flags, this.insitu, stack, error := flags, insitu, [], None;
    }

    // -------------------------------------------------------------------------------------------
    // Strings
    // -------------------------------------------------------------------------------------------

    ghost predicate Decoding(input: Stream, head: nat, base: nat)
      reads this, input, input.buf
    {
      && input.Valid()
      && head <= input.buf.Length && base <= |stack|
      && (insitu ==> head <= input.dst <= input.src)
    }

    ghost function Output(input: Stream, head: nat, base: nat): seq<Byte>
      requires Decoding(input, head, base)
      reads this, input, input.buf
    {
      if insitu then input.buf[head..input.dst] else stack[base..]
    }

    /** What decoding leaves alone: the buffer below `head` and the stack below `base`; without in-situ
        parsing the whole buffer, with it the whole stack. */
    twostate predicate OnlyOutputChanged(input: Stream, head: nat, base: nat)
      requires head <= input.buf.Length && base <= old(|stack|)
      reads this, input, input.buf
    {
      && input.buf[..head] == old(input.buf[..head])
      && base <= |stack| && stack[..base] == old(stack[..base])
      && (if insitu then stack == old(stack) else input.buf[..] == old(input.buf[..]))
    }

    method SetError(code: ErrorCode, offset: nat)
      modifies this`error
      ensures error == Some(ParseError(code, offset))
    {
      error := Some(ParseError(code, offset));
    }

    method Put(input: Stream, c: Byte, ghost head: nat, ghost base: nat)
      requires Decoding(input, head, base) && (insitu ==> input.dst < input.src)
      modifies this`stack, input`dst, input.buf
      ensures Decoding(input, head, base)
      ensures Output(input, head, base) == old(Output(input, head, base)) + [c]
      ensures insitu ==> input.dst == old(input.dst) + 1
      ensures OnlyOutputChanged(input, head, base)
    {
      if insitu {
        input.Put(c);
        assert input.buf[head..input.dst] == old(input.buf[head..input.dst]) + [c];
      } else {
        stack := stack + [c];
      }
    }

    /** UTF8::Encode onto the output: as many Puts as the code point needs bytes. */
    method EncodeUtf8(input: Stream, cp: nat, ghost head: nat, ghost base: nat)
      requires Decoding(input, head, base) && cp <= 0x10FFFF
      requires insitu ==> input.dst + |Utf8.Encode(cp)| <= input.src
      modifies this`stack, input`dst, input.buf
      ensures Decoding(input, head, base)
      ensures Output(input, head, base) == old(Output(input, head, base)) + Utf8.Encode(cp)
      ensures OnlyOutputChanged(input, head, base)
    {
      hide Utf8.Encode;
      var bytes := Utf8.Encode(cp);
      for k := 0 to |bytes|
        invariant Decoding(input, head, base)
        invariant insitu ==> input.dst == old(input.dst) + k
        invariant Output(input, head, base) == old(Output(input, head, base)) + bytes[..k]
        invariant OnlyOutputChanged(input, head, base)
      {
        Put(input, bytes[k], head, base);
      }
    }

    method ParseHex4(input: Stream, escapeOffset: nat) returns (codepoint: nat)
      requires input.Valid() && error == None
      modifies this`error, input`src
      ensures input.Valid() && input.src >= old(input.src)
      ensures match Hex4(input.text, old(input.src))
              case Some(v) => error == None && codepoint == v && input.src == old(input.src) + 4
              case None => error == Some(ParseError(StringUnicodeEscapeInvalidHex, escapeOffset))
    {
      codepoint := 0;
      ghost var p := input.src;
      for i := 0 to 4
        invariant input.Valid() && input.src == p + i && error == None
        invariant HexRun(input.text, p, i)
        invariant codepoint == HexPrefix(input.text, p, i)
      {
        var c := input.Peek();
        codepoint := codepoint * 16;
        if 0x30 <= c <= 0x39 {
          codepoint := codepoint + c - 0x30;
        } else if 0x41 <= c <= 0x46 {
          codepoint := codepoint + c - 0x41 + 10;
        } else if 0x61 <= c <= 0x66 {
          codepoint := codepoint + c - 0x61 + 10;
        } else {
          SetError(StringUnicodeEscapeInvalidHex, escapeOffset);
          return 0;
        }
        var _ := input.Take();
      }
      HexPrefixIsHex4(input.text, p);
    }

    /** The code point of a `\u` escape, with the read cursor on the `u`. */
    method ParseCodePoint(input: Stream, escapeOffset: nat) returns (codepoint: nat)
      requires input.Valid() && error == None
      requires input.src == escapeOffset + 1 && At(input.text, input.src) == LOWER_U
      modifies this`error, input`src
      ensures input.Valid() && input.src >= old(input.src)
      ensures match UnicodeEscape(input.text, escapeOffset)
              case Good(pos, cp) => error == None && input.src == pos && codepoint == cp
              case Bad(code, offset) => error == Some(ParseError(code, offset))
    {
      var _ := input.Take();
      codepoint := ParseHex4(input, escapeOffset);
      if error == None && 0xD800 <= codepoint <= 0xDFFF {
        // A high surrogate must be followed by an escaped low surrogate.
        if codepoint > 0xDBFF {
          SetError(StringUnicodeSurrogateInvalid, escapeOffset);
          return;
        }
        var next := input.Consume(BACKSLASH);
        if next {
          next := input.Consume(LOWER_U);
        }
        if !next {
          SetError(StringUnicodeSurrogateInvalid, escapeOffset);
          return;
        }
        var codepoint2 := ParseHex4(input, escapeOffset);
        if error.Some? {
          return;
        }
        if codepoint2 < 0xDC00 || codepoint2 > 0xDFFF {
          SetError(StringUnicodeSurrogateInvalid, escapeOffset);
          return;
        }
        codepoint := (codepoint - 0xD800) * 0x400 + (codepoint2 - 0xDC00) + 0x10000;
      }
    }

    /** The escape branch of ParseStringToStream, with the read cursor on the backslash. */
    method ParseEscape(input: Stream, ghost head: nat, ghost base: nat)
      requires Decoding(input, head, base) && error == None && At(input.text, input.src) == BACKSLASH
      modifies this`stack, this`error, input, input.buf
      ensures Decoding(input, head, base) && old(input.src) < input.src
      ensures OnlyOutputChanged(input, head, base)
      ensures var r := StringBody(input.text, old(input.src), old(Output(input, head, base)));
              match error
              case None => r == StringBody(input.text, input.src, Output(input, head, base))
              case Some(e) => r == Bad(e.code, e.offset)
    {
      hide UnicodeEscape, Hex4, Utf8.Encode;
      var escapeOffset := input.src;
      var _ := input.Take();
      var e := input.Peek();
      if Unescape(e).Some? {
        var _ := input.Take();
        Put(input, Unescape(e).value, head, base);
      } else if e == LOWER_U {
        var codepoint := ParseCodePoint(input, escapeOffset);
        if error == None {
          EncodeUtf8(input, codepoint, head, base);
        }
      } else {
        SetError(StringEscapeInvalid, escapeOffset);
      }
    }

    /** The loop of ParseStringToStream, from the first byte after the opening quote. */
    method ParseStringToStream(input: Stream, ghost head: nat, ghost base: nat)
      requires Decoding(input, head, base) && error == None
      requires Output(input, head, base) == []
      modifies this`stack, this`error, input, input.buf
      ensures Decoding(input, head, base) && old(input.src) <= input.src
      ensures OnlyOutputChanged(input, head, base)
      ensures match StringBody(input.text, old(input.src), [])
              case Good(pos, s) => error == None && input.src == pos && Output(input, head, base) == s + [NUL]
              case Bad(code, offset) => error == Some(ParseError(code, offset))
    {
      hide UnicodeEscape, Unescape, Utf8.Encode;
      ghost var start := input.src;
      while true
        invariant Decoding(input, head, base) && error == None && start <= input.src
        invariant OnlyOutputChanged(input, head, base)
        invariant StringBody(input.text, start, []) == StringBody(input.text, input.src, Output(input, head, base))
        decreases |input.text| - input.src
      {
        var c := input.Peek();
        if c == BACKSLASH {
          ParseEscape(input, head, base);
          if error.Some? {
            return;
          }
        } else if c == QUOTE {
          var _ := input.Take();
          Put(input, NUL, head, base);
          return;
        } else if c < 0x20 {
          SetError(if c == NUL then StringMissQuotationMark else StringInvalidEncoding, input.src);
          return;
        } else {
          var _ := input.Take();
          Put(input, c, head, base);
        }
      }
    }

    // -------------------------------------------------------------------------------------------
    // Numbers
    // -------------------------------------------------------------------------------------------

    /** One of the four loops that read integer digits: it stops before the digit that would carry the
        value past `limit` followed by `last`. */
    method ParseDigits(input: Stream, start: int, limit: int, last: Byte, ghost q: nat)
      returns (i: int, overflow: bool, count: nat)
      requires input.Valid() && q <= input.src && IsDigit(last)
      requires AllDigits(input.text[q..input.src]) && DecimalValue(input.text[q..input.src]) == start
      requires start <= limit * 10 + (last - ZERO)
      modifies input`src
      ensures input.Valid() && old(input.src) <= input.src && count == input.src - old(input.src)
      ensures AllDigits(input.text[q..input.src])
      ensures i == DecimalValue(input.text[q..input.src]) <= limit * 10 + (last - ZERO)
      ensures DigitsEnd(input.text, input.src) == DigitsEnd(input.text, old(input.src))
      ensures overflow <==> IsDigit(At(input.text, input.src))
      ensures overflow ==> i * 10 + (input.text[input.src] - ZERO) > limit * 10 + (last - ZERO) && i >= limit
    {
      hide DecimalValue;
      i, overflow, count := start, false, 0;
      while IsDigit(input.Peek())
        invariant input.Valid() && old(input.src) <= input.src && count == input.src - old(input.src)
        invariant AllDigits(input.text[q..input.src])
        invariant i == DecimalValue(input.text[q..input.src]) <= limit * 10 + (last - ZERO)
        invariant DigitsEnd(input.text, input.src) == DigitsEnd(input.text, old(input.src))
        decreases |input.text| - input.src
      {
        if i >= limit && (i != limit || input.Peek() > last) {
          overflow := true;
          return;
        }
        ghost var p := input.src;
        var c := input.Take();
        AppendDigit(input.text, q, p);
        i := i * 10 + (c - ZERO);
        count := count + 1;
      }
    }

    method SkipDigits(input: Stream)
      requires input.Valid()
      modifies input`src
      ensures input.Valid() && input.src == DigitsEnd(input.text, old(input.src))
    {
      while IsDigit(input.Peek())
        invariant input.Valid()
        invariant DigitsEnd(input.text, input.src) == DigitsEnd(input.text, old(input.src))
        decreases |input.text| - input.src
      {
        var _ := input.Take();
      }
    }

    /** The integer part: in 32 bits, then in 64, then only skipped. `value` holds an `unsigned` unless
        `use64bit`, a `uint64_t` if so, and is meaningless once `useDouble`. */
    method ParseIntegerPart(input: Stream, minus: bool)
      returns (value: int, use64bit: bool, useDouble: bool, significandDigit: nat)
      requires input.Valid() && IsDigit(At(input.text, input.src))
      modifies input`src
      ensures input.Valid() && input.src == IntegerEnd(input.text, old(input.src))
      ensures var v := DecimalValue(input.text[old(input.src)..input.src]);
              && (use64bit <==> if minus then v > INT32_BOUND else v >= UINT32_BOUND)
              && (useDouble <==> !FitsInteger(minus, v))
              && (!useDouble ==> value == v && significandDigit == input.src - old(input.src) - 1)
              && (useDouble ==> significandDigit >= 17)
    {
      use64bit, useDouble, significandDigit := false, false, 0;
      ghost var q := input.src;
      var first := input.Take();
      FirstDigit(input.text, q);
      value := first - ZERO;
      if first != ZERO {
        hide DecimalValue;
        ghost var e := DigitsEnd(input.text, input.src);
        value, use64bit, significandDigit :=
          ParseDigits(input, value, if minus then 214748364 else 429496729, if minus then 0x38 else 0x35, q);
        DigitsGrow(input.text, q, input.src, e);
        if use64bit {
          value, useDouble, significandDigit := ParseInteger64(input, minus, value, significandDigit, q);
        }
      }
    }

    /** The second half of the integer part, entered with the value that no longer fits 32 bits. */
    method ParseInteger64(input: Stream, minus: bool, i64: int, digits: nat, ghost q: nat)
      returns (value: int, useDouble: bool, significandDigit: nat)
      requires input.Valid() && q < input.src && digits == input.src - q - 1
      requires AllDigits(input.text[q..input.src]) && DecimalValue(input.text[q..input.src]) == i64 < UINT32_BOUND
      modifies input`src
      ensures input.Valid() && input.src == DigitsEnd(input.text, old(input.src))
      ensures AllDigits(input.text[q..input.src])
      ensures var v := DecimalValue(input.text[q..input.src]);
              && (useDouble <==> !FitsInteger(minus, v))
              && (!useDouble ==> value == v && significandDigit == input.src - q - 1)
              && (useDouble ==> significandDigit >= 17)
    {
      hide DecimalValue;
      ghost var e := DigitsEnd(input.text, input.src);
      var more;
      value, useDouble, more :=
        ParseDigits(input, i64, if minus then 0x0CCCCCCCCCCCCCCC else 0x1999999999999999,
                    if minus then 0x38 else 0x35, q);
      significandDigit := digits + more;
      DigitsGrow(input.text, q, input.src, e);
      if useDouble {
        PowersOfTen();
        DecimalValueBelow(input.text[q..input.src], 17);
        SkipDigits(input);
      }
    }

    /** The fraction digits after the point: those that go into the significand lower `expFrac`. */
    method ParseFraction(input: Stream, value: int, useDouble: bool, significandDigit: nat) returns (expFrac: int)
      requires input.Valid() && 0 <= value < UINT64_BOUND
      requires useDouble ==> significandDigit >= 17
      modifies input`src
      ensures input.Valid() && input.src == DigitsEnd(input.text, old(input.src))
      ensures useDouble ==> expFrac == 0
      ensures !useDouble ==> -expFrac == FractionDigits(input.text, old(input.src), value, significandDigit)
    {
      expFrac := 0;
      var digits := significandDigit;
      if !useDouble {
        expFrac, digits := ParseFraction64(input, value, significandDigit);
      }
      // From here on the double `d` is positive: it is at least 2^53.
      ghost var p, already, before := input.src, expFrac, digits;
      while IsDigit(input.Peek())
        invariant input.Valid() && p <= input.src
        invariant DigitsEnd(input.text, input.src) == DigitsEnd(input.text, p)
        invariant useDouble ==> digits >= 17 && expFrac == 0
        invariant already - expFrac + LateDigits(input.text, input.src, digits) == LateDigits(input.text, p, before)
        decreases |input.text| - input.src
      {
        var _ := input.Take();
        if digits < 17 {
          expFrac := expFrac - 1;
          digits := digits + 1;
        }
      }
    }

    /** The fraction digits that still fit a 64-bit significand of at most 53 bits. */
    method ParseFraction64(input: Stream, value: int, significandDigit: nat) returns (expFrac: int, digits: nat)
      requires input.Valid() && 0 <= value < UINT64_BOUND
      modifies input`src
      ensures input.Valid() && old(input.src) <= input.src
      ensures DigitsEnd(input.text, input.src) == DigitsEnd(input.text, old(input.src))
      ensures LateDigits(input.text, input.src, digits) - expFrac
           == FractionDigits(input.text, old(input.src), value, significandDigit)
    {
      expFrac, digits := 0, significandDigit;
      ghost var p := input.src;
      var i64 := value;
      while IsDigit(input.Peek())
        invariant input.Valid() && p <= input.src && 0 <= i64 < UINT64_BOUND
        invariant DigitsEnd(input.text, input.src) == DigitsEnd(input.text, p)
        invariant FractionDigits(input.text, p, value, significandDigit)
               == FractionDigits(input.text, input.src, i64, digits) - expFrac
        decreases |input.text| - input.src
      {
        if i64 > SIGNIFICAND_LIMIT {
          LateDigitsAreFractionDigits(input.text, input.src, i64, digits);
          break;
        }
        var c := input.Take();
        i64 := i64 * 10 + (c - ZERO);
        expFrac := expFrac - 1;
        if i64 != 0 {
          digits := digits + 1;
        }
      }
    }

    /** The digits of a positive exponent; past 308 - expFrac they are an error. No number larger than
        CutExponent is computed on the way. */
    method ParsePositiveExponent(input: Stream, expFrac: int, startOffset: nat) returns (exp: int)
      requires input.Valid() && error == None && IsDigit(At(input.text, input.src)) && expFrac <= 0
      modifies this`error, input`src
      ensures input.Valid() && old(input.src) <= input.src
      ensures var g := DigitsEnd(input.text, old(input.src));
              var x := DecimalValue(input.text[old(input.src)..g]);
              if x > 308 - expFrac then error == Some(ParseError(NumberTooBig, startOffset))
              else error == None && input.src == g && exp == x
      ensures exp == CutExponent(input.text, old(input.src), 308 - expFrac)
    {
      hide DecimalValue, DigitsEnd, CutFrom;
      ghost var s := input.src;
      ghost var g := DigitsEnd(input.text, s);
      var first := input.Take();
      FirstDigit(input.text, s);
      exp := first - ZERO;
      DigitsEndNext(input.text, s);
      var maxExp := 308 - expFrac;
      while IsDigit(input.Peek())
        invariant input.Valid() && s < input.src && DigitsEnd(input.text, input.src) == g && error == None
        invariant AllDigits(input.text[s..input.src]) && 0 <= exp == DecimalValue(input.text[s..input.src])
        invariant exp <= maxExp
        invariant CutFrom(input.text, input.src, exp, maxExp) == CutExponent(input.text, s, maxExp)
        decreases |input.text| - input.src
      {
        ghost var p := input.src;
        var c := input.Take();
        AppendDigit(input.text, s, p);
        DigitsEndNext(input.text, p);
        CutNext(input.text, p, exp, maxExp);
        exp := exp * 10 + (c - ZERO);
        CutNext(input.text, p + 1, exp, maxExp);
        assert exp <= CutExponent(input.text, s, maxExp);
        if exp > maxExp {
          DigitsGrow(input.text, s, p + 1, g);
          SetError(NumberTooBig, startOffset);
          return;
        }
      }
      DigitsEndNext(input.text, input.src);
      CutNext(input.text, input.src, exp, maxExp);
    }

    /** The digits of a negative exponent: it stops growing once it exceeds `maxExp`. No number larger than
        CutExponent is computed on the way. */
    method ParseNegativeExponent(input: Stream, expFrac: int) returns (exp: int)
      requires input.Valid() && IsDigit(At(input.text, input.src)) && expFrac <= 0
      modifies input`src
      ensures input.Valid() && input.src == DigitsEnd(input.text, old(input.src))
      ensures exp == -CutExponent(input.text, old(input.src), LargestNegative(expFrac))
    {
      hide DigitsEnd, CutFrom;
      ghost var s := input.src;
      ghost var g := DigitsEnd(input.text, s);
      DigitsEndNext(input.text, s);
      var first := input.Take();
      exp := first - ZERO;
      var maxExp := LargestNegative(expFrac);
      CutNext(input.text, input.src, exp, maxExp);
      while IsDigit(input.Peek())
        invariant input.Valid() && s < input.src && DigitsEnd(input.text, input.src) == g
        invariant if IsDigit(At(input.text, input.src))
                  then CutFrom(input.text, input.src, exp, maxExp) == CutExponent(input.text, s, maxExp)
                  else exp == CutExponent(input.text, s, maxExp)
        decreases |input.text| - input.src
      {
        ghost var p := input.src;
        DigitsEndNext(input.text, p);
        CutNext(input.text, p, exp, maxExp);
        var c := input.Take();
        exp := exp * 10 + (c - ZERO);
        if exp > maxExp {
          SkipDigits(input);
        }
        CutNext(input.text, input.src, exp, maxExp);
      }
      DigitsEndNext(input.text, input.src);
      exp := -exp;
    }

    // -------------------------------------------------------------------------------------------
    // What a parse routine has done so far
    // -------------------------------------------------------------------------------------------

    /** The slices handed to the handler lie in the part of the buffer that has been read. */
    ghost predicate Listening(input: Stream, h: Handler)
      reads input, input.buf, h
    {
      input.Valid() && AllBelow(h.log, input.src) && AllBelow(h.log, input.buf.Length)
    }

    /** The events as the handler understands them now, its slices looked up in the buffer of now. */
    ghost function Heard(input: Stream, h: Handler): seq<Event>
      requires Listening(input, h)
      reads input, input.buf, h
    {
      Resolve(input.buf[..], h.log)
    }

    ghost function Snapshot(input: Stream, h: Handler): Outcome
      requires Listening(input, h)
      reads this, input, input.buf, h
    {
      match error
      case None => Done(input.src, Heard(input, h))
      case Some(e) => Failed(e.code, e.offset, Heard(input, h))
    }

    method Emit(input: Stream, h: Handler, event: Event)
      requires Listening(input, h) && Below(event, input.src)
      modifies h
      ensures Listening(input, h)
      ensures Heard(input, h) == old(Heard(input, h)) + [ResolveEvent(input.buf[..], event)]
    {
      h.Notify(event);
    }

    // -------------------------------------------------------------------------------------------
    // Values without structure
    // -------------------------------------------------------------------------------------------

    /** ParseNull, ParseTrue and ParseFalse, which differ in their letters and their event. */
    method ParseLiteral(input: Stream, h: Handler, rest: seq<Byte>, event: Event)
      requires Listening(input, h) && error == None && At(input.text, input.src) != NUL
      requires NUL !in rest && !event.String? && !event.Key?
      modifies this`error, input`src, h
      ensures Listening(input, h)
      ensures Snapshot(input, h)
           == Fire(LiteralLeaf(input.text, old(input.src) + 1, rest, event), old(Heard(input, h)))
    {
      var _ := input.Take();
      ghost var p := input.src;
      for k := 0 to |rest|
        invariant Listening(input, h) && input.src >= p && error == None
        invariant Heard(input, h) == old(Heard(input, h))
        invariant LiteralLeaf(input.text, input.src, rest[k..], event) == LiteralLeaf(input.text, p, rest, event)
      {
        var ok := input.Consume(rest[k]);
        if !ok {
          SetError(ValueInvalid, input.src);
          return;
        }
        assert rest[k..][1..] == rest[k + 1..];
      }
      Emit(input, h, event);
    }

    /** A positive exponent at `p` is exact, a negative one cut off. */
    static ghost predicate IsExponentAt(t: seq<Byte>, p: nat, expFrac: int, exp: int)
      requires p <= |t|
    {
      var s := if At(t, p) == PLUS || At(t, p) == MINUS then p + 1 else p;
      && s < |t| && IsDigit(t[s])
      && exp == if At(t, p) == MINUS then -CutExponent(t, s, LargestNegative(expFrac))
                else DecimalValue(t[s..DigitsEnd(t, s)])
    }

    /** The exponent of a number, past its `e`: a sign or none, then digits. */
    method ParseExponent(input: Stream, expFrac: int, startOffset: nat) returns (exp: int)
      requires input.Valid() && error == None && expFrac <= 0
      modifies this`error, input`src
      ensures input.Valid() && old(input.src) <= input.src
      ensures match ScanExponent(input.text, old(input.src), 308 - expFrac, startOffset)
              case Good(g, _) =>
                && error == None && input.src == g
                && IsExponentAt(input.text, old(input.src), expFrac, exp)
                && (expFrac >= LEAST_FOR_NEGATIVE ==> -INT32_BOUND <= exp + expFrac <= 308)
              case Bad(code, offset) => error == Some(ParseError(code, offset))
    {
      hide DecimalValue;
      exp := 0;
      var expMinus := false;
      var plus := input.Consume(PLUS);
      if !plus {
        expMinus := input.Consume(MINUS);
      }
      if !IsDigit(input.Peek()) {
        SetError(NumberMissExponent, input.src);
        return;
      }
      if expMinus {
        if expFrac >= LEAST_FOR_NEGATIVE {
          NegativeExponentFits(input.text, input.src, expFrac);
        }
        exp := ParseNegativeExponent(input, expFrac);
      } else {
        exp := ParsePositiveExponent(input, expFrac, startOffset);
      }
    }

    /** The integer part and the fraction of ParseNumber. */
    method ReadSignificand(input: Stream, minus: bool)
      returns (value: int, use64bit: bool, useDouble: bool, expFrac: int)
      requires input.Valid() && error == None && IsDigit(At(input.text, input.src))
      modifies this`error, input`src
      ensures input.Valid() && old(input.src) < input.src && expFrac <= 0
      ensures var q := old(input.src);
              var e := IntegerEnd(input.text, q);
              var v := DecimalValue(input.text[q..e]);
              var point := At(input.text, e) == DOT;
              if point && !IsDigit(At(input.text, e + 1)) then
                error == Some(ParseError(NumberMissFraction, e + 1))
              else
                && error == None && expFrac == FractionExponent(input.text, minus, q, e)
                && input.src == (if point then DigitsEnd(input.text, e + 1) else e)
                && (useDouble <==> point || !FitsInteger(minus, v))
                && (!useDouble ==> value == v)
                && (!useDouble ==> (use64bit <==> if minus then v > INT32_BOUND else v >= UINT32_BOUND))
    {
      hide DecimalValue, FractionDigits;
      var significandDigit;
      value, use64bit, useDouble, significandDigit := ParseIntegerPart(input, minus);
      expFrac := 0;
      var point := input.Consume(DOT);
      if point {
        if !IsDigit(input.Peek()) {
          SetError(NumberMissFraction, input.src);
          return;
        }
        expFrac := ParseFraction(input, if useDouble then 0 else value, useDouble, significandDigit);
        useDouble := true;
      }
    }

    /** ParseNumber up to the choice of the event. */
    method ReadNumber(input: Stream) returns (minus: bool, value: int, use64bit: bool, useDouble: bool)
      requires input.Valid() && error == None
      modifies this`error, input`src
      ensures input.Valid() && input.src >= old(input.src)
      ensures match ScanNumber(input.text, old(input.src))
              case Bad(code, offset) => error == Some(ParseError(code, offset))
              case Good(end, numeral) =>
                && error == None && input.src == end && (useDouble <==> numeral.Floating?)
                && (numeral.Whole? ==> numeral == Whole(minus, value))
                && (numeral.Whole? ==> (use64bit <==> if minus then value > INT32_BOUND else value >= UINT32_BOUND))
    {
      hide DecimalValue, FractionExponent, ScanExponent, IntegerEnd, IsExponentAt;
      var startOffset := input.src;
      value, use64bit, useDouble := 0, false, false;
      minus := input.Consume(MINUS);
      if !IsDigit(input.Peek()) {
        SetError(ValueInvalid, input.src);
        return;
      }
      var expFrac;
      value, use64bit, useDouble, expFrac := ReadSignificand(input, minus);
      if error.Some? {
        return;
      }
      if input.Peek() == LOWER_E || input.Peek() == UPPER_E {
        var _ := input.Take();
        useDouble := true;
        var exp := ParseExponent(input, expFrac, startOffset);
      }
    }

    method ParseNumber(input: Stream, h: Handler)
      requires Listening(input, h) && error == None
      modifies this`error, input`src, h
      ensures Listening(input, h)
      ensures Snapshot(input, h) == Fire(NumberLeaf(flags, input.text, old(input.src)), old(Heard(input, h)))
    {
      hide ScanNumber;
      var startOffset := input.src;
      var minus, value, use64bit, useDouble := ReadNumber(input);
      if error.Some? {
        return;
      }
      if useDouble {
        assert input.buf[startOffset..input.src] == input.text[startOffset..input.src];
        match flags.strtod(input.buf[startOffset..input.src]) {
          case None => SetError(NumberTooBig, startOffset);
          case Some(bits) => Emit(input, h, Double(bits));
        }
      } else {
        if minus {
          NegationIsExact(value, if use64bit then INT64_BOUND else INT32_BOUND);
        }
        Emit(input, h, if use64bit then (if minus then Int64(Negation(value, INT64_BOUND)) else Uint64(value))
                       else (if minus then Int(Negation(value, INT32_BOUND)) else Uint(value)));
      }
    }

    /** ParseString. In place, the handler gets a slice of the buffer; else a copy from the stack, which
        is popped again. */
    method ParseString(input: Stream, h: Handler, isKey: bool)
      requires Listening(input, h) && error == None && At(input.text, input.src) == QUOTE
      modifies this`stack, this`error, input, input.buf, h
      ensures Listening(input, h)
      ensures Snapshot(input, h) == Fire(StringLeaf(input.text, old(input.src), isKey), old(Heard(input, h)))
      ensures error == None ==> stack == old(stack)
      ensures !insitu ==> input.buf[..] == old(input.buf[..])
    {
      if insitu {
        ParseStringInPlace(input, h, isKey);
      } else {
        ParseStringCopied(input, h, isKey);
      }
    }

    method ParseStringInPlace(input: Stream, h: Handler, isKey: bool)
      requires Listening(input, h) && error == None && At(input.text, input.src) == QUOTE
      requires insitu
      modifies this`stack, this`error, input, input.buf, h
      ensures Listening(input, h)
      ensures Snapshot(input, h) == Fire(StringLeaf(input.text, old(input.src), isKey), old(Heard(input, h)))
      ensures error == None ==> stack == old(stack)
    {
      hide StringBody;
      ghost var before := input.buf[..];
      var _ := input.Take();
      var head := input.PutBegin();
      ParseStringToStream(input, head, |stack|);
      assert input.buf[..][..head] == input.buf[..head] == before[..head];
      ResolveUnchanged(before, input.buf[..], h.log, head);
      if error == None {
        var length := input.dst - head - 1;
        ghost var s := StringBody(input.text, old(input.src) + 1, []).value;
        assert input.buf[..][head..head + length] == input.buf[head..input.dst][..length] == s;
        Emit(input, h, if isKey then Key(InPlace(head, length)) else String(InPlace(head, length)));
      }
    }

    method ParseStringCopied(input: Stream, h: Handler, isKey: bool)
      requires Listening(input, h) && error == None && At(input.text, input.src) == QUOTE
      requires !insitu
      modifies this`stack, this`error, input, input.buf, h
      ensures Listening(input, h)
      ensures Snapshot(input, h) == Fire(StringLeaf(input.text, old(input.src), isKey), old(Heard(input, h)))
      ensures error == None ==> stack == old(stack)
      ensures input.buf[..] == old(input.buf[..])
    {
      hide StringBody;
      var _ := input.Take();
      var base := |stack|;
      ParseStringToStream(input, 0, base);
      if error == None {
        // The StackStream's length_ counts the bytes pushed since `base`.
        var length := |stack| - base - 1;
        var str := stack[|stack| - length - 1..|stack| - 1];
        ghost var s := StringBody(input.text, old(input.src) + 1, []).value;
        assert str == stack[base..][..length] == s;
        stack := stack[..|stack| - length - 1];
        Emit(input, h, if isKey then Key(Copied(str)) else String(Copied(str)));
      }
    }

    /** The cases of ParseValue that call a leaf routine. */
    method ParseScalar(input: Stream, h: Handler)
      requires Listening(input, h) && error == None && !StartsContainer(At(input.text, input.src))
      modifies this`stack, this`error, input, input.buf, h
      ensures Listening(input, h)
      ensures Snapshot(input, h) == Fire(ScalarLeaf(flags, input.text, old(input.src)), old(Heard(input, h)))
      ensures error == None ==> stack == old(stack)
      ensures !insitu ==> input.buf[..] == old(input.buf[..])
    {
      hide StringLeaf, NumberLeaf, LiteralLeaf;
      var c := input.Peek();
      if c == LOWER_N {
        ParseLiteral(input, h, NULL_TAIL, Null);
      } else if c == LOWER_T {
        ParseLiteral(input, h, TRUE_TAIL, Bool(true));
      } else if c == LOWER_F {
        ParseLiteral(input, h, FALSE_TAIL, Bool(false));
      } else if c == QUOTE {
        ParseString(input, h, false);
      } else {
        ParseNumber(input, h);
      }
    }

    // -------------------------------------------------------------------------------------------
    // Recursive descent
    // -------------------------------------------------------------------------------------------

    method ParseValue(input: Stream, h: Handler)
      requires Listening(input, h) && error == None
      modifies this`stack, this`error, input, input.buf, h
      ensures Listening(input, h)
      ensures Snapshot(input, h)
           == ReaderSpec.ParseValue(flags, input.text, old(input.src), old(Heard(input, h)))
      ensures error == None ==> stack == old(stack)
      ensures !insitu ==> input.buf[..] == old(input.buf[..])
      decreases |input.text| - input.src, 1
    {
      hide ScalarLeaf, ParseElements, ParseMembers;
      var c := input.Peek();
      if c == LBRACE {
        ParseObject(input, h);
      } else if c == LBRACKET {
        ParseArray(input, h);
      } else {
        ParseScalar(input, h);
      }
    }

    method ParseArray(input: Stream, h: Handler)
      requires Listening(input, h) && error == None && At(input.text, input.src) == LBRACKET
      modifies this`stack, this`error, input, input.buf, h
      ensures Listening(input, h)
      ensures Snapshot(input, h)
           == ReaderSpec.ParseValue(flags, input.text, old(input.src), old(Heard(input, h)))
      ensures error == None ==> stack == old(stack)
      ensures !insitu ==> input.buf[..] == old(input.buf[..])
      decreases |input.text| - input.src, 0
    {
      hide ScalarLeaf, ParseElements, ParseMembers;
      ghost var goal := ReaderSpec.ParseValue(flags, input.text, input.src, Heard(input, h));
      ghost var earlier := Heard(input, h);
      var _ := input.Take();
      Emit(input, h, StartArray);
      input.SkipWhitespace();
      var closed := input.Consume(RBRACKET);
      if closed {
        Emit(input, h, EndArray(0));
        assert earlier + [StartArray] + [EndArray(0)] == earlier + [StartArray, EndArray(0)];
      } else {
        ParseArrayElements(input, h);
      }
    }

    /** The loop of ParseArray. */
    method ParseArrayElements(input: Stream, h: Handler)
      requires Listening(input, h) && error == None
      modifies this`stack, this`error, input, input.buf, h
      ensures Listening(input, h)
      ensures Snapshot(input, h)
           == ParseElements(flags, input.text, old(input.src), 0, old(Heard(input, h)))
      ensures error == None ==> stack == old(stack)
      ensures !insitu ==> input.buf[..] == old(input.buf[..])
      decreases |input.text| - input.src, 2
    {
      hide ReaderSpec.ParseValue, NextElement;
      ghost var goal := ParseElements(flags, input.text, input.src, 0, Heard(input, h));
      var elementCount: SizeType := 0;
      while true
        invariant Listening(input, h) && error == None && stack == old(stack) && old(input.src) <= input.src
        invariant !insitu ==> input.buf[..] == old(input.buf[..])
        invariant goal == ParseElements(flags, input.text, input.src, elementCount, Heard(input, h))
        decreases |input.text| - input.src
      {
        ParseValue(input, h);
        if error.Some? {
          return;
        }
        elementCount := Increment(elementCount);
        var more := FinishElement(input, h, elementCount);
        if !more {
          return;
        }
      }
    }

    /** What follows the `count`-th element: a comma and perhaps the end, the closing bracket, or an error. */
    method FinishElement(input: Stream, h: Handler, count: SizeType) returns (more: bool)
      requires Listening(input, h) && error == None
      modifies this`error, input`src, h
      ensures Listening(input, h)
      ensures var r := NextElement(flags, input.text, old(input.src), count, old(Heard(input, h)));
              if more then
                && error == None && old(input.src) < input.src
                && r == ParseElements(flags, input.text, input.src, count, Heard(input, h))
              else Snapshot(input, h) == r
    {
      hide ParseElements;
      more := false;
      input.SkipWhitespace();
      var comma := input.Consume(COMMA);
      if comma {
        input.SkipWhitespace();
        if flags.trailingCommas && input.Peek() == RBRACKET {
          Emit(input, h, EndArray(count));
          var _ := input.Take();
        } else {
          more := true;
        }
      } else {
        var closed := input.Consume(RBRACKET);
        if closed {
          Emit(input, h, EndArray(count));
        } else {
          SetError(ArrayMissCommaOrSquareBracket, input.src);
        }
      }
    }

    method ParseObject(input: Stream, h: Handler)
      requires Listening(input, h) && error == None && At(input.text, input.src) == LBRACE
      modifies this`stack, this`error, input, input.buf, h
      ensures Listening(input, h)
      ensures Snapshot(input, h)
           == ReaderSpec.ParseValue(flags, input.text, old(input.src), old(Heard(input, h)))
      ensures error == None ==> stack == old(stack)
      ensures !insitu ==> input.buf[..] == old(input.buf[..])
      decreases |input.text| - input.src, 0
    {
      hide ScalarLeaf, ParseElements, ParseMembers;
      ghost var earlier := Heard(input, h);
      var _ := input.Take();
      Emit(input, h, StartObject);
      input.SkipWhitespace();
      var closed := input.Consume(RBRACE);
      if closed {
        Emit(input, h, EndObject(0));
        assert earlier + [StartObject] + [EndObject(0)] == earlier + [StartObject, EndObject(0)];
      } else {
        ParseObjectMembers(input, h);
      }
    }

    /** One turn of the loop of ParseObject, up to the end of the value. */
    method ParseObjectMember(input: Stream, h: Handler)
      requires Listening(input, h) && error == None
      modifies this`stack, this`error, input, input.buf, h
      ensures Listening(input, h)
      ensures Snapshot(input, h)
           == ParseMember(flags, input.text, old(input.src), old(Heard(input, h)))
      ensures error == None ==> stack == old(stack)
      ensures !insitu ==> input.buf[..] == old(input.buf[..])
      decreases |input.text| - input.src, 2
    {
      hide ReaderSpec.ParseValue, StringLeaf;
      if input.Peek() != QUOTE {
        SetError(ObjectMissName, input.src);
        return;
      }
      ParseString(input, h, true);
      if error.Some? {
        return;
      }
      input.SkipWhitespace();
      var colon := input.Consume(COLON);
      if !colon {
        SetError(ObjectMissColon, input.src);
        return;
      }
      input.SkipWhitespace();
      ParseValue(input, h);
    }

    /** The loop of ParseObject. */
    method ParseObjectMembers(input: Stream, h: Handler)
      requires Listening(input, h) && error == None
      modifies this`stack, this`error, input, input.buf, h
      ensures Listening(input, h)
      ensures Snapshot(input, h)
           == ParseMembers(flags, input.text, old(input.src), 0, old(Heard(input, h)))
      ensures error == None ==> stack == old(stack)
      ensures !insitu ==> input.buf[..] == old(input.buf[..])
      decreases |input.text| - input.src, 3
    {
      hide ParseMember, NextMember;
      ghost var goal := ParseMembers(flags, input.text, input.src, 0, Heard(input, h));
      var memberCount: SizeType := 0;
      while true
        invariant Listening(input, h) && error == None && stack == old(stack) && old(input.src) <= input.src
        invariant !insitu ==> input.buf[..] == old(input.buf[..])
        invariant goal == ParseMembers(flags, input.text, input.src, memberCount, Heard(input, h))
        decreases |input.text| - input.src
      {
        ParseObjectMember(input, h);
        if error.Some? {
          return;
        }
        memberCount := Increment(memberCount);
        var more := FinishMember(input, h, memberCount);
        if !more {
          return;
        }
      }
    }

    /** What follows the `count`-th member: a comma and perhaps the end, the closing brace, or an error. */
    method FinishMember(input: Stream, h: Handler, count: SizeType) returns (more: bool)
      requires Listening(input, h) && error == None
      modifies this`error, input`src, h
      ensures Listening(input, h)
      ensures var r := NextMember(flags, input.text, old(input.src), count, old(Heard(input, h)));
              if more then
                && error == None && old(input.src) < input.src
                && r == ParseMembers(flags, input.text, input.src, count, Heard(input, h))
              else Snapshot(input, h) == r
    {
      hide ParseMembers;
      more := false;
      input.SkipWhitespace();
      if input.Peek() == COMMA {
        var _ := input.Take();
        input.SkipWhitespace();
        if flags.trailingCommas && input.Peek() == RBRACE {
          Emit(input, h, EndObject(count));
          var _ := input.Take();
        } else {
          more := true;
        }
      } else if input.Peek() == RBRACE {
        var _ := input.Take();
        Emit(input, h, EndObject(count));
      } else {
        SetError(ObjectMissCommaOrCurlyBracket, input.src);
      }
    }

    /** Parse without the iterative flag. */
    method Parse(input: Stream, h: Handler)
      requires input.Valid() && input.src == 0 && h.log == []
      modifies this`stack, this`error, input, input.buf, h
      ensures Listening(input, h) && stack == []
      ensures Snapshot(input, h) == RecursiveParse(flags, input.text)
      ensures !insitu ==> input.buf[..] == old(input.buf[..])
    {
      hide ReaderSpec.ParseValue;
      error := None;
      assert Heard(input, h) == [];
      input.SkipWhitespace();
      if input.Peek() == NUL {
        SetError(DocumentEmpty, input.src);
      } else {
        ParseValue(input, h);
        if error == None && !flags.stopWhenDone {
          input.SkipWhitespace();
          if input.Peek() != NUL {
            SetError(DocumentRootNotSingular, input.src);
          }
        }
      }
      stack := [];
    }

    // -------------------------------------------------------------------------------------------
    // The pushdown machine
    // -------------------------------------------------------------------------------------------

    method PushSize(v: SizeType)
      modifies this`stack
      ensures stack == old(stack) + SizeBytes(v)
    {
      stack := stack + SizeBytes(v);
    }

    method PopSize() returns (v: SizeType)
      requires |stack| >= 4
      modifies this`stack
      ensures stack == old(stack)[..|old(stack)| - 4]
      ensures v == SizeOf(old(stack)[|old(stack)| - 4..])
    {
      v := SizeOf(stack[|stack| - 4..]);
      stack := stack[..|stack| - 4];
    }

    /** The machine that the reader's fields, the stream and the handler amount to. */
    ghost predicate Represents(input: Stream, h: Handler, state: State, m: Machine)
      reads this, input, input.buf, h
    {
      && Listening(input, h) && WellFormed(m)
      && m.pos == input.src && m.state == state && m.events == Heard(input, h)
      && stack == StackBytes(m.stack)
    }

    /** ObjectInitial and ArrayInitial of Transit. */
    method EnterContainer(input: Stream, h: Handler, src: State, dst: State, ghost m: Machine)
      requires Represents(input, h, src, m) && At(input.text, input.src) != NUL && error == None
      requires (dst.ObjectInitial? || dst.ArrayInitial?) && dst == Predict(src, Tokenize(At(input.text, input.src)))
      modifies this`stack, input`src, h
      ensures Step(flags, input.text, m).Next?
      ensures Represents(input, h, dst, Step(flags, input.text, m).m)
    {
      hide StackBytes, SizeBytes, SizeOf, StateCode, CodeState, Resolve;
      hide ScalarLeaf, StringLeaf;
      var n := src;
      if src == ArrayInitial || src == ElementDelimiter {
        n := Element;
      } else if src == KeyValueDelimiter {
        n := MemberValue;
      }
      PushSize(StateCode(n));
      PushSize(0);
      Emit(input, h, if dst == ObjectInitial then StartObject else StartArray);
      var _ := input.Take();
      StackBytesPush(m.stack, Frame(n, 0));
    }

    /** The two pops of a container's end: its count, then the state to resume. */
    method PopFrame(ghost frames: seq<Frame>) returns (resume: State, count: SizeType)
      requires frames != [] && stack == StackBytes(frames)
      modifies this`stack
      ensures Frame(resume, count) == frames[|frames| - 1]
      ensures stack == StackBytes(frames[..|frames| - 1])
    {
      hide StackBytes, SizeBytes, SizeOf, StateCode, CodeState;
      StackBytesPop(frames);
      count := PopSize();
      var code := PopSize();
      resume := CodeState(code);
    }

    /** ObjectFinish and ArrayFinish of Transit. `last` is the state right after a member or element. */
    method LeaveContainer(input: Stream, h: Handler, src: State, last: State, isObject: bool, ghost m: Machine)
      returns (n: State)
      requires Represents(input, h, src, m) && m.stack != [] && At(input.text, input.src) != NUL
      modifies this`stack, input`src, h
      ensures Represents(input, h, n, Leave(m, last, isObject))
    {
      hide StackBytes, Resolve, WellFormed;
      LeaveWellFormed(m, last, isObject);
      var c;
      n, c := PopFrame(m.stack);
      if src == last {
        c := Increment(c);
      }
      if n == Start {
        n := Finish;
      }
      Emit(input, h, if isObject then EndObject(c) else EndArray(c));
      var _ := input.Take();
    }

    /** MemberDelimiter and ElementDelimiter of Transit: the count on top of the stack goes up by one. */
    method TakeDelimiter(input: Stream, h: Handler, src: State, dst: State, ghost m: Machine)
      requires Represents(input, h, src, m) && m.stack != [] && At(input.text, input.src) != NUL
      requires dst.MemberDelimiter? || dst.ElementDelimiter?
      modifies this`stack, input`src
      ensures Represents(input, h, dst, CountOne(m, dst))
    {
      hide Resolve;
      var _ := input.Take();
      IncrementTop(m.stack);
    }

    method IncrementTop(ghost frames: seq<Frame>)
      requires frames != [] && stack == StackBytes(frames)
      modifies this`stack
      ensures var top := frames[|frames| - 1];
              stack == StackBytes(frames[..|frames| - 1] + [Frame(top.resume, Increment(top.count))])
    {
      hide StackBytes, SizeBytes, SizeOf, StateCode, CodeState;
      ghost var top := frames[|frames| - 1];
      StackBytesPop(frames);
      var c := PopSize();
      PushSize(Increment(c));
      StackBytesPush(frames[..|frames| - 1], Frame(top.resume, Increment(top.count)));
    }

    /** The leaf cases of Transit: a member name or a value that is no container. */
    method TakeLeaf(input: Stream, h: Handler, src: State, dst: State, isKey: bool, ghost m: Machine)
      returns (d: State)
      requires Represents(input, h, src, m) && error == None
      requires isKey ==> At(input.text, input.src) == QUOTE
      requires !isKey ==> !StartsContainer(At(input.text, input.src))
      requires dst.Finish? || dst.MemberKey? || dst.MemberValue? || dst.Element?
      requires WellFormed(m.(state := dst))
      modifies this`stack, this`error, input, input.buf, h
      ensures !insitu ==> input.buf[..] == old(input.buf[..])
      ensures Listening(input, h)
      ensures match LeafMove(m, if isKey then StringLeaf(input.text, m.pos, true)
                                else ScalarLeaf(flags, input.text, m.pos), dst)
              case Next(n) => error == None && d == dst && Represents(input, h, d, n)
              case Stop(code, offset, events) =>
                && d == Error && error == Some(ParseError(code, offset)) && Heard(input, h) == events
    {
      hide ScalarLeaf, StringLeaf;
      if isKey {
        ParseString(input, h, true);
      } else {
        ParseScalar(input, h);
      }
      d := if error.Some? then Error else dst;
    }

    /** Transit. An Error result without an error code leaves the code to HandleError. */
    method Transit(input: Stream, h: Handler, src: State, dst: State, ghost m: Machine) returns (d: State)
      requires Represents(input, h, src, m) && error == None && At(input.text, input.src) != NUL
      requires dst == Predict(src, Tokenize(At(input.text, input.src)))
      modifies this`stack, this`error, input, input.buf, h
      ensures !insitu ==> input.buf[..] == old(input.buf[..])
      ensures Listening(input, h)
      ensures match Step(flags, input.text, m)
              case Next(n) => error == None && Represents(input, h, d, n)
              case Stop(code, offset, events) =>
                && d == Error && Heard(input, h) == events
                && (error == None || error == Some(ParseError(code, offset)))
                && (error == None ==> code == StateError(src) && offset == input.src)
    {
      hide ScalarLeaf, StringLeaf, CountOne, Leave, LeafMove, Predict, Tokenize, WellFormed, Resolve;
      PredictedMove(m, At(input.text, input.src), dst);
      match dst
      case Error =>
        d := Error;
      case ObjectInitial | ArrayInitial =>
        EnterContainer(input, h, src, dst, m);
        d := dst;
      case MemberKey =>
        d := TakeLeaf(input, h, src, dst, true, m);
      case KeyValueDelimiter =>
        var _ := input.Take();
        d := dst;
      case MemberValue | Element =>
        d := TakeLeaf(input, h, src, dst, false, m);
      case MemberDelimiter | ElementDelimiter =>
        TakeDelimiter(input, h, src, dst, m);
        d := dst;
      case ObjectFinish =>
        if !flags.trailingCommas && src == MemberDelimiter {
          SetError(ObjectMissName, input.src);
          d := Error;
        } else {
          d := LeaveContainer(input, h, src, MemberValue, true, m);
        }
      case ArrayFinish =>
        if !flags.trailingCommas && src == ElementDelimiter {
          SetError(ValueInvalid, input.src);
          d := Error;
        } else {
          d := LeaveContainer(input, h, src, Element, false, m);
        }
      case SingleValue =>
        d := TakeLeaf(input, h, src, Finish, false, m);
    }

    method HandleError(state: State, input: Stream)
      modifies this`error
      ensures error == if old(error).Some? then old(error) else Some(ParseError(StateError(state), input.src))
    {
      if error == None {
        SetError(StateError(state), input.src);
      }
    }

    /** Parse with the iterative flag: the machine computes, and leaves the stack empty. */
    method IterativeParse(input: Stream, h: Handler)
      requires input.Valid() && input.src == 0 && h.log == []
      modifies this`stack, this`error, input, input.buf, h
      ensures Listening(input, h) && stack == []
      ensures Snapshot(input, h) == ReaderSpec.IterativeParse(flags, input.text)
      ensures !insitu ==> input.buf[..] == old(input.buf[..])
    {
      hide Step, WellFormed, Predict, Tokenize, Resolve, StateError;
      StartsWell(input.text);
      error := None;
      stack := [];
      assert Heard(input, h) == [];
      var state := Start;
      input.SkipWhitespace();
      ghost var m := Machine(input.src, Start, [], []);
      ghost var goal := Run(flags, input.text, m);
      while input.Peek() != NUL
        invariant error == None && Represents(input, h, state, m)
        invariant goal == Run(flags, input.text, m)
        invariant !insitu ==> input.buf[..] == old(input.buf[..])
        decreases |input.text| - input.src
      {
        var n := Predict(state, Tokenize(input.Peek()));
        var d := Transit(input, h, state, n, m);
        NoErrorState(Step(flags, input.text, m));
        if d == Error {
          HandleError(state, input);
          stack := [];
          return;
        }
        state := d;
        m := Step(flags, input.text, m).m;
        if flags.stopWhenDone && state == Finish {
          break;
        }
        input.SkipWhitespace();
        CursorIsFree(m, input.src);
        m := m.(pos := input.src);
      }
      if state != Finish {
        HandleError(state, input);
      }
      stack := [];
    }
  }

  /** What the table promises about the move it predicts. */
  lemma PredictedMove(m: Machine, c: Byte, dst: State)
    requires WellFormed(m) && c != NUL && dst == Predict(m.state, Tokenize(c))
    ensures dst.MemberDelimiter? || dst.ElementDelimiter? || dst.ObjectFinish? || dst.ArrayFinish? ==> m.stack != []
    ensures dst.MemberKey? ==> c == QUOTE
    ensures dst.MemberValue? || dst.Element? || dst.SingleValue? ==> !StartsContainer(c)
    ensures dst.MemberKey? || dst.MemberValue? || dst.Element? ==> WellFormed(m.(state := dst))
    ensures dst.KeyValueDelimiter? ==> WellFormed(m.(pos := m.pos + 1, state := dst))
    ensures dst.SingleValue? ==> WellFormed(m.(state := Finish))
    ensures !dst.Start? && !dst.Finish?
  {
  }

  lemma NoErrorState(r: Move)
    ensures r.Next? && WellFormed(r.m) ==> r.m.state != Error
  {
  }

  lemma StartsWell(t: seq<Byte>)
    ensures WellFormed(Machine(SkipWs(t, 0), Start, [], []))
  {
  }

  lemma CursorIsFree(m: Machine, pos: nat)
    requires WellFormed(m)
    ensures WellFormed(m.(pos := pos))
  {
  }

  lemma LeaveWellFormed(m: Machine, last: State, isObject: bool)
    requires WellFormed(m) && m.stack != []
    ensures WellFormed(Leave(m, last, isObject))
  {
  }

  // -----------------------------------------------------------------------------------------------
  // The byte stack
  // -----------------------------------------------------------------------------------------------

  /** The enumerator of a state, as it is pushed. */
  function StateCode(state: State): (c: SizeType)
    ensures c < 14
  {
    match state
    case Finish => 0
    case Error => 1
    case Start => 2
    case ObjectInitial => 3
    case MemberKey => 4
    case MemberValue => 5
    case ObjectFinish => 6
    case ArrayInitial => 7
    case Element => 8
    case ArrayFinish => 9
    case SingleValue => 10
    case ElementDelimiter => 11
    case MemberDelimiter => 12
    case KeyValueDelimiter => 13
  }

  /** The cast of a popped SizeType back to a state. */
  function CodeState(c: SizeType): State {
    match c
    case 0 => Finish
    case 2 => Start
    case 3 => ObjectInitial
    case 4 => MemberKey
    case 5 => MemberValue
    case 6 => ObjectFinish
    case 7 => ArrayInitial
    case 8 => Element
    case 9 => ArrayFinish
    case 10 => SingleValue
    case 11 => ElementDelimiter
    case 12 => MemberDelimiter
    case 13 => KeyValueDelimiter
    case _ => Error
  }

  /** A SizeType in memory, least significant byte first. */
  function SizeBytes(v: SizeType): (b: seq<Byte>)
    ensures |b| == 4
  {
    [v % 0x100, v / 0x100 % 0x100, v / 0x100 / 0x100 % 0x100, v / 0x100 / 0x100 / 0x100]
  }

  function SizeOf(b: seq<Byte>): SizeType
    requires |b| == 4
  {
    var b0: int, b1: int, b2: int, b3: int := b[0], b[1], b[2], b[3];
    b0 + 0x100 * (b1 + 0x100 * (b2 + 0x100 * b3))
  }

  lemma SizeRoundTrip(v: SizeType)
    ensures SizeOf(SizeBytes(v)) == v
  {
    var w := v / 0x100;
    var x := w / 0x100;
    assert v == v % 0x100 + 0x100 * w && w == w % 0x100 + 0x100 * x && x == x % 0x100 + 0x100 * (x / 0x100);
  }

  /** The machine's frames as bytes: for each a state and on top of it a count. */
  ghost function StackBytes(frames: seq<Frame>): (b: seq<Byte>)
    ensures |b| == 8 * |frames|
  {
    if frames == [] then [] else
    var top := frames[|frames| - 1];
    StackBytes(frames[..|frames| - 1]) + SizeBytes(StateCode(top.resume)) + SizeBytes(top.count)
  }

  lemma StackBytesPush(frames: seq<Frame>, frame: Frame)
    ensures StackBytes(frames + [frame])
         == StackBytes(frames) + SizeBytes(StateCode(frame.resume)) + SizeBytes(frame.count)
  {
    assert (frames + [frame])[..|frames|] == frames;
  }

  /** Popping two sizes off a nonempty stack yields the top frame's count and state. */
  lemma StackBytesPop(frames: seq<Frame>)
    requires frames != []
    ensures var b := StackBytes(frames);
            var n := |b|;
            var top := frames[|frames| - 1];
            && SizeOf(b[n - 4..]) == top.count
            && CodeState(SizeOf(b[..n - 4][n - 8..])) == top.resume
            && b[..n - 4] == StackBytes(frames[..|frames| - 1]) + SizeBytes(StateCode(top.resume))
            && b[..n - 4][..n - 8] == StackBytes(frames[..|frames| - 1])
  {
    hide SizeBytes, SizeOf;
    var b := StackBytes(frames);
    var top := frames[|frames| - 1];
    SizeRoundTrip(top.count);
    SizeRoundTrip(StateCode(top.resume));
    assert b[|b| - 4..] == SizeBytes(top.count);
    assert b[..|b| - 4][|b| - 8..] == SizeBytes(StateCode(top.resume));
    assert b[..|b| - 4][..|b| - 8] == StackBytes(frames[..|frames| - 1]);
  }

  /** `~i + 1` read as a signed number of the width whose least value is -bound. */
  function Negation(i: int, bound: int): int
    requires 0 < bound
  {
    var m := (2 * bound - i) % (2 * bound);
    if m < bound then m else m - 2 * bound
  }

  lemma NegationIsExact(i: int, bound: int)
    requires 0 < bound && 0 <= i <= bound
    ensures Negation(i, bound) == -i
  {
    if i == 0 {
      assert (2 * bound) % (2 * bound) == 0;
    }
  }

  ghost predicate HexRun(t: seq<Byte>, p: nat, n: nat) {
    forall j: nat :: p <= j < p + n ==> IsHexDigit(At(t, j))
  }

  ghost function HexPrefix(t: seq<Byte>, p: nat, n: nat): nat
    requires HexRun(t, p, n)
  {
    if n == 0 then 0 else HexPrefix(t, p, n - 1) * 16 + HexDigitValue(At(t, p + n - 1))
  }

  lemma HexPrefixIsHex4(t: seq<Byte>, p: nat)
    requires HexRun(t, p, 4)
    ensures Hex4(t, p) == Some(HexPrefix(t, p, 4))
  {
    assert IsHexDigit(At(t, p)) && IsHexDigit(At(t, p + 1)) && IsHexDigit(At(t, p + 2)) && IsHexDigit(At(t, p + 3));
    assert HexPrefix(t, p, 1) == HexDigitValue(At(t, p));
    assert HexPrefix(t, p, 2) == HexPrefix(t, p, 1) * 16 + HexDigitValue(At(t, p + 1));
    assert HexPrefix(t, p, 3) == HexPrefix(t, p, 2) * 16 + HexDigitValue(At(t, p + 2));
  }

  /** The fraction digits that count once the significand has outgrown 53 bits. */
  function LateDigits(t: seq<Byte>, q: nat, digits: nat): nat
    requires q <= |t|
    decreases |t| - q
  {
    if IsDigit(At(t, q)) && digits < 17 then 1 + LateDigits(t, q + 1, digits + 1) else 0
  }

  lemma {:induction false} LateDigitsAreFractionDigits(t: seq<Byte>, q: nat, significand: nat, digits: nat)
    requires q <= |t| && significand > SIGNIFICAND_LIMIT
    ensures LateDigits(t, q, digits) == FractionDigits(t, q, significand, digits)
    decreases |t| - q
  {
    if IsDigit(At(t, q)) && digits < 17 {
      LateDigitsAreFractionDigits(t, q + 1, significand, digits + 1);
    }
  }

  /** A number of at least 10^n has more than n digits. */
  lemma {:induction false} DecimalValueBelow(s: seq<Byte>, n: nat)
    requires AllDigits(s) && DecimalValue(s) >= Pow(10, n)
    ensures |s| > n
  {
    DecimalValueBound(s);
    if |s| <= n {
      PowMonotone(10, |s|, n);
    }
  }
}
