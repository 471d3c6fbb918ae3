# The JSON engine of the CAM quality service, verified

The CAM quality service parses, inspects and prints every message with the RapidJSON copy under
`src/cits-message-quality/src/lib/rapidjson`. This project models the hard parts of that library in Dafny and
proves what they promise. The proofs cover all inputs: every text, every tree, every path, every state an
object can be in.

What a text means is stated apart from the code, in grammars whose bytes are given by their numbers; the parsers are
proved to accept exactly those texts and the writers to print only such.

Code that changes things step by step is modelled by methods on classes and arrays. Each such method is tied
to a function that says what it computes, and the properties are lemmas about those functions.

| files | what they hold |
|---|---|
| `Bytes`, `Powers`, `Bits`, `Decimals`, `Limbs` | bytes, powers, bit masks, decimal strings and limb sequences, with the facts the rest needs |
| `Streams`, `ReaderSpec`, `Exponents`, `Reader` | the streams, the grammar and the pushdown machine as functions, and the reader's methods: recursive descent, the table-driven parser with its byte stack, strings, escapes and numbers, in place or not |
| `ReaderEquivalence` | the two parsers agree |
| `JsonGrammar` | JSON texts after RFC 8259 as concrete syntax trees, byte by byte, and what they stand for |
| `StringReading`, `NumberReading`, `TextReading`, `TreeReading`, `Errors` | the reader accepts exactly those texts, as what they stand for; the tree a document builds from one; and what every error says |
| `Document`, `Writer`, `PrettyWriter` | values, their events, the DOM builder and both writers |
| `Spelling`, `WriterText`, `RoundTrip`, `PrettyLayout` | what the writers print is JSON of the grammar, the round trips between tree and text, and the layout of the pretty text |
| `DigitGen`, `Layout`, `Doubles`, `DiyFp` | digit generation, the layout of digits as text in place, doubles as the writer prints them, and 64-bit floating point |
| `BigInteger` | the fixed-capacity big integer, limb by limb |
| `Utf8`, `Utf16` | the codecs against RFC 3629 and RFC 2781 |
| `PointerSpec`, `Pointer`, `PointerGrammar`, `PointerRoundTrip` | JSON Pointers: parsing into one name buffer, stringifying, the grammar of RFC 6901 that is parsed exactly, and the round trips |
| `PointerTree`, `PointerPlaces`, `Trees` | Get, Create, Set and Erase on a tree, the laws between them, and what they do place by place |
| `DotSegments` | removing the dot segments of a path in place, against section 5.2.4 of RFC 3986 |
| `Allocator`, `MemberIndex` | the pool allocator, and the map index beside an object's members |

Words of 32 and 64 bits are bounded integers where the source computes with them: of digits, exponents, limbs,
indices, counts, the pool's sizes and an object's capacity. There either the absence of overflow is part of the
proof, or the model takes the remainder as the source does and says exactly when that does harm. Positions and
lengths of texts are natural numbers. Bytes are the integers from 0 to 255. A text ends at its NUL, and reading at
its end yields that NUL.

`dafny verify dfyconfig.toml` checks the whole project.

## Where the code departs from what it promises

Each of these is a lemma or a condition in a contract.

- A root that begins with `]`, `}`, `,` or `:` is rejected by both parsers at the same place, but with different
  error codes (`reader.h:2170` against `reader.h:1548`). Nothing else separates them.
- The reader rejects escapes of lone surrogates (`reader.h:1022`), which the grammar of RFC 8259 admits, and numbers
  beyond its limits (`reader.h:1671`); `JsonGrammar` says which. It ends at a NUL and does not check UTF-8.
- A percent-encoded solidus in a URI fragment is taken for a part of a name (`pointer.h:958`), where section 6 of
  RFC 6901 decodes the fragment first and then splits it. The two agree if and only if no solidus is encoded. Of the
  characters that RFC 3986 admits in fragments only the unreserved ones may stand unencoded.
- Numbers are compared by their raw 64 bits (`document.h:1059`), so integers that differ by 2^64 count as equal.
- The assertion in `biginteger.h:138` admits shifts that write one limb beyond the capacity, namely those by a part
  of a limb that meet it with equality.
- The subtraction loop in `biginteger.h:204` forgets a borrow where one comes in and the limb to subtract is 2^64-1.
  The difference is exact if and only if that does not happen above the lowest limb.
- The overflow test in `pointer.h:1025` sees an overflow only when it makes the wrapped number smaller, so some
  reference tokens of ten or more digits become the wrong index.
- Below the smallest normal double the lower boundary in `diyfp.h:124` is a quarter unit away instead of half a unit.
  All other boundaries are exactly half way.
- On relative paths the loop of `uri.h:411` may differ from the algorithm it cites: "a/.." becomes the empty path
  instead of "/". On absolute paths, which is what `Parse` hands to it, it always agrees; for all paths the exact
  condition is given.
- A second Create with a token "-" that meets an array appends again, and Get does not find what it appended. The
  laws of Create, Get, Set and Erase say exactly when that, or the loss of an array turned into an object, occurs.
- The pool rounds and adds sizes in 64 bits without a test (`rapidjson.h:307`, `allocators.h:327`, `allocators.h:393`).
  A size of more than 2^64 - 8, or one whose sum with the used bytes or with a chunk header wraps, is granted
  although the memory is not there, and later blocks may lie inside earlier ones. A pool keeps its blocks in memory
  and apart if and only if nothing wraps.
- From a capacity of 2863311531 members on, `document.h:2307` computes a smaller one, nothing is reserved, and the
  next member is written behind the arrays. Add says exactly when it stays inside; where it does not, the model
  writes nothing.
- A text given by its length that is not terminated is read one byte too far by `pointer.h:939`, when its length is
  0, and by `pointer.h:1108`, at its end. The model yields NUL there, as for a terminated text. In the second place
  no byte makes a difference; in the first a `#` does.
- With a maximum number of decimal places, the layouts without an exponent are cut off; the ones with an exponent
  never are.

The library cites RFC 4627 for its grammar; RFC 8259 has replaced that.

## Model

Source paths are relative to the repository.

| member | source | states |
|---|---|---|
| `ReaderEquivalence.ParsersAgree` | src/cits-message-quality/src/lib/rapidjson/reader.h:2192-2224 | For every text and every flag combination, the table-driven parser and the recursive one give the same events with the same counts, accept the same texts, and fail with the same code at the same offset; a root whose first token is `]`, `}`, `,` or `:` fails in both at that token, with DocumentEmpty in the one and ValueInvalid in the other |
| `ReaderEquivalence.ParsersDifferExactlyOnStrayRoots` | src/cits-message-quality/src/lib/rapidjson/reader.h:2163-2181 | The two outcomes differ if and only if the first token of the text is one of those four |
| `ReaderEquivalence.ValueSimulation` | src/cits-message-quality/src/lib/rapidjson/reader.h:1751-1765 | A run of the machine from any state that wants a value is ParseValue followed by the run from the state after that value, with the frames of the enclosing containers untouched |
| `ReaderEquivalence.NextElementSimulation` | src/cits-message-quality/src/lib/rapidjson/reader.h:808-853 | After an element, comma, trailing comma, closing bracket and misfit lead the machine to exactly what the loop of ParseArray does |
| `ReaderEquivalence.MembersSimulation` | src/cits-message-quality/src/lib/rapidjson/reader.h:740-805 | From a name on, the machine's states for name, colon, value and delimiter do exactly what the loop of ParseObject does, error codes included |
| `TextReading.AcceptsExactlyTheGrammar` | src/cits-message-quality/src/lib/rapidjson/reader.h:559-592 | Both parsers accept a text if and only if it is one of RFC 8259 (with trailing commas where the flag allows them, ended by a NUL) in which no number is too big, whatever blanks stand around its tokens; and then they fire exactly the events that its bytes stand for |
| `TextReading.TextIsRead` | src/cits-message-quality/src/lib/rapidjson/reader.h:740-853 | Every text of the grammar is read to its end as the events it stands for, counts included, or fails with NumberTooBig, exactly if a number in it is too big |
| `TextReading.TextIsThere` | src/cits-message-quality/src/lib/rapidjson/reader.h:740-853 | What is read is a text of the grammar: nothing else is accepted |
| `TextReading.BlankIsSkipped` | src/cits-message-quality/src/lib/rapidjson/reader.h:266-273 | Any run of the bytes 0x20, 0x09, 0x0A and 0x0D is skipped, to its end |
| `TextReading.NameIsRead` | src/cits-message-quality/src/lib/rapidjson/reader.h:856-893 | null, true and false are read exactly if their letters stand there |
| `TreeReading.TextBuildsTree` | src/cits-message-quality/src/lib/rapidjson/document.h:2820-2860 | A document fed by either parser with a text of the grammar is left with exactly the tree that the text denotes, elements and members in order, repeated names kept |
| `Errors.ErrorsAreTrue` | src/cits-message-quality/src/lib/rapidjson/reader.h:559-592 | Whatever text fails, in either parser, the code says in bytes what stands at the offset: the missing comma, colon or name, the broken name, the bad escape or surrogate, the missing digit, the number that is too big, or a second root behind a complete text |
| `Reader.GenericReader.Parse` | src/cits-message-quality/src/lib/rapidjson/reader.h:559-592 | Recursive descent over a stream: the handler's events, the count of each container, the error code and offset are those of the grammar's outcome, in place or not; the stack ends empty and, unless parsing is in place, the buffer is unchanged |
| `Reader.GenericReader.IterativeParse` | src/cits-message-quality/src/lib/rapidjson/reader.h:2192-2224 | The loop over Tokenize, Predict and Transit computes the run of the pushdown machine, on a byte stack that it shares with string decoding and leaves empty |
| `Reader.GenericReader.Transit` | src/cits-message-quality/src/lib/rapidjson/reader.h:2011-2160 | One turn: the byte stack, the cursor, the events and the state become those of the machine's next configuration, or the error is the machine's, its code possibly left to HandleError |
| `Reader.GenericReader.EnterContainer` | src/cits-message-quality/src/lib/rapidjson/reader.h:2018-2044 | Pushing the state to resume and a zero count as bytes is pushing one frame of the machine |
| `Reader.GenericReader.LeaveContainer` | src/cits-message-quality/src/lib/rapidjson/reader.h:2076-2138 | Popping the two pushed words gives back the state to resume and the count, which is raised by the last element only where no comma has done so |
| `Reader.StackBytesPop` | src/cits-message-quality/src/lib/rapidjson/reader.h:2084-2090 | The byte stack determines its frames: its top four bytes are the last count, the four below them the state to resume |
| `Reader.SizeRoundTrip` | src/cits-message-quality/src/lib/rapidjson/reader.h:2028-2030 | A 32-bit count read back from its bytes is the count that was pushed |
| `Reader.GenericReader.ParseString` | src/cits-message-quality/src/lib/rapidjson/reader.h:959-988 | A string or name is delivered with the bytes that the grammar decodes; an error has the grammar's code and offset; the stack is as before on success; the buffer is unchanged unless parsing is in place |
| `Reader.GenericReader.ParseStringInPlace` | src/cits-message-quality/src/lib/rapidjson/reader.h:963-970 | Decoding into the buffer that is being read delivers the same bytes as decoding to the stack, and leaves every slice delivered earlier with the bytes it had |
| `Reader.GenericReader.ParseStringToStream` | src/cits-message-quality/src/lib/rapidjson/reader.h:991-1068 | Written bytes and NUL are exactly the decoded string; in place, the write cursor never passes the read cursor and the unread text is unchanged |
| `Reader.GenericReader.ParseHex4` | src/cits-message-quality/src/lib/rapidjson/reader.h:906-923 | The code point is the value of four hexadecimal digits; anything else is an error at the escape |
| `Reader.GenericReader.ParseCodePoint` | src/cits-message-quality/src/lib/rapidjson/reader.h:1022-1042 | A surrogate pair becomes its code point; a lone or mismatched surrogate is the error the grammar names |
| `Streams.Stream.Put` | src/cits-message-quality/src/lib/rapidjson/stream.h:188-211 | A write behind the read cursor changes one byte of the buffer and nothing that is still to be read |
| `Streams.ResolveUnchanged` | src/cits-message-quality/src/lib/rapidjson/stream.h:188-211 | Events whose slices end before a position mean the same after any write at or behind it |
| `StringReading.StringExactly` | src/cits-message-quality/src/lib/rapidjson/reader.h:991-1068 | A text begins with a string exactly if it begins with one of section 7 of RFC 8259: plain bytes, the eight short escapes, four hexadecimal digits of either case, or a surrogate pair; and it is decoded to what that stands for |
| `StringReading.StringIsRead` | src/cits-message-quality/src/lib/rapidjson/reader.h:991-1068 | Every spelling of a string is read to its closing quotation mark, to the bytes it stands for |
| `NumberReading.NumberExactly` | src/cits-message-quality/src/lib/rapidjson/reader.h:1483-1680 | A number, or one that is too big, is found exactly where one of section 6 of RFC 8259 stands that the next byte does not continue; it is an integer exactly if it has neither fraction nor exponent and 64 bits hold it, and too big exactly if its exponent exceeds 308 by more than its places |
| `NumberReading.CountedPlaces` | src/cits-message-quality/src/lib/rapidjson/reader.h:1590-1630 | The fraction digits that the two loops count have a closed form: those among the first eighteen digits, or, behind a zero, the leading zeros and seventeen more |
| `Reader.GenericReader.ParseNumber` | src/cits-message-quality/src/lib/rapidjson/reader.h:1468-1750 | The event is the one that the grammar's numeral determines: whole numbers of 64 bits exactly, as a 32-bit event whenever they fit one, everything else through the conversion to double |
| `Reader.GenericReader.ReadNumber` | src/cits-message-quality/src/lib/rapidjson/reader.h:1483-1680 | Integer part, fraction and exponent are scanned to the end of the literal, or the error is the grammar's; a whole number is delivered with its exact value and flagged 64-bit exactly when 32 bits do not hold it |
| `Reader.GenericReader.ParseIntegerPart` | src/cits-message-quality/src/lib/rapidjson/reader.h:1486-1575 | The integer in 32 and then 64 bits is the literal's value; the switch to double happens exactly when the value leaves [-2^63, 2^64-1] |
| `Reader.GenericReader.ReadSignificand` | src/cits-message-quality/src/lib/rapidjson/reader.h:1486-1630 | A literal counts as whole exactly if it has no point and fits 64 bits; the decimal exponent of the fraction is the number of digits that still count |
| `Reader.GenericReader.ParseExponent` | src/cits-message-quality/src/lib/rapidjson/reader.h:1632-1680 | A positive exponent is exact or, above 308 - expFrac, an error; a negative one is the number at which the loop stops growing; for every expFrac from -2147483549 on, exp + expFrac stays within [-2^31, 308] |
| `Reader.GenericReader.ParseNegativeExponent` | src/cits-message-quality/src/lib/rapidjson/reader.h:1647-1665 | The result is minus the number at which the loop stops, for every expFrac, and every digit is consumed |
| `Reader.GenericReader.ParsePositiveExponent` | src/cits-message-quality/src/lib/rapidjson/reader.h:1666-1673 | The exponent is exact, or exceeds 308 - expFrac and is an error at the start of the number; no number beyond the one at which the loop stops is computed |
| `Exponents.NegativeExponentsFitExactly` | src/cits-message-quality/src/lib/rapidjson/reader.h:1647-1665 | Whatever digits follow, neither the negative exponent nor its sum with expFrac leaves 32 bits, if and only if expFrac >= -2147483549; one less, and the exponent 99 overflows |
| `Exponents.PositiveExponentsFitExactly` | src/cits-message-quality/src/lib/rapidjson/reader.h:1666-1673 | Whatever digits follow, the positive exponent stays within 32 bits if and only if expFrac >= -214748055 |
| `Exponents.NegativeExponentIsCut` | src/cits-message-quality/src/lib/rapidjson/reader.h:1647-1665 | A negative exponent is the number written or a smaller one that exceeds (expFrac + 2147483639) / 10 |
| `Reader.NegationIsExact` | src/cits-message-quality/src/lib/rapidjson/reader.h:1731-1743 | Two's complement negation of a magnitude up to 2^31 or 2^63 is exact, the lowest integer included |
| `Document.ConstructorsAgree` | src/cits-message-quality/src/lib/rapidjson/document.h:792-828 | Whichever integer constructor a number comes through, its bits are the same and its flags are those of exactly the integer types that can hold it |
| `Document.FlagMasks` | src/cits-message-quality/src/lib/rapidjson/document.h:798-828 | The masks that the constructors apply are zero exactly for the integers below 2^31, 2^32 and 2^63 |
| `Document.ConstructUint` | src/cits-message-quality/src/lib/rapidjson/document.h:798-801 | The constructor with its mask gives an unsigned the flags of the types that hold it |
| `Document.ConstructInt64` | src/cits-message-quality/src/lib/rapidjson/document.h:804-816 | The constructor with its masks gives an int64_t the bits and flags that depend on the integer alone |
| `Document.ConstructUint64` | src/cits-message-quality/src/lib/rapidjson/document.h:819-828 | And so does the one for uint64_t |
| `Document.IntegerValueIsConstructed` | src/cits-message-quality/src/lib/rapidjson/document.h:792-828 | A number value with the right flags is what the constructors make of the integer it denotes |
| `Document.EqualityIsOfBits` | src/cits-message-quality/src/lib/rapidjson/document.h:1052-1059 | Comparison by raw bits says equal exactly if the integers are equal or differ by 2^64; -1 and 2^64-1 are such a pair |
| `Document.NumberEventIsExact` | src/cits-message-quality/src/lib/rapidjson/document.h:1978-1984 | Accept fires the number itself, in the narrowest type, signed before unsigned |
| `Document.EventsBuildValue` | src/cits-message-quality/src/lib/rapidjson/document.h:2820-2860 | The events of any tree that a document can hold, doubles included, from Accept or from a parser, build that tree on top of the builder's stack and leave the stack below alone |
| `Document.Builder.Notify` | src/cits-message-quality/src/lib/rapidjson/document.h:2820-2860 | Each handler method makes the stack that the specification says; EndObject and EndArray take their members off it in order |
| `Writer.WriterPrints` | src/cits-message-quality/src/lib/rapidjson/document.h:1948-1985 | Wherever a value may stand, its events make the writer print the value's text with the right separator, doubles as dtoa lays them out, and no assertion of the writer trips |
| `Writer.PrintsExactlyFinite` | src/cits-message-quality/src/lib/rapidjson/writer.h:349-375 | Of the trees that a document can hold, the writer prints those whose doubles are finite, and no other |
| `Spelling.PrintIsJson` | src/cits-message-quality/src/lib/rapidjson/writer.h:182-252 | What Print makes of any tree that a document can hold is a text of the grammar, byte for byte and without blanks |
| `WriterText.CompleteIsJson` | src/cits-message-quality/src/lib/rapidjson/writer.h:182-252 | Whatever events the writer takes, not only those of a tree: once it is complete, its text is one JSON text of the grammar |
| `Writer.Writer.Notify` | src/cits-message-quality/src/lib/rapidjson/writer.h:182-252 | Each event, doubles included, changes output, level stack and root flag as the specification says |
| `Writer.Writer.Prefix` | src/cits-message-quality/src/lib/rapidjson/writer.h:473-491 | Comma and colon alternate with the count of the level, and the count goes up by one |
| `Writer.Writer.WriteString` | src/cits-message-quality/src/lib/rapidjson/writer.h:377-449 | The output grows by the quoted string with every byte escaped as the table says |
| `Spelling.EscapeIsShortest` | src/cits-message-quality/src/lib/rapidjson/writer.h:377-449 | No spelling of a byte that the grammar knows is shorter than the one written; one as long differs only in the case of a digit, and the writer's is upper-case |
| `Spelling.StringIsSpelled` | src/cits-message-quality/src/lib/rapidjson/writer.h:377-449 | A written string is a string of the grammar that stands for the bytes written, whatever they are |
| `Spelling.IntegerIsSpelled` | src/cits-message-quality/src/lib/rapidjson/reader.h:1483-1575 | Every integer of 64 bits is printed as a number of the grammar that stands for the event that carries it |
| `Writer.Writer.WriteDouble` | src/cits-message-quality/src/lib/rapidjson/writer.h:349-375 | The output grows by the sign and the digits laid out in the buffer |
| `Doubles.FormatMagnitude` | src/cits-message-quality/src/lib/rapidjson/internal/dtoa.h:220-240 | Zero and the digits that Grisu2 yields are laid out within 24 bytes, to the text that the specification gives |
| `Spelling.DoubleIsRead` | src/cits-message-quality/src/lib/rapidjson/reader.h:1483-1680 | Wherever the text of a finite double stands, sign included, ParseNumber reads it to its end as a number for a double |
| `Doubles.DoubleDenotes` | src/cits-message-quality/src/lib/rapidjson/internal/dtoa.h:220-240 | For every 64-bit pattern: the text begins with a minus exactly if bit 63 is set, and what follows denotes the digits that Grisu2 yields for the other bits, or zero for the two zeros |
| `Doubles.FinitePattern` | src/cits-message-quality/src/lib/rapidjson/internal/ieee754.h:43 | A 64-bit pattern is finite exactly if it is, without bit 63, below 0x7FF0000000000000 |
| `Doubles.DoubleAlphabet` | src/cits-message-quality/src/lib/rapidjson/internal/dtoa.h:220-240 | The text of a double holds digits, a point, minus signs and an e only, and begins with a digit or a minus |
| `RoundTrip.PrintThenParse` | src/cits-message-quality/src/lib/rapidjson/writer.h:182-252 | For every tree with finite doubles, whatever its nesting, string bytes and duplicate names: Accept prints it and the writer is complete; both parsers read the text to its end and the document is left with exactly that one tree, member order and number flags included and its doubles as their texts are read; or both fail with NumberTooBig, exactly if the text of some double overflows |
| `RoundTrip.RoundTrip` | src/cits-message-quality/src/lib/rapidjson/writer.h:182-252 | Every such tree comes back from its text if and only if the conversion of literals undoes the printing of each of its doubles |
| `RoundTrip.RereadIs` | src/cits-message-quality/src/lib/rapidjson/document.h:2820-2860 | What a tree is read back as is a tree, and the same one exactly if each double is read back |
| `RoundTrip.WithoutDoubles` | src/cits-message-quality/src/lib/rapidjson/writer.h:182-252 | Every tree without doubles therefore comes back, whatever the conversions are |
| `RoundTrip.CloneRebuilds` | src/cits-message-quality/src/lib/rapidjson/document.h:1948-1985 | Accept fed straight into a document copies every tree, doubles bit for bit |
| `RoundTrip.PrintIsInjective` | src/cits-message-quality/src/lib/rapidjson/writer.h:182-252 | Two trees with the same text, whose doubles some conversion gives back, are the same tree |
| `PrettyWriter.PrettyTextStripsToText` | src/cits-message-quality/src/lib/rapidjson/prettywriter.h:95-179 | For every balanced event sequence of one root value, doubles included, and every format, the pretty writer takes what the writer takes, both end complete, and the pretty text without whitespace outside strings is the plain text |
| `PrettyWriter.PrettyPrintStripsToPrint` | src/cits-message-quality/src/lib/rapidjson/prettywriter.h:208-255 | In particular the pretty text of every tree with finite doubles strips to its plain text |
| `PrettyLayout.PrettyTextIsFormatted` | src/cits-message-quality/src/lib/rapidjson/prettywriter.h:95-250 | For every event sequence that the writer takes and every format, the pretty text is the plain text with gaps between its tokens that the bytes on either side and the open brackets decide: a space behind a colon, one line per element and closing bracket, indented by depth |
| `PrettyLayout.PrettyPrintIsFormatted` | src/cits-message-quality/src/lib/rapidjson/prettywriter.h:208-255 | In particular for every tree with finite doubles |
| `PrettyWriter.LevelsAreDepth` | src/cits-message-quality/src/lib/rapidjson/prettywriter.h:123-179 | The level stack is as deep as the events are nested |
| `PrettyWriter.PrettyWriter.PrettyPrefix` | src/cits-message-quality/src/lib/rapidjson/prettywriter.h:208-250 | Separator, line break and indentation before a value are those of its place, and the count of its level goes up by one |
| `PrettyWriter.PrettyWriter.EndContainer` | src/cits-message-quality/src/lib/rapidjson/prettywriter.h:137-179 | The closing bracket stands on a line of its own, indented like its container, exactly if the container is not empty and not a single-line array |
| `PrettyWriter.StringStrips` | src/cits-message-quality/src/lib/rapidjson/prettywriter.h:112-116 | Stripping whitespace never touches the inside of a string, whatever its bytes |
| `DigitGen.DigitGen` | src/cits-message-quality/src/lib/rapidjson/internal/dtoa.h:60-114 | Both loops end, nothing overflows 64 bits, and at most 21 digits, from 0 to 9 and without a leading zero, denote the shortest decimal of the interval and, of that length, one as close to W as any; the exponent moves by -19 to 8 |
| `DigitGen.GrisuRound` | src/cits-message-quality/src/lib/rapidjson/internal/dtoa.h:35-42 | Lowering the last digit ends at a step within delta that is as near to the wanted value as any step within delta, and the digit stays a digit |
| `DigitGen.CountDecimalDigit32` | src/cits-message-quality/src/lib/rapidjson/internal/dtoa.h:44-58 | For every 32-bit number: the count of decimal digits brackets it between powers of ten; one for zero, nine from 10^9 on |
| `DigitGen.FractionalDigits` | src/cits-message-quality/src/lib/rapidjson/internal/dtoa.h:98-113 | At most nineteen fractional digits are taken, at most 21 digits in all, and the product 10 * p2 never leaves 64 bits |
| `DigitGen.NearestMultiple` | src/cits-message-quality/src/lib/rapidjson/internal/dtoa.h:35-42 | If the steps taken back are nearest among steps, the number printed is nearest among all multiples in the interval |
| `Layout.Prettify` | src/cits-message-quality/src/lib/rapidjson/internal/dtoa.h:154-218 | Whatever overlaps in the moves, the buffer ends up holding the text of the layout, in at most 24 characters |
| `Layout.PrettyDenotes` | src/cits-message-quality/src/lib/rapidjson/internal/dtoa.h:154-218 | Every layout denotes exactly digits * 10^k; the ones without an exponent denote it cut off behind maxDecimalPlaces places |
| `Layout.PrettyForm` | src/cits-message-quality/src/lib/rapidjson/internal/dtoa.h:154-218 | The exponent is written exactly for numbers from 10^21 on, and for those below 10^-6 that are not cut off to zero |
| `Layout.PrettyLength` | src/cits-message-quality/src/lib/rapidjson/internal/dtoa.h:154-218 | Seventeen digits with the exponents of doubles take 24 characters at most, so that with a sign they fit the 25 of the writer's buffer |
| `Spelling.PrettyIsRead` | src/cits-message-quality/src/lib/rapidjson/reader.h:1483-1680 | Wherever the text of a layout stands, after a minus or without, it is a number of the grammar, read to its end as a double |
| `Layout.WriteExponent` | src/cits-message-quality/src/lib/rapidjson/internal/dtoa.h:130-152 | An exponent of up to three digits is written in decimal without leading zeros |
| `Layout.LastDigit` | src/cits-message-quality/src/lib/rapidjson/internal/dtoa.h:168-176 | Trailing zeros are left out, but one digit remains |
| `DiyFp.Multiply` | src/cits-message-quality/src/lib/rapidjson/internal/diyfp.h:91-102 | The four-part product overflows nowhere and is the full product divided by 2^64, to the nearest |
| `DiyFp.MultiplyWide` | src/cits-message-quality/src/lib/rapidjson/internal/diyfp.h:82-89 | The 128-bit path gives the same result |
| `DiyFp.ProductError` | src/cits-message-quality/src/lib/rapidjson/internal/diyfp.h:75-104 | The product errs by half a unit at most |
| `DiyFp.Normalize` | src/cits-message-quality/src/lib/rapidjson/internal/diyfp.h:106-109 | The number is unchanged and its top bit is set |
| `DiyFp.NormalizeBoundary` | src/cits-message-quality/src/lib/rapidjson/internal/diyfp.h:111-120 | The loop ends, for a boundary of a double, with the number unchanged and the top bit set |
| `DiyFp.NormalizedBoundaries` | src/cits-message-quality/src/lib/rapidjson/internal/diyfp.h:122-129 | Both boundaries have one exponent, no shift loses a bit, and they are the odd multiples of half or a quarter unit that the source intends |
| `DiyFp.BoundariesAreHalfWay` | src/cits-message-quality/src/lib/rapidjson/internal/diyfp.h:122-129 | For the bits of every positive finite double, the upper boundary is exactly half way to the next double, and the lower one exactly half way to the previous double if and only if the double is not the smallest normal one |
| `BigInteger.MulAdd64` | src/cits-message-quality/src/lib/rapidjson/internal/biginteger.h:256-267 | With 128-bit arithmetic, low and high word are exactly a * b + k |
| `BigInteger.MulAdd64ByParts` | src/cits-message-quality/src/lib/rapidjson/internal/biginteger.h:268-284 | The portable branch: four products of halves, sums modulo 2^64, the carry of the middle column and the one of k found by comparison; low and high word are exactly a * b + k |
| `BigInteger.ParseUint64` | src/cits-message-quality/src/lib/rapidjson/internal/biginteger.h:246-253 | Up to nineteen digits are read without overflow, to their exact value |
| `BigInteger.BigInteger.AddWord` | src/cits-message-quality/src/lib/rapidjson/internal/biginteger.h:75-90 | The value grows by exactly u, no leading zero limb appears |
| `BigInteger.BigInteger.MultiplyWord` | src/cits-message-quality/src/lib/rapidjson/internal/biginteger.h:92-108 | The value is multiplied by exactly u |
| `BigInteger.BigInteger.MultiplyHalfWord` | src/cits-message-quality/src/lib/rapidjson/internal/biginteger.h:110-131 | The same for a 32-bit factor, computed in halves that do not overflow |
| `BigInteger.BigInteger.ShiftLeft` | src/cits-message-quality/src/lib/rapidjson/internal/biginteger.h:133-157 | The in-place shift multiplies by exactly 2^shift, provided the highest limb it writes is within the capacity |
| `BigInteger.ShiftAssertionIsOneShort` | src/cits-message-quality/src/lib/rapidjson/internal/biginteger.h:133-157 | The source's assertion implies that every write is in bounds if and only if the shift is by whole limbs or the assertion holds strictly |
| `BigInteger.BigInteger.MultiplyPow5` | src/cits-message-quality/src/lib/rapidjson/internal/biginteger.h:167-187 | The value is multiplied by exactly 5^exp |
| `BigInteger.BigInteger.FromDecimals` | src/cits-message-quality/src/lib/rapidjson/internal/biginteger.h:45-58 | A string of decimal digits, whatever its leading zeros, becomes exactly its value, without leading zero limb, whenever one limb is free before the last shift |
| `BigInteger.LastStepFitsExactly` | src/cits-message-quality/src/lib/rapidjson/internal/biginteger.h:133-157 | That condition is exact: without it the last shift writes behind the last limb |
| `BigInteger.SmallEnoughFits` | src/cits-message-quality/src/lib/rapidjson/internal/biginteger.h:45-58 | It holds for every string whose value is below 2^(64 * 415) |
| `BigInteger.BigInteger.AppendDecimal64` | src/cits-message-quality/src/lib/rapidjson/internal/biginteger.h:230-238 | Appending up to nineteen digits multiplies by the power of ten and adds them |
| `BigInteger.BigInteger.Compare` | src/cits-message-quality/src/lib/rapidjson/internal/biginteger.h:213-222 | The sign of the result orders the values, in all three cases both ways |
| `BigInteger.BigInteger.Difference` | src/cits-message-quality/src/lib/rapidjson/internal/biginteger.h:191-211 | The result says which operand is smaller; the difference written is exact if and only if no borrow is lost; it has no leading zero limb and the operands are unchanged |
| `BigInteger.NoFullLimbNoLoss` | src/cits-message-quality/src/lib/rapidjson/internal/biginteger.h:199-208 | No borrow is lost if no limb of the smaller operand above its lowest is 2^64-1 |
| `BigInteger.BorrowGetsLost` | src/cits-message-quality/src/lib/rapidjson/internal/biginteger.h:199-208 | Two operands for which a borrow is lost |
| `Limbs.ShiftedValue` | src/cits-message-quality/src/lib/rapidjson/internal/biginteger.h:140-156 | Limbs shifted bit by bit through their neighbours denote the product with the power of two |
| `Limbs.ValueInjective` | src/cits-message-quality/src/lib/rapidjson/internal/biginteger.h:159-165 | Numbers of any lengths without leading zero limbs are equal exactly if their limbs are |
| `Utf8.Decode` | src/cits-message-quality/src/lib/rapidjson/encodings.h:146-176 | The range table and its masks accept exactly the byte sequences of section 4 of RFC 3629, and give their code point and length |
| `Utf8.Validate` | src/cits-message-quality/src/lib/rapidjson/encodings.h:179-202 | Accepts exactly what Decode accepts and copies exactly those bytes |
| `Utf8.Transitions` | src/cits-message-quality/src/lib/rapidjson/encodings.h:204-222 | Each mask on the range table admits exactly the byte range that the standard's grammar names |
| `Utf8.PutCodePoint` | src/cits-message-quality/src/lib/rapidjson/encodings.h:102-121 | The shifts, masks and ors of Encode produce the bytes of section 3 of RFC 3629 |
| `Utf8.EncodingIsWellFormed` | src/cits-message-quality/src/lib/rapidjson/encodings.h:102-121 | Every scalar value's encoding is accepted by the grammar and denotes it, whatever bytes follow |
| `Utf8.WellFormedIsEncoding` | src/cits-message-quality/src/lib/rapidjson/encodings.h:146-176 | What the grammar accepts is the encoding of a scalar value: no overlong form, no surrogate, nothing beyond 10FFFF |
| `Utf8.GrammarIsEncoding` | src/cits-message-quality/src/lib/rapidjson/encodings.h:146-176 | Bytes begin with a character's encoding if and only if the grammar finds that character there |
| `Utf8.DecodeOfEncode` | src/cits-message-quality/src/lib/rapidjson/encodings.h:102-176 | Decoding the encodings of any string of scalar values gives the string |
| `Utf8.EncodeOfDecode` | src/cits-message-quality/src/lib/rapidjson/encodings.h:102-176 | Encoding what well-formed bytes decode to gives the bytes |
| `Utf16.Decode` | src/cits-message-quality/src/lib/rapidjson/encodings.h:307-322 | Accepts a unit that is no surrogate or a high and a low surrogate, nothing else, and gives the code point |
| `Utf16.PutCodePoint` | src/cits-message-quality/src/lib/rapidjson/encodings.h:276-288 | The bit formulas produce the unit or the surrogate pair of RFC 2781 |
| `Utf16.DecodeOfEncode` | src/cits-message-quality/src/lib/rapidjson/encodings.h:276-322 | Decoding the UTF-16 of any string of scalar values gives the string |
| `Utf16.TranscodeToUtf16` | src/cits-message-quality/src/lib/rapidjson/encodings.h:657-667 | One character is transcoded exactly if it is well-formed UTF-8, to its UTF-16 form |
| `Utf16.ThereAndBack` | src/cits-message-quality/src/lib/rapidjson/encodings.h:657-667 | From UTF-8 to UTF-16 and back is the identity on well-formed strings |
| `Utf16.BackAndThere` | src/cits-message-quality/src/lib/rapidjson/encodings.h:657-667 | And so is from UTF-16 to UTF-8 and back |
| `Pointer.GenericPointer.constructor` | src/cits-message-quality/src/lib/rapidjson/pointer.h:918-1048 | Parsing gives the tokens of the text or its error with the offset; one slot per solidus is allocated and each is used, and no write, not even of an invalid character, leaves the name buffer of `length` bytes |
| `PointerGrammar.ParsesExactlyTheGrammar` | src/cits-message-quality/src/lib/rapidjson/pointer.h:918-1048 | A text parses if and only if it is a pointer of RFC 6901 in string form, or a fragment whose characters are unreserved or percent-encoded UTF-8, and then to the names it spells: "~0" a tilde, "~1" a solidus |
| `PointerGrammar.PointerErrorsAreTrue` | src/cits-message-quality/src/lib/rapidjson/pointer.h:918-1048 | Every rejected text has at its offset what its error says |
| `PointerGrammar.DecodingFirstExactly` | src/cits-message-quality/src/lib/rapidjson/pointer.h:958-978 | A fragment names the same tokens as the text that percent-decoding it leaves, which is what section 6 of RFC 6901 evaluates, if and only if no solidus is percent-encoded |
| `PointerGrammar.CodedSolidusIsNotSplit` | src/cits-message-quality/src/lib/rapidjson/pointer.h:958-978 | "#/a%2Fb" is taken for the one name "a/b" |
| `Pointer.GenericPointer.ReadName` | src/cits-message-quality/src/lib/rapidjson/pointer.h:953-1014 | A name is decoded into the buffer, always behind the cursor that reads the source, and earlier names are left alone |
| `Pointer.GenericPointer.DecodeCharacter` | src/cits-message-quality/src/lib/rapidjson/pointer.h:958-978 | A percent-encoded character is accepted exactly if its triplets spell one UTF-8 character |
| `Pointer.GenericPointer.ReadIndex` | src/cits-message-quality/src/lib/rapidjson/pointer.h:1011-1033 | The index is what the 32-bit conversion with its overflow test makes of the name |
| `Pointer.GenericPointer.Stringify` | src/cits-message-quality/src/lib/rapidjson/pointer.h:1056-1088 | Succeeds exactly if every name can be printed in that form, and then gives that text |
| `Pointer.PercentDecodeStream.Take` | src/cits-message-quality/src/lib/rapidjson/pointer.h:1096-1125 | A byte is taken exactly if %XY with two hexadecimal digits stands there; otherwise the stream becomes invalid |
| `PointerRoundTrip.ParsedPointerRoundTrips` | src/cits-message-quality/src/lib/rapidjson/pointer.h:1056-1088 | For every pointer that parses: its string form parses to an equal pointer; its URI fragment form exists if and only if all names are UTF-8, and then parses to an equal pointer too |
| `PointerRoundTrip.StringifyThenParse` | src/cits-message-quality/src/lib/rapidjson/pointer.h:918-1048 | Every pointer whose indices match its names is read back from its text, names and indices alike |
| `PointerRoundTrip.ParseThenStringify` | src/cits-message-quality/src/lib/rapidjson/pointer.h:918-1048 | A text other than a URI fragment that parses is the string form of what it parses to |
| `PointerRoundTrip.TextExists` | src/cits-message-quality/src/lib/rapidjson/pointer.h:1056-1088 | A pointer has a string form always, and a URI fragment form if and only if its names are UTF-8 |
| `PointerSpec.IndexIsIdealExactlyWhen` | src/cits-message-quality/src/lib/rapidjson/pointer.h:1016-1033 | The index is the number written if and only if 32 bits hold it, or some digit makes the wrapped number smaller, or it wraps to the reserved index |
| `PointerSpec.ShortIndexIsIdeal` | src/cits-message-quality/src/lib/rapidjson/pointer.h:1016-1033 | Up to nine digits the index is right |
| `PointerSpec.OverflowGetsLost` | src/cits-message-quality/src/lib/rapidjson/pointer.h:1023-1030 | 10000000000 is taken for the index 1410065408 |
| `PointerSpec.ConvertWraps` | src/cits-message-quality/src/lib/rapidjson/pointer.h:1016-1033 | The loop computes the number modulo 2^32 and gives up exactly if some digit makes that smaller |
| `Trees.Tree.Create` | src/cits-message-quality/src/lib/rapidjson/pointer.h:452-499 | The walk that changes types, pads arrays and adds members on its way makes the tree, the location and the flag of the specification |
| `PointerPlaces.CreateMakes` | src/cits-message-quality/src/lib/rapidjson/pointer.h:452-499 | What Create makes, turn by turn: an index makes an array of a value that is no container and pads an array with nulls; a token that is no index makes an object with that one member of anything but an object; an object keeps its members and gains one at the end; "-" appends |
| `PointerPlaces.SetMakes` | src/cits-message-quality/src/lib/rapidjson/pointer.h:726-733 | Set makes the same and puts its value at the end of the way |
| `PointerPlaces.CreateWhereItLeads` | src/cits-message-quality/src/lib/rapidjson/pointer.h:452-499 | Where the first tokens already lead, Create changes only the value there |
| `Trees.Tree.Get` | src/cits-message-quality/src/lib/rapidjson/pointer.h:595-623 | The location is the one the tokens resolve to; if there is none, the token reported is the first that does not resolve |
| `PointerPlaces.GetExactly` | src/cits-message-quality/src/lib/rapidjson/pointer.h:595-623 | Get finds a place if and only if every token names the child on the way there: the first member of that name, or the element of that index |
| `Trees.Tree.Erase` | src/cits-message-quality/src/lib/rapidjson/pointer.h:827-866 | The value is taken out of its parent, or nothing changes |
| `PointerPlaces.EraseTakesOut` | src/cits-message-quality/src/lib/rapidjson/pointer.h:827-866 | The value that Get finds leaves its parent, whose later children move up by one with their names; on the way down to the parent nothing else changes, beside it nothing at all |
| `PointerPlaces.GraftElsewhere` | src/cits-message-quality/src/lib/rapidjson/pointer.h:452-499 | A value replaced at one place leaves every place that does not lead through it as it is |
| `Trees.Tree.Set` | src/cits-message-quality/src/lib/rapidjson/pointer.h:726-733 | The value is placed where Create leads |
| `PointerTree.ParsedPointerLaws` | src/cits-message-quality/src/lib/rapidjson/pointer.h:452-499 | For every pointer that parses and has no token "-", on every tree: Get finds what Create made; a second Create reports that it exists and changes nothing |
| `PointerTree.GetAfterCreate` | src/cits-message-quality/src/lib/rapidjson/pointer.h:452-499 | Get finds the created node if and only if, in the tree before, no tokens in front of a "-" resolve to an array |
| `PointerTree.CreateAgain` | src/cits-message-quality/src/lib/rapidjson/pointer.h:452-499 | A second Create changes nothing under exactly that condition |
| `PointerTree.CreateReportsExistence` | src/cits-message-quality/src/lib/rapidjson/pointer.h:452-499 | The flag says whether the pointer resolved before; if it did, nothing is changed and the location is the one Get finds; if not, a null is there |
| `PointerTree.CreateKeeps` | src/cits-message-quality/src/lib/rapidjson/pointer.h:452-499 | Unless a filled array meets a token that is no index, every pointer that resolved still does, to the same place, with the same value there unless the new value is at or below it |
| `PointerTree.CreateKeepsExactlyUnlessItDiscards` | src/cits-message-quality/src/lib/rapidjson/pointer.h:463-470 | All pointers that resolved still resolve to the same places if and only if, in the tree before, no tokens in front of one that is no index and not "-" resolve to an array with elements |
| `PointerTree.GetAfterSet` | src/cits-message-quality/src/lib/rapidjson/pointer.h:726-733 | What was set is what is got, under exactly that condition |
| `PointerTree.AppendsOnTheWay` | src/cits-message-quality/src/lib/rapidjson/pointer.h:452-499 | That condition on the tree before is what Create meets on its way through the tree it is changing |
| `PointerTree.SetTwice` | src/cits-message-quality/src/lib/rapidjson/pointer.h:726-733 | Setting twice is setting the last value; setting what is there changes nothing |
| `PointerTree.EraseSucceeds` | src/cits-message-quality/src/lib/rapidjson/pointer.h:827-866 | Erase succeeds if and only if the pointer resolves to something below the root |
| `PointerTree.EraseUndoesCreate` | src/cits-message-quality/src/lib/rapidjson/pointer.h:827-866 | Erase undoes Create if and only if the parent was there and got one child more, at its end |
| `DotSegments.RemoveDotSegments` | src/cits-message-quality/src/lib/rapidjson/uri.h:411-458 | The path is written over itself, never ahead of what is still to be read, and what remains, terminated, is the specified path; the bytes behind it are unchanged |
| `DotSegments.AbsolutePathsAgree` | src/cits-message-quality/src/lib/rapidjson/uri.h:411-458 | On every absolute path the result is that of the two-buffer algorithm in section 5.2.4 of RFC 3986 |
| `DotSegments.PathsAgreeExactlyUnlessStartIsLost` | src/cits-message-quality/src/lib/rapidjson/uri.h:411-458 | On every path, absolute or not, the result is that of the standard if and only if its start is not lost: a count of the segments kept, over the path alone, sees whether a ".." takes back the only one of a relative path and no later ".." finds just a solidus |
| `DotSegments.CountedLoss` | src/cits-message-quality/src/lib/rapidjson/uri.h:411-458 | The count over the path follows the bytes that the loop has written |
| `DotSegments.RelativePathsMayDiffer` | src/cits-message-quality/src/lib/rapidjson/uri.h:424-441 | On the relative path "a/.." it is not: nothing is left where the standard leaves "/" |
| `DotSegments.RemoveIsIdempotent` | src/cits-message-quality/src/lib/rapidjson/uri.h:411-458 | On every path, no "." or ".." segment is left, and doing it again changes nothing |
| `Allocator.MemoryPoolAllocator.Malloc` | src/cits-message-quality/src/lib/rapidjson/allocators.h:321-334 | With 64-bit sizes that wrap: the new block is cut from the head chunk or from a new one; the blocks handed out since the last Clear stay in memory and share no byte if and only if neither the rounding of the size wraps, nor its sum with the used bytes, nor its sum with the header of a new chunk |
| `Allocator.MemoryPoolAllocator.SharedBytes` | src/cits-message-quality/src/lib/rapidjson/allocators.h:321-334 | 64 bytes, then 2^64 - 16, then 8 from a pool of 64: the third block lies inside the first |
| `Allocator.RoundedExactly` | src/cits-message-quality/src/lib/rapidjson/rapidjson.h:307 | Rounding up to a multiple of eight is right up to 2^64 - 8, and gives 0 for every larger size |
| `Allocator.CapacityTestExactly` | src/cits-message-quality/src/lib/rapidjson/allocators.h:327 | The test against the capacity is right if and only if the sum does not wrap; if it does, the test always passes |
| `Allocator.MemoryPoolAllocator.Realloc` | src/cits-message-quality/src/lib/rapidjson/allocators.h:337-368 | Shrinking keeps the block; the last block of the head chunk grows in place; any other is copied to a new block with its bytes; every other block keeps its bytes; and the blocks stay in memory and apart if and only if no rounding and no sum wraps |
| `Allocator.MemoryPoolAllocator.MallocAndMove` | src/cits-message-quality/src/lib/rapidjson/allocators.h:361-368 | The new block differs from the old one and holds its bytes, unless a sum wraps |
| `Allocator.MemoryPoolAllocator.Move` | src/cits-message-quality/src/lib/rapidjson/allocators.h:361-365 | Copying to where no block is gives the bytes and leaves every block as it is |
| `Allocator.MemoryPoolAllocator.AddChunk` | src/cits-message-quality/src/lib/rapidjson/allocators.h:390-402 | A new empty head chunk, or nothing when the base allocator has no memory or is asked for zero bytes; all blocks stay valid unless header and capacity wrap |
| `Allocator.MemoryPoolAllocator.Clear` | src/cits-message-quality/src/lib/rapidjson/allocators.h:277-288 | Only the first chunk is kept, empty, and no block is left |
| `Allocator.MemoryPoolAllocator.Size` | src/cits-message-quality/src/lib/rapidjson/allocators.h:304-310 | The size is the sum of the blocks handed out, modulo 2^64; without wrap it is no more than the capacity |
| `Allocator.MemoryPoolAllocator.MemoryApart` | src/cits-message-quality/src/lib/rapidjson/allocators.h:321-334 | Two different blocks share no byte of memory |
| `Allocator.UsedWithinTotal` | src/cits-message-quality/src/lib/rapidjson/allocators.h:293-310 | What is used is within what there is |
| `MemberIndex.ObjectData.Find` | src/cits-message-quality/src/lib/rapidjson/document.h:2229-2238 | The lookup through the map succeeds if and only if the linear search does, and finds the same member if names are unique |
| `MemberIndex.ObjectData.Add` | src/cits-message-quality/src/lib/rapidjson/document.h:2304-2318 | The member is appended, after growing if need be, and the map has one entry per member that the iterator array points at; all of it within the arrays if and only if they have room or their capacity is below 2863311531 |
| `MemberIndex.GrowsExactlyBelowLimit` | src/cits-message-quality/src/lib/rapidjson/document.h:2306-2307 | The capacity computed in 32 bits exceeds the old one if and only if that is below 2863311531; there it wraps to 1 |
| `MemberIndex.ObjectData.Remove` | src/cits-message-quality/src/lib/rapidjson/document.h:2320-2342 | The last member takes the place of the removed one, in the array, in the iterator array and in the map |
| `MemberIndex.SwappedPlaces` | src/cits-message-quality/src/lib/rapidjson/document.h:2320-2342 | After a removal every other member is there once, name and value, and only the last has moved, to the place of the one removed |
| `MemberIndex.ObjectData.Erase` | src/cits-message-quality/src/lib/rapidjson/document.h:2344-2376 | The range is gone, the members behind it have moved up in order, and every entry has its new position |
| `MemberIndex.ObjectData.Reserve` | src/cits-message-quality/src/lib/rapidjson/document.h:2191-2226 | Members and iterators are copied to larger arrays; the map's size is the number of members to copy |
| `MemberIndex.ObjectData.Clear` | src/cits-message-quality/src/lib/rapidjson/document.h:2240-2250 | No member and no entry is left |
| `MemberIndex.EraseIndexed` | src/cits-message-quality/src/lib/rapidjson/document.h:2344-2376 | Taking out the entries of a range and lowering those behind it gives exactly the index of the remaining members |
| `MemberIndex.RemoveIndexed` | src/cits-message-quality/src/lib/rapidjson/document.h:2320-2342 | Taking out one entry and giving its position to the last gives exactly the index of the swapped members |
| `MemberIndex.AddIndexed` | src/cits-message-quality/src/lib/rapidjson/document.h:2310-2317 | One more entry for one more member keeps the index exact |

## Left out

- Validation of the encoding while parsing, comments, NaN and infinities, escaped apostrophes, numbers as strings: flags of the reader that the model does not have. RawNumber writes a quoted string and is not part of it either.
- The conversion of literals to double: a parameter of the flags, any function from the literal to a double or to an overflow; strtod and the power tables are not part of this model.
- The digits of a double: what Grisu2 yields is a parameter, any function from bits to one to seventeen digits without a leading zero and an exponent in the range of doubles. DigitGen and DiyFp stop where the cached powers of ten begin, which are floating point, so that function is not theirs.
- Handlers that refuse an event, and the incremental IterativeParseNext. The writer does not take NaN and infinities; what it has printed by the time it refuses one is not part of this model.
- SIMD scanning, pointer tagging, the union layout of values, iterators and template traits.
- The template parameter for the stream is a flag of the reader class: in place or not.
- The stack of stack.h is a growable sequence; its four-byte entries are kept as bytes because strings are decoded on top of them.
- The string length counters of 32 bits: strings and names shorter than 2^32 bytes.
- The itoa routines: integers are printed by their decimal specification.
- Addresses: a pointer into a tree is the path of child positions down to it, a pointer into a pool is a chunk and an offset. Aliasing of values is not modelled, in-place change is.
- The order in which the percent-decoding stream is read: up to four triplets are decoded before the validator sees them, where the source decodes each on demand. Neither results nor offsets depend on it.
- The mutable reference count and the sharing of a pool between allocators; the chunk list is a sequence whose first element is the head.
- Parsing and resolving whole URIs, apart from their dot segments: it splits and copies strings.
- UTF-32, byte order marks, and UTF-16 units wider than 16 bits.
- The web services, predictors, Kalman filters and message plumbing elsewhere in the repository.
- Reader.GenericReader.ParseExponent: the loop runs on unbounded integers; the lemmas of Exponents say from which expFrac on that is what 32 bits compute. Below it the wrapped numbers are not modelled.
- DigitGen.DigitGen: at most 21 digits is what its interval allows; that doubles lead to 17 is floating point.
- Pointer.GenericPointer.constructor: texts shorter than 2^32 bytes, since the lengths of names are 32-bit.
- Errors.ErrorsAreTrue: says what stands at the offset of an error, not that the text before it could have been completed.
- TreeReading.TextBuildsTree: containers with fewer than 2^32 elements, since counts have 32 bits.
- WriterText.CompleteIsJson: the text is of the grammar; that it stands for the events, is said of trees only.
- Trees.Tree.Create: tokens whose index is the one their name reads as, which all parsed pointers have; the constructor that takes tokens put together by hand is not part of this model.
- Layout.Prettify: takes at most 17 digits and the exponents of doubles, as its caller hands them over, and at least one decimal place, as dtoa asserts.
- BigInteger.BigInteger.FromDecimals: takes the strings for which no shift writes behind the last limb; the source takes longer ones and writes there.
- BigInteger.BigInteger.ShiftLeft: requires the highest limb written to lie within the capacity, which is more than the source asserts.
- Allocator.MemoryPoolAllocator.Realloc: the caller states the size that it asked for, or less, as the source relies on without checking.
- Allocator.MemoryPoolAllocator.MallocAndMove: where a copy would write behind the memory of a chunk, which takes a sum that wraps, the model does not write; the state is one in which blocks overlap or leave the memory.
- Allocator.MemoryPoolAllocator.constructor: a first chunk whose size and header fit 64 bits, as those of memory that exists do.
- MemberIndex.ObjectData.Find: of several members of one name the map may give any, as the standard library leaves open.
