/** JSON Pointers after RFC 6901, character by character, in both forms of section 5 and section 6: bytes are given by
    their numbers. The parse of pointer.h takes exactly these texts. */
module PointerGrammar {
  import opened Bytes
  import opened JsonGrammar
  import opened PointerSpec
  import ReaderSpec
  import Utf8

  /** A byte that stands for itself, an escaped tilde or solidus, whose tilde a URI fragment may percent-encode, or
      in a URI fragment one UTF-8 character of which every byte is percent-encoded. */
  datatype Letter =
    | Raw(byte: Byte)
    | Escaped(tilde: seq<Byte>, digit: Byte)
    | Coded(digits: seq<Byte>)

  /** The unreserved characters of RFC 3986, section 2.3. */
  predicate IsUnreserved(c: Byte) {
    0x41 <= c <= 0x5A || 0x61 <= c <= 0x7A || 0x30 <= c <= 0x39 || c in {0x2D, 0x2E, 0x5F, 0x7E}
  }

  /** %XY for every two digits. */
  function CodedText(digits: seq<Byte>): seq<Byte> {
    if |digits| < 2 then [] else [0x25, digits[0], digits[1]] + CodedText(digits[2..])
  }

  predicate IsCoded(digits: seq<Byte>) {
    if |digits| < 2 then digits == [] else Hex(digits[0]) >= 0 && Hex(digits[1]) >= 0 && IsCoded(digits[2..])
  }

  function CodedBytes(digits: seq<Byte>): (b: seq<Byte>)
    requires IsCoded(digits)
    ensures |digits| == 2 * |b|
  {
    if digits == [] then [] else [Hex(digits[0]) * 16 + Hex(digits[1])] + CodedBytes(digits[2..])
  }

  predicate LetterForm(fragment: bool, l: Letter) {
    match l
    case Raw(b) => b != 0x2F && b != 0x7E && (fragment ==> IsUnreserved(b))
    case Escaped(tilde, digit) =>
      && (digit == 0x30 || digit == 0x31)
      && (tilde == [0x7E] || (fragment && (tilde == [0x25, 0x37, 0x45] || tilde == [0x25, 0x37, 0x65])))
    case Coded(digits) =>
      && fragment && IsCoded(digits) && digits != [] && CodedBytes(digits) != [0x7E]
      && Utf8.CharLength(CodedBytes(digits)) == |CodedBytes(digits)|
  }

  function LetterText(l: Letter): seq<Byte> {
    match l
    case Raw(b) => [b]
    case Escaped(tilde, digit) => tilde + [digit]
    case Coded(digits) => CodedText(digits)
  }

  /** "~0" is a tilde, "~1" a solidus. */
  function LetterMeaning(l: Letter): seq<Byte> {
    match l
    case Raw(b) => [b]
    case Escaped(_, digit) => if digit == 0x30 then [0x7E] else [0x2F]
    case Coded(digits) => if IsCoded(digits) then CodedBytes(digits) else []
  }

  ghost predicate NameForm(fragment: bool, name: seq<Letter>) {
    forall k :: 0 <= k < |name| ==> LetterForm(fragment, name[k])
  }

  function SpelledName(name: seq<Letter>): seq<Byte> {
    if name == [] then [] else LetterText(name[0]) + SpelledName(name[1..])
  }

  function NameMeaning(name: seq<Letter>): seq<Byte> {
    if name == [] then [] else LetterMeaning(name[0]) + NameMeaning(name[1..])
  }

  ghost predicate NamesForm(fragment: bool, names: seq<seq<Letter>>) {
    forall k :: 0 <= k < |names| ==> NameForm(fragment, names[k])
  }

  /** Every name behind a solidus. */
  function NamesText(names: seq<seq<Letter>>): seq<Byte> {
    if names == [] then [] else [0x2F] + (SpelledName(names[0]) + NamesText(names[1..]))
  }

  function PointerText(fragment: bool, names: seq<seq<Letter>>): seq<Byte> {
    (if fragment then [0x23] else []) + NamesText(names)
  }

  ghost function PointerMeaning(names: seq<seq<Letter>>): seq<Token> {
    if names == [] then []
    else [Token(NameMeaning(names[0]), IndexOf(NameMeaning(names[0])))] + PointerMeaning(names[1..])
  }

  // -----------------------------------------------------------------------------------------------
  // One character
  // -----------------------------------------------------------------------------------------------

  lemma TripletIsRead(t: seq<Byte>, i: nat, a: Byte, b: Byte)
    requires Has(t, i, [0x25, a, b])
    ensures Triplet(t, i) == if Hex(a) >= 0 && Hex(b) >= 0 then ReaderSpec.Some(Hex(a) * 16 + Hex(b)) else ReaderSpec.None
    ensures i + 3 <= |t|
  {
    HasAt(t, i, [0x25, a, b], 0);
    HasAt(t, i, [0x25, a, b], 1);
    HasAt(t, i, [0x25, a, b], 2);
  }

  lemma TripletIsThere(t: seq<Byte>, i: nat)
    requires Triplet(t, i).Some?
    ensures i + 3 <= |t| && Has(t, i, [0x25, t[i + 1], t[i + 2]]) && Hex(t[i + 1]) >= 0 && Hex(t[i + 2]) >= 0
    ensures Triplet(t, i).value == Hex(t[i + 1]) * 16 + Hex(t[i + 2])
  {
    assert t[i..i + 3] == [0x25, t[i + 1], t[i + 2]];
  }

  lemma {:induction false} CodedIsRead(t: seq<Byte>, i: nat, digits: seq<Byte>, limit: nat)
    requires IsCoded(digits) && Has(t, i, CodedText(digits)) && |CodedBytes(digits)| <= limit
    ensures CodedBytes(digits) <= Triplets(t, i, limit) && |CodedText(digits)| == 3 * |CodedBytes(digits)|
    decreases limit
  {
    hide Has, Triplet;
    if digits != [] {
      HasParts(t, i, [0x25, digits[0], digits[1]], CodedText(digits[2..]));
      TripletIsRead(t, i, digits[0], digits[1]);
      CodedIsRead(t, i + 3, digits[2..], limit - 1);
      var first := Hex(digits[0]) * 16 + Hex(digits[1]);
      assert CodedBytes(digits) == [first] + CodedBytes(digits[2..]);
    }
  }

  /** The digits of the first n triplets. */
  lemma {:induction false} CodedIsThere(t: seq<Byte>, i: nat, n: nat, limit: nat) returns (digits: seq<Byte>)
    requires n <= |Triplets(t, i, limit)|
    ensures IsCoded(digits) && CodedBytes(digits) == Triplets(t, i, limit)[..n]
    ensures i <= |t| ==> Has(t, i, CodedText(digits))
    decreases n
  {
    hide Has, Triplet;
    if n == 0 {
      digits := [];
      if i <= |t| {
        HasNothing(t, i);
      }
    } else {
      TripletIsThere(t, i);
      var rest := CodedIsThere(t, i + 3, n - 1, limit - 1);
      digits := [t[i + 1], t[i + 2]] + rest;
      assert digits[2..] == rest;
      HasBoth(t, i, [0x25, t[i + 1], t[i + 2]], CodedText(rest));
      assert Triplets(t, i, limit)[1..] == Triplets(t, i + 3, limit - 1);
    }
  }

  /** The first bytes of a longer text are a character if they are one alone. */
  lemma CharacterInFront(s: seq<Byte>, u: seq<Byte>)
    requires s != [] && Utf8.CharLength(s) == |s| && s <= u
    ensures Utf8.CharLength(u) == |s| <= 4
  {
    assert forall k :: 0 <= k < |s| ==> u[k] == s[k];
  }

  lemma CharacterAlone(u: seq<Byte>)
    ensures Utf8.CharLength(u[..Utf8.CharLength(u)]) == Utf8.CharLength(u)
  {
    var s := u[..Utf8.CharLength(u)];
    assert forall k :: 0 <= k < |s| ==> u[k] == s[k];
  }

  lemma CodedLetterIsRead(t: seq<Byte>, i: nat, digits: seq<Byte>)
    requires LetterForm(true, Coded(digits)) && Has(t, i, CodedText(digits))
    ensures i < |t| && t[i] == 0x25
    ensures NextPiece(t, i, true) == Piece(CodedBytes(digits), i + |CodedText(digits)|)
  {
    hide Utf8.CharLength, Triplets;
    var bytes := CodedBytes(digits);
    var all := Triplets(t, i, 4);
    HasAt(t, i, CodedText(digits), 0);
    CharacterInFront(bytes, bytes);
    CodedIsRead(t, i, digits, 4);
    CharacterInFront(bytes, all);
    assert all[..|bytes|] == bytes;
    if |bytes| == 1 {
      assert bytes == [bytes[0]];
    }
  }

  lemma EscapedIsRead(t: seq<Byte>, i: nat, fragment: bool, tilde: seq<Byte>, digit: Byte)
    requires LetterForm(fragment, Escaped(tilde, digit)) && Has(t, i, tilde + [digit])
    ensures i < |t| && t[i] != 0x2F
    ensures NextPiece(t, i, fragment) == Piece(LetterMeaning(Escaped(tilde, digit)), i + |tilde| + 1)
  {
    HasParts(t, i, tilde, [digit]);
    HasAt(t, i, tilde, 0);
    HasAt(t, i + |tilde|, [digit], 0);
    if tilde != [0x7E] {
      TripletIsRead(t, i, tilde[1], tilde[2]);
      assert Triplets(t, i + 3, 3) == [];
      assert Triplets(t, i, 4) == [0x7E];
    }
  }

  lemma LetterIsRead(t: seq<Byte>, i: nat, fragment: bool, l: Letter)
    requires LetterForm(fragment, l) && Has(t, i, LetterText(l))
    ensures i < |t| && t[i] != 0x2F && i + |LetterText(l)| <= |t|
    ensures NextPiece(t, i, fragment) == Piece(LetterMeaning(l), i + |LetterText(l)|)
  {
    hide NextPiece, CodedText;
    HasIs(t, i, LetterText(l));
    match l
    case Raw(b) => RawIsRead(t, i, fragment, b);
    case Escaped(tilde, digit) => EscapedIsRead(t, i, fragment, tilde, digit);
    case Coded(digits) => CodedLetterIsRead(t, i, digits);
  }

  lemma RawIsRead(t: seq<Byte>, i: nat, fragment: bool, b: Byte)
    requires LetterForm(fragment, Raw(b)) && Has(t, i, [b])
    ensures i < |t| && t[i] == b && NextPiece(t, i, fragment) == Piece([b], i + 1)
  {
    HasAt(t, i, [b], 0);
  }

  lemma LetterIsThere(t: seq<Byte>, i: nat, fragment: bool) returns (l: Letter)
    requires i < |t| && t[i] != 0x2F && NextPiece(t, i, fragment).Piece?
    ensures LetterForm(fragment, l) && Has(t, i, LetterText(l))
  {
    hide Utf8.CharLength, Triplets, Has;
    HasOne(t, i);
    if fragment && t[i] == 0x25 {
      l := CodedLetterIsThere(t, i);
    } else if t[i] == 0x7E {
      l := Escaped([0x7E], t[i + 1]);
      HasOne(t, i + 1);
      HasBoth(t, i, [0x7E], [t[i + 1]]);
    } else {
      l := Raw(t[i]);
    }
  }

  lemma CodedLetterIsThere(t: seq<Byte>, i: nat) returns (l: Letter)
    requires i < |t| && t[i] == 0x25 && NextPiece(t, i, true).Piece?
    ensures LetterForm(true, l) && Has(t, i, LetterText(l))
  {
    hide Utf8.CharLength, Triplets, Has, CodedText, IsCoded, CodedBytes, Hex;
    var all := Triplets(t, i, 4);
    var n := Utf8.CharLength(all);
    var digits := CodedIsThere(t, i, n, 4);
    CharacterAlone(all);
    if n == 1 && all[0] == 0x7E {
      TildeDigits(digits);
      l := Escaped(CodedText(digits), t[i + 3]);
      HasOne(t, i + 3);
      HasBoth(t, i, CodedText(digits), [t[i + 3]]);
    } else {
      l := Coded(digits);
    }
  }

  lemma TildeDigits(digits: seq<Byte>)
    requires IsCoded(digits) && |CodedBytes(digits)| == 1 && CodedBytes(digits)[0] == 0x7E
    ensures CodedText(digits) == [0x25, 0x37, 0x45] || CodedText(digits) == [0x25, 0x37, 0x65]
  {
    assert digits[2..] == [];
  }

  // -----------------------------------------------------------------------------------------------
  // Names and whole pointers
  // -----------------------------------------------------------------------------------------------

  lemma FirstLetter(fragment: bool, name: seq<Letter>)
    requires name != []
    ensures NameForm(fragment, name) <==> LetterForm(fragment, name[0]) && NameForm(fragment, name[1..])
  {
    hide LetterForm;
    assert forall k :: 0 < k < |name| ==> name[k] == name[1..][k - 1];
  }

  lemma {:induction false} NameIsRead(t: seq<Byte>, i: nat, fragment: bool, name: seq<Letter>, before: seq<Byte>)
    requires NameForm(fragment, name) && Has(t, i, SpelledName(name))
    requires var end := i + |SpelledName(name)|; end == |t| || At(t, end) == 0x2F
    ensures i <= |t| && ParseName(t, i, fragment, before) == Name(before + NameMeaning(name), i + |SpelledName(name)|)
    decreases |name|
  {
    hide NextPiece, LetterForm, LetterText, LetterMeaning, Has, NameForm;
    if name == [] {
      assert before + [] == before;
    } else {
      FirstLetter(fragment, name);
      var text := LetterText(name[0]);
      HasParts(t, i, text, SpelledName(name[1..]));
      LetterIsRead(t, i, fragment, name[0]);
      NameIsRead(t, i + |text|, fragment, name[1..], before + LetterMeaning(name[0]));
      Associative(before, LetterMeaning(name[0]), NameMeaning(name[1..]));
    }
  }

  lemma {:induction false} NameIsThere(t: seq<Byte>, i: nat, fragment: bool, before: seq<Byte>) returns (name: seq<Letter>)
    requires i <= |t| && ParseName(t, i, fragment, before).Name?
    ensures NameForm(fragment, name) && Has(t, i, SpelledName(name))
    ensures ParseName(t, i, fragment, before) == Name(before + NameMeaning(name), i + |SpelledName(name)|)
    decreases |t| - i
  {
    hide NextPiece, LetterForm, LetterText, LetterMeaning, Has, NameForm;
    if i == |t| || t[i] == 0x2F {
      name := [];
      NoLetters(fragment);
      HasNothing(t, i);
      assert before + [] == before;
    } else {
      var l := LetterIsThere(t, i, fragment);
      LetterIsRead(t, i, fragment, l);
      var rest := NameIsThere(t, i + |LetterText(l)|, fragment, before + LetterMeaning(l));
      name := [l] + rest;
      assert name[1..] == rest;
      FirstLetter(fragment, name);
      HasBoth(t, i, LetterText(l), SpelledName(rest));
      Associative(before, LetterMeaning(l), NameMeaning(rest));
    }
  }

  lemma NoLetters(fragment: bool)
    ensures NameForm(fragment, []) && NamesForm(fragment, [])
  {
  }

  lemma FirstName(fragment: bool, names: seq<seq<Letter>>)
    requires names != []
    ensures NamesForm(fragment, names) <==> NameForm(fragment, names[0]) && NamesForm(fragment, names[1..])
  {
    hide NameForm;
    assert forall k :: 0 < k < |names| ==> names[k] == names[1..][k - 1];
  }

  lemma NamesBegin(names: seq<seq<Letter>>)
    ensures if names == [] then NamesText(names) == [] else NamesText(names) != [] && NamesText(names)[0] == 0x2F
  {
  }

  lemma FirstNameStands(t: seq<Byte>, i: nat, name: seq<Byte>, rest: seq<Byte>, names: seq<seq<Letter>>)
    requires Has(t, i, [0x2F] + (name + rest)) && rest == NamesText(names) && i + 1 + |name| + |rest| == |t|
    ensures i < |t| && t[i] == 0x2F && Has(t, i + 1, name) && Has(t, i + 1 + |name|, rest)
    ensures i + 1 + |name| == |t| || At(t, i + 1 + |name|) == 0x2F
  {
    hide Has, NamesText;
    HasParts(t, i, [0x2F], name + rest);
    HasAt(t, i, [0x2F], 0);
    HasParts(t, i + 1, name, rest);
    NamesBegin(names);
    if rest != [] {
      HasAt(t, i + 1 + |name|, rest, 0);
    }
  }

  lemma {:induction false} NamesAreRead(t: seq<Byte>, i: nat, fragment: bool, names: seq<seq<Letter>>, before: seq<Token>)
    requires NamesForm(fragment, names) && Has(t, i, NamesText(names)) && i + |NamesText(names)| == |t|
    ensures i == |t| || t[i] == SLASH
    ensures ParseTokens(t, i, fragment, before) == Pointer(before + PointerMeaning(names))
    decreases |names|
  {
    hide ParseName, NameForm, SpelledName, NameMeaning, Has, NamesForm, IndexOf;
    if names == [] {
      assert before + [] == before;
    } else {
      FirstName(fragment, names);
      var name, rest := SpelledName(names[0]), NamesText(names[1..]);
      var end := i + 1 + |name|;
      FirstNameStands(t, i, name, rest, names[1..]);
      NameIsRead(t, i + 1, fragment, names[0], []);
      var token := Token(NameMeaning(names[0]), IndexOf(NameMeaning(names[0])));
      assert [] + NameMeaning(names[0]) == NameMeaning(names[0]);
      NamesAreRead(t, end, fragment, names[1..], before + [token]);
      Associative(before, [token], PointerMeaning(names[1..]));
    }
  }

  lemma {:induction false} NamesAreThere(t: seq<Byte>, i: nat, fragment: bool, before: seq<Token>)
      returns (names: seq<seq<Letter>>)
    requires i <= |t| && (i == |t| || t[i] == SLASH) && ParseTokens(t, i, fragment, before).Pointer?
    ensures NamesForm(fragment, names) && Has(t, i, NamesText(names)) && i + |NamesText(names)| == |t|
    decreases |t| - i
  {
    hide ParseName, NameForm, SpelledName, NameMeaning, Has, NamesForm, IndexOf;
    if i == |t| {
      names := [];
      NoLetters(fragment);
      HasNothing(t, i);
    } else {
      var name := NameIsThere(t, i + 1, fragment, []);
      var end := i + 1 + |SpelledName(name)|;
      var token := Token([] + NameMeaning(name), IndexOf([] + NameMeaning(name)));
      var rest := NamesAreThere(t, end, fragment, before + [token]);
      names := [name] + rest;
      assert names[1..] == rest;
      FirstName(fragment, names);
      HasOne(t, i);
      HasBoth(t, i + 1, SpelledName(name), NamesText(rest));
      HasBoth(t, i, [0x2F], SpelledName(name) + NamesText(rest));
    }
  }

  /** Every text of the grammar, in either form, parses to the names it spells. */
  lemma PointerIsRead(fragment: bool, names: seq<seq<Letter>>)
    requires NamesForm(fragment, names)
    ensures Parse(PointerText(fragment, names)) == Pointer(PointerMeaning(names))
  {
    hide NamesText, NamesForm, PointerMeaning;
    var t, i := PointerText(fragment, names), if fragment then 1 else 0;
    NamesBegin(names);
    assert t[i..] == NamesText(names);
    NamesAreRead(t, i, fragment, names, []);
    assert [] + PointerMeaning(names) == PointerMeaning(names);
  }

  lemma PointerIsThere(t: seq<Byte>) returns (fragment: bool, names: seq<seq<Letter>>)
    requires Parse(t).Pointer?
    ensures NamesForm(fragment, names) && t == PointerText(fragment, names)
  {
    hide NamesText, NamesForm, ParseTokens;
    fragment := At(t, 0) == HASH;
    var i := if fragment then 1 else 0;
    names := NamesAreThere(t, i, fragment, []);
    assert t[i..i + |NamesText(names)|] == NamesText(names);
    assert t == t[..i] + t[i..];
  }

  /** A text is taken exactly if it is one of the grammar, and then for the names that it spells. */
  lemma ParsesExactlyTheGrammar(t: seq<Byte>, tokens: seq<Token>)
    ensures Parse(t) == Pointer(tokens)
       <==> exists fragment, names :: NamesForm(fragment, names) && t == PointerText(fragment, names) && tokens == PointerMeaning(names)
  {
    hide PointerText, NamesForm, PointerMeaning, Parse;
    if Parse(t) == Pointer(tokens) {
      var fragment, names := PointerIsThere(t);
      PointerIsRead(fragment, names);
    }
    forall fragment, names | NamesForm(fragment, names) && t == PointerText(fragment, names) && tokens == PointerMeaning(names)
      ensures Parse(t) == Pointer(tokens)
    {
      PointerIsRead(fragment, names);
    }
  }

  // -----------------------------------------------------------------------------------------------
  // Errors
  // -----------------------------------------------------------------------------------------------

  /** What an error says of the text at its offset. */
  ghost predicate IsPointerError(t: seq<Byte>, fragment: bool, error: PointerError, o: nat) {
    match error
    case TokenMustBeginWithSolidus => o == (if fragment then 1 else 0) && o != |t| && At(t, o) != 0x2F
    case InvalidEscape =>
      && At(t, o) != 0x30 && At(t, o) != 0x31 && 1 <= o <= |t|
      && (t[o - 1] == 0x7E || (fragment && o >= 3 && (t[o - 3..o] == [0x25, 0x37, 0x45] || t[o - 3..o] == [0x25, 0x37, 0x65])))
    case InvalidPercentEncoding =>
      && fragment && At(t, o) == 0x25
      && !exists digits :: Has(t, o, CodedText(digits)) && IsCharacter(digits)
    case CharacterMustPercentEncode => fragment && o < |t| && !IsUnreserved(t[o]) && t[o] != 0x2F && t[o] != 0x25
  }

  /** Hexadecimal digits of one UTF-8 character. */
  ghost predicate IsCharacter(digits: seq<Byte>) {
    IsCoded(digits) && digits != [] && Utf8.CharLength(CodedBytes(digits)) == |CodedBytes(digits)|
  }

  lemma PieceError(t: seq<Byte>, i: nat, fragment: bool)
    requires i < |t| && t[i] != 0x2F && NextPiece(t, i, fragment).BadPiece?
    ensures var r := NextPiece(t, i, fragment); r.offset <= |t| && IsPointerError(t, fragment, r.error, r.offset)
  {
    hide Utf8.CharLength, Triplets, Has, CodedText;
    if fragment && t[i] == 0x25 {
      CodedError(t, i);
    }
  }

  lemma CodedError(t: seq<Byte>, i: nat)
    requires i < |t| && t[i] == 0x25 && NextPiece(t, i, true).BadPiece?
    ensures var r := NextPiece(t, i, true); r.offset <= |t| && IsPointerError(t, true, r.error, r.offset)
  {
    hide Utf8.CharLength, Triplets, Has, CodedText, IsCoded, CodedBytes;
    var all := Triplets(t, i, 4);
    var n := Utf8.CharLength(all);
    if n == 0 {
      forall digits | Has(t, i, CodedText(digits)) && IsCharacter(digits)
        ensures false
      {
        CharacterIsDecoded(t, i, digits);
      }
    } else {
      CharacterAlone(all);
      var digits := CodedIsThere(t, i, 1, 4);
      TildeDigits(digits);
      HasIs(t, i, CodedText(digits));
    }
  }

  lemma CharacterIsDecoded(t: seq<Byte>, i: nat, digits: seq<Byte>)
    requires Has(t, i, CodedText(digits)) && IsCharacter(digits)
    ensures Utf8.CharLength(Triplets(t, i, 4)) > 0
  {
    hide Utf8.CharLength, Triplets;
    CharacterInFront(CodedBytes(digits), CodedBytes(digits));
    CodedIsRead(t, i, digits, 4);
    CharacterInFront(CodedBytes(digits), Triplets(t, i, 4));
  }

  lemma {:induction false} NameError(t: seq<Byte>, i: nat, fragment: bool, before: seq<Byte>)
    requires i <= |t| && ParseName(t, i, fragment, before).BadName?
    ensures var r := ParseName(t, i, fragment, before); r.offset <= |t| && IsPointerError(t, fragment, r.error, r.offset)
    decreases |t| - i
  {
    hide NextPiece, IsPointerError;
    var piece := NextPiece(t, i, fragment);
    if piece.Piece? {
      NameError(t, piece.next, fragment, before + piece.bytes);
    } else {
      PieceError(t, i, fragment);
    }
  }

  lemma {:induction false} TokensError(t: seq<Byte>, i: nat, fragment: bool, before: seq<Token>)
    requires i <= |t| && (i == |t| || t[i] == SLASH) && ParseTokens(t, i, fragment, before).Rejected?
    ensures var r := ParseTokens(t, i, fragment, before); r.offset <= |t| && IsPointerError(t, fragment, r.error, r.offset)
    decreases |t| - i
  {
    hide ParseName, IsPointerError, IndexOf;
    var name := ParseName(t, i + 1, fragment, []);
    if name.Name? {
      TokensError(t, name.end, fragment, before + [Token(name.bytes, IndexOf(name.bytes))]);
    } else {
      NameError(t, i + 1, fragment, []);
    }
  }

  /** A text that is no pointer is rejected with an error that says what stands at its offset. */
  lemma PointerErrorsAreTrue(t: seq<Byte>)
    requires Parse(t).Rejected?
    ensures Parse(t).offset <= |t| && IsPointerError(t, At(t, 0) == 0x23, Parse(t).error, Parse(t).offset)
  {
    hide ParseTokens;
    var fragment := At(t, 0) == HASH;
    var i := if fragment then 1 else 0;
    if i == |t| || At(t, i) == SLASH {
      TokensError(t, i, fragment, []);
    }
  }

  // -----------------------------------------------------------------------------------------------
  // Decoding a fragment first
  // -----------------------------------------------------------------------------------------------

  /** The same letter once the percent-encoding has been undone. */
  function DecodedLetter(l: Letter): seq<Byte> {
    match l
    case Raw(b) => [b]
    case Escaped(_, digit) => [0x7E, digit]
    case Coded(digits) => if IsCoded(digits) then CodedBytes(digits) else []
  }

  function DecodedName(name: seq<Letter>): seq<Byte> {
    if name == [] then [] else DecodedLetter(name[0]) + DecodedName(name[1..])
  }

  /** Section 6 evaluates the text that percent-decoding a fragment leaves. */
  function Decoded(names: seq<seq<Letter>>): seq<Byte> {
    if names == [] then [] else [0x2F] + (DecodedName(names[0]) + Decoded(names[1..]))
  }

  predicate IsCodedSolidus(l: Letter) {
    l.Coded? && IsCoded(l.digits) && CodedBytes(l.digits) == [0x2F]
  }

  ghost predicate NoCodedSolidus(names: seq<seq<Letter>>) {
    forall i, k :: 0 <= i < |names| && 0 <= k < |names[i]| ==> !IsCodedSolidus(names[i][k])
  }

  function Solidi(s: seq<Byte>): nat {
    if s == [] then 0 else (if s[0] == 0x2F then 1 else 0) + Solidi(s[1..])
  }

  lemma {:induction false} SolidiAdd(a: seq<Byte>, b: seq<Byte>)
    ensures Solidi(a + b) == Solidi(a) + Solidi(b)
  {
    if a == [] {
      assert a + b == b;
    } else {
      assert (a + b)[1..] == a[1..] + b;
      SolidiAdd(a[1..], b);
    }
  }

  lemma {:induction false} NoSolidi(s: seq<Byte>)
    requires forall k :: 0 <= k < |s| ==> s[k] != 0x2F
    ensures Solidi(s) == 0
  {
    if s != [] {
      NoSolidi(s[1..]);
    }
  }

  /** A character of several bytes holds no ASCII byte. */
  lemma LongCharacters(s: seq<Byte>)
    requires Utf8.CharLength(s) == |s| > 1
    ensures forall k :: 0 <= k < |s| ==> s[k] >= 0x80
  {
  }

  lemma SolidiOfLetter(l: Letter)
    requires LetterForm(true, l)
    ensures Solidi(DecodedLetter(l)) == if IsCodedSolidus(l) then 1 else 0
  {
    hide Utf8.CharLength;
    var s := DecodedLetter(l);
    if l.Coded? && |s| > 1 {
      LongCharacters(s);
      NoSolidi(s);
    } else if l.Coded? {
      assert s == [s[0]] && s[1..] == [];
    } else if l.Escaped? {
      NoSolidi(s);
    } else {
      NoSolidi(s);
    }
  }

  lemma {:induction false} SolidiOfName(name: seq<Letter>)
    requires NameForm(true, name)
    ensures Solidi(DecodedName(name)) == 0 <==> forall k :: 0 <= k < |name| ==> !IsCodedSolidus(name[k])
  {
    hide LetterForm, DecodedLetter, IsCodedSolidus;
    if name != [] {
      FirstLetter(true, name);
      SolidiAdd(DecodedLetter(name[0]), DecodedName(name[1..]));
      SolidiOfLetter(name[0]);
      SolidiOfName(name[1..]);
      assert forall k :: 0 < k < |name| ==> name[k] == name[1..][k - 1];
    }
  }

  lemma {:induction false} SolidiOfNames(names: seq<seq<Letter>>)
    requires NamesForm(true, names)
    ensures Solidi(Decoded(names)) >= |names|
    ensures Solidi(Decoded(names)) == |names| <==> NoCodedSolidus(names)
  {
    hide NameForm, DecodedName, IsCodedSolidus;
    if names != [] {
      FirstName(true, names);
      var name, rest := DecodedName(names[0]), Decoded(names[1..]);
      SolidiAdd([0x2F], name + rest);
      SolidiAdd(name, rest);
      SolidiOfName(names[0]);
      SolidiOfNames(names[1..]);
      FirstSolidi(names);
    }
  }

  lemma FirstSolidi(names: seq<seq<Letter>>)
    requires names != []
    ensures NoCodedSolidus(names)
       <==> (forall k :: 0 <= k < |names[0]| ==> !IsCodedSolidus(names[0][k])) && NoCodedSolidus(names[1..])
    ensures Solidi([0x2F]) == 1
  {
    hide IsCodedSolidus;
    assert forall i :: 0 < i < |names| ==> names[i] == names[1..][i - 1];
    assert [0x2F][1..] == [];
  }

  /** A decoded letter as letters of the string form. */
  function PlainLetters(l: Letter): seq<Letter> {
    match l
    case Raw(b) => [Raw(b)]
    case Escaped(_, digit) => [Escaped([0x7E], digit)]
    case Coded(digits) => if IsCoded(digits) then RawLetters(CodedBytes(digits)) else []
  }

  function RawLetters(s: seq<Byte>): seq<Letter> {
    if s == [] then [] else [Raw(s[0])] + RawLetters(s[1..])
  }

  function PlainName(name: seq<Letter>): seq<Letter> {
    if name == [] then [] else PlainLetters(name[0]) + PlainName(name[1..])
  }

  function PlainNames(names: seq<seq<Letter>>): seq<seq<Letter>> {
    if names == [] then [] else [PlainName(names[0])] + PlainNames(names[1..])
  }

  lemma {:induction false} RawLettersSpell(s: seq<Byte>)
    requires forall k :: 0 <= k < |s| ==> s[k] != 0x2F && s[k] != 0x7E
    ensures var name := RawLetters(s); NameForm(false, name) && SpelledName(name) == s && NameMeaning(name) == s
  {
    if s != [] {
      RawLettersSpell(s[1..]);
      assert RawLetters(s)[1..] == RawLetters(s[1..]);
      FirstLetter(false, RawLetters(s));
    }
  }

  lemma PlainLettersSpell(l: Letter)
    requires LetterForm(true, l) && !IsCodedSolidus(l)
    ensures var name := PlainLetters(l);
            NameForm(false, name) && SpelledName(name) == DecodedLetter(l) && NameMeaning(name) == LetterMeaning(l)
  {
    hide Utf8.CharLength;
    if l.Coded? {
      var s := CodedBytes(l.digits);
      if |s| > 1 {
        LongCharacters(s);
      } else {
        assert s == [s[0]];
      }
      RawLettersSpell(s);
    } else {
      assert PlainLetters(l)[1..] == [];
    }
  }

  lemma {:induction false} NamesAdd(a: seq<Letter>, b: seq<Letter>)
    ensures SpelledName(a + b) == SpelledName(a) + SpelledName(b)
    ensures NameMeaning(a + b) == NameMeaning(a) + NameMeaning(b)
  {
    if a == [] {
      assert a + b == b;
    } else {
      assert (a + b)[1..] == a[1..] + b;
      NamesAdd(a[1..], b);
    }
  }

  lemma {:induction false} PlainNameSpells(name: seq<Letter>)
    requires NameForm(true, name) && forall k :: 0 <= k < |name| ==> !IsCodedSolidus(name[k])
    ensures var plain := PlainName(name);
            NameForm(false, plain) && SpelledName(plain) == DecodedName(name) && NameMeaning(plain) == NameMeaning(name)
  {
    hide LetterForm, DecodedLetter, IsCodedSolidus, LetterMeaning, LetterText, PlainLetters;
    if name != [] {
      FirstLetter(true, name);
      PlainLettersSpell(name[0]);
      PlainNameSpells(name[1..]);
      NamesAdd(PlainLetters(name[0]), PlainName(name[1..]));
    }
  }

  lemma {:induction false} PlainNamesSpell(names: seq<seq<Letter>>)
    requires NamesForm(true, names) && NoCodedSolidus(names)
    ensures var plain := PlainNames(names);
            && NamesForm(false, plain) && NamesText(plain) == Decoded(names) && PointerMeaning(plain) == PointerMeaning(names)
  {
    hide NameForm, DecodedName, NameMeaning, SpelledName, PlainName, IsCodedSolidus, IndexOf;
    if names != [] {
      FirstName(true, names);
      FirstSolidi(names);
      PlainNameSpells(names[0]);
      PlainNamesSpell(names[1..]);
      assert PlainNames(names)[1..] == PlainNames(names[1..]);
      FirstName(false, PlainNames(names));
    }
  }

  lemma {:induction false} PlainSolidi(names: seq<seq<Letter>>)
    requires NamesForm(false, names)
    ensures Solidi(NamesText(names)) == |names| == |PointerMeaning(names)|
  {
    hide NameForm, SpelledName, NameMeaning, IndexOf;
    if names != [] {
      FirstName(false, names);
      FirstSolidi(names);
      SolidiAdd([0x2F], SpelledName(names[0]) + NamesText(names[1..]));
      SolidiAdd(SpelledName(names[0]), NamesText(names[1..]));
      PlainNameHasNone(names[0]);
      PlainSolidi(names[1..]);
    }
  }

  lemma {:induction false} PlainNameHasNone(name: seq<Letter>)
    requires NameForm(false, name)
    ensures Solidi(SpelledName(name)) == 0
  {
    hide LetterForm, LetterText;
    if name != [] {
      FirstLetter(false, name);
      SolidiAdd(LetterText(name[0]), SpelledName(name[1..]));
      PlainLetterHasNone(name[0]);
      PlainNameHasNone(name[1..]);
    }
  }

  lemma PlainLetterHasNone(l: Letter)
    requires LetterForm(false, l)
    ensures Solidi(LetterText(l)) == 0
  {
    NoSolidi(LetterText(l));
  }

  lemma {:induction false} AsManyTokens(names: seq<seq<Letter>>)
    ensures |PointerMeaning(names)| == |names|
  {
    hide NameMeaning, IndexOf;
    if names != [] {
      AsManyTokens(names[1..]);
    }
  }

  /** Section 6 decodes a fragment and then takes it for a pointer. The parse of pointer.h splits it first. For every
      fragment it takes, the two name the same tokens if and only if no solidus is percent-encoded. */
  lemma DecodingFirstExactly(names: seq<seq<Letter>>)
    requires NamesForm(true, names)
    ensures Parse(PointerText(true, names)) == Pointer(PointerMeaning(names))
    ensures Parse(Decoded(names)) == Pointer(PointerMeaning(names)) <==> NoCodedSolidus(names)
  {
    hide NamesForm, PointerMeaning, Parse, NoCodedSolidus, NamesText, Decoded;
    PointerIsRead(true, names);
    if NoCodedSolidus(names) {
      PlainNamesSpell(names);
      PointerIsRead(false, PlainNames(names));
      assert [] + Decoded(names) == Decoded(names);
    } else if Parse(Decoded(names)) == Pointer(PointerMeaning(names)) {
      var fragment, others := PointerIsThere(Decoded(names));
      PointerIsRead(fragment, others);
      NotAFragment(names, fragment, others);
      PlainSolidi(others);
      AsManyTokens(names);
      SolidiOfNames(names);
    }
  }

  lemma NotAFragment(names: seq<seq<Letter>>, fragment: bool, others: seq<seq<Letter>>)
    requires Decoded(names) == PointerText(fragment, others)
    ensures !fragment && Decoded(names) == NamesText(others)
  {
    NamesBegin(others);
    var t := PointerText(fragment, others);
    assert fragment <==> t != [] && t[0] == 0x23;
  }

  /** "#/a%2Fb" is taken for the one name "a/b"; decoded first it is two names. */
  lemma CodedSolidusIsNotSplit()
    ensures Parse([0x23, 0x2F, 0x61, 0x25, 0x32, 0x46, 0x62]) == Pointer([Token([0x61, 0x2F, 0x62], INVALID_INDEX)])
    ensures Parse([0x2F, 0x61, 0x2F, 0x62]) == Pointer([Token([0x61], INVALID_INDEX), Token([0x62], INVALID_INDEX)])
  {
    hide Parse, IndexOf, SpelledName, NameMeaning, NamesText, PointerMeaning;
    var slash, a, b := Coded([0x32, 0x46]), Raw(0x61), Raw(0x62);
    assert [0x32, 0x46][2..] == [];
    assert CodedText([0x32, 0x46]) == [0x25, 0x32, 0x46] && CodedBytes([0x32, 0x46]) == [0x2F];
    OneLetter(a);
    OneLetter(b);
    TwoLetters(slash, [b]);
    TwoLetters(a, [slash, b]);
    assert [slash] + [b] == [slash, b] && [a] + [slash, b] == [a, slash, b] && [[a]] + [[b]] == [[a], [b]];
    OneName([a, slash, b]);
    OneName([b]);
    TwoNames([a], [[b]]);
    assert PointerText(true, [[a, slash, b]]) == [0x23, 0x2F, 0x61, 0x25, 0x32, 0x46, 0x62];
    assert PointerText(false, [[a], [b]]) == [0x2F, 0x61, 0x2F, 0x62];
    assert NameMeaning([a, slash, b]) == [0x61, 0x2F, 0x62];
    assert PointerMeaning([[a], [b]]) == [Token([0x61], IndexOf([0x61])), Token([0x62], IndexOf([0x62]))];
    PointerIsRead(true, [[a, slash, b]]);
    PointerIsRead(false, [[a], [b]]);
    LettersAreNoIndex();
  }

  lemma OneLetter(l: Letter)
    ensures SpelledName([l]) == LetterText(l) && NameMeaning([l]) == LetterMeaning(l)
  {
    assert [l][1..] == [];
  }

  lemma TwoLetters(l: Letter, rest: seq<Letter>)
    ensures SpelledName([l] + rest) == LetterText(l) + SpelledName(rest)
    ensures NameMeaning([l] + rest) == LetterMeaning(l) + NameMeaning(rest)
  {
    assert ([l] + rest)[1..] == rest;
  }

  lemma OneName(name: seq<Letter>)
    ensures NamesText([name]) == [0x2F] + SpelledName(name)
    ensures PointerMeaning([name]) == [Token(NameMeaning(name), IndexOf(NameMeaning(name)))]
  {
    hide IndexOf;
    assert [name][1..] == [];
  }

  lemma TwoNames(name: seq<Letter>, rest: seq<seq<Letter>>)
    ensures NamesText([name] + rest) == [0x2F] + (SpelledName(name) + NamesText(rest))
    ensures PointerMeaning([name] + rest) == [Token(NameMeaning(name), IndexOf(NameMeaning(name)))] + PointerMeaning(rest)
  {
    hide IndexOf;
    assert ([name] + rest)[1..] == rest;
  }

  lemma LettersAreNoIndex()
    ensures IndexOf([0x61, 0x2F, 0x62]) == IndexOf([0x61]) == IndexOf([0x62]) == INVALID_INDEX
  {
    var long: seq<Byte> := [0x61, 0x2F, 0x62];
    assert !IsDigit(long[0]) && !IsDigit([0x61][0]) && !IsDigit([0x62][0]);
  }
}
