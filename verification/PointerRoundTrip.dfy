/** Writing a JSON Pointer as text and reading it back, and the other way round. */
module PointerRoundTrip {
  import opened Bytes
  import opened PointerSpec
  import ReaderSpec
  import Utf8

  /** The tokens that Parse can make: each index is the one its name reads as. */
  ghost predicate Consistent(tokens: seq<Token>) {
    forall i :: 0 <= i < |tokens| ==> tokens[i].index == IndexOf(tokens[i].name)
  }

  lemma {:induction false} ParsedTokensAreConsistent(t: seq<Byte>, i: nat, uriFragment: bool, tokens: seq<Token>)
    requires i <= |t| && (i == |t| || t[i] == SLASH) && Consistent(tokens)
    ensures var r := ParseTokens(t, i, uriFragment, tokens); r.Pointer? ==> Consistent(r.tokens)
    decreases |t| - i
  {
    hide ParseName, IndexOf;
    if i < |t| {
      var name := ParseName(t, i + 1, uriFragment, []);
      if name.Name? {
        ParsedTokensAreConsistent(t, name.end, uriFragment, tokens + [Token(name.bytes, IndexOf(name.bytes))]);
      }
    }
  }

  // -----------------------------------------------------------------------------------------------
  // From tokens to text and back
  // -----------------------------------------------------------------------------------------------

  /** A percent-encoded character is decoded, whatever follows it. */
  lemma {:induction false} TripletsDecode(t: seq<Byte>, i: nat, s: seq<Byte>, limit: nat)
    requires Has(t, i, PercentEncode(s)) && |s| <= limit
    ensures s <= Triplets(t, i, limit)
    decreases limit
  {
    if s != [] {
      var first: seq<Byte> := [PERCENT, HexDigit(s[0] / 16), HexDigit(s[0] % 16)];
      HasParts(t, i, first, PercentEncode(s[1..]));
      HasAt(t, i, first, 0);
      HasAt(t, i, first, 1);
      HasAt(t, i, first, 2);
      HexDigitsRead(s[0]);
      TripletsDecode(t, i + 3, s[1..], limit - 1);
      assert s == [s[0]] + s[1..];
    }
  }

  /** Only its own bytes decide on the length of a character. */
  lemma CharacterAlone(s: seq<Byte>, n: nat, u: seq<Byte>)
    requires 0 < n == Utf8.CharLength(s) && s[..n] <= u
    ensures Utf8.CharLength(u) == n && u[..n] == s[..n]
  {
    assert u[..n] == s[..n];
    assert forall k :: 0 <= k < n ==> u[k] == u[..n][k] == s[k];
  }

  /** Parsing undoes what stringifying did to one byte or one character of a name. */
  lemma PieceReads(t: seq<Byte>, i: nat, name: seq<Byte>, uriFragment: bool)
    requires name != [] && PieceLength(name, uriFragment) > 0
    requires Has(t, i, PieceText(name[..PieceLength(name, uriFragment)], uriFragment))
    ensures i < |t| && t[i] != SLASH
    ensures var n := PieceLength(name, uriFragment);
            NextPiece(t, i, uriFragment) == Piece(name[..n], i + |PieceText(name[..n], uriFragment)|)
  {
    hide Utf8.CharLength, Triplets;
    var n := PieceLength(name, uriFragment);
    var piece := name[..n];
    var text := PieceText(piece, uriFragment);
    if piece[0] == TILDE || piece[0] == SLASH {
      HasAt(t, i, text, 0);
      HasAt(t, i, text, 1);
      assert piece == [piece[0]];
    } else if uriFragment && NeedPercentEncode(piece[0]) {
      EncodedPieceReads(t, i, name);
    } else {
      HasAt(t, i, text, 0);
      assert piece == [piece[0]];
    }
  }

  lemma EncodedPieceReads(t: seq<Byte>, i: nat, name: seq<Byte>)
    requires name != [] && name[0] != TILDE && name[0] != SLASH && NeedPercentEncode(name[0])
    requires 0 < Utf8.CharLength(name) && Has(t, i, PercentEncode(name[..Utf8.CharLength(name)]))
    ensures i < |t| && t[i] == PERCENT
    ensures var n := Utf8.CharLength(name); NextPiece(t, i, true) == Piece(name[..n], i + 3 * n)
  {
    hide Utf8.CharLength;
    var n := Utf8.CharLength(name);
    var piece := name[..n];
    HasAt(t, i, PercentEncode(piece), 0);
    TripletsDecode(t, i, piece, 4);
    CharacterAlone(name, n, Triplets(t, i, 4));
    if n == 1 {
      assert piece == [piece[0]];
    }
  }

  lemma {:induction false} NameReads(t: seq<Byte>, i: nat, name: seq<Byte>, uriFragment: bool, before: seq<Byte>)
    requires NameText(name, uriFragment).Some? && Has(t, i, NameText(name, uriFragment).value)
    requires var end := i + |NameText(name, uriFragment).value|; end == |t| || t[end] == SLASH
    ensures ParseName(t, i, uriFragment, before) == Name(before + name, i + |NameText(name, uriFragment).value|)
    decreases |name|
  {
    hide PieceText, PieceLength, NextPiece, Has;
    if name == [] {
      assert before + name == before;
    } else {
      var n := PieceLength(name, uriFragment);
      var first, rest := PieceText(name[..n], uriFragment), NameText(name[n..], uriFragment).value;
      HasParts(t, i, first, rest);
      PieceReads(t, i, name, uriFragment);
      NameReads(t, i + |first|, name[n..], uriFragment, before + name[..n]);
      assert before + name[..n] + name[n..] == before + name;
    }
  }

  lemma {:induction false} TokensRead(t: seq<Byte>, i: nat, tokens: seq<Token>, uriFragment: bool, before: seq<Token>)
    requires Consistent(tokens) && TokensText(tokens, uriFragment).Some?
    requires Has(t, i, TokensText(tokens, uriFragment).value) && i + |TokensText(tokens, uriFragment).value| == |t|
    ensures i == |t| || t[i] == SLASH
    ensures ParseTokens(t, i, uriFragment, before) == Pointer(before + tokens)
    decreases |tokens|
  {
    hide NameText, ParseName, Has, IndexOf;
    if tokens == [] {
      assert before + tokens == before;
    } else {
      var first, rest := NameText(tokens[0].name, uriFragment).value, TokensText(tokens[1..], uriFragment).value;
      assert TokensText(tokens, uriFragment).value == [SLASH] + first + rest;
      HasParts(t, i, [SLASH] + first, rest);
      HasParts(t, i, [SLASH], first);
      HasAt(t, i, [SLASH], 0);
      var end := i + 1 + |first|;
      TokensRead(t, end, tokens[1..], uriFragment, before + [tokens[0]]);
      NameReads(t, i + 1, tokens[0].name, uriFragment, []);
      assert [] + tokens[0].name == tokens[0].name;
      assert before + [tokens[0]] + tokens[1..] == before + tokens;
    }
  }

  lemma TextBegins(tokens: seq<Token>, uriFragment: bool)
    ensures TokensText(tokens, uriFragment).Some? ==>
              var text := TokensText(tokens, uriFragment).value; if tokens == [] then text == [] else text != [] && text[0] == SLASH
  {
  }

  /** A pointer's text, in either form, parses back to that very pointer: names, indices and all. */
  lemma StringifyThenParse(tokens: seq<Token>, uriFragment: bool)
    requires Consistent(tokens) && Stringify(tokens, uriFragment).Some?
    ensures Parse(Stringify(tokens, uriFragment).value) == Pointer(tokens)
  {
    hide TokensText, ParseTokens, IndexOf;
    var text := TokensText(tokens, uriFragment).value;
    var t := Stringify(tokens, uriFragment).value;
    TextBegins(tokens, uriFragment);
    var i := if uriFragment then 1 else 0;
    assert t[i..] == text;
    TokensRead(t, i, tokens, uriFragment, []);
    assert [] + tokens == tokens;
  }

  /** One turn of the loop prints one UTF-8 character, whether it has to be encoded or not. */
  lemma PieceIsCharacter(name: seq<Byte>)
    requires name != []
    ensures PieceLength(name, true) == Utf8.CharLength(name)
  {
  }

  lemma {:induction false} NameTextExists(name: seq<Byte>, uriFragment: bool)
    ensures NameText(name, uriFragment).Some? <==> !uriFragment || Utf8.IsUtf8(name)
    decreases |name|
  {
    hide Utf8.CharLength;
    if name != [] {
      if uriFragment {
        PieceIsCharacter(name);
      }
      var n := PieceLength(name, uriFragment);
      if n > 0 {
        NameTextExists(name[n..], uriFragment);
      }
    }
  }

  ghost predicate NamesAreUtf8(tokens: seq<Token>) {
    forall i :: 0 <= i < |tokens| ==> Utf8.IsUtf8(tokens[i].name)
  }

  /** Every pointer has a text, and a URI fragment if and only if all its names are UTF-8. */
  lemma {:induction false} TextExists(tokens: seq<Token>, uriFragment: bool)
    ensures TokensText(tokens, uriFragment).Some? <==> !uriFragment || NamesAreUtf8(tokens)
  {
    hide NameText, Utf8.IsUtf8;
    if tokens != [] {
      NameTextExists(tokens[0].name, uriFragment);
      TextExists(tokens[1..], uriFragment);
      assert NamesAreUtf8(tokens) <==> Utf8.IsUtf8(tokens[0].name) && NamesAreUtf8(tokens[1..]) by {
        assert forall i :: 0 <= i < |tokens| - 1 ==> tokens[1..][i] == tokens[i + 1];
        if Utf8.IsUtf8(tokens[0].name) && NamesAreUtf8(tokens[1..]) {
          forall i | 0 <= i < |tokens|
            ensures Utf8.IsUtf8(tokens[i].name)
          {
            if i > 0 {
              assert tokens[i] == tokens[1..][i - 1];
            }
          }
        }
      }
    }
  }

  /** Whatever text a pointer was parsed from, its string form parses to an equal pointer; its URI fragment
      form exists if and only if its names are UTF-8, and parses to an equal pointer too. */
  lemma ParsedPointerRoundTrips(source: seq<Byte>)
    requires Parse(source).Pointer?
    ensures var tokens := Parse(source).tokens;
            && Stringify(tokens, false).Some?
            && Parse(Stringify(tokens, false).value) == Pointer(tokens)
            && (Stringify(tokens, true).Some? <==> NamesAreUtf8(tokens))
            && (NamesAreUtf8(tokens) ==> Parse(Stringify(tokens, true).value) == Pointer(tokens))
  {
    hide ParseTokens, TokensText, NamesAreUtf8;
    var tokens := Parse(source).tokens;
    var uriFragment := At(source, 0) == HASH;
    ParsedTokensAreConsistent(source, if uriFragment then 1 else 0, uriFragment, []);
    TextExists(tokens, false);
    TextExists(tokens, true);
    StringifyThenParse(tokens, false);
    if NamesAreUtf8(tokens) {
      StringifyThenParse(tokens, true);
    }
  }

  // -----------------------------------------------------------------------------------------------
  // From text to tokens and back
  // -----------------------------------------------------------------------------------------------

  /** Outside a URI fragment a piece is one byte, and printing it gives the source back. */
  lemma PlainPiece(t: seq<Byte>, i: nat)
    requires i < |t| && t[i] != SLASH
    ensures var r := NextPiece(t, i, false);
            r.Piece? ==> |r.bytes| == 1 && PieceText(r.bytes, false) == t[i..r.next]
  {
  }

  lemma {:induction false} ParsedNamePrints(t: seq<Byte>, i: nat, before: seq<Byte>)
    requires i <= |t|
    ensures var r := ParseName(t, i, false, before);
            r.Name? ==> before <= r.bytes && NameText(r.bytes[|before|..], false) == ReaderSpec.Some(t[i..r.end])
    decreases |t| - i
  {
    hide NextPiece, PieceText;
    var r := ParseName(t, i, false, before);
    if i < |t| && t[i] != SLASH {
      var piece := NextPiece(t, i, false);
      if piece.Piece? {
        PlainPiece(t, i);
        ParsedNamePrints(t, piece.next, before + piece.bytes);
        if r.Name? {
          var name := r.bytes[|before|..];
          assert name[1..] == r.bytes[|before + piece.bytes|..];
          assert name[..1] == piece.bytes;
          assert t[i..r.end] == t[i..piece.next] + t[piece.next..r.end];
        }
      }
    } else {
      assert before[|before|..] == [] && t[i..i] == [];
    }
  }

  lemma {:induction false} ParsedTokensPrint(t: seq<Byte>, i: nat, before: seq<Token>)
    requires i <= |t| && (i == |t| || t[i] == SLASH)
    ensures var r := ParseTokens(t, i, false, before);
            r.Pointer? ==> before <= r.tokens && TokensText(r.tokens[|before|..], false) == ReaderSpec.Some(t[i..])
    decreases |t| - i
  {
    hide ParseName, NameText, IndexOf;
    var r := ParseTokens(t, i, false, before);
    if i < |t| {
      var name := ParseName(t, i + 1, false, []);
      if name.Name? {
        var token := Token(name.bytes, IndexOf(name.bytes));
        ParsedNamePrints(t, i + 1, []);
        assert name.bytes[0..] == name.bytes;
        ParsedTokensPrint(t, name.end, before + [token]);
        if r.Pointer? {
          var tokens := r.tokens[|before|..];
          assert tokens[1..] == r.tokens[|before + [token]|..] && tokens[0] == token;
          assert t[i..] == [SLASH] + t[i + 1..name.end] + t[name.end..];
        }
      }
    } else {
      assert before[|before|..] == [] && t[i..] == [];
    }
  }

  /** A text that parses, other than a URI fragment, is the string form of what it parses to: the string form
      is unique. */
  lemma ParseThenStringify(t: seq<Byte>)
    requires At(t, 0) != HASH && Parse(t).Pointer?
    ensures Stringify(Parse(t).tokens, false) == ReaderSpec.Some(t)
  {
    hide ParseTokens, TokensText;
    ParsedTokensPrint(t, 0, []);
    var tokens := Parse(t).tokens;
    assert tokens[0..] == tokens && t[0..] == t && [] + t == t;
  }
}
