/** The reader decodes exactly the strings of the grammar, each spelling to the bytes it stands for. */
module StringReading {
  import opened Bytes
  import opened JsonGrammar
  import opened ReaderSpec
  import Utf8

  lemma QuadIsRead(t: seq<Byte>, p: nat, h: seq<Byte>)
    requires IsQuad(h) && Has(t, p, h)
    ensures Hex4(t, p) == Some(Quad(h))
  {
    HasAt(t, p, h, 0);
    HasAt(t, p, h, 1);
    HasAt(t, p, h, 2);
    HasAt(t, p, h, 3);
  }

  lemma QuadIsThere(t: seq<Byte>, p: nat)
    requires Hex4(t, p).Some?
    ensures p + 4 <= |t| && IsQuad(t[p..p + 4]) && Has(t, p, t[p..p + 4]) && Quad(t[p..p + 4]) == Hex4(t, p).value
  {
    var h := t[p..p + 4];
    assert h[0] == t[p] && h[1] == t[p + 1] && h[2] == t[p + 2] && h[3] == t[p + 3];
    QuadIsRead(t, p, h);
  }

  lemma QuadLength(c: Char)
    requires CharForm(c)
    ensures c.Unit? ==> |c.digits| == 4
    ensures c.Pair? ==> |c.high| == |c.low| == 4
  {
  }

  lemma UnitIsRead(t: seq<Byte>, p: nat, c: Char)
    requires (c.Unit? || c.Pair?) && CharForm(c) && Has(t, p, CharText(c))
    ensures At(t, p) == 0x5C && At(t, p + 1) == 0x75
    ensures var u := UnicodeEscape(t, p);
            u.Good? && u.pos == p + |CharText(c)| && Utf8.Encode(u.value) == CharMeaning(c)
  {
    hide Quad, Utf8.Encode, Hex4, IsQuad, Has;
    QuadLength(c);
    HasAt(t, p, CharText(c), 0);
    HasAt(t, p, CharText(c), 1);
    if c.Pair? {
      var first, second := [0x5C, 0x75] + c.high, [0x5C, 0x75] + c.low;
      HasParts(t, p, first, second);
      HasParts(t, p, [0x5C, 0x75], c.high);
      HasParts(t, p + 6, [0x5C, 0x75], c.low);
      HasAt(t, p + 6, second, 0);
      HasAt(t, p + 6, second, 1);
      QuadIsRead(t, p + 2, c.high);
      QuadIsRead(t, p + 8, c.low);
    } else {
      HasParts(t, p, [0x5C, 0x75], c.digits);
      QuadIsRead(t, p + 2, c.digits);
    }
  }

  /** One character, however it is spelled. */
  lemma CharIsRead(t: seq<Byte>, p: nat, c: Char, acc: seq<Byte>)
    requires CharForm(c) && Has(t, p, CharText(c))
    ensures p + |CharText(c)| <= |t|
    ensures StringBody(t, p, acc) == StringBody(t, p + |CharText(c)|, acc + CharMeaning(c))
  {
    hide UnicodeEscape, Utf8.Encode, IsQuad, Quad;
    HasAt(t, p, CharText(c), 0);
    if c.Unit? || c.Pair? {
      UnitIsRead(t, p, c);
    } else if c.Short? {
      HasAt(t, p, CharText(c), 1);
    }
  }

  /** A character that the reader gets past is one of the grammar. */
  lemma CharIsThere(t: seq<Byte>, p: nat, acc: seq<Byte>) returns (c: Char)
    requires p <= |t| && StringBody(t, p, acc).Good? && At(t, p) != 0x22
    ensures CharForm(c) && Has(t, p, CharText(c))
  {
    hide Utf8.Encode, Hex4, Quad, Unescape;
    if At(t, p) != 0x5C {
      c := Plain(t[p]);
    } else if Unescape(At(t, p + 1)).Some? {
      EscapesKnown(At(t, p + 1));
      c := Short(t[p + 1]);
      assert t[p..p + 2] == [0x5C, t[p + 1]];
    } else {
      QuadIsThere(t, p + 2);
      var h := t[p + 2..p + 6];
      assert t[p..p + 6] == [0x5C, 0x75] + h;
      if 0xD800 <= Hex4(t, p + 2).value <= 0xDFFF {
        QuadIsThere(t, p + 8);
        var l := t[p + 8..p + 12];
        c := Pair(h, l);
        assert t[p..p + 12] == [0x5C, 0x75] + h + ([0x5C, 0x75] + l);
      } else {
        c := Unit(h);
      }
    }
  }

  lemma EscapesKnown(e: Byte)
    ensures Unescape(e) == if e in ESCAPES then Some(ESCAPES[e]) else None
    ensures e == NUL || e == LOWER_U ==> Unescape(e).None?
  {
  }

  /** Every spelling of a string is read to its end, and to the bytes it stands for. */
  lemma {:induction false} StringIsRead(t: seq<Byte>, p: nat, chars: seq<Char>, acc: seq<Byte>)
    requires CharsForm(chars) && Has(t, p, CharsText(chars) + [0x22])
    ensures p <= |t|
    ensures StringBody(t, p, acc) == Good(p + |CharsText(chars)| + 1, acc + CharsMeaning(chars))
    decreases |chars|
  {
    hide StringBody, CharText, CharMeaning, CharForm, Has;
    if chars == [] {
      assert CharsText(chars) + [0x22] == [0x22];
      HasAt(t, p, [0x22], 0);
      QuotationMark(t, p, acc);
      assert acc + [] == acc;
    } else {
      var first, rest := CharText(chars[0]), CharsText(chars[1..]);
      Associative(first, rest, [0x22]);
      HasParts(t, p, first, rest + [0x22]);
      CharIsRead(t, p, chars[0], acc);
      StringIsRead(t, p + |first|, chars[1..], acc + CharMeaning(chars[0]));
      Associative(acc, CharMeaning(chars[0]), CharsMeaning(chars[1..]));
    }
  }

  lemma QuotationMark(t: seq<Byte>, p: nat, acc: seq<Byte>)
    requires At(t, p) == 0x22
    ensures p < |t| && StringBody(t, p, acc) == Good(p + 1, acc)
  {
  }

  /** What the reader takes for a string is one of the grammar. */
  lemma {:induction false} StringIsThere(t: seq<Byte>, p: nat, acc: seq<Byte>) returns (chars: seq<Char>)
    requires p <= |t| && StringBody(t, p, acc).Good?
    ensures CharsForm(chars) && Has(t, p, CharsText(chars) + [0x22])
    decreases |t| - p
  {
    hide StringBody, CharText, CharMeaning, CharForm, Has;
    if At(t, p) == 0x22 {
      chars := [];
      HasOne(t, p);
      assert CharsText([]) + [0x22] == [0x22];
    } else {
      var c := CharIsThere(t, p, acc);
      CharIsRead(t, p, c, acc);
      CharIsNotEmpty(c);
      var rest := StringIsThere(t, p + |CharText(c)|, acc + CharMeaning(c));
      chars := [c] + rest;
      assert chars[1..] == rest;
      HasBoth(t, p, CharText(c), CharsText(rest) + [0x22]);
      Associative(CharText(c), CharsText(rest), [0x22]);
    }
  }

  lemma CharIsNotEmpty(c: Char)
    ensures CharText(c) != []
  {
  }

  /** A text begins with a string exactly if it begins with one of the grammar; then it means what that means. */
  lemma StringExactly(t: seq<Byte>, p: nat, isKey: bool)
    requires p < |t| && t[p] == 0x22
    ensures StringLeaf(t, p, isKey).Good? <==> exists chars :: CharsForm(chars) && Has(t, p, Quoted(chars))
    ensures forall chars :: CharsForm(chars) && Has(t, p, Quoted(chars)) ==>
              var s := Copied(CharsMeaning(chars));
              StringLeaf(t, p, isKey) == Good(p + |Quoted(chars)|, if isKey then Key(s) else String(s))
  {
    hide StringBody, CharsText, CharsMeaning, CharsForm, Has;
    forall chars | CharsForm(chars) && Has(t, p, Quoted(chars))
      ensures StringBody(t, p + 1, []) == Good(p + |Quoted(chars)|, CharsMeaning(chars))
    {
      HasParts(t, p, [0x22], CharsText(chars) + [0x22]);
      StringIsRead(t, p + 1, chars, []);
      assert [] + CharsMeaning(chars) == CharsMeaning(chars);
    }
    if StringBody(t, p + 1, []).Good? {
      var chars := StringIsThere(t, p + 1, []);
      HasOne(t, p);
      HasBoth(t, p, [0x22], CharsText(chars) + [0x22]);
      assert CharsForm(chars) && Has(t, p, Quoted(chars));
    }
  }
}
