/** The pointer class of pointer.h: parsing into one name buffer, and stringifying from it. */
module Pointer {
  import opened Bytes
  import opened PointerSpec
  import opened ReaderSpec
  import Utf8

  /** A token as it is stored: its name is a slice of the name buffer. */
  datatype Slice = Slice(begin: nat, length: nat, index: int)

  ghost predicate AllWithin(slices: seq<Slice>, limit: nat) {
    forall k :: 0 <= k < |slices| ==> slices[k].begin + slices[k].length <= limit
  }

  ghost function ReadToken(buffer: seq<Byte>, slice: Slice): PointerSpec.Token
    requires slice.begin + slice.length <= |buffer|
  {
    Token(buffer[slice.begin..slice.begin + slice.length], slice.index)
  }

  ghost function ReadTokens(buffer: seq<Byte>, slices: seq<Slice>): (tokens: seq<PointerSpec.Token>)
    requires AllWithin(slices, |buffer|)
    ensures |tokens| == |slices|
  {
    seq(|slices|, k requires 0 <= k < |slices| => ReadToken(buffer, slices[k]))
  }

  /** Tokens are unaffected by what is written behind their names. */
  lemma TokensUnchanged(before: seq<Byte>, after: seq<Byte>, slices: seq<Slice>, limit: nat)
    requires limit <= |before| == |after| && before[..limit] == after[..limit] && AllWithin(slices, limit)
    ensures ReadTokens(before, slices) == ReadTokens(after, slices)
  {
    forall k | 0 <= k < |slices|
      ensures ReadToken(before, slices[k]) == ReadToken(after, slices[k])
    {
      var b, e := slices[k].begin, slices[k].begin + slices[k].length;
      assert before[b..e] == before[..limit][b..e] == after[..limit][b..e] == after[b..e];
    }
  }

  lemma NoTokens(buffer: seq<Byte>, slices: seq<Slice>)
    requires slices == []
    ensures forall limit: nat :: AllWithin(slices, limit)
    ensures AllWithin(slices, |buffer|) && ReadTokens(buffer, slices) == []
  {
  }

  lemma OneMoreToken(before: seq<Byte>, after: seq<Byte>, slices: seq<Slice>, slice: Slice, begin: nat, limit: nat)
    requires begin <= limit <= |before| == |after| && before[..begin] == after[..begin]
    requires AllWithin(slices, begin) && slice.begin + slice.length <= limit
    ensures AllWithin(slices + [slice], limit) && AllWithin(slices + [slice], |after|) && AllWithin(slices, |before|)
    ensures ReadTokens(after, slices + [slice]) == ReadTokens(before, slices) + [ReadToken(after, slice)]
  {
    hide ReadToken;
    TokensUnchanged(before, after, slices, begin);
  }

  lemma DigitsOfBoth(a: seq<Byte>, b: seq<Byte>)
    ensures AllDigits([])
    ensures AllDigits(a + b) <==> AllDigits(a) && AllDigits(b)
  {
    if AllDigits(a + b) {
      assert forall k :: 0 <= k < |a| ==> a[k] == (a + b)[k];
      assert forall k :: 0 <= k < |b| ==> b[k] == (a + b)[|a| + k];
    }
  }

  lemma FirstSolidus(t: seq<Byte>, i: nat)
    requires i <= 1 && i <= |t| && (i == 1 ==> t[0] == HASH)
    ensures SlashCount(t[..i]) == 0
  {
    if i == 1 {
      assert t[..1] == [HASH] && t[..1][..0] == [];
    }
  }

  function SlashCount(t: seq<Byte>): (n: nat)
    ensures n <= |t|
  {
    if t == [] then 0 else SlashCount(t[..|t| - 1]) + if t[|t| - 1] == SLASH then 1 else 0
  }

  lemma {:induction false} SlashCountGrows(t: seq<Byte>, i: nat)
    requires i <= |t|
    ensures SlashCount(t[..i]) <= SlashCount(t)
    ensures i < |t| && t[i] == SLASH ==> SlashCount(t[..i + 1]) == SlashCount(t[..i]) + 1
    decreases |t| - i
  {
    if i < |t| {
      SlashCountGrows(t, i + 1);
      assert t[..i + 1][..i] == t[..i];
    } else {
      assert t[..i] == t;
    }
  }

  lemma NextTriplet(t: seq<Byte>, i: nat, limit: nat)
    ensures limit == 0 || Triplet(t, i).None? ==> Triplets(t, i, limit) == []
    ensures limit > 0 && Triplet(t, i).Some? ==>
              Triplets(t, i, limit) == [Triplet(t, i).value] + Triplets(t, i + 3, limit - 1)
  {
  }

  lemma {:induction false} TripletsHoldNoSlash(t: seq<Byte>, i: nat, limit: nat)
    ensures forall k :: i <= k < i + 3 * |Triplets(t, i, limit)| ==> t[k] != SLASH
    decreases limit
  {
    if limit > 0 && Triplet(t, i).Some? {
      TripletsHoldNoSlash(t, i + 3, limit - 1);
    }
  }

  lemma PieceHoldsNoSlash(t: seq<Byte>, i: nat, uriFragment: bool)
    requires i < |t| && t[i] != SLASH
    ensures var r := NextPiece(t, i, uriFragment);
            r.Piece? ==> |r.bytes| <= r.next - i && forall k :: i <= k < r.next ==> t[k] != SLASH
  {
    hide Utf8.CharLength, Triplets;
    TripletsHoldNoSlash(t, i, 4);
  }

  lemma {:induction false} NameHoldsNoSlash(t: seq<Byte>, i: nat, uriFragment: bool, name: seq<Byte>)
    requires i <= |t|
    ensures var r := ParseName(t, i, uriFragment, name);
            r.Name? ==> SlashCount(t[..r.end]) == SlashCount(t[..i])
    decreases |t| - i
  {
    hide NextPiece, SlashCount;
    if i < |t| && t[i] != SLASH {
      var piece := NextPiece(t, i, uriFragment);
      if piece.Piece? {
        PieceHoldsNoSlash(t, i, uriFragment);
        SameSlashCount(t, i, piece.next);
        NameHoldsNoSlash(t, piece.next, uriFragment, name + piece.bytes);
      }
    }
  }

  lemma {:induction false} SameSlashCount(t: seq<Byte>, i: nat, k: nat)
    requires i <= k <= |t| && forall j :: i <= j < k ==> t[j] != SLASH
    ensures SlashCount(t[..k]) == SlashCount(t[..i])
  {
    if i < k {
      SameSlashCount(t, i, k - 1);
      assert t[..k][..k - 1] == t[..k - 1];
    }
  }

  /** The stream that decodes %XY triplets. A byte it cannot decode becomes NUL and makes it invalid. */
  class PercentDecodeStream {
    const source: seq<Byte>
    const head: nat
    var src: nat
    var valid: bool

    constructor (source: seq<Byte>, head: nat)
      requires head <= |source|
      ensures this.source == source && this.head == head == src && valid
    {
      this.source, this.head, src, valid := source, head, head, true;
    }

    /** The byte at the end of the text is looked at, but no value of it makes a difference. */
    method Take() returns (c: Byte)
      requires src <= |source| && valid
      modifies this
      ensures match Triplet(source, old(src))
              case Some(b) => valid && c == b && src == old(src) + 3
              case None => !valid && c == NUL && old(src) <= src <= |source|
    {
      if At(source, src) != PERCENT || src + 3 > |source| {
        valid := false;
        return 0;
      }
      src := src + 1;
      c := 0;
      for j := 0 to 2
        invariant valid && src == old(src) + 1 + j
        invariant (j >= 1 ==> IsHexDigit(source[old(src) + 1])) && (j >= 2 ==> IsHexDigit(source[old(src) + 2]))
        invariant c == if j == 0 then 0 else if j == 1 then HexDigitValue(source[old(src) + 1])
                       else HexDigitValue(source[old(src) + 1]) * 0x10 + HexDigitValue(source[old(src) + 2])
      {
        var h := source[src];
        if IsHexDigit(h) {
          c := c % 0x10 * 0x10 + HexDigitValue(h);
        } else {
          valid := false;
          return 0;
        }
        src := src + 1;
      }
    }

    method TakeUpTo(limit: nat) returns (bytes: seq<Byte>)
      requires src == head <= |source| && valid
      modifies this
      ensures bytes == Triplets(source, head, limit)
    {
      hide Triplets, Triplet;
      bytes := [];
      ghost var p := src;
      while |bytes| < limit && valid
        invariant p <= |source| && |bytes| <= limit
        invariant valid ==> src == p
        invariant Triplets(source, head, limit)
               == bytes + if valid then Triplets(source, p, limit - |bytes|) else []
        decreases limit - |bytes|, valid
      {
        NextTriplet(source, p, limit - |bytes|);
        NextTriplet(source, if Triplet(source, p).Some? then p + 3 else p, limit - |bytes| - 1);
        var c := Take();
        if valid {
          bytes, p := bytes + [c], src;
        }
      }
    }
  }

  class GenericPointer {
    var nameBuffer: array<Byte>  // as long as the source
    var slots: array<Slice>      // one per solidus of the source
    var tokenCount: nat
    var error: Option<PointerError>
    var errorOffset: nat

    ghost predicate Valid()
      reads this, slots
    {
      tokenCount == slots.Length && AllWithin(slots[..], nameBuffer.Length)
    }

    ghost function Tokens(): seq<PointerSpec.Token>
      requires Valid()
      reads this, slots, nameBuffer
    {
      ReadTokens(nameBuffer[..], slots[..])
    }

    /** A pointer parsed from a text: all tokens and their names, or the error and where it is. Every slot is
        used, and no write leaves the name buffer. */
    constructor (source: seq<Byte>)
      requires |source| < UINT32_BOUND  // lengths of names are 32-bit
      ensures Valid() && fresh(nameBuffer) && fresh(slots)
      ensures match Parse(source)
              case Pointer(tokens) => error == None && Tokens() == tokens && nameBuffer.Length == |source|
              case Rejected(e, offset) => error == Some(e) && errorOffset == offset && tokenCount == 0
    {
      nameBuffer := new Byte[|source|];
      slots := new Slice[0];
      tokenCount, error, errorOffset := 0, None, 0;
      new;
      var slashes := CountSlashes(source);
      var found := new Slice[slashes](_ => Slice(0, 0, INVALID_INDEX));
      var uriFragment := At(source, 0) == HASH;
      var i := if uriFragment then 1 else 0;
      if i != |source| && At(source, i) != SLASH {
        error, errorOffset := Some(TokenMustBeginWithSolidus), i;
        return;
      }
      var token, code, end := ReadTokensInto(found, source, i, uriFragment);
      if code.Some? {
        error, errorOffset := code, end;
        return;
      }
      slots, tokenCount := found, token;
    }

    /** The outer loop of Parse. */
    method ReadTokensInto(found: array<Slice>, source: seq<Byte>, i0: nat, uriFragment: bool)
      returns (token: nat, code: Option<PointerError>, i: nat)
      requires i0 == (if uriFragment then 1 else 0) <= |source| && (i0 == |source| || source[i0] == SLASH)
      requires uriFragment ==> source[0] == HASH
      requires nameBuffer.Length == |source| && found.Length == SlashCount(source)
      modifies nameBuffer, found
      ensures match ParseTokens(source, i0, uriFragment, [])
              case Pointer(tokens) =>
                && code == None && token == found.Length && AllWithin(found[..], nameBuffer.Length)
                && ReadTokens(nameBuffer[..], found[..]) == tokens
              case Rejected(e, offset) => code == Some(e) && i == offset
    {
      hide ParseName, SlashCount, IndexOf, AllWithin, ReadTokens;
      i, token, code := i0, 0, None;
      var name: nat := 0;
      FirstSolidus(source, i0);
      NoTokens(nameBuffer[..], found[..0]);
      while i < |source|
        invariant i <= |source| && (i == |source| || source[i] == SLASH) && code == None
        invariant token == SlashCount(source[..i]) <= found.Length
        invariant name + i0 <= i
        invariant AllWithin(found[..token], name) && AllWithin(found[..token], nameBuffer.Length)
        invariant ParseTokens(source, i, uriFragment, ReadTokens(nameBuffer[..], found[..token]))
               == ParseTokens(source, i0, uriFragment, [])
        decreases |source| - i
      {
        SlashCountGrows(source, i);
        SlashCountGrows(source, i + 1);
        NameHoldsNoSlash(source, i + 1, uriFragment, []);
        ghost var before, earlier, begin := nameBuffer[..], found[..token], name;
        var slice;
        i, name, slice, code := ReadSlice(source, i + 1, uriFragment, name);
        if code.Some? {
          return;
        }
        found[token] := slice;
        assert found[..token] == earlier;
        assert found[..token + 1] == earlier + [slice];
        token := token + 1;
        OneMoreToken(before, nameBuffer[..], earlier, slice, begin, name);
      }
      assert source[..i] == source && found[..token] == found[..];
    }

    /** One turn of the outer loop: a name, the NUL behind it, and its index. */
    method ReadSlice(source: seq<Byte>, i0: nat, uriFragment: bool, name0: nat)
      returns (i: nat, name: nat, slice: Slice, code: Option<PointerError>)
      requires i0 <= |source| == nameBuffer.Length && name0 + (if uriFragment then 1 else 0) < i0
      modifies nameBuffer
      ensures nameBuffer[..name0] == old(nameBuffer[..name0])
      ensures match ParseName(source, i0, uriFragment, [])
              case Name(bytes, end) =>
                && code == None && i == end && name + (if uriFragment then 1 else 0) <= i
                && slice.begin == name0 && slice.begin + slice.length < name
                && ReadToken(nameBuffer[..], slice) == Token(bytes, IndexOf(bytes))
              case BadName(e, offset) => code == Some(e) && i == offset
    {
      hide ParseName, IndexOf;
      var isNumber;
      i, name, isNumber, code := ReadName(source, i0, uriFragment, name0);
      slice := Slice(name0, 0, INVALID_INDEX);
      if code.None? {
        ghost var bytes := nameBuffer[name0..name];
        nameBuffer[name] := NUL;
        assert nameBuffer[name0..name] == bytes;
        var index := ReadIndex(name0, name - name0, isNumber);
        slice := Slice(name0, name - name0, index);
        assert nameBuffer[..][name0..name] == bytes;
        name := name + 1;
      }
    }

    static method CountSlashes(source: seq<Byte>) returns (n: nat)
      ensures n == SlashCount(source)
    {
      n := 0;
      for i := 0 to |source|
        invariant n == SlashCount(source[..i])
      {
        if source[i] == SLASH {
          n := n + 1;
        }
        assert source[..i + 1][..i] == source[..i];
      }
      assert source[..|source|] == source;
    }

    /** The inner loop of Parse: a name is decoded into the buffer, never ahead of the source. */
    method ReadName(source: seq<Byte>, i0: nat, uriFragment: bool, name0: nat)
      returns (i: nat, name: nat, isNumber: bool, code: Option<PointerError>)
      requires i0 <= |source| == nameBuffer.Length && name0 + (if uriFragment then 1 else 0) < i0
      modifies nameBuffer
      ensures nameBuffer[..name0] == old(nameBuffer[..name0])
      ensures match ParseName(source, i0, uriFragment, [])
              case Name(bytes, end) =>
                && code == None && i == end && name == name0 + |bytes|
                && name + (if uriFragment then 1 else 0) < i
                && nameBuffer[name0..name] == bytes && (isNumber <==> AllDigits(bytes))
              case BadName(e, offset) => code == Some(e) && i == offset
    {
      hide NextPiece, AllDigits;
      DigitsOfBoth([], []);
      i, name, isNumber, code := i0, name0, true, None;
      assert nameBuffer[name0..name0] == [];
      while i < |source| && source[i] != SLASH
        invariant i0 <= i <= |source| && name0 <= name && code == None
        invariant name + (if uriFragment then 1 else 0) < i
        invariant nameBuffer[..name0] == old(nameBuffer[..name0])
        invariant ParseName(source, i, uriFragment, nameBuffer[name0..name]) == ParseName(source, i0, uriFragment, [])
        invariant isNumber <==> AllDigits(nameBuffer[name0..name])
        decreases |source| - i
      {
        ghost var soFar, start := nameBuffer[..name], name;
        PieceHoldsNoSlash(source, i, uriFragment);
        var digits;
        i, name, digits, code := ReadPiece(source, i, uriFragment, name);
        if code.Some? {
          return;
        }
        isNumber := isNumber && digits;
        assert nameBuffer[name0..name] == soFar[name0..] + nameBuffer[start..name];
        DigitsOfBoth(soFar[name0..], nameBuffer[start..name]);
      }
    }

    /** One turn of the inner loop. */
    method ReadPiece(source: seq<Byte>, i0: nat, uriFragment: bool, name0: nat)
      returns (i: nat, name: nat, digits: bool, code: Option<PointerError>)
      requires i0 < |source| == nameBuffer.Length && name0 + (if uriFragment then 1 else 0) < i0
      modifies nameBuffer
      ensures nameBuffer[..name0] == old(nameBuffer[..name0])
      ensures match NextPiece(source, i0, uriFragment)
              case Piece(bytes, next) =>
                && code == None && i == next && name == name0 + |bytes| <= nameBuffer.Length
                && nameBuffer[name0..name] == bytes && (digits <==> AllDigits(bytes))
              case BadPiece(e, offset) => code == Some(e) && i == offset
    {
      hide Utf8.CharLength, Triplets;
      i, name, digits, code := i0, name0, false, None;
      var c := source[i];
      if uriFragment {
        if c == PERCENT {
          var n;
          n := DecodeCharacter(source, i, name);
          if n == 0 {
            code := Some(InvalidPercentEncoding);
            return;
          }
          if n > 1 {
            i, name := i + 3 * n, name + n;
            return;
          }
          i, c := i + 2, nameBuffer[name];
        } else if NeedPercentEncode(c) {
          code := Some(CharacterMustPercentEncode);
          return;
        }
      }
      i := i + 1;
      if c == TILDE {
        c := At(source, i);
        if i < |source| && c == ZERO {
          c := TILDE;
        } else if i < |source| && c == 0x31 {
          c := SLASH;
        } else {
          code := Some(InvalidEscape);
          return;
        }
        i := i + 1;
      }
      digits := IsDigit(c);
      nameBuffer[name] := c;
      name := name + 1;
    }

    /** The percent-encoded character at i goes to the name buffer, through the validating transcoder. It is
        written before it is known to be valid; there is room for that, too. */
    method DecodeCharacter(source: seq<Byte>, i: nat, name: nat) returns (n: nat)
      requires i < |source| == nameBuffer.Length && name + 1 < i
      modifies nameBuffer
      ensures nameBuffer[..name] == old(nameBuffer[..name])
      ensures n == Utf8.CharLength(Triplets(source, i, 4))
      ensures n > 0 ==> nameBuffer[name..name + n] == Triplets(source, i, 4)[..n]
      ensures n > 1 ==> !IsDigit(nameBuffer[name])
    {
      hide Triplets, Utf8.CharLength;
      var stream := new PercentDecodeStream(source, i);
      var bytes := stream.TakeUpTo(4);
      var ok, out := Utf8.Validate(bytes);
      Utf8.LongCharacter(bytes);
      if bytes != [] {
        Utf8.NulEndsCharacter(bytes);
      }
      for k := 0 to |out|
        invariant nameBuffer[..name] == old(nameBuffer[..name]) && nameBuffer[name..name + k] == out[..k]
      {
        nameBuffer[name + k] := out[k];
      }
      n := if ok && |out| <= |bytes| then |out| else 0;
      if n > 0 {
        assert out == (bytes + [NUL])[..n] == bytes[..n];
        assert nameBuffer[name] == nameBuffer[name..name + n][0] == bytes[0];
      }
    }

    /** The second look at a name: does it read as an index? */
    method ReadIndex(begin: nat, length: nat, onlyDigits: bool) returns (index: int)
      requires begin + length <= nameBuffer.Length
      requires onlyDigits <==> AllDigits(nameBuffer[begin..begin + length])
      ensures index == IndexOf(nameBuffer[begin..begin + length])
    {
      ghost var name := nameBuffer[begin..begin + length];
      var isNumber := onlyDigits && length != 0;
      if isNumber && length > 1 && nameBuffer[begin] == ZERO {
        isNumber := false;
      }
      var n := 0;
      if isNumber {
        for j := 0 to length
          invariant 0 <= n < UINT32_BOUND && Convert(name[..j]) == Some(n)
        {
          var m := (n * 10 + (nameBuffer[begin + j] - ZERO)) % UINT32_BOUND;
          assert name[..j + 1][..j] == name[..j];
          if m < n {
            ConvertGivesUp(name, j + 1);
            return INVALID_INDEX;
          }
          n := m;
        }
        assert name[..length] == name;
      }
      index := if isNumber then n else INVALID_INDEX;
    }

    /** Stringify, in both its forms. Without success the text is of no use. */
    method Stringify(uriFragment: bool) returns (ok: bool, os: seq<Byte>)
      requires Valid() && error == None
      ensures ok <==> PointerSpec.Stringify(Tokens(), uriFragment).Some?
      ensures ok ==> os == PointerSpec.Stringify(Tokens(), uriFragment).value
    {
      hide NameText;
      ghost var tokens := Tokens();
      var begin := if uriFragment then [HASH] else [];
      os := begin;
      ghost var out: seq<Byte> := [];
      assert tokens[0..] == tokens;
      Nothing(TokensText(tokens, uriFragment));
      for t := 0 to tokenCount
        invariant os == begin + out
        invariant TokensText(tokens, uriFragment) == After(out, TokensText(tokens[t..], uriFragment))
      {
        var slice := slots[t];
        var name := nameBuffer[slice.begin..slice.begin + slice.length];
        assert tokens[t].name == name by {
          assert ReadToken(nameBuffer[..], slots[..][t]).name == name;
        }
        assert tokens[t..][1..] == tokens[t + 1..];
        var text;
        ok, text := PutName(name, uriFragment);
        if !ok {
          return;
        }
        AfterBoth(out, [SLASH] + text, TokensText(tokens[t + 1..], uriFragment));
        Associative(begin, out, [SLASH] + text);
        out := out + ([SLASH] + text);
        os := os + ([SLASH] + text);
      }
      assert tokens[tokenCount..] == [];
      ok := true;
    }

    static method PutName(name: seq<Byte>, uriFragment: bool) returns (ok: bool, os: seq<Byte>)
      ensures ok <==> NameText(name, uriFragment).Some?
      ensures ok ==> os == NameText(name, uriFragment).value
    {
      hide Utf8.CharLength, PercentEncode;
      os := [];
      var j := 0;
      assert name[0..] == name;
      Nothing(NameText(name, uriFragment));
      while j < |name|
        invariant 0 <= j <= |name| && NameText(name, uriFragment) == After(os, NameText(name[j..], uriFragment))
      {
        var c := name[j];
        ghost var n, before := PieceLength(name[j..], uriFragment), os;
        if c == TILDE {
          os := os + [TILDE, ZERO];
        } else if c == SLASH {
          os := os + [TILDE, 0x31];
        } else if uriFragment && NeedPercentEncode(c) {
          var good, bytes := Utf8.Validate(name[j..]);
          Utf8.NulEndsCharacter(name[j..]);
          if !good {
            return false, os;
          }
          assert bytes == name[j..][..n] == name[j..j + n];
          var encoded := PutPercentEncoded(bytes);
          os := os + encoded;
          j := j + |bytes| - 1;
        } else {
          os := os + [c];
        }
        j := j + 1;
        assert name[j - n..][n..] == name[j..];
        AfterBoth(before, PieceText(name[j - n..][..n], uriFragment), NameText(name[j..], uriFragment));
      }
      assert name[j..] == [];
      ok := true;
    }

    /** PercentEncodeStream. */
    static method PutPercentEncoded(bytes: seq<Byte>) returns (os: seq<Byte>)
      ensures os == PercentEncode(bytes)
    {
      os := [];
      assert bytes[0..] == bytes;
      for k := 0 to |bytes|
        invariant PercentEncode(bytes) == os + PercentEncode(bytes[k..])
      {
        var u := bytes[k];
        assert bytes[k..][1..] == bytes[k + 1..];
        var triplet := [PERCENT, HexDigit(u / 16), HexDigit(u % 16)];
        Associative(os, triplet, PercentEncode(bytes[k + 1..]));
        os := os + triplet;
      }
    }
  }

  /** A text, if there is one, behind what is already written. */
  function After(written: seq<Byte>, text: Option<seq<Byte>>): Option<seq<Byte>> {
    match text
    case None => None
    case Some(rest) => Some(written + rest)
  }

  lemma Nothing(text: Option<seq<Byte>>)
    ensures After([], text) == text
  {
    if text.Some? {
      assert [] + text.value == text.value;
    }
  }

  lemma AfterBoth(a: seq<Byte>, b: seq<Byte>, text: Option<seq<Byte>>)
    ensures After(a, After(b, text)) == After(a + b, text)
  {
    if text.Some? {
      Associative(a, b, text.value);
    }
  }

  /** Once the conversion has been given up it stays so. */
  lemma {:induction false} ConvertGivesUp(digits: seq<Byte>, j: nat)
    requires AllDigits(digits) && j <= |digits| && Convert(digits[..j]).None?
    ensures Convert(digits).None?
    decreases |digits| - j
  {
    if j < |digits| {
      assert digits[..j + 1][..j] == digits[..j];
      ConvertGivesUp(digits, j + 1);
    } else {
      assert digits[..j] == digits;
    }
  }
}
