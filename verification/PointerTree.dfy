/** JSON Pointers applied to a tree: Get, Create, Set and Erase of pointer.h, and the laws between them.

    A place in the tree is given by its location, the child positions on the way down to it; that is what
    the source's pointer to a value amounts to. */
module PointerTree {
  import opened Bytes
  import opened Document
  import opened PointerSpec
  import opened PointerRoundTrip
  import ReaderSpec

  type Option<T> = ReaderSpec.Option<T>

  // -----------------------------------------------------------------------------------------------
  // Locations
  // -----------------------------------------------------------------------------------------------

  function ChildCount(v: Value): nat {
    if v.ArrayValue? then |v.elements| else if v.ObjectValue? then |v.members| else 0
  }

  function Child(v: Value, k: nat): Value
    requires k < ChildCount(v)
  {
    if v.ArrayValue? then v.elements[k] else v.members[k].value
  }

  function WithChild(v: Value, k: nat, x: Value): (w: Value)
    requires k < ChildCount(v)
    ensures ChildCount(w) == ChildCount(v) && Child(w, k) == x
    ensures forall j: nat :: j < ChildCount(v) && j != k ==> Child(w, j) == Child(v, j)
  {
    if v.ArrayValue? then ArrayValue(v.elements[k := x])
    else ObjectValue(v.members[k := v.members[k].(value := x)])
  }

  ghost predicate IsLocation(v: Value, path: seq<nat>)
    decreases |path|
  {
    path == [] || (path[0] < ChildCount(v) && IsLocation(Child(v, path[0]), path[1..]))
  }

  function Follow(v: Value, path: seq<nat>): Value
    requires IsLocation(v, path)
    decreases |path|
  {
    if path == [] then v else Follow(Child(v, path[0]), path[1..])
  }

  function Graft(v: Value, path: seq<nat>, x: Value): Value
    requires IsLocation(v, path)
    decreases |path|
  {
    if path == [] then x else WithChild(v, path[0], Graft(Child(v, path[0]), path[1..], x))
  }

  // -----------------------------------------------------------------------------------------------
  // Get
  // -----------------------------------------------------------------------------------------------

  predicate IsNamed(m: Member, name: seq<Byte>) {
    m.name == StringValue(name)
  }

  /** FindMember: the first member of that name, or the number of members. */
  function Find(members: seq<Member>, name: seq<Byte>): (k: nat)
    ensures k <= |members|
    ensures k < |members| ==> IsNamed(members[k], name)
    ensures forall j :: 0 <= j < k ==> !IsNamed(members[j], name)
  {
    if members == [] then 0
    else if IsNamed(members[0], name) then 0
    else
      var k := Find(members[1..], name);
      assert forall j :: 1 <= j < |members| ==> members[j] == members[1..][j - 1];
      k + 1
  }

  /** Where a token leads from a value. */
  function Step(v: Value, token: Token): (k: Option<nat>)
    ensures k.Some? ==> k.value < ChildCount(v)
  {
    match v
    case ObjectValue(members) =>
      var k := Find(members, token.name);
      if k < |members| then ReaderSpec.Some(k) else ReaderSpec.None
    case ArrayValue(elements) =>
      if token.index == INVALID_INDEX || token.index < 0 || token.index >= |elements| then ReaderSpec.None
      else ReaderSpec.Some(token.index)
    case _ => ReaderSpec.None
  }

  /** Get: the location a pointer resolves to. */
  function Get(v: Value, tokens: seq<Token>): (path: Option<seq<nat>>)
    ensures path.Some? ==> IsLocation(v, path.value) && |path.value| == |tokens|
    decreases |tokens|
  {
    if tokens == [] then ReaderSpec.Some([]) else
    match Step(v, tokens[0])
    case None => ReaderSpec.None
    case Some(k) =>
      match Get(Child(v, k), tokens[1..])
      case None => ReaderSpec.None
      case Some(rest) => ReaderSpec.Some([k] + rest)
  }

  // -----------------------------------------------------------------------------------------------
  // Create
  // -----------------------------------------------------------------------------------------------

  datatype Made = Made(value: Value, child: nat, existed: bool)

  function Nulls(n: nat): seq<Value> {
    seq(n, _ => NullValue)
  }

  /** The type that a token needs; a value of another type is thrown away. */
  function Retyped(v: Value, token: Token): Value {
    if token.index == INVALID_INDEX then (if v.ObjectValue? then v else ObjectValue([]))
    else if v.ArrayValue? || v.ObjectValue? then v
    else ArrayValue([])
  }

  /** One turn of Create's loop: the child that the token names is there afterwards. */
  function MakeChild(v: Value, token: Token): (m: Made)
    requires token.index >= 0
    ensures m.child < ChildCount(m.value)
  {
    if v.ArrayValue? && token.name == [MINUS] then
      Made(ArrayValue(v.elements + [NullValue]), |v.elements|, false)
    else
      var w := Retyped(v, token);
      if w.ArrayValue? then
        if token.index >= |w.elements| then
          Made(ArrayValue(w.elements + Nulls(token.index + 1 - |w.elements|)), token.index, false)
        else
          Made(w, token.index, true)
      else
        var k := Find(w.members, token.name);
        if k == |w.members| then
          Made(ObjectValue(w.members + [Member(StringValue(token.name), NullValue)]), k, false)
        else
          Made(w, k, true)
  }

  datatype Created = Created(root: Value, path: seq<nat>, existed: bool)

  ghost function Create(v: Value, tokens: seq<Token>): (r: Created)
    requires Consistent(tokens)
    ensures IsLocation(r.root, r.path) && |r.path| == |tokens|
    decreases |tokens|
  {
    if tokens == [] then Created(v, [], true) else
    var m := MakeChild(v, tokens[0]);
    var r := Create(Child(m.value, m.child), tokens[1..]);
    Created(WithChild(m.value, m.child, r.root), [m.child] + r.path, m.existed && r.existed)
  }

  // -----------------------------------------------------------------------------------------------
  // The token "-"
  // -----------------------------------------------------------------------------------------------

  /** The token "-" meets an array: a new element is appended, and nothing ever resolves to it by "-". */
  predicate AppendsHere(v: Value, token: Token) {
    v.ArrayValue? && token.name == [MINUS]
  }

  ghost predicate MeetsDash(v: Value, tokens: seq<Token>, k: nat) {
    && k < |tokens| && Get(v, tokens[..k]).Some?
    && AppendsHere(Follow(v, Get(v, tokens[..k]).value), tokens[k])
  }

  /** Of the tokens before some "-" an array is there in the tree. */
  ghost predicate Appends(v: Value, tokens: seq<Token>) {
    exists k: nat :: MeetsDash(v, tokens, k)
  }

  /** What a prefix resolves to, seen from the first child on. */
  lemma PrefixInside(v: Value, tokens: seq<Token>, k: nat)
    requires 1 <= k < |tokens|
    ensures Get(v, tokens[..k]).Some? <==>
              Step(v, tokens[0]).Some? && Get(Child(v, Step(v, tokens[0]).value), tokens[1..][..k - 1]).Some?
    ensures Get(v, tokens[..k]).Some? ==>
              var child := Child(v, Step(v, tokens[0]).value);
              Follow(v, Get(v, tokens[..k]).value) == Follow(child, Get(child, tokens[1..][..k - 1]).value)
  {
    hide Step, Child;
    assert tokens[..k][0] == tokens[0] && tokens[..k][1..] == tokens[1..][..k - 1];
    if Get(v, tokens[..k]).Some? {
      assert Get(v, tokens[..k]).value[1..] == Get(Child(v, Step(v, tokens[0]).value), tokens[1..][..k - 1]).value;
    }
  }

  /** In a null nothing but the empty pointer resolves. */
  lemma NothingInNull(tokens: seq<Token>, k: nat)
    requires k < |tokens| && Get(NullValue, tokens[..k]).Some?
    ensures Follow(NullValue, Get(NullValue, tokens[..k]).value) == NullValue
  {
  }

  /** The condition follows Create's walk, although it speaks of the tree before it. */
  lemma AppendsOnTheWay(v: Value, tokens: seq<Token>)
    requires Consistent(tokens) && tokens != []
    ensures tokens[0].index >= 0
    ensures var m := MakeChild(v, tokens[0]);
            Appends(v, tokens) <==> AppendsHere(v, tokens[0]) || Appends(Child(m.value, m.child), tokens[1..])
  {
    hide IndexOf, MakeChild, Step, Child, Get, Follow;
    ConsistentParts(tokens);
    MadeOrFound(v, tokens[0]);
    var m := MakeChild(v, tokens[0]);
    var child := Child(m.value, m.child);
    FirstOnTheWay(v, tokens);
    forall k: nat | 1 <= k < |tokens|
      ensures MeetsDash(v, tokens, k) <==> MeetsDash(child, tokens[1..], k - 1)
    {
      PrefixInside(v, tokens, k);
      if Get(NullValue, tokens[1..][..k - 1]).Some? {
        NothingInNull(tokens[1..], k - 1);
      }
    }
    assert AppendsHere(v, tokens[0]) <==> MeetsDash(v, tokens, 0);
    if Appends(child, tokens[1..]) {
      var k: nat :| MeetsDash(child, tokens[1..], k);
      assert MeetsDash(child, tokens[1..], k + 1 - 1);
      assert MeetsDash(v, tokens, k + 1);
    }
  }

  lemma FirstOnTheWay(v: Value, tokens: seq<Token>)
    requires tokens != []
    ensures Get(v, tokens[..0]) == ReaderSpec.Some([]) && Follow(v, []) == v
  {
  }

  lemma NoTokenAppends(v: Value)
    ensures !Appends(v, []) && !Discards(v, [])
  {
  }

  lemma DashIsNoIndex()
    ensures IndexOf([MINUS]) == INVALID_INDEX
  {
    assert [MINUS][0] == MINUS;
  }

  // -----------------------------------------------------------------------------------------------
  // One step
  // -----------------------------------------------------------------------------------------------

  lemma FindAppended(members: seq<Member>, m: Member, name: seq<Byte>)
    ensures Find(members, name) < |members| ==> Find(members + [m], name) == Find(members, name)
    ensures Find(members, name) == |members| && IsNamed(m, name) ==> Find(members + [m], name) == |members|
  {
    FindIs(members + [m], name, Find(members, name));
  }

  /** The first member of that name is where no earlier one has it. */
  lemma FindIs(members: seq<Member>, name: seq<Byte>, k: nat)
    requires k < |members| && forall j :: 0 <= j < k ==> !IsNamed(members[j], name)
    ensures IsNamed(members[k], name) ==> Find(members, name) == k
    ensures Find(members, name) >= k
  {
  }

  lemma FindWithChild(v: Value, k: nat, x: Value, name: seq<Byte>)
    requires v.ObjectValue? && k < ChildCount(v)
    ensures Find(WithChild(v, k, x).members, name) == Find(v.members, name)
  {
    var f, w := Find(v.members, name), WithChild(v, k, x).members;
    assert forall j :: 0 <= j < |w| ==> w[j].name == v.members[j].name;
    if f < |w| {
      FindIs(w, name, f);
    }
  }

  /** A child existed if and only if the token resolves; then nothing was made. A made child is null. */
  lemma MadeOrFound(v: Value, token: Token)
    requires token.index == IndexOf(token.name)
    ensures var m := MakeChild(v, token);
            && (m.existed <==> Step(v, token).Some?)
            && (m.existed ==> m.value == v && Step(v, token) == ReaderSpec.Some(m.child))
            && (!m.existed ==> Child(m.value, m.child) == NullValue)
  {
    hide IndexOf;
    DashIsNoIndex();
  }

  /** The child just made, whatever is put there, is where the token leads and where it is found again. */
  lemma MadeIsFound(v: Value, token: Token, x: Value)
    requires token.index == IndexOf(token.name) && !AppendsHere(v, token)
    ensures var m := MakeChild(v, token);
            var w := WithChild(m.value, m.child, x);
            && Step(w, token) == ReaderSpec.Some(m.child)
            && !AppendsHere(w, token) && MakeChild(w, token) == Made(w, m.child, true)
  {
    hide IndexOf;
    DashIsNoIndex();
    var m := MakeChild(v, token);
    if m.value.ObjectValue? {
      MadeMemberIsFound(v, token);
      FindWithChild(m.value, m.child, x, token.name);
    }
  }

  lemma MadeMemberIsFound(v: Value, token: Token)
    requires 0 <= token.index && !AppendsHere(v, token) && MakeChild(v, token).value.ObjectValue?
    ensures var m := MakeChild(v, token); Find(m.value.members, token.name) == m.child
  {
    var u := Retyped(v, token);
    FindAppended(u.members, Member(StringValue(token.name), NullValue), token.name);
  }

  /** After "-" has appended an element it resolves to nothing, and the next time it appends another. */
  lemma AppendedAgain(v: Value, token: Token, x: Value)
    requires token.index == IndexOf(token.name) && AppendsHere(v, token)
    ensures var m := MakeChild(v, token);
            var w := WithChild(m.value, m.child, x);
            && Step(v, token).None? && Step(w, token).None? && AppendsHere(w, token)
            && ChildCount(MakeChild(w, token).value) == ChildCount(w) + 1
  {
    hide IndexOf;
    DashIsNoIndex();
  }

  // -----------------------------------------------------------------------------------------------
  // The laws
  // -----------------------------------------------------------------------------------------------

  lemma ConsistentParts(tokens: seq<Token>)
    requires Consistent(tokens) && tokens != []
    ensures tokens[0].index == IndexOf(tokens[0].name) && tokens[0].index >= 0 && Consistent(tokens[1..])
  {
  }

  /** Get finds what Create made, exactly unless a "-" appended to an array on the way. */
  lemma {:induction false} GetAfterCreate(v: Value, tokens: seq<Token>)
    requires Consistent(tokens)
    ensures var r := Create(v, tokens);
            if Appends(v, tokens) then Get(r.root, tokens).None? else Get(r.root, tokens) == ReaderSpec.Some(r.path)
    decreases |tokens|
  {
    hide IndexOf, MakeChild, Step, WithChild, Appends;
    NoTokenAppends(v);
    if tokens != [] {
      ConsistentParts(tokens);
      AppendsOnTheWay(v, tokens);
      var m := MakeChild(v, tokens[0]);
      var child := Child(m.value, m.child);
      GetAfterCreate(child, tokens[1..]);
      var x := Create(child, tokens[1..]).root;
      if AppendsHere(v, tokens[0]) {
        AppendedAgain(v, tokens[0], x);
      } else {
        MadeIsFound(v, tokens[0], x);
      }
    }
  }

  /** What Create reports: whether the pointer resolved before; if so it changed nothing, and the location is
      the one Get finds; if not, a null is there now. */
  lemma {:induction false} CreateReportsExistence(v: Value, tokens: seq<Token>)
    requires Consistent(tokens)
    ensures var r := Create(v, tokens);
            && (r.existed <==> Get(v, tokens).Some?)
            && (r.existed ==> r.root == v && Get(v, tokens) == ReaderSpec.Some(r.path))
            && (!r.existed ==> Follow(r.root, r.path) == NullValue)
    decreases |tokens|
  {
    hide IndexOf, MakeChild, Step, WithChild;
    if tokens != [] {
      ConsistentParts(tokens);
      var m := MakeChild(v, tokens[0]);
      MadeOrFound(v, tokens[0]);
      CreateReportsExistence(Child(m.value, m.child), tokens[1..]);
      SameChild(m.value, m.child);
      if !m.existed {
        CreateInNull(tokens[1..]);
      }
    }
  }

  lemma SameChild(v: Value, k: nat)
    requires k < ChildCount(v)
    ensures WithChild(v, k, Child(v, k)) == v
  {
    if v.ArrayValue? {
      assert v.elements[k := v.elements[k]] == v.elements;
    } else {
      assert v.members[k := v.members[k].(value := v.members[k].value)] == v.members;
    }
  }

  /** Below a new null everything is made of containers, and ends in a null. */
  lemma {:induction false} CreateInNull(tokens: seq<Token>)
    requires Consistent(tokens)
    ensures var r := Create(NullValue, tokens); Follow(r.root, r.path) == NullValue && (r.existed <==> tokens == [])
    decreases |tokens|
  {
    hide IndexOf, MakeChild, Step, WithChild;
    if tokens != [] {
      ConsistentParts(tokens);
      MadeOrFound(NullValue, tokens[0]);
      CreateInNull(tokens[1..]);
    }
  }

  /** A second Create changes nothing and says so, exactly unless a "-" appended to an array on the way. */
  lemma {:induction false} CreateAgain(v: Value, tokens: seq<Token>)
    requires Consistent(tokens)
    ensures var r := Create(v, tokens);
            var again := Create(r.root, tokens);
            && (Appends(v, tokens) <==> again.root != r.root)
            && (!Appends(v, tokens) ==> again == Created(r.root, r.path, true))
    decreases |tokens|
  {
    hide IndexOf, MakeChild, Step, WithChild, Child, Appends;
    NoTokenAppends(v);
    if tokens != [] {
      ConsistentParts(tokens);
      AppendsOnTheWay(v, tokens);
      var m := MakeChild(v, tokens[0]);
      var child := Child(m.value, m.child);
      CreateAgain(child, tokens[1..]);
      var x := Create(child, tokens[1..]).root;
      if AppendsHere(v, tokens[0]) {
        AppendedAgain(v, tokens[0], x);
      } else {
        MadeIsFound(v, tokens[0], x);
        var w := WithChild(m.value, m.child, x);
        SameChild(w, m.child);
      }
    }
  }

  lemma WithoutDash(v: Value, tokens: seq<Token>)
    requires forall i :: 0 <= i < |tokens| ==> tokens[i].name != [MINUS]
    ensures !Appends(v, tokens)
  {
  }

  /** For every pointer that parses and has no token "-", on every tree: Get finds what Create made, and a
      second Create reports that it exists and changes nothing. */
  lemma ParsedPointerLaws(source: seq<Byte>, v: Value)
    requires Parse(source).Pointer?
    requires forall i :: 0 <= i < |Parse(source).tokens| ==> Parse(source).tokens[i].name != [MINUS]
    ensures Consistent(Parse(source).tokens)
    ensures var tokens := Parse(source).tokens;
            var r := Create(v, tokens);
            Get(r.root, tokens) == ReaderSpec.Some(r.path) && Create(r.root, tokens) == Created(r.root, r.path, true)
  {
    hide ParseTokens, Create, Get, Appends;
    var uriFragment := At(source, 0) == HASH;
    ParsedTokensAreConsistent(source, if uriFragment then 1 else 0, uriFragment, []);
    var tokens := Parse(source).tokens;
    WithoutDash(v, tokens);
    GetAfterCreate(v, tokens);
    CreateAgain(v, tokens);
  }

  // -----------------------------------------------------------------------------------------------
  // What Create leaves alone
  // -----------------------------------------------------------------------------------------------

  /** A token that is no index meets an array with elements: the array becomes an object, they are lost. */
  predicate DiscardsHere(v: Value, token: Token) {
    v.ArrayValue? && v.elements != [] && token.index == INVALID_INDEX && token.name != [MINUS]
  }

  ghost predicate MeetsWord(v: Value, tokens: seq<Token>, k: nat) {
    && k < |tokens| && Get(v, tokens[..k]).Some?
    && DiscardsHere(Follow(v, Get(v, tokens[..k]).value), tokens[k])
  }

  /** Of the tokens before some token that is no index an array with elements is there in the tree. */
  ghost predicate Discards(v: Value, tokens: seq<Token>) {
    exists k: nat :: MeetsWord(v, tokens, k)
  }

  lemma DiscardsOnTheWay(v: Value, tokens: seq<Token>)
    requires Consistent(tokens) && tokens != []
    ensures tokens[0].index >= 0
    ensures var m := MakeChild(v, tokens[0]);
            Discards(v, tokens) <==> DiscardsHere(v, tokens[0]) || Discards(Child(m.value, m.child), tokens[1..])
  {
    hide IndexOf, MakeChild, Step, Child, Get, Follow;
    ConsistentParts(tokens);
    MadeOrFound(v, tokens[0]);
    var m := MakeChild(v, tokens[0]);
    var child := Child(m.value, m.child);
    FirstOnTheWay(v, tokens);
    forall k: nat | 1 <= k < |tokens|
      ensures MeetsWord(v, tokens, k) <==> MeetsWord(child, tokens[1..], k - 1)
    {
      PrefixInside(v, tokens, k);
      if Get(NullValue, tokens[1..][..k - 1]).Some? {
        NothingInNull(tokens[1..], k - 1);
      }
    }
    assert DiscardsHere(v, tokens[0]) <==> MeetsWord(v, tokens, 0);
    if Discards(child, tokens[1..]) {
      var k: nat :| MeetsWord(child, tokens[1..], k);
      assert MeetsWord(child, tokens[1..], k + 1 - 1);
      assert MeetsWord(v, tokens, k + 1);
    }
  }

  lemma NothingToDiscard(tokens: seq<Token>)
    ensures !Discards(NullValue, tokens)
  {
    hide Get, Follow;
    forall k: nat | k < |tokens| && Get(NullValue, tokens[..k]).Some?
      ensures !MeetsWord(NullValue, tokens, k)
    {
      NothingInNull(tokens, k);
    }
  }

  /** Making a child keeps the other children where they are, for every token that led to one. */
  lemma MakingKeeps(v: Value, token: Token, other: Token, x: Value)
    requires token.index == IndexOf(token.name) && !DiscardsHere(v, token) && Step(v, other).Some?
    ensures var m := MakeChild(v, token);
            var w := WithChild(m.value, m.child, x);
            var k := Step(v, other).value;
            && k < ChildCount(w) && Step(w, other) == Step(v, other)
            && (k == m.child ==> m.existed) && (k != m.child ==> Child(w, k) == Child(v, k))
  {
    hide IndexOf, WithChild;
    if v.ObjectValue? {
      MakingMemberKeeps(v, token, other, x);
    } else {
      var m := MakeChild(v, token);
      assert WithChild(m.value, m.child, x).ArrayValue? by {
        StaysArray(m.value, m.child, x);
      }
    }
  }

  lemma StaysArray(v: Value, k: nat, x: Value)
    requires v.ArrayValue? && k < ChildCount(v)
    ensures WithChild(v, k, x).ArrayValue?
  {
  }

  lemma MakingMemberKeeps(v: Value, token: Token, other: Token, x: Value)
    requires 0 <= token.index && v.ObjectValue? && Step(v, other).Some?
    ensures var m := MakeChild(v, token);
            var w := WithChild(m.value, m.child, x);
            var k := Step(v, other).value;
            && k < ChildCount(w) && Step(w, other) == Step(v, other)
            && (k == m.child ==> m.existed) && (k != m.child ==> Child(w, k) == Child(v, k))
  {
    var m := MakeChild(v, token);
    FindWithChild(m.value, m.child, x, other.name);
    FindAppended(v.members, Member(StringValue(token.name), NullValue), other.name);
  }

  /** Every other pointer still resolves, to the same place; and what it finds there is the same, unless it
      leads to where the new value is or above. */
  lemma {:induction false} CreateKeeps(v: Value, tokens: seq<Token>, others: seq<Token>)
    requires Consistent(tokens) && !Discards(v, tokens) && Get(v, others).Some?
    ensures var r, p := Create(v, tokens), Get(v, others).value;
            && Get(r.root, others) == ReaderSpec.Some(p)
            && (!(p <= r.path) ==> Follow(r.root, p) == Follow(v, p))
    decreases |tokens|
  {
    hide IndexOf, MakeChild, Step, WithChild, Discards;
    if tokens != [] && others != [] {
      ConsistentParts(tokens);
      DiscardsOnTheWay(v, tokens);
      var m := MakeChild(v, tokens[0]);
      var child := Child(m.value, m.child);
      MadeOrFound(v, tokens[0]);
      MakingKeeps(v, tokens[0], others[0], Create(child, tokens[1..]).root);
      if Step(v, others[0]).value == m.child {
        CreateKeeps(child, tokens[1..], others[1..]);
        var p, path := Get(v, others).value, Create(v, tokens).path;
        assert p[1..] == Get(child, others[1..]).value && path[1..] == Create(child, tokens[1..]).path;
        if p[1..] <= path[1..] {
          assert p == [p[0]] + p[1..];
        }
      }
    }
  }

  /** A pointer that resolved and is lost: the first element of the array that was turned into an object. */
  ghost function Lost(v: Value, tokens: seq<Token>): seq<Token>
    requires Consistent(tokens) && Discards(v, tokens)
    decreases |tokens|
  {
    if DiscardsHere(v, tokens[0]) then [Token([ZERO], 0)] else
    DiscardsOnTheWay(v, tokens);
    var m := MakeChild(v, tokens[0]);
    [tokens[0]] + Lost(Child(m.value, m.child), tokens[1..])
  }

  lemma ZeroIsIndex()
    ensures IndexOf([ZERO]) == 0
  {
    assert [ZERO][..0] == [];
    assert Convert([ZERO]) == ReaderSpec.Some(0);
  }

  lemma DiscardsFirst(v: Value, token: Token, x: Value)
    requires token.index == IndexOf(token.name) && DiscardsHere(v, token)
    ensures var m := MakeChild(v, token);
            && Step(v, Token([ZERO], 0)) == ReaderSpec.Some(0)
            && Step(WithChild(m.value, m.child, x), Token([ZERO], 0)).None?
  {
    hide IndexOf;
    ZeroIsIndex();
  }

  lemma {:induction false} LostIsLost(v: Value, tokens: seq<Token>)
    requires Consistent(tokens) && Discards(v, tokens)
    ensures Consistent(Lost(v, tokens)) && Get(v, Lost(v, tokens)).Some?
    ensures Get(Create(v, tokens).root, Lost(v, tokens)).None?
    decreases |tokens|
  {
    hide IndexOf, MakeChild, Step, WithChild, Discards;
    NoTokenAppends(v);
    ConsistentParts(tokens);
    DiscardsOnTheWay(v, tokens);
    var m := MakeChild(v, tokens[0]);
    var child := Child(m.value, m.child);
    var x := Create(child, tokens[1..]).root;
    if DiscardsHere(v, tokens[0]) {
      ZeroIsIndex();
      DiscardsFirst(v, tokens[0], x);
    } else {
      NothingToDiscard(tokens[1..]);
      MadeOrFound(v, tokens[0]);
      LostIsLost(child, tokens[1..]);
      MakingKeeps(v, tokens[0], tokens[0], x);
    }
  }

  /** All pointers that resolved still resolve to the same places if and only if no array with elements met
      a token that is no index. */
  lemma CreateKeepsExactlyUnlessItDiscards(v: Value, tokens: seq<Token>)
    requires Consistent(tokens)
    ensures (forall others :: Consistent(others) && Get(v, others).Some?
              ==> Get(Create(v, tokens).root, others) == Get(v, others))
       <==> !Discards(v, tokens)
  {
    hide Create, Get, Discards;
    if Discards(v, tokens) {
      LostIsLost(v, tokens);
    } else {
      forall others | Consistent(others) && Get(v, others).Some?
        ensures Get(Create(v, tokens).root, others) == Get(v, others)
      {
        CreateKeeps(v, tokens, others);
      }
    }
  }

  // -----------------------------------------------------------------------------------------------
  // Set
  // -----------------------------------------------------------------------------------------------

  ghost function Set(v: Value, tokens: seq<Token>, x: Value): Value
    requires Consistent(tokens)
  {
    var r := Create(v, tokens);
    Graft(r.root, r.path, x)
  }

  lemma WithChildTwice(v: Value, k: nat, a: Value, b: Value)
    requires k < ChildCount(v)
    ensures WithChild(WithChild(v, k, a), k, b) == WithChild(v, k, b)
  {
    if v.ArrayValue? {
      assert v.elements[k := a][k := b] == v.elements[k := b];
    } else {
      var ma, mb := v.members[k].(value := a), v.members[k].(value := b);
      assert v.members[k := ma][k := mb] == v.members[k := mb];
    }
  }

  lemma SetInside(v: Value, tokens: seq<Token>, x: Value)
    requires Consistent(tokens) && tokens != []
    ensures tokens[0].index >= 0
    ensures var m := MakeChild(v, tokens[0]);
            Set(v, tokens, x) == WithChild(m.value, m.child, Set(Child(m.value, m.child), tokens[1..], x))
  {
    hide IndexOf, MakeChild, WithChild;
    var m := MakeChild(v, tokens[0]);
    var r := Create(Child(m.value, m.child), tokens[1..]);
    WithChildTwice(m.value, m.child, r.root, Graft(r.root, r.path, x));
    assert Create(v, tokens).path[1..] == r.path;
  }

  /** What was set is what is got, exactly unless a "-" appended to an array on the way. */
  lemma {:induction false} GetAfterSet(v: Value, tokens: seq<Token>, x: Value)
    requires Consistent(tokens)
    ensures Appends(v, tokens) ==> Get(Set(v, tokens, x), tokens).None?
    ensures !Appends(v, tokens) ==>
              var found := Get(Set(v, tokens, x), tokens); found.Some? && Follow(Set(v, tokens, x), found.value) == x
    decreases |tokens|
  {
    hide IndexOf, MakeChild, Step, WithChild, Set, Appends;
    NoTokenAppends(v);
    if tokens == [] {
      assert Set(v, tokens, x) == x by {
        SetAll(v, x);
      }
    } else {
      ConsistentParts(tokens);
      AppendsOnTheWay(v, tokens);
      SetInside(v, tokens, x);
      var m := MakeChild(v, tokens[0]);
      var child := Child(m.value, m.child);
      GetAfterSet(child, tokens[1..], x);
      var y := Set(child, tokens[1..], x);
      if AppendsHere(v, tokens[0]) {
        AppendedAgain(v, tokens[0], y);
      } else {
        MadeIsFound(v, tokens[0], y);
      }
    }
  }

  lemma SetAll(v: Value, x: Value)
    ensures Set(v, [], x) == x
  {
  }

  /** Setting twice is setting the last value, and setting what is there changes nothing. */
  lemma {:induction false} SetTwice(v: Value, tokens: seq<Token>, x: Value, y: Value)
    requires Consistent(tokens)
    ensures !Appends(v, tokens) ==> Set(Set(v, tokens, x), tokens, y) == Set(v, tokens, y)
    ensures Get(v, tokens).Some? ==> Set(v, tokens, Follow(v, Get(v, tokens).value)) == v
    decreases |tokens|
  {
    hide IndexOf, MakeChild, Step, WithChild, Set, Appends;
    if tokens == [] {
      SetAll(v, x);
      SetAll(v, y);
      SetAll(x, y);
      SetAll(v, v);
    } else {
      ConsistentParts(tokens);
      AppendsOnTheWay(v, tokens);
      var m := MakeChild(v, tokens[0]);
      var child := Child(m.value, m.child);
      MadeOrFound(v, tokens[0]);
      SetInside(v, tokens, x);
      SetInside(v, tokens, y);
      SetTwice(child, tokens[1..], x, y);
      if !AppendsHere(v, tokens[0]) {
        var a := Set(child, tokens[1..], x);
        MadeIsFound(v, tokens[0], a);
        SetInside(Set(v, tokens, x), tokens, y);
        WithChildTwice(m.value, m.child, a, Set(child, tokens[1..], y));
      }
      if Get(v, tokens).Some? {
        SetInside(v, tokens, Follow(v, Get(v, tokens).value));
        assert Get(v, tokens).value[1..] == Get(child, tokens[1..]).value;
        SameChild(v, m.child);
      }
    }
  }

  // -----------------------------------------------------------------------------------------------
  // Erase
  // -----------------------------------------------------------------------------------------------

  /** Without child k; the later ones move up. */
  function WithoutChild(v: Value, k: nat): Value
    requires k < ChildCount(v)
  {
    if v.ArrayValue? then ArrayValue(v.elements[..k] + v.elements[k + 1..])
    else ObjectValue(v.members[..k] + v.members[k + 1..])
  }

  /** Erase: what is left, unless there was nothing to erase. The root itself cannot be erased. */
  function Erase(v: Value, tokens: seq<Token>): Option<Value>
    decreases |tokens|
  {
    if tokens == [] || Step(v, tokens[0]).None? then ReaderSpec.None else
    var k := Step(v, tokens[0]).value;
    if |tokens| == 1 then ReaderSpec.Some(WithoutChild(v, k)) else
    match Erase(Child(v, k), tokens[1..])
    case None => ReaderSpec.None
    case Some(x) => ReaderSpec.Some(WithChild(v, k, x))
  }

  /** Erase succeeds if and only if the pointer resolves to something below the root. */
  lemma {:induction false} EraseSucceeds(v: Value, tokens: seq<Token>)
    ensures Erase(v, tokens).Some? <==> tokens != [] && Get(v, tokens).Some?
    decreases |tokens|
  {
    hide Step, WithChild, WithoutChild;
    if tokens != [] && Step(v, tokens[0]).Some? {
      EraseSucceeds(Child(v, Step(v, tokens[0]).value), tokens[1..]);
    }
  }

  /** Create would make no more than one child, and make it the last one: the parent is there, as an object
      without the name or as an array of just that length. */
  ghost predicate AddsOne(v: Value, tokens: seq<Token>)
    requires Consistent(tokens)
    decreases |tokens|
  {
    if tokens == [] then false
    else if |tokens| == 1 then
      || (v.ObjectValue? && Step(v, tokens[0]).None?)
      || (v.ArrayValue? && tokens[0].index == |v.elements| && tokens[0].index != INVALID_INDEX)
    else
      Step(v, tokens[0]).Some? && AddsOne(Child(v, Step(v, tokens[0]).value), tokens[1..])
  }

  /** A made child is taken out again: the parent is as before exactly if it was there and grew by one. */
  lemma MadeThenErased(v: Value, token: Token)
    requires token.index == IndexOf(token.name) && !AppendsHere(v, token)
    ensures var m := MakeChild(v, token);
            WithoutChild(m.value, m.child) == v <==>
              || (v.ObjectValue? && Step(v, token).None?)
              || (v.ArrayValue? && token.index == |v.elements| && token.index != INVALID_INDEX)
  {
    hide IndexOf;
    var m := MakeChild(v, token);
    if v.ObjectValue? {
      if !m.existed {
        assert m.value.members[..m.child] + m.value.members[m.child + 1..] == v.members;
      }
    } else if v.ArrayValue? && token.index == |v.elements| && token.index != INVALID_INDEX {
      assert m.value.elements[..m.child] + m.value.elements[m.child + 1..] == v.elements;
    }
  }

  lemma MadeIsNew(v: Value, token: Token, x: Value)
    requires token.index == IndexOf(token.name) && !MakeChild(v, token).existed
    ensures var m := MakeChild(v, token); WithChild(m.value, m.child, x) != v
  {
    hide IndexOf;
  }

  /** Erase undoes Create if and only if Create added one child, the last one, to a parent that was there. */
  lemma {:induction false} EraseUndoesCreate(v: Value, tokens: seq<Token>)
    requires Consistent(tokens)
    ensures Erase(Create(v, tokens).root, tokens) == ReaderSpec.Some(v) <==> AddsOne(v, tokens)
    decreases |tokens|
  {
    hide IndexOf, MakeChild, Step, WithChild, WithoutChild;
    if tokens != [] {
      ConsistentParts(tokens);
      var m := MakeChild(v, tokens[0]);
      var child := Child(m.value, m.child);
      var x := Create(child, tokens[1..]).root;
      if AppendsHere(v, tokens[0]) {
        AppendedAgain(v, tokens[0], x);
        DashIsNoIndex();
        MadeOrFound(v, tokens[0]);
      } else {
        MadeIsFound(v, tokens[0], x);
        MadeOrFound(v, tokens[0]);
        if |tokens| == 1 {
          SameChild(m.value, m.child);
          MadeThenErased(v, tokens[0]);
        } else {
          EraseUndoesCreate(child, tokens[1..]);
          ErasedInside(v, m, x, tokens);
        }
      }
    }
  }

  lemma ErasedInside(v: Value, m: Made, x: Value, tokens: seq<Token>)
    requires |tokens| > 1 && tokens[0].index == IndexOf(tokens[0].name) && m == MakeChild(v, tokens[0])
    requires Step(WithChild(m.value, m.child, x), tokens[0]) == ReaderSpec.Some(m.child)
    requires m.existed ==> m.value == v
    ensures Erase(WithChild(m.value, m.child, x), tokens) == ReaderSpec.Some(v)
       <==> m.existed && Erase(x, tokens[1..]) == ReaderSpec.Some(Child(v, m.child))
  {
    hide IndexOf, MakeChild, Step, WithChild, WithoutChild;
    var rest := Erase(x, tokens[1..]);
    if rest.Some? {
      WithChildTwice(m.value, m.child, x, rest.value);
      if m.existed {
        SameChild(v, m.child);
      } else {
        MadeIsNew(v, tokens[0], rest.value);
      }
    }
  }

  // -----------------------------------------------------------------------------------------------
  // The tree itself
  // -----------------------------------------------------------------------------------------------

  lemma {:induction false} GraftInside(v: Value, path: seq<nat>, x: Value, k: nat, y: Value)
    requires IsLocation(v, path) && k < ChildCount(x)
    ensures IsLocation(Graft(v, path, x), path + [k])
    ensures Follow(Graft(v, path, x), path + [k]) == Child(x, k)
    ensures Graft(Graft(v, path, x), path + [k], y) == Graft(v, path, WithChild(x, k, y))
    decreases |path|
  {
    hide WithChild;
    if path == [] {
      assert [k][1..] == [];
    } else {
      GraftInside(Child(v, path[0]), path[1..], x, k, y);
      assert (path + [k])[1..] == path[1..] + [k];
      WithChildTwice(v, path[0], Graft(Child(v, path[0]), path[1..], x), Graft(Child(v, path[0]), path[1..], WithChild(x, k, y)));
    }
  }

  lemma AtTheRoot(v: Value)
    ensures IsLocation(v, []) && Follow(v, []) == v && forall x :: Graft(v, [], x) == x
  {
  }

  lemma {:induction false} GraftSame(v: Value, path: seq<nat>)
    requires IsLocation(v, path)
    ensures Graft(v, path, Follow(v, path)) == v
    decreases |path|
  {
    hide WithChild;
    if path != [] {
      GraftSame(Child(v, path[0]), path[1..]);
      SameChild(v, path[0]);
    }
  }

  lemma StepIs(v: Value, token: Token, k: Option<nat>)
    requires k == if v.ObjectValue? then
                    if Find(v.members, token.name) < |v.members| then ReaderSpec.Some(Find(v.members, token.name))
                    else ReaderSpec.None
                  else if v.ArrayValue? && token.index != INVALID_INDEX && 0 <= token.index < |v.elements| then
                    ReaderSpec.Some(token.index)
                  else ReaderSpec.None
    ensures Step(v, token) == k
  {
  }

  function OneMore(v: Value, at: Option<seq<nat>>, token: Token): Option<seq<nat>>
    requires at.Some? ==> IsLocation(v, at.value)
  {
    if at.None? || Step(Follow(v, at.value), token).None? then ReaderSpec.None
    else ReaderSpec.Some(at.value + [Step(Follow(v, at.value), token).value])
  }

  lemma {:induction false} GetOneMore(v: Value, tokens: seq<Token>, token: Token)
    ensures Get(v, tokens + [token]) == OneMore(v, Get(v, tokens), token)
    decreases |tokens|
  {
    hide Step;
    if tokens == [] {
      assert tokens + [token] == [token];
      var k := Step(v, token);
      if k.Some? {
        assert Get(Child(v, k.value), [token][1..]) == ReaderSpec.Some([]);
        assert [k.value] + [] == [] + [k.value];
      }
    } else {
      assert (tokens + [token])[1..] == tokens[1..] + [token];
      var k := Step(v, tokens[0]);
      if k.Some? {
        GetOneMore(Child(v, k.value), tokens[1..], token);
        var at := Get(v, tokens);
        if at.Some? {
          assert at.value[1..] == Get(Child(v, k.value), tokens[1..]).value;
          var next := Step(Follow(v, at.value), token);
          if next.Some? {
            assert [k.value] + (at.value[1..] + [next.value]) == at.value + [next.value];
          }
        }
      }
    }
  }

  lemma {:induction false} GetStaysNone(v: Value, tokens: seq<Token>, i: nat)
    requires i <= |tokens| && Get(v, tokens[..i]).None?
    ensures Get(v, tokens).None?
    decreases |tokens| - i
  {
    hide Get;
    if i < |tokens| {
      assert tokens[..i + 1] == tokens[..i] + [tokens[i]];
      GetOneMore(v, tokens[..i], tokens[i]);
      GetStaysNone(v, tokens, i + 1);
    } else {
      assert tokens[..i] == tokens;
    }
  }

  lemma {:induction false} EraseByParent(v: Value, tokens: seq<Token>)
    requires tokens != []
    ensures var last := |tokens| - 1;
            var parent := Get(v, tokens[..last]);
            if parent.None? || Step(Follow(v, parent.value), tokens[last]).None? then Erase(v, tokens).None?
            else
              var u := Follow(v, parent.value);
              Erase(v, tokens) == ReaderSpec.Some(Graft(v, parent.value, WithoutChild(u, Step(u, tokens[last]).value)))
    decreases |tokens|
  {
    hide Step, WithChild, WithoutChild;
    var last := |tokens| - 1;
    if last == 0 {
      assert tokens[..0] == [];
    } else if Step(v, tokens[0]).Some? {
      var k := Step(v, tokens[0]).value;
      EraseByParent(Child(v, k), tokens[1..]);
      assert tokens[1..][..last - 1] == tokens[..last][1..];
      var parent := Get(v, tokens[..last]);
      if parent.Some? {
        assert parent.value[1..] == Get(Child(v, k), tokens[1..][..last - 1]).value;
      }
    }
  }
}
