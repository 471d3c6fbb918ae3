/** What Get, Create, Set and Erase of pointer.h do to a tree, place by place. */
module PointerPlaces {
  import opened Bytes
  import opened Document
  import opened PointerRoundTrip
  import opened PointerSpec
  import opened PointerTree
  import ReaderSpec

  // -----------------------------------------------------------------------------------------------
  // Get
  // -----------------------------------------------------------------------------------------------

  /** Child k is the one that a token names: the first member of that name, or the element of that index. */
  ghost predicate NamesChild(u: Value, token: Token, k: nat) {
    && k < ChildCount(u)
    && (u.ObjectValue? ==>
          u.members[k].name == StringValue(token.name) && forall j :: 0 <= j < k ==> u.members[j].name != StringValue(token.name))
    && (u.ArrayValue? ==> token.index == k && token.index != INVALID_INDEX)
  }

  ghost predicate Leads(v: Value, tokens: seq<Token>, path: seq<nat>) {
    && |path| == |tokens| && IsLocation(v, path)
    && forall i :: 0 <= i < |tokens| ==> NamesAt(v, tokens, path, i)
  }

  ghost predicate NamesAt(v: Value, tokens: seq<Token>, path: seq<nat>, i: nat) {
    && i < |tokens| && i < |path| && IsLocation(v, path[..i])
    && NamesChild(Follow(v, path[..i]), tokens[i], path[i])
  }

  lemma StepExactly(v: Value, token: Token, k: nat)
    ensures Step(v, token) == ReaderSpec.Some(k) <==> NamesChild(v, token, k)
  {
    if v.ObjectValue? && NamesChild(v, token, k) {
      FindIs(v.members, token.name, k);
    }
  }

  lemma NamesAtInside(v: Value, tokens: seq<Token>, path: seq<nat>, i: nat)
    requires 1 <= i < |tokens| == |path| && path[0] < ChildCount(v)
    ensures NamesAt(v, tokens, path, i) <==> NamesAt(Child(v, path[0]), tokens[1..], path[1..], i - 1)
  {
    hide NamesChild, Child;
    assert path[..i][0] == path[0] && path[..i][1..] == path[1..][..i - 1];
  }

  lemma LeadsInside(v: Value, tokens: seq<Token>, path: seq<nat>)
    requires |tokens| == |path| > 0
    ensures Leads(v, tokens, path)
       <==> NamesChild(v, tokens[0], path[0]) && Leads(Child(v, path[0]), tokens[1..], path[1..])
  {
    hide NamesChild, Child, NamesAt;
    FirstNamed(v, tokens, path);
    if path[0] < ChildCount(v) {
      forall i | 1 <= i < |tokens|
        ensures NamesAt(v, tokens, path, i) <==> NamesAt(Child(v, path[0]), tokens[1..], path[1..], i - 1)
      {
        NamesAtInside(v, tokens, path, i);
      }
      if Leads(Child(v, path[0]), tokens[1..], path[1..]) && NamesChild(v, tokens[0], path[0]) {
        forall i | 0 <= i < |tokens|
          ensures NamesAt(v, tokens, path, i)
        {
          assert i > 0 ==> NamesAt(Child(v, path[0]), tokens[1..], path[1..], i - 1);
        }
      }
      if Leads(v, tokens, path) {
        forall i | 0 <= i < |tokens| - 1
          ensures NamesAt(Child(v, path[0]), tokens[1..], path[1..], i)
        {
          assert NamesAt(v, tokens, path, i + 1);
        }
      }
    }
  }

  lemma FirstNamed(v: Value, tokens: seq<Token>, path: seq<nat>)
    requires |tokens| == |path| > 0
    ensures NamesAt(v, tokens, path, 0) <==> NamesChild(v, tokens[0], path[0])
    ensures NamesChild(v, tokens[0], path[0]) ==> path[0] < ChildCount(v)
  {
    assert path[..0] == [];
  }

  /** Get finds a place if and only if every token names the child on the way to it. */
  lemma {:induction false} GetExactly(v: Value, tokens: seq<Token>, path: seq<nat>)
    ensures Get(v, tokens) == ReaderSpec.Some(path) <==> Leads(v, tokens, path)
    decreases |tokens|
  {
    hide Step, Child, NamesChild, Leads;
    if tokens == [] {
      LeadsNowhere(v, path);
    } else if path == [] {
      LeadsNowhere(v, path);
      LeadsAsFar(v, tokens, path);
    } else if |path| == |tokens| {
      LeadsInside(v, tokens, path);
      StepExactly(v, tokens[0], path[0]);
      if path[0] < ChildCount(v) {
        GetExactly(Child(v, path[0]), tokens[1..], path[1..]);
      }
      assert path == [path[0]] + path[1..];
      if Get(v, tokens).Some? {
        var p := Get(v, tokens).value;
        StepExactly(v, tokens[0], p[0]);
        assert p[1..] == Get(Child(v, p[0]), tokens[1..]).value;
      }
      FirstNamed(v, tokens, path);
    } else {
      LeadsAsFar(v, tokens, path);
    }
  }

  lemma LeadsNowhere(v: Value, path: seq<nat>)
    ensures Leads(v, [], path) <==> path == []
  {
  }

  lemma LeadsAsFar(v: Value, tokens: seq<Token>, path: seq<nat>)
    ensures Leads(v, tokens, path) ==> |path| == |tokens|
  {
  }

  // -----------------------------------------------------------------------------------------------
  // Create and Set
  // -----------------------------------------------------------------------------------------------

  /** `w` is `u` with `x` as the child that a token names; what is not there is made. "-" appends to an array;
      a token that is no index makes an object of anything else; an index makes an array of a value that is no
      container, and pads an array with nulls. */
  ghost predicate WithNamed(u: Value, token: Token, x: Value, w: Value) {
    if u.ObjectValue? then
      w.ObjectValue? && MembersWith(u.members, token.name, x, w.members)
    else if u.ArrayValue? && token.name == [0x2D] then
      w.ArrayValue? && ElementsWith(u.elements, |u.elements|, x, w.elements)
    else if IndexOf(token.name) == INVALID_INDEX then
      w == ObjectValue([Member(StringValue(token.name), x)])
    else
      w.ArrayValue? && ElementsWith(if u.ArrayValue? then u.elements else [], IndexOf(token.name), x, w.elements)
  }

  /** The old elements, then nulls, and x at i. */
  ghost predicate ElementsWith(before: seq<Value>, i: int, x: Value, after: seq<Value>) {
    && 0 <= i && |after| == (if i < |before| then |before| else i + 1)
    && after[i] == x
    && (forall j :: 0 <= j < |before| && j != i ==> after[j] == before[j])
    && (forall j :: |before| <= j < i ==> after[j] == NullValue)
  }

  /** The first member of that name has the value x; if there is none, one more member at the end. */
  ghost predicate MembersWith(before: seq<Member>, name: seq<Byte>, x: Value, after: seq<Member>) {
    if forall j :: 0 <= j < |before| ==> before[j].name != StringValue(name) then
      after == before + [Member(StringValue(name), x)]
    else
      exists k :: IsFirstNamed(before, name, k) && after == before[k := Member(StringValue(name), x)]
  }

  ghost predicate IsFirstNamed(members: seq<Member>, name: seq<Byte>, k: int) {
    && 0 <= k < |members| && members[k].name == StringValue(name)
    && forall j :: 0 <= j < k ==> members[j].name != StringValue(name)
  }

  /** The child that a token names, or null. */
  ghost function NamedOrNull(u: Value, token: Token): Value {
    if Step(u, token).Some? then Child(u, Step(u, token).value) else NullValue
  }

  /** One turn of Create, whatever is then put into the child it has made. */
  lemma MakesNamed(v: Value, token: Token, x: Value)
    requires token.index == IndexOf(token.name)
    ensures var m := MakeChild(v, token);
            WithNamed(v, token, x, WithChild(m.value, m.child, x)) && Child(m.value, m.child) == NamedOrNull(v, token)
  {
    hide IndexOf, MembersWith;
    DashIsNoIndex();
    if v.ObjectValue? {
      MakesMember(v, token, x);
    }
  }

  lemma MakesMember(v: Value, token: Token, x: Value)
    requires v.ObjectValue? && 0 <= token.index
    ensures var m := MakeChild(v, token);
            var w := WithChild(m.value, m.child, x);
            && w.ObjectValue? && MembersWith(v.members, token.name, x, w.members)
            && Child(m.value, m.child) == NamedOrNull(v, token)
  {
    var k := Find(v.members, token.name);
    if k < |v.members| {
      assert IsFirstNamed(v.members, token.name, k);
    } else {
      assert forall j :: 0 <= j < |v.members| ==> !IsNamed(v.members[j], token.name);
    }
  }

  /** Create gives the root the child that the first token names, made or found, and goes on from there. */
  lemma CreateMakes(v: Value, tokens: seq<Token>)
    requires Consistent(tokens) && tokens != []
    ensures Consistent(tokens[1..])
    ensures WithNamed(v, tokens[0], Create(NamedOrNull(v, tokens[0]), tokens[1..]).root, Create(v, tokens).root)
  {
    hide IndexOf, MakeChild, WithChild, WithNamed, NamedOrNull;
    ConsistentParts(tokens);
    var m := MakeChild(v, tokens[0]);
    MakesNamed(v, tokens[0], Create(Child(m.value, m.child), tokens[1..]).root);
  }

  /** And so does Set, which puts its value at the end of the way. */
  lemma SetMakes(v: Value, tokens: seq<Token>, x: Value)
    requires Consistent(tokens)
    ensures tokens == [] ==> Set(v, tokens, x) == x
    ensures tokens != [] ==> Consistent(tokens[1..])
    ensures tokens != [] ==>
              WithNamed(v, tokens[0], Set(NamedOrNull(v, tokens[0]), tokens[1..], x), Set(v, tokens, x))
  {
    hide IndexOf, MakeChild, WithChild, WithNamed, NamedOrNull, Set;
    if tokens == [] {
      SetAll(v, x);
    } else {
      ConsistentParts(tokens);
      SetInside(v, tokens, x);
      var m := MakeChild(v, tokens[0]);
      MakesNamed(v, tokens[0], Set(Child(m.value, m.child), tokens[1..], x));
    }
  }

  /** Where the first tokens already lead, Create changes only the value there. */
  lemma {:induction false} CreateWhereItLeads(v: Value, tokens: seq<Token>, k: nat)
    requires Consistent(tokens) && k <= |tokens| && Get(v, tokens[..k]).Some?
    ensures Consistent(tokens[k..])
    ensures var p := Get(v, tokens[..k]).value;
            var r := Create(Follow(v, p), tokens[k..]);
            Create(v, tokens) == Created(Graft(v, p, r.root), p + r.path, r.existed)
    decreases k
  {
    hide IndexOf, MakeChild, Step, WithChild, Child;
    if k == 0 {
      assert tokens[..0] == [] && tokens[0..] == tokens;
    } else {
      ConsistentParts(tokens);
      MadeOrFound(v, tokens[0]);
      assert tokens[..k][0] == tokens[0] && tokens[..k][1..] == tokens[1..][..k - 1];
      assert tokens[1..][k - 1..] == tokens[k..];
      var s := Step(v, tokens[0]).value;
      CreateWhereItLeads(Child(v, s), tokens[1..], k - 1);
      var p := Get(v, tokens[..k]).value;
      assert p[1..] == Get(Child(v, s), tokens[1..][..k - 1]).value;
      var r := Create(Follow(v, p), tokens[k..]);
      assert p == [s] + p[1..];
      Associative([s], p[1..], r.path);
    }
  }

  // -----------------------------------------------------------------------------------------------
  // Elsewhere
  // -----------------------------------------------------------------------------------------------

  /** The same kind of value with as many children, under the same names. */
  ghost predicate SameShape(a: Value, b: Value) {
    && (a.ArrayValue? <==> b.ArrayValue?) && (a.ObjectValue? <==> b.ObjectValue?) && ChildCount(a) == ChildCount(b)
    && (a.ObjectValue? ==> forall j :: 0 <= j < |a.members| ==> a.members[j].name == b.members[j].name)
  }

  /** At a place on the way down to p nothing but the children on that way differs; at one beside it, nothing. */
  lemma {:induction false} GraftElsewhere(v: Value, p: seq<nat>, x: Value, q: seq<nat>)
    requires IsLocation(v, p) && !(p <= q)
    ensures IsLocation(Graft(v, p, x), q) <==> IsLocation(v, q)
    ensures IsLocation(v, q) ==>
              var a, b := Follow(v, q), Follow(Graft(v, p, x), q);
              if q <= p then SameShape(a, b) else a == b
    decreases |p|
  {
    hide WithChild, SameShape;
    ChildReplaced(v, p[0], Graft(Child(v, p[0]), p[1..], x));
    if q != [] {
      if q[0] == p[0] {
        PrefixWithin(p, q);
        GraftElsewhere(Child(v, p[0]), p[1..], x, q[1..]);
      }
    }
  }

  lemma ChildReplaced(v: Value, k: nat, x: Value)
    requires k < ChildCount(v)
    ensures SameShape(v, WithChild(v, k, x))
  {
  }

  lemma PrefixWithin(p: seq<nat>, q: seq<nat>)
    requires p != [] && q != [] && p[0] == q[0]
    ensures p <= q <==> p[1..] <= q[1..]
    ensures q <= p <==> q[1..] <= p[1..]
  {
    assert p == [p[0]] + p[1..] && q == [q[0]] + q[1..];
  }

  // -----------------------------------------------------------------------------------------------
  // Erase
  // -----------------------------------------------------------------------------------------------

  /** `w` is `u` without child k: those below it stay where they are, those above it move down by one. */
  ghost predicate TakenOut(u: Value, k: nat, w: Value) {
    && (u.ArrayValue? <==> w.ArrayValue?) && (u.ObjectValue? <==> w.ObjectValue?)
    && k < ChildCount(u) == ChildCount(w) + 1
    && (forall j: nat :: j < k ==> MovedDown(u, w, j, 0))
    && (forall j: nat :: k <= j < ChildCount(w) ==> MovedDown(u, w, j, 1))
  }

  /** Child j is, with its name, the one that was `gap` places further. */
  ghost predicate MovedDown(u: Value, w: Value, j: nat, gap: nat) {
    && j + gap < ChildCount(u) && j < ChildCount(w) && Child(w, j) == Child(u, j + gap)
    && (u.ObjectValue? && w.ObjectValue? ==> w.members[j].name == u.members[j + gap].name)
  }

  lemma ChildTakenOut(u: Value, k: nat)
    requires k < ChildCount(u)
    ensures TakenOut(u, k, WithoutChild(u, k))
  {
  }

  /** Erase takes the value that Get finds out of its parent. In the parent its later children move up; nothing
      else in the tree has changed. */
  lemma EraseTakesOut(v: Value, tokens: seq<Token>)
    requires Erase(v, tokens).Some?
    ensures tokens != [] && Get(v, tokens).Some?
    ensures var w, path := Erase(v, tokens).value, Get(v, tokens).value;
            var p, k := path[..|path| - 1], path[|path| - 1];
            && IsLocation(v, p) && IsLocation(w, p) && TakenOut(Follow(v, p), k, Follow(w, p))
            && forall q :: !(p <= q) ==>
                 && (IsLocation(w, q) <==> IsLocation(v, q))
                 && (IsLocation(v, q) ==>
                       if q <= p then SameShape(Follow(v, q), Follow(w, q)) else Follow(w, q) == Follow(v, q))
  {
    hide Erase, Get, Step, Graft, WithoutChild, TakenOut, SameShape;
    EraseSucceeds(v, tokens);
    var last := |tokens| - 1;
    assert tokens == tokens[..last] + [tokens[last]];
    GetOneMore(v, tokens[..last], tokens[last]);
    EraseByParent(v, tokens);
    var p := Get(v, tokens[..last]).value;
    var u := Follow(v, p);
    var k := Step(u, tokens[last]).value;
    var x := WithoutChild(u, k);
    assert (p + [k])[..last] == p;
    ChildTakenOut(u, k);
    GraftThere(v, p, x);
    forall q | !(p <= q)
      ensures IsLocation(Graft(v, p, x), q) <==> IsLocation(v, q)
      ensures IsLocation(v, q) ==>
                var a, b := Follow(v, q), Follow(Graft(v, p, x), q);
                if q <= p then SameShape(a, b) else a == b
    {
      GraftElsewhere(v, p, x, q);
    }
  }

  lemma {:induction false} GraftThere(v: Value, p: seq<nat>, x: Value)
    requires IsLocation(v, p)
    ensures IsLocation(Graft(v, p, x), p) && Follow(Graft(v, p, x), p) == x
    decreases |p|
  {
    hide WithChild;
    if p != [] {
      GraftThere(Child(v, p[0]), p[1..], x);
    }
  }
}
