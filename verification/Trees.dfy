/** Create, Get, Set and Erase of pointer.h as they walk and change a tree in place. */
module Trees {
  import opened Bytes
  import opened Document
  import opened PointerSpec
  import opened PointerRoundTrip
  import opened PointerTree
  import ReaderSpec

  /** A document whose root is changed in place. */
  class Tree {
    var root: Value

    static method FindMember(members: seq<Member>, name: seq<Byte>) returns (k: nat)
      ensures k == Find(members, name)
    {
      k := 0;
      while k < |members| && !IsNamed(members[k], name)
        invariant k <= |members| && forall j :: 0 <= j < k ==> !IsNamed(members[j], name)
      {
        k := k + 1;
      }
      if k < |members| {
        FindIs(members, name, k);
      }
    }

    /** The body of Create's loop. */
    static method Make(value: Value, t: Token) returns (v: Value, child: nat, existed: bool)
      requires t.index >= 0
      ensures Made(v, child, existed) == MakeChild(value, t)
    {
      v, existed := value, true;
      if v.ArrayValue? && |t.name| == 1 && t.name[0] == MINUS {
        v := ArrayValue(v.elements + [NullValue]);
        return v, |v.elements| - 1, false;
      }
      if t.index == INVALID_INDEX {
        if !v.ObjectValue? {
          v := ObjectValue([]);
        }
      } else if !v.ArrayValue? && !v.ObjectValue? {
        v := ArrayValue([]);
      }
      if v.ArrayValue? {
        ghost var before := v.elements;
        while t.index >= |v.elements|
          invariant v.ArrayValue? && |before| <= |v.elements|
          invariant v.elements == before + Nulls(|v.elements| - |before|)
          invariant |v.elements| > |before| ==> |v.elements| <= t.index + 1
          invariant existed <==> |v.elements| == |before|
          decreases t.index - |v.elements|
        {
          v := ArrayValue(v.elements + [NullValue]);
          existed := false;
        }
        assert before + Nulls(0) == before;
        child := t.index;
      } else {
        child := FindMember(v.members, t.name);
        if child == |v.members| {
          v := ObjectValue(v.members + [Member(StringValue(t.name), NullValue)]);
          existed := false;
        }
      }
    }

    method Create(tokens: seq<Token>) returns (at: seq<nat>, existed: bool)
      requires Consistent(tokens)
      modifies this
      ensures Created(root, at, existed) == PointerTree.Create(old(root), tokens)
    {
      hide MakeChild, WithChild, IndexOf, Child, Follow, Graft, IsLocation;
      at, existed := [], true;
      AtTheRoot(root);
      assert tokens[0..] == tokens;
      for i := 0 to |tokens|
        invariant IsLocation(root, at)
        invariant PointerTree.Create(old(root), tokens)
               == Completed(root, at, existed, PointerTree.Create(Follow(root, at), tokens[i..]))
      {
        ghost var rest := tokens[i..];
        assert rest[0] == tokens[i] && rest[1..] == tokens[i + 1..];
        var v, child, there := Make(Follow(root, at), tokens[i]);
        ghost var r := PointerTree.Create(Child(v, child), rest[1..]);
        GraftInside(root, at, v, child, r.root);
        Associative(at, [child], r.path);
        root, at, existed := Graft(root, at, v), at + [child], existed && there;
      }
      assert tokens[|tokens|..] == [];
      GraftSame(root, at);
    }

    /** Get, and the token that could not be resolved. */
    method Get(tokens: seq<Token>) returns (at: Option<seq<nat>>, unresolved: nat)
      ensures at == PointerTree.Get(root, tokens)
      ensures at.None? ==> unresolved < |tokens| && PointerTree.Get(root, tokens[..unresolved]).Some?
                           && PointerTree.Get(root, tokens[..unresolved + 1]).None?
    {
      hide PointerTree.Step;
      var path: seq<nat> := [];
      for i := 0 to |tokens|
        invariant IsLocation(root, path) && PointerTree.Get(root, tokens[..i]) == ReaderSpec.Some(path)
      {
        GetOneMore(root, tokens[..i], tokens[i]);
        assert tokens[..i + 1] == tokens[..i] + [tokens[i]];
        var v := Follow(root, path);
        var k: Option<nat> := ReaderSpec.None;
        if v.ObjectValue? {
          var m := FindMember(v.members, tokens[i].name);
          if m != |v.members| {
            k := ReaderSpec.Some(m);
          }
        } else if v.ArrayValue? {
          if !(tokens[i].index == INVALID_INDEX || tokens[i].index < 0 || tokens[i].index >= |v.elements|) {
            k := ReaderSpec.Some(tokens[i].index);
          }
        }
        StepIs(v, tokens[i], k);
        if k.None? {
          GetStaysNone(root, tokens, i + 1);
          return ReaderSpec.None, i;
        }
        path := path + [k.value];
      }
      assert tokens[..|tokens|] == tokens;
      at, unresolved := ReaderSpec.Some(path), 0;
    }

    /** Set, with the value moved or copied in. */
    method Set(tokens: seq<Token>, x: Value)
      requires Consistent(tokens)
      modifies this
      ensures root == PointerTree.Set(old(root), tokens, x)
    {
      var at, _ := Create(tokens);
      root := Graft(root, at, x);
    }

    /** Erase: down to the parent, then the last token. */
    method Erase(tokens: seq<Token>) returns (ok: bool)
      modifies this
      ensures match PointerTree.Erase(old(root), tokens)
              case Some(v) => ok && root == v
              case None => !ok && root == old(root)
    {
      hide PointerTree.Step, WithoutChild;
      if tokens == [] {
        return false;
      }
      var last := |tokens| - 1;
      var parent, _ := Get(tokens[..last]);
      EraseByParent(root, tokens);
      if parent.None? {
        return false;
      }
      var v := Follow(root, parent.value);
      var k: Option<nat> := ReaderSpec.None;
      if v.ObjectValue? {
        var m := FindMember(v.members, tokens[last].name);
        if m != |v.members| {
          k := ReaderSpec.Some(m);
        }
      } else if v.ArrayValue? {
        if !(tokens[last].index == INVALID_INDEX || tokens[last].index < 0 || tokens[last].index >= |v.elements|) {
          k := ReaderSpec.Some(tokens[last].index);
        }
      }
      StepIs(v, tokens[last], k);
      if k.None? {
        return false;
      }
      root := Graft(root, parent.value, WithoutChild(v, k.value));
      ok := true;
    }
  }

  /** What the walk amounts to once the rest, from the current location down, has been done. */
  function Completed(root: Value, at: seq<nat>, existed: bool, rest: Created): Created
    requires IsLocation(root, at)
  {
    Created(Graft(root, at, rest.root), at + rest.path, existed && rest.existed)
  }
}
