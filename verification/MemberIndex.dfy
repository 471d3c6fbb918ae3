/** The members of an object with the map index of document.h beside them: a multimap from names to positions,
    and for each member the iterator of its map entry. */
module MemberIndex {
  import opened Bytes
  import opened Document
  import ReaderSpec

  /** An entry of the multimap. Its node is what an iterator points at; nodes keep their identity. */
  datatype Entry = Entry(name: Value, position: nat)

  type SizeType = ReaderSpec.SizeType

  const DEFAULT_CAPACITY: SizeType := 16
  const TWO_TO_32: int := 0x1_0000_0000

  /** What DoAddMember asks for when the arrays are full: half as much again, in 32 bits. */
  function Grown(capacity: SizeType): SizeType {
    if capacity == 0 then DEFAULT_CAPACITY else (capacity + (capacity + 1) % TWO_TO_32 / 2) % TWO_TO_32
  }

  const GROWTH_LIMIT: SizeType := 2863311531

  /** The arrays grow exactly below two thirds of 2^32. From there on the sum wraps and nothing is reserved. */
  lemma GrowsExactlyBelowLimit(capacity: SizeType)
    ensures Grown(capacity) > capacity <==> capacity < GROWTH_LIMIT
    ensures 0 < capacity < GROWTH_LIMIT ==> 3 * capacity <= 2 * Grown(capacity) <= 3 * capacity + 1
    ensures Grown(0) == 16
    ensures Grown(GROWTH_LIMIT) == 1
  {
    var half := (capacity + 1) % TWO_TO_32 / 2;
    assert capacity + 1 < TWO_TO_32 ==> half == (capacity + 1) / 2;
  }

  /** The first member of that name, or the number of members: the search without a map. */
  function LinearFind(members: seq<Member>, name: Value): (k: nat)
    ensures k <= |members|
    ensures k < |members| ==> members[k].name == name
    ensures forall j :: 0 <= j < k ==> members[j].name != name
  {
    if members == [] || members[0].name == name then 0
    else
      var k := LinearFind(members[1..], name);
      assert forall j :: 1 <= j < |members| ==> members[j] == members[1..][j - 1];
      k + 1
  }

  ghost predicate NamesUnique(members: seq<Member>) {
    forall i, j :: 0 <= i < j < |members| ==> members[i].name != members[j].name
  }

  /** With unique names every member is the first of its name. */
  lemma OnlyOne(members: seq<Member>, name: Value, at: nat)
    requires at < |members| && members[at].name == name && NamesUnique(members)
    ensures LinearFind(members, name) == at
  {
    var k := LinearFind(members, name);
    assert k <= at;
  }

  /** The last member moves to the place of the one removed. */
  function Swapped(members: seq<Member>, at: nat): seq<Member>
    requires at < |members|
  {
    var last := |members| - 1;
    if at == last then members[..last] else members[..last][at := members[last]]
  }

  /** Every member but the one removed is still there, once, and only the last has moved. */
  lemma SwappedPlaces(members: seq<Member>, at: nat)
    requires at < |members|
    ensures var r := Swapped(members, at);
            && |r| == |members| - 1 && multiset(r) + multiset{members[at]} == multiset(members)
            && forall j :: 0 <= j < |r| ==> r[j] == if j == at then members[|members| - 1] else members[j]
  {
    var last := |members| - 1;
    assert members == members[..last] + [members[last]];
    if at < last {
      assert members[..last] == members[..at] + [members[at]] + members[at + 1..last];
      assert Swapped(members, at) == members[..at] + [members[last]] + members[at + 1..last];
    }
  }

  // -----------------------------------------------------------------------------------------------
  // The index as a value
  // -----------------------------------------------------------------------------------------------

  /** Exactly one entry per member, under the member's name and with its position, and the iterator of the
      member points at it. */
  ghost predicate Indexed(index: map<nat, Entry>, its: seq<nat>, ms: seq<Member>, nodes: nat) {
    && |its| == |ms| == |index|
    && (forall i :: 0 <= i < |ms| ==> its[i] in index && index[its[i]] == Entry(ms[i].name, i))
    && (forall n :: n in index ==> index[n].position < |ms| && its[index[n].position] == n && n < nodes)
  }

  lemma MapWith<K, V>(m: map<K, V>, k: K, v: V)
    ensures |m[k := v]| == if k in m then |m| else |m| + 1
  {
    assert m[k := v].Keys == m.Keys + {k};
  }

  lemma MapWithout<K, V>(m: map<K, V>, k: K)
    requires k in m
    ensures |m - {k}| == |m| - 1
  {
    assert (m - {k}).Keys == m.Keys - {k};
  }

  lemma AddIndexed(index: map<nat, Entry>, its: seq<nat>, ms: seq<Member>, nodes: nat, m: Member)
    requires Indexed(index, its, ms, nodes)
    ensures Indexed(index[nodes := Entry(m.name, |ms|)], its + [nodes], ms + [m], nodes + 1)
  {
    MapWith(index, nodes, Entry(m.name, |ms|));
  }

  lemma RemoveLastIndexed(index: map<nat, Entry>, its: seq<nat>, ms: seq<Member>, nodes: nat)
    requires Indexed(index, its, ms, nodes) && ms != []
    ensures var last := |ms| - 1; Indexed(index - {its[last]}, its[..last], ms[..last], nodes)
  {
    MapWithout(index, its[|ms| - 1]);
  }

  lemma RemoveIndexed(index: map<nat, Entry>, its: seq<nat>, ms: seq<Member>, nodes: nat, at: nat)
    requires Indexed(index, its, ms, nodes) && at < |ms| - 1
    ensures var last := |ms| - 1;
            var without := index - {its[at]};
            && its[last] in without
            && Indexed(without[its[last] := without[its[last]].(position := at)],
                       its[..last][at := its[last]], Swapped(ms, at), nodes)
  {
    var last := |ms| - 1;
    MapWithout(index, its[at]);
    assert its[at] != its[last];
    MapWith(index - {its[at]}, its[last], index[its[last]].(position := at));
  }

  ghost function NodesOf(its: seq<nat>): set<nat> {
    set n | n in its
  }

  /** The entries with those positions from `from` up to `to` lowered by `gap`. */
  ghost function Lowered(index: map<nat, Entry>, from: nat, to: nat, gap: nat): map<nat, Entry>
    requires gap <= from
  {
    map n | n in index ::
      if from <= index[n].position < to then Entry(index[n].name, index[n].position - gap) else index[n]
  }

  /** The entries of a range are taken out one by one. */
  lemma TakeOut(index: map<nat, Entry>, its: seq<nat>, ms: seq<Member>, nodes: nat, first: nat, i: nat)
    requires Indexed(index, its, ms, nodes) && first <= i < |its|
    ensures index - NodesOf(its[first..i]) - {its[i]} == index - NodesOf(its[first..i + 1])
  {
    assert its[first..i + 1] == its[first..i] + [its[i]];
    assert NodesOf(its[first..i + 1]) == NodesOf(its[first..i]) + {its[i]};
  }

  lemma StillThere(index: map<nat, Entry>, its: seq<nat>, ms: seq<Member>, nodes: nat, first: nat, last: nat, n: nat)
    requires Indexed(index, its, ms, nodes) && first <= last <= |its| && n in index
    ensures n in index - NodesOf(its[first..last]) <==> !(first <= index[n].position < last)
  {
    if n in its[first..last] {
      var k :| 0 <= k < last - first && its[first..last][k] == n;
      assert index[its[first + k]].position == first + k;
    }
    if first <= index[n].position < last {
      assert its[first..last][index[n].position - first] == n;
    }
  }

  /** The entry of the member that moves up is lowered. */
  lemma LowerNext(index: map<nat, Entry>, its: seq<nat>, ms: seq<Member>, nodes: nat, first: nat, last: nat, next: nat)
    requires Indexed(index, its, ms, nodes) && first <= last <= next < |its|
    ensures var rest, gap := index - NodesOf(its[first..last]), last - first;
            var lowered := Lowered(rest, last, next, gap);
            && its[next] in lowered
            && lowered[its[next] := lowered[its[next]].(position := next - gap)] == Lowered(rest, last, next + 1, gap)
  {
    var rest, gap := index - NodesOf(its[first..last]), last - first;
    StillThere(index, its, ms, nodes, first, last, its[next]);
    forall n | n in rest
      ensures rest[n].position == next <==> n == its[next]
    {
    }
  }

  lemma {:induction false} TakenOutCount(index: map<nat, Entry>, its: seq<nat>, ms: seq<Member>, nodes: nat, first: nat, last: nat)
    requires Indexed(index, its, ms, nodes) && first <= last <= |its|
    ensures |index - NodesOf(its[first..last])| == |index| - (last - first)
  {
    hide Indexed, NodesOf;
    if first == last {
      NothingTakenOut(index, its, first);
    } else {
      IndexedAt(index, its, ms, nodes, last - 1);
      TakenOutCount(index, its, ms, nodes, first, last - 1);
      TakeOut(index, its, ms, nodes, first, last - 1);
      StillThere(index, its, ms, nodes, first, last - 1, its[last - 1]);
      MapWithout(index - NodesOf(its[first..last - 1]), its[last - 1]);
    }
  }

  lemma IndexedAt(index: map<nat, Entry>, its: seq<nat>, ms: seq<Member>, nodes: nat, i: nat)
    requires Indexed(index, its, ms, nodes) && i < |its|
    ensures |its| == |ms| == |index| && its[i] in index && index[its[i]] == Entry(ms[i].name, i)
  {
  }

  lemma EraseIndexed(index: map<nat, Entry>, its: seq<nat>, ms: seq<Member>, nodes: nat, first: nat, last: nat)
    requires Indexed(index, its, ms, nodes) && first <= last <= |its|
    ensures Indexed(Lowered(index - NodesOf(its[first..last]), last, |its|, last - first),
                    its[..first] + its[last..], ms[..first] + ms[last..], nodes)
  {
    hide NodesOf;
    TakenOutCount(index, its, ms, nodes, first, last);
    LoweredCount(index - NodesOf(its[first..last]), last, |its|, last - first);
    var left, names := its[..first] + its[last..], ms[..first] + ms[last..];
    var lowered := Lowered(index - NodesOf(its[first..last]), last, |its|, last - first);
    forall i | 0 <= i < |left|
      ensures left[i] in lowered && lowered[left[i]] == Entry(names[i].name, i)
    {
      LeftMember(index, its, ms, nodes, first, last, i);
    }
    forall n | n in lowered
      ensures lowered[n].position < |left| && left[lowered[n].position] == n && n < nodes
    {
      LeftEntry(index, its, ms, nodes, first, last, n);
    }
  }

  lemma LoweredCount(index: map<nat, Entry>, from: nat, to: nat, gap: nat)
    requires gap <= from
    ensures |Lowered(index, from, to, gap)| == |index|
  {
    assert Lowered(index, from, to, gap).Keys == index.Keys;
  }

  lemma LeftMember(index: map<nat, Entry>, its: seq<nat>, ms: seq<Member>, nodes: nat, first: nat, last: nat, i: nat)
    requires Indexed(index, its, ms, nodes) && first <= last <= |its| && i < |its| - (last - first)
    ensures var lowered := Lowered(index - NodesOf(its[first..last]), last, |its|, last - first);
            var n := (its[..first] + its[last..])[i];
            n in lowered && lowered[n] == Entry((ms[..first] + ms[last..])[i].name, i)
  {
    hide NodesOf;
    var k := if i < first then i else i + (last - first);
    assert (its[..first] + its[last..])[i] == its[k] && (ms[..first] + ms[last..])[i] == ms[k];
    StillThere(index, its, ms, nodes, first, last, its[k]);
  }

  lemma LeftEntry(index: map<nat, Entry>, its: seq<nat>, ms: seq<Member>, nodes: nat, first: nat, last: nat, n: nat)
    requires Indexed(index, its, ms, nodes) && first <= last <= |its|
    requires n in index - NodesOf(its[first..last])
    ensures var p := Lowered(index - NodesOf(its[first..last]), last, |its|, last - first)[n].position;
            p < |its| - (last - first) && (its[..first] + its[last..])[p] == n && n < nodes
  {
    hide NodesOf;
    StillThere(index, its, ms, nodes, first, last, n);
  }

  lemma AllTakenOut(index: map<nat, Entry>, its: seq<nat>, ms: seq<Member>, nodes: nat)
    requires Indexed(index, its, ms, nodes)
    ensures index - NodesOf(its[0..|its|]) == map[]
  {
    forall n | n in index
      ensures n !in index - NodesOf(its[0..|its|])
    {
      StillThere(index, its, ms, nodes, 0, |its|, n);
    }
  }

  // -----------------------------------------------------------------------------------------------
  // The object
  // -----------------------------------------------------------------------------------------------

  class ObjectData {
    var members: array<Member>
    var iterators: array<nat>
    var size: nat
    var index: map<nat, Entry>
    var nodes: nat  // the next node: from here on they have never been used

    ghost predicate Valid()
      reads this, members, iterators
    {
      && size <= members.Length == iterators.Length < TWO_TO_32
      && Indexed(index, iterators[..size], members[..size], nodes)
    }

    function Contents(): seq<Member>
      requires Valid()
      reads this, members, iterators
    {
      members[..size]
    }

    constructor ()
      ensures Valid() && Contents() == [] && fresh(members) && fresh(iterators)
    {
      members, iterators := new Member[0], new nat[0];
      size, index, nodes := 0, map[], 0;
    }

    /** DoFindMember through the map: finds a member if and only if the linear search does, and the same one
        if names are unique. Of several members of that name the map may give any. */
    method Find(name: Value) returns (at: nat)
      requires Valid()
      ensures at <= size && (at < size ==> members[at].name == name)
      ensures at == size <==> LinearFind(Contents(), name) == size
      ensures NamesUnique(Contents()) ==> at == LinearFind(Contents(), name)
    {
      ghost var k := LinearFind(Contents(), name);
      if k < size {
        assert index[iterators[..size][k]] == Entry(Contents()[k].name, k);
      }
      if n :| n in index && index[n].name == name {
        at := index[n].position;
        assert iterators[..size][at] == n && Contents()[at].name == name;
        if NamesUnique(Contents()) {
          OnlyOne(Contents(), name, at);
        }
      } else {
        at := size;
      }
    }

    /** DoReserveMembers: as many members and iterators are copied as the map has entries. */
    method Reserve(newCapacity: SizeType)
      requires Valid()
      modifies this`members, this`iterators
      ensures Valid() && Contents() == old(Contents())
      ensures members.Length == if newCapacity > old(members.Length) then newCapacity else old(members.Length)
      ensures iterators[..size] == old(iterators[..size])
      ensures (members == old(members) && iterators == old(iterators)) || (fresh(members) && fresh(iterators))
    {
      hide Indexed;
      if newCapacity > members.Length {
        CountIsSize();
        var count, oldMembers, oldIterators := |index|, members, iterators;
        var newMembers := new Member[newCapacity](_ => Member(NullValue, NullValue));
        var newIterators := new nat[newCapacity];
        for i := 0 to count
          invariant newMembers[..i] == oldMembers[..i] && newIterators[..i] == oldIterators[..i]
        {
          newMembers[i] := oldMembers[i];
          newIterators[i] := oldIterators[i];
        }
        members, iterators := newMembers, newIterators;
      }
    }

    lemma CountIsSize()
      requires Valid()
      ensures |index| == size
    {
    }

    /** DoAddMember. It stays within the arrays if and only if they have room or can grow; where they do not,
        the source writes behind them, and the model says so and writes nothing. */
    method Add(m: Member) returns (inBounds: bool)
      requires Valid()
      modifies this, members, iterators
      ensures Valid() && (inBounds <==> old(size < members.Length) || old(members.Length) < GROWTH_LIMIT)
      ensures Contents() == if inBounds then old(Contents()) + [m] else old(Contents())
      ensures (members == old(members) && iterators == old(iterators)) || (fresh(members) && fresh(iterators))
    {
      hide Indexed;
      if size >= members.Length {
        GrowsExactlyBelowLimit(members.Length);
        Reserve(Grown(members.Length));
      }
      if size >= members.Length {
        return false;
      }
      inBounds := true;
      ghost var its, ms := iterators[..size], members[..size];
      AddIndexed(index, its, ms, nodes, m);
      members[size] := m;
      index := index[nodes := Entry(m.name, size)];
      iterators[size] := nodes;
      size, nodes := size + 1, nodes + 1;
      assert iterators[..size] == its + [nodes - 1] && members[..size] == ms + [m];
    }

    /** DoRemoveMember: the last member takes the place. */
    method Remove(at: nat)
      requires Valid() && at < size
      modifies this, members, iterators
      ensures Valid() && Contents() == Swapped(old(Contents()), at)
      ensures members == old(members) && iterators == old(iterators)
    {
      hide Indexed;
      var last := size - 1;
      ghost var its, ms := iterators[..size], members[..size];
      if at == last {
        RemoveLastIndexed(index, its, ms, nodes);
      } else {
        RemoveIndexed(index, its, ms, nodes, at);
      }
      index := index - {iterators[at]};
      if size > 1 && at != last {
        iterators[at] := iterators[last];
        index := index[iterators[at] := index[iterators[at]].(position := at)];
        members[at] := members[last];
      }
      size := size - 1;
      assert iterators[..size] == if at == last then its[..last] else its[..last][at := its[last]];
      assert members[..size] == Swapped(ms, at);
    }

    /** DoEraseMembers: the members behind the range move up, and so do their iterators. */
    method Erase(first: nat, last: nat)
      requires Valid() && first <= last <= size
      modifies this`index, this`size, members, iterators
      ensures Valid() && Contents() == old(Contents()[..first] + Contents()[last..])
    {
      hide Indexed, Lowered, NodesOf;
      ghost var entries, its, ms := index, iterators[..size], members[..size];
      EraseIndexed(entries, its, ms, nodes, first, last);
      TakeOutEntries(first, last, its, ms);
      NothingLowered(index, last, last - first);
      if first != last {
        MoveUp(first, last, entries, its, ms);
      } else {
        NothingTakenOut(entries, its, first);
        assert its[..first] + its[last..] == its && ms[..first] + ms[last..] == ms;
        NothingToLower(entries, its, ms, nodes, last);
      }
      size := size - (last - first);
    }

    method TakeOutEntries(first: nat, last: nat, ghost its: seq<nat>, ghost ms: seq<Member>)
      requires Indexed(index, its, ms, nodes) && first <= last <= |its| <= iterators.Length
      requires forall i :: 0 <= i < |its| ==> its[i] == iterators[i]
      modifies this`index
      ensures index == old(index) - NodesOf(its[first..last])
    {
      hide Indexed, NodesOf;
      NothingTakenOut(index, its, first);
      for i := first to last
        invariant index == old(index) - NodesOf(its[first..i])
      {
        TakeOut(old(index), its, ms, nodes, first, i);
        index := index - {iterators[i]};
      }
    }

    method MoveUp(first: nat, last: nat, ghost entries: map<nat, Entry>, ghost its: seq<nat>, ghost ms: seq<Member>)
      requires size <= members.Length == iterators.Length && iterators[..size] == its && members[..size] == ms
      requires Indexed(entries, its, ms, nodes) && first < last <= size
      requires index == Lowered(entries - NodesOf(its[first..last]), last, last, last - first)
      modifies this`index, members, iterators
      ensures index == Lowered(entries - NodesOf(its[first..last]), last, size, last - first)
      ensures iterators[..size - (last - first)] == its[..first] + its[last..]
      ensures members[..size - (last - first)] == ms[..first] + ms[last..]
    {
      hide Indexed, Lowered, NodesOf;
      var gap := last - first;
      ghost var left, names := its[..first] + its[last..], ms[..first] + ms[last..];
      for i := first to size - gap
        invariant forall k :: 0 <= k < i ==> iterators[k] == left[k] && members[k] == names[k]
        invariant forall k :: i + gap <= k < size ==> iterators[k] == its[k] && members[k] == ms[k]
        invariant index == Lowered(entries - NodesOf(its[first..last]), last, i + gap, gap)
      {
        LowerNext(entries, its, ms, nodes, first, last, i + gap);
        MoveOne(i, i + gap);
      }
    }

    method MoveOne(to: nat, from: nat)
      requires to < from < members.Length == iterators.Length && iterators[from] in index
      modifies this`index, members, iterators
      ensures members[to] == members[from] && iterators[to] == iterators[from]
      ensures forall k :: 0 <= k < members.Length && k != to ==>
                members[k] == old(members[k]) && iterators[k] == old(iterators[k])
      ensures index == old(index)[old(iterators[from]) := old(index[iterators[from]]).(position := to)]
    {
      members[to] := members[from];
      iterators[to] := iterators[from];
      index := index[iterators[to] := index[iterators[to]].(position := to)];
    }

    /** DoClearMembers. */
    method Clear()
      requires Valid()
      modifies this`index, this`size
      ensures Valid() && Contents() == []
    {
      hide Indexed, NodesOf;
      ghost var entries, its, ms := index, iterators[..size], members[..size];
      NothingTakenOut(entries, its, 0);
      for i := 0 to size
        invariant size == |ms| && index == entries - NodesOf(its[0..i])
      {
        TakeOut(entries, its, ms, nodes, 0, i);
        index := index - {iterators[i]};
      }
      AllTakenOut(entries, its, ms, nodes);
      size := 0;
      NothingIndexed(index, iterators[..0], members[..0], nodes);
    }
  }

  lemma NothingTakenOut(index: map<nat, Entry>, its: seq<nat>, first: nat)
    requires first <= |its|
    ensures index - NodesOf(its[first..first]) == index
  {
  }

  lemma NothingLowered(index: map<nat, Entry>, last: nat, gap: nat)
    requires gap <= last
    ensures Lowered(index, last, last, gap) == index
  {
  }

  lemma NothingToLower(index: map<nat, Entry>, its: seq<nat>, ms: seq<Member>, nodes: nat, last: nat)
    requires Indexed(index, its, ms, nodes)
    ensures Lowered(index, last, |its|, 0) == index
  {
  }

  lemma NothingIndexed(index: map<nat, Entry>, its: seq<nat>, ms: seq<Member>, nodes: nat)
    requires index == map[] && its == [] && ms == []
    ensures Indexed(index, its, ms, nodes)
  {
  }
}
