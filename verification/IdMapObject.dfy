/** The IDMap class and its iterators (base/id_map.h), updated in place. */
module IdMapObject {
  import opened Wrappers
  import opened IdMaps
  import opened IdMapRuns

  class IDMap {
    const own: bool
    var checkOnNullData: bool
    var iterationDepth: nat
    var removedIds: set<Key>
    var nextId: int
    /** data_, in the order in which the hash table enumerates it. */
    var data: seq<Entry>
    /** The delete expressions evaluated so far. */
    ghost var deleted: multiset<Ptr>

    ghost function State(): Table
      reads this
    {
      Table(data, removedIds, iterationDepth, nextId, deleted)
    }

    constructor (own: bool)
      ensures State() == EMPTY && this.own == own && !checkOnNullData
    {
      this.own, checkOnNullData := own, false;
      iterationDepth, removedIds, nextId, data, deleted := 0, {}, 1, [], multiset{};
    }

    /** order is where the hash table puts the entries. */
    method Add(value: Ptr, order: seq<Entry>) returns (thisId: Key)
      requires IdMaps.Valid(State()) && (!checkOnNullData || value != 0)
      requires nextId !in Keys(data) && Rehash(State(), Entry(nextId, value), order) && nextId < MAX_ID
      modifies this`data, this`nextId
      ensures thisId == old(nextId) && nextId == old(nextId) + 1 && data == order
      ensures IdMaps.Valid(State()) && Seen(State()) == old(Seen(State()))[thisId := value]
    {
      thisId := nextId;
      AddRefines(State(), Entry(thisId, value), order);
      data := order;
      nextId := nextId + 1;
      assert Seen(State()) == Seen(old(State()).(entries := order));
    }

    method AddWithID(value: Ptr, id: Key, order: seq<Entry>)
      requires IdMaps.Valid(State()) && (!checkOnNullData || value != 0)
      requires id !in Keys(data) && Rehash(State(), Entry(id, value), order)
      modifies this`data
      ensures data == order
      ensures IdMaps.Valid(State()) && Seen(State()) == old(Seen(State()))[id := value]
    {
      AddRefines(State(), Entry(id, value), order);
      data := order;
    }

    method RemoveId(id: Key)
      requires DistinctKeys(data)
      modifies this`data, this`removedIds, this`deleted
      ensures State() == IdMaps.Remove(own, old(State()), id)
    {
      var i := IndexOf(data, id);
      KeysAt(data, id);
      if i == |data| {
        return;
      }
      if iterationDepth == 0 {
        SelectOne(data, i);
        if own {
          deleted := deleted + multiset{data[i].data};
        }
        data := data[..i] + data[i + 1..];
      } else {
        removedIds := removedIds + {id};
      }
    }

    /** Releaser::release_all: the external-pointer variant does nothing. */
    method ReleaseAll()
      modifies this`data, this`deleted
      ensures !own ==> State() == old(State())
      ensures own ==> data == [] && deleted == old(deleted) + Values(old(data))
    {
      if own {
        var i := 0;
        while i < |data|
          invariant 0 <= i <= |data| && data == old(data)
          invariant deleted + Values(data[i..]) == old(deleted) + Values(data)
        {
          assert data[i..][1..] == data[i + 1..];
          deleted := deleted + multiset{data[i].data};
          i := i + 1;
        }
        assert data[i..] == [];
        data := [];
      }
    }

    /** ~IDMap. */
    method Destroy()
      modifies this`data, this`deleted
      ensures deleted == old(deleted) + Release(own, Values(old(data)))
    {
      ReleaseAll();
    }

    method Clear()
      requires IdMaps.Valid(State())
      modifies this`data, this`removedIds, this`deleted
      ensures State() == IdMaps.Clear(own, old(State()))
    {
      if iterationDepth == 0 {
        ReleaseAll();
      } else {
        for i := 0 to |data|
          invariant data == old(data) && deleted == old(deleted)
          invariant removedIds == old(removedIds) + Keys(data[..i])
        {
          assert data[..i + 1] == data[..i] + [data[i]];
          KeysMore(data[..i], data[i]);
          removedIds := removedIds + {data[i].key};
        }
        assert data[..|data|] == data;
      }
    }

    method GetSize() returns (n: int)
      requires IdMaps.Valid(State())
      ensures n == |Seen(State())|
    {
      n := |data| - |removedIds|;
      SizeIsSeen(State());
    }

    method IsEmpty() returns (empty: bool)
      requires IdMaps.Valid(State())
      ensures empty <==> Seen(State()) == map[]
    {
      var n := GetSize();
      empty := n == 0;
      SizeIsSeen(State());
    }

    /** Entries that wait for removal are still found. */
    method Lookup(id: Key) returns (value: Ptr)
      requires IdMaps.Valid(State())
      ensures id in Seen(State()) ==> value == Seen(State())[id]
      ensures id in removedIds ==> Find(data, id) == Some(value)
      ensures id !in Keys(data) ==> value == 0
    {
      var i := IndexOf(data, id);
      KeysAt(data, id);
      value := if i == |data| then 0 else data[i].data;
    }

    /** Deletes, in any order, what waits for removal. */
    method Compact()
      requires DistinctKeys(data) && removedIds <= Keys(data) && iterationDepth == 0
      modifies this`data, this`removedIds, this`deleted
      ensures State() == IdMaps.Compact(own, old(State()))
    {
      ghost var t := State();
      var todo := removedIds;
      ghost var done: set<Key> := {};
      CompactBegins(own, t);
      while todo != {}
        invariant removedIds == t.removed == done + todo && done !! todo
        invariant iterationDepth == 0 && State() == Compacted(own, t, done)
        decreases todo
      {
        hide Compacted, DistinctKeys, Keys, IdMaps.Remove;
        var id :| id in todo;
        CompactStep(own, t, done, id);
        RemoveId(id);
        todo := todo - {id};
        done := done + {id};
      }
      assert done == t.removed;
      removedIds := {};
    }
  }

  class Iterator {
    const map_: IDMap
    var position: Position

    ghost predicate OnMap()
      reads this, map_
    {
      IdMaps.Valid(map_.State()) && (position.Some? ==> position.value in Keys(map_.data))
    }

    constructor (m: IDMap)
      requires IdMaps.Valid(m.State())
      modifies m`iterationDepth
      ensures map_ == m && OnMap() && m.State() == old(m.State()).(depth := old(m.iterationDepth) + 1)
      ensures position == Begin(old(m.State()))
    {
      map_ := m;
      position := if m.data == [] then None else Some(m.data[0].key);
      new;
      assert position.Some? ==> m.data[0].key in Keys(m.data);
      assert IndexAt(m.data, position) == 0;
      Init();
    }

    constructor Copy(iter: Iterator)
      requires iter.OnMap()
      modifies iter.map_`iterationDepth
      ensures map_ == iter.map_ && OnMap()
      ensures map_.State() == old(iter.map_.State()).(depth := old(iter.map_.iterationDepth) + 1)
      ensures position == Settle(old(iter.map_.State()), iter.position)
    {
      map_, position := iter.map_, iter.position;
      new;
      Init();
    }

    method Init()
      requires OnMap()
      modifies this, map_`iterationDepth
      ensures OnMap() && map_.State() == old(map_.State()).(depth := old(map_.iterationDepth) + 1)
      ensures position == Settle(old(map_.State()), old(position))
    {
      map_.iterationDepth := map_.iterationDepth + 1;
      SkipRemovedEntries();
    }

    method SkipRemovedEntries()
      requires OnMap()
      modifies this
      ensures OnMap() && position == Settle(map_.State(), old(position))
    {
      ghost var t, start := map_.State(), IndexAt(map_.data, position);
      while position.Some? && position.value in map_.removedIds
        invariant OnMap() && map_.State() == t
        invariant SkipFrom(t, start) == SkipFrom(t, IndexAt(map_.data, position))
        decreases |map_.data| - IndexAt(map_.data, position)
      {
        Increment();
      }
      if position.None? {
        assert SkipFrom(t, |t.entries|) == |t.entries|;
      } else {
        KeysAt(map_.data, position.value);
      }
    }

    /** ++iter_ on the hash table's own iterator. */
    method Increment()
      requires OnMap() && position.Some?
      modifies this
      ensures OnMap() && IndexAt(map_.data, position) == IndexAt(map_.data, old(position)) + 1
    {
      KeysAt(map_.data, position.value);
      var i := IndexOf(map_.data, position.value) + 1;
      if i < |map_.data| {
        position := Some(map_.data[i].key);
        IndexOfIs(map_.data, i);
        assert map_.data[i].key in Keys(map_.data);
      } else {
        position := None;
      }
    }

    method Advance()
      requires OnMap() && position.Some?
      modifies this
      ensures OnMap() && position == Next(map_.State(), old(position).value)
    {
      Increment();
      SkipRemovedEntries();
    }

    /** ~Iterator. */
    method Close()
      requires IdMaps.Valid(map_.State()) && map_.iterationDepth > 0
      modifies map_`iterationDepth, map_`data, map_`removedIds, map_`deleted
      ensures map_.State() == CloseIterator(map_.own, old(map_.State()))
    {
      map_.iterationDepth := map_.iterationDepth - 1;
      if map_.iterationDepth == 0 {
        map_.Compact();
      }
    }
  }

  lemma {:induction false} SelectNone(es: seq<Entry>)
    ensures Select(es, {}, false) == es && Select(es, {}, true) == []
  {
    if es != [] {
      SelectNone(es[1..]);
    }
  }

  lemma {:induction false} SelectMissing(es: seq<Entry>, k: Key)
    requires k !in Keys(es)
    ensures Select(es, {k}, false) == es && Select(es, {k}, true) == []
  {
    if es != [] {
      assert es[0] in es;
      assert Keys(es[1..]) <= Keys(es);
      SelectMissing(es[1..], k);
    }
  }

  /** Erasing the entry at a position is selecting the others. */
  lemma {:induction false} SelectOne(es: seq<Entry>, i: nat)
    requires DistinctKeys(es) && i < |es|
    ensures Select(es, {es[i].key}, false) == es[..i] + es[i + 1..]
    ensures Select(es, {es[i].key}, true) == [es[i]] && Values([es[i]]) == multiset{es[i].data}
  {
    ValuesOne(es[i]);
    if i == 0 {
      SelectMissing(es[1..], es[0].key);
      assert es[..0] + es[1..] == es[1..];
    } else {
      SelectOne(es[1..], i - 1);
      assert es[1..][i - 1] in es[1..];
      assert es[..i] + es[i + 1..] == [es[0]] + (es[1..][..i - 1] + es[1..][i..]);
    }
  }

  /** The map in the middle of Compact. */
  ghost function Compacted(own: bool, t: Table, done: set<Key>): Table {
    t.(entries := Select(t.entries, done, false),
       deleted := t.deleted + Release(own, Values(Select(t.entries, done, true))))
  }

  lemma CompactBegins(own: bool, t: Table)
    ensures Compacted(own, t, {}) == t
  {
    SelectNone(t.entries);
  }

  /** Removing one more pending entry. */
  lemma CompactStep(own: bool, t: Table, done: set<Key>, id: Key)
    requires DistinctKeys(t.entries) && id in Keys(t.entries) && id !in done && t.depth == 0
    ensures DistinctKeys(Compacted(own, t, done).entries)
    ensures IdMaps.Remove(own, Compacted(own, t, done), id) == Compacted(own, t, done + {id})
  {
    hide Select, Values, DistinctKeys;
    var es := Select(t.entries, done, false);
    SelectMembers(t.entries, done, false);
    SelectDistinct(t.entries, done, false);
    SelectAgain(t.entries, done, id);
  }

  lemma SelectCons(e: Entry, es: seq<Entry>, ks: set<Key>)
    ensures e.key in ks ==>
              Select([e] + es, ks, true) == [e] + Select(es, ks, true) &&
              Select([e] + es, ks, false) == Select(es, ks, false)
    ensures e.key !in ks ==>
              Select([e] + es, ks, true) == Select(es, ks, true) &&
              Select([e] + es, ks, false) == [e] + Select(es, ks, false)
    ensures Values([e] + es) == multiset{e.data} + Values(es)
  {
    assert ([e] + es)[1..] == es;
  }

  /** Selecting step by step. */
  lemma {:induction false} SelectAgain(es: seq<Entry>, ks: set<Key>, k: Key)
    requires k !in ks
    ensures Select(Select(es, ks, false), {k}, false) == Select(es, ks + {k}, false)
    ensures Values(Select(es, ks + {k}, true)) ==
            Values(Select(es, ks, true)) + Values(Select(Select(es, ks, false), {k}, true))
  {
    if es != [] {
      hide Select, Values;
      var e, rest := es[0], es[1..];
      SelectAgain(rest, ks, k);
      assert es == [e] + rest;
      SelectCons(e, rest, ks);
      SelectCons(e, rest, ks + {k});
      SelectCons(e, Select(rest, ks, false), {k});
      SelectCons(e, Select(rest, ks, true), ks);
      SelectCons(e, Select(Select(rest, ks, false), {k}, true), ks);
      SelectCons(e, Select(rest, ks + {k}, true), ks);
    }
  }
}
