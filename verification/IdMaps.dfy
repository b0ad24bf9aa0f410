/** IDMap (base/id_map.h): a map that defers removal while iterators are open. */
module IdMaps {
  import opened Wrappers

  type Key = int
  /** Addresses; 0 is NULL. */
  type Ptr = nat

  datatype Entry = Entry(key: Key, data: Ptr)

  /** entries is data_ in the order in which the hash table enumerates it; deleted counts the
      delete expressions that were evaluated on each pointer. */
  datatype Table = Table(entries: seq<Entry>, removed: set<Key>, depth: nat, nextId: int, deleted: multiset<Ptr>)

  const EMPTY := Table([], {}, 0, 1, multiset{})
  const MAX_ID := 0x7FFF_FFFF

  // ---------------------------------------------------------------------------
  // The hash table.
  // ---------------------------------------------------------------------------

  function Keys(es: seq<Entry>): set<Key> {
    set e | e in es :: e.key
  }

  predicate DistinctKeys(es: seq<Entry>) {
    es == [] || (es[0].key !in Keys(es[1..]) && DistinctKeys(es[1..]))
  }

  function Values(es: seq<Entry>): multiset<Ptr> {
    if es == [] then multiset{} else multiset{es[0].data} + Values(es[1..])
  }

  /** The entries with a key in ks, or the others. */
  function Select(es: seq<Entry>, ks: set<Key>, inside: bool): seq<Entry> {
    if es == [] then []
    else (if (es[0].key in ks) == inside then [es[0]] else []) + Select(es[1..], ks, inside)
  }

  /** The position of a key, or the length. */
  function IndexOf(es: seq<Entry>, k: Key): (n: nat)
    ensures n <= |es| && (n < |es| ==> es[n].key == k)
    ensures forall i :: 0 <= i < n ==> es[i].key != k
  {
    if es == [] || es[0].key == k then 0 else 1 + IndexOf(es[1..], k)
  }

  lemma {:induction false} IndexOfIs(es: seq<Entry>, i: nat)
    requires DistinctKeys(es) && i < |es|
    ensures IndexOf(es, es[i].key) == i
  {
    if i > 0 {
      assert es[i] == es[1..][i - 1];
      assert es[i].key in Keys(es[1..]);
      IndexOfIs(es[1..], i - 1);
    }
  }

  lemma KeysAt(es: seq<Entry>, k: Key)
    ensures k in Keys(es) <==> IndexOf(es, k) < |es|
  {
  }

  /** The data stored under a key. */
  function Find(es: seq<Entry>, k: Key): Option<Ptr> {
    var n := IndexOf(es, k);
    if n < |es| then Some(es[n].data) else None
  }

  lemma {:induction false} SelectSplits(es: seq<Entry>, ks: set<Key>)
    ensures Values(es) == Values(Select(es, ks, true)) + Values(Select(es, ks, false))
  {
    if es != [] {
      hide Values, Select;
      ValuesOne(es[0]);
      SelectSplits(es[1..], ks);
      ValuesAppend(if es[0].key in ks then [es[0]] else [], Select(es[1..], ks, true));
      ValuesAppend(if es[0].key in ks then [] else [es[0]], Select(es[1..], ks, false));
    }
  }

  lemma {:induction false} ValuesAppend(a: seq<Entry>, b: seq<Entry>)
    ensures Values(a + b) == Values(a) + Values(b)
  {
    if a == [] {
      assert a + b == b;
    } else {
      assert (a + b)[1..] == a[1..] + b;
      ValuesAppend(a[1..], b);
    }
  }

  function Without(es: seq<Entry>, i: nat): (r: seq<Entry>)
    requires i < |es|
    ensures |r| == |es| - 1
  {
    es[..i] + es[i + 1..]
  }

  lemma RemoveAt(es: seq<Entry>, i: nat)
    requires i < |es|
    ensures multiset(Without(es, i)) == multiset(es) - multiset{es[i]}
    ensures Values(es) == multiset{es[i].data} + Values(Without(es, i))
  {
    var a, c := es[..i], es[i + 1..];
    assert Without(es, i) == a + c;
    hide *;
    SliceAt(es, i);
    RemoveBetween(a, es[i], c);
  }

  lemma SliceAt(es: seq<Entry>, i: nat)
    requires i < |es|
    ensures es == es[..i] + ([es[i]] + es[i + 1..])
  {
  }

  lemma RemoveBetween(a: seq<Entry>, e: Entry, c: seq<Entry>)
    ensures multiset(a + c) == multiset(a + ([e] + c)) - multiset{e}
    ensures Values(a + ([e] + c)) == multiset{e.data} + Values(a + c)
  {
    hide Values;
    ValuesAppend(a, [e] + c);
    ValuesAppend([e], c);
    ValuesAppend(a, c);
    ValuesOne(e);
  }

  lemma ValuesOne(e: Entry)
    ensures Values([e]) == multiset{e.data} && Values([]) == multiset{}
  {
  }

  lemma {:induction false} ValuesPermuted(a: seq<Entry>, b: seq<Entry>)
    requires multiset(a) == multiset(b)
    ensures Values(a) == Values(b)
    decreases |a|
  {
    assert |a| == |multiset(a)| == |multiset(b)| == |b|;
    if a != [] {
      hide Values, Without;
      assert a[0] in multiset(b);
      var i :| 0 <= i < |b| && b[i] == a[0];
      RemoveAt(a, 0);
      RemoveAt(b, i);
      ValuesPermuted(Without(a, 0), Without(b, i));
    }
  }

  lemma {:induction false} SelectMembers(es: seq<Entry>, ks: set<Key>, inside: bool)
    ensures forall e :: e in Select(es, ks, inside) <==> e in es && (e.key in ks) == inside
  {
    if es != [] {
      SelectMembers(es[1..], ks, inside);
      assert es == [es[0]] + es[1..];
    }
  }

  lemma {:induction false} SelectDistinct(es: seq<Entry>, ks: set<Key>, inside: bool)
    requires DistinctKeys(es)
    ensures DistinctKeys(Select(es, ks, inside))
  {
    if es != [] {
      SelectDistinct(es[1..], ks, inside);
      SelectMembers(es[1..], ks, inside);
      var rest := Select(es[1..], ks, inside);
      assert es[0].key !in Keys(rest);
      if (es[0].key in ks) == inside {
        assert Select(es, ks, inside) == [es[0]] + rest;
        assert ([es[0]] + rest)[1..] == rest;
      } else {
        assert Select(es, ks, inside) == rest;
      }
    }
  }

  // ---------------------------------------------------------------------------
  // The operations, as functions of the map's value. own tells the owning variant.
  // ---------------------------------------------------------------------------

  ghost predicate Valid(t: Table) {
    && DistinctKeys(t.entries)
    && t.removed <= Keys(t.entries)
    && (t.depth == 0 ==> t.removed == {})
  }

  /** order is where the hash table puts the new entry and the old ones. */
  ghost predicate Rehash(t: Table, e: Entry, order: seq<Entry>) {
    multiset(order) == multiset(t.entries + [e])
  }

  function Release(own: bool, data: multiset<Ptr>): multiset<Ptr> {
    if own then data else multiset{}
  }

  function Remove(own: bool, t: Table, k: Key): Table {
    if k !in Keys(t.entries) then t
    else if t.depth == 0 then
      t.(entries := Select(t.entries, {k}, false),
         deleted := t.deleted + Release(own, Values(Select(t.entries, {k}, true))))
    else t.(removed := t.removed + {k})
  }

  /** At depth 0 the external-pointer variant does nothing. */
  function Clear(own: bool, t: Table): Table {
    if t.depth == 0 then
      if own then t.(entries := [], deleted := t.deleted + Values(t.entries)) else t
    else t.(removed := t.removed + Keys(t.entries))
  }

  function Compact(own: bool, t: Table): Table {
    t.(entries := Select(t.entries, t.removed, false),
       deleted := t.deleted + Release(own, Values(Select(t.entries, t.removed, true))),
       removed := {})
  }

  function CloseIterator(own: bool, t: Table): Table
    requires t.depth > 0
  {
    var u := t.(depth := t.depth - 1);
    if u.depth == 0 then Compact(own, u) else u
  }

  function Size(t: Table): int {
    |t.entries| - |t.removed|
  }

  /** The map that a user sees: what is in the table and not waiting for removal. */
  ghost function Seen(t: Table): map<Key, Ptr> {
    map k | k in Keys(t.entries) && k !in t.removed :: Find(t.entries, k).value
  }

  lemma SizeIsSeen(t: Table)
    requires Valid(t)
    ensures Size(t) == |Seen(t)| && (Size(t) == 0 <==> Seen(t) == map[])
  {
    DistinctByCount(t.entries);
    assert Seen(t).Keys == Keys(t.entries) - t.removed;
    assert |Seen(t)| == |Seen(t).Keys|;
  }

  lemma FindMember(es: seq<Entry>, e: Entry)
    requires DistinctKeys(es) && e in es
    ensures Find(es, e.key) == Some(e.data)
  {
    var i :| 0 <= i < |es| && es[i] == e;
    IndexOfIs(es, i);
  }

  /** Two tables with the same entries, in any order, find the same data. */
  lemma FindSame(a: seq<Entry>, b: seq<Entry>, k: Key)
    requires DistinctKeys(a) && DistinctKeys(b)
    requires forall e :: e in a && e.key == k <==> e in b && e.key == k
    ensures Find(a, k) == Find(b, k)
  {
    var n, m := IndexOf(a, k), IndexOf(b, k);
    if n < |a| {
      assert a[n] in b;
      FindMember(b, a[n]);
    } else if m < |b| {
      assert b[m] in a;
      FindMember(a, b[m]);
    }
  }

  /** Keys are distinct exactly when there are as many of them as entries. */
  lemma {:induction false} DistinctByCount(es: seq<Entry>)
    ensures |Keys(es)| <= |es| && (DistinctKeys(es) <==> |Keys(es)| == |es|)
  {
    if es != [] {
      DistinctByCount(es[1..]);
      assert es == [es[0]] + es[1..];
      assert Keys(es) == {es[0].key} + Keys(es[1..]);
    }
  }

  lemma DistinctPermuted(a: seq<Entry>, b: seq<Entry>)
    requires multiset(a) == multiset(b)
    ensures DistinctKeys(a) <==> DistinctKeys(b)
    ensures Keys(a) == Keys(b) && forall e :: e in a <==> e in b
  {
    hide DistinctKeys;
    assert |a| == |multiset(a)| == |multiset(b)| == |b|;
    assert forall e :: e in a <==> e in multiset(a);
    assert forall e :: e in b <==> e in multiset(b);
    assert Keys(a) == Keys(b);
    DistinctByCount(a);
    DistinctByCount(b);
  }

  // Each operation refines the operation with immediate removal on the seen map.

  lemma KeysMore(es: seq<Entry>, e: Entry)
    ensures Keys(es + [e]) == Keys(es) + {e.key}
  {
    assert (es + [e])[|es|] == e;
    assert forall i :: 0 <= i < |es| ==> (es + [e])[i] == es[i];
  }

  lemma AddRefines(t: Table, e: Entry, order: seq<Entry>)
    requires Valid(t) && e.key !in Keys(t.entries) && Rehash(t, e, order)
    ensures Valid(t.(entries := order))
    ensures Seen(t.(entries := order)) == Seen(t)[e.key := e.data]
    ensures Values(order) == Values(t.entries) + multiset{e.data}
    ensures Keys(order) == Keys(t.entries) + {e.key}
  {
    hide Values, Find, DistinctKeys, Keys;
    var more := t.entries + [e];
    KeysMore(t.entries, e);
    DistinctByCount(t.entries);
    DistinctByCount(more);
    DistinctPermuted(more, order);
    ValuesPermuted(more, order);
    ValuesAppend(t.entries, [e]);
    ValuesOne(e);
    FindMember(order, e);
    forall k | k in Keys(t.entries) ensures Find(order, k) == Find(t.entries, k) {
      FindSame(order, t.entries, k);
    }
  }

  lemma SelectRefines(t: Table, ks: set<Key>, removed: set<Key>)
    requires Valid(t) && ks <= Keys(t.entries)
    requires removed == {} && (ks == t.removed || t.removed == {})
    ensures var es := Select(t.entries, ks, false);
            DistinctKeys(es) && Keys(es) == Keys(t.entries) - ks &&
            Seen(t.(entries := es, removed := {})) == Seen(t) - ks
  {
    hide Select, DistinctKeys, Find;
    var es := Select(t.entries, ks, false);
    SelectMembers(t.entries, ks, false);
    SelectDistinct(t.entries, ks, false);
    forall k | k in Keys(es) ensures Find(es, k) == Find(t.entries, k) {
      FindSame(es, t.entries, k);
    }
  }

  lemma RemoveRefines(own: bool, t: Table, k: Key)
    requires Valid(t)
    ensures Valid(Remove(own, t, k)) && Seen(Remove(own, t, k)) == Seen(t) - {k}
  {
    if k !in Keys(t.entries) {
      assert Seen(t) - {k} == Seen(t);
    } else if t.depth == 0 {
      SelectRefines(t, {k}, {});
      assert Seen(Remove(own, t, k)) == Seen(t.(entries := Select(t.entries, {k}, false), removed := {}));
    }
  }

  /** Clear empties the seen map, except for the external-pointer variant with no iterator
      open, which keeps everything. */
  lemma ClearRefines(own: bool, t: Table)
    requires Valid(t)
    ensures Valid(Clear(own, t))
    ensures Seen(Clear(own, t)) == map[] <==> own || t.depth > 0 || Seen(t) == map[]
    ensures !own && t.depth == 0 ==> Clear(own, t) == t
  {
  }

  lemma CloseRefines(own: bool, t: Table)
    requires Valid(t) && t.depth > 0
    ensures var u := CloseIterator(own, t); Valid(u) && Seen(u) == Seen(t) && u.depth == t.depth - 1
  {
    if t.depth == 1 {
      SelectRefines(t, t.removed, {});
      var u, es := CloseIterator(own, t), Select(t.entries, t.removed, false);
      assert u.entries == es && u.removed == {};
      assert Seen(u) == Seen(t.(entries := es, removed := {}));
      assert Seen(t) - t.removed == Seen(t);
    }
  }
}
