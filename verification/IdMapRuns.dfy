/** Every interleaving of calls on an IDMap and its iterators (base/id_map.h): refinement of
    immediate removal, each entry visited once, each owned pointer deleted once. */
module IdMapRuns {
  import opened Wrappers
  import opened IdMaps

  // ---------------------------------------------------------------------------
  // Iterators. A position is the key of the entry that the iterator is on, or None at the end.
  // ---------------------------------------------------------------------------

  type Position = Option<Key>

  function KeyAt(es: seq<Entry>, i: nat): Position {
    if i < |es| then Some(es[i].key) else None
  }

  function IndexAt(es: seq<Entry>, pos: Position): (n: nat)
    ensures n <= |es|
  {
    match pos
    case None => |es|
    case Some(k) => IndexOf(es, k)
  }

  /** SkipRemovedEntries from position i. */
  function SkipFrom(t: Table, i: nat): (r: nat)
    requires i <= |t.entries|
    ensures i <= r <= |t.entries|
    ensures r < |t.entries| ==> t.entries[r].key !in t.removed
    ensures forall j :: i <= j < r ==> t.entries[j].key in t.removed
    decreases |t.entries| - i
  {
    if i < |t.entries| && t.entries[i].key in t.removed then SkipFrom(t, i + 1) else i
  }

  function Settle(t: Table, pos: Position): Position {
    KeyAt(t.entries, SkipFrom(t, IndexAt(t.entries, pos)))
  }

  function Begin(t: Table): Position {
    KeyAt(t.entries, SkipFrom(t, 0))
  }

  function Next(t: Table, k: Key): Position
    requires k in Keys(t.entries)
  {
    KeysAt(t.entries, k);
    KeyAt(t.entries, SkipFrom(t, IndexOf(t.entries, k) + 1))
  }

  // ---------------------------------------------------------------------------
  // Runs.
  // ---------------------------------------------------------------------------

  /** A map, its open iterators, and the pointers added so far. */
  datatype World = World(table: Table, iters: map<nat, Position>, added: multiset<Ptr>)

  datatype Call =
    | Add(data: Ptr, order: seq<Entry>)
    | AddWithID(data: Ptr, key: Key, order: seq<Entry>)
    | RemoveId(key: Key)
    | ClearAll
    | Open(it: nat)
    | Copy(from: nat, it: nat)
    | Advance(it: nat)
    | Close(it: nat)

  /** What the source asks of its callers: new keys, an id left to give out, iterators that exist,
      no step past the end. */
  ghost predicate Allowed(w: World, c: Call) {
    match c
    case Add(data, order) =>
      w.table.nextId < MAX_ID && w.table.nextId !in Keys(w.table.entries) &&
      Rehash(w.table, Entry(w.table.nextId, data), order)
    case AddWithID(data, key, order) =>
      key !in Keys(w.table.entries) && Rehash(w.table, Entry(key, data), order)
    case Open(it) => it !in w.iters
    case Copy(from, it) => from in w.iters && it !in w.iters
    case Advance(it) => it in w.iters && w.iters[it].Some? && w.iters[it].value in Keys(w.table.entries)
    case Close(it) => it in w.iters && w.table.depth > 0
    case _ => true
  }

  ghost function Apply(own: bool, w: World, c: Call): World
    requires Allowed(w, c)
  {
    var t := w.table;
    match c
    case Add(data, order) =>
      World(t.(entries := order, nextId := t.nextId + 1), w.iters, w.added + multiset{data})
    case AddWithID(data, key, order) =>
      World(t.(entries := order), w.iters, w.added + multiset{data})
    case RemoveId(key) => w.(table := Remove(own, t, key))
    case ClearAll => w.(table := Clear(own, t))
    case Open(it) => w.(table := t.(depth := t.depth + 1), iters := w.iters[it := Begin(t)])
    case Copy(from, it) =>
      w.(table := t.(depth := t.depth + 1), iters := w.iters[it := Settle(t, w.iters[from])])
    case Advance(it) => w.(iters := w.iters[it := Next(t, w.iters[it].value)])
    case Close(it) => w.(table := CloseIterator(own, t), iters := w.iters - {it})
  }

  const START := World(EMPTY, map[], multiset{})

  ghost predicate Inv(own: bool, w: World) {
    && Valid(w.table)
    && w.table.depth == |w.iters|
    && (forall it :: it in w.iters && w.iters[it].Some? ==> w.iters[it].value in Keys(w.table.entries))
    && (own ==> w.added == Values(w.table.entries) + w.table.deleted)
    && (!own ==> w.table.deleted == multiset{})
  }

  ghost predicate AllowedRun(own: bool, w: World, cs: seq<Call>)
    decreases |cs|
  {
    cs == [] || (Allowed(w, cs[0]) && AllowedRun(own, Apply(own, w, cs[0]), cs[1..]))
  }

  ghost function Run(own: bool, w: World, cs: seq<Call>): World
    requires AllowedRun(own, w, cs)
    decreases |cs|
  {
    if cs == [] then w else Run(own, Apply(own, w, cs[0]), cs[1..])
  }

  // ---------------------------------------------------------------------------
  // The specification: a map with immediate removal.
  // ---------------------------------------------------------------------------

  /** What a call means for the seen map, whatever iterators are open. */
  ghost function SpecApply(own: bool, w: World, c: Call): map<Key, Ptr> {
    var m := Seen(w.table);
    match c
    case Add(data, _) => m[w.table.nextId := data]
    case AddWithID(data, key, _) => m[key := data]
    case RemoveId(key) => m - {key}
    case ClearAll => if own || w.iters != map[] then map[] else m
    case _ => m
  }

  lemma PositionsStay(es: seq<Entry>, i: nat)
    requires i <= |es|
    ensures var p := KeyAt(es, i); p.Some? ==> p.value in Keys(es)
  {
  }

  lemma RemoveKeepsInv(own: bool, w: World, k: Key)
    requires Inv(own, w)
    ensures Inv(own, Apply(own, w, RemoveId(k)))
  {
    hide Values, Select, Find, Keys, DistinctKeys;
    var t := w.table;
    RemoveRefines(own, t, k);
    MapCount(w.iters, 0, None);
    if k in Keys(t.entries) && t.depth == 0 {
      SelectSplits(t.entries, {k});
      assert w.iters == map[];
    }
  }

  lemma ClearKeepsInv(own: bool, w: World)
    requires Inv(own, w)
    ensures Inv(own, Apply(own, w, ClearAll))
  {
    hide Find;
    ClearRefines(own, w.table);
    MapCount(w.iters, 0, None);
    if w.table.depth == 0 {
      assert w.iters == map[];
    }
  }

  lemma CloseKeepsInv(own: bool, w: World, it: nat)
    requires Inv(own, w) && Allowed(w, Close(it))
    ensures Inv(own, Apply(own, w, Close(it)))
  {
    hide Values, Select, Find, Keys, DistinctKeys;
    var t, r := w.table, Apply(own, w, Close(it));
    CloseRefines(own, t);
    MapCount(w.iters, it, None);
    MapCount(r.iters, it, None);
    if t.depth == 1 {
      SelectSplits(t.entries, t.removed);
      assert r.iters == map[];
    }
  }

  lemma AddKeepsInv(own: bool, w: World, e: Entry, order: seq<Entry>, nextId: int)
    requires Inv(own, w) && e.key !in Keys(w.table.entries) && Rehash(w.table, e, order)
    ensures Inv(own, World(w.table.(entries := order, nextId := nextId), w.iters, w.added + multiset{e.data}))
  {
    hide Values, Find, DistinctKeys;
    AddRefines(w.table, e, order);
  }

  lemma IterKeepsInv(own: bool, w: World, c: Call)
    requires Inv(own, w) && Allowed(w, c) && (c.Open? || c.Copy? || c.Advance?)
    ensures Inv(own, Apply(own, w, c))
  {
    hide Values, Find, DistinctKeys, IndexOf, SkipFrom, Keys;
    var t := w.table;
    var i: nat;
    match c {
      case Open(_) => i := SkipFrom(t, 0);
      case Copy(from, _) => i := SkipFrom(t, IndexAt(t.entries, w.iters[from]));
      case Advance(it) =>
        KeysAt(t.entries, w.iters[it].value);
        i := SkipFrom(t, IndexOf(t.entries, w.iters[it].value) + 1);
    }
    PositionsStay(t.entries, i);
    MapCount(w.iters, c.it, KeyAt(t.entries, i));
  }

  lemma CallKeepsInv(own: bool, w: World, c: Call)
    requires Inv(own, w) && Allowed(w, c)
    ensures Inv(own, Apply(own, w, c))
  {
    hide Inv;
    match c
    case Add(data, order) => AddKeepsInv(own, w, Entry(w.table.nextId, data), order, w.table.nextId + 1);
    case AddWithID(data, key, order) => AddKeepsInv(own, w, Entry(key, data), order, w.table.nextId);
    case RemoveId(key) => RemoveKeepsInv(own, w, key);
    case ClearAll => ClearKeepsInv(own, w);
    case Close(it) => CloseKeepsInv(own, w, it);
    case _ => IterKeepsInv(own, w, c);
  }

  lemma AddCallRefines(own: bool, w: World, c: Call)
    requires Inv(own, w) && Allowed(w, c) && (c.Add? || c.AddWithID?)
    ensures Seen(Apply(own, w, c).table) == SpecApply(own, w, c)
  {
    hide Values, Find, DistinctKeys, Keys;
    var t, e := w.table, if c.Add? then Entry(w.table.nextId, c.data) else Entry(c.key, c.data);
    AddRefines(t, e, c.order);
    assert Seen(Apply(own, w, c).table) == Seen(t.(entries := c.order));
  }

  lemma ClearCallRefines(own: bool, w: World)
    requires Inv(own, w)
    ensures Seen(Apply(own, w, ClearAll).table) == SpecApply(own, w, ClearAll)
  {
    hide Clear, Seen, Valid;
    ClearRefines(own, w.table);
    MapCount(w.iters, 0, None);
  }

  lemma IterCallRefines(own: bool, w: World, c: Call)
    requires Inv(own, w) && Allowed(w, c) && (c.Open? || c.Copy? || c.Advance? || c.Close?)
    ensures Seen(Apply(own, w, c).table) == SpecApply(own, w, c)
  {
    hide Values, Select, Find, DistinctKeys, Keys, CloseIterator, Begin, Settle, Next;
    var t := w.table;
    if c.Close? {
      CloseRefines(own, t);
    } else {
      assert Seen(t.(depth := t.depth + 1)) == Seen(t);
    }
  }

  /** One call changes the seen map as immediate removal would, and the sizes report that map. */
  lemma CallRefines(own: bool, w: World, c: Call)
    requires Inv(own, w) && Allowed(w, c)
    ensures Seen(Apply(own, w, c).table) == SpecApply(own, w, c)
    ensures Size(Apply(own, w, c).table) == |SpecApply(own, w, c)|
  {
    CallKeepsInv(own, w, c);
    SizeIsSeen(Apply(own, w, c).table);
    hide Inv, Valid, Seen, Size;
    match c
    case RemoveId(key) => RemoveRefines(own, w.table, key);
    case ClearAll => ClearCallRefines(own, w);
    case Add(_, _) => AddCallRefines(own, w, c);
    case AddWithID(_, _, _) => AddCallRefines(own, w, c);
    case _ => IterCallRefines(own, w, c);
  }

  /** In every reachable state: the pending ids are keys of the table and there are none when no
      iterator is open, every iterator is on an entry of the table or at the end, the size is the
      size of the seen map, and stored and deleted pointers together are the added ones. */
  lemma {:induction false} RunKeepsInv(own: bool, w: World, cs: seq<Call>)
    requires Inv(own, w) && AllowedRun(own, w, cs)
    ensures Inv(own, Run(own, w, cs))
    ensures Size(Run(own, w, cs).table) == |Seen(Run(own, w, cs).table)|
    decreases |cs|
  {
    assert Valid(w.table);
    hide Inv, Apply, Allowed;
    if cs == [] {
      SizeIsSeen(w.table);
    } else {
      CallKeepsInv(own, w, cs[0]);
      RunKeepsInv(own, Apply(own, w, cs[0]), cs[1..]);
    }
  }

  /** Every key was handed out by Add, and all of them are positive 32-bit integers. */
  ghost predicate AutoIds(t: Table) {
    1 <= t.nextId <= MAX_ID && forall k :: k in Keys(t.entries) ==> 1 <= k < t.nextId
  }

  lemma AutoIdsKept(own: bool, w: World, c: Call)
    requires Inv(own, w) && Allowed(w, c) && !c.AddWithID? && AutoIds(w.table)
    ensures AutoIds(Apply(own, w, c).table)
  {
    hide Values, Select, Find, DistinctKeys, Keys;
    var t := w.table;
    SelectKeys(t.entries, {});
    if c.Add? {
      AddRefines(t, Entry(t.nextId, c.data), c.order);
    } else if c.RemoveId? {
      SelectKeys(t.entries, {c.key});
    } else if c.Close? {
      SelectKeys(t.entries, t.removed);
    }
  }

  lemma SelectKeys(es: seq<Entry>, ks: set<Key>)
    ensures Keys(Select(es, ks, false)) <= Keys(es) && Keys([]) == {}
  {
    SelectMembers(es, ks, false);
  }

  lemma {:induction false} RunKeepsAutoIds(own: bool, w: World, cs: seq<Call>)
    requires Inv(own, w) && AllowedRun(own, w, cs) && AutoIds(w.table)
    requires forall n :: 0 <= n < |cs| ==> !cs[n].AddWithID?
    ensures AutoIds(Run(own, w, cs).table)
    decreases |cs|
  {
    hide Inv, Apply, Allowed, Keys;
    if cs != [] {
      AutoIdsKept(own, w, cs[0]);
      CallKeepsInv(own, w, cs[0]);
      RunKeepsAutoIds(own, Apply(own, w, cs[0]), cs[1..]);
    }
  }

  /** As long as only Add is used, the ids in the table are positive and below the one that it is
      about to give out, which is never taken. */
  lemma AutoIdsNeverCollide(own: bool, cs: seq<Call>)
    requires AllowedRun(own, START, cs) && forall n :: 0 <= n < |cs| ==> !cs[n].AddWithID?
    ensures var t := Run(own, START, cs).table;
            t.nextId !in Keys(t.entries) && 1 <= t.nextId <= MAX_ID &&
            forall k :: k in Keys(t.entries) ==> 1 <= k < t.nextId
  {
    RunKeepsAutoIds(own, START, cs);
  }

  // ---------------------------------------------------------------------------
  // Deleting.
  // ---------------------------------------------------------------------------

  /** ~IDMap: release_all on what is left. */
  ghost function Destroy(own: bool, w: World): multiset<Ptr> {
    w.table.deleted + Release(own, Values(w.table.entries))
  }

  /** In the owning map every added pointer has been deleted as often as it was added by the time
      the map is destroyed, so exactly once when pointers are distinct; the external-pointer
      map never deletes. */
  lemma DeletedOnce(own: bool, cs: seq<Call>)
    requires AllowedRun(own, START, cs)
    ensures var w := Run(own, START, cs);
            own ==> Destroy(own, w) == w.added && forall p :: w.added[p] == 1 ==> Destroy(own, w)[p] == 1
    ensures !own ==> Destroy(own, Run(own, START, cs)) == multiset{}
    ensures var w := Run(own, START, cs);
            own ==> forall p :: w.table.deleted[p] <= w.added[p]
  {
    RunKeepsInv(own, START, cs);
  }

  lemma OthersOpen(w: World, it: nat)
    requires it in w.iters && w.table.depth == |w.iters| && w.iters - {it} != map[]
    ensures w.table.depth > 1
  {
    MapCount(w.iters, it, None);
    MapCount(w.iters - {it}, it, None);
  }

  /** No call deletes anything or takes an entry out of the table while an iterator stays open. */
  lemma NothingDeletedWhileIterating(own: bool, w: World, c: Call)
    requires Inv(own, w) && Allowed(w, c) && Apply(own, w, c).iters != map[]
    ensures var r := Apply(own, w, c);
            r.table.deleted == w.table.deleted && forall e :: e in w.table.entries ==> e in r.table.entries
  {
    hide Values, Select, Find, Keys, DistinctKeys, Begin, Settle, Next, Valid, Compact;
    MapCount(w.iters, 0, None);
    match c {
      case Close(it) =>
        OthersOpen(w, it);
        hide Inv;
      case Add(data, order) =>
        hide Inv;
        RehashKeeps(w.table, Entry(w.table.nextId, data), order);
      case AddWithID(data, key, order) =>
        hide Inv;
        RehashKeeps(w.table, Entry(key, data), order);
      case _ =>
    }
  }

  lemma RehashKeeps(t: Table, e: Entry, order: seq<Entry>)
    requires Rehash(t, e, order)
    ensures forall x :: x in t.entries ==> x in order
  {
    assert forall x :: x in order <==> x in multiset(order);
    assert forall x :: x in t.entries ==> x in t.entries + [e];
  }

  // ---------------------------------------------------------------------------
  // One iterator's walk.
  // ---------------------------------------------------------------------------

  /** Calls that add nothing and leave iterator it open. */
  predicate Quiet(c: Call, it: nat) {
    !c.Add? && !c.AddWithID? && c != Close(it)
  }

  /** The entries that iterator it lands on during the calls. */
  ghost function Landings(own: bool, w: World, cs: seq<Call>, it: nat): seq<Key>
    requires AllowedRun(own, w, cs)
    decreases |cs|
  {
    if cs == [] then [] else
      var r := Apply(own, w, cs[0]);
      (if cs[0] == Advance(it) && r.iters[it].Some? then [r.iters[it].value] else []) +
      Landings(own, r, cs[1..], it)
  }

  /** While an iterator stays open and nothing is added, the table stands still, the pending
      ids only grow, and only its own advance moves the iterator. */
  lemma QuietCall(own: bool, w: World, c: Call, it: nat)
    requires Inv(own, w) && Allowed(w, c) && it in w.iters && Quiet(c, it)
    ensures var r := Apply(own, w, c);
            r.table.entries == w.table.entries && w.table.removed <= r.table.removed && it in r.iters
    ensures c != Advance(it) ==> Apply(own, w, c).iters[it] == w.iters[it]
  {
    hide Values, Select, Find, Keys, DistinctKeys, Begin, Settle, Next;
    MapCount(w.iters, it, None);
    if c.Close? {
      MapCount(w.iters, c.it, None);
      assert it in w.iters - {c.it};
      MapCount(w.iters - {c.it}, it, None);
    }
  }

  /** An advance lands further on, on an entry that is not pending, or at the end. */
  lemma AdvanceMoves(own: bool, w: World, it: nat)
    requires Inv(own, w) && Allowed(w, Advance(it))
    ensures var t, p, q := w.table, w.iters[it], Apply(own, w, Advance(it)).iters[it];
            var i, j := IndexAt(t.entries, p), IndexAt(t.entries, q);
            i < j && (q.Some? ==> j < |t.entries| && t.entries[j].key == q.value && q.value !in t.removed) &&
            forall m :: i < m < j ==> t.entries[m].key in t.removed
  {
    hide Values, Select, Find, Keys, DistinctKeys, IndexOf, SkipFrom;
    var t := w.table;
    KeysAt(t.entries, w.iters[it].value);
    var j := SkipFrom(t, IndexOf(t.entries, w.iters[it].value) + 1);
    if j < |t.entries| {
      IndexOfIs(t.entries, j);
    }
  }

  /** The keys ls were landed on, in this order, on a walk from position i to position j, and
      the entries passed without landing are in removed. */
  ghost predicate Walked(es: seq<Entry>, ls: seq<Key>, i: nat, j: nat, removed: set<Key>) {
    && i <= j && |ls| <= j - i
    && Increasing(es, ls, i)
    && forall m :: i < m <= j && m < |es| && es[m].key !in removed ==> es[m].key in ls
  }

  lemma WalkedStep(es: seq<Entry>, k: Key, ls: seq<Key>, i: nat, h: nat, j: nat, removed: set<Key>)
    requires Walked(es, ls, h, j, removed) && i < h < |es| && IndexOf(es, k) == h
    requires forall m :: i < m < h ==> es[m].key in removed
    ensures Walked(es, [k] + ls, i, j, removed)
  {
    hide IndexOf;
    assert ([k] + ls)[1..] == ls;
    assert k in [k] + ls;
  }

  lemma WalkedToEnd(es: seq<Entry>, ls: seq<Key>, i: nat, j: nat, removed: set<Key>)
    requires Walked(es, ls, |es|, j, removed) && j <= |es| && i < |es|
    requires forall m :: i < m < |es| ==> es[m].key in removed
    ensures Walked(es, ls, i, j, removed)
  {
  }

  /** Over any quiet calls, the walk lands on entries in strictly increasing positions, so on each
      at most once and for at most as many steps as there are entries ahead, and on every
      entry passed that is not pending in the end. */
  lemma {:induction false} WalkVisitsOnce(own: bool, w: World, cs: seq<Call>, it: nat)
    requires Inv(own, w) && AllowedRun(own, w, cs) && it in w.iters
    requires forall n :: 0 <= n < |cs| ==> Quiet(cs[n], it)
    ensures var r, es := Run(own, w, cs), w.table.entries;
            r.table.entries == es && w.table.removed <= r.table.removed && it in r.iters &&
            Walked(es, Landings(own, w, cs, it), IndexAt(es, w.iters[it]), IndexAt(es, r.iters[it]), r.table.removed)
    decreases |cs|
  {
    var es := w.table.entries;
    if cs == [] {
      assert Increasing(es, [], IndexAt(es, w.iters[it]));
    } else {
      hide Inv, Allowed, Apply, Walked, IndexAt;
      var v, r, p := Apply(own, w, cs[0]), Run(own, w, cs), w.iters[it];
      CallKeepsInv(own, w, cs[0]);
      QuietCall(own, w, cs[0], it);
      WalkVisitsOnce(own, v, cs[1..], it);
      var ls := Landings(own, v, cs[1..], it);
      if cs[0] == Advance(it) {
        AdvanceMoves(own, w, it);
        var q := v.iters[it];
        WalkedOn(es, w.table.removed, p, q, ls, IndexAt(es, r.iters[it]), r.table.removed);
      }
      assert [] + ls == ls;
    }
  }

  /** A walk after one advance from p to q is a walk from p. */
  lemma WalkedOn(es: seq<Entry>, pending: set<Key>, p: Position, q: Position, ls: seq<Key>, j: nat, removed: set<Key>)
    requires Walked(es, ls, IndexAt(es, q), j, removed) && pending <= removed && j <= |es|
    requires var i, h := IndexAt(es, p), IndexAt(es, q);
             i < h && (q.Some? ==> h < |es| && es[h].key == q.value) &&
             forall m :: i < m < h ==> es[m].key in pending
    ensures Walked(es, (if q.Some? then [q.value] else []) + ls, IndexAt(es, p), j, removed)
  {
    hide Walked;
    if q.Some? {
      WalkedStep(es, q.value, ls, IndexAt(es, p), IndexAt(es, q), j, removed);
    } else {
      WalkedToEnd(es, ls, IndexAt(es, p), j, removed);
      assert [] + ls == ls;
    }
  }

  /** The keys are at positions after i, in strictly increasing order. */
  predicate Increasing(es: seq<Entry>, ks: seq<Key>, i: int) {
    ks == [] || (i < IndexOf(es, ks[0]) < |es| && Increasing(es, ks[1..], IndexOf(es, ks[0])))
  }

  lemma {:induction false} IncreasingDistinct(es: seq<Entry>, ks: seq<Key>, i: int)
    requires Increasing(es, ks, i)
    ensures forall m :: 0 <= m < |ks| ==> i < IndexOf(es, ks[m]) < |es|
    ensures forall m, n :: 0 <= m < n < |ks| ==> ks[m] != ks[n]
    ensures ks != [] ==> |ks| < |es| - i
  {
    if ks != [] {
      IncreasingDistinct(es, ks[1..], IndexOf(es, ks[0]));
      assert forall m :: 0 < m < |ks| ==> ks[m] == ks[1..][m - 1];
    }
  }

  /** The walk of an iterator that is opened and then takes part in some calls. */
  ghost function Visits(own: bool, w: World, cs: seq<Call>, it: nat): seq<Key>
    requires Allowed(w, Open(it)) && AllowedRun(own, Apply(own, w, Open(it)), cs)
  {
    var v := Apply(own, w, Open(it));
    (if v.iters[it].Some? then [v.iters[it].value] else []) + Landings(own, v, cs, it)
  }

  /** A new iterator is on the first entry that is not pending, or at the end. */
  lemma OpenLands(own: bool, w: World, it: nat)
    requires Inv(own, w) && Allowed(w, Open(it))
    ensures var v, es := Apply(own, w, Open(it)), w.table.entries;
            var q := v.iters[it];
            v.table.entries == es && v.table.removed == w.table.removed &&
            (q.Some? ==> IndexAt(es, q) < |es| && es[IndexAt(es, q)].key == q.value && q.value !in w.table.removed) &&
            forall m :: 0 <= m < IndexAt(es, q) ==> es[m].key in w.table.removed
  {
    hide Values, IndexOf, SkipFrom;
    var t := w.table;
    var j := SkipFrom(t, 0);
    if j < |t.entries| {
      IndexOfIs(t.entries, j);
    }
  }

  /** A copy lands where the copied iterator is, or, if that entry is pending by now, on the next
      one that is not. */
  lemma CopyLands(own: bool, w: World, from: nat, it: nat)
    requires Inv(own, w) && Allowed(w, Copy(from, it))
    ensures var t, q := w.table, Apply(own, w, Copy(from, it)).iters[it];
            var i, j := IndexAt(t.entries, w.iters[from]), IndexAt(t.entries, q);
            i <= j && (q.Some? ==> j < |t.entries| && t.entries[j].key == q.value && q.value !in t.removed) &&
            forall m :: i <= m < j ==> t.entries[m].key in t.removed
  {
    hide Values, IndexOf, SkipFrom;
    var t := w.table;
    var j := SkipFrom(t, IndexAt(t.entries, w.iters[from]));
    if j < |t.entries| {
      IndexOfIs(t.entries, j);
    }
  }

  /** A complete walk: an iterator is opened, any quiet calls follow, and it ends at the end. It
      has landed on no entry twice, and on every entry that was never removed. */
  lemma CompleteWalk(own: bool, w: World, cs: seq<Call>, it: nat)
    requires Inv(own, w) && Allowed(w, Open(it)) && AllowedRun(own, Apply(own, w, Open(it)), cs)
    requires forall n :: 0 <= n < |cs| ==> Quiet(cs[n], it)
    requires var r := Run(own, Apply(own, w, Open(it)), cs); it in r.iters && r.iters[it] == None
    ensures var vs, r := Visits(own, w, cs, it), Run(own, Apply(own, w, Open(it)), cs);
            (forall m, n :: 0 <= m < n < |vs| ==> vs[m] != vs[n]) &&
            (forall e :: e in w.table.entries && e.key !in r.table.removed ==> e.key in vs) &&
            |vs| <= |w.table.entries|
  {
    var v, es := Apply(own, w, Open(it)), w.table.entries;
    var q, ls, r := v.iters[it], Landings(own, v, cs, it), Run(own, v, cs);
    var vs := Visits(own, w, cs, it);
    CallKeepsInv(own, w, Open(it));
    OpenLands(own, w, it);
    WalkVisitsOnce(own, v, cs, it);
    hide Inv, Allowed, Apply, AllowedRun, Run, Landings, Visits;
    FullWalk(es, q, ls, r.table.removed);
  }

  lemma FullWalk(es: seq<Entry>, q: Position, ls: seq<Key>, removed: set<Key>)
    requires Walked(es, ls, IndexAt(es, q), |es|, removed)
    requires q.Some? ==> IndexAt(es, q) < |es| && es[IndexAt(es, q)].key == q.value
    requires forall m :: 0 <= m < IndexAt(es, q) ==> es[m].key in removed
    ensures var vs := (if q.Some? then [q.value] else []) + ls;
            (forall m, n :: 0 <= m < n < |vs| ==> vs[m] != vs[n]) &&
            (forall e :: e in es && e.key !in removed ==> e.key in vs) &&
            |vs| <= |es|
  {
    hide IndexOf;
    var vs := (if q.Some? then [q.value] else []) + ls;
    if q.Some? {
      assert vs[1..] == ls;
      IncreasingDistinct(es, vs, -1);
      assert q.value in vs;
    } else {
      assert vs == ls;
      IncreasingDistinct(es, ls, |es|);
    }
    forall e | e in es && e.key !in removed ensures e.key in vs {
      var m :| 0 <= m < |es| && es[m] == e;
    }
  }
}
