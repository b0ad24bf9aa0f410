/** CallbackRegistry (base/callback_registry.h) over every interleaving of additions, dropped
    subscriptions, iterators and nested notifications. */
module Registry {
  import opened Wrappers

  type Callback = nat

  /** A list node: an identity that is never used again, and a callback unless it was Reset. */
  datatype Node = Node(id: nat, cb: Option<Callback>)

  /** A list iterator: on a node, or at the end of the list. */
  datatype Position = At(id: nat) | End

  /** nodes and active are the registry's fields; iters holds the position of every iterator that
      is alive, and subs the nodes whose Subscription is alive. */
  datatype World = World(nodes: seq<Node>, active: nat, nextId: nat, iters: map<nat, Position>, subs: set<nat>)

  const START := World([], 0, 0, map[], {})

  // ---------------------------------------------------------------------------
  // The list. A position stands for the part of the list that starts there.
  // ---------------------------------------------------------------------------

  function Ids(ns: seq<Node>): set<nat> {
    if ns == [] then {} else {ns[0].id} + Ids(ns[1..])
  }

  /** The ids increase along the list and lie between low and bound. */
  predicate Sorted(ns: seq<Node>, low: nat, bound: nat) {
    if ns == [] then low <= bound else low <= ns[0].id && Sorted(ns[1..], ns[0].id + 1, bound)
  }

  /** A node is null exactly when its id is not among the live subscriptions. */
  ghost predicate Marked(ns: seq<Node>, subs: set<nat>) {
    forall i :: 0 <= i < |ns| ==> (ns[i].cb.None? <==> ns[i].id !in subs)
  }

  function From(ns: seq<Node>, pos: Position): (s: seq<Node>)
    ensures |s| <= |ns|
  {
    match pos
    case End => []
    case At(id) => if ns == [] || ns[0].id == id then ns else From(ns[1..], pos)
  }

  function PositionOf(ns: seq<Node>): Position {
    if ns == [] then End else At(ns[0].id)
  }

  /** The loop in GetNext: the rest of the list from the first node that holds a callback. */
  function SkipNulls(ns: seq<Node>): (s: seq<Node>)
    ensures |s| <= |ns| && (s != [] ==> s[0].cb.Some?)
  {
    if ns == [] || ns[0].cb.Some? then ns else SkipNulls(ns[1..])
  }

  /** Reset on the callback of one node. */
  function Nullify(ns: seq<Node>, id: nat): seq<Node> {
    if ns == [] then []
    else if ns[0].id == id then [Node(id, None)] + ns[1..]
    else [ns[0]] + Nullify(ns[1..], id)
  }

  function Erase(ns: seq<Node>, id: nat): seq<Node> {
    if ns == [] then [] else if ns[0].id == id then ns[1..] else [ns[0]] + Erase(ns[1..], id)
  }

  function Compacted(ns: seq<Node>): seq<Node> {
    if ns == [] then [] else (if ns[0].cb.None? then [] else [ns[0]]) + Compacted(ns[1..])
  }

  lemma {:induction false} SortedBounds(ns: seq<Node>, low: nat, bound: nat)
    requires Sorted(ns, low, bound)
    ensures low <= bound && forall id :: id in Ids(ns) ==> low <= id < bound
  {
    if ns != [] {
      SortedBounds(ns[1..], ns[0].id + 1, bound);
    }
  }

  /** Whether a node is marked depends on its own id only. */
  lemma {:induction false} MarkedElse(ns: seq<Node>, subs: set<nat>, id: nat)
    requires id !in Ids(ns)
    ensures Marked(ns, subs) <==> Marked(ns, subs + {id})
    ensures Marked(ns, subs) <==> Marked(ns, subs - {id})
  {
    if ns != [] {
      MarkedElse(ns[1..], subs, id);
    }
  }

  lemma {:induction false} AppendNode(ns: seq<Node>, low: nat, bound: nat, cb: Callback, subs: set<nat>)
    requires Sorted(ns, low, bound) && Marked(ns, subs)
    ensures var r := ns + [Node(bound, Some(cb))];
            Sorted(r, low, bound + 1) && Ids(r) == Ids(ns) + {bound} && Marked(r, subs + {bound})
  {
    var n := Node(bound, Some(cb));
    var r := ns + [n];
    if ns == [] {
      assert r == [n];
    } else {
      assert r[1..] == ns[1..] + [n];
      SortedBounds(ns, low, bound);
      AppendNode(ns[1..], ns[0].id + 1, bound, cb, subs);
    }
  }

  lemma {:induction false} NullifyNode(ns: seq<Node>, low: nat, bound: nat, id: nat, subs: set<nat>)
    requires Sorted(ns, low, bound) && Marked(ns, subs) && id in Ids(ns)
    ensures var r := Nullify(ns, id);
            Sorted(r, low, bound) && Ids(r) == Ids(ns) && Marked(r, subs - {id})
  {
    var rest, r := ns[1..], Nullify(ns, id);
    SortedBounds(rest, ns[0].id + 1, bound);
    if ns[0].id == id {
      assert r[1..] == rest;
      MarkedElse(rest, subs, id);
    } else {
      assert r[1..] == Nullify(rest, id);
      NullifyNode(rest, ns[0].id + 1, bound, id, subs);
    }
  }

  lemma {:induction false} EraseNode(ns: seq<Node>, low: nat, bound: nat, id: nat, subs: set<nat>)
    requires Sorted(ns, low, bound) && Marked(ns, subs) && id in Ids(ns)
    ensures var r := Erase(ns, id);
            Sorted(r, low, bound) && Ids(r) == Ids(ns) - {id} && Marked(r, subs - {id})
  {
    var rest, r := ns[1..], Erase(ns, id);
    SortedBounds(rest, ns[0].id + 1, bound);
    if ns[0].id == id {
      MarkedElse(rest, subs, id);
    } else {
      assert r[1..] == Erase(rest, id);
      EraseNode(rest, ns[0].id + 1, bound, id, subs);
    }
  }

  lemma {:induction false} CompactNodes(ns: seq<Node>, low: nat, bound: nat, subs: set<nat>)
    requires Sorted(ns, low, bound) && Marked(ns, subs)
    ensures var r := Compacted(ns);
            Sorted(r, low, bound) && Ids(r) == Ids(ns) * subs && Marked(r, subs)
  {
    if ns != [] {
      var rest, r := Compacted(ns[1..]), Compacted(ns);
      CompactNodes(ns[1..], ns[0].id + 1, bound, subs);
      if ns[0].cb.None? {
        assert r == rest;
      } else {
        assert r == [ns[0]] + rest && r[1..] == rest;
      }
    }
  }

  /** The part of the list from a node on. */
  lemma {:induction false} FromNode(ns: seq<Node>, low: nat, bound: nat, id: nat, subs: set<nat>)
    requires Sorted(ns, low, bound) && Marked(ns, subs) && id in Ids(ns)
    ensures var s := From(ns, At(id));
            s != [] && s[0].id == id && Sorted(s, id, bound) && Marked(s, subs) &&
            forall i :: i in Ids(s) <==> i in Ids(ns) && i >= id
  {
    SortedBounds(ns, low, bound);
    SortedBounds(ns[1..], ns[0].id + 1, bound);
    if ns[0].id != id {
      FromNode(ns[1..], ns[0].id + 1, bound, id, subs);
    }
  }

  /** What the loop in GetNext passes is dead; what it stops at is alive. */
  lemma {:induction false} SkipNullNodes(ns: seq<Node>, low: nat, bound: nat, subs: set<nat>)
    requires Sorted(ns, low, bound) && Marked(ns, subs)
    ensures var s := SkipNulls(ns);
            Sorted(s, low, bound) && Marked(s, subs) && Ids(s) <= Ids(ns) &&
            (forall i :: i in Ids(ns) && i !in Ids(s) ==> i !in subs && (s != [] ==> i < s[0].id)) &&
            (s != [] ==> s[0].id in subs)
  {
    if ns != [] {
      if ns[0].cb.None? {
        var s := SkipNulls(ns[1..]);
        SkipNullNodes(ns[1..], ns[0].id + 1, bound, subs);
        SortedBounds(s, ns[0].id + 1, bound);
      }
    }
  }

  // ---------------------------------------------------------------------------
  // The calls.
  // ---------------------------------------------------------------------------

  datatype Call =
    | Add(cb: Callback)
    | Unsubscribe(id: nat)
    | Open(it: nat)
    | Copy(from: nat, it: nat)
    | GetNext(it: nat)
    | Close(it: nat)

  predicate Allowed(w: World, c: Call) {
    match c
    case Add(_) => true
    case Unsubscribe(id) => id in w.subs
    case Open(it) => it !in w.iters
    case Copy(from, it) => from in w.iters && it !in w.iters
    case GetNext(it) => it in w.iters
    case Close(it) => it in w.iters && w.active > 0
  }

  /** The rest of the list from the node that GetNext gives; empty when it gives NULL. */
  function Found(ns: seq<Node>, pos: Position): seq<Node> {
    SkipNulls(From(ns, pos))
  }

  /** Where GetNext leaves the iterator. */
  function Moved(ns: seq<Node>, pos: Position): Position {
    var s := Found(ns, pos);
    if s == [] then End else PositionOf(s[1..])
  }

  function Apply(w: World, c: Call): World
    requires Allowed(w, c)
  {
    match c
    case Add(cb) =>
      w.(nodes := w.nodes + [Node(w.nextId, Some(cb))], nextId := w.nextId + 1, subs := w.subs + {w.nextId})
    case Unsubscribe(id) =>
      w.(nodes := if w.active > 0 then Nullify(w.nodes, id) else Erase(w.nodes, id), subs := w.subs - {id})
    case Open(it) => w.(active := w.active + 1, iters := w.iters[it := PositionOf(w.nodes)])
    case Copy(from, it) => w.(active := w.active + 1, iters := w.iters[it := w.iters[from]])
    case GetNext(it) => w.(iters := w.iters[it := Moved(w.nodes, w.iters[it])])
    case Close(it) =>
      w.(active := w.active - 1, iters := w.iters - {it},
         nodes := if w.active == 1 then Compacted(w.nodes) else w.nodes)
  }

  predicate AllowedRun(w: World, cs: seq<Call>)
    decreases |cs|
  {
    cs == [] || (Allowed(w, cs[0]) && AllowedRun(Apply(w, cs[0]), cs[1..]))
  }

  function Run(w: World, cs: seq<Call>): World
    requires AllowedRun(w, cs)
    decreases |cs|
  {
    if cs == [] then w else Run(Apply(w, cs[0]), cs[1..])
  }

  /** Every live Subscription and every iterator names a node of the list or the end; a node is
      null exactly when its Subscription is dead; without iterators no node is null. */
  ghost predicate Inv(w: World) {
    && Sorted(w.nodes, 0, w.nextId)
    && w.active == |w.iters|
    && w.subs <= Ids(w.nodes)
    && Marked(w.nodes, w.subs)
    && (forall it :: it in w.iters && w.iters[it].At? ==> w.iters[it].id in Ids(w.nodes))
    && (w.iters == map[] ==> w.subs == Ids(w.nodes))
  }

  lemma AddKeepsInv(w: World, cb: Callback)
    requires Inv(w)
    ensures Inv(Apply(w, Add(cb)))
  {
    hide Sorted, Marked, Ids;
    AppendNode(w.nodes, 0, w.nextId, cb, w.subs);
  }

  lemma UnsubscribeKeepsInv(w: World, id: nat)
    requires Inv(w) && id in w.subs
    ensures Inv(Apply(w, Unsubscribe(id)))
  {
    hide Sorted, Marked, Ids;
    MapCount(w.iters, 0, End);
    if w.active > 0 {
      NullifyNode(w.nodes, 0, w.nextId, id, w.subs);
    } else {
      EraseNode(w.nodes, 0, w.nextId, id, w.subs);
    }
  }

  lemma CloseKeepsInv(w: World, it: nat)
    requires Inv(w) && Allowed(w, Close(it))
    ensures Inv(Apply(w, Close(it)))
  {
    hide Sorted, Marked, Ids;
    MapCount(w.iters, it, End);
    MapCount(w.iters - {it}, it, End);
    if w.active == 1 {
      CompactNodes(w.nodes, 0, w.nextId, w.subs);
      assert Ids(w.nodes) * w.subs == w.subs;
    }
  }

  lemma HeadId(ns: seq<Node>)
    ensures PositionOf(ns).At? ==> PositionOf(ns).id in Ids(ns)
    ensures ns != [] ==> Ids(ns[1..]) <= Ids(ns)
  {
  }

  lemma IterKeepsInv(w: World, c: Call)
    requires Inv(w) && Allowed(w, c) && (c.Open? || c.Copy? || c.GetNext?)
    ensures Inv(Apply(w, c))
  {
    hide Sorted, Marked, Ids, From, SkipNulls;
    MapCount(w.iters, c.it, Apply(w, c).iters[c.it]);
    match c {
      case Open(it) => HeadId(w.nodes);
      case Copy(from, it) =>
      case GetNext(it) => GetNextMoves(w, it);
    }
  }

  /** The ids of a non-empty list: its head, and those from the next position on. */
  lemma NextInList(s: seq<Node>, low: nat, bound: nat)
    requires Sorted(s, low, bound) && s != []
    ensures var q := PositionOf(s[1..]);
            s[0].id in Ids(s) && (forall i :: i in Ids(s) ==> i >= s[0].id) &&
            (q == End ==> forall i :: i in Ids(s) ==> i == s[0].id) &&
            (q.At? ==> q.id in Ids(s) && q.id > s[0].id && forall i :: i in Ids(s) && i > s[0].id ==> i >= q.id)
  {
    var t := s[1..];
    SortedBounds(t, s[0].id + 1, bound);
    if t != [] {
      SortedBounds(t[1..], t[0].id + 1, bound);
    }
  }

  /** GetNext in terms of ids: it gives the first live node at or after its position and moves to
      the next node of the list, or to the end. */
  ghost predicate NextFound(ids: set<nat>, subs: set<nat>, p: Position, s: seq<Node>, q: Position) {
    match p
    case End => s == [] && q == End
    case At(id) =>
      if s == [] then q == End && forall i :: i in ids && i >= id ==> i !in subs
      else
        var g := s[0].id;
        g in ids && g in subs && g >= id && (forall i :: i in ids && id <= i < g ==> i !in subs) &&
        match q
        case End => forall i :: i in ids ==> i <= g
        case At(next) => next in ids && next > g && forall i :: i in ids && i > g ==> i >= next
  }

  lemma GetNextMoves(w: World, it: nat)
    requires Inv(w) && it in w.iters
    ensures var p := w.iters[it];
            NextFound(Ids(w.nodes), w.subs, p, Found(w.nodes, p), Moved(w.nodes, p))
  {
    hide Sorted, Marked, Ids, From, SkipNulls;
    var p, s := w.iters[it], Found(w.nodes, w.iters[it]);
    if p == End {
      NothingFrom(w.nodes);
    } else {
      var f := From(w.nodes, p);
      FromNode(w.nodes, 0, w.nextId, p.id, w.subs);
      SkipNullNodes(f, p.id, w.nextId, w.subs);
      if s != [] {
        NextInList(s, p.id, w.nextId);
      } else {
        assert Ids(s) == {} by { NothingFrom(w.nodes); }
      }
    }
  }

  lemma NothingFrom(ns: seq<Node>)
    ensures Found(ns, End) == [] && Ids([]) == {}
  {
  }

  lemma CallKeepsInv(w: World, c: Call)
    requires Inv(w) && Allowed(w, c)
    ensures Inv(Apply(w, c))
  {
    hide Inv;
    match c
    case Add(cb) => AddKeepsInv(w, cb);
    case Unsubscribe(id) => UnsubscribeKeepsInv(w, id);
    case Close(it) => CloseKeepsInv(w, it);
    case _ => IterKeepsInv(w, c);
  }

  lemma {:induction false} RunKeepsInv(w: World, cs: seq<Call>)
    requires Inv(w) && AllowedRun(w, cs)
    ensures Inv(Run(w, cs))
    decreases |cs|
  {
    hide Inv, Apply, Allowed;
    if cs != [] {
      CallKeepsInv(w, cs[0]);
      RunKeepsInv(Apply(w, cs[0]), cs[1..]);
    }
  }

  /** The list is empty and the count is zero exactly when nothing refers to the registry any more. */
  lemma NothingLeft(w: World)
    requires Inv(w)
    ensures w.active == 0 && w.nodes == [] <==> w.subs == {} && w.iters == map[]
  {
    MapCount(w.iters, 0, End);
    if w.nodes != [] {
      assert w.nodes[0].id in Ids(w.nodes);
    }
  }

  /** While an iterator stays alive no node leaves the list, and only additions bring new ones. */
  lemma NothingErasedWhileIterating(w: World, c: Call)
    requires Inv(w) && Allowed(w, c) && w.iters != map[] && Apply(w, c).iters != map[]
    ensures Ids(Apply(w, c).nodes) == Ids(w.nodes) + if c.Add? then {w.nextId} else {}
  {
    hide Sorted, Marked, Ids, Compacted, Found, Moved;
    MapCount(w.iters, 0, End);
    match c {
      case Add(cb) => AppendNode(w.nodes, 0, w.nextId, cb, w.subs);
      case Unsubscribe(id) => NullifyNode(w.nodes, 0, w.nextId, id, w.subs);
      case Close(it) =>
        MapCount(w.iters, it, End);
        MapCount(w.iters - {it}, 0, End);
      case _ =>
    }
  }

  /** A node, wherever it is in the list, holds this callback or has been nulled out. */
  ghost predicate Holds(ns: seq<Node>, id: nat, cb: Callback) {
    forall n :: n in ns && n.id == id ==> n.cb == None || n.cb == Some(cb)
  }

  lemma {:induction false} NodesStay(ns: seq<Node>, id: nat)
    ensures forall n :: n in Nullify(ns, id) ==> n in ns || n == Node(id, None)
    ensures forall n :: n in Erase(ns, id) ==> n in ns
    ensures forall n :: n in Compacted(ns) ==> n in ns
  {
    if ns != [] {
      NodesStay(ns[1..], id);
      assert ns == [ns[0]] + ns[1..];
    }
  }

  /** A node is never given another callback than the one it was added with. */
  lemma {:induction false} CallbackStays(w: World, cs: seq<Call>, id: nat, cb: Callback)
    requires AllowedRun(w, cs) && Holds(w.nodes, id, cb) && id < w.nextId
    ensures Holds(Run(w, cs).nodes, id, cb)
    decreases |cs|
  {
    if cs != [] {
      hide Nullify, Erase, Compacted, Moved, PositionOf;
      NodesStay(w.nodes, if cs[0].Unsubscribe? then cs[0].id else 0);
      CallbackStays(Apply(w, cs[0]), cs[1..], id, cb);
    }
  }

  /** The node that Add makes holds the callback given to it, and whenever GetNext gives that node
      later on, this is the callback that is run. */
  lemma RunsItsCallback(w: World, cb: Callback, cs: seq<Call>, it: nat)
    requires Inv(w) && AllowedRun(Apply(w, Add(cb)), cs) && it in Run(Apply(w, Add(cb)), cs).iters
    ensures var v := Run(Apply(w, Add(cb)), cs);
            var s := Found(v.nodes, v.iters[it]);
            s != [] && s[0].id == w.nextId ==> s[0] == Node(w.nextId, Some(cb))
  {
    var r := Apply(w, Add(cb));
    var v := Run(r, cs);
    NewNodeHolds(w, cb);
    CallbackStays(r, cs, w.nextId, cb);
    FoundInList(v.nodes, v.iters[it]);
  }

  lemma NewNodeHolds(w: World, cb: Callback)
    requires Inv(w)
    ensures Holds(Apply(w, Add(cb)).nodes, w.nextId, cb)
  {
    SortedBounds(w.nodes, 0, w.nextId);
    IdsOfNodes(w.nodes);
  }

  lemma {:induction false} IdsOfNodes(ns: seq<Node>)
    ensures forall n :: n in ns ==> n.id in Ids(ns)
  {
    if ns != [] {
      IdsOfNodes(ns[1..]);
      assert ns == [ns[0]] + ns[1..];
    }
  }

  lemma {:induction false} FoundInList(ns: seq<Node>, pos: Position)
    ensures forall n :: n in From(ns, pos) ==> n in ns
    ensures forall n :: n in SkipNulls(ns) ==> n in ns
    ensures Found(ns, pos) != [] ==> Found(ns, pos)[0] in ns
  {
    if ns != [] {
      FoundInList(ns[1..], pos);
      assert ns == [ns[0]] + ns[1..];
    }
  }

  // ---------------------------------------------------------------------------
  // One notification pass.
  // ---------------------------------------------------------------------------

  /** The nodes, null or not, that iterator it has not yet passed. */
  ghost function Ahead(w: World, it: nat): set<nat>
    requires it in w.iters
  {
    match w.iters[it]
    case End => {}
    case At(id) => set i | i in Ids(w.nodes) && i >= id
  }

  /** The node whose callback iterator it gives out in a call, if any. */
  function Given(w: World, c: Call, it: nat): seq<nat>
    requires Allowed(w, c)
  {
    if c == GetNext(it) && Found(w.nodes, w.iters[it]) != [] then [Found(w.nodes, w.iters[it])[0].id] else []
  }

  /** The nodes whose callbacks iterator it gives out during the calls, in order. */
  function Ran(w: World, cs: seq<Call>, it: nat): seq<nat>
    requires AllowedRun(w, cs)
    decreases |cs|
  {
    if cs == [] then [] else Given(w, cs[0], it) + Ran(Apply(w, cs[0]), cs[1..], it)
  }

  /** The Subscription of node n is alive when iterator it passes n. */
  ghost predicate AliveWhenReached(w: World, cs: seq<Call>, it: nat, n: nat)
    requires AllowedRun(w, cs)
    decreases |cs|
  {
    cs != [] && it in w.iters && it in Apply(w, cs[0]).iters &&
    var r := Apply(w, cs[0]);
    if n in Ahead(w, it) && n !in Ahead(r, it) then n in w.subs
    else AliveWhenReached(r, cs[1..], it, n)
  }

  /** What is ahead of an open iterator changes only by its own GetNext and by additions: a new
      node is ahead of it exactly when it was not at the end. */
  lemma AheadStays(w: World, c: Call, it: nat)
    requires Inv(w) && Allowed(w, c) && it in w.iters && c != GetNext(it) && c != Close(it)
    ensures it in Apply(w, c).iters && Apply(w, c).iters[it] == w.iters[it]
    ensures Ahead(Apply(w, c), it) ==
            Ahead(w, it) + if c.Add? && w.iters[it].At? then {w.nextId} else {}
  {
    hide Sorted, Marked, Ids, Compacted, Found, Moved;
    SortedBounds(w.nodes, 0, w.nextId);
    assert w.iters != map[] && it in Apply(w, c).iters;
    NothingErasedWhileIterating(w, c);
  }

  /** A copied iterator has ahead of it what the other one has. */
  lemma CopyAhead(w: World, from: nat, it: nat)
    requires Inv(w) && Allowed(w, Copy(from, it))
    ensures Ahead(Apply(w, Copy(from, it)), it) == Ahead(w, from)
  {
  }

  /** GetNext gives the first node ahead whose Subscription is alive, and passes it and the
      dead nodes before it; without one it passes everything and stays at the end. */
  lemma GetNextPasses(w: World, it: nat)
    requires Inv(w) && it in w.iters
    ensures var r, g := Apply(w, GetNext(it)), Given(w, GetNext(it), it);
            it in r.iters &&
            (g == [] ==> Ahead(r, it) == {} && r.iters[it] == End && Ahead(w, it) !! w.subs) &&
            (g != [] ==> |g| == 1 && g[0] in Ahead(w, it) && g[0] in w.subs &&
                         Ahead(r, it) == (set i | i in Ahead(w, it) && i > g[0]) &&
                         forall i :: i in Ahead(w, it) && i < g[0] ==> i !in w.subs)
  {
    hide Sorted, Marked, Ids, Found, Moved;
    GetNextMoves(w, it);
  }

  lemma AheadBelow(w: World, it: nat)
    requires Inv(w) && it in w.iters
    ensures forall n :: n in Ahead(w, it) ==> n < w.nextId
    ensures w.nodes != [] ==> w.iters[it] == PositionOf(w.nodes) ==> Ahead(w, it) == Ids(w.nodes)
  {
    SortedBounds(w.nodes, 0, w.nextId);
    if w.nodes != [] {
      SortedBounds(w.nodes[1..], w.nodes[0].id + 1, w.nextId);
    }
  }

  ghost predicate Increasing(ids: seq<nat>) {
    forall i, j :: 0 <= i < j < |ids| ==> ids[i] < ids[j]
  }

  /** n is ahead of the iterator, or was added after w while the iterator was not at the end. */
  ghost predicate MayRun(w: World, it: nat, n: nat)
    requires it in w.iters
  {
    n in Ahead(w, it) || (n >= w.nextId && w.iters[it].At?)
  }

  /** What the induction steps about a pass need of one call. */
  lemma PassStep(w: World, c: Call, it: nat)
    requires Inv(w) && Allowed(w, c) && it in w.iters && c != Close(it)
    ensures var r, g := Apply(w, c), Given(w, c, it);
            it in r.iters && w.nextId <= r.nextId && |g| <= 1 &&
            (g != [] ==> g[0] < w.nextId && g[0] in Ahead(w, it) && g[0] in w.subs &&
                         forall m :: MayRun(r, it, m) ==> g[0] < m) &&
            (forall m :: MayRun(r, it, m) ==> MayRun(w, it, m)) &&
            (forall n :: n in Ahead(w, it) ==> (n in g <==> n !in Ahead(r, it) && n in w.subs))
  {
    hide Sorted, Marked, Ids, Found, Ahead;
    AheadBelow(w, it);
    if c == GetNext(it) {
      GetNextPasses(w, it);
      GetNextMoves(w, it);
    } else {
      AheadStays(w, c, it);
    }
  }

  /** A pass runs, in list order and at most once each, nodes that were ahead of the iterator or
      were added while it was not at the end. */
  lemma {:induction false} PassInOrder(w: World, cs: seq<Call>, it: nat)
    requires Inv(w) && AllowedRun(w, cs) && it in w.iters && Close(it) !in cs
    ensures Increasing(Ran(w, cs, it))
    ensures forall n :: n in Ran(w, cs, it) ==> MayRun(w, it, n) && n < Run(w, cs).nextId
    ensures w.nextId <= Run(w, cs).nextId
    decreases |cs|
  {
    if cs != [] {
      var r := Apply(w, cs[0]);
      CallKeepsInv(w, cs[0]);
      PassStep(w, cs[0], it);
      assert cs == [cs[0]] + cs[1..];
      PassInOrder(r, cs[1..], it);
      hide Inv, Allowed, Apply, Ahead, Given, MayRun;
      var g, rest := Given(w, cs[0], it), Ran(r, cs[1..], it);
      if g == [] {
        assert g + rest == rest;
      } else {
        assert g == [g[0]];
        IncreasingCons(g[0], rest);
      }
    }
  }

  lemma IncreasingCons(x: nat, xs: seq<nat>)
    requires Increasing(xs) && forall y :: y in xs ==> x < y
    ensures Increasing([x] + xs)
  {
    assert forall i :: 0 <= i < |xs| ==> xs[i] in xs;
  }

  /** A node that is ahead of the iterator is run exactly when its Subscription is alive at the
      moment the iterator reaches it, whatever else happens meanwhile. */
  lemma {:induction false} RunIffAliveWhenReached(w: World, cs: seq<Call>, it: nat, n: nat)
    requires Inv(w) && AllowedRun(w, cs) && it in w.iters && Close(it) !in cs && n in Ahead(w, it)
    ensures n in Ran(w, cs, it) <==> AliveWhenReached(w, cs, it, n)
    decreases |cs|
  {
    if cs != [] {
      var c, r := cs[0], Apply(w, cs[0]);
      CallKeepsInv(w, c);
      assert cs == [c] + cs[1..];
      AheadBelow(w, it);
      PassStep(w, c, it);
      if n in Ahead(r, it) {
        RunIffAliveWhenReached(r, cs[1..], it, n);
      } else {
        NeverAheadNeverRun(r, cs[1..], it, n);
      }
      assert Ran(w, cs, it) == Given(w, c, it) + Ran(r, cs[1..], it);
    }
  }

  /** A node that the iterator has already passed, or that was added when it was at the end, is
      not run by it. */
  lemma NeverAheadNeverRun(w: World, cs: seq<Call>, it: nat, n: nat)
    requires Inv(w) && AllowedRun(w, cs) && it in w.iters && Close(it) !in cs
    requires n !in Ahead(w, it) && n < w.nextId
    ensures n !in Ran(w, cs, it)
  {
    PassInOrder(w, cs, it);
  }

  /** When the pass is over, every node that was ahead has been reached: it was run if its
      Subscription is still alive, and not run if it was dead from the beginning. */
  lemma {:induction false} PassReachesAll(w: World, cs: seq<Call>, it: nat, n: nat)
    requires Inv(w) && AllowedRun(w, cs) && it in w.iters && Close(it) !in cs && n in Ahead(w, it)
    requires it in Run(w, cs).iters && Run(w, cs).iters[it] == End
    ensures n in Run(w, cs).subs ==> n in Ran(w, cs, it)
    ensures n !in w.subs ==> n !in Ran(w, cs, it)
    decreases |cs|
  {
    AheadBelow(w, it);
    if cs != [] {
      var c, r := cs[0], Apply(w, cs[0]);
      CallKeepsInv(w, c);
      assert cs == [c] + cs[1..];
      PassStep(w, c, it);
      hide Inv, Allowed, Apply, Ahead, Given;
      if n !in w.subs {
      }
      if n in Ahead(r, it) {
        PassReachesAll(r, cs[1..], it, n);
      } else {
        NeverAheadNeverRun(r, cs[1..], it, n);
        if n !in w.subs {
          DeadForever(r, cs[1..], n);
        }
      }
      assert Ran(w, cs, it) == Given(w, c, it) + Ran(r, cs[1..], it);
    }
  }

  lemma {:induction false} DeadForever(w: World, cs: seq<Call>, n: nat)
    requires AllowedRun(w, cs) && n !in w.subs && n < w.nextId
    ensures n !in Run(w, cs).subs
    decreases |cs|
  {
    if cs != [] {
      hide Allowed, Apply;
      DeadForever(Apply(w, cs[0]), cs[1..], n);
    }
  }

  // ---------------------------------------------------------------------------
  // The whole of one Notify.
  // ---------------------------------------------------------------------------

  lemma {:induction false} RunSplits(w: World, a: seq<Call>, b: seq<Call>, it: nat)
    ensures AllowedRun(w, a + b) <==> AllowedRun(w, a) && AllowedRun(Run(w, a), b)
    ensures AllowedRun(w, a + b) ==>
              Run(w, a + b) == Run(Run(w, a), b) && Ran(w, a + b, it) == Ran(w, a, it) + Ran(Run(w, a), b, it)
    decreases |a|
  {
    if a == [] {
      assert a + b == b;
      assert AllowedRun(w, a + b) ==> [] + Ran(w, b, it) == Ran(w, b, it);
    } else {
      hide Allowed, Apply, Given;
      assert (a + b)[1..] == a[1..] + b;
      if Allowed(w, a[0]) {
        RunSplits(Apply(w, a[0]), a[1..], b, it);
      }
    }
  }

  /** A notification: its iterator is opened, GetNext is called and other calls happen, in any
      order, until it is at the end. The nodes run are run in list order and once each; a node
      present at the start is run exactly when its Subscription is alive when it is reached, so
      always when it is never dropped, and never when it was dropped before. */
  lemma NotifyPass(w: World, cs: seq<Call>, it: nat)
    requires Inv(w) && Allowed(w, Open(it)) && AllowedRun(Apply(w, Open(it)), cs) && Close(it) !in cs
    requires var r := Run(Apply(w, Open(it)), cs); it in r.iters && r.iters[it] == End
    ensures var v, ran := Apply(w, Open(it)), Ran(Apply(w, Open(it)), cs, it);
            Increasing(ran) &&
            forall n :: n in Ids(w.nodes) ==>
              (n in ran <==> AliveWhenReached(v, cs, it, n)) &&
              (n in Run(v, cs).subs ==> n in ran) && (n !in w.subs ==> n !in ran)
  {
    var v := Apply(w, Open(it));
    CallKeepsInv(w, Open(it));
    PassInOrder(v, cs, it);
    AheadBelow(v, it);
    hide Inv, Allowed;
    forall n | n in Ids(w.nodes)
      ensures n in Ran(v, cs, it) <==> AliveWhenReached(v, cs, it, n)
      ensures n in Run(v, cs).subs ==> n in Ran(v, cs, it)
      ensures n !in w.subs ==> n !in Ran(v, cs, it)
    {
      assert w.nodes != [];
      RunIffAliveWhenReached(v, cs, it, n);
      PassReachesAll(v, cs, it, n);
    }
  }

  /** A callback added during a pass is run in that pass exactly when the iterator was not at the
      end when it was added and its Subscription is alive when it is reached. */
  lemma AddedDuringPass(w: World, before: seq<Call>, cb: Callback, after: seq<Call>, it: nat)
    requires Inv(w) && it in w.iters && AllowedRun(w, before + ([Add(cb)] + after))
    requires Close(it) !in before + ([Add(cb)] + after)
    ensures AllowedRun(w, before) && AllowedRun(Run(w, before), [Add(cb)] + after)
    ensures var v, n := Run(w, before), Run(w, before).nextId;
            it in v.iters && AllowedRun(Apply(v, Add(cb)), after) &&
            (n in Ran(w, before + ([Add(cb)] + after), it) <==>
             v.iters[it].At? && AliveWhenReached(Apply(v, Add(cb)), after, it, n))
  {
    RunSplits(w, before, [Add(cb)] + after, it);
    var v := Run(w, before);
    var n, r := v.nextId, Apply(v, Add(cb));
    RunKeepsInv(w, before);
    assert forall c :: c in before ==> c in before + ([Add(cb)] + after);
    assert forall c :: c in after ==> c in before + ([Add(cb)] + after);
    StaysOpen(w, before, it);
    PassInOrder(w, before, it);
    CallKeepsInv(v, Add(cb));
    AheadStays(v, Add(cb), it);
    AheadBelow(v, it);
    assert ([Add(cb)] + after)[1..] == after;
    assert Ran(v, [Add(cb)] + after, it) == Ran(r, after, it);
    if v.iters[it].At? {
      RunIffAliveWhenReached(r, after, it, n);
    } else {
      NeverAheadNeverRun(r, after, it, n);
    }
  }

  lemma {:induction false} StaysOpen(w: World, cs: seq<Call>, it: nat)
    requires Inv(w) && it in w.iters && AllowedRun(w, cs) && Close(it) !in cs
    ensures it in Run(w, cs).iters
    decreases |cs|
  {
    if cs != [] {
      CallKeepsInv(w, cs[0]);
      PassStep(w, cs[0], it);
      assert cs == [cs[0]] + cs[1..];
      hide Inv, Allowed, Apply;
      StaysOpen(Apply(w, cs[0]), cs[1..], it);
    }
  }
}
