/** The CallbackRegistry class, its Subscriptions and iterators, and Notify
    (base/callback_registry.h), updated in place. */
module RegistryObject {
  import opened Wrappers
  import opened Registry

  /** What the callbacks do that one notification runs, the first callback first. A callback beyond
      the end of the list does nothing. */
  datatype Script = Idle | Step(acts: Acts, later: Script)

  datatype Acts = Nothing | Do(act: Act, more: Acts)

  datatype Act =
    | AddCallback(cb: Callback)
    | DropSubscription(node: nat)
    | NotifyAgain(script: Script)

  function ScriptSize(s: Script): nat {
    match s
    case Idle => 0
    case Step(acts, later) => 1 + ActsSize(acts) + ScriptSize(later)
  }

  function ActsSize(acts: Acts): nat {
    match acts
    case Nothing => 0
    case Do(act, more) => 1 + (if act.NotifyAgain? then ScriptSize(act.script) else 0) + ActsSize(more)
  }

  class CallbackRegistry {
    var callbacks: seq<Node>
    var activeIteratorCount: nat
    /** The identity of the next list node. */
    var nextNode: nat
    ghost var iters: map<nat, Position>
    /** The nodes whose Subscription object is alive. */
    var subs: set<nat>
    ghost var nextIter: nat

    ghost function State(): World
      reads this
    {
      World(callbacks, activeIteratorCount, nextNode, iters, subs)
    }

    ghost predicate Valid()
      reads this
    {
      Inv(State()) && forall it :: it in iters ==> it < nextIter
    }

    constructor ()
      ensures Valid() && State() == START
    {
      callbacks, activeIteratorCount, nextNode, iters, subs, nextIter := [], 0, 0, map[], {}, 0;
      new;
    }

    /** What ~CallbackRegistryBase checks: it holds exactly when every Subscription and every iterator
        is dead. */
    method MayBeDestroyed() returns (free: bool)
      requires Valid()
      ensures free <==> subs == {} && iters == map[]
    {
      NothingLeft(State());
      free := activeIteratorCount == 0 && callbacks == [];
    }

    method AddNode(cb: Callback) returns (node: nat)
      requires Valid()
      modifies this
      ensures Valid() && node == old(nextNode) && nextIter == old(nextIter)
      ensures State() == Apply(old(State()), Add(cb))
    {
      CallKeepsInv(State(), Add(cb));
      node := nextNode;
      callbacks := callbacks + [Node(node, Some(cb))];
      nextNode := nextNode + 1;
      subs := subs + {node};
    }

    /** ~Subscription for the subscription of one node. */
    method DropNode(node: nat)
      requires Valid() && node in subs
      modifies this
      ensures Valid() && nextIter == old(nextIter)
      ensures State() == Apply(old(State()), Unsubscribe(node))
    {
      CallKeepsInv(State(), Unsubscribe(node));
      if activeIteratorCount != 0 {
        callbacks := Nullify(callbacks, node);
      } else {
        callbacks := Erase(callbacks, node);
      }
      subs := subs - {node};
    }

    /** Erases the nodes that were nulled out. */
    method Compact()
      modifies this`callbacks
      ensures callbacks == Compacted(old(callbacks))
    {
      var kept: seq<Node> := [];
      var rest := callbacks;
      while rest != []
        invariant kept + Compacted(rest) == Compacted(callbacks)
        decreases |rest|
      {
        assert rest[0].cb.Some? ==>
            kept + ([rest[0]] + Compacted(rest[1..])) == (kept + [rest[0]]) + Compacted(rest[1..]);
        if rest[0].cb.Some? {
          kept := kept + [rest[0]];
        }
        rest := rest[1..];
      }
      callbacks := kept;
    }

    /** Runs the callbacks, which do what script says. The ghost results are the iterator and the
        calls on the registry between its opening and its closing. */
    method Notify(script: Script) returns (ran: seq<nat>, ghost it: nat, ghost trace: seq<Call>)
      requires Valid()
      modifies this
      ensures Valid() && old(nextIter) <= it < nextIter
      ensures var w := old(State());
              it !in w.iters && AllowedRun(Apply(w, Open(it)), trace) &&
              var r := Run(Apply(w, Open(it)), trace);
              it in r.iters && r.iters[it] == End && Close(it) !in trace && OwnIterators(trace, it) &&
              ran == Ran(Apply(w, Open(it)), trace, it) && Allowed(r, Close(it)) && State() == Apply(r, Close(it))
      decreases ScriptSize(script), 2
    {
      ghost var w := State();
      var iter := new Iterator(this);
      it := iter.it;
      ghost var v := State();
      assert it !in w.iters && v == Apply(w, Open(it));
      var todo := script;
      var node := iter.GetNext();
      ran := node;
      trace := [GetNext(it)];
      PassBegins(v, it);
      while node != []
        invariant Valid() && iter.Attached() && iter.list == this && iter.it == it < nextIter
        invariant InPass(v, State(), it, trace, ran)
        invariant |node| <= 1 && (node == [] ==> iter.position == End)
        invariant ScriptSize(todo) <= ScriptSize(script)
        decreases ScriptSize(todo), |Ahead(State(), it)| + |node|
      {
        hide Inv, InPass, Given, OwnIterators;
        if todo.Step? {
          ghost var before := State();
          ghost var more := PerformAll(todo.acts);
          PassGoesOn(v, before, it, trace, ran, more);
          trace := trace + more;
          todo := todo.later;
        }
        ghost var before := State();
        node := iter.GetNext();
        PassGetsNext(v, before, it, trace, ran);
        trace := trace + [GetNext(it)];
        ran := ran + node;
      }
      iter.Destroy();
    }

    /** What one callback does, act by act. */
    method PerformAll(acts: Acts) returns (ghost trace: seq<Call>)
      requires Valid()
      modifies this
      ensures Valid() && old(nextIter) <= nextIter
      ensures AllowedRun(old(State()), trace) && State() == Run(old(State()), trace)
      ensures OwnIterators(trace, old(nextIter))
      decreases ActsSize(acts), 1
    {
      ghost var w := State();
      var todo := acts;
      trace := [];
      while todo.Do?
        invariant Valid() && old(nextIter) <= nextIter && ActsSize(todo) <= ActsSize(acts)
        invariant AllowedRun(w, trace) && State() == Run(w, trace) && OwnIterators(trace, old(nextIter))
        decreases ActsSize(todo)
      {
        ghost var more := Perform(todo.act);
        TraceMore(w, trace, more, 0);
        trace := trace + more;
        todo := todo.more;
      }
    }

    method Perform(act: Act) returns (ghost trace: seq<Call>)
      requires Valid()
      modifies this
      ensures Valid() && old(nextIter) <= nextIter
      ensures AllowedRun(old(State()), trace) && State() == Run(old(State()), trace)
      ensures OwnIterators(trace, old(nextIter))
      decreases if act.NotifyAgain? then ScriptSize(act.script) else 0, 3
    {
      hide Inv;
      trace := [];
      match act {
        case AddCallback(cb) =>
          var added := AddNode(cb);
          trace := [Add(cb)];
        case DropSubscription(node) =>
          if node in subs {
            DropNode(node);
            trace := [Unsubscribe(node)];
          }
        case NotifyAgain(script) =>
          ghost var before := State();
          ghost var it, inner;
          var ran;
          ran, it, inner := Notify(script);
          TraceMore(Apply(before, Open(it)), inner, [Close(it)], it);
          trace := [Open(it)] + (inner + [Close(it)]);
          assert trace[1..] == inner + [Close(it)];
      }
    }
  }

  /** In the middle of a notification that began in v. */
  ghost predicate InPass(v: World, now: World, it: nat, trace: seq<Call>, ran: seq<nat>) {
    && AllowedRun(v, trace) && now == Run(v, trace) && ran == Ran(v, trace, it)
    && Close(it) !in trace && OwnIterators(trace, it)
  }

  lemma PassBegins(v: World, it: nat)
    requires Inv(v) && it in v.iters
    ensures InPass(v, Apply(v, GetNext(it)), it, [GetNext(it)], Given(v, GetNext(it), it))
  {
    hide Apply, Given, Inv;
    var cs := [GetNext(it)];
    var r := Apply(v, cs[0]);
    assert cs[1..] == [];
    assert AllowedRun(r, cs[1..]) && Run(r, cs[1..]) == r && Ran(r, cs[1..], it) == [];
    assert AllowedRun(v, cs) && Run(v, cs) == r;
    assert Given(v, GetNext(it), it) + [] == Given(v, GetNext(it), it);
  }

  lemma PassGetsNext(v: World, now: World, it: nat, trace: seq<Call>, ran: seq<nat>)
    requires InPass(v, now, it, trace, ran) && Inv(now) && it in now.iters
    ensures var r, g := Apply(now, GetNext(it)), Given(now, GetNext(it), it);
            InPass(v, r, it, trace + [GetNext(it)], ran + g) &&
            it in r.iters && (g == [] ==> |Ahead(r, it)| == 0) && (g != [] ==> |Ahead(r, it)| < |Ahead(now, it)|)
  {
    hide Inv, Apply, Given;
    PassBegins(now, it);
    TraceMore(v, trace, [GetNext(it)], it);
    AheadShrinks(now, it);
  }

  lemma PassGoesOn(v: World, now: World, it: nat, trace: seq<Call>, ran: seq<nat>, more: seq<Call>)
    requires InPass(v, now, it, trace, ran) && Inv(now) && it in now.iters
    requires AllowedRun(now, more) && OwnIterators(more, it + 1)
    ensures InPass(v, Run(now, more), it, trace + more, ran)
    ensures it in Run(now, more).iters && Run(now, more).iters[it] == now.iters[it]
  {
    hide Inv;
    OthersStay(now, more, it + 1, it);
    TraceMore(v, trace, more, it);
    assert ran + [] == ran;
    assert Close(it) !in more;
    assert forall c :: c in trace + more ==> c in trace || c in more;
  }

  /** The calls use no iterator below a bound. */
  ghost predicate OwnIterators(cs: seq<Call>, bound: nat) {
    forall c :: c in cs ==> c.Add? || c.Unsubscribe? || c.it >= bound
  }

  lemma TraceMore(w: World, a: seq<Call>, b: seq<Call>, it: nat)
    requires AllowedRun(w, a) && AllowedRun(Run(w, a), b)
    ensures AllowedRun(w, a + b) && Run(w, a + b) == Run(Run(w, a), b)
    ensures Ran(w, a + b, it) == Ran(w, a, it) + Ran(Run(w, a), b, it)
  {
    RunSplits(w, a, b, it);
  }

  /** Calls on other iterators leave an iterator open and where it is. */
  lemma {:induction false} OthersStay(w: World, cs: seq<Call>, bound: nat, it: nat)
    requires Inv(w) && AllowedRun(w, cs) && OwnIterators(cs, bound) && it in w.iters && it < bound
    ensures it in Run(w, cs).iters && Run(w, cs).iters[it] == w.iters[it] && Ran(w, cs, it) == []
    decreases |cs|
  {
    if cs != [] {
      assert cs == [cs[0]] + cs[1..];
      assert cs[0] in cs;
      CallKeepsInv(w, cs[0]);
      AheadStays(w, cs[0], it);
      hide Inv, Allowed, Apply, Given;
      OthersStay(Apply(w, cs[0]), cs[1..], bound, it);
    }
  }

  lemma AheadShrinks(w: World, it: nat)
    requires Inv(w) && it in w.iters
    ensures var r, g := Apply(w, GetNext(it)), Given(w, GetNext(it), it);
            it in r.iters && (g == [] ==> |Ahead(r, it)| == 0) && (g != [] ==> |Ahead(r, it)| < |Ahead(w, it)|)
  {
    GetNextPasses(w, it);
    hide Inv, Apply, Ahead;
    var r, g := Apply(w, GetNext(it)), Given(w, GetNext(it), it);
    if g != [] {
      assert Ahead(r, it) <= Ahead(w, it) - {g[0]};
      Subset(Ahead(r, it), Ahead(w, it) - {g[0]});
    }
  }

  lemma {:induction false} Subset(a: set<nat>, b: set<nat>)
    requires a <= b
    ensures |a| <= |b|
  {
    assert b == a + (b - a);
  }

  class Iterator {
    const list: CallbackRegistry
    ghost const it: nat
    var position: Position

    ghost predicate Attached()
      reads this, list
    {
      it in list.iters && list.iters[it] == position
    }

    constructor (registry: CallbackRegistry)
      requires registry.Valid()
      modifies registry
      ensures list == registry && it == old(registry.nextIter) && registry.nextIter == it + 1
      ensures registry.Valid() && Attached()
      ensures registry.State() == Apply(old(registry.State()), Open(it))
    {
      list := registry;
      it := registry.nextIter;
      position := PositionOf(registry.callbacks);
      new;
      CallKeepsInv(list.State(), Open(it));
      list.activeIteratorCount := list.activeIteratorCount + 1;
      list.iters := list.iters[it := position];
      list.nextIter := list.nextIter + 1;
    }

    constructor Copy(other: Iterator)
      requires other.list.Valid() && other.Attached()
      modifies other.list
      ensures list == other.list && it == old(other.list.nextIter) && list.nextIter == it + 1
      ensures list.Valid() && Attached() && position == other.position
      ensures list.State() == Apply(old(other.list.State()), Registry.Copy(other.it, it))
    {
      list := other.list;
      it := other.list.nextIter;
      position := other.position;
      new;
      CallKeepsInv(list.State(), Registry.Copy(other.it, it));
      list.activeIteratorCount := list.activeIteratorCount + 1;
      list.iters := list.iters[it := position];
      list.nextIter := list.nextIter + 1;
    }

    /** The node whose callback is to be run, in a list of one; the empty list for NULL. */
    method GetNext() returns (node: seq<nat>)
      requires list.Valid() && Attached()
      modifies this, list`iters
      ensures list.Valid() && Attached()
      ensures list.State() == Apply(old(list.State()), Registry.GetNext(it))
      ensures node == Given(old(list.State()), Registry.GetNext(it), it) && |node| <= 1
      ensures node == [] ==> position == End
    {
      CallKeepsInv(list.State(), Registry.GetNext(it));
      var rest := From(list.callbacks, position);
      while rest != [] && rest[0].cb.None?
        invariant SkipNulls(rest) == SkipNulls(From(list.callbacks, position))
        decreases |rest|
      {
        rest := rest[1..];
      }
      node := [];
      if rest != [] {
        node := [rest[0].id];
        rest := rest[1..];
      }
      position := PositionOf(rest);
      list.iters := list.iters[it := position];
    }

    /** ~Iterator. */
    method Destroy()
      requires list.Valid() && Attached()
      modifies list
      ensures list.Valid() && list.nextIter == old(list.nextIter)
      ensures Allowed(old(list.State()), Close(it)) && list.State() == Apply(old(list.State()), Close(it))
    {
      MapCount(list.iters, it, position);
      CallKeepsInv(list.State(), Close(it));
      hide Inv, Compacted;
      list.activeIteratorCount := list.activeIteratorCount - 1;
      list.iters := list.iters - {it};
      if list.activeIteratorCount == 0 {
        list.Compact();
      }
    }
  }

  class Subscription {
    const list: CallbackRegistry
    const node: nat

    /** CallbackRegistryBase::Add. */
    constructor Add(registry: CallbackRegistry, cb: Callback)
      requires registry.Valid()
      modifies registry
      ensures list == registry && registry.Valid() && node in registry.subs
      ensures node == old(registry.nextNode) && registry.State() == Apply(old(registry.State()), Registry.Add(cb))
    {
      list := registry;
      node := registry.nextNode;
      new;
      var added := registry.AddNode(cb);
    }

    method Destroy()
      requires list.Valid() && node in list.subs
      modifies list
      ensures list.Valid() && node !in list.subs
      ensures list.State() == Apply(old(list.State()), Unsubscribe(node))
    {
      list.DropNode(node);
    }
  }
}
