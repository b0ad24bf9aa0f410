/** DeferredSequencedTaskRunner (base/deferred_sequenced_task_runner.cc): requests are kept back until
    Start and then handed on as they were made. Every operation runs under the lock, so that a run
    by any number of threads is a sequence of operations. */
module DeferredRunner {

  datatype Closure = Null | Closure(id: nat)

  type Location = nat

  /** A request to a task runner: to PostNonNestableDelayedTask or to PostDelayedTask. */
  datatype Request = Request(nonNestable: bool, from: Location, task: Closure, delay: int)

  datatype DeferredTask = DeferredTask(postedFrom: Location, task: Closure, delay: int, isNonNestable: bool)

  /** What a default-constructed DeferredTask holds. */
  const EMPTY := DeferredTask(0, Null, 0, false)

  // ---------------------------------------------------------------------------
  // Whole runs.
  // ---------------------------------------------------------------------------

  datatype State = State(started: bool, queue: seq<DeferredTask>, forwarded: seq<Request>)

  datatype Op = Post(request: Request) | Start

  function Deferred(r: Request): DeferredTask {
    DeferredTask(r.from, r.task, r.delay, r.nonNestable)
  }

  /** The request that Start makes for a deferred task. */
  function Restored(t: DeferredTask): Request {
    Request(t.isNonNestable, t.postedFrom, t.task, t.delay)
  }

  function RestoredAll(queue: seq<DeferredTask>): seq<Request> {
    if queue == [] then [] else RestoredAll(queue[..|queue| - 1]) + [Restored(queue[|queue| - 1])]
  }

  function Apply(s: State, op: Op): State {
    match op
    case Post(r) =>
      if s.started then s.(forwarded := s.forwarded + [r]) else s.(queue := s.queue + [Deferred(r)])
    case Start => State(true, [], s.forwarded + RestoredAll(s.queue))
  }

  function Run(s: State, ops: seq<Op>): State {
    if ops == [] then s else Apply(Run(s, ops[..|ops| - 1]), ops[|ops| - 1])
  }

  function Posts(ops: seq<Op>): seq<Request> {
    if ops == [] then []
    else Posts(ops[..|ops| - 1]) + if ops[|ops| - 1].Post? then [ops[|ops| - 1].request] else []
  }

  lemma RestoredMore(queue: seq<DeferredTask>, t: DeferredTask)
    ensures RestoredAll(queue + [t]) == RestoredAll(queue) + [Restored(t)]
  {
    assert (queue + [t])[..|queue|] == queue;
  }

  lemma NoneRestored()
    ensures RestoredAll([]) == []
  {
  }

  lemma RunMore(ops: seq<Op>, op: Op)
    ensures var s := State(false, [], []); Run(s, ops + [op]) == Apply(Run(s, ops), op)
    ensures Posts(ops + [op]) == Posts(ops) + if op.Post? then [op.request] else []
  {
    assert (ops + [op])[..|ops|] == ops;
  }

  /** Whenever the lock is free, what has been handed on and what is still kept back are all the
      requests made so far, in order and unchanged; nothing is handed on before the first Start,
      and after it nothing is kept back: the target sees what it would have seen without the
      runner in between. */
  lemma {:induction false} OrderTransparent(ops: seq<Op>)
    ensures var s := Run(State(false, [], []), ops);
            s.forwarded + RestoredAll(s.queue) == Posts(ops) &&
            (s.started <==> Start in ops) &&
            (s.started ==> s.queue == [] && s.forwarded == Posts(ops)) &&
            (!s.started ==> s.forwarded == [] && |s.queue| == |Posts(ops)|)
  {
    NoneRestored();
    assert Run(State(false, [], []), []) == State(false, [], []) && Posts([]) == [];
    hide Run, Posts, RestoredAll;
    if ops != [] {
      var front, op := ops[..|ops| - 1], ops[|ops| - 1];
      assert ops == front + [op];
      OrderTransparent(front);
      RunMore(front, op);
      AppendOp(Run(State(false, [], []), front), op, Posts(front));
    }
  }

  /** One operation, when so far the runner was transparent. */
  lemma AppendOp(s: State, op: Op, posts: seq<Request>)
    requires s.forwarded + RestoredAll(s.queue) == posts && (s.started ==> s.queue == [])
    ensures var r := Apply(s, op);
            r.forwarded + RestoredAll(r.queue) == posts + (if op.Post? then [op.request] else []) &&
            (r.started ==> r.queue == [] && r.forwarded == r.forwarded + RestoredAll(r.queue))
  {
    hide RestoredAll;
    NoneRestored();
    assert s.forwarded + [] == s.forwarded && posts + [] == posts;
    match op {
      case Start => assert Apply(s, op).forwarded + [] == Apply(s, op).forwarded;
      case Post(r) =>
        RestoredMore(s.queue, Deferred(r));
        if s.started {
          assert s.forwarded + [r] + [] == s.forwarded + [r];
        } else {
          assert s.forwarded + (RestoredAll(s.queue) + [r]) == s.forwarded + RestoredAll(s.queue) + [r];
        }
    }
  }

  // ---------------------------------------------------------------------------
  // The objects.
  // ---------------------------------------------------------------------------

  /** The target: it records the requests and answers whether it takes them. */
  class SequencedTaskRunner {
    var posted: seq<Request>
    var accepts: bool
    const runsTasksHere: bool

    constructor (accepts: bool, runsTasksHere: bool)
      ensures posted == [] && this.accepts == accepts && this.runsTasksHere == runsTasksHere
    {
      posted, this.accepts, this.runsTasksHere := [], accepts, runsTasksHere;
    }

    method PostDelayedTask(from: Location, task: Closure, delay: int) returns (posting: bool)
      modifies this`posted
      ensures posted == old(posted) + [Request(false, from, task, delay)] && posting == accepts
    {
      posted := posted + [Request(false, from, task, delay)];
      posting := accepts;
    }

    method PostNonNestableDelayedTask(from: Location, task: Closure, delay: int) returns (posting: bool)
      modifies this`posted
      ensures posted == old(posted) + [Request(true, from, task, delay)] && posting == accepts
    {
      posted := posted + [Request(true, from, task, delay)];
      posting := accepts;
    }
  }

  class DeferredSequencedTaskRunner {
    var started: bool
    const target: SequencedTaskRunner
    var queue: seq<DeferredTask>
    /** What this runner has handed on to the target, and every operation on it. */
    ghost var forwarded: seq<Request>
    ghost var history: seq<Op>

    ghost predicate Valid()
      reads this
    {
      State(started, queue, forwarded) == Run(State(false, [], []), history)
    }

    constructor (target: SequencedTaskRunner)
      ensures Valid() && this.target == target && history == []
    {
      started, this.target, queue := false, target, [];
      forwarded, history := [], [];
    }

    method PostDelayedTask(from: Location, task: Closure, delay: int) returns (posting: bool)
      requires Valid()
      modifies this, target`posted
      ensures Valid() && history == old(history) + [Post(Request(false, from, task, delay))]
      ensures posting == (old(started) ==> target.accepts)
      ensures target.posted == old(target.posted) + forwarded[|old(forwarded)|..] && old(forwarded) <= forwarded
    {
      history := history + [Post(Request(false, from, task, delay))];
      RunMore(old(history), history[|old(history)|]);
      if started {
        posting := target.PostDelayedTask(from, task, delay);
        forwarded := forwarded + [Request(false, from, task, delay)];
      } else {
        QueueDeferredTask(from, task, delay, false);
        posting := true;
      }
    }

    method PostNonNestableDelayedTask(from: Location, task: Closure, delay: int) returns (posting: bool)
      requires Valid()
      modifies this, target`posted
      ensures Valid() && history == old(history) + [Post(Request(true, from, task, delay))]
      ensures posting == (old(started) ==> target.accepts)
      ensures target.posted == old(target.posted) + forwarded[|old(forwarded)|..] && old(forwarded) <= forwarded
    {
      history := history + [Post(Request(true, from, task, delay))];
      RunMore(old(history), history[|old(history)|]);
      if started {
        posting := target.PostNonNestableDelayedTask(from, task, delay);
        forwarded := forwarded + [Request(true, from, task, delay)];
      } else {
        QueueDeferredTask(from, task, delay, true);
        posting := true;
      }
    }

    method QueueDeferredTask(from: Location, task: Closure, delay: int, isNonNestable: bool)
      modifies this`queue
      ensures queue == old(queue) + [Deferred(Request(isNonNestable, from, task, delay))]
    {
      var deferredTask := EMPTY.(postedFrom := from, task := task, delay := delay, isNonNestable := isNonNestable);
      queue := queue + [deferredTask];
    }

    /** Start, for one task. */
    method HandOn(task: DeferredTask)
      modifies this`forwarded, target`posted
      ensures target.posted == old(target.posted) + [Restored(task)]
      ensures forwarded == old(forwarded) + [Restored(task)]
    {
      var posting: bool;
      if task.isNonNestable {
        posting := target.PostNonNestableDelayedTask(task.postedFrom, task.task, task.delay);
      } else {
        posting := target.PostDelayedTask(task.postedFrom, task.task, task.delay);
      }
      forwarded := forwarded + [Restored(task)];
    }

    /** Hands on the tasks in order; a task handed on is given up before the next one is. */
    method Start()
      requires Valid() && !started
      modifies this, target`posted
      ensures Valid() && started && history == old(history) + [Op.Start]
      ensures target.posted == old(target.posted) + RestoredAll(old(queue))
      ensures forwarded == old(forwarded) + RestoredAll(old(queue))
    {
      ghost var all := queue;
      RunMore(history, Op.Start);
      NoneRestored();
      hide Run, RestoredAll, Restored;
      started := true;
      var i := 0;
      while i < |queue|
        invariant i <= |queue| == |all| && started && history == old(history)
        invariant forall k :: i <= k < |all| ==> queue[k] == all[k]
        invariant forall k :: 0 <= k < i ==> queue[k] == EMPTY
        invariant target.posted == old(target.posted) + RestoredAll(all[..i])
        invariant forwarded == old(forwarded) + RestoredAll(all[..i])
      {
        HandOn(queue[i]);
        assert all[..i + 1] == all[..i] + [all[i]];
        RestoredMore(all[..i], all[i]);
        queue := queue[i := EMPTY];
        i := i + 1;
      }
      assert all[..|all|] == all;
      queue := [];
      history := history + [Op.Start];
    }

    method RunsTasksOnCurrentThread() returns (here: bool)
      ensures here == target.runsTasksHere
    {
      here := target.runsTasksHere;
    }

    /** What the lemma about whole runs says of the object. */
    lemma Transparent()
      requires Valid()
      ensures forwarded + RestoredAll(queue) == Posts(history)
      ensures if started then queue == [] && forwarded == Posts(history) else forwarded == []
    {
      OrderTransparent(history);
    }
  }
}
