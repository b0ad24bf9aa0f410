/** The compare-and-swap loops of base/atomicops_internals_gcc.h, run by any number of threads,
    against the one-step operations that base/atomicops.h specifies. */
module Atomics {

  type Tid = nat

  const TWO_31 := 0x8000_0000
  const TWO_32 := 0x1_0000_0000

  /** The value that a 32-bit cell holds after arithmetic gave x. */
  function Wrap(x: int): (r: int)
    ensures -TWO_31 <= r < TWO_31 && (-TWO_31 <= x < TWO_31 ==> r == x)
    ensures exists k :: r == x + k * TWO_32
  {
    var m := (x + TWO_31) % TWO_32;
    assert m - TWO_31 == x + -((x + TWO_31) / TWO_32) * TWO_32;
    m - TWO_31
  }

  datatype Op =
    | Load
    | Store(value: int)
    | CompareAndSwap(expected: int, replacement: int)
    | Exchange(value: int)
    | Increment(delta: int)

  /** The one-step specification: the value returned and the value left in the cell. */
  function Spec(op: Op, cell: int): (int, int) {
    match op
    case Load => (cell, cell)
    case Store(v) => (v, v)
    case CompareAndSwap(expected, replacement) => (cell, if cell == expected then replacement else cell)
    case Exchange(v) => (cell, v)
    case Increment(delta) => (Wrap(cell + delta), Wrap(cell + delta))
  }

  // ---------------------------------------------------------------------------
  // The threads. Every step makes at most one access to the cell.
  // ---------------------------------------------------------------------------

  /** Where a thread is: outside, before the first access of a loop round, before the swap with
      the value it has read, before the second read of a compare-and-swap, or about to return.
      mark is the number of operations that had taken effect at its last access. */
  datatype Pc =
    | Idle
    | Top(op: Op)
    | Swap(op: Op, seen: int, mark: nat)
    | Reread(op: Op, mark: nat)
    | Done(op: Op, result: int, at: nat)

  /** since is the number of operations that had taken effect when the call began. */
  datatype Thread = Thread(pc: Pc, since: nat)

  /** An operation takes effect. */
  datatype Event = Event(tid: Tid, op: Op, result: int)

  /** A call that has returned: it began after since operations had taken effect, was itself
      number at, and returned after until had. */
  datatype Returned = Returned(tid: Tid, op: Op, result: int, since: nat, at: nat, until: nat)

  datatype Machine = Machine(cell: int, threads: map<Tid, Thread>, log: seq<Event>, calls: seq<Returned>)

  datatype Step = Invoke(tid: Tid, op: Op) | Act(tid: Tid) | Return(tid: Tid)

  function Of(m: Machine, t: Tid): Thread {
    if t in m.threads then m.threads[t] else Thread(Idle, 0)
  }

  predicate Enabled(m: Machine, s: Step) {
    match s
    case Invoke(t, _) => Of(m, t).pc.Idle?
    case Act(t) => !Of(m, t).pc.Idle? && !Of(m, t).pc.Done?
    case Return(t) => Of(m, t).pc.Done?
  }

  /** Thread t's call takes effect with a result, leaving a value in the cell. */
  function Effect(m: Machine, t: Tid, op: Op, result: int, cell: int): Machine {
    m.(cell := cell,
       threads := m.threads[t := Thread(Done(op, result, |m.log|), Of(m, t).since)],
       log := m.log + [Event(t, op, result)])
  }

  function Move(m: Machine, t: Tid, pc: Pc): Machine {
    m.(threads := m.threads[t := Thread(pc, Of(m, t).since)])
  }

  /** One access by the code of the operation. */
  function Access(m: Machine, t: Tid): Machine
    requires Enabled(m, Act(t))
  {
    match Of(m, t).pc
    case Top(Load) => Effect(m, t, Load, m.cell, m.cell)
    case Top(Store(v)) => Effect(m, t, Store(v), v, v)
    case Top(CompareAndSwap(expected, replacement)) =>
      // __sync_bool_compare_and_swap; on success the expected value is returned
      if m.cell == expected then Effect(m, t, CompareAndSwap(expected, replacement), expected, replacement)
      else Move(m, t, Reread(CompareAndSwap(expected, replacement), |m.log|))
    case Reread(op, mark) =>
      // prev_value = *ptr, and around the loop if it is the expected value after all
      if op.CompareAndSwap? && m.cell == op.expected then Move(m, t, Top(op))
      else Effect(m, t, op, m.cell, m.cell)
    case Top(op) => Move(m, t, Swap(op, m.cell, |m.log|))
    case Swap(op, seen, mark) =>
      if m.cell != seen then Move(m, t, Top(op))
      else if op.Exchange? then Effect(m, t, op, seen, op.value)
      else if op.Increment? then Effect(m, t, op, Wrap(seen + op.delta), Wrap(seen + op.delta))
      else m
    case _ => m
  }

  function Apply(m: Machine, s: Step): Machine
    requires Enabled(m, s)
  {
    match s
    case Invoke(t, op) => m.(threads := m.threads[t := Thread(Top(op), |m.log|)])
    case Act(t) => Access(m, t)
    case Return(t) =>
      var th := Of(m, t);
      m.(threads := m.threads[t := Thread(Idle, 0)],
         calls := m.calls + [Returned(t, th.pc.op, th.pc.result, th.since, th.pc.at, |m.log|)])
  }

  predicate EnabledRun(m: Machine, ss: seq<Step>)
    decreases |ss|
  {
    ss == [] || (Enabled(m, ss[0]) && EnabledRun(Apply(m, ss[0]), ss[1..]))
  }

  function Run(m: Machine, ss: seq<Step>): Machine
    requires EnabledRun(m, ss)
    decreases |ss|
  {
    if ss == [] then m else Run(Apply(m, ss[0]), ss[1..])
  }

  function Initially(value: int): Machine {
    Machine(value, map[], [], [])
  }

  // ---------------------------------------------------------------------------
  // Linearizability.
  // ---------------------------------------------------------------------------

  /** The cell after the one-step operations of a log. */
  function Replay(init: int, log: seq<Event>): int {
    if log == [] then init else Spec(log[|log| - 1].op, Replay(init, log[..|log| - 1])).1
  }

  /** Every result in the log is the one that the one-step operation gives at that point. */
  ghost predicate Faithful(init: int, log: seq<Event>) {
    forall i :: 0 <= i < |log| ==> log[i].result == Spec(log[i].op, Replay(init, log[..i])).0
  }

  /** A thread's call in progress has not taken effect, or has done so exactly once, since it began. */
  ghost predicate ThreadInv(init: int, m: Machine, t: Tid) {
    var th := Of(m, t);
    th.since <= |m.log| &&
    match th.pc
    case Idle => true
    case Top(_) => Untouched(m.log, th.since, t)
    case Swap(op, seen, mark) =>
      (op.Exchange? || op.Increment?) && Untouched(m.log, th.since, t) &&
      mark <= |m.log| && seen == Replay(init, m.log[..mark])
    case Reread(op, mark) =>
      op.CompareAndSwap? && Untouched(m.log, th.since, t) &&
      mark <= |m.log| && Replay(init, m.log[..mark]) != op.expected
    case Done(op, result, at) =>
      th.since <= at < |m.log| && m.log[at] == Event(t, op, result) &&
      Untouched(m.log[..at], th.since, t) && Untouched(m.log, at + 1, t)
  }

  ghost predicate Untouched(log: seq<Event>, since: nat, t: Tid) {
    forall i :: since <= i < |log| ==> log[i].tid != t
  }

  /** A returned call stands at its own place in the log, between its beginning and its end. */
  ghost predicate CallInv(m: Machine, c: Returned) {
    c.since <= c.at < c.until <= |m.log| && m.log[c.at] == Event(c.tid, c.op, c.result)
  }

  /** Different calls stand at different places, and a thread's call in progress or about to
      return stands after its returned ones. */
  ghost predicate PlacesInv(m: Machine) {
    (forall i, j :: 0 <= i < j < |m.calls| ==> m.calls[i].at != m.calls[j].at) &&
    (forall i, t :: 0 <= i < |m.calls| && t in m.threads && !m.threads[t].pc.Idle? && m.calls[i].tid == t ==>
       m.calls[i].at < m.threads[t].since)
  }

  ghost predicate Inv(init: int, m: Machine) {
    && m.cell == Replay(init, m.log)
    && Faithful(init, m.log)
    && (forall t :: t in m.threads ==> ThreadInv(init, m, t))
    && (forall i :: 0 <= i < |m.calls| ==> CallInv(m, m.calls[i]))
    && PlacesInv(m)
  }

  lemma ReplayMore(init: int, log: seq<Event>, e: Event)
    ensures Replay(init, log + [e]) == Spec(e.op, Replay(init, log)).1
    ensures forall i :: 0 <= i <= |log| ==> (log + [e])[..i] == log[..i]
    ensures Faithful(init, log) && e.result == Spec(e.op, Replay(init, log)).0 ==> Faithful(init, log + [e])
  {
    var more := log + [e];
    assert more[..|log|] == log;
    assert forall i :: 0 <= i <= |log| ==> more[..i] == log[..i];
    assert more[|log|] == e;
  }

  lemma EffectKeepsInv(init: int, m: Machine, t: Tid, op: Op)
    requires Inv(init, m) && t in m.threads && ThreadInv(init, m, t)
    requires !m.threads[t].pc.Idle? && !m.threads[t].pc.Done?
    ensures Inv(init, Effect(m, t, op, Spec(op, m.cell).0, Spec(op, m.cell).1))
  {
    hide Spec, Replay;
    var e := Event(t, op, Spec(op, m.cell).0);
    var r := Effect(m, t, op, Spec(op, m.cell).0, Spec(op, m.cell).1);
    ReplayMore(init, m.log, e);
    forall u | u in r.threads && u != t ensures ThreadInv(init, r, u) {
    }
    assert r.log[..|m.log|] == m.log;
    assert forall i :: 0 <= i < |m.log| ==> r.log[i] == m.log[i];
  }

  lemma MoveKeepsInv(init: int, m: Machine, t: Tid, pc: Pc)
    requires Inv(init, m) && t in m.threads && !m.threads[t].pc.Idle? && !pc.Idle?
    requires ThreadInv(init, Move(m, t, pc), t)
    ensures Inv(init, Move(m, t, pc))
  {
    hide Spec, Replay, Faithful;
    var r := Move(m, t, pc);
    forall u | u in r.threads && u != t ensures ThreadInv(init, r, u) {
      assert ThreadInv(init, m, u);
    }
    assert forall i :: 0 <= i < |m.calls| ==> CallInv(m, m.calls[i]) ==> CallInv(r, m.calls[i]);
  }

  lemma TopKeepsInv(init: int, m: Machine, t: Tid)
    requires Inv(init, m) && Of(m, t).pc.Top?
    ensures Inv(init, Access(m, t))
  {
    assert t in m.threads && ThreadInv(init, m, t);
    assert m.log[..|m.log|] == m.log;
    assert m.cell == Replay(init, m.log);
    hide Inv, Replay, Effect;
    var op := m.threads[t].pc.op;
    if op.Load? || op.Store? || (op.CompareAndSwap? && m.cell == op.expected) {
      EffectKeepsInv(init, m, t, op);
    } else if op.CompareAndSwap? {
      MoveKeepsInv(init, m, t, Reread(op, |m.log|));
    } else {
      MoveKeepsInv(init, m, t, Swap(op, m.cell, |m.log|));
    }
  }

  lemma RereadKeepsInv(init: int, m: Machine, t: Tid)
    requires Inv(init, m) && Of(m, t).pc.Reread?
    ensures Inv(init, Access(m, t))
  {
    assert t in m.threads && ThreadInv(init, m, t);
    hide Inv, Replay, Effect;
    var op := m.threads[t].pc.op;
    if m.cell == op.expected {
      MoveKeepsInv(init, m, t, Top(op));
    } else {
      EffectKeepsInv(init, m, t, op);
    }
  }

  lemma SwapKeepsInv(init: int, m: Machine, t: Tid)
    requires Inv(init, m) && Of(m, t).pc.Swap?
    ensures Inv(init, Access(m, t))
  {
    assert t in m.threads && ThreadInv(init, m, t);
    hide Inv, Replay, Effect;
    var pc := m.threads[t].pc;
    if m.cell != pc.seen {
      MoveKeepsInv(init, m, t, Top(pc.op));
    } else {
      EffectKeepsInv(init, m, t, pc.op);
    }
  }

  lemma InvokeKeepsInv(init: int, m: Machine, t: Tid, op: Op)
    requires Inv(init, m) && Of(m, t).pc.Idle?
    ensures Inv(init, Apply(m, Invoke(t, op)))
  {
    hide Spec, Replay, Faithful;
    var r := Apply(m, Invoke(t, op));
    forall u | u in r.threads && u != t ensures ThreadInv(init, r, u) {
      assert ThreadInv(init, m, u);
    }
    assert forall i :: 0 <= i < |m.calls| ==> CallInv(m, m.calls[i]) && CallInv(r, m.calls[i]);
  }

  lemma ReturnKeepsInv(init: int, m: Machine, t: Tid)
    requires Inv(init, m) && Of(m, t).pc.Done?
    ensures Inv(init, Apply(m, Return(t)))
  {
    hide Spec, Replay, Faithful;
    var r := Apply(m, Return(t));
    assert ThreadInv(init, m, t);
    forall u | u in r.threads && u != t ensures ThreadInv(init, r, u) {
      assert ThreadInv(init, m, u);
    }
    var at := m.threads[t].pc.at;
    forall i | 0 <= i < |m.calls| ensures CallInv(r, m.calls[i]) && m.calls[i].at != at {
      assert CallInv(m, m.calls[i]);
      assert m.log[m.calls[i].at].tid == m.calls[i].tid;
    }
    forall i, u | 0 <= i < |r.calls| && u in r.threads && !r.threads[u].pc.Idle? && r.calls[i].tid == u
      ensures r.calls[i].at < r.threads[u].since
    {
      assert u != t;
    }
  }

  lemma StepKeepsInv(init: int, m: Machine, s: Step)
    requires Inv(init, m) && Enabled(m, s)
    ensures Inv(init, Apply(m, s))
  {
    hide Inv, Access;
    match s {
      case Invoke(t, op) => InvokeKeepsInv(init, m, t, op);
      case Act(t) =>
        match Of(m, t).pc {
          case Top(_) => TopKeepsInv(init, m, t);
          case Reread(_, _) => RereadKeepsInv(init, m, t);
          case Swap(_, _, _) => SwapKeepsInv(init, m, t);
        }
      case Return(t) => ReturnKeepsInv(init, m, t);
    }
  }

  lemma InitialInv(init: int)
    ensures Inv(init, Initially(init))
  {
  }

  lemma {:induction false} RunKeepsInv(init: int, m: Machine, ss: seq<Step>)
    requires Inv(init, m) && EnabledRun(m, ss)
    ensures Inv(init, Run(m, ss))
    decreases |ss|
  {
    hide Inv, Apply, Enabled;
    if ss != [] {
      StepKeepsInv(init, m, ss[0]);
      RunKeepsInv(init, Apply(m, ss[0]), ss[1..]);
    }
  }

  /** A thread goes around its loop only because another operation took effect since it last
      looked at the cell: some thread always makes progress. */
  lemma RetryMeansProgress(init: int, m: Machine, t: Tid)
    requires Inv(init, m) && t in m.threads && Enabled(m, Act(t))
    requires (m.threads[t].pc.Swap? || m.threads[t].pc.Reread?) && Access(m, t).threads[t].pc.Top?
    ensures m.threads[t].pc.mark < |m.log|
  {
    assert ThreadInv(init, m, t);
    assert m.log[..|m.log|] == m.log;
  }

  // ---------------------------------------------------------------------------
  // Every effect belongs to a call, and which operations are in use.
  // ---------------------------------------------------------------------------

  /** The effect at place i is that of a returned call or of a thread about to return. */
  ghost predicate Claimed(m: Machine, i: nat) {
    (exists k :: 0 <= k < |m.calls| && m.calls[k].at == i) ||
    (exists t :: t in m.threads && m.threads[t].pc.Done? && m.threads[t].pc.at == i)
  }

  ghost predicate AllClaimed(m: Machine) {
    forall i: nat :: i < |m.log| ==> Claimed(m, i)
  }

  lemma StepClaims(m: Machine, s: Step)
    requires AllClaimed(m) && Enabled(m, s)
    ensures AllClaimed(Apply(m, s))
  {
    hide Spec;
    var r := Apply(m, s);
    forall i: nat | i < |r.log| ensures Claimed(r, i) {
      if i == |m.log| {
        assert r.threads[s.tid].pc.Done? && r.threads[s.tid].pc.at == i;
      } else {
        assert Claimed(m, i);
        if k :| 0 <= k < |m.calls| && m.calls[k].at == i {
          assert r.calls[k] == m.calls[k];
        } else {
          var t :| t in m.threads && m.threads[t].pc.Done? && m.threads[t].pc.at == i;
          if t == s.tid {
            assert s.Return?;
            assert r.calls[|m.calls|].at == i;
          } else {
            assert r.threads[t] == m.threads[t];
          }
        }
      }
    }
  }

  lemma {:induction false} RunClaims(m: Machine, ss: seq<Step>)
    requires AllClaimed(m) && EnabledRun(m, ss)
    ensures AllClaimed(Run(m, ss))
    decreases |ss|
  {
    hide AllClaimed, Apply, Enabled;
    if ss != [] {
      StepClaims(m, ss[0]);
      RunClaims(Apply(m, ss[0]), ss[1..]);
    }
  }

  /** What the one-step operations are: the value the cell had before and the one it has after
      the event at place k. */
  lemma AtItsPlace(init: int, log: seq<Event>, k: nat)
    requires Faithful(init, log) && k < |log|
    ensures var e, before, after := log[k], Replay(init, log[..k]), Replay(init, log[..k + 1]);
            (e.op.Load? ==> e.result == before == after) &&
            (e.op.Store? ==> after == e.op.value) &&
            (e.op.CompareAndSwap? ==>
               e.result == before && after == if before == e.op.expected then e.op.replacement else before) &&
            (e.op.Exchange? ==> e.result == before && after == e.op.value) &&
            (e.op.Increment? ==> e.result == after == Wrap(before + e.op.delta))
  {
    assert log[..k + 1][..k] == log[..k];
    assert log[..k + 1][k] == log[k];
  }

  lemma AtTheirPlaces(init: int, log: seq<Event>)
    requires Faithful(init, log)
    ensures forall k {:trigger log[k]} :: 0 <= k < |log| ==>
              var e, before, after := log[k], Replay(init, log[..k]), Replay(init, log[..k + 1]);
              (e.op.Load? ==> e.result == before == after) &&
              (e.op.Store? ==> after == e.op.value) &&
              (e.op.CompareAndSwap? ==>
                 e.result == before && after == if before == e.op.expected then e.op.replacement else before) &&
              (e.op.Exchange? ==> e.result == before && after == e.op.value) &&
              (e.op.Increment? ==> e.result == after == Wrap(before + e.op.delta))
  {
    hide Spec, Replay, Wrap, Faithful;
    forall k {:trigger log[k]} | 0 <= k < |log| {
      AtItsPlace(init, log, k);
    }
  }

  /** In every reachable state there is an order, the log, in which the operations took effect one
      at a time. It explains the cell and every result: a load and an exchange return what the cell
      held, a compare-and-swap does so too and puts its replacement there exactly if that was the
      expected value, an increment returns what it leaves. Each returned call has its own place in
      the log between its beginning and its end, nothing is in it but what some returned call or one
      about to return has done, and so calls that did not overlap stand in the order in which they
      were made. */
  lemma Linearizable(init: int, ss: seq<Step>)
    requires EnabledRun(Initially(init), ss)
    ensures var m := Run(Initially(init), ss);
            m.cell == Replay(init, m.log) && AllClaimed(m) &&
            (forall i :: 0 <= i < |m.calls| ==>
               var c := m.calls[i];
               c.since <= c.at < c.until <= |m.log| && m.log[c.at] == Event(c.tid, c.op, c.result)) &&
            (forall k {:trigger m.log[k]} :: 0 <= k < |m.log| ==>
               var e, before, after := m.log[k], Replay(init, m.log[..k]), Replay(init, m.log[..k + 1]);
               (e.op.Load? ==> e.result == before == after) &&
               (e.op.Store? ==> after == e.op.value) &&
               (e.op.CompareAndSwap? ==>
                  e.result == before && after == if before == e.op.expected then e.op.replacement else before) &&
               (e.op.Exchange? ==> e.result == before && after == e.op.value) &&
               (e.op.Increment? ==> e.result == after == Wrap(before + e.op.delta))) &&
            (forall i, j :: 0 <= i < j < |m.calls| ==> m.calls[i].at != m.calls[j].at) &&
            (forall i, j :: 0 <= i < |m.calls| && 0 <= j < |m.calls| && m.calls[i].until <= m.calls[j].since ==>
               m.calls[i].at < m.calls[j].at)
  {
    hide Spec, Replay, Wrap;
    InitialInv(init);
    RunKeepsInv(init, Initially(init), ss);
    RunClaims(Initially(init), ss);
    var m := Run(Initially(init), ss);
    AtTheirPlaces(init, m.log);
    assert forall i :: 0 <= i < |m.calls| ==> CallInv(m, m.calls[i]);
    hide Run, EnabledRun, AllClaimed, Faithful;
  }

  lemma StepLog(m: Machine, s: Step)
    requires Enabled(m, s)
    ensures |m.log| <= |Apply(m, s).log| <= |m.log| + 1 && Apply(m, s).log[..|m.log|] == m.log
  {
    hide Wrap;
  }

  lemma {:induction false} RunLog(m: Machine, ss: seq<Step>)
    requires EnabledRun(m, ss)
    ensures |m.log| <= |Run(m, ss).log| && Run(m, ss).log[..|m.log|] == m.log
    decreases |ss|
  {
    hide Apply, Enabled;
    if ss == [] {
      assert m.log[..|m.log|] == m.log;
    } else {
      StepLog(m, ss[0]);
      RunLog(Apply(m, ss[0]), ss[1..]);
      assert m.log == Run(m, ss).log[..|Apply(m, ss[0]).log|][..|m.log|];
    }
  }

  lemma {:induction false} RunSplits(m: Machine, ss: seq<Step>, k: nat)
    requires EnabledRun(m, ss) && k <= |ss|
    ensures EnabledRun(m, ss[..k]) && EnabledRun(Run(m, ss[..k]), ss[k..])
    ensures Run(Run(m, ss[..k]), ss[k..]) == Run(m, ss)
    decreases |ss|
  {
    hide Apply, Enabled;
    if k == 0 {
      assert ss[..0] == [] && ss[0..] == ss;
    } else {
      RunSplits(Apply(m, ss[0]), ss[1..], k - 1);
      assert ss[..k][1..] == ss[1..][..k - 1] && ss[1..][k - 1..] == ss[k..];
    }
  }

  /** The cell at every moment of a run is what the part of the log written by then leaves. */
  lemma CellWas(init: int, ss: seq<Step>, k: nat)
    requires EnabledRun(Initially(init), ss) && k <= |ss|
    ensures EnabledRun(Initially(init), ss[..k])
    ensures var was, now := Run(Initially(init), ss[..k]), Run(Initially(init), ss);
            |was.log| <= |now.log| && was.cell == Replay(init, now.log[..|was.log|])
  {
    hide Run, EnabledRun, Replay;
    RunSplits(Initially(init), ss, k);
    RunLog(Run(Initially(init), ss[..k]), ss[k..]);
    Linearizable(init, ss[..k]);
  }

  /** All operations begun and done so far satisfy ok. */
  ghost predicate Uses(m: Machine, ok: Op -> bool) {
    (forall i :: 0 <= i < |m.log| ==> ok(m.log[i].op)) &&
    (forall t :: t in m.threads && !m.threads[t].pc.Idle? ==> ok(m.threads[t].pc.op))
  }

  ghost predicate AsksOnly(ss: seq<Step>, ok: Op -> bool) {
    forall i :: 0 <= i < |ss| && ss[i].Invoke? ==> ok(ss[i].op)
  }

  lemma StepUses(m: Machine, s: Step, ok: Op -> bool)
    requires Uses(m, ok) && Enabled(m, s) && (s.Invoke? ==> ok(s.op))
    ensures Uses(Apply(m, s), ok)
  {
    hide Spec;
  }

  lemma {:induction false} RunUses(m: Machine, ss: seq<Step>, ok: Op -> bool)
    requires Uses(m, ok) && EnabledRun(m, ss) && AsksOnly(ss, ok)
    ensures Uses(Run(m, ss), ok)
    decreases |ss|
  {
    hide Uses, Apply, Enabled;
    if ss != [] {
      StepUses(m, ss[0], ok);
      RunUses(Apply(m, ss[0]), ss[1..], ok);
    }
  }

  // ---------------------------------------------------------------------------
  // Counting.
  // ---------------------------------------------------------------------------

  function Sum(log: seq<Event>): int {
    if log == [] then 0
    else Sum(log[..|log| - 1]) + if log[|log| - 1].op.Increment? then log[|log| - 1].op.delta else 0
  }

  lemma {:induction false} ReplayCounts(init: int, log: seq<Event>)
    requires -TWO_31 <= init < TWO_31
    requires forall i :: 0 <= i < |log| ==> log[i].op.Increment? || log[i].op.Load?
    ensures Replay(init, log) == Wrap(init + Sum(log))
  {
    if log != [] {
      var front, last := log[..|log| - 1], log[|log| - 1];
      ReplayCounts(init, front);
      if last.op.Increment? {
      }
    }
  }

  /** Under increments and loads only, from any number of threads, the cell is always the initial
      value plus the increments that have taken effect, modulo 2^32, and each increment returns that
      sum as of its own place. */
  lemma CellCountsIncrements(init: int, ss: seq<Step>)
    requires -TWO_31 <= init < TWO_31 && EnabledRun(Initially(init), ss)
    requires AsksOnly(ss, (op: Op) => op.Increment? || op.Load?)
    ensures var m := Run(Initially(init), ss);
            m.cell == Wrap(init + Sum(m.log)) &&
            forall i :: 0 <= i < |m.calls| && m.calls[i].op.Increment? ==>
              m.calls[i].at < |m.log| && m.calls[i].result == Wrap(init + Sum(m.log[..m.calls[i].at + 1]))
  {
    hide Run, EnabledRun, Wrap, Sum, Replay, AllClaimed;
    var m, ok := Run(Initially(init), ss), (op: Op) => op.Increment? || op.Load?;
    Linearizable(init, ss);
    RunUses(Initially(init), ss, ok);
    ReplayCounts(init, m.log);
    forall i | 0 <= i < |m.calls| && m.calls[i].op.Increment?
      ensures m.calls[i].result == Wrap(init + Sum(m.log[..m.calls[i].at + 1]))
    {
      IncrementResult(init, m.log, m.calls[i].at);
    }
  }

  lemma IncrementResult(init: int, log: seq<Event>, i: nat)
    requires i < |log| && log[i].op.Increment? && -TWO_31 <= init < TWO_31
    requires forall j :: 0 <= j < |log| ==> log[j].op.Increment? || log[j].op.Load?
    ensures Replay(init, log[..i + 1]) == Wrap(init + Sum(log[..i + 1]))
  {
    ReplayCounts(init, log[..i + 1]);
  }
}
