/** Sequence numbers and barriers on top of the atomic increment (base/atomic_sequence_num.h,
    base/atomic_ref_count.h, base/barrier_closure.cc), for any number of threads. */
module AtomicClients {
  import opened Atomics

  lemma {:induction false} SumOfEqual(log: seq<Event>, delta: int)
    requires forall i :: 0 <= i < |log| ==> log[i].op == Increment(delta)
    ensures Sum(log) == |log| * delta
  {
    if log != [] {
      SumOfEqual(log[..|log| - 1], delta);
    }
  }

  /** When everybody adds the same amount, the result at place i is the start plus i + 1 times it. */
  lemma ResultAt(init: int, m: Machine, delta: int, i: nat)
    requires Inv(init, m) && -TWO_31 <= init < TWO_31 && i < |m.log|
    requires Uses(m, (op: Op) => op == Increment(delta))
    ensures m.log[i].result == Wrap(init + (i + 1) * delta)
  {
    hide Spec;
    AtItsPlace(init, m.log, i);
    IncrementResult(init, m.log, i);
    SumOfEqual(m.log[..i + 1], delta);
  }

  // ---------------------------------------------------------------------------
  // Handing on and claiming a cell.
  // ---------------------------------------------------------------------------

  function Results(log: seq<Event>): seq<int> {
    seq(|log|, i requires 0 <= i < |log| => log[i].result)
  }

  /** What a log of exchanges has put in. */
  ghost function PutIn(log: seq<Event>): seq<int>
    requires forall i :: 0 <= i < |log| ==> log[i].op.Exchange?
  {
    seq(|log|, i requires 0 <= i < |log| => log[i].op.value)
  }

  lemma GetsLast(init: int, log: seq<Event>, k: nat)
    requires Faithful(init, log) && k < |log| && forall i :: 0 <= i < |log| ==> log[i].op.Exchange?
    ensures log[k].result == if k == 0 then init else log[k - 1].op.value
    ensures Replay(init, log) == log[|log| - 1].op.value
  {
    AtItsPlace(init, log, k);
    AtItsPlace(init, log, |log| - 1);
    assert log[..|log| - 1 + 1] == log;
    if k > 0 {
      AtItsPlace(init, log, k - 1);
      assert log[..k] == log[..k - 1 + 1];
    }
  }

  /** With exchanges only, every one gets what the one before it has put in: nothing is lost and
      nothing is handed out twice, whatever the threads do. */
  lemma ExchangesHandOn(init: int, ss: seq<Step>)
    requires EnabledRun(Initially(init), ss) && AsksOnly(ss, (op: Op) => op.Exchange?)
    ensures var m := Run(Initially(init), ss);
            (forall i :: 0 <= i < |m.log| ==> m.log[i].op.Exchange?) &&
            Results(m.log) + [m.cell] == [init] + PutIn(m.log) &&
            multiset(Results(m.log)) + multiset{m.cell} == multiset{init} + multiset(PutIn(m.log))
  {
    var m := Run(Initially(init), ss);
    RunUses(Initially(init), ss, (op: Op) => op.Exchange?);
    InitialInv(init);
    RunKeepsInv(init, Initially(init), ss);
    hide Run, EnabledRun, Faithful, ThreadInv, Spec;
    forall k: nat | k < |m.log| ensures m.log[k].result == if k == 0 then init else m.log[k - 1].op.value {
      GetsLast(init, m.log, k);
    }
    if m.log != [] {
      GetsLast(init, m.log, 0);
    }
    assert Results(m.log) + [m.cell] == [init] + PutIn(m.log);
    assert multiset(Results(m.log) + [m.cell]) == multiset([init] + PutIn(m.log));
  }

  lemma {:induction false} FirstClaims(log: seq<Event>)
    requires Faithful(0, log)
    requires forall i :: 0 <= i < |log| ==>
               log[i].op.CompareAndSwap? && log[i].op.expected == 0 && log[i].op.replacement != 0
    ensures Replay(0, log) == if log == [] then 0 else log[0].op.replacement
  {
    if log != [] {
      var n := |log| - 1;
      assert forall i :: 0 <= i <= n ==> log[..n][..i] == log[..i];
      FirstClaims(log[..n]);
      AtItsPlace(0, log, n);
      assert log[..n + 1] == log;
    }
  }

  lemma OnlyFirstClaims(log: seq<Event>, i: nat)
    requires Faithful(0, log) && i < |log|
    requires forall i :: 0 <= i < |log| ==>
               log[i].op.CompareAndSwap? && log[i].op.expected == 0 && log[i].op.replacement != 0
    ensures log[i].result == if i == 0 then 0 else log[0].op.replacement
  {
    assert forall j :: 0 <= j <= i ==> log[..i][..j] == log[..j];
    AtItsPlace(0, log, i);
    hide Spec, Replay;
    FirstClaims(log[..i]);
  }

  /** With nothing but attempts to put something into an empty cell, the first one to take effect is
      the only one that finds the cell empty, and what it has put in stays; once every call has
      returned, exactly one of them, if there are any, is told that it was the one. */
  lemma OneClaims(ss: seq<Step>)
    requires EnabledRun(Initially(0), ss)
    requires AsksOnly(ss, (op: Op) => op.CompareAndSwap? && op.expected == 0 && op.replacement != 0)
    ensures var m := Run(Initially(0), ss);
            (m.log == [] <==> m.cell == 0) &&
            (m.log != [] ==> m.log[0].op.CompareAndSwap? && m.cell == m.log[0].op.replacement) &&
            (forall i :: 0 <= i < |m.log| ==> m.log[i].result == if i == 0 then 0 else m.cell) &&
            (forall i, j :: 0 <= i < j < |m.calls| ==> m.calls[i].result != 0 || m.calls[j].result != 0) &&
            ((forall t :: t in m.threads ==> m.threads[t].pc.Idle?) && m.log != [] ==>
               exists k :: 0 <= k < |m.calls| && m.calls[k].result == 0)
  {
    var m := Run(Initially(0), ss);
    InitialInv(0);
    RunKeepsInv(0, Initially(0), ss);
    RunUses(Initially(0), ss, (op: Op) => op.CompareAndSwap? && op.expected == 0 && op.replacement != 0);
    RunClaims(Initially(0), ss);
    hide Run, EnabledRun, Spec, Faithful, Replay, ThreadInv;
    FirstClaims(m.log);
    forall i: nat | i < |m.log| ensures m.log[i].result == if i == 0 then 0 else m.cell {
      OnlyFirstClaims(m.log, i);
    }
    forall i | 0 <= i < |m.calls| ensures m.calls[i].result == 0 <==> m.calls[i].at == 0 {
      assert CallInv(m, m.calls[i]);
      assert m.log[m.calls[i].at].result == m.calls[i].result;
    }
    if (forall t :: t in m.threads ==> m.threads[t].pc.Idle?) && m.log != [] {
      assert Claimed(m, 0);
    }
  }

  // ---------------------------------------------------------------------------
  // AtomicSequenceNumber::GetNext
  // ---------------------------------------------------------------------------

  /** GetNext subtracts one from what the increment returned. */
  function Number(c: Returned): int {
    c.result - 1
  }

  function Numbers(m: Machine): set<int> {
    set i | 0 <= i < |m.calls| :: Number(m.calls[i])
  }

  /** Up to 2^31 - 1 calls get different numbers, in the order in which they took effect and with
      no number skipped; once every call has returned, the numbers are exactly 0 to k - 1. */
  lemma SequenceNumbers(ss: seq<Step>)
    requires EnabledRun(Initially(0), ss) && AsksOnly(ss, (op: Op) => op == Increment(1))
    requires |Run(Initially(0), ss).log| < TWO_31
    ensures var m := Run(Initially(0), ss);
            (forall i :: 0 <= i < |m.calls| ==> Number(m.calls[i]) == m.calls[i].at < |m.log|) &&
            (forall i, j :: 0 <= i < j < |m.calls| ==> Number(m.calls[i]) != Number(m.calls[j])) &&
            ((forall t :: t in m.threads ==> m.threads[t].pc.Idle?) ==>
               forall k :: k in Numbers(m) <==> 0 <= k < |m.log|)
  {
    hide Spec;
    var m, ok := Run(Initially(0), ss), (op: Op) => op == Increment(1);
    InitialInv(0);
    RunKeepsInv(0, Initially(0), ss);
    RunUses(Initially(0), ss, ok);
    RunClaims(Initially(0), ss);
    forall i | 0 <= i < |m.calls| ensures Number(m.calls[i]) == m.calls[i].at < |m.log| {
      assert CallInv(m, m.calls[i]);
      ResultAt(0, m, 1, m.calls[i].at);
    }
    if forall t :: t in m.threads ==> m.threads[t].pc.Idle? {
      forall n: nat | n < |m.log| ensures n in Numbers(m) {
        assert Claimed(m, n);
        var k :| 0 <= k < |m.calls| && m.calls[k].at == n;
        assert Number(m.calls[k]) == n;
      }
    }
  }

  // ---------------------------------------------------------------------------
  // BarrierClosure
  // ---------------------------------------------------------------------------

  /** The counter, the threads that have seen it reach zero and not yet run the done closure, the
      threads that have run it, and whether it is still there. */
  datatype Barrier = Barrier(counter: Machine, running: set<Tid>, ran: seq<Tid>, hasClosure: bool)

  /** The steps of BarrierInfo::Run: the accesses of the decrement, and running and resetting the
      done closure when its result was zero. */
  datatype BarrierStep = Count(step: Step) | RunDone(tid: Tid)

  predicate BarrierEnabled(b: Barrier, s: BarrierStep) {
    match s
    case Count(step) =>
      Enabled(b.counter, step) && (step.Invoke? ==> step.op == Increment(-1) && step.tid !in b.running)
    case RunDone(t) => t in b.running
  }

  function BarrierApply(b: Barrier, s: BarrierStep): Barrier
    requires BarrierEnabled(b, s)
  {
    match s
    case Count(step) =>
      b.(counter := Apply(b.counter, step),
         running := if step.Return? && Of(b.counter, step.tid).pc.result == 0
                    then b.running + {step.tid} else b.running)
    case RunDone(t) => b.(running := b.running - {t}, ran := b.ran + [t], hasClosure := false)
  }

  predicate BarrierEnabledRun(b: Barrier, ss: seq<BarrierStep>)
    decreases |ss|
  {
    ss == [] || (BarrierEnabled(b, ss[0]) && BarrierEnabledRun(BarrierApply(b, ss[0]), ss[1..]))
  }

  function BarrierRun(b: Barrier, ss: seq<BarrierStep>): Barrier
    requires BarrierEnabledRun(b, ss)
    decreases |ss|
  {
    if ss == [] then b else BarrierRun(BarrierApply(b, ss[0]), ss[1..])
  }

  /** BarrierClosure for a positive count. */
  function NewBarrier(n: nat): Barrier {
    Barrier(Initially(n), {}, [], true)
  }

  /** How far the thread has come that made the n-th decrement: none has, it is about to
      return, it is about to run the done closure, or it has run it. */
  datatype Stage = Counting | Returning | Running | Finished

  ghost predicate AtStage(n: nat, b: Barrier, stage: Stage)
    requires n > 0
  {
    var m := b.counter;
    match stage
    case Counting => |m.log| < n && b.running == {} && b.ran == []
    case Returning =>
      |m.log| >= n && b.running == {} && b.ran == [] &&
      var t := m.log[n - 1].tid; t in m.threads && m.threads[t].pc.Done? && m.threads[t].pc.at == n - 1
    case Running => |m.log| >= n && b.running == {m.log[n - 1].tid} && b.ran == [] && ReturnedAt(m, n - 1)
    case Finished => |m.log| >= n && b.running == {} && b.ran == [m.log[n - 1].tid] && ReturnedAt(m, n - 1)
  }

  ghost predicate BarrierInv(n: nat, b: Barrier)
    requires n > 0
  {
    && Inv(n, b.counter) && Uses(b.counter, (op: Op) => op == Increment(-1)) && AllClaimed(b.counter)
    && (b.hasClosure <==> b.ran == [])
    && exists stage :: AtStage(n, b, stage)
  }

  ghost predicate ReturnedAt(m: Machine, i: nat) {
    exists k :: 0 <= k < |m.calls| && m.calls[k].at == i
  }

  /** With fewer than n + 2^32 decrements, only the n-th one gives zero. */
  lemma ZeroAt(n: nat, m: Machine, i: nat)
    requires 0 < n < TWO_31 && Inv(n, m) && Uses(m, (op: Op) => op == Increment(-1))
    requires i < |m.log| < n + TWO_32
    ensures m.log[i].result == 0 <==> i == n - 1
  {
    ResultAt(n, m, -1, i);
    var k :| Wrap(n + (i + 1) * -1) == n + (i + 1) * -1 + k * TWO_32;
    assert Wrap(n + (i + 1) * -1) == n - (i + 1) + k * TWO_32;
  }

  lemma LogGrows(m: Machine, s: Step)
    requires Enabled(m, s)
    ensures var r := Apply(m, s);
            |m.log| <= |r.log| <= |m.log| + 1 && r.log[..|m.log|] == m.log &&
            (|r.log| > |m.log| ==> s.Act? && r.threads[s.tid].pc.Done? && r.threads[s.tid].pc.at == |m.log| &&
                                   r.log[|m.log|].tid == s.tid) &&
            (forall t :: t in m.threads && t != s.tid ==> t in r.threads && r.threads[t] == m.threads[t]) &&
            (!s.Return? ==> r.calls == m.calls) &&
            (s.Return? ==> r.log == m.log && |r.calls| == |m.calls| + 1 && r.calls[..|m.calls|] == m.calls &&
                           r.calls[|m.calls|].at == Of(m, s.tid).pc.at)
  {
    hide Spec;
  }

  /** The thread of the n-th decrement has returned: no other return gives zero. */
  lemma CountAfter(n: nat, b: Barrier, step: Step, stage: Stage)
    requires 0 < n && BarrierEnabled(b, Count(step)) && AtStage(n, b, stage) && (stage.Running? || stage.Finished?)
    requires Inv(n, Apply(b.counter, step))
    requires step.Return? ==> (Of(b.counter, step.tid).pc.result == 0 <==> Of(b.counter, step.tid).pc.at == n - 1)
    ensures AtStage(n, BarrierApply(b, Count(step)), stage)
  {
    var m, r := b.counter, Apply(b.counter, step);
    LogGrows(m, step);
    assert r.log[n - 1] == r.log[..|m.log|][n - 1];
    if step.Return? {
      var k :| 0 <= k < |m.calls| && m.calls[k].at == n - 1;
    }
    hide Inv, Apply, ReturnedAt;
  }

  /** The thread of the n-th decrement is on its way out. */
  lemma CountReturning(n: nat, b: Barrier, step: Step)
    requires 0 < n && BarrierEnabled(b, Count(step)) && AtStage(n, b, Returning) && Inv(n, b.counter)
    requires step.Return? ==> (Of(b.counter, step.tid).pc.result == 0 <==> Of(b.counter, step.tid).pc.at == n - 1)
    ensures var next := if step.Return? && Of(b.counter, step.tid).pc.at == n - 1 then Running else Returning;
            AtStage(n, BarrierApply(b, Count(step)), next)
  {
    var m, r := b.counter, Apply(b.counter, step);
    LogGrows(m, step);
    assert r.log[n - 1] == r.log[..|m.log|][n - 1];
    if step.Return? {
      assert ThreadInv(n, m, step.tid);
      if Of(m, step.tid).pc.at == n - 1 {
        assert r.calls[|m.calls|].at == n - 1;
      }
    }
    hide Inv, Apply;
  }

  lemma CountCounting(n: nat, b: Barrier, step: Step)
    requires 0 < n && BarrierEnabled(b, Count(step)) && AtStage(n, b, Counting) && Inv(n, b.counter)
    requires step.Return? ==> (Of(b.counter, step.tid).pc.result == 0 <==> Of(b.counter, step.tid).pc.at == n - 1)
    ensures var r := BarrierApply(b, Count(step));
            AtStage(n, r, if |r.counter.log| < n then Counting else Returning)
  {
    var m := b.counter;
    LogGrows(m, step);
    if step.Return? {
      assert ThreadInv(n, m, step.tid);
    }
    hide Inv, Apply;
  }

  /** A step of the counter moves the n-th decrement's thread on by its own return only. */
  lemma CountStage(n: nat, b: Barrier, step: Step, stage: Stage)
    requires 0 < n && BarrierEnabled(b, Count(step)) && AtStage(n, b, stage) && Inv(n, b.counter)
    requires Inv(n, Apply(b.counter, step))
    requires step.Return? ==> (Of(b.counter, step.tid).pc.result == 0 <==> Of(b.counter, step.tid).pc.at == n - 1)
    ensures exists next :: AtStage(n, BarrierApply(b, Count(step)), next)
  {
    hide Inv, AtStage;
    match stage
    case Counting => CountCounting(n, b, step);
    case Returning => CountReturning(n, b, step);
    case _ => CountAfter(n, b, step, stage);
  }

  lemma CountKeepsInv(n: nat, b: Barrier, step: Step)
    requires 0 < n < TWO_31 && BarrierInv(n, b) && BarrierEnabled(b, Count(step))
    requires |Apply(b.counter, step).log| < n + TWO_32
    ensures BarrierInv(n, BarrierApply(b, Count(step)))
  {
    var m := b.counter;
    StepKeepsInv(n, m, step);
    StepUses(m, step, (op: Op) => op == Increment(-1));
    StepClaims(m, step);
    if step.Return? {
      assert ThreadInv(n, m, step.tid);
      ZeroAt(n, m, Of(m, step.tid).pc.at);
    }
    hide Inv, Uses, AllClaimed, Apply, AtStage;
    var stage :| AtStage(n, b, stage);
    CountStage(n, b, step, stage);
  }

  lemma BarrierStepKeepsInv(n: nat, b: Barrier, s: BarrierStep)
    requires 0 < n < TWO_31 && BarrierInv(n, b) && BarrierEnabled(b, s)
    requires |BarrierApply(b, s).counter.log| < n + TWO_32
    ensures BarrierInv(n, BarrierApply(b, s))
  {
    hide Inv, Uses, AllClaimed;
    match s
    case Count(step) => CountKeepsInv(n, b, step);
    case RunDone(t) =>
      assert AtStage(n, b, Running);
      assert AtStage(n, BarrierApply(b, s), Finished);
  }

  lemma {:induction false} LogNeverShrinks(b: Barrier, ss: seq<BarrierStep>)
    requires BarrierEnabledRun(b, ss)
    ensures |b.counter.log| <= |BarrierRun(b, ss).counter.log|
    decreases |ss|
  {
    if ss != [] {
      if ss[0].Count? {
        LogGrows(b.counter, ss[0].step);
      }
      hide Apply, Enabled;
      LogNeverShrinks(BarrierApply(b, ss[0]), ss[1..]);
    }
  }

  lemma {:induction false} BarrierRunKeepsInv(n: nat, b: Barrier, ss: seq<BarrierStep>)
    requires 0 < n < TWO_31 && BarrierInv(n, b) && BarrierEnabledRun(b, ss)
    requires |BarrierRun(b, ss).counter.log| < n + TWO_32
    ensures BarrierInv(n, BarrierRun(b, ss))
    decreases |ss|
  {
    hide BarrierInv, BarrierApply, BarrierEnabled;
    if ss != [] {
      LogNeverShrinks(BarrierApply(b, ss[0]), ss[1..]);
      BarrierStepKeepsInv(n, b, ss[0]);
      BarrierRunKeepsInv(n, BarrierApply(b, ss[0]), ss[1..]);
    }
  }

  /** For every interleaving of calls of Run on a barrier of n > 0: the done closure is not run
      before the n-th decrement, it is run at most once, by the thread whose decrement was the
      n-th, and it is still there to be run; once no call is in progress and n have been made it
      has been run. The source allows n calls; this holds until the counter wraps around to
      zero again. */
  lemma BarrierRunsDoneOnce(n: nat, ss: seq<BarrierStep>)
    requires 0 < n < TWO_31 && BarrierEnabledRun(NewBarrier(n), ss)
    requires |BarrierRun(NewBarrier(n), ss).counter.log| < n + TWO_32
    ensures var b := BarrierRun(NewBarrier(n), ss);
            (b.ran != [] ==> |b.counter.log| >= n && b.ran == [b.counter.log[n - 1].tid]) &&
            (b.running != {} ==> b.hasClosure) &&
            (b.running == {} && (forall t :: t in b.counter.threads ==> b.counter.threads[t].pc.Idle?) ==>
               (b.ran != [] <==> |b.counter.calls| >= n))
  {
    var start, b := NewBarrier(n), BarrierRun(NewBarrier(n), ss);
    InitialInv(n);
    assert AtStage(n, start, Counting);
    BarrierRunKeepsInv(n, start, ss);
    var stage :| AtStage(n, b, stage);
    if b.running == {} && forall t :: t in b.counter.threads ==> b.counter.threads[t].pc.Idle? {
      AsManyCalls(n, b.counter);
    }
  }

  /** When every thread is outside, as many calls have returned as have taken effect. */
  lemma AsManyCalls(init: int, m: Machine)
    requires Inv(init, m) && AllClaimed(m)
    requires forall t :: t in m.threads ==> m.threads[t].pc.Idle?
    ensures |m.calls| == |m.log|
  {
    hide Replay, Faithful, Spec;
    forall i: nat | i < |m.log| ensures i in Places(m.calls) {
      assert Claimed(m, i);
    }
    forall i | 0 <= i < |m.calls| ensures m.calls[i].at < |m.log| {
      assert CallInv(m, m.calls[i]);
    }
    assert Places(m.calls) == Below(|m.log|);
    CountPlaces(m.calls);
  }

  function Places(calls: seq<Returned>): (s: set<nat>)
    ensures forall p :: p in s <==> exists i :: 0 <= i < |calls| && calls[i].at == p
  {
    if calls == [] then {} else
      var n := |calls| - 1;
      assert forall i :: 0 <= i < n ==> calls[..n][i] == calls[i];
      Places(calls[..n]) + {calls[n].at}
  }

  lemma {:induction false} CountPlaces(calls: seq<Returned>)
    requires forall i, j :: 0 <= i < j < |calls| ==> calls[i].at != calls[j].at
    ensures |Places(calls)| == |calls|
  {
    if calls != [] {
      var n, front := |calls| - 1, calls[..|calls| - 1];
      CountPlaces(front);
      assert forall i :: 0 <= i < n ==> front[i] == calls[i];
      assert calls[n].at !in Places(front);
    }
  }

  function Below(n: nat): (s: set<nat>)
    ensures |s| == n && forall i: nat :: i in s <==> i < n
  {
    if n == 0 then {} else
      var s := Below(n - 1);
      assert n - 1 !in s;
      s + {n - 1}
  }
}
