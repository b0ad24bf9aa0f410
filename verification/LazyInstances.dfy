/** LazyInstance::Pointer and AtExitManager, for any number of threads, lazy instances and
    managers (base/lazy_instance.h, base/lazy_instance.cc, base/at_exit.cc). */
module LazyInstances {

  type Tid = nat

  /** An instance is named by the address of its private_buf_, which is also the pointer that
      constructing it gives. It is not 0 and, being aligned, not 1. */
  type Address = a: int | 1 < a witness 2

  /** kLazyInstanceStateCreating. */
  const CREATING := 1

  /** Where a thread is in Pointer(): before its first load, before the compare-and-swap, spinning,
      in the constructor, before the publishing store, before registering OnExit, before the last
      load. */
  datatype Stage = Load | Swap | Spin | Construct | Publish(value: int) | Register | Fetch

  datatype Pc = Idle | In(inst: Address, stage: Stage)

  /** A task given to a manager: the OnExit of an instance or anything else. */
  datatype Task = OnExit(inst: Address) | Other(id: nat)

  datatype Event =
    | Constructed(inst: Address)
    | Registered(task: Task)
    | Dropped(task: Task)
    | Ran(task: Task)
    | Returned(tid: Tid, inst: Address, value: int)

  /** word is private_instance_ of every instance, exits the instances whose traits register
      OnExit, managers the stack of managers with the stack of tasks of each, the top last, and
      processing whether ProcessCallbacksNow holds the lock of the top one. owner, the thread
      that won the compare-and-swap until it has published and registered, and log, what has
      happened, are there for the proofs only. */
  datatype World = World(
    word: map<Address, int>, threads: map<Tid, Pc>, exits: set<Address>,
    managers: seq<seq<Task>>, processing: bool,
    owner: map<Address, Tid>, log: seq<Event>)

  function Word(w: World, i: Address): int {
    if i in w.word then w.word[i] else 0
  }

  function Of(w: World, t: Tid): Pc {
    if t in w.threads then w.threads[t] else Idle
  }

  function Top(w: World): seq<Task>
    requires w.managers != []
  {
    w.managers[|w.managers| - 1]
  }

  function WithTop(w: World, tasks: seq<Task>): World
    requires w.managers != []
  {
    w.(managers := w.managers[..|w.managers| - 1] + [tasks])
  }

  datatype Step =
    | Invoke(tid: Tid, inst: Address)
    | Act(tid: Tid)
    | Post(id: nat)
    | NewManager
    | Begin
    | RunTop
    | End(destroy: bool)

  /** OnExit must not run while another thread is in Pointer() of the same instance, and while
      tasks run the lock keeps out everybody who wants to register one. */
  ghost predicate Enabled(w: World, s: Step) {
    match s
    case Invoke(t, i) => Of(w, t).Idle?
    case Act(t) => Of(w, t).In? && (Of(w, t).stage.Register? ==> !w.processing)
    case Post(_) => !w.processing
    case NewManager => !w.processing
    case Begin => !w.processing && w.managers != []
    case RunTop =>
      w.processing && w.managers != [] && Top(w) != [] &&
      var task := Top(w)[|Top(w)| - 1];
      task.OnExit? ==> Unused(w, task.inst)
    case End(_) => w.processing && w.managers != [] && Top(w) == []
  }

  ghost predicate Unused(w: World, i: Address) {
    forall t :: t in w.threads && w.threads[t].In? ==> w.threads[t].inst != i
  }

  function Move(w: World, t: Tid, i: Address, stage: Stage): World {
    w.(threads := w.threads[t := In(i, stage)])
  }

  function Note(w: World, e: Event): World {
    w.(log := w.log + [e])
  }

  /** RegisterTask: onto the top manager, or lost when there is none. */
  function RegisterTask(w: World, task: Task): World {
    if w.managers == [] then Note(w, Dropped(task))
    else Note(WithTop(w, Top(w) + [task]), Registered(task))
  }

  function Access(w: World, t: Tid): World
    requires Of(w, t).In?
  {
    var i := Of(w, t).inst;
    match Of(w, t).stage
    case Load =>
      if Word(w, i) != 0 && Word(w, i) != CREATING then Move(w, t, i, Fetch) else Move(w, t, i, Swap)
    case Swap =>
      if Word(w, i) == 0 then
        Move(w.(word := w.word[i := CREATING], owner := w.owner[i := t]), t, i, Construct)
      else Move(w, t, i, Spin)
    case Spin => if Word(w, i) == CREATING then w else Move(w, t, i, Fetch)
    case Construct => Note(Move(w, t, i, Publish(i)), Constructed(i))
    case Publish(value) =>
      var published := w.(word := w.word[i := value]);
      if i in w.exits then Move(published, t, i, Register)
      else Move(published.(owner := w.owner - {i}), t, i, Fetch)
    case Register => RegisterTask(Move(w.(owner := w.owner - {i}), t, i, Fetch), OnExit(i))
    case Fetch => Note(w.(threads := w.threads[t := Idle]), Returned(t, i, Word(w, i)))
  }

  function Apply(w: World, s: Step): World
    requires Enabled(w, s)
  {
    match s
    case Invoke(t, i) => Move(w, t, i, Load)
    case Act(t) => Access(w, t)
    case Post(id) => RegisterTask(w, Other(id))
    case NewManager => w.(managers := w.managers + [[]])
    case Begin => w.(processing := true)
    case RunTop =>
      var tasks := Top(w);
      var task := tasks[|tasks| - 1];
      var ran := Note(WithTop(w, tasks[..|tasks| - 1]), Ran(task));
      if task.OnExit? then ran.(word := w.word[task.inst := 0]) else ran
    case End(destroy) =>
      var done := w.(processing := false);
      if destroy then done.(managers := w.managers[..|w.managers| - 1]) else done
  }

  ghost predicate EnabledRun(w: World, ss: seq<Step>)
    decreases |ss|
  {
    ss == [] || (Enabled(w, ss[0]) && EnabledRun(Apply(w, ss[0]), ss[1..]))
  }

  ghost function Run(w: World, ss: seq<Step>): World
    requires EnabledRun(w, ss)
    decreases |ss|
  {
    if ss == [] then w else Run(Apply(w, ss[0]), ss[1..])
  }

  function Initially(exits: set<Address>): World {
    World(map[], map[], exits, [], false, map[], [])
  }

  // ---------------------------------------------------------------------------
  // What may happen to one instance, one event at a time.
  // ---------------------------------------------------------------------------

  /** No object; an object nobody has registered; one that some manager will destroy; one whose
      registration was lost. */
  datatype Phase = Dead | Fresh | Kept | Orphan | Broken

  function NextPhase(p: Phase, e: Event, i: Address, exits: bool): Phase {
    match e
    case Constructed(j) => if j != i then p else if p == Dead then Fresh else Broken
    case Registered(task) => if task != OnExit(i) then p else if p == Fresh && exits then Kept else Broken
    case Dropped(task) => if task != OnExit(i) then p else if p == Fresh && exits then Orphan else Broken
    case Ran(task) => if task != OnExit(i) then p else if p == Kept then Dead else Broken
    case Returned(_, j, value) => if j != i then p else if p != Dead && value == i then p else Broken
  }

  function PhaseAfter(log: seq<Event>, i: Address, exits: bool): Phase {
    if log == [] then Dead
    else NextPhase(PhaseAfter(log[..|log| - 1], i, exits), log[|log| - 1], i, exits)
  }

  function PhaseOf(w: World, i: Address): Phase {
    PhaseAfter(w.log, i, i in w.exits)
  }

  function Flat(managers: seq<seq<Task>>): seq<Task> {
    if managers == [] then [] else Flat(managers[..|managers| - 1]) + managers[|managers| - 1]
  }

  // ---------------------------------------------------------------------------
  // The invariant.
  // ---------------------------------------------------------------------------

  predicate Owns(w: World, t: Tid, i: Address) {
    i in w.owner && w.owner[i] == t
  }

  predicate ThreadInv(w: World, t: Tid) {
    match Of(w, t)
    case Idle => true
    case In(i, Load) => !Owns(w, t, i)
    case In(i, Swap) => !Owns(w, t, i)
    case In(i, Spin) => !Owns(w, t, i) && Word(w, i) != 0
    case In(i, Construct) => Owns(w, t, i) && Word(w, i) == CREATING && PhaseOf(w, i) == Dead
    case In(i, Publish(value)) => Owns(w, t, i) && value == i && Word(w, i) == CREATING && PhaseOf(w, i) == Fresh
    case In(i, Register) => Owns(w, t, i) && i in w.exits && Word(w, i) == i && PhaseOf(w, i) == Fresh
    case In(i, Fetch) => !Owns(w, t, i) && Word(w, i) == i
  }

  predicate Creating(pc: Pc, i: Address) {
    pc.In? && pc.inst == i && (pc.stage.Construct? || pc.stage.Publish? || pc.stage.Register?)
  }

  predicate InstInv(w: World, i: Address) {
    var p := PhaseOf(w, i);
    && (Word(w, i) == 0 || Word(w, i) == CREATING || Word(w, i) == i)
    && (i in w.owner ==> Creating(Of(w, w.owner[i]), i))
    && (Word(w, i) == 0 ==> p == Dead)
    && (Word(w, i) == CREATING ==> i in w.owner)
    && (Word(w, i) == i ==> p != Dead)
    && (i in w.exits && p == Fresh ==> i in w.owner)
    && (i !in w.exits ==> p == Dead || p == Fresh)
    && (p == Kept <==> OnExit(i) in Flat(w.managers))
    && p != Broken
  }

  predicate NoRepeats(tasks: seq<Task>) {
    forall j, k :: 0 <= j < k < |tasks| && tasks[j].OnExit? ==> tasks[j] != tasks[k]
  }

  ghost predicate Inv(w: World) {
    && (forall t :: t in w.threads ==> ThreadInv(w, t))
    && (forall i: Address :: InstInv(w, i))
    && NoRepeats(Flat(w.managers))
    && (w.processing ==> w.managers != [])
  }

  lemma PhaseAppends(log: seq<Event>, e: Event, i: Address, exits: bool)
    ensures PhaseAfter(log + [e], i, exits) == NextPhase(PhaseAfter(log, i, exits), e, i, exits)
  {
    assert (log + [e])[..|log|] == log;
  }

  lemma FlatTop(below: seq<seq<Task>>, tasks: seq<Task>)
    ensures Flat(below + [tasks]) == Flat(below) + tasks
  {
    assert (below + [tasks])[..|below|] == below;
  }

  /** Nothing that the invariant says about instance j is different. */
  predicate Same(w: World, r: World, j: Address) {
    && Word(r, j) == Word(w, j) && PhaseOf(r, j) == PhaseOf(w, j)
    && (j in r.owner <==> j in w.owner) && (j in w.owner ==> r.owner[j] == w.owner[j])
    && r.exits == w.exits
    && (OnExit(j) in Flat(r.managers) <==> OnExit(j) in Flat(w.managers))
  }

  /** What a step of thread t on instance i leaves to be shown. */
  lemma StepOf(w: World, r: World, t: Tid, i: Address)
    requires Inv(w) && (Of(w, t).In? ==> Of(w, t).inst == i)
    requires r.threads.Keys == w.threads.Keys + {t}
    requires forall u :: u in w.threads && u != t ==> r.threads[u] == w.threads[u]
    requires forall j: Address :: j != i ==> Same(w, r, j)
    requires forall u :: u in w.threads && u != t && w.threads[u].In? && w.threads[u].inst == i ==> ThreadInv(r, u)
    requires ThreadInv(r, t) && InstInv(r, i) && NoRepeats(Flat(r.managers))
    requires r.processing ==> r.managers != []
    ensures Inv(r)
  {
    hide PhaseOf, Flat, NoRepeats;
    forall u | u in r.threads ensures ThreadInv(r, u) {
      if u != t && w.threads[u].In? && w.threads[u].inst != i {
        assert ThreadInv(w, u) && Same(w, r, w.threads[u].inst);
      }
    }
    forall j: Address ensures InstInv(r, j) {
      if j != i {
        assert InstInv(w, j);
        assert Same(w, r, j);
        if j in r.owner {
          assert Creating(Of(w, w.owner[j]), j);
        }
      }
    }
  }

  /** An event about instance i alone leaves the others as they are. */
  lemma OthersSame(w: World, r: World, i: Address)
    requires r.exits == w.exits
    requires forall j: Address :: j != i ==> Word(r, j) == Word(w, j)
    requires forall j: Address :: j != i ==>
               (j in r.owner <==> j in w.owner) && (j in w.owner ==> r.owner[j] == w.owner[j])
    requires forall j: Address :: j != i ==> (OnExit(j) in Flat(r.managers) <==> OnExit(j) in Flat(w.managers))
    requires r.log == w.log || exists e :: r.log == w.log + [e] && About(e, i)
    ensures forall j: Address :: j != i ==> Same(w, r, j)
  {
    forall j: Address | j != i ensures Same(w, r, j) {
      if r.log != w.log {
        var e :| r.log == w.log + [e] && About(e, i);
        PhaseAppends(w.log, e, j, j in w.exits);
      }
    }
  }

  predicate About(e: Event, i: Address) {
    match e
    case Constructed(j) => j == i
    case Registered(task) => task.OnExit? ==> task.inst == i
    case Dropped(task) => task.OnExit? ==> task.inst == i
    case Ran(task) => task.OnExit? ==> task.inst == i
    case Returned(_, j, _) => j == i
  }

  /** A step that only moves thread t on. */
  lemma MoveKeepsInv(w: World, t: Tid, i: Address, stage: Stage)
    requires Inv(w) && (Of(w, t).In? ==> Of(w, t).inst == i && !Creating(Of(w, t), i))
    requires ThreadInv(Move(w, t, i, stage), t) && !Creating(In(i, stage), i)
    ensures Inv(Move(w, t, i, stage))
  {
    hide PhaseAfter, Flat, NoRepeats;
    var r := Move(w, t, i, stage);
    assert InstInv(w, i);
    forall u | u in w.threads && u != t && w.threads[u].In? && w.threads[u].inst == i ensures ThreadInv(r, u) {
      assert ThreadInv(w, u);
    }
    OthersSame(w, r, i);
    StepOf(w, r, t, i);
  }

  lemma LoadKeepsInv(w: World, t: Tid)
    requires Inv(w) && Of(w, t).In? && (Of(w, t).stage.Load? || Of(w, t).stage.Spin?)
    ensures Inv(Access(w, t))
  {
    hide PhaseAfter, Flat, NoRepeats;
    var i := Of(w, t).inst;
    assert ThreadInv(w, t) && InstInv(w, i);
    hide Inv;
    if Access(w, t) != w {
      MoveKeepsInv(w, t, i, Of(Access(w, t), t).stage);
    }
  }

  lemma SwapKeepsInv(w: World, t: Tid)
    requires Inv(w) && Of(w, t).In? && Of(w, t).stage.Swap?
    ensures Inv(Access(w, t))
  {
    hide PhaseAfter, Flat, NoRepeats;
    var i := Of(w, t).inst;
    var r := Access(w, t);
    assert ThreadInv(w, t) && InstInv(w, i);
    if Word(w, i) == 0 {
      forall u | u in w.threads && u != t && w.threads[u].In? && w.threads[u].inst == i ensures ThreadInv(r, u) {
        assert ThreadInv(w, u);
      }
      OthersSame(w, r, i);
      StepOf(w, r, t, i);
    } else {
      hide Inv;
      MoveKeepsInv(w, t, i, Spin);
    }
  }

  lemma ConstructKeepsInv(w: World, t: Tid)
    requires Inv(w) && Of(w, t).In? && Of(w, t).stage.Construct?
    ensures Inv(Access(w, t))
  {
    hide PhaseAfter, Flat, NoRepeats;
    var i := Of(w, t).inst;
    var r := Access(w, t);
    assert ThreadInv(w, t) && InstInv(w, i);
    PhaseAppends(w.log, Constructed(i), i, i in w.exits);
    forall u | u in w.threads && u != t && w.threads[u].In? && w.threads[u].inst == i ensures ThreadInv(r, u) {
      assert ThreadInv(w, u);
    }
    OthersSame(w, r, i);
    StepOf(w, r, t, i);
  }

  lemma PublishKeepsInv(w: World, t: Tid)
    requires Inv(w) && Of(w, t).In? && Of(w, t).stage.Publish?
    ensures Inv(Access(w, t))
  {
    hide PhaseAfter, Flat, NoRepeats;
    var i := Of(w, t).inst;
    var r := Access(w, t);
    assert ThreadInv(w, t) && InstInv(w, i);
    forall u | u in w.threads && u != t && w.threads[u].In? && w.threads[u].inst == i ensures ThreadInv(r, u) {
      assert ThreadInv(w, u);
    }
    OthersSame(w, r, i);
    StepOf(w, r, t, i);
  }

  lemma FetchKeepsInv(w: World, t: Tid)
    requires Inv(w) && Of(w, t).In? && Of(w, t).stage.Fetch?
    ensures Inv(Access(w, t))
  {
    hide PhaseAfter, Flat, NoRepeats;
    var i := Of(w, t).inst;
    var r := Access(w, t);
    assert ThreadInv(w, t) && InstInv(w, i);
    PhaseAppends(w.log, Returned(t, i, Word(w, i)), i, i in w.exits);
    forall u | u in w.threads && u != t && w.threads[u].In? && w.threads[u].inst == i ensures ThreadInv(r, u) {
      assert ThreadInv(w, u);
    }
    OthersSame(w, r, i);
    StepOf(w, r, t, i);
  }

  /** What registering does to the stacks as one. */
  lemma RegisterFlat(w: World, task: Task)
    ensures Flat(RegisterTask(w, task).managers) == Flat(w.managers) + if w.managers == [] then [] else [task]
  {
    if w.managers != [] {
      var n := |w.managers| - 1;
      FlatTop(w.managers[..n], Top(w) + [task]);
    }
  }

  lemma RegisterKeepsInv(w: World, t: Tid)
    requires Inv(w) && Of(w, t).In? && Of(w, t).stage.Register?
    ensures Inv(Access(w, t))
  {
    hide PhaseAfter, Flat;
    var i := Of(w, t).inst;
    var r := Access(w, t);
    assert ThreadInv(w, t) && InstInv(w, i);
    var moved := Move(w.(owner := w.owner - {i}), t, i, Fetch);
    RegisterFlat(moved, OnExit(i));
    var e := if w.managers == [] then Dropped(OnExit(i)) else Registered(OnExit(i));
    assert r.log == w.log + [e] && About(e, i);
    PhaseAppends(w.log, e, i, i in w.exits);
    forall u | u in w.threads && u != t && w.threads[u].In? && w.threads[u].inst == i ensures ThreadInv(r, u) {
      assert ThreadInv(w, u);
    }
    OthersSame(w, r, i);
    StepOf(w, r, t, i);
  }

  lemma AccessKeepsInv(w: World, t: Tid)
    requires Inv(w) && Of(w, t).In?
    ensures Inv(Access(w, t))
  {
    hide Inv, Access;
    match Of(w, t).stage {
      case Load => LoadKeepsInv(w, t);
      case Swap => SwapKeepsInv(w, t);
      case Spin => LoadKeepsInv(w, t);
      case Construct => ConstructKeepsInv(w, t);
      case Publish(_) => PublishKeepsInv(w, t);
      case Register => RegisterKeepsInv(w, t);
      case Fetch => FetchKeepsInv(w, t);
    }
  }

  lemma InvokeKeepsInv(w: World, t: Tid, i: Address)
    requires Inv(w) && Of(w, t).Idle?
    ensures Inv(Move(w, t, i, Load))
  {
    hide PhaseAfter, Flat, NoRepeats;
    assert InstInv(w, i);
    MoveKeepsInv(w, t, i, Load);
  }

  /** A step of no thread that touches one instance at most, and only when nobody uses it. */
  lemma QuietStep(w: World, r: World, i: Address)
    requires Inv(w) && r.threads == w.threads && r.owner == w.owner
    requires forall j: Address :: j != i ==> Same(w, r, j)
    requires InstInv(r, i) && NoRepeats(Flat(r.managers)) && (r.processing ==> r.managers != [])
    requires Same(w, r, i) || Unused(w, i)
    ensures Inv(r)
  {
    hide PhaseAfter, Flat, NoRepeats;
    forall u | u in r.threads ensures ThreadInv(r, u) {
      assert ThreadInv(w, u);
      if w.threads[u].In? {
        assert Same(w, r, w.threads[u].inst);
      }
    }
    forall j: Address ensures InstInv(r, j) {
      if j != i {
        assert InstInv(w, j) && Same(w, r, j);
      }
    }
  }

  lemma PostKeepsInv(w: World, id: nat)
    requires Inv(w)
    ensures Inv(RegisterTask(w, Other(id)))
  {
    hide PhaseAfter, Flat;
    var r := RegisterTask(w, Other(id));
    var any: Address := 2;
    assert InstInv(w, any);
    RegisterFlat(w, Other(id));
    var e := if w.managers == [] then Dropped(Other(id)) else Registered(Other(id));
    assert r.log == w.log + [e] && About(e, any);
    PhaseAppends(w.log, e, any, any in w.exits);
    OthersSame(w, r, any);
    QuietStep(w, r, any);
  }

  lemma ManagersKeepInv(w: World, r: World)
    requires Inv(w) && r == w.(managers := r.managers, processing := r.processing)
    requires Flat(r.managers) == Flat(w.managers) && (r.processing ==> r.managers != [])
    ensures Inv(r)
  {
    hide PhaseAfter, Flat, NoRepeats;
    var any: Address := 2;
    assert InstInv(w, any);
    OthersSame(w, r, any);
    QuietStep(w, r, any);
  }

  lemma TopOff(w: World)
    requires Enabled(w, RunTop)
    ensures Flat(w.managers) == Flat(Apply(w, RunTop).managers) + [Top(w)[|Top(w)| - 1]]
  {
    var n := |w.managers| - 1;
    var tasks := Top(w);
    var front, task := tasks[..|tasks| - 1], tasks[|tasks| - 1];
    assert tasks == front + [task];
    assert w.managers == w.managers[..n] + [tasks];
    FlatTop(w.managers[..n], tasks);
    FlatTop(w.managers[..n], front);
  }

  lemma PopFlat(w: World)
    requires Enabled(w, RunTop) && NoRepeats(Flat(w.managers))
    ensures var task, rest := Top(w)[|Top(w)| - 1], Flat(Apply(w, RunTop).managers);
            Flat(w.managers) == rest + [task] && NoRepeats(rest) && (task.OnExit? ==> task !in rest)
  {
    hide Flat;
    TopOff(w);
    var all, rest := Flat(w.managers), Flat(Apply(w, RunTop).managers);
    assert forall k :: 0 <= k < |rest| ==> rest[k] == all[k];
    assert all[|rest|] == Top(w)[|Top(w)| - 1];
  }

  lemma RunTopKeepsInv(w: World)
    requires Inv(w) && Enabled(w, RunTop)
    ensures Inv(Apply(w, RunTop))
  {
    hide PhaseAfter, Flat, NoRepeats;
    var r := Apply(w, RunTop);
    var task := Top(w)[|Top(w)| - 1];
    var i: Address := if task.OnExit? then task.inst else 2;
    PopFlat(w);
    assert InstInv(w, i);
    assert r.log == w.log + [Ran(task)] && About(Ran(task), i);
    PhaseAppends(w.log, Ran(task), i, i in w.exits);
    OthersSame(w, r, i);
    QuietStep(w, r, i);
  }

  lemma ManagerStepKeepsInv(w: World, s: Step)
    requires Inv(w) && Enabled(w, s) && (s.NewManager? || s.Begin? || s.End?)
    ensures Inv(Apply(w, s))
  {
    assert w.processing ==> w.managers != [];
    hide Inv, Flat;
    var r := Apply(w, s);
    match s {
      case NewManager => FlatTop(w.managers, []);
      case End(destroy) =>
        FlatTop(w.managers[..|w.managers| - 1], []);
        assert w.managers == w.managers[..|w.managers| - 1] + [[]];
      case Begin =>
    }
    assert Flat(w.managers) + [] == Flat(w.managers);
    ManagersKeepInv(w, r);
  }

  lemma StepKeepsInv(w: World, s: Step)
    requires Inv(w) && Enabled(w, s)
    ensures Inv(Apply(w, s)) && Apply(w, s).exits == w.exits
  {
    hide Inv;
    match s {
      case Invoke(t, i) => InvokeKeepsInv(w, t, i);
      case Act(t) => AccessKeepsInv(w, t);
      case Post(id) => PostKeepsInv(w, id);
      case RunTop => RunTopKeepsInv(w);
      case _ => ManagerStepKeepsInv(w, s);
    }
  }

  lemma InitialInv(exits: set<Address>)
    ensures Inv(Initially(exits))
  {
    forall i: Address ensures InstInv(Initially(exits), i) {
    }
  }

  lemma {:induction false} RunKeepsInv(w: World, ss: seq<Step>)
    requires Inv(w) && EnabledRun(w, ss)
    ensures Inv(Run(w, ss)) && Run(w, ss).exits == w.exits
    decreases |ss|
  {
    hide Inv, Apply, Enabled;
    if ss != [] {
      StepKeepsInv(w, ss[0]);
      RunKeepsInv(Apply(w, ss[0]), ss[1..]);
    }
  }

  // ---------------------------------------------------------------------------
  // What follows for every run.
  // ---------------------------------------------------------------------------

  /** How often an event has happened. */
  function Times(log: seq<Event>, e: Event): nat {
    if log == [] then 0 else Times(log[..|log| - 1], e) + if log[|log| - 1] == e then 1 else 0
  }

  ghost predicate Counted(log: seq<Event>, i: Address, exits: bool) {
    var p := PhaseAfter(log, i, exits);
    && Times(log, Constructed(i)) == Times(log, Ran(OnExit(i))) + (if p == Dead then 0 else 1)
    && Times(log, Registered(OnExit(i))) == Times(log, Ran(OnExit(i))) + (if p == Kept then 1 else 0)
    && Times(log, Dropped(OnExit(i))) == (if p == Orphan then 1 else 0)
    && (!exits ==> Times(log, Registered(OnExit(i))) == 0)
    && (p == Kept || p == Orphan ==> exits)
  }

  /** What a history without a forbidden event says, in numbers. */
  lemma {:induction false} Counts(log: seq<Event>, i: Address, exits: bool)
    requires PhaseAfter(log, i, exits) != Broken
    ensures Counted(log, i, exits)
  {
    if log != [] {
      Counts(log[..|log| - 1], i, exits);
    }
  }

  /** A history without a forbidden event had none before. */
  lemma {:induction false} LegalBefore(log: seq<Event>, i: Address, exits: bool, n: nat)
    requires PhaseAfter(log, i, exits) != Broken && n <= |log|
    ensures PhaseAfter(log[..n], i, exits) != Broken
  {
    if n < |log| {
      assert log[..|log| - 1][..n] == log[..n];
      LegalBefore(log[..|log| - 1], i, exits, n);
    } else {
      assert log[..n] == log;
    }
  }

  lemma ReturnsPointer(log: seq<Event>, i: Address, exits: bool, k: nat)
    requires PhaseAfter(log, i, exits) != Broken && k < |log| && log[k].Returned? && log[k].inst == i
    ensures log[k].value == i && PhaseAfter(log[..k], i, exits) != Dead
  {
    LegalBefore(log, i, exits, k + 1);
    assert log[..k + 1][..k] == log[..k];
  }

  /** Over every run: each construction is destroyed at most once and before the next one begins,
      and is registered at most once; with the default traits every construction is registered, or
      dropped for want of a manager, by the time no thread is in Pointer(), and a registered one
      still alive has its OnExit on a stack; leaky instances are constructed once and never
      registered or destroyed; and every call returns the address of the object, while it lives. */
  lemma Lives(exits: set<Address>, ss: seq<Step>, i: Address)
    requires EnabledRun(Initially(exits), ss)
    ensures var w := Run(Initially(exits), ss);
            var (made, gone, kept, lost) := (Times(w.log, Constructed(i)), Times(w.log, Ran(OnExit(i))),
                                             Times(w.log, Registered(OnExit(i))), Times(w.log, Dropped(OnExit(i))));
            gone <= made <= gone + 1 &&
            (Word(w, i) == i ==> made == gone + 1) &&
            (Word(w, i) == 0 ==> made == gone) &&
            gone <= kept <= made &&
            (OnExit(i) in Flat(w.managers) <==> kept == gone + 1) &&
            (i in exits && Unused(w, i) ==> kept + lost == made) &&
            (i !in exits ==> gone == 0) &&
            (forall k :: 0 <= k < |w.log| && w.log[k].Returned? && w.log[k].inst == i ==>
               w.log[k].value == i && PhaseAfter(w.log[..k], i, i in exits) != Dead)
  {
    hide PhaseAfter, Flat, NoRepeats, Times;
    InitialInv(exits);
    RunKeepsInv(Initially(exits), ss);
    var w := Run(Initially(exits), ss);
    assert InstInv(w, i);
    Counts(w.log, i, i in exits);
    forall k | 0 <= k < |w.log| && w.log[k].Returned? && w.log[k].inst == i
      ensures w.log[k].value == i && PhaseAfter(w.log[..k], i, i in exits) != Dead
    {
      ReturnsPointer(w.log, i, i in exits, k);
    }
  }

  /** At most one thread is creating an instance, the word says 1 exactly while that thread is in
      the constructor or about to publish, and a thread that is about to return can only read the
      pointer to a finished object. */
  lemma OneCreator(exits: set<Address>, ss: seq<Step>, i: Address)
    requires EnabledRun(Initially(exits), ss)
    ensures var w := Run(Initially(exits), ss);
            (forall t, u ::
               t in w.threads && u in w.threads && Creating(w.threads[t], i) && Creating(w.threads[u], i) ==> t == u) &&
            (Word(w, i) == CREATING <==>
               exists t :: t in w.threads && Creating(w.threads[t], i) && !w.threads[t].stage.Register?) &&
            (forall t :: t in w.threads && w.threads[t] == In(i, Fetch) ==> Word(w, i) == i && PhaseOf(w, i) != Dead)
  {
    hide PhaseAfter, Flat, NoRepeats;
    InitialInv(exits);
    RunKeepsInv(Initially(exits), ss);
    var w := Run(Initially(exits), ss);
    assert InstInv(w, i);
    assert forall t :: t in w.threads ==> ThreadInv(w, t);
    if i in w.owner {
      assert Creating(Of(w, w.owner[i]), i);
      assert ThreadInv(w, w.owner[i]);
    }
  }

  lemma AccessMovesWord(w: World, t: Tid, i: Address)
    requires Inv(w) && Enabled(w, Act(t)) && Word(Access(w, t), i) != Word(w, i)
    ensures (Word(w, i) == 0 && Word(Access(w, t), i) == CREATING && Of(w, t) == In(i, Swap)) ||
            (Word(w, i) == CREATING && Word(Access(w, t), i) == i && Owns(w, t, i) && PhaseOf(w, i) == Fresh)
  {
    hide PhaseAfter, Flat, NoRepeats;
    assert ThreadInv(w, t);
    hide Inv;
  }

  /** The word only moves from 0 to 1 by a successful compare-and-swap, from 1 to the pointer by
      the publishing store after the constructor has finished, and back to 0 by OnExit. */
  lemma WordMoves(w: World, s: Step, i: Address)
    requires Inv(w) && Enabled(w, s)
    ensures var (a, b) := (Word(w, i), Word(Apply(w, s), i));
            a == b ||
            (a == 0 && b == CREATING && s.Act? && Of(w, s.tid) == In(i, Swap)) ||
            (a == CREATING && b == i && s.Act? && Owns(w, s.tid, i) && PhaseOf(w, i) == Fresh) ||
            (a == i && b == 0 && s.RunTop? && Top(w)[|Top(w)| - 1] == OnExit(i) && i in w.exits)
  {
    hide PhaseAfter, Flat, NoRepeats, Access;
    assert InstInv(w, i);
    match s {
      case Act(t) =>
        if Word(Access(w, t), i) != Word(w, i) {
          AccessMovesWord(w, t, i);
        }
      case RunTop =>
        if Top(w)[|Top(w)| - 1] == OnExit(i) {
          PopFlat(w);
        }
      case _ =>
    }
  }

  /** A thread spins only while another thread is constructing, and that thread can go on. */
  lemma SpinsWhileConstructing(w: World, t: Tid)
    requires Inv(w) && Of(w, t).In? && Access(w, t) == w
    ensures Of(w, t).stage.Spin? && Of(w, t).inst in w.owner
    ensures var u := w.owner[Of(w, t).inst];
            u != t && Enabled(w, Act(u)) && Access(w, u) != w && !Of(w, u).stage.Register?
  {
    hide PhaseAfter, Flat, NoRepeats;
    var i := Of(w, t).inst;
    assert ThreadInv(w, t) && InstInv(w, i);
    var u := w.owner[i];
    assert Creating(Of(w, u), i) && ThreadInv(w, u);
    assert Of(Access(w, u), u) != Of(w, u);
  }

  /** ProcessCallbacksNow cannot wait for ever: it can go on, or it is done, or the top task is the
      OnExit of an instance in use, and then every thread that uses it can go on and gets further
      when it does, without waiting for the lock or for another thread. */
  lemma ExitNeverStuck(w: World)
    requires Inv(w) && w.processing
    ensures Top(w) == [] ==> Enabled(w, End(true)) && Enabled(w, End(false))
    ensures Top(w) != [] && !Enabled(w, RunTop) ==>
              var task := Top(w)[|Top(w)| - 1];
              task.OnExit? && !Unused(w, task.inst) &&
              forall t :: t in w.threads && w.threads[t].In? && w.threads[t].inst == task.inst ==>
                Enabled(w, Act(t)) && Access(w, t) != w
  {
    assert Top(w) != [] ==> Top(w)[|Top(w)| - 1] in Flat(w.managers);
    hide PhaseAfter, Flat, NoRepeats;
    if Top(w) != [] && !Enabled(w, RunTop) {
      var i := Top(w)[|Top(w)| - 1].inst;
      assert InstInv(w, i);
      forall t | t in w.threads && w.threads[t].In? && w.threads[t].inst == i
        ensures Enabled(w, Act(t)) && Access(w, t) != w
      {
      }
    }
  }

  // ---------------------------------------------------------------------------
  // Teardown.
  // ---------------------------------------------------------------------------

  function Reverse<T>(tasks: seq<T>): seq<T> {
    if tasks == [] then [] else [tasks[|tasks| - 1]] + Reverse(tasks[..|tasks| - 1])
  }

  lemma {:induction false} ReverseTurns<T>(tasks: seq<T>)
    ensures |Reverse(tasks)| == |tasks|
    ensures forall i :: 0 <= i < |tasks| ==> Reverse(tasks)[i] == tasks[|tasks| - 1 - i]
  {
    if tasks != [] {
      ReverseTurns(tasks[..|tasks| - 1]);
    }
  }

  function RanTasks(log: seq<Event>): seq<Task> {
    if log == [] then []
    else RanTasks(log[..|log| - 1]) + if log[|log| - 1].Ran? then [log[|log| - 1].task] else []
  }

  lemma RanAppends(log: seq<Event>, e: Event)
    ensures RanTasks(log + [e]) == RanTasks(log) + if e.Ran? then [e.task] else []
  {
    assert (log + [e])[..|log|] == log;
  }

  lemma AccessRuns(w: World, t: Tid)
    requires w.processing && Enabled(w, Act(t))
    ensures RanTasks(Access(w, t).log) == RanTasks(w.log)
    ensures Access(w, t).managers == w.managers && Access(w, t).processing
  {
    hide RanTasks;
    var i := Of(w, t).inst;
    RanAppends(w.log, Constructed(i));
    RanAppends(w.log, Returned(t, i, Word(w, i)));
  }

  lemma RunTopRuns(w: World)
    requires Enabled(w, RunTop)
    ensures var r := Apply(w, RunTop);
            r.processing && |r.managers| == |w.managers| &&
            r.managers[..|r.managers| - 1] == w.managers[..|w.managers| - 1] &&
            RanTasks(r.log) + Reverse(Top(r)) == RanTasks(w.log) + Reverse(Top(w))
  {
    var tasks := Top(w);
    var front, task := tasks[..|tasks| - 1], tasks[|tasks| - 1];
    assert Reverse(tasks) == [task] + Reverse(front);
    hide RanTasks, Reverse;
    RanAppends(w.log, Ran(task));
    hide Apply, Enabled;
    assert (RanTasks(w.log) + [task]) + Reverse(front) == RanTasks(w.log) + ([task] + Reverse(front));
  }

  /** While tasks run, what has run and what is still on the top stack, read from the top, stay the
      same list, and the managers below are left alone. */
  lemma TeardownStep(w: World, s: Step)
    requires w.processing && w.managers != [] && Enabled(w, s) && !s.End?
    ensures var r := Apply(w, s);
            r.processing && |r.managers| == |w.managers| &&
            r.managers[..|r.managers| - 1] == w.managers[..|w.managers| - 1] &&
            RanTasks(r.log) + Reverse(Top(r)) == RanTasks(w.log) + Reverse(Top(w))
  {
    hide RanTasks, Access;
    match s {
      case Act(t) => AccessRuns(w, t);
      case RunTop => RunTopRuns(w);
      case _ =>
    }
  }

  ghost predicate NoEnd(ss: seq<Step>) {
    forall k :: 0 <= k < |ss| ==> !ss[k].End?
  }

  lemma {:induction false} TeardownRun(w: World, ss: seq<Step>)
    requires w.processing && w.managers != [] && EnabledRun(w, ss) && NoEnd(ss)
    ensures var r := Run(w, ss);
            r.processing && |r.managers| == |w.managers| &&
            r.managers[..|r.managers| - 1] == w.managers[..|w.managers| - 1] &&
            RanTasks(r.log) + Reverse(Top(r)) == RanTasks(w.log) + Reverse(Top(w))
    decreases |ss|
  {
    hide RanTasks, Reverse, Apply, Enabled;
    if ss != [] {
      TeardownStep(w, ss[0]);
      TeardownRun(Apply(w, ss[0]), ss[1..]);
    }
  }

  /** From the moment ProcessCallbacksNow takes the lock until it is done, whatever the threads
      do meanwhile, it runs exactly the tasks of the top manager, the last registered first; a
      manager that is destroyed then uncovers the one it shadowed, with its tasks as they were. */
  lemma TeardownInReverse(w: World, ss: seq<Step>, destroy: bool)
    requires Enabled(w, Begin) && NoEnd(ss) && EnabledRun(Apply(w, Begin), ss)
    requires Enabled(Run(Apply(w, Begin), ss), End(destroy))
    ensures var r := Apply(Run(Apply(w, Begin), ss), End(destroy));
            RanTasks(r.log) == RanTasks(w.log) + Reverse(Top(w)) &&
            r.managers == w.managers[..|w.managers| - 1] + if destroy then [] else [[]]
  {
    hide RanTasks;
    TeardownRun(Apply(w, Begin), ss);
    var v := Run(Apply(w, Begin), ss);
    assert v.managers == v.managers[..|v.managers| - 1] + [Top(v)];
  }

  function RegisteredTasks(log: seq<Event>): seq<Task> {
    if log == [] then []
    else RegisteredTasks(log[..|log| - 1]) + if log[|log| - 1].Registered? then [log[|log| - 1].task] else []
  }

  lemma RegisteredAppends(log: seq<Event>, e: Event)
    ensures RegisteredTasks(log + [e]) == RegisteredTasks(log) + if e.Registered? then [e.task] else []
  {
    assert (log + [e])[..|log|] == log;
  }

  /** The task that a step registers, if any. */
  ghost function NewTask(w: World, s: Step): seq<Task>
    requires Enabled(w, s)
  {
    var log := Apply(w, s).log;
    if |log| > |w.log| && log[|w.log|].Registered? then [log[|w.log|].task] else []
  }

  /** The stacks and the log after registering a task. */
  lemma RegisterNotes(w: World, task: Task)
    ensures var r := RegisterTask(w, task);
            r.processing == w.processing &&
            (w.managers == [] ==> r.managers == [] && r.log == w.log + [Dropped(task)]) &&
            (w.managers != [] ==>
               r.managers == WithTop(w, Top(w) + [task]).managers && r.log == w.log + [Registered(task)])
  {
  }

  /** What a step that is not about managers does: what it registers goes onto the top stack. */
  lemma ThreadStep(w: World, s: Step)
    requires Enabled(w, s) && (s.Invoke? || s.Act? || s.Post?)
    ensures var r, now := Apply(w, s), NewTask(w, s);
            r.processing == w.processing &&
            (now == [] ==> r.managers == w.managers) &&
            (now != [] ==> !w.processing && w.managers != [] && r.managers == WithTop(w, Top(w) + now).managers)
  {
    hide RegisterTask;
    if s.Post? {
      RegisterNotes(w, Other(s.id));
    } else if s.Act? && Of(w, s.tid).stage.Register? {
      var i := Of(w, s.tid).inst;
      RegisterNotes(Move(w.(owner := w.owner - {i}), s.tid, i, Fetch), OnExit(i));
    } else if s.Act? {
      hide Access;
    }
  }

  /** The manager above n others is there all along. */
  ghost predicate Stands(w: World, ss: seq<Step>, n: nat)
    requires EnabledRun(w, ss)
    decreases |ss|
  {
    |w.managers| > n && (ss == [] || Stands(Apply(w, ss[0]), ss[1..], n))
  }

  /** What is registered with the manager above n others, after before: it gets the tasks registered
      while no other manager stands above it, and starts anew when its tasks have been run. */
  ghost function Since(w: World, ss: seq<Step>, n: nat, before: seq<Task>): seq<Task>
    requires EnabledRun(w, ss)
    decreases |ss|
  {
    if ss == [] then before
    else
      var s := ss[0];
      Since(Apply(w, s), ss[1..], n,
            if |w.managers| != n + 1 then before else if s.End? then [] else before + NewTask(w, s))
  }

  /** Unless its tasks are just being run, the manager's stack is what was registered with it. */
  ghost predicate Keeps(w: World, n: nat, tasks: seq<Task>) {
    |w.managers| > n && ((w.processing && |w.managers| == n + 1) || w.managers[n] == tasks)
  }

  lemma StepKeeps(w: World, s: Step, n: nat, tasks: seq<Task>)
    requires Enabled(w, s) && Keeps(w, n, tasks) && |Apply(w, s).managers| > n
    ensures var r := Apply(w, s);
            Keeps(r, n, if |w.managers| != n + 1 then tasks else if s.End? then [] else tasks + NewTask(w, s)) &&
            r.managers[..n] == w.managers[..n]
  {
    match s {
      case Invoke(_, _) => ThreadStepKeeps(w, s, n, tasks);
      case Act(_) => ThreadStepKeeps(w, s, n, tasks);
      case Post(_) => ThreadStepKeeps(w, s, n, tasks);
      case _ =>
        hide Access;
        assert NewTask(w, s) == [];
        assert tasks + [] == tasks;
    }
  }

  lemma ThreadStepKeeps(w: World, s: Step, n: nat, tasks: seq<Task>)
    requires Enabled(w, s) && Keeps(w, n, tasks) && (s.Invoke? || s.Act? || s.Post?)
    ensures var r := Apply(w, s);
            Keeps(r, n, if |w.managers| != n + 1 then tasks else tasks + NewTask(w, s)) &&
            r.managers[..n] == w.managers[..n]
  {
    ThreadStep(w, s);
    hide Apply, Enabled, NewTask;
    assert tasks + [] == tasks;
  }

  lemma {:induction false} RunKeeps(w: World, ss: seq<Step>, n: nat, tasks: seq<Task>)
    requires EnabledRun(w, ss) && Stands(w, ss, n) && Keeps(w, n, tasks)
    ensures var r := Run(w, ss); Keeps(r, n, Since(w, ss, n, tasks)) && r.managers[..n] == w.managers[..n]
    decreases |ss|
  {
    hide Apply, Enabled, Keeps, NewTask;
    if ss != [] {
      var s := ss[0];
      StepKeeps(w, s, n, tasks);
      RunKeeps(Apply(w, s), ss[1..], n,
               if |w.managers| != n + 1 then tasks else if s.End? then [] else tasks + NewTask(w, s));
    }
  }

  /** The life of a manager: whenever it tears down, after any run in which it may have been shadowed by
      other managers and have torn down before, exactly what was registered with it since then is
      run, the last registered first; and if it is destroyed the stack of managers is as it was
      before the manager was made. */
  lemma LastRegisteredFirst(w: World, ss: seq<Step>, teardown: seq<Step>, destroy: bool)
    requires !w.processing && EnabledRun(Apply(w, NewManager), ss)
    requires Stands(Apply(w, NewManager), ss, |w.managers|)
    requires var m := Run(Apply(w, NewManager), ss);
             |m.managers| == |w.managers| + 1 &&
             Enabled(m, Begin) && NoEnd(teardown) && EnabledRun(Apply(m, Begin), teardown) &&
             Enabled(Run(Apply(m, Begin), teardown), End(destroy))
    ensures var v := Apply(w, NewManager);
            var m := Run(v, ss);
            var r := Apply(Run(Apply(m, Begin), teardown), End(destroy));
            RanTasks(r.log) == RanTasks(m.log) + Reverse(Since(v, ss, |w.managers|, [])) &&
            r.managers == w.managers + if destroy then [] else [[]]
  {
    hide RanTasks, Reverse, Run, EnabledRun, Since, Stands;
    var v, n := Apply(w, NewManager), |w.managers|;
    RunKeeps(v, ss, n, []);
    var m := Run(v, ss);
    assert v.managers[..n] == w.managers;
    TeardownInReverse(m, teardown, destroy);
  }

  /** Every task registered is on one of the stacks or has been run, as often as it was registered. */
  ghost predicate Accounted(w: World) {
    multiset(RegisteredTasks(w.log)) == multiset(RanTasks(w.log)) + multiset(Flat(w.managers))
  }

  lemma RegisterAccounted(w: World, task: Task)
    requires Accounted(w)
    ensures Accounted(RegisterTask(w, task))
  {
    hide RegisteredTasks, RanTasks, Flat;
    var e := if w.managers == [] then Dropped(task) else Registered(task);
    RegisteredAppends(w.log, e);
    RanAppends(w.log, e);
    RegisterFlat(w, task);
    assert Flat(w.managers) + [] == Flat(w.managers);
    assert RegisteredTasks(w.log) + [] == RegisteredTasks(w.log) && RanTasks(w.log) + [] == RanTasks(w.log);
  }

  lemma NoteAccounted(w: World, r: World)
    requires Accounted(w) && Flat(r.managers) == Flat(w.managers)
    requires r.log == w.log || exists e :: r.log == w.log + [e] && !e.Registered? && !e.Ran?
    ensures Accounted(r)
  {
    hide RegisteredTasks, RanTasks, Flat;
    if r.log != w.log {
      var e :| r.log == w.log + [e] && !e.Registered? && !e.Ran?;
      RegisteredAppends(w.log, e);
      RanAppends(w.log, e);
      assert RegisteredTasks(w.log) + [] == RegisteredTasks(w.log) && RanTasks(w.log) + [] == RanTasks(w.log);
    }
  }

  lemma AccessAccounted(w: World, t: Tid)
    requires Accounted(w) && Of(w, t).In?
    ensures Accounted(Access(w, t))
  {
    hide RegisteredTasks, RanTasks, Flat;
    var i := Of(w, t).inst;
    if Of(w, t).stage.Register? {
      RegisterAccounted(Move(w.(owner := w.owner - {i}), t, i, Fetch), OnExit(i));
    } else {
      hide Accounted, Access;
      NoteAccounted(w, Access(w, t));
    }
  }

  lemma RunTopAccounted(w: World)
    requires Accounted(w) && Enabled(w, RunTop)
    ensures Accounted(Apply(w, RunTop))
  {
    hide RegisteredTasks, RanTasks, Flat, NoRepeats;
    var task := Top(w)[|Top(w)| - 1];
    TopOff(w);
    RegisteredAppends(w.log, Ran(task));
    RanAppends(w.log, Ran(task));
    assert RegisteredTasks(w.log) + [] == RegisteredTasks(w.log);
    hide Apply, Enabled;
  }

  lemma StepAccounted(w: World, s: Step)
    requires Accounted(w) && Enabled(w, s)
    ensures Accounted(Apply(w, s))
  {
    hide RegisteredTasks, RanTasks, Access, RegisterTask, Accounted;
    match s {
      case Act(t) => AccessAccounted(w, t);
      case Post(id) => RegisterAccounted(w, Other(id));
      case RunTop => RunTopAccounted(w);
      case NewManager =>
        FlatTop(w.managers, []);
        NoteAccounted(w, Apply(w, s));
      case End(destroy) =>
        FlatTop(w.managers[..|w.managers| - 1], []);
        assert w.managers == w.managers[..|w.managers| - 1] + [[]];
        NoteAccounted(w, Apply(w, s));
      case Begin => NoteAccounted(w, Apply(w, s));
      case Invoke(_, _) => NoteAccounted(w, Apply(w, s));
    }
  }

  lemma {:induction false} RunAccounted(w: World, ss: seq<Step>)
    requires Accounted(w) && EnabledRun(w, ss)
    ensures Accounted(Run(w, ss))
    decreases |ss|
  {
    hide Accounted, Apply, Enabled;
    if ss != [] {
      StepAccounted(w, ss[0]);
      RunAccounted(Apply(w, ss[0]), ss[1..]);
    }
  }

  /** Over every run, with any managers, each task, an OnExit or not, has been run as often as it was
      registered, but for the times that it still waits on a stack; with the stacks empty nothing
      registered is left out and nothing was run twice. */
  lemma EveryTaskOnce(exits: set<Address>, ss: seq<Step>)
    requires EnabledRun(Initially(exits), ss)
    ensures var w := Run(Initially(exits), ss);
            multiset(RegisteredTasks(w.log)) == multiset(RanTasks(w.log)) + multiset(Flat(w.managers)) &&
            (Flat(w.managers) == [] ==> multiset(RegisteredTasks(w.log)) == multiset(RanTasks(w.log)))
  {
    RunAccounted(Initially(exits), ss);
  }

  function Acts(t: Tid, n: nat): seq<Step> {
    if n == 0 then [] else [Act(t)] + Acts(t, n - 1)
  }

  /** Left alone, thread t gets out of Pointer() in n accesses, with the pointer in the word. */
  ghost predicate Finishes(w: World, t: Tid, i: Address, n: nat, events: seq<Event>, managers: seq<seq<Task>>) {
    EnabledRun(w, Acts(t, n)) &&
    var r := Run(w, Acts(t, n));
    Of(r, t).Idle? && Word(r, i) == i && r.log == w.log + events && r.managers == managers
  }

  lemma ActsRun(w: World, t: Tid, n: nat)
    requires Enabled(w, Act(t)) && EnabledRun(Access(w, t), Acts(t, n))
    ensures EnabledRun(w, Acts(t, n + 1)) && Run(w, Acts(t, n + 1)) == Run(Access(w, t), Acts(t, n))
  {
    assert Apply(w, Act(t)) == Access(w, t);
    hide Apply, Enabled, Access;
    assert Acts(t, n + 1)[0] == Act(t) && Acts(t, n + 1)[1..] == Acts(t, n);
  }

  lemma FinishesBefore(w: World, t: Tid, i: Address, n: nat, now: seq<Event>,
                       events: seq<Event>, managers: seq<seq<Task>>)
    requires Enabled(w, Act(t)) && Access(w, t).log == w.log + now
    requires Finishes(Access(w, t), t, i, n, events, managers)
    ensures Finishes(w, t, i, n + 1, now + events, managers)
  {
    ActsRun(w, t, n);
    hide Run, EnabledRun, Acts, Access, Enabled;
    assert w.log + now + events == w.log + (now + events);
  }

  function LastEvents(w: World, t: Tid, i: Address): seq<Event> {
    (if i !in w.exits then [] else if w.managers == [] then [Dropped(OnExit(i))] else [Registered(OnExit(i))]) +
    [Returned(t, i, i)]
  }

  function LastManagers(w: World, i: Address): seq<seq<Task>> {
    if i in w.exits && w.managers != [] then WithTop(w, Top(w) + [OnExit(i)]).managers else w.managers
  }

  lemma FetchFinishes(w: World, t: Tid, i: Address)
    requires Of(w, t) == In(i, Fetch) && Word(w, i) == i
    ensures Finishes(w, t, i, 1, [Returned(t, i, i)], w.managers)
  {
    var r := Access(w, t);
    assert r.log + [] == r.log;
    assert Finishes(r, t, i, 0, [], w.managers);
    FinishesBefore(w, t, i, 0, [Returned(t, i, i)], [], w.managers);
  }

  lemma PublishFinishes(w: World, t: Tid, i: Address)
    requires Of(w, t) == In(i, Publish(i)) && !w.processing
    ensures Finishes(w, t, i, if i in w.exits then 3 else 2, LastEvents(w, t, i), LastManagers(w, i))
  {
    hide Finishes;
    var r := Access(w, t);
    var last := [Returned(t, i, i)];
    assert w.log + [] == r.log;
    if i in w.exits {
      var s := Access(r, t);
      FetchFinishes(s, t, i);
      var e := if w.managers == [] then Dropped(OnExit(i)) else Registered(OnExit(i));
      FinishesBefore(r, t, i, 1, [e], last, LastManagers(w, i));
      FinishesBefore(w, t, i, 2, [], [e] + last, LastManagers(w, i));
    } else {
      FetchFinishes(r, t, i);
      FinishesBefore(w, t, i, 1, [], last, w.managers);
    }
    assert [] + LastEvents(w, t, i) == LastEvents(w, t, i);
  }

  lemma SwapFinishes(w: World, t: Tid, i: Address)
    requires Of(w, t) == In(i, Swap) && Word(w, i) == 0 && !w.processing
    ensures Finishes(w, t, i, if i in w.exits then 5 else 4, [Constructed(i)] + LastEvents(w, t, i), LastManagers(w, i))
  {
    var r := Access(w, t);
    var s := Access(r, t);
    assert LastEvents(s, t, i) == LastEvents(w, t, i) && LastManagers(s, i) == LastManagers(w, i);
    hide Finishes, LastEvents, LastManagers;
    PublishFinishes(s, t, i);
    FinishesBefore(r, t, i, if i in w.exits then 3 else 2, [Constructed(i)], LastEvents(w, t, i), LastManagers(w, i));
    assert w.log + [] == r.log;
    FinishesBefore(w, t, i, if i in w.exits then 4 else 3,
                   [], [Constructed(i)] + LastEvents(w, t, i), LastManagers(w, i));
    assert [] + ([Constructed(i)] + LastEvents(w, t, i)) == [Constructed(i)] + LastEvents(w, t, i);
  }

  /** When OnExit has run, the instance is as it was at first: a call that finds it so and is left
      alone constructs, registers with the manager that is then on top, and returns the pointer. */
  lemma ConstructsAgain(w: World, t: Tid, i: Address)
    requires Word(w, i) == 0 && Of(w, t).Idle? && !w.processing
    ensures Enabled(w, Invoke(t, i))
    ensures Finishes(Apply(w, Invoke(t, i)), t, i, if i in w.exits then 6 else 5,
                     [Constructed(i)] + LastEvents(w, t, i), LastManagers(w, i))
  {
    var r := Apply(w, Invoke(t, i));
    var s := Access(r, t);
    assert LastEvents(s, t, i) == LastEvents(w, t, i) && LastManagers(s, i) == LastManagers(w, i);
    hide Finishes, LastEvents, LastManagers;
    SwapFinishes(s, t, i);
    assert r.log + [] == r.log;
    FinishesBefore(r, t, i, if i in w.exits then 5 else 4,
                   [], [Constructed(i)] + LastEvents(w, t, i), LastManagers(w, i));
    assert [] + ([Constructed(i)] + LastEvents(w, t, i)) == [Constructed(i)] + LastEvents(w, t, i);
  }
}
