/** LazyInstance and AtExitManager as the objects that one thread works on, while other threads may
    change the state word between any two of its accesses. */
module LazyInstanceObject {
  import opened LazyInstances

  datatype Closure = OnExit(inst: LazyInstance) | Other(id: nat)

  /** g_top_manager. */
  class TopManager {
    var value: AtExitManager?

    constructor ()
      ensures value == null
    {
      value := null;
    }
  }

  function Instances(tasks: seq<Closure>): set<LazyInstance> {
    set k | 0 <= k < |tasks| && tasks[k].OnExit? :: tasks[k].inst
  }

  /** No instance has its OnExit on the stack twice. */
  ghost predicate Distinct(tasks: seq<Closure>) {
    forall j, k :: 0 <= j < k < |tasks| && tasks[j].OnExit? ==> tasks[j] != tasks[k]
  }

  /** The OnExits on a stack belong to different, constructed instances. */
  ghost predicate Ready(tasks: seq<Closure>)
    reads Instances(tasks)
  {
    Distinct(tasks) && forall k :: 0 <= k < |tasks| && tasks[k].OnExit? ==> tasks[k].inst.Valid() && tasks[k].inst.live
  }

  twostate predicate Gone(i: LazyInstance)
    reads i
  {
    i.Valid() && i.word == 0 && i.constructed == old(i.constructed) && i.destroyed == old(i.destroyed) + 1
  }

  class AtExitManager {
    var stack: seq<Closure>
    const next: AtExitManager?

    /** A shadowing manager may stand above another one. */
    constructor (top: TopManager, shadow: bool)
      requires shadow || top.value == null
      modifies top
      ensures top.value == this && next == old(top.value) && stack == []
    {
      stack, next := [], top.value;
      new;
      top.value := this;
    }

    static method RegisterTask(top: TopManager, task: Closure) returns (kept: bool)
      modifies if top.value == null then {} else {top.value}
      ensures kept <==> top.value != null
      ensures top.value != null ==> top.value.stack == old(top.value.stack) + [task]
    {
      kept := top.value != null;
      if kept {
        top.value.stack := top.value.stack + [task];
      }
    }

    /** The loop of ProcessCallbacksNow, with the lock held. */
    method RunTasks() returns (ghost ran: seq<Closure>)
      requires Ready(stack)
      modifies this, Instances(stack)
      ensures stack == [] && ran == Reverse(old(stack))
      ensures forall k :: 0 <= k < |old(stack)| && old(stack)[k].OnExit? ==> Gone(old(stack)[k].inst)
    {
      ghost var all := stack;
      assert forall k :: 0 <= k < |all| && all[k].OnExit? ==> all[k].inst in Instances(all);
      hide Instances, Reverse, Distinct;
      ran := [];
      while stack != []
        invariant |stack| <= |all| && stack == all[..|stack|]
        invariant ran + Reverse(stack) == Reverse(all)
        invariant forall k :: 0 <= k < |stack| && all[k].OnExit? ==> unchanged(all[k].inst)
        invariant forall k :: |stack| <= k < |all| && all[k].OnExit? ==> Gone(all[k].inst)
        decreases |stack|
      {
        var task := stack[|stack| - 1];
        var rest := stack[..|stack| - 1];
        assert rest == all[..|rest|] && task == all[|rest|];
        assert (ran + [task]) + Reverse(rest) == ran + ([task] + Reverse(rest));
        if task.OnExit? {
          task.inst.OnExit();
        }
        stack := rest;
        ran := ran + [task];
      }
    }

    /** Runs the tasks of the top manager, and of no other, the last registered first; every
        instance among them is destroyed exactly once and could be constructed again. */
    static method ProcessCallbacksNow(top: TopManager) returns (ghost ran: seq<Closure>)
      requires top.value != null ==> Ready(top.value.stack)
      modifies if top.value == null then {} else {top.value} + Instances(top.value.stack)
      ensures top.value == null ==> ran == []
      ensures top.value != null ==> top.value.stack == [] && ran == Reverse(old(top.value.stack))
      ensures top.value != null ==>
                var all := old(top.value.stack);
                forall k :: 0 <= k < |all| && all[k].OnExit? ==> Gone(all[k].inst)
    {
      ran := [];
      if top.value == null {
        return;
      }
      ran := top.value.RunTasks();
    }

    /** The destructor. */
    method Destroy(top: TopManager) returns (ghost ran: seq<Closure>)
      requires top.value != null ==> top.value == this
      requires Ready(stack)
      modifies this, top, Instances(stack)
      ensures old(top.value) == null ==> ran == [] && top.value == null && stack == old(stack)
      ensures old(top.value) != null ==> ran == Reverse(old(stack)) && top.value == next && stack == []
      ensures old(top.value) != null ==>
                forall k :: 0 <= k < |old(stack)| && old(stack)[k].OnExit? ==> Gone(old(stack)[k].inst)
    {
      ran := [];
      if top.value == null {
        return;
      }
      ran := ProcessCallbacksNow(top);
      top.value := next;
    }
  }

  class LazyInstance {
    /** The address of private_buf_. */
    const buffer: int
    /** kRegisterOnExit of the traits. */
    const registers: bool
    /** private_instance_. */
    var word: int
    /** Whether there is a finished object in the buffer, and how many have been made and destroyed. */
    ghost var live: bool
    ghost var constructed: nat
    ghost var destroyed: nat

    ghost predicate Valid()
      reads this
    {
      && buffer > 1 && (word == 0 || word == CREATING || word == buffer)
      && (word == buffer ==> live) && (word == 0 ==> !live)
      && constructed == destroyed + if live then 1 else 0
    }

    constructor (buffer: int, registers: bool)
      requires buffer > 1
      ensures Valid() && word == 0 && constructed == 0
      ensures this.buffer == buffer && this.registers == registers
    {
      this.buffer, this.registers, word := buffer, registers, 0;
      live, constructed, destroyed := false, 0, 0;
    }

    /** What other threads have made of the word since this thread's last access, if they could:
        they may win the compare-and-swap, and the winner may publish. */
    method Interfere(seen: int)
      requires Valid() && (word == CREATING ==> !live)
      modifies this
      ensures Valid() && (word == CREATING ==> !live) && destroyed == old(destroyed)
      ensures word == (if seen == buffer || (old(word) == 0 && seen == CREATING) then seen else old(word))
      ensures constructed == old(constructed) + if old(word) != buffer && word == buffer then 1 else 0
    {
      if word != buffer && seen == buffer {
        word, live, constructed := buffer, true, constructed + 1;
      } else if word == 0 && seen == CREATING {
        word := CREATING;
      }
    }

    /** NeedsLazyInstance. others are what other threads make of the word before each access. */
    method NeedsLazyInstance(others: seq<int>) returns (needs: bool)
      requires Valid() && (word == CREATING ==> !live)
      requires others == [] ==> word != CREATING
      requires others != [] ==> others[|others| - 1] == buffer
      modifies this
      ensures Valid() && destroyed == old(destroyed)
      ensures needs ==> word == CREATING && !live && constructed == old(constructed)
      ensures !needs ==> word == buffer && constructed == old(constructed) + if old(word) != buffer then 1 else 0
      ensures others == [] ==> (needs <==> old(word) == 0)
    {
      if others != [] {
        Interfere(others[0]);
      }
      if word == 0 {
        word := CREATING;
        return true;
      }
      var k := 1;
      while true
        invariant Valid() && (word == CREATING ==> !live) && word != 0 && destroyed == old(destroyed)
        invariant k >= |others| ==> word == buffer
        invariant constructed == old(constructed) + if old(word) != buffer && word == buffer then 1 else 0
        decreases |others| - k
      {
        if k < |others| {
          Interfere(others[k]);
        }
        if word != CREATING {
          return false;
        }
        k := k + 1;
      }
    }

    /** CompleteLazyInstance, for the thread that won. */
    method CompleteLazyInstance(instance: int, top: TopManager)
      requires buffer == instance > 1 && word == CREATING && live && constructed == destroyed + 1
      modifies this, if top.value == null then {} else {top.value}
      ensures Valid() && word == instance && constructed == old(constructed) && destroyed == old(destroyed)
      ensures top.value != null ==>
                top.value.stack == old(top.value.stack) + if registers then [Closure.OnExit(this)] else []
    {
      word := instance;
      if registers {
        var _ := AtExitManager.RegisterTask(top, Closure.OnExit(this));
      }
    }

    /** Pointer(): whatever the others do, the result is the one object, which then lives; this
        thread has made it, and registered it, if and only if it won. */
    method Pointer(others: seq<int>, top: TopManager) returns (pointer: int, ghost created: bool)
      requires Valid() && (word == CREATING ==> !live)
      requires others == [] ==> word != CREATING
      requires others != [] ==> others[|others| - 1] == buffer
      modifies this, if top.value == null then {} else {top.value}
      ensures Valid() && pointer == word == buffer && live
      ensures destroyed == old(destroyed) && constructed == old(constructed) + if old(word) != buffer then 1 else 0
      ensures top.value != null ==>
                top.value.stack == old(top.value.stack) + if created && registers then [Closure.OnExit(this)] else []
      ensures others == [] ==> (created <==> old(word) == 0)
    {
      created := false;
      if others != [] {
        Interfere(others[0]);
      }
      if word == 0 || word == CREATING {
        var rest := if |others| > 1 then others[1..] else others;
        var needs := NeedsLazyInstance(rest);
        created := needs;
        if needs {
          live, constructed := true, constructed + 1;
          CompleteLazyInstance(buffer, top);
        }
      }
      pointer := word;
    }

    /** Delete, and back to 0. */
    method OnExit()
      requires Valid() && live
      modifies this
      ensures Valid() && word == 0 && constructed == old(constructed) && destroyed == old(destroyed) + 1
    {
      live, destroyed := false, destroyed + 1;
      word := 0;
    }
  }
}
