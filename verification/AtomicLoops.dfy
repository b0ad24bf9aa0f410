/** The retry loops of base/atomicops_internals_gcc.h and their users, as they run in one thread
    while other threads store into the cell between any two of its accesses. */
module AtomicLoops {
  import opened Atomics

  class Cell {
    var value: int
    /** Every value that the cell has held, the present one last. */
    ghost var history: seq<int>

    ghost predicate Valid()
      reads this
    {
      history != [] && history[|history| - 1] == value
    }

    constructor (value: int)
      ensures Valid() && this.value == value && history == [value]
    {
      this.value, history := value, [value];
    }

    /** What other threads store before the next access. */
    method Interfere(stores: seq<int>)
      requires Valid()
      modifies this
      ensures Valid() && history == old(history) + stores
    {
      for i := 0 to |stores|
        invariant Valid() && history == old(history) + stores[..i]
      {
        value := stores[i];
        history := history + [value];
      }
    }

    /** __sync_bool_compare_and_swap. */
    method BoolCompareAndSwap(expected: int, replacement: int) returns (swapped: bool)
      requires Valid()
      modifies this
      ensures Valid() && swapped == (old(value) == expected)
      ensures history == if swapped then old(history) + [replacement] else old(history)
    {
      swapped := value == expected;
      if swapped {
        value := replacement;
        history := history + [value];
      }
    }

    /** What other threads store before this thread's access number k. */
    method Wait(others: seq<seq<int>>, k: nat, ghost start: seq<int>)
      requires Valid() && history == start + Stored(others, k)
      modifies this
      ensures Valid() && history == start + Stored(others, k + 1)
      ensures k >= |others| ==> history == old(history)
    {
      hide Stored;
      var stores := if k < |others| then others[k] else [];
      StoredNext(others, k, start);
      Interfere(stores);
    }

    /** others[k] is stored by other threads before this thread's k-th access. At the moment when the
        call takes effect, the cell holds the result; the replacement is put there, and nothing
        else by this thread at any moment, exactly if that is the expected value. */
    method CompareAndSwap(expected: int, replacement: int, others: seq<seq<int>>)
      returns (result: int, ghost accesses: nat)
      requires Valid()
      modifies this
      ensures Valid() && result == Latest(old(history) + Stored(others, accesses))
      ensures history == old(history) + Stored(others, accesses) + if result == expected then [replacement] else []
    {
      hide Stored;
      var k := 0;
      StoredNext(others, 0, history);
      while true
        invariant Valid() && history == old(history) + Stored(others, k)
        decreases |others| - k
      {
        Wait(others, k, old(history));
        var swapped := BoolCompareAndSwap(expected, replacement);
        if swapped {
          return expected, k + 1;
        }
        Wait(others, k + 1, old(history));
        result := value;
        if result != expected {
          return result, k + 2;
        }
        k := k + 2;
      }
    }

    /** The result is what the cell held when the replacement was put there. */
    method Exchange(replacement: int, others: seq<seq<int>>) returns (result: int, ghost accesses: nat)
      requires Valid()
      modifies this
      ensures Valid() && result == Latest(old(history) + Stored(others, accesses))
      ensures history == old(history) + Stored(others, accesses) + [replacement]
    {
      hide Stored;
      var k := 0;
      StoredNext(others, 0, history);
      while true
        invariant Valid() && history == old(history) + Stored(others, k)
        decreases |others| - k
      {
        Wait(others, k, old(history));
        result := value;
        Wait(others, k + 1, old(history));
        var swapped := BoolCompareAndSwap(result, replacement);
        if swapped {
          return result, k + 2;
        }
        k := k + 2;
      }
    }

    /** The result is what is put there, the sum with what the cell held then. */
    method Increment(delta: int, others: seq<seq<int>>) returns (result: int, ghost accesses: nat)
      requires Valid()
      modifies this
      ensures Valid() && result == Wrap(Latest(old(history) + Stored(others, accesses)) + delta)
      ensures history == old(history) + Stored(others, accesses) + [result]
    {
      hide Stored;
      var k := 0;
      StoredNext(others, 0, history);
      while true
        invariant Valid() && history == old(history) + Stored(others, k)
        decreases |others| - k
      {
        Wait(others, k, old(history));
        var oldValue := value;
        var newValue := Wrap(oldValue + delta);
        Wait(others, k + 1, old(history));
        var swapped := BoolCompareAndSwap(oldValue, newValue);
        if swapped {
          return newValue, k + 2;
        }
        k := k + 2;
      }
    }
  }

  /** What others store before a thread's first k accesses, in this order. */
  ghost function Stored(others: seq<seq<int>>, k: nat): seq<int> {
    if k == 0 then [] else Stored(others, k - 1) + if k - 1 < |others| then others[k - 1] else []
  }

  lemma StoredNext(others: seq<seq<int>>, k: nat, start: seq<int>)
    ensures start + Stored(others, k + 1) == start + Stored(others, k) + if k < |others| then others[k] else []
    ensures start + Stored(others, 0) == start
  {
  }

  function Latest(history: seq<int>): int
    requires history != []
  {
    history[|history| - 1]
  }

  /** AtomicSequenceNumber, while other threads store into its cell. */
  class SequenceNumber {
    const seq_: Cell

    constructor ()
      ensures fresh(seq_) && seq_.Valid() && seq_.value == 0
    {
      seq_ := new Cell(0);
    }

    /** The number is the one before an increment that took effect during the call. */
    method GetNext(others: seq<seq<int>>) returns (n: int, ghost accesses: nat)
      requires seq_.Valid()
      modifies seq_
      ensures seq_.Valid() && n + 1 == Wrap(Latest(old(seq_.history) + Stored(others, accesses)) + 1)
      ensures seq_.history == old(seq_.history) + Stored(others, accesses) + [n + 1]
    {
      var r;
      r, accesses := seq_.Increment(1, others);
      n := r - 1;
    }
  }

  /** BarrierInfo, while other threads store into its counter; done tells whether the done closure is
      still there, runs how often this thread has run it. */
  class BarrierInfo {
    const left: Cell
    var done: bool
    var runs: nat

    /** BarrierClosure: without callbacks to wait for, the done closure runs at once. */
    constructor (n: nat)
      ensures fresh(left) && left.Valid() && left.value == n && done && runs == if n == 0 then 1 else 0
    {
      left := new Cell(n);
      done, runs := true, if n == 0 then 1 else 0;
    }

    /** AtomicRefCountDecN: whether the result of the decrement, at the instant when it took effect,
        is non-zero. */
    method DecN(decrement: int, others: seq<seq<int>>) returns (nonZero: bool, ghost accesses: nat)
      requires left.Valid()
      modifies left
      ensures left.Valid() && nonZero == (left.value != 0)
      ensures left.value == Wrap(Latest(old(left.history) + Stored(others, accesses)) - decrement)
      ensures left.history == old(left.history) + Stored(others, accesses) + [left.value]
    {
      var r;
      r, accesses := left.Increment(-decrement, others);
      nonZero := r != 0;
    }

    /** The done closure is run and reset exactly by a thread whose own decrement gave zero. */
    method Run(others: seq<seq<int>>) returns (ghost accesses: nat)
      requires left.Valid() && left.value != 0 && (left.value > 0 ==> done)
      modifies this, left
      ensures left.Valid() && left.value == Wrap(Latest(old(left.history) + Stored(others, accesses)) - 1)
      ensures left.history == old(left.history) + Stored(others, accesses) + [left.value]
      ensures left.value == 0 ==> runs == old(runs) + 1 && !done
      ensures left.value != 0 ==> runs == old(runs) && done == old(done)
      ensures others == [] && left.value == 0 && -TWO_31 <= old(left.value) < TWO_31 ==> old(done)
    {
      var nonZero;
      nonZero, accesses := DecN(1, others);
      if others == [] {
        NothingStored(accesses);
      }
      if !nonZero {
        runs := runs + 1;
        done := false;
      }
    }
  }

  lemma {:induction false} NothingStored(k: nat)
    ensures Stored([], k) == []
  {
    if k > 0 {
      NothingStored(k - 1);
    }
  }

  /** n calls, one after the other, on a barrier of n run the done closure once, in the last call. */
  method RunAll(n: nat) returns (runs: nat)
    requires 0 < n < TWO_31
    ensures runs == 1
  {
    var b := new BarrierInfo(n);
    for i := 0 to n
      invariant b.left.Valid() && b.left.value == n - i && (i < n ==> b.done)
      invariant b.runs == if i < n then 0 else 1
    {
      ghost var accesses := b.Run([]);
      NothingStored(accesses);
    }
    runs := b.runs;
  }
}
