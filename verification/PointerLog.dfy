/**
 * The fixture's log of pointers set by a test, and the test runner that undoes them. Memory is an
 * array and a pointer is an index into it, so two pointers may well be the same location.
 */
module PointerLog {

  const MAX_POINTERS := 5

  datatype Entry = Entry(pointer: nat, oldValue: int)

  /**
   * What a test function does: set a location through the log, write it directly, fail (TEST_FAIL, or
   * an assertion that does not hold), ignore the test, or end it early as passed.
   */
  datatype Act = SetPointer(pointer: nat, value: int) | Write(pointer: nat, value: int) | Fail | Ignore | Pass

  // ---------- the effect on memory and log ----------

  predicate InMemory(memory: seq<int>, log: seq<Entry>) {
    forall e | e in log :: e.pointer < |memory|
  }

  predicate ActsInMemory(memory: seq<int>, acts: seq<Act>) {
    forall a | a in acts && (a.SetPointer? || a.Write?) :: a.pointer < |memory|
  }

  /** `failed` and `ignored` are the flags CurrentTestFailed and CurrentTestIgnored. */
  datatype Outcome = Outcome(memory: seq<int>, log: seq<Entry>, failed: bool, ignored: bool) {
    /** Once decided, failing or ignoring again is a plain return. */
    predicate Decided() {
      failed || ignored
    }

    ghost predicate Valid() {
      InMemory(memory, log)
    }

    function WithSet(p: nat, v: int): Outcome
      requires p < |memory|
    {
      this.(memory := memory[p := v], log := log + [Entry(p, memory[p])])
    }

    function WithWrite(p: nat, v: int): Outcome
      requires p < |memory|
    {
      this.(memory := memory[p := v])
    }
  }

  /** A set past the limit is refused, which fails the test. */
  predicate Refused(o: Outcome, a: Act) {
    a.SetPointer? && |o.log| >= MAX_POINTERS
  }

  /** Does this act leave the protected block? */
  predicate Leaves(o: Outcome, a: Act) {
    a.Pass? || ((a.Fail? || a.Ignore? || Refused(o, a)) && !o.Decided())
  }

  /** The state after one act, whether it leaves the block or not. */
  function Effect(o: Outcome, a: Act): (r: Outcome)
    requires o.Valid() && ActsInMemory(o.memory, [a])
    ensures |r.memory| == |o.memory| && r.Valid()
  {
    assert a in [a];
    if Refused(o, a) || a.Fail? then if o.Decided() then o else o.(failed := true)
    else match a {
      case SetPointer(p, v) => o.WithSet(p, v)
      case Write(p, v) => o.WithWrite(p, v)
      case Ignore => if o.Decided() then o else o.(ignored := true)
      case _ => o
    }
  }

  /** The acts of a protected block, up to the end or to the one that leaves it. */
  function Perform(o: Outcome, acts: seq<Act>): (r: Outcome)
    requires o.Valid() && ActsInMemory(o.memory, acts)
    ensures |r.memory| == |o.memory| && r.Valid()
    decreases |acts|
  {
    if acts == [] then o else
    assert ActsInMemory(o.memory, [acts[0]]);
    var next := Effect(o, acts[0]);
    if Leaves(o, acts[0]) then next else Perform(next, acts[1..])
  }

  /** Restoring the entries, last one first. */
  function Undone(memory: seq<int>, log: seq<Entry>): (r: seq<int>)
    requires InMemory(memory, log)
    ensures |r| == |memory|
    decreases |log|
  {
    if log == [] then memory else
    var last := log[|log| - 1];
    Undone(memory[last.pointer := last.oldValue], log[..|log| - 1])
  }

  /**
   * UnityTestRunner from UnityPointer_Init up to the undoing: setup and body share one protected
   * block, teardown has its own and always follows.
   */
  function RunTest(o: Outcome, setup: seq<Act>, body: seq<Act>, teardown: seq<Act>): (r: Outcome)
    requires ActsInMemory(o.memory, setup + body) && ActsInMemory(o.memory, teardown)
    ensures |r.memory| == |o.memory| && r.Valid()
  {
    Perform(Perform(o.(log := []), setup + body), teardown)
  }

  // ---------- what undoing restores ----------

  predicate Logged(log: seq<Entry>, p: nat) {
    exists i :: 0 <= i < |log| && log[i].pointer == p
  }

  /** The old value in the first entry for p. */
  function FirstOld(log: seq<Entry>, p: nat): int
    requires Logged(log, p)
  {
    if log[0].pointer == p then log[0].oldValue else
    assert Logged(log[1..], p) by { LoggedTail(log, p); }
    FirstOld(log[1..], p)
  }

  lemma LoggedTail(log: seq<Entry>, p: nat)
    requires Logged(log, p) && log[0].pointer != p
    ensures Logged(log[1..], p)
  {
    var i :| 0 <= i < |log| && log[i].pointer == p;
    assert log[1..][i - 1].pointer == p;
  }

  /** However often a location was set, undoing gives it the value it had at its first set. */
  lemma {:induction false} UndoneAt(memory: seq<int>, log: seq<Entry>, p: nat)
    requires InMemory(memory, log) && p < |memory|
    ensures Undone(memory, log)[p] == if Logged(log, p) then FirstOld(log, p) else memory[p]
    decreases |log|
  {
    if log != [] {
      var k := |log| - 1;
      var memory' := memory[log[k].pointer := log[k].oldValue];
      UndoneAt(memory', log[..k], p);
      LoggedInit(log, p);
      assert log == log[..k] + [log[k]];
    }
  }

  lemma {:induction false} LoggedInit(log: seq<Entry>, p: nat)
    requires log != []
    ensures Logged(log, p) <==> Logged(log[..|log| - 1], p) || log[|log| - 1].pointer == p
    ensures Logged(log[..|log| - 1], p) ==> FirstOld(log[..|log| - 1], p) == FirstOld(log, p)
    ensures !Logged(log[..|log| - 1], p) && log[|log| - 1].pointer == p ==> FirstOld(log, p) == log[|log| - 1].oldValue
    decreases |log|
  {
    var k := |log| - 1;
    if Logged(log, p) && log[k].pointer != p {
      var i :| 0 <= i < |log| && log[i].pointer == p;
      assert log[..k][i].pointer == p;
    }
    if Logged(log[..k], p) {
      var i :| 0 <= i < k && log[..k][i].pointer == p;
      assert log[i].pointer == p;
    }
    if k > 0 && log[0].pointer != p {
      assert log[1..][..k - 1] == log[..k][1..];
      if Logged(log, p) {
        LoggedTail(log, p);
        LoggedInit(log[1..], p);
        if Logged(log[..k], p) { LoggedTail(log[..k], p); }
        if Logged(log[..k][1..], p) {
          var i :| 0 <= i < k - 1 && log[..k][1..][i].pointer == p;
          assert log[..k][i + 1].pointer == p;
        }
      }
    }
  }

  // ---------- over a whole test ----------

  /** The value p would have if it were undone now. */
  function Restored(o: Outcome, p: nat): int
    requires o.Valid() && p < |o.memory|
  {
    Undone(o.memory, o.log)[p]
  }

  lemma SetKeepsRestored(o: Outcome, p: nat, v: int, q: nat)
    requires o.Valid() && p < |o.memory| && q < |o.memory|
    ensures o.WithSet(p, v).Valid() && Restored(o.WithSet(p, v), q) == Restored(o, q)
  {
    var log' := o.log + [Entry(p, o.memory[p])];
    assert log'[..|o.log|] == o.log;
    assert o.memory[p := v][p := o.memory[p]] == o.memory;
  }

  lemma WriteRestored(o: Outcome, p: nat, v: int, q: nat)
    requires o.Valid() && p < |o.memory| && q < |o.memory|
    ensures p != q || Logged(o.log, q) ==> Restored(o.WithWrite(p, v), q) == Restored(o, q)
    ensures p == q && !Logged(o.log, q) ==> Restored(o.WithWrite(p, v), q) == v
  {
    UndoneAt(o.memory, o.log, q);
    UndoneAt(o.memory[p := v], o.log, q);
  }

  lemma LoggedGrows(log: seq<Entry>, e: Entry, p: nat)
    ensures Logged(log, p) ==> Logged(log + [e], p)
    ensures e.pointer == p ==> Logged(log + [e], p)
  {
    if Logged(log, p) {
      var i :| 0 <= i < |log| && log[i].pointer == p;
      assert (log + [e])[i].pointer == p;
    }
    assert (log + [e])[|log|] == e;
  }

  predicate NeverWritten(acts: seq<Act>, p: nat) {
    forall a | a in acts :: !(a.Write? && a.pointer == p)
  }

  lemma EffectKeepsRestored(o: Outcome, a: Act, p: nat)
    requires o.Valid() && ActsInMemory(o.memory, [a]) && p < |o.memory|
    requires NeverWritten([a], p) || Logged(o.log, p)
    ensures Restored(Effect(o, a), p) == Restored(o, p)
    ensures Logged(o.log, p) ==> Logged(Effect(o, a).log, p)
  {
    assert a in [a];
    if a.SetPointer? && !Refused(o, a) {
      SetKeepsRestored(o, a.pointer, a.value, p);
      LoggedGrows(o.log, Entry(a.pointer, o.memory[a.pointer]), p);
    } else if a.Write? {
      WriteRestored(o, a.pointer, a.value, p);
    }
  }

  /** Whatever a block does, and wherever it is left, a location never written directly stays restorable. */
  lemma {:induction false} PerformKeepsRestored(o: Outcome, acts: seq<Act>, p: nat)
    requires o.Valid() && ActsInMemory(o.memory, acts) && p < |o.memory|
    requires NeverWritten(acts, p) || Logged(o.log, p)
    ensures Restored(Perform(o, acts), p) == Restored(o, p)
    ensures Logged(o.log, p) ==> Logged(Perform(o, acts).log, p)
    decreases |acts|
  {
    if acts != [] {
      assert ActsInMemory(o.memory, [acts[0]]);
      EffectKeepsRestored(o, acts[0], p);
      if !Leaves(o, acts[0]) {
        PerformKeepsRestored(Effect(o, acts[0]), acts[1..], p);
      }
    }
  }

  /**
   * After the runner, whether setup, body or teardown ran to its end or was left anywhere, every
   * location that was changed through the log only has its original value again.
   */
  lemma TestLeavesNoTrace(o: Outcome, setup: seq<Act>, body: seq<Act>, teardown: seq<Act>, p: nat)
    requires ActsInMemory(o.memory, setup + body) && ActsInMemory(o.memory, teardown) && p < |o.memory|
    requires NeverWritten(setup + body, p) && NeverWritten(teardown, p)
    ensures Restored(RunTest(o, setup, body, teardown), p) == o.memory[p]
  {
    var start := o.(log := []);
    PerformKeepsRestored(start, setup + body, p);
    PerformKeepsRestored(Perform(start, setup + body), teardown, p);
  }

  /** Whatever happens before and after it: undoing restores the value that a location had at its first set. */
  lemma FirstSetRestored(o: Outcome, first: seq<Act>, v: int, rest: seq<Act>, p: nat)
    requires ActsInMemory(o.memory, first) && ActsInMemory(o.memory, rest) && p < |o.memory|
    requires |Perform(o.(log := []), first).log| < MAX_POINTERS
    ensures var mid := Perform(o.(log := []), first);
            ActsInMemory(mid.memory, [SetPointer(p, v)] + rest) &&
            Restored(Perform(mid, [SetPointer(p, v)] + rest), p) ==
              if Logged(mid.log, p) then FirstOld(mid.log, p) else mid.memory[p]
  {
    var mid := Perform(o.(log := []), first);
    UndoneAt(mid.memory, mid.log, p);
    SetKeepsRestored(mid, p, v, p);
    LoggedGrows(mid.log, Entry(p, mid.memory[p]), p);
    assert ([SetPointer(p, v)] + rest)[1..] == rest;
    PerformKeepsRestored(mid.WithSet(p, v), rest, p);
  }

  // ---------- what is performed ----------

  /** The memory after changing locations in order. */
  function Changed(memory: seq<int>, acts: seq<Act>): (r: seq<int>)
    requires ActsInMemory(memory, acts) && forall a | a in acts :: a.SetPointer? || a.Write?
    ensures |r| == |memory|
    decreases |acts|
  {
    if acts == [] then memory else
    assert acts[0] in acts;
    Changed(memory[acts[0].pointer := acts[0].value], acts[1..])
  }

  function Sets(acts: seq<Act>): nat {
    if acts == [] then 0 else (if acts[0].SetPointer? then 1 else 0) + Sets(acts[1..])
  }

  /** While the log has room, changes are made one after the other; the rest of the block follows. */
  lemma {:induction false} ChangesPerformed(o: Outcome, acts: seq<Act>, rest: seq<Act>)
    requires o.Valid() && ActsInMemory(o.memory, acts + rest)
    requires (forall a | a in acts :: a.SetPointer? || a.Write?) && |o.log| + Sets(acts) <= MAX_POINTERS
    ensures ActsInMemory(o.memory, acts) && ActsInMemory(o.memory, rest)
    ensures var mid := Perform(o, acts);
            && Perform(o, acts + rest) == Perform(mid, rest)
            && mid.memory == Changed(o.memory, acts) && |mid.log| == |o.log| + Sets(acts)
            && mid.failed == o.failed && mid.ignored == o.ignored
    decreases |acts|
  {
    assert forall a | a in acts || a in rest :: a in acts + rest;
    if acts == [] {
      assert acts + rest == rest;
    } else {
      var a := acts[0];
      assert (acts + rest)[1..] == acts[1..] + rest;
      assert ActsInMemory(o.memory, [a]) && !Leaves(o, a);
      assert Effect(o, a).memory == o.memory[a.pointer := a.value];
      ChangesPerformed(Effect(o, a), acts[1..], rest);
    }
  }

  /**
   * In a test that is undecided, the first act that fails, ignores or passes it ends the block and
   * alone decides the verdict; one set too many is a failure.
   */
  lemma FirstDecides(o: Outcome, before: seq<Act>, a: Act, rest: seq<Act>)
    requires o.Valid() && ActsInMemory(o.memory, before + ([a] + rest)) && !o.failed && !o.ignored
    requires (forall b | b in before :: b.SetPointer? || b.Write?) && |o.log| + Sets(before) <= MAX_POINTERS
    requires a.Fail? || a.Ignore? || a.Pass? || (a.SetPointer? && |o.log| + Sets(before) == MAX_POINTERS)
    ensures ActsInMemory(o.memory, before)
    ensures var end := Perform(o, before + ([a] + rest));
            && end == Perform(o, before).(failed := a.Fail? || a.SetPointer?, ignored := a.Ignore?)
            && end.memory == Changed(o.memory, before)
  {
    ChangesPerformed(o, before, [a] + rest);
    assert a in [a] + rest;
    assert ActsInMemory(o.memory, [a]);
  }

  /** A setup that ends in this way ends the body too, but not teardown. */
  lemma SetupEndsBody(o: Outcome, before: seq<Act>, a: Act, body: seq<Act>, teardown: seq<Act>)
    requires ActsInMemory(o.memory, (before + [a]) + body) && ActsInMemory(o.memory, teardown)
    requires !o.failed && !o.ignored
    requires (forall b | b in before :: b.SetPointer? || b.Write?) && Sets(before) <= MAX_POINTERS
    requires a.Fail? || a.Ignore? || a.Pass? || (a.SetPointer? && Sets(before) == MAX_POINTERS)
    ensures ActsInMemory(o.memory, before)
    ensures RunTest(o, before + [a], body, teardown) ==
            Perform(Perform(o.(log := []), before).(failed := a.Fail? || a.SetPointer?, ignored := a.Ignore?), teardown)
  {
    hide Perform;
    assert (before + [a]) + body == before + ([a] + body);
    FirstDecides(o.(log := []), before, a, body);
  }

  /**
   * Teardown is performed whatever setup and body did, and wherever they ended; it does not change
   * the verdict if it does not fail itself.
   */
  lemma TeardownRuns(o: Outcome, setup: seq<Act>, body: seq<Act>, teardown: seq<Act>)
    requires ActsInMemory(o.memory, setup + body) && ActsInMemory(o.memory, teardown)
    requires forall a | a in teardown :: a.Write?
    ensures var block, end := Perform(o.(log := []), setup + body), RunTest(o, setup, body, teardown);
            && ActsInMemory(block.memory, teardown) && end.memory == Changed(block.memory, teardown)
            && end.failed == block.failed && end.ignored == block.ignored
  {
    var block := Perform(o.(log := []), setup + body);
    hide Perform, RunTest;
    LogStaysShort(o.(log := []), setup + body);
    NoSets(teardown);
    assert teardown + [] == teardown;
    RunIsTwoBlocks(o, setup, body, teardown);
    ChangesPerformed(block, teardown, []);
  }

  lemma RunIsTwoBlocks(o: Outcome, setup: seq<Act>, body: seq<Act>, teardown: seq<Act>)
    requires ActsInMemory(o.memory, setup + body) && ActsInMemory(o.memory, teardown)
    ensures RunTest(o, setup, body, teardown) == Perform(Perform(o.(log := []), setup + body), teardown)
  {
  }

  lemma {:induction false} NoSets(acts: seq<Act>)
    requires forall a | a in acts :: a.Write?
    ensures Sets(acts) == 0
    decreases |acts|
  {
    if acts != [] {
      assert acts[0] in acts;
      NoSets(acts[1..]);
    }
  }

  lemma {:induction false} LogStaysShort(o: Outcome, acts: seq<Act>)
    requires o.Valid() && ActsInMemory(o.memory, acts) && |o.log| <= MAX_POINTERS
    ensures |Perform(o, acts).log| <= MAX_POINTERS
    decreases |acts|
  {
    if acts != [] {
      assert ActsInMemory(o.memory, [acts[0]]);
      LogStaysShort(Effect(o, acts[0]), acts[1..]);
    }
  }

  /** In a test that is decided, nothing but an early pass leaves a block: it runs on past failures and refused sets. */
  lemma {:induction false} DecidedRunsOn(o: Outcome, acts: seq<Act>, rest: seq<Act>)
    requires o.Valid() && ActsInMemory(o.memory, acts + rest) && o.Decided() && Pass !in acts
    ensures ActsInMemory(o.memory, acts) && ActsInMemory(o.memory, rest)
    ensures Perform(o, acts + rest) == Perform(Perform(o, acts), rest)
    decreases |acts|
  {
    assert forall a | a in acts || a in rest :: a in acts + rest;
    if acts == [] {
      assert acts + rest == rest;
    } else {
      assert (acts + rest)[1..] == acts[1..] + rest;
      assert ActsInMemory(o.memory, [acts[0]]);
      DecidedRunsOn(Effect(o, acts[0]), acts[1..], rest);
    }
  }

  /** An early pass ends the block even then. */
  lemma DecidedPassEnds(o: Outcome, acts: seq<Act>, rest: seq<Act>)
    requires o.Valid() && ActsInMemory(o.memory, acts + ([Pass] + rest)) && o.Decided() && Pass !in acts
    ensures ActsInMemory(o.memory, acts) && Perform(o, acts + ([Pass] + rest)) == Perform(o, acts)
  {
    DecidedRunsOn(o, acts, [Pass] + rest);
  }

  // ---------- the code ----------

  class Fixture {
    const memory: array<int>
    const store: array<Entry>
    var index: nat
    var failed: bool
    var ignored: bool
    var testFailures: nat
    var testIgnores: nat

    ghost predicate Valid()
      reads this, memory, store
    {
      store.Length == MAX_POINTERS && index <= MAX_POINTERS && InMemory(memory[..], Log())
    }

    function Log(): seq<Entry>
      reads this, store
    {
      if index <= store.Length then store[..index] else []
    }

    ghost function View(): Outcome
      reads this, memory, store
    {
      Outcome(memory[..], Log(), failed, ignored)
    }

    constructor (memory: array<int>)
      ensures Valid() && this.memory == memory && fresh(store) && Log() == []
      ensures !failed && !ignored && testFailures == 0 && testIgnores == 0
    {
      this.memory := memory;
      store := new Entry[MAX_POINTERS](_ => Entry(0, 0));
      index, failed, ignored := 0, false, false;
      testFailures, testIgnores := 0, 0;
    }

    /** UnityPointer_Init. */
    method Init()
      requires Valid()
      modifies `index
      ensures Valid() && View() == old(View()).(log := [])
    {
      index := 0;
    }

    /** UnityFail: nothing in a test that is decided, otherwise the block is left. */
    method Fail() returns (leaves: bool)
      modifies `failed
      ensures leaves == (!old(failed) && !ignored) && failed == (old(failed) || !ignored)
    {
      if failed || ignored {
        return false;
      }
      failed := true;
      return true;
    }

    /** UnityPointer_Set: logged and done, or refused. */
    method Set(pointer: nat, newValue: int) returns (leaves: bool)
      requires Valid() && pointer < memory.Length
      modifies `index, `failed, memory, store
      ensures Valid() && leaves == Leaves(old(View()), SetPointer(pointer, newValue))
      ensures |old(Log())| >= MAX_POINTERS ==>
                View() == old(View()).(failed := old(failed) || !ignored)
      ensures |old(Log())| < MAX_POINTERS ==>
                View() == Outcome(old(memory[..])[pointer := newValue],
                                  old(Log()) + [Entry(pointer, old(memory[pointer]))], old(failed), ignored)
    {
      if index >= MAX_POINTERS {
        leaves := Fail();
      } else {
        store[index] := Entry(pointer, memory[pointer]);
        memory[pointer] := newValue;
        index := index + 1;
        leaves := false;
        assert store[..index] == old(Log()) + [Entry(pointer, old(memory[pointer]))];
      }
    }

    /** UnityPointer_UndoAllSets. */
    method UndoAllSets()
      requires Valid()
      modifies `index, memory
      ensures Valid() && Log() == []
      ensures memory[..] == Undone(old(memory[..]), old(Log()))
    {
      while index > 0
        invariant Valid()
        invariant Undone(memory[..], Log()) == Undone(old(memory[..]), old(Log()))
      {
        ghost var log := Log();
        index := index - 1;
        assert log[..|log| - 1] == Log() && store[index] == log[|log| - 1];
        assert store[index] in log;
        memory[store[index].pointer] := store[index].oldValue;
      }
    }

    /** One act of user code. */
    method Do(a: Act) returns (leaves: bool)
      requires Valid() && ActsInMemory(memory[..], [a])
      modifies `index, `failed, `ignored, memory, store
      ensures Valid() && leaves == Leaves(old(View()), a) && View() == Effect(old(View()), a)
    {
      assert a in [a];
      leaves := false;
      match a {
        case SetPointer(pointer, value) =>
          leaves := Set(pointer, value);
        case Write(pointer, value) =>
          memory[pointer] := value;
        case Fail =>
          leaves := Fail();
        case Ignore =>
          if !failed && !ignored {
            ignored, leaves := true, true;
          }
        case Pass =>
          leaves := true;
      }
    }

    /** A block of user code under TEST_PROTECT. */
    method Protected(acts: seq<Act>)
      requires Valid() && ActsInMemory(memory[..], acts)
      modifies `index, `failed, `ignored, memory, store
      ensures Valid() && View() == Perform(old(View()), acts)
    {
      hide Effect, Leaves;
      ghost var start := View();
      var k := 0;
      while k < |acts|
        invariant k <= |acts| && Valid() && ActsInMemory(memory[..], acts[k..])
        invariant Perform(View(), acts[k..]) == Perform(start, acts)
      {
        assert acts[k] in acts[k..] && acts[k..][1..] == acts[k + 1..];
        assert ActsInMemory(memory[..], [acts[k]]);
        var leaves := Do(acts[k]);
        if leaves {
          return;
        }
        k := k + 1;
      }
    }

    /** UnityConcludeFixtureTest, without its output. */
    method Conclude()
      modifies `failed, `ignored, `testFailures, `testIgnores
      ensures !failed && !ignored
      ensures testIgnores == old(testIgnores) + (if old(ignored) then 1 else 0)
      ensures testFailures == old(testFailures) + (if old(failed) && !old(ignored) then 1 else 0)
    {
      if ignored {
        testIgnores := testIgnores + 1;
      } else if failed {
        testFailures := testFailures + 1;
      }
      failed, ignored := false, false;
    }

    /** UnityTestRunner from UnityPointer_Init on. */
    method TestRunner(setup: seq<Act>, body: seq<Act>, teardown: seq<Act>)
      requires Valid() && ActsInMemory(memory[..], setup + body) && ActsInMemory(memory[..], teardown)
      modifies this, memory, store
      ensures Valid() && Log() == [] && !failed && !ignored
      ensures var end := RunTest(old(View()), setup, body, teardown);
              && memory[..] == Undone(end.memory, end.log)
              && testIgnores == old(testIgnores) + (if end.ignored then 1 else 0)
              && testFailures == old(testFailures) + (if end.failed && !end.ignored then 1 else 0)
      ensures forall p: nat | p < memory.Length && NeverWritten(setup + body, p) && NeverWritten(teardown, p) ::
                memory[p] == old(memory[p])
    {
      ghost var start := View();
      Init();
      Protected(setup + body);
      Protected(teardown);
      UndoAllSets();
      Conclude();
      forall p: nat | p < memory.Length && NeverWritten(setup + body, p) && NeverWritten(teardown, p)
        ensures memory[p] == start.memory[p]
      {
        TestLeavesNoTrace(start, setup, body, teardown, p);
      }
    }
  }
}
