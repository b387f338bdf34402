/** That the scheduler keeps up: every tick gives one slot, and every task can reach its full rate. */
module SchedulerProgress {
  import opened Tasks
  import opened Slots
  import opened Shutdown
  import opened ShutdownResults

  // ---------- ticks and slots ----------

  function Ticks(actions: seq<Action>): nat {
    if actions == [] then 0 else (if actions[0] == Tick then 1 else 0) + Ticks(actions[1..])
  }

  /** Slots completed, begun, or waiting for the scheduler. */
  function Owed(s: State): nat {
    s.slots + (if s.scheduler.InSlot? then 1 else 0) + s.scheduleTokens
  }

  lemma {:induction false} TicksBalance(s: State, actions: seq<Action>)
    requires Shaped(s) && Run(s, actions).Some?
    ensures Shaped(Run(s, actions).value) && Owed(Run(s, actions).value) == Owed(s) + Ticks(actions)
    decreases |actions|
  {
    hide VisitTask, Give, TaskStep;
    if actions != [] {
      var a := actions[0];
      ApplyShaped(s, a);
      OwedStep(s, a);
      TicksBalance(Apply(s, a).value, actions[1..]);
    }
  }

  lemma OwedStep(s: State, a: Action)
    requires Shaped(s) && Apply(s, a).Some?
    ensures Owed(Apply(s, a).value) == Owed(s) + (if a == Tick then 1 else 0)
  {
  }

  /** In every interleaving each tick of the timer is one slot: completed, under way, or still waiting. */
  lemma SlotPerTick(s: State, actions: seq<Action>)
    requires Initial(s) && Run(s, actions).Some?
    ensures var end := Run(s, actions).value;
            end.slots + (if end.scheduler.InSlot? then 1 else 0) + end.scheduleTokens == Ticks(actions)
  {
    TicksBalance(s, actions);
  }

  /**
   * A task in its loop is blocked exactly when it is periodic, calls tm_running and has no token; the
   * scheduler exactly when it wants a tick and there is none.
   */
  lemma BlockedByTokensOnly(s: State, i: nat)
    requires Shaped(s)
    ensures i < |s.pcs| && Active(s.pcs[i]) ==>
              (Apply(s, NextAction(s.pcs[i], i)).None? <==>
                 s.pcs[i] == AtTake && s.tasks[i].kind == Periodic && s.tasks[i].semaphore == 0)
    ensures s.scheduler != Finished ==>
              (Apply(s, Test).None? && Apply(s, TakeSlot).None?
               && Apply(s, VisitNext).None? && Apply(s, ReleaseNext).None? <==>
                 s.scheduler == Taking && s.scheduleTokens == 0)
  {
  }

  // ---------- the scheduler serves every tick ----------

  function SlotLeft(s: State): nat {
    match s.scheduler
    case InSlot(i) => if i < |s.tasks| then |s.tasks| - i + 2 else 2
    case Testing => 1
    case _ => 0
  }

  lemma Unfold(s: State, a: Action, rest: seq<Action>)
    requires Shaped(s) && Apply(s, a).Some? && Shaped(Apply(s, a).value)
    ensures Run(s, [a] + rest) == Run(Apply(s, a).value, rest)
  {
    assert ([a] + rest)[1..] == rest;
  }

  lemma {:induction false} Serve(start: seq<Task>, s: State) returns (actions: seq<Action>)
    requires Inv(start, s) && s.running
    ensures Run(s, actions).Some? && Ticks(actions) == 0
    ensures var end := Run(s, actions).value;
            Inv(start, end) && end.running && end.scheduler == Taking && end.scheduleTokens == 0 && end.pcs == s.pcs
    decreases s.scheduleTokens, SlotLeft(s)
  {
    hide After, Update, Times, TokenInv;
    if s.scheduler == Taking && s.scheduleTokens == 0 {
      actions := [];
    } else {
      var a := if s.scheduler == Testing then Test else if s.scheduler == Taking then TakeSlot else VisitNext;
      InvStep(start, s, a);
      var rest := Serve(start, Apply(s, a).value);
      Unfold(s, a, rest);
      actions := [a] + rest;
      assert actions[1..] == rest;
    }
  }

  // ---------- the tasks use every token ----------

  /** The steps until task i waits for a token and there is none. */
  function Work(t: Task, pc: TaskPc): nat {
    if t.kind == Periodic && Active(pc) then
      3 * t.semaphore + (if pc == AtRead then 2 else if pc == Working then 1 else 0)
    else 0
  }

  function TotalWork(tasks: seq<Task>, pcs: seq<TaskPc>): nat
    requires |tasks| == |pcs|
  {
    if tasks == [] then 0 else Work(tasks[0], pcs[0]) + TotalWork(tasks[1..], pcs[1..])
  }

  lemma {:induction false} TotalWorkUpdate(tasks: seq<Task>, pcs: seq<TaskPc>, i: nat, t: Task, pc: TaskPc)
    requires |tasks| == |pcs| && i < |tasks|
    ensures TotalWork(tasks[i := t], pcs[i := pc]) == TotalWork(tasks, pcs) - Work(tasks[i], pcs[i]) + Work(t, pc)
    decreases |tasks|
  {
    if i == 0 {
      assert tasks[0 := t][1..] == tasks[1..] && pcs[0 := pc][1..] == pcs[1..];
    } else {
      assert tasks[i := t][1..] == tasks[1..][i - 1 := t] && pcs[i := pc][1..] == pcs[1..][i - 1 := pc];
      TotalWorkUpdate(tasks[1..], pcs[1..], i - 1, t, pc);
    }
  }

  ghost predicate Idle(s: State)
    requires Shaped(s)
  {
    forall i | 0 <= i < |s.tasks| :: Work(s.tasks[i], s.pcs[i]) == 0
  }

  lemma WorkStep(s: State, i: nat)
    requires Shaped(s) && s.running && i < |s.tasks| && Work(s.tasks[i], s.pcs[i]) > 0
    ensures Active(s.pcs[i])
    ensures var a := NextAction(s.pcs[i], i);
            && Apply(s, a).Some? && a != Tick
            && var s' := Apply(s, a).value;
               && s' == s.(tasks := s.tasks[i := s'.tasks[i]], pcs := s.pcs[i := s'.pcs[i]], past := s'.past)
               && Work(s'.tasks[i], s'.pcs[i]) < Work(s.tasks[i], s.pcs[i])
               && s'.pcs[i] != Absent
  {
    var s' := Apply(s, NextAction(s.pcs[i], i)).value;
    assert s.tasks[i := s.tasks[i]] == s.tasks;
  }

  lemma {:induction false} Consume(start: seq<Task>, s: State) returns (actions: seq<Action>)
    requires Inv(start, s) && s.running
    ensures Run(s, actions).Some? && Ticks(actions) == 0
    ensures var end := Run(s, actions).value;
            && Inv(start, end) && Idle(end) && end == s.(tasks := end.tasks, pcs := end.pcs, past := end.past)
            && forall i | 0 <= i < |s.pcs| && s.pcs[i] != Absent :: end.pcs[i] != Absent
    decreases TotalWork(s.tasks, s.pcs)
  {
    hide After, Update, Times, TokenInv, Apply, Work;
    if Idle(s) {
      actions := [];
    } else {
      var i: nat :| i < |s.tasks| && Work(s.tasks[i], s.pcs[i]) > 0;
      WorkStep(s, i);
      var a := NextAction(s.pcs[i], i);
      var s' := Apply(s, a).value;
      InvStep(start, s, a);
      TotalWorkUpdate(s.tasks, s.pcs, i, s'.tasks[i], s'.pcs[i]);
      var rest := Consume(start, s');
      Unfold(s, a, rest);
      actions := [a] + rest;
      assert actions[1..] == rest;
    }
  }

  // ---------- the full rate ----------

  lemma {:induction false} TicksConcat(first: seq<Action>, second: seq<Action>)
    ensures Ticks(first + second) == Ticks(first) + Ticks(second)
    decreases |first|
  {
    if first == [] {
      assert first + second == second;
    } else {
      assert (first + second)[1..] == first[1..] + second;
      TicksConcat(first[1..], second);
    }
  }

  lemma {:induction false} PresentStays(s: State, actions: seq<Action>, i: nat)
    requires Shaped(s) && i < |s.pcs| && Run(s, actions).Some?
    ensures var end := Run(s, actions).value;
            Shaped(end) && |end.pcs| == |s.pcs| && (end.pcs[i] == Absent <==> s.pcs[i] == Absent)
    decreases |actions|
  {
    hide VisitTask, Give;
    if actions != [] {
      ApplyShaped(s, actions[0]);
      PresentStep(s, actions[0], i);
      PresentStays(Apply(s, actions[0]).value, actions[1..], i);
    }
  }

  lemma PresentStep(s: State, a: Action, i: nat)
    requires Shaped(s) && i < |s.pcs| && Apply(s, a).Some?
    ensures var s' := Apply(s, a).value; |s'.pcs| == |s.pcs| && (s'.pcs[i] == Absent <==> s.pcs[i] == Absent)
  {
  }

  /** A task that has used all its tokens has passed as often as it has been scheduled. */
  lemma PassesExact(start: seq<Task>, s: State, i: nat)
    requires Inv(start, s) && s.running && s.scheduler == Taking && Idle(s)
    requires i < |start| && Fresh(start[i]) && Live(start[i]) && s.pcs[i] != Absent
    ensures s.past[i].passes == s.slots / start[i].period
  {
    hide After, Update, Times;
    assert TokenInv(start[i], s, i);
    PeriodicCounts(start[i], s.slots);
    assert Work(s.tasks[i], s.pcs[i]) == 0;
  }

  /**
   * While the system is running, every reachable state can be continued, without a further tick, until
   * each tick so far has had its slot and every live periodic task that runs has passed tm_running
   * exactly once per period.
   */
  lemma FullRate(s: State, past: seq<Action>) returns (actions: seq<Action>)
    requires Initial(s) && Run(s, past).Some? && Run(s, past).value.running
    ensures Run(s, past + actions).Some? && Ticks(actions) == 0
    ensures var end := Run(s, past + actions).value;
            && Shaped(end) && |end.tasks| == |s.tasks| && end.running && end.slots == Ticks(past)
            && forall i | 0 <= i < |s.tasks| && Live(s.tasks[i]) && s.pcs[i] != Absent ::
                 end.past[i].passes == Ticks(past) / s.tasks[i].period
  {
    InitialInv(s);
    InvRun(s.tasks, s, past);
    var mid := Run(s, past).value;
    var first := Serve(s.tasks, mid);
    var served := Run(mid, first).value;
    var second := Consume(s.tasks, served);
    var end := Run(served, second).value;
    assert Shaped(end) by { InvShaped(s.tasks, end); }
    hide After, Update, Times, TokenInv, Run, Idle, Inv, Live;
    RunConcat(mid, first, second);
    RunConcat(s, past, first + second);
    actions := first + second;
    TicksConcat(first, second);
    TicksConcat(past, actions);
    TicksBalance(s, past + actions);
    forall i | 0 <= i < |s.tasks| && Live(s.tasks[i]) && s.pcs[i] != Absent
      ensures end.past[i].passes == Ticks(past) / s.tasks[i].period
    {
      PresentStays(s, past + actions, i);
      PassesExact(s.tasks, end, i);
    }
  }
}
