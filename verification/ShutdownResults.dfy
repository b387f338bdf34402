/** What module Shutdown is for: the rate of every task, and a clean end for all of them. */
module ShutdownResults {
  import opened Tasks
  import opened Slots
  import opened Shutdown

  // ---------- rate ----------

  /**
   * In every interleaving a live periodic task has been given one token per `period` updates, plus
   * one at shutdown; its count is what was given and not taken; and tm_running has returned true at
   * most once per `period` updates, and false at most once.
   */
  lemma RateGuarantee(s: State, actions: seq<Action>, i: nat)
    requires Initial(s) && Run(s, actions).Some? && i < |s.tasks| && Live(s.tasks[i])
    ensures var s', period := Run(s, actions).value, s.tasks[i].period;
            && Shaped(s') && i < |s'.tasks|
            && s'.past[i].gives == Visits(s', i) / period + (if HasReleased(s', i) then 1 else 0)
            && s'.tasks[i].semaphore == s'.past[i].gives - s'.past[i].takes
            && s'.past[i].passes <= Visits(s', i) / period
            && (!s'.scheduler.InSlot? ==> s'.past[i].passes <= s'.slots / period)
            && s'.past[i].takes <= Visits(s', i) / period + 1
  {
    hide After, Update, Times;
    InitialInv(s);
    InvRun(s.tasks, s, actions);
    var s' := Run(s, actions).value;
    assert TokenInv(s.tasks[i], s', i);
    PeriodicCounts(s.tasks[i], Visits(s', i));
  }

  /** A periodic task with heartbeat 0 is given nothing before the shutdown, so it never passes tm_running. */
  lemma DeadHeartbeat(s: State, actions: seq<Action>, i: nat)
    requires Initial(s) && Run(s, actions).Some? && i < |s.tasks|
    requires s.tasks[i].kind == Periodic && s.tasks[i].heartbeat == 0
    ensures var s' := Run(s, actions).value; Shaped(s') && i < |s'.tasks| && s'.past[i].passes == 0
  {
    hide After, Update, Times;
    InitialInv(s);
    InvRun(s.tasks, s, actions);
    var s' := Run(s, actions).value;
    assert TokenInv(s.tasks[i], s', i);
    PeriodicCounts(s.tasks[i], Visits(s', i));
  }

  /** A task takes at most one token after the stop, and then it is leaving or has left. */
  lemma OneLateToken(s: State, actions: seq<Action>, i: nat)
    requires Initial(s) && Run(s, actions).Some? && i < |s.tasks| && s.tasks[i].kind == Periodic
    ensures var s' := Run(s, actions).value;
            && Shaped(s') && i < |s'.tasks| && s'.past[i].lateTakes <= 1
            && (s'.past[i].lateTakes == 1 ==> s'.pcs[i] == AtRead || s'.pcs[i] == Exited)
  {
    hide After, Update, Times;
    InitialInv(s);
    InvRun(s.tasks, s, actions);
    assert TokenInv(s.tasks[i], Run(s, actions).value, i);
  }

  /** How often task i has called tm_running. */
  function CallsBy(actions: seq<Action>, i: nat): nat {
    if actions == [] then 0 else (if actions[0] == CallRunning(i) then 1 else 0) + CallsBy(actions[1..], i)
  }

  function Calling(pc: TaskPc): nat {
    if pc == AtTake || pc == AtRead || pc == Exited then 1 else 0
  }

  lemma {:induction false} CallsBalance(s: State, actions: seq<Action>, i: nat)
    requires Shaped(s) && i < |s.pcs| && Run(s, actions).Some?
    ensures var end := Run(s, actions).value;
            && |end.pcs| == |end.past| == |s.pcs|
            && end.past[i].passes + Calling(end.pcs[i]) == s.past[i].passes + Calling(s.pcs[i]) + CallsBy(actions, i)
    decreases |actions|
  {
    if actions != [] {
      ApplyShaped(s, actions[0]);
      CallStep(s, actions[0], i);
      CallsBalance(Apply(s, actions[0]).value, actions[1..], i);
    }
  }

  lemma CallStep(s: State, a: Action, i: nat)
    requires Shaped(s) && i < |s.pcs| && Apply(s, a).Some?
    ensures var s' := Apply(s, a).value;
            && |s'.pcs| == |s'.past| == |s.pcs|
            && s'.past[i].passes + Calling(s'.pcs[i]) ==
               s.past[i].passes + Calling(s.pcs[i]) + (if a == CallRunning(i) then 1 else 0)
  {
  }

  /**
   * Each time around its loop a task calls tm_running once: all its calls have returned true, but for
   * one that is still on its way or has returned false.
   */
  lemma CallsAnswered(s: State, actions: seq<Action>, i: nat)
    requires Initial(s) && i < |s.pcs| && Run(s, actions).Some?
    ensures var end := Run(s, actions).value;
            && |end.pcs| == |end.past| == |s.pcs|
            && CallsBy(actions, i) == end.past[i].passes +
                 (if end.pcs[i] == AtTake || end.pcs[i] == AtRead || end.pcs[i] == Exited then 1 else 0)
  {
    CallsBalance(s, actions, i);
  }

  // ---------- shutdown ----------

  predicate Active(pc: TaskPc) {
    pc == Working || pc == AtTake || pc == AtRead
  }

  /** The step a task's own thread takes next. */
  function NextAction(pc: TaskPc, i: nat): Action
    requires Active(pc)
  {
    match pc
    case Working => CallRunning(i)
    case AtTake => TakeToken(i)
    case AtRead => ReadFlag(i)
  }

  /** How many steps are left until a task has left its loop, once the flag is down. */
  function StepsLeft(pc: TaskPc): nat {
    match pc
    case Working => 3
    case AtTake => 2
    case AtRead => 1
    case _ => 0
  }

  /** Once the scheduler has finished, every task that is still in its loop can take its next step. */
  lemma NotBlocked(start: seq<Task>, s: State, i: nat)
    requires Inv(start, s) && s.scheduler == Finished && i < |s.pcs| && Active(s.pcs[i])
    ensures Apply(s, NextAction(s.pcs[i], i)).Some?
    ensures var s' := Apply(s, NextAction(s.pcs[i], i)).value;
            && s'.pcs == s.pcs[i := s'.pcs[i]] && StepsLeft(s'.pcs[i]) == StepsLeft(s.pcs[i]) - 1
            && s'.scheduler == Finished
  {
    hide After, Times;
    if start[i].kind == Periodic {
      assert TokenInv(start[i], s, i);
    }
  }

  /** From the initial state on, in every interleaving: nobody is left blocked. */
  lemma NoTaskLeftBlocked(s: State, actions: seq<Action>, i: nat)
    requires Initial(s) && Run(s, actions).Some?
    ensures var s' := Run(s, actions).value;
            && Shaped(s')
            && (s'.scheduler == Finished && i < |s'.pcs| && Active(s'.pcs[i]) ==>
                  Apply(s', NextAction(s'.pcs[i], i)).Some?
                  && (s'.pcs[i] == AtTake && s'.tasks[i].kind == Periodic ==> s'.tasks[i].semaphore >= 1)
                  && (s'.pcs[i] == AtRead ==> Apply(s', ReadFlag(i)).value.pcs[i] == Exited))
  {
    hide After, Times, Update;
    InitialInv(s);
    InvRun(s.tasks, s, actions);
    var s' := Run(s, actions).value;
    if s'.scheduler == Finished && i < |s'.pcs| && Active(s'.pcs[i]) {
      NotBlocked(s.tasks, s', i);
    }
  }

  function TotalLeft(pcs: seq<TaskPc>): nat {
    if pcs == [] then 0 else StepsLeft(pcs[0]) + TotalLeft(pcs[1..])
  }

  lemma {:induction false} TotalOfUpdate(pcs: seq<TaskPc>, i: nat, pc: TaskPc)
    requires i < |pcs|
    ensures TotalLeft(pcs[i := pc]) == TotalLeft(pcs) - StepsLeft(pcs[i]) + StepsLeft(pc)
    decreases pcs
  {
    if i == 0 {
      assert pcs[0 := pc][1..] == pcs[1..];
    } else {
      assert pcs[i := pc][1..] == pcs[1..][i - 1 := pc];
      TotalOfUpdate(pcs[1..], i - 1, pc);
    }
  }

  predicate IsTaskAction(a: Action) {
    a.CallRunning? || a.TakeToken? || a.ReadFlag?
  }

  function TaskActions(actions: seq<Action>): nat {
    if actions == [] then 0 else (if IsTaskAction(actions[0]) then 1 else 0) + TaskActions(actions[1..])
  }

  /** After the scheduler has finished, the tasks together have exactly so many steps left, whatever the order. */
  lemma {:induction false} ShutdownIsBounded(start: seq<Task>, s: State, actions: seq<Action>)
    requires Inv(start, s) && s.scheduler == Finished && Run(s, actions).Some?
    ensures var s' := Run(s, actions).value;
            s'.scheduler == Finished && TaskActions(actions) + TotalLeft(s'.pcs) == TotalLeft(s.pcs)
    decreases |actions|
  {
    hide After, Update, Times, TokenInv;
    if actions != [] {
      var a, s' := actions[0], Apply(s, actions[0]).value;
      InvStep(start, s, a);
      if IsTaskAction(a) {
        TotalOfUpdate(s.pcs, a.i, s'.pcs[a.i]);
      }
      ShutdownIsBounded(start, s', actions[1..]);
    }
  }

  lemma {:induction false} RunConcat(s: State, first: seq<Action>, second: seq<Action>)
    requires Shaped(s) && Run(s, first).Some? && Shaped(Run(s, first).value)
    ensures Run(s, first + second) == Run(Run(s, first).value, second)
    decreases |first|
  {
    hide SchedulerStep, TaskStep, Apply;
    if first == [] {
      assert first + second == second;
    } else {
      ApplyShaped(s, first[0]);
      assert (first + second)[1..] == first[1..] + second;
      RunConcat(Apply(s, first[0]).value, first[1..], second);
    }
  }

  ghost predicate AllLeft(s: State) {
    forall i | 0 <= i < |s.pcs| :: !Active(s.pcs[i])
  }

  /** ... and there is an order in which they all leave. */
  lemma {:induction false} Drain(start: seq<Task>, s: State) returns (actions: seq<Action>)
    requires Inv(start, s) && s.scheduler == Finished
    ensures Run(s, actions).Some? && AllLeft(Run(s, actions).value)
    decreases TotalLeft(s.pcs)
  {
    hide After, Update, Times, TokenInv;
    if i: nat :| i < |s.pcs| && Active(s.pcs[i]) {
      var a := NextAction(s.pcs[i], i);
      NotBlocked(start, s, i);
      var s' := Apply(s, a).value;
      InvStep(start, s, a);
      TotalOfUpdate(s.pcs, i, s'.pcs[i]);
      var rest := Drain(start, s');
      actions := [a] + rest;
      assert actions[1..] == rest;
    } else {
      actions := [];
    }
  }

  function SchedulerLeft(s: State): nat {
    var n := |s.tasks|;
    match s.scheduler
    case Taking => 2 * n + 10
    case InSlot(i) => (if i < n then n - i else 0) + n + 5
    case Testing => n + 4
    case Releasing(i) => (if i < n then n - i else 0) + 1
    case Finished => 0
  }

  /** Once the flag is down, one tick of the timer is enough for the scheduler to finish. */
  lemma {:induction false} SchedulerFinishes(s: State) returns (actions: seq<Action>)
    requires Shaped(s) && !s.running
    ensures var end := Run(s, actions); end.Some? && Shaped(end.value) && end.value.scheduler == Finished
    decreases SchedulerLeft(s)
  {
    hide Update;
    if s.scheduler == Finished {
      actions := [];
    } else if s.scheduler == Taking {
      var ticked := Apply(s, Tick).value;
      var taken := Apply(ticked, TakeSlot).value;
      var rest := SchedulerFinishes(taken);
      actions := [Tick, TakeSlot] + rest;
      assert actions[1..][1..] == rest && actions[1..][0] == TakeSlot;
    } else {
      var a := if s.scheduler == Testing then Test else if s.scheduler.InSlot? then VisitNext else ReleaseNext;
      ApplyShaped(s, a);
      var rest := SchedulerFinishes(Apply(s, a).value);
      actions := [a] + rest;
      assert actions[1..] == rest;
    }
  }

  lemma {:induction false} StoppedCompletes(start: seq<Task>, s: State) returns (actions: seq<Action>)
    requires Inv(start, s) && !s.running
    ensures Run(s, actions).Some?
    ensures var end := Run(s, actions).value; end.scheduler == Finished && AllLeft(end)
  {
    hide SchedulerStep, TaskStep, Apply, Run, After, Update, Times, TokenInv;
    var first := SchedulerFinishes(s);
    InvRun(start, s, first);
    var mid := Run(s, first).value;
    var second := Drain(start, mid);
    ShutdownIsBounded(start, mid, second);
    RunConcat(s, first, second);
    actions := first + second;
  }

  /** What stops the system: tm_stop at any moment, or the schedule semaphore failing under the scheduler. */
  predicate Stops(s: State, cause: Action) {
    cause == Stop || (cause == FailTake && s.scheduler == Taking)
  }

  lemma StopApplies(s: State, cause: Action)
    requires Shaped(s) && Stops(s, cause)
    ensures Run(s, [cause]).Some? && Apply(s, cause).Some? && Run(s, [cause]) == Apply(s, cause)
    ensures !Apply(s, cause).value.running
  {
  }

  /** From any reachable state, a stop leads to the end: the scheduler finishes and all tasks leave their loops. */
  lemma ShutdownCompletes(s: State, past: seq<Action>, cause: Action) returns (actions: seq<Action>)
    requires Initial(s) && Run(s, past).Some? && Stops(Run(s, past).value, cause)
    ensures Run(s, past + ([cause] + actions)).Some?
    ensures var end := Run(s, past + ([cause] + actions)).value; end.scheduler == Finished && AllLeft(end)
  {
    InitialInv(s);
    InvRun(s.tasks, s, past);
    hide SchedulerStep, TaskStep, Apply, Run, After, Update, Times, TokenInv;
    var mid := Run(s, past).value;
    StopApplies(mid, cause);
    InvStep(s.tasks, mid, cause);
    var stopped := Apply(mid, cause).value;
    actions := StoppedCompletes(s.tasks, stopped);
    RunConcat(mid, [cause], actions);
    RunConcat(s, past, [cause] + actions);
  }

  /** A slot that has been started, or is about to be. */
  function SlotsBegun(s: State): nat {
    s.slots + (if s.scheduler.Taking? || s.scheduler.InSlot? then 1 else 0)
  }

  lemma {:induction false} StoppedForGood(start: seq<Task>, s: State, rest: seq<Action>)
    requires Inv(start, s) && !s.running && Run(s, rest).Some?
    ensures var end := Run(s, rest).value;
            && !end.running && SlotsBegun(end) <= SlotsBegun(s) && Inv(start, end)
            && forall i | 0 <= i < |s.past| :: end.past[i].passes == s.past[i].passes
    decreases |rest|
  {
    hide After, Update, Times, TokenInv;
    if rest != [] {
      InvStep(start, s, rest[0]);
      StoppedForGood(start, Apply(s, rest[0]).value, rest[1..]);
    }
  }

  /**
   * After a stop, whatever follows: the flag stays down, tm_running never returns true again, and
   * at most the slot that the scheduler is in or about to take is still run.
   */
  lemma StopIsFinal(s: State, past: seq<Action>, cause: Action, rest: seq<Action>)
    requires Initial(s) && Run(s, past).Some? && Stops(Run(s, past).value, cause)
    requires Run(s, past + ([cause] + rest)).Some?
    ensures var mid, end := Run(s, past).value, Run(s, past + ([cause] + rest)).value;
            && !end.running && |end.past| == |mid.past|
            && end.slots <= mid.slots + (if mid.scheduler.Taking? || mid.scheduler.InSlot? then 1 else 0)
            && forall i | 0 <= i < |mid.past| :: end.past[i].passes == mid.past[i].passes
  {
    InitialInv(s);
    InvRun(s.tasks, s, past);
    hide After, Update, Times, TokenInv, Run;
    var mid := Run(s, past).value;
    StopApplies(mid, cause);
    InvStep(s.tasks, mid, cause);
    RunConcat(s, past, [cause] + rest);
    RunConcat(mid, [cause], rest);
    StoppedForGood(s.tasks, Apply(mid, cause).value, rest);
  }
}
