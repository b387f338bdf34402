/**
 * The scheduler task, tm_stop and the tasks that loop on tm_running, as steps of concurrent threads.
 * Semaphores are counters; taking one that is 0 is not possible, which is what blocking means here.
 */
module Shutdown {
  import opened Basics
  import opened Tasks
  import opened Slots

  datatype SchedulerPc =
    | Testing               // about to test continue_running
    | Taking                // about to take the schedule semaphore
    | InSlot(next: nat)     // about to update and process task `next`
    | Releasing(next: nat)  // about to release task `next`
    | Finished

  /** Where a task's thread is in `while (tm_running(id))`; Absent if no thread runs the entry. */
  datatype TaskPc = Absent | Working | AtTake | AtRead | Exited

  /** Per task: tokens given and taken, calls that returned true, tokens taken after the stop. */
  datatype Past = Past(gives: nat, takes: nat, passes: nat, lateTakes: nat)

  datatype State = State(tasks: seq<Task>, pcs: seq<TaskPc>, running: bool, scheduler: SchedulerPc,
                         scheduleTokens: nat, slots: nat, past: seq<Past>)

  datatype Action =
    | Tick            // the timer callback gives the schedule semaphore
    | Stop            // tm_stop, by anyone
    | Test | TakeSlot | FailTake | VisitNext | ReleaseNext
    | CallRunning(i: nat) | TakeToken(i: nat) | ReadFlag(i: nat)

  ghost predicate Shaped(s: State) {
    |s.pcs| == |s.tasks| && |s.past| == |s.tasks|
  }

  function Give(s: State, i: nat): State
    requires i < |s.tasks| && i < |s.past|
  {
    s.(tasks := s.tasks[i := s.tasks[i].(semaphore := s.tasks[i].semaphore + 1)],
       past := s.past[i := s.past[i].(gives := s.past[i].gives + 1)])
  }

  /** Update and process one task: callbacks and status bits are the concern of module Slots. */
  function VisitTask(s: State, i: nat): State
    requires i < |s.tasks| && i < |s.past|
  {
    var (t, status) := Update(s.tasks[i]);
    var s' := s.(tasks := s.tasks[i := t]);
    if status == Schedule && t.kind == Periodic then Give(s', i) else s'
  }

  function SchedulerStep(s: State, a: Action): Option<State>
    requires Shaped(s)
  {
    match (a, s.scheduler)
    case (Test, Testing) => Some(s.(scheduler := if s.running then Taking else Releasing(0)))
    case (TakeSlot, Taking) =>
      if s.scheduleTokens == 0 then None
      else Some(s.(scheduler := InSlot(0), scheduleTokens := s.scheduleTokens - 1))
    case (FailTake, Taking) => Some(s.(scheduler := Testing, running := false))
    case (VisitNext, InSlot(i)) =>
      if i < |s.tasks| then Some(VisitTask(s, i).(scheduler := InSlot(i + 1)))
      else Some(s.(scheduler := Testing, slots := s.slots + 1))
    case (ReleaseNext, Releasing(i)) =>
      if i >= |s.tasks| then Some(s.(scheduler := Finished))
      else Some((if s.tasks[i].kind == Periodic then Give(s, i) else s).(scheduler := Releasing(i + 1)))
    case _ => None
  }

  function TaskStep(s: State, a: Action): Option<State>
    requires Shaped(s)
  {
    match a
    case CallRunning(i) =>
      if i < |s.pcs| && s.pcs[i] == Working then Some(s.(pcs := s.pcs[i := AtTake])) else None
    case TakeToken(i) =>
      if i >= |s.pcs| || s.pcs[i] != AtTake then None
      else if s.tasks[i].kind != Periodic then Some(s.(pcs := s.pcs[i := AtRead]))
      else if s.tasks[i].semaphore == 0 then None
      else
        var p := s.past[i];
        Some(s.(pcs := s.pcs[i := AtRead],
                tasks := s.tasks[i := s.tasks[i].(semaphore := s.tasks[i].semaphore - 1)],
                past := s.past[i := p.(takes := p.takes + 1,
                                       lateTakes := if s.running then p.lateTakes else p.lateTakes + 1)]))
    case ReadFlag(i) =>
      if i >= |s.pcs| || s.pcs[i] != AtRead then None
      else if s.running then
        Some(s.(pcs := s.pcs[i := Working], past := s.past[i := s.past[i].(passes := s.past[i].passes + 1)]))
      else Some(s.(pcs := s.pcs[i := Exited]))
    case _ => None
  }

  function Apply(s: State, a: Action): Option<State>
    requires Shaped(s)
  {
    match a
    case Tick => Some(s.(scheduleTokens := s.scheduleTokens + 1))
    case Stop => Some(s.(running := false))
    case CallRunning(_) => TaskStep(s, a)
    case TakeToken(_) => TaskStep(s, a)
    case ReadFlag(_) => TaskStep(s, a)
    case _ => SchedulerStep(s, a)
  }

  lemma ApplyShaped(s: State, a: Action)
    requires Shaped(s) && Apply(s, a).Some?
    ensures Shaped(Apply(s, a).value) && |Apply(s, a).value.tasks| == |s.tasks|
  {
  }

  function Run(s: State, actions: seq<Action>): Option<State>
    requires Shaped(s)
    decreases |actions|
  {
    if actions == [] then Some(s) else
    var next := Apply(s, actions[0]);
    if next.None? then None else
    assert Shaped(next.value) by { ApplyShaped(s, actions[0]); }
    Run(next.value, actions[1..])
  }

  /** All tasks registered, none started yet. */
  ghost predicate Initial(s: State) {
    && Shaped(s) && s.running && s.scheduler == Testing && s.scheduleTokens == 0 && s.slots == 0
    && forall i | 0 <= i < |s.tasks| ::
         && Fresh(s.tasks[i]) && s.tasks[i].semaphore == 0
         && (s.tasks[i].kind == Periodic ==> s.tasks[i].period >= 1)
         && (s.pcs[i] == Absent || s.pcs[i] == Working) && s.past[i] == Past(0, 0, 0, 0)
  }

  // ---------- the invariant ----------

  /** How often task i has been updated: once per completed slot, and once if this slot has reached it. */
  function Visits(s: State, i: nat): nat {
    s.slots + (if s.scheduler.InSlot? && s.scheduler.next > i then 1 else 0)
  }

  predicate HasReleased(s: State, i: nat) {
    s.scheduler.Finished? || (s.scheduler.Releasing? && s.scheduler.next > i)
  }

  /** What holds for a periodic entry that was `t` when it was registered. */
  ghost predicate TokenInv(t: Task, s: State, i: nat)
    requires Shaped(s) && i < |s.tasks|
  {
    var p, pc := s.past[i], s.pcs[i];
    && s.tasks[i] == After(t, Visits(s, i)).(semaphore := s.tasks[i].semaphore)
    && p.gives == Times(t, Schedule, Visits(s, i)) + (if HasReleased(s, i) then 1 else 0)
    && p.gives == p.takes + s.tasks[i].semaphore
    && p.takes == p.passes + (if pc == AtRead || pc == Exited then 1 else 0)
    && p.passes <= Times(t, Schedule, Visits(s, i))
    && (HasReleased(s, i) && (pc == AtTake || pc == Working) ==> s.tasks[i].semaphore >= 1)
    && p.lateTakes <= 1
    && (p.lateTakes == 1 ==> !s.running && (pc == AtRead || pc == Exited))
  }

  ghost predicate Inv(start: seq<Task>, s: State) {
    && Shaped(s) && |start| == |s.tasks|
    && (s.scheduler.Releasing? || s.scheduler.Finished? ==> !s.running)
    && (forall i | 0 <= i < |s.tasks| :: s.tasks[i].kind == start[i].kind)
    && (forall i | 0 <= i < |s.pcs| :: s.pcs[i] == Exited ==> !s.running)
    && (forall i | 0 <= i < |s.tasks| :: start[i].kind == Periodic ==> TokenInv(start[i], s, i))
  }

  lemma InitialInv(s: State)
    requires Initial(s)
    ensures Inv(s.tasks, s)
  {
  }

  lemma VisitInv(start: seq<Task>, s: State, a: Action)
    requires Inv(start, s) && a == VisitNext && Apply(s, a).Some?
    ensures Inv(start, Apply(s, a).value)
  {
    hide Update, After, Times;
    var k, s' := s.scheduler.next, Apply(s, a).value;
    if k < |s.tasks| {
      KindStays(s.tasks[k]);
    }
    forall i | 0 <= i < |s.tasks| && start[i].kind == Periodic ensures TokenInv(start[i], s', i) {
      if i == k {
        VisitPeriodic(start[i], s, i);
      }
    }
  }

  lemma VisitPeriodic(t: Task, s: State, i: nat)
    requires Shaped(s) && i < |s.tasks| && s.scheduler == InSlot(i) && t.kind == Periodic
    requires TokenInv(t, s, i) && s.tasks[i].kind == Periodic
    ensures TokenInv(t, VisitTask(s, i).(scheduler := InSlot(i + 1)), i)
  {
    hide Update;
    var n := Visits(s, i);
    UpdateIgnoresTokens(s.tasks[i], After(t, n));
    KindStays(s.tasks[i]);
    KindStays(After(t, n));
  }

  lemma SchedulerInv(start: seq<Task>, s: State, a: Action)
    requires Inv(start, s) && Apply(s, a).Some?
    requires a.Tick? || a.Stop? || a.Test? || a.TakeSlot? || a.FailTake? || a.ReleaseNext?
    ensures Inv(start, Apply(s, a).value)
  {
    hide Update, After, Times;
  }

  lemma TakeInv(start: seq<Task>, s: State, i: nat)
    requires Inv(start, s) && Apply(s, TakeToken(i)).Some?
    ensures Inv(start, Apply(s, TakeToken(i)).value)
  {
    hide Update, After, Times;
  }

  lemma ReadInv(start: seq<Task>, s: State, i: nat)
    requires Inv(start, s) && Apply(s, ReadFlag(i)).Some?
    ensures Inv(start, Apply(s, ReadFlag(i)).value)
  {
    hide Update, After, Times;
  }

  lemma CallInv(start: seq<Task>, s: State, i: nat)
    requires Inv(start, s) && Apply(s, CallRunning(i)).Some?
    ensures Inv(start, Apply(s, CallRunning(i)).value)
  {
    hide Update, After, Times;
  }

  lemma InvStep(start: seq<Task>, s: State, a: Action)
    requires Inv(start, s) && Apply(s, a).Some?
    ensures Inv(start, Apply(s, a).value)
  {
    match a
    case VisitNext => VisitInv(start, s, a);
    case CallRunning(i) => CallInv(start, s, i);
    case TakeToken(i) => TakeInv(start, s, i);
    case ReadFlag(i) => ReadInv(start, s, i);
    case _ => SchedulerInv(start, s, a);
  }

  lemma {:induction false} InvRun(start: seq<Task>, s: State, actions: seq<Action>)
    requires Inv(start, s) && Run(s, actions).Some?
    ensures Inv(start, Run(s, actions).value)
    decreases |actions|
  {
    hide Inv;
    assert Shaped(s) by { InvShaped(start, s); }
    if actions != [] {
      InvStep(start, s, actions[0]);
      InvRun(start, Apply(s, actions[0]).value, actions[1..]);
    }
  }

  lemma InvShaped(start: seq<Task>, s: State)
    requires Inv(start, s)
    ensures Shaped(s)
  {
  }
}
