/** The schedule slots of tm_scheduler_task: what happens to the whole task table. */
module Slots {
  import opened Arithmetic
  import opened BitFields
  import opened Tasks

  const MAX_TASKS := 100
  /** TM_TaskBitField is a plain int: only the bits below its sign bit are modelled. */
  const BITFIELD_BITS := 31

  /** `called` lists the callbacks that have been run, by task id. */
  datatype Table = Table(tasks: seq<Task>, scheduled: nat, missed: nat, called: seq<nat>)

  function Record(bits: nat, id: nat): nat {
    if id < BITFIELD_BITS then OrBit(bits, id) else bits
  }

  /** tm_process_task. */
  function Process(s: Table, status: TaskStatus, id: nat): Table
    requires id < |s.tasks|
  {
    var t := s.tasks[id];
    match status
    case Schedule =>
      if t.kind == Periodic then
        s.(tasks := s.tasks[id := t.(semaphore := t.semaphore + 1)], scheduled := Record(s.scheduled, id))
      else if t.kind == Callback && t.hasFunction then s.(called := s.called + [id])
      else s
    case MissedHeartbeat => s.(missed := Record(s.missed, id))
    case _ => s
  }

  /** The pass of the loop for one task. */
  function Visit(s: Table, id: nat): Table
    requires id < |s.tasks|
  {
    var (t, status) := Update(s.tasks[id]);
    Process(s.(tasks := s.tasks[id := t]), status, id)
  }

  /** The loop of one slot, up to but not including task k. */
  function SlotUpTo(s: Table, k: nat): (r: Table)
    requires k <= |s.tasks|
    ensures |r.tasks| == |s.tasks|
  {
    if k == 0 then s else Visit(SlotUpTo(s, k - 1), k - 1)
  }

  function Slot(s: Table): (r: Table)
    ensures |r.tasks| == |s.tasks|
  {
    SlotUpTo(s, |s.tasks|)
  }

  function SlotsAfter(s: Table, n: nat): (r: Table)
    ensures |r.tasks| == |s.tasks|
  {
    if n == 0 then s else Slot(SlotsAfter(s, n - 1))
  }

  /** The loop that ends tm_scheduler_task: a last token for every periodic task, up to task k. */
  function Released(s: Table, k: nat): (r: Table)
    requires k <= |s.tasks|
    ensures |r.tasks| == |s.tasks|
  {
    s.(tasks := seq(|s.tasks|, i requires 0 <= i < |s.tasks| =>
      if i < k && s.tasks[i].kind == Periodic then s.tasks[i].(semaphore := s.tasks[i].semaphore + 1) else s.tasks[i]))
  }

  // ---------- one slot ----------

  /** One task after one slot. */
  function Next(t: Task): Task {
    var (u, status) := Update(t);
    if status == Schedule && u.kind == Periodic then u.(semaphore := u.semaphore + 1) else u
  }

  predicate Calls(t: Task) {
    t.kind == Callback && t.hasFunction && Update(t).1 == Schedule
  }

  /** The callbacks due in this slot among the first k tasks, in increasing order of id. */
  function Due(tasks: seq<Task>, k: nat): seq<nat>
    requires k <= |tasks|
  {
    if k == 0 then [] else Due(tasks, k - 1) + (if Calls(tasks[k - 1]) then [k - 1] else [])
  }

  lemma {:induction false} DueExact(tasks: seq<Task>, k: nat)
    requires k <= |tasks|
    ensures forall id: nat :: id in Due(tasks, k) <==> id < k && Calls(tasks[id])
    ensures forall i, j | 0 <= i < j < |Due(tasks, k)| :: Due(tasks, k)[i] < Due(tasks, k)[j]
    decreases k
  {
    if k > 0 {
      DueExact(tasks, k - 1);
      var before := Due(tasks, k - 1);
      forall i | 0 <= i < |before| ensures before[i] < k - 1 {
        assert before[i] in before;
      }
    }
  }

  /** The table after the first k tasks of a slot: each of them moved on its own, and left its marks. */
  ghost predicate Visited(s: Table, r: Table, k: nat)
    requires k <= |s.tasks|
  {
    && |r.tasks| == |s.tasks|
    && (forall i | 0 <= i < |s.tasks| :: r.tasks[i] == if i < k then Next(s.tasks[i]) else s.tasks[i])
    && r.called == s.called + Due(s.tasks, k)
    && (forall i: nat :: Bit(r.scheduled, i) <==>
          || Bit(s.scheduled, i)
          || (i < k && i < BITFIELD_BITS && s.tasks[i].kind == Periodic && Update(s.tasks[i]).1 == Schedule))
    && (forall i: nat :: Bit(r.missed, i) <==>
          Bit(s.missed, i) || (i < k && i < BITFIELD_BITS && Update(s.tasks[i]).1 == MissedHeartbeat))
  }

  lemma VisitOne(s: Table, m: Table, k: nat)
    requires k < |s.tasks| && Visited(s, m, k)
    ensures Visited(s, Visit(m, k), k + 1)
  {
    hide Update;
    KindStays(s.tasks[k]);
    var r := Visit(m, k);
    forall i: nat
      ensures Bit(r.scheduled, i) <==>
          || Bit(m.scheduled, i)
          || (i == k && i < BITFIELD_BITS && s.tasks[k].kind == Periodic && Update(s.tasks[k]).1 == Schedule)
      ensures Bit(r.missed, i) <==>
          Bit(m.missed, i) || (i == k && i < BITFIELD_BITS && Update(s.tasks[k]).1 == MissedHeartbeat)
    {
      OrBitExact(m.scheduled, k, i);
      OrBitExact(m.missed, k, i);
    }
  }

  lemma KindStays(t: Task)
    ensures Update(t).0 == t.(ticks := Update(t).0.ticks)
  {
  }

  lemma {:induction false} SlotVisits(s: Table, k: nat)
    requires k <= |s.tasks|
    ensures Visited(s, SlotUpTo(s, k), k)
    decreases k
  {
    hide Visit;
    if k > 0 {
      SlotVisits(s, k - 1);
      VisitOne(s, SlotUpTo(s, k - 1), k - 1);
    }
  }

  // ---------- any number of slots ----------

  /** One task after n slots: n updates, and a token for each schedule of a periodic one. */
  function NextTimes(t: Task, n: nat): Task {
    var u := After(t, n);
    if t.kind == Periodic then u.(semaphore := t.semaphore + Times(t, Schedule, n)) else u
  }

  lemma UpdateIgnoresTokens(t: Task, u: Task)
    requires t.(semaphore := 0) == u.(semaphore := 0)
    ensures Update(t).1 == Update(u).1
    ensures Update(t).0 == Update(u).0.(semaphore := t.semaphore)
  {
  }

  lemma NextOfNext(t: Task, n: nat)
    ensures Next(NextTimes(t, n)) == NextTimes(t, n + 1)
    ensures Update(NextTimes(t, n)).1 == StatusAt(t, n + 1)
    ensures Calls(NextTimes(t, n)) <==> t.kind == Callback && t.hasFunction && StatusAt(t, n + 1) == Schedule
    ensures NextTimes(t, n).kind == t.kind
  {
    hide Update;
    SameEntry(t, n);
    SameEntry(t, n + 1);
    UpdateIgnoresTokens(NextTimes(t, n), After(t, n));
    KindStays(After(t, n));
  }

  /** The callbacks that slot n runs. */
  predicate CalledIn(tasks: seq<Task>, n: nat, id: nat)
    requires n >= 1
  {
    id < |tasks| && tasks[id].kind == Callback && tasks[id].hasFunction && StatusAt(tasks[id], n) == Schedule
  }

  ghost predicate Progress(s: Table, r: Table, n: nat) {
    && |r.tasks| == |s.tasks|
    && (forall i | 0 <= i < |s.tasks| :: r.tasks[i] == NextTimes(s.tasks[i], n))
    && (forall i: nat :: Bit(r.scheduled, i) <==>
          || Bit(s.scheduled, i)
          || (i < |s.tasks| && i < BITFIELD_BITS && s.tasks[i].kind == Periodic && Times(s.tasks[i], Schedule, n) > 0))
    && (forall i: nat :: Bit(r.missed, i) <==>
          Bit(s.missed, i) || (i < |s.tasks| && i < BITFIELD_BITS && Times(s.tasks[i], MissedHeartbeat, n) > 0))
  }

  lemma ProgressStep(s: Table, m: Table, r: Table, n: nat)
    requires Progress(s, m, n) && Visited(m, r, |m.tasks|)
    ensures Progress(s, r, n + 1)
    ensures r.called == m.called + Due(m.tasks, |m.tasks|)
    ensures forall id: nat | id < |m.tasks| :: Calls(m.tasks[id]) <==> CalledIn(s.tasks, n + 1, id)
  {
    hide Update, StatusAt, NextTimes, Next, Calls, Due;
    forall i | 0 <= i < |s.tasks|
      ensures r.tasks[i] == NextTimes(s.tasks[i], n + 1)
      ensures Update(m.tasks[i]).1 == StatusAt(s.tasks[i], n + 1)
      ensures m.tasks[i].kind == s.tasks[i].kind
      ensures Calls(m.tasks[i]) <==> CalledIn(s.tasks, n + 1, i)
    {
      NextOfNext(s.tasks[i], n);
    }
  }

  /**
   * After n slots every task has moved as if it were alone, and the two bitfields hold, besides
   * the bits they had, exactly the ids that were scheduled or that missed a heartbeat.
   */
  lemma {:induction false} SlotsProgress(s: Table, n: nat)
    ensures Progress(s, SlotsAfter(s, n), n)
    decreases n
  {
    if n > 0 {
      hide Slot, Progress, Visited;
      SlotsProgress(s, n - 1);
      var m := SlotsAfter(s, n - 1);
      SlotIsVisit(m);
      ProgressStep(s, m, Slot(m), n - 1);
    } else {
      NoProgress(s);
    }
  }

  lemma NoProgress(s: Table)
    ensures Progress(s, s, 0)
  {
    hide Bit;
    assert forall t: Task :: NextTimes(t, 0) == t && Times(t, Schedule, 0) == Times(t, MissedHeartbeat, 0) == 0;
  }

  lemma SlotIsVisit(m: Table)
    ensures Visited(m, Slot(m), |m.tasks|)
  {
    SlotVisits(m, |m.tasks|);
  }

  /** Slot n runs exactly the callbacks that are due, in increasing order of id. */
  lemma SlotCallbacks(s: Table, n: nat) returns (ran: seq<nat>)
    requires n >= 1
    ensures SlotsAfter(s, n).called == SlotsAfter(s, n - 1).called + ran
    ensures forall id: nat :: id in ran <==> CalledIn(s.tasks, n, id)
    ensures forall i, j | 0 <= i < j < |ran| :: ran[i] < ran[j]
  {
    hide Slot, Visited, Progress, Calls, Due;
    var m := SlotsAfter(s, n - 1);
    SlotsProgress(s, n - 1);
    SlotIsVisit(m);
    ProgressStep(s, m, Slot(m), n - 1);
    DueExact(m.tasks, |m.tasks|);
    ran := Due(m.tasks, |m.tasks|);
  }

  // ---------- closed form, from registration ----------

  ghost predicate AllFresh(s: Table) {
    && s.scheduled == 0 && s.missed == 0
    && forall i | 0 <= i < |s.tasks| ::
         Fresh(s.tasks[i]) && s.tasks[i].semaphore == 0 && (s.tasks[i].kind == Periodic ==> s.tasks[i].period >= 1)
  }

  /** A periodic task that can be scheduled at all. */
  predicate Live(t: Task) {
    t.kind == Periodic && t.period >= 1 && t.heartbeat >= 1
  }

  /** Slot n gives a token to exactly the live periodic tasks whose period divides n. */
  lemma GivenInSlot(s: Table, n: nat, i: nat)
    requires AllFresh(s) && n >= 1 && i < |s.tasks| && s.tasks[i].kind == Periodic
    ensures SlotsAfter(s, n).tasks[i].semaphore == SlotsAfter(s, n - 1).tasks[i].semaphore
              + (if Live(s.tasks[i]) && n % s.tasks[i].period == 0 then 1 else 0)
    ensures SlotsAfter(s, n).tasks[i].semaphore == if Live(s.tasks[i]) then n / s.tasks[i].period else 0
  {
    hide SlotsAfter, Update, After;
    SlotsProgress(s, n);
    SlotsProgress(s, n - 1);
    PeriodicTicks(s.tasks[i], n);
    PeriodicCounts(s.tasks[i], n);
  }

  /** The loop that ends the scheduler after n slots gives every periodic task one more token, and nothing else. */
  lemma LastTokens(s: Table, n: nat, i: nat)
    requires AllFresh(s) && i < |s.tasks|
    ensures var before, end := SlotsAfter(s, n), Released(SlotsAfter(s, n), |s.tasks|);
            && end == before.(tasks := end.tasks) && |end.tasks| == |s.tasks|
            && (s.tasks[i].kind != Periodic ==> end.tasks[i] == before.tasks[i])
            && (s.tasks[i].kind == Periodic ==>
                  && end.tasks[i] == before.tasks[i].(semaphore := end.tasks[i].semaphore)
                  && end.tasks[i].semaphore == 1 + if Live(s.tasks[i]) then n / s.tasks[i].period else 0)
  {
    hide SlotsAfter, Update, After;
    SlotsProgress(s, n);
    NextOfNext(s.tasks[i], n);
    if s.tasks[i].kind == Periodic {
      PeriodicCounts(s.tasks[i], n);
    }
  }

  /** Slot n runs exactly the callbacks whose period divides n. */
  lemma CalledInSlot(s: Table, n: nat, i: nat)
    requires AllFresh(s) && n >= 1
    ensures CalledIn(s.tasks, n, i) <==>
            i < |s.tasks| && s.tasks[i].kind == Callback && s.tasks[i].hasFunction
            && n % EffectivePeriod(s.tasks[i].period) == 0
  {
    if i < |s.tasks| && s.tasks[i].kind == Callback {
      CallbackTicks(s.tasks[i], n);
    }
  }

  /** After n slots the scheduled bits are those of the live periodic tasks with a period up to n. */
  lemma ScheduledBits(s: Table, n: nat, i: nat)
    requires AllFresh(s)
    ensures Bit(SlotsAfter(s, n).scheduled, i) <==>
            i < |s.tasks| && i < BITFIELD_BITS && Live(s.tasks[i]) && n >= s.tasks[i].period
  {
    hide SlotsAfter, Update, After;
    SlotsProgress(s, n);
    ZeroHasNoBit(i);
    if i < |s.tasks| && s.tasks[i].kind == Periodic {
      PeriodicCounts(s.tasks[i], n);
      QuotientPositive(n, s.tasks[i].period);
    }
  }

  /** When a task has missed at least one heartbeat by slot n. */
  predicate HasMissed(t: Task, n: nat) {
    match t.kind
    case Periodic => if t.heartbeat == 0 then n >= 1 else t.heartbeat < t.period && n >= t.heartbeat
    case EventDriven => n >= 1 && n >= t.heartbeat
    case _ => false
  }

  /** After n slots the missed bits are those of the tasks that have gone a heartbeat without a schedule. */
  lemma MissedBits(s: Table, n: nat, i: nat)
    requires AllFresh(s)
    ensures Bit(SlotsAfter(s, n).missed, i) <==>
            i < |s.tasks| && i < BITFIELD_BITS && HasMissed(s.tasks[i], n)
  {
    hide SlotsAfter, Update, After;
    SlotsProgress(s, n);
    ZeroHasNoBit(i);
    if i < |s.tasks| {
      MissedEver(s.tasks[i], n);
    }
  }

  lemma {:induction false} MissedEver(t: Task, n: nat)
    requires Fresh(t) && (t.kind == Periodic ==> t.period >= 1)
    ensures Times(t, MissedHeartbeat, n) > 0 <==> HasMissed(t, n)
    decreases n
  {
    hide After, Update, StatusAt;
    if n > 0 {
      MissedEver(t, n - 1);
      match t.kind
      case Periodic =>
        PeriodicTicks(t, n);
        if n < t.period { UniqueRemainder(n, t.period, 0, n); }
      case EventDriven => EventTicks(t, n);
      case Callback => CallbackTicks(t, n);
      case _ => PassiveTicks(t, n);
    }
  }
}
