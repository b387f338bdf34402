/** One entry of the task table, and what one schedule slot does to it. */
module Tasks {
  import opened Basics
  import opened Arithmetic

  datatype TaskKind = Unregistered | Periodic | EventDriven | Callback | Monitor

  datatype TaskStatus = Wait | Schedule | MissedHeartbeat | Error

  /** `semaphore` counts the tokens given and not yet taken. */
  datatype Task = Task(kind: TaskKind, period: uint32, heartbeat: uint32, ticks: uint32,
                       hasFunction: bool, semaphore: nat)

  /** tm_update_task: a heartbeat that is due replaces the schedule it falls on. */
  function Update(t: Task): (Task, TaskStatus) {
    var ticks := Increment32(t.ticks);
    match t.kind
    case Unregistered => (t.(ticks := ticks), TaskStatus.Error)
    case Periodic =>
      var left := if ticks == t.period then 0 else ticks;
      (t.(ticks := left),
       if left >= t.heartbeat then MissedHeartbeat else if ticks == t.period then Schedule else Wait)
    case EventDriven => (t.(ticks := ticks), if ticks >= t.heartbeat then MissedHeartbeat else Wait)
    case Callback => if ticks == t.period then (t.(ticks := 0), Schedule) else (t.(ticks := ticks), Wait)
    case Monitor => (t.(ticks := ticks), Wait)
  }

  /** The entry after n updates. */
  function After(t: Task, n: nat): Task {
    if n == 0 then t else Update(After(t, n - 1)).0
  }

  /** The status that the n-th update returns. */
  function StatusAt(t: Task, n: nat): TaskStatus
    requires n >= 1
  {
    Update(After(t, n - 1)).1
  }

  /** How many of the first n updates return a status. */
  function Times(t: Task, status: TaskStatus, n: nat): nat {
    if n == 0 then 0 else Times(t, status, n - 1) + (if StatusAt(t, n) == status then 1 else 0)
  }

  // ---------- closed forms ----------

  function Max(a: int, b: int): int {
    if a > b then a else b
  }

  /** What the n-th update of a periodic task returns, counting from its registration. */
  function PeriodicStatus(p: uint32, h: uint32, n: nat): TaskStatus
    requires p >= 1
  {
    if h == 0 then MissedHeartbeat
    else if n % p == 0 then Schedule
    else if n % p >= h then MissedHeartbeat else Wait
  }

  ghost predicate Fresh(t: Task) {
    t.ticks == 0
  }

  lemma UpdatePeriodic(t: Task)
    requires t.kind == Periodic && t.ticks < t.period
    ensures Update(t) ==
            if t.ticks + 1 == t.period then (t.(ticks := 0), if t.heartbeat == 0 then MissedHeartbeat else Schedule)
            else (t.(ticks := t.ticks + 1), if t.ticks + 1 >= t.heartbeat then MissedHeartbeat else Wait)
  {
  }

  lemma {:induction false} PeriodicTicks(t: Task, n: nat)
    requires Fresh(t) && t.kind == Periodic && t.period >= 1
    ensures After(t, n) == t.(ticks := n % t.period)
    ensures n >= 1 ==> StatusAt(t, n) == PeriodicStatus(t.period, t.heartbeat, n)
    decreases n
  {
    hide Update;
    if n == 0 {
      DivModZero(t.period);
    } else {
      PeriodicTicks(t, n - 1);
      DivModStep(n - 1, t.period);
      UpdatePeriodic(After(t, n - 1));
    }
  }

  /** How many heartbeats a periodic task misses in n slots. */
  function MissedCount(p: uint32, h: uint32, n: nat): int
    requires p >= 1
  {
    if h == 0 then n else if h >= p then 0 else (n / p) * (p - h) + Max(0, n % p - h + 1)
  }

  lemma MissedCountStep(p: uint32, h: uint32, n: nat)
    requires p >= 1
    ensures MissedCount(p, h, n + 1) ==
            MissedCount(p, h, n) + (if PeriodicStatus(p, h, n + 1) == MissedHeartbeat then 1 else 0)
    ensures MissedCount(p, h, 0) == 0
  {
    DivModStep(n, p);
    DivModZero(p);
    if 1 <= h < p {
      assert (n / p + 1) * (p - h) == (n / p) * (p - h) + (p - h);
    }
  }

  /** How often a periodic task is scheduled in n slots. */
  function ScheduledCount(p: uint32, h: uint32, n: nat): int
    requires p >= 1
  {
    if h == 0 then 0 else n / p
  }

  lemma ScheduledCountStep(p: uint32, h: uint32, n: nat)
    requires p >= 1
    ensures ScheduledCount(p, h, n + 1) ==
            ScheduledCount(p, h, n) + (if PeriodicStatus(p, h, n + 1) == Schedule then 1 else 0)
    ensures ScheduledCount(p, h, 0) == 0
  {
    DivModStep(n, p);
    DivModZero(p);
  }

  /** The exact number of schedules and of missed heartbeats in n slots. */
  lemma {:induction false} PeriodicCounts(t: Task, n: nat)
    requires Fresh(t) && t.kind == Periodic && t.period >= 1
    ensures Times(t, Schedule, n) == ScheduledCount(t.period, t.heartbeat, n)
    ensures Times(t, MissedHeartbeat, n) == MissedCount(t.period, t.heartbeat, n)
    decreases n
  {
    hide StatusAt, ScheduledCount, MissedCount, PeriodicStatus;
    ScheduledCountStep(t.period, t.heartbeat, if n == 0 then 0 else n - 1);
    MissedCountStep(t.period, t.heartbeat, if n == 0 then 0 else n - 1);
    if n > 0 {
      PeriodicTicks(t, n);
      PeriodicCounts(t, n - 1);
    }
  }

  /** An event task is never reset: its ticks wrap around, and it misses from its heartbeat on. */
  lemma {:induction false} EventTicks(t: Task, n: nat)
    requires Fresh(t) && t.kind == EventDriven
    ensures After(t, n) == t.(ticks := Wrap32(n))
    ensures n >= 1 ==> StatusAt(t, n) == if Wrap32(n) >= t.heartbeat then MissedHeartbeat else Wait
    decreases n
  {
    hide Wrap32;
    WrapAdd(0, 0);
    if n > 0 {
      EventTicks(t, n - 1);
      WrapAdd(n - 1, 1);
    }
  }

  /** A callback with period 0 fires only when its ticks wrap around to 0. */
  function EffectivePeriod(p: uint32): (q: nat)
    ensures 1 <= q <= 0x1_0000_0000
  {
    if p == 0 then 0x1_0000_0000 else p
  }

  lemma UpdateCallback(t: Task)
    requires t.kind == Callback && t.ticks < EffectivePeriod(t.period)
    ensures Update(t) ==
            if t.ticks + 1 == EffectivePeriod(t.period) then (t.(ticks := 0), Schedule)
            else (t.(ticks := t.ticks + 1), Wait)
  {
  }

  /** A callback fires exactly in the slots that its period divides. */
  lemma {:induction false} CallbackTicks(t: Task, n: nat)
    requires Fresh(t) && t.kind == Callback
    ensures n % EffectivePeriod(t.period) < 0x1_0000_0000
    ensures After(t, n) == t.(ticks := n % EffectivePeriod(t.period))
    ensures n >= 1 ==> StatusAt(t, n) == if n % EffectivePeriod(t.period) == 0 then Schedule else Wait
    decreases n
  {
    hide Update, EffectivePeriod;
    ModBound(n, EffectivePeriod(t.period));
    if n == 0 {
      DivModZero(EffectivePeriod(t.period));
    } else {
      CallbackTicks(t, n - 1);
      UpdateCallback(After(t, n - 1));
      DivModStep(n - 1, EffectivePeriod(t.period));
    }
  }

  lemma {:induction false} SameEntry(t: Task, n: nat)
    ensures After(t, n) == t.(ticks := After(t, n).ticks)
    decreases n
  {
    if n > 0 {
      SameEntry(t, n - 1);
    }
  }

  /** Unregistered and monitored tasks only count: they are neither scheduled nor missed. */
  lemma {:induction false} PassiveTicks(t: Task, n: nat)
    requires t.kind == Unregistered || t.kind == Monitor
    ensures Times(t, Schedule, n) == 0 && Times(t, MissedHeartbeat, n) == 0
    ensures After(t, n) == t.(ticks := Wrap32(t.ticks + n))
    ensures n >= 1 ==> StatusAt(t, n) == if t.kind == Unregistered then TaskStatus.Error else Wait
    decreases n
  {
    hide Wrap32;
    WrapAdd(t.ticks, 0);
    if n > 0 {
      PassiveTicks(t, n - 1);
      WrapAdd(t.ticks + (n - 1), 1);
    }
  }
}
