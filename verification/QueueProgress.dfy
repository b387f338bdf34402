/** That calls end: how many steps they take, that somebody can always go on, and how a failed wait returns. */
module QueueProgress {
  import opened Basics
  import opened Rings
  import opened QueueProtocol

  // ---------- what every run keeps ----------

  /** Every call in progress is one that may run, on a queue that is still allocated. */
  ghost predicate CallsInv(cfg: Config, s: State) {
    && LockInv(cfg, s) && s.ring.Allocated()
    && forall t | 0 <= t < |s.threads| && !s.threads[t].Idle? && !s.threads[t].Leaving? ::
         MayRun(cfg, s.ring, t, s.threads[t].op)
  }

  lemma CallsInvStep(cfg: Config, s: State, a: Action)
    requires CallsInv(cfg, s) && Apply(cfg, s, a).Some?
    ensures CallsInv(cfg, Apply(cfg, s, a).value) && |Apply(cfg, s, a).value.threads| == |s.threads|
  {
    hide BufferOffset, AllocationSize, SlotsFit, Wrap, Wrap32, Overwrite, Ring.Slot, LockInv, MayWake, Blocked;
    LockInvStep(cfg, s, a);
  }

  lemma {:induction false} CallsInvRun(cfg: Config, s: State, actions: seq<Action>)
    requires CallsInv(cfg, s) && Run(cfg, s, actions).Some?
    ensures CallsInv(cfg, Run(cfg, s, actions).value)
    decreases |actions|
  {
    hide CallsInv, Apply;
    if actions != [] {
      CallsInvStep(cfg, s, actions[0]);
      CallsInvRun(cfg, Apply(cfg, s, actions[0]).value, actions[1..]);
    }
  }

  lemma InitialCallsInv(cfg: Config, s: State)
    requires Initial(s)
    ensures CallsInv(cfg, s)
  {
    hide BufferOffset, AllocationSize, SlotsFit, Wrap;
  }

  // ---------- how far a call has to go ----------

  /**
   * A bound on the steps that are left of a call: without repeated checks in all runs, with them as
   * long as nobody is woken.
   */
  function StepsLeft(pc: Pc, recheck: bool): nat {
    match pc
    case Idle => 0
    case Locking(_) => 7
    case Checking(_) => 6
    case Waiting(_) => 5
    case Resuming(_) => if recheck then 7 else 4
    case Moving(_) => 3
    case GivingUp(_) => 2
    case Signalling(_) => 2
    case Leaving(_) => 1
  }

  function TotalLeft(threads: seq<Pc>, recheck: bool): nat {
    if threads == [] then 0 else StepsLeft(threads[0], recheck) + TotalLeft(threads[1..], recheck)
  }

  lemma {:induction false} TotalOfUpdate(threads: seq<Pc>, t: nat, pc: Pc, recheck: bool)
    requires t < |threads|
    ensures TotalLeft(threads[t := pc], recheck) ==
            TotalLeft(threads, recheck) - StepsLeft(threads[t], recheck) + StepsLeft(pc, recheck)
    decreases threads
  {
    if t == 0 {
      assert threads[0 := pc][1..] == threads[1..];
    } else {
      assert threads[t := pc][1..] == threads[1..][t - 1 := pc];
      TotalOfUpdate(threads[1..], t - 1, pc, recheck);
    }
  }

  lemma {:induction false} TotalOrder(a: seq<Pc>, b: seq<Pc>)
    requires |a| == |b| && forall t | 0 <= t < |a| :: StepsLeft(a[t], false) <= StepsLeft(b[t], false)
    ensures TotalLeft(a, false) <= TotalLeft(b, false)
    decreases |a|
  {
    if a != [] {
      TotalOrder(a[1..], b[1..]);
    }
  }

  lemma StepCosts(cfg: Config, s: State, a: Action)
    requires !cfg.recheck && Apply(cfg, s, a).Some?
    ensures TotalLeft(Apply(cfg, s, a).value.threads, false) <=
            TotalLeft(s.threads, false) + (if a.Begin? then 7 else -1)
  {
    hide Moved, MayRun, MayWake, Blocked, TotalLeft, Ring.Allocated;
    var s' := Apply(cfg, s, a).value;
    if a.Signal? {
      var woken := Woken(s.threads, a.woken);
      TotalOrder(woken, s.threads);
      TotalOfUpdate(woken, a.t, Leaving(true), false);
    } else {
      TotalOfUpdate(s.threads, a.t, s'.threads[a.t], false);
    }
  }

  function Begins(actions: seq<Action>): nat {
    if actions == [] then 0 else (if actions[0].Begin? then 1 else 0) + Begins(actions[1..])
  }

  /** No call takes more than eight steps, whatever the threads do and in whatever order. */
  lemma {:induction false} StepsAreBounded(cfg: Config, s: State, actions: seq<Action>)
    requires !cfg.recheck && Run(cfg, s, actions).Some?
    ensures |actions| + TotalLeft(Run(cfg, s, actions).value.threads, false) <=
            TotalLeft(s.threads, false) + 8 * Begins(actions)
    decreases |actions|
  {
    hide Apply, TotalLeft;
    if actions != [] {
      StepCosts(cfg, s, actions[0]);
      StepsAreBounded(cfg, Apply(cfg, s, actions[0]).value, actions[1..]);
    }
  }

  lemma {:induction false} NothingLeft(threads: seq<Pc>)
    requires forall t | 0 <= t < |threads| :: threads[t] == Idle
    ensures TotalLeft(threads, false) == 0
    decreases |threads|
  {
    if threads != [] {
      NothingLeft(threads[1..]);
    }
  }

  /** As the source has its waits, a run of n calls has at most 8 * n steps: nobody goes round for ever. */
  lemma CallsAreShort(cfg: Config, s: State, actions: seq<Action>)
    requires !cfg.recheck && Initial(s) && Run(cfg, s, actions).Some?
    ensures |actions| <= 8 * Begins(actions)
  {
    NothingLeft(s.threads);
    StepsAreBounded(cfg, s, actions);
  }

  // ---------- all calls can end ----------

  ghost predicate Quiescent(s: State) {
    forall t | 0 <= t < |s.threads| :: s.threads[t] == Idle
  }

  /** The thread that goes next: one that waits and gives up, else the owner of the mutex, else any. */
  lemma NextThread(cfg: Config, s: State) returns (t: ThreadId)
    requires CallsInv(cfg, s) && !cfg.reacquire && !Quiescent(s)
    ensures t < |s.threads| && s.threads[t] != Idle
    ensures s.threads[t].Waiting? || forall u | 0 <= u < |s.threads| :: !s.threads[u].Waiting?
    ensures s.threads[t].Waiting? || s.owner == None || (s.owner == Some(t) && Holds(s.threads[t]))
  {
    hide MayRun, Ring.Allocated;
    if u: nat :| u < |s.threads| && s.threads[u].Waiting? {
      t := u;
    } else if s.owner.Some? {
      t := s.owner.value;
    } else {
      t :| t < |s.threads| && s.threads[t] != Idle;
    }
  }

  /** Its step; a signal finds nobody waiting. */
  function NextAction(pc: Pc, t: ThreadId): Action
    requires !pc.Idle?
  {
    match pc
    case Locking(_) => Lock(t)
    case Checking(_) => Check(t)
    case Waiting(_) => FailWait(t)
    case Resuming(_) => Reacquire(t)
    case GivingUp(_) => Reacquire(t)
    case Moving(_) => Move(t)
    case Signalling(_) => Signal(t, {})
    case Leaving(_) => Return(t)
  }

  /** Somebody can always go on, and everybody comes closer to the end. */
  lemma NextStep(cfg: Config, s: State) returns (a: Action)
    requires CallsInv(cfg, s) && !cfg.reacquire && !Quiescent(s)
    ensures !a.Begin? && Apply(cfg, s, a).Some?
    ensures TotalLeft(Apply(cfg, s, a).value.threads, cfg.recheck) < TotalLeft(s.threads, cfg.recheck)
  {
    hide Moved, MayRun, Blocked, TotalLeft, Ring.Allocated;
    var t := NextThread(cfg, s);
    a := NextAction(s.threads[t], t);
    assert Apply(cfg, s, a).Some?;
    var s' := Apply(cfg, s, a).value;
    assert a.Signal? ==> Woken(s.threads, {}) == s.threads;
    TotalOfUpdate(s.threads, t, s'.threads[t], cfg.recheck);
  }

  lemma {:induction false} AllReturn(cfg: Config, s: State) returns (actions: seq<Action>)
    requires CallsInv(cfg, s) && !cfg.reacquire
    ensures Run(cfg, s, actions).Some? && Begins(actions) == 0
    ensures var end := Run(cfg, s, actions).value; Quiescent(end) && end.owner == None && end.depth == 0
    decreases TotalLeft(s.threads, cfg.recheck)
  {
    hide Apply, TotalLeft, MayRun, Ring.Allocated;
    if Quiescent(s) {
      actions := [];
    } else {
      var a := NextStep(cfg, s);
      CallsInvStep(cfg, s, a);
      var rest := AllReturn(cfg, Apply(cfg, s, a).value);
      actions := [a] + rest;
      assert actions[1..] == rest;
    }
  }

  /**
   * If a failed wait does not hold the mutex, every run of every configuration can be continued,
   * without any new call, until all calls have returned and the mutex is free.
   */
  lemma CallsComplete(cfg: Config, s: State, past: seq<Action>) returns (actions: seq<Action>)
    requires Initial(s) && !cfg.reacquire && Run(cfg, s, past).Some?
    ensures Begins(actions) == 0 && Run(cfg, s, past + actions).Some?
    ensures var end := Run(cfg, s, past + actions).value;
            && |end.threads| == |s.threads| && Quiescent(end) && end.owner == None && end.depth == 0
  {
    InitialCallsInv(cfg, s);
    CallsInvRun(cfg, s, past);
    actions := AllReturn(cfg, Run(cfg, s, past).value);
    RunConcat(cfg, s, past, actions);
    SameShape(cfg, s, past + actions);
  }

  /** So when only new calls are possible, there is no call left that has not returned. */
  lemma NoCallIsStuck(cfg: Config, s: State, past: seq<Action>)
    requires Initial(s) && !cfg.reacquire && Run(cfg, s, past).Some?
    requires forall a: Action :: Apply(cfg, Run(cfg, s, past).value, a).Some? ==> a.Begin?
    ensures Quiescent(Run(cfg, s, past).value)
  {
    InitialCallsInv(cfg, s);
    CallsInvRun(cfg, s, past);
    if !Quiescent(Run(cfg, s, past).value) {
      var a := NextStep(cfg, Run(cfg, s, past).value);
    }
  }

  /** Everybody who waits on the side that a call signals. */
  function Waiters(threads: seq<Pc>, op: Op): set<ThreadId> {
    set w | 0 <= w < |threads| && WaitsFor(threads[w], op)
  }

  ghost predicate CanStep(cfg: Config, s: State, t: ThreadId) {
    exists a: Action :: a.t == t && Apply(cfg, s, a).Some?
  }

  /**
   * In every run of every configuration a thread is blocked exactly when it needs the mutex and
   * another thread holds it; its own mutex it may lock again. A thread outside a call may begin
   * every call that its role and the size of the message allow.
   */
  lemma BlockedByMutexOnly(cfg: Config, s: State, past: seq<Action>, t: ThreadId, op: Op)
    requires Initial(s) && Run(cfg, s, past).Some? && t < |Run(cfg, s, past).value.threads|
    ensures var s' := Run(cfg, s, past).value;
            var pc := s'.threads[t];
            && (pc.Idle? ==> (Apply(cfg, s', Begin(t, op)).Some? <==> MayRun(cfg, s'.ring, t, op)))
            && (!pc.Idle? ==>
                  (CanStep(cfg, s', t) <==>
                     ((pc.Locking? || pc.Resuming? || pc.GivingUp?) ==> s'.owner == None || s'.owner == Some(t))))
  {
    InitialCallsInv(cfg, s);
    CallsInvRun(cfg, s, past);
    if !Run(cfg, s, past).value.threads[t].Idle? {
      StepPossible(cfg, Run(cfg, s, past).value, t);
    }
  }

  lemma StepPossible(cfg: Config, s: State, t: ThreadId)
    requires CallsInv(cfg, s) && t < |s.threads| && !s.threads[t].Idle?
    ensures CanStep(cfg, s, t) <==>
            ((s.threads[t].Locking? || s.threads[t].Resuming? || s.threads[t].GivingUp?) ==> Available(s, t))
  {
    hide Moved, MayRun, Blocked, Ring.Allocated;
    var pc := s.threads[t];
    if pc.Signalling? {
      var woken := Waiters(s.threads, pc.op);
      assert forall w | 0 <= w < |s.threads| && WaitsFor(s.threads[w], pc.op) :: w in woken;
      assert Apply(cfg, s, Signal(t, woken)).Some?;
    } else if (pc.Locking? || pc.Resuming? || pc.GivingUp?) && !Available(s, t) {
      assert forall a: Action | a.t == t :: Apply(cfg, s, a).None?;
    } else {
      assert Apply(cfg, s, NextAction(pc, t)).Some?;
    }
  }

  // ---------- a wait that fails ----------

  /** Two steps if the mutex is not locked again. */
  lemma FailedWaitLeaves(cfg: Config, s: State, t: ThreadId)
    requires t < |s.threads| && s.threads[t].Waiting? && !cfg.reacquire
    ensures Run(cfg, s, [FailWait(t), Return(t)]) == Some(s.(threads := s.threads[t := Idle]))
  {
    hide MayRun, MayWake, Moved, Blocked, Ring.Allocated;
    var s1 := At(s, t, Leaving(false));
    Unfold(cfg, s, FailWait(t), [Return(t)]);
    Unfold(cfg, s1, Return(t), []);
    assert s1.threads[t := Idle] == s.threads[t := Idle];
  }

  /** Three if it is: the call then keeps it. */
  lemma FailedWaitLocks(cfg: Config, s: State, t: ThreadId)
    requires t < |s.threads| && s.threads[t].Waiting? && cfg.reacquire && Available(s, t)
    ensures Run(cfg, s, [FailWait(t), Reacquire(t), Return(t)]) ==
            Some(s.(threads := s.threads[t := Idle], owner := Some(t), depth := s.depth + 1, kept := s.kept + 1))
  {
    hide MayRun, MayWake, Moved, Blocked, Ring.Allocated;
    var s1 := At(s, t, GivingUp(s.threads[t].op));
    var s2 := At(Locked(s1, t), t, Leaving(false)).(kept := s.kept + 1);
    Unfold(cfg, s, FailWait(t), [Reacquire(t), Return(t)]);
    Unfold(cfg, s1, Reacquire(t), [Return(t)]);
    Unfold(cfg, s2, Return(t), []);
    assert s2.threads[t := Idle] == s.threads[t := Idle];
  }

  /**
   * A call whose wait fails returns by its own next steps, and the queue and what has passed through
   * it stay as they are. If the wait locks the mutex again, the call must get the mutex first, and
   * keeps it.
   */
  lemma FailedWaitReturns(cfg: Config, s: State, t: ThreadId)
    requires t < |s.threads| && s.threads[t].Waiting?
    ensures !cfg.reacquire ==> Run(cfg, s, [FailWait(t), Return(t)]) == Some(s.(threads := s.threads[t := Idle]))
    ensures cfg.reacquire && Available(s, t) ==>
              Run(cfg, s, [FailWait(t), Reacquire(t), Return(t)]) ==
              Some(s.(threads := s.threads[t := Idle], owner := Some(t), depth := s.depth + 1, kept := s.kept + 1))
    ensures cfg.reacquire && !Available(s, t) ==>
              var failed := Apply(cfg, s, FailWait(t));
              failed.Some? && failed.value == s.(threads := failed.value.threads)
              && forall a: Action | a.t == t :: Apply(cfg, failed.value, a).None?
  {
    if !cfg.reacquire {
      hide Run, Apply;
      FailedWaitLeaves(cfg, s, t);
    } else if Available(s, t) {
      hide Run, Apply;
      FailedWaitLocks(cfg, s, t);
    } else {
      hide Run, MayRun, MayWake, Moved, Blocked, Ring.Allocated;
    }
  }
}
