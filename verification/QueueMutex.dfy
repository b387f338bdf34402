/** Whether a call gives the mutex back: the two readings of a wait that fails, over whole runs. */
module QueueMutex {
  import opened Basics
  import opened Rings
  import opened QueueProtocol
  import opened QueueLimits

  /** How often in a run a failed wait of thread t has locked the mutex again. */
  function FailedBy(cfg: Config, s: State, actions: seq<Action>, t: ThreadId): nat
    decreases |actions|
  {
    if actions == [] || Apply(cfg, s, actions[0]).None? then 0 else
    (if actions[0] == Reacquire(t) && s.threads[t].GivingUp? then 1 else 0)
    + FailedBy(cfg, Apply(cfg, s, actions[0]).value, actions[1..], t)
  }

  lemma StepKept(cfg: Config, s: State, a: Action)
    requires LockInv(cfg, s) && Apply(cfg, s, a).Some?
    ensures var s' := Apply(cfg, s, a).value;
            if a.Reacquire? && s.threads[a.t].GivingUp? then s'.kept == s.kept + 1 && s'.owner == Some(a.t)
            else s'.kept == s.kept
  {
    hide Moved, MayRun, MayWake, Blocked;
  }

  /** Once a call has kept the mutex, its owner never changes. */
  lemma {:induction false} KeptStays(cfg: Config, s: State, actions: seq<Action>)
    requires LockInv(cfg, s) && s.kept > 0 && Run(cfg, s, actions).Some?
    ensures Run(cfg, s, actions).value.owner == s.owner
    decreases |actions|
  {
    if actions != [] {
      LockInvStep(cfg, s, actions[0]);
      KeptStays(cfg, Apply(cfg, s, actions[0]).value, actions[1..]);
    }
  }

  lemma {:induction false} FailedIsKept(cfg: Config, s: State, actions: seq<Action>, t: ThreadId)
    requires LockInv(cfg, s) && Run(cfg, s, actions).Some?
    ensures var s' := Run(cfg, s, actions).value;
            s'.kept >= s.kept && FailedBy(cfg, s, actions, t) == if s'.owner == Some(t) then s'.kept - s.kept else 0
    decreases |actions|
  {
    hide LockInv;
    if actions != [] {
      var a, rest := actions[0], actions[1..];
      StepKept(cfg, s, a);
      LockInvStep(cfg, s, a);
      var s1 := Apply(cfg, s, a).value;
      FailedIsKept(cfg, s1, rest, t);
      if a.Reacquire? && s.threads[a.t].GivingUp? {
        KeptStays(cfg, s1, rest);
      }
    }
  }

  /**
   * The exact depth of the mutex after any run: one level for an owner in a critical section, and
   * one more for every failed wait of the owner that has locked it again.
   */
  lemma MutexDepth(cfg: Config, s: State, actions: seq<Action>)
    requires Initial(s) && Run(cfg, s, actions).Some?
    ensures var s' := Run(cfg, s, actions).value;
            && (s'.owner.None? ==> s'.depth == 0 && forall t: ThreadId :: FailedBy(cfg, s, actions, t) == 0)
            && (s'.owner.Some? ==>
                  && s'.owner.value < |s'.threads|
                  && s'.depth == FailedBy(cfg, s, actions, s'.owner.value)
                                 + (if Holds(s'.threads[s'.owner.value]) then 1 else 0)
                  && forall t: ThreadId | t != s'.owner.value :: FailedBy(cfg, s, actions, t) == 0)
  {
    InitialLockInv(cfg, s);
    LockInvRun(cfg, s, actions);
    forall t: ThreadId {
      FailedIsKept(cfg, s, actions, t);
    }
    var s' := Run(cfg, s, actions).value;
    if s'.owner.Some? {
      FailedIsKept(cfg, s, actions, s'.owner.value);
    }
  }

  /** A call returns with the mutex exactly when a failed wait of its thread has locked it again before. */
  lemma ReturnReleases(cfg: Config, s: State, actions: seq<Action>, t: ThreadId)
    requires Initial(s) && Run(cfg, s, actions).Some? && Apply(cfg, Run(cfg, s, actions).value, Return(t)).Some?
    ensures var end := Apply(cfg, Run(cfg, s, actions).value, Return(t)).value;
            end.owner == Some(t) <==> FailedBy(cfg, s, actions, t) > 0
  {
    InitialLockInv(cfg, s);
    LockInvRun(cfg, s, actions);
    FailedIsKept(cfg, s, actions, t);
  }

  /** From the first such wait on, no other thread ever enters a critical section again. */
  lemma KeptForever(cfg: Config, s: State, first: seq<Action>, rest: seq<Action>, t: ThreadId)
    requires Initial(s) && Run(cfg, s, first).Some? && FailedBy(cfg, s, first, t) > 0
    requires Run(cfg, Run(cfg, s, first).value, rest).Some?
    ensures var end := Run(cfg, Run(cfg, s, first).value, rest).value;
            end.owner == Some(t) && forall u | 0 <= u < |end.threads| && Holds(end.threads[u]) :: u == t
  {
    InitialLockInv(cfg, s);
    LockInvRun(cfg, s, first);
    FailedIsKept(cfg, s, first, t);
    KeptStays(cfg, Run(cfg, s, first).value, rest);
    LockInvRun(cfg, Run(cfg, s, first).value, rest);
  }

  /** A call that waits, fails, and returns with the mutex still locked. */
  lemma FailedCall(cfg: Config, s: State, t: ThreadId, op: Op) returns (actions: seq<Action>)
    requires Quiet(s) && cfg.reacquire && t < |s.threads| && s.threads[t] == Idle
    requires MayRun(cfg, s.ring, t, op) && Blocked(s.ring, op)
    ensures Run(cfg, s, actions) == Some(s.(owner := Some(t), depth := 1, kept := 1))
  {
    hide MayRun, Blocked, Ring.Allocated;
    var block, fail := [Begin(t, op), Lock(t), Check(t)], [FailWait(t), Reacquire(t), Return(t)];
    CallBlocks(cfg, s, t, op);
    var s1 := At(s, t, Waiting(op));
    var s2 := At(s1, t, GivingUp(op));
    var s3 := At(Locked(s2, t), t, Leaving(false)).(kept := 1);
    var s4 := At(s3, t, Idle);
    Unfold(cfg, s3, Return(t), []);
    Unfold(cfg, s2, Reacquire(t), [Return(t)]);
    Unfold(cfg, s1, FailWait(t), [Reacquire(t), Return(t)]);
    assert s4.threads == s.threads;
    RunConcat(cfg, s, block, fail);
    actions := block + fail;
  }

  /** The run that shows it: all calls have returned, and the mutex is locked. */
  lemma MutexKept(cfg: Config, s: State, t: ThreadId) returns (actions: seq<Action>)
    requires Initial(s) && cfg.reacquire && t < |s.threads| && (t in cfg.senders || t in cfg.receivers)
    ensures Run(cfg, s, actions).Some?
    ensures var end := Run(cfg, s, actions).value; end.threads == s.threads && end.owner == Some(t) && end.depth == 1
  {
    hide BufferOffset, AllocationSize, SlotsFit, Wrap, Wrap32, Overwrite, Ring.Slot;
    if t in cfg.receivers {
      actions := FailedCall(cfg, s, t, ReceiveOp);
    } else {
      var fill := Fill(cfg, s, t, s.ring.numMsgs);
      var fail := FailedCall(cfg, Run(cfg, s, fill).value, t, SendOp([]));
      RunConcat(cfg, s, fill, fail);
      actions := fill + fail;
    }
  }

  /** No thread outside a call holds the mutex. */
  ghost predicate Released(cfg: Config, s: State, actions: seq<Action>) {
    Run(cfg, s, actions).Some? ==>
      var end := Run(cfg, s, actions).value;
      forall t | 0 <= t < |end.threads| && end.threads[t] == Idle :: end.owner != Some(t)
  }

  /** Every call of every run gives the mutex back exactly when a failed wait does not lock it again. */
  lemma MutexReleasedIff(cfg: Config, s: State)
    requires Initial(s) && cfg.senders + cfg.receivers != {}
    requires forall t | t in cfg.senders || t in cfg.receivers :: t < |s.threads|
    ensures (forall actions: seq<Action> :: Released(cfg, s, actions)) <==> !cfg.reacquire
  {
    hide Initial;
    if cfg.reacquire {
      var t :| t in cfg.senders + cfg.receivers;
      var bad := MutexKept(cfg, s, t);
      assert s.threads[t] == Idle by { InitialIdle(s, t); }
      assert !Released(cfg, s, bad);
    } else {
      forall actions: seq<Action> ensures Released(cfg, s, actions) {
        if Run(cfg, s, actions).Some? {
          InitialLockInv(cfg, s);
          LockInvRun(cfg, s, actions);
        }
      }
    }
  }

  lemma InitialIdle(s: State, t: ThreadId)
    requires Initial(s) && t < |s.threads|
    ensures s.threads[t] == Idle
  {
  }
}
