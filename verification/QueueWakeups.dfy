/** Nobody sleeps while there is something to do: what pthread_cond_signal owes to the threads that wait. */
module QueueWakeups {
  import opened Basics
  import opened Rings
  import opened QueueProtocol

  // ---------- one sender, one receiver ----------

  /** Thread u is about to signal those that wait with `op`. */
  predicate Signals(s: State, u: nat, op: Op) {
    u < |s.threads| && s.threads[u].Signalling? && s.threads[u].op.SendOp? != op.SendOp?
  }

  /** A thread that waits has a reason to, or is about to be signalled. */
  ghost predicate WakeInv(cfg: Config, s: State) {
    && (forall t | 0 <= t < |s.threads| && s.threads[t].Waiting? ::
          || Blocked(s.ring, s.threads[t].op)
          || exists u :: Signals(s, u, s.threads[t].op))
    && forall t | 0 <= t < |s.threads| && !s.threads[t].Idle? && !s.threads[t].Leaving? ::
         if s.threads[t].op.SendOp? then t in cfg.senders else t in cfg.receivers
  }

  ghost predicate OneEach(cfg: Config) {
    && (forall a, b | a in cfg.senders && b in cfg.senders :: a == b)
    && (forall a, b | a in cfg.receivers && b in cfg.receivers :: a == b)
  }

  lemma WakeInvSignal(cfg: Config, s: State, a: Action)
    requires OneEach(cfg) && WakeInv(cfg, s) && a.Signal? && Apply(cfg, s, a).Some?
    ensures WakeInv(cfg, Apply(cfg, s, a).value)
  {
    var s' := Apply(cfg, s, a).value;
    // the only thread that could wait is the one on the other side, and it has been woken
    assert forall t | 0 <= t < |s.threads| && t != a.t ::
        s.threads[t].Waiting? ==> WaitsFor(s.threads[t], s.threads[a.t].op);
  }

  lemma WakeInvStep(cfg: Config, s: State, a: Action)
    requires OneEach(cfg) && WakeInv(cfg, s) && Apply(cfg, s, a).Some?
    ensures WakeInv(cfg, Apply(cfg, s, a).value)
  {
    hide Moved, Blocked, Ring.Allocated;
    var s' := Apply(cfg, s, a).value;
    if a.Signal? {
      WakeInvSignal(cfg, s, a);
    } else {
      forall t | 0 <= t < |s.threads| && s'.threads[t].Waiting?
        ensures || Blocked(s'.ring, s'.threads[t].op)
                || exists u :: Signals(s', u, s'.threads[t].op)
      {
        if t != a.t && !Blocked(s.ring, s.threads[t].op) {
          var u :| Signals(s, u, s.threads[t].op);
          assert Signals(s', u, s'.threads[t].op);
        } else if a.Move? {
          assert Signals(s', a.t, s'.threads[t].op);
        }
      }
    }
  }

  lemma {:induction false} WakeInvRun(cfg: Config, s: State, actions: seq<Action>)
    requires OneEach(cfg) && WakeInv(cfg, s) && Run(cfg, s, actions).Some?
    ensures WakeInv(cfg, Run(cfg, s, actions).value)
    decreases |actions|
  {
    if actions != [] {
      WakeInvStep(cfg, s, actions[0]);
      WakeInvRun(cfg, Apply(cfg, s, actions[0]).value, actions[1..]);
    }
  }

  /** With one sender and one receiver no signal is lost: the two never wait for each other. */
  lemma NeverBothWait(cfg: Config, s: State, actions: seq<Action>, x: ThreadId, r: ThreadId)
    requires OneEach(cfg) && Initial(s) && Run(cfg, s, actions).Some?
    requires x in cfg.senders && r in cfg.receivers && x != r
    ensures var s' := Run(cfg, s, actions).value;
            && |s'.threads| == |s.threads|
            && (x < |s.threads| && r < |s.threads| ==> !(s'.threads[x].Waiting? && s'.threads[r].Waiting?))
  {
    hide BufferOffset, AllocationSize, SlotsFit, Wrap, Wrap32, Overwrite, Ring.Slot;
    WakeInvRun(cfg, s, actions);
    SameShape(cfg, s, actions);
  }

  // ---------- any number of threads ----------

  predicate OnSide(pc: Pc, send: bool) {
    !pc.Idle? && !pc.Leaving? && pc.op.SendOp? == send
  }

  /** A thread that is about to use what its side waits for, or about to signal that side. */
  predicate Serves(pc: Pc, send: bool) {
    || ((pc.Resuming? || pc.Checking? || pc.Moving?) && OnSide(pc, send))
    || (pc.Signalling? && OnSide(pc, !send))
  }

  function Serving(threads: seq<Pc>, send: bool): nat {
    if threads == [] then 0 else
    Serving(threads[..|threads| - 1], send) + (if Serves(threads[|threads| - 1], send) then 1 else 0)
  }

  /** Free slots for senders, messages for receivers. */
  function Offered(r: Ring, send: bool): int {
    if send then r.numMsgs - r.numQueued else r.numQueued
  }

  predicate Sleeps(pc: Pc, send: bool) {
    pc.Waiting? && OnSide(pc, send)
  }

  /** While somebody sleeps on a side, what is offered to that side is already spoken for. */
  ghost predicate Covered(s: State, send: bool) {
    (exists t :: 0 <= t < |s.threads| && Sleeps(s.threads[t], send)) ==>
      Offered(s.ring, send) <= Serving(s.threads, send)
  }

  lemma {:induction false} ServingUpdate(threads: seq<Pc>, t: nat, pc: Pc, send: bool)
    requires t < |threads|
    ensures Serving(threads[t := pc], send) + (if Serves(threads[t], send) then 1 else 0)
            == Serving(threads, send) + (if Serves(pc, send) then 1 else 0)
    decreases |threads|
  {
    var k := |threads| - 1;
    if t == k {
      assert threads[t := pc][..k] == threads[..k];
    } else {
      assert threads[t := pc][..k] == threads[..k][t := pc];
      ServingUpdate(threads[..k], t, pc, send);
    }
  }

  lemma {:induction false} ServingGrows(a: seq<Pc>, b: seq<Pc>, send: bool)
    requires |a| == |b| && forall i | 0 <= i < |a| :: Serves(a[i], send) ==> Serves(b[i], send)
    ensures Serving(a, send) <= Serving(b, send)
    ensures (exists i :: 0 <= i < |a| && !Serves(a[i], send) && Serves(b[i], send)) ==>
              Serving(a, send) < Serving(b, send)
    decreases |a|
  {
    if a != [] {
      var k := |a| - 1;
      ServingGrows(a[..k], b[..k], send);
      if i :| 0 <= i < |a| && !Serves(a[i], send) && Serves(b[i], send) {
        assert i < k ==> !Serves(a[..k][i], send) && Serves(b[..k][i], send);
      }
    }
  }

  lemma {:induction false} SomeServer(threads: seq<Pc>, send: bool) returns (u: nat)
    requires Serving(threads, send) > 0
    ensures u < |threads| && Serves(threads[u], send)
    decreases |threads|
  {
    u := |threads| - 1;
    if !Serves(threads[u], send) {
      u := SomeServer(threads[..u], send);
    }
  }

  lemma CoveredSignal(cfg: Config, s: State, a: Action, send: bool)
    requires a.Signal? && Apply(cfg, s, a).Some? && Covered(s, send)
    ensures Covered(Apply(cfg, s, a).value, send)
  {
    var s' := Apply(cfg, s, a).value;
    var woken := Woken(s.threads, a.woken);
    ServingGrows(s.threads, woken, send);
    ServingUpdate(woken, a.t, Leaving(true), send);
    if t :| 0 <= t < |s.threads| && Sleeps(s'.threads[t], send) {
      assert Sleeps(s.threads[t], send);
      if OnSide(s.threads[a.t], !send) {
        assert WaitsFor(s.threads[t], s.threads[a.t].op);
        var w :| w in a.woken;
        assert !Serves(s.threads[w], send) && Serves(woken[w], send);
      }
    }
  }

  lemma CoveredMove(cfg: Config, s: State, a: Action, send: bool)
    requires QueueInv(cfg, s) && a.Move? && Apply(cfg, s, a).Some? && Covered(s, send)
    ensures Covered(Apply(cfg, s, a).value, send)
  {
    hide BufferOffset, AllocationSize, SlotsFit, Wrap, Overwrite, Ring.Slot, Ring.Contents, LockInv;
    var s' := Apply(cfg, s, a).value;
    assert Justified(cfg, s.ring, a.t, s.threads[a.t]);
    ServingUpdate(s.threads, a.t, s'.threads[a.t], send);
    if t :| 0 <= t < |s.threads| && Sleeps(s'.threads[t], send) {
      assert Sleeps(s.threads[t], send);
    }
  }

  lemma CoveredOther(cfg: Config, s: State, a: Action, send: bool)
    requires !a.Signal? && !a.Move? && Apply(cfg, s, a).Some? && Covered(s, send)
    ensures Covered(Apply(cfg, s, a).value, send)
  {
    var s' := Apply(cfg, s, a).value;
    assert s'.ring == s.ring && s'.threads == s.threads[a.t := s'.threads[a.t]];
    ServingUpdate(s.threads, a.t, s'.threads[a.t], send);
    if t :| 0 <= t < |s.threads| && Sleeps(s'.threads[t], send) {
      assert t != a.t ==> Sleeps(s.threads[t], send);
    }
  }

  lemma {:induction false} CoveredRun(cfg: Config, s: State, actions: seq<Action>, send: bool)
    requires Safe(cfg) && QueueInv(cfg, s) && Covered(s, send) && Run(cfg, s, actions).Some?
    ensures Covered(Run(cfg, s, actions).value, send)
    decreases |actions|
  {
    hide QueueInv, Covered, Safe, Apply;
    if actions != [] {
      QueueInvStep(cfg, s, actions[0]);
      match actions[0] {
        case Signal(_, _) => CoveredSignal(cfg, s, actions[0], send);
        case Move(_) => CoveredMove(cfg, s, actions[0], send);
        case _ => CoveredOther(cfg, s, actions[0], send);
      }
      CoveredRun(cfg, Apply(cfg, s, actions[0]).value, actions[1..], send);
    }
  }

  /**
   * No wakeup is lost, for any number of threads: while a thread sleeps although it could go on,
   * another one is about to signal its side, or a thread of its side is awake and on its way.
   */
  lemma NoLostWakeup(cfg: Config, s: State, actions: seq<Action>, t: ThreadId) returns (u: ThreadId)
    requires Safe(cfg) && Initial(s) && Run(cfg, s, actions).Some?
    requires var s' := Run(cfg, s, actions).value;
             t < |s'.threads| && s'.threads[t].Waiting? && !Blocked(s'.ring, s'.threads[t].op)
    ensures var threads := Run(cfg, s, actions).value.threads;
            u < |threads| && Serves(threads[u], threads[t].op.SendOp?)
  {
    InitialQueueInv(cfg, s);
    hide Initial, Safe;
    var s' := Run(cfg, s, actions).value;
    var send := s'.threads[t].op.SendOp?;
    QueueInvRun(cfg, s, actions);
    CoveredRun(cfg, s, actions, send);
    assert Sleeps(s'.threads[t], send);
    u := SomeServer(s'.threads, send);
  }

  lemma InitialQueueInv(cfg: Config, s: State)
    requires Initial(s)
    ensures QueueInv(cfg, s) && Covered(s, true) && Covered(s, false)
  {
    hide BufferOffset, AllocationSize, SlotsFit, Wrap, Overwrite, Ring.Slot;
    assert s.ring.Contents() == [];
  }

  predicate Resting(pc: Pc) {
    pc.Idle? || pc.Waiting?
  }

  /** When all calls in progress are asleep, they wait for what is really not there: never both kinds at once. */
  lemma SleepIsJustified(cfg: Config, s: State, actions: seq<Action>, t: ThreadId, u: ThreadId)
    requires Safe(cfg) && Initial(s) && Run(cfg, s, actions).Some?
    requires var threads := Run(cfg, s, actions).value.threads;
             && t < |threads| && u < |threads| && threads[t].Waiting? && threads[u].Waiting?
             && forall w | 0 <= w < |threads| :: Resting(threads[w])
    ensures var s' := Run(cfg, s, actions).value;
            Blocked(s'.ring, s'.threads[t].op) && s'.threads[t].op.SendOp? == s'.threads[u].op.SendOp?
  {
    InitialQueueInv(cfg, s);
    hide Initial, Safe;
    QueueInvRun(cfg, s, actions);
    var s' := Run(cfg, s, actions).value;
    if !Blocked(s'.ring, s'.threads[t].op) {
      var w := NoLostWakeup(cfg, s, actions, t);
    }
    if !Blocked(s'.ring, s'.threads[u].op) {
      var w := NoLostWakeup(cfg, s, actions, u);
    }
  }
}
