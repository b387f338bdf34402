/** Why the waits must be repeated: whatever the number of slots, every unsafe configuration has a bad run. */
module QueueLimits {
  import opened Basics
  import opened Arithmetic
  import opened Rings
  import opened QueueProtocol

  ghost predicate Quiet(s: State) {
    s.owner == None && s.depth == 0 && s.kept == 0 && s.ring.Allocated()
  }

  function Call(t: ThreadId, op: Op, woken: set<ThreadId>): seq<Action> {
    [Begin(t, op), Lock(t), Check(t), Move(t), Signal(t, woken), Return(t)]
  }

  /** The steps of a call up to its check. */
  lemma CallEnters(cfg: Config, s: State, t: ThreadId, op: Op)
    requires Quiet(s) && t < |s.threads| && s.threads[t] == Idle && MayRun(cfg, s.ring, t, op)
    ensures Run(cfg, s, [Begin(t, op), Lock(t)]) == Some(At(Locked(s, t), t, Checking(op)))
  {
    hide MayRun, Ring.Allocated;
    var s1 := At(s, t, Locking(op));
    Unfold(cfg, s1, Lock(t), []);
    Unfold(cfg, s, Begin(t, op), [Lock(t)]);
    assert s1.threads[t := Checking(op)] == s.threads[t := Checking(op)];
  }

  /** The steps of a call that finds what it needs, from its check on. */
  lemma CallLeaves(cfg: Config, s: State, t: ThreadId, op: Op, woken: set<ThreadId>)
    requires Quiet(s) && t < |s.threads| && s.threads[t] == Idle
    requires MayRun(cfg, s.ring, t, op) && !Blocked(s.ring, op) && MayWake(s, op, woken)
    ensures Run(cfg, At(Locked(s, t), t, Checking(op)), [Check(t), Move(t), Signal(t, woken), Return(t)])
            == Some(Moved(s, op).(threads := Woken(s.threads, woken)))
  {
    var s2 := At(Locked(s, t), t, Checking(op));
    var s3 := At(s2, t, Moving(op));
    assert Apply(cfg, s2, Check(t)) == Some(s3);
    var s4 := At(Moved(s3, op), t, Signalling(op));
    assert Moved(s3, op) == Moved(s, op).(owner := Some(t), depth := 1, threads := s3.threads);
    assert Apply(cfg, s3, Move(t)) == Some(s4);
    hide Moved, Blocked, MayRun, Ring.Allocated;
    assert forall w | 0 <= w < |s.threads| :: WaitsFor(s4.threads[w], op) == WaitsFor(s.threads[w], op);
    var s5 := At(s4.(threads := Woken(s4.threads, woken)), t, Leaving(true));
    assert Apply(cfg, s4, Signal(t, woken)) == Some(s5);
    var s6 := At(Unlocked(s5), t, Idle);
    assert s6.threads == Woken(s.threads, woken);
    Unfold(cfg, s5, Return(t), []);
    Unfold(cfg, s4, Signal(t, woken), [Return(t)]);
    Unfold(cfg, s3, Move(t), [Signal(t, woken), Return(t)]);
    Unfold(cfg, s2, Check(t), [Move(t), Signal(t, woken), Return(t)]);
  }

  /** A whole call that finds what it needs, waking `woken`. */
  lemma CallRuns(cfg: Config, s: State, t: ThreadId, op: Op, woken: set<ThreadId>)
    requires Quiet(s) && t < |s.threads| && s.threads[t] == Idle
    requires MayRun(cfg, s.ring, t, op) && !Blocked(s.ring, op) && MayWake(s, op, woken)
    ensures Run(cfg, s, Call(t, op, woken)) == Some(Moved(s, op).(threads := Woken(s.threads, woken)))
  {
    hide Moved, Blocked, MayRun, MayWake, Woken, Run, Ring.Allocated;
    CallEnters(cfg, s, t, op);
    CallLeaves(cfg, s, t, op, woken);
    RunConcat(cfg, s, [Begin(t, op), Lock(t)], [Check(t), Move(t), Signal(t, woken), Return(t)]);
    assert [Begin(t, op), Lock(t)] + [Check(t), Move(t), Signal(t, woken), Return(t)] == Call(t, op, woken);
  }

  /** A call that finds the queue full or empty, up to its wait. */
  lemma CallBlocks(cfg: Config, s: State, t: ThreadId, op: Op)
    requires Quiet(s) && t < |s.threads| && s.threads[t] == Idle
    requires MayRun(cfg, s.ring, t, op) && Blocked(s.ring, op)
    ensures Run(cfg, s, [Begin(t, op), Lock(t), Check(t)]) == Some(At(s, t, Waiting(op)))
  {
    CallEnters(cfg, s, t, op);
    var s2 := At(Locked(s, t), t, Checking(op));
    Unfold(cfg, s2, Check(t), []);
    RunConcat(cfg, s, [Begin(t, op), Lock(t)], [Check(t)]);
    assert [Begin(t, op), Lock(t)] + [Check(t)] == [Begin(t, op), Lock(t), Check(t)];
    assert s2.threads[t := Waiting(op)] == s.threads[t := Waiting(op)];
  }

  /** Without a second check, a woken call moves its message whatever it finds. */
  lemma CallResumes(cfg: Config, s: State, t: ThreadId)
    requires Quiet(s) && t < |s.threads| && s.threads[t].Resuming? && !cfg.recheck
    requires MayRun(cfg, s.ring, t, s.threads[t].op)
    ensures var end := Run(cfg, s, [Reacquire(t), Move(t)]);
            end.Some? && end.value.ring == Moved(s, s.threads[t].op).ring
  {
    var op := s.threads[t].op;
    var s1 := At(Locked(s, t), t, Moving(op));
    Unfold(cfg, s1, Move(t), []);
    Unfold(cfg, s, Reacquire(t), [Move(t)]);
  }

  lemma {:induction false} Fill(cfg: Config, s: State, t: ThreadId, n: nat) returns (actions: seq<Action>)
    requires Quiet(s) && t in cfg.senders && t < |s.threads|
    requires forall w | 0 <= w < |s.threads| :: s.threads[w] == Idle
    requires s.ring.numQueued + n <= s.ring.numMsgs
    ensures var end := Run(cfg, s, actions);
            && end.Some? && Quiet(end.value) && end.value.threads == s.threads
            && end.value.ring.numMsgs == s.ring.numMsgs && end.value.ring.numQueued == s.ring.numQueued + n
    decreases n
  {
    hide BufferOffset, AllocationSize, SlotsFit, Wrap;
    if n == 0 {
      actions := [];
    } else {
      var op := SendOp([]);
      CallRuns(cfg, s, t, op, {});
      var s' := Run(cfg, s, Call(t, op, {})).value;
      assert s'.threads == s.threads;
      var rest := Fill(cfg, s', t, n - 1);
      RunConcat(cfg, s, Call(t, op, {}), rest);
      actions := Call(t, op, {}) + rest;
    }
  }

  lemma FewSlots(r: Ring)
    requires r.Allocated()
    ensures 1 <= r.numMsgs <= INT32_RANGE
  {
    MulOrder(1, r.msgSize, r.numMsgs - 1);
  }

  lemma CountMoves(s: State, op: Op)
    requires s.ring.Allocated() && (op.SendOp? ==> |op.msg| <= s.ring.msgSize)
    ensures var r := Moved(s, op).ring;
            && r.Allocated() && r.numMsgs == s.ring.numMsgs && r.msgSize == s.ring.msgSize
            && r.numQueued == if op.SendOp? then Increment32(s.ring.numQueued) else Decrement32(s.ring.numQueued)
  {
    hide BufferOffset, AllocationSize, SlotsFit, Wrap, Wrap32, Ring.Slot, Overwrite;
  }

  /** The count around its two bounds. */
  lemma CountEnds(n: uint32)
    requires 1 <= n <= INT32_RANGE
    ensures Decrement32(n) == n - 1 && Increment32(n - 1) == n && Increment32(n) == n + 1
    ensures Increment32(0) == 1 && Decrement32(1) == 0 && Decrement32(0) > n
  {
  }

  lemma StolenCount(s1: State, s2: State, s3: State, op: Op, other: Op)
    requires s1.ring.Allocated() && op.SendOp? != other.SendOp? && Blocked(s1.ring, op)
    requires op.SendOp? ==> |op.msg| <= s1.ring.msgSize
    requires other.SendOp? ==> |other.msg| <= s1.ring.msgSize
    requires s2.ring == Moved(s1, other).ring && s3.ring == Moved(s2, op).ring
    ensures !Blocked(s1.ring, other) && !Blocked(s2.ring, op)
    ensures Moved(s3, op).ring.numQueued > s3.ring.numMsgs
  {
    hide Moved, Ring.Allocated, Increment32, Decrement32;
    FewSlots(s1.ring);
    CountEnds(s1.ring.numMsgs);
    CountMoves(s1, other);
    CountMoves(s2, op);
    CountMoves(s3, op);
  }

  /**
   * Thread a waits; x wakes it; b takes what a was woken for; a goes on regardless. The queue ends
   * with one message too many, or with one too few.
   */
  lemma Stolen(cfg: Config, s: State, a: ThreadId, b: ThreadId, x: ThreadId, op: Op, other: Op)
    returns (actions: seq<Action>)
    requires Quiet(s) && !cfg.recheck && a != b && x != a
    requires a < |s.threads| && b < |s.threads| && x < |s.threads|
    requires forall w | 0 <= w < |s.threads| :: s.threads[w] == Idle
    requires MayRun(cfg, s.ring, a, op) && MayRun(cfg, s.ring, b, op) && MayRun(cfg, s.ring, x, other)
    requires Blocked(s.ring, op) && op.SendOp? != other.SendOp?
    ensures var end := Run(cfg, s, actions);
            end.Some? && end.value.ring.numQueued > end.value.ring.numMsgs
  {
    hide BufferOffset, AllocationSize, SlotsFit, Wrap;
    FewSlots(s.ring);
    var block := [Begin(a, op), Lock(a), Check(a)];
    var finish := [Reacquire(a), Move(a)];
    CallBlocks(cfg, s, a, op);
    var s1 := Run(cfg, s, block).value;
    var s2 := Moved(s1, other).(threads := s.threads[a := Resuming(op)]);
    var s3 := Moved(s2, op).(threads := s2.threads);
    StolenCount(s1, s2, s3, op, other);
    hide Blocked, Moved;
    assert WaitsFor(s1.threads[a], other);
    CallRuns(cfg, s1, x, other, {a});
    assert Woken(s1.threads, {a}) == s2.threads;
    CallRuns(cfg, s2, b, op, {});
    assert Woken(s2.threads, {}) == s2.threads;
    CallResumes(cfg, s3, a);
    RunConcat(cfg, s2, Call(b, op, {}), finish);
    RunConcat(cfg, s1, Call(x, other, {a}), Call(b, op, {}) + finish);
    RunConcat(cfg, s, block, Call(x, other, {a}) + (Call(b, op, {}) + finish));
    actions := block + (Call(x, other, {a}) + (Call(b, op, {}) + finish));
  }

  /** Two receivers break an empty queue; the sender may be one of them. */
  lemma TwoReceivers(cfg: Config, s: State, x: ThreadId, a: ThreadId, b: ThreadId) returns (actions: seq<Action>)
    requires Initial(s) && !cfg.recheck && a != b
    requires x in cfg.senders && a in cfg.receivers && b in cfg.receivers
    requires x < |s.threads| && a < |s.threads| && b < |s.threads|
    ensures var end := Run(cfg, s, actions); end.Some? && end.value.ring.numQueued > end.value.ring.numMsgs
  {
    if x == a {
      actions := Stolen(cfg, s, b, a, x, ReceiveOp, SendOp([]));
    } else {
      actions := Stolen(cfg, s, a, b, x, ReceiveOp, SendOp([]));
    }
  }

  /** Two senders break a full queue; the receiver may be one of them. */
  lemma TwoSenders(cfg: Config, s: State, x: ThreadId, y: ThreadId, r: ThreadId) returns (actions: seq<Action>)
    requires Initial(s) && !cfg.recheck && x != y
    requires x in cfg.senders && y in cfg.senders && r in cfg.receivers
    requires x < |s.threads| && y < |s.threads| && r < |s.threads|
    ensures var end := Run(cfg, s, actions); end.Some? && end.value.ring.numQueued > end.value.ring.numMsgs
  {
    var fill := Fill(cfg, s, x, s.ring.numMsgs);
    var full := Run(cfg, s, fill).value;
    var waiter, thief := if r == x then y else x, if r == x then x else y;
    var rest := Stolen(cfg, full, waiter, thief, r, SendOp([]), ReceiveOp);
    RunConcat(cfg, s, fill, rest);
    actions := fill + rest;
  }

  /** A spurious wakeup: the receiver takes a message from an empty queue. */
  lemma SpuriousReceiver(cfg: Config, s: State, r: ThreadId) returns (actions: seq<Action>)
    requires Initial(s) && !cfg.recheck && cfg.spurious && r in cfg.receivers && r < |s.threads|
    ensures var end := Run(cfg, s, actions); end.Some? && end.value.ring.numQueued > end.value.ring.numMsgs
  {
    hide BufferOffset, AllocationSize, SlotsFit, Wrap;
    FewSlots(s.ring);
    var block := [Begin(r, ReceiveOp), Lock(r), Check(r)];
    CallBlocks(cfg, s, r, ReceiveOp);
    var s1 := Run(cfg, s, block).value;
    var s2 := Apply(cfg, s1, WakeSpuriously(r)).value;
    CallResumes(cfg, s2, r);
    Unfold(cfg, s1, WakeSpuriously(r), [Reacquire(r), Move(r)]);
    RunConcat(cfg, s, block, [WakeSpuriously(r)] + [Reacquire(r), Move(r)]);
    actions := block + ([WakeSpuriously(r)] + [Reacquire(r), Move(r)]);
  }

  ghost predicate Bounded(cfg: Config, s: State, actions: seq<Action>) {
    Run(cfg, s, actions).Some? ==> Run(cfg, s, actions).value.ring.numQueued <= s.ring.numMsgs
  }

  /**
   * For a queue that is sent to and received from, the count stays in bounds in all runs exactly when
   * the configuration is safe.
   */
  lemma BoundedIffSafe(cfg: Config, s: State)
    requires Initial(s) && cfg.senders != {} && cfg.receivers != {}
    requires forall t | t in cfg.senders || t in cfg.receivers :: t < |s.threads|
    ensures (forall actions: seq<Action> :: Bounded(cfg, s, actions)) <==> Safe(cfg)
  {
    hide Initial, Ring.Good;
    if Safe(cfg) {
      forall actions: seq<Action> ensures Bounded(cfg, s, actions) {
        if Run(cfg, s, actions).Some? {
          QueueSafety(cfg, s, actions);
          SameShape(cfg, s, actions);
        }
      }
    } else {
      var bad := BadRun(cfg, s);
      SameShape(cfg, s, bad);
      assert !Bounded(cfg, s, bad);
    }
  }

  lemma BadRun(cfg: Config, s: State) returns (bad: seq<Action>)
    requires Initial(s) && cfg.senders != {} && cfg.receivers != {}
    requires forall t | t in cfg.senders || t in cfg.receivers :: t < |s.threads|
    requires !Safe(cfg)
    ensures var end := Run(cfg, s, bad); end.Some? && end.value.ring.numQueued > end.value.ring.numMsgs
  {
    hide Initial, Ring.Good;
    var x :| x in cfg.senders;
    var r :| r in cfg.receivers;
    if cfg.spurious {
      bad := SpuriousReceiver(cfg, s, r);
    } else if exists a, b :: a in cfg.receivers && b in cfg.receivers && a != b {
      var a, b :| a in cfg.receivers && b in cfg.receivers && a != b;
      bad := TwoReceivers(cfg, s, x, a, b);
    } else {
      var a, b :| a in cfg.senders && b in cfg.senders && a != b;
      bad := TwoSenders(cfg, s, a, b, r);
    }
  }
}
