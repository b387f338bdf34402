/**
 * os_queue_send and os_queue_receive as steps of many threads: a recursive mutex, two condition
 * variables, and the critical sections of module Rings. One action is one step of one thread.
 */
module QueueProtocol {
  import opened Basics
  import opened Rings

  type ThreadId = nat

  datatype Op = SendOp(msg: Bytes) | ReceiveOp

  datatype Pc =
    | Idle
    | Locking(op: Op)       // about to lock the mutex
    | Checking(op: Op)      // holds the mutex, about to compare num_queued
    | Waiting(op: Op)       // inside pthread_cond_timedwait
    | Resuming(op: Op)      // the wait succeeded; it needs the mutex back
    | GivingUp(op: Op)      // the wait failed; it needs the mutex back (POSIX reading)
    | Moving(op: Op)        // holds the mutex, about to copy the message
    | Signalling(op: Op)    // holds the mutex, about to signal the other side
    | Leaving(taken: bool)  // about to return; `taken` is the flag mutex_taken

  /**
   * `recheck`: the wait is repeated in a loop (the source has `recheck == false`, an `if`).
   * `spurious`: a wait may return without a signal.
   * `reacquire`: a failed wait locks the mutex again, as POSIX says (the source assumes it does not).
   */
  datatype Config = Config(recheck: bool, spurious: bool, reacquire: bool,
                           senders: set<ThreadId>, receivers: set<ThreadId>)

  /** `sent`, `received` and `kept` record the past: messages moved, and calls that kept the mutex. */
  datatype State = State(ring: Ring, owner: Option<ThreadId>, depth: nat, threads: seq<Pc>,
                         sent: seq<Bytes>, received: seq<Bytes>, kept: nat)

  datatype Action =
    | Begin(t: ThreadId, op: Op)
    | Lock(t: ThreadId)
    | Check(t: ThreadId)
    | WakeSpuriously(t: ThreadId)
    | FailWait(t: ThreadId)
    | Reacquire(t: ThreadId)
    | Move(t: ThreadId)
    | Signal(t: ThreadId, woken: set<ThreadId>)
    | Return(t: ThreadId)

  // ---------- steps ----------

  predicate Blocked(r: Ring, op: Op) {
    if op.SendOp? then r.numQueued == r.numMsgs else r.numQueued == 0
  }

  /** A message larger than a slot is refused before any step, so no call with one gets here. */
  predicate MayRun(cfg: Config, r: Ring, t: ThreadId, op: Op) {
    if op.SendOp? then t in cfg.senders && |op.msg| <= r.msgSize else t in cfg.receivers
  }

  predicate Available(s: State, t: ThreadId) {
    s.owner == None || s.owner == Some(t)
  }

  function Locked(s: State, t: ThreadId): State {
    s.(owner := Some(t), depth := s.depth + 1)
  }

  /** pthread_mutex_unlock, and the implicit unlock of a wait: one level of the recursive mutex. */
  function Unlocked(s: State): State
    requires s.depth > 0
  {
    s.(depth := s.depth - 1, owner := if s.depth == 1 then None else s.owner)
  }

  function At(s: State, t: ThreadId, pc: Pc): State
    requires t < |s.threads|
  {
    s.(threads := s.threads[t := pc])
  }

  function Moved(s: State, op: Op): (s': State)
    requires s.ring.Allocated() && (op.SendOp? ==> |op.msg| <= s.ring.msgSize)
    ensures s' == s.(ring := s'.ring, sent := s'.sent, received := s'.received)
  {
    match op
    case SendOp(msg) => s.(ring := s.ring.Stored(msg), sent := s.sent + [msg])
    case ReceiveOp => s.(ring := s.ring.Loaded(), received := s.received + [s.ring.Slot(s.ring.readOffset)])
  }

  predicate WaitsFor(pc: Pc, op: Op) {
    pc.Waiting? && pc.op.SendOp? != op.SendOp?
  }

  /** pthread_cond_signal unblocks at least one of the threads that wait, if any do. */
  predicate MayWake(s: State, op: Op, woken: set<ThreadId>) {
    && (forall w | w in woken :: w < |s.threads| && WaitsFor(s.threads[w], op))
    && (woken == {} ==> forall w | 0 <= w < |s.threads| :: !WaitsFor(s.threads[w], op))
  }

  function Woken(threads: seq<Pc>, woken: set<ThreadId>): (r: seq<Pc>)
    ensures |r| == |threads|
  {
    seq(|threads|, w requires 0 <= w < |threads| =>
      if w in woken && threads[w].Waiting? then Resuming(threads[w].op) else threads[w])
  }

  /** The state after an action, or None when the action is not possible. */
  function Apply(cfg: Config, s: State, a: Action): Option<State> {
    if a.t >= |s.threads| then None else
    var pc := s.threads[a.t];
    match a
    case Begin(t, op) =>
      if pc.Idle? && MayRun(cfg, s.ring, t, op) then Some(At(s, t, Locking(op))) else None
    case Lock(t) =>
      if pc.Locking? && Available(s, t) then Some(At(Locked(s, t), t, Checking(pc.op))) else None
    case Check(t) =>
      if !pc.Checking? || s.depth == 0 then None
      else if Blocked(s.ring, pc.op) then Some(At(Unlocked(s), t, Waiting(pc.op)))
      else Some(At(s, t, Moving(pc.op)))
    case WakeSpuriously(t) =>
      if cfg.spurious && pc.Waiting? then Some(At(s, t, Resuming(pc.op))) else None
    case FailWait(t) =>
      if !pc.Waiting? then None
      else Some(At(s, t, if cfg.reacquire then GivingUp(pc.op) else Leaving(false)))
    case Reacquire(t) =>
      if !Available(s, t) then None
      else if pc.Resuming? then
        Some(At(Locked(s, t), t, if cfg.recheck then Checking(pc.op) else Moving(pc.op)))
      else if pc.GivingUp? then Some(At(Locked(s, t), t, Leaving(false)).(kept := s.kept + 1))
      else None
    case Move(t) =>
      if pc.Moving? && s.ring.Allocated() && MayRun(cfg, s.ring, t, pc.op)
      then Some(At(Moved(s, pc.op), t, Signalling(pc.op))) else None
    case Signal(t, woken) =>
      if pc.Signalling? && MayWake(s, pc.op, woken)
      then Some(At(s.(threads := Woken(s.threads, woken)), t, Leaving(true))) else None
    case Return(t) =>
      if !pc.Leaving? then None
      else if pc.taken then if s.depth == 0 then None else Some(At(Unlocked(s), t, Idle))
      else Some(At(s, t, Idle))
  }

  /** The state after a sequence of actions. */
  function Run(cfg: Config, s: State, actions: seq<Action>): Option<State>
    decreases |actions|
  {
    if actions == [] then Some(s) else
    var next := Apply(cfg, s, actions[0]);
    if next.None? then None else Run(cfg, next.value, actions[1..])
  }

  ghost predicate Initial(s: State) {
    && s.ring.Good() && s.ring.numQueued == 0
    && s.owner == None && s.depth == 0 && s.kept == 0
    && s.sent == [] && s.received == []
    && forall t | 0 <= t < |s.threads| :: s.threads[t] == Idle
  }

  lemma Unfold(cfg: Config, s: State, a: Action, rest: seq<Action>)
    requires Apply(cfg, s, a).Some?
    ensures Run(cfg, s, [a] + rest) == Run(cfg, Apply(cfg, s, a).value, rest)
  {
    assert ([a] + rest)[1..] == rest;
  }

  lemma {:induction false} RunConcat(cfg: Config, s: State, first: seq<Action>, second: seq<Action>)
    requires Run(cfg, s, first).Some?
    ensures Run(cfg, s, first + second) == Run(cfg, Run(cfg, s, first).value, second)
    decreases |first|
  {
    if first == [] {
      assert first + second == second;
    } else {
      var s' := Apply(cfg, s, first[0]).value;
      assert (first + second)[1..] == first[1..] + second;
      RunConcat(cfg, s', first[1..], second);
    }
  }

  lemma {:induction false} SameShape(cfg: Config, s: State, actions: seq<Action>)
    requires Run(cfg, s, actions).Some?
    ensures var s' := Run(cfg, s, actions).value;
            |s'.threads| == |s.threads| && s'.ring.numMsgs == s.ring.numMsgs
    decreases |actions|
  {
    hide BufferOffset, AllocationSize, SlotsFit, Wrap, Wrap32, Overwrite, Ring.Slot;
    if actions != [] {
      SameShape(cfg, Apply(cfg, s, actions[0]).value, actions[1..]);
    }
  }

  // ---------- the mutex ----------

  predicate Holds(pc: Pc) {
    pc.Checking? || pc.Moving? || pc.Signalling? || (pc.Leaving? && pc.taken)
  }

  /** Exclusion, and the exact depth of the recursive mutex. */
  ghost predicate LockInv(cfg: Config, s: State) {
    && (s.owner.Some? ==> s.owner.value < |s.threads|)
    && (forall t | 0 <= t < |s.threads| :: Holds(s.threads[t]) ==> s.owner == Some(t))
    && s.depth == s.kept + (if s.owner.Some? && Holds(s.threads[s.owner.value]) then 1 else 0)
    && (s.owner.None? <==> s.depth == 0)
    && (cfg.reacquire ==> forall t | 0 <= t < |s.threads| :: s.threads[t] == Leaving(false) ==> s.owner == Some(t))
    && (!cfg.reacquire ==> s.kept == 0 && forall t | 0 <= t < |s.threads| :: !s.threads[t].GivingUp?)
  }

  lemma LockInvSignal(cfg: Config, s: State, a: Action)
    requires LockInv(cfg, s) && Apply(cfg, s, a).Some? && a.Signal?
    ensures LockInv(cfg, Apply(cfg, s, a).value)
  {
    hide MayWake;
    var s' := Apply(cfg, s, a).value;
    forall t | 0 <= t < |s.threads| ensures Holds(s'.threads[t]) ==> s'.owner == Some(t) {
      assert Holds(Woken(s.threads, a.woken)[t]) ==> Holds(s.threads[t]);
    }
  }

  lemma LockInvAcquire(cfg: Config, s: State, a: Action)
    requires LockInv(cfg, s) && Apply(cfg, s, a).Some? && (a.Lock? || a.Reacquire?)
    ensures LockInv(cfg, Apply(cfg, s, a).value)
  {
  }

  lemma LockInvRelease(cfg: Config, s: State, a: Action)
    requires LockInv(cfg, s) && Apply(cfg, s, a).Some? && (a.Check? || a.Return?)
    ensures LockInv(cfg, Apply(cfg, s, a).value)
  {
    hide Blocked;
  }

  lemma LockInvOther(cfg: Config, s: State, a: Action)
    requires LockInv(cfg, s) && Apply(cfg, s, a).Some?
    requires a.Begin? || a.WakeSpuriously? || a.FailWait? || a.Move?
    ensures LockInv(cfg, Apply(cfg, s, a).value)
  {
    hide Moved, MayRun;
  }

  lemma LockInvStep(cfg: Config, s: State, a: Action)
    requires LockInv(cfg, s) && Apply(cfg, s, a).Some?
    ensures LockInv(cfg, Apply(cfg, s, a).value)
    ensures s.kept > 0 ==> Apply(cfg, s, a).value.owner == s.owner && Apply(cfg, s, a).value.kept >= s.kept
  {
    match a
    case Signal(_, _) => LockInvSignal(cfg, s, a);
    case Lock(_) => LockInvAcquire(cfg, s, a);
    case Reacquire(_) => LockInvAcquire(cfg, s, a);
    case Check(_) => LockInvRelease(cfg, s, a);
    case Return(_) => LockInvRelease(cfg, s, a);
    case _ => LockInvOther(cfg, s, a);
  }

  lemma InitialLockInv(cfg: Config, s: State)
    requires Initial(s)
    ensures LockInv(cfg, s)
  {
  }

  lemma {:induction false} LockInvRun(cfg: Config, s: State, actions: seq<Action>)
    requires LockInv(cfg, s) && Run(cfg, s, actions).Some?
    ensures LockInv(cfg, Run(cfg, s, actions).value)
    decreases |actions|
  {
    if actions != [] {
      LockInvStep(cfg, s, actions[0]);
      LockInvRun(cfg, Apply(cfg, s, actions[0]).value, actions[1..]);
    }
  }

  /** At most one thread is in a critical section, in every run of every configuration. */
  lemma MutualExclusion(cfg: Config, s: State, actions: seq<Action>)
    requires Initial(s) && Run(cfg, s, actions).Some?
    ensures var threads := Run(cfg, s, actions).value.threads;
            forall t, u | 0 <= t < |threads| && 0 <= u < |threads| && Holds(threads[t]) && Holds(threads[u]) :: t == u
  {
    InitialLockInv(cfg, s);
    LockInvRun(cfg, s, actions);
  }

  // ---------- the queue ----------

  /** A looping wait is safe for any threads; the `if` needs one sender, one receiver, no spurious wakeups. */
  ghost predicate Safe(cfg: Config) {
    cfg.recheck ||
    (!cfg.spurious && (forall a, b | a in cfg.senders && b in cfg.senders :: a == b)
                   && (forall a, b | a in cfg.receivers && b in cfg.receivers :: a == b))
  }

  /** A thread past its check finds what it checked for. */
  ghost predicate Justified(cfg: Config, r: Ring, t: ThreadId, pc: Pc) {
    && (pc.Locking? || pc.Checking? || pc.Waiting? || pc.Resuming? || pc.Moving? || pc.Signalling?
        ==> MayRun(cfg, r, t, pc.op))
    && (pc.Moving? ==> !Blocked(r, pc.op))
    && (pc.Signalling? ==> if pc.op.SendOp? then r.numQueued > 0 else r.numQueued < r.numMsgs)
    && (pc.Resuming? && !cfg.recheck ==> !Blocked(r, pc.op))
  }

  ghost predicate QueueInv(cfg: Config, s: State) {
    && LockInv(cfg, s)
    && s.ring.Good()
    && s.received + s.ring.Contents() == s.sent
    && forall t | 0 <= t < |s.threads| :: Justified(cfg, s.ring, t, s.threads[t])
  }

  lemma MovedInv(cfg: Config, s: State, t: ThreadId)
    requires Safe(cfg) && QueueInv(cfg, s) && Apply(cfg, s, Move(t)).Some?
    ensures QueueInv(cfg, Apply(cfg, s, Move(t)).value)
  {
    hide BufferOffset, AllocationSize, SlotsFit, Wrap, Overwrite, Ring.Slot;
    LockInvStep(cfg, s, Move(t));
    var s' := Apply(cfg, s, Move(t)).value;
    if s.threads[t].op.SendOp? {
      StoredAppends(s.ring, s.threads[t].op.msg);
      assert s'.sent == s.received + (s.ring.Contents() + [s.threads[t].op.msg]);
    } else {
      LoadedRemoves(s.ring);
      assert s'.received + s'.ring.Contents() == s.received + ([s.ring.Slot(s.ring.readOffset)] + s'.ring.Contents());
    }
  }

  /** No other action touches the ring. */
  lemma OtherInv(cfg: Config, s: State, a: Action)
    requires Safe(cfg) && QueueInv(cfg, s) && Apply(cfg, s, a).Some? && !a.Move?
    ensures var s' := Apply(cfg, s, a).value;
            && s'.ring == s.ring && s'.sent == s.sent && s'.received == s.received
            && forall t | 0 <= t < |s'.threads| :: Justified(cfg, s'.ring, t, s'.threads[t])
  {
    hide LockInv, Moved, Ring.Good, Ring.Contents, Ring.Allocated;
    if a.Signal? {
      assert Justified(cfg, s.ring, a.t, s.threads[a.t]);
    }
  }

  lemma QueueInvStep(cfg: Config, s: State, a: Action)
    requires Safe(cfg) && QueueInv(cfg, s) && Apply(cfg, s, a).Some?
    ensures QueueInv(cfg, Apply(cfg, s, a).value)
  {
    hide Apply, LockInv, Justified, Ring.Good, Ring.Contents, Safe;
    if a.Move? {
      MovedInv(cfg, s, a.t);
    } else {
      LockInvStep(cfg, s, a);
      OtherInv(cfg, s, a);
    }
  }

  lemma {:induction false} QueueInvRun(cfg: Config, s: State, actions: seq<Action>)
    requires Safe(cfg) && QueueInv(cfg, s) && Run(cfg, s, actions).Some?
    ensures QueueInv(cfg, Run(cfg, s, actions).value)
    decreases |actions|
  {
    if actions != [] {
      QueueInvStep(cfg, s, actions[0]);
      QueueInvRun(cfg, Apply(cfg, s, actions[0]).value, actions[1..]);
    }
  }

  /**
   * In every run of a safe configuration the count stays within bounds, what has been received is a
   * prefix of what has been sent with exactly the queued messages missing, and a thread about to
   * store a message is about to write a slot that holds no unread one.
   */
  lemma QueueSafety(cfg: Config, s: State, actions: seq<Action>)
    requires Safe(cfg) && Initial(s) && Run(cfg, s, actions).Some?
    ensures var s' := Run(cfg, s, actions).value;
            && s'.ring.Good() && s'.ring.numQueued <= s'.ring.numMsgs
            && s'.received <= s'.sent && s'.received + s'.ring.Contents() == s'.sent
            && forall t | 0 <= t < |s'.threads| && s'.threads[t].Moving? && s'.threads[t].op.SendOp? ::
                 forall k: nat | k < s'.ring.numQueued :: s'.ring.At(k) != s'.ring.writeOffset
  {
    hide BufferOffset, AllocationSize, SlotsFit, Wrap;
    assert s.ring.Contents() == [];
    QueueInvRun(cfg, s, actions);
    var s' := Run(cfg, s, actions).value;
    forall t | 0 <= t < |s'.threads| && s'.threads[t].Moving? && s'.threads[t].op.SendOp?
      ensures forall k: nat | k < s'.ring.numQueued :: s'.ring.At(k) != s'.ring.writeOffset
    {
      StoredGood(s'.ring, s'.threads[t].op.msg);
    }
  }
}
