/** What the fan-out loop of mb_send does, in closed form: copies per pipe, outcome per attempt, errors. */
module BusRouting {
  import opened Basics
  import opened OsTypes
  import opened Fifos
  import opened Buses

  function Repeat(msg: Bytes, n: nat): (r: seq<Bytes>)
    ensures |r| == n
  {
    seq(n, _ => msg)
  }

  /** How often pipe p stands among the first k registrations. */
  function Copies(route: seq<nat>, k: nat, p: nat): nat
    requires k <= |route|
  {
    if k == 0 then 0 else Copies(route, k - 1, p) + (if route[k - 1] == p then 1 else 0)
  }

  /** How many more copies of a message a queue can take. */
  function Room(f: Fifo, msg: Bytes): nat {
    if |msg| <= f.slotSize && |f.contents| <= f.capacity then f.capacity - |f.contents| else 0
  }

  function Min(a: nat, b: nat): nat {
    if a < b then a else b
  }

  /** The outcome of the k-th attempt, from the state before the send alone. */
  function Outcome(b: Bus, m: Message, k: nat, waits: seq<WaitFailure>): OsResult
    requires b.Valid() && m.packetId < NUM_PACKET_IDS && k < |b.routes[m.packetId]|
  {
    var route := b.routes[m.packetId];
    var f := b.pipes[route[k]];
    if |m.Wire()| > f.slotSize then MsgSizeError
    else if |f.contents| + Copies(route, k, route[k]) < f.capacity then OsResult.Okay
    else WaitResult(WaitAt(waits, k))
  }

  predicate IsError(os: OsResult) {
    os != OsResult.Okay && os != OsResult.Timeout
  }

  /** How many of the first k attempts end in neither OKAY nor TIMEOUT. */
  function Errors(b: Bus, m: Message, k: nat, waits: seq<WaitFailure>): nat
    requires b.Valid() && m.packetId < NUM_PACKET_IDS && k <= |b.routes[m.packetId]|
  {
    if k == 0 then 0 else
    Errors(b, m, k - 1, waits) + (if IsError(Outcome(b, m, k - 1, waits)) then 1 else 0)
  }

  /** The queue of pipe p after k attempts. */
  ghost predicate Took(before: Fifo, after: Fifo, msg: Bytes, copies: nat) {
    after == before.(contents := before.contents + Repeat(msg, Min(copies, Room(before, msg))))
  }

  lemma TakeOne(before: Fifo, mid: Fifo, msg: Bytes, copies: nat, wait: WaitFailure)
    requires |before.contents| <= before.capacity && Took(before, mid, msg, copies)
    ensures Took(before, mid.Send(Some(msg), wait).0, msg, copies + 1)
    ensures mid.Send(Some(msg), wait).1 ==
            if |msg| > before.slotSize then MsgSizeError
            else if |before.contents| + copies < before.capacity then OsResult.Okay else WaitResult(wait)
  {
    var n := Min(copies, Room(before, msg));
    if |msg| <= before.slotSize && n == copies < Room(before, msg) {
      assert Repeat(msg, n + 1) == Repeat(msg, n) + [msg];
      assert mid.contents + [msg] == before.contents + Repeat(msg, n + 1);
    }
  }

  /** The pipes after k attempts, each having taken its copies. */
  ghost predicate AllTook(before: seq<Fifo>, after: seq<Fifo>, msg: Bytes, route: seq<nat>, k: nat)
    requires k <= |route|
  {
    && |after| == |before|
    && forall p | 0 <= p < |before| :: Took(before[p], after[p], msg, Copies(route, k, p))
  }

  lemma AttemptTakes(b: Bus, mid: Bus, m: Message, k: nat, waits: seq<WaitFailure>)
    requires b.Valid() && mid.Valid() && m.packetId < NUM_PACKET_IDS && mid.routes == b.routes
    requires k < |b.routes[m.packetId]|
    requires AllTook(b.pipes, mid.pipes, m.Wire(), b.routes[m.packetId], k)
    ensures var (b', result) := Attempt(mid, m, k, WaitAt(waits, k));
            && AllTook(b.pipes, b'.pipes, m.Wire(), b.routes[m.packetId], k + 1)
            && result == ToMbResult(Outcome(b, m, k, waits))
            && b'.status == if IsError(Outcome(b, m, k, waits))
                            then CountSendError(mid.status, m.packetId, k, Outcome(b, m, k, waits)) else mid.status
  {
    hide RawMessage.Wire, Repeat, Took, Min, Room;
    var route := b.routes[m.packetId];
    var pipe := route[k];
    TakeOne(b.pipes[pipe], mid.pipes[pipe], m.Wire(), Copies(route, k, pipe), WaitAt(waits, k));
    assert mid.pipes[pipe].Send(Some(m.Wire()), WaitAt(waits, k)).1 == Outcome(b, m, k, waits);
  }

  lemma NothingTaken(pipes: seq<Fifo>, msg: Bytes, route: seq<nat>)
    ensures AllTook(pipes, pipes, msg, route, 0)
  {
    forall f: Fifo ensures Took(f, f, msg, 0) {
      assert f.contents + Repeat(msg, 0) == f.contents;
    }
  }

  /**
   * Every registered pipe is tried whatever happened to the others, and takes its copies as long as
   * it has room; all other pipes stay as they are.
   */
  lemma {:induction false} FanOut(b: Bus, m: Message, k: nat, waits: seq<WaitFailure>)
    requires b.Valid() && m.packetId < NUM_PACKET_IDS && k <= |b.routes[m.packetId]|
    ensures AllTook(b.pipes, Attempts(b, m, k, waits).0.pipes, m.Wire(), b.routes[m.packetId], k)
    decreases k
  {
    hide RawMessage.Wire, Attempt, AllTook, Outcome, Fifo.Valid;
    if k == 0 {
      NothingTaken(b.pipes, m.Wire(), b.routes[m.packetId]);
    } else {
      FanOut(b, m, k - 1, waits);
      AttemptTakes(b, Attempts(b, m, k - 1, waits).0, m, k - 1, waits);
    }
  }

  /** The outcome of each attempt, and through it the result and the error count of the loop. */
  lemma {:induction false} FanOutResult(b: Bus, m: Message, k: nat, waits: seq<WaitFailure>)
    requires b.Valid() && m.packetId < NUM_PACKET_IDS && k <= |b.routes[m.packetId]|
    ensures var (b', result) := Attempts(b, m, k, waits);
            && result == (if k == 0 then NoReceiver else ToMbResult(Outcome(b, m, k - 1, waits)))
            && b'.status.sendErrors == Wrap32(b.status.sendErrors + Errors(b, m, k, waits))
            && b'.status.messagesSent == b.status.messagesSent
            && b'.status.messagesReceived == b.status.messagesReceived
            && b'.status.receiveErrors == b.status.receiveErrors
    decreases k
  {
    hide Attempt, AllTook, Outcome, Fifo.Valid, Wrap32, Bus.Valid, RawMessage.Wire;
    WrapAdd(b.status.sendErrors, 0);
    if k > 0 {
      FanOutResult(b, m, k - 1, waits);
      WrapAdd(b.status.sendErrors + Errors(b, m, k - 1, waits), 1);
      FanOut(b, m, k - 1, waits);
      AttemptTakes(b, Attempts(b, m, k - 1, waits).0, m, k - 1, waits);
    }
  }

  /** The error fields of the status describe the last failed attempt. */
  lemma {:induction false} LastErrorReported(b: Bus, m: Message, k: nat, j: nat, waits: seq<WaitFailure>)
    requires b.Valid() && m.packetId < NUM_PACKET_IDS && j < k <= |b.routes[m.packetId]|
    requires IsError(Outcome(b, m, j, waits))
    requires forall i | j < i < k :: !IsError(Outcome(b, m, i, waits))
    ensures var s := Attempts(b, m, k, waits).0.status;
            s.sendErrorPacketId == m.packetId && s.sendErrorPipeIndex == j && s.sendErrorCode == Outcome(b, m, j, waits)
    decreases k
  {
    hide Attempt, AllTook, Outcome, Fifo.Valid;
    FanOut(b, m, k - 1, waits);
    AttemptTakes(b, Attempts(b, m, k - 1, waits).0, m, k - 1, waits);
    if j < k - 1 {
      LastErrorReported(b, m, k - 1, j, waits);
    }
  }

  /** mb_send as a whole, in terms of the state before the call. */
  lemma SendRoutes(b: Bus, m: Message, trailer: Trailer, waits: seq<WaitFailure>)
    requires b.Valid() && m.packetId < NUM_PACKET_IDS
    ensures var route, (b', result) := b.routes[m.packetId], Send(b, Some(m), trailer, waits);
            && (result == NoReceiver <==> route == [])
            && (route != [] ==> result == ToMbResult(Outcome(b, m, |route| - 1, waits)))
            && AllTook(b.pipes, b'.pipes, m.Wire(), route, |route|)
            && b'.status.sendErrors == Wrap32(b.status.sendErrors + Errors(b, m, |route|, waits))
            && b'.status.messagesSent == Increment32(b.status.messagesSent)
            && b'.events == b.events && b'.routes == b.routes && b'.numPipes == b.numPipes
  {
    hide RawMessage.Wire, Attempts, Outcome, Errors, Fifo.Valid, AllTook, Wrap32;
    var counted := b.(status := b.status.(messagesSent := Increment32(b.status.messagesSent)));
    var n := |b.routes[m.packetId]|;
    FanOut(counted, m, n, waits);
    FanOutResult(counted, m, n, waits);
    SameOutcomes(b, counted, m, n, waits);
  }

  /** Outcomes depend on the pipes and the routes only. */
  lemma {:induction false} SameOutcomes(b: Bus, c: Bus, m: Message, k: nat, waits: seq<WaitFailure>)
    requires b.Valid() && c.Valid() && b.pipes == c.pipes && b.routes == c.routes
    requires m.packetId < NUM_PACKET_IDS && k <= |b.routes[m.packetId]|
    ensures Errors(b, m, k, waits) == Errors(c, m, k, waits)
    ensures forall i | 0 <= i < k :: Outcome(b, m, i, waits) == Outcome(c, m, i, waits)
    decreases k
  {
    if k > 0 {
      SameOutcomes(b, c, m, k - 1, waits);
    }
  }

  /**
   * A NULL message: counted as sent and as an error, and reported by an event that is routed, and
   * counted, like any message. The caller always gets NULL_POINTER.
   */
  lemma NullSendRoutes(b: Bus, trailer: Trailer, waits: seq<WaitFailure>)
    requires b.Valid()
    ensures var e := EventMessage(MODULE_MB, EVENT_NULL_POINTER, NULL_SEND_LINE, trailer);
            var route, (b', result) := b.routes[PACKET_ID_EVENT], Send(b, None, trailer, waits);
            && result == MbResult.NullPointer
            && AllTook(b.pipes, b'.pipes, e.Wire(), route, |route|)
            && b'.status.sendErrors == Wrap32(b.status.sendErrors + 1 + Errors(b, e, |route|, waits))
            && b'.status.messagesSent == Wrap32(b.status.messagesSent + 2)
            && b'.events == (if route != [] && Outcome(b, e, |route| - 1, waits) == OsResult.Okay
                             then b.events.(messagesReceived := Increment32(b.events.messagesReceived))
                             else b.events.(messageErrors := Increment32(b.events.messageErrors)))
            && b'.routes == b.routes && b'.numPipes == b.numPipes
  {
    hide RawMessage.Wire, Attempts, SendMessage, Outcome, Errors, EventMessage, Fifo.Valid, AllTook, Wrap32;
    var e := EventMessage(MODULE_MB, EVENT_NULL_POINTER, NULL_SEND_LINE, trailer);
    var counted := b.(status := b.status.(messagesSent := Increment32(b.status.messagesSent),
                                          sendErrors := Increment32(b.status.sendErrors)));
    WrapAdd(b.status.sendErrors + 1, Errors(b, e, |b.routes[PACKET_ID_EVENT]|, waits));
    WrapAdd(b.status.messagesSent + 1, 1);
    SendRoutes(counted, e, trailer, waits);
    SameOutcomes(b, counted, e, |b.routes[PACKET_ID_EVENT]|, waits);
  }
}
