/** Whole runs of the message bus: what every pipe delivers, what the counters count, which indices are stored. */
module BusRuns {
  import opened Basics
  import opened OsTypes
  import opened Fifos
  import opened Buses
  import opened BusRouting
  import opened BusAnswers

  datatype Call =
    | CreateCall(found: bool, numMsgs: uint32, msgSize: uint32, memory: bool)
    | RegisterCall(pipe: nat, packetId: nat)
    | SendCall(message: Option<Message>, trailer: Trailer, waits: seq<WaitFailure>)
    | ReceiveCall(pipe: nat, room: Option<nat>, wait: WaitFailure)

  datatype Reply = Reply(result: MbResult, bytes: Bytes)

  /** The calls that index no array out of bounds. */
  predicate Defined(b: Bus, call: Call)
    requires b.Valid()
  {
    match call
    case RegisterCall(pipe, packetId) => Registrable(b, pipe, packetId)
    case SendCall(message, _, _) => message.Some? ==> message.value.packetId < NUM_PACKET_IDS
    case _ => true
  }

  function Do(b: Bus, call: Call): (r: (Bus, Reply))
    requires b.Valid() && Defined(b, call)
    ensures r.0.Valid()
  {
    match call
    case CreateCall(found, numMsgs, msgSize, memory) =>
      var (b', result, _) := CreatePipe(b, found, numMsgs, msgSize, memory);
      (b', Reply(result, []))
    case RegisterCall(pipe, packetId) =>
      var (b', result) := Register(b, pipe, packetId);
      (b', Reply(result, []))
    case SendCall(message, trailer, waits) =>
      var (b', result) := Send(b, message, trailer, waits);
      (b', Reply(result, []))
    case ReceiveCall(pipe, room, wait) =>
      var (b', result, bytes) := Receive(b, pipe, room, wait);
      (b', Reply(result, bytes))
  }

  predicate AllDefined(b: Bus, calls: seq<Call>)
    requires b.Valid()
    decreases |calls|
  {
    calls == [] || (Defined(b, calls[0]) && AllDefined(Do(b, calls[0]).0, calls[1..]))
  }

  function End(b: Bus, calls: seq<Call>): (r: Bus)
    requires b.Valid() && AllDefined(b, calls)
    ensures r.Valid()
    decreases |calls|
  {
    if calls == [] then b else End(Do(b, calls[0]).0, calls[1..])
  }

  // ---------- delivery ----------

  /** The message a send puts on the bus: for a NULL message, the event that reports it. */
  function Published(call: Call): Message
    requires call.SendCall?
  {
    if call.message.Some? then call.message.value
    else EventMessage(MODULE_MB, EVENT_NULL_POINTER, NULL_SEND_LINE, call.trailer)
  }

  function RouteOf(b: Bus, call: Call): seq<nat>
    requires b.Valid() && call.SendCall? && Defined(b, call)
  {
    b.routes[Published(call).packetId]
  }

  /**
   * What a call contributes to pipe p: a send, one copy for each registration of p for its packet id
   * at that moment, less the copies refused because p is full or its slots are too small.
   */
  function Contribution(b: Bus, call: Call, p: nat): seq<Bytes>
    requires b.Valid() && Defined(b, call) && p < MAX_PIPES
  {
    if !call.SendCall? then [] else
    var wire, route := Published(call).Wire(), RouteOf(b, call);
    Repeat(wire, Min(Copies(route, |route|, p), Room(b.pipes[p], wire)))
  }

  /** What a call hands to the caller from pipe p. */
  function Handed(b: Bus, call: Call, p: nat): seq<Bytes>
    requires b.Valid() && Defined(b, call)
  {
    if call.ReceiveCall? && call.pipe == p && Do(b, call).1.result == MbResult.Okay then [Do(b, call).1.bytes] else []
  }

  /** Everything sent to pipe p over a run. */
  function History(b: Bus, calls: seq<Call>, p: nat): seq<Bytes>
    requires b.Valid() && AllDefined(b, calls) && p < MAX_PIPES
    decreases |calls|
  {
    if calls == [] then [] else Contribution(b, calls[0], p) + History(Do(b, calls[0]).0, calls[1..], p)
  }

  /** Everything received from pipe p over a run. */
  function Delivered(b: Bus, calls: seq<Call>, p: nat): seq<Bytes>
    requires b.Valid() && AllDefined(b, calls)
    decreases |calls|
  {
    if calls == [] then [] else Handed(b, calls[0], p) + Delivered(Do(b, calls[0]).0, calls[1..], p)
  }

  lemma SendContributes(b: Bus, call: Call, p: nat)
    requires b.Valid() && call.SendCall? && Defined(b, call) && p < MAX_PIPES
    ensures Do(b, call).0.pipes[p].contents == b.pipes[p].contents + Contribution(b, call, p)
  {
    hide RawMessage.Wire, EventMessage, Send, Errors;
    if call.message.Some? {
      SendRoutes(b, call.message.value, call.trailer, call.waits);
    } else {
      NullSendRoutes(b, call.trailer, call.waits);
    }
  }

  lemma ReceiveHands(b: Bus, call: Call, p: nat)
    requires b.Valid() && call.ReceiveCall? && p < MAX_PIPES
    ensures Handed(b, call, p) + Do(b, call).0.pipes[p].contents == b.pipes[p].contents
  {
    hide Fifo.Valid;
    if call.pipe == p && p < b.numPipes && b.pipes[p].contents != [] {
      assert b.pipes[p].contents == [b.pipes[p].contents[0]] + b.pipes[p].contents[1..];
    }
  }

  lemma StepDelivery(b: Bus, call: Call, p: nat)
    requires b.Valid() && Defined(b, call) && p < MAX_PIPES
    ensures Handed(b, call, p) + Do(b, call).0.pipes[p].contents == b.pipes[p].contents + Contribution(b, call, p)
  {
    hide Fifo.Valid, Send, Receive, Repeat, Copies, Room, RouteOf, Published;
    match call
    case SendCall(_, _, _) => SendContributes(b, call, p);
    case ReceiveCall(_, _, _) => ReceiveHands(b, call, p);
    case CreateCall(_, _, _, _) =>
    case RegisterCall(_, _) =>
  }

  lemma Chain(handed: seq<Bytes>, delivered: seq<Bytes>, end: seq<Bytes>, mid: seq<Bytes>, start: seq<Bytes>,
              sent: seq<Bytes>, rest: seq<Bytes>)
    requires handed + mid == start + sent && delivered + end == mid + rest
    ensures (handed + delivered) + end == start + (sent + rest)
  {
    assert (handed + delivered) + end == handed + (delivered + end);
    assert handed + (mid + rest) == (handed + mid) + rest;
    assert (start + sent) + rest == start + (sent + rest);
  }

  /** Over any run: received from p, then still queued in p, is queued at the start, then sent to p. */
  lemma {:induction false} RunDelivery(b: Bus, calls: seq<Call>, p: nat)
    requires b.Valid() && AllDefined(b, calls) && p < MAX_PIPES
    ensures Delivered(b, calls, p) + End(b, calls).pipes[p].contents == b.pipes[p].contents + History(b, calls, p)
    decreases |calls|
  {
    hide Do, Handed, Contribution, Defined, Fifo.Valid;
    if calls != [] {
      var b', rest := Do(b, calls[0]).0, calls[1..];
      StepDelivery(b, calls[0], p);
      RunDelivery(b', rest, p);
      Chain(Handed(b, calls[0], p), Delivered(b', rest, p), End(b', rest).pipes[p].contents, b'.pipes[p].contents,
            b.pipes[p].contents, Contribution(b, calls[0], p), History(b', rest, p));
    }
  }

  /** From initialization on, each pipe delivers, in order and exactly once, what was sent to it. */
  lemma WholeRunDelivery(calls: seq<Call>, p: nat)
    requires AllDefined(EMPTY, calls) && p < MAX_PIPES
    ensures Delivered(EMPTY, calls, p) + End(EMPTY, calls).pipes[p].contents == History(EMPTY, calls, p)
  {
    hide Delivered, History, End, AllDefined;
    RunDelivery(EMPTY, calls, p);
    assert [] + History(EMPTY, calls, p) == History(EMPTY, calls, p);
  }

  // ---------- accounting ----------

  datatype Counts = Counts(sent: nat, received: nat, sendErrors: nat, receiveErrors: nat)

  function Plus(a: Counts, b: Counts): Counts {
    Counts(a.sent + b.sent, a.received + b.received, a.sendErrors + b.sendErrors, a.receiveErrors + b.receiveErrors)
  }

  /** What one call should add to the four counters. */
  function Counted(b: Bus, call: Call): Counts
    requires b.Valid() && Defined(b, call)
  {
    if call.SendCall? then
      var nulls := if call.message.None? then 1 else 0;
      Counts(1 + nulls, 0, nulls + Errors(b, Published(call), |RouteOf(b, call)|, call.waits), 0)
    else if call.ReceiveCall? then
      Counts(0, if Delivers(b, call.pipe, call.room) then 1 else 0,
             0, if ReadFails(b, call.pipe, call.room, call.wait) then 1 else 0)
    else Counts(0, 0, 0, 0)
  }

  function Total(b: Bus, calls: seq<Call>): Counts
    requires b.Valid() && AllDefined(b, calls)
    decreases |calls|
  {
    if calls == [] then Counts(0, 0, 0, 0) else Plus(Counted(b, calls[0]), Total(Do(b, calls[0]).0, calls[1..]))
  }

  ghost predicate Adds(before: Status, after: Status, c: Counts) {
    && after.messagesSent == Wrap32(before.messagesSent + c.sent)
    && after.messagesReceived == Wrap32(before.messagesReceived + c.received)
    && after.sendErrors == Wrap32(before.sendErrors + c.sendErrors)
    && after.receiveErrors == Wrap32(before.receiveErrors + c.receiveErrors)
  }

  lemma SendCounts(b: Bus, call: Call)
    requires b.Valid() && call.SendCall? && Defined(b, call)
    ensures Adds(b.status, Do(b, call).0.status, Counted(b, call))
  {
    hide RawMessage.Wire, EventMessage, Send, Errors, Wrap32;
    WrapAdd(b.status.messagesReceived, 0);
    WrapAdd(b.status.receiveErrors, 0);
    SendKeepsReceiveCounts(b, call);
    if call.message.Some? {
      SendRoutes(b, call.message.value, call.trailer, call.waits);
    } else {
      NullSendRoutes(b, call.trailer, call.waits);
    }
  }

  lemma SendKeepsReceiveCounts(b: Bus, call: Call)
    requires b.Valid() && call.SendCall? && Defined(b, call)
    ensures Do(b, call).0.status.messagesReceived == b.status.messagesReceived
    ensures Do(b, call).0.status.receiveErrors == b.status.receiveErrors
  {
    hide RawMessage.Wire, EventMessage, Attempts, Errors, Outcome;
    var m := Published(call);
    var counted := if call.message.Some?
      then b.(status := b.status.(messagesSent := Increment32(b.status.messagesSent)))
      else b.(status := b.status.(messagesSent := Increment32(Increment32(b.status.messagesSent)),
                                  sendErrors := Increment32(b.status.sendErrors)));
    FanOutResult(counted, m, |b.routes[m.packetId]|, call.waits);
  }

  lemma ReceiveCounts(b: Bus, call: Call)
    requires b.Valid() && call.ReceiveCall?
    ensures Adds(b.status, Do(b, call).0.status, Counted(b, call))
  {
    hide Receive, Delivers, ReadFails, Fifo.Valid;
    ReceiveAnswers(b, call.pipe, call.room, call.wait);
  }

  lemma StepCounts(b: Bus, call: Call)
    requires b.Valid() && Defined(b, call)
    ensures Adds(b.status, Do(b, call).0.status, Counted(b, call))
  {
    if call.SendCall? {
      hide *;
      SendCounts(b, call);
    } else if call.ReceiveCall? {
      hide *;
      ReceiveCounts(b, call);
    } else {
      hide Fifo.Valid;
    }
  }

  lemma AddsTwice(a: Status, b: Status, c: Status, x: Counts, y: Counts)
    requires Adds(a, b, x) && Adds(b, c, y)
    ensures Adds(a, c, Plus(x, y))
  {
    WrapAdd(a.messagesSent + x.sent, y.sent);
    WrapAdd(a.messagesReceived + x.received, y.received);
    WrapAdd(a.sendErrors + x.sendErrors, y.sendErrors);
    WrapAdd(a.receiveErrors + x.receiveErrors, y.receiveErrors);
  }

  /**
   * Over any run the counters are, modulo 2^32, the totals of the run. In particular the send errors
   * are the NULL sends plus the attempts that ended in neither OKAY nor TIMEOUT.
   */
  lemma {:induction false} RunAccounting(b: Bus, calls: seq<Call>)
    requires b.Valid() && AllDefined(b, calls)
    ensures Adds(b.status, End(b, calls).status, Total(b, calls))
    decreases |calls|
  {
    if calls != [] {
      hide Do, Counted, Bus.Valid, Defined, Adds;
      var b' := Do(b, calls[0]).0;
      StepCounts(b, calls[0]);
      RunAccounting(b', calls[1..]);
      AddsTwice(b.status, b'.status, End(b', calls[1..]).status, Counted(b, calls[0]), Total(b', calls[1..]));
    }
  }

  // ---------- pipes and registrations ----------

  /**
   * A created pipe has a new index and takes exactly num_msgs messages with up to msg_size_bytes of
   * data, unless the size of the header makes the slot size wrap around: then it takes none.
   */
  lemma CreateMakesRoom(b: Bus, found: bool, numMsgs: uint32, msgSize: uint32, memory: bool, m: Message)
    requires b.Valid()
    ensures var (b', result, pipe) := CreatePipe(b, found, numMsgs, msgSize, memory);
            && (result == MbResult.NullPointer <==> !found)
            && (result == MaxPipesReached <==> found && b.numPipes == MAX_PIPES)
            && (result == MbResult.Okay <==>
                  found && b.numPipes < MAX_PIPES && numMsgs > 0 && msgSize != 0x1_0000_0000 - HEADER_SIZE && memory)
            && (result != MbResult.Okay ==> b' == b && (found && b.numPipes < MAX_PIPES ==> result == PipeCreateFailed))
            && (result == MbResult.Okay ==>
                  && pipe == b.numPipes < MAX_PIPES && b'.numPipes == pipe + 1
                  && (forall p | 0 <= p < MAX_PIPES && p != pipe :: b'.pipes[p] == b.pipes[p])
                  && b'.pipes[pipe].contents == []
                  && Room(b'.pipes[pipe], m.Wire()) ==
                       (if |m.data| <= msgSize < 0x1_0000_0000 - HEADER_SIZE then numMsgs else 0))
  {
  }

  lemma {:induction false} CopiesOfPrefix(route: seq<nat>, more: seq<nat>, k: nat, p: nat)
    requires k <= |route|
    ensures Copies(route + more, k, p) == Copies(route, k, p)
    decreases k
  {
    if k > 0 {
      CopiesOfPrefix(route, more, k - 1, p);
    }
  }

  /** Each accepted registration means one more copy for that pipe, duplicates included, and no other change. */
  lemma RegisterAddsCopy(b: Bus, pipe: nat, packetId: nat, id: nat, p: nat)
    requires b.Valid() && Registrable(b, pipe, packetId) && id < NUM_PACKET_IDS
    ensures var (b', result) := Register(b, pipe, packetId);
            && (result == MbResult.Okay <==> Registers(b, pipe, packetId))
            && (result == InvalidPacketId <==> packetId > NUM_PACKET_IDS)
            && (result == InvalidPipe <==> packetId <= NUM_PACKET_IDS && pipe > b.numPipes)
            && (result == MaxPipesReached <==>
                  packetId < NUM_PACKET_IDS && pipe <= b.numPipes && |b.routes[packetId]| == MAX_PIPES_PER_PACKET)
            && Copies(b'.routes[id], |b'.routes[id]|, p) == Copies(b.routes[id], |b.routes[id]|, p)
                 + (if Registers(b, pipe, packetId) && id == packetId && p == pipe then 1 else 0)
            && b'.pipes == b.pipes && b'.status == b.status
  {
    CopiesOfPrefix(b.routes[id], [pipe], |b.routes[id]|, p);
  }

  // ---------- registered indices ----------

  /** Every registered index names a pipe that exists. */
  ghost predicate RoutesExist(b: Bus)
    requires b.Valid()
  {
    forall id, k | 0 <= id < NUM_PACKET_IDS && 0 <= k < |b.routes[id]| :: b.routes[id][k] < b.numPipes
  }

  /** mb_register_packet compares with > where >= is meant: it takes the index of the next pipe. */
  predicate RegistersNext(b: Bus, call: Call)
    requires b.Valid()
  {
    call.RegisterCall? && call.pipe == b.numPipes && Registers(b, call.pipe, call.packetId)
  }

  /** Exactly these calls break the property that registered pipes exist. */
  lemma StepRoutesExist(b: Bus, call: Call)
    requires b.Valid() && Defined(b, call) && RoutesExist(b)
    ensures RoutesExist(Do(b, call).0) <==> !RegistersNext(b, call)
  {
    if call.SendCall? {
      hide RawMessage.Wire, EventMessage, Send, Errors;
      if call.message.Some? {
        SendRoutes(b, call.message.value, call.trailer, call.waits);
      } else {
        NullSendRoutes(b, call.trailer, call.waits);
      }
    } else if RegistersNext(b, call) {
      var route := b.routes[call.packetId];
      assert Do(b, call).0.routes[call.packetId][|route|] == b.numPipes;
    } else if call.RegisterCall? {
      var b' := Do(b, call).0;
      forall id, k | 0 <= id < NUM_PACKET_IDS && 0 <= k < |b'.routes[id]| ensures b'.routes[id][k] < b'.numPipes {
        if k < |b.routes[id]| {
          assert b'.routes[id][k] == b.routes[id][k];
        }
      }
    }
  }

  /** A registration before any pipe exists is accepted, and stores the index of no pipe. */
  lemma RegisterBeforeCreate()
    ensures EMPTY.Valid() && RoutesExist(EMPTY)
    ensures var (b, reply) := Do(EMPTY, RegisterCall(0, 1)); reply.result == MbResult.Okay && !RoutesExist(b)
  {
    StepRoutesExist(EMPTY, RegisterCall(0, 1));
  }

  ghost predicate NeverNext(b: Bus, calls: seq<Call>)
    requires b.Valid() && AllDefined(b, calls)
    decreases |calls|
  {
    calls == [] || (!RegistersNext(b, calls[0]) && NeverNext(Do(b, calls[0]).0, calls[1..]))
  }

  /** In a run without such calls, every stored index names an existing pipe at the end. */
  lemma {:induction false} RunRoutesExist(b: Bus, calls: seq<Call>)
    requires b.Valid() && AllDefined(b, calls) && RoutesExist(b) && NeverNext(b, calls)
    ensures RoutesExist(End(b, calls))
    decreases |calls|
  {
    if calls != [] {
      StepRoutesExist(b, calls[0]);
      RunRoutesExist(Do(b, calls[0]).0, calls[1..]);
    }
  }
}
