/** What each call of the message bus answers, and what it counts, from the state before the call alone. */
module BusAnswers {
  import opened Basics
  import opened OsTypes
  import opened Fifos
  import opened Buses
  import opened BusRouting

  // ---------- receiving ----------

  /** A receive that reaches the queue of an existing pipe with room for its slots. */
  predicate Reaches(b: Bus, pipe: nat, room: Option<nat>)
    requires b.Valid()
  {
    room.Some? && pipe < b.numPipes && room.value >= b.pipes[pipe].slotSize
  }

  predicate Delivers(b: Bus, pipe: nat, room: Option<nat>)
    requires b.Valid()
  {
    Reaches(b, pipe, room) && b.pipes[pipe].contents != []
  }

  /** A receive from an existing pipe that fails for another reason than a timeout. */
  predicate ReadFails(b: Bus, pipe: nat, room: Option<nat>, wait: WaitFailure)
    requires b.Valid()
  {
    && room.Some? && pipe < b.numPipes
    && (room.value < b.pipes[pipe].slotSize || (b.pipes[pipe].contents == [] && wait == Failed))
  }

  /**
   * mb_receive: OKAY exactly for an existing pipe that holds a message, with enough room, and then
   * the oldest message. A timeout changes nothing at all; any other failure of an existing pipe is
   * counted, and the error fields name that pipe and the code of its queue.
   */
  lemma ReceiveAnswers(b: Bus, pipe: nat, room: Option<nat>, wait: WaitFailure)
    requires b.Valid()
    ensures var (b', result, bytes) := Receive(b, pipe, room, wait);
            && (result == MbResult.NullPointer <==> room.None?)
            && (result == MbResult.InvalidArguments <==> room.Some? && pipe >= b.numPipes)
            && (result == MbResult.Okay <==> Delivers(b, pipe, room))
            && (result == MbResult.Timeout <==>
                  Reaches(b, pipe, room) && b.pipes[pipe].contents == [] && wait == TimedOut)
            && (result == PipeReadError <==> ReadFails(b, pipe, room, wait))
            && (if result == MbResult.Okay then
                  && [bytes] + b'.pipes[pipe].contents == b.pipes[pipe].contents
                  && b' == b.(pipes := b.pipes[pipe := b'.pipes[pipe]],
                              status := b.status.(messagesReceived := Increment32(b.status.messagesReceived)))
                else if result == PipeReadError then
                  var code := if room.value < b.pipes[pipe].slotSize then MsgSizeError else OsResult.Error;
                  && bytes == []
                  && b' == b.(status := b.status.(receiveErrorPipe := pipe, receiveErrorCode := code,
                                                  receiveErrors := Increment32(b.status.receiveErrors)))
                else b' == b && bytes == [])
  {
    hide Fifo.Valid;
    if room.Some? && pipe < b.numPipes {
      var f := b.pipes[pipe];
      if f.contents != [] {
        assert f.contents == [f.contents[0]] + f.contents[1..];
      }
      assert b.pipes[pipe := f] == b.pipes;
    }
  }

  // ---------- sending ----------

  /**
   * The k-th attempt of a send: it succeeds exactly if the message fits a slot and there is room left
   * after the copies the same pipe has got before; only a timeout is no error.
   */
  lemma AttemptAnswers(b: Bus, m: Message, k: nat, waits: seq<WaitFailure>)
    requires b.Valid() && m.packetId < NUM_PACKET_IDS && k < |b.routes[m.packetId]|
    ensures var route, os := b.routes[m.packetId], Outcome(b, m, k, waits);
            var f := b.pipes[route[k]];
            var fits, free := HEADER_SIZE + |m.data| <= f.slotSize,
                              |f.contents| + Copies(route, k, route[k]) < f.capacity;
            && (os == OsResult.Okay <==> fits && free)
            && (os == OsResult.Timeout <==> fits && !free && WaitAt(waits, k) == TimedOut)
            && (os == OsResult.Error <==> fits && !free && WaitAt(waits, k) == Failed)
            && (os == MsgSizeError <==> !fits)
            && (IsError(os) <==> !fits || (!free && WaitAt(waits, k) == Failed))
  {
  }

  /**
   * mb_send to at least one pipe: the last registered one decides. OKAY exactly if the message fits
   * and there is room left after the copies it has got before in this send; TIMEOUT if it is full and
   * the wait times out; and SEND_ERROR otherwise.
   */
  lemma SendAnswers(b: Bus, m: Message, trailer: Trailer, waits: seq<WaitFailure>)
    requires b.Valid() && m.packetId < NUM_PACKET_IDS && b.routes[m.packetId] != []
    ensures var route := b.routes[m.packetId];
            var last := |route| - 1;
            var f, result := b.pipes[route[last]], Send(b, Some(m), trailer, waits).1;
            var fits, free := HEADER_SIZE + |m.data| <= f.slotSize,
                              |f.contents| + Copies(route, last, route[last]) < f.capacity;
            && (result == MbResult.Okay <==> fits && free)
            && (result == MbResult.Timeout <==> fits && !free && WaitAt(waits, last) == TimedOut)
            && (result == MbResult.SendError <==> !fits || (!free && WaitAt(waits, last) == Failed))
  {
    hide RawMessage.Wire, Attempts, Errors, Fifo.Valid, AllTook, Wrap32;
    SendRoutes(b, m, trailer, waits);
  }

  /**
   * em_event: for the module ids 1 to 5 the event is routed like any message, and counted as
   * received if that send is OKAY, as an error if not. Any other id is counted and goes nowhere.
   */
  lemma EventAnswers(b: Bus, moduleId: nat, eventId: nat, line: nat, trailer: Trailer, waits: seq<WaitFailure>)
    requires b.Valid()
    ensures var m := EventMessage(moduleId, eventId, line, trailer);
            var b', sent := Event(b, moduleId, eventId, line, trailer, waits), Send(b, Some(m), trailer, waits);
            var e := b.events;
            if 1 <= moduleId <= 5 then
              && b'.pipes == sent.0.pipes && b'.status == sent.0.status
              && b'.events == if sent.1 == MbResult.Okay
                              then EventStatus(Increment32(e.messagesReceived), e.messageErrors, e.invalidReceived)
                              else EventStatus(e.messagesReceived, Increment32(e.messageErrors), e.invalidReceived)
            else
              b' == b.(events := EventStatus(e.messagesReceived, e.messageErrors, Increment32(e.invalidReceived)))
  {
    hide RawMessage.Wire, Attempts, Outcome, Errors, EventMessage, Fifo.Valid, AllTook, Wrap32;
    SendRoutes(b, EventMessage(moduleId, eventId, line, trailer), trailer, waits);
  }
}
