/** The message bus and event modules as the source writes them: one state, updated in place. */
module MessageBuses {
  import opened Basics
  import opened OsTypes
  import opened Fifos
  import opened Buses

  class MessageBus {
    var numPipes: nat
    var pipes: seq<Fifo>
    var routes: seq<seq<nat>>
    var status: Status
    var events: EventStatus

    function View(): Bus
      reads this
    {
      Bus(numPipes, pipes, routes, status, events)
    }

    ghost predicate Valid()
      reads this
    {
      View().Valid()
    }

    /** mb_initialize and em_initialize. */
    constructor ()
      ensures Valid() && View() == EMPTY
    {
      numPipes, pipes, routes := 0, EMPTY.pipes, EMPTY.routes;
      status, events := EMPTY.status, EMPTY.events;
    }

    /** mb_send: None is a NULL message. */
    method Send(message: Option<Message>, trailer: Trailer, waits: seq<WaitFailure>) returns (result: MbResult)
      requires Valid() && (message.Some? ==> message.value.packetId < NUM_PACKET_IDS)
      modifies this
      ensures Valid() && (View(), result) == Buses.Send(old(View()), message, trailer, waits)
      decreases if message.None? then 1 else 0, 1
    {
      result := MbResult.Okay;
      status := status.(messagesSent := Increment32(status.messagesSent));
      if message.None? {
        result := MbResult.NullPointer;
        status := status.(sendErrors := Increment32(status.sendErrors));
        EmEvent(MODULE_MB, EVENT_NULL_POINTER, NULL_SEND_LINE, trailer, waits);
      }
      if result == MbResult.Okay {
        result := TryPipes(message.value, waits);
      }
    }

    /** The loop of mb_send. */
    method TryPipes(m: Message, waits: seq<WaitFailure>) returns (result: MbResult)
      requires Valid() && m.packetId < NUM_PACKET_IDS
      modifies this
      ensures Valid() && (View(), result) == Attempts(old(View()), m, |old(routes)[m.packetId]|, waits)
    {
      hide RawMessage.Wire, Fifo.Valid;
      ghost var start := View();
      result := NoReceiver;
      var pipeIndex := 0;
      while pipeIndex < |routes[m.packetId]|
        invariant View().Valid() && routes == start.routes
        invariant pipeIndex <= |start.routes[m.packetId]|
        invariant (View(), result) == Attempts(start, m, pipeIndex, waits)
      {
        ghost var before := View();
        var pipe := routes[m.packetId][pipeIndex];
        var (queue, osResult) := pipes[pipe].Send(Some(m.Wire()), WaitAt(waits, pipeIndex));
        pipes := pipes[pipe := queue];
        if osResult == OsResult.Okay {
          result := MbResult.Okay;
        } else {
          if osResult == OsResult.Timeout {
            result := MbResult.Timeout;
          } else {
            result := MbResult.SendError;
            status := CountSendError(status, m.packetId, pipeIndex, osResult);
          }
        }
        assert (View(), result) == Attempt(before, m, pipeIndex, WaitAt(waits, pipeIndex));
        pipeIndex := pipeIndex + 1;
      }
    }

    /** em_event; its message is never NULL, so its own send raises no further event. */
    method EmEvent(moduleId: nat, eventId: nat, line: nat, trailer: Trailer, waits: seq<WaitFailure>)
      requires Valid()
      modifies this
      ensures Valid() && View() == Buses.Event(old(View()), moduleId, eventId, line, trailer, waits)
      decreases 1, 0
    {
      if moduleId != 0 && moduleId < NUM_MODULES {
        var result := Send(Some(EventMessage(moduleId, eventId, line, trailer)), trailer, waits);
        if result == MbResult.Okay {
          events := events.(messagesReceived := Increment32(events.messagesReceived));
        } else {
          events := events.(messageErrors := Increment32(events.messageErrors));
        }
      } else {
        events := events.(invalidReceived := Increment32(events.invalidReceived));
      }
    }

    /** mb_receive: `room` is None when the message or the size pointer is NULL. */
    method Receive(pipe: nat, room: Option<nat>, wait: WaitFailure) returns (result: MbResult, bytes: Bytes)
      requires Valid()
      modifies this
      ensures Valid() && (View(), result, bytes) == Buses.Receive(old(View()), pipe, room, wait)
    {
      result, bytes := MbResult.Okay, [];
      if room.None? {
        result := MbResult.NullPointer;
      }
      if result == MbResult.Okay {
        if pipe >= numPipes {
          result := MbResult.InvalidArguments;
        }
      }
      if result == MbResult.Okay {
        var (queue, osResult, received) := pipes[pipe].Receive(room, wait);
        pipes := pipes[pipe := queue];
        if osResult == OsResult.Okay {
          status := status.(messagesReceived := Increment32(status.messagesReceived));
          bytes := received;
        } else {
          if osResult == OsResult.Timeout {
            result := MbResult.Timeout;
          } else {
            result := PipeReadError;
            status := status.(receiveErrorPipe := pipe, receiveErrorCode := osResult,
                              receiveErrors := Increment32(status.receiveErrors));
          }
        }
      }
    }

    /** mb_create_pipe. */
    method CreatePipe(found: bool, numMsgs: uint32, msgSize: uint32, memory: bool) returns (result: MbResult, pipe: nat)
      requires Valid()
      modifies this
      ensures Valid() && (View(), result, pipe) == Buses.CreatePipe(old(View()), found, numMsgs, msgSize, memory)
    {
      result, pipe := MbResult.Okay, 0;
      if !found {
        result := MbResult.NullPointer;
      }
      if result == MbResult.Okay {
        if numPipes >= MAX_PIPES {
          result := MaxPipesReached;
        }
      }
      if result == MbResult.Okay {
        var slotSize := Wrap32(HEADER_SIZE + msgSize);
        if numMsgs == 0 || slotSize == 0 || !memory {
          result := PipeCreateFailed;
        } else {
          pipes := pipes[numPipes := Fifo(numMsgs, slotSize, [])];
        }
      }
      if result == MbResult.Okay {
        pipe := numPipes;
        numPipes := numPipes + 1;
      }
    }

    /** mb_register_packet. */
    method Register(pipe: nat, packetId: nat) returns (result: MbResult)
      requires Valid() && Registrable(View(), pipe, packetId)
      modifies this
      ensures Valid() && (View(), result) == Buses.Register(old(View()), pipe, packetId)
    {
      result := MbResult.Okay;
      if pipe > numPipes {
        result := InvalidPipe;
      }
      if packetId > NUM_PACKET_IDS {
        result := InvalidPacketId;
      }
      if result == MbResult.Okay {
        if |routes[packetId]| >= MAX_PIPES_PER_PACKET {
          result := MaxPipesReached;
        }
      }
      if result == MbResult.Okay {
        routes := routes[packetId := routes[packetId] + [pipe]];
      }
    }
  }
}
