/** The state of the message bus and event modules as a value, and what one call does to it. */
module Buses {
  import opened Arithmetic
  import opened Basics
  import opened OsTypes
  import opened Fifos

  const MAX_PIPES := 100
  const MAX_PIPES_PER_PACKET := 10
  const NUM_PACKET_IDS := 4
  const HEADER_SIZE := 4
  const PACKET_TYPE_TELEMETRY: byte := 2
  const PACKET_ID_EVENT: byte := 2
  const MODULE_MB := 3
  const NUM_MODULES := 6
  const EVENT_NULL_POINTER := 1001
  const NULL_SEND_LINE := 50

  datatype MbResult = Okay | NullPointer | MaxPipesReached | PipeCreateFailed | InvalidArguments | PipeReadError
                    | InvalidPipe | Timeout | SendError | InvalidPacketId | NoReceiver

  // ---------- messages ----------

  datatype RawMessage = Message(packetType: byte, packetId: byte, data: Bytes) {
    /** The header, with the 16-bit length field, followed by the data. */
    function Wire(): (w: Bytes)
      requires |data| < 0x1_0000
      ensures |w| == HEADER_SIZE + |data|
    {
      [packetType, packetId] + LittleEndian(|data|, 2) + data
    }
  }

  type Message = m: RawMessage | |m.data| < 0x1_0000 witness Message(0, 0, [])

  function LittleEndian(x: nat, size: nat): (b: Bytes)
    ensures |b| == size
  {
    if size == 0 then [] else [x % 0x100] + LittleEndian(x / 0x100, size - 1)
  }

  /** The four bytes that follow an EM_Event in memory, which its length field also covers. */
  type Trailer = t: Bytes | |t| == 4 witness [0, 0, 0, 0]

  /** What em_event sends: its length field is the size of the whole structure, header included. */
  function EventMessage(moduleId: nat, eventId: nat, line: nat, trailer: Trailer): (m: Message)
    ensures m.packetType == PACKET_TYPE_TELEMETRY && m.packetId == PACKET_ID_EVENT && |m.data| == 32
  {
    Message(PACKET_TYPE_TELEMETRY, PACKET_ID_EVENT,
            LittleEndian(moduleId, 4) + LittleEndian(eventId, 2) + LittleEndian(line, 2)
            + LittleEndian(0, 20) + trailer)
  }

  function FromLittleEndian(b: Bytes): nat {
    if b == [] then 0 else b[0] + 0x100 * FromLittleEndian(b[1..])
  }

  function Pow256(k: nat): (p: nat)
    ensures p >= 1
  {
    if k == 0 then 1 else 0x100 * Pow256(k - 1)
  }

  /** A field keeps as many low bytes of a value as it has. */
  lemma {:induction false} LittleEndianValue(x: nat, size: nat)
    ensures FromLittleEndian(LittleEndian(x, size)) == x % Pow256(size)
    decreases size
  {
    if size > 0 {
      LittleEndianValue(x / 0x100, size - 1);
      assert LittleEndian(x, size)[1..] == LittleEndian(x / 0x100, size - 1);
      RemainderSplit256(x, Pow256(size - 1));
    }
  }

  /** A receiver finds the header fields, the true length and the data in the bytes. */
  lemma WireRoundTrip(m: Message)
    ensures var w := m.Wire();
            && w[0] == m.packetType && w[1] == m.packetId
            && FromLittleEndian(w[2..4]) == |m.data| && w[HEADER_SIZE..] == m.data
  {
    var w := m.Wire();
    LittleEndianValue(|m.data|, 2);
    assert Pow256(2) == 0x1_0000 by { assert Pow256(1) == 0x100; }
    assert w[2..4] == LittleEndian(|m.data|, 2);
  }

  /** Where em_event puts its fields; the event id and the line lose their upper halves. */
  lemma EventFields(moduleId: nat, eventId: nat, line: nat, trailer: Trailer)
    ensures var d := EventMessage(moduleId, eventId, line, trailer).data;
            && FromLittleEndian(d[..4]) == moduleId % Pow256(4)
            && FromLittleEndian(d[4..6]) == eventId % Pow256(2)
            && FromLittleEndian(d[6..8]) == line % Pow256(2)
            && (forall i | 8 <= i < 28 :: d[i] == 0)
            && d[28..] == trailer
  {
    var d := EventMessage(moduleId, eventId, line, trailer).data;
    LittleEndianValue(moduleId, 4);
    LittleEndianValue(eventId, 2);
    LittleEndianValue(line, 2);
    hide LittleEndian, FromLittleEndian, Pow256;
    assert d[..4] == LittleEndian(moduleId, 4);
    assert d[4..6] == LittleEndian(eventId, 2);
    assert d[6..8] == LittleEndian(line, 2);
    ZeroBytes(20);
    assert d[8..28] == LittleEndian(0, 20);
    assert forall i | 8 <= i < 28 :: d[i] == d[8..28][i - 8];
  }

  lemma {:induction false} ZeroBytes(size: nat)
    ensures forall i | 0 <= i < size :: LittleEndian(0, size)[i] == 0
    decreases size
  {
    if size > 0 {
      ZeroBytes(size - 1);
      assert LittleEndian(0, size) == [0] + LittleEndian(0, size - 1);
    }
  }

  // ---------- state ----------

  datatype Status = Status(messagesSent: uint32, messagesReceived: uint32, sendErrors: uint32, receiveErrors: uint32,
                           sendErrorPacketId: nat, sendErrorPipeIndex: nat, sendErrorCode: OsResult,
                           receiveErrorPipe: nat, receiveErrorCode: OsResult)

  datatype EventStatus = EventStatus(messagesReceived: uint32, messageErrors: uint32, invalidReceived: uint32)

  datatype Bus = Bus(numPipes: nat, pipes: seq<Fifo>, routes: seq<seq<nat>>, status: Status, events: EventStatus) {
    /** A registered index may be num_pipes itself: such a pipe is still all zero. */
    ghost predicate Valid() {
      && |pipes| == MAX_PIPES && numPipes <= MAX_PIPES && |routes| == NUM_PACKET_IDS
      && (forall p | 0 <= p < MAX_PIPES :: pipes[p].Valid())
      && (forall p | numPipes <= p < MAX_PIPES :: pipes[p] == ZEROED)
      && (forall id | 0 <= id < NUM_PACKET_IDS :: |routes[id]| <= MAX_PIPES_PER_PACKET)
      && (forall id, k | 0 <= id < NUM_PACKET_IDS && 0 <= k < |routes[id]| ::
            routes[id][k] <= numPipes && routes[id][k] < MAX_PIPES)
    }
  }

  /** After mb_initialize and em_initialize. */
  const EMPTY := Bus(0, seq(MAX_PIPES, _ => ZEROED), seq(NUM_PACKET_IDS, _ => []),
                     Status(0, 0, 0, 0, 0, 0, OsResult.Error, 0, OsResult.Error), EventStatus(0, 0, 0))

  // ---------- sending ----------

  function ToMbResult(os: OsResult): MbResult {
    match os
    case Okay => MbResult.Okay
    case Timeout => MbResult.Timeout
    case _ => MbResult.SendError
  }

  function CountSendError(s: Status, packetId: nat, pipeIndex: nat, code: OsResult): Status {
    s.(sendErrorPacketId := packetId, sendErrorPipeIndex := pipeIndex, sendErrorCode := code,
       sendErrors := Increment32(s.sendErrors))
  }

  /** How waiting for the k-th pipe would end; with nothing said, it times out. */
  function WaitAt(waits: seq<WaitFailure>, k: nat): WaitFailure {
    if k < |waits| then waits[k] else TimedOut
  }

  /** One pass of the loop of mb_send: the k-th registered pipe is tried. */
  function Attempt(b: Bus, m: Message, k: nat, wait: WaitFailure): (r: (Bus, MbResult))
    requires b.Valid() && m.packetId < NUM_PACKET_IDS && k < |b.routes[m.packetId]|
    ensures r.0.Valid() && r.0.routes == b.routes && r.0.numPipes == b.numPipes && r.0.events == b.events
  {
    var pipe := b.routes[m.packetId][k];
    var (queue, os) := b.pipes[pipe].Send(Some(m.Wire()), wait);
    (b.(pipes := b.pipes[pipe := queue],
        status := if os == OsResult.Okay || os == OsResult.Timeout then b.status
                  else CountSendError(b.status, m.packetId, k, os)),
     ToMbResult(os))
  }

  /** The first k passes of the loop. */
  function Attempts(b: Bus, m: Message, k: nat, waits: seq<WaitFailure>): (r: (Bus, MbResult))
    requires b.Valid() && m.packetId < NUM_PACKET_IDS && k <= |b.routes[m.packetId]|
    ensures r.0.Valid() && r.0.routes == b.routes && r.0.numPipes == b.numPipes && r.0.events == b.events
  {
    if k == 0 then (b, NoReceiver) else
    var (before, _) := Attempts(b, m, k - 1, waits);
    Attempt(before, m, k - 1, WaitAt(waits, k - 1))
  }

  function SendMessage(b: Bus, m: Message, waits: seq<WaitFailure>): (r: (Bus, MbResult))
    requires b.Valid() && m.packetId < NUM_PACKET_IDS
    ensures r.0.Valid()
  {
    Attempts(b.(status := b.status.(messagesSent := Increment32(b.status.messagesSent))),
             m, |b.routes[m.packetId]|, waits)
  }

  function Event(b: Bus, moduleId: nat, eventId: nat, line: nat, trailer: Trailer, waits: seq<WaitFailure>): (r: Bus)
    requires b.Valid()
    ensures r.Valid()
  {
    if moduleId != 0 && moduleId < NUM_MODULES then
      var (b', result) := SendMessage(b, EventMessage(moduleId, eventId, line, trailer), waits);
      if result == MbResult.Okay
      then b'.(events := b'.events.(messagesReceived := Increment32(b'.events.messagesReceived)))
      else b'.(events := b'.events.(messageErrors := Increment32(b'.events.messageErrors)))
    else
      b.(events := b.events.(invalidReceived := Increment32(b.events.invalidReceived)))
  }

  /** mb_send; a NULL message is reported by an event, which is itself sent over the bus. */
  function Send(b: Bus, message: Option<Message>, trailer: Trailer, waits: seq<WaitFailure>): (r: (Bus, MbResult))
    requires b.Valid() && (message.Some? ==> message.value.packetId < NUM_PACKET_IDS)
    ensures r.0.Valid()
  {
    if message.Some? then SendMessage(b, message.value, waits) else
    var counted := b.(status := b.status.(messagesSent := Increment32(b.status.messagesSent),
                                          sendErrors := Increment32(b.status.sendErrors)));
    (Event(counted, MODULE_MB, EVENT_NULL_POINTER, NULL_SEND_LINE, trailer, waits), MbResult.NullPointer)
  }

  // ---------- the other calls ----------

  /** mb_receive; `room` is the buffer size that reaches the queue, None when a pointer is NULL. */
  function Receive(b: Bus, pipe: nat, room: Option<nat>, wait: WaitFailure): (r: (Bus, MbResult, Bytes))
    requires b.Valid()
    ensures r.0.Valid()
  {
    if room.None? then (b, MbResult.NullPointer, [])
    else if pipe >= b.numPipes then (b, MbResult.InvalidArguments, [])
    else
      var (queue, os, bytes) := b.pipes[pipe].Receive(room, wait);
      var b' := b.(pipes := b.pipes[pipe := queue]);
      match os
      case Okay => (b'.(status := b.status.(messagesReceived := Increment32(b.status.messagesReceived))),
                    MbResult.Okay, bytes)
      case Timeout => (b', MbResult.Timeout, [])
      case _ => (b'.(status := b.status.(receiveErrorPipe := pipe, receiveErrorCode := os,
                                         receiveErrors := Increment32(b.status.receiveErrors))), PipeReadError, [])
  }

  /** mb_create_pipe; `memory` is whether os_queue_create gets its memory. */
  function CreatePipe(b: Bus, found: bool, numMsgs: uint32, msgSize: uint32, memory: bool): (r: (Bus, MbResult, nat))
    requires b.Valid()
    ensures r.0.Valid()
  {
    var slotSize := Wrap32(HEADER_SIZE + msgSize);
    if !found then (b, MbResult.NullPointer, 0)
    else if b.numPipes >= MAX_PIPES then (b, MaxPipesReached, 0)
    else if numMsgs == 0 || slotSize == 0 || !memory then (b, PipeCreateFailed, 0)
    else (b.(pipes := b.pipes[b.numPipes := Fifo(numMsgs, slotSize, [])], numPipes := b.numPipes + 1),
          MbResult.Okay, b.numPipes)
  }

  predicate Registers(b: Bus, pipe: nat, packetId: nat)
    requires |b.routes| == NUM_PACKET_IDS
  {
    pipe <= b.numPipes && packetId < NUM_PACKET_IDS && |b.routes[packetId]| < MAX_PIPES_PER_PACKET
  }

  /**
   * The other calls of mb_register_packet read the entry of packet id 4, behind the end of the table,
   * or store an index behind the end of the array of pipes.
   */
  predicate Registrable(b: Bus, pipe: nat, packetId: nat)
    requires |b.routes| == NUM_PACKET_IDS
  {
    && !(packetId == NUM_PACKET_IDS && pipe <= b.numPipes)
    && !(pipe == MAX_PIPES && Registers(b, pipe, packetId))
  }

  /** mb_register_packet. */
  function Register(b: Bus, pipe: nat, packetId: nat): (r: (Bus, MbResult))
    requires b.Valid() && Registrable(b, pipe, packetId)
    ensures r.0.Valid()
  {
    if packetId > NUM_PACKET_IDS then (b, InvalidPacketId)
    else if pipe > b.numPipes then (b, InvalidPipe)
    else if |b.routes[packetId]| >= MAX_PIPES_PER_PACKET then (b, MaxPipesReached)
    else (b.(routes := b.routes[packetId := b.routes[packetId] + [pipe]]), MbResult.Okay)
  }
}
