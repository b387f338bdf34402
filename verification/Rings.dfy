/**
 * The contents of an OS_Queue structure as a value: a flat byte buffer cut into slots, the sizes
 * of the messages in them, two offsets and a count. All the arithmetic is that of the C code.
 */
module Rings {
  import opened Basics
  import opened OsTypes
  import opened Arithmetic
  import opened Fifos

  // ---------- slot arithmetic ----------

  /** malloc(num_msgs * msg_size_bytes): an unsigned 32-bit product. */
  function AllocationSize(numMsgs: uint32, msgSize: uint32): uint32 {
    Wrap32(numMsgs * msgSize)
  }

  /** int buffer_offset = msg_size_bytes * offset: an unsigned 32-bit product stored in an int. */
  function BufferOffset(msgSize: uint32, i: uint32): int {
    ToInt32(Wrap32(msgSize * i))
  }

  ghost predicate SlotInside(numMsgs: uint32, msgSize: uint32, i: uint32) {
    0 <= BufferOffset(msgSize, i) && BufferOffset(msgSize, i) + msgSize <= AllocationSize(numMsgs, msgSize)
  }

  /** The check that os_queue_create does not make. */
  predicate SlotsFit(numMsgs: uint32, msgSize: uint32) {
    (numMsgs - 1) * msgSize < INT32_RANGE
  }

  lemma ProductFits(numMsgs: uint32, msgSize: uint32)
    requires 1 <= numMsgs && SlotsFit(numMsgs, msgSize)
    ensures AllocationSize(numMsgs, msgSize) == numMsgs * msgSize
  {
    assert numMsgs * msgSize == (numMsgs - 1) * msgSize + msgSize;
    if numMsgs > 1 {
      MulOrder(1, numMsgs - 1, msgSize);
    }
  }

  lemma OffsetExact(numMsgs: uint32, msgSize: uint32, i: uint32)
    requires SlotsFit(numMsgs, msgSize) && i < numMsgs
    ensures BufferOffset(msgSize, i) == msgSize * i
    ensures 0 <= msgSize * i && msgSize * i + msgSize <= numMsgs * msgSize
  {
    MulOrder(i, numMsgs - 1, msgSize);
    MulOrder(i, numMsgs, msgSize);
  }

  /** A slot whose offset lands in the negative half of int, when the last slot starts past 2^31. */
  lemma {:induction false} NegativeOffset(numMsgs: uint32, msgSize: uint32, i: uint32) returns (bad: uint32)
    requires 1 <= msgSize && i < numMsgs && msgSize * i >= INT32_RANGE
    ensures bad < numMsgs && BufferOffset(msgSize, bad) < 0
    decreases i
  {
    bad := i;
    if i == 1 {
      assert msgSize * i == msgSize;
    } else {
      assert msgSize * i == msgSize * (i - 1) + msgSize;
      if msgSize * (i - 1) >= INT32_RANGE {
        bad := NegativeOffset(numMsgs, msgSize, i - 1);
      } else if msgSize >= INT32_RANGE {
        MulOrder(1, i - 1, msgSize);
        assert false;
      }
    }
  }

  /** Every slot lies inside the allocation exactly when the last slot starts below 2^31. */
  lemma SlotsInsideIff(numMsgs: uint32, msgSize: uint32)
    requires 1 <= numMsgs && 1 <= msgSize
    ensures (forall i: uint32 | i < numMsgs :: SlotInside(numMsgs, msgSize, i)) <==> SlotsFit(numMsgs, msgSize)
  {
    if SlotsFit(numMsgs, msgSize) {
      ProductFits(numMsgs, msgSize);
      forall i: uint32 | i < numMsgs ensures SlotInside(numMsgs, msgSize, i) {
        OffsetExact(numMsgs, msgSize, i);
      }
    } else {
      var bad := NegativeOffset(numMsgs, msgSize, numMsgs - 1);
      assert !SlotInside(numMsgs, msgSize, bad);
    }
  }

  /** Distinct slots share no byte. */
  lemma SlotsDisjoint(numMsgs: uint32, msgSize: uint32, i: uint32, j: uint32)
    requires SlotsFit(numMsgs, msgSize) && i < numMsgs && j < numMsgs && i != j
    ensures || BufferOffset(msgSize, i) + msgSize <= BufferOffset(msgSize, j)
            || BufferOffset(msgSize, j) + msgSize <= BufferOffset(msgSize, i)
  {
    OffsetExact(numMsgs, msgSize, i);
    OffsetExact(numMsgs, msgSize, j);
    if i < j { MulOrder(i, j, msgSize); } else { MulOrder(j, i, msgSize); }
  }

  // ---------- the ring ----------

  function Overwrite(buffer: Bytes, offset: nat, msg: Bytes): Bytes
    requires offset + |msg| <= |buffer|
  {
    buffer[..offset] + msg + buffer[offset + |msg|..]
  }

  /** Offsets wrap around at the number of slots. */
  function Wrap(x: nat, n: nat): (i: nat)
    requires 0 < n
    ensures i < n
  {
    x % n
  }

  datatype Ring = Ring(numMsgs: uint32, msgSize: uint32, buffer: Bytes, sizes: seq<uint32>,
                       readOffset: uint32, writeOffset: uint32, numQueued: uint32)
  {
    /** The shape os_queue_create gives a queue, and no operation changes. */
    predicate Allocated() {
      && 1 <= numMsgs && 1 <= msgSize && SlotsFit(numMsgs, msgSize)
      && |buffer| == AllocationSize(numMsgs, msgSize)
      && |sizes| == numMsgs
      && readOffset < numMsgs && writeOffset < numMsgs
    }

    /** The bytes memcpy takes from slot i; a copy that would leave the buffer is outside the model. */
    function Slot(i: uint32): Bytes
      requires i < |sizes|
    {
      var start := BufferOffset(msgSize, i);
      if 0 <= start && start + sizes[i] <= |buffer| then buffer[start..start + sizes[i]] else []
    }

    /** The index of the k-th unread slot. */
    function At(k: nat): (i: uint32)
      requires 1 <= numMsgs
      ensures i < numMsgs
    {
      Wrap(readOffset + k, numMsgs)
    }

    /** What holds between any two operations. */
    ghost predicate Good() {
      && Allocated()
      && numQueued <= numMsgs
      && writeOffset == At(numQueued)
      && forall k: nat | k < numQueued :: sizes[At(k)] <= msgSize
    }

    /** The unread messages, oldest first. */
    function Contents(): (c: seq<Bytes>)
      requires Allocated()
    {
      seq(numQueued, k requires 0 <= k < numQueued => Slot(At(k)))
    }

    ghost function Abstract(): Fifo
      requires Allocated()
    {
      Fifo(numMsgs, msgSize, Contents())
    }

    /** The critical section of os_queue_send. It trusts its caller that there is space. */
    function Stored(msg: Bytes): (r: Ring)
      requires Allocated() && |msg| <= msgSize
      ensures r.Allocated()
    {
      ProductFits(numMsgs, msgSize);
      OffsetExact(numMsgs, msgSize, writeOffset);
      this.(sizes := sizes[writeOffset := |msg|],
            buffer := Overwrite(buffer, BufferOffset(msgSize, writeOffset), msg),
            writeOffset := Wrap(writeOffset + 1, numMsgs),
            numQueued := Increment32(numQueued))
    }

    /** The critical section of os_queue_receive. It trusts its caller that there is a message. */
    function Loaded(): (r: Ring)
      requires Allocated()
      ensures r.Allocated()
    {
      this.(readOffset := Wrap(readOffset + 1, numMsgs),
            numQueued := Decrement32(numQueued))
    }

    /** os_queue_send for a lone caller (see Fifo.Send). */
    function Send(msg: Option<Bytes>, wait: WaitFailure): (Ring, OsResult)
      requires Allocated()
    {
      if msg.None? then (this, NullPointer)
      else if |msg.value| > msgSize then (this, MsgSizeError)
      else if numQueued == numMsgs then (this, WaitResult(wait))
      else (Stored(msg.value), Okay)
    }

    /** os_queue_receive for a lone caller (see Fifo.Receive). */
    function Receive(room: Option<nat>, wait: WaitFailure): (Ring, OsResult, Bytes)
      requires Allocated()
    {
      if room.None? then (this, NullPointer, [])
      else if room.value < msgSize then (this, MsgSizeError, [])
      else if numQueued == 0 then (this, WaitResult(wait), [])
      else (Loaded(), Okay, Slot(readOffset))
    }
  }

  // ---------- the ring is a queue ----------

  /** Two unread positions, or an unread position and the next free one, are different slots. */
  lemma DistinctSlots(r: Ring, a: nat, b: nat)
    requires 1 <= r.numMsgs && a < b < a + r.numMsgs
    ensures r.At(a) != r.At(b)
  {
    var n := r.numMsgs;
    var x, d := r.readOffset + a, b - a;
    AddMod(x, d, n);
    if x % n + d < n {
      UniqueRemainder(x % n + d, n, 0, x % n + d);
    } else {
      UniqueRemainder(x % n + d, n, 1, x % n + d - n);
    }
  }

  lemma FirstSlot(r: Ring)
    requires r.readOffset < r.numMsgs
    ensures r.At(0) == r.readOffset
  {
    UniqueRemainder(r.readOffset, r.numMsgs, 0, r.readOffset);
  }

  lemma NextSlot(r: Ring, k: nat)
    requires 1 <= r.numMsgs
    ensures Wrap(r.At(k) + 1, r.numMsgs) == r.At(k + 1)
    ensures Wrap(Wrap(r.readOffset + 1, r.numMsgs) + k, r.numMsgs) == r.At(k + 1)
  {
    AddMod(r.readOffset + k, 1, r.numMsgs);
    AddMod(r.readOffset + 1, k, r.numMsgs);
  }

  /** The written slot holds the message. */
  lemma WriteLands(r: Ring, msg: Bytes)
    requires r.Allocated() && |msg| <= r.msgSize
    ensures r.Stored(msg).Slot(r.writeOffset) == msg
  {
    ProductFits(r.numMsgs, r.msgSize);
    OffsetExact(r.numMsgs, r.msgSize, r.writeOffset);
  }

  /** The bytes and the size of every other slot stay. */
  lemma WriteIsLocal(r: Ring, msg: Bytes, i: uint32)
    requires r.Allocated() && |msg| <= r.msgSize
    requires i < r.numMsgs && i != r.writeOffset && r.sizes[i] <= r.msgSize
    ensures r.Stored(msg).Slot(i) == r.Slot(i) && r.Stored(msg).sizes[i] == r.sizes[i]
  {
    ProductFits(r.numMsgs, r.msgSize);
    OffsetExact(r.numMsgs, r.msgSize, i);
    OffsetExact(r.numMsgs, r.msgSize, r.writeOffset);
    SlotsDisjoint(r.numMsgs, r.msgSize, i, r.writeOffset);
  }

  /** With space, a store overwrites no unread slot and keeps the ring good. */
  lemma StoredGood(r: Ring, msg: Bytes)
    requires r.Good() && r.numQueued < r.numMsgs && |msg| <= r.msgSize
    ensures r.Stored(msg).Good()
    ensures forall k: nat | k < r.numQueued :: r.At(k) != r.writeOffset
  {
    hide BufferOffset, SlotsFit, AllocationSize, Wrap;
    NextSlot(r, r.numQueued);
    var s := r.Stored(msg);
    forall k: nat | k < r.numQueued
      ensures r.At(k) != r.writeOffset
    {
      DistinctSlots(r, k, r.numQueued);
    }
    forall k: nat | k < s.numQueued
      ensures s.sizes[s.At(k)] <= s.msgSize
    {
      assert s.At(k) == r.At(k);
    }
  }

  /** With space, a store appends the message. */
  lemma StoredAppends(r: Ring, msg: Bytes)
    requires r.Good() && r.numQueued < r.numMsgs && |msg| <= r.msgSize
    ensures r.Stored(msg).Good()
    ensures r.Stored(msg).Contents() == r.Contents() + [msg]
    ensures r.Stored(msg).numMsgs == r.numMsgs && r.Stored(msg).msgSize == r.msgSize
  {
    hide BufferOffset, SlotsFit, AllocationSize, Wrap;
    StoredGood(r, msg);
    WriteLands(r, msg);
    var s, n := r.Stored(msg), r.numQueued;
    forall k: nat | k < n ensures s.Contents()[k] == r.Contents()[k] {
      WriteIsLocal(r, msg, r.At(k));
    }
    assert s.Contents()[n] == msg;
  }

  /** The oldest message lies inside the buffer, at the read offset. */
  lemma HeadInside(r: Ring)
    requires r.Good() && r.numQueued > 0
    ensures var start, size := BufferOffset(r.msgSize, r.readOffset), r.sizes[r.readOffset];
            && 0 <= start && start + size <= |r.buffer| && size <= r.msgSize
            && r.Slot(r.readOffset) == r.buffer[start..start + size]
            && r.Contents()[0] == r.Slot(r.readOffset)
  {
    FirstSlot(r);
    ProductFits(r.numMsgs, r.msgSize);
    OffsetExact(r.numMsgs, r.msgSize, r.readOffset);
  }

  /** With a message, a load removes the oldest one. */
  lemma LoadedRemoves(r: Ring)
    requires r.Good() && r.numQueued > 0
    ensures r.Loaded().Good()
    ensures r.Contents() == [r.Slot(r.readOffset)] + r.Loaded().Contents()
  {
    hide BufferOffset, SlotsFit, AllocationSize, Wrap;
    var s := r.Loaded();
    FirstSlot(r);
    forall k: nat ensures s.At(k) == r.At(k + 1) {
      NextSlot(r, k);
    }
    forall k: nat | k < s.numQueued ensures s.Contents()[k] == r.Contents()[k + 1] {
    }
  }

  lemma SendRefines(r: Ring, msg: Option<Bytes>, wait: WaitFailure)
    requires r.Good()
    ensures var (r', result) := r.Send(msg, wait); r'.Good() && (r'.Abstract(), result) == r.Abstract().Send(msg, wait)
  {
    hide BufferOffset, SlotsFit, AllocationSize, Wrap, Overwrite, Ring.Slot;
    if msg.Some? && |msg.value| <= r.msgSize && r.numQueued < r.numMsgs {
      StoredAppends(r, msg.value);
    }
  }

  lemma ReceiveRefines(r: Ring, room: Option<nat>, wait: WaitFailure)
    requires r.Good()
    ensures var (r', result, bytes) := r.Receive(room, wait);
            r'.Good() && (r'.Abstract(), result, bytes) == r.Abstract().Receive(room, wait)
  {
    hide BufferOffset, SlotsFit, AllocationSize, Wrap, Overwrite, Ring.Slot;
    if r.numQueued > 0 {
      LoadedRemoves(r);
      assert r.Contents()[1..] == r.Loaded().Contents();
    }
  }

  lemma AbstractValid(r: Ring)
    requires r.Good()
    ensures r.Abstract().Valid()
  {
    hide BufferOffset, SlotsFit, AllocationSize, Wrap;
    forall m | m in r.Contents() ensures |m| <= r.msgSize {
      var k :| 0 <= k < r.numQueued && r.Contents()[k] == m;
      assert r.sizes[r.At(k)] <= r.msgSize;
    }
  }

  /** Every operation on a good ring is the operation on the queue it represents. */
  lemma RingRefinesFifo(r: Ring, msg: Option<Bytes>, room: Option<nat>, wait: WaitFailure)
    requires r.Good()
    ensures var (r', result) := r.Send(msg, wait); r'.Good() && (r'.Abstract(), result) == r.Abstract().Send(msg, wait)
    ensures var (r', result, bytes) := r.Receive(room, wait);
            r'.Good() && (r'.Abstract(), result, bytes) == r.Abstract().Receive(room, wait)
    ensures r.Abstract().Valid()
  {
    hide Ring.Good, Ring.Contents, Ring.Send, Ring.Receive;
    SendRefines(r, msg, wait);
    ReceiveRefines(r, room, wait);
    AbstractValid(r);
  }

  // ---------- whole runs ----------

  datatype Call = SendCall(msg: Option<Bytes>, wait: WaitFailure) | ReceiveCall(room: Option<nat>, wait: WaitFailure)

  datatype Answer = Answer(result: OsResult, bytes: Bytes)

  function DoRing(r: Ring, call: Call): (result: (Ring, Answer))
    requires r.Allocated()
    ensures result.0.Allocated()
  {
    match call
    case SendCall(msg, wait) =>
      var (r', result) := r.Send(msg, wait);
      (r', Answer(result, []))
    case ReceiveCall(room, wait) =>
      var (r', result, bytes) := r.Receive(room, wait);
      (r', Answer(result, bytes))
  }

  function DoFifo(f: Fifo, call: Call): (Fifo, Answer) {
    match call
    case SendCall(msg, wait) =>
      var (f', result) := f.Send(msg, wait);
      (f', Answer(result, []))
    case ReceiveCall(room, wait) =>
      var (f', result, bytes) := f.Receive(room, wait);
      (f', Answer(result, bytes))
  }

  function RunRing(r: Ring, calls: seq<Call>): (seq<Answer>, Ring)
    requires r.Allocated()
    decreases |calls|
  {
    if calls == [] then ([], r) else
    var (r', answer) := DoRing(r, calls[0]);
    var (rest, last) := RunRing(r', calls[1..]);
    ([answer] + rest, last)
  }

  function RunFifo(f: Fifo, calls: seq<Call>): (seq<Answer>, Fifo)
    decreases |calls|
  {
    if calls == [] then ([], f) else
    var (f', answer) := DoFifo(f, calls[0]);
    var (rest, last) := RunFifo(f', calls[1..]);
    ([answer] + rest, last)
  }

  /** Over any run of calls the ring answers exactly as the queue does. */
  lemma {:induction false} RunRefines(r: Ring, calls: seq<Call>)
    requires r.Good()
    ensures RunRing(r, calls).0 == RunFifo(r.Abstract(), calls).0
    ensures RunRing(r, calls).1.Good() && RunRing(r, calls).1.Abstract() == RunFifo(r.Abstract(), calls).1
    decreases |calls|
  {
    if calls != [] {
      match calls[0] {
        case SendCall(msg, wait) => RingRefinesFifo(r, msg, None, wait);
        case ReceiveCall(room, wait) => RingRefinesFifo(r, None, room, wait);
      }
      RunRefines(DoRing(r, calls[0]).0, calls[1..]);
    }
  }
}
