/** The OS_Queue object and its three functions, updating the buffer and the sizes array in place. */
module OsQueues {
  import opened Basics
  import opened OsTypes
  import opened Fifos
  import opened Rings

  class OsQueue {
    var numMsgs: uint32
    var msgSize: uint32
    var buffer: array<byte>
    var msgSizes: array<uint32>
    var readOffset: uint32
    var writeOffset: uint32
    var numQueued: uint32

    /** The fields that os_queue_create fills in; the two arrays are what malloc returned. */
    constructor (numMsgs: uint32, msgSize: uint32, buffer: array<byte>, msgSizes: array<uint32>)
      ensures this.numMsgs == numMsgs && this.msgSize == msgSize
      ensures this.buffer == buffer && this.msgSizes == msgSizes
      ensures readOffset == 0 && writeOffset == 0 && numQueued == 0
    {
      this.numMsgs, this.msgSize := numMsgs, msgSize;
      this.buffer, this.msgSizes := buffer, msgSizes;
      readOffset, writeOffset, numQueued := 0, 0, 0;
    }

    function View(): Ring
      reads this, buffer, msgSizes
    {
      Ring(numMsgs, msgSize, buffer[..], msgSizes[..], readOffset, writeOffset, numQueued)
    }

    ghost predicate Valid()
      reads this, buffer, msgSizes
    {
      View().Good()
    }

    ghost function Abstract(): Fifo
      reads this, buffer, msgSizes
      requires Valid()
    {
      View().Abstract()
    }
  }

  /** memcpy between two different arrays. */
  method Copy(target: array<byte>, targetStart: nat, source: array<byte>, sourceStart: nat, size: nat)
    requires target != source
    requires targetStart + size <= target.Length && sourceStart + size <= source.Length
    modifies target
    ensures target[..] == Overwrite(old(target[..]), targetStart, source[sourceStart..sourceStart + size])
  {
    forall i | 0 <= i < size {
      target[targetStart + i] := source[sourceStart + i];
    }
  }

  /** `found` is the queue argument being non-NULL; the two mallocs may each fail. */
  method OsQueueCreate(found: bool, numMsgs: uint32, msgSize: uint32, bufferMalloc: bool, sizesMalloc: bool)
    returns (result: OsResult, queue: OsQueue?)
    ensures result == Okay <==> queue != null
    ensures result == if !found then NullPointer
                      else if numMsgs == 0 || msgSize == 0 then InvalidArguments
                      else if bufferMalloc && sizesMalloc then Okay else Error
    ensures queue != null ==>
              && fresh(queue) && fresh(queue.buffer) && fresh(queue.msgSizes)
              && queue.numMsgs == numMsgs && queue.msgSize == msgSize
              && queue.buffer.Length == AllocationSize(numMsgs, msgSize) && queue.numQueued == 0
              && (queue.Valid() <==> SlotsFit(numMsgs, msgSize))
              && (SlotsFit(numMsgs, msgSize) ==> queue.Abstract() == Fifo(numMsgs, msgSize, []))
  {
    result, queue := Okay, null;
    if !found {
      result := NullPointer;
    }
    if result == Okay {
      if numMsgs == 0 || msgSize == 0 {
        result := InvalidArguments;
      }
    }
    if result == Okay && !bufferMalloc {
      result := Error;
    }
    if result == Okay && !sizesMalloc {
      result := Error;
    }
    if result == Okay {
      var buffer := new byte[AllocationSize(numMsgs, msgSize)];
      var msgSizes := new uint32[numMsgs];
      queue := new OsQueue(numMsgs, msgSize, buffer, msgSizes);
      FirstSlot(queue.View());
    }
  }

  /** The critical section of os_queue_send, in place. */
  method Store(queue: OsQueue, message: array<byte>, size: uint32)
    requires queue.Valid() && queue.numQueued < queue.numMsgs
    requires size <= message.Length && size <= queue.msgSize && message != queue.buffer
    modifies queue, queue.buffer, queue.msgSizes
    ensures queue.buffer == old(queue.buffer) && queue.msgSizes == old(queue.msgSizes)
    ensures queue.View() == old(queue.View()).Stored(message[..size])
  {
    hide BufferOffset, AllocationSize, SlotsFit, Wrap, Wrap32, Ring.Contents, Ring.Slot;
    ProductFits(queue.numMsgs, queue.msgSize);
    OffsetExact(queue.numMsgs, queue.msgSize, queue.writeOffset);
    queue.msgSizes[queue.writeOffset] := size;
    var bufferOffset := BufferOffset(queue.msgSize, queue.writeOffset);
    Copy(queue.buffer, bufferOffset, message, 0, size);
    queue.writeOffset := Wrap(queue.writeOffset + 1, queue.numMsgs);
    queue.numQueued := Increment32(queue.numQueued);
  }

  /** The critical section of os_queue_receive, in place; it returns the new *buffer_size_bytes. */
  method Load(queue: OsQueue, target: array<byte>) returns (size: uint32)
    requires queue.Valid() && queue.numQueued > 0
    requires queue.msgSize <= target.Length && target != queue.buffer
    modifies queue, target
    ensures queue.buffer == old(queue.buffer) && queue.msgSizes == old(queue.msgSizes)
    ensures queue.View() == old(queue.View()).Loaded()
    ensures size == |old(queue.View()).Slot(old(queue.readOffset))| && size <= target.Length
    ensures target[..] == old(queue.View()).Slot(old(queue.readOffset)) + old(target[..])[size..]
  {
    hide BufferOffset, AllocationSize, SlotsFit, Wrap, Wrap32, Ring.Contents, Ring.Slot;
    HeadInside(queue.View());
    size := queue.msgSizes[queue.readOffset];
    var bufferOffset := BufferOffset(queue.msgSize, queue.readOffset);
    Copy(target, 0, queue.buffer, bufferOffset, size);
    queue.readOffset := Wrap(queue.readOffset + 1, queue.numMsgs);
    queue.numQueued := Decrement32(queue.numQueued);
  }

  /**
   * A send by a lone caller. `size` bytes of `message` are sent; the object parameters may be null.
   * Waiting on a full queue ends as `wait` says, since nobody else can signal the condition.
   */
  method OsQueueSend(queue: OsQueue?, message: array?<byte>, size: uint32, wait: WaitFailure)
    returns (result: OsResult)
    requires queue != null ==> queue.Valid()
    requires message != null ==> size <= message.Length
    requires queue != null ==> message != queue.buffer
    modifies if queue == null then {} else {queue, queue.buffer, queue.msgSizes}
    ensures queue == null || message == null ==> result == NullPointer
    ensures queue != null ==>
              && queue.Valid()
              && queue.buffer == old(queue.buffer) && queue.msgSizes == old(queue.msgSizes)
    ensures queue != null ==>
              var msg := if message == null then None else Some(message[..size]);
              && (queue.View(), result) == old(queue.View()).Send(msg, wait)
              && (queue.Abstract(), result) == old(queue.Abstract()).Send(msg, wait)
  {
    hide BufferOffset, AllocationSize, SlotsFit, Wrap, Wrap32;
    hide Fifo.Valid, Ring.Contents, Ring.Slot, Ring.Stored, Ring.Loaded;
    result := Okay;
    if queue == null || message == null {
      result := NullPointer;
      if queue != null {
        RingRefinesFifo(queue.View(), None, None, wait);
      }
      return;
    }
    RingRefinesFifo(queue.View(), Some(message[..size]), None, wait);
    if size > queue.msgSize {
      result := MsgSizeError;
    }
    if result == Okay {
      if queue.numQueued == queue.numMsgs {
        result := WaitResult(wait);
      }
    }
    if result == Okay {
      Store(queue, message, size);
    }
  }

  /**
   * A receive by a lone caller. `room` is the value of *buffer_size_bytes, None for a NULL pointer;
   * on success `size` is the value left there.
   */
  method OsQueueReceive(queue: OsQueue?, target: array?<byte>, room: Option<uint32>, wait: WaitFailure)
    returns (result: OsResult, size: uint32)
    requires queue != null ==> queue.Valid()
    requires target != null && room.Some? ==> room.value <= target.Length
    requires queue != null ==> target != queue.buffer
    modifies queue, target
    ensures queue == null || target == null || room.None? ==> result == NullPointer
    ensures queue != null ==>
              && queue.Valid()
              && queue.buffer == old(queue.buffer) && queue.msgSizes == old(queue.msgSizes)
    ensures queue != null && target == null ==> queue.View() == old(queue.View())
    ensures queue != null && target != null ==>
              var answer := old(queue.Abstract()).Receive(room, wait);
              && queue.Abstract() == answer.0 && result == answer.1
              && queue.View() == old(queue.View()).Receive(room, wait).0
              && (result == Okay ==> size == |answer.2| && size <= target.Length
                                     && target[..] == answer.2 + old(target[..])[size..])
    ensures target != null && result != Okay ==> target[..] == old(target[..])
  {
    hide BufferOffset, AllocationSize, SlotsFit, Wrap, Wrap32;
    hide Fifo.Valid, Ring.Contents, Ring.Slot, Ring.Stored, Ring.Loaded;
    result, size := Okay, 0;
    if queue == null || target == null || room.None? {
      result := NullPointer;
      if queue != null {
        RingRefinesFifo(queue.View(), None, None, wait);
      }
      return;
    }
    RingRefinesFifo(queue.View(), None, room, wait);
    if room.value < queue.msgSize {
      result := MsgSizeError;
    }
    if result == Okay {
      if queue.numQueued == 0 {
        result := WaitResult(wait);
      }
    }
    if result == Okay {
      size := Load(queue, target);
    }
  }
}
