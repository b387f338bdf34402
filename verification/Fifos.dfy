/** The bounded queue of byte strings that os_queue.h promises, with no representation at all. */
module Fifos {
  import opened Basics
  import opened OsTypes

  datatype Fifo = Fifo(capacity: nat, slotSize: nat, contents: seq<Bytes>) {

    ghost predicate Valid() {
      && |contents| <= capacity
      && forall m | m in contents :: |m| <= slotSize
    }

    /** A send by a lone caller: `None` is a NULL buffer, `wait` is how waiting on a full queue ends. */
    function Send(msg: Option<Bytes>, wait: WaitFailure): (r: (Fifo, OsResult))
      ensures Valid() ==> r.0.Valid()
    {
      if msg.None? then (this, NullPointer)
      else if |msg.value| > slotSize then (this, MsgSizeError)
      else if |contents| == capacity then (this, WaitResult(wait))
      else (this.(contents := contents + [msg.value]), Okay)
    }

    /** A receive by a lone caller: `None` is a NULL buffer or size pointer, otherwise the room it offers. */
    function Receive(room: Option<nat>, wait: WaitFailure): (r: (Fifo, OsResult, Bytes))
      ensures Valid() ==> r.0.Valid()
    {
      if room.None? then (this, NullPointer, [])
      else if room.value < slotSize then (this, MsgSizeError, [])
      else if contents == [] then (this, WaitResult(wait), [])
      else (this.(contents := contents[1..]), Okay, contents[0])
    }
  }

  /** An all-zero OS_Queue, as memset leaves it: no message fits it. */
  const ZEROED := Fifo(0, 0, [])
}
