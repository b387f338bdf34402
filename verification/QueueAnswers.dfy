/** What every call of a run answers, from the calls and answers before it alone. */
module QueueAnswers {
  import opened Basics
  import opened OsTypes
  import opened Fifos
  import opened Rings

  /** The message that a call has put into the queue, going by its answer. */
  function Put(call: Call, answer: Answer): seq<Bytes> {
    if call.SendCall? && call.msg.Some? && answer.result == Okay then [call.msg.value] else []
  }

  /** The message that it has taken out. */
  function Taken(call: Call, answer: Answer): seq<Bytes> {
    if call.ReceiveCall? && answer.result == Okay then [answer.bytes] else []
  }

  /** All messages that a run has put in. */
  function PutIn(calls: seq<Call>, answers: seq<Answer>): seq<Bytes>
    requires |calls| == |answers|
  {
    if calls == [] then [] else Put(calls[0], answers[0]) + PutIn(calls[1..], answers[1..])
  }

  function TakenOut(calls: seq<Call>, answers: seq<Answer>): seq<Bytes>
    requires |calls| == |answers|
  {
    if calls == [] then [] else Taken(calls[0], answers[0]) + TakenOut(calls[1..], answers[1..])
  }

  /**
   * The answer that a call must get when `put` are all messages ever put in, and the first `taken`
   * of them have been taken out.
   */
  predicate Right(capacity: nat, slotSize: nat, put: seq<Bytes>, taken: nat, call: Call, answer: Answer) {
    match call
    case SendCall(msg, wait) =>
      var fits := msg.Some? && |msg.value| <= slotSize;
      && answer.bytes == []
      && (answer.result == NullPointer <==> msg.None?)
      && (answer.result == MsgSizeError <==> msg.Some? && !fits)
      && (answer.result == Okay <==> fits && |put| - taken < capacity)
      && (answer.result == Timeout <==> fits && |put| - taken == capacity && wait == TimedOut)
      && (answer.result == Error <==> fits && |put| - taken == capacity && wait == Failed)
    case ReceiveCall(room, wait) =>
      var fits := room.Some? && slotSize <= room.value;
      && (answer.result == NullPointer <==> room.None?)
      && (answer.result == MsgSizeError <==> room.Some? && !fits)
      && (answer.result == Okay <==> fits && taken < |put|)
      && (answer.result == Timeout <==> fits && taken == |put| && wait == TimedOut)
      && (answer.result == Error <==> fits && taken == |put| && wait == Failed)
      && answer.bytes == if fits && taken < |put| then put[taken] else []
  }

  /** One call: its answer, and how it moves the boundary between what is in and what is out. */
  lemma StepAnswer(f: Fifo, call: Call)
    requires f.Valid()
    ensures var (f', answer) := DoFifo(f, call);
            && f'.Valid() && f'.capacity == f.capacity && f'.slotSize == f.slotSize
            && Right(f.capacity, f.slotSize, f.contents, 0, call, answer)
            && f.contents + Put(call, answer) == Taken(call, answer) + f'.contents
  {
  }

  lemma FirstOf(call: Call, calls: seq<Call>, answer: Answer, answers: seq<Answer>)
    requires |calls| == |answers|
    ensures PutIn([call] + calls, [answer] + answers) == Put(call, answer) + PutIn(calls, answers)
    ensures TakenOut([call] + calls, [answer] + answers) == Taken(call, answer) + TakenOut(calls, answers)
  {
    hide Put, Taken;
    assert ([call] + calls)[1..] == calls && ([answer] + answers)[1..] == answers;
  }

  /** Only the messages that are left count. */
  lemma Shift(capacity: nat, slotSize: nat, gone: seq<Bytes>, put: seq<Bytes>, taken: nat, call: Call, answer: Answer)
    requires taken <= |put|
    ensures Right(capacity, slotSize, gone + put, |gone| + taken, call, answer) <==>
            Right(capacity, slotSize, put, taken, call, answer)
  {
  }

  lemma NothingYet(calls: seq<Call>)
    ensures PutIn(calls[..0], []) == TakenOut(calls[..0], []) == []
  {
  }

  lemma Associates(a: seq<Bytes>, b: seq<Bytes>, c: seq<Bytes>)
    ensures (a + b) + c == a + (b + c)
  {
  }

  lemma Regroup(start: seq<Bytes>, first: seq<Bytes>, later: seq<Bytes>, gone: seq<Bytes>, mid: seq<Bytes>)
    requires start + first == gone + mid
    ensures start + (first + later) == gone + (mid + later)
  {
    assert start + (first + later) == (start + first) + later;
  }

  /**
   * The first k calls: what was there at the start and what they put in is, in order, what they took
   * out and what is there now. The next call is answered accordingly.
   */
  lemma {:induction false} FifoAnswers(f: Fifo, calls: seq<Call>, k: nat)
    requires f.Valid() && k <= |calls|
    ensures var answers := RunFifo(f, calls).0;
            && |answers| == |calls|
            && var put, out := f.contents + PutIn(calls[..k], answers[..k]), TakenOut(calls[..k], answers[..k]);
               && out <= put && |put| - |out| <= f.capacity
               && (k < |calls| ==> Right(f.capacity, f.slotSize, put, |out|, calls[k], answers[k]))
               && (k == |calls| ==> out + RunFifo(f, calls).1.contents == put)
    decreases |calls|
  {
    hide Right, DoFifo, PutIn, TakenOut, Put, Taken;
    NothingYet(calls);
    if calls == [] {
      assert f.contents + [] == f.contents;
    } else {
      var call, rest := calls[0], calls[1..];
      var (f', answer) := DoFifo(f, call);
      var answers := RunFifo(f', rest).0;
      assert RunFifo(f, calls) == ([answer] + answers, RunFifo(f', rest).1);
      StepAnswer(f, call);
      if k == 0 {
        FifoAnswers(f', rest, 0);
        assert f.contents + [] == f.contents;
      } else {
        var j := k - 1;
        FifoAnswers(f', rest, j);
        FirstOf(call, rest[..j], answer, answers[..j]);
        assert calls[..k] == [call] + rest[..j] && ([answer] + answers)[..k] == [answer] + answers[..j];
        var gone, put', out' := Taken(call, answer), f'.contents + PutIn(rest[..j], answers[..j]),
                                TakenOut(rest[..j], answers[..j]);
        Regroup(f.contents, Put(call, answer), PutIn(rest[..j], answers[..j]), gone, f'.contents);
        if k < |calls| {
          Shift(f.capacity, f.slotSize, gone, put', |out'|, rest[j], answers[j]);
        }
        Associates(gone, out', RunFifo(f', rest).1.contents);
      }
    }
  }

  /** The same for the ring. */
  lemma RingAnswers(r: Ring, calls: seq<Call>, k: nat)
    requires r.Good() && k <= |calls|
    ensures var (answers, last) := RunRing(r, calls);
            && |answers| == |calls| && last.Good()
            && var put, out := r.Contents() + PutIn(calls[..k], answers[..k]), TakenOut(calls[..k], answers[..k]);
               && out <= put && |put| - |out| <= r.numMsgs
               && (k < |calls| ==> Right(r.numMsgs, r.msgSize, put, |out|, calls[k], answers[k]))
               && (k == |calls| ==> out + last.Contents() == put)
  {
    hide Ring.Good, Ring.Contents, Ring.Allocated, PutIn, TakenOut, Right, RunFifo, RunRing, Fifo.Valid;
    GoodShape(r);
    RunRefines(r, calls);
    GoodShape(RunRing(r, calls).1);
    FifoAnswers(r.Abstract(), calls, k);
  }

  // ---------- emptying ----------

  /** A receive that offers room for a slot. */
  predicate Roomy(call: Call, slotSize: nat) {
    call.ReceiveCall? && call.room.Some? && call.room.value >= slotSize
  }

  /** How a receive from an empty queue is answered. */
  function Nothing(call: Call): Answer {
    Answer(if call.wait == TimedOut then Timeout else Error, [])
  }

  lemma DrainOne(f: Fifo, call: Call)
    requires Roomy(call, f.slotSize)
    ensures DoFifo(f, call) == if f.contents == [] then (f, Nothing(call))
                               else (f.(contents := f.contents[1..]), Answer(Okay, f.contents[0]))
  {
  }

  lemma {:induction false} FifoDrains(f: Fifo, calls: seq<Call>)
    requires forall call | call in calls :: Roomy(call, f.slotSize)
    ensures var (answers, last), n := RunFifo(f, calls), |f.contents|;
            && |answers| == |calls|
            && (forall k | 0 <= k < |calls| ::
                  answers[k] == if k < n then Answer(Okay, f.contents[k]) else Nothing(calls[k]))
            && last.contents == if |calls| <= n then f.contents[|calls|..] else []
    decreases |calls|
  {
    hide DoFifo, Roomy, Nothing;
    if calls != [] {
      DrainOne(f, calls[0]);
      FifoDrains(DoFifo(f, calls[0]).0, calls[1..]);
    }
  }

  /**
   * Receives with enough room get exactly the unread messages, each once and in order; those after
   * the last message find the queue empty.
   */
  lemma Drains(r: Ring, calls: seq<Call>)
    requires r.Good() && forall call | call in calls :: Roomy(call, r.msgSize)
    ensures var (answers, last) := RunRing(r, calls);
            && |answers| == |calls| && last.Good()
            && (forall k | 0 <= k < |calls| ::
                  answers[k] == if k < r.numQueued then Answer(Okay, r.Contents()[k]) else Nothing(calls[k]))
            && last.Contents() == if |calls| <= r.numQueued then r.Contents()[|calls|..] else []
  {
    hide Ring.Good, RunRing, RunFifo, Roomy, Nothing, Ring.Allocated, Ring.Slot;
    GoodShape(r);
    RunRefines(r, calls);
    GoodShape(RunRing(r, calls).1);
    FifoDrains(r.Abstract(), calls);
  }

  lemma GoodShape(r: Ring)
    requires r.Good()
    ensures r.Allocated() && r.Abstract().Valid()
  {
    AbstractValid(r);
  }
}
