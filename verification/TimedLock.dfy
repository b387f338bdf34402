/** The fallback loop of mtx_timedlock: try, compare the clock with the deadline, sleep, try again. */
module TimedLock {
  const NANOSECONDS_PER_SECOND := 1_000_000_000
  const MAX_SLEEP := 5_000_000

  datatype Timespec = Timespec(seconds: int, nanoseconds: int) {
    predicate Normal() {
      0 <= nanoseconds < 1_000_000_000
    }

    /** The time as one number of nanoseconds. */
    function Total(): int {
      1_000_000_000 * seconds + nanoseconds
    }
  }

  datatype TryResult = Acquired | Busy | TryError
  datatype LockResult = Success | TimedOut | Error | StillTrying

  /** One round: what pthread_mutex_trylock returns, and what the clock shows after it. */
  datatype Round = Round(tried: TryResult, now: Timespec)

  function Min(a: int, b: int): int {
    if a < b then a else b
  }

  /** The comparison of seconds, then nanoseconds. */
  predicate Reached(now: Timespec, deadline: Timespec) {
    now.seconds > deadline.seconds || (now.seconds == deadline.seconds && now.nanoseconds >= deadline.nanoseconds)
  }

  /** The difference with its borrow, cut to five milliseconds. */
  function SleepTime(now: Timespec, deadline: Timespec): Timespec {
    var raw := Timespec(deadline.seconds - now.seconds, deadline.nanoseconds - now.nanoseconds);
    var dur := if raw.nanoseconds < 0 then Timespec(raw.seconds - 1, raw.nanoseconds + NANOSECONDS_PER_SECOND) else raw;
    if dur.seconds != 0 || dur.nanoseconds > MAX_SLEEP then Timespec(0, MAX_SLEEP) else dur
  }

  lemma ReachedExact(now: Timespec, deadline: Timespec)
    requires now.Normal() && deadline.Normal()
    ensures Reached(now, deadline) <==> now.Total() >= deadline.Total()
  {
  }

  /** Before the deadline the sleep is a normal time: what is left, or five milliseconds if that is less. */
  lemma SleepExact(now: Timespec, deadline: Timespec)
    requires now.Normal() && deadline.Normal() && !Reached(now, deadline)
    ensures SleepTime(now, deadline).Normal()
    ensures SleepTime(now, deadline).Total() == Min(deadline.Total() - now.Total(), MAX_SLEEP) > 0
  {
  }

  /** The rounds in which the lock is busy and the deadline not reached: after each of them it sleeps. */
  predicate Waits(round: Round, deadline: Timespec) {
    round.tried == Busy && round.now.Total() < deadline.Total()
  }

  /**
   * The loop over the rounds that the lock and the clock provide; StillTrying means they have run
   * out. It sleeps exactly in the waiting rounds it starts with, never beyond the deadline, and ends
   * in the first other round: with the lock if that try took it, and with a timeout only if the lock
   * was busy and the deadline has been reached.
   */
  method Lock(deadline: Timespec, rounds: seq<Round>) returns (result: LockResult, sleeps: seq<Timespec>)
    requires deadline.Normal() && forall r | r in rounds :: r.now.Normal()
    ensures |sleeps| <= |rounds|
    ensures forall k | 0 <= k < |sleeps| ::
              && Waits(rounds[k], deadline) && sleeps[k].Normal()
              && sleeps[k].Total() == Min(deadline.Total() - rounds[k].now.Total(), MAX_SLEEP)
    ensures result == StillTrying <==> |sleeps| == |rounds|
    ensures |sleeps| < |rounds| ==> !Waits(rounds[|sleeps|], deadline)
    ensures |sleeps| < |rounds| ==>
              && (result == Success <==> rounds[|sleeps|].tried == Acquired)
              && (result == TimedOut <==> rounds[|sleeps|].tried == Busy)
              && (result == Error <==> rounds[|sleeps|].tried == TryError)
  {
    sleeps := [];
    while |sleeps| < |rounds|
      invariant |sleeps| <= |rounds|
      invariant forall k | 0 <= k < |sleeps| ::
                  && Waits(rounds[k], deadline) && sleeps[k].Normal()
                  && sleeps[k].Total() == Min(deadline.Total() - rounds[k].now.Total(), MAX_SLEEP)
      decreases |rounds| - |sleeps|
    {
      var round := rounds[|sleeps|];
      assert round in rounds;
      if round.tried != Busy {
        return if round.tried == Acquired then Success else Error, sleeps;
      }
      ReachedExact(round.now, deadline);
      if Reached(round.now, deadline) {
        return TimedOut, sleeps;
      }
      SleepExact(round.now, deadline);
      sleeps := sleeps + [SleepTime(round.now, deadline)];
    }
    result := StillTrying;
  }
}
