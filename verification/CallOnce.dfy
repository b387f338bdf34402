/**
 * The Win32 call_once of tinycthread, as steps of any number of threads: a compare-and-exchange on
 * `status`, a critical section, and a callback that takes its own time.
 */
module CallOnce {
  import opened Basics

  type ThreadId = nat

  datatype Pc =
    | AtTest             // while (flag->status < 3)
    | AtSwitch           // about to read status again, for the switch
    | AtExchange         // case 0: InterlockedCompareExchange
    | AtInitialize       // won the exchange: InitializeCriticalSection
    | AtOwnEnter         // EnterCriticalSection, by the winner
    | AtSetTwo           // flag->status = 2
    | AtCall             // about to call func
    | InFunc             // inside func
    | AtSetThree         // flag->status = 3
    | AtOwnLeave         // LeaveCriticalSection, by the winner
    | AtEnter            // case 2: EnterCriticalSection
    | AtLeave            // case 2: LeaveCriticalSection
    | Returned

  /**
   * `initialized` is whether the critical section is, `owner` the thread inside it. `starts` and
   * `ends` count the calls of func, `winner` records which thread's exchange succeeded last.
   */
  datatype State = State(status: nat, initialized: bool, owner: Option<ThreadId>, threads: seq<Pc>,
                         starts: nat, ends: nat, winner: Option<ThreadId>)

  function At(s: State, t: ThreadId, pc: Pc): State
    requires t < |s.threads|
  {
    s.(threads := s.threads[t := pc])
  }

  /** Thread t's next step, or None while it is blocked at the critical section. */
  function Step(s: State, t: ThreadId): Option<State>
    requires t < |s.threads|
  {
    match s.threads[t]
    case AtTest => Some(At(s, t, if s.status < 3 then AtSwitch else Returned))
    case AtSwitch =>
      Some(At(s, t, if s.status == 0 then AtExchange else if s.status == 2 then AtEnter else AtTest))
    case AtExchange =>
      if s.status == 0 then Some(At(s, t, AtInitialize).(status := 1, winner := Some(t))) else Some(At(s, t, AtTest))
    case AtInitialize => Some(At(s, t, AtOwnEnter).(initialized := true))
    case AtOwnEnter => if s.owner == None then Some(At(s, t, AtSetTwo).(owner := Some(t))) else None
    case AtSetTwo => Some(At(s, t, AtCall).(status := 2))
    case AtCall => Some(At(s, t, InFunc).(starts := s.starts + 1))
    case InFunc => Some(At(s, t, AtSetThree).(ends := s.ends + 1))
    case AtSetThree => Some(At(s, t, AtOwnLeave).(status := 3))
    case AtOwnLeave => Some(At(s, t, Returned).(owner := None))
    case AtEnter => if s.owner == None then Some(At(s, t, AtLeave).(owner := Some(t))) else None
    case AtLeave => Some(At(s, t, AtTest).(owner := None))
    case Returned => None
  }

  /** A schedule is the sequence of threads that take a step. */
  function Run(s: State, schedule: seq<ThreadId>): Option<State>
    decreases |schedule|
  {
    if schedule == [] then Some(s)
    else if schedule[0] >= |s.threads| then None
    else
      var next := Step(s, schedule[0]);
      if next.None? then None else Run(next.value, schedule[1..])
  }

  ghost predicate Initial(s: State) {
    && s.status == 0 && !s.initialized && s.owner == None && s.starts == 0 && s.ends == 0 && s.winner == None
    && forall t | 0 <= t < |s.threads| :: s.threads[t] == AtTest
  }

  /** The steps that only the winner of the exchange takes. */
  predicate Winning(pc: Pc) {
    pc == AtInitialize || pc == AtOwnEnter || pc == AtSetTwo || pc == AtCall || pc == InFunc || pc == AtSetThree
    || pc == AtOwnLeave
  }

  predicate Inside(pc: Pc) {
    pc == AtSetTwo || pc == AtCall || pc == InFunc || pc == AtSetThree || pc == AtOwnLeave || pc == AtLeave
  }

  /** What the winner's position says about the flag. */
  predicate Agrees(s: State, pc: Pc) {
    match pc
    case AtInitialize => s.status == 1 && !s.initialized && s.starts == 0 && s.ends == 0
    case AtOwnEnter => s.status == 1 && s.initialized && s.starts == 0 && s.ends == 0
    case AtSetTwo => s.status == 1 && s.initialized && s.starts == 0 && s.ends == 0
    case AtCall => s.status == 2 && s.initialized && s.starts == 0 && s.ends == 0
    case InFunc => s.status == 2 && s.initialized && s.starts == 1 && s.ends == 0
    case AtSetThree => s.status == 2 && s.initialized && s.starts == 1 && s.ends == 1
    case AtOwnLeave => s.status == 3 && s.initialized && s.starts == 1 && s.ends == 1
    case AtEnter => s.initialized && s.status >= 2
    case AtLeave => s.initialized && s.status >= 2
    case Returned => s.status == 3 && s.initialized && s.starts == 1 && s.ends == 1
    case _ => true
  }

  ghost predicate Inv(s: State) {
    && s.status <= 3
    && (s.status == 0 ==> !s.initialized && s.starts == 0 && s.ends == 0)
    && (s.status == 3 ==> s.initialized && s.starts == 1 && s.ends == 1)
    && (forall t | 0 <= t < |s.threads| :: Agrees(s, s.threads[t]))
    && (forall t | 0 <= t < |s.threads| :: Winning(s.threads[t]) ==> s.winner == Some(t) && s.status >= 1)
    && (s.status == 0 <==> s.winner == None)
    && (s.status == 1 || s.status == 2 ==> s.winner.value < |s.threads| && Winning(s.threads[s.winner.value]))
    && (s.owner.Some? ==> s.owner.value < |s.threads| && Inside(s.threads[s.owner.value]))
    && (forall t | 0 <= t < |s.threads| :: Inside(s.threads[t]) ==> s.owner == Some(t))
  }

  /** The winner moves the flag: nobody else depends on its value staying as it is. */
  lemma InvWinner(s: State, t: ThreadId)
    requires Inv(s) && t < |s.threads| && Winning(s.threads[t]) && Step(s, t).Some?
    ensures Inv(Step(s, t).value)
  {
    var s' := Step(s, t).value;
    forall u | 0 <= u < |s.threads| ensures Agrees(s', s'.threads[u]) {
      assert u != t ==> !Winning(s.threads[u]);
    }
  }

  lemma InvExchange(s: State, t: ThreadId)
    requires Inv(s) && t < |s.threads| && s.threads[t] == AtExchange && Step(s, t).Some?
    ensures Inv(Step(s, t).value)
  {
    var s' := Step(s, t).value;
    forall u | 0 <= u < |s.threads| ensures Agrees(s', s'.threads[u]) {
      assert u != t ==> Agrees(s, s.threads[u]);
    }
  }

  lemma InvRead(s: State, t: ThreadId)
    requires Inv(s) && t < |s.threads| && Step(s, t).Some?
    requires s.threads[t] == AtTest || s.threads[t] == AtSwitch
    ensures Inv(Step(s, t).value)
  {
    var s' := Step(s, t).value;
    forall u | 0 <= u < |s.threads| ensures Agrees(s', s'.threads[u]) {
      assert u != t ==> Agrees(s, s.threads[u]);
    }
  }

  lemma InvSection(s: State, t: ThreadId)
    requires Inv(s) && t < |s.threads| && Step(s, t).Some?
    requires s.threads[t] == AtEnter || s.threads[t] == AtLeave
    ensures Inv(Step(s, t).value)
  {
    var s' := Step(s, t).value;
    forall u | 0 <= u < |s.threads| ensures Agrees(s', s'.threads[u]) {
      assert u != t ==> Agrees(s, s.threads[u]);
    }
  }

  lemma InvStep(s: State, t: ThreadId)
    requires Inv(s) && t < |s.threads| && Step(s, t).Some?
    ensures Inv(Step(s, t).value)
  {
    hide Inv;
    match s.threads[t]
    case AtTest => InvRead(s, t);
    case AtSwitch => InvRead(s, t);
    case AtExchange => InvExchange(s, t);
    case AtEnter => InvSection(s, t);
    case AtLeave => InvSection(s, t);
    case _ => InvWinner(s, t);
  }

  lemma {:induction false} InvRun(s: State, schedule: seq<ThreadId>)
    requires Inv(s) && Run(s, schedule).Some?
    ensures Inv(Run(s, schedule).value)
    decreases |schedule|
  {
    if schedule != [] {
      InvStep(s, schedule[0]);
      InvRun(Step(s, schedule[0]).value, schedule[1..]);
    }
  }

  /**
   * For any number of threads and any schedule: func is called at most once, nobody returns before
   * it has ended, and nobody is at or inside the critical section before it is initialised.
   */
  lemma OnceOnly(s: State, schedule: seq<ThreadId>)
    requires Initial(s) && Run(s, schedule).Some?
    ensures var s' := Run(s, schedule).value;
            && s'.starts <= 1 && s'.ends <= s'.starts
            && (forall t | 0 <= t < |s'.threads| :: s'.threads[t] == Returned ==> s'.starts == 1 && s'.ends == 1)
            && (forall t | 0 <= t < |s'.threads| ::
                  Inside(s'.threads[t]) || s'.threads[t] == AtEnter || s'.threads[t] == AtOwnEnter ==> s'.initialized)
            && (forall t, u | 0 <= t < |s'.threads| && 0 <= u < |s'.threads| ::
                  Inside(s'.threads[t]) && Inside(s'.threads[u]) ==> t == u)
  {
    InvRun(s, schedule);
  }

  /** A thread can only be blocked by one that is inside the critical section, and that one can go on. */
  lemma NoDeadlock(s: State, schedule: seq<ThreadId>, t: ThreadId)
    requires Initial(s) && Run(s, schedule).Some?
    ensures var s' := Run(s, schedule).value;
            t < |s'.threads| && s'.threads[t] != Returned && Step(s', t).None? ==>
              && s'.owner.Some? && s'.owner.value < |s'.threads| && s'.owner.value != t
              && Step(s', s'.owner.value).Some?
  {
    InvRun(s, schedule);
  }

  // ---------- nobody spins while func runs ----------

  /** The steps a thread can take until it is blocked at the critical section. */
  function StepsToBlock(pc: Pc): nat {
    match pc
    case AtExchange => 3
    case AtTest => 2
    case AtSwitch => 1
    case _ => 0
  }

  function TotalToBlock(threads: seq<Pc>): nat {
    if threads == [] then 0 else StepsToBlock(threads[0]) + TotalToBlock(threads[1..])
  }

  lemma {:induction false} ToBlockUpdate(threads: seq<Pc>, t: nat, pc: Pc)
    requires t < |threads|
    ensures TotalToBlock(threads[t := pc]) == TotalToBlock(threads) - StepsToBlock(threads[t]) + StepsToBlock(pc)
    ensures TotalToBlock(threads) <= 3 * |threads| - (3 - StepsToBlock(threads[t]))
    decreases threads
  {
    if t == 0 {
      assert threads[0 := pc][1..] == threads[1..];
      if |threads| > 1 { ToBlockUpdate(threads[1..], 0, pc); }
    } else {
      assert threads[t := pc][1..] == threads[1..][t - 1 := pc];
      ToBlockUpdate(threads[1..], t - 1, pc);
    }
  }

  lemma WaitingStep(s: State, t: ThreadId, w: ThreadId)
    requires Inv(s) && w < |s.threads| && s.threads[w] == InFunc && t < |s.threads| && t != w && Step(s, t).Some?
    ensures var s' := Step(s, t).value;
            && s'.threads == s.threads[t := s'.threads[t]] && s'.threads[w] == InFunc
            && StepsToBlock(s'.threads[t]) < StepsToBlock(s.threads[t])
  {
    assert Agrees(s, s.threads[w]) && Agrees(s, s.threads[t]);
  }

  lemma {:induction false} WaitersBlock(s: State, schedule: seq<ThreadId>, w: ThreadId)
    requires Inv(s) && w < |s.threads| && s.threads[w] == InFunc && w !in schedule && Run(s, schedule).Some?
    ensures |schedule| <= TotalToBlock(s.threads)
    decreases |schedule|
  {
    hide Inv, Step;
    if schedule != [] {
      var t := schedule[0];
      var s' := Step(s, t).value;
      InvStep(s, t);
      WaitingStep(s, t, w);
      ToBlockUpdate(s.threads, t, s'.threads[t]);
      WaitersBlock(s', schedule[1..], w);
    }
  }

  /** While func runs the others take at most three steps each before they are blocked. */
  lemma NoBusyWaiting(s: State, past: seq<ThreadId>, schedule: seq<ThreadId>, w: ThreadId)
    requires Initial(s) && Run(s, past).Some? && Run(Run(s, past).value, schedule).Some? && w !in schedule
    requires w < |Run(s, past).value.threads| && Run(s, past).value.threads[w] == InFunc
    ensures |schedule| <= 3 * (|s.threads| - 1)
  {
    hide Step, Inv;
    var mid := Run(s, past).value;
    assert Inv(s) by { InitialInv(s); }
    InvRun(s, past);
    SameThreads(s, past);
    WaitersBlock(mid, schedule, w);
    ToBlockUpdate(mid.threads, w, InFunc);
  }

  lemma InitialInv(s: State)
    requires Initial(s)
    ensures Inv(s)
  {
  }

  // ---------- everybody returns ----------

  /** How far the thread that initialises, or is about to, still has to go. */
  function WinnerLeft(s: State): nat {
    if s.status == 0 then
      if |s.threads| == 0 then 0
      else if s.threads[0] == AtTest then 10 else if s.threads[0] == AtSwitch then 9 else 8
    else if s.winner.Some? && s.winner.value < |s.threads| then
      match s.threads[s.winner.value]
      case AtInitialize => 7
      case AtOwnEnter => 6
      case AtSetTwo => 5
      case AtCall => 4
      case InFunc => 3
      case AtSetThree => 2
      case AtOwnLeave => 1
      case _ => 0
    else 0
  }

  /** How far a thread has to go once func has ended. */
  function Left(pc: Pc): nat {
    match pc
    case Returned => 0
    case AtTest => 1
    case AtSwitch => 2
    case AtExchange => 2
    case AtLeave => 2
    case _ => 3
  }

  function TotalLeft(threads: seq<Pc>): nat {
    if threads == [] then 0 else Left(threads[0]) + TotalLeft(threads[1..])
  }

  lemma {:induction false} TotalOfUpdate(threads: seq<Pc>, t: nat, pc: Pc)
    requires t < |threads|
    ensures TotalLeft(threads[t := pc]) == TotalLeft(threads) - Left(threads[t]) + Left(pc)
    decreases threads
  {
    if t == 0 {
      assert threads[0 := pc][1..] == threads[1..];
    } else {
      assert threads[t := pc][1..] == threads[1..][t - 1 := pc];
      TotalOfUpdate(threads[1..], t - 1, pc);
    }
  }

  /** While func has not ended and been left, the winner, or thread 0 on its way to win, can go on. */
  lemma WinnerSteps(s: State) returns (t: ThreadId)
    requires Inv(s) && WinnerLeft(s) > 0
    requires s.status == 0 ==> s.threads[0] == AtTest || s.threads[0] == AtSwitch || s.threads[0] == AtExchange
    ensures t < |s.threads| && Step(s, t).Some? && WinnerLeft(Step(s, t).value) < WinnerLeft(s)
  {
    t := if s.status == 0 then 0 else s.winner.value;
    assert Agrees(s, s.threads[t]);
    if s.owner.Some? {
      assert Agrees(s, s.threads[s.owner.value]);
    }
  }

  /** After that, anybody who has not returned, or whoever is in the critical section, can go on. */
  lemma OthersStep(s: State, t: ThreadId) returns (u: ThreadId)
    requires Inv(s) && WinnerLeft(s) == 0 && t < |s.threads| && s.threads[t] != Returned
    ensures u < |s.threads| && Step(s, u).Some?
    ensures var s' := Step(s, u).value; WinnerLeft(s') == 0 && TotalLeft(s'.threads) < TotalLeft(s.threads)
  {
    hide Step, WinnerLeft, TotalLeft, Left;
    u := if s.threads[t] == AtEnter && s.owner.Some? then s.owner.value else t;
    assert Agrees(s, s.threads[u]);
    AfterWinner(s, u);
    OtherStep(s, u);
    TotalOfUpdate(s.threads, u, Step(s, u).value.threads[u]);
  }

  lemma AfterWinner(s: State, u: ThreadId)
    requires Inv(s) && WinnerLeft(s) == 0 && u < |s.threads|
    ensures s.status == 3 && !Winning(s.threads[u])
  {
    assert Agrees(s, s.threads[u]);
  }

  lemma OtherStep(s: State, u: ThreadId)
    requires s.status == 3 && WinnerLeft(s) == 0 && u < |s.threads| && !Winning(s.threads[u])
    requires s.threads[u] != Returned && (s.threads[u] == AtEnter ==> s.owner == None)
    ensures Step(s, u).Some?
    ensures var s' := Step(s, u).value;
            && s'.threads == s.threads[u := s'.threads[u]]
            && WinnerLeft(s') == 0 && Left(s'.threads[u]) < Left(s.threads[u])
  {
  }

  lemma EarlyThreads(s: State, t: ThreadId)
    requires Inv(s) && s.status == 0 && t < |s.threads|
    ensures s.threads[t] == AtTest || s.threads[t] == AtSwitch || s.threads[t] == AtExchange
  {
    assert Agrees(s, s.threads[t]);
  }

  lemma {:induction false} Completes(s: State) returns (schedule: seq<ThreadId>)
    requires Inv(s)
    ensures Run(s, schedule).Some? && |Run(s, schedule).value.threads| == |s.threads|
    ensures forall t | 0 <= t < |s.threads| :: Run(s, schedule).value.threads[t] == Returned
    decreases WinnerLeft(s), TotalLeft(s.threads)
  {
    hide Inv, WinnerLeft, Step;
    schedule := [];
    var t: ThreadId;
    if WinnerLeft(s) > 0 {
      assert |s.threads| > 0 by { WinnerExists(s); }
      if s.status == 0 {
        EarlyThreads(s, 0);
      }
      t := WinnerSteps(s);
    } else if u :| 0 <= u < |s.threads| && s.threads[u] != Returned {
      t := OthersStep(s, u);
    } else {
      return;
    }
    InvStep(s, t);
    StepKeepsThreads(s, t);
    var rest := Completes(Step(s, t).value);
    schedule := [t] + rest;
    assert schedule[1..] == rest;
  }

  lemma WinnerExists(s: State)
    requires WinnerLeft(s) > 0
    ensures |s.threads| > 0
  {
  }

  lemma StepKeepsThreads(s: State, t: ThreadId)
    requires t < |s.threads| && Step(s, t).Some?
    ensures |Step(s, t).value.threads| == |s.threads|
  {
  }

  /** Every run can be continued until all threads have returned, and then func has been called once. */
  lemma EverybodyReturns(s: State, past: seq<ThreadId>) returns (schedule: seq<ThreadId>)
    requires Initial(s) && |s.threads| > 0 && Run(s, past).Some?
    ensures Run(s, past + schedule).Some?
    ensures var end := Run(s, past + schedule).value;
            && |end.threads| == |s.threads| && (forall t | 0 <= t < |end.threads| :: end.threads[t] == Returned)
            && end.starts == 1 && end.ends == 1
  {
    InvRun(s, past);
    SameThreads(s, past);
    schedule := Completes(Run(s, past).value);
    RunConcat(s, past, schedule);
    InvRun(s, past + schedule);
    var end := Run(s, past + schedule).value;
    assert Agrees(end, end.threads[0]);
  }

  lemma {:induction false} SameThreads(s: State, schedule: seq<ThreadId>)
    requires Run(s, schedule).Some?
    ensures |Run(s, schedule).value.threads| == |s.threads|
    decreases |schedule|
  {
    if schedule != [] {
      StepKeepsThreads(s, schedule[0]);
      SameThreads(Step(s, schedule[0]).value, schedule[1..]);
    }
  }

  lemma {:induction false} RunConcat(s: State, first: seq<ThreadId>, second: seq<ThreadId>)
    requires Run(s, first).Some?
    ensures Run(s, first + second) == Run(Run(s, first).value, second)
    decreases |first|
  {
    if first == [] {
      assert first + second == second;
    } else {
      assert (first + second)[1..] == first[1..] + second;
      RunConcat(Step(s, first[0]).value, first[1..], second);
    }
  }
}
