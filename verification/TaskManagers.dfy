/** The task manager's state and functions, updating the task table in place. */
module TaskManagers {
  import opened Basics
  import opened Tasks
  import opened Slots

  datatype TmResult = Okay | NullPointer | InvalidArgument | SemCreateError

  class TaskManager {
    const tasks: array<Task>
    var scheduled: nat
    var missed: nat
    var called: seq<nat>
    var continueRunning: bool
    var numTasks: nat

    ghost predicate Valid()
      reads this
    {
      tasks.Length == MAX_TASKS
    }

    function View(): Table
      reads this, tasks
    {
      Table(tasks[..], scheduled, missed, called)
    }

    /** The cleared state of tm_initialize, before it registers the scheduler itself. */
    constructor ()
      ensures Valid() && fresh(tasks)
      ensures AllFresh(View()) && called == [] && continueRunning && numTasks == 0
      ensures forall i | 0 <= i < MAX_TASKS :: tasks[i].kind == Unregistered
    {
      tasks := new Task[MAX_TASKS](_ => Task(Unregistered, 0, 0, 0, false, 0));
      scheduled, missed, called := 0, 0, [];
      continueRunning, numTasks := true, 0;
    }

    // ---------- registration ----------

    /** tm_periodic_task; `given` is the name and function being non-NULL, `semCreated` the semaphore. */
    method PeriodicTask(id: nat, given: bool, period: int32, heartbeat: int32, semCreated: bool)
      returns (result: TmResult)
      requires Valid() && id < MAX_TASKS
      modifies `numTasks, tasks
      ensures result == if !given then NullPointer else if period == 0 then InvalidArgument
                        else if !semCreated then SemCreateError else Okay
      ensures result == Okay || result == SemCreateError ==>
                && Wrap32(period) >= 1
                && tasks[id] == Task(Periodic, Wrap32(period), Wrap32(heartbeat), 0, true,
                                     if result == Okay then 0 else old(tasks[id].semaphore))
      ensures numTasks == (if result == Okay then (old(numTasks) + 1) % 0x1_0000 else old(numTasks))
      ensures result == NullPointer || result == InvalidArgument ==> tasks[..] == old(tasks[..])
      ensures forall i | 0 <= i < MAX_TASKS && i != id :: tasks[i] == old(tasks[i])
    {
      result := Okay;
      if !given {
        result := NullPointer;
      }
      if result == Okay {
        if period == 0 {
          result := InvalidArgument;
        }
      }
      if result == Okay {
        tasks[id] := tasks[id].(kind := Periodic, ticks := 0, hasFunction := true,
                                period := Wrap32(period), heartbeat := Wrap32(heartbeat));
        if semCreated {
          tasks[id] := tasks[id].(semaphore := 0);
          numTasks := (numTasks + 1) % 0x1_0000;
        } else {
          result := SemCreateError;
        }
      }
    }

    /** tm_event_task. */
    method EventTask(id: nat, given: bool, heartbeat: int32) returns (result: TmResult)
      requires Valid() && id < MAX_TASKS
      modifies `numTasks, tasks
      ensures result == if given then Okay else NullPointer
      ensures tasks[id] ==
              if given then Task(EventDriven, 0, Wrap32(heartbeat), 0, true, old(tasks[id].semaphore))
              else old(tasks[id])
      ensures numTasks == if given then (old(numTasks) + 1) % 0x1_0000 else old(numTasks)
      ensures forall i | 0 <= i < MAX_TASKS && i != id :: tasks[i] == old(tasks[i])
    {
      result := Okay;
      if !given {
        result := NullPointer;
      }
      if result == Okay {
        tasks[id] := Task(EventDriven, 0, Wrap32(heartbeat), 0, true, tasks[id].semaphore);
        numTasks := (numTasks + 1) % 0x1_0000;
      }
    }

    /** tm_callback_task; a period of 0 is not refused. */
    method CallbackTask(id: nat, given: bool, period: int32) returns (result: TmResult)
      requires Valid() && id < MAX_TASKS
      modifies `numTasks, tasks
      ensures result == if given then Okay else NullPointer
      ensures tasks[id] ==
              if given then Task(Callback, Wrap32(period), 0, 0, true, old(tasks[id].semaphore))
              else old(tasks[id])
      ensures numTasks == if given then (old(numTasks) + 1) % 0x1_0000 else old(numTasks)
      ensures forall i | 0 <= i < MAX_TASKS && i != id :: tasks[i] == old(tasks[i])
    {
      result := Okay;
      if !given {
        result := NullPointer;
      }
      if result == Okay {
        tasks[id] := Task(Callback, Wrap32(period), 0, 0, true, tasks[id].semaphore);
        numTasks := (numTasks + 1) % 0x1_0000;
      }
    }

    /** tm_monitor_task; `given` is the name alone. */
    method MonitorTask(id: nat, given: bool) returns (result: TmResult)
      requires Valid() && id < MAX_TASKS
      modifies `numTasks, tasks
      ensures result == if given then Okay else NullPointer
      ensures tasks[id] == if given then Task(Monitor, 0, 0, 0, false, old(tasks[id].semaphore)) else old(tasks[id])
      ensures numTasks == if given then (old(numTasks) + 1) % 0x1_0000 else old(numTasks)
      ensures forall i | 0 <= i < MAX_TASKS && i != id :: tasks[i] == old(tasks[i])
    {
      result := Okay;
      if !given {
        result := NullPointer;
      }
      if result == Okay {
        tasks[id] := Task(Monitor, 0, 0, 0, false, tasks[id].semaphore);
        numTasks := (numTasks + 1) % 0x1_0000;
      }
    }

    // ---------- scheduling ----------

    /** tm_update_task on entry `id`. */
    method UpdateTask(id: nat) returns (status: TaskStatus)
      requires Valid() && id < MAX_TASKS
      modifies tasks
      ensures (tasks[id], status) == Update(old(tasks[id]))
      ensures tasks[..] == old(tasks[..])[id := tasks[id]]
    {
      tasks[id] := tasks[id].(ticks := Increment32(tasks[id].ticks));
      match tasks[id].kind {
        case Unregistered =>
          status := TaskStatus.Error;
        case Periodic =>
          status := Wait;
          if tasks[id].ticks == tasks[id].period {
            status := Schedule;
            tasks[id] := tasks[id].(ticks := 0);
          }
          if tasks[id].ticks >= tasks[id].heartbeat {
            status := MissedHeartbeat;
          }
        case EventDriven =>
          status := Wait;
          if tasks[id].ticks >= tasks[id].heartbeat {
            status := MissedHeartbeat;
          }
        case Callback =>
          status := Wait;
          if tasks[id].ticks == tasks[id].period {
            status := Schedule;
            tasks[id] := tasks[id].(ticks := 0);
          }
        case Monitor =>
          status := Wait;
      }
    }

    /** tm_process_task. */
    method ProcessTask(status: TaskStatus, id: nat)
      requires Valid() && id < MAX_TASKS
      modifies `scheduled, `missed, `called, tasks
      ensures View() == Process(old(View()), status, id)
    {
      if status == Schedule {
        if tasks[id].kind == Periodic {
          tasks[id] := tasks[id].(semaphore := tasks[id].semaphore + 1);
          scheduled := Record(scheduled, id);
        } else if tasks[id].kind == Callback {
          if tasks[id].hasFunction {
            called := called + [id];
          }
        }
      } else if status == MissedHeartbeat {
        missed := Record(missed, id);
      }
    }

    /** The body of the loop of tm_scheduler_task. */
    method RunSlot()
      requires Valid()
      modifies `scheduled, `missed, `called, tasks
      ensures View() == Slot(old(View()))
    {
      for id := 0 to MAX_TASKS
        invariant View() == SlotUpTo(old(View()), id)
      {
        var status := UpdateTask(id);
        ProcessTask(status, id);
      }
    }

    /**
     * tm_scheduler_task while no other thread runs (module Shutdown lets them run): the schedule
     * semaphore can be taken `takes` times, then taking it fails.
     */
    method SchedulerTask(takes: nat)
      requires Valid()
      modifies `scheduled, `missed, `called, `continueRunning, tasks
      ensures var slots := if old(continueRunning) then takes else 0;
              View() == Released(SlotsAfter(old(View()), slots), MAX_TASKS)
      ensures !continueRunning
    {
      var taken := 0;
      while continueRunning
        invariant taken <= takes && (taken > 0 ==> old(continueRunning))
        invariant !continueRunning && old(continueRunning) ==> taken == takes
        invariant continueRunning ==> old(continueRunning)
        invariant View() == SlotsAfter(old(View()), taken)
        decreases continueRunning, takes - taken
      {
        if taken < takes {
          taken := taken + 1;
          RunSlot();
        } else {
          continueRunning := false;
        }
      }
      ghost var last := View();
      for id := 0 to MAX_TASKS
        invariant View() == Released(last, id)
        invariant !continueRunning
      {
        if tasks[id].kind == Periodic {
          tasks[id] := tasks[id].(semaphore := tasks[id].semaphore + 1);
        }
      }
    }

    /** tm_stop. */
    method Stop()
      modifies `continueRunning
      ensures !continueRunning
    {
      continueRunning := false;
    }
  }
}
