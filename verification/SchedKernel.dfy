/** kernel/sched.c in its own form: scans and updates of the task array. */
module SchedKernel {
  import opened Wrappers
  import opened Sched

  /** The stopped child of p with the highest pid. */
  predicate HighestZombie(t: Table, p: nat, child: nat) {
    Zombie(t, child, p) && forall j :: child < j < MAX_TASKS ==> !Zombie(t, j, p)
  }

  /** sched, do_fork and the blocking calls return false where the source panics or follows
      a null task pointer. */
  class Scheduler {
    const tasks: array<Option<Task>>
    var current: nat    // pid of the running task
    var input: nat      // characters in input_buf

    ghost predicate Valid()
      reads this, tasks
    {
      tasks.Length == MAX_TASKS && current < MAX_TASKS && tasks[current].Some?
    }

    ghost function Now(): System
      requires tasks.Length == MAX_TASKS
      reads this, tasks
    {
      System(tasks[..], current, input)
    }

    /** prepare_init_task: only init is there, and it runs. */
    constructor ()
      ensures Valid() && fresh(tasks) && Inv(Now())
    {
      var init := Some(Task(0, 0, Running, 0, User));
      tasks := new Option<Task>[MAX_TASKS](i => if i == 0 then init else None);
      current, input := 0, 0;
    }

    method NextProcess() returns (next: nat)
      requires Valid()
      ensures next < MAX_TASKS && next == Sched.NextProcess(tasks[..], current)
    {
      next := 1;
      for i := 0 to MAX_TASKS
        invariant next == 1
        invariant Sched.NextProcess(tasks[..], current) == NextFrom(tasks[..], current, i)
      {
        var t := tasks[(i + current + 1) % MAX_TASKS];
        if t.Some? && t.value.state == Running {
          return (i + current + 1) % MAX_TASKS;
        }
      }
    }

    method Schedule() returns (ok: bool)
      requires Valid()
      modifies this`current
      ensures Sched.Schedule(old(Now())) == if ok then Some(Now()) else None
      ensures Valid()
    {
      var next := NextProcess();
      ok := tasks[next].Some?;
      if ok {
        current := next;
      }
    }

    method WakeUpAll()
      requires tasks.Length == MAX_TASKS
      modifies tasks
      ensures tasks[..] == Sched.WakeUpAll(old(tasks[..]))
    {
      for i := 0 to MAX_TASKS
        invariant forall j :: 0 <= j < MAX_TASKS ==>
          tasks[j] == if j < i then Sched.WakeUpAll(old(tasks[..]))[j] else old(tasks[j])
      {
        if tasks[i].Some? && tasks[i].value.state == Waiting {
          tasks[i] := Some(tasks[i].value.(state := Running));
        }
      }
    }

    method FindEmptyTask() returns (pid: nat)
      requires tasks.Length == MAX_TASKS
      ensures pid == FindEmpty(tasks[..], 0)
    {
      for i := 0 to MAX_TASKS
        invariant FindEmpty(tasks[..], 0) == FindEmpty(tasks[..], i)
      {
        if tasks[i].None? {
          return i;
        }
      }
      return 0;
    }

    method DoFork() returns (ok: bool)
      requires Valid()
      modifies this`current, tasks
      ensures ForkStep(old(Now())) == if ok then Some(Now()) else None
    {
      var pid := FindEmptyTask();
      if pid == 0 {
        return false;
      }
      var me := tasks[current].value;
      tasks[pid] := Some(me.(pid := pid, ppid := me.pid, at := User));
      current := pid;
      ok := true;
    }

    /** do_pause, entered at the given place of the running task. */
    method DoPause(at: Place) returns (ok: bool)
      requires Valid()
      modifies this`current, tasks
      ensures Sched.Schedule(old(Now()).(tasks := SetState(old(tasks[..]), old(current), Waiting, at)))
           == if ok then Some(Now()) else None
      ensures Valid()
    {
      tasks[current] := Some(tasks[current].value.(state := Waiting, at := at));
      assert tasks[..] == SetState(old(tasks[..]), current, Waiting, at);
      ok := Schedule();
    }

    method DoExit(status: int) returns (ok: bool)
      requires Valid()
      modifies this`current, tasks
      ensures ExitStep(old(Now()), status) == if ok then Some(Now()) else None
    {
      var me := tasks[current].value;
      if me.pid == 0 || me.pid == 1 {
        return false;
      }
      tasks[current] := Some(me.(state := Stopped, exitStatus := status, at := User));
      ghost var t := tasks[..];
      if me.ppid < MAX_TASKS && tasks[me.ppid].Some? && tasks[me.ppid].value.state == Waiting {
        tasks[me.ppid] := Some(tasks[me.ppid].value.(state := Running));
      }
      assert tasks[..] == WakeParent(t, me.ppid);
      ok := Schedule();
    }

    /** The scan of do_wait: every stopped child is reaped, and the highest of their pids is
        returned with its status; 0 when there is none. */
    method ReapChildren(statLoc: int) returns (child: nat, status: int)
      requires Valid() && TableOk(Now())
      modifies tasks
      ensures tasks[..] == Reap(old(tasks[..]), current) && !HasZombie(tasks[..], current)
      ensures child == 0 <==> !HasZombie(old(tasks[..]), current)
      ensures child == 0 ==> status == statLoc && tasks[..] == old(tasks[..])
      ensures child != 0 ==>
        HighestZombie(old(tasks[..]), current, child) && status == old(tasks[..])[child].value.exitStatus
    {
      ghost var t0 := tasks[..];
      child, status := 0, statLoc;
      for i := 0 to MAX_TASKS
        invariant forall j :: 0 <= j < MAX_TASKS ==> tasks[j] == if j < i && Zombie(t0, j, current) then None else t0[j]
        invariant child == 0 <==> forall j :: 0 <= j < i ==> !Zombie(t0, j, current)
        invariant child == 0 ==> status == statLoc
        invariant child != 0 ==> child < i && Zombie(t0, child, current) && status == t0[child].value.exitStatus
        invariant child != 0 ==> forall j :: child < j < i ==> !Zombie(t0, j, current)
      {
        if tasks[i].Some? && tasks[i].value.ppid == current && tasks[i].value.state == Stopped {
          assert Zombie(t0, i, current);
          status := tasks[i].value.exitStatus;
          child := tasks[i].value.pid;
          tasks[child] := None;
        }
      }
      assert child == 0 ==> tasks[..] == t0;
    }

    /** One pass of do_wait's loop: it returns with the highest stopped child and its status, or
        goes to sleep. */
    method DoWait(statLoc: int) returns (ok: bool, child: nat, status: int)
      requires Valid() && TableOk(Now())
      modifies this`current, tasks
      ensures WaitStep(old(Now())) == if ok then Some(Now()) else None
      ensures if HasZombie(old(tasks[..]), old(current)) then
          HighestZombie(old(tasks[..]), old(current), child) && status == old(tasks[..])[child].value.exitStatus
        else
          child == 0 && status == statLoc
    {
      child, status := ReapChildren(statLoc);
      if child != 0 {
        assert tasks[current] == old(tasks[current]);
        tasks[current] := Some(tasks[current].value.(at := User));
        ok := true;
      } else {
        ok := DoPause(InWait);
      }
    }

    /** One pass of do_read's loop on descriptor 0, counting characters only. */
    method DoRead(nbytes: nat) returns (ok: bool)
      requires Valid()
      modifies this`current, this`input, tasks
      ensures ReadStep(old(Now()), nbytes) == if ok then Some(Now()) else None
    {
      if input == 0 {
        ok := DoPause(InRead(nbytes));
      } else {
        tasks[current] := Some(tasks[current].value.(at := User));
        input := input - if input > nbytes then nbytes else input;
        ok := true;
      }
    }
  }
}
