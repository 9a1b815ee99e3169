/** kernel/sched.c as a transition system over the task table. */
module Sched {
  import opened Wrappers

  const MAX_TASKS := 64

  datatype RunState = Running | Stopped | Waiting

  /** Where a task goes on when it is next chosen: in user code, or behind the do_pause call
      inside do_wait, do_read (of some number of bytes) or pause. */
  datatype Place = User | InWait | InRead(nbytes: nat) | InPause

  datatype Task = Task(pid: nat, ppid: nat, state: RunState, exitStatus: int, at: Place)

  type Table = t: seq<Option<Task>> | |t| == MAX_TASKS witness seq(MAX_TASKS, _ => None)

  /** The table, the pid of the running task, and how many characters input_buf holds. */
  datatype System = System(tasks: Table, cur: nat, input: nat)

  predicate Is(t: Table, i: nat, s: RunState) {
    i < MAX_TASKS && t[i].Some? && t[i].value.state == s
  }

  /** Slot i holds a stopped child of p. */
  predicate Zombie(t: Table, i: nat, p: nat) {
    Is(t, i, Stopped) && t[i].value.ppid == p
  }

  function SetState(t: Table, i: nat, s: RunState, at: Place): Table
    requires i < MAX_TASKS && t[i].Some?
  {
    t[i := Some(t[i].value.(state := s, at := at))]
  }

  // ----- next_process

  /** The slot that next_process looks at in round i. */
  function Round(cur: nat, i: nat): (r: nat)
    ensures r < MAX_TASKS
  {
    (i + cur + 1) % MAX_TASKS
  }

  /** The first running slot from round i on, or 1. */
  function NextFrom(t: Table, cur: nat, i: nat): (r: nat)
    requires i <= MAX_TASKS
    ensures r < MAX_TASKS
    decreases MAX_TASKS - i
  {
    if i == MAX_TASKS then 1
    else if Is(t, Round(cur, i), Running) then Round(cur, i)
    else NextFrom(t, cur, i + 1)
  }

  function NextProcess(t: Table, cur: nat): nat {
    NextFrom(t, cur, 0)
  }

  /** sched; a table without the task it settles on is a crash. */
  function Schedule(s: System): Option<System> {
    var n := NextProcess(s.tasks, s.cur);
    if s.tasks[n].None? then None else Some(s.(cur := n))
  }

  // ----- the calls

  function WakeUpAll(t: Table): Table {
    seq(MAX_TASKS, i requires 0 <= i < MAX_TASKS =>
      if Is(t, i, Waiting) then Some(t[i].value.(state := Running)) else t[i])
  }

  /** wake_up of the parent in do_exit, when it is there and waits. */
  function WakeParent(t: Table, p: nat): Table {
    if Is(t, p, Waiting) then t[p := Some(t[p].value.(state := Running))] else t
  }

  function Reap(t: Table, p: nat): Table {
    seq(MAX_TASKS, i requires 0 <= i < MAX_TASKS => if Zombie(t, i, p) then None else t[i])
  }

  predicate HasZombie(t: Table, p: nat) {
    exists i :: 0 <= i < MAX_TASKS && Zombie(t, i, p)
  }

  /** The first empty slot from i on, or 0. */
  function FindEmpty(t: Table, i: nat): (r: nat)
    requires i <= MAX_TASKS
    ensures r < MAX_TASKS && (r != 0 ==> t[r].None?)
    decreases MAX_TASKS - i
  {
    if i == MAX_TASKS then 0 else if t[i].None? then i else FindEmpty(t, i + 1)
  }

  /** One pass of the loop in do_wait, whether the call is new or resumed. */
  function WaitStep(s: System): Option<System>
    requires s.cur < MAX_TASKS && s.tasks[s.cur].Some?
  {
    if HasZombie(s.tasks, s.cur) then
      var t := Reap(s.tasks, s.cur);
      if t[s.cur].None? then None
      else Some(s.(tasks := SetState(t, s.cur, t[s.cur].value.state, User)))
    else
      Schedule(s.(tasks := SetState(s.tasks, s.cur, Waiting, InWait)))
  }

  function ReadStep(s: System, nbytes: nat): Option<System>
    requires s.cur < MAX_TASKS && s.tasks[s.cur].Some?
  {
    if s.input == 0 then
      Schedule(s.(tasks := SetState(s.tasks, s.cur, Waiting, InRead(nbytes))))
    else
      Some(s.(tasks := SetState(s.tasks, s.cur, s.tasks[s.cur].value.state, User),
              input := s.input - if s.input > nbytes then nbytes else s.input))
  }

  function PauseStep(s: System): Option<System>
    requires s.cur < MAX_TASKS && s.tasks[s.cur].Some?
  {
    Schedule(s.(tasks := SetState(s.tasks, s.cur, Waiting, InPause)))
  }

  /** do_exit: panics for init and the idle task. */
  function ExitStep(s: System, status: int): Option<System>
    requires s.cur < MAX_TASKS && s.tasks[s.cur].Some?
  {
    var me := s.tasks[s.cur].value;
    if me.pid == 0 || me.pid == 1 then None
    else
      var t := s.tasks[s.cur := Some(me.(state := Stopped, exitStatus := status, at := User))];
      Schedule(s.(tasks := WakeParent(t, me.ppid)))
  }

  /** do_fork: the child is a copy of its parent under a new pid, and runs first. */
  function ForkStep(s: System): Option<System>
    requires s.cur < MAX_TASKS && s.tasks[s.cur].Some?
  {
    var pid := FindEmpty(s.tasks, 0);
    var me := s.tasks[s.cur].value;
    if pid == 0 then None
    else Some(s.(tasks := s.tasks[pid := Some(me.(pid := pid, ppid := me.pid, at := User))], cur := pid))
  }

  datatype Event =
    | Timer
    | Line(n: nat)      // tty_input of a newline: n characters reach input_buf
    | Resume            // the running task goes on inside the kernel
    | Fork
    | Exit(status: int)
    | Wait
    | Pause
    | Read(nbytes: nat)

  /** None stands for a panic, and for a call while the running task is inside another. */
  function Step(s: System, e: Event): Option<System> {
    if s.cur >= MAX_TASKS || s.tasks[s.cur].None? then None
    else
      var at := s.tasks[s.cur].value.at;
      match e
      case Timer => Schedule(s)
      case Line(n) => Some(s.(tasks := WakeUpAll(s.tasks), input := s.input + n))
      case Resume =>
        (match at
         case User => None
         case InWait => WaitStep(s)
         case InRead(nbytes) => ReadStep(s, nbytes)
         case InPause => Some(s.(tasks := SetState(s.tasks, s.cur, s.tasks[s.cur].value.state, User))))
      case Fork => if at.User? then ForkStep(s) else None
      case Exit(status) => if at.User? then ExitStep(s, status) else None
      case Wait => if at.User? then WaitStep(s) else None
      case Pause => if at.User? then PauseStep(s) else None
      case Read(nbytes) => if at.User? then ReadStep(s, nbytes) else None
  }

  function Run(s: System, es: seq<Event>): Option<System>
    decreases |es|
  {
    if es == [] then Some(s)
    else
      var s1 :- Step(s, es[0]);
      Run(s1, es[1..])
  }

  // ----- the invariant

  /** Slots hold their own pid; init, the idle task and the running task are never stopped. */
  ghost predicate TableOk(s: System) {
    && s.cur < MAX_TASKS && s.tasks[s.cur].Some? && !Is(s.tasks, s.cur, Stopped)
    && s.tasks[0].Some? && !Is(s.tasks, 0, Stopped) && !Is(s.tasks, 1, Stopped)
    && forall i :: 0 <= i < MAX_TASKS && s.tasks[i].Some? ==> s.tasks[i].value.pid == i
  }

  /** Slot i waits inside do_wait. */
  predicate WaitsForChild(t: Table, i: nat) {
    Is(t, i, Waiting) && t[i].value.at == InWait
  }

  predicate WaitsForInput(t: Table, i: nat) {
    Is(t, i, Waiting) && t[i].value.at.InRead?
  }

  /** No wakeup is lost: who waits for a child has none to reap, and who waits for input
      finds none in the buffer. */
  ghost predicate NoLostWakeup(s: System) {
    && (forall i, j :: WaitsForChild(s.tasks, i) && 0 <= j < MAX_TASKS ==> !Zombie(s.tasks, j, i))
    && (forall i :: WaitsForInput(s.tasks, i) ==> s.input == 0)
  }

  ghost predicate Inv(s: System) {
    TableOk(s) && NoLostWakeup(s)
  }

  /** What one step may do to a slot: a stopped task stays as it is until it is reaped, and
      init and the idle task keep their slots. */
  ghost predicate SlotsKept(s: System, s': System) {
    && s'.tasks[0].Some? && (s.tasks[1].Some? ==> s'.tasks[1].Some?)
    && forall i :: 0 <= i < MAX_TASKS && Is(s.tasks, i, Stopped) ==> s'.tasks[i] == s.tasks[i] || s'.tasks[i].None?
  }

  lemma {:induction false} NextRuns(t: Table, cur: nat, i: nat)
    requires i <= MAX_TASKS
    ensures var n := NextFrom(t, cur, i); n == 1 || Is(t, n, Running)
    decreases MAX_TASKS - i
  {
    if i < MAX_TASKS && !Is(t, Round(cur, i), Running) {
      NextRuns(t, cur, i + 1);
    }
  }

  lemma ScheduleInv(s: System)
    requires s.tasks[0].Some? && !Is(s.tasks, 0, Stopped) && !Is(s.tasks, 1, Stopped) && Schedule(s).Some?
    requires forall i :: 0 <= i < MAX_TASKS && s.tasks[i].Some? ==> s.tasks[i].value.pid == i
    requires NoLostWakeup(s)
    ensures Inv(Schedule(s).value)
  {
    NextRuns(s.tasks, s.cur, 0);
  }

  /** A step that adds no waiter without reason, no stopped child of a waiter, and no input
      somebody waits for, loses no wakeup. */
  lemma StillNoLostWakeup(s: System, s': System)
    requires NoLostWakeup(s)
    requires forall i :: WaitsForChild(s'.tasks, i) ==> WaitsForChild(s.tasks, i) || !HasZombie(s'.tasks, i)
    requires forall i, j :: WaitsForChild(s'.tasks, i) && Zombie(s'.tasks, j, i) ==> Zombie(s.tasks, j, i)
    requires forall i :: WaitsForInput(s'.tasks, i) ==>
      s'.input == 0 || (WaitsForInput(s.tasks, i) && s'.input == s.input)
    ensures NoLostWakeup(s')
  {
    forall i, j | WaitsForChild(s'.tasks, i) && 0 <= j < MAX_TASKS ensures !Zombie(s'.tasks, j, i) {
      if WaitsForChild(s.tasks, i) {
        assert !Zombie(s.tasks, j, i);
      }
    }
  }

  lemma WaitInv(s: System)
    requires Inv(s) && WaitStep(s).Some?
    ensures Inv(WaitStep(s).value) && SlotsKept(s, WaitStep(s).value)
  {
    if HasZombie(s.tasks, s.cur) {
      StillNoLostWakeup(s, WaitStep(s).value);
    } else {
      var s1 := s.(tasks := SetState(s.tasks, s.cur, Waiting, InWait));
      forall j | 0 <= j < MAX_TASKS ensures !Zombie(s1.tasks, j, s.cur) {
        assert !Zombie(s.tasks, j, s.cur);
      }
      StillNoLostWakeup(s, s1);
      ScheduleInv(s1);
    }
  }

  lemma ReadInv(s: System, nbytes: nat)
    requires Inv(s) && ReadStep(s, nbytes).Some?
    ensures Inv(ReadStep(s, nbytes).value) && SlotsKept(s, ReadStep(s, nbytes).value)
  {
    if s.input == 0 {
      var s1 := s.(tasks := SetState(s.tasks, s.cur, Waiting, InRead(nbytes)));
      StillNoLostWakeup(s, s1);
      ScheduleInv(s1);
    } else {
      var s' := ReadStep(s, nbytes).value;
      forall i ensures !WaitsForInput(s'.tasks, i)
               ensures WaitsForChild(s'.tasks, i) ==> WaitsForChild(s.tasks, i)
      {
        assert WaitsForInput(s.tasks, i) ==> s.input == 0;
      }
      forall i, j ensures Zombie(s'.tasks, j, i) ==> Zombie(s.tasks, j, i) {
      }
      StillNoLostWakeup(s, s');
    }
  }

  lemma ExitInv(s: System, status: int)
    requires Inv(s) && ExitStep(s, status).Some?
    ensures Inv(ExitStep(s, status).value) && SlotsKept(s, ExitStep(s, status).value)
  {
    var me := s.tasks[s.cur].value;
    var t := s.tasks[s.cur := Some(me.(state := Stopped, exitStatus := status, at := User))];
    var s1 := s.(tasks := WakeParent(t, me.ppid));
    StillNoLostWakeup(s, s1);
    ScheduleInv(s1);
  }

  lemma ForkInv(s: System)
    requires Inv(s) && ForkStep(s).Some?
    ensures Inv(ForkStep(s).value) && SlotsKept(s, ForkStep(s).value)
  {
    StillNoLostWakeup(s, ForkStep(s).value);
  }

  lemma PauseInv(s: System)
    requires Inv(s) && PauseStep(s).Some?
    ensures Inv(PauseStep(s).value) && SlotsKept(s, PauseStep(s).value)
  {
    var s1 := s.(tasks := SetState(s.tasks, s.cur, Waiting, InPause));
    StillNoLostWakeup(s, s1);
    ScheduleInv(s1);
  }

  lemma LineInv(s: System, n: nat)
    requires Inv(s)
    ensures var s' := s.(tasks := WakeUpAll(s.tasks), input := s.input + n); Inv(s') && SlotsKept(s, s')
  {
    StillNoLostWakeup(s, s.(tasks := WakeUpAll(s.tasks), input := s.input + n));
  }

  lemma ReturnInv(s: System)
    requires Inv(s)
    ensures var s' := s.(tasks := SetState(s.tasks, s.cur, s.tasks[s.cur].value.state, User));
      Inv(s') && SlotsKept(s, s')
  {
    StillNoLostWakeup(s, s.(tasks := SetState(s.tasks, s.cur, s.tasks[s.cur].value.state, User)));
  }

  lemma StepInv(s: System, e: Event)
    requires Inv(s) && Step(s, e).Some?
    ensures Inv(Step(s, e).value) && SlotsKept(s, Step(s, e).value)
  {
    match e
    case Timer => ScheduleInv(s);
    case Line(n) => LineInv(s, n);
    case Resume =>
      match s.tasks[s.cur].value.at {
        case InWait => WaitInv(s);
        case InRead(nbytes) => ReadInv(s, nbytes);
        case InPause => ReturnInv(s);
      }
    case Fork => ForkInv(s);
    case Exit(status) => ExitInv(s, status);
    case Wait => WaitInv(s);
    case Pause => PauseInv(s);
    case Read(nbytes) => ReadInv(s, nbytes);
  }

  /** In every reachable state the table is in order and no wakeup has been lost. */
  lemma {:induction false} RunInv(s: System, es: seq<Event>)
    requires Inv(s) && Run(s, es).Some?
    ensures Inv(Run(s, es).value)
    ensures s.tasks[1].Some? ==> Run(s, es).value.tasks[1].Some?
    decreases |es|
  {
    if es != [] {
      StepInv(s, es[0]);
      RunInv(Step(s, es[0]).value, es[1..]);
    }
  }

  // ----- parents and children

  /** Fork succeeds if and only if a slot is empty. The lowest one then holds the child, which
      runs next; its parent is the task that forked, and nothing else has changed. */
  lemma ForkChild(s: System)
    requires Inv(s)
    ensures ForkStep(s).Some? <==> exists j :: 0 <= j < MAX_TASKS && s.tasks[j].None?
    ensures ForkStep(s).Some? ==>
      var s' := ForkStep(s).value; var c := s'.cur;
      && s.tasks[c].None? && (forall j :: 0 <= j < c ==> s.tasks[j].Some?) && s'.input == s.input
      && s'.tasks[c].Some? && s'.tasks[c].value.pid == c && s'.tasks[c].value.ppid == s.cur
      && s'.tasks[c].value.state == s.tasks[s.cur].value.state && s'.tasks[c].value.at == User
      && forall j :: 0 <= j < MAX_TASKS && j != c ==> s'.tasks[j] == s.tasks[j]
  {
    FindEmptySound(s.tasks, 0);
  }

  /** Whether the step puts the running task to sleep. */
  predicate Sleeps(s: System, e: Event)
    requires s.cur < MAX_TASKS && s.tasks[s.cur].Some?
  {
    var at := s.tasks[s.cur].value.at;
    || e.Pause?
    || ((e.Wait? || (e.Resume? && at.InWait?)) && !HasZombie(s.tasks, s.cur))
    || ((e.Read? || (e.Resume? && at.InRead?)) && s.input == 0)
  }

  /** Whether the step calls sched. */
  predicate CallsSched(s: System, e: Event)
    requires s.cur < MAX_TASKS && s.tasks[s.cur].Some?
  {
    e.Timer? || e.Exit? || Sleeps(s, e)
  }

  /** Where the running task goes on after the step. */
  function GoesOn(s: System, e: Event): Place
    requires s.cur < MAX_TASKS && s.tasks[s.cur].Some?
  {
    match e
    case Pause => InPause
    case Wait => if Sleeps(s, e) then InWait else User
    case Read(nbytes) => if Sleeps(s, e) then InRead(nbytes) else User
    case Resume => if Sleeps(s, e) then s.tasks[s.cur].value.at else User
    case Exit(_) => User
    case _ => s.tasks[s.cur].value.at
  }

  /** Who may do what to the task in slot i: only the child of a fork appears, only the parent
      reaps it, only it stops or puts itself to sleep, it is woken by a new line and by the exit
      of a child and by nothing else, and its pid and parent never change. */
  ghost predicate SlotLaw(s: System, e: Event, s': System, i: nat)
    requires i < MAX_TASKS && s.cur < MAX_TASKS && s.tasks[s.cur].Some?
  {
    var me := s.tasks[s.cur].value;
    if s.tasks[i].None? then
      s'.tasks[i].Some? ==> e.Fork? && i == s'.cur && s'.tasks[i].value.ppid == s.cur
    else if s'.tasks[i].None? then
      (e.Wait? || (e.Resume? && me.at.InWait?)) && Zombie(s.tasks, i, s.cur)
    else
      var t, t' := s.tasks[i].value, s'.tasks[i].value;
      && t'.pid == t.pid && t'.ppid == t.ppid && t'.at == (if i == s.cur then GoesOn(s, e) else t.at)
      && (if e.Exit? && i == s.cur then t'.exitStatus == e.status else t'.exitStatus == t.exitStatus)
      && (t'.state.Stopped? <==> t.state.Stopped? || (e.Exit? && i == s.cur))
      && (t'.state.Waiting? <==>
            || (i == s.cur && Sleeps(s, e))
            || (t.state.Waiting? && !e.Line? && !(e.Exit? && i in {me.ppid, s.cur})))
  }

  lemma StepSlot(s: System, e: Event, i: nat)
    requires Inv(s) && Step(s, e).Some? && i < MAX_TASKS
    ensures SlotLaw(s, e, Step(s, e).value, i)
  {
  }

  /** do_wait with a stopped child: every stopped child is gone, the caller returns, and nothing
      else changes. Without one: the caller sleeps, and nothing else changes. */
  lemma WaitReaps(s: System)
    requires Inv(s) && WaitStep(s).Some?
    ensures var s' := WaitStep(s).value;
      && s'.input == s.input
      && (forall i :: 0 <= i < MAX_TASKS && i != s.cur ==>
            s'.tasks[i] == if Zombie(s.tasks, i, s.cur) then None else s.tasks[i])
      && s'.tasks[s.cur] == Some(
           if HasZombie(s.tasks, s.cur) then s.tasks[s.cur].value.(at := User)
           else s.tasks[s.cur].value.(at := InWait, state := Waiting))
      && !HasZombie(s'.tasks, s.cur) && (HasZombie(s.tasks, s.cur) ==> s'.cur == s.cur)
  {
  }

  /** With an idle task, a step fails only where the kernel panics, for a full table or the exit
      of init or the idle task, or when it does not fit what the running task is doing. */
  lemma StepGrantedIff(s: System, e: Event)
    requires Inv(s) && s.tasks[1].Some?
    ensures var user := s.tasks[s.cur].value.at == User;
      Step(s, e).Some? <==> match e
        case Timer => true
        case Line(_) => true
        case Resume => !user
        case Fork => user && exists j :: 0 <= j < MAX_TASKS && s.tasks[j].None?
        case Exit(_) => user && s.cur != 0 && s.cur != 1
        case _ => user
  {
    ForkChild(s);
    forall t: Table, cur: nat | t[1].Some? ensures t[NextProcess(t, cur)].Some? {
      NextRuns(t, cur, 0);
    }
  }

  /** The number of bytes that the step tries to read, if it reads. */
  function Reads(s: System, e: Event): Option<nat>
    requires s.cur < MAX_TASKS && s.tasks[s.cur].Some?
  {
    var at := s.tasks[s.cur].value.at;
    if e.Read? then Some(e.nbytes) else if e.Resume? && at.InRead? then Some(at.nbytes) else None
  }

  /** Characters come with a line and go with a read, which takes what is there, as far as it was
      asked for, or all of it. */
  lemma StepInput(s: System, e: Event)
    requires Inv(s) && Step(s, e).Some?
    ensures var left := Step(s, e).value.input;
      match Reads(s, e)
      case Some(nbytes) => left <= s.input && s.input - left <= nbytes && (left == 0 || s.input - left == nbytes)
      case None => left == s.input + if e.Line? then e.n else 0
  {
  }

  /** The slot is taken before every step of the run and at its end. */
  ghost predicate StaysTaken(s: System, es: seq<Event>, i: nat)
    requires Run(s, es).Some? && i < MAX_TASKS
    decreases |es|
  {
    s.tasks[i].Some? && (es != [] ==> StaysTaken(Step(s, es[0]).value, es[1..], i))
  }

  /** While its slot is taken, a task has one parent, and once stopped it stays as it is. */
  lemma {:induction false} RunKeepsTask(s: System, es: seq<Event>, i: nat)
    requires Inv(s) && Run(s, es).Some? && i < MAX_TASKS && StaysTaken(s, es, i)
    ensures var s' := Run(s, es).value;
      && s'.tasks[i].Some? && s'.tasks[i].value.pid == i && s'.tasks[i].value.ppid == s.tasks[i].value.ppid
      && (Is(s.tasks, i, Stopped) ==> s'.tasks[i] == s.tasks[i])
    decreases |es|
  {
    hide Step;
    if es != [] {
      StepSlot(s, es[0], i);
      StepInv(s, es[0]);
      RunKeepsTask(Step(s, es[0]).value, es[1..], i);
    }
  }

  /** A child that stays in its slot until its parent waits is reaped by it: task p forks, the
      child exits with the status some time later, and when p calls wait after whatever else has
      happened, or is resumed in it, it returns to user code with the slot emptied, which held
      the child of p with that status. */
  lemma ChildReaped(s: System, s1: System, before: seq<Event>, s2: System, status: int, s3: System,
                    after: seq<Event>, s4: System)
    requires Inv(s) && Step(s, Fork) == Some(s1)
    requires s1.cur < MAX_TASKS && Run(s1, before) == Some(s2) && StaysTaken(s1, before, s1.cur)
    requires s2.cur == s1.cur && Step(s2, Exit(status)) == Some(s3)
    requires Run(s3, after) == Some(s4) && StaysTaken(s3, after, s1.cur)
    requires s4.cur == s.cur && s4.tasks[s.cur].Some? && s4.tasks[s.cur].value.at in {User, InWait}
    ensures var c := s1.cur;
      Zombie(s4.tasks, c, s.cur) && s4.tasks[c].value.pid == c && s4.tasks[c].value.exitStatus == status
    ensures var s5 := Step(s4, if s4.tasks[s.cur].value.at == User then Wait else Resume);
      && s5.Some? && s5.value.cur == s.cur && s5.value.tasks[s1.cur].None?
      && s5.value.tasks[s.cur].Some? && s5.value.tasks[s.cur].value.at == User
  {
    var c := s1.cur;
    ForkChild(s);
    hide Step, Run, StaysTaken;
    ForkKept(s, s1);
    RunKeepsTask(s1, before, c);
    RunInv(s1, before);
    StepSlot(s2, Exit(status), c);
    StepInv(s2, Exit(status));
    RunKeepsTask(s3, after, c);
    RunInv(s3, after);
    assert Zombie(s4.tasks, c, s.cur);
    WaitSteps(s4);
    WaitReaps(s4);
  }

  lemma ForkKept(s: System, s1: System)
    requires Inv(s) && Step(s, Fork) == Some(s1)
    ensures Inv(s1) && ForkStep(s) == Some(s1)
  {
    StepInv(s, Fork);
  }

  lemma WaitSteps(s: System)
    requires Inv(s) && HasZombie(s.tasks, s.cur)
    ensures WaitStep(s).Some?
    ensures s.tasks[s.cur].value.at == User ==> Step(s, Wait) == WaitStep(s)
    ensures s.tasks[s.cur].value.at == InWait ==> Step(s, Resume) == WaitStep(s)
  {
  }

  // ----- bounded waiting

  /** The round in which next_process reaches slot t. */
  function Distance(cur: nat, t: nat): nat
    requires cur < MAX_TASKS && t < MAX_TASKS
  {
    if t > cur then t - cur - 1 else t + MAX_TASKS - cur - 1
  }

  lemma RoundAt(cur: nat, i: nat)
    requires cur < MAX_TASKS && i < MAX_TASKS
    ensures Round(cur, i) == if i + cur + 1 < MAX_TASKS then i + cur + 1 else i + cur + 1 - MAX_TASKS
    ensures Distance(cur, Round(cur, i)) == i
  {
  }

  lemma {:induction false} NextNoLater(t: Table, cur: nat, i: nat, r: nat)
    requires cur < MAX_TASKS && r < MAX_TASKS && Is(t, r, Running) && i <= Distance(cur, r)
    ensures var n := NextFrom(t, cur, i);
      Is(t, n, Running) && i <= Distance(cur, n) <= Distance(cur, r)
    decreases MAX_TASKS - i
  {
    RoundAt(cur, i);
    if !Is(t, Round(cur, i), Running) {
      RoundAt(cur, Distance(cur, r));
      assert Round(cur, Distance(cur, r)) == r;
      NextNoLater(t, cur, i + 1, r);
    }
  }

  /** A call of sched chooses r or brings the choice strictly closer to it. */
  lemma CloserOrChosen(t: Table, cur: nat, r: nat)
    requires cur < MAX_TASKS && r < MAX_TASKS && Is(t, r, Running)
    ensures var n := NextProcess(t, cur); n == r || Distance(n, r) < Distance(cur, r)
  {
    NextNoLater(t, cur, 0, r);
  }

  /** Successive choices of sched, over whatever the table is at each call. */
  function Chosen(tables: seq<Table>, cur: nat): seq<nat>
    decreases |tables|
  {
    if tables == [] then []
    else
      var n := NextProcess(tables[0], cur);
      [n] + Chosen(tables[1..], n)
  }

  /** A task that stays running is chosen within as many calls as its distance, so within
      MAX_TASKS calls, however the other tasks change in between. */
  lemma {:induction false} BoundedWaiting(tables: seq<Table>, cur: nat, r: nat)
    requires cur < MAX_TASKS && r < MAX_TASKS && |tables| > Distance(cur, r)
    requires forall i :: 0 <= i < |tables| ==> Is(tables[i], r, Running)
    ensures r in Chosen(tables[..Distance(cur, r) + 1], cur)
    decreases Distance(cur, r)
  {
    var n := NextProcess(tables[0], cur);
    var d := Distance(cur, r) + 1;
    CloserOrChosen(tables[0], cur, r);
    assert Chosen(tables[..d], cur) == [n] + Chosen(tables[..d][1..], n);
    if n != r {
      var e := Distance(n, r) + 1;
      BoundedWaiting(tables[1..], n, r);
      ChosenPrefix(tables[..d][1..], n, e);
      assert tables[..d][1..][..e] == tables[1..][..e];
    }
  }

  lemma {:induction false} ChosenPrefix(tables: seq<Table>, cur: nat, k: nat)
    requires k <= |tables|
    ensures forall x :: x in Chosen(tables[..k], cur) ==> x in Chosen(tables, cur)
    decreases k
  {
    if k > 0 {
      var n := NextProcess(tables[0], cur);
      ChosenPrefix(tables[1..], n, k - 1);
      assert tables[..k][1..] == tables[1..][..k - 1];
    }
  }

  /** What a step without fork does to the choice of the running task. */
  lemma StepChoice(s: System, e: Event)
    requires Step(s, e).Some? && !e.Fork?
    ensures s.cur < MAX_TASKS && s.tasks[s.cur].Some?
    ensures var s' := Step(s, e).value;
      s'.cur == if CallsSched(s, e) then NextProcess(s'.tasks, s.cur) else s.cur
  {
  }

  /** The calls of sched on a run. */
  function SchedCalls(s: System, es: seq<Event>): nat
    requires Run(s, es).Some?
    decreases |es|
  {
    if es == [] then 0
    else (if CallsSched(s, es[0]) then 1 else 0) + SchedCalls(Step(s, es[0]).value, es[1..])
  }

  /** Task r is running after every step of the run. */
  ghost predicate StaysRunning(s: System, es: seq<Event>, r: nat)
    requires Run(s, es).Some?
    decreases |es|
  {
    es != [] ==> Is(Step(s, es[0]).value.tasks, r, Running) && StaysRunning(Step(s, es[0]).value, es[1..], r)
  }

  /** Some call of sched on the run chooses r. */
  ghost predicate IsChosen(s: System, es: seq<Event>, r: nat)
    requires Run(s, es).Some?
    decreases |es|
  {
    es != [] && ((CallsSched(s, es[0]) && Step(s, es[0]).value.cur == r) || IsChosen(Step(s, es[0]).value, es[1..], r))
  }

  /** On every run without fork, whatever the tasks do, a task that stays running is chosen by
      the time sched has been called more often than its distance, so within MAX_TASKS calls. */
  lemma {:induction false} RunBoundedWaiting(s: System, es: seq<Event>, r: nat)
    requires Run(s, es).Some? && r < MAX_TASKS && s.cur < MAX_TASKS
    requires (forall i :: 0 <= i < |es| ==> !es[i].Fork?) && StaysRunning(s, es, r)
    requires SchedCalls(s, es) > Distance(s.cur, r)
    ensures IsChosen(s, es, r)
    decreases |es|
  {
    hide Step, CallsSched, Is;
    StepChoice(s, es[0]);
    var s1 := Step(s, es[0]).value;
    if CallsSched(s, es[0]) {
      CloserOrChosen(s1.tasks, s.cur, r);
      if s1.cur != r {
        RunBoundedWaiting(s1, es[1..], r);
      }
    } else {
      RunBoundedWaiting(s1, es[1..], r);
    }
  }

  /** The idle task is chosen while it is not running only when no task is running. */
  lemma IdleOnlyWhenNothingRuns(t: Table, cur: nat, r: nat)
    requires cur < MAX_TASKS && r < MAX_TASKS
    requires NextProcess(t, cur) == 1 && !Is(t, 1, Running)
    ensures !Is(t, r, Running)
  {
    if Is(t, r, Running) {
      NextNoLater(t, cur, 0, r);
      assert false;
    }
  }

  /** 0 is a sound failure value: slot 0 is always taken, so find_empty_task returns 0 if and
      only if the table is full, and otherwise the lowest empty slot. */
  lemma {:induction false} FindEmptySound(t: Table, i: nat)
    requires i <= MAX_TASKS && t[0].Some?
    ensures var r := FindEmpty(t, i);
      && (r == 0 <==> forall j :: i <= j < MAX_TASKS ==> t[j].Some?)
      && (r != 0 ==> i <= r && t[r].None? && forall j :: i <= j < r ==> t[j].Some?)
    decreases MAX_TASKS - i
  {
    if i < MAX_TASKS && t[i].Some? {
      FindEmptySound(t, i + 1);
    }
  }

  /** A parent that waits while its child exits is running again, so by bounded waiting it is
      resumed, and then it reaps the child. */
  lemma ExitWakesParent(s: System, status: int)
    requires Inv(s) && ExitStep(s, status).Some?
    requires s.tasks[s.cur].value.at == User && WaitsForChild(s.tasks, s.tasks[s.cur].value.ppid)
    ensures var s' := ExitStep(s, status).value; var p := s.tasks[s.cur].value.ppid;
      && Is(s'.tasks, p, Running) && s'.tasks[p].value.at == InWait && Zombie(s'.tasks, s.cur, p)
      && s'.tasks[s.cur].value.exitStatus == status
      && var s'' := WaitStep(s'.(cur := p));
      && s''.Some? && s''.value.tasks[s.cur].None? && s''.value.tasks[p].Some? && s''.value.tasks[p].value.at == User
  {
    var s', p := ExitStep(s, status).value, s.tasks[s.cur].value.ppid;
    assert Zombie(s'.tasks, s.cur, p);
    assert HasZombie(s'.tasks, p);
  }
}
