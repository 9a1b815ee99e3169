/** Whole runs: copy-on-write refines eager copying, and no referenced frame is handed out. */
module MmRuns {
  import opened Wrappers
  import opened PageWords
  import opened Mm
  import opened MmInvariant
  import opened MmSplit
  import opened MmFork
  import opened MmRelease
  import opened MmMap
  import opened MmSteps
  import opened MmGrant

  datatype Op =
    | Fork
    | Write(k: UserSlot, i: Slot, off: Slot, w: Word, codeEnd: nat)
    | Read(k: UserSlot, i: Slot, off: Slot, codeEnd: nat)
    | Release
    | Map(k: UserSlot, i: Slot, rw: bool, user: bool)
    | Fault(k: UserSlot, i: Slot, byte: InPage, codeEnd: nat, brk: nat)
    | Exited(va: Va)
    | Switch(a: FrameNo)

  /** The steps this model speaks about. A write or read of a page that is not present is
      a Fault first. Map and Fault need a page that is not present, in a table that is safe, and after
      a fork the counts must cover the references. */
  ghost predicate Enabled(s: State, op: Op) {
    match op
    case Fork => Covers(s)
    case Write(k, i, _, _, _) => Pde(s, k).p && Pte(s, Va(k, i)).p
    case Read(k, i, _, _) => Pde(s, k).p && Pte(s, Va(k, i)).p
    case Release => true
    case Map(k, i, _, _) => Absent(s, k, i) && Safe(s, k)
    case Fault(k, i, _, _, _) => Absent(s, k, i) && Safe(s, k)
    case Exited(va) =>
      && KERNEL <= va.d < SELF && Pde(s, va.d).p && Pte(s, va).p && Pte(s, va).frame in s.spaces
      && forall k: UserSlot :: !s.mem[Pte(s, va).frame][k].p
    case Switch(a) => a in s.spaces
  }

  ghost function Next(s: State, op: Op): Option<State> {
    match op
    case Fork => (var (s', _, _) :- ForkMem(s); Some(s'))
    case Write(k, i, off, w, codeEnd) => UserWrite(s, k, i, off, w, codeEnd)
    case Read(k, i, off, codeEnd) => UserRead(s, k, i, off, codeEnd)
    case Release => FreeMemUsr(s)
    case Map(k, i, rw, user) => MapFresh(s, Va(k, i), rw, user)
    case Fault(k, i, byte, codeEnd, brk) => PfNonPresent(s, k, i, AddressIn(k, i, byte), codeEnd, brk)
    case Exited(va) => Reap(s, va)
    case Switch(a) => if a in s.spaces then Some(s.(cur := a)) else None
  }

  // ----- the simple machine: every page of every space is its own

  /** A page with the permissions it was mapped with. */
  datatype EagerPage = EagerPage(page: Page, rw: bool, user: bool)

  /** The pages and page tables of all spaces by place; of a table, whether it was installed for
      the user. */
  datatype Eager = Eager(mem: map<Owner, EagerPage>, tabs: map<Owner, bool>, spaces: set<FrameNo>, cur: FrameNo)

  predicate CanRead(e: Eager, k: UserSlot, i: Slot) {
    var o, t := Pg(e.cur, k, i), Tab(e.cur, k);
    t in e.tabs && e.tabs[t] && o in e.mem && e.mem[o].user
  }

  predicate CanWrite(e: Eager, k: UserSlot, i: Slot) {
    CanRead(e, k, i) && e.mem[Pg(e.cur, k, i)].rw
  }

  ghost function EagerFork(e: Eager, d: FrameNo): Eager {
    e.(mem := map o | o in All(e.spaces + {d}) && Parent(e.cur, d, o) in e.mem :: e.mem[Parent(e.cur, d, o)],
       tabs := map o | o in All(e.spaces + {d}) && Parent(e.cur, d, o) in e.tabs :: e.tabs[Parent(e.cur, d, o)],
       spaces := e.spaces + {d})
  }

  /** A page appears, in a new table if there is none; what it holds is left open, for frames
      are not cleared. */
  function EagerMap(e: Eager, k: UserSlot, i: Slot, page: EagerPage, tableUser: bool): Eager {
    var t := Tab(e.cur, k);
    e.(mem := e.mem[Pg(e.cur, k, i) := page], tabs := if t in e.tabs then e.tabs else e.tabs[t := tableUser])
  }

  function EagerRelease(e: Eager): Eager {
    e.(mem := map o | o in e.mem && o.a != e.cur :: e.mem[o],
       tabs := map o | o in e.tabs && o.a != e.cur :: e.tabs[o])
  }

  /** A write or read needs permission at both levels; what else the processes do is as in the kernel. */
  ghost predicate EagerNext(e: Eager, op: Op, e': Eager) {
    match op
    case Fork => exists d :: d !in e.spaces && e' == EagerFork(e, d)
    case Write(k, i, off, w, _) =>
      var o := Pg(e.cur, k, i);
      CanWrite(e, k, i) && e' == e.(mem := e.mem[o := e.mem[o].(page := e.mem[o].page[off := w])])
    case Read(k, i, _, _) => CanRead(e, k, i) && e' == e
    case Release => e' == EagerRelease(e)
    case Map(k, i, rw, user) =>
      var o := Pg(e.cur, k, i);
      o !in e.mem && o in e'.mem && e' == EagerMap(e, k, i, EagerPage(e'.mem[o].page, rw, user), user)
    case Fault(k, i, byte, codeEnd, brk) =>
      codeEnd < AddressIn(k, i, byte) <= brk &&
      var j := if Tab(e.cur, k) in e.tabs then i else 0;
      var o := Pg(e.cur, k, j);
      o !in e.mem && o in e'.mem && e' == EagerMap(e, k, j, EagerPage(e'.mem[o].page, true, true), false)
    case Exited(_) =>
      exists a :: a in e.spaces && a != e.cur && e' == e.(spaces := e.spaces - {a})
        && forall o :: o in e.mem || o in e.tabs ==> o.a != a
    case Switch(a) => a in e.spaces && e' == e.(cur := a)
  }

  /** The step writes or reads a page without permission to: the simple machine refuses it. */
  predicate Breach(e: Eager, op: Op) {
    (op.Write? && !CanWrite(e, op.k, op.i)) || (op.Read? && !CanRead(e, op.k, op.i))
  }

  // ----- the simulation

  /** A page may have lost its write permission to a mark for copying, and nothing else. */
  predicate PageSim(p: EagerPage, page: Page, w: Word) {
    p.page == page && p.user == w.user && (w.rw ==> p.rw) && (p.rw ==> w.rw || w.bit9)
  }

  ghost predicate SimAt(s: State, e: Eager, o: Owner) {
    var here := o.a in s.spaces && Target(s, {}, o).Some?;
    match o
    case Pg(_, _, _) =>
      && (o in e.mem <==> here) && o !in e.tabs
      && (here ==> PageSim(e.mem[o], Look(s, {}, o).value, SlotWord(s, o).value))
    case Tab(_, _) =>
      && (o in e.tabs <==> here) && o !in e.mem
      && (here && e.tabs[o] ==> SlotWord(s, o).value.user)
  }

  /** What each process has, and may do with it. */
  ghost predicate Sim(s: State, e: Eager) {
    e.spaces == s.spaces && e.cur == s.cur && forall o :: SimAt(s, e, o)
  }

  /** A place that keeps its page and its permissions. */
  lemma SimKept(s: State, e: Eager, o: Owner, s': State, e': Eager, o': Owner)
    requires SimAt(s, e, o) && o.a in s.spaces && o'.a in s'.spaces && o.Pg? == o'.Pg?
    requires PermKept(s, o, s', o') && (o.Pg? ==> Look(s', {}, o') == Look(s, {}, o))
    requires (o' in e'.mem <==> o in e.mem) && (o in e.mem ==> e'.mem[o'] == e.mem[o])
    requires (o' in e'.tabs <==> o in e.tabs) && (o in e.tabs ==> e'.tabs[o'] == e.tabs[o])
    ensures SimAt(s', e', o')
  {
  }

  /** Where there is no space there is nothing. */
  lemma SimNowhere(s: State, e: Eager, o: Owner, s': State, e': Eager)
    requires SimAt(s, e, o) && o.a !in s.spaces && o.a !in s'.spaces
    requires (o in e'.mem <==> o in e.mem) && (o in e'.tabs <==> o in e.tabs)
    ensures SimAt(s', e', o)
  {
  }

  lemma SameSlotKept(s: State, s': State, o: Owner)
    requires SlotWord(s', o) == SlotWord(s, o)
    ensures PermKept(s, o, s', o)
  {
  }

  lemma ForkStep(s: State, e: Eager, s': State, d: FrameNo) returns (e': Eager)
    requires Sim(s, e) && Forked(s, s', d)
    ensures EagerNext(e, Fork, e') && Sim(s', e')
  {
    e' := EagerFork(e, d);
    forall o ensures SimAt(s', e', o) {
      var q := Parent(s.cur, d, o);
      assert SimAt(s, e, q) && SimAt(s, e, o);
      InAll(s.spaces + {d}, o);
      if o.a in s'.spaces {
        hide PermKept, Look;
        SimKept(s, e, q, s', e', o);
      }
    }
  }

  lemma WriteStep(s: State, e: Eager, s': State, op: Op) returns (e': Eager)
    requires Sim(s, e) && op.Write? && CanWrite(e, op.k, op.i)
    requires Written(s, s', Pg(s.cur, op.k, op.i), op.off, op.w) && WritePerms(s, s', op.k, op.i)
    ensures EagerNext(e, op, e') && Sim(s', e')
  {
    var o0 := Pg(s.cur, op.k, op.i);
    e' := e.(mem := e.mem[o0 := e.mem[o0].(page := e.mem[o0].page[op.off := op.w])]);
    assert SimAt(s, e, o0);
    forall o ensures SimAt(s', e', o) {
      assert SimAt(s, e, o);
      if o.a !in s.spaces {
        SimNowhere(s, e, o, s', e');
      } else if o != o0 {
        SimKept(s, e, o, s', e', o);
      }
    }
  }

  lemma ReleaseStep(s: State, e: Eager, s': State) returns (e': Eager)
    requires Sim(s, e) && Released(s, s') && OthersSame(s, s')
    ensures EagerNext(e, Release, e') && Sim(s', e')
  {
    e' := EagerRelease(e);
    forall o ensures SimAt(s', e', o) {
      assert SimAt(s, e, o);
      if o.a == s.cur {
        OwnPlaceGone(s, s', o);
      } else if o.a in s.spaces {
        SameSlotKept(s, s', o);
        SimKept(s, e, o, s', e', o);
      } else {
        SimNowhere(s, e, o, s', e');
      }
    }
  }

  lemma MapStep(s: State, e: Eager, s': State, k: UserSlot, i: Slot, rw: bool, user: bool, tableUser: bool)
    returns (e': Eager)
    requires Sim(s, e) && Mapped(s, s', Pg(s.cur, k, i)) && MapPerms(s, s', k, i, rw, user, tableUser)
    ensures Sim(s', e') && Pg(s.cur, k, i) !in e.mem && Pg(s.cur, k, i) in e'.mem
    ensures e' == EagerMap(e, k, i, EagerPage(e'.mem[Pg(s.cur, k, i)].page, rw, user), tableUser)
  {
    var o0, t := Pg(s.cur, k, i), Tab(s.cur, k);
    e' := EagerMap(e, k, i, EagerPage(Look(s', {}, o0).value, rw, user), tableUser);
    assert SimAt(s, e, o0) && SimAt(s, e, t);
    forall o ensures SimAt(s', e', o) {
      assert SimAt(s, e, o);
      if o.a !in s.spaces {
        SimNowhere(s, e, o, s', e');
      } else if o != o0 && o != t {
        SimKept(s, e, o, s', e', o);
      }
    }
  }

  lemma ReapStep(s: State, e: Eager, s': State, op: Op, a: FrameNo) returns (e': Eager)
    requires Sim(s, e) && op.Exited? && a in s.spaces && a != s.cur && s'.spaces == s.spaces - {a} && s'.cur == s.cur
    requires forall k: UserSlot :: !s.mem[a][k].p
    requires forall o: Owner :: o.a in s'.spaces && o.Pg? ==> Look(s', {}, o) == Look(s, {}, o)
    requires forall o: Owner :: o.a in s'.spaces ==> SlotWord(s', o) == SlotWord(s, o)
    ensures EagerNext(e, op, e') && Sim(s', e')
  {
    e' := e.(spaces := e.spaces - {a});
    forall o ensures SimAt(s', e', o) && (o in e.mem || o in e.tabs ==> o.a != a) {
      assert SimAt(s, e, o);
      if o.a in s'.spaces {
        SameSlotKept(s, s', o);
        SimKept(s, e, o, s', e', o);
      }
    }
  }

  lemma SwitchStep(s: State, e: Eager, a: FrameNo) returns (e': Eager)
    requires Sim(s, e) && a in s.spaces
    ensures EagerNext(e, Switch(a), e') && Sim(s.(cur := a), e')
  {
    e' := e.(cur := a);
    forall o ensures SimAt(s.(cur := a), e', o) {
      assert SimAt(s, e, o);
    }
  }

  // ----- one step

  ghost predicate StepExcess(s: State, R: Roles, op: Op, s': State, R': Roles) {
    if op.Fork? then ForkMem(s).Some? && ForkExcess(s, R, s', R') else SameExcess(s, R, s', R', {})
  }

  /** What a step does to the references that do not come from user places: a new directory or
      kernel page table has one, the directory of a task that is reaped loses it. */
  ghost function StepPins(s: State, op: Op, s': State, f: FrameNo): int {
    match op
    case Switch(_) => 0
    case Exited(_) => if f in s.spaces && f !in s'.spaces then -1 else 0
    case _ => (if NewTable(s, s', f) then 1 else 0) + (if f in s'.spaces && f !in s.spaces then 1 else 0)
  }

  ghost predicate StepPinned(s: State, R: Roles, op: Op, s': State, R': Roles) {
    forall f: FrameNo :: Pin(R'[f]) == Pin(R[f]) + StepPins(s, op, s', f)
  }

  /** How far the count of f exceeds the references from user places. */
  ghost function Beyond(s: State, f: FrameNo): int {
    s.refs[f] - |Owners(s, {}, f)|
  }

  ghost function StepShift(s: State, op: Op, f: FrameNo): int
    requires op.Fork? ==> ForkMem(s).Some?
  {
    if op.Fork? then Shift(s, f) else 0
  }

  /** One step of the kernel keeps the invariant and what is reserved for the kernel, and changes
      each count by exactly the references that come and go, apart from what fork adds for stale
      entries and loses where a byte wraps. */
  lemma StepInv(s: State, R: Roles, op: Op) returns (R': Roles)
    requires Inv(s, R, {}, {}) && Enabled(s, op) && Next(s, op).Some?
    ensures var s' := Next(s, op).value;
      && Inv(s', R', {}, {}) && StepExcess(s, R, op, s', R') && StepPinned(s, R, op, s', R')
      && ReservedKept(s, R, s', R')
      && forall f: FrameNo :: Beyond(s', f) == Beyond(s, f) + StepPins(s, op, s', f) + StepShift(s, op, f)
  {
    R' := StepRoles(s, R, op);
    hide Inv, Next, Shift, StepPins, Owners, Enabled, ReservedKept;
    var s' := Next(s, op).value;
    forall f: FrameNo ensures Beyond(s', f) == Beyond(s, f) + StepPins(s, op, s', f) + StepShift(s, op, f) {
      assert Excess(s', R', {}, f) == Excess(s, R, {}, f) + StepShift(s, op, f);
    }
  }

  lemma StepRoles(s: State, R: Roles, op: Op) returns (R': Roles)
    requires Inv(s, R, {}, {}) && Enabled(s, op) && Next(s, op).Some?
    ensures var s' := Next(s, op).value;
      && Inv(s', R', {}, {}) && StepExcess(s, R, op, s', R') && StepPinned(s, R, op, s', R')
      && ReservedKept(s, R, s', R')
  {
    hide Inv, UserWrite, UserRead, MapFresh, PfNonPresent, Reap, ForkMem, FreeMemUsr;
    hide ForkExcess, SameExcess, StepPinned, ReservedKept, Pins;
    var s' := Next(s, op).value;
    match op
    case Fork =>
      R' := ForkInv(s, R);
      ForkPinned(s, R, s', R', ForkMem(s).value.1);
    case Write(k, i, off, w, codeEnd) =>
      R' := UserWriteInv(s, R, k, i, off, w, codeEnd);
      SpacePinned(s, R, op, s', R');
    case Read(k, i, off, codeEnd) =>
      R' := UserReadInv(s, R, k, i, off, codeEnd);
      SpacePinned(s, R, op, s', R');
    case Release =>
      R' := FreeMemUsrInv(s, R);
      SpacePinned(s, R, op, s', R');
    case Map(k, i, rw, user) =>
      R' := MapFreshInv(s, R, k, i, rw, user);
      SpacePinned(s, R, op, s', R');
    case Fault(k, i, byte, codeEnd, brk) =>
      R' := PfNonPresentInv(s, R, k, i, AddressIn(k, i, byte), codeEnd, brk);
      SpacePinned(s, R, op, s', R');
    case Exited(va) =>
      R' := ReapInv(s, R, va);
      ReapPinned(s, R, op, s', R', Pte(s, va).frame);
    case Switch(a) =>
      R' := R;
      SwitchInv(s, R, a);
      SwitchPinned(s, R, op, s');
  }

  lemma SpacePinned(s: State, R: Roles, op: Op, s': State, R': Roles)
    requires SpaceLaw(s, R, s', R') && s'.spaces == s.spaces && !op.Switch? && !op.Exited?
    ensures StepPinned(s, R, op, s', R')
  {
  }

  lemma ForkPinned(s: State, R: Roles, s': State, R': Roles, d: FrameNo)
    requires ForkPins(s, R, s', R', d) && Forked(s, s', d)
    ensures StepPinned(s, R, Fork, s', R')
  {
  }

  lemma ReapPinned(s: State, R: Roles, op: Op, s': State, R': Roles, a: FrameNo)
    requires op.Exited? && a in s.spaces && s'.spaces == s.spaces - {a}
    requires forall f: FrameNo :: Pin(R'[f]) == Pin(R[f]) - if f == a then 1 else 0
    ensures StepPinned(s, R, op, s', R')
  {
  }

  lemma SwitchPinned(s: State, R: Roles, op: Op, s': State)
    requires op.Switch?
    ensures StepPinned(s, R, op, s', R)
  {
  }

  lemma SwitchInv(s: State, R: Roles, a: FrameNo)
    requires Inv(s, R, {}, {}) && a in s.spaces
    ensures var s' := s.(cur := a); Inv(s', R, {}, {}) && SameExcess(s, R, s', R, {}) && ReservedKept(s, R, s', R)
  {
    var s' := s.(cur := a);
    forall o: Owner | o.a in s.spaces
      ensures Target(s', {}, o) == Target(s, {}, o) && Writable(s', o) == Writable(s, o)
    {
    }
    forall f: FrameNo ensures Excess(s', R, {}, f) == Excess(s, R, {}, f) {
      OwnersSame(s, s', {}, f);
    }
    forall b | b in s.spaces ensures DirOk(s', R, b) && MarksOk(s', b) {
      assert DirOk(s, R, b) && MarksOk(s, b);
    }
  }

  /** One step of the kernel is one step of the machine that copies eagerly, unless it writes a
      page that was not mapped writable for the user. */
  lemma StepRefines(s: State, R: Roles, e: Eager, op: Op) returns (e': Eager)
    requires Inv(s, R, {}, {}) && Sim(s, e) && Enabled(s, op) && Next(s, op).Some? && !Breach(e, op)
    ensures EagerNext(e, op, e') && Sim(Next(s, op).value, e')
  {
    hide Inv, UserWrite, MapFresh, PfNonPresent, Reap, ForkMem, FreeMemUsr, ForkExcess, SameExcess, EagerNext, SimAt;
    var s' := Next(s, op).value;
    match op
    case Fork =>
      var R' := ForkInv(s, R);
      e' := ForkStep(s, e, s', ForkMem(s).value.1);
    case Write(k, i, off, w, codeEnd) =>
      var R' := UserWriteInv(s, R, k, i, off, w, codeEnd);
      e' := WriteStep(s, e, s', op);
    case Read(k, i, off, codeEnd) =>
      ReadsAgree(s, e, k, i);
      assert s' == s && CanRead(e, k, i);
      e' := e;
      ReadIsNext(e, op);
    case Release =>
      var R' := FreeMemUsrInv(s, R);
      e' := ReleaseStep(s, e, s');
    case Map(k, i, rw, user) =>
      var R' := MapFreshInv(s, R, k, i, rw, user);
      e' := MapStep(s, e, s', k, i, rw, user, user);
      MapIsNext(e, op, e');
    case Fault(k, i, byte, codeEnd, brk) =>
      var R' := PfNonPresentInv(s, R, k, i, AddressIn(k, i, byte), codeEnd, brk);
      e' := MapStep(s, e, s', k, FaultSlot(s, k, i), true, true, false);
      TableSeen(s, e, k);
      FaultInHeap(s, k, i, AddressIn(k, i, byte), codeEnd, brk);
      FaultIsNext(e, op, e', FaultSlot(s, k, i));
    case Exited(va) =>
      e' := ReapRefines(s, R, e, op);
    case Switch(a) =>
      e' := SwitchStep(s, e, a);
  }

  lemma ReapRefines(s: State, R: Roles, e: Eager, op: Op) returns (e': Eager)
    requires Inv(s, R, {}, {}) && Sim(s, e) && op.Exited? && Enabled(s, op) && Next(s, op).Some?
    ensures EagerNext(e, op, e') && Sim(Next(s, op).value, e')
  {
    var s' := Next(s, op).value;
    var R' := ReapInv(s, R, op.va);
    assert s'.cur in s'.spaces;
    e' := ReapStep(s, e, s', op, Pte(s, op.va).frame);
  }

  lemma ReadIsNext(e: Eager, op: Op)
    requires op.Read? && CanRead(e, op.k, op.i)
    ensures EagerNext(e, op, e)
  {
  }

  lemma MapIsNext(e: Eager, op: Op, e': Eager)
    requires op.Map? && Pg(e.cur, op.k, op.i) !in e.mem && Pg(e.cur, op.k, op.i) in e'.mem
    requires e' == EagerMap(e, op.k, op.i, EagerPage(e'.mem[Pg(e.cur, op.k, op.i)].page, op.rw, op.user), op.user)
    ensures EagerNext(e, op, e')
  {
  }

  lemma FaultIsNext(e: Eager, op: Op, e': Eager, j: Slot)
    requires op.Fault? && op.codeEnd < AddressIn(op.k, op.i, op.byte) <= op.brk
    requires Pg(e.cur, op.k, j) !in e.mem && Pg(e.cur, op.k, j) in e'.mem
    requires j == if Tab(e.cur, op.k) in e.tabs then op.i else 0
    requires e' == EagerMap(e, op.k, j, EagerPage(e'.mem[Pg(e.cur, op.k, j)].page, true, true), false)
    ensures EagerNext(e, op, e')
  {
  }

  lemma TableSeen(s: State, e: Eager, k: UserSlot)
    requires Sim(s, e)
    ensures Tab(s.cur, k) in e.tabs <==> Pde(s, k).p
    ensures Tab(s.cur, k) in e.tabs && e.tabs[Tab(s.cur, k)] ==> Pde(s, k).user
  {
    assert SimAt(s, e, Tab(s.cur, k));
  }

  lemma PageSeen(s: State, e: Eager, k: UserSlot, i: Slot)
    requires Sim(s, e)
    ensures Pg(s.cur, k, i) in e.mem <==> Pde(s, k).p && Pte(s, Va(k, i)).p
    ensures Pg(s.cur, k, i) in e.mem ==>
      PageSim(e.mem[Pg(s.cur, k, i)], s.mem[Pte(s, Va(k, i)).frame], Pte(s, Va(k, i)))
  {
    assert SimAt(s, e, Pg(s.cur, k, i));
  }

  /** What the running process may read it can read, and it reads the same. A page that was
      not mapped for the user stays closed. */
  lemma ReadsAgree(s: State, e: Eager, k: UserSlot, i: Slot)
    requires Sim(s, e)
    ensures CanRead(e, k, i) ==> UserMayUse(s, k, i) && e.mem[Pg(e.cur, k, i)].page == s.mem[Pte(s, Va(k, i)).frame]
    ensures Pg(e.cur, k, i) in e.mem && !e.mem[Pg(e.cur, k, i)].user ==> !UserMayUse(s, k, i)
  {
    TableSeen(s, e, k);
    PageSeen(s, e, k, i);
  }

  /** A write to a page that was mapped writable for the user never meets the read-only panic:
      behind the code segment it is granted if and only if it needs no copy or memory
      suffices, and four free frames and a free kernel page always suffice. */
  lemma WritableIsGranted(s: State, R: Roles, e: Eager, op: Op)
    requires Inv(s, R, {}, {}) && Sim(s, e) && op.Write? && CanWrite(e, op.k, op.i)
    requires AddressOf(op.k, op.i, op.off) > op.codeEnd
    ensures Next(s, op).Some? <==> UserMayWrite(s, op.k, op.i) || !NoMemory(s, op.k, op.i)
    ensures FreeFrames(s) >= 4 && WindowFree(s) ==> Next(s, op).Some?
  {
    TableSeen(s, e, op.k);
    PageSeen(s, e, op.k, op.i);
    assert MarksOk(s, s.cur);
    hide Inv, UserWrite, Starves, NoMemory, FreeFrames, WindowFree;
    WriteGrantedIff(s, R, op.k, op.i, op.off, op.w, op.codeEnd);
    if FreeFrames(s) >= 4 && WindowFree(s) {
      FourFramesDo(s, R, op.k, op.i, op.off, op.w, op.codeEnd);
    }
  }

  /** A page that was mapped without write permission, or not for the user, is writable by no
      entry; behind the code segment and with memory at hand, the write is refused if and only
      if copy-on-write has left no mark that opens the page. */
  lemma ReadOnlyRefusedIff(s: State, R: Roles, e: Eager, op: Op)
    requires Inv(s, R, {}, {}) && Sim(s, e) && op.Write? && Pg(e.cur, op.k, op.i) in e.mem
    requires var p := e.mem[Pg(e.cur, op.k, op.i)]; !(p.rw && p.user)
    requires AddressOf(op.k, op.i, op.off) > op.codeEnd && !NoMemory(s, op.k, op.i)
    ensures Breach(e, op) && !UserMayWrite(s, op.k, op.i)
    ensures Next(s, op) == None <==> Pde(s, op.k).rw && !(Pte(s, Va(op.k, op.i)).bit9 && Pde(s, op.k).user)
  {
    PageSeen(s, e, op.k, op.i);
    assert MarksOk(s, s.cur);
    hide Inv, UserWrite, Starves, NoMemory;
    WriteGrantedIff(s, R, op.k, op.i, op.off, op.w, op.codeEnd);
  }

  // ----- runs

  ghost function Run(s: State, ops: seq<Op>): Option<State>
    decreases |ops|
  {
    if ops == [] then Some(s)
    else if !Enabled(s, ops[0]) then None
    else
      var s1 :- Next(s, ops[0]);
      Run(s1, ops[1..])
  }

  ghost predicate EagerRun(e: Eager, ops: seq<Op>, e': Eager)
    decreases |ops|
  {
    if ops == [] then e' == e
    else exists e1 :: EagerNext(e, ops[0], e1) && EagerRun(e1, ops[1..], e')
  }

  lemma {:induction false} RunGood(s: State, ops: seq<Op>)
    requires Good(s) && Run(s, ops).Some?
    ensures Good(Run(s, ops).value)
    decreases |ops|
  {
    if ops != [] {
      var R :| Inv(s, R, {}, {});
      var R' := StepInv(s, R, ops[0]);
      RunGood(Next(s, ops[0]).value, ops[1..]);
    }
  }

  /** Every run of the kernel is a run of the machine that copies eagerly, step by step and with
      the same pages and permissions in every space, either to its end or up to a write to a
      page that was not mapped writable for the user. */
  lemma {:induction false} RunRefines(s: State, e: Eager, ops: seq<Op>) returns (n: nat, e': Eager)
    requires Good(s) && Sim(s, e) && Run(s, ops).Some?
    ensures n <= |ops| && EagerRun(e, ops[..n], e')
    ensures Run(s, ops[..n]).Some? && Sim(Run(s, ops[..n]).value, e')
    ensures n < |ops| ==> Breach(e', ops[n])
    decreases |ops|
  {
    hide Inv, Sim, Next, Enabled, EagerNext;
    if ops == [] || Breach(e, ops[0]) {
      n, e' := 0, e;
    } else {
      var R :| Inv(s, R, {}, {});
      var s1 := Next(s, ops[0]).value;
      var R' := StepInv(s, R, ops[0]);
      var e1 := StepRefines(s, R, e, ops[0]);
      var m;
      m, e' := RunRefines(s1, e1, ops[1..]);
      n := m + 1;
      assert ops[..n][1..] == ops[1..][..m] && ops[..n][0] == ops[0];
    }
  }

  /** After every such run, a write to a page that was mapped writable for the user, behind the
      code segment, is granted if memory suffices, and the run goes on in both machines. */
  lemma RunGrants(s: State, e: Eager, ops: seq<Op>, op: Op) returns (n: nat, e1: Eager, e2: Eager)
    requires Good(s) && Sim(s, e) && Run(s, ops).Some? && op.Write?
    ensures n <= |ops| && Run(s, ops[..n]).Some? && EagerRun(e, ops[..n], e1) && (n < |ops| ==> Breach(e1, ops[n]))
    ensures var s' := Run(s, ops[..n]).value;
      && Sim(s', e1)
      && (CanWrite(e1, op.k, op.i) && AddressOf(op.k, op.i, op.off) > op.codeEnd
          && FreeFrames(s') >= 4 && WindowFree(s') ==>
            Next(s', op).Some? && EagerNext(e1, op, e2) && Sim(Next(s', op).value, e2))
  {
    hide Inv, Next, EagerNext, SimAt, FreeFrames, WindowFree;
    n, e1 := RunRefines(s, e, ops);
    e2 := e1;
    var s' := Run(s, ops[..n]).value;
    RunGood(s, ops[..n]);
    var R :| Inv(s', R, {}, {});
    if CanWrite(e1, op.k, op.i) && AddressOf(op.k, op.i, op.off) > op.codeEnd && FreeFrames(s') >= 4 && WindowFree(s') {
      WritableIsGranted(s', R, e1, op);
      PageSeen(s', e1, op.k, op.i);
      e2 := StepRefines(s', R, e1, op);
    }
  }

  /** In every reachable state the frame handed out next is no directory, no kernel table
      and nothing any process maps. */
  lemma AllocNeverReferenced(s: State, ops: seq<Op>, o: Owner)
    requires Good(s) && Run(s, ops).Some? && AllocPageFrame(Run(s, ops).value).Some?
    ensures var s' := Run(s, ops).value; var f := AllocPageFrame(s').value.1;
      && f !in s'.spaces && f != 0
      && (o.a in s'.spaces ==> Target(s', {}, o) != Some(f))
      && forall a, d: Slot :: a in s'.spaces && KERNEL <= d < SELF && s'.mem[a][d].p ==> s'.mem[a][d].frame != f
  {
    RunGood(s, ops);
    var s' := Run(s, ops).value;
    var R :| Inv(s', R, {}, {});
    var f := AllocPageFrame(s').value.1;
    AllocInv(s', R, {}, {});
    assert Excess(s', R, {}, f) >= 0;
    assert f in s'.spaces ==> DirOk(s', R, f);
    if o.a in s'.spaces && Target(s', {}, o).Some? {
      PageCounted(s', R, {}, {}, o);
    }
    forall a, d: Slot | a in s'.spaces && KERNEL <= d < SELF && s'.mem[a][d].p ensures s'.mem[a][d].frame != f {
      assert DirOk(s', R, a);
    }
  }
}
