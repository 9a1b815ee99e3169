/** The boot state, and a run from it after which a count is too high. */
module MmBoot {
  import opened Wrappers
  import opened PageWords
  import opened Mm
  import opened MmInvariant
  import opened MmSplit
  import opened MmFork
  import opened MmRelease
  import opened MmMap
  import opened MmGrant
  import opened MmAddress
  import opened MmRuns
  import opened MmCounts
  import opened Counting
  import PhysMm

  /** One directory without user tables, mapping itself, with its frame, frame 0 and the
      kernel tables in use. */
  ghost predicate Booted(s: State) {
    && s.spaces == {s.cur} && s.cur != 0 && s.refs[s.cur] > 0 && s.refs[0] > 0
    && Pde(s, SELF) == Entry(s.cur, true, false)
    && (forall k: UserSlot :: !Pde(s, k).p)
    && (forall d: Slot :: KERNEL <= d < SELF && Pde(s, d).p ==>
          !Pde(s, d).bit9 && Pde(s, d).frame != 0 && Pde(s, d).frame != s.cur && s.refs[Pde(s, d).frame] > 0)
    && forall d: Slot, e: Slot :: KERNEL <= d < e < SELF && Pde(s, d).p && Pde(s, e).p ==>
         Pde(s, d).frame != Pde(s, e).frame
  }

  ghost predicate HoldsTable(s: State, d: Slot, f: FrameNo) {
    KERNEL <= d < SELF && Pde(s, d).p && Pde(s, d).frame == f
  }

  /** A frame that is in use at boot, but for the page directory and the kernel's page tables. */
  ghost predicate KernelFrame(s: State, f: FrameNo) {
    f == 0 || (s.refs[f] > 0 && f != s.cur && !exists d: Slot :: HoldsTable(s, d, f))
  }

  /** The kernel tables, and whatever else is in use for the kernel. */
  ghost function BootRole(s: State, f: FrameNo): Role {
    if KernelFrame(s, f) then Reserved else if f == s.cur then Dir
    else if exists d: Slot :: HoldsTable(s, d, f) then
      var d: Slot :| HoldsTable(s, d, f);
      KTab(d)
    else Spare
  }

  /** The invariant holds after boot, and the counts are exact if none is above one. */
  lemma BootedInv(s: State) returns (R: Roles)
    requires Booted(s)
    ensures Inv(s, R, {}, {})
    ensures (forall f: FrameNo :: s.refs[f] <= 1) ==> Exact(s, R)
    ensures forall f: FrameNo :: KernelFrame(s, f) ==> R[f] == Reserved
  {
    R := seq(FRAMES, f requires 0 <= f < FRAMES => BootRole(s, f));
    forall o: Owner | o.a in s.spaces ensures Target(s, {}, o) == None {
      assert !Pde(s, o.k).p;
    }
    forall f: FrameNo ensures Excess(s, R, {}, f) == s.refs[f] - Pin(R[f]) {
      forall o ensures o !in Owners(s, {}, f) {
        InAll(s.spaces, o);
      }
      assert Owners(s, {}, f) == {};
    }
    forall a | a in s.spaces ensures DirOk(s, R, a) && MarksOk(s, a) {
      assert forall d: Slot {:trigger s.mem[a][d]} :: s.mem[a][d] == Pde(s, d);
      forall d: Slot | KERNEL <= d < SELF && Pde(s, d).p ensures R[Pde(s, d).frame] == KTab(d) {
        assert HoldsTable(s, d, Pde(s, d).frame);
      }
    }
  }

  /** The simple machine after boot. */
  function BootEager(s: State): Eager {
    Eager(map[], map[], s.spaces, s.cur)
  }

  lemma BootedSim(s: State)
    requires Booted(s)
    ensures Sim(s, BootEager(s))
  {
    forall o ensures SimAt(s, BootEager(s), o) {
      assert o.a == s.cur ==> !Pde(s, o.k).p;
    }
  }

  /** What the general results say of a run from boot: it refines eager copying up to an access
      without permission, and the count of every frame is what it was, with the references from
      user places, those from new directories and kernel page tables, and the drift; and no frame
      of the kernel is written, whatever the processes do. */
  lemma FromBoot(s: State, ops: seq<Op>) returns (n: nat, e': Eager)
    requires Booted(s) && Run(s, ops).Some?
    ensures n <= |ops| && EagerRun(BootEager(s), ops[..n], e')
    ensures Run(s, ops[..n]).Some? && Sim(Run(s, ops[..n]).value, e') && (n < |ops| ==> Breach(e', ops[n]))
    ensures var s' := Run(s, ops).value;
      forall f: FrameNo :: s'.refs[f] == s.refs[f] + |Owners(s', {}, f)| + Pinned(s, ops, f) + Drift(s, ops, f)
    ensures forall f: FrameNo :: KernelFrame(s, f) ==> Run(s, ops).value.mem[f] == s.mem[f]
  {
    var R := BootedInv(s);
    BootedSim(s);
    n, e' := RunRefines(s, BootEager(s), ops);
    var R' := RunSurplus(s, R, ops);
    forall f: FrameNo
      ensures Run(s, ops).value.refs[f]
           == s.refs[f] + |Owners(Run(s, ops).value, {}, f)| + Pinned(s, ops, f) + Drift(s, ops, f)
    {
      NobodyAtBoot(s, f);
      assert Beyond(Run(s, ops).value, f) == Beyond(s, f) + Pinned(s, ops, f) + Drift(s, ops, f);
    }
  }

  lemma NobodyAtBoot(s: State, f: FrameNo)
    requires Booted(s)
    ensures Owners(s, {}, f) == {}
  {
    forall o ensures o !in Owners(s, {}, f) {
      InAll(s.spaces, o);
      assert o.a == s.cur ==> !Pde(s, o.k).p;
    }
  }

  // ----- the state that boot leaves

  /** init_phys_mm marks the first 1024 frames used; the few after them are free here, and the
      others may be either. User memory is empty but for the absent entry 0, and only the first
      kernel table is there. */
  ghost predicate FreshBoot(s: State) {
    && Booted(s) && s.cur < 1024 && UsedBelow(s, 1024)
    && (forall k: UserSlot :: k != 0 ==> Pde(s, k) == ZERO)
    && forall d: Slot :: KERNEL < d < SELF ==> Pde(s, d) == ZERO
  }

  const ENOUGH := 1030

  ghost predicate UsedBelow(s: State, n: nat) {
    && n <= ENOUGH
    && (forall f: FrameNo :: f < ENOUGH ==> s.refs[f] == if f < n then 1 else 0)
    && (forall f: FrameNo :: s.refs[f] <= 1)
  }

  /** With the directory in frame 0x110 and the page table in 0x111, and the counts that
      init_phys_mm computes from a memory map, it is this one. */
  function BootState(es: seq<PhysMm.MapEntry>): State {
    var dir: Page := ZeroPage()[0 := Entry(0x111, true, false).(p := false)][KERNEL := Entry(0x111, true, false)]
                     [SELF := Entry(0x110, true, false)];
    var table: Page := seq(1024, i requires 0 <= i < 1024 => Entry(i, true, false));
    var mem: seq<Page> := seq(FRAMES, _ => ZeroPage());
    var refs: seq<Byte> := seq(FRAMES, f => if PhysMm.FreeAtBoot(es, f) then 0 else 1);
    Machine(mem[0x110 := dir][0x111 := table], refs, {0x110}, 0x110)
  }

  /** So it is, whatever else the memory map says, when the six frames above the kernel's are
      usable. */
  lemma BootStateIsFresh(es: seq<PhysMm.MapEntry>)
    requires forall f :: 1024 <= f < ENOUGH ==> PhysMm.FreeAtBoot(es, f)
    ensures FreshBoot(BootState(es))
  {
    var s := BootState(es);
    assert s.mem[s.cur][KERNEL] == Entry(0x111, true, false) && s.mem[s.cur][SELF] == Entry(0x110, true, false);
    assert forall d: Slot :: d != 0 && d != KERNEL && d != SELF ==> s.mem[s.cur][d] == ZERO;
  }

  // ----- mapping when frames are used from the bottom up

  lemma AllocNext(s: State, n: FrameNo)
    requires UsedBelow(s, n) && n < ENOUGH
    ensures AllocPageFrame(s) == Some((s.(refs := s.refs[n := 1]), n))
    ensures UsedBelow(s.(refs := s.refs[n := 1]), n + 1)
  {
    LowestFree(s, n);
  }

  /** Nothing but the directory entry k and the frame t has changed. */
  ghost predicate OnlyTable(s: State, s': State, k: UserSlot, t: FrameNo) {
    && s'.spaces == s.spaces && s'.cur == s.cur && Pde(s', k).frame == t && Pde(s', k).p && !Pde(s', k).bit9
    && (forall d: Slot :: d != k ==> Pde(s', d) == Pde(s, d))
    && forall f: FrameNo :: f != s.cur && f != t ==> s'.mem[f] == s.mem[f]
  }

  /** A page in a new table: frame n is the page, frame n + 1 the table. */
  lemma MapNew(s: State, n: FrameNo, k: UserSlot, i: Slot)
    requires UsedBelow(s, n) && n + 2 <= ENOUGH && s.cur < n && !Pde(s, k).p
    ensures MapFresh(s, Va(k, i), true, true).Some?
    ensures var s' := MapFresh(s, Va(k, i), true, true).value;
      UsedBelow(s', n + 2) && OnlyTable(s, s', k, n + 1) && s'.mem[n + 1] == ZeroPage()[i := Entry(n, true, true)]
  {
    AllocNext(s, n);
    var s1 := s.(refs := s.refs[n := 1]);
    AllocNext(s1, n + 1);
  }

  /** A further page in a table of the process's own. */
  lemma MapMore(s: State, n: FrameNo, k: UserSlot, i: Slot, t: FrameNo)
    requires UsedBelow(s, n) && n < ENOUGH && s.cur < n
    requires Pde(s, k).p && !Pde(s, k).bit9 && Pde(s, k).frame == t && t != s.cur
    ensures MapFresh(s, Va(k, i), true, true).Some?
    ensures var s' := MapFresh(s, Va(k, i), true, true).value;
      UsedBelow(s', n + 1) && OnlyTable(s, s', k, t) && s'.mem[t] == s.mem[t][i := Entry(n, true, true)]
  {
    AllocNext(s, n);
  }

  // ----- the run

  function OneMap(k: UserSlot, i: Slot): Op {
    Map(k, i, true, true)
  }

  lemma RunMap(s: State, k: UserSlot, i: Slot, ops: seq<Op>)
    requires Absent(s, k, i) && (Pde(s, k).p ==> !Pde(s, k).bit9) && MapFresh(s, Va(k, i), true, true).Some?
    ensures Run(s, [OneMap(k, i)] + ops) == Run(MapFresh(s, Va(k, i), true, true).value, ops)
  {
    assert ([OneMap(k, i)] + ops)[1..] == ops;
  }

  lemma RunRelease(s: State, ops: seq<Op>)
    requires FreeMemUsr(s).Some?
    ensures Run(s, [Release] + ops) == Run(FreeMemUsr(s).value, ops)
  {
    assert ([Release] + ops)[1..] == ops;
  }

  lemma {:induction false} NoForkNoDrift(s: State, ops: seq<Op>, f: FrameNo)
    requires Run(s, ops).Some? && forall j :: 0 <= j < |ops| ==> !ops[j].Fork?
    ensures Drift(s, ops, f) == 0
    decreases |ops|
  {
    if ops != [] {
      NoForkNoDrift(Next(s, ops[0]).value, ops[1..], f);
    }
  }

  /** Without forks the counts stay exact. */
  lemma ExactWithoutFork(s: State, ops: seq<Op>) returns (R': Roles)
    requires Booted(s) && (forall f: FrameNo :: s.refs[f] <= 1) && Run(s, ops).Some?
    requires forall j :: 0 <= j < |ops| ==> !ops[j].Fork?
    ensures var s' := Run(s, ops).value; Inv(s', R', {}, {}) && Exact(s', R')
  {
    var R := BootedInv(s);
    R' := RunSurplus(s, R, ops);
    forall f: FrameNo ensures Excess(Run(s, ops).value, R', {}, f) == 0 {
      NoForkNoDrift(s, ops, f);
      assert Excess(s, R, {}, f) == 0;
      assert Beyond(Run(s, ops).value, f) == Beyond(s, f) + Pinned(s, ops, f) + Drift(s, ops, f);
    }
  }

  // Before exec, the process has a page in each of the tables 0 and 1 ...

  const BEFORE := [OneMap(0, 0), OneMap(1, 0)]

  ghost predicate TwoTables(s0: State, s: State) {
    && s.spaces == s0.spaces && s.cur == s0.cur && UsedBelow(s, 1028)
    && Pde(s, 0).p && Pde(s, 0).frame == 1025 && !Pde(s, 0).bit9
    && Pde(s, 1).p && Pde(s, 1).frame == 1027 && !Pde(s, 1).bit9
    && s.mem[1025] == ZeroPage()[0 := Entry(1024, true, true)]
    && s.mem[1027] == ZeroPage()[0 := Entry(1026, true, true)]
    && (forall d: Slot :: d > 1 ==> Pde(s, d) == Pde(s0, d))
  }

  lemma RunBefore(s0: State) returns (s: State)
    requires FreshBoot(s0)
    ensures Run(s0, BEFORE) == Some(s) && TwoTables(s0, s)
  {
    MapNew(s0, 1024, 0, 0);
    var s1 := MapFresh(s0, Va(0, 0), true, true).value;
    MapNew(s1, 1026, 1, 0);
    s := MapFresh(s1, Va(1, 0), true, true).value;
    RunMap(s0, 0, 0, [OneMap(1, 0)]);
    RunMap(s1, 1, 0, []);
    assert BEFORE == [OneMap(0, 0)] + [OneMap(1, 0)];
    assert [OneMap(1, 0)] == [OneMap(1, 0)] + [];
  }

  // ... exec releases them ...

  lemma TwoTablesTarget(s0: State, s: State, o: Owner)
    requires FreshBoot(s0) && TwoTables(s0, s) && o.a == s.cur
    ensures Target(s, {}, o) == match o
      case Tab(_, k) => if k == 0 then Some(1025) else if k == 1 then Some(1027) else None
      case Pg(_, k, i) => if i != 0 then None else if k == 0 then Some(1024) else if k == 1 then Some(1026) else None
  {
    assert o.k > 1 ==> Pde(s, o.k) == ZERO;
  }

  lemma ReleasedCounts(s0: State, s: State, R: Roles)
    requires FreshBoot(s0) && TwoTables(s0, s) && Inv(s, R, {}, {}) && Exact(s, R)
    ensures forall f: FrameNo :: Pin(R[f]) == if 1024 <= f < 1028 then 0 else s.refs[f]
  {
    forall f: FrameNo ensures Pin(R[f]) == if 1024 <= f < 1028 then 0 else s.refs[f] {
      assert Excess(s, R, {}, f) == 0;
      if f < 1024 || 1028 <= f {
        forall o ensures o !in Owners(s, {}, f) {
          InAll(s.spaces, o);
          if o.a == s.cur {
            TwoTablesTarget(s0, s, o);
          }
        }
        assert Owners(s, {}, f) == {};
      } else {
        var o := if f == 1024 then Pg(s.cur, 0, 0) else if f == 1025 then Tab(s.cur, 0)
                 else if f == 1026 then Pg(s.cur, 1, 0) else Tab(s.cur, 1);
        TwoTablesTarget(s0, s, o);
        InAll(s.spaces, o);
        assert o in Owners(s, {}, f);
      }
    }
  }

  /** After exec's release, entry 1 of the directory is absent but still names frame 1027. */
  ghost predicate Emptied(s0: State, s: State) {
    && s.spaces == s0.spaces && s.cur == s0.cur && UsedBelow(s, 1024)
    && (forall k: UserSlot :: !Pde(s, k).p) && Pde(s, 1).frame == 1027
    && (forall d: Slot :: d > 1 ==> Pde(s, d) == Pde(s0, d))
  }

  lemma RunExec(s0: State, s: State, R: Roles)
    requires FreshBoot(s0) && TwoTables(s0, s) && Inv(s, R, {}, {}) && Exact(s, R)
    ensures FreeMemUsr(s).Some? && Emptied(s0, FreeMemUsr(s).value)
  {
    forall k: UserSlot ensures !Pde(s, k).bit9 {
      assert k > 1 ==> Pde(s, k) == ZERO;
    }
    ReleaseLeavesStale(s, R);
    ReleasedCounts(s0, s, R);
    var s' := FreeMemUsr(s).value;
    forall f: FrameNo ensures s'.refs[f] == if 1024 <= f < 1028 then 0 else s.refs[f] {
      forall o ensures o !in Owners(s', {}, f) {
        InAll(s.spaces, o);
        if o.a == s.cur {
          assert !Pde(s', o.k).p;
        }
      }
      assert Owners(s', {}, f) == {};
      assert Excess(s', R, {}, f) == Excess(s, R, {}, f) == 0;
    }
    assert forall d: Slot :: d > 1 && d < KERNEL ==> Pde(s, d) == ZERO;
  }

  // ... and the new program has three pages in table 2, the last of them in frame 1027.

  const AFTER := [OneMap(2, 0), OneMap(2, 1), OneMap(2, 2)]

  ghost predicate NewProgram(s0: State, s: State) {
    && s.spaces == s0.spaces && s.cur == s0.cur && UsedBelow(s, 1028)
    && !Pde(s, 0).p && !Pde(s, 1).p && Pde(s, 1).frame == 1027
    && Pde(s, 2).p && Pde(s, 2).frame == 1025
    && s.mem[1025] == ZeroPage()[0 := Entry(1024, true, true)][1 := Entry(1026, true, true)]
                      [2 := Entry(1027, true, true)]
    && (forall d: Slot :: d > 2 ==> Pde(s, d) == Pde(s0, d))
  }

  lemma RunAfter(s0: State, s: State) returns (s': State)
    requires FreshBoot(s0) && Emptied(s0, s)
    ensures Run(s, AFTER) == Some(s') && NewProgram(s0, s')
  {
    MapNew(s, 1024, 2, 0);
    var s1 := MapFresh(s, Va(2, 0), true, true).value;
    MapMore(s1, 1026, 2, 1, 1025);
    var s2 := MapFresh(s1, Va(2, 1), true, true).value;
    MapMore(s2, 1027, 2, 2, 1025);
    s' := MapFresh(s2, Va(2, 2), true, true).value;
    RunMap(s, 2, 0, [OneMap(2, 1), OneMap(2, 2)]);
    RunMap(s1, 2, 1, [OneMap(2, 2)]);
    RunMap(s2, 2, 2, []);
    assert AFTER == [OneMap(2, 0)] + [OneMap(2, 1), OneMap(2, 2)];
    assert [OneMap(2, 1), OneMap(2, 2)] == [OneMap(2, 1)] + [OneMap(2, 2)];
    assert [OneMap(2, 2)] == [OneMap(2, 2)] + [];
  }

  lemma {:induction false} RunAppend(s: State, ops: seq<Op>, more: seq<Op>)
    requires Run(s, ops).Some?
    ensures Run(s, ops + more) == Run(Run(s, ops).value, more)
    decreases |ops|
  {
    hide Next, Enabled;
    if ops == [] {
      assert ops + more == more;
    } else {
      assert (ops + more)[0] == ops[0] && (ops + more)[1..] == ops[1..] + more;
      RunAppend(Next(s, ops[0]).value, ops[1..], more);
    }
  }

  /** From boot to the new program, with exact counts. */
  lemma RunToProgram(s0: State) returns (s: State, R: Roles)
    requires FreshBoot(s0)
    ensures Run(s0, BEFORE + [Release] + AFTER) == Some(s) && NewProgram(s0, s)
    ensures Inv(s, R, {}, {}) && Exact(s, R)
  {
    hide Booted, NewProgram, TwoTables, Emptied, Inv, Exact, FreeMemUsr, Next, Enabled;
    var s2 := RunBefore(s0);
    var R2 := ExactWithoutFork(s0, BEFORE);
    RunExec(s0, s2, R2);
    var s3 := FreeMemUsr(s2).value;
    s := RunAfter(s0, s3);
    RunRelease(s2, AFTER);
    RunAppend(s0, BEFORE, [Release] + AFTER);
    assert BEFORE + [Release] + AFTER == BEFORE + ([Release] + AFTER);
    R := ExactWithoutFork(s0, BEFORE + [Release] + AFTER);
  }

  // ----- its fork

  lemma NewProgramHolding(s0: State, s: State, f: FrameNo)
    requires FreshBoot(s0) && NewProgram(s0, s) && f != 0
    ensures |Holding(s, f)| <= 6
  {
    var a := s.cur;
    var B := {Tab(a, 0), Tab(a, 1), Tab(a, 2), Pg(a, 2, 0), Pg(a, 2, 1), Pg(a, 2, 2)};
    forall o | o in Holding(s, f) ensures o in B {
      InAll({a}, o);
      assert o.k > 2 ==> Pde(s, o.k) == ZERO;
    }
    SubsetSize(Holding(s, f), B);
  }

  lemma NewProgramForks(s0: State, s: State)
    requires FreshBoot(s0) && NewProgram(s0, s)
    ensures NoWrap(s) && ForkMem(s).Some?
  {
    forall f: FrameNo | f != 0 ensures (if s.refs[f] == 0 then 1 else s.refs[f]) + |Holding(s, f)| < 256 {
      NewProgramHolding(s0, s, f);
    }
    AllocNext(s, 1028);
    var s1 := AllocPageFrame(s).value.0;
    var A := set f: FrameNo | s1.refs[f] == 0;
    assert 1029 in A;
    assert FreeFrames(s1) > 0;
    assert Pde(s1, KERNEL + 1) == Pde(s, KERNEL + 1) == Pde(s0, KERNEL + 1) == ZERO;
    assert !Present(s1, Va(KERNEL + 1, 0));
    EnterKernelPageIff(s1, 1028, false);
  }

  /** So a run leads from boot to a data frame, of a page that the process maps, whose count is
      not the number of its references: after an exec, fork also counts an absent directory
      entry that names the frame. */
  lemma StaleEntryOvercounts(s0: State)
    requires FreshBoot(s0)
    ensures Run(s0, BEFORE + [Release] + AFTER + [Fork]).Some?
    ensures var s' := Run(s0, BEFORE + [Release] + AFTER + [Fork]).value;
      Target(s', {}, Pg(s0.cur, 2, 2)) == Some(1027) && s'.refs[1027] > |Owners(s', {}, 1027)|
  {
    var s, R := RunToProgram(s0);
    NewProgramForks(s0, s);
    NoWrapCovers(s);
    RunAppend(s0, BEFORE + [Release] + AFTER, [Fork]);
    var s' := ForkMem(s).value.0;
    RunFork(s);
    NewProgramOvercounts(s0, s, R);
  }

  lemma RunFork(s: State)
    requires Covers(s) && ForkMem(s).Some?
    ensures Run(s, [Fork]) == Some(ForkMem(s).value.0)
  {
    hide ForkMem;
    assert [Fork][1..] == [];
  }

  lemma NewProgramOvercounts(s0: State, s: State, R: Roles)
    requires FreshBoot(s0) && NewProgram(s0, s) && Inv(s, R, {}, {}) && Exact(s, R) && NoWrap(s) && ForkMem(s).Some?
    ensures var s' := ForkMem(s).value.0;
      Target(s', {}, Pg(s0.cur, 2, 2)) == Some(1027) && s'.refs[1027] > |Owners(s', {}, 1027)|
  {
    var o := Pg(s.cur, 2, 2);
    assert Target(s, {}, o) == Some(1027);
    ForkKeepsTarget(s, R, o);
    PageCounted(s, R, {}, {}, o);
    assert Tab(s.cur, 1) in Stale(s, 1027) by {
      InAll({s.cur}, Tab(s.cur, 1));
    }
    NoWrapCovers(s);
    var s' := ForkMem(s).value.0;
    var R' := ForkInv(s, R);
    PageCounted(s', R', {}, {}, o);
    assert Excess(s', R', {}, 1027) == Excess(s, R, {}, 1027) + Shift(s, 1027);
    assert Excess(s, R, {}, 1027) == 0;
  }
}
