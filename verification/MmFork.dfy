/** fork_mem: the child gets every page of its parent, and the counts follow exactly, except
    for what inc_phys_refs counts in entries that are not present and where a byte wraps. */
module MmFork {
  import opened Wrappers
  import opened PageWords
  import opened Mm
  import opened MmInvariant
  import opened MmSplit
  import opened Counting

  /** Places of the running process that still name frame f but are not present. */
  ghost function Stale(s: State, f: FrameNo): set<Owner> {
    set o | o in All({s.cur}) && SlotWord(s, o).Some? && !SlotWord(s, o).value.p && SlotWord(s, o).value.frame == f
  }

  /** No count of inc_phys_refs wraps around its byte. */
  ghost predicate NoWrap(s: State) {
    forall f: FrameNo :: f != 0 ==> (if s.refs[f] == 0 then 1 else s.refs[f]) + |Holding(s, f)| < 256
  }

  /** The state in which inc_phys_refs starts to count: the new directory has its frame and
      its kernel page. */
  ghost function Prepared(s: State): State
    requires ForkMem(s).Some?
  {
    var (s1, d) := AllocPageFrame(s).value;
    EnterKernelPage(s1, d, false).value.0
  }

  /** How often the count of f wraps around its byte when it grows by n. */
  function Wraps(count: Byte, f: FrameNo, n: nat): nat {
    if f == 0 then 0 else (count + n) / 256
  }

  ghost function Turns(s: State, f: FrameNo): nat
    requires ForkMem(s).Some?
  {
    Wraps(Prepared(s).refs[f], f, |Holding(s, f)|)
  }

  /** What fork_mem does to the surplus of f. */
  ghost function Shift(s: State, f: FrameNo): int
    requires ForkMem(s).Some?
  {
    if f == 0 then 0 else |Stale(s, f)| - 256 * Turns(s, f)
  }

  /** The places of space a that refer to f. */
  ghost function OwnersOf(s: State, a: FrameNo, f: FrameNo): set<Owner> {
    set o | o in All({a}) && Target(s, {}, o) == Some(f)
  }

  function Move(o: Owner, a: FrameNo): Owner {
    o.(a := a)
  }

  /** Counting what a process holds: what it refers to, and what is stale. */
  lemma HoldingSplit(s: State, f: FrameNo)
    ensures |Holding(s, f)| == |OwnersOf(s, s.cur, f)| + |Stale(s, f)|
  {
    assert Holding(s, f) == OwnersOf(s, s.cur, f) + Stale(s, f);
    assert OwnersOf(s, s.cur, f) !! Stale(s, f);
  }

  lemma MovedSize(A: set<Owner>, a: FrameNo, b: FrameNo)
    requires forall o :: o in A ==> o.a == a
    ensures |set o | o in A :: Move(o, b)| == |A|
  {
    var f := map o | o in A :: Move(o, b);
    forall o, p | o in f && p in f && f[o] == f[p] ensures o == p {
      MoveBack(o, b);
      MoveBack(p, b);
    }
    forall o | o in A ensures Move(o, b) in f.Values {
      assert f[o] == Move(o, b);
    }
    assert f.Values == set o | o in A :: Move(o, b);
    assert f.Keys == A;
    InjectiveMapSize(f);
  }

  lemma MoveBack(o: Owner, b: FrameNo)
    ensures Move(Move(o, b), o.a) == o
  {
  }

  ghost function ForkDirs(s: State, d: FrameNo): State {
    var dir := MarkShared(s.mem[s.cur]);
    s.(mem := s.mem[s.cur := dir][d := dir[SELF := Entry(d, true, true)]], spaces := s.spaces + {d})
  }

  /** The place of the parent that a place of the child copies. */
  function Parent(cur: FrameNo, d: FrameNo, o: Owner): Owner {
    if o.a == d then Move(o, cur) else o
  }

  lemma ForkAt(s: State, R: Roles, d: FrameNo, o: Owner)
    requires Inv(s, R, {}, {}) && R[d] == Spare && o.a in s.spaces + {d}
    ensures var s' := ForkDirs(s, d); var q := Parent(s.cur, d, o);
      && q.a in s.spaces && d !in s.spaces
      && Target(s', {}, o) == Target(s, {}, q) && Look(s', {}, o) == Look(s, {}, q)
      && (o.Pg? ==> SlotWord(s', o) == SlotWord(s, q))
      && (o.Tab? ==> SlotWord(s', o).value.frame == SlotWord(s, q).value.frame)
      && PermKept(s, q, s', o)
      && (q.a == s.cur ==> !Writable(s', o))
      && (q.a != s.cur ==> s'.mem[o.a] == s.mem[o.a] && Writable(s', o) == Writable(s, o))
  {
    var q := Parent(s.cur, d, o);
    assert d in s.spaces ==> DirOk(s, R, d);
    TableRole(s, R, {}, {}, q.a, q.k);
    if Target(s, {}, q).Some? {
      assert R[Target(s, {}, q).value] == RoleOf(q);
    }
  }

  lemma ForkTarget(s: State, R: Roles, d: FrameNo, o: Owner)
    requires Inv(s, R, {}, {}) && R[d] == Spare && o.a in s.spaces + {d}
    ensures d !in s.spaces && Parent(s.cur, d, o).a in s.spaces
    ensures Target(ForkDirs(s, d), {}, o) == Target(s, {}, Parent(s.cur, d, o))
  {
    ForkAt(s, R, d, o);
  }

  lemma ChildOwners(s: State, R: Roles, d: FrameNo, f: FrameNo)
    requires Inv(s, R, {}, {}) && R[d] == Spare
    ensures |OwnersOf(ForkDirs(s, d), d, f)| == |OwnersOf(s, s.cur, f)|
  {
    var s' := ForkDirs(s, d);
    var A, B := OwnersOf(s, s.cur, f), OwnersOf(s', d, f);
    forall o | o in A ensures o.a == s.cur && Move(o, d) in B {
      InAll({s.cur}, o);
      InAll({d}, Move(o, d));
      ForkTarget(s, R, d, Move(o, d));
      MoveBack(o, d);
    }
    forall o | o in B ensures exists q :: q in A && o == Move(q, d) {
      InAll({d}, o);
      InAll({s.cur}, Move(o, s.cur));
      ForkTarget(s, R, d, o);
      MoveBack(o, s.cur);
    }
    MovedSize(A, s.cur, d);
    assert B == set o | o in A :: Move(o, d);
  }

  /** The references of the child are those of the parent. */
  lemma ForkOwners(s: State, R: Roles, d: FrameNo, f: FrameNo)
    requires Inv(s, R, {}, {}) && R[d] == Spare
    ensures |Owners(ForkDirs(s, d), {}, f)| == |Owners(s, {}, f)| + |OwnersOf(s, s.cur, f)|
  {
    var s' := ForkDirs(s, d);
    var A, B, C := Owners(s, {}, f), OwnersOf(s', d, f), Owners(s', {}, f);
    ForkTarget(s, R, d, Tab(d, 0));
    forall o ensures o in C <==> o in A || o in B {
      InAll(s'.spaces, o);
      InAll(s.spaces, o);
      InAll({d}, o);
      if o.a in s'.spaces {
        ForkTarget(s, R, d, o);
      }
    }
    forall o | o in A ensures o !in B {
      InAll(s.spaces, o);
      InAll({d}, o);
    }
    assert C == A + B && A !! B;
    ChildOwners(s, R, d, f);
  }

  lemma ForkHolding(s: State, R: Roles, d: FrameNo, f: FrameNo)
    requires Inv(s, R, {}, {}) && R[d] == Spare
    ensures Holding(ForkDirs(s, d), f) == Holding(s, f)
  {
    var s' := ForkDirs(s, d);
    assert d in s.spaces ==> DirOk(s, R, d);
    forall o ensures o in Holding(s', f) <==> o in Holding(s, f) {
      InAll({s.cur}, o);
      if o.a == s.cur {
        ForkAt(s, R, d, o);
      }
    }
  }

  ghost predicate ForkExcess(s: State, R: Roles, s': State, R': Roles)
    requires ForkMem(s).Some?
  {
    forall f: FrameNo :: Excess(s', R', {}, f) == Excess(s, R, {}, f) + Shift(s, f)
  }

  lemma IncCount(s: State, hole: set<Owner>, f: FrameNo)
    ensures var s' := IncPhysRefs(s); var n := |Holding(s, f)|;
      && s'.refs[f] == s.refs[f] + (if f == 0 then 0 else n) - 256 * Wraps(s.refs[f], f, n)
      && Owners(s', hole, f) == Owners(s, hole, f)
  {
    OwnersSame(s, IncPhysRefs(s), hole, f);
  }

  lemma ForkCount(s: State, R: Roles, d: FrameNo, f: FrameNo)
    requires Inv(s, R, {}, {}) && R[d] == Spare
    ensures var s' := IncPhysRefs(ForkDirs(s, d));
      Excess(s', R[d := Dir], {}, f) == Excess(s, R, {}, f) + (if f == 0 then 0 else |Stale(s, f)|)
        - 256 * Wraps(s.refs[f], f, |Holding(s, f)|) - (if f == d then 1 else 0)
  {
    hide Wraps;
    var s3 := ForkDirs(s, d);
    ForkHolding(s, R, d, f);
    IncCount(s3, {}, f);
    ForkOwners(s, R, d, f);
    HoldingSplit(s, f);
    NothingHoldsReserved(s, R, s.cur, 0);
    NoWrapAtZero(s.refs[0], |Holding(s, 0)|);
  }

  lemma NoWrapAtZero(count: Byte, n: nat)
    ensures Wraps(count, 0, n) == 0
  {
  }

  lemma NothingHoldsReserved(s: State, R: Roles, a: FrameNo, f: FrameNo)
    requires Inv(s, R, {}, {}) && a in s.spaces && !R[f].UTab? && !R[f].Leaf?
    ensures OwnersOf(s, a, f) == {}
  {
    forall o ensures o !in OwnersOf(s, a, f) {
      InAll({a}, o);
    }
  }

  lemma ForkPrivate(s: State, R: Roles, d: FrameNo)
    requires Inv(s, R, {}, {}) && R[d] == Spare
    ensures PrivateOk(ForkDirs(s, d), {}, {})
  {
    var s' := ForkDirs(s, d);
    forall o: Owner, o': Owner | o.a in s'.spaces && o'.a in s'.spaces && o != o'
      && Target(s', {}, o).Some? && Target(s', {}, o) == Target(s', {}, o')
      ensures !Writable(s', o)
    {
      ForkAt(s, R, d, o);
      ForkTarget(s, R, d, o');
      var q, q' := Parent(s.cur, d, o), Parent(s.cur, d, o');
      if q.a != s.cur {
        assert q == o && q' != q;
        assert !Writable(s, q);
      }
    }
  }

  lemma ForkRoles(s: State, R: Roles, d: FrameNo)
    requires Inv(s, R, {}, {}) && R[d] == Spare
    ensures var s' := ForkDirs(s, d); var R' := R[d := Dir];
      RolesOk(s', R', {}) && forall a :: a in s'.spaces ==> DirOk(s', R', a) && MarksOk(s', a)
  {
    var s', R' := ForkDirs(s, d), R[d := Dir];
    forall o: Owner | o.a in s'.spaces && Target(s', {}, o).Some?
      ensures R'[Target(s', {}, o).value] == RoleOf(o)
    {
      ForkTarget(s, R, d, o);
    }
    forall a | a in s'.spaces ensures DirOk(s', R', a) && MarksOk(s', a) {
      assert DirOk(s, R, s.cur) && MarksOk(s, s.cur);
      if a != d {
        assert DirOk(s, R, a) && MarksOk(s, a);
      }
    }
  }

  lemma ForkDirsInv(s: State, R: Roles, d: FrameNo)
    requires Inv(s, R, {}, {}) && R[d] == Spare && Excess(s, R, {}, d) >= 1
    ensures var s' := IncPhysRefs(ForkDirs(s, d)); var R' := R[d := Dir];
      && ((forall f: FrameNo :: Excess(s', R', {}, f) >= 0) ==> Inv(s', R', {}, {}))
      && forall f: FrameNo :: Excess(s', R', {}, f) == Excess(s, R, {}, f) + (if f == 0 then 0 else |Stale(s, f)|)
           - 256 * Wraps(s.refs[f], f, |Holding(s, f)|) - (if f == d then 1 else 0)
  {
    hide Wraps;
    var s3 := ForkDirs(s, d);
    var s', R' := IncPhysRefs(s3), R[d := Dir];
    ForkRoles(s, R, d);
    ForkPrivate(s, R, d);
    forall f: FrameNo
      ensures Excess(s', R', {}, f) == Excess(s, R, {}, f) + (if f == 0 then 0 else |Stale(s, f)|)
        - 256 * Wraps(s.refs[f], f, |Holding(s, f)|) - (if f == d then 1 else 0)
    {
      ForkCount(s, R, d, f);
    }
    CountsOnly(s3, s', R');
  }

  /** The user side of the invariant does not look at the counts. */
  lemma CountsOnly(s: State, s': State, R: Roles)
    requires s' == s.(refs := s'.refs)
    requires RolesOk(s, R, {}) && PrivateOk(s, {}, {})
    requires forall a :: a in s.spaces ==> DirOk(s, R, a) && MarksOk(s, a)
    ensures RolesOk(s', R, {}) && PrivateOk(s', {}, {})
    ensures forall a :: a in s.spaces ==> DirOk(s', R, a) && MarksOk(s', a)
  {
    forall o: Owner | true ensures Target(s', {}, o) == Target(s, {}, o) && Writable(s', o) == Writable(s, o) {
    }
    forall a | a in s.spaces ensures DirOk(s', R, a) && MarksOk(s', a) {
      assert DirOk(s, R, a) && MarksOk(s, a);
    }
  }

  lemma SlotsSame(s: State, s': State, f: FrameNo)
    requires UserSame(s, s', {})
    ensures Holding(s', f) == Holding(s, f) && Stale(s', f) == Stale(s, f)
  {
    forall o ensures o in Holding(s', f) <==> o in Holding(s, f)
             ensures o in Stale(s', f) <==> o in Stale(s, f)
    {
      InAll({s.cur}, o);
      if o.a == s.cur {
        assert SlotWord(s', o) == SlotWord(s, o);
      }
    }
  }

  /** Every page of the child reads as the same page of its parent, every place of the child
      has the permissions of its parent's, and nothing else changed. */
  ghost predicate Forked(s: State, s': State, d: FrameNo) {
    && d !in s.spaces && s'.spaces == s.spaces + {d} && s'.cur == s.cur
    && (forall o: Owner :: o.a in s'.spaces && o.Pg? ==> Look(s', {}, o) == Look(s, {}, Parent(s.cur, d, o)))
    && forall o: Owner :: o.a in s'.spaces ==> PermKept(s, Parent(s.cur, d, o), s', o)
  }

  /** The allocations of fork_mem. */
  lemma ForkPrepare(s: State, R: Roles) returns (R': Roles)
    requires Inv(s, R, {}, {}) && ForkMem(s).Some?
    ensures var (s1, d) := AllocPageFrame(s).value; var (s2, va) := EnterKernelPage(s1, d, false).value;
      && Inv(s2, R', {}, {}) && UserSame(s, s2, {}) && R'[d] == Spare && s2 == Prepared(s)
      && Pins(s, R, s2, R') && KernelKept(s, R, s2, R', Some(va))
      && (forall f: FrameNo :: Excess(s2, R', {}, f) == Excess(s, R, {}, f) + if f == d then 1 else 0)
      && (forall f: FrameNo :: s2.refs[f] <= if s.refs[f] == 0 then 1 else s.refs[f])
      && (forall f: FrameNo :: Holding(s2, f) == Holding(s, f) && Stale(s2, f) == Stale(s, f))
      && (forall f: FrameNo :: s.refs[f] > 0 ==> R'[f] == R[f] && s2.refs[f] == s.refs[f])
      && KERNEL <= va.d < SELF && Pte(s2, va) == Entry(d, true, false)
  {
    assert DirOk(s, R, s.cur);
    hide Inv, DirOk, Holding, Stale, Excess, UserSame, Pins, KernelKept;
    hide ForkMem, Prepared, AllocPageFrame, EnterKernelPage, KernelStep;
    ForkNames(s);
    AllocInv(s, R, {}, {});
    var (s1, d) := AllocPageFrame(s).value;
    R' := EnterInv(s1, R[d := Spare], {}, {}, d, false);
    var (s2, va) := EnterKernelPage(s1, d, false).value;
    EnteredCounts(s, R, s1, d, s2, R');
    PreparedLaw(s, R, s1, d, s2, R', va);
    AllSlotsSame(s, s2);
  }

  lemma EnteredCounts(s: State, R: Roles, s1: State, d: FrameNo, s2: State, R2: Roles)
    requires s1 == s.(refs := s.refs[d := 1]) && s.refs[d] == 0 && UserSame(s, s1, {})
    requires KernelStep(s1, R[d := Spare], s2, R2, {})
    requires forall f: FrameNo :: Excess(s1, R[d := Spare], {}, f) == Excess(s, R, {}, f) + if f == d then 1 else 0
    ensures UserSame(s, s2, {}) && R2[d] == Spare && Pins(s1, R[d := Spare], s2, R2)
    ensures forall f: FrameNo :: Excess(s2, R2, {}, f) == Excess(s, R, {}, f) + if f == d then 1 else 0
    ensures forall f: FrameNo :: s2.refs[f] <= if s.refs[f] == 0 then 1 else s.refs[f]
    ensures forall f: FrameNo :: s.refs[f] > 0 ==> R2[f] == R[f] && s2.refs[f] == s.refs[f]
  {
    hide UserSame, Excess, Pins;
    UserSameTrans(s, s1, s2, {});
  }

  lemma AllSlotsSame(s: State, s': State)
    requires UserSame(s, s', {})
    ensures forall f: FrameNo :: Holding(s', f) == Holding(s, f) && Stale(s', f) == Stale(s, f)
  {
    hide UserSame, Holding, Stale;
    forall f: FrameNo ensures Holding(s', f) == Holding(s, f) && Stale(s', f) == Stale(s, f) {
      SlotsSame(s, s', f);
    }
  }

  lemma PreparedLaw(s: State, R: Roles, s1: State, d: FrameNo, s2: State, R2: Roles, va: Va)
    requires s1 == s.(refs := s.refs[d := 1]) && Pin(R[d]) == 0 && DirOk(s, R, s.cur)
    requires Pins(s1, R[d := Spare], s2, R2) && KernelKept(s1, R[d := Spare], s2, R2, Some(va))
    ensures Pins(s, R, s2, R2) && KernelKept(s, R, s2, R2, Some(va))
  {
    AllocKept(s, R, d);
    hide Pins, KernelKept;
    PinTrans(s, R, s1, R[d := Spare], s2, R2);
    KeptTrans(s, R, s1, R[d := Spare], s2, R2, None, Some(va));
  }

  /** fork_mem copies the parent's view and permissions, and changes the surplus of each count
      by the stale entries it scans, less 256 for each time the byte wraps. The invariant is
      kept if that leaves no surplus below zero. */
  lemma ForkInv(s: State, R: Roles) returns (R': Roles)
    requires Inv(s, R, {}, {}) && ForkMem(s).Some?
    ensures var (s', d, va) := ForkMem(s).value;
      && Forked(s, s', d) && ForkExcess(s, R, s', R') && ForkPins(s, R, s', R', d)
      && ForkKernel(s, R, s', R', d, va)
      && (CountsCover(s, R) ==> Inv(s', R', {}, {}))
      && forall f: FrameNo :: s.refs[f] > 0 ==> R'[f] == R[f]
  {
    hide RolesOk, PrivateOk, MarksOk, DirOk, Owners, Stale, Holding, Wraps, Pins, NewTable, KernelKept;
    var R2 := ForkPrepare(s, R);
    var (s1, d) := AllocPageFrame(s).value;
    var (s2, va) := EnterKernelPage(s1, d, false).value;
    var s' := IncPhysRefs(ForkDirs(s2, d));
    assert ForkMem(s) == Some((s', d, va));
    R' := R2[d := Dir];
    assert Excess(s, R, {}, d) >= 0;
    AllocInv(s, R, {}, {});
    ForkDirsInv(s2, R2, d);
    ForkViews(s, s2, R2, d);
    ForkKeepsKernel(s, R, s2, R2, d);
    ForkWindowKept(s, R, s2, R2, d, va);
    assert ForkExcess(s, R, s', R') by {
      forall f: FrameNo ensures Excess(s', R', {}, f) == Excess(s, R, {}, f) + Shift(s, f) {
        if f == 0 {
          NoWrapAtZero(s2.refs[0], |Holding(s, 0)|);
        }
      }
    }
  }

  /** Fork pins its new directory and the kernel page table it may install. */
  ghost predicate ForkPins(s: State, R: Roles, s': State, R': Roles, d: FrameNo) {
    forall f: FrameNo ::
      Pin(R'[f]) == Pin(R[f]) + (if NewTable(s, s', f) then 1 else 0) + (if f == d then 1 else 0)
  }

  lemma ForkKeepsKernel(s: State, R: Roles, s2: State, R2: Roles, d: FrameNo)
    requires Pins(s, R, s2, R2) && R2[d] == Spare && d != s2.cur && s2.cur == s.cur
    ensures ForkPins(s, R, IncPhysRefs(ForkDirs(s2, d)), R2[d := Dir], d)
  {
    hide Holding;
    var s' := IncPhysRefs(ForkDirs(s2, d));
    forall k: Slot | KERNEL <= k < SELF ensures Pde(s', k) == Pde(s2, k) {
    }
    forall f: FrameNo ensures NewTable(s, s', f) == NewTable(s, s2, f) {
    }
  }

  /** The kernel's half of the child's directory is its parent's, with the page tables in it, but
      for the self-map, which is its own; and the kernel of the parent is as it was, but for the
      page va, which now maps the child's directory. */
  ghost predicate ForkKernel(s: State, R: Roles, s': State, R': Roles, d: FrameNo, va: Va) {
    && (forall t: Slot :: KERNEL <= t < SELF ==> s'.mem[d][t] == Pde(s', t))
    && s'.mem[d][SELF] == Entry(d, true, true) && Pde(s', SELF) == Pde(s, SELF)
    && KERNEL <= va.d < SELF && Pte(s', va) == Entry(d, true, false)
    && (forall q: Va :: KERNEL <= q.d < SELF ==> PageKept(s, s', q, Some(va)))
    && ReservedKept(s, R, s', R')
    && (forall a :: a in s.spaces && a != s.cur ==> s'.mem[a] == s.mem[a])
  }

  lemma ForkWindowKept(s: State, R: Roles, s2: State, R2: Roles, d: FrameNo, va: Va)
    requires Inv(s2, R2, {}, {}) && KernelKept(s, R, s2, R2, Some(va)) && R2[d] == Spare
    requires KERNEL <= va.d < SELF && Pte(s2, va) == Entry(d, true, false)
    ensures ForkKernel(s, R, IncPhysRefs(ForkDirs(s2, d)), R2[d := Dir], d, va)
  {
    var s' := IncPhysRefs(ForkDirs(s2, d));
    forall a | a in s2.spaces ensures R2[a] == Dir {
      assert DirOk(s2, R2, a);
    }
    assert DirOk(s2, R2, s2.cur) && d != s2.cur;
    hide Holding, Inv;
    assert forall t: Slot :: KERNEL <= t ==> Pde(s', t) == Pde(s2, t);
    forall q: Va | KERNEL <= q.d < SELF ensures PageKept(s, s', q, Some(va)) {
      assert PageKept(s, s2, q, Some(va));
      assert Pde(s', q.d) == Pde(s2, q.d);
    }
    assert PageKept(s, s2, va, Some(va));
  }

  lemma ForkViews(s: State, s2: State, R2: Roles, d: FrameNo)
    requires Inv(s2, R2, {}, {}) && UserSame(s, s2, {}) && R2[d] == Spare
    ensures Forked(s, IncPhysRefs(ForkDirs(s2, d)), d)
  {
    hide Inv, Holding;
    var s3 := ForkDirs(s2, d);
    var s' := IncPhysRefs(s3);
    UserSameView(s, s2, {});
    ForkTarget(s2, R2, d, Tab(d, 0));
    forall o: Owner | o.a in s'.spaces
      ensures o.Pg? ==> Look(s', {}, o) == Look(s, {}, Parent(s.cur, d, o))
      ensures PermKept(s, Parent(s.cur, d, o), s', o)
    {
      ForkAt(s2, R2, d, o);
      assert SlotWord(s', o) == SlotWord(s3, o);
      assert SlotWord(s2, Parent(s.cur, d, o)) == SlotWord(s, Parent(s.cur, d, o));
    }
  }

  // ----- counts that wrap

  /** After fork_mem every count still covers its references. */
  ghost predicate CountsCover(s: State, R: Roles)
    requires ForkMem(s).Some?
  {
    forall f: FrameNo :: Excess(s, R, {}, f) + Shift(s, f) >= 0
  }

  /** The same, whatever the frames without a count are used for. */
  ghost predicate Covers(s: State) {
    ForkMem(s).Some? ==> forall R :: Inv(s, R, {}, {}) ==> CountsCover(s, R)
  }

  /** The count of f covers its references after fork_mem, with the one reference of a directory,
      of a kernel page table or of a reserved frame, if and only if its surplus, with the stale
      entries that are added to it, makes up for 256 each time its byte wraps. */
  lemma ForkCoversIff(s: State, R: Roles, f: FrameNo)
    requires Inv(s, R, {}, {}) && ForkMem(s).Some?
    ensures var (s', d, va) := ForkMem(s).value;
      s'.refs[f] >= |Owners(s', {}, f)| + Pin(R[f]) + (if NewTable(s, s', f) then 1 else 0) + (if f == d then 1 else 0)
      <==> f == 0 || Excess(s, R, {}, f) + |Stale(s, f)| >= 256 * Turns(s, f)
  {
    var R' := ForkInv(s, R);
    hide Stale, Turns, NewTable, Inv, Owners, ForkMem;
    assert Excess(s, R, {}, 0) >= 0 by { SurplusAtZero(s, R); }
  }

  lemma SurplusAtZero(s: State, R: Roles)
    requires Inv(s, R, {}, {})
    ensures Excess(s, R, {}, 0) >= 0
  {
  }

  /** That is certain when nothing wraps. */
  lemma NoWrapCovers(s: State)
    requires NoWrap(s)
    ensures Covers(s)
    ensures Good(s) && ForkMem(s).Some? ==> forall f: FrameNo :: Turns(s, f) == 0
  {
    hide Excess, Stale, Holding;
    if ForkMem(s).Some? {
      forall R | Inv(s, R, {}, {})
        ensures CountsCover(s, R) && forall f: FrameNo :: Turns(s, f) == 0
      {
        var R2 := ForkPrepare(s, R);
        forall f: FrameNo ensures Turns(s, f) == 0 && Excess(s, R, {}, f) + Shift(s, f) >= 0 {
          assert f != 0 ==> Prepared(s).refs[f] + |Holding(s, f)| < 256;
          assert Excess(s, R, {}, f) >= 0;
        }
      }
    }
  }

  /** The count of g after fork_mem, in terms of what is known before it counts. */
  ghost function CountAfter(s: State, g: FrameNo): int
    requires ForkMem(s).Some?
  {
    if g == 0 then Prepared(s).refs[g] else (Prepared(s).refs[g] + |Holding(s, g)|) % 256
  }

  /** A frame in use, be it mapped by a process, a page table, a directory or a table of the
      kernel, whose count comes to a multiple of 256 is free for the next allocation: it is
      handed out if and only if its count wraps to zero and no lower count is or wraps to zero. */
  lemma WrappedFrameHandedOut(s: State, R: Roles, f: FrameNo)
    requires Inv(s, R, {}, {}) && ForkMem(s).Some? && f != 0 && s.refs[f] > 0
    ensures var s' := ForkMem(s).value.0;
      AllocPageFrame(s').Some? && AllocPageFrame(s').value.1 == f
      <==> (s.refs[f] + |Holding(s, f)|) % 256 == 0 && forall g: FrameNo :: g < f ==> CountAfter(s, g) != 0
  {
    hide Inv, ForkMem, AllocPageFrame, CountAfter, Prepared, Holding;
    var s' := ForkMem(s).value.0;
    LowestFree(s', f);
    forall g: FrameNo ensures s'.refs[g] == CountAfter(s, g) {
      ForkedCount(s, R, g);
    }
    CountInUse(s, R, f);
  }

  /** The process that maps such a frame goes on mapping it. */
  lemma ForkKeepsTarget(s: State, R: Roles, o: Owner)
    requires Inv(s, R, {}, {}) && ForkMem(s).Some? && o.a in s.spaces
    ensures Target(ForkMem(s).value.0, {}, o) == Target(s, {}, o)
  {
    hide Inv, Holding, Stale, Excess, UserSame, Target, ForkMem, Prepared, ForkDirs, IncPhysRefs;
    hide EnterKernelPage, AllocPageFrame;
    var (s', d, va) := ForkMem(s).value;
    var R2 := ForkPrepare(s, R);
    ForkNames(s);
    ForkMemIs(s);
    ForkedTarget(s, R2, s', d, o);
  }

  lemma CountInUse(s: State, R: Roles, f: FrameNo)
    requires Inv(s, R, {}, {}) && ForkMem(s).Some? && f != 0 && s.refs[f] > 0
    ensures CountAfter(s, f) == (s.refs[f] + |Holding(s, f)|) % 256
  {
    hide Inv, ForkMem;
    var R2 := ForkPrepare(s, R);
  }

  lemma ForkedCount(s: State, R: Roles, g: FrameNo)
    requires Inv(s, R, {}, {}) && ForkMem(s).Some?
    ensures ForkMem(s).value.0.refs[g] == CountAfter(s, g)
  {
    hide Inv, Holding, Stale, Excess, UserSame, ForkMem, Prepared, ForkDirs, IncPhysRefs;
    hide EnterKernelPage, AllocPageFrame;
    var (s', d, va) := ForkMem(s).value;
    var R2 := ForkPrepare(s, R);
    ForkNames(s);
    ForkMemIs(s);
    ForkHolding(Prepared(s), R2, d, g);
    WrappedCount(s, s', d, g);
  }

  lemma ForkMemIs(s: State)
    requires ForkMem(s).Some? && Pte(Prepared(s), ForkMem(s).value.2).frame == ForkMem(s).value.1
    ensures ForkMem(s).value.0 == IncPhysRefs(ForkDirs(Prepared(s), ForkMem(s).value.1))
  {
    hide IncPhysRefs;
  }

  lemma ForkNames(s: State)
    requires ForkMem(s).Some?
    ensures AllocPageFrame(s).Some?
    ensures var (s1, d) := AllocPageFrame(s).value;
      EnterKernelPage(s1, d, false) == Some((Prepared(s), ForkMem(s).value.2)) && d == ForkMem(s).value.1
  {
    hide IncPhysRefs;
  }

  lemma ForkedTarget(s: State, R2: Roles, s': State, d: FrameNo, o: Owner)
    requires ForkMem(s).Some? && s' == IncPhysRefs(ForkDirs(Prepared(s), d))
    requires Inv(Prepared(s), R2, {}, {}) && UserSame(s, Prepared(s), {}) && R2[d] == Spare && o.a in s.spaces
    ensures Target(s', {}, o) == Target(s, {}, o)
  {
    hide Inv, Holding, Prepared, ForkMem;
    var s2 := Prepared(s);
    ForkTarget(s2, R2, d, o);
    assert SlotWord(s2, o) == SlotWord(s, o);
    assert Target(s', {}, o) == Target(ForkDirs(s2, d), {}, o);
  }

  lemma WrappedCount(s: State, s': State, d: FrameNo, f: FrameNo)
    requires ForkMem(s).Some? && s' == IncPhysRefs(ForkDirs(Prepared(s), d))
    requires Holding(ForkDirs(Prepared(s), d), f) == Holding(s, f)
    ensures s'.refs[f] == CountAfter(s, f)
  {
    hide Holding, Prepared, ForkMem, MarkShared;
  }

  /** alloc_page_frame hands out f if and only if f is the lowest frame with count zero. */
  lemma LowestFree(s: State, f: FrameNo)
    ensures AllocPageFrame(s).Some? && AllocPageFrame(s).value.1 == f
       <==> s.refs[f] == 0 && forall g: FrameNo :: g < f ==> s.refs[g] != 0
  {
    var r := SearchFree(s.refs, 0);
  }

  ghost predicate Good(s: State) {
    exists R :: Inv(s, R, {}, {})
  }

  /** The count of a frame in use stays exact across fork_mem if and only if its stale entries
      are 256 for each time the byte wraps; so, when it does not wrap, if and only if nothing
      stale names the frame. */
  lemma ForkExactIff(s: State, R: Roles, f: FrameNo)
    requires Inv(s, R, {}, {}) && ForkMem(s).Some?
    requires f != 0 && s.refs[f] == |Owners(s, {}, f)| > 0
    ensures var s' := ForkMem(s).value.0;
      && (s'.refs[f] == |Owners(s', {}, f)| <==> |Stale(s, f)| == 256 * Turns(s, f))
      && (Turns(s, f) == 0 ==> (s'.refs[f] == |Owners(s', {}, f)| <==> Stale(s, f) == {}))
  {
    hide Turns, Stale;
    var R' := ForkInv(s, R);
    assert Excess(s, R, {}, f) >= 0;
    var s' := ForkMem(s).value.0;
    assert Excess(s', R', {}, f) == Excess(s, R, {}, f) + Shift(s, f);
    assert |Stale(s, f)| == 0 <==> Stale(s, f) == {};
  }
}
