/** The invariant behind copy-on-write, and what each elementary step of mm.c does to it. */
module MmInvariant {
  import opened Wrappers
  import opened PageWords
  import opened Mm

  /** What a frame is used for. A user frame has one place in every address space: table k,
      or page i of table k. */
  datatype Role = Spare | Reserved | Dir | KTab(d: Slot) | UTab(k: UserSlot) | Leaf(k: UserSlot, i: Slot)

  type Roles = r: seq<Role> | |r| == FRAMES witness seq(FRAMES, _ => Spare)

  function RoleOf(o: Owner): Role {
    match o
    case Tab(_, k) => UTab(k)
    case Pg(_, k, i) => Leaf(k, i)
  }

  /** Roles that account for one reference of their own. */
  function Pin(r: Role): nat {
    if r == Reserved || r == Dir || r.KTab? then 1 else 0
  }

  /** The frame that o refers to. Places in hole are counted as already empty. */
  ghost function Target(s: State, hole: set<Owner>, o: Owner): Option<FrameNo> {
    if o !in hole && SlotWord(s, o).Some? && SlotWord(s, o).value.p then
      Some(SlotWord(s, o).value.frame)
    else
      None
  }

  /** Whether the processor lets a user read page i of table k, and write it: both levels
      have to allow it (Intel SDM Volume 3A, section 4.6). */
  predicate UserMayUse(s: State, k: UserSlot, i: Slot) {
    Pde(s, k).p && Pde(s, k).user && Pte(s, Va(k, i)).p && Pte(s, Va(k, i)).user
  }

  predicate UserMayWrite(s: State, k: UserSlot, i: Slot) {
    UserMayUse(s, k, i) && Pde(s, k).rw && Pte(s, Va(k, i)).rw
  }

  /** Whether both levels are writable at o. */
  ghost predicate Writable(s: State, o: Owner) {
    s.mem[o.a][o.k].rw && (o.Pg? ==> SlotWord(s, o).Some? && SlotWord(s, o).value.rw)
  }

  ghost function Owners(s: State, hole: set<Owner>, f: FrameNo): set<Owner> {
    set o | o in All(s.spaces) && Target(s, hole, o) == Some(f)
  }

  /** How far the count of f exceeds the references that exist. */
  ghost function Excess(s: State, R: Roles, hole: set<Owner>, f: FrameNo): int {
    s.refs[f] - |Owners(s, hole, f)| - Pin(R[f])
  }

  // ----- the invariant

  ghost predicate DirOk(s: State, R: Roles, a: FrameNo) {
    && R[a] == Dir
    && s.mem[a][SELF].p && s.mem[a][SELF].frame == a && !s.mem[a][SELF].bit9
    && forall d: Slot :: KERNEL <= d < SELF && s.mem[a][d].p ==>
         R[s.mem[a][d].frame] == KTab(d) && !s.mem[a][d].bit9
  }

  /** A shared table is read-only and carries both marks; an unshared one neither. */
  ghost predicate MarksOk(s: State, a: FrameNo) {
    forall k: UserSlot :: s.mem[a][k].p ==>
      s.mem[a][k].bit9 == !s.mem[a][k].rw && s.mem[a][k].bit10 == !s.mem[a][k].rw
  }

  ghost predicate RolesOk(s: State, R: Roles, hole: set<Owner>) {
    forall o: Owner :: o.a in s.spaces && Target(s, hole, o).Some? ==> R[Target(s, hole, o).value] == RoleOf(o)
  }

  /** A place that can be written through is the only one that refers to its frame. */
  ghost predicate PrivateOk(s: State, hole: set<Owner>, ex: set<Owner>) {
    forall o: Owner, o': Owner ::
      (o.a in s.spaces && o'.a in s.spaces && o != o' && o !in ex
       && Target(s, hole, o).Some? && Target(s, hole, o) == Target(s, hole, o')) ==> !Writable(s, o)
  }

  ghost predicate Inv(s: State, R: Roles, hole: set<Owner>, ex: set<Owner>) {
    && R[0] == Reserved
    && (forall o :: o in hole ==> o.Pg?)
    && (forall a :: a in s.spaces ==> DirOk(s, R, a) && MarksOk(s, a))
    && RolesOk(s, R, hole)
    && PrivateOk(s, hole, ex)
    && forall f: FrameNo :: Excess(s, R, hole, f) >= 0
  }

  lemma InAll(spaces: set<FrameNo>, o: Owner)
    ensures o in All(spaces) <==> o.a in spaces
  {
  }

  ghost predicate SameExcess(s: State, R: Roles, s': State, R': Roles, hole: set<Owner>) {
    forall f: FrameNo :: Excess(s', R', hole, f) == Excess(s, R, hole, f)
  }

  /** Frame f has become the page table of a kernel entry of the running directory, closed to
      the user. */
  ghost predicate NewTable(s: State, s': State, f: FrameNo) {
    exists d: Slot :: KERNEL <= d < SELF && !Pde(s, d).p && Pde(s', d) == Entry(f, true, false)
  }

  /** A step within one space pins exactly the kernel page tables that it installs: no other
      frame gains or loses the reference that its role accounts for. */
  ghost predicate Pins(s: State, R: Roles, s': State, R': Roles) {
    && (forall d: Slot :: KERNEL <= d < SELF && Pde(s, d).p ==> Pde(s', d) == Pde(s, d))
    && forall f: FrameNo :: Pin(R'[f]) == Pin(R[f]) + if NewTable(s, s', f) then 1 else 0
  }

  ghost predicate Present(s: State, va: Va) {
    Pde(s, va.d).p && Pte(s, va).p
  }

  /** Kernel page q is as it was; tmp is the one that a step has added, if any. */
  ghost predicate PageKept(s: State, s': State, q: Va, tmp: Option<Va>) {
    if tmp == Some(q) then !Present(s, q) && Present(s', q)
    else (Present(s', q) <==> Present(s, q)) && (Present(s, q) ==> Pte(s', q) == Pte(s, q))
  }

  /** The frames that are reserved for the kernel stay so, and are not written. */
  ghost predicate ReservedKept(s: State, R: Roles, s': State, R': Roles) {
    forall f: FrameNo :: R[f] == Reserved ==> R'[f] == Reserved && s'.mem[f] == s.mem[f]
  }

  /** A step within one space leaves the kernel alone: its pages, but for tmp, the frames that
      are reserved for it, the self-map, and the directories of all other spaces. */
  ghost predicate KernelKept(s: State, R: Roles, s': State, R': Roles, tmp: Option<Va>) {
    && s'.spaces == s.spaces && s'.cur == s.cur && Pde(s', SELF) == Pde(s, SELF)
    && (forall q: Va :: KERNEL <= q.d < SELF ==> PageKept(s, s', q, tmp))
    && ReservedKept(s, R, s', R')
    && (forall a :: a in s.spaces && a != s.cur ==> s'.mem[a] == s.mem[a])
  }

  ghost predicate SpaceLaw(s: State, R: Roles, s': State, R': Roles) {
    Pins(s, R, s', R') && KernelKept(s, R, s', R', None)
  }

  /** Nothing that belongs to the kernel is written. */
  ghost predicate Quiet(s: State, R: Roles, s': State, R': Roles) {
    && s'.spaces == s.spaces && s'.cur == s.cur
    && (forall d: Slot :: KERNEL <= d ==> Pde(s', d) == Pde(s, d))
    && (forall f: FrameNo :: Pin(R'[f]) == Pin(R[f]))
    && (forall f: FrameNo :: R[f].KTab? || R[f] == Reserved ==> R'[f] == R[f] && s'.mem[f] == s.mem[f])
    && (forall a :: a in s.spaces && a != s.cur ==> s'.mem[a] == s.mem[a])
  }

  lemma QuietLaw(s: State, R: Roles, s': State, R': Roles)
    requires DirOk(s, R, s.cur) && Quiet(s, R, s', R')
    ensures SpaceLaw(s, R, s', R')
  {
    PinsSame(s, R, s', R');
    forall q: Va | KERNEL <= q.d < SELF ensures PageKept(s, s', q, None) {
      assert Pde(s', q.d) == Pde(s, q.d);
    }
  }

  lemma LawRefl(s: State, R: Roles)
    requires DirOk(s, R, s.cur)
    ensures SpaceLaw(s, R, s, R)
  {
    QuietLaw(s, R, s, R);
  }

  lemma LawTrans(s: State, R: Roles, s1: State, R1: Roles, s': State, R': Roles)
    requires SpaceLaw(s, R, s1, R1) && SpaceLaw(s1, R1, s', R')
    ensures SpaceLaw(s, R, s', R')
  {
    hide Pins, KernelKept;
    PinTrans(s, R, s1, R1, s', R');
    KeptTrans(s, R, s1, R1, s', R', None, None);
  }

  lemma KeptTrans(s: State, R: Roles, s1: State, R1: Roles, s': State, R': Roles, t1: Option<Va>, t2: Option<Va>)
    requires KernelKept(s, R, s1, R1, t1) && KernelKept(s1, R1, s', R', t2) && (t1 == None || t2 == None)
    ensures KernelKept(s, R, s', R', if t1.Some? then t1 else t2)
  {
    hide Present;
    forall q: Va | KERNEL <= q.d < SELF ensures PageKept(s, s', q, if t1.Some? then t1 else t2) {
      assert PageKept(s, s1, q, t1) && PageKept(s1, s', q, t2);
    }
  }

  /** The page that was added goes again. */
  lemma KeptDrop(s: State, R: Roles, s1: State, R1: Roles, s': State, R': Roles, tmp: Va)
    requires KernelKept(s, R, s1, R1, Some(tmp)) && s'.spaces == s1.spaces && s'.cur == s1.cur && !Present(s', tmp)
    requires Pde(s', SELF) == Pde(s1, SELF)
    requires forall q: Va :: KERNEL <= q.d < SELF && q != tmp ==> PageKept(s1, s', q, None)
    requires forall f: FrameNo :: R1[f] == Reserved ==> R'[f] == Reserved && s'.mem[f] == s1.mem[f]
    requires forall a :: a in s1.spaces && a != s1.cur ==> s'.mem[a] == s1.mem[a]
    ensures KernelKept(s, R, s', R', None)
  {
    hide Present;
    forall q: Va | KERNEL <= q.d < SELF ensures PageKept(s, s', q, None) {
      assert PageKept(s, s1, q, Some(tmp));
    }
  }

  lemma PinsSame(s: State, R: Roles, s': State, R': Roles)
    requires forall d: Slot :: KERNEL <= d < SELF ==> Pde(s', d) == Pde(s, d)
    requires forall f: FrameNo :: Pin(R'[f]) == Pin(R[f])
    ensures Pins(s, R, s', R')
  {
  }

  lemma PinTrans(s: State, R: Roles, s1: State, R1: Roles, s': State, R': Roles)
    requires Pins(s, R, s1, R1) && Pins(s1, R1, s', R')
    ensures Pins(s, R, s', R')
  {
    forall f: FrameNo ensures Pin(R'[f]) == Pin(R[f]) + if NewTable(s, s', f) then 1 else 0 {
      NewTableSteps(s, s1, s', f);
    }
  }

  lemma NewTableSteps(s: State, s1: State, s': State, f: FrameNo)
    requires forall d: Slot :: KERNEL <= d < SELF && Pde(s, d).p ==> Pde(s1, d) == Pde(s, d)
    requires forall d: Slot :: KERNEL <= d < SELF && Pde(s1, d).p ==> Pde(s', d) == Pde(s1, d)
    ensures NewTable(s, s', f) <==> NewTable(s, s1, f) || NewTable(s1, s', f)
  {
    if d: Slot :| KERNEL <= d < SELF && !Pde(s, d).p && Pde(s', d) == Entry(f, true, false) {
      assert Pde(s1, d).p ==> NewTable(s, s1, f);
    }
    if d: Slot :| KERNEL <= d < SELF && !Pde(s, d).p && Pde(s1, d) == Entry(f, true, false) {
      assert Pde(s', d) == Entry(f, true, false);
    }
    if d: Slot :| KERNEL <= d < SELF && !Pde(s1, d).p && Pde(s', d) == Entry(f, true, false) {
      assert !Pde(s, d).p;
    }
  }

  /** User memory is the same in both states, down to the marks. */
  ghost predicate UserSame(s: State, s': State, hole: set<Owner>) {
    && s'.spaces == s.spaces && s'.cur == s.cur
    && (forall o: Owner :: o.a in s.spaces ==> SlotWord(s', o) == SlotWord(s, o))
    && (forall o: Owner :: o.a in s.spaces ==> Writable(s', o) == Writable(s, o))
    && (forall o: Owner :: o.a in s.spaces && o.Pg? && Target(s, hole, o).Some? ==>
          s'.mem[Target(s, hole, o).value] == s.mem[Target(s, hole, o).value])
  }

  lemma UserSameTrans(s: State, s1: State, s2: State, hole: set<Owner>)
    requires UserSame(s, s1, hole) && UserSame(s1, s2, hole)
    ensures UserSame(s, s2, hole)
  {
    forall o: Owner | o.a in s.spaces ensures Target(s1, hole, o) == Target(s, hole, o) {
      assert SlotWord(s1, o) == SlotWord(s, o);
    }
  }

  /** Directories stay in order when one user entry is overwritten with an entry that keeps
      the rule about the marks. */
  lemma DirsEntry(s: State, s': State, R: Roles, R': Roles, k: UserSlot)
    requires s'.spaces == s.spaces && s'.cur == s.cur
    requires forall a :: a in s.spaces ==> DirOk(s, R, a) && MarksOk(s, a)
    requires forall a :: a in s.spaces && a != s.cur ==> s'.mem[a] == s.mem[a]
    requires forall d: Slot :: d != k ==> Pde(s', d) == Pde(s, d)
    requires Pde(s', k).p ==> Pde(s', k).bit9 == !Pde(s', k).rw && Pde(s', k).bit10 == !Pde(s', k).rw
    requires forall f: FrameNo :: (R[f] == Dir || R[f].KTab?) ==> R'[f] == R[f]
    ensures forall a :: a in s.spaces ==> DirOk(s', R', a) && MarksOk(s', a)
  {
    forall a | a in s.spaces ensures DirOk(s', R', a) && MarksOk(s', a) {
      assert DirOk(s, R, a) && MarksOk(s, a);
      if a == s.cur {
        assert forall d: Slot {:trigger s'.mem[a][d]} :: s'.mem[a][d] == Pde(s', d);
        assert forall d: Slot {:trigger s.mem[a][d]} :: s.mem[a][d] == Pde(s, d);
      }
    }
  }

  /** Directories that are left alone stay in order. */
  lemma DirsSame(s: State, s': State, R: Roles, R': Roles)
    requires forall a :: a in s'.spaces ==> DirOk(s, R, a) && MarksOk(s, a) && s'.mem[a] == s.mem[a]
    requires forall a :: a in s'.spaces ==> R'[a] == Dir
    requires forall f: FrameNo :: R[f].KTab? ==> R'[f] == R[f]
    ensures forall a :: a in s'.spaces ==> DirOk(s', R', a) && MarksOk(s', a)
  {
  }

  lemma OwnersSame(s: State, s': State, hole: set<Owner>, f: FrameNo)
    requires s'.spaces == s.spaces
    requires forall o: Owner :: o.a in s.spaces ==> Target(s', hole, o) == Target(s, hole, o)
    ensures Owners(s', hole, f) == Owners(s, hole, f)
  {
    forall o ensures o in Owners(s', hole, f) <==> o in Owners(s, hole, f) {
      InAll(s.spaces, o);
    }
  }

  // ----- allocation

  lemma AllocInv(s: State, R: Roles, hole: set<Owner>, ex: set<Owner>)
    requires Inv(s, R, hole, ex) && AllocPageFrame(s).Some?
    ensures var (s', f) := AllocPageFrame(s).value; var R' := R[f := Spare];
      && Inv(s', R', hole, ex) && f != 0 && UserSame(s, s', hole)
      && s.refs[f] == 0 && s' == s.(refs := s.refs[f := 1]) && Pin(R[f]) == 0
      && forall g: FrameNo :: Excess(s', R', hole, g) == Excess(s, R, hole, g) + if g == f then 1 else 0
  {
    var (s', f) := AllocPageFrame(s).value;
    var R' := R[f := Spare];
    assert Excess(s, R, hole, f) >= 0;
    assert Owners(s, hole, f) == {};
    forall o: Owner | o.a in s.spaces ensures Target(s, hole, o) != Some(f) {
      InAll(s.spaces, o);
      assert Target(s, hole, o) == Some(f) <==> o in Owners(s, hole, f);
    }
    forall g: FrameNo ensures Excess(s', R', hole, g) == Excess(s, R, hole, g) + if g == f then 1 else 0 {
      OwnersSame(s, s', hole, g);
    }
    forall o: Owner ensures Target(s', hole, o) == Target(s, hole, o) && Writable(s', o) == Writable(s, o) {
    }
  }

  // ----- the kernel window

  lemma TableRole(s: State, R: Roles, hole: set<Owner>, ex: set<Owner>, a: FrameNo, k: UserSlot)
    requires Inv(s, R, hole, ex) && a in s.spaces
    ensures R[a] == Dir && (s.mem[a][k].p ==> R[s.mem[a][k].frame] == UTab(k))
  {
    assert Target(s, hole, Tab(a, k)).Some? == s.mem[a][k].p;
  }

  /** A change of memory that leaves directories' user halves, user tables and user pages
      alone concerns no user reference. */
  lemma UserFrame(s: State, s': State, R: Roles, hole: set<Owner>, ex: set<Owner>)
    requires Inv(s, R, hole, ex)
    requires s'.spaces == s.spaces && s'.cur == s.cur
    requires forall a, k: UserSlot :: a in s.spaces ==> s'.mem[a][k] == s.mem[a][k]
    requires forall f: FrameNo :: R[f].UTab? || R[f].Leaf? ==> s'.mem[f] == s.mem[f]
    ensures UserSame(s, s', hole)
    ensures forall f: FrameNo :: Owners(s', hole, f) == Owners(s, hole, f)
    ensures RolesOk(s', R, hole) && PrivateOk(s', hole, ex)
    ensures forall a :: a in s.spaces ==> MarksOk(s', a)
  {
    forall o: Owner | o.a in s.spaces
      ensures SlotWord(s', o) == SlotWord(s, o) && Writable(s', o) == Writable(s, o)
    {
      TableRole(s, R, hole, ex, o.a, o.k);
    }
    forall f: FrameNo ensures Owners(s', hole, f) == Owners(s, hole, f) {
      OwnersSame(s, s', hole, f);
    }
    forall a | a in s.spaces ensures MarksOk(s', a) {
      assert MarksOk(s, a);
    }
  }

  /** Writing an entry of a kernel page table concerns no user reference. */
  lemma KernelStore(s: State, R: Roles, hole: set<Owner>, ex: set<Owner>, f: FrameNo, t: Slot, w: Word)
    requires Inv(s, R, hole, ex) && R[f].KTab?
    ensures var s' := Store(s, f, t, w);
      Inv(s', R, hole, ex) && UserSame(s, s', hole) && SameExcess(s, R, s', R, hole)
  {
    var s' := Store(s, f, t, w);
    UserFrame(s, s', R, hole, ex);
    assert forall g: FrameNo :: Excess(s', R, hole, g) == Excess(s, R, hole, g);
    forall a | a in s.spaces ensures DirOk(s', R, a) {
      assert DirOk(s, R, a);
    }
  }

  lemma AddKernelTableInv(s: State, R: Roles, hole: set<Owner>, ex: set<Owner>, d: Slot)
    requires Inv(s, R, hole, ex) && KERNEL <= d < SELF && !Pde(s, d).p && AddPageTable(s, d, false).Some?
    ensures var s' := AddPageTable(s, d, false).value; var f := Pde(s', d).frame; var R' := R[f := KTab(d)];
      && Inv(s', R', hole, ex) && UserSame(s, s', hole) && SameExcess(s, R, s', R', hole)
      && Pde(s', d) == Entry(f, true, false) && s'.mem[f] == ZeroPage()
      && s.refs[f] == 0 && s'.refs == s.refs[f := 1] && SpaceLaw(s, R, s', R')
      && forall g: FrameNo :: g != f && g != s.cur ==> s'.mem[g] == s.mem[g]
  {
    AllocInv(s, R, hole, ex);
    var (s1, f) := AllocPageFrame(s).value;
    var R1, R2 := R[f := Spare], R[f := KTab(d)];
    var s' := AddPageTable(s, d, false).value;
    assert DirOk(s1, R1, s.cur);
    assert f != s.cur;
    assert s'.mem == s.mem[s.cur := s.mem[s.cur][d := Entry(f, true, false)]][f := ZeroPage()];
    forall a | a in s.spaces ensures R1[a] == Dir {
      assert DirOk(s1, R1, a);
    }
    UserFrame(s1, s', R1, hole, ex);
    NewTableOnly(s, s', d, f);
    NewTableKept(s, R, s', d, f);
    assert forall g: FrameNo :: Excess(s', R2, hole, g) == Excess(s, R, hole, g);
    forall a | a in s.spaces ensures DirOk(s', R2, a) {
      assert DirOk(s1, R1, a);
    }
  }

  lemma NewTableKept(s: State, R: Roles, s': State, d: Slot, f: FrameNo)
    requires DirOk(s, R, s.cur) && Pin(R[f]) == 0 && f !in s.spaces
    requires KERNEL <= d < SELF && !Pde(s, d).p && s'.spaces == s.spaces && s'.cur == s.cur
    requires s'.mem == s.mem[s.cur := s.mem[s.cur][d := Entry(f, true, false)]][f := ZeroPage()]
    requires R[s.cur] == Dir
    ensures KernelKept(s, R, s', R[f := KTab(d)], None)
  {
    forall q: Va | KERNEL <= q.d < SELF ensures PageKept(s, s', q, None) {
      if q.d == d {
        assert Pte(s', q) == ZERO;
      } else {
        assert Pde(s', q.d) == Pde(s, q.d);
      }
    }
  }

  lemma NewTableOnly(s: State, s': State, d: Slot, f: FrameNo)
    requires KERNEL <= d < SELF && !Pde(s, d).p && Pde(s', d) == Entry(f, true, false)
    requires forall d': Slot :: d' != d ==> Pde(s', d') == Pde(s, d')
    ensures forall g: FrameNo :: NewTable(s, s', g) <==> g == f
  {
  }

  /** get_free_address returns a page that is not present, and changes the state only when it
      had to install a page table for it. */
  lemma {:induction false} SearchFound(s: State, d: Slot, t: Slot, left: nat)
    requires SearchAddress(s, d, t, left).Some?
    ensures var (s', va) := SearchAddress(s, d, t, left).value;
      if Pde(s, va.d).p then s' == s && !Pte(s, va).p
      else va.t == 0 && AddPageTable(s, va.d, false) == Some(s')
    decreases left
  {
    if Pde(s, d).p && FirstAbsent(s.mem[Pde(s, d).frame], t) == 1024 {
      SearchFound(s, (d + 1) % 1024, 0, left - 1);
    }
  }

  /** A step of the kernel window: frames in use keep their role, their count and, outside
      the kernel's own tables and the running directory, their contents. */
  ghost predicate KernelStep(s: State, R: Roles, s': State, R': Roles, hole: set<Owner>) {
    && UserSame(s, s', hole) && SameExcess(s, R, s', R', hole) && Pins(s, R, s', R')
    && (forall g: FrameNo :: s.refs[g] > 0 ==> R'[g] == R[g] && s'.refs[g] == s.refs[g])
    && (forall g: FrameNo :: s.refs[g] == 0 ==> s'.refs[g] <= 1)
    && (forall g: FrameNo :: s.refs[g] > 0 && g != s.cur && !R[g].KTab? ==> s'.mem[g] == s.mem[g])
    && (forall k: UserSlot :: Pde(s', k) == Pde(s, k))
    && Pde(s', SELF) == Pde(s, SELF)
  }

  lemma KernelStepTrans(s: State, R: Roles, s1: State, R1: Roles, s': State, R': Roles, hole: set<Owner>)
    requires KernelStep(s, R, s1, R1, hole) && KernelStep(s1, R1, s', R', hole)
    ensures KernelStep(s, R, s', R', hole)
  {
    hide Excess, Target, Writable, SlotWord, Pins;
    UserSameTrans(s, s1, s', hole);
    PinTrans(s, R, s1, R1, s', R');
  }

  lemma KernelStepCur(s: State, R: Roles, s': State, R': Roles, hole: set<Owner>)
    requires KernelStep(s, R, s', R', hole)
    ensures s'.cur == s.cur && s'.spaces == s.spaces
  {
  }

  lemma KernelStepRefl(s: State, R: Roles, hole: set<Owner>)
    ensures KernelStep(s, R, s, R, hole)
  {
    PinsSame(s, R, s, R);
  }

  /** The search for a kernel page, with the page table it may install. */
  lemma SearchInv(s: State, R: Roles, hole: set<Owner>, ex: set<Owner>) returns (R': Roles)
    requires Inv(s, R, hole, ex) && GetFreeAddress(s, Va(KERNEL, 0)).Some?
    requires KERNEL <= GetFreeAddress(s, Va(KERNEL, 0)).value.1.d < SELF
    ensures var (s', tmp) := GetFreeAddress(s, Va(KERNEL, 0)).value;
      && Inv(s', R', hole, ex) && KernelStep(s, R, s', R', hole)
      && Pde(s', tmp.d).p && R'[Pde(s', tmp.d).frame] == KTab(tmp.d) && Pde(s', tmp.d).frame != s.cur
      && KernelKept(s, R, s', R', None) && !Present(s', tmp)
  {
    hide RolesOk, PrivateOk, MarksOk, Owners, Excess, UserSame, SameExcess, Pins, KernelKept;
    var (s1, tmp) := GetFreeAddress(s, Va(KERNEL, 0)).value;
    SearchFound(s, KERNEL, 0, 1023);
    assert DirOk(s, R, s.cur);
    if Pde(s, tmp.d).p {
      R' := R;
      KernelStepRefl(s, R, hole);
      LawRefl(s, R);
    } else {
      AddKernelTableInv(s, R, hole, ex, tmp.d);
      R' := R[Pde(s1, tmp.d).frame := KTab(tmp.d)];
      assert DirOk(s1, R', s.cur);
    }
  }

  lemma KernelStoreStep(s: State, R: Roles, hole: set<Owner>, ex: set<Owner>, tmp: Va, w: Word)
    requires Inv(s, R, hole, ex) && R[Pde(s, tmp.d).frame] == KTab(tmp.d) && Pde(s, tmp.d).frame != s.cur
    requires KERNEL <= tmp.d < SELF && Pde(s, tmp.d).p && !Present(s, tmp) && w.p
    ensures KernelKept(s, R, SetPte(s, tmp, w), R, Some(tmp))
    ensures var s' := SetPte(s, tmp, w);
      Inv(s', R, hole, ex) && KernelStep(s, R, s', R, hole) && Pde(s', tmp.d) == Pde(s, tmp.d) && Pte(s', tmp) == w
  {
    KernelStore(s, R, hole, ex, Pde(s, tmp.d).frame, tmp.t, w);
    assert DirOk(s, R, s.cur);
    KernelStoreKept(s, R, tmp, w);
    hide Inv, UserSame, SameExcess;
    PinsSame(s, R, SetPte(s, tmp, w), R);
  }

  /** A store to an entry of a kernel page table concerns that one page. */
  lemma KernelStoreKept(s: State, R: Roles, tmp: Va, w: Word)
    requires DirOk(s, R, s.cur) && KERNEL <= tmp.d < SELF && Pde(s, tmp.d).p && !Present(s, tmp) && w.p
    requires forall a :: a in s.spaces ==> R[a] == Dir
    ensures KernelKept(s, R, SetPte(s, tmp, w), R, Some(tmp))
  {
    var s' := SetPte(s, tmp, w);
    assert R[Pde(s, tmp.d).frame] == KTab(tmp.d);
    forall q: Va | KERNEL <= q.d < SELF ensures PageKept(s, s', q, Some(tmp)) {
      assert Pde(s', q.d) == Pde(s, q.d);
    }
  }

  lemma EnterInv(s: State, R: Roles, hole: set<Owner>, ex: set<Owner>, f: FrameNo, user: bool) returns (R': Roles)
    requires Inv(s, R, hole, ex) && EnterKernelPage(s, f, user).Some?
    ensures var (s', tmp) := EnterKernelPage(s, f, user).value;
      && Inv(s', R', hole, ex) && KernelStep(s, R, s', R', hole)
      && KERNEL <= tmp.d < SELF && Pde(s', tmp.d).p
      && R'[Pde(s', tmp.d).frame] == KTab(tmp.d) && Pte(s', tmp) == Entry(f, true, user)
      && KernelKept(s, R, s', R', Some(tmp))
  {
    hide Inv, KernelStep, KernelKept;
    R' := SearchInv(s, R, hole, ex);
    var (s1, tmp) := GetFreeAddress(s, Va(KERNEL, 0)).value;
    assert s1.cur == s.cur by { KernelStepCur(s, R, s1, R', hole); }
    KernelStoreStep(s1, R', hole, ex, tmp, Entry(f, true, user));
    KernelStepTrans(s, R, s1, R', SetPte(s1, tmp, Entry(f, true, user)), R', hole);
    KeptTrans(s, R, s1, R', SetPte(s1, tmp, Entry(f, true, user)), R', None, Some(tmp));
  }

  /** Page tables of the kernel window are not shared, so enter_page at KERNEL_MEMORY is one
      store behind the search, wherever it ends inside the window. */
  lemma EnterKernelPageExact(s: State, R: Roles, hole: set<Owner>, ex: set<Owner>, f: FrameNo, user: bool)
    requires Inv(s, R, hole, ex) && EnterKernelPage(s, f, user).Some?
    ensures EnterPage(s, f, Va(KERNEL, 0), true, user) == EnterKernelPage(s, f, user)
  {
    SearchFound(s, KERNEL, 0, 1023);
    assert DirOk(s, R, s.cur);
    var (s1, va) := GetFreeAddress(s, Va(KERNEL, 0)).value;
    if !Pde(s, va.d).p {
      AddKernelTableInv(s, R, hole, ex, va.d);
    }
    assert Pde(s1, va.d).p && !Pde(s1, va.d).bit9;
  }

  lemma DropPageExact(s: State, R: Roles, hole: set<Owner>, ex: set<Owner>, tmp: Va)
    requires Inv(s, R, hole, ex) && KERNEL <= tmp.d < SELF && Pde(s, tmp.d).p && Pte(s, tmp).p
    ensures FreePage(s, tmp) == Some(DropPage(s, tmp))
  {
    assert DirOk(s, R, s.cur);
  }
}
