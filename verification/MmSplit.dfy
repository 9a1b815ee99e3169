/** Splitting a shared page table and a shared page: references and meaning are conserved. */
module MmSplit {
  import opened Wrappers
  import opened PageWords
  import opened Mm
  import opened MmInvariant

  /** In terms of the counts alone: for every frame the count less the references from user
      places stays, and is one more for a frame that has become a kernel page table. */
  ghost predicate CountLaw(s: State, s': State) {
    forall f: FrameNo ::
      s'.refs[f] - |Owners(s', {}, f)| == s.refs[f] - |Owners(s, {}, f)| + if NewTable(s, s', f) then 1 else 0
  }

  lemma LawOf(s: State, R: Roles, s': State, R': Roles)
    requires SameExcess(s, R, s', R', {}) && SpaceLaw(s, R, s', R')
    ensures CountLaw(s, s')
  {
    hide Owners, NewTable;
    forall f: FrameNo ensures s'.refs[f] - |Owners(s', {}, f)|
        == s.refs[f] - |Owners(s, {}, f)| + if NewTable(s, s', f) then 1 else 0
    {
      assert Excess(s', R', {}, f) == Excess(s, R, {}, f);
    }
  }

  /** What the owner of o reads there. */
  ghost function Look(s: State, hole: set<Owner>, o: Owner): Option<Page> {
    if Target(s, hole, o).Some? then Some(s.mem[Target(s, hole, o).value]) else None
  }

  /** Every address space reads the same memory in both states. */
  ghost predicate SameView(s: State, s': State, hole: set<Owner>) {
    && s'.spaces == s.spaces && s'.cur == s.cur
    && forall o: Owner :: o.a in s.spaces && o.Pg? ==> Look(s', hole, o) == Look(s, hole, o)
  }

  lemma UserSameView(s: State, s': State, hole: set<Owner>)
    requires UserSame(s, s', hole)
    ensures SameView(s, s', hole)
  {
    forall o: Owner | o.a in s.spaces && o.Pg? ensures Look(s', hole, o) == Look(s, hole, o) {
      assert SlotWord(s', o) == SlotWord(s, o);
      assert Target(s', hole, o) == Target(s, hole, o);
    }
  }

  /** What a step may do to the permissions in a word of a table: user access stays, a
      read-only page does not become writable, and one that can be written or is marked for
      copying stays so. A directory entry keeps user access. */
  ghost predicate WordKept(table: bool, w: Word, w': Word) {
    if table then w.user ==> w'.user
    else w'.user == w.user && (w'.rw ==> w.rw) && (w.rw || w.bit9 ==> w'.rw || w'.bit9)
  }

  /** The place o' holds in s' what o held in s, with its permissions. */
  ghost predicate PermKept(s: State, o: Owner, s': State, o': Owner) {
    && Target(s', {}, o').Some? == Target(s, {}, o).Some?
    && (Target(s, {}, o).Some? ==> WordKept(o.Tab?, SlotWord(s, o).value, SlotWord(s', o').value))
  }

  ghost predicate PermsKept(s: State, s': State) {
    forall o: Owner :: o.a in s.spaces ==> PermKept(s, o, s', o)
  }

  ghost function PagesOf(a: FrameNo, k: UserSlot): set<Owner> {
    set i: Slot :: Pg(a, k, i)
  }

  ghost function ReplaceTable(s: State, k: UserSlot, n: FrameNo): State {
    s.(mem := s.mem[s.cur := s.mem[s.cur][k := Entry(n, true, true)]][n := s.mem[Pde(s, k).frame]])
  }

  lemma OwnersMove(s: State, s': State, hole: set<Owner>, o: Owner, t: FrameNo, n: FrameNo)
    requires s'.spaces == s.spaces && o.a in s.spaces && t != n
    requires Target(s, hole, o) == Some(t) && Target(s', hole, o) == Some(n)
    requires forall o': Owner :: o'.a in s.spaces && o' != o ==> Target(s', hole, o') == Target(s, hole, o')
    ensures Owners(s', hole, n) == Owners(s, hole, n) + {o} && o !in Owners(s, hole, n)
    ensures Owners(s', hole, t) == Owners(s, hole, t) - {o} && o in Owners(s, hole, t)
    ensures forall f: FrameNo :: f != t && f != n ==> Owners(s', hole, f) == Owners(s, hole, f)
  {
    forall o' ensures o' in All(s.spaces) <==> o'.a in s.spaces {
      InAll(s.spaces, o');
    }
  }

  /** A place that changes from frame t to frame n takes one reference from t to n. */
  lemma MoveExcess(s: State, s': State, R: Roles, R': Roles, hole: set<Owner>, o: Owner, t: FrameNo, n: FrameNo)
    requires s'.spaces == s.spaces && s'.refs == s.refs && o.a in s.spaces && t != n
    requires forall f: FrameNo :: Pin(R'[f]) == Pin(R[f])
    requires Target(s, hole, o) == Some(t) && Target(s', hole, o) == Some(n)
    requires forall o': Owner :: o'.a in s.spaces && o' != o ==> Target(s', hole, o') == Target(s, hole, o')
    ensures forall f: FrameNo :: Excess(s', R', hole, f)
              == Excess(s, R, hole, f) + (if f == t then 1 else 0) - (if f == n then 1 else 0)
  {
    OwnersMove(s, s', hole, o, t, n);
  }

  lemma GainOwner(s: State, s': State, o0: Owner, n: FrameNo, f: FrameNo)
    requires s'.spaces == s.spaces && o0.a in s.spaces && Target(s, {}, o0) == None
    requires forall o: Owner :: o.a in s.spaces ==> Target(s', {}, o) == if o == o0 then Some(n) else Target(s, {}, o)
    ensures |Owners(s', {}, f)| == |Owners(s, {}, f)| + if f == n then 1 else 0
  {
    forall o ensures o in Owners(s', {}, f) <==> o in Owners(s, {}, f) || (f == n && o == o0) {
      InAll(s.spaces, o);
    }
    InAll(s.spaces, o0);
    assert o0 !in Owners(s, {}, f);
    var A, B := Owners(s, {}, f), Owners(s', {}, f);
    if f == n {
      assert B == A + {o0};
    } else {
      assert B == A;
    }
  }

  /** A place that comes to refer to frame n uses up one surplus of n. */
  lemma GainExcess(s: State, s': State, R: Roles, R': Roles, o0: Owner, n: FrameNo)
    requires s'.spaces == s.spaces && s'.refs == s.refs && o0.a in s.spaces && Target(s, {}, o0) == None
    requires forall f: FrameNo :: Pin(R'[f]) == Pin(R[f])
    requires forall o: Owner :: o.a in s.spaces ==> Target(s', {}, o) == if o == o0 then Some(n) else Target(s, {}, o)
    ensures forall f: FrameNo :: Excess(s', R', {}, f) == Excess(s, R, {}, f) - if f == n then 1 else 0
  {
    forall f: FrameNo ensures Excess(s', R', {}, f) == Excess(s, R, {}, f) - if f == n then 1 else 0 {
      GainOwner(s, s', o0, n, f);
    }
  }

  lemma ReplaceTableInv(s: State, R: Roles, hole: set<Owner>, ex: set<Owner>, k: UserSlot, n: FrameNo)
    requires Inv(s, R, hole, ex) && Pde(s, k).p && R[n] == Spare && Excess(s, R, hole, n) >= 1
    ensures var s' := ReplaceTable(s, k, n); var R' := R[n := UTab(k)]; var t := Pde(s, k).frame;
      && Inv(s', R', hole, ex + PagesOf(s.cur, k)) && SameView(s, s', hole)
      && (forall f: FrameNo :: Excess(s', R', hole, f)
            == Excess(s, R, hole, f) + (if f == t then 1 else 0) - (if f == n then 1 else 0))
      && (forall o: Owner :: o.a in s.spaces && o.Pg? ==> SlotWord(s', o) == SlotWord(s, o))
      && (forall o: Owner :: o.a in s.spaces && o.a != s.cur ==> SlotWord(s', o) == SlotWord(s, o))
  {
    hide Owners, Excess;
    var s' := ReplaceTable(s, k, n);
    var R' := R[n := UTab(k)];
    var t := Pde(s, k).frame;
    var o0 := Tab(s.cur, k);
    TableRole(s, R, hole, ex, s.cur, k);
    forall o: Owner | o.a in s.spaces
      ensures o != o0 ==> SlotWord(s', o) == SlotWord(s, o) && Target(s', hole, o) == Target(s, hole, o)
      ensures o != o0 && o !in PagesOf(s.cur, k) ==> Writable(s', o) == Writable(s, o)
      ensures Target(s, hole, o) != Some(n)
      ensures o.Pg? ==> Look(s', hole, o) == Look(s, hole, o)
    {
      TableRole(s, R, hole, ex, o.a, o.k);
    }
    assert Target(s, hole, o0) == Some(t) && Target(s', hole, o0) == Some(n);
    MoveExcess(s, s', R, R', hole, o0, t, n);
    forall a | a in s.spaces && a != s.cur ensures s'.mem[a] == s.mem[a] {
      assert DirOk(s, R, a);
    }
    DirsEntry(s, s', R, R', k);
  }

  /** free_page of a kernel page gives back one surplus reference of the frame it maps. */
  lemma DropTempInv(s: State, R: Roles, hole: set<Owner>, ex: set<Owner>, tmp: Va)
    requires Inv(s, R, hole, ex) && R[Pde(s, tmp.d).frame].KTab?
    requires Excess(s, R, hole, Pte(s, tmp).frame) >= 1
    ensures var s' := DropPage(s, tmp); var f := Pte(s, tmp).frame;
      && Inv(s', R, hole, ex) && UserSame(s, s', hole) && !Pte(s', tmp).p
      && s'.mem == Store(s, Pde(s, tmp.d).frame, tmp.t, Pte(s, tmp).(p := false)).mem
      && forall g: FrameNo :: Excess(s', R, hole, g) == Excess(s, R, hole, g) - if g == f then 1 else 0
  {
    var f := Pte(s, tmp).frame;
    var s1 := FreePageFrame(s, f);
    var s' := DropPage(s, tmp);
    UserFrame(s, s', R, hole, ex);
    forall g: FrameNo ensures Excess(s', R, hole, g) == Excess(s, R, hole, g) - if g == f then 1 else 0 {
    }
    forall a | a in s.spaces ensures DirOk(s', R, a) {
      assert DirOk(s, R, a);
    }
    assert Pde(s', tmp.d) == Pde(s, tmp.d) by {
      assert DirOk(s, R, s.cur);
    }
  }

  ghost predicate Copied(s: State, R: Roles, s': State, R': Roles, hole: set<Owner>, k: UserSlot) {
    var n := Pde(s', k).frame;
    && Pde(s', k) == Entry(n, true, true) && R'[n] == UTab(k) && s'.mem[n] == s.mem[Pde(s, k).frame]
    && SameView(s, s', hole) && SameExcess(s, R, s', R', hole) && SpaceLaw(s, R, s', R')
    && (forall o: Owner :: o.a in s.spaces && o.Pg? ==> SlotWord(s', o) == SlotWord(s, o))
    && (forall o: Owner :: o.a in s.spaces && o != Tab(s.cur, k) ==> SlotWord(s', o) == SlotWord(s, o))
  }

  /** Both splits begin alike: map frame f at a kernel page and allocate a frame n. */
  lemma PrepareInv(s: State, R: Roles, hole: set<Owner>, ex: set<Owner>, f: FrameNo, user: bool)
    returns (R': Roles)
    requires Inv(s, R, hole, ex) && EnterKernelPage(s, f, user).Some?
    requires AllocPageFrame(EnterKernelPage(s, f, user).value.0).Some?
    ensures var (s1, tmp) := EnterKernelPage(s, f, user).value; var (s', n) := AllocPageFrame(s1).value;
      && Inv(s', R', hole, ex) && UserSame(s, s', hole)
      && R'[n] == Spare && s.refs[n] == 0 && Pins(s, R, s', R') && KernelKept(s, R, s', R', Some(tmp))
      && (forall g: FrameNo :: Excess(s', R', hole, g) == Excess(s, R, hole, g) + if g == n then 1 else 0)
      && (forall g: FrameNo :: s.refs[g] > 0 && g != s.cur && !R[g].KTab? ==> s'.mem[g] == s.mem[g])
      && (forall g: FrameNo :: s.refs[g] > 0 ==> R'[g] == R[g])
      && (forall k: UserSlot :: Pde(s', k) == Pde(s, k)) && Pde(s', SELF) == Pde(s, SELF)
      && KERNEL <= tmp.d < SELF && Pde(s', tmp.d).p && R'[Pde(s', tmp.d).frame] == KTab(tmp.d)
      && Pte(s', tmp) == Entry(f, true, user)
  {
    hide Pins, KernelKept;
    var R1 := EnterInv(s, R, hole, ex, f, user);
    var (s1, tmp) := EnterKernelPage(s, f, user).value;
    AllocInv(s1, R1, hole, ex);
    var (s2, n) := AllocPageFrame(s1).value;
    R' := R1[n := Spare];
    PinsSame(s1, R1, s2, R');
    PinTrans(s, R, s1, R1, s2, R');
    AllocKept(s1, R1, n);
    KeptTrans(s, R, s1, R1, s2, R', Some(tmp), None);
    UserSameTrans(s, s1, s2, hole);
    assert DirOk(s2, R', s.cur);
  }

  lemma AllocKept(s: State, R: Roles, n: FrameNo)
    requires Pin(R[n]) == 0 && DirOk(s, R, s.cur)
    ensures SpaceLaw(s, R, s.(refs := s.refs[n := 1]), R[n := Spare])
  {
    QuietLaw(s, R, s.(refs := s.refs[n := 1]), R[n := Spare]);
  }

  /** The stores of copy_page_table through the directory's own window and through the
      temporary page amount to ReplaceTable. */
  lemma CopyTableStores(s: State, k: UserSlot, tmp: Va, t: FrameNo, n: FrameNo)
    requires Pde(s, SELF).frame == s.cur && n != s.cur && t != s.cur
    requires KERNEL <= tmp.d < SELF && Pde(s, tmp.d).frame != s.cur && Pte(s, tmp).frame == t
    requires Pde(s, k).frame == t
    ensures var s3 := SetPte(s, Va(SELF, k), Entry(n, true, true));
      s3.(mem := s3.mem[Pde(s3, k).frame := s3.mem[Pte(s3, tmp).frame]]) == ReplaceTable(s, k, n)
  {
  }

  /** copy_page_table takes one reference from the old table and gives one to the new one,
      keeps every page, and leaves no temporary mapping. */
  lemma CopyTableInv(s: State, R: Roles, hole: set<Owner>, ex: set<Owner>, k: UserSlot) returns (R': Roles)
    requires Inv(s, R, hole, ex) && Pde(s, k).p && CopyPageTable(s, k).Some?
    ensures var s' := CopyPageTable(s, k).value;
      && Inv(s', R', hole, ex + PagesOf(s.cur, k)) && Copied(s, R, s', R', hole, k)
      && !Pte(s', EnterKernelPage(s, Pde(s, k).frame, true).value.1).p
      && forall g: FrameNo :: s.refs[g] > 0 ==> R'[g] == R[g]
  {
    hide RolesOk, PrivateOk, MarksOk, Owners, Excess, Pins, KernelKept, Copied;
    var t := Pde(s, k).frame;
    TableRole(s, R, hole, ex, s.cur, k);
    TableCounted(s, R, hole, ex, s.cur, k);
    var R2 := PrepareInv(s, R, hole, ex, t, true);
    var (s1, tmp) := EnterKernelPage(s, t, true).value;
    var (s2, n) := AllocPageFrame(s1).value;
    assert DirOk(s2, R2, s.cur);
    CopyTableStores(s2, k, tmp, t, n);
    R' := R2[n := UTab(k)];
    CopyTableFinish(s, R, s2, R2, hole, ex, k, n, tmp);
  }

  lemma CopyTableFinish(s: State, R: Roles, s2: State, R2: Roles, hole: set<Owner>, ex: set<Owner>,
                        k: UserSlot, n: FrameNo, tmp: Va)
    requires Inv(s2, R2, hole, ex) && UserSame(s, s2, hole) && Pde(s2, k).p && R2[n] == Spare
    requires Pins(s, R, s2, R2) && KernelKept(s, R, s2, R2, Some(tmp)) && Pde(s2, tmp.d).p
    requires forall g: FrameNo :: Excess(s2, R2, hole, g) == Excess(s, R, hole, g) + if g == n then 1 else 0
    requires forall g: FrameNo :: Excess(s, R, hole, g) >= 0
    requires Pde(s2, k) == Pde(s, k) && s2.mem[Pde(s, k).frame] == s.mem[Pde(s, k).frame]
    requires KERNEL <= tmp.d < SELF && R2[Pde(s2, tmp.d).frame] == KTab(tmp.d)
    requires Pte(s2, tmp).frame == Pde(s2, k).frame
    ensures var s' := DropPage(ReplaceTable(s2, k, n), tmp); var R' := R2[n := UTab(k)];
      Inv(s', R', hole, ex + PagesOf(s.cur, k)) && Copied(s, R, s', R', hole, k) && !Pte(s', tmp).p
  {
    hide RolesOk, PrivateOk, MarksOk, Owners, Excess, Pins, KernelKept;
    ReplaceTableInv(s2, R2, hole, ex, k, n);
    var s4 := ReplaceTable(s2, k, n);
    var R' := R2[n := UTab(k)];
    TableRole(s2, R2, hole, ex, s.cur, k);
    assert Pde(s4, tmp.d) == Pde(s2, tmp.d) && Pte(s4, tmp) == Pte(s2, tmp);
    DropTempInv(s4, R', hole, ex + PagesOf(s.cur, k), tmp);
    var s' := DropPage(s4, tmp);
    UserSameView(s, s2, hole);
    UserSameView(s4, s', hole);
    assert SameView(s, s', hole);
    assert SameExcess(s, R, s', R', hole);
    FinishLaw(s, R, s2, R2, s', R', tmp);
  }

  lemma CopiedPerms(s: State, R: Roles, s': State, R': Roles, k: UserSlot)
    requires Copied(s, R, s', R', {}, k) && Pde(s, k).p
    ensures PermsKept(s, s')
  {
    forall o: Owner | o.a in s.spaces ensures PermKept(s, o, s', o) {
      if o == Tab(s.cur, k) {
        assert SlotWord(s', o).value == Pde(s', k);
      } else {
        assert SlotWord(s', o) == SlotWord(s, o);
      }
    }
  }

  /** The short form of copy_page_table does what the source spells out. */
  lemma CopyTableExact(s: State, R: Roles, hole: set<Owner>, ex: set<Owner>, k: UserSlot)
    requires Inv(s, R, hole, ex) && Pde(s, k).p && CopyPageTable(s, k).Some?
    ensures CopyPageTableInFull(s, k) == CopyPageTable(s, k)
  {
    hide RolesOk, PrivateOk, MarksOk, Owners, Excess, DropPage, FreePage, EnterPage, EnterKernelPage;
    var t := Pde(s, k).frame;
    TableRole(s, R, hole, ex, s.cur, k);
    TableCounted(s, R, hole, ex, s.cur, k);
    EnterKernelPageExact(s, R, hole, ex, t, true);
    var R2 := PrepareInv(s, R, hole, ex, t, true);
    var (s1, tmp) := EnterKernelPage(s, t, true).value;
    var (s2, n) := AllocPageFrame(s1).value;
    assert DirOk(s2, R2, s.cur);
    CopyTableStores(s2, k, tmp, t, n);
    ReplaceTableInv(s2, R2, hole, ex, k, n);
    var s4 := ReplaceTable(s2, k, n);
    assert Pde(s4, tmp.d) == Pde(s2, tmp.d) && Pte(s4, tmp) == Pte(s2, tmp);
    DropPageExact(s4, R2[n := UTab(k)], hole, ex + PagesOf(s.cur, k), tmp);
  }

  /** After the preparation a split touches nothing of the kernel's but the temporary page,
      which it frees. */
  lemma FinishLaw(s: State, R: Roles, s2: State, R2: Roles, s': State, R': Roles, tmp: Va)
    requires Pins(s, R, s2, R2) && KernelKept(s, R, s2, R2, Some(tmp)) && DirOk(s2, R2, s2.cur)
    requires KERNEL <= tmp.d < SELF && Pde(s2, tmp.d).p && s'.spaces == s2.spaces && s'.cur == s2.cur
    requires forall d: Slot :: KERNEL <= d ==> Pde(s', d) == Pde(s2, d)
    requires forall f: FrameNo :: Pin(R'[f]) == Pin(R2[f]) && (R2[f] == Reserved ==> R'[f] == Reserved)
    requires forall f: FrameNo :: R2[f] == Reserved || (R2[f].KTab? && f != Pde(s2, tmp.d).frame) ==>
               s'.mem[f] == s2.mem[f]
    requires var f := Pde(s2, tmp.d).frame; s'.mem[f] == s2.mem[f][tmp.t := Pte(s2, tmp).(p := false)]
    requires forall a :: a in s2.spaces && a != s2.cur ==> s'.mem[a] == s2.mem[a]
    ensures SpaceLaw(s, R, s', R')
  {
    PinsSame(s2, R2, s', R');
    PinTrans(s, R, s2, R2, s', R');
    assert Pde(s', tmp.d) == Pde(s2, tmp.d);
    forall q: Va | KERNEL <= q.d < SELF && q != tmp ensures PageKept(s2, s', q, None) {
      assert Pde(s', q.d) == Pde(s2, q.d);
    }
    KeptDrop(s, R, s2, R2, s', R', tmp);
  }

  /** A frame that a user reference names has a count above zero. */
  lemma TableCounted(s: State, R: Roles, hole: set<Owner>, ex: set<Owner>, a: FrameNo, k: UserSlot)
    requires Inv(s, R, hole, ex) && a in s.spaces && s.mem[a][k].p
    ensures s.refs[s.mem[a][k].frame] > 0
  {
    var f := s.mem[a][k].frame;
    InAll(s.spaces, Tab(a, k));
    assert Tab(a, k) in Owners(s, hole, f);
    assert Excess(s, R, hole, f) >= 0;
  }

  /** No other directory entry holds a table that is writable. */
  lemma TableAlone(s: State, R: Roles, hole: set<Owner>, ex: set<Owner>, k: UserSlot, o: Owner)
    requires Inv(s, R, hole, ex) && Pde(s, k).p && Pde(s, k).rw && Tab(s.cur, k) !in ex
    requires o.a in s.spaces && s.mem[o.a][o.k].p && s.mem[o.a][o.k].frame == Pde(s, k).frame
    ensures o.a == s.cur && o.k == k
  {
    assert Target(s, hole, Tab(s.cur, k)) == Some(Pde(s, k).frame);
    assert Target(s, hole, Tab(o.a, o.k)) == Some(Pde(s, k).frame);
    assert Writable(s, Tab(s.cur, k));
  }

  lemma EnableCoWInv(s: State, R: Roles, ex: set<Owner>, k: UserSlot)
    requires Inv(s, R, {}, ex) && Pde(s, k).p && Pde(s, k).rw && Tab(s.cur, k) !in ex
    ensures var n := Pde(s, k).frame; var s' := s.(mem := s.mem[n := EnableCoW(s.mem[n])]);
      && Inv(s', R, {}, ex - PagesOf(s.cur, k)) && SameView(s, s', {}) && SameExcess(s, R, s', R, {})
      && (forall d: Slot :: Pde(s', d) == Pde(s, d))
      && (forall i: Slot :: s.mem[n][i].p ==> s'.mem[n][i] == s.mem[n][i].(rw := false, bit9 := true))
      && PermsKept(s, s') && SpaceLaw(s, R, s', R)
  {
    var n := Pde(s, k).frame;
    var s' := s.(mem := s.mem[n := EnableCoW(s.mem[n])]);
    TableRole(s, R, {}, ex, s.cur, k);
    forall o: Owner | o.a in s.spaces
      ensures Target(s', {}, o) == Target(s, {}, o)
      ensures s'.mem[o.a] == s.mem[o.a]
      ensures if o in PagesOf(s.cur, k) then !Writable(s', o) || !Target(s', {}, o).Some?
              else Writable(s', o) == Writable(s, o)
      ensures o.Pg? ==> Look(s', {}, o) == Look(s, {}, o)
      ensures PermKept(s, o, s', o)
    {
      TableRole(s, R, {}, ex, o.a, o.k);
      if s.mem[o.a][o.k].p && s.mem[o.a][o.k].frame == n {
        TableAlone(s, R, {}, ex, k, o);
      }
    }
    forall f: FrameNo ensures Excess(s', R, {}, f) == Excess(s, R, {}, f) {
      OwnersSame(s, s', {}, f);
    }
    forall a | a in s.spaces ensures s'.mem[a] == s.mem[a] {
      assert Tab(a, 0).a == a;
    }
    DirsSame(s, s', R, R);
    QuietLaw(s, R, s', R);
  }

  /** The table half of the fault handler leaves a private, all copy-on-write table. */
  lemma SplitTableInv(s: State, R: Roles, k: UserSlot) returns (R': Roles)
    requires Inv(s, R, {}, {}) && Pde(s, k).p && SplitTable(s, k).Some?
    ensures var s' := SplitTable(s, k).value;
      && Inv(s', R', {}, {}) && SameView(s, s', {}) && SameExcess(s, R, s', R', {})
      && Pde(s', k).p && Pde(s', k).rw && Pde(s', k).user && !Pde(s', k).bit10 && PermsKept(s, s')
      && SpaceLaw(s, R, s', R')
      && forall i: Slot :: s.mem[Pde(s, k).frame][i].p ==> Pte(s', Va(k, i)).bit9
  {
    hide RolesOk, PrivateOk, DirOk, MarksOk, Owners, Excess, PermKept, SpaceLaw;
    R' := CopyTableInv(s, R, {}, {}, k);
    var s1 := CopyPageTable(s, k).value;
    var n := Pde(s1, k).frame;
    var ex := PagesOf(s.cur, k);
    assert {} + ex == ex && Tab(s.cur, k) !in ex;
    CopiedPerms(s, R, s1, R', k);
    EnableCoWInv(s1, R', ex, k);
    var s2 := s1.(mem := s1.mem[n := EnableCoW(s1.mem[n])]);
    assert ex - ex == {};
    assert Pde(s2, k).(rw := true, bit10 := false) == Pde(s2, k);
    assert s2.mem[s2.cur][k := Pde(s2, k)] == s2.mem[s2.cur];
    assert s2.mem[s2.cur := s2.mem[s2.cur]] == s2.mem;
    assert SplitTable(s, k).value == s2;
    LawTrans(s, R, s1, R', s2, R');
    forall o: Owner | o.a in s.spaces ensures PermKept(s, o, s2, o) {
      PermTrans(s, s1, s2, o);
    }
  }

  lemma PermTrans(s: State, s1: State, s2: State, o: Owner)
    requires PermKept(s, o, s1, o) && PermKept(s1, o, s2, o)
    ensures PermKept(s, o, s2, o)
  {
  }

  ghost function ReplacePage(s: State, va: Va, n: FrameNo): State {
    var t := Pde(s, va.d).frame;
    s.(mem := s.mem[t := s.mem[t][va.t := Entry(n, true, true)]][n := s.mem[Pte(s, va).frame]])
  }

  /** The table of (k, i) is private and the page is present. */
  ghost predicate PrivatePage(s: State, k: UserSlot, i: Slot) {
    Pde(s, k).p && Pde(s, k).rw && Pte(s, Va(k, i)).p
  }

  lemma ReplacePageAt(s: State, R: Roles, k: UserSlot, i: Slot, n: FrameNo, o: Owner)
    requires Inv(s, R, {}, {}) && PrivatePage(s, k, i) && R[n] == Spare && o.a in s.spaces
    ensures var s' := ReplacePage(s, Va(k, i), n); var o0 := Pg(s.cur, k, i);
      && s'.mem[o.a] == s.mem[o.a]
      && (o != o0 ==> SlotWord(s', o) == SlotWord(s, o) && Target(s', {}, o) == Target(s, {}, o))
      && (o != o0 ==> Writable(s', o) == Writable(s, o))
      && Target(s, {}, o) != Some(n)
      && (o.Pg? ==> Look(s', {}, o) == Look(s, {}, o))
  {
    TableRole(s, R, {}, {}, s.cur, k);
    TableRole(s, R, {}, {}, o.a, o.k);
    if s.mem[o.a][o.k].p && s.mem[o.a][o.k].frame == Pde(s, k).frame {
      TableAlone(s, R, {}, {}, k, o);
    }
  }

  lemma ReplacePageInv(s: State, R: Roles, k: UserSlot, i: Slot, n: FrameNo)
    requires Inv(s, R, {}, {}) && PrivatePage(s, k, i) && R[n] == Spare && Excess(s, R, {}, n) >= 1
    ensures var s' := ReplacePage(s, Va(k, i), n); var R' := R[n := Leaf(k, i)]; var f := Pte(s, Va(k, i)).frame;
      && Inv(s', R', {}, {}) && SameView(s, s', {})
      && (forall g: FrameNo :: Excess(s', R', {}, g)
            == Excess(s, R, {}, g) + (if g == f then 1 else 0) - (if g == n then 1 else 0))
      && (forall d: Slot :: Pde(s', d) == Pde(s, d)) && Pte(s', Va(k, i)) == Entry(n, true, true)
      && (forall o: Owner :: o.a in s.spaces && o != Pg(s.cur, k, i) ==> SlotWord(s', o) == SlotWord(s, o))
  {
    hide Owners, Excess;
    var s' := ReplacePage(s, Va(k, i), n);
    var R' := R[n := Leaf(k, i)];
    var f := Pte(s, Va(k, i)).frame;
    var o0 := Pg(s.cur, k, i);
    TableRole(s, R, {}, {}, s.cur, k);
    assert Target(s, {}, o0) == Some(f);
    forall o: Owner | o.a in s.spaces
      ensures s'.mem[o.a] == s.mem[o.a]
      ensures o != o0 ==> SlotWord(s', o) == SlotWord(s, o) && Target(s', {}, o) == Target(s, {}, o)
      ensures o != o0 ==> Writable(s', o) == Writable(s, o)
      ensures Target(s, {}, o) != Some(n)
      ensures o.Pg? ==> Look(s', {}, o) == Look(s, {}, o)
    {
      ReplacePageAt(s, R, k, i, n, o);
    }
    assert Target(s', {}, o0) == Some(n);
    MoveExcess(s, s', R, R', {}, o0, f, n);
    forall a | a in s.spaces ensures s'.mem[a] == s.mem[a] {
      assert Tab(a, 0).a == a;
    }
    DirsSame(s, s', R, R');
  }

  lemma PageCounted(s: State, R: Roles, hole: set<Owner>, ex: set<Owner>, o: Owner)
    requires Inv(s, R, hole, ex) && o.a in s.spaces && Target(s, hole, o).Some?
    ensures s.refs[Target(s, hole, o).value] > 0 && R[Target(s, hole, o).value] == RoleOf(o)
    ensures Target(s, hole, o).value != 0
  {
    var f := Target(s, hole, o).value;
    InAll(s.spaces, o);
    assert o in Owners(s, hole, f);
    assert Excess(s, R, hole, f) >= 0;
  }

  lemma SplitPageFinish(s: State, R: Roles, s2: State, R2: Roles, k: UserSlot, i: Slot, n: FrameNo, tmp: Va)
    requires Inv(s2, R2, {}, {}) && UserSame(s, s2, {}) && PrivatePage(s2, k, i) && R2[n] == Spare
    requires Pins(s, R, s2, R2) && KernelKept(s, R, s2, R2, Some(tmp)) && Pde(s2, tmp.d).p
    requires forall g: FrameNo :: Excess(s2, R2, {}, g) == Excess(s, R, {}, g) + if g == n then 1 else 0
    requires forall g: FrameNo :: Excess(s, R, {}, g) >= 0
    requires KERNEL <= tmp.d < SELF && R2[Pde(s2, tmp.d).frame] == KTab(tmp.d)
    requires Pte(s2, tmp).frame == Pte(s2, Va(k, i)).frame
    ensures var s' := DropPage(ReplacePage(s2, Va(k, i), n), tmp); var R' := R2[n := Leaf(k, i)];
      && Inv(s', R', {}, {}) && SameView(s, s', {}) && SameExcess(s, R, s', R', {}) && !Pte(s', tmp).p
      && SpaceLaw(s, R, s', R')
      && PrivatePage(s', k, i) && Pte(s', Va(k, i)) == Entry(n, true, true)
      && (forall o: Owner :: o.a in s.spaces && o != Pg(s.cur, k, i) ==> SlotWord(s', o) == SlotWord(s, o))
  {
    hide RolesOk, PrivateOk, MarksOk, Owners, Excess, Pins, KernelKept;
    ReplacePageInv(s2, R2, k, i, n);
    var s4 := ReplacePage(s2, Va(k, i), n);
    var R' := R2[n := Leaf(k, i)];
    TableRole(s2, R2, {}, {}, s.cur, k);
    PageCounted(s2, R2, {}, {}, Pg(s.cur, k, i));
    assert Pte(s4, tmp) == Pte(s2, tmp);
    DropTempInv(s4, R', {}, {}, tmp);
    var s' := DropPage(s4, tmp);
    UserSameView(s, s2, {});
    UserSameView(s4, s', {});
    assert SameView(s, s', {});
    assert SameExcess(s, R, s', R', {});
    FinishLaw(s, R, s2, R2, s', R', tmp);
    assert SlotWord(s', Tab(s.cur, k)) == SlotWord(s4, Tab(s.cur, k));
    assert SlotWord(s', Pg(s.cur, k, i)) == SlotWord(s4, Pg(s.cur, k, i));
  }

  lemma SplitPageStores(s: State, R: Roles, k: UserSlot, i: Slot, tmp: Va, n: FrameNo)
    requires Inv(s, R, {}, {}) && PrivatePage(s, k, i) && R[n] == Spare
    requires KERNEL <= tmp.d < SELF && Pde(s, tmp.d).p && Pte(s, tmp) == Entry(Pte(s, Va(k, i)).frame, true, false)
    ensures MapPage(s, n, Va(k, i), true, true).Some?
    ensures var s3 := MapPage(s, n, Va(k, i), true, true).value;
      var s4 := s3.(mem := s3.mem[Pte(s3, Va(k, i)).frame := s3.mem[Pte(s3, tmp).frame]]);
      && s4 == ReplacePage(s, Va(k, i), n) && FreePage(s4, tmp) == Some(DropPage(s4, tmp))
  {
    assert DirOk(s, R, s.cur) && MarksOk(s, s.cur);
    TableRole(s, R, {}, {}, s.cur, k);
    PageCounted(s, R, {}, {}, Pg(s.cur, k, i));
  }

  /** The entry that the fault handler leaves: writable, for the user, and unmarked. */
  ghost predicate OwnCopy(s: State, k: UserSlot, i: Slot) {
    var w := Pte(s, Va(k, i));
    w.p && w.rw && w.user && !w.bit9
  }

  /** The page half of the fault handler: one reference moves from the old frame to the new
      one, the page keeps its contents, and it can now be written. */
  lemma SplitPageInv(s: State, R: Roles, k: UserSlot, i: Slot) returns (R': Roles)
    requires Inv(s, R, {}, {}) && PrivatePage(s, k, i) && SplitPage(s, Va(k, i)).Some?
    ensures var s' := SplitPage(s, Va(k, i)).value;
      && Inv(s', R', {}, {}) && SameView(s, s', {}) && SameExcess(s, R, s', R', {})
      && PrivatePage(s', k, i) && OwnCopy(s', k, i) && SpaceLaw(s, R, s', R')
      && (forall o: Owner :: o.a in s.spaces && o != Pg(s.cur, k, i) ==> SlotWord(s', o) == SlotWord(s, o))
      && !Pte(s', EnterKernelPage(s, Pte(s, Va(k, i)).frame, false).value.1).p
  {
    var f := Pte(s, Va(k, i)).frame;
    TableRole(s, R, {}, {}, s.cur, k);
    TableCounted(s, R, {}, {}, s.cur, k);
    var R2 := PrepareInv(s, R, {}, {}, f, false);
    var (s1, tmp) := EnterKernelPage(s, f, false).value;
    var (s2, n) := AllocPageFrame(s1).value;
    SplitPageStores(s2, R2, k, i, tmp, n);
    R' := R2[n := Leaf(k, i)];
    SplitPageFinish(s, R, s2, R2, k, i, n, tmp);
  }

  /** pf_ro_violation changes what no process reads, conserves references, and leaves the
      faulting page writable by the running process alone; no other page gains or loses a
      permission, and the table is open to the user if it was or had to be copied. */
  lemma PfRoViolationInv(s: State, R: Roles, k: UserSlot, i: Slot, address: nat, codeEnd: nat) returns (R': Roles)
    requires Inv(s, R, {}, {}) && Pde(s, k).p && Pte(s, Va(k, i)).p
    requires PfRoViolation(s, k, i, address, codeEnd).Some?
    ensures var s' := PfRoViolation(s, k, i, address, codeEnd).value;
      && Inv(s', R', {}, {}) && SameView(s, s', {}) && SameExcess(s, R, s', R', {})
      && SpaceLaw(s, R, s', R') && CountLaw(s, s')
      && PrivatePage(s', k, i) && OwnCopy(s', k, i) && !Pde(s', k).bit10
      && (Pde(s', k).user <==> Pde(s, k).user || Pde(s, k).bit10)
      && (forall o: Owner :: o.a in s.spaces && o != Pg(s.cur, k, i) ==> PermKept(s, o, s', o))
  {
    assert MarksOk(s, s.cur);
    hide Inv, SplitTable, SplitPage, Owners, Excess, SpaceLaw;
    if Pde(s, k).bit10 {
      var R1 := SplitTableInv(s, R, k);
      var s1 := SplitTable(s, k).value;
      LookPresent(s, s1, k, i);
      R' := SplitPageInv(s1, R1, k, i);
      SplitPageRest(s, s1, SplitPage(s1, Va(k, i)).value, k, i);
      LawTrans(s, R, s1, R1, SplitPage(s1, Va(k, i)).value, R');
    } else {
      R' := SplitPageInv(s, R, k, i);
      SplitPageRest(s, s, SplitPage(s, Va(k, i)).value, k, i);
    }
    LawOf(s, R, PfRoViolation(s, k, i, address, codeEnd).value, R');
  }

  lemma SplitPageRest(s: State, s1: State, s': State, k: UserSlot, i: Slot)
    requires s1.spaces == s.spaces == s'.spaces && s1.cur == s.cur == s'.cur
    requires s1 == s || PermsKept(s, s1)
    requires forall o: Owner :: o.a in s.spaces && o != Pg(s.cur, k, i) ==> SlotWord(s', o) == SlotWord(s1, o)
    ensures Pde(s', k) == Pde(s1, k)
    ensures forall o: Owner :: o.a in s.spaces && o != Pg(s.cur, k, i) ==> PermKept(s, o, s', o)
  {
    assert SlotWord(s', Tab(s.cur, k)) == SlotWord(s1, Tab(s.cur, k));
    forall o: Owner | o.a in s.spaces && o != Pg(s.cur, k, i) ensures PermKept(s, o, s', o) {
      assert PermKept(s, o, s1, o);
    }
  }

  lemma LookPresent(s: State, s': State, k: UserSlot, i: Slot)
    requires SameView(s, s', {}) && Pde(s, k).p && Pte(s, Va(k, i)).p
    ensures Pde(s', k).p && Pte(s', Va(k, i)).p
  {
    assert Look(s, {}, Pg(s.cur, k, i)).Some?;
  }
}
