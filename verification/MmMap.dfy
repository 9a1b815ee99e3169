/** New mappings: map_page, fresh pages, and faults on absent pages. */
module MmMap {
  import opened Wrappers
  import opened PageWords
  import opened Mm
  import opened MmInvariant
  import opened MmSplit
  import opened MmRelease

  /** alloc_page_frame followed by map_page, as alloc_pages and do_execve do it. */
  function MapFresh(s: State, va: Va, rw: bool, user: bool): Option<State> {
    var (s1, f) :- AllocPageFrame(s);
    MapPage(s1, f, va, rw, user)
  }

  lemma UserTableLaw(s: State, R: Roles, s': State, k: UserSlot, t: FrameNo)
    requires DirOk(s, R, s.cur) && Pin(R[t]) == 0 && s'.spaces == s.spaces && s'.cur == s.cur && t != s.cur
    requires s'.mem == s.mem[s.cur := s.mem[s.cur][k := Pde(s', k)]][t := ZeroPage()]
    requires forall a :: a in s.spaces && a != s.cur ==> s'.mem[a] == s.mem[a]
    ensures SpaceLaw(s, R, s', R[t := UTab(k)])
  {
    QuietLaw(s, R, s', R[t := UTab(k)]);
  }

  lemma AddUserTableInv(s: State, R: Roles, k: UserSlot, user: bool)
    requires Inv(s, R, {}, {}) && !Pde(s, k).p && AddPageTable(s, k, user).Some?
    ensures var s' := AddPageTable(s, k, user).value; var t := Pde(s', k).frame; var R' := R[t := UTab(k)];
      && Inv(s', R', {}, {}) && SameView(s, s', {}) && SameExcess(s, R, s', R', {}) && OthersSame(s, s')
      && Pde(s', k) == Entry(t, true, user) && s'.mem[t] == ZeroPage()
      && s.refs[t] == 0 && SpaceLaw(s, R, s', R')
      && (forall o: Owner :: o.a in s.spaces && o != Tab(s.cur, k) ==> PermKept(s, o, s', o))
      && forall f: FrameNo :: f != t && f != s.cur ==> s'.mem[f] == s.mem[f]
  {
    hide Owners, Excess, SpaceLaw;
    AllocInv(s, R, {}, {});
    var (s1, t) := AllocPageFrame(s).value;
    var R1, R' := R[t := Spare], R[t := UTab(k)];
    var s' := AddPageTable(s, k, user).value;
    assert DirOk(s1, R1, s.cur);
    assert s'.mem == s.mem[s.cur := s.mem[s.cur][k := Entry(t, true, user)]][t := ZeroPage()];
    var o0 := Tab(s.cur, k);
    forall o: Owner | o.a in s.spaces
      ensures Target(s1, {}, o) != Some(t)
      ensures Target(s', {}, o) == if o == o0 then Some(t) else Target(s1, {}, o)
      ensures Target(s', {}, o).Some? && o != o0 ==> Writable(s', o) == Writable(s1, o)
      ensures o.Pg? ==> Look(s', {}, o) == Look(s, {}, o)
      ensures o.a != s.cur ==> SlotWord(s', o) == SlotWord(s, o)
      ensures o != o0 ==> PermKept(s, o, s', o)
    {
      TableRole(s1, R1, {}, {}, o.a, o.k);
    }
    GainExcess(s1, s', R1, R', o0, t);
    forall a | a in s.spaces && a != s.cur ensures s'.mem[a] == s.mem[a] {
      assert DirOk(s1, R1, a);
    }
    UserTableLaw(s, R, s', k, t);
    DirsEntry(s1, s', R1, R', k);
  }

  /** map_page into a private table adds exactly the one page. */
  lemma SetPageInv(s: State, R: Roles, ex: set<Owner>, k: UserSlot, i: Slot, f: FrameNo, rw: bool, user: bool)
    requires Inv(s, R, {}, ex) && Tab(s.cur, k) !in ex && Pde(s, k).p && Pde(s, k).rw && !Pte(s, Va(k, i)).p
    requires R[f] == Spare && Excess(s, R, {}, f) >= 1
    ensures var s' := SetPte(s, Va(k, i), Entry(f, rw, user)); var R' := R[f := Leaf(k, i)]; var o0 := Pg(s.cur, k, i);
      && Inv(s', R', {}, ex) && OthersSame(s, s') && SpaceLaw(s, R, s', R')
      && (forall g: FrameNo :: Excess(s', R', {}, g) == Excess(s, R, {}, g) - if g == f then 1 else 0)
      && Look(s', {}, o0) == Some(s.mem[f]) && Pde(s', k) == Pde(s, k)
      && (forall o: Owner :: o.a in s.spaces && o != o0 ==> SlotWord(s', o) == SlotWord(s, o))
      && forall o: Owner :: o.a in s.spaces && o.Pg? && o != o0 ==> Look(s', {}, o) == Look(s, {}, o)
  {
    hide Owners, Excess;
    var s' := SetPte(s, Va(k, i), Entry(f, rw, user));
    var R' := R[f := Leaf(k, i)];
    var o0 := Pg(s.cur, k, i);
    TableRole(s, R, {}, ex, s.cur, k);
    forall o: Owner | o.a in s.spaces
      ensures s'.mem[o.a] == s.mem[o.a] && Target(s, {}, o) != Some(f)
      ensures Target(s', {}, o) == if o == o0 then Some(f) else Target(s, {}, o)
      ensures o != o0 ==> SlotWord(s', o) == SlotWord(s, o) && Writable(s', o) == Writable(s, o)
      ensures o != o0 && o.Pg? ==> Look(s', {}, o) == Look(s, {}, o)
    {
      TableRole(s, R, {}, ex, o.a, o.k);
      if s.mem[o.a][o.k].p && s.mem[o.a][o.k].frame == Pde(s, k).frame {
        TableAlone(s, R, {}, ex, k, o);
      }
    }
    GainExcess(s, s', R, R', o0, f);
    QuietLaw(s, R, s', R');
    forall a | a in s.spaces ensures s'.mem[a] == s.mem[a] {
      assert Tab(a, 0).a == a;
    }
    DirsSame(s, s', R, R');
  }

  ghost predicate Mapped(s: State, s': State, o0: Owner) {
    && s'.spaces == s.spaces && s'.cur == s.cur && Look(s, {}, o0) == None && Look(s', {}, o0).Some?
    && forall o: Owner :: o.a in s.spaces && o.Pg? && o != o0 ==> Look(s', {}, o) == Look(s, {}, o)
  }

  /** The permissions after a mapping: those asked for at the new page; the table open to the
      user if it was, if it had to be copied, or as tableUser says if it is new; and nothing
      changed anywhere else. */
  ghost predicate MapPerms(s: State, s': State, k: UserSlot, i: Slot, rw: bool, user: bool, tableUser: bool) {
    var w := Pte(s', Va(k, i));
    && Pde(s', k).p && !Pde(s', k).bit10 && w.p && w.rw == rw && w.user == user && !w.bit9
    && (Pde(s', k).user <==> if Pde(s, k).p then Pde(s, k).user || Pde(s, k).bit9 else tableUser)
    && forall o: Owner :: o.a in s.spaces && o != Pg(s.cur, k, i) && o != Tab(s.cur, k) ==> PermKept(s, o, s', o)
  }

  lemma SetPagePerms(s: State, s1: State, s': State, k: UserSlot, i: Slot, f: FrameNo, rw: bool, user: bool)
    requires s1.spaces == s.spaces == s'.spaces && s1.cur == s.cur == s'.cur
    requires Pde(s1, k).p && !Pde(s1, k).bit10
    requires s' == SetPte(s1, Va(k, i), Entry(f, rw, user)) && Pde(s', k) == Pde(s1, k)
    requires forall o: Owner :: o.a in s.spaces && o != Tab(s.cur, k) ==> PermKept(s, o, s1, o)
    requires forall o: Owner :: o.a in s.spaces && o != Pg(s.cur, k, i) ==> SlotWord(s', o) == SlotWord(s1, o)
    requires Pde(s1, k).user <==> if Pde(s, k).p then Pde(s, k).user || Pde(s, k).bit9 else user
    ensures MapPerms(s, s', k, i, rw, user, user)
  {
    forall o: Owner | o.a in s.spaces && o != Pg(s.cur, k, i) && o != Tab(s.cur, k) ensures PermKept(s, o, s', o) {
      assert PermKept(s, o, s1, o);
      assert SlotWord(s', o) == SlotWord(s1, o);
    }
  }

  // ----- mapping into a table that is still shared

  /** Some other space maps the frame of a writable page of table k. */
  ghost predicate Leaks(s: State, k: UserSlot) {
    exists j: Slot, b :: b in s.spaces && b != s.cur && Pte(s, Va(k, j)).p && Pte(s, Va(k, j)).rw
      && Target(s, {}, Pg(b, k, j)) == Some(Pte(s, Va(k, j)).frame)
  }

  /** What map_page does to the places of the other pages when it copies a shared table. */
  ghost predicate MappedShared(s: State, s': State, k: UserSlot, i: Slot) {
    var o0 := Pg(s.cur, k, i);
    && s'.spaces == s.spaces && s'.cur == s.cur && Pde(s', k).p && Pde(s', k).rw
    && Target(s', {}, o0).Some?
    && (forall o: Owner :: o.a in s.spaces && o.Pg? && o != o0 ==> SlotWord(s', o) == SlotWord(s, o))
    && (forall o: Owner :: o.a in s.spaces && o != o0 ==> Target(s', {}, o) != Target(s', {}, o0))
  }

  /** What map_page leaves out of the isolation rule: nothing, or the pages of the table that
      it has just copied without marking them. */
  ghost function Exempt(s: State, k: UserSlot): set<Owner> {
    if Pde(s, k).p && Pde(s, k).bit9 then PagesOf(s.cur, k) else {}
  }

  ghost predicate Absent(s: State, k: UserSlot, i: Slot) {
    Pde(s, k).p ==> !Pte(s, Va(k, i)).p
  }

  /** The table of k is not shared, or holds no writable page that another space maps. */
  ghost predicate Safe(s: State, k: UserSlot) {
    Pde(s, k).p && Pde(s, k).bit9 ==> !Leaks(s, k)
  }

  lemma MapSharedTail(s: State, R: Roles, ex: set<Owner>, k: UserSlot, i: Slot, f: FrameNo, rw: bool, user: bool)
    requires Inv(s, R, {}, ex) && Tab(s.cur, k) !in ex && Pde(s, k).p && Pde(s, k).rw && !Pte(s, Va(k, i)).p
    requires R[f] == Spare && Excess(s, R, {}, f) >= 1
    ensures var s' := SetPte(s, Va(k, i), Entry(f, rw, user));
      Inv(s', R[f := Leaf(k, i)], {}, ex) && MappedShared(s, s', k, i)
  {
    SetPageInv(s, R, ex, k, i, f, rw, user);
    var s' := SetPte(s, Va(k, i), Entry(f, rw, user));
    var o0 := Pg(s.cur, k, i);
    TableRole(s, R, {}, ex, s.cur, k);
    assert Target(s', {}, o0) == Some(f);
    forall o: Owner | o.a in s.spaces && o != o0 ensures Target(s', {}, o) != Some(f) {
      assert Target(s', {}, o) == Target(s, {}, o);
    }
  }

  lemma MapSharedLeaks(s: State, s': State, k: UserSlot, i: Slot)
    requires MappedShared(s, s', k, i) && Leaks(s, k) && Pde(s, k).p && !Pte(s, Va(k, i)).p
    ensures !PrivateOk(s', {}, {})
  {
    var j: Slot, b :| b in s.spaces && b != s.cur && Pte(s, Va(k, j)).p && Pte(s, Va(k, j)).rw
      && Target(s, {}, Pg(b, k, j)) == Some(Pte(s, Va(k, j)).frame);
    var o, o' := Pg(s.cur, k, j), Pg(b, k, j);
    assert SlotWord(s', o) == SlotWord(s, o) && SlotWord(s', o') == SlotWord(s, o');
    assert Target(s', {}, o) == Target(s', {}, o') && Writable(s', o);
  }

  lemma MapSharedKeeps(s: State, s': State, R': Roles, k: UserSlot, i: Slot)
    requires MappedShared(s, s', k, i) && Inv(s', R', {}, PagesOf(s.cur, k))
    requires Pde(s, k).p && !Leaks(s, k)
    ensures PrivateOk(s', {}, {})
  {
    forall o: Owner, o': Owner | o.a in s.spaces && o'.a in s.spaces && o != o'
      && Target(s', {}, o).Some? && Target(s', {}, o) == Target(s', {}, o')
      ensures !Writable(s', o)
    {
      if o in PagesOf(s.cur, k) {
        assert RoleOf(o) == RoleOf(o');
        assert o' == Pg(o'.a, k, o.i) && o'.a != s.cur && o != Pg(s.cur, k, i);
        assert SlotWord(s', o) == SlotWord(s, o) && SlotWord(s', o') == SlotWord(s, o');
        assert Target(s, {}, o') == Some(Pte(s, Va(k, o.i)).frame);
      }
    }
  }

  /** map_page of a frame nobody uses yet, at a page that is not present: exactly that page
      appears in the running space, and every reference is counted. */
  lemma MapPageAny(s: State, R: Roles, f: FrameNo, k: UserSlot, i: Slot, rw: bool, user: bool) returns (R': Roles)
    requires Inv(s, R, {}, {}) && MapPage(s, f, Va(k, i), rw, user).Some? && Absent(s, k, i)
    requires R[f] == Spare && Excess(s, R, {}, f) >= 1 && s.refs[f] > 0
    ensures var s' := MapPage(s, f, Va(k, i), rw, user).value;
      && Inv(s', R', {}, Exempt(s, k)) && Mapped(s, s', Pg(s.cur, k, i))
      && (Exempt(s, k) != {} ==> MappedShared(s, s', k, i)) && MapPerms(s, s', k, i, rw, user, user)
      && SpaceLaw(s, R, s', R')
      && forall g: FrameNo :: Excess(s', R', {}, g) == Excess(s, R, {}, g) - if g == f then 1 else 0
  {
    assert MarksOk(s, s.cur);
    if !Pde(s, k).p {
      R' := MapPageNewTable(s, R, f, k, i, rw, user);
    } else if Pde(s, k).bit9 {
      R' := MapPageShared(s, R, f, k, i, rw, user);
    } else {
      SetPageInv(s, R, {}, k, i, f, rw, user);
      R' := R[f := Leaf(k, i)];
      SetPagePerms(s, s, SetPte(s, Va(k, i), Entry(f, rw, user)), k, i, f, rw, user);
    }
  }

  lemma MapPageNewTable(s: State, R: Roles, f: FrameNo, k: UserSlot, i: Slot, rw: bool, user: bool) returns (R': Roles)
    requires Inv(s, R, {}, {}) && MapPage(s, f, Va(k, i), rw, user).Some? && !Pde(s, k).p
    requires R[f] == Spare && Excess(s, R, {}, f) >= 1 && s.refs[f] > 0
    ensures var s' := MapPage(s, f, Va(k, i), rw, user).value;
      && Inv(s', R', {}, {}) && Mapped(s, s', Pg(s.cur, k, i)) && MapPerms(s, s', k, i, rw, user, user)
      && SpaceLaw(s, R, s', R')
      && forall g: FrameNo :: Excess(s', R', {}, g) == Excess(s, R, {}, g) - if g == f then 1 else 0
  {
    AddUserTableInv(s, R, k, user);
    var s2 := AddPageTable(s, k, user).value;
    var R2 := R[Pde(s2, k).frame := UTab(k)];
    SetPageInv(s2, R2, {}, k, i, f, rw, user);
    R' := R2[f := Leaf(k, i)];
    var s' := SetPte(s2, Va(k, i), Entry(f, rw, user));
    SetPagePerms(s, s2, s', k, i, f, rw, user);
    LawTrans(s, R, s2, R2, s', R');
    forall o: Owner | o.a in s.spaces && o.Pg? && o != Pg(s.cur, k, i) ensures Look(s', {}, o) == Look(s, {}, o) {
      assert Look(s', {}, o) == Look(s2, {}, o);
    }
  }

  lemma MapPageShared(s: State, R: Roles, f: FrameNo, k: UserSlot, i: Slot, rw: bool, user: bool) returns (R': Roles)
    requires Inv(s, R, {}, {}) && MapPage(s, f, Va(k, i), rw, user).Some?
    requires R[f] == Spare && Excess(s, R, {}, f) >= 1 && s.refs[f] > 0
    requires Pde(s, k).p && Pde(s, k).bit9 && !Pte(s, Va(k, i)).p
    ensures var s' := MapPage(s, f, Va(k, i), rw, user).value;
      && Inv(s', R', {}, PagesOf(s.cur, k)) && Mapped(s, s', Pg(s.cur, k, i)) && MappedShared(s, s', k, i)
      && MapPerms(s, s', k, i, rw, user, user) && SpaceLaw(s, R, s', R')
      && forall g: FrameNo :: Excess(s', R', {}, g) == Excess(s, R, {}, g) - if g == f then 1 else 0
  {
    hide PrivateOk, RolesOk, Owners, Excess, PermKept, SpaceLaw;
    var ex := PagesOf(s.cur, k);
    var R2 := CopyTableInv(s, R, {}, {}, k);
    assert {} + ex == ex;
    var s2 := CopyPageTable(s, k).value;
    assert SlotWord(s2, Pg(s.cur, k, i)) == SlotWord(s, Pg(s.cur, k, i));
    assert Excess(s2, R2, {}, f) == Excess(s, R, {}, f);
    CopiedPerms(s, R, s2, R2, k);
    hide Inv;
    SetPageInv(s2, R2, ex, k, i, f, rw, user);
    MapSharedTail(s2, R2, ex, k, i, f, rw, user);
    SetPagePerms(s, s2, SetPte(s2, Va(k, i), Entry(f, rw, user)), k, i, f, rw, user);
    R' := R2[f := Leaf(k, i)];
    LawTrans(s, R, s2, R2, SetPte(s2, Va(k, i), Entry(f, rw, user)), R');
  }

  lemma AllocPerms(s: State, s1: State, s': State, k: UserSlot, i: Slot, rw: bool, user: bool, tableUser: bool)
    requires s1 == s.(refs := s1.refs) && MapPerms(s1, s', k, i, rw, user, tableUser)
    ensures MapPerms(s, s', k, i, rw, user, tableUser)
  {
    forall o: Owner | o.a in s.spaces && o != Pg(s.cur, k, i) && o != Tab(s.cur, k) ensures PermKept(s, o, s', o) {
      assert PermKept(s1, o, s', o);
      assert SlotWord(s1, o) == SlotWord(s, o);
    }
  }

  lemma AllocMapped(s: State, s1: State, s': State, k: UserSlot, i: Slot)
    requires s1 == s.(refs := s1.refs)
    ensures Exempt(s1, k) == Exempt(s, k)
    ensures Mapped(s1, s', Pg(s.cur, k, i)) ==> Mapped(s, s', Pg(s.cur, k, i))
    ensures MappedShared(s1, s', k, i) ==> MappedShared(s, s', k, i)
  {
    assert forall o: Owner :: Look(s1, {}, o) == Look(s, {}, o) && SlotWord(s1, o) == SlotWord(s, o);
  }

  lemma MapFreshAny(s: State, R: Roles, k: UserSlot, i: Slot, rw: bool, user: bool) returns (R': Roles)
    requires Inv(s, R, {}, {}) && MapFresh(s, Va(k, i), rw, user).Some? && Absent(s, k, i)
    ensures var s' := MapFresh(s, Va(k, i), rw, user).value;
      && Inv(s', R', {}, Exempt(s, k)) && Mapped(s, s', Pg(s.cur, k, i)) && SameExcess(s, R, s', R', {})
      && (Exempt(s, k) != {} ==> MappedShared(s, s', k, i)) && MapPerms(s, s', k, i, rw, user, user)
      && SpaceLaw(s, R, s', R')
  {
    var (s1, f) := AllocPageFrame(s).value;
    assert DirOk(s, R, s.cur) && Excess(s, R, {}, f) >= 0;
    hide Inv, DirOk, Excess, SpaceLaw, MapPerms, MapPage, Mapped, MappedShared, Exempt;
    AllocInv(s, R, {}, {});
    AllocKept(s, R, f);
    R' := MapPageAny(s1, R[f := Spare], f, k, i, rw, user);
    AllocMapped(s, s1, MapFresh(s, Va(k, i), rw, user).value, k, i);
    AllocPerms(s, s1, MapFresh(s, Va(k, i), rw, user).value, k, i, rw, user, user);
    LawTrans(s, R, s1, R[f := Spare], MapFresh(s, Va(k, i), rw, user).value, R');
  }

  /** A page can be mapped without breaking isolation if and only if its table is safe:
      map_page copies a shared table without marking its pages, so afterwards the running
      process can write a page of another process exactly when the table held a writable
      page that the other process maps too. */
  lemma MapIsolatesIff(s: State, R: Roles, k: UserSlot, i: Slot, rw: bool, user: bool)
    requires Inv(s, R, {}, {}) && MapFresh(s, Va(k, i), rw, user).Some? && Absent(s, k, i)
    ensures PrivateOk(MapFresh(s, Va(k, i), rw, user).value, {}, {}) <==> Safe(s, k)
  {
    var s' := MapFresh(s, Va(k, i), rw, user).value;
    var R' := MapFreshAny(s, R, k, i, rw, user);
    if Exempt(s, k) != {} {
      if Leaks(s, k) {
        MapSharedLeaks(s, s', k, i);
      } else {
        MapSharedKeeps(s, s', R', k, i);
      }
    } else {
      assert Pg(s.cur, k, i) in PagesOf(s.cur, k);
    }
  }

  lemma MapFreshInv(s: State, R: Roles, k: UserSlot, i: Slot, rw: bool, user: bool) returns (R': Roles)
    requires Inv(s, R, {}, {}) && MapFresh(s, Va(k, i), rw, user).Some? && Absent(s, k, i) && Safe(s, k)
    ensures var s' := MapFresh(s, Va(k, i), rw, user).value;
      && Inv(s', R', {}, {}) && Mapped(s, s', Pg(s.cur, k, i)) && SameExcess(s, R, s', R', {})
      && MapPerms(s, s', k, i, rw, user, user) && SpaceLaw(s, R, s', R')
  {
    R' := MapFreshAny(s, R, k, i, rw, user);
    MapIsolatesIff(s, R, k, i, rw, user);
  }

  /** pf_non_present: a heap address gets a fresh page, at the first free page from the
      faulting one on. */
  function PfNonPresent(s: State, k: UserSlot, i: Slot, address: nat, codeEnd: nat, brk: nat): Option<State> {
    if codeEnd < address <= brk then
      var (s1, f) :- AllocPageFrame(s);
      var (s2, va) :- GetFreeAddress(s1, Va(k, i));
      MapPage(s2, f, va, true, true)
    else
      None
  }

  lemma FaultInHeap(s: State, k: UserSlot, i: Slot, address: nat, codeEnd: nat, brk: nat)
    requires PfNonPresent(s, k, i, address, codeEnd, brk).Some?
    ensures codeEnd < address <= brk
  {
  }

  /** The page that pf_non_present maps: the faulting one, unless it had to install the page
      table, in which case it is the first page of that table. */
  function FaultSlot(s: State, k: UserSlot, i: Slot): Slot {
    if Pde(s, k).p then i else 0
  }

  lemma FaultIsMap(s: State, R: Roles, k: UserSlot, i: Slot, address: nat, codeEnd: nat, brk: nat)
    requires Inv(s, R, {}, {}) && PfNonPresent(s, k, i, address, codeEnd, brk).Some? && Pde(s, k).p && Absent(s, k, i)
    ensures PfNonPresent(s, k, i, address, codeEnd, brk) == MapFresh(s, Va(k, i), true, true)
  {
    var (s1, f) := AllocPageFrame(s).value;
    assert GetFreeAddress(s1, Va(k, i)) == Some((s1, Va(k, i)));
  }

  /** Without a page table, get_free_address first installs one, and the page goes to its
      first entry. */
  lemma FaultNewTable(s: State, R: Roles, k: UserSlot, i: Slot, address: nat, codeEnd: nat, brk: nat)
    returns (R': Roles)
    requires Inv(s, R, {}, {}) && PfNonPresent(s, k, i, address, codeEnd, brk).Some? && !Pde(s, k).p
    ensures var s' := PfNonPresent(s, k, i, address, codeEnd, brk).value;
      && Inv(s', R', {}, {}) && Mapped(s, s', Pg(s.cur, k, 0)) && SameExcess(s, R, s', R', {})
      && MapPerms(s, s', k, 0, true, true, false) && SpaceLaw(s, R, s', R')
  {
    hide SpaceLaw;
    AllocInv(s, R, {}, {});
    var (s1, f) := AllocPageFrame(s).value;
    var R1 := R[f := Spare];
    assert Excess(s, R, {}, f) >= 0;
    assert forall o: Owner :: Look(s1, {}, o) == Look(s, {}, o);
    var s2 := AddPageTable(s1, k, false).value;
    assert GetFreeAddress(s1, Va(k, i)) == Some((s2, Va(k, 0)));
    AddUserTableInv(s1, R1, k, false);
    R' := MapPageAny(s2, R1[Pde(s2, k).frame := UTab(k)], f, k, 0, true, true);
    var s' := MapPage(s2, f, Va(k, 0), true, true).value;
    NewTablePerms(s1, s2, s', k);
    AllocPerms(s, s1, s', k, 0, true, true, false);
    AllocKept(s, R, f);
    LawTrans(s, R, s1, R1, s2, R1[Pde(s2, k).frame := UTab(k)]);
    LawTrans(s, R, s2, R1[Pde(s2, k).frame := UTab(k)], s', R');
    forall o: Owner | o.a in s.spaces && o.Pg? && o != Pg(s.cur, k, 0) ensures Look(s', {}, o) == Look(s, {}, o) {
      assert Look(s', {}, o) == Look(s2, {}, o) == Look(s1, {}, o);
    }
  }

  lemma NewTablePerms(s: State, s1: State, s': State, k: UserSlot)
    requires s1.spaces == s.spaces && s1.cur == s.cur && !Pde(s, k).p
    requires Pde(s1, k).p && !Pde(s1, k).user && !Pde(s1, k).bit9
    requires forall o: Owner :: o.a in s.spaces && o != Tab(s.cur, k) ==> PermKept(s, o, s1, o)
    requires MapPerms(s1, s', k, 0, true, true, true)
    ensures MapPerms(s, s', k, 0, true, true, false)
  {
    forall o: Owner | o.a in s.spaces && o != Pg(s.cur, k, 0) && o != Tab(s.cur, k) ensures PermKept(s, o, s', o) {
      assert PermKept(s, o, s1, o) && PermKept(s1, o, s', o);
    }
  }

  lemma PfNonPresentInv(s: State, R: Roles, k: UserSlot, i: Slot, address: nat, codeEnd: nat, brk: nat)
    returns (R': Roles)
    requires Inv(s, R, {}, {}) && PfNonPresent(s, k, i, address, codeEnd, brk).Some?
    requires Absent(s, k, i) && Safe(s, k)
    ensures var s' := PfNonPresent(s, k, i, address, codeEnd, brk).value;
      && Inv(s', R', {}, {}) && Mapped(s, s', Pg(s.cur, k, FaultSlot(s, k, i)))
      && SameExcess(s, R, s', R', {}) && MapPerms(s, s', k, FaultSlot(s, k, i), true, true, false)
      && SpaceLaw(s, R, s', R')
  {
    if Pde(s, k).p {
      FaultIsMap(s, R, k, i, address, codeEnd, brk);
      R' := MapFreshInv(s, R, k, i, true, true);
    } else {
      R' := FaultNewTable(s, R, k, i, address, codeEnd, brk);
    }
  }

  /** The page is mapped by one call if and only if its page table was there or it is the first
      of its table. */
  lemma PfNonPresentMaps(s: State, R: Roles, k: UserSlot, i: Slot, address: nat, codeEnd: nat, brk: nat)
    requires Inv(s, R, {}, {}) && PfNonPresent(s, k, i, address, codeEnd, brk).Some? && Absent(s, k, i)
    ensures var s' := PfNonPresent(s, k, i, address, codeEnd, brk).value;
      Look(s', {}, Pg(s.cur, k, i)).Some? <==> Pde(s, k).p || i == 0
  {
    if Pde(s, k).p {
      FaultIsMap(s, R, k, i, address, codeEnd, brk);
      var R' := MapFreshAny(s, R, k, i, true, true);
    } else {
      var R' := FaultNewTable(s, R, k, i, address, codeEnd, brk);
      assert Look(s, {}, Pg(s.cur, k, i)) == None;
    }
  }

  /** But get_free_address installs its page tables for the kernel alone. So the process can
      use the page after the fault if and only if its page table was there and was open to the
      user, or had to be copied, which opens it. */
  lemma PfNonPresentRepairs(s: State, R: Roles, k: UserSlot, i: Slot, address: nat, codeEnd: nat, brk: nat)
    requires Inv(s, R, {}, {}) && PfNonPresent(s, k, i, address, codeEnd, brk).Some? && Absent(s, k, i)
    ensures var s' := PfNonPresent(s, k, i, address, codeEnd, brk).value;
      && (UserMayUse(s', k, i) <==> Pde(s, k).p && (Pde(s, k).user || Pde(s, k).bit9))
      && (UserMayWrite(s', k, i) <==> UserMayUse(s', k, i))
  {
    assert MarksOk(s, s.cur);
    if Pde(s, k).p {
      FaultIsMap(s, R, k, i, address, codeEnd, brk);
      var R' := MapFreshAny(s, R, k, i, true, true);
      WritableTable(PfNonPresent(s, k, i, address, codeEnd, brk).value, R', Exempt(s, k), k);
    } else {
      var R' := FaultNewTable(s, R, k, i, address, codeEnd, brk);
    }
  }

  /** A table without the mark for copying is writable. */
  lemma WritableTable(s: State, R: Roles, ex: set<Owner>, k: UserSlot)
    requires Inv(s, R, {}, ex) && Pde(s, k).p && !Pde(s, k).bit10
    ensures Pde(s, k).rw && !Pde(s, k).bit9
  {
    assert MarksOk(s, s.cur);
  }

  /** A heap access where there is no page table therefore ends in a panic: when the page is
      the first of its table, the retry is a read-only violation without a mark; otherwise the
      retry is a second fault of the same kind, and the violation comes after that one. */
  lemma FaultWithoutTablePanics(s: State, R: Roles, k: UserSlot, i: Slot, address: nat, codeEnd: nat, brk: nat)
    requires Inv(s, R, {}, {}) && PfNonPresent(s, k, i, address, codeEnd, brk).Some? && !Pde(s, k).p
    ensures var s1 := PfNonPresent(s, k, i, address, codeEnd, brk).value;
      if i == 0 then !UserMayUse(s1, k, i) && PfRoViolation(s1, k, i, address, codeEnd) == None
      else
        && Absent(s1, k, i)
        && var s2 := PfNonPresent(s1, k, i, address, codeEnd, brk);
           s2.Some? ==> !UserMayUse(s2.value, k, i) && PfRoViolation(s2.value, k, i, address, codeEnd) == None
  {
    var R1 := FaultNewTable(s, R, k, i, address, codeEnd, brk);
    var s1 := PfNonPresent(s, k, i, address, codeEnd, brk).value;
    WritableTable(s1, R1, {}, k);
    if i != 0 {
      assert Look(s, {}, Pg(s.cur, k, i)) == None;
      assert Look(s1, {}, Pg(s.cur, k, i)) == None;
      if PfNonPresent(s1, k, i, address, codeEnd, brk).Some? {
        FaultIsMap(s1, R1, k, i, address, codeEnd, brk);
        var R2 := MapFreshAny(s1, R1, k, i, true, true);
      }
    }
  }
}
