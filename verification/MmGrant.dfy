/** Which user writes the kernel grants: the marks left by copy-on-write decide, and memory. */
module MmGrant {
  import opened Wrappers
  import opened PageWords
  import opened Mm
  import opened MmInvariant
  import opened MmSplit
  import opened MmFork
  import opened MmRelease
  import opened MmMap
  import opened MmSteps
  import opened MmAddress
  import opened Counting

  /** A kernel page for frame f, or a frame after it, cannot be had. */
  predicate Starves(s: State, f: FrameNo, user: bool) {
    EnterKernelPage(s, f, user).None? || AllocPageFrame(EnterKernelPage(s, f, user).value.0).None?
  }

  /** One of the two splits of the fault handler runs out of memory. */
  predicate NoMemory(s: State, k: UserSlot, i: Slot) {
    if Pde(s, k).bit10 then
      || Starves(s, Pde(s, k).frame, true)
      || (SplitTable(s, k).Some? && Starves(SplitTable(s, k).value, Pte(SplitTable(s, k).value, Va(k, i)).frame, false))
    else
      Starves(s, Pte(s, Va(k, i)).frame, false)
  }

  /** Page i of table k is to be copied when it is written: its table is shared, or the page is
      marked in a table that is open to the user. */
  predicate MarkedForCopy(s: State, k: UserSlot, i: Slot) {
    Pde(s, k).bit10 || (Pte(s, Va(k, i)).bit9 && Pde(s, k).user)
  }

  lemma SplitPageSome(s: State, R: Roles, k: UserSlot, i: Slot)
    requires Inv(s, R, {}, {}) && PrivatePage(s, k, i)
    ensures SplitPage(s, Va(k, i)).Some? <==> !Starves(s, Pte(s, Va(k, i)).frame, false)
  {
    var f := Pte(s, Va(k, i)).frame;
    if !Starves(s, f, false) {
      TableRole(s, R, {}, {}, s.cur, k);
      TableCounted(s, R, {}, {}, s.cur, k);
      PageCounted(s, R, {}, {}, Pg(s.cur, k, i));
      var R2 := PrepareInv(s, R, {}, {}, f, false);
      var (s1, tmp) := EnterKernelPage(s, f, false).value;
      var (s2, n) := AllocPageFrame(s1).value;
      SplitPageStores(s2, R2, k, i, tmp, n);
    }
  }

  lemma SplitTableSome(s: State, k: UserSlot)
    ensures SplitTable(s, k).Some? <==> !Starves(s, Pde(s, k).frame, true)
  {
  }

  /** The write of a present page is granted if and only if the entries allow it, or the page
      is to be copied, lies behind the code segment, and memory suffices. */
  lemma WriteGrantedIff(s: State, R: Roles, k: UserSlot, i: Slot, off: Slot, w: Word, codeEnd: nat)
    requires Inv(s, R, {}, {}) && Pde(s, k).p && Pte(s, Va(k, i)).p
    ensures UserWrite(s, k, i, off, w, codeEnd).Some?
       <==> || UserMayWrite(s, k, i)
            || (MarkedForCopy(s, k, i) && AddressOf(k, i, off) > codeEnd && !NoMemory(s, k, i))
  {
    var address := AddressOf(k, i, off);
    assert MarksOk(s, s.cur);
    SplitTableSome(s, k);
    hide Inv, SplitTable, SplitPage, Starves;
    if address > codeEnd && (Pde(s, k).bit10 || Pte(s, Va(k, i)).bit9) {
      HandlerSome(s, R, k, i, address, codeEnd);
      if PfRoViolation(s, k, i, address, codeEnd).Some? {
        var R' := PfRoViolationInv(s, R, k, i, address, codeEnd);
      }
    }
  }

  /** The same decides a read that the entries do not allow. */
  lemma ReadGrantedIff(s: State, R: Roles, k: UserSlot, i: Slot, off: Slot, codeEnd: nat)
    requires Inv(s, R, {}, {}) && Pde(s, k).p && Pte(s, Va(k, i)).p
    ensures UserRead(s, k, i, off, codeEnd).Some?
       <==> || UserMayUse(s, k, i)
            || (MarkedForCopy(s, k, i) && AddressOf(k, i, off) > codeEnd && !NoMemory(s, k, i))
  {
    var address := AddressOf(k, i, off);
    assert MarksOk(s, s.cur);
    hide Inv, SplitTable, SplitPage, Starves;
    if address > codeEnd && (Pde(s, k).bit10 || Pte(s, Va(k, i)).bit9) {
      HandlerSome(s, R, k, i, address, codeEnd);
      if PfRoViolation(s, k, i, address, codeEnd).Some? {
        var R' := PfRoViolationInv(s, R, k, i, address, codeEnd);
      }
    }
  }

  lemma HandlerSome(s: State, R: Roles, k: UserSlot, i: Slot, address: nat, codeEnd: nat)
    requires Inv(s, R, {}, {}) && Pde(s, k).p && Pte(s, Va(k, i)).p
    requires address > codeEnd && (Pde(s, k).bit10 || Pte(s, Va(k, i)).bit9)
    ensures PfRoViolation(s, k, i, address, codeEnd).Some? <==> !NoMemory(s, k, i)
  {
    assert MarksOk(s, s.cur);
    SplitTableSome(s, k);
    hide Inv, SplitTable, SplitPage, Starves;
    if !Pde(s, k).bit10 {
      SplitPageSome(s, R, k, i);
    } else if SplitTable(s, k).Some? {
      var R1 := SplitTableInv(s, R, k);
      var s1 := SplitTable(s, k).value;
      LookPresent(s, s1, k, i);
      SplitPageSome(s1, R1, k, i);
    }
  }

  // ----- how much memory is enough

  ghost function FreeFrames(s: State): nat {
    |set f: FrameNo | s.refs[f] == 0|
  }

  /** Some page of the kernel window below the self-map is not present. */
  ghost predicate WindowFree(s: State) {
    exists q: Va :: KERNEL <= q.d < SELF && !Present(s, q)
  }

  lemma AllocCost(s: State)
    requires FreeFrames(s) > 0
    ensures AllocPageFrame(s).Some? && FreeFrames(AllocPageFrame(s).value.0) == FreeFrames(s) - 1
  {
    var A := set f: FrameNo | s.refs[f] == 0;
    var g :| g in A;
    assert s.refs[g] == 0;
    var (s', f) := AllocPageFrame(s).value;
    var B := set f: FrameNo | s'.refs[f] == 0;
    assert B == A - {f};
  }

  lemma FreeCost(s: State, f: FrameNo)
    ensures FreeFrames(FreePageFrame(s, f)) >= FreeFrames(s)
  {
    var s' := FreePageFrame(s, f);
    SubsetSize(set f: FrameNo | s.refs[f] == 0, set f: FrameNo | s'.refs[f] == 0);
  }

  lemma SameCounts(s: State, s': State)
    requires s'.refs == s.refs
    ensures FreeFrames(s') == FreeFrames(s)
  {
  }

  /** With a frame to spare, a frame can be mapped in the kernel window if and only if the
      window has a page left, and it costs at most that frame. */
  lemma EnterKernelPageIff(s: State, f: FrameNo, user: bool)
    requires FreeFrames(s) > 0
    ensures EnterKernelPage(s, f, user).Some? <==> WindowFree(s)
    ensures EnterKernelPage(s, f, user).Some? ==> FreeFrames(EnterKernelPage(s, f, user).value.0) >= FreeFrames(s) - 1
  {
    AllocCost(s);
    if WindowFree(s) {
      var q: Va :| KERNEL <= q.d < SELF && !Present(s, q);
      GetFreeAddressLowest(s, KERNEL, q);
    }
    if EnterKernelPage(s, f, user).Some? {
      SearchFound(s, KERNEL, 0, 1023);
      var (s1, va) := GetFreeAddress(s, Va(KERNEL, 0)).value;
      assert !Present(s, va);
      SameCounts(s1, EnterKernelPage(s, f, user).value.0);
      if !Pde(s, va.d).p {
        SameCounts(AllocPageFrame(s).value.0, s1);
      }
    }
  }

  lemma TwoFramesDo(s: State, f: FrameNo, user: bool)
    requires WindowFree(s) && FreeFrames(s) >= 2
    ensures !Starves(s, f, user)
    ensures var s1 := EnterKernelPage(s, f, user).value.0;
      FreeFrames(AllocPageFrame(s1).value.0) >= FreeFrames(s) - 2
  {
    EnterKernelPageIff(s, f, user);
    AllocCost(EnterKernelPage(s, f, user).value.0);
  }

  lemma SplitTableCost(s: State, R: Roles, k: UserSlot)
    requires Inv(s, R, {}, {}) && Pde(s, k).p && WindowFree(s) && FreeFrames(s) >= 2
    ensures SplitTable(s, k).Some?
    ensures var s' := SplitTable(s, k).value; WindowFree(s') && FreeFrames(s') >= FreeFrames(s) - 2
  {
    var t := Pde(s, k).frame;
    hide Inv, Starves, FreeFrames, WindowFree, EnterKernelPage, CopyPageTable;
    TwoFramesDo(s, t, true);
    SplitTableSome(s, k);
    CopyTableCost(s, k);
    SameCounts(CopyPageTable(s, k).value, SplitTable(s, k).value);
    TempStaysFree(s, R, k);
  }

  /** The temporary page of copy_page_table is absent afterwards, and its table is neither the
      new user table nor the directory. */
  lemma TempGone(s: State, R: Roles, hole: set<Owner>, ex: set<Owner>, k: UserSlot, tmp: Va)
    requires Inv(s, R, hole, ex) && Pde(s, k).p && CopyPageTable(s, k).Some? && KERNEL <= tmp.d < SELF
    requires EnterKernelPage(s, Pde(s, k).frame, true).Some? && EnterKernelPage(s, Pde(s, k).frame, true).value.1 == tmp
    ensures var s1 := CopyPageTable(s, k).value;
      && !Pte(s1, tmp).p && Pde(s1, k).frame != s1.cur
      && (Pde(s1, tmp.d).p ==> Pde(s1, tmp.d).frame != Pde(s1, k).frame && Pde(s1, tmp.d).frame != s1.cur)
  {
    hide EnterKernelPage, CopyPageTable, PrivateOk, RolesOk, MarksOk, Owners, Excess, Look, SpaceLaw;
    var R' := CopyTableInv(s, R, hole, ex, k);
    var s1 := CopyPageTable(s, k).value;
    assert DirOk(s1, R', s.cur);
    assert R'[Pde(s1, k).frame] == UTab(k) && R'[s.cur] == Dir;
  }

  lemma TempStaysFree(s: State, R: Roles, k: UserSlot)
    requires Inv(s, R, {}, {}) && Pde(s, k).p && SplitTable(s, k).Some?
    requires EnterKernelPage(s, Pde(s, k).frame, true).Some?
    requires KERNEL <= EnterKernelPage(s, Pde(s, k).frame, true).value.1.d < SELF
    ensures WindowFree(SplitTable(s, k).value)
  {
    hide EnterKernelPage, CopyPageTable, Inv;
    var tmp := EnterKernelPage(s, Pde(s, k).frame, true).value.1;
    TempGone(s, R, {}, {}, k, tmp);
    var s1 := CopyPageTable(s, k).value;
    SplitKeeps(s1, Pde(s1, k).frame, k, tmp);
    var t := Pde(s1, k).frame;
    var s2 := s1.(mem := s1.mem[t := EnableCoW(s1.mem[t])]);
    assert SplitTable(s, k) == Some(Store(s2, s2.cur, k, Pde(s2, k).(rw := true, bit10 := false)));
    assert !Present(s1, tmp);
  }

  /** Marking a user table and its directory entry changes no entry of a kernel table. */
  lemma SplitKeeps(s1: State, t: FrameNo, k: UserSlot, tmp: Va)
    requires tmp.d >= KERNEL && t != s1.cur
    requires Pde(s1, tmp.d).p ==> Pde(s1, tmp.d).frame != t && Pde(s1, tmp.d).frame != s1.cur
    ensures var s2 := s1.(mem := s1.mem[t := EnableCoW(s1.mem[t])]);
      var s' := Store(s2, s2.cur, k, Pde(s2, k).(rw := true, bit10 := false));
      Present(s', tmp) <==> Present(s1, tmp)
  {
  }

  lemma CopyTableCost(s: State, k: UserSlot)
    requires WindowFree(s) && FreeFrames(s) >= 2 && CopyPageTable(s, k).Some?
    ensures FreeFrames(CopyPageTable(s, k).value) >= FreeFrames(s) - 2
    ensures EnterKernelPage(s, Pde(s, k).frame, true).Some?
    ensures KERNEL <= EnterKernelPage(s, Pde(s, k).frame, true).value.1.d < SELF
  {
    TwoFramesDo(s, Pde(s, k).frame, true);
    var (s1, tmp) := EnterKernelPage(s, Pde(s, k).frame, true).value;
    var (s2, n) := AllocPageFrame(s1).value;
    var s3 := SetPte(s2, Va(SELF, k), Entry(n, true, true));
    var s4 := s3.(mem := s3.mem[Pde(s3, k).frame := s3.mem[Pte(s3, tmp).frame]]);
    SameCounts(s2, s4);
    FreeCost(s4, Pte(s4, tmp).frame);
    SameCounts(FreePageFrame(s4, Pte(s4, tmp).frame), DropPage(s4, tmp));
  }

  /** Four free frames and one free kernel page are enough for every write that the marks
      allow. */
  lemma FourFramesDo(s: State, R: Roles, k: UserSlot, i: Slot, off: Slot, w: Word, codeEnd: nat)
    requires Inv(s, R, {}, {}) && Pde(s, k).p && Pte(s, Va(k, i)).p
    requires UserMayWrite(s, k, i) || MarkedForCopy(s, k, i)
    requires AddressOf(k, i, off) > codeEnd && FreeFrames(s) >= 4 && WindowFree(s)
    ensures UserWrite(s, k, i, off, w, codeEnd).Some?
  {
    WriteGrantedIff(s, R, k, i, off, w, codeEnd);
    hide Inv, UserWrite, Starves, SplitTable, FreeFrames, WindowFree;
    if Pde(s, k).bit10 {
      TwoFramesDo(s, Pde(s, k).frame, true);
      SplitTableCost(s, R, k);
      var s1 := SplitTable(s, k).value;
      TwoFramesDo(s1, Pte(s1, Va(k, i)).frame, false);
    } else {
      TwoFramesDo(s, Pte(s, Va(k, i)).frame, false);
    }
  }

  // ----- memory for a mapping, a fault and a fork

  /** The frame for a page, or what its table needs, cannot be had: a new table is one frame, a
      shared one has to be copied. */
  predicate MapStarves(s: State, k: UserSlot) {
    AllocPageFrame(s).None? ||
    var s1 := AllocPageFrame(s).value.0;
    if !Pde(s1, k).p then AllocPageFrame(s1).None? else Pde(s1, k).bit9 && Starves(s1, Pde(s1, k).frame, true)
  }

  /** A fresh page is mapped if and only if memory suffices. */
  lemma MapGrantedIff(s: State, R: Roles, k: UserSlot, i: Slot, rw: bool, user: bool)
    requires Inv(s, R, {}, {})
    ensures MapFresh(s, Va(k, i), rw, user).Some? <==> !MapStarves(s, k)
  {
    if AllocPageFrame(s).Some? {
      AllocInv(s, R, {}, {});
      var (s1, f) := AllocPageFrame(s).value;
      CopySome(s1, k);
      if !Pde(s1, k).p && AllocPageFrame(s1).Some? {
        assert DirOk(s1, R[f := Spare], s.cur);
        AllocInv(s1, R[f := Spare], {}, {});
      }
    }
  }

  /** A fault on an absent page is granted if and only if the address lies in the heap, behind the
      code and not above the break, and memory suffices. */
  lemma FaultGrantedIff(s: State, R: Roles, k: UserSlot, i: Slot, address: nat, codeEnd: nat, brk: nat)
    requires Inv(s, R, {}, {}) && Absent(s, k, i)
    ensures PfNonPresent(s, k, i, address, codeEnd, brk).Some?
       <==> codeEnd < address <= brk && !MapStarves(s, k)
  {
    MapGrantedIff(s, R, k, i, true, true);
    if codeEnd < address <= brk && AllocPageFrame(s).Some? {
      var (s1, f) := AllocPageFrame(s).value;
      if Pde(s, k).p {
        assert GetFreeAddress(s1, Va(k, i)) == Some((s1, Va(k, i)));
      } else if AllocPageFrame(s1).Some? {
        AllocInv(s, R, {}, {});
        AddUserTableInv(s1, R[f := Spare], k, false);
        assert GetFreeAddress(s1, Va(k, i)) == Some((AddPageTable(s1, k, false).value, Va(k, 0)));
      }
    }
  }

  /** Three free frames and a free kernel page are enough for either. */
  lemma ThreeFramesDo(s: State, k: UserSlot)
    requires FreeFrames(s) >= 3 && WindowFree(s)
    ensures !MapStarves(s, k)
  {
    AllocCost(s);
    var s1 := AllocPageFrame(s).value.0;
    AllocCost(s1);
    var q: Va :| KERNEL <= q.d < SELF && !Present(s, q);
    assert !Present(s1, q);
    TwoFramesDo(s1, Pde(s1, k).frame, true);
  }

  /** A fork needs its directory and a kernel page for it: two free frames do. */
  lemma ForkGranted(s: State)
    requires FreeFrames(s) >= 2 && WindowFree(s)
    ensures ForkMem(s).Some?
  {
    AllocCost(s);
    var (s1, d) := AllocPageFrame(s).value;
    var q: Va :| KERNEL <= q.d < SELF && !Present(s, q);
    assert !Present(s1, q);
    EnterKernelPageIff(s1, d, false);
  }

  /** Reaping fails for the running directory only. */
  lemma ReapGrantedIff(s: State, R: Roles, va: Va)
    requires Inv(s, R, {}, {}) && KERNEL <= va.d < SELF && Present(s, va)
    ensures Reap(s, va).Some? <==> Pte(s, va).frame != s.cur
  {
    assert DirOk(s, R, s.cur);
    DropPageExact(s, R, {}, {}, va);
  }

  /** The parts of an address that the processor takes for the page, and for the byte in it. */
  lemma AddressParts(k: UserSlot, i: Slot, byte: InPage)
    ensures AddressIn(k, i, byte) < KERNEL_MEMORY
    ensures var a: Uint32 := AddressIn(k, i, byte);
      DirIndex(a) == k && PageTableIndex(a) == i && a % PAGE_SIZE == byte
    ensures AddressOf(k, i, byte / 4) == AddressIn(k, i, byte) - byte % 4
  {
    var n := k * 1024 + i;
    assert AddressIn(k, i, byte) / PAGE_SIZE == n && n % 1024 == i && n / 1024 == k;
    assert AddressIn(k, i, byte) / 0x40_0000 == AddressIn(k, i, byte) / PAGE_SIZE / 1024;
  }

  // ----- memory for a release

  ghost function SharedTables(s: State): set<UserSlot> {
    set k: UserSlot | Pde(s, k).p && Pde(s, k).bit9
  }

  /** Two free frames for each shared table, and a free kernel page. */
  ghost predicate ReleaseReady(s: State) {
    WindowFree(s) && FreeFrames(s) >= 2 * |SharedTables(s)|
  }

  lemma CopySome(s: State, k: UserSlot)
    ensures CopyPageTable(s, k).Some? <==> !Starves(s, Pde(s, k).frame, true)
  {
  }

  lemma UnshareReady(s: State, R: Roles, hole: set<Owner>, ex: set<Owner>, k: UserSlot)
    requires Inv(s, R, hole, ex) && Pde(s, k).p && ReleaseReady(s)
    ensures Unshare(s, k).Some? && ReleaseReady(Unshare(s, k).value)
  {
    if Pde(s, k).bit9 {
      assert k in SharedTables(s);
      assert |SharedTables(s)| == |SharedTables(s) - {k}| + 1;
      hide Inv, Starves, FreeFrames, EnterKernelPage, CopyPageTable;
      TwoFramesDo(s, Pde(s, k).frame, true);
      CopySome(s, k);
      CopyTableCost(s, k);
      var tmp := EnterKernelPage(s, Pde(s, k).frame, true).value.1;
      TempGone(s, R, hole, ex, k, tmp);
      assert !Present(CopyPageTable(s, k).value, tmp);
      CopyShares(s, R, hole, ex, k);
    }
  }

  lemma CopyShares(s: State, R: Roles, hole: set<Owner>, ex: set<Owner>, k: UserSlot)
    requires Inv(s, R, hole, ex) && Pde(s, k).p && CopyPageTable(s, k).Some?
    ensures SharedTables(CopyPageTable(s, k).value) == SharedTables(s) - {k}
  {
    hide Inv, CopyPageTable, SpaceLaw, Excess, Look;
    var R' := CopyTableInv(s, R, hole, ex, k);
    var s' := CopyPageTable(s, k).value;
    forall j: UserSlot | j != k ensures Pde(s', j) == Pde(s, j) {
      assert SlotWord(s', Tab(s.cur, j)) == SlotWord(s, Tab(s.cur, j));
    }
  }

  lemma ClearReady(s: State, R: Roles, hole: set<Owner>, ex: set<Owner>, k: UserSlot, i: Slot)
    requires Inv(s, R, hole, ex) && Pde(s, k).p && ReleaseReady(s)
    ensures ReleaseReady(SetPte(s, Va(k, i), Pte(s, Va(k, i)).(p := false)))
  {
    var s' := SetPte(s, Va(k, i), Pte(s, Va(k, i)).(p := false));
    TableRole(s, R, hole, ex, s.cur, k);
    assert DirOk(s, R, s.cur);
    SameCounts(s, s');
    assert forall d: Slot :: Pde(s', d) == Pde(s, d);
    assert SharedTables(s') == SharedTables(s);
    var q: Va :| KERNEL <= q.d < SELF && !Present(s, q);
    assert !Present(s', q);
  }

  lemma FreePageReady(s: State, R: Roles, k: UserSlot, i: Slot)
    requires Inv(s, R, {}, UserPagesOf(s.cur)) && ReleaseReady(s)
    ensures FreePage(s, Va(k, i)).Some? && ReleaseReady(FreePage(s, Va(k, i)).value)
  {
    if Pde(s, k).p && Pte(s, Va(k, i)).p {
      var f, o, ex := Pte(s, Va(k, i)).frame, Pg(s.cur, k, i), UserPagesOf(s.cur);
      assert Target(s, {}, o) == Some(f);
      DropRefInv(s, R, ex, o);
      var s1 := FreePageFrame(s, f);
      FreeCost(s, f);
      assert ReleaseReady(s1) by {
        assert SharedTables(s1) == SharedTables(s);
        var q: Va :| KERNEL <= q.d < SELF && !Present(s, q);
        assert !Present(s1, q);
      }
      hide Inv, ReleaseReady;
      UnshareReady(s1, R, {o}, ex, k);
      var R2 := UnshareInv(s1, R, {o}, ex, k);
      ClearReady(Unshare(s1, k).value, R2, {o}, ex, k, i);
    }
  }

  lemma {:induction false} FreeUserPagesReady(s: State, R: Roles, n: nat)
    requires n <= USER_PAGES && Inv(s, R, {}, UserPagesOf(s.cur)) && ReleaseReady(s)
    ensures FreeUserPages(s, n).Some?
    decreases USER_PAGES - n
  {
    hide Inv, ReleaseReady, FreePage;
    if n < USER_PAGES {
      var va := UserPage(n);
      FreePageReady(s, R, va.d, va.t);
      var R1 := FreePageInv(s, R, UserPagesOf(s.cur), va.d, va.t);
      FreeUserPagesReady(FreePage(s, va).value, R1, n + 1);
    }
  }

  /** With two free frames for each table that is shared, and a free kernel page, free_mem_usr
      cannot fail. */
  lemma ReleaseGranted(s: State, R: Roles)
    requires Inv(s, R, {}, {}) && ReleaseReady(s)
    ensures FreeMemUsr(s).Some?
  {
    ExemptMore(s, R, UserPagesOf(s.cur));
    hide Inv, ReleaseReady;
    FreeUserPagesReady(s, R, 0);
    var R' := FreeUserPagesInv(s, R, 0);
    var s1 := FreeUserPages(s, 0).value;
    forall o: Owner | o.a == s.cur && o.Pg? ensures Target(s1, {}, o) == None {
      assert Look(s1, {}, o) == None;
    }
    FreeUserTablesInv(s1, R', UserPagesOf(s.cur), 0);
  }

  // ----- read-only pages

  lemma ForkMarks(s: State, R: Roles, k: UserSlot, i: Slot)
    requires Inv(s, R, {}, {}) && ForkMem(s).Some? && Pde(s, k).p && Pte(s, Va(k, i)).p
    ensures var s' := ForkMem(s).value.0;
      s'.cur == s.cur && Pde(s', k).p && Pde(s', k).bit10 && Pte(s', Va(k, i)).p
  {
    hide Inv, IncPhysRefs, Excess, Owners, Turns, Stale, Prepared, ForkMem;
    var R' := ForkInv(s, R);
    var (s', d, va) := ForkMem(s).value;
    var o := Pg(s.cur, k, i);
    assert Look(s, {}, o).Some?;
    assert Look(s', {}, o) == Look(s, {}, Parent(s.cur, d, o));
    var R2 := ForkPrepare(s, R);
    ForkDirectory(s);
  }

  lemma ForkDirectory(s: State)
    requires ForkMem(s).Some? && ForkMem(s).value.1 != s.cur && Prepared(s).cur == s.cur
    ensures ForkMem(s).value.0.mem[s.cur] == MarkShared(Prepared(s).mem[s.cur])
  {
    hide Holding, EnterKernelPage;
  }

  /** A page that was mapped read-only, in a table that was never shared, cannot be written.
      But fork marks its table all the same, and the handler takes the mark for permission: the
      same write is granted afterwards, if it lies behind the code segment and memory
      suffices. */
  lemma ForkOpensReadOnly(s: State, R: Roles, k: UserSlot, i: Slot, off: Slot, w: Word, codeEnd: nat)
    requires Inv(s, R, {}, {}) && ForkMem(s).Some? && CountsCover(s, R)
    requires Pde(s, k).p && Pde(s, k).rw && Pte(s, Va(k, i)).p && !Pte(s, Va(k, i)).rw && !Pte(s, Va(k, i)).bit9
    ensures UserWrite(s, k, i, off, w, codeEnd) == None
    ensures var s' := ForkMem(s).value.0;
      UserWrite(s', k, i, off, w, codeEnd).Some? <==> AddressOf(k, i, off) > codeEnd && !NoMemory(s', k, i)
  {
    assert MarksOk(s, s.cur);
    WriteGrantedIff(s, R, k, i, off, w, codeEnd);
    var R' := ForkInv(s, R);
    var s' := ForkMem(s).value.0;
    ForkMarks(s, R, k, i);
    assert MarksOk(s', s'.cur);
    WriteGrantedIff(s', R', k, i, off, w, codeEnd);
  }
}
