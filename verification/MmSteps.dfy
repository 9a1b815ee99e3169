/** The remaining steps of an address space: user writes and reaping. */
module MmSteps {
  import opened Wrappers
  import opened PageWords
  import opened Mm
  import opened MmInvariant
  import opened MmSplit

  type InPage = b: int | 0 <= b < 4096

  /** The address of a byte of page i of table k. */
  function AddressIn(k: UserSlot, i: Slot, byte: InPage): nat {
    (k * 1024 + i) * 4096 + byte
  }

  /** The address of word off of page i of table k. */
  function AddressOf(k: UserSlot, i: Slot, off: Slot): nat {
    AddressIn(k, i, off * 4)
  }

  /** A user store to word off of a present page. The processor performs it when both levels
      allow it, and otherwise runs the fault handler and tries again. A second fault would find
      no mark and panic (FaultsOnce). */
  function UserWrite(s: State, k: UserSlot, i: Slot, off: Slot, w: Word, codeEnd: nat): Option<State> {
    if UserMayWrite(s, k, i) then
      Some(Store(s, Pte(s, Va(k, i)).frame, off, w))
    else
      var s1 :- PfRoViolation(s, k, i, AddressOf(k, i, off), codeEnd);
      if UserMayWrite(s1, k, i) then Some(Store(s1, Pte(s1, Va(k, i)).frame, off, w)) else None
  }

  /** A user read. One that the entries do not allow is a violation as well, and page_fault sends
      every violation to the same handler, which copies the page. */
  function UserRead(s: State, k: UserSlot, i: Slot, off: Slot, codeEnd: nat): Option<State> {
    if UserMayUse(s, k, i) then
      Some(s)
    else
      var s1 :- PfRoViolation(s, k, i, AddressOf(k, i, off), codeEnd);
      if UserMayUse(s1, k, i) then Some(s1) else None
  }

  /** free_task: free_page of the kernel page that maps a directory. */
  function Reap(s: State, va: Va): Option<State> {
    var a := Pte(s, va).frame;
    var s1 :- FreePage(s, va);
    if a == s1.cur then None else Some(s1.(spaces := s1.spaces - {a}))
  }

  // ----- user writes

  lemma StoreInv(s: State, R: Roles, k: UserSlot, i: Slot, off: Slot, w: Word)
    requires Inv(s, R, {}, {}) && PrivatePage(s, k, i) && Pte(s, Va(k, i)).rw
    ensures var f := Pte(s, Va(k, i)).frame; var s' := Store(s, f, off, w); var o0 := Pg(s.cur, k, i);
      && Inv(s', R, {}, {}) && SameExcess(s, R, s', R, {}) && s'.spaces == s.spaces && s'.cur == s.cur
      && Look(s, {}, o0).Some? && Look(s', {}, o0) == Some(Look(s, {}, o0).value[off := w])
      && (forall o: Owner :: o.a in s.spaces && o.Pg? && o != o0 ==> Look(s', {}, o) == Look(s, {}, o))
      && SpaceLaw(s, R, s', R)
      && forall o: Owner :: o.a in s.spaces ==> SlotWord(s', o) == SlotWord(s, o)
  {
    var f := Pte(s, Va(k, i)).frame;
    var s' := Store(s, f, off, w);
    var o0 := Pg(s.cur, k, i);
    assert Target(s, {}, o0) == Some(f) && Writable(s, o0);
    forall o: Owner | o.a in s.spaces
      ensures SlotWord(s', o) == SlotWord(s, o) && Target(s', {}, o) == Target(s, {}, o)
      ensures s'.mem[o.a] == s.mem[o.a] && Writable(s', o) == Writable(s, o)
      ensures o != o0 && o.Pg? ==> Look(s', {}, o) == Look(s, {}, o)
    {
      TableRole(s, R, {}, {}, o.a, o.k);
    }
    forall g: FrameNo ensures Excess(s', R, {}, g) == Excess(s, R, {}, g) {
      OwnersSame(s, s', {}, g);
    }
    forall a | a in s.spaces ensures s'.mem[a] == s.mem[a] {
      assert Tab(a, 0).a == a;
    }
    DirsSame(s, s', R, R);
    QuietLaw(s, R, s', R);
  }

  /** A write changes the page for the writer and for nobody else. */
  ghost predicate Written(s: State, s': State, o0: Owner, off: Slot, w: Word) {
    && s'.spaces == s.spaces && s'.cur == s.cur && Look(s, {}, o0).Some?
    && Look(s', {}, o0) == Some(Look(s, {}, o0).value[off := w])
    && forall o: Owner :: o.a in s.spaces && o.Pg? && o != o0 ==> Look(s', {}, o) == Look(s, {}, o)
  }

  /** The page that was written stays writable for the user, and no other permission changed. */
  ghost predicate WritePerms(s: State, s': State, k: UserSlot, i: Slot) {
    && UserMayWrite(s', k, i)
    && forall o: Owner :: o.a in s.spaces && o != Pg(s.cur, k, i) ==> PermKept(s, o, s', o)
  }

  lemma StorePerms(s: State, s1: State, s': State, k: UserSlot, i: Slot)
    requires s1.spaces == s.spaces == s'.spaces && s1.cur == s.cur == s'.cur && UserMayWrite(s1, k, i)
    requires forall o: Owner :: o.a in s.spaces && o != Pg(s.cur, k, i) ==> PermKept(s, o, s1, o)
    requires forall o: Owner :: o.a in s.spaces ==> SlotWord(s', o) == SlotWord(s1, o)
    ensures WritePerms(s, s', k, i)
  {
    assert SlotWord(s', Tab(s.cur, k)) == SlotWord(s1, Tab(s.cur, k));
    assert SlotWord(s', Pg(s.cur, k, i)) == SlotWord(s1, Pg(s.cur, k, i));
    forall o: Owner | o.a in s.spaces && o != Pg(s.cur, k, i) ensures PermKept(s, o, s', o) {
      assert PermKept(s, o, s1, o);
    }
  }

  lemma UserWriteInv(s: State, R: Roles, k: UserSlot, i: Slot, off: Slot, w: Word, codeEnd: nat) returns (R': Roles)
    requires Inv(s, R, {}, {}) && Pde(s, k).p && Pte(s, Va(k, i)).p && UserWrite(s, k, i, off, w, codeEnd).Some?
    ensures var s' := UserWrite(s, k, i, off, w, codeEnd).value;
      && Inv(s', R', {}, {}) && Written(s, s', Pg(s.cur, k, i), off, w) && SameExcess(s, R, s', R', {})
      && WritePerms(s, s', k, i) && SpaceLaw(s, R, s', R')
  {
    hide SpaceLaw, Inv, PfRoViolation, Owners, Excess;
    if UserMayWrite(s, k, i) {
      R' := R;
      StoreInv(s, R, k, i, off, w);
      StorePerms(s, s, UserWrite(s, k, i, off, w, codeEnd).value, k, i);
    } else {
      R' := PfRoViolationInv(s, R, k, i, AddressOf(k, i, off), codeEnd);
      var s1 := PfRoViolation(s, k, i, AddressOf(k, i, off), codeEnd).value;
      StoreInv(s1, R', k, i, off, w);
      assert Look(s1, {}, Pg(s.cur, k, i)) == Look(s, {}, Pg(s.cur, k, i));
      StorePerms(s, s1, UserWrite(s, k, i, off, w, codeEnd).value, k, i);
      LawTrans(s, R, s1, R', UserWrite(s, k, i, off, w, codeEnd).value, R');
    }
  }

  /** A read changes what no process reads. */
  lemma UserReadInv(s: State, R: Roles, k: UserSlot, i: Slot, off: Slot, codeEnd: nat) returns (R': Roles)
    requires Inv(s, R, {}, {}) && Pde(s, k).p && Pte(s, Va(k, i)).p && UserRead(s, k, i, off, codeEnd).Some?
    ensures var s' := UserRead(s, k, i, off, codeEnd).value;
      && Inv(s', R', {}, {}) && SameView(s, s', {}) && SameExcess(s, R, s', R', {}) && SpaceLaw(s, R, s', R')
  {
    assert DirOk(s, R, s.cur);
    hide Inv, DirOk, PfRoViolation, Owners, Excess;
    if UserMayUse(s, k, i) {
      R' := R;
      LawRefl(s, R);
    } else {
      R' := PfRoViolationInv(s, R, k, i, AddressOf(k, i, off), codeEnd);
    }
  }

  /** After the handler has dealt with a page there is no mark left, so a second fault on it
      would panic. */
  lemma FaultsOnce(s: State, R: Roles, k: UserSlot, i: Slot, address: nat, codeEnd: nat)
    requires Inv(s, R, {}, {}) && Pde(s, k).p && Pte(s, Va(k, i)).p
    requires PfRoViolation(s, k, i, address, codeEnd).Some?
    ensures PfRoViolation(PfRoViolation(s, k, i, address, codeEnd).value, k, i, address, codeEnd) == None
  {
    hide SplitTable, SplitPage;
    var R' := PfRoViolationInv(s, R, k, i, address, codeEnd);
  }

  // ----- reaping

  /** The kernel page that mapped the directory is gone, and all others are kept, with the frames
      that are reserved for the kernel and the directories of the other spaces. */
  ghost predicate ReapKept(s: State, R: Roles, s': State, R': Roles, va: Va) {
    && !Present(s', va) && (forall q: Va :: KERNEL <= q.d < SELF && q != va ==> PageKept(s, s', q, None))
    && ReservedKept(s, R, s', R')
    && forall b :: b in s'.spaces ==> s'.mem[b] == s.mem[b]
  }

  /** A store that clears an entry of a kernel table. */
  lemma ClearKept(s: State, R: Roles, s': State, R': Roles, va: Va)
    requires DirOk(s, R, s.cur) && KERNEL <= va.d < SELF && Present(s, va) && s'.cur == s.cur
    requires forall b :: b in s'.spaces ==> b in s.spaces && R[b] == Dir
    requires forall f: FrameNo :: R[f] == Reserved ==> R'[f] == Reserved
    requires var t := Pde(s, va.d).frame; s'.mem == s.mem[t := s.mem[t][va.t := s.mem[t][va.t].(p := false)]]
    ensures ReapKept(s, R, s', R', va)
  {
    assert Pde(s', va.d) == Pde(s, va.d);
    forall q: Va | KERNEL <= q.d < SELF && q != va ensures PageKept(s, s', q, None) {
      assert Pde(s', q.d) == Pde(s, q.d);
    }
  }

  lemma ReapOwners(s: State, s': State, a: FrameNo, f: FrameNo)
    requires s'.spaces == s.spaces - {a}
    requires forall o: Owner :: o.a in s.spaces ==> Target(s', {}, o) == Target(s, {}, o)
    requires forall o: Owner :: o.a in s.spaces && Target(s, {}, o).Some? ==> o.a != a
    ensures Owners(s', {}, f) == Owners(s, {}, f)
  {
    forall o ensures o in Owners(s', {}, f) <==> o in Owners(s, {}, f) {
      InAll(s.spaces, o);
      InAll(s'.spaces, o);
    }
  }

  lemma ReapInv(s: State, R: Roles, va: Va) returns (R': Roles)
    requires Inv(s, R, {}, {}) && KERNEL <= va.d < SELF && Pde(s, va.d).p && Pte(s, va).p && Reap(s, va).Some?
    requires Pte(s, va).frame in s.spaces && forall k: UserSlot :: !s.mem[Pte(s, va).frame][k].p
    ensures var s' := Reap(s, va).value; var a := Pte(s, va).frame;
      && Inv(s', R', {}, {}) && s'.spaces == s.spaces - {a} && s'.cur == s.cur && SameExcess(s, R, s', R', {})
      && (forall f: FrameNo :: Pin(R'[f]) == Pin(R[f]) - if f == a then 1 else 0)
      && (forall o: Owner :: o.a in s'.spaces && o.Pg? ==> Look(s', {}, o) == Look(s, {}, o))
      && (forall o: Owner :: o.a in s'.spaces ==> SlotWord(s', o) == SlotWord(s, o))
      && ReapKept(s, R, s', R', va)
  {
    hide ReapKept, Owners;
    var a := Pte(s, va).frame;
    var t := Pde(s, va.d).frame;
    R' := R[a := Spare];
    var s' := Reap(s, va).value;
    assert DirOk(s, R, s.cur) && DirOk(s, R, a);
    assert Excess(s, R, {}, a) >= 0;
    assert s'.mem == s.mem[t := s.mem[t][va.t := s.mem[t][va.t].(p := false)]];
    forall o: Owner | o.a in s.spaces
      ensures SlotWord(s', o) == SlotWord(s, o) && Target(s', {}, o) == Target(s, {}, o)
      ensures s'.mem[o.a] == s.mem[o.a] && Writable(s', o) == Writable(s, o)
      ensures o.Pg? ==> Look(s', {}, o) == Look(s, {}, o)
      ensures Target(s, {}, o).Some? ==> o.a != a
    {
      TableRole(s, R, {}, {}, o.a, o.k);
    }
    forall f: FrameNo ensures Excess(s', R', {}, f) == Excess(s, R, {}, f) {
      ReapOwners(s, s', a, f);
    }
    forall b | b in s'.spaces ensures DirOk(s', R', b) && MarksOk(s', b) {
      assert s'.mem[Tab(b, 0).a] == s.mem[b];
      assert DirOk(s, R, b) && MarksOk(s, b);
    }
    forall b | b in s'.spaces ensures R[b] == Dir {
      assert DirOk(s, R, b);
    }
    ClearKept(s, R, s', R', va);
  }
}
