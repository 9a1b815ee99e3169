/** free_mem_usr: the running space loses every user page and table, no other space notices,
    and every count drops by exactly the references that were given up. */
module MmRelease {
  import opened Wrappers
  import opened PageWords
  import opened Mm
  import opened MmInvariant
  import opened MmSplit
  import opened MmFork

  ghost function UserPagesOf(a: FrameNo): set<Owner> {
    set k: UserSlot, i: Slot :: Pg(a, k, i)
  }

  /** The directories and tables of the other spaces hold what they held. */
  ghost predicate OthersSame(s: State, s': State) {
    && s'.spaces == s.spaces && s'.cur == s.cur
    && forall q: Owner :: q.a in s.spaces && q.a != s.cur ==> SlotWord(s', q) == SlotWord(s, q)
  }

  /** free_page has dropped the reference of o, but its entry is still in place. */
  lemma DropRefInv(s: State, R: Roles, ex: set<Owner>, o: Owner)
    requires Inv(s, R, {}, ex) && o.Pg? && o.a in s.spaces && Target(s, {}, o).Some?
    ensures var s' := FreePageFrame(s, Target(s, {}, o).value);
      && Inv(s', R, {o}, ex)
      && (forall f: FrameNo :: Excess(s', R, {o}, f) == Excess(s, R, {}, f))
      && (forall q: Owner :: q != o ==> Look(s', {o}, q) == Look(s, {}, q)) && SpaceLaw(s, R, s', R)
  {
    var f0 := Target(s, {}, o).value;
    var s' := FreePageFrame(s, f0);
    PageCounted(s, R, {}, ex, o);
    forall q: Owner | true
      ensures Target(s', {o}, q) == if q == o then None else Target(s, {}, q)
      ensures Writable(s', q) == Writable(s, q)
    {
    }
    forall f: FrameNo ensures Excess(s', R, {o}, f) == Excess(s, R, {}, f) {
      InAll(s.spaces, o);
      assert Owners(s', {o}, f) == Owners(s, {}, f) - {o};
      assert o in Owners(s, {}, f) <==> f == f0;
    }
    forall a | a in s.spaces ensures DirOk(s', R, a) && MarksOk(s', a) {
      assert DirOk(s, R, a) && MarksOk(s, a);
    }
    QuietLaw(s, R, s', R);
  }

  /** Clearing the present bit in a private table removes exactly that place. */
  lemma ClearPageInv(s: State, R: Roles, ex: set<Owner>, k: UserSlot, i: Slot)
    requires var o := Pg(s.cur, k, i); Inv(s, R, {o}, ex) && Tab(s.cur, k) !in ex && Pde(s, k).p && Pde(s, k).rw
    ensures var o := Pg(s.cur, k, i); var s' := SetPte(s, Va(k, i), Pte(s, Va(k, i)).(p := false));
      && Inv(s', R, {}, ex)
      && (forall f: FrameNo :: Excess(s', R, {}, f) == Excess(s, R, {o}, f))
      && (forall q: Owner :: q.a in s.spaces && q.Pg? ==> Look(s', {}, q) == Look(s, {o}, q))
      && OthersSame(s, s') && s'.mem[s.cur] == s.mem[s.cur] && SpaceLaw(s, R, s', R)
  {
    var o := Pg(s.cur, k, i);
    var s' := SetPte(s, Va(k, i), Pte(s, Va(k, i)).(p := false));
    TableRole(s, R, {o}, ex, s.cur, k);
    forall q: Owner | q.a in s.spaces
      ensures s'.mem[q.a] == s.mem[q.a]
      ensures Target(s', {}, q) == Target(s, {o}, q)
      ensures Target(s', {}, q).Some? ==> Writable(s', q) == Writable(s, q)
      ensures q.Pg? ==> Look(s', {}, q) == Look(s, {o}, q)
      ensures q.a != s.cur ==> SlotWord(s', q) == SlotWord(s, q)
    {
      TableRole(s, R, {o}, ex, q.a, q.k);
      if s.mem[q.a][q.k].p && s.mem[q.a][q.k].frame == Pde(s, k).frame {
        TableAlone(s, R, {o}, ex, k, q);
      }
    }
    forall f: FrameNo ensures Excess(s', R, {}, f) == Excess(s, R, {o}, f) {
      forall q ensures q in Owners(s', {}, f) <==> q in Owners(s, {o}, f) {
        InAll(s.spaces, q);
      }
      assert Owners(s', {}, f) == Owners(s, {o}, f);
    }
    forall a | a in s.spaces ensures s'.mem[a] == s.mem[a] {
      assert Tab(a, 0).a == a;
    }
    DirsSame(s, s', R, R);
    QuietLaw(s, R, s', R);
  }

  /** Unsharing a table with one page on its way out keeps what every space reads. */
  lemma UnshareInv(s: State, R: Roles, hole: set<Owner>, ex: set<Owner>, k: UserSlot) returns (R': Roles)
    requires Inv(s, R, hole, ex) && ex == UserPagesOf(s.cur) && Pde(s, k).p && Unshare(s, k).Some?
    ensures var s' := Unshare(s, k).value;
      && Inv(s', R', hole, ex) && SameView(s, s', hole) && SameExcess(s, R, s', R', hole) && OthersSame(s, s')
      && SpaceLaw(s, R, s', R')
      && Pde(s', k).p && Pde(s', k).rw && (!Pde(s, k).bit9 ==> R' == R && s' == s)
      && forall i: Slot :: Pte(s', Va(k, i)) == Pte(s, Va(k, i))
  {
    R' := R;
    assert MarksOk(s, s.cur);
    LawRefl(s, R);
    if Pde(s, k).bit9 {
      R' := CopyTableInv(s, R, hole, ex, k);
      assert ex + PagesOf(s.cur, k) == ex;
    }
  }

  /** free_page of a user page, even when it first has to copy a shared table: one
      reference goes, one page goes, and nothing else. */
  lemma FreePageInv(s: State, R: Roles, ex: set<Owner>, k: UserSlot, i: Slot) returns (R': Roles)
    requires Inv(s, R, {}, ex) && ex == UserPagesOf(s.cur) && FreePage(s, Va(k, i)).Some?
    ensures var s' := FreePage(s, Va(k, i)).value; var o := Pg(s.cur, k, i);
      && Inv(s', R', {}, ex) && SameExcess(s, R, s', R', {}) && OthersSame(s, s')
      && (forall q: Owner :: q.a in s.spaces && q.Pg? ==>
            Look(s', {}, q) == if q == o then None else Look(s, {}, q))
      && (!Pde(s, k).bit9 ==> R' == R && s'.mem[s.cur] == s.mem[s.cur]) && SpaceLaw(s, R, s', R')
  {
    hide SpaceLaw;
    var o := Pg(s.cur, k, i);
    R' := R;
    LawRefl(s, R);
    if Pde(s, k).p && Pte(s, Va(k, i)).p {
      var f := Pte(s, Va(k, i)).frame;
      assert Target(s, {}, o) == Some(f);
      DropRefInv(s, R, ex, o);
      var s1 := FreePageFrame(s, f);
      R' := UnshareInv(s1, R, {o}, ex, k);
      var s2 := Unshare(s1, k).value;
      ClearPageInv(s2, R', ex, k, i);
      FreePageViews(s, s1, s2, FreePage(s, Va(k, i)).value, o);
      LawTrans(s, R, s1, R, s2, R');
      LawTrans(s, R, s2, R', FreePage(s, Va(k, i)).value, R');
    }
  }

  lemma FreePageViews(s: State, s1: State, s2: State, s': State, o: Owner)
    requires s1.mem == s.mem && s1.spaces == s.spaces && s1.cur == s.cur
    requires forall q: Owner :: q != o ==> Look(s1, {o}, q) == Look(s, {}, q)
    requires SameView(s1, s2, {o}) && OthersSame(s1, s2) && OthersSame(s2, s')
    requires forall q: Owner :: q.a in s.spaces && q.Pg? ==> Look(s', {}, q) == Look(s2, {o}, q)
    ensures OthersSame(s, s')
    ensures forall q: Owner :: q.a in s.spaces && q.Pg? ==>
              Look(s', {}, q) == if q == o then None else Look(s, {}, q)
  {
    forall q: Owner | q.a in s.spaces && q.a != s.cur ensures SlotWord(s', q) == SlotWord(s, q) {
      assert SlotWord(s', q) == SlotWord(s2, q) == SlotWord(s1, q);
    }
  }

  function PageNumber(o: Owner): nat
    requires o.Pg?
  {
    o.k * 1024 + o.i
  }

  lemma {:induction false} FreeUserPagesInv(s: State, R: Roles, n: nat) returns (R': Roles)
    requires n <= USER_PAGES && Inv(s, R, {}, UserPagesOf(s.cur)) && FreeUserPages(s, n).Some?
    ensures var s' := FreeUserPages(s, n).value;
      && Inv(s', R', {}, UserPagesOf(s.cur)) && SameExcess(s, R, s', R', {}) && OthersSame(s, s')
      && (forall o: Owner :: o.a in s.spaces && o.Pg? ==>
            Look(s', {}, o) == if o.a == s.cur && PageNumber(o) >= n then None else Look(s, {}, o))
      && SpaceLaw(s, R, s', R')
    decreases USER_PAGES - n
  {
    hide SpaceLaw;
    if n == USER_PAGES {
      R' := R;
      LawRefl(s, R);
    } else {
      var va := UserPage(n);
      var R1 := FreePageInv(s, R, UserPagesOf(s.cur), va.d, va.t);
      var s1 := FreePage(s, va).value;
      R' := FreeUserPagesInv(s1, R1, n + 1);
      var s' := FreeUserPages(s1, n + 1).value;
      LawTrans(s, R, s1, R1, s', R');
      forall o: Owner | o.a in s.spaces && o.Pg?
        ensures Look(s', {}, o) == if o.a == s.cur && PageNumber(o) >= n then None else Look(s, {}, o)
      {
        assert PageNumber(o) == n <==> o.k == va.d && o.i == va.t;
      }
    }
  }

  /** The running space maps no user page. */
  ghost predicate NoPages(s: State) {
    forall o: Owner :: o.a == s.cur && o.Pg? ==> Target(s, {}, o) == None
  }

  lemma FreeTableAt(s: State, s': State, R: Roles, ex: set<Owner>, k: UserSlot, q: Owner)
    requires Inv(s, R, {}, ex) && NoPages(s) && q.a in s.spaces
    requires s'.mem == Store(s, s.cur, k, Pde(s, k).(p := false)).mem && s'.spaces == s.spaces && s'.cur == s.cur
    ensures Target(s', {}, q) == if q == Tab(s.cur, k) then None else Target(s, {}, q)
    ensures Target(s', {}, q).Some? ==> Writable(s', q) == Writable(s, q)
    ensures q.Pg? ==> Look(s', {}, q) == Look(s, {}, q)
    ensures q.a != s.cur ==> SlotWord(s', q) == SlotWord(s, q)
  {
    TableRole(s, R, {}, ex, q.a, q.k);
    TableRole(s, R, {}, ex, s.cur, k);
    if q.Pg? && Target(s, {}, q).Some? {
      assert R[Target(s, {}, q).value] == RoleOf(q);
    }
  }

  lemma FreeTableLaw(s: State, R: Roles, s': State, k: UserSlot)
    requires DirOk(s, R, s.cur) && s'.spaces == s.spaces && s'.cur == s.cur
    requires s'.mem == Store(s, s.cur, k, Pde(s, k).(p := false)).mem
    ensures SpaceLaw(s, R, s', R)
  {
    QuietLaw(s, R, s', R);
  }

  lemma FreeTableInv(s: State, R: Roles, ex: set<Owner>, k: UserSlot)
    requires Inv(s, R, {}, ex) && NoPages(s)
    ensures FreePage(s, Va(SELF, k)).Some?
    ensures var s' := FreePage(s, Va(SELF, k)).value;
      && Inv(s', R, {}, ex) && SameExcess(s, R, s', R, {}) && SameView(s, s', {}) && NoPages(s') && OthersSame(s, s')
      && (forall d: Slot :: Pde(s', d) == if d == k then Pde(s, d).(p := false) else Pde(s, d))
      && SpaceLaw(s, R, s', R)
  {
    var s' := FreePage(s, Va(SELF, k)).value;
    var o := Tab(s.cur, k);
    assert DirOk(s, R, s.cur);
    LawRefl(s, R);
    if Pde(s, k).p {
      var t := Pde(s, k).frame;
      TableCounted(s, R, {}, ex, s.cur, k);
      assert s' == Store(FreePageFrame(s, t), s.cur, k, Pde(s, k).(p := false));
      forall q: Owner | q.a in s.spaces
        ensures Target(s', {}, q) == if q == o then None else Target(s, {}, q)
        ensures Target(s', {}, q).Some? ==> Writable(s', q) == Writable(s, q)
        ensures q.Pg? ==> Look(s', {}, q) == Look(s, {}, q)
        ensures q.a != s.cur ==> SlotWord(s', q) == SlotWord(s, q)
      {
        FreeTableAt(s, s', R, ex, k, q);
      }
      forall f: FrameNo ensures Excess(s', R, {}, f) == Excess(s, R, {}, f) {
        GainOwner(s', s, o, t, f);
      }
      DirsEntry(s, s', R, R, k);
      FreeTableLaw(s, R, s', k);
    }
  }

  lemma {:induction false} FreeUserTablesInv(s: State, R: Roles, ex: set<Owner>, k: nat)
    requires k <= KERNEL && Inv(s, R, {}, ex) && NoPages(s)
    ensures FreeUserTables(s, k).Some?
    ensures var s' := FreeUserTables(s, k).value;
      && Inv(s', R, {}, ex) && SameExcess(s, R, s', R, {}) && SameView(s, s', {}) && NoPages(s') && OthersSame(s, s')
      && (forall d: Slot :: Pde(s', d) == if k <= d < KERNEL then Pde(s, d).(p := false) else Pde(s, d))
      && SpaceLaw(s, R, s', R)
    decreases KERNEL - k
  {
    hide SpaceLaw;
    if k < KERNEL {
      FreeTableInv(s, R, ex, k);
      var s1 := FreePage(s, Va(SELF, k)).value;
      FreeUserTablesInv(s1, R, ex, k + 1);
      LawTrans(s, R, s1, R, FreeUserTables(s1, k + 1).value, R);
    } else {
      assert DirOk(s, R, s.cur);
      LawRefl(s, R);
    }
  }

  /** What free_mem_usr promises: the running space is empty, all others read as before. */
  ghost predicate Released(s: State, s': State) {
    && s'.spaces == s.spaces && s'.cur == s.cur
    && (forall k: UserSlot :: !Pde(s', k).p)
    && (forall o: Owner :: o.a in s.spaces && o.Pg? ==>
          Look(s', {}, o) == if o.a == s.cur then None else Look(s, {}, o))
  }

  lemma ExemptMore(s: State, R: Roles, ex: set<Owner>)
    requires Inv(s, R, {}, {})
    ensures Inv(s, R, {}, ex)
  {
  }

  lemma OthersSameTrans(s: State, s1: State, s': State)
    requires OthersSame(s, s1) && OthersSame(s1, s')
    ensures OthersSame(s, s')
  {
    forall q: Owner | q.a in s.spaces && q.a != s.cur ensures SlotWord(s', q) == SlotWord(s, q) {
      assert SlotWord(s', q) == SlotWord(s1, q);
    }
  }

  lemma NothingExempt(s: State, R: Roles)
    requires Inv(s, R, {}, UserPagesOf(s.cur)) && NoPages(s)
    ensures Inv(s, R, {}, {})
  {
  }

  /** After the first loop no page is left. */
  lemma PagesReleased(s: State, R: Roles) returns (s': State, R': Roles)
    requires Inv(s, R, {}, {}) && FreeUserPages(s, 0).Some?
    ensures FreeUserPages(s, 0) == Some(s') && Inv(s', R', {}, UserPagesOf(s.cur)) && NoPages(s')
    ensures SameExcess(s, R, s', R', {}) && OthersSame(s, s') && SpaceLaw(s, R, s', R')
    ensures forall o: Owner :: o.a in s.spaces && o.Pg? ==>
      Look(s', {}, o) == if o.a == s.cur then None else Look(s, {}, o)
  {
    ExemptMore(s, R, UserPagesOf(s.cur));
    hide Inv, SpaceLaw, Excess, OthersSame, FreeUserPages;
    R' := FreeUserPagesInv(s, R, 0);
    s' := FreeUserPages(s, 0).value;
    forall o: Owner | o.a == s.cur && o.Pg? ensures Target(s', {}, o) == None {
      assert Look(s', {}, o) == None;
    }
  }

  /** free_mem_usr empties the running space, changes nothing in the others, and gives back
      every reference it held and no more: beside that only frames that became kernel page
      tables have gained one. */
  lemma FreeMemUsrInv(s: State, R: Roles) returns (R': Roles)
    requires Inv(s, R, {}, {}) && FreeMemUsr(s).Some?
    ensures var s' := FreeMemUsr(s).value;
      && Inv(s', R', {}, {}) && Released(s, s') && OthersSame(s, s') && SameExcess(s, R, s', R', {})
      && SpaceLaw(s, R, s', R') && CountLaw(s, s')
  {
    hide Inv, SpaceLaw, Excess, CountLaw, FreeUserPages, FreeUserTables, NoPages, Look;
    var s1;
    s1, R' := PagesReleased(s, R);
    FreeUserTablesInv(s1, R', UserPagesOf(s.cur), 0);
    var s' := FreeUserTables(s1, 0).value;
    NothingExempt(s', R');
    OthersSameTrans(s, s1, s');
    LawTrans(s, R, s1, R', s', R');
    LawOf(s, R, s', R');
    forall o: Owner | o.a in s.spaces && o.Pg?
      ensures Look(s', {}, o) == if o.a == s.cur then None else Look(s, {}, o)
    {
      assert Look(s', {}, o) == Look(s1, {}, o);
    }
  }

  /** No user table of the running space is shared. */
  ghost predicate Unshared(s: State) {
    forall k: UserSlot :: !Pde(s, k).bit9
  }

  lemma {:induction false} FreeUserPagesUnshared(s: State, R: Roles, n: nat)
    requires n <= USER_PAGES && Inv(s, R, {}, UserPagesOf(s.cur)) && Unshared(s)
    ensures FreeUserPages(s, n).Some?
    ensures var s' := FreeUserPages(s, n).value;
      && Inv(s', R, {}, UserPagesOf(s.cur)) && SameExcess(s, R, s', R, {}) && s'.mem[s.cur] == s.mem[s.cur]
      && s'.spaces == s.spaces && s'.cur == s.cur
    decreases USER_PAGES - n
  {
    if n < USER_PAGES {
      var va := UserPage(n);
      assert !Pde(s, va.d).bit9;
      var R1 := FreePageInv(s, R, UserPagesOf(s.cur), va.d, va.t);
      assert forall k: UserSlot :: Pde(FreePage(s, va).value, k) == Pde(s, k);
      FreeUserPagesUnshared(FreePage(s, va).value, R, n + 1);
    }
  }

  /** Where nothing is shared, free_mem_usr cannot fail, and its directory keeps every entry
      but for the present bit: these are the stale entries. */
  lemma ReleaseLeavesStale(s: State, R: Roles)
    requires Inv(s, R, {}, {}) && Unshared(s)
    ensures FreeMemUsr(s).Some?
    ensures var s' := FreeMemUsr(s).value;
      && Inv(s', R, {}, {}) && SameExcess(s, R, s', R, {}) && Released(s, s')
      && forall d: Slot :: Pde(s', d) == if d < KERNEL then Pde(s, d).(p := false) else Pde(s, d)
  {
    FreeUserPagesUnshared(s, R, 0);
    var R1 := FreeUserPagesInv(s, R, 0);
    var s1 := FreeUserPages(s, 0).value;
    forall o: Owner | o.a == s.cur && o.Pg? ensures Target(s1, {}, o) == None {
      assert Look(s1, {}, o) == None;
    }
    FreeUserTablesInv(s1, R, UserPagesOf(s.cur), 0);
    var R2 := FreeMemUsrInv(s, R);
    NothingExempt(FreeMemUsr(s).value, R);
  }

  /** free_mem_usr gives back exactly the references that the running space had, to every frame;
      one that nobody else uses comes to count 0 with them. The only frames that gain a
      reference are those that the copies of shared tables took for new kernel page tables. */
  lemma ReleaseDropsExactly(s: State, R: Roles, f: FrameNo)
    requires Inv(s, R, {}, {}) && FreeMemUsr(s).Some?
    ensures var s' := FreeMemUsr(s).value;
      s'.refs[f] == s.refs[f] - |OwnersOf(s, s.cur, f)| + if NewTable(s, s', f) then 1 else 0
  {
    var R' := FreeMemUsrInv(s, R);
    var s' := FreeMemUsr(s).value;
    forall q ensures q in Owners(s', {}, f) <==> q in Owners(s, {}, f) - OwnersOf(s, s.cur, f) {
      InAll(s.spaces, q);
      InAll({s.cur}, q);
      if q.a in s.spaces {
        OwnPlaceGone(s, s', q);
      }
    }
    assert Owners(s', {}, f) == Owners(s, {}, f) - OwnersOf(s, s.cur, f);
    OwnersOfSubset(s, f);
  }

  lemma OwnersOfSubset(s: State, f: FrameNo)
    ensures OwnersOf(s, s.cur, f) <= Owners(s, {}, f)
  {
    forall q | q in OwnersOf(s, s.cur, f) ensures q in Owners(s, {}, f) {
      InAll(s.spaces, q);
      InAll({s.cur}, q);
    }
  }

  lemma OwnPlaceGone(s: State, s': State, q: Owner)
    requires Released(s, s') && OthersSame(s, s') && q.a in s.spaces
    ensures Target(s', {}, q) == if q.a == s.cur then None else Target(s, {}, q)
  {
    if q.a == s.cur {
      assert !Pde(s', q.k).p;
    }
  }
}
