/** kernel/mm.c in its own form: methods that edit physical memory and the counts in place.
    Each is proved to do what its function in Mm does; ok is false where the source panics. */
module MmKernel {
  import opened Wrappers
  import opened PageWords
  import Mm
  import MmInvariant
  import MmMap
  import MmFork
  import opened PhysMm
  import opened Counting

  type State = Mm.State
  type Va = Mm.Va

  class Kernel {
    var mem: seq<Page>          // physical memory
    const phys: Bitmap          // reference counts
    var current: FrameNo        // current->page_directory
    ghost var spaces: set<FrameNo>

    ghost predicate Valid()
      reads this, phys
    {
      phys.Valid() && |mem| == FRAMES && current in spaces
    }

    ghost function Now(): State
      requires Valid()
      reads this, phys, phys.bits
    {
      Mm.Machine(mem, phys.bits[..], spaces, current)
    }

    constructor (phys: Bitmap, directory: FrameNo)
      requires phys.Valid()
      ensures Valid() && this.phys == phys && spaces == {directory} && current == directory
    {
      this.phys := phys;
      mem := seq(FRAMES, _ => ZeroPage());
      current := directory;
      spaces := {directory};
    }

    function Pde(d: Slot): Word
      requires Valid()
      reads this, phys
    {
      mem[current][d]
    }

    function Pte(va: Va): Word
      requires Valid()
      reads this, phys
    {
      mem[Pde(va.d).frame][va.t]
    }

    /** A store to word t of frame f, which is what a store through a mapped address is. */
    method Store(f: FrameNo, t: Slot, w: Word)
      requires Valid()
      modifies this`mem
      ensures Valid() && Now() == Mm.Store(old(Now()), f, t, w)
    {
      mem := mem[f := mem[f][t := w]];
    }

    /** memcpy of one page. */
    method CopyPage(to: FrameNo, from: FrameNo)
      requires Valid()
      modifies this`mem
      ensures Valid() && Now() == old(Now()).(mem := old(mem)[to := old(mem)[from]])
    {
      mem := mem[to := mem[from]];
    }

    method AllocPageFrame() returns (ok: bool, f: FrameNo)
      requires Valid()
      modifies phys.bits
      ensures Valid() && Mm.AllocPageFrame(old(Now())) == if ok then Some((Now(), f)) else None
    {
      var r := phys.Search(false, 0);
      SearchIsLowest(phys.bits[..], r);
      if r == -1 {
        return false, 0;
      }
      phys.bits[r] := 1;
      return true, r;
    }

    method FreePageFrame(f: FrameNo)
      requires Valid()
      modifies phys.bits
      ensures Valid() && Now() == Mm.FreePageFrame(old(Now()), f)
    {
      if phys.bits[f] > 0 {
        phys.bits[f] := phys.bits[f] - 1;
      }
    }

    method AddPageTable(d: Slot, user: bool) returns (ok: bool)
      requires Valid()
      modifies this`mem, phys.bits
      ensures Valid() && Mm.AddPageTable(old(Now()), d, user) == if ok then Some(Now()) else None
    {
      var f;
      ok, f := AllocPageFrame();
      if !ok {
        return;
      }
      Store(current, d, Entry(f, true, user));
      var table := Pde(d).frame;
      ghost var start := Now();
      var page := mem[table];
      for i := 0 to 1024
        invariant Valid() && |page| == 1024
        invariant Now() == start.(mem := start.mem[table := page])
        invariant forall j :: 0 <= j < i ==> page[j] == ZERO
      {
        page := page[i := ZERO];
        mem := mem[table := page];
      }
      assert page == ZeroPage();
    }

    method FirstAbsent(d: Slot, from: Slot) returns (t: nat)
      requires Valid()
      ensures t == Mm.FirstAbsent(mem[Pde(d).frame], from)
    {
      t := from;
      while t < 1024
        invariant from <= t <= 1024
        invariant Mm.FirstAbsent(mem[Pde(d).frame], from) == Mm.FirstAbsent(mem[Pde(d).frame], t)
      {
        if !Pte(Mm.Va(d, t)).p {
          return;
        }
        t := t + 1;
      }
    }

    method GetFreeAddress(target: Va) returns (ok: bool, va: Va)
      requires Valid()
      modifies this`mem, phys.bits
      ensures Valid() && Mm.GetFreeAddress(old(Now()), target) == if ok then Some((Now(), va)) else None
    {
      hide Mm.AddPageTable, Mm.FirstAbsent;
      var offset: int, ptIndex: Slot := target.d, target.t;
      va := target;
      var index := 0;
      while index < 1023
        invariant 0 <= index <= 1023 && Valid()
        invariant Now() == old(Now())
        invariant Mm.GetFreeAddress(old(Now()), target)
               == Mm.SearchAddress(Now(), (index + offset) % 1024, ptIndex, 1023 - index)
      {
        var d: Slot := (index + offset) % 1024;
        if !Pde(d).p {
          ok := AddPageTable(d, false);
          return ok, Mm.Va(d, 0);
        }
        var t := FirstAbsent(d, ptIndex);
        if t < 1024 {
          return true, Mm.Va(d, t);
        }
        ptIndex := 0;
        NextIndex(index, offset);
        index := index + 1;
      }
      return false, target;
    }

    /** enter_page at KERNEL_MEMORY. */
    method EnterKernelPage(f: FrameNo, user: bool) returns (ok: bool, va: Va)
      requires Valid()
      modifies this`mem, phys.bits
      ensures Valid() && Mm.EnterKernelPage(old(Now()), f, user) == if ok then Some((Now(), va)) else None
    {
      ok, va := GetFreeAddress(Mm.Va(Mm.KERNEL, 0));
      if ok && Mm.KERNEL <= va.d < Mm.SELF {
        Store(Pde(va.d).frame, va.t, Entry(f, true, user));
      } else {
        ok := false;
      }
    }

    /** free_page of a present page whose page table is not shared. */
    method DropPage(va: Va)
      requires Valid()
      modifies this`mem, phys.bits
      ensures Valid() && Now() == Mm.DropPage(old(Now()), va)
    {
      FreePageFrame(Pte(va).frame);
      Store(Pde(va.d).frame, va.t, Pte(va).(p := false));
    }

    method CopyPageTable(d: Slot) returns (ok: bool)
      requires Valid()
      modifies this`mem, phys.bits
      ensures Valid() && Mm.CopyPageTable(old(Now()), d) == if ok then Some(Now()) else None
    {
      var tmp, newPf;
      ok, tmp := EnterKernelPage(Pde(d).frame, true);
      if !ok {
        return;
      }
      ok, newPf := AllocPageFrame();
      if !ok {
        return;
      }
      Store(Pde(Mm.SELF).frame, d, Entry(newPf, true, true));
      CopyPage(Pde(d).frame, Pte(tmp).frame);
      DropPage(tmp);
    }

    method MapPage(f: FrameNo, va: Va, rw: bool, user: bool) returns (ok: bool)
      requires Valid()
      modifies this`mem, phys.bits
      ensures Valid() && Mm.MapPage(old(Now()), f, va, rw, user) == if ok then Some(Now()) else None
    {
      ok := true;
      if !Pde(va.d).p {
        ok := AddPageTable(va.d, user);
        if !ok {
          return;
        }
      }
      if Pde(va.d).bit9 {
        ok := CopyPageTable(va.d);
        if !ok {
          return;
        }
      }
      Store(Pde(va.d).frame, va.t, Entry(f, rw, user));
    }

    method FreeAddress(va: Va) returns (ok: bool)
      requires Valid()
      modifies this`mem, phys.bits
      ensures Valid() && Mm.FreeAddress(old(Now()), va) == if ok then Some(Now()) else None
    {
      ok := true;
      if Pde(va.d).p {
        if Pde(va.d).bit9 {
          ok := CopyPageTable(va.d);
          if !ok {
            return;
          }
        }
        Store(Pde(va.d).frame, va.t, Pte(va).(p := false));
      }
    }

    method FreePage(va: Va) returns (ok: bool)
      requires Valid()
      modifies this`mem, phys.bits
      ensures Valid() && Mm.FreePage(old(Now()), va) == if ok then Some(Now()) else None
    {
      ok := true;
      if Pde(va.d).p && Pte(va).p {
        FreePageFrame(Pte(va).frame);
        ok := FreeAddress(va);
      }
    }

    /** enable_CoW on the table in frame t. */
    method EnableCoW(t: FrameNo)
      requires Valid()
      modifies this`mem
      ensures Valid() && Now() == old(Now()).(mem := old(mem)[t := Mm.EnableCoW(old(mem)[t])])
    {
      var page := mem[t];
      ghost var was := page;
      for i := 0 to 1024
        invariant Valid() && |page| == 1024 && Now() == old(Now()).(mem := old(mem)[t := page])
        invariant forall j :: 0 <= j < 1024 ==> page[j] == if j < i then was[j].(rw := false, bit9 := true) else was[j]
      {
        page := page[i := page[i].(rw := false, bit9 := true)];
        mem := mem[t := page];
      }
      assert page == Mm.EnableCoW(was);
    }

    method PfRoViolation(k: Mm.UserSlot, i: Slot, address: nat, codeEnd: nat) returns (ok: bool)
      requires Valid()
      modifies this`mem, phys.bits
      ensures Valid() && Mm.PfRoViolation(old(Now()), k, i, address, codeEnd) == if ok then Some(Now()) else None
    {
      var va := Mm.Va(k, i);
      if address <= codeEnd || !(Pde(k).bit10 || Pte(va).bit9) {
        return false;
      }
      if Pde(k).bit10 {
        ok := CopyPageTable(k);
        if !ok {
          return;
        }
        EnableCoW(Pde(k).frame);
        Store(current, k, Pde(k).(rw := true, bit10 := false));
      }
      var tmp, newPf;
      ok, tmp := EnterKernelPage(Pte(va).frame, false);
      if !ok {
        return;
      }
      ok, newPf := AllocPageFrame();
      if !ok {
        return;
      }
      ok := MapPage(newPf, va, true, true);
      if !ok {
        return;
      }
      CopyPage(Pte(va).frame, Pte(tmp).frame);
      ok := FreePage(tmp);
    }

    method PfNonPresent(k: Mm.UserSlot, i: Slot, address: nat, codeEnd: nat, brk: nat) returns (ok: bool)
      requires Valid()
      modifies this`mem, phys.bits
      ensures Valid()
      ensures MmMap.PfNonPresent(old(Now()), k, i, address, codeEnd, brk) == if ok then Some(Now()) else None
    {
      if !(address > codeEnd && address <= brk) {
        return false;
      }
      var f, va;
      ok, f := AllocPageFrame();
      if !ok {
        return;
      }
      ok, va := GetFreeAddress(Mm.Va(k, i));
      if !ok {
        return;
      }
      ok := MapPage(f, va, true, true);
    }

    method FreeMemUsr() returns (ok: bool)
      requires Valid()
      modifies this`mem, phys.bits
      ensures Valid() && Mm.FreeMemUsr(old(Now())) == if ok then Some(Now()) else None
    {
      hide Mm.FreePage;
      var n := 0;
      while n < Mm.USER_PAGES
        invariant 0 <= n <= Mm.USER_PAGES && Valid()
        invariant Mm.FreeUserPages(old(Now()), 0) == Mm.FreeUserPages(Now(), n)
      {
        ok := FreePage(Mm.UserPage(n));
        if !ok {
          return;
        }
        n := n + 1;
      }
      var k := 0;
      while k < Mm.KERNEL
        invariant 0 <= k <= Mm.KERNEL && Valid()
        invariant Mm.FreeMemUsr(old(Now())) == Mm.FreeUserTables(Now(), k)
      {
        ok := FreePage(Mm.Va(Mm.SELF, k));
        if !ok {
          return;
        }
        k := k + 1;
      }
      ok := true;
    }

    /** page_frame of page number n: the frame in its entry, present or not; 0 without a table. */
    function PageFrame(n: nat): FrameNo
      requires Valid() && n < 1024 * 1024
      reads this, phys
    {
      if Pde(n / 1024).p then Pte(Mm.Va(n / 1024, n % 1024)).frame else 0
    }

    /** The page numbers in [first, n) whose entry holds frame f. */
    ghost function Scanned(first: nat, n: nat, f: FrameNo): set<nat>
      requires Valid() && n <= 1024 * 1024
      reads this, phys
    {
      set i: nat | first <= i < n && PageFrame(i) == f
    }

    /** inc_phys_refs for page numbers [first, last). */
    method IncPhysRefs(first: nat, last: nat)
      requires Valid() && first <= last <= 1024 * 1024
      modifies phys.bits
      ensures Valid() && phys.bits[0] == old(phys.bits[0])
      ensures forall f :: 0 < f < FRAMES ==> phys.bits[f] == (old(phys.bits[f]) + |Scanned(first, last, f)|) % 256
    {
      hide Scanned, PageFrame;
      var i := first;
      ScanNone(first);
      while i < last
        invariant first <= i <= last && Valid()
        invariant phys.bits[0] == old(phys.bits[0])
        invariant forall f :: 0 < f < FRAMES ==> phys.bits[f] == (old(phys.bits[f]) + |Scanned(first, i, f)|) % 256
      {
        var pf := PageFrame(i);
        ghost var before := phys.bits[..];
        if pf != 0 {
          var c: int := phys.bits[pf];
          phys.bits[pf] := (c + 1) % 256;
        }
        ScanStep(first, i);
        forall f | 0 < f < FRAMES
          ensures phys.bits[f] == (old(phys.bits[f]) + |Scanned(first, i + 1, f)|) % 256
        {
          assert before[f] == (old(phys.bits[f]) + |Scanned(first, i, f)|) % 256;
          WrapStep(old(phys.bits[f]), |Scanned(first, i, f)|);
        }
        i := i + 1;
      }
    }

    /** The directory half of fork_mem: memcpy, the loop that marks both directories, and the
        self-map of the new one. */
    method CopyDirectory(d: FrameNo)
      requires Valid() && d != current
      modifies this`mem
      ensures var dir := Mm.MarkShared(old(mem)[current]);
        Valid() && mem == old(mem)[current := dir][d := dir[Mm.SELF := Entry(d, true, true)]]
    {
      CopyPage(d, current);
      ghost var dir := mem[current];
      ghost var marked := dir;
      for i := 0 to Mm.KERNEL
        invariant Valid() && |marked| == 1024
        invariant forall j :: 0 <= j < 1024 ==> marked[j] == if j < i then Mark(dir[j]) else dir[j]
        invariant mem == old(mem)[current := marked][d := marked]
      {
        Store(d, i, Mark(mem[d][i]));
        Store(current, i, Mark(mem[current][i]));
        marked := marked[i := Mark(dir[i])];
      }
      assert marked == Mm.MarkShared(dir);
      Store(d, Mm.SELF, Entry(d, true, true));
    }

    /** The two inc_phys_refs calls of fork_mem. */
    method CountCopies()
      requires Valid() && Pde(Mm.SELF).p && Pde(Mm.SELF).frame == current
      modifies phys.bits
      ensures Valid() && Now() == Mm.IncPhysRefs(old(Now()))
    {
      ghost var s := Now();
      IncPhysRefs(0, Mm.USER_PAGES);
      ghost var mid := phys.bits[..];
      IncPhysRefs(FIRST_TABLE, FIRST_TABLE + Mm.KERNEL);
      forall f | 0 <= f < FRAMES ensures phys.bits[f] == Mm.IncPhysRefs(s).refs[f] {
        if f != 0 {
          ScannedIsHolding(f);
          assert mid[f] == (s.refs[f] + |Scanned(0, Mm.USER_PAGES, f)|) % 256;
          WrapTwice(s.refs[f], |Scanned(0, Mm.USER_PAGES, f)|, |Scanned(FIRST_TABLE, FIRST_TABLE + Mm.KERNEL, f)|);
          HoldingCounts(s, Now(), f);
        }
      }
      assert phys.bits[..] == Mm.IncPhysRefs(s).refs;
    }

    /** fork_mem on the running directory. */
    method ForkMem() returns (ok: bool, d: FrameNo, va: Va)
      requires Valid() && MmFork.Good(Now())
      modifies this`mem, this`spaces, phys.bits
      ensures Valid() && Mm.ForkMem(old(Now())) == if ok then Some((Now(), d, va)) else None
    {
      va := Mm.Va(0, 0);
      ok, d := AllocPageFrame();
      if !ok {
        return;
      }
      ghost var s1 := Now();
      ok, va := EnterKernelPage(d, false);
      if !ok {
        return;
      }
      ForkWindow(old(Now()), s1, Now(), d, va);
      CopyDirectory(Pte(va).frame);
      spaces := spaces + {d};
      CountCopies();
    }

    /** The two scans of fork_mem together see each user place of the running process once. */
    lemma ScannedIsHolding(f: FrameNo)
      requires Valid() && f != 0 && Pde(Mm.SELF).p && Pde(Mm.SELF).frame == current
      ensures |Mm.Holding(Now(), f)|
           == |Scanned(0, Mm.USER_PAGES, f)| + |Scanned(FIRST_TABLE, FIRST_TABLE + Mm.KERNEL, f)|
    {
      var s := Now();
      var A, B := Scanned(0, Mm.USER_PAGES, f), Scanned(FIRST_TABLE, FIRST_TABLE + Mm.KERNEL, f);
      forall o | o in Mm.Holding(s, f) ensures PlaceNumber(o) in A + B && o.a == current {
        MmInvariant.InAll({s.cur}, o);
        NumberOfPlace(o);
      }
      forall n | n in A + B ensures PlaceAt(current, n) in Mm.Holding(s, f) && PlaceNumber(PlaceAt(current, n)) == n {
        MmInvariant.InAll({s.cur}, PlaceAt(current, n));
        PlaceOfNumber(current, n);
      }
      PlacesSize(Mm.Holding(s, f), A + B, current);
      assert A !! B;
    }

    lemma ScanNone(first: nat)
      requires Valid() && first <= 1024 * 1024
      ensures forall f: FrameNo :: Scanned(first, first, f) == {}
    {
    }

    lemma ScanStep(first: nat, i: nat)
      requires Valid() && first <= i < 1024 * 1024
      ensures forall f: FrameNo ::
        |Scanned(first, i + 1, f)| == |Scanned(first, i, f)| + if PageFrame(i) == f then 1 else 0
    {
      forall f: FrameNo
        ensures |Scanned(first, i + 1, f)| == |Scanned(first, i, f)| + if PageFrame(i) == f then 1 else 0
      {
        assert Scanned(first, i + 1, f) == Scanned(first, i, f) + if PageFrame(i) == f then {i} else {};
        assert i !in Scanned(first, i, f);
      }
    }
  }

  lemma SearchIsLowest(refs: seq<Mm.Byte>, r: int)
    requires |refs| == FRAMES
    requires r == -1 ==> forall j :: 0 <= j < FRAMES ==> refs[j] != 0
    requires r != -1 ==> 0 <= r < FRAMES && refs[r] == 0 && forall j :: 0 <= j < r ==> refs[j] != 0
    ensures Mm.SearchFree(refs, 0) == if r == -1 then FRAMES else r
  {
  }

  const FIRST_TABLE := 1023 * 1024 // the page number of get_page_table(0)

  function Mark(w: Word): Word {
    w.(rw := false, bit9 := true, bit10 := true)
  }

  /** The page number that scans a place: the page itself, or the window page of its table. */
  function PlaceNumber(o: Mm.Owner): nat {
    match o
    case Tab(_, k) => FIRST_TABLE + k
    case Pg(_, k, i) => k * 1024 + i
  }

  predicate UserNumber(n: nat) {
    n < Mm.USER_PAGES || FIRST_TABLE <= n < FIRST_TABLE + Mm.KERNEL
  }

  function PlaceAt(a: FrameNo, n: nat): Mm.Owner
    requires UserNumber(n)
  {
    if n < Mm.USER_PAGES then Mm.Pg(a, n / 1024, n % 1024) else Mm.Tab(a, n - FIRST_TABLE)
  }

  lemma NumberOfPlace(o: Mm.Owner)
    ensures UserNumber(PlaceNumber(o)) && PlaceAt(o.a, PlaceNumber(o)) == o
    ensures o.Tab? ==> PlaceNumber(o) / 1024 == Mm.SELF && PlaceNumber(o) % 1024 == o.k
    ensures o.Pg? ==> PlaceNumber(o) / 1024 == o.k && PlaceNumber(o) % 1024 == o.i
  {
  }

  lemma PlaceOfNumber(a: FrameNo, n: nat)
    requires UserNumber(n)
    ensures PlaceNumber(PlaceAt(a, n)) == n
    ensures n >= FIRST_TABLE ==> n / 1024 == Mm.SELF && n % 1024 == n - FIRST_TABLE
  {
  }

  lemma PlacesSize(H: set<Mm.Owner>, N: set<nat>, a: FrameNo)
    requires forall o :: o in H ==> o.a == a && PlaceNumber(o) in N
    requires forall n :: n in N ==> UserNumber(n) && PlaceAt(a, n) in H && PlaceNumber(PlaceAt(a, n)) == n
    ensures |H| == |N|
  {
    var f := map o | o in H :: PlaceNumber(o);
    forall o, p | o in f && p in f && f[o] == f[p] ensures o == p {
      NumberOfPlace(o);
      NumberOfPlace(p);
    }
    forall n | n in N ensures n in f.Values {
      assert f[PlaceAt(a, n)] == n;
    }
    assert f.Values == N && f.Keys == H;
    InjectiveMapSize(f);
  }

  lemma WrapTwice(x: int, m: nat, n: nat)
    ensures ((x + m) % 256 + n) % 256 == (x + (m + n)) % 256
  {
  }

  lemma HoldingCounts(s: State, s': State, f: FrameNo)
    requires s' == s.(refs := s'.refs)
    ensures Mm.Holding(s', f) == Mm.Holding(s, f)
  {
    assert forall o: Mm.Owner :: Mm.SlotWord(s', o) == Mm.SlotWord(s, o);
  }

  /** What the invariant says about fork_mem's temporary state: the new directory is not the
      running one, its kernel page maps it, and the self-map is in place. */
  lemma ForkWindow(s: State, s1: State, s2: State, d: FrameNo, va: Va)
    requires MmFork.Good(s) && Mm.AllocPageFrame(s) == Some((s1, d))
    requires Mm.EnterKernelPage(s1, d, false) == Some((s2, va))
    ensures d != s2.cur && Mm.Pte(s2, va).frame == d
    ensures Mm.Pde(s2, Mm.SELF).p && Mm.Pde(s2, Mm.SELF).frame == s2.cur
  {
    var R :| MmInvariant.Inv(s, R, {}, {});
    MmInvariant.AllocInv(s, R, {}, {});
    var R1 := R[d := MmInvariant.Spare];
    var R2 := MmInvariant.EnterInv(s1, R1, {}, {}, d, false);
    assert MmInvariant.DirOk(s1, R1, s.cur);
  }

  lemma WrapStep(x: int, n: nat)
    ensures ((x + n) % 256 + 1) % 256 == (x + n + 1) % 256
  {
  }

  lemma NextIndex(index: nat, offset: int)
    ensures (index + 1 + offset) % 1024 == ((index + offset) % 1024 + 1) % 1024
  {
  }
}
