/** Addresses: the recursive self-map at 32-bit byte level, and the search for a free page. */
module MmAddress {
  import opened Wrappers
  import opened PageWords
  import opened Mm
  import opened MmInvariant

  const PAGE_SIZE := 0x1000
  const KERNEL_MEMORY: Uint32 := 0xC000_0000

  function DirIndex(a: Uint32): Slot {
    a / 0x40_0000
  }

  function PageTableIndex(a: Uint32): Slot {
    a / PAGE_SIZE % 1024
  }

  /** Directory index, table index and offset make up the address. */
  lemma IndexParts(a: Uint32)
    ensures a == DirIndex(a) * 0x40_0000 + PageTableIndex(a) * PAGE_SIZE + a % PAGE_SIZE
  {
    assert a / PAGE_SIZE / 1024 == a / 0x40_0000;
  }

  /** The subtraction wraps around 32 bits. */
  function GetPageTable(a: Uint32): Uint32 {
    (0 - PAGE_SIZE * (1024 - DirIndex(a))) % 0x1_0000_0000
  }

  /** The pointer get_page_entry returns; None is its NULL. */
  function GetPageEntry(s: State, a: Uint32): Option<Uint32> {
    if Pde(s, DirIndex(a)).p then Some((GetPageTable(a) + 4 * PageTableIndex(a)) % 0x1_0000_0000) else None
  }

  /** The processor's walk of the running directory (Intel SDM Volume 3A, section 4.3): the
      frame and the byte in it that address a denotes, or None for a page fault. */
  function Walk(s: State, a: Uint32): Option<(FrameNo, nat)> {
    var va := Va(DirIndex(a), PageTableIndex(a));
    if Pde(s, va.d).p && Pte(s, va).p then Some((Pte(s, va).frame, a % PAGE_SIZE)) else None
  }

  ghost predicate SelfMapped(s: State) {
    Pde(s, SELF).p && Pde(s, SELF).frame == s.cur
  }

  lemma TableAddress(a: Uint32)
    ensures GetPageTable(a) == 0xFFC0_0000 + PAGE_SIZE * DirIndex(a)
  {
    var d: int := DirIndex(a);
    assert 0 - PAGE_SIZE * (1024 - d) == 0x1_0000_0000 * (-1) + (0xFFC0_0000 + PAGE_SIZE * d);
  }

  lemma WindowIndexes(d: Slot, t: Slot)
    ensures var e := 0xFFC0_0000 + PAGE_SIZE * d + 4 * t;
      e < 0x1_0000_0000 && DirIndex(e) == SELF && PageTableIndex(e) == d && e % PAGE_SIZE == 4 * t
  {
    var e := 0xFFC0_0000 + PAGE_SIZE * d + 4 * t;
    assert e / PAGE_SIZE == 0xFFC00 + d;
    assert 0xFFC00 + d == 1024 * 1023 + d;
  }

  /** Given the self-map, the pointer of get_page_entry reaches the page-table entry of a:
      the word PageTableIndex(a) of the frame in a's directory entry. Without a present
      directory entry the same pointer would fault, so the NULL test is exactly right. */
  lemma SelfMapCorrect(s: State, a: Uint32)
    requires SelfMapped(s)
    ensures var e := (GetPageTable(a) + 4 * PageTableIndex(a)) % 0x1_0000_0000;
      && (Walk(s, e).Some? <==> GetPageEntry(s, a).Some?)
      && (Walk(s, e).Some? ==> Walk(s, e).value == (Pde(s, DirIndex(a)).frame, 4 * PageTableIndex(a)))
  {
    TableAddress(a);
    WindowIndexes(DirIndex(a), PageTableIndex(a));
  }

  /** The page at GetPageTable(a) is the page table of a, and its own page-table entry is the
      directory entry of a: what copy_page_table and the second loop of free_mem_usr use. */
  lemma TablePage(s: State, a: Uint32)
    requires SelfMapped(s)
    ensures var t := GetPageTable(a);
      && DirIndex(t) == SELF && PageTableIndex(t) == DirIndex(a)
      && GetPageEntry(s, t).Some?
      && Pte(s, Va(SELF, DirIndex(a))) == Pde(s, DirIndex(a))
      && Walk(s, GetPageEntry(s, t).value) == Some((s.cur, 4 * DirIndex(a)))
  {
    TableAddress(a);
    WindowIndexes(DirIndex(a), 0);
    SelfMapCorrect(s, GetPageTable(a));
  }

  /** free_mem_usr's second loop visits the tables of the user half, and only those. */
  lemma TableLoopBounds(a: Uint32)
    requires a % PAGE_SIZE == 0
    ensures GetPageTable(0) <= a < GetPageTable(KERNEL_MEMORY)
       <==> exists k: UserSlot :: a == 0xFFC0_0000 + PAGE_SIZE * k
  {
    TableAddress(0);
    TableAddress(KERNEL_MEMORY);
    if GetPageTable(0) <= a < GetPageTable(KERNEL_MEMORY) {
      var k := (a - 0xFFC0_0000) / PAGE_SIZE;
      assert a == 0xFFC0_0000 + PAGE_SIZE * k;
      assert 0 <= k < KERNEL;
    }
  }

  // ----- get_free_address

  ghost predicate Before(a: Va, b: Va) {
    a.d < b.d || (a.d == b.d && a.t < b.t)
  }

  /** Every page from (d, t) up to va is taken and va itself is not. */
  ghost predicate Lowest(s: State, d: Slot, t: Slot, va: Va) {
    !Present(s, va) && forall q: Va :: !Before(q, Va(d, t)) && Before(q, va) ==> Present(s, q)
  }

  /** How many entries after d, cyclically, entry x comes. */
  function Distance(d: Slot, x: Slot): int {
    if x >= d then x - d else x - d + 1024
  }

  /** The search stays within the entries it was allowed to look at, and either finds the
      lowest free page from its start on or has wrapped around. */
  lemma {:induction false} SearchLowest(s: State, d: Slot, t: Slot, left: nat)
    requires left <= 1023 && SearchAddress(s, d, t, left).Some?
    requires !Pde(s, d).p ==> t == 0
    ensures var va := SearchAddress(s, d, t, left).value.1;
      && Distance(d, va.d) < left
      && (va.d >= d ==> Lowest(s, d, t, va))
    decreases left
  {
    if Pde(s, d).p && FirstAbsent(s.mem[Pde(s, d).frame], t) == 1024 {
      var n: Slot := (d + 1) % 1024;
      assert n == if d == 1023 then 0 else d + 1;
      SearchLowest(s, n, 0, left - 1);
      var va := SearchAddress(s, n, 0, left - 1).value.1;
      if va.d >= d {
        LowestFrom(s, d, t, va);
      }
    } else {
      var va := SearchAddress(s, d, t, left).value.1;
      assert forall j :: t <= j < va.t ==> s.mem[Pde(s, d).frame][j].p;
    }
  }

  lemma LowestFrom(s: State, d: Slot, t: Slot, va: Va)
    requires d < 1023 && Pde(s, d).p && FirstAbsent(s.mem[Pde(s, d).frame], t) == 1024
    requires va.d > d && Lowest(s, d + 1, 0, va)
    ensures Lowest(s, d, t, va)
  {
    forall q: Va | !Before(q, Va(d, t)) && Before(q, va) ensures Present(s, q) {
      if q.d == d {
        assert s.mem[Pde(s, d).frame][q.t].p;
      } else {
        assert !Before(q, Va(d + 1, 0));
      }
    }
  }

  /** A search that has a free page ahead of it fails only for want of a frame, and finds a
      page no later than that one. */
  lemma {:induction false} SearchFinds(s: State, d: Slot, t: Slot, left: nat, q: Va)
    requires !Present(s, q) && !Before(q, Va(d, t)) && q.d - d < left
    requires AllocPageFrame(s).Some?
    ensures SearchAddress(s, d, t, left).Some?
    ensures var va := SearchAddress(s, d, t, left).value.1; va.d >= d && !Before(q, va)
    decreases left
  {
    if Pde(s, d).p && FirstAbsent(s.mem[Pde(s, d).frame], t) == 1024 {
      assert q.d > d;
      SearchFinds(s, d + 1, 0, left - 1, q);
    }
  }

  /** get_free_address for a target that is 4 MiB aligned: whenever some page at or above
      the target and below the self-map window is free, it returns the lowest such page. */
  lemma GetFreeAddressLowest(s: State, d: Slot, q: Va)
    requires !Present(s, q) && d <= q.d < SELF && AllocPageFrame(s).Some?
    ensures GetFreeAddress(s, Va(d, 0)).Some?
    ensures var va := GetFreeAddress(s, Va(d, 0)).value.1;
      d <= va.d < SELF && !Before(q, va) && Lowest(s, d, 0, va)
  {
    SearchFinds(s, d, 0, 1023, q);
    SearchLowest(s, d, 0, 1023);
  }

  /** Nor does it disturb a page that is present, even when it installs a page table: the
      table's frame is one that nothing refers to. So enter_page overwrites no mapping. */
  lemma GetFreeAddressPreserves(s: State, R: Roles, target: Va, q: Va)
    requires Inv(s, R, {}, {}) && GetFreeAddress(s, target).Some? && Present(s, q)
    ensures var (s', va) := GetFreeAddress(s, target).value;
      va != q && Present(s', q) && Pte(s', q) == Pte(s, q)
  {
    SearchFound(s, target.d, target.t, 1023);
    var (s', va) := GetFreeAddress(s, target).value;
    if !Pde(s, va.d).p {
      AllocInv(s, R, {}, {});
      var (s1, f) := AllocPageFrame(s).value;
      var R1 := R[f := Spare];
      assert DirOk(s1, R1, s.cur);
      if q.d < KERNEL {
        TableRole(s1, R1, {}, {}, s.cur, q.d);
      }
    }
  }
}
