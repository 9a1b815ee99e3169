/** kernel/mm.c as functions on the machine state: physical frames, reference counts and
    page directories. A function returns None where the source panics. */
module Mm {
  import opened Wrappers
  import opened PageWords

  const KERNEL := 768  // dir_index(KERNEL_MEMORY)
  const SELF := 1023   // the directory entry that maps the directory itself

  type Byte = b: int | 0 <= b < 256
  type UserSlot = k: int | 0 <= k < KERNEL

  /** A virtual page: dir_index and page_table_index of its addresses. */
  datatype Va = Va(d: Slot, t: Slot)

  /** mem is physical memory by frame, refs the reference counts of phys_mm.c, spaces the
      frames of the live page directories, and cur the directory of the running process. */
  datatype Machine = Machine(mem: seq<Page>, refs: seq<Byte>, spaces: set<FrameNo>, cur: FrameNo)

  ghost predicate Sized(s: Machine) {
    |s.mem| == FRAMES && |s.refs| == FRAMES && s.cur in s.spaces
  }

  type State = s: Machine | Sized(s)
    witness Machine(seq(FRAMES, _ => ZeroPage()), seq(FRAMES, _ => 0), {0}, 0)

  function Pde(s: State, d: Slot): Word {
    s.mem[s.cur][d]
  }

  /** The entry that get_page_entry finds for va when its page table is present. */
  function Pte(s: State, va: Va): Word {
    s.mem[Pde(s, va.d).frame][va.t]
  }

  function Store(s: State, f: FrameNo, t: Slot, w: Word): State {
    s.(mem := s.mem[f := s.mem[f][t := w]])
  }

  /** A store through the address get_page_entry returns. */
  function SetPte(s: State, va: Va, w: Word): State {
    Store(s, Pde(s, va.d).frame, va.t, w)
  }

  // ----- kernel/phys_mm.c, on the counts

  /** The first frame from i on whose count is zero, or FRAMES. */
  function SearchFree(refs: seq<Byte>, i: nat): (r: nat)
    requires i <= |refs|
    ensures i <= r <= |refs|
    ensures r < |refs| ==> refs[r] == 0
    ensures forall j :: i <= j < r ==> refs[j] != 0
    decreases |refs| - i
  {
    if i == |refs| || refs[i] == 0 then i else SearchFree(refs, i + 1)
  }

  function AllocPageFrame(s: State): Option<(State, FrameNo)> {
    var f := SearchFree(s.refs, 0);
    if f == FRAMES then None else Some((s.(refs := s.refs[f := 1]), f))
  }

  function FreePageFrame(s: State, f: FrameNo): State {
    if s.refs[f] > 0 then s.(refs := s.refs[f := s.refs[f] - 1]) else s
  }

  // ----- kernel/mm.c

  function AddPageTable(s: State, d: Slot, user: bool): Option<State> {
    var (s1, f) :- AllocPageFrame(s);
    var s2 := Store(s1, s.cur, d, Entry(f, true, user));
    Some(s2.(mem := s2.mem[Pde(s2, d).frame := ZeroPage()]))
  }

  /** The first slot of page from t on that is not present, or 1024. */
  function FirstAbsent(page: Page, t: nat): (r: nat)
    requires t <= 1024
    ensures t <= r <= 1024
    ensures r < 1024 ==> !page[r].p
    ensures forall j :: t <= j < r ==> page[j].p
    decreases 1024 - t
  {
    if t == 1024 || !page[t].p then t else FirstAbsent(page, t + 1)
  }

  /** get_free_address with `left` directory entries still to look at. */
  function SearchAddress(s: State, d: Slot, t: Slot, left: nat): Option<(State, Va)>
    decreases left
  {
    if left == 0 then
      None
    else if !Pde(s, d).p then
      var s1 :- AddPageTable(s, d, false);
      Some((s1, Va(d, 0)))
    else
      var r := FirstAbsent(s.mem[Pde(s, d).frame], t);
      if r < 1024 then Some((s, Va(d, r))) else SearchAddress(s, (d + 1) % 1024, 0, left - 1)
  }

  function GetFreeAddress(s: State, target: Va): Option<(State, Va)> {
    SearchAddress(s, target.d, target.t, 1023)
  }

  /** enter_page at KERNEL_MEMORY. A search that leaves the kernel window counts as the
      out-of-address-space panic of its callers. */
  function EnterKernelPage(s: State, f: FrameNo, user: bool): Option<(State, Va)> {
    var (s1, va) :- GetFreeAddress(s, Va(KERNEL, 0));
    if KERNEL <= va.d < SELF then Some((SetPte(s1, va, Entry(f, true, user)), va)) else None
  }

  /** free_page of a present page in the kernel window, whose page table is never shared. */
  function DropPage(s: State, va: Va): State {
    var s1 := FreePageFrame(s, Pte(s, va).frame);
    SetPte(s1, va, Pte(s1, va).(p := false))
  }

  /** copy_page_table for the page table that directory entry d holds. MmSplit shows that its
      calls of enter_page, map_page and free_page take none of the branches left out here. */
  function CopyPageTable(s: State, d: Slot): Option<State> {
    var table := Pde(s, d).frame;
    var (s1, tmp) :- EnterKernelPage(s, table, true);
    var (s2, new_pf) :- AllocPageFrame(s1);
    var s3 := SetPte(s2, Va(SELF, d), Entry(new_pf, true, true));
    var s4 := s3.(mem := s3.mem[Pde(s3, d).frame := s3.mem[Pte(s3, tmp).frame]]);
    Some(DropPage(s4, tmp))
  }

  /** What map_page and free_address do first: take a private copy of a shared table. */
  function Unshare(s: State, d: Slot): Option<State> {
    if Pde(s, d).bit9 then CopyPageTable(s, d) else Some(s)
  }

  function MapPage(s: State, f: FrameNo, va: Va, rw: bool, user: bool): Option<State> {
    var s1 :- if Pde(s, va.d).p then Some(s) else AddPageTable(s, va.d, user);
    var s2 :- Unshare(s1, va.d);
    Some(SetPte(s2, va, Entry(f, rw, user)))
  }

  /** enter_page. */
  function EnterPage(s: State, f: FrameNo, target: Va, rw: bool, user: bool): Option<(State, Va)> {
    var (s1, va) :- GetFreeAddress(s, target);
    var s2 :- MapPage(s1, f, va, rw, user);
    Some((s2, va))
  }

  function FreeAddress(s: State, va: Va): Option<State> {
    if !Pde(s, va.d).p then
      Some(s)
    else
      var s1 :- Unshare(s, va.d);
      Some(SetPte(s1, va, Pte(s1, va).(p := false)))
  }

  function FreePage(s: State, va: Va): Option<State> {
    if Pde(s, va.d).p && Pte(s, va).p then
      FreeAddress(FreePageFrame(s, Pte(s, va).frame), va)
    else
      Some(s)
  }

  /** copy_page_table as it is written, with every call in full. */
  function CopyPageTableInFull(s: State, d: Slot): Option<State> {
    var (s1, tmp) :- EnterPage(s, Pde(s, d).frame, Va(KERNEL, 0), true, true);
    var (s2, new_pf) :- AllocPageFrame(s1);
    var s3 :- MapPage(s2, new_pf, Va(SELF, d), true, true);
    var s4 := s3.(mem := s3.mem[Pde(s3, d).frame := s3.mem[Pte(s3, tmp).frame]]);
    FreePage(s4, tmp)
  }

  function EnableCoW(page: Page): Page {
    seq(1024, i requires 0 <= i < 1024 => page[i].(rw := false, bit9 := true))
  }

  /** The table half of pf_ro_violation, for an entry with bit 10 set. */
  function SplitTable(s: State, k: UserSlot): Option<State> {
    var s1 :- CopyPageTable(s, k);
    var t := Pde(s1, k).frame;
    var s2 := s1.(mem := s1.mem[t := EnableCoW(s1.mem[t])]);
    Some(Store(s2, s2.cur, k, Pde(s2, k).(rw := true, bit10 := false)))
  }

  /** The page half of pf_ro_violation. */
  function SplitPage(s: State, va: Va): Option<State> {
    var (s1, tmp) :- EnterKernelPage(s, Pte(s, va).frame, false);
    var (s2, new_pf) :- AllocPageFrame(s1);
    var s3 :- MapPage(s2, new_pf, va, true, true);
    var s4 := s3.(mem := s3.mem[Pte(s3, va).frame := s3.mem[Pte(s3, tmp).frame]]);
    FreePage(s4, tmp)
  }

  function PfRoViolation(s: State, k: UserSlot, i: Slot, address: nat, codeEnd: nat): Option<State> {
    if address <= codeEnd || !(Pde(s, k).bit10 || Pte(s, Va(k, i)).bit9) then
      None
    else
      var s1 :- if Pde(s, k).bit10 then SplitTable(s, k) else Some(s);
      SplitPage(s1, Va(k, i))
  }

  // ----- references to frames

  /** The place of a reference to a frame from the user half of an address space: directory
      entry k of space a, or page i of the table that this entry holds. */
  datatype Owner = Tab(a: FrameNo, k: UserSlot) | Pg(a: FrameNo, k: UserSlot, i: Slot)

  /** The word in that place; a page has no place while its table is not present. */
  function SlotWord(s: State, o: Owner): Option<Word> {
    var pde := s.mem[o.a][o.k];
    match o
    case Tab(_, _) => Some(pde)
    case Pg(_, _, i) => if pde.p then Some(s.mem[pde.frame][i]) else None
  }

  ghost function All(spaces: set<FrameNo>): set<Owner> {
    (set a, k: UserSlot | a in spaces :: Tab(a, k)) + (set a, k: UserSlot, i: Slot | a in spaces :: Pg(a, k, i))
  }

  /** The places of the running process that hold frame f, present or not. */
  ghost function Holding(s: State, f: FrameNo): set<Owner> {
    set o | o in All({s.cur}) && SlotWord(s, o).Some? && SlotWord(s, o).value.frame == f
  }

  /** Both inc_phys_refs calls of fork_mem. Frame 0 is skipped because its address is NULL;
      the present bit is not looked at; counts are bytes and wrap. */
  ghost function IncPhysRefs(s: State): State {
    s.(refs := seq(FRAMES, f requires 0 <= f < FRAMES =>
      if f == 0 then s.refs[0] else (s.refs[f] + |Holding(s, f)|) % 256))
  }

  function MarkShared(dir: Page): Page {
    seq(1024, d requires 0 <= d < 1024 =>
      if d < KERNEL then dir[d].(rw := false, bit9 := true, bit10 := true) else dir[d])
  }

  /** fork_mem on the running directory: the new state, the frame of the new directory and
      the kernel page that maps it. */
  ghost function ForkMem(s: State): Option<(State, FrameNo, Va)> {
    var (s1, d) :- AllocPageFrame(s);
    var (s2, va) :- EnterKernelPage(s1, d, false);
    var dir := MarkShared(s2.mem[s2.cur]);
    var s3 := s2.(mem := s2.mem[s2.cur := dir][d := dir[SELF := Entry(Pte(s2, va).frame, true, true)]],
                  spaces := s2.spaces + {d});
    Some((IncPhysRefs(s3), d, va))
  }

  const USER_PAGES := KERNEL * 1024

  function UserPage(n: nat): Va
    requires n < USER_PAGES
  {
    Va(n / 1024, n % 1024)
  }

  /** The first loop of free_mem_usr, from page number n on. */
  function FreeUserPages(s: State, n: nat): Option<State>
    requires n <= USER_PAGES
    decreases USER_PAGES - n
  {
    if n == USER_PAGES then
      Some(s)
    else
      var s1 :- FreePage(s, UserPage(n));
      FreeUserPages(s1, n + 1)
  }

  /** The second loop of free_mem_usr, from page table k on. */
  function FreeUserTables(s: State, k: nat): Option<State>
    requires k <= KERNEL
    decreases KERNEL - k
  {
    if k == KERNEL then
      Some(s)
    else
      var s1 :- FreePage(s, Va(SELF, k));
      FreeUserTables(s1, k + 1)
  }

  function FreeMemUsr(s: State): Option<State> {
    var s1 :- FreeUserPages(s, 0);
    FreeUserTables(s1, 0)
  }
}
