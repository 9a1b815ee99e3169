/** Where mm.c does not keep its promises: writes after mapping into a shared table, and the
    frame that free_page is releasing. */
module MmLimits {
  import opened Wrappers
  import opened PageWords
  import opened Mm
  import opened MmInvariant
  import opened MmSplit
  import opened MmFork
  import opened MmMap
  import opened MmSteps

  // ----- mapping into a table that is still shared

  /** Where MapIsolatesIff says that isolation is lost, it really is: the next write of the
      running process changes what the other reads. */
  lemma SharedMapBreaksIsolation(s: State, R: Roles, k: UserSlot, i: Slot, j: Slot, b: FrameNo,
                                 off: Slot, w: Word)
    requires Inv(s, R, {}, {}) && MapFresh(s, Va(k, i), true, true).Some?
    requires Pde(s, k).p && Pde(s, k).bit9 && !Pte(s, Va(k, i)).p
    requires b in s.spaces && b != s.cur && Pte(s, Va(k, j)).p && Pte(s, Va(k, j)).rw && Pte(s, Va(k, j)).user
    requires Target(s, {}, Pg(b, k, j)) == Some(Pte(s, Va(k, j)).frame)
    ensures var s1 := MapFresh(s, Va(k, i), true, true).value; var s2 := UserWrite(s1, k, j, off, w, 0);
      && s2.Some? && Look(s1, {}, Pg(b, k, j)).Some?
      && Look(s2.value, {}, Pg(b, k, j)) == Some(Look(s1, {}, Pg(b, k, j)).value[off := w])
  {
    var s1 := MapFresh(s, Va(k, i), true, true).value;
    var R1 := MapFreshAny(s, R, k, i, true, true);
    var o, o' := Pg(s.cur, k, j), Pg(b, k, j);
    assert SlotWord(s1, o) == SlotWord(s, o) && SlotWord(s1, o') == SlotWord(s, o');
    StoreReaches(s1, R1, PagesOf(s.cur, k), o', Pte(s1, Va(k, j)).frame, off, w);
  }

  lemma StoreReaches(s: State, R: Roles, ex: set<Owner>, o: Owner, f: FrameNo, off: Slot, w: Word)
    requires Inv(s, R, {}, ex) && o.a in s.spaces && o.Pg? && Target(s, {}, o) == Some(f)
    ensures Look(s, {}, o).Some? && Look(Store(s, f, off, w), {}, o) == Some(Look(s, {}, o).value[off := w])
  {
    TableRole(s, R, {}, ex, o.a, o.k);
    assert R[f] == RoleOf(o);
  }

  // ----- the frame that free_page is releasing

  /** free_page drops the count before it clears the entry, so the allocations of
      copy_page_table in between can be given the very frame being released: exactly when
      this was its last reference and no lower frame is free. */
  lemma ReleasedFrameReused(s: State, f: FrameNo)
    requires s.refs[f] > 0
    ensures (AllocPageFrame(FreePageFrame(s, f)).Some? && AllocPageFrame(FreePageFrame(s, f)).value.1 == f)
       <==> s.refs[f] == 1 && forall g: FrameNo :: g < f ==> s.refs[g] != 0
  {
    var s1 := FreePageFrame(s, f);
    LowestFree(s1, f);
    assert forall g: FrameNo :: g < f ==> s1.refs[g] == s.refs[g];
  }
}
