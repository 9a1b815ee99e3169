/** kernel/phys_mm.c: the byte-per-frame reference counts. */
module PhysMm {
  import opened PageWords
  import Mm

  type Byte = Mm.Byte

  /** One entry of the multiboot memory map. */
  datatype MapEntry = MapEntry(addr: nat, len: nat, kind: nat)

  const AVAILABLE := 1
  const ACPI_RECLAIMABLE := 3

  predicate Usable(e: MapEntry) {
    e.kind == AVAILABLE || e.kind == ACPI_RECLAIMABLE
  }

  /** Frame f lies in the page range of e: both ends are rounded down. */
  predicate Covers(e: MapEntry, f: int) {
    e.addr / 4096 <= f < (e.addr + e.len) / 4096
  }

  predicate CoveredBy(es: seq<MapEntry>, usable: bool, f: int) {
    exists i :: 0 <= i < |es| && Usable(es[i]) == usable && Covers(es[i], f)
  }

  /** What init_phys_mm leaves: a frame is free exactly when it is above the kernel's 4 MiB,
      in some usable range and in no other range. */
  predicate FreeAtBoot(es: seq<MapEntry>, f: int) {
    f >= 1024 && CoveredBy(es, true, f) && !CoveredBy(es, false, f)
  }

  /** An area that does not include index BITMAP_SIZE. */
  predicate StaysInside(start: nat, end: nat) {
    !(start <= FRAMES < end)
  }

  /** The index j is in the area and passes the test of set_bitmap_area. */
  predicate Passes(start: nat, end: nat, j: int) {
    start <= j < end && !(j > FRAMES)
  }

  /** set_bitmap_area writes only cells that exist if and only if its area stays inside: the
      indexes that pass its test are then all below BITMAP_SIZE. */
  lemma StaysInsideIff(start: nat, end: nat)
    ensures (forall j :: Passes(start, end, j) ==> j < FRAMES) <==> StaysInside(start, end)
  {
    assert Passes(start, end, FRAMES) <==> start <= FRAMES < end;
  }

  class Bitmap {
    const bits: array<Byte>

    predicate Valid()
      reads this
    {
      bits.Length == FRAMES
    }

    constructor ()
      ensures Valid() && fresh(bits)
    {
      bits := new Byte[FRAMES](_ => 0);
    }

    /** set_bitmap_area. Its test skips the indexes above BITMAP_SIZE, but not BITMAP_SIZE
        itself, which no area may therefore include. */
    method SetArea(value: Byte, start: nat, end: nat)
      requires Valid() && StaysInside(start, end)
      modifies bits
      ensures forall f :: 0 <= f < FRAMES ==> bits[f] == if start <= f < end then value else old(bits[f])
    {
      var j := start;
      while j < end
        invariant start <= j && (j == start || j <= end)
        invariant forall f :: 0 <= f < FRAMES ==> bits[f] == if start <= f < j then value else old(bits[f])
      {
        if !(j > FRAMES) {
          bits[j] := value;
        }
        j := j + 1;
      }
    }

    /** The counts after boot say exactly which frames are free, whatever the order of the
        entries and however they overlap. */
    method Init(es: seq<MapEntry>)
      requires Valid()
      requires forall i :: 0 <= i < |es| ==> StaysInside(es[i].addr / 4096, (es[i].addr + es[i].len) / 4096)
      modifies bits
      ensures forall f :: 0 <= f < FRAMES ==> bits[f] == if FreeAtBoot(es, f) then 0 else 1
    {
      SetArea(1, 0, FRAMES);
      var i := 0;
      while i < |es|
        invariant 0 <= i <= |es|
        invariant forall f :: 0 <= f < FRAMES ==> bits[f] == if CoveredBy(es[..i], true, f) then 0 else 1
      {
        ghost var before := bits[..];
        if Usable(es[i]) {
          SetArea(0, es[i].addr / 4096, (es[i].addr + es[i].len) / 4096);
        }
        forall f | 0 <= f < FRAMES ensures bits[f] == if CoveredBy(es[..i + 1], true, f) then 0 else 1 {
          OneMore(es, i, true, f);
          assert before[f] == if CoveredBy(es[..i], true, f) then 0 else 1;
        }
        i := i + 1;
      }
      assert es[..i] == es;
      i := 0;
      while i < |es|
        invariant 0 <= i <= |es|
        invariant forall f :: 0 <= f < FRAMES ==>
          bits[f] == if CoveredBy(es, true, f) && !CoveredBy(es[..i], false, f) then 0 else 1
      {
        ghost var before := bits[..];
        if !Usable(es[i]) {
          SetArea(1, es[i].addr / 4096, (es[i].addr + es[i].len) / 4096);
        }
        forall f | 0 <= f < FRAMES
          ensures bits[f] == if CoveredBy(es, true, f) && !CoveredBy(es[..i + 1], false, f) then 0 else 1
        {
          OneMore(es, i, false, f);
          assert before[f] == if CoveredBy(es, true, f) && !CoveredBy(es[..i], false, f) then 0 else 1;
        }
        i := i + 1;
      }
      assert es[..i] == es;
      SetArea(1, 0, 1024);
    }

    /** search_bitmap: the first count from start on that is 1, or 0 for false. */
    method Search(value: bool, start: nat) returns (f: int)
      requires Valid() && start <= FRAMES
      ensures f == -1 ==> forall j :: start <= j < FRAMES ==> bits[j] != CountOf(value)
      ensures f != -1 ==> start <= f < FRAMES && bits[f] == CountOf(value)
      ensures f != -1 ==> forall j :: start <= j < f ==> bits[j] != CountOf(value)
    {
      var i := start;
      while i < FRAMES
        invariant start <= i <= FRAMES
        invariant forall j :: start <= j < i ==> bits[j] != CountOf(value)
      {
        if bits[i] == CountOf(value) {
          return i;
        }
        i := i + 1;
      }
      return -1;
    }
  }

  function CountOf(value: bool): Byte {
    if value then 1 else 0
  }

  lemma OneMore(es: seq<MapEntry>, i: nat, usable: bool, f: int)
    requires i < |es|
    ensures CoveredBy(es[..i + 1], usable, f)
       <==> CoveredBy(es[..i], usable, f) || (Usable(es[i]) == usable && Covers(es[i], f))
  {
    var a, b := es[..i], es[..i + 1];
    if CoveredBy(a, usable, f) {
      var j :| 0 <= j < |a| && Usable(a[j]) == usable && Covers(a[j], f);
      assert b[j] == a[j];
    }
    if Usable(es[i]) == usable && Covers(es[i], f) {
      assert b[i] == es[i];
    }
    if CoveredBy(b, usable, f) {
      var j :| 0 <= j < |b| && Usable(b[j]) == usable && Covers(b[j], f);
      assert j < i ==> a[j] == b[j];
    }
  }

  /** The map read in bytes: the end of frame f lies inside the range of e. */
  predicate EndsIn(e: MapEntry, f: int) {
    e.addr < (f + 1) * 4096 <= e.addr + e.len
  }

  /** A frame is free at boot if and only if it is none of the first 1024, ends inside some range,
      and every range that it ends in is available memory, of kind 1, or can be reclaimed, of
      kind 3. */
  lemma FreeIff(es: seq<MapEntry>, f: nat)
    ensures FreeAtBoot(es, f)
       <==> && f >= 1024 && (exists e :: e in es && EndsIn(e, f))
            && forall e :: e in es && EndsIn(e, f) ==> e.kind in {1, 3}
  {
    CoveredIn(es, true, f);
    CoveredIn(es, false, f);
    forall e: MapEntry ensures Covers(e, f) <==> EndsIn(e, f) {
      PageEnds(e.addr, f);
      PageEnds(e.addr + e.len, f);
    }
  }

  lemma PageEnds(a: nat, f: nat)
    ensures a / 4096 <= f <==> a < (f + 1) * 4096
  {
  }

  /** Reordering the map changes nothing. */
  lemma OrderIrrelevant(es1: seq<MapEntry>, es2: seq<MapEntry>, f: int)
    requires multiset(es1) == multiset(es2)
    ensures FreeAtBoot(es1, f) == FreeAtBoot(es2, f)
  {
    forall usable: bool ensures CoveredBy(es1, usable, f) == CoveredBy(es2, usable, f) {
      CoveredIn(es1, usable, f);
      CoveredIn(es2, usable, f);
      forall e ensures e in es1 <==> e in es2 {
        assert e in multiset(es1) <==> e in multiset(es2);
      }
    }
  }

  lemma CoveredIn(es: seq<MapEntry>, usable: bool, f: int)
    ensures CoveredBy(es, usable, f) <==> exists e :: e in es && Usable(e) == usable && Covers(e, f)
  {
  }
}
