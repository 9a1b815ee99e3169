/** The heap as a sequence of blocks, and what it means for a free list to describe it. */
module HeapModel {

  const BASE: nat := 0 // the static list node, below the heap
  const LOW: nat := 1  // the first unit of the heap; addresses count Headers of 8 bytes

  /** tiles are all blocks in address order, nodes the free list from base on, size the size
      fields of the block headers, and high the end of the memory obtained from sbrk. */
  datatype Heap = Heap(tiles: seq<nat>, nodes: seq<nat>, size: map<nat, nat>, high: nat)

  ghost predicate Sorted(s: seq<nat>) {
    forall i, j :: 0 <= i < j < |s| ==> s[i] < s[j]
  }

  /** The blocks follow each other without gap or overlap from LOW to high. */
  ghost predicate Tiled(h: Heap) {
    && h.high >= LOW
    && (forall i :: 0 <= i < |h.tiles| ==> h.tiles[i] in h.size && h.size[h.tiles[i]] > 0)
    && (if h.tiles == [] then h.high == LOW else h.tiles[0] == LOW)
    && (forall i :: 0 <= i < |h.tiles| ==> End(h, i) == if i + 1 < |h.tiles| then h.tiles[i + 1] else h.high)
  }

  ghost function End(h: Heap, i: nat): nat
    requires i < |h.tiles| && h.tiles[i] in h.size
  {
    h.tiles[i] + h.size[h.tiles[i]]
  }

  /** The free list is sorted, starts at base, lists blocks of the heap, and no two blocks on
      it touch. */
  ghost predicate Listed(h: Heap) {
    && |h.nodes| > 0 && h.nodes[0] == BASE && BASE in h.size && h.size[BASE] == 0
    && Sorted(h.nodes)
    && (forall j :: 1 <= j < |h.nodes| ==> h.nodes[j] in h.tiles)
    && (forall i :: 0 <= i < |h.tiles| - 1 ==> !(h.tiles[i] in h.nodes && h.tiles[i + 1] in h.nodes))
  }

  ghost predicate Ok(h: Heap) {
    Tiled(h) && Listed(h)
  }

  ghost predicate Live(h: Heap, b: nat) {
    b in h.tiles && b !in h.nodes
  }

  /** Unit u belongs to the block b. */
  ghost predicate Within(h: Heap, b: nat, u: nat) {
    b in h.size && b <= u < b + h.size[b]
  }

  lemma {:induction false} TilesSorted(h: Heap, i: nat, j: nat)
    requires Tiled(h) && i < j < |h.tiles|
    ensures h.tiles[i] in h.size && h.tiles[i] < h.tiles[j] && End(h, i) <= h.tiles[j] && LOW <= h.tiles[i]
    decreases j
  {
    assert End(h, i) == h.tiles[i + 1];
    if i > 0 {
      TilesSorted(h, 0, i);
    }
    if i + 1 < j {
      TilesSorted(h, i, j - 1);
      assert End(h, j - 1) == h.tiles[j];
    }
  }

  lemma TileBounds(h: Heap, i: nat)
    requires Tiled(h) && i < |h.tiles|
    ensures h.tiles[i] in h.size && LOW <= h.tiles[i] && End(h, i) <= h.high
  {
    if i > 0 {
      TilesSorted(h, 0, i);
    }
    if i + 1 < |h.tiles| {
      TilesSorted(h, i, |h.tiles| - 1);
      assert End(h, |h.tiles| - 1) == h.high;
    }
  }

  /** Blocks, free or live, are pairwise disjoint. */
  lemma Disjoint(h: Heap, a: nat, b: nat, u: nat)
    requires Ok(h) && a in h.tiles && b in h.tiles && Within(h, a, u) && Within(h, b, u)
    ensures a == b
  {
    var i :| 0 <= i < |h.tiles| && h.tiles[i] == a;
    var j :| 0 <= j < |h.tiles| && h.tiles[j] == b;
    if i < j {
      TilesSorted(h, i, j);
    } else if j < i {
      TilesSorted(h, j, i);
    }
  }

  /** And together they cover exactly the memory obtained from sbrk. */
  lemma Covering(h: Heap, u: nat)
    requires Ok(h)
    ensures LOW <= u < h.high <==> exists b :: b in h.tiles && Within(h, b, u)
  {
    if b :| b in h.tiles && Within(h, b, u) {
      var i :| 0 <= i < |h.tiles| && h.tiles[i] == b;
      TileBounds(h, i);
    }
    if LOW <= u < h.high {
      var i := TileOf(h, |h.tiles|, u);
      assert h.tiles[i] in h.tiles;
    }
  }

  lemma {:induction false} TileOf(h: Heap, n: nat, u: nat) returns (i: nat)
    requires Tiled(h) && n <= |h.tiles| && LOW <= u
    requires u < if n < |h.tiles| then h.tiles[n] else h.high
    ensures i < |h.tiles| && Within(h, h.tiles[i], u)
    decreases n
  {
    assert n > 0;
    i := n - 1;
    assert End(h, i) == if n < |h.tiles| then h.tiles[n] else h.high;
    if u < h.tiles[i] {
      i := TileOf(h, n - 1, u);
    }
  }

  // ----- the free list is determined by the live blocks

  ghost predicate SameLive(a: Heap, b: Heap) {
    && a.high == b.high
    && forall t :: (Live(a, t) <==> Live(b, t)) && (Live(a, t) && t in a.size && t in b.size ==> a.size[t] == b.size[t])
  }

  /** A free block of one heap cannot end inside a free block of the other. */
  lemma FreeEnds(a: Heap, b: Heap, i: nat)
    requires Ok(a) && Ok(b) && SameLive(a, b) && i < |a.tiles| && i < |b.tiles|
    requires a.tiles[i] == b.tiles[i] && a.tiles[i] in a.nodes && b.tiles[i] in b.nodes
    ensures End(a, i) >= End(b, i)
  {
    if End(a, i) < End(b, i) {
      TileBounds(b, i);
      assert End(a, i) < b.high;
      var t := a.tiles[i + 1];
      assert Live(a, t);
      assert Live(b, t);
      var j :| 0 <= j < |b.tiles| && b.tiles[j] == t;
      if i < j {
        TilesSorted(b, i, j);
      } else if j < i {
        TilesSorted(b, j, i);
      }
    }
  }

  /** Both heaps have the same block at position i, free in both or live in both. */
  ghost predicate AgreeAt(a: Heap, b: Heap, i: nat) {
    && i < |a.tiles| && i < |b.tiles| && a.tiles[i] == b.tiles[i]
    && a.tiles[i] in a.size && b.tiles[i] in b.size && a.size[a.tiles[i]] == b.size[b.tiles[i]]
    && (a.tiles[i] in a.nodes <==> b.tiles[i] in b.nodes)
  }

  lemma TileAgrees(a: Heap, b: Heap, i: nat)
    requires Ok(a) && Ok(b) && SameLive(a, b) && i < |a.tiles|
    requires i > 0 ==> AgreeAt(a, b, i - 1)
    ensures AgreeAt(a, b, i)
  {
    TileBounds(a, i);
    assert End(a, i) == if i + 1 < |a.tiles| then a.tiles[i + 1] else a.high;
    if i > 0 {
      assert End(a, i - 1) == a.tiles[i];
      assert End(b, i - 1) == if i < |b.tiles| then b.tiles[i] else b.high;
    }
    assert i < |b.tiles| && a.tiles[i] == b.tiles[i];
    assert Live(a, a.tiles[i]) <==> Live(b, a.tiles[i]);
    assert b.tiles[i] in b.size;
    if a.tiles[i] in a.nodes {
      FreeEnds(a, b, i);
      FreeEndsBack(a, b, i);
    }
  }

  lemma FreeEndsBack(a: Heap, b: Heap, i: nat)
    requires Ok(a) && Ok(b) && SameLive(a, b) && i < |a.tiles| && i < |b.tiles|
    requires a.tiles[i] == b.tiles[i] && a.tiles[i] in a.nodes && b.tiles[i] in b.nodes
    ensures End(b, i) >= End(a, i)
  {
    assert SameLive(b, a);
    FreeEnds(b, a, i);
  }

  lemma {:induction false} TilesAgree(a: Heap, b: Heap, n: nat)
    requires Ok(a) && Ok(b) && SameLive(a, b) && n <= |a.tiles|
    ensures forall i :: 0 <= i < n ==> AgreeAt(a, b, i)
    decreases n
  {
    if n > 0 {
      TilesAgree(a, b, n - 1);
      TileAgrees(a, b, n - 1);
    }
  }

  /** Two heaps with the same live blocks have the same free list, block for block. */
  lemma FreeListUnique(a: Heap, b: Heap)
    requires Ok(a) && Ok(b) && SameLive(a, b)
    ensures a.tiles == b.tiles && a.nodes == b.nodes
    ensures forall t :: t in a.nodes && t in b.nodes ==> a.size[t] == b.size[t]
  {
    TilesAgree(a, b, |a.tiles|);
    assert SameLive(b, a);
    TilesAgree(b, a, |b.tiles|);
    SameLength(a, b);
    forall i | 0 <= i < |a.tiles| ensures a.tiles[i] == b.tiles[i] {
      assert AgreeAt(a, b, i);
    }
    assert a.tiles == b.tiles;
    forall t ensures t in a.nodes <==> t in b.nodes {
      SameMember(a, b, t);
      SameMember(b, a, t);
    }
    SortedUnique(a.nodes, b.nodes);
    forall t | t in a.nodes ensures a.size[t] == b.size[t] {
      if t != BASE {
        SameMember(a, b, t);
      }
    }
  }

  lemma SameLength(a: Heap, b: Heap)
    requires forall i :: 0 <= i < |a.tiles| ==> AgreeAt(a, b, i)
    requires forall i :: 0 <= i < |b.tiles| ==> AgreeAt(b, a, i)
    ensures |a.tiles| == |b.tiles|
  {
    assert |a.tiles| < |b.tiles| ==> AgreeAt(b, a, |a.tiles|);
    assert |b.tiles| < |a.tiles| ==> AgreeAt(a, b, |b.tiles|);
  }

  lemma SameMember(a: Heap, b: Heap, t: nat)
    requires Listed(a) && Listed(b)
    requires forall i :: 0 <= i < |a.tiles| ==> AgreeAt(a, b, i)
    ensures t in a.nodes ==> t in b.nodes && t in a.size && t in b.size && a.size[t] == b.size[t]
  {
    if t in a.nodes && t != BASE {
      var j :| 0 <= j < |a.nodes| && a.nodes[j] == t;
      var i :| 0 <= i < |a.tiles| && a.tiles[i] == t;
      assert AgreeAt(a, b, i);
    }
  }

  lemma FirstIn(t: seq<nat>)
    requires t != []
    ensures t[0] in t
  {
  }

  lemma {:induction false} SortedUnique(s: seq<nat>, t: seq<nat>)
    requires Sorted(s) && Sorted(t) && forall x :: x in s <==> x in t
    ensures s == t
    decreases |s|
  {
    if s == [] {
      if t != [] {
        FirstIn(t);
        assert false;
      }
    } else {
      var x := s[|s| - 1];
      assert x in t && t[|t| - 1] in s;
      var s', t' := s[..|s| - 1], t[..|t| - 1];
      assert x == t[|t| - 1];
      forall y ensures y in s' <==> y in t' {
        assert y in s' <==> y in s && y != x;
        assert y in t' <==> y in t && y != x;
      }
      SortedUnique(s', t');
    }
  }

  /** With nothing live the list is base and one block that spans the whole heap. */
  lemma AllFreed(h: Heap)
    requires Ok(h) && forall b :: !Live(h, b)
    ensures if h.high == LOW then h.nodes == [BASE]
            else h.nodes == [BASE, LOW] && h.size[LOW] == h.high - LOW
  {
    assert |h.tiles| > 1 ==> !(h.tiles[0] in h.nodes && h.tiles[1] in h.nodes);
    forall i | 0 <= i < |h.tiles| ensures h.tiles[i] in h.nodes {
      assert !Live(h, h.tiles[i]);
    }
    assert |h.tiles| <= 1;
    assert |h.tiles| == 1 ==> End(h, 0) == h.high;
    var full := if h.tiles == [] then [BASE] else [BASE, LOW];
    forall x ensures x in h.nodes <==> x in full {
      if x in h.nodes {
        var j :| 0 <= j < |h.nodes| && h.nodes[j] == x;
      }
    }
    SortedUnique(h.nodes, full);
  }
}
