/** libc/lib/stdlib/malloc.c and free.c: the circular, address-sorted free list, edited in place. */
module Allocator {
  import opened Wrappers
  import opened HeapModel
  import opened HeapSteps

  const ALLOC_SIZE := 512
  const HEADER := 8 // sizeof(Header)

  /** What malloc returned: NULL, a block, or a block carved from memory that sbrk did not
      really hand over because the 32-bit request had wrapped around. */
  datatype Outcome = Null | Block(b: nat) | Overrun

  /** The circular list nodes, as the next fields spell it. */
  ghost predicate Linked(nodes: seq<nat>, next: map<nat, nat>) {
    forall j :: 0 <= j < |nodes| ==> nodes[j] in next && next[nodes[j]] == Succ(nodes, j)
  }

  ghost function Succ(nodes: seq<nat>, j: nat): nat {
    if j + 1 < |nodes| then nodes[j + 1] else BASE
  }

  /** Units in a block for a request of size bytes, header included. */
  function BlockSize(size: nat): nat
    requires size > 0
  {
    (size - 1) / HEADER + 2
  }

  /** Units alloc_free asks for: it takes the byte count as a unit count. */
  function GrowUnits(size: nat): nat {
    if size < ALLOC_SIZE then ALLOC_SIZE else size
  }

  /** A granted request moved the break by what was asked for if and only if the request,
      in bytes, did not run past the end of the address space. */
  lemma GrowthIsReal(brk: Uint32, size: Uint32)
    ensures (brk + GrowUnits(size) * HEADER % 0x1_0000_0000) % 0x1_0000_0000 == brk + GrowUnits(size) * HEADER
       <==> brk + GrowUnits(size) * HEADER < 0x1_0000_0000
  {
  }

  /** It does run past it for malloc of half a gigabyte: the break does not move at all, so in a
      process whose code ends at 1 MiB the request is granted. */
  lemma OverrunExample()
    ensures (0x10_0000 + GrowUnits(0x2000_0000) * HEADER % 0x1_0000_0000) % 0x1_0000_0000 == 0x10_0000
  {
  }

  lemma SumModulo(a: nat, b: nat)
    ensures (a + b % 0x1_0000_0000) % 0x1_0000_0000 == (a + b) % 0x1_0000_0000
  {
  }

  lemma PlaceOf(nodes: seq<nat>, b: nat) returns (j: nat)
    requires |nodes| > 0 && nodes[0] == BASE && Sorted(nodes) && b !in nodes
    ensures j < |nodes| && nodes[j] < b && (j + 1 < |nodes| ==> b < nodes[j + 1])
  {
    j := 0;
    while j + 1 < |nodes| && nodes[j + 1] < b
      invariant j < |nodes| && nodes[j] < b
    {
      j := j + 1;
    }
    assert j + 1 < |nodes| ==> nodes[j + 1] in nodes;
  }

  ghost predicate Between(nodes: seq<nat>, j: nat, b: nat) {
    && j < |nodes| && nodes[0] == BASE && Sorted(nodes)
    && nodes[j] < b && (j + 1 < |nodes| ==> b < nodes[j + 1])
  }

  /** p is the node before b: the last one below it. */
  ghost predicate Before(nodes: seq<nat>, p: nat, b: nat) {
    p in nodes && p < b && forall t :: t in nodes ==> t <= p || b < t
  }

  ghost predicate Last(nodes: seq<nat>, p: nat) {
    p in nodes && forall t :: t in nodes ==> t <= p
  }

  lemma BetweenBefore(nodes: seq<nat>, j: nat, b: nat)
    requires Between(nodes, j, b)
    ensures Before(nodes, nodes[j], b)
  {
    forall t | t in nodes ensures t <= nodes[j] || b < t {
      var k :| 0 <= k < |nodes| && nodes[k] == t;
      assert k > j ==> nodes[j + 1] <= t;
    }
  }

  lemma NodesBelow(h: Heap)
    requires Ok(h)
    ensures forall t :: t in h.nodes ==> t < h.high
  {
    forall t | t in h.nodes ensures t < h.high {
      NodeTile(h, t);
      if t != BASE {
        var i :| 0 <= i < |h.tiles| && h.tiles[i] == t;
        TileBounds(h, i);
      }
    }
  }

  lemma Distinct(nodes: seq<nat>, j: nat)
    requires Sorted(nodes) && j < |nodes|
    ensures forall k :: 0 <= k < |nodes| && k != j ==> nodes[k] != nodes[j]
  {
  }

  lemma LinkNew(nodes: seq<nat>, next: map<nat, nat>, j: nat, b: nat)
    requires Linked(nodes, next) && j < |nodes| && b !in nodes
    requires forall k :: 0 <= k < |nodes| && k != j ==> nodes[k] != nodes[j]
    ensures Linked(InsertAt(nodes, j + 1, b), next[b := next[nodes[j]]][nodes[j] := b])
  {
    var nodes', next' := InsertAt(nodes, j + 1, b), next[b := next[nodes[j]]][nodes[j] := b];
    forall k | 0 <= k < |nodes'| ensures nodes'[k] in next' && next'[nodes'[k]] == Succ(nodes', k) {
      LinkNewAt(nodes, next, j, b, k);
    }
  }

  lemma LinkNewAt(nodes: seq<nat>, next: map<nat, nat>, j: nat, b: nat, k: nat)
    requires Linked(nodes, next) && j < |nodes| && b !in nodes && k <= |nodes|
    requires forall k :: 0 <= k < |nodes| && k != j ==> nodes[k] != nodes[j]
    ensures var nodes', next' := InsertAt(nodes, j + 1, b), next[b := next[nodes[j]]][nodes[j] := b];
      nodes'[k] in next' && next'[nodes'[k]] == Succ(nodes', k)
  {
    var i := if k <= j then k else k - 1;
    assert nodes[i] in next && next[nodes[i]] == Succ(nodes, i);
  }

  /** An entry of next that the list does not use. */
  lemma LinkUnused(nodes: seq<nat>, next: map<nat, nat>, b: nat, v: nat)
    requires Linked(nodes, next) && b !in nodes
    ensures Linked(nodes, next[b := v])
  {
  }

  lemma LinkOver(nodes: seq<nat>, next: map<nat, nat>, j: nat)
    requires Linked(nodes, next) && Sorted(nodes) && j + 1 < |nodes|
    ensures Linked(RemoveAt(nodes, j + 1), next[nodes[j] := next[nodes[j + 1]]])
  {
    var nodes', next' := RemoveAt(nodes, j + 1), next[nodes[j] := next[nodes[j + 1]]];
    Distinct(nodes, j);
    hide Sorted;
    forall k | 0 <= k < |nodes'| ensures nodes'[k] in next' && next'[nodes'[k]] == Succ(nodes', k) {
      LinkOverAt(nodes, next, j, k);
    }
  }

  lemma LinkOverAt(nodes: seq<nat>, next: map<nat, nat>, j: nat, k: nat)
    requires Linked(nodes, next) && j + 1 < |nodes| && k + 1 < |nodes|
    requires forall k :: 0 <= k < |nodes| && k != j ==> nodes[k] != nodes[j]
    ensures var nodes', next' := RemoveAt(nodes, j + 1), next[nodes[j] := next[nodes[j + 1]]];
      nodes'[k] in next' && next'[nodes'[k]] == Succ(nodes', k)
  {
    var i := if k <= j then k else k + 1;
    assert nodes[i] in next && next[nodes[i]] == Succ(nodes, i);
    assert next[nodes[j + 1]] == Succ(nodes, j + 1);
  }

  lemma NotBetween(nodes: seq<nat>, j: nat, b: nat)
    requires Between(nodes, j, b)
    ensures b !in nodes && Sorted(InsertAt(nodes, j + 1, b))
    ensures RemoveAt(InsertAt(nodes, j + 1, b), j + 1) == nodes
  {
    Inserted(nodes, j + 1, b, b);
  }

  /** The next fields after free, for each outcome of its two address tests. */
  lemma LinkSame(nodes: seq<nat>, next: map<nat, nat>, j: nat, b: nat)
    requires Linked(nodes, next) && Between(nodes, j, b)
    ensures Linked(nodes, next[b := next[nodes[j]]][nodes[j] := next[nodes[j]]])
  {
    NotBetween(nodes, j, b);
    LinkUnused(nodes, next, b, next[nodes[j]]);
    assert next[b := next[nodes[j]]][nodes[j] := next[nodes[j]]] == next[b := next[nodes[j]]];
  }

  lemma InsertRemove(nodes: seq<nat>, j: nat, b: nat)
    requires j + 1 < |nodes|
    ensures RemoveAt(InsertAt(nodes, j + 1, b), j + 2) == nodes[j + 1 := b]
    ensures RemoveAt(nodes[j + 1 := b], j + 1) == RemoveAt(nodes, j + 1)
  {
  }

  lemma LinkNewOver(nodes: seq<nat>, next: map<nat, nat>, j: nat, b: nat)
    requires Linked(nodes, next) && Between(nodes, j, b) && j + 1 < |nodes|
    ensures Linked(nodes[j + 1 := b], next[b := next[nodes[j + 1]]][nodes[j] := b])
  {
    var nodes', next' := nodes[j + 1 := b], next[b := next[nodes[j + 1]]][nodes[j] := b];
    NotBetween(nodes, j, b);
    Distinct(nodes, j);
    hide Sorted;
    forall k | 0 <= k < |nodes'| ensures nodes'[k] in next' && next'[nodes'[k]] == Succ(nodes', k) {
      assert nodes[k] in next && next[nodes[k]] == Succ(nodes, k) && nodes[k] != b;
    }
  }

  lemma LinkBoth(nodes: seq<nat>, next: map<nat, nat>, j: nat, b: nat)
    requires Linked(nodes, next) && Between(nodes, j, b) && j + 1 < |nodes|
    ensures Linked(RemoveAt(nodes, j + 1), next[b := next[nodes[j + 1]]][nodes[j] := next[nodes[j + 1]]])
  {
    NotBetween(nodes, j, b);
    var next1 := next[b := next[nodes[j + 1]]];
    LinkUnused(nodes, next, b, next[nodes[j + 1]]);
    LinkOver(nodes, next1, j);
  }

  /** No block on the list has n units. */
  ghost predicate NoFit(h: Heap, n: nat) {
    forall t :: t in h.nodes && t in h.size ==> h.size[t] < n
  }

  /** The fields that free writes, given its two tests. */
  function FreedNext(next: map<nat, nat>, p: nat, b: nat, joinNext: bool, joinPrevious: bool): map<nat, nat>
    requires p in next && (joinNext ==> next[p] in next)
  {
    var v := if joinNext then next[next[p]] else next[p];
    next[b := v][p := if joinPrevious then v else b]
  }

  function FreedSize(size: map<nat, nat>, p: nat, q: nat, b: nat, joinNext: bool, joinPrevious: bool): map<nat, nat>
    requires p in size && b in size && (joinNext ==> q in size)
  {
    var size1 := if joinNext then size[b := size[b] + size[q]] else size;
    if joinPrevious then size1[p := size1[p] + size1[b]] else size1
  }

  lemma FreedSizes(h: Heap, i: nat, j: nat, q: nat)
    requires Placed(h, i, j) && (JoinsNext(h, i, j) ==> q == h.nodes[j + 1])
    ensures h.nodes[j] in h.size && h.tiles[i] in h.size
    ensures JoinsNext(h, i, j) ==> h.nodes[j + 1] in h.size
    ensures var n, r := JoinsNext(h, i, j), JoinsPrevious(h, i, j);
      FreeBlock(h, i, j).size == FreedSize(h.size, h.nodes[j], q, h.tiles[i], n, r)
  {
    Neighbours(h, i, j);
    NodeTile(h, h.nodes[j]);
    var h1 := List(h, i, j);
    if JoinsNext(h, i, j) {
      var h2 := Join(h1, i, j + 1);
      assert h2.tiles[i] == h.tiles[i];
      if JoinsPrevious(h, i, j) {
        assert h2.tiles[i - 1] == h.nodes[j];
      }
    }
  }

  lemma FreedFields(h: Heap, next: map<nat, nat>, i: nat, j: nat)
    requires Placed(h, i, j) && Linked(h.nodes, next)
    ensures h.nodes[j] in next && h.nodes[j] in h.size && h.tiles[i] in h.size
    ensures JoinsNext(h, i, j) ==>
      next[h.nodes[j]] == h.nodes[j + 1] && h.nodes[j + 1] in next && h.nodes[j + 1] in h.size
    ensures JoinsNext(h, i, j) <==> h.tiles[i] + h.size[h.tiles[i]] == next[h.nodes[j]]
    ensures var p, b, n, r := h.nodes[j], h.tiles[i], JoinsNext(h, i, j), JoinsPrevious(h, i, j);
      Linked(FreeBlock(h, i, j).nodes, FreedNext(next, p, b, n, r))
  {
    var p, b := h.nodes[j], h.tiles[i];
    Neighbours(h, i, j);
    NodeTile(h, p);
    NotBetween(h.nodes, j, b);
    Distinct(h.nodes, j);
    assert next[p] == Succ(h.nodes, j);
    assert Between(h.nodes, j, b);
    hide Placed, Linked, Between;
    if JoinsNext(h, i, j) {
      InsertRemove(h.nodes, j, b);
      LinkNewOver(h.nodes, next, j, b);
      LinkBoth(h.nodes, next, j, b);
    } else {
      LinkNew(h.nodes, next, j, b);
      LinkSame(h.nodes, next, j, b);
    }
  }

  lemma StaysListed(h: Heap, i: nat, j: nat)
    requires Placed(h, i, j) && !JoinsPrevious(h, i, j)
    ensures h.tiles[i] in FreeBlock(h, i, j).nodes
  {
    Neighbours(h, i, j);
    assert InsertAt(h.nodes, j + 1, h.tiles[i])[j + 1] == h.tiles[i];
    assert FreeBlock(h, i, j).nodes[j + 1] == h.tiles[i];
  }

  /** All that the assignments of free need to know about the heap they produce. */
  lemma Freed(h: Heap, next: map<nat, nat>, i: nat, j: nat) returns (h': Heap, joinNext: bool, joinPrevious: bool)
    requires Placed(h, i, j) && Linked(h.nodes, next)
    ensures var p, b := h.nodes[j], h.tiles[i];
      && b != p && p in next && p in h.size && b in h.size
      && (joinNext <==> b + h.size[b] == next[p]) && (joinPrevious <==> p + h.size[p] == b)
      && (joinNext ==> next[p] in next && next[p] in h.size)
      && h'.size == FreedSize(h.size, p, next[p], b, joinNext, joinPrevious)
      && Linked(h'.nodes, FreedNext(next, p, b, joinNext, joinPrevious))
      && FreeStep(h, b, h') && p in h'.nodes && (joinPrevious || b in h'.nodes)
  {
    h', joinNext, joinPrevious := FreeBlock(h, i, j), JoinsNext(h, i, j), JoinsPrevious(h, i, j);
    FreeOk(h, i, j);
    if !joinPrevious {
      StaysListed(h, i, j);
    }
    FreedFields(h, next, i, j);
    FreedSizes(h, i, j, next[h.nodes[j]]);
  }

  lemma LinkFacts(nodes: seq<nat>, next: map<nat, nat>, k: nat)
    requires Linked(nodes, next) && k < |nodes|
    ensures nodes[k] in next && next[nodes[k]] == Succ(nodes, k)
  {
  }

  lemma LiveFacts(h: Heap)
    requires Ok(h)
    ensures forall t :: Live(h, t) ==> t in h.size
  {
  }

  lemma BaseLinked(next: map<nat, nat>)
    requires BASE in next && next[BASE] == BASE
    ensures Linked([BASE], next)
  {
  }

  lemma SuccListed(nodes: seq<nat>, k: nat)
    requires k < |nodes| && nodes[0] == BASE
    ensures Succ(nodes, k) in nodes
    ensures Succ(nodes, k) != BASE ==> k + 1 < |nodes| && nodes[k + 1] == Succ(nodes, k)
  {
  }

  lemma ListFacts(h: Heap)
    requires Ok(h)
    ensures |h.nodes| > 0 && h.nodes[0] == BASE && Sorted(h.nodes)
    ensures BASE in h.size && h.size[BASE] == 0
    ensures forall t :: t in h.nodes ==> t in h.size
    ensures forall t :: t in h.nodes && t != BASE ==> t in h.tiles
  {
    forall t | t in h.nodes ensures t in h.size {
      NodeTile(h, t);
    }
  }

  /** Going round the list from position f, position j is reached by the time k is. */
  ghost predicate Seen(f: nat, k: nat, j: nat) {
    if k >= f then f < j <= k else f < j || j <= k
  }

  /** The nodes seen so far do not fit. */
  ghost predicate NoneSeen(h: Heap, f: nat, k: nat, n: nat) {
    forall j :: 0 <= j < |h.nodes| && Seen(f, k, j) && h.nodes[j] in h.size ==> h.size[h.nodes[j]] < n
  }

  /** Next fit: nodes[k] is followed by a block of at least n units, and going round the list
      from the node start, none before it fits. */
  ghost predicate FirstFit(h: Heap, start: nat, k: nat, n: nat) {
    && k < |h.nodes| && Succ(h.nodes, k) in h.size && h.size[Succ(h.nodes, k)] >= n
    && exists f: nat :: f < |h.nodes| && h.nodes[f] == start && NoneSeen(h, f, k, n)
  }

  /** The block b that malloc gives for n units when it finds that place: the tail of the block,
      which is all of it when the size is n. */
  ghost predicate Chosen(h: Heap, start: nat, n: nat, prev: nat, b: nat) {
    exists k: nat :: FirstFit(h, start, k, n) && h.nodes[k] == prev
      && b == Succ(h.nodes, k) + h.size[Succ(h.nodes, k)] - n
  }

  lemma SeeNext(h: Heap, f: nat, k: nat, n: nat)
    requires Ok(h) && f < |h.nodes| && k < |h.nodes| && NoneSeen(h, f, k, n)
    requires Succ(h.nodes, k) != h.nodes[f] && Succ(h.nodes, k) in h.size && h.size[Succ(h.nodes, k)] < n
    ensures NoneSeen(h, f, if k + 1 < |h.nodes| then k + 1 else 0, n)
  {
  }

  lemma FitFound(h: Heap, p: nat, n: nat)
    requires p in h.nodes && p in h.size && h.size[p] >= n
    ensures !NoFit(h, n)
  {
  }

  /** Back at the node the search began with, the whole list has been seen. */
  lemma AllSeen(h: Heap, f: nat, k: nat, n: nat)
    requires Ok(h) && f < |h.nodes| && k < |h.nodes| && Succ(h.nodes, k) == h.nodes[f]
    requires NoneSeen(h, f, k, n) && h.nodes[f] in h.size && h.size[h.nodes[f]] < n
    ensures NoFit(h, n)
  {
    forall t | t in h.nodes && t in h.size ensures h.size[t] < n {
      var j :| 0 <= j < |h.nodes| && h.nodes[j] == t;
      assert f == if k + 1 < |h.nodes| then k + 1 else 0;
      assert j == f || Seen(f, k, j);
    }
  }

  /** The memory alloc_free asks for is enough for the request. */
  lemma BigEnough(h: Heap, bytes: nat)
    requires bytes > 0 && !NoFit(h, GrowUnits(bytes))
    ensures !NoFit(h, BlockSize(bytes))
  {
  }

  /** free stops its search at p. */
  predicate StopsAt(p: nat, q: nat, b: nat) {
    (b > p && b < q) || (p >= q && (b > p || b < q))
  }

  /** Only the place of b stops the search of free: the node after which b belongs. */
  lemma StopsAtPlace(nodes: seq<nat>, j: nat, k: nat, b: nat)
    requires Between(nodes, j, b) && b !in nodes && k < |nodes|
    ensures StopsAt(nodes[k], Succ(nodes, k), b) <==> k == j
  {
    if k < j {
      assert nodes[k] < nodes[k + 1] <= nodes[j];
    } else if j < k {
      assert nodes[j + 1] <= nodes[k];
    }
  }

  /** h is the heap before with n units more and the same live blocks; by FreeListUnique this
      determines its list completely. */
  ghost predicate Grown(h: Heap, before: Heap, n: nat) {
    && Ok(h) && h.high == before.high + n
    && (forall t :: Live(h, t) <==> Live(before, t))
    && forall t :: Live(h, t) ==> t in before.size && t in h.size && h.size[t] == before.size[t]
  }

  class Allocator {
    var next: map<nat, nat>
    var size: map<nat, nat>
    var freeP: Option<nat>
    var brk: Uint32
    const start: Uint32      // the break at program start
    const codeEnd: Uint32
    const stackStart: Uint32
    ghost var tiles: seq<nat>
    ghost var nodes: seq<nat>
    ghost var high: nat

    ghost function Now(): Heap
      reads this
    {
      Heap(tiles, nodes, size, high)
    }

    ghost predicate Valid()
      reads this
    {
      && Ok(Now()) && brk == start + HEADER * (high - LOW)
      && (high > LOW ==> codeEnd < brk < stackStart)
      && (if freeP.None? then tiles == [] && nodes == [BASE]
          else Linked(nodes, next) && freeP.value in nodes)
    }

    constructor (start: Uint32, codeEnd: Uint32, stackStart: Uint32)
      ensures Valid() && high == LOW && freeP == None
      ensures this.start == start && this.codeEnd == codeEnd && this.stackStart == stackStart
    {
      this.start := start;
      this.codeEnd := codeEnd;
      this.stackStart := stackStart;
      next, size, freeP := map[], map[BASE := 0], None;
      brk, tiles, nodes, high := start, [], [BASE], LOW;
    }

    /** No block, free or live, reaches the stack. */
    lemma BelowStack(b: nat)
      requires Valid() && b in tiles
      ensures b in size && start + HEADER * (b + size[b] - LOW) <= brk < stackStart
    {
      var i :| 0 <= i < |tiles| && tiles[i] == b;
      TileBounds(Now(), i);
    }

    method Free(b: nat)
      requires Valid() && freeP.Some? && Live(Now(), b)
      modifies this`next, this`size, this`freeP, this`tiles, this`nodes
      ensures Valid() && freeP.Some? && FreeStep(old(Now()), b, Now())
      ensures Before(old(nodes), freeP.value, b)
      ensures b in old(size) && !NoFit(Now(), old(size)[b])
    {
      hide Ok, Linked, FreeStep, NoFit, Before;
      ListFacts(Now());
      ghost var i: nat :| i < |tiles| && tiles[i] == b;
      ghost var j := PlaceOf(nodes, b);
      BetweenBefore(nodes, j, b);
      var p := freeP.value;
      ghost var k: nat :| k < |nodes| && nodes[k] == p;
      LinkFacts(nodes, next, k);
      StopsAtPlace(nodes, j, k, b);
      while !(b > p && b < next[p])
        invariant k < |nodes| && nodes[k] == p && p in next && next[p] == Succ(nodes, k)
        invariant StopsAt(p, next[p], b) <==> k == j
        decreases if k <= j then j - k else j + |nodes| - k
        modifies {}
      {
        if p >= next[p] && (b > p || b < next[p]) {
          break;
        }
        k := if k + 1 < |nodes| then k + 1 else 0;
        p := next[p];
        LinkFacts(nodes, next, k);
        StopsAtPlace(nodes, j, k, b);
      }
      assert k == j;
      Insert(b, p, i, j);
    }

    /** The part of free after its search: put b behind p and join it with its neighbours. */
    method Insert(b: nat, p: nat, ghost i: nat, ghost j: nat)
      requires Valid() && freeP.Some? && Placed(Now(), i, j) && tiles[i] == b && nodes[j] == p
      modifies this`next, this`size, this`freeP, this`tiles, this`nodes
      ensures Valid() && freeP == Some(p)
      ensures FreeStep(old(Now()), b, Now())
      ensures b in old(size) && !NoFit(Now(), old(size)[b])
    {
      hide Ok, Live, Linked;
      ghost var h := Now();
      ghost var h', joinNext, joinPrevious := Freed(h, next, i, j);
      Relink(b, p);
      freeP := Some(p);
      tiles, nodes := h'.tiles, h'.nodes;
      Adopt(h, h', b);
      assert (if joinPrevious then p else b) in Now().nodes;
    }

    /** The ghost view now is h', which has lost the live block b of h. */
    lemma Adopt(h: Heap, h': Heap, b: nat)
      requires FreeStep(h, b, h') && Heap(tiles, nodes, size, high) == h'
      ensures Ok(Now()) && FreeStep(h, b, Now())
    {
      assert Now() == h';
    }

    /** The header writes of free. */
    method Relink(b: nat, p: nat)
      requires b != p && p in next && p in size && b in size
      requires b + size[b] == next[p] ==> next[p] in next && next[p] in size
      modifies this`next, this`size
      ensures var joinNext := b + old(size)[b] == old(next)[p]; var joinPrevious := p + old(size)[p] == b;
        && next == FreedNext(old(next), p, b, joinNext, joinPrevious)
        && size == FreedSize(old(size), p, old(next)[p], b, joinNext, joinPrevious)
    {
      if b + size[b] == next[p] {
        size := size[b := size[b] + size[next[p]]];
        next := next[b := next[next[p]]];
      } else {
        next := next[b := next[p]];
      }
      if p + size[p] == b {
        size := size[p := size[p] + size[b]];
        next := next[p := next[b]];
      } else {
        next := next[p := b];
      }
    }

    method Sbrk(incr: Uint32) returns (p: Option<Uint32>)
      modifies this`brk
      ensures p.Some? <==> codeEnd < (old(brk) + incr) % 0x1_0000_0000 < stackStart
      ensures p.Some? ==> p.value == old(brk) && brk == (old(brk) + incr) % 0x1_0000_0000
      ensures p.None? ==> brk == old(brk)
    {
      var b := (brk + incr) % 0x1_0000_0000;
      if b > codeEnd && b < stackStart {
        p := Some(brk);
        brk := b;
      } else {
        p := None;
      }
    }

    /** With the memory that malloc asks for, the break, which counts modulo 2^32, would not lie
        between the code and the stack. */
    predicate Refused(bytes: Uint32)
      reads this`brk
    {
      var b := (brk + GrowUnits(bytes) * HEADER) % 0x1_0000_0000;
      b <= codeEnd || stackStart <= b
    }

    /** The request runs past the end of the address space. */
    predicate Wraps(bytes: Uint32)
      reads this`brk
    {
      brk + GrowUnits(bytes) * HEADER >= 0x1_0000_0000
    }

    ghost predicate SameHeader(t: nat, was: map<nat, nat>)
      reads this`size
    {
      t in was && t in size && size[t] == was[t]
    }

    /** alloc_free: NULL, or the list node behind which the new memory lies. */
    method AllocFree(bytes: Uint32) returns (r: Outcome)
      requires Valid() && freeP.Some? && bytes > 0
      modifies this
      ensures r == Null <==> old(Refused(bytes))
      ensures r == Null ==> Valid() && Now() == old(Now()) && next == old(next) && freeP == old(freeP)
      ensures r == Overrun <==> !old(Refused(bytes)) && old(Wraps(bytes))
      ensures r.Block? ==> Valid() && freeP == Some(r.b) && Last(old(nodes), r.b)
      ensures r.Block? ==> high == old(high) + if bytes < 512 then 512 else bytes
      ensures r.Block? ==> !NoFit(Now(), GrowUnits(bytes))
      ensures r.Block? ==> forall t :: Live(Now(), t) <==> old(Live(Now(), t))
      ensures r.Block? ==> forall t :: Live(Now(), t) ==> SameHeader(t, old(size))
    {
      hide Ok, Live, Linked;
      var units := if bytes < ALLOC_SIZE then ALLOC_SIZE else bytes;
      var before := brk;
      SumModulo(brk, units * HEADER);
      var p := Sbrk(units * HEADER % 0x1_0000_0000);
      if p.None? {
        return Null;
      }
      GrowthIsReal(before, bytes);
      if brk != before + units * HEADER {
        return Overrun;
      }
      ghost var h := Now();
      GrowOk(h, units);
      NodesBelow(h);
      var b := (p.value - start) / HEADER + LOW;
      assert b == high;
      size := size[b := units];
      tiles, high := tiles + [b], high + units;
      assert Now() == Grow(h, units);
      Free(b);
      r := Block(freeP.value);
    }

    /** Unlink the whole block p, the successor of prev. */
    method Unlink(prev: nat, p: nat, ghost k: nat)
      requires Valid() && freeP.Some? && k + 1 < |nodes| && nodes[k] == prev && nodes[k + 1] == p
      modifies this`next, this`freeP, this`nodes
      ensures Valid() && freeP == Some(prev) && p in size && !old(Live(Now(), p))
      ensures forall t :: Live(Now(), t) <==> old(Live(Now(), t)) || t == p
      ensures forall t :: old(Live(Now(), t)) ==> SameHeader(t, old(size))
    {
      hide Ok, Live, Linked;
      ListFacts(Now());
      LiveFacts(Now());
      LinkFacts(nodes, next, k + 1);
      TakeOk(Now(), k + 1);
      LinkOver(nodes, next, k);
      next := next[prev := next[p]];
      freeP := Some(prev);
      NodeIn(nodes, k + 1, prev);
      nodes := RemoveAt(nodes, k + 1);
    }

    /** split_block: cut n units off the tail of p. */
    method SplitBlock(p: nat, n: nat) returns (b: nat)
      requires Valid() && freeP.Some? && p in nodes && p in size && 0 < n < size[p]
      modifies this`size, this`tiles
      ensures Valid() && nodes == old(nodes) && high == old(high)
      ensures b == p + old(size)[p] - n
      ensures b in size && size[b] == n && !old(Live(Now(), b))
      ensures forall t :: Live(Now(), t) <==> old(Live(Now(), t)) || t == b
      ensures forall t :: old(Live(Now(), t)) ==> SameHeader(t, old(size))
    {
      hide Ok, Live, Linked;
      ListFacts(Now());
      ghost var i: nat :| i < |tiles| && tiles[i] == p;
      SplitOk(Now(), i, n);
      ghost var h' := Split(Now(), i, n);
      size := size[p := size[p] - n];
      b := p + size[p];
      size := size[b := n];
      tiles := h'.tiles;
      assert Now() == h';
    }

    /** The block malloc settles on: p itself when it has just n units, otherwise its tail. */
    method Carve(prev: nat, p: nat, n: nat, ghost k: nat) returns (b: nat)
      requires Valid() && freeP.Some? && k < |nodes| && nodes[k] == prev && p == Succ(nodes, k)
      requires p in size && 0 < n <= size[p]
      modifies this`next, this`size, this`freeP, this`nodes, this`tiles
      ensures Valid() && freeP == Some(prev) && high == old(high)
      ensures b == p + old(size)[p] - n
      ensures b in size && size[b] == n && !old(Live(Now(), b))
      ensures forall t :: Live(Now(), t) <==> old(Live(Now(), t)) || t == b
      ensures forall t :: old(Live(Now(), t)) ==> SameHeader(t, old(size))
    {
      hide Ok, Live, Linked;
      ListFacts(Now());
      SuccListed(nodes, k);
      if size[p] == n {
        Unlink(prev, p, k);
        b := p;
      } else {
        b := SplitBlock(p, n);
      }
      freeP := Some(prev);
    }

    /** One lap of malloc's loop: from the node after free_p up to free_p itself. */
    method Lap(n: nat) returns (fits: bool, prev: nat, p: nat, ghost k: nat)
      requires Valid() && freeP.Some?
      ensures fits ==> k < |nodes| && nodes[k] == prev && p == Succ(nodes, k) && p in size && size[p] >= n
      ensures fits ==> FirstFit(Now(), freeP.value, k, n)
      ensures fits <==> !NoFit(Now(), n)
    {
      hide Ok, Linked, NoFit;
      ListFacts(Now());
      prev := freeP.value;
      ghost var f: nat :| f < |nodes| && nodes[f] == prev;
      k := f;
      LinkFacts(nodes, next, k);
      p := next[prev];
      while true
        invariant f < |nodes| && k < |nodes|
        invariant freeP == Some(nodes[f]) && prev == nodes[k] && p == Succ(nodes, k)
        invariant NoneSeen(Now(), f, k, n)
        decreases if k >= f then f + |nodes| - k else f - k
      {
        SuccListed(nodes, k);
        if size[p] >= n {
          FitFound(Now(), p, n);
          return true, prev, p, k;
        }
        if Some(p) == freeP {
          AllSeen(Now(), f, k, n);
          return false, prev, p, k;
        }
        SeeNext(Now(), f, k, n);
        k := if k + 1 < |nodes| then k + 1 else 0;
        LinkFacts(nodes, next, k);
        prev := p;
        p := next[p];
      }
    }

    /** malloc. When a lap round the list finds no block that fits, alloc_free adds memory and
        the loop goes on from the new free_p for a second lap, which cannot fail. The second
        result says whether sbrk was called, h and start are the heap and the node that the
        last lap saw. */
    method Malloc(bytes: Uint32) returns (r: Outcome, grew: bool, ghost h: Heap, ghost start: nat)
      requires Valid()
      modifies this
      ensures !grew ==> h == old(Now()) && start == old(if freeP.Some? then freeP.value else BASE)
      ensures r.Block? && grew ==> Grown(h, old(Now()), if bytes < 512 then 512 else bytes)
      ensures r.Block? && grew ==> start in h.nodes && Last(old(nodes), start)
      ensures r.Block? ==> bytes > 0 && freeP.Some? && Chosen(h, start, BlockSize(bytes), freeP.value, r.b)
      ensures bytes == 0 ==> r == Null && !grew && Now() == old(Now())
      ensures r == Null ==> Valid() && Now() == old(Now())
      ensures bytes > 0 ==> (r == Null <==> grew && old(Refused(bytes)))
      ensures r != Overrun ==> Valid()
      ensures r != Overrun ==> high == if r.Block? && grew then h.high else old(high)
      ensures bytes > 0 ==> (grew <==> old(NoFit(Now(), BlockSize(bytes))))
      ensures r == Overrun <==> grew && old(!Refused(bytes) && Wraps(bytes))
      ensures r.Block? ==> bytes > 0 && forall t :: Live(Now(), t) <==> old(Live(Now(), t)) || t == r.b
      ensures r.Block? ==> !old(Live(Now(), r.b)) && r.b in size && size[r.b] == BlockSize(bytes)
      ensures r.Block? ==> (BlockSize(bytes) - 2) * HEADER < bytes <= (BlockSize(bytes) - 1) * HEADER
      ensures r.Block? ==> forall t :: old(Live(Now(), t)) ==> SameHeader(t, old(size))
    {
      hide Ok, Live, Linked, NoFit, Last;
      grew := false;
      if bytes == 0 {
        return Null, false, Now(), if freeP.Some? then freeP.value else BASE;
      }
      var n := BlockSize(bytes);
      if freeP.None? {
        next := next[BASE := BASE];
        freeP := Some(BASE);
        BaseLinked(next);
      }
      LiveFacts(Now());
      var fits, prev, p;
      ghost var k;
      h, start := Now(), freeP.value;
      fits, prev, p, k := Lap(n);
      if !fits {
        grew := true;
        r := AllocFree(bytes);
        if !r.Block? {
          return;
        }
        BigEnough(Now(), bytes);
        h, start := Now(), freeP.value;
        fits, prev, p, k := Lap(n);
      }
      var b := Carve(prev, p, n, k);
      r := Block(b);
    }
  }
}
