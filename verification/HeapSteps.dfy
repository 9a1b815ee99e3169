/** The changes malloc and free make to the heap, as functions on the block sequence. */
module HeapSteps {
  import opened HeapModel

  function RemoveAt(s: seq<nat>, i: nat): seq<nat>
    requires i < |s|
  {
    s[..i] + s[i + 1..]
  }

  function InsertAt(s: seq<nat>, i: nat, x: nat): seq<nat>
    requires i <= |s|
  {
    s[..i] + [x] + s[i..]
  }

  /** malloc takes the whole free block nodes[j]. */
  function Take(h: Heap, j: nat): Heap
    requires j < |h.nodes|
  {
    h.(nodes := RemoveAt(h.nodes, j))
  }

  /** malloc takes the last n units of the free block tiles[i]. */
  function Split(h: Heap, i: nat, n: nat): Heap
    requires i < |h.tiles| && h.tiles[i] in h.size && n < h.size[h.tiles[i]]
  {
    var p := h.tiles[i];
    var rest := h.size[p] - n;
    h.(tiles := InsertAt(h.tiles, i + 1, p + rest), size := h.size[p := rest][p + rest := n])
  }

  /** sbrk adds n units at the end; they count as a live block until free has listed it. */
  function Grow(h: Heap, n: nat): Heap {
    Heap(h.tiles + [h.high], h.nodes, h.size[h.high := n], h.high + n)
  }

  /** Joining the adjacent free blocks tiles[i] and tiles[i + 1], at nodes[j] and nodes[j + 1]. */
  function Join(h: Heap, i: nat, j: nat): Heap
    requires i + 1 < |h.tiles| && j + 1 < |h.nodes| && h.tiles[i] in h.size && h.tiles[i + 1] in h.size
  {
    h.(tiles := RemoveAt(h.tiles, i + 1), nodes := RemoveAt(h.nodes, j + 1),
       size := h.size[h.tiles[i] := h.size[h.tiles[i]] + h.size[h.tiles[i + 1]]])
  }

  /** Everything in Listed but the absence of touching free blocks. */
  ghost predicate Ordered(h: Heap) {
    && |h.nodes| > 0 && h.nodes[0] == BASE && BASE in h.size && h.size[BASE] == 0
    && Sorted(h.nodes)
    && (forall j :: 1 <= j < |h.nodes| ==> h.nodes[j] in h.tiles)
  }

  ghost predicate Touch(h: Heap, i: int) {
    0 <= i < |h.tiles| - 1 && h.tiles[i] in h.nodes && h.tiles[i + 1] in h.nodes
  }

  lemma OkIff(h: Heap)
    ensures Ok(h) <==> Tiled(h) && Ordered(h) && forall i :: !Touch(h, i)
  {
    if Ok(h) {
      assert forall i :: !Touch(h, i);
    }
    if forall i :: !Touch(h, i) {
      forall i | 0 <= i < |h.tiles| - 1 ensures !(h.tiles[i] in h.nodes && h.tiles[i + 1] in h.nodes) {
        assert !Touch(h, i);
      }
    }
  }

  lemma NodeIn(s: seq<nat>, i: nat, x: nat)
    requires i < |s| && Sorted(s)
    ensures Sorted(RemoveAt(s, i))
    ensures x in RemoveAt(s, i) <==> x in s && x != s[i]
  {
    var t := RemoveAt(s, i);
    if x in s && x != s[i] {
      var k :| 0 <= k < |s| && s[k] == x;
      assert if k < i then t[k] == x else t[k - 1] == x;
    }
    if x in t {
      var k :| 0 <= k < |t| && t[k] == x;
      assert if k < i then s[k] == x else s[k + 1] == x;
    }
  }

  lemma Inserted(s: seq<nat>, i: nat, x: nat, y: nat)
    requires i <= |s| && Sorted(s) && (i > 0 ==> s[i - 1] < x) && (i < |s| ==> x < s[i])
    ensures Sorted(InsertAt(s, i, x))
    ensures y in InsertAt(s, i, x) <==> y in s || y == x
  {
    var t := InsertAt(s, i, x);
    assert t[i] == x;
    if y in s {
      var k :| 0 <= k < |s| && s[k] == y;
      assert if k < i then t[k] == y else t[k + 1] == y;
    }
  }

  lemma TilesOrder(h: Heap)
    requires Tiled(h)
    ensures Sorted(h.tiles)
  {
    forall i, j | 0 <= i < j < |h.tiles| ensures h.tiles[i] < h.tiles[j] {
      TilesSorted(h, i, j);
    }
  }

  lemma NodeTile(h: Heap, x: nat)
    requires Ordered(h)
    ensures x in h.nodes && x != BASE ==> x in h.tiles
  {
  }

  lemma TakeOk(h: Heap, j: nat)
    requires Ok(h) && 1 <= j < |h.nodes|
    ensures var h' := Take(h, j);
      Ok(h') && !Live(h, h.nodes[j]) && forall t :: Live(h', t) <==> Live(h, t) || t == h.nodes[j]
  {
    forall x ensures x in Take(h, j).nodes <==> x in h.nodes && x != h.nodes[j] {
      NodeIn(h.nodes, j, x);
    }
    NodeIn(h.nodes, j, 0);
    assert forall i :: 0 <= i < |h.tiles| ==> End(Take(h, j), i) == End(h, i);
  }

  lemma GrowOk(h: Heap, n: nat)
    requires Ok(h) && n > 0
    ensures var h' := Grow(h, n);
      && Ok(h') && !Live(h, h.high)
      && (forall t :: Live(h', t) <==> Live(h, t) || t == h.high)
      && forall t :: t in h.tiles ==> t in h.size && h'.size[t] == h.size[t]
  {
    var h' := Grow(h, n);
    forall i | 0 <= i < |h.tiles| ensures h.tiles[i] != h.high && h.tiles[i] in h.size {
      TileBounds(h, i);
    }
    forall i | 0 <= i < |h'.tiles| ensures h'.tiles[i] in h'.size && h'.size[h'.tiles[i]] > 0
      && End(h', i) == if i + 1 < |h'.tiles| then h'.tiles[i + 1] else h'.high
    {
      if i < |h.tiles| {
        assert End(h, i) == if i + 1 < |h.tiles| then h.tiles[i + 1] else h.high;
      }
    }
    NodeTile(h, h.high);
  }

  lemma SplitOk(h: Heap, i: nat, n: nat)
    requires Ok(h) && i < |h.tiles| && h.tiles[i] in h.nodes
    requires h.tiles[i] in h.size && 0 < n < h.size[h.tiles[i]]
    ensures var h' := Split(h, i, n); var q := h.tiles[i] + h.size[h.tiles[i]] - n;
      && Ok(h') && !Live(h, q)
      && (forall t :: Live(h', t) <==> Live(h, t) || t == q)
      && h'.size[q] == n
      && forall t :: Live(h, t) ==> t in h.size && t in h'.size && h'.size[t] == h.size[t]
  {
    var h' := Split(h, i, n);
    var q := h.tiles[i] + h.size[h.tiles[i]] - n;
    TilesOrder(h);
    assert End(h, i) == if i + 1 < |h.tiles| then h.tiles[i + 1] else h.high;
    TileBounds(h, i);
    forall k | 0 <= k < |h.tiles| ensures h.tiles[k] != q && h.tiles[k] in h.size {
      if i < k {
        TilesSorted(h, i, k);
      }
    }
    forall y ensures y in h'.tiles <==> y in h.tiles || y == q {
      Inserted(h.tiles, i + 1, q, y);
    }
    SplitTiled(h, i, n);
    NodeTile(h, q);
    SplitListed(h, i, n);
  }

  lemma SplitListed(h: Heap, i: nat, n: nat)
    requires Ok(h) && i < |h.tiles| && h.tiles[i] in h.nodes
    requires h.tiles[i] in h.size && 0 < n < h.size[h.tiles[i]]
    requires forall y :: y in Split(h, i, n).tiles <==> y in h.tiles || y == h.tiles[i] + h.size[h.tiles[i]] - n
    requires h.tiles[i] + h.size[h.tiles[i]] - n !in h.nodes && LOW <= h.tiles[i]
    ensures Listed(Split(h, i, n))
  {
    var h' := Split(h, i, n);
    forall k | 0 <= k < |h'.tiles| - 1 ensures !(h'.tiles[k] in h'.nodes && h'.tiles[k + 1] in h'.nodes) {
      if k < i {
        assert h'.tiles[k] == h.tiles[k] && h'.tiles[k + 1] == h.tiles[k + 1];
      } else if k > i + 1 {
        assert h'.tiles[k] == h.tiles[k - 1] && h'.tiles[k + 1] == h.tiles[k];
      }
    }
  }

  lemma SplitTiled(h: Heap, i: nat, n: nat)
    requires Ok(h) && i < |h.tiles| && h.tiles[i] in h.size && 0 < n < h.size[h.tiles[i]]
    ensures Tiled(Split(h, i, n))
  {
    var h' := Split(h, i, n);
    var q := h.tiles[i] + h.size[h.tiles[i]] - n;
    forall k | 0 <= k < |h'.tiles| ensures h'.tiles[k] in h'.size && h'.size[h'.tiles[k]] > 0
      && End(h', k) == if k + 1 < |h'.tiles| then h'.tiles[k + 1] else h'.high
    {
      assert End(h, i) == if i + 1 < |h.tiles| then h.tiles[i + 1] else h.high;
      if k < i {
        TilesSorted(h, k, i);
        assert End(h, k) == h.tiles[k + 1];
      } else if k > i + 1 {
        TilesSorted(h, i, k - 1);
        assert End(h, k - 1) == if k < |h.tiles| then h.tiles[k] else h.high;
      }
    }
  }

  lemma JoinTiled(h: Heap, i: nat, j: nat)
    requires Tiled(h) && i + 1 < |h.tiles| && j + 1 < |h.nodes|
    ensures Tiled(Join(h, i, j))
  {
    var h' := Join(h, i, j);
    forall k | 0 <= k < |h'.tiles| ensures h'.tiles[k] in h'.size && h'.size[h'.tiles[k]] > 0
      && End(h', k) == if k + 1 < |h'.tiles| then h'.tiles[k + 1] else h'.high
    {
      assert End(h, i) == h.tiles[i + 1];
      assert End(h, i + 1) == if i + 2 < |h.tiles| then h.tiles[i + 2] else h.high;
      if k < i {
        TilesSorted(h, k, i);
        assert End(h, k) == h.tiles[k + 1];
      } else if k > i {
        TilesSorted(h, i, k + 1);
        assert End(h, k + 1) == if k + 2 < |h.tiles| then h.tiles[k + 2] else h.high;
      }
    }
  }

  /** Joining keeps the live blocks, and what touched elsewhere. */
  lemma JoinOrdered(h: Heap, i: nat, j: nat)
    requires Tiled(h) && Ordered(h) && i + 1 < |h.tiles| && j + 1 < |h.nodes|
    requires h.nodes[j] == h.tiles[i] && h.nodes[j + 1] == h.tiles[i + 1]
    ensures var h' := Join(h, i, j);
      && Tiled(h') && Ordered(h')
      && (forall t :: Live(h', t) <==> Live(h, t))
      && (forall k: int :: Touch(h', k) <==> Touch(h, if k < i then k else k + 1))
      && forall t :: Live(h, t) ==> t in h.size && h'.size[t] == h.size[t]
  {
    var h' := Join(h, i, j);
    JoinTiled(h, i, j);
    TilesOrder(h);
    TileBounds(h, i);
    hide Tiled;
    JoinMembers(h, i, j);
    NodeIn(h.nodes, j + 1, 0);
    assert h'.nodes[0] == BASE;
    forall k: int ensures Touch(h', k) <==> Touch(h, if k < i then k else k + 1) {
      JoinTouch(h, i, j, k);
    }
  }

  lemma JoinMembers(h: Heap, i: nat, j: nat)
    requires Sorted(h.tiles) && Sorted(h.nodes) && i + 1 < |h.tiles| && j + 1 < |h.nodes|
    requires h.nodes[j + 1] == h.tiles[i + 1] && h.tiles[i] in h.size && h.tiles[i + 1] in h.size
    ensures var h' := Join(h, i, j);
      && (forall t :: t in h'.tiles <==> t in h.tiles && t != h.tiles[i + 1])
      && (forall t :: t in h'.nodes <==> t in h.nodes && t != h.tiles[i + 1])
  {
    hide Sorted;
    forall t ensures t in RemoveAt(h.tiles, i + 1) <==> t in h.tiles && t != h.tiles[i + 1]
             ensures t in RemoveAt(h.nodes, j + 1) <==> t in h.nodes && t != h.tiles[i + 1]
    {
      NodeIn(h.tiles, i + 1, t);
      NodeIn(h.nodes, j + 1, t);
    }
  }

  lemma JoinTouch(h: Heap, i: nat, j: nat, k: int)
    requires Sorted(h.tiles) && i + 1 < |h.tiles| && j + 1 < |h.nodes|
    requires h.nodes[j] == h.tiles[i] && h.nodes[j + 1] == h.tiles[i + 1]
    requires h.tiles[i] in h.size && h.tiles[i + 1] in h.size
    requires forall t :: t in Join(h, i, j).nodes <==> t in h.nodes && t != h.tiles[i + 1]
    ensures Touch(Join(h, i, j), k) <==> Touch(h, if k < i then k else k + 1)
  {
    var h' := Join(h, i, j);
    if 0 <= k < |h'.tiles| - 1 {
      assert h'.tiles[k] == if k <= i then h.tiles[k] else h.tiles[k + 1];
      assert h'.tiles[k + 1] == if k + 1 <= i then h.tiles[k + 1] else h.tiles[k + 2];
    }
  }

  /** tiles[i] is a live block whose place on the free list is right after nodes[j]. */
  ghost predicate Placed(h: Heap, i: nat, j: nat) {
    && Ok(h) && i < |h.tiles| && j < |h.nodes| && h.tiles[i] !in h.nodes
    && h.nodes[j] < h.tiles[i] && (j + 1 < |h.nodes| ==> h.tiles[i] < h.nodes[j + 1])
  }

  ghost predicate JoinsNext(h: Heap, i: nat, j: nat)
    requires Placed(h, i, j)
  {
    j + 1 < |h.nodes| && End(h, i) == h.nodes[j + 1]
  }

  ghost predicate JoinsPrevious(h: Heap, i: nat, j: nat)
    requires Placed(h, i, j)
  {
    assert h.nodes[j] in h.size by { NodeTile(h, h.nodes[j]); }
    h.nodes[j] + h.size[h.nodes[j]] == h.tiles[i]
  }

  /** The tests of free on addresses find exactly the free neighbours in memory. */
  lemma Neighbours(h: Heap, i: nat, j: nat)
    requires Placed(h, i, j)
    ensures LOW <= h.tiles[i]
    ensures JoinsNext(h, i, j) <==> i + 1 < |h.tiles| && h.tiles[i + 1] in h.nodes
    ensures JoinsNext(h, i, j) ==> h.tiles[i + 1] == h.nodes[j + 1]
    ensures JoinsPrevious(h, i, j) <==> i > 0 && h.tiles[i - 1] in h.nodes
    ensures JoinsPrevious(h, i, j) ==> h.tiles[i - 1] == h.nodes[j]
  {
    TileBounds(h, i);
    NextNeighbour(h, i, j);
    PreviousNeighbour(h, i, j);
  }

  lemma NextNeighbour(h: Heap, i: nat, j: nat)
    requires Placed(h, i, j)
    ensures JoinsNext(h, i, j) <==> i + 1 < |h.tiles| && h.tiles[i + 1] in h.nodes
    ensures JoinsNext(h, i, j) ==> h.tiles[i + 1] == h.nodes[j + 1]
  {
    TilesOrder(h);
    assert End(h, i) == if i + 1 < |h.tiles| then h.tiles[i + 1] else h.high;
    if j + 1 < |h.nodes| {
      var k :| 0 <= k < |h.tiles| && h.tiles[k] == h.nodes[j + 1];
      TileBounds(h, k);
      if k <= i {
        assert false;
      }
      assert i + 1 < |h.tiles| && h.tiles[i + 1] <= h.tiles[k];
    }
    if i + 1 < |h.tiles| && h.tiles[i + 1] in h.nodes {
      var m :| 0 <= m < |h.nodes| && h.nodes[m] == h.tiles[i + 1];
      assert m > j;
    }
  }

  lemma PreviousNeighbour(h: Heap, i: nat, j: nat)
    requires Placed(h, i, j)
    ensures JoinsPrevious(h, i, j) <==> i > 0 && h.tiles[i - 1] in h.nodes
    ensures JoinsPrevious(h, i, j) ==> h.tiles[i - 1] == h.nodes[j]
  {
    TilesOrder(h);
    TileBounds(h, i);
    if i > 0 {
      assert End(h, i - 1) == h.tiles[i];
    }
    if j > 0 {
      var k :| 0 <= k < |h.tiles| && h.tiles[k] == h.nodes[j];
      TilesSorted(h, k, i);
      assert End(h, k) == h.tiles[k + 1];
    }
    if i > 0 && h.tiles[i - 1] in h.nodes {
      var m :| 0 <= m < |h.nodes| && h.nodes[m] == h.tiles[i - 1];
      TileBounds(h, i - 1);
      assert m <= j;
    }
  }

  /** free puts the block on the list ... */
  ghost function List(h: Heap, i: nat, j: nat): Heap
    requires i < |h.tiles| && j < |h.nodes|
  {
    h.(nodes := InsertAt(h.nodes, j + 1, h.tiles[i]))
  }

  /** ... joins it with a free block right behind it ... */
  ghost function ListAndJoin(h: Heap, i: nat, j: nat): Heap
    requires Placed(h, i, j)
  {
    Neighbours(h, i, j);
    if JoinsNext(h, i, j) then Join(List(h, i, j), i, j + 1) else List(h, i, j)
  }

  /** ... and with a free block right before it. */
  ghost function FreeBlock(h: Heap, i: nat, j: nat): Heap
    requires Placed(h, i, j)
  {
    Neighbours(h, i, j);
    if JoinsPrevious(h, i, j) then Join(ListAndJoin(h, i, j), i - 1, j) else ListAndJoin(h, i, j)
  }

  lemma ListOrdered(h: Heap, i: nat, j: nat)
    requires Placed(h, i, j)
    ensures var h1 := List(h, i, j);
      && Tiled(h1) && Ordered(h1)
      && (forall t :: t in h1.nodes <==> t in h.nodes || t == h.tiles[i])
      && (forall k: int :: Touch(h1, k) <==> (k == i && JoinsNext(h, i, j)) || (k == i - 1 && JoinsPrevious(h, i, j)))
  {
    var h1 := List(h, i, j);
    TileBounds(h, i);
    assert Tiled(h1) by {
      assert forall k :: 0 <= k < |h.tiles| ==> End(h1, k) == End(h, k);
    }
    hide Tiled, Touch;
    forall t ensures t in h1.nodes <==> t in h.nodes || t == h.tiles[i] {
      Inserted(h.nodes, j + 1, h.tiles[i], t);
    }
    Inserted(h.nodes, j + 1, h.tiles[i], 0);
    assert h1.nodes[0] == BASE;
    assert Ordered(h1);
    forall k: int
      ensures Touch(h1, k) <==> (k == i && JoinsNext(h, i, j)) || (k == i - 1 && JoinsPrevious(h, i, j))
    {
      TouchAfterListing(h, h1, i, j, k);
    }
  }

  lemma TouchAfterListing(h: Heap, h1: Heap, i: nat, j: nat, k: int)
    requires Placed(h, i, j) && h1.tiles == h.tiles
    requires forall t :: t in h1.nodes <==> t in h.nodes || t == h.tiles[i]
    ensures Touch(h1, k) <==> (k == i && JoinsNext(h, i, j)) || (k == i - 1 && JoinsPrevious(h, i, j))
  {
    Neighbours(h, i, j);
    OkIff(h);
    assert !Touch(h, k);
    if 0 <= k < |h.tiles| - 1 {
      if k < i {
        TilesSorted(h, k, i);
      } else if i < k {
        TilesSorted(h, i, k);
      }
      TilesSorted(h, k, k + 1);
      if i < k + 1 {
        TilesSorted(h, i, k + 1);
      } else if k + 1 < i {
        TilesSorted(h, k + 1, i);
      }
    }
  }

  lemma FreeKeepsNode(h: Heap, i: nat, j: nat)
    requires Placed(h, i, j)
    ensures h.nodes[j] in FreeBlock(h, i, j).nodes
  {
    Neighbours(h, i, j);
    hide Placed, Tiled, Listed, Sorted;
    assert InsertAt(h.nodes, j + 1, h.tiles[i])[j] == h.nodes[j];
    assert FreeBlock(h, i, j).nodes[j] == h.nodes[j];
  }

  lemma ListLive(h: Heap, h1: Heap, b: nat)
    requires h1.tiles == h.tiles && forall t :: t in h1.nodes <==> t in h.nodes || t == b
    ensures forall t :: Live(h1, t) <==> Live(h, t) && t != b
  {
  }

  lemma ListAndJoinOk(h: Heap, i: nat, j: nat)
    requires Placed(h, i, j)
    ensures var h2 := ListAndJoin(h, i, j);
      && Tiled(h2) && Ordered(h2)
      && (forall k: int :: Touch(h2, k) <==> k == i - 1 && JoinsPrevious(h, i, j))
      && (forall t :: Live(h2, t) <==> Live(h, t) && t != h.tiles[i])
      && (forall t :: Live(h2, t) ==> t in h.size && t in h2.size && h2.size[t] == h.size[t])
  {
    var h1 := List(h, i, j);
    Neighbours(h, i, j);
    ListOrdered(h, i, j);
    ListLive(h, h1, h.tiles[i]);
    LiveSized(h);
    hide Placed, Tiled, Ordered, Touch, Live;
    if JoinsNext(h, i, j) {
      JoinOrdered(h1, i, j + 1);
      LiveSized(Join(h1, i, j + 1));
    }
  }

  /** After listing, the block before and the new one are neighbours on the list as well. */
  lemma JoinPoint(h: Heap, i: nat, j: nat)
    requires Placed(h, i, j) && JoinsPrevious(h, i, j)
    ensures var h2 := ListAndJoin(h, i, j);
      && 0 < i < |h2.tiles| && j + 1 < |h2.nodes|
      && h2.tiles[i - 1] == h2.nodes[j] && h2.tiles[i] == h2.nodes[j + 1]
  {
    Neighbours(h, i, j);
    hide Tiled, Listed, Sorted;
    var h1 := List(h, i, j);
    assert h1.nodes[j] == h.nodes[j] && h1.nodes[j + 1] == h.tiles[i];
  }

  /** b is live no more, and the live blocks that remain keep their size. */
  ghost predicate LivesLess(h: Heap, b: nat, h': Heap) {
    && (forall t :: Live(h', t) <==> Live(h, t) && t != b)
    && (forall t :: Live(h', t) ==> t in h.size && t in h'.size && h'.size[t] == h.size[t])
  }

  /** Joining the only two free blocks that touch leaves none that do. */
  lemma JoinLast(h: Heap, b: nat, h2: Heap, i: nat, j: nat)
    requires LivesLess(h, b, h2) && Tiled(h2) && Ordered(h2) && i + 1 < |h2.tiles| && j + 1 < |h2.nodes|
    requires h2.nodes[j] == h2.tiles[i] && h2.nodes[j + 1] == h2.tiles[i + 1]
    requires forall k: int :: Touch(h2, k) ==> k == i
    ensures var h' := Join(h2, i, j);
      && Tiled(h') && Ordered(h') && LivesLess(h, b, h') && forall k: int :: !Touch(h', k)
  {
    JoinOrdered(h2, i, j);
    LiveSized(Join(h2, i, j));
    hide Tiled, Ordered, Touch, Live;
  }

  lemma FreeBlockFacts(h: Heap, i: nat, j: nat)
    requires Placed(h, i, j)
    ensures var h' := FreeBlock(h, i, j);
      && Tiled(h') && Ordered(h') && LivesLess(h, h.tiles[i], h') && forall k: int :: !Touch(h', k)
  {
    hide Placed, Tiled, Ordered, Touch, Live;
    Neighbours(h, i, j);
    ListAndJoinOk(h, i, j);
    var h2 := ListAndJoin(h, i, j);
    if JoinsPrevious(h, i, j) {
      JoinPoint(h, i, j);
      JoinLast(h, h.tiles[i], h2, i - 1, j);
    }
  }

  /** free removes the block from the live ones and leaves the heap in order; no other live
      block changes. */
  lemma FreeOk(h: Heap, i: nat, j: nat)
    requires Placed(h, i, j)
    ensures var h' := FreeBlock(h, i, j);
      && Ok(h') && h'.high == h.high && LivesLess(h, h.tiles[i], h') && h.nodes[j] in h'.nodes
  {
    hide Placed, Tiled, Ordered, Touch, LivesLess;
    FreeBlockFacts(h, i, j);
    FreeKeepsNode(h, i, j);
    OkIff(FreeBlock(h, i, j));
  }

  lemma LiveSized(h: Heap)
    requires Tiled(h)
    ensures forall t :: Live(h, t) ==> t in h.size
  {
  }

  /** What a call of free does: b is live no more, and the rest stays. By FreeListUnique this
      determines the free list completely. */
  ghost predicate FreeStep(h: Heap, b: nat, h': Heap) {
    Ok(h') && h'.high == h.high && LivesLess(h, b, h')
  }

  lemma {:induction false} FreedInOrder(hs: seq<Heap>, order: seq<nat>)
    requires |hs| == |order| + 1 && Ok(hs[0])
    requires forall k :: 0 <= k < |order| ==> FreeStep(hs[k], order[k], hs[k + 1])
    ensures var h' := hs[|order|];
      Ok(h') && h'.high == hs[0].high && forall t :: Live(h', t) <==> Live(hs[0], t) && t !in order
    decreases |order|
  {
    if order != [] {
      var n := |order| - 1;
      FreedInOrder(hs[..|hs| - 1], order[..n]);
      assert FreeStep(hs[n], order[n], hs[n + 1]);
      assert order == order[..n] + [order[n]];
    }
  }

  /** Freeing all live blocks, in whatever order, leaves base and one block that spans the
      whole heap. */
  lemma FreedInAnyOrder(hs: seq<Heap>, order: seq<nat>)
    requires |hs| == |order| + 1 && Ok(hs[0]) && hs[0].high > LOW
    requires forall k :: 0 <= k < |order| ==> FreeStep(hs[k], order[k], hs[k + 1])
    requires forall t :: Live(hs[0], t) ==> t in order
    ensures var h' := hs[|order|];
      h'.nodes == [BASE, LOW] && LOW in h'.size && h'.size[LOW] == hs[0].high - LOW
  {
    FreedInOrder(hs, order);
    var h' := hs[|order|];
    forall t ensures !Live(h', t) {
      assert Live(h', t) <==> Live(hs[0], t) && t !in order;
    }
    AllFreed(h');
    NodeTile(h', LOW);
  }
}
