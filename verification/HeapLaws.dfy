/**
 What the steps of the allocator come to, in sizes and addresses written out, and that
 the layout before a step decides the one after it.
 */
module HeapLaws {
  import opened Sequences
  import opened HeapLayout
  import opened HeapMemory
  import opened HeapBytes
  import opened HeapFacts
  import opened FreeLists
  import opened Allocators

  // ---- Sizes ---------------------------------------------------------------------------------

  /** The block for a request is the smallest that is a multiple of 8, has 24 bytes, and 8 more than asked for. */
  lemma BlockSizeLeast(size: nat)
    ensures BlockSize(size) % 8 == 0 && BlockSize(size) >= 24 && BlockSize(size) >= size + 8
    ensures forall n: nat | n % 8 == 0 && n >= 24 && n >= size + 8 :: BlockSize(size) <= n
  {
  }

  /** Up to 1040 bytes there is a class for every size, then the linear step decides, then each class doubles; 196 in all. */
  lemma ClassBounds(linear: nat -> nat, s: nat)
    requires s % 8 == 0 && s >= 24
    ensures s < 1048 <==> FreeListIndex(linear, s) < 128
    ensures s < 1048 ==> s == 24 + 8 * FreeListIndex(linear, s)
    ensures s >= 1048 && linear(s - 1048) < 60 ==> FreeListIndex(linear, s) == 128 + linear(s - 1048)
    ensures s >= 1048 && linear(s - 1048) >= 60 ==>
      var i := FreeListIndex(linear, s);
      && 188 <= i < 196
      && (i > 188 ==> s > 32816 * Doubled(i - 189)) && (i < 195 ==> s <= 32816 * Doubled(i - 188))
  {
    if s >= 1048 && linear(s - 1048) >= 60 {
      DoublingBounds(s, 188);
    }
  }

  ghost function Doubled(k: nat): nat {
    if k == 0 then 1 else 2 * Doubled(k - 1)
  }

  lemma {:induction false} DoublingBounds(s: nat, i: nat)
    requires 188 <= i <= 195 && (i > 188 ==> s > 32816 * Doubled(i - 189))
    ensures var r := DoublingClass(s, 32816 * Doubled(i - 188), i);
      && i <= r < 196
      && (r > 188 ==> s > 32816 * Doubled(r - 189)) && (r < 195 ==> s <= 32816 * Doubled(r - 188))
    decreases 196 - i
  {
    hide Doubled, DoublingClass;
    DoublingStep(s, 32816 * Doubled(i - 188), i);
    if i < 195 && s > 32816 * Doubled(i - 188) {
      DoubledStep(i - 188);
      DoublingBounds(s, i + 1);
    }
  }

  lemma DoubledStep(k: nat)
    ensures Doubled(k + 1) == 2 * Doubled(k)
  {
  }

  lemma DoublingStep(s: nat, current: nat, i: nat)
    requires 188 <= i <= 195
    ensures DoublingClass(s, current, i) == if i == 195 || s <= current then i else DoublingClass(s, 2 * current, i + 1)
  {
  }

  // ---- Layouts -------------------------------------------------------------------------------

  /** Placing wastes fewer than 24 bytes; what is split off is free and ends where the block did; nothing else changes. */
  lemma PlacedParts(bs: Blocks, first: int, end: int, b: int, size: nat)
    requires Tiles(bs, first, end) && b in bs && GoodSize(size) && size <= bs[b].size
    ensures var bs' := Placed(bs, b, size);
      && b in bs' && bs'[b].alloc && size <= bs'[b].size < size + 24
      && (bs'[b].size == bs[b].size || (bs'[b].size == size && Next(bs', b) in bs' && bs'[Next(bs', b)] == Block(bs[b].size - size, false)))
      && (forall x | x in bs && x != b :: x in bs' && bs'[x] == bs[x])
      && (forall x | x in bs' && x !in bs :: x == b + size && bs[b].size - size >= 24)
  {
    hide Tiles;
    OthersApart(bs, first, end, b, size);
  }

  lemma OthersApart(bs: Blocks, first: int, end: int, b: int, size: nat)
    requires Tiles(bs, first, end) && b in bs && 0 < size <= bs[b].size
    ensures forall x | x in bs && x == b + size :: size == bs[b].size
  {
  }

  /** Joining leaves every block outside the joined one as it was. */
  lemma CoalescedElsewhere(bs: Blocks, first: int, end: int, b: int, bs': Blocks, r: int)
    requires Tiles(bs, first, end) && b in bs && !bs[b].alloc && Coalesced(bs, b, bs', r)
    ensures r in bs' && forall x :: x in bs' && x != r ==> x in bs && bs'[x] == bs[x]
    ensures forall x | x in bs && x !in bs' :: r < x < r + bs'[r].size && !bs[x].alloc
  {
    hide Tiles, MergeNext, NoAdjacentFreeBut, NoAdjacentFree, Live;
    CoalescedShape(bs, first, end, b, bs', r);
    JoinShape(bs, first, end, b);
    var j := JoinNext(bs, b);
    if FreeNext(bs, b) {
      MergeParts(bs, first, end, b);
    }
    if r != b {
      MergeParts(j, first, end, r);
    }
  }

  lemma MergeParts(bs: Blocks, first: int, end: int, b: int)
    requires Tiles(bs, first, end) && b in bs && Next(bs, b) in bs
    ensures var n, bs' := Next(bs, b), MergeNext(bs, b);
      && b in bs' && bs'[b].size == bs[b].size + bs[n].size && bs[b].size > 0 && bs[n].size > 0 && n !in bs'
      && (forall x :: x in bs' && x != b ==> x in bs && bs'[x] == bs[x]) && (forall x | x in bs && x !in bs' :: x == n)
  {
  }

  /** With no free neighbours, the blocks in use decide where all the free ones are. */
  lemma LiveDecidesBlocks(bs: Blocks, bs': Blocks, first: int, end: int)
    requires Tiles(bs, first, end) && Tiles(bs', first, end) && NoAdjacentFree(bs) && NoAdjacentFree(bs') && Live(bs) == Live(bs')
    ensures bs == bs'
  {
    if first < end {
      SameFrom(bs, bs', first, end, first);
    }
    assert forall b | b in bs :: b >= first;
    assert forall b | b in bs' :: b >= first;
  }

  lemma {:induction false} SameFrom(bs: Blocks, bs': Blocks, first: int, end: int, x: int)
    requires Tiles(bs, first, end) && Tiles(bs', first, end) && NoAdjacentFree(bs) && NoAdjacentFree(bs') && Live(bs) == Live(bs')
    requires x in bs && x in bs'
    ensures forall b | b >= x :: (b in bs <==> b in bs') && (b in bs ==> bs[b] == bs'[b])
    decreases end - x
  {
    SameBlock(bs, bs', first, end, x);
    SameBlock(bs', bs, first, end, x);
    assert Next(bs', x) == Next(bs, x);
    if Next(bs, x) in bs {
      SameFrom(bs, bs', first, end, Next(bs, x));
    }
    NothingInside(bs, first, end, x);
    NothingInside(bs', first, end, x);
  }

  lemma NothingInside(bs: Blocks, first: int, end: int, x: int)
    requires Tiles(bs, first, end) && x in bs
    ensures forall b | b in bs && b > x :: b >= Next(bs, x)
    ensures Next(bs, x) == end || Next(bs, x) in bs
  {
  }

  lemma SameBlock(bs: Blocks, bs': Blocks, first: int, end: int, x: int)
    requires Tiles(bs, first, end) && Tiles(bs', first, end) && NoAdjacentFree(bs) && Live(bs) == Live(bs')
    requires x in bs && x in bs'
    ensures bs[x].alloc == bs'[x].alloc && bs[x].size >= bs'[x].size
  {
    assert bs[x].alloc <==> x in Live(bs);
    assert bs'[x].alloc <==> x in Live(bs');
    var n := Next(bs, x);
    if bs[x].alloc {
      assert Live(bs)[x] == Live(bs')[x];
    } else {
      assert n in bs && bs[n].alloc ==> n in Live(bs');
    }
  }

  // ---- Words in memory ---------------------------------------------------------------------------

  /** Headers and footers hold the size, plus 1 for a block in use; 9 stands in the prologue, 1 in the epilogue. */
  lemma TagWords(heap: Allocator)
    requires heap.Valid()
    ensures forall b | b in heap.blocks ::
      var w := heap.blocks[b].size + if heap.blocks[b].alloc then 1 else 0;
      WordIs(heap.mem, b - 4, w) && WordIs(heap.mem, b + heap.blocks[b].size - 8, w)
    ensures WordIs(heap.mem, heap.base + 1572, 9) && WordIs(heap.mem, heap.base + 1576, 9) && WordIs(heap.mem, heap.brk - 4, 1)
  {
    hide Tiles, AllLinked, Filed;
  }

  // ---- A step is decided by the layout before it ------------------------------------------------

  lemma CoalescedIsDetermined(bs: Blocks, first: int, end: int, b: int, bs1: Blocks, r1: int, bs2: Blocks, r2: int)
    requires Tiles(bs, first, end) && b in bs && Coalesced(bs, b, bs1, r1) && Coalesced(bs, b, bs2, r2)
    ensures r1 == r2 && bs1 == bs2
  {
    if r1 != b && r2 != b {
      OnePrevious(bs, r1, r2);
    }
  }

  lemma JoinedIsDetermined(heap: Allocator, h: Layout, b: int, h1: Layout, r1: int, h2: Layout, r2: int)
    requires Tiles(h.blocks, heap.First(), h.brk) && heap.JoinedTo(h, b, h1, r1) && heap.JoinedTo(h, b, h2, r2)
    ensures h1 == h2 && r1 == r2
  {
    hide Coalesced, Tiles;
    CoalescedIsDetermined(h.blocks, heap.First(), h.brk, b, h1.blocks, r1, h2.blocks, r2);
  }

  lemma FreedIsDetermined(heap: Allocator, h: Layout, p: int, h1: Layout, h2: Layout)
    requires Tiles(h.blocks, heap.First(), h.brk) && p in h.blocks && heap.FreedTo(h, p, h1) && heap.FreedTo(h, p, h2)
    ensures h1 == h2
  {
    hide Tiles, Allocator.JoinedTo;
    RetagTiles(h.blocks, heap.First(), h.brk, p, false);
    var f := Layout(Freed(h.blocks, p), Listed(h.lists, heap.linear, p, h.blocks[p].size), h.brk);
    var r1 :| heap.JoinedTo(f, p, h1, r1);
    var r2 :| heap.JoinedTo(f, p, h2, r2);
    JoinedIsDetermined(heap, f, p, h1, r1, h2, r2);
  }

  lemma FirstFitIsDetermined(heap: Allocator, h: Layout, r1: int, r2: int, size: nat)
    requires heap.WellFormed(h) && heap.FirstFit(h.blocks, h.lists, r1, size) && heap.FirstFit(h.blocks, h.lists, r2, size)
    ensures r1 == r2
  {
    hide Tiles;
    var i1, j1 :| heap.FirstAt(h.blocks, h.lists, i1, j1, size) && h.lists[i1][j1] == r1;
    var i2, j2 :| heap.FirstAt(h.blocks, h.lists, i2, j2, size) && h.lists[i2][j2] == r2;
    assert r1 in h.lists[i1] && r2 in h.lists[i2];
    assert Member(h.blocks, {}, heap.linear, r1, i1) && Member(h.blocks, {}, heap.linear, r2, i2);
  }

  lemma AppendedTiles(heap: Allocator, h: Layout, n: nat)
    requires heap.WellFormed(h) && GoodSize(n)
    ensures Tiles(heap.Appended(h, n).blocks, heap.First(), h.brk + n)
  {
    ExtendTiles(h.blocks, heap.First(), h.brk, n);
  }

  lemma NeedIsGood(heap: Allocator, size: nat)
    ensures GoodSize(Align(Max(BlockSize(size), heap.pageSize)))
  {
  }

  lemma ServedIsDetermined(heap: Allocator, h: Layout, h1: Layout, p1: int, h2: Layout, p2: int, size: nat)
    requires heap.WellFormed(h) && heap.Served(h, h1, p1, size) && heap.Served(h, h2, p2, size)
    ensures h1 == h2 && p1 == p2
  {
    hide Tiles, BlockSize, Allocator.FirstFit, Allocator.PlacedAt, Allocator.JoinedTo, Allocator.Appended, Align, Max, Filed;
    var need := BlockSize(size);
    if exists b :: b in h.blocks && !h.blocks[b].alloc && h.blocks[b].size >= need {
      FirstFitIsDetermined(heap, h, p1, p2, need);
    } else {
      var n := Align(Max(need, heap.pageSize));
      NeedIsGood(heap, size);
      AppendedTiles(heap, h, n);
      AppendedEnd(heap, h, n);
      var mid1: Layout :| heap.GrownAt(h, n, mid1, p1) && need <= mid1.blocks[p1].size && h1 == heap.PlacedAt(mid1, p1, need);
      var mid2: Layout :| heap.GrownAt(h, n, mid2, p2) && need <= mid2.blocks[p2].size && h2 == heap.PlacedAt(mid2, p2, need);
      JoinedIsDetermined(heap, heap.Appended(h, n), h.brk, mid1, p1, mid2, p2);
    }
  }

  lemma AppendedEnd(heap: Allocator, h: Layout, n: nat)
    ensures var g := heap.Appended(h, n); g.brk == h.brk + n && h.brk in g.blocks && g.blocks[h.brk] == Block(n, false)
  {
  }

  /** A served request leaves a tiled heap. */
  lemma ServedTiles(heap: Allocator, h: Layout, h': Layout, p: int, size: nat)
    requires heap.WellFormed(h) && heap.Served(h, h', p, size)
    ensures Tiles(h'.blocks, heap.First(), h'.brk)
  {
    hide Tiles, BlockSize, Allocator.FirstFit, Allocator.PlacedAt, Allocator.JoinedTo, Align, Max, Filed, Placed;
    var need := BlockSize(size);
    if exists b :: b in h.blocks && !h.blocks[b].alloc && h.blocks[b].size >= need {
      SplitTiles(h.blocks, heap.First(), h.brk, p, need);
    } else {
      var n := Align(Max(need, heap.pageSize));
      NeedIsGood(heap, size);
      var mid: Layout :| heap.GrownAt(h, n, mid, p) && need <= mid.blocks[p].size && h' == heap.PlacedAt(mid, p, need);
      GrownTiles(heap, h, n, mid, p);
      SplitTiles(mid.blocks, heap.First(), mid.brk, p, need);
    }
  }

  lemma GrownTiles(heap: Allocator, h: Layout, n: nat, mid: Layout, p: int)
    requires heap.WellFormed(h) && GoodSize(n) && heap.GrownAt(h, n, mid, p)
    ensures Tiles(mid.blocks, heap.First(), mid.brk)
  {
    hide Tiles, Filed, Coalesced;
    AppendedTiles(heap, h, n);
    CoalescedShape(heap.Appended(h, n).blocks, heap.First(), h.brk + n, h.brk, mid.blocks, p);
  }

  lemma WellFormedTiles(heap: Allocator, h: Layout)
    requires heap.WellFormed(h)
    ensures Tiles(h.blocks, heap.First(), h.brk)
  {
  }

  lemma MovedIsDetermined(heap: Allocator, h: Layout, h1: Layout, p1: int, h2: Layout, p2: int, ptr: int, size: nat)
    requires heap.WellFormed(h) && heap.MovedTo(h, h1, ptr, p1, size) && heap.MovedTo(h, h2, ptr, p2, size)
    ensures h1 == h2 && p1 == p2
  {
    hide Tiles, Allocator.Served, Allocator.FreedTo, Allocator.WellFormed;
    var mid1: Layout :| ptr in mid1.blocks && heap.Served(h, mid1, p1, size) && heap.FreedTo(mid1, ptr, h1);
    var mid2: Layout :| ptr in mid2.blocks && heap.Served(h, mid2, p2, size) && heap.FreedTo(mid2, ptr, h2);
    ServedIsDetermined(heap, h, mid1, p1, mid2, p2, size);
    ServedTiles(heap, h, mid1, p1, size);
    FreedIsDetermined(heap, mid1, ptr, h1, h2);
  }

  lemma InPlaceIsDetermined(heap: Allocator, h: Layout, h1: Layout, p1: int, h2: Layout, p2: int, ptr: int, size: nat)
    requires heap.WellFormed(h) && ptr in h.blocks && p1 != NULL && p2 != NULL
    requires heap.InPlace(h, h1, ptr, p1, size) && heap.InPlace(h, h2, ptr, p2, size)
    ensures h1 == h2 && p1 == p2
  {
    hide Allocator.WellFormed, Allocator.MovedTo, Allocator.PlacedAt, MergeNext, Unlisted, BlockSize;
    var need := BlockSize(size);
    if h.blocks[ptr].size < need && !(FreeNext(h.blocks, ptr) && h.blocks[ptr].size + h.blocks[Next(h.blocks, ptr)].size >= need) {
      MovedIsDetermined(heap, h, h1, p1, h2, p2, ptr, size);
    }
  }

  // ---- Two calls in a row ------------------------------------------------------------------------

  /** Between blocks in use, freeing joins nothing and leaves the block in front of its list. */
  lemma FreedAlone(heap: Allocator, h: Layout, p: int, h': Layout)
    requires p in h.blocks && heap.FreedTo(h, p, h')
    requires !FreeNext(h.blocks, p) && forall b :: !FreePrevious(h.blocks, b, p)
    ensures h' == Layout(Freed(h.blocks, p), Listed(h.lists, heap.linear, p, h.blocks[p].size), h.brk)
  {
    var f := Freed(h.blocks, p);
    var r :| heap.JoinedTo(Layout(f, Listed(h.lists, heap.linear, p, h.blocks[p].size), h.brk), p, h', r);
    assert forall b :: FreePrevious(f, b, p) ==> b == p || FreePrevious(h.blocks, b, p);
    assert Next(f, p) == Next(h.blocks, p);
  }

  /** The block in front of the list of its class is the first fit for its own size. */
  lemma FrontIsFirst(heap: Allocator, h: Layout, lists: seq<seq<int>>, p: int, r: int, size: nat)
    requires |lists| == FREE_LIST_COUNT && h.lists == Listed(lists, heap.linear, p, size) && size >= MIN_BLOCK
    requires p in h.blocks && h.blocks[p] == Block(size, false) && heap.FirstFit(h.blocks, h.lists, r, size)
    ensures r == p
  {
    hide FreeListIndex;
    var i, j :| heap.FirstAt(h.blocks, h.lists, i, j, size) && h.lists[i][j] == r;
    var c := FreeListIndex(heap.linear, size);
    assert h.lists[c][0] == p;
    assert i == c;
  }

  lemma PlacedWhole(bs: Blocks, p: int, size: nat)
    requires p in bs && bs[p] == Block(size, true)
    ensures Placed(Freed(bs, p), p, size) == bs
  {
  }

  /** A block freed between blocks in use is the first to be handed out again for its size. */
  method FreeThenMalloc(heap: Allocator, p: int, size: nat) returns (q: int)
    requires heap.Valid() && p in Live(heap.blocks) && heap.blocks[p].size == BlockSize(size) && size > 0
    requires heap.Representable(heap.brk, size)
    requires !FreeNext(heap.blocks, p) && forall b :: !FreePrevious(heap.blocks, b, p)
    modifies heap
    ensures q == p && heap.blocks == old(heap.blocks) && heap.brk == old(heap.brk)
  {
    hide Allocator.CoreOf, Allocator.FreedTo, Allocator.FirstFit, Allocator.Fits, Allocator.PlacedAt, Placed, Freed, Listed, Tiles, BlockSize,
      Allocator.GrownAt, PayloadsKept, NoAdjacentFree, FreeNext, FreePrevious, Allocator.Representable, Align, Max;
    ghost var h0 := heap.Now();
    heap.HeadCount();
    heap.LiveBlock(p);
    heap.MmFree(p);
    ghost var h := heap.Now();
    FreedAlone(heap, h0, p, h);
    FreedBlock(h0.blocks, p);
    q := heap.MmMalloc(size);
    FrontIsFirst(heap, h, h0.lists, p, q, BlockSize(size));
    PlacedWhole(h0.blocks, p, BlockSize(size));
  }

  lemma FreedBlock(bs: Blocks, p: int)
    requires p in bs
    ensures p in Freed(bs, p) && Freed(bs, p)[p] == Block(bs[p].size, false)
  {
  }
}
