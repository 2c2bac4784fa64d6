/**
 Geometry of the heap: blocks, keyed by payload address, that tile the space
 between the prologue and the epilogue.
 */
module HeapLayout {

  const MIN_BLOCK := 24   // header, footer and two list pointers

  /** A block occupies [bp - 4, bp + size - 4) around its payload pointer bp. */
  datatype Block = Block(size: nat, alloc: bool)

  type Blocks = map<int, Block>

  /** Payload address of the block that follows b. */
  function Next(bs: Blocks, b: int): int
    requires b in bs
  {
    b + bs[b].size
  }

  ghost predicate GoodSize(size: nat) {
    size % 8 == 0 && size >= MIN_BLOCK
  }

  ghost predicate Shaped(bs: Blocks, first: int, end: int) {
    forall b | b in bs :: b % 8 == 0 && first <= b && GoodSize(bs[b].size) && b + bs[b].size <= end
  }

  ghost predicate Chained(bs: Blocks, end: int) {
    forall b {:trigger Next(bs, b)} | b in bs :: Next(bs, b) == end || Next(bs, b) in bs
  }

  ghost predicate Apart(bs: Blocks) {
    forall a, b | a in bs && b in bs && a < b :: a + bs[a].size <= b
  }

  /** The blocks cover [first, end) without gap or overlap. */
  ghost predicate Tiles(bs: Blocks, first: int, end: int) {
    && first % 8 == 0 && first <= end && (first == end || first in bs)
    && Shaped(bs, first, end) && Chained(bs, end) && Apart(bs)
  }

  /** No two neighbouring blocks are both free. */
  ghost predicate NoAdjacentFree(bs: Blocks) {
    forall b {:trigger Next(bs, b)} | b in bs && !bs[b].alloc :: Next(bs, b) in bs ==> bs[Next(bs, b)].alloc
  }

  /** As above, but pairs that involve block x are not constrained. */
  ghost predicate NoAdjacentFreeBut(bs: Blocks, x: int) {
    forall b {:trigger Next(bs, b)} | b in bs && !bs[b].alloc && b != x ::
      Next(bs, b) != x && Next(bs, b) in bs ==> bs[Next(bs, b)].alloc
  }

  /** Live payloads: address and block size of every allocated block. */
  ghost function Live(bs: Blocks): map<int, nat> {
    map b | b in bs && bs[b].alloc :: bs[b].size
  }

  /** Block b with the one after it absorbed into it. */
  ghost function MergeNext(bs: Blocks, b: int): Blocks
    requires b in bs && Next(bs, b) in bs
  {
    (bs - {Next(bs, b)})[b := Block(bs[b].size + bs[Next(bs, b)].size, bs[b].alloc)]
  }

  /** Block b marked as in use, with what it does not need split off when that is big enough. */
  ghost function Placed(bs: Blocks, b: int, size: nat): Blocks
    requires b in bs && size <= bs[b].size
  {
    if bs[b].size - size >= MIN_BLOCK
    then bs[b := Block(size, true)][b + size := Block(bs[b].size - size, false)]
    else bs[b := Block(bs[b].size, true)]
  }

  /** Block b marked free. */
  ghost function Freed(bs: Blocks, b: int): Blocks
    requires b in bs
  {
    bs[b := Block(bs[b].size, false)]
  }

  ghost predicate FreeNext(bs: Blocks, b: int)
    requires b in bs
  {
    Next(bs, b) in bs && !bs[Next(bs, b)].alloc
  }

  /** p is the free block that ends where b begins. */
  ghost predicate FreePrevious(bs: Blocks, p: int, b: int) {
    p in bs && !bs[p].alloc && Next(bs, p) == b
  }

  /** Block b joined with the following block, if that is free. */
  ghost function JoinNext(bs: Blocks, b: int): Blocks
    requires b in bs
  {
    if FreeNext(bs, b) then MergeNext(bs, b) else bs
  }

  /** bs' is bs with the free block b joined to its free neighbours; r is the joined block. */
  ghost predicate Coalesced(bs: Blocks, b: int, bs': Blocks, r: int)
    requires b in bs
  {
    if r == b then bs' == JoinNext(bs, b) && forall p :: !FreePrevious(bs, p, b)
    else FreePrevious(bs, r, b) && Next(JoinNext(bs, b), r) in JoinNext(bs, b) && bs' == MergeNext(JoinNext(bs, b), r)
  }

  lemma RetagTiles(bs: Blocks, first: int, end: int, b: int, alloc: bool)
    requires Tiles(bs, first, end) && b in bs
    ensures Tiles(bs[b := Block(bs[b].size, alloc)], first, end)
  {
    var bs' := bs[b := Block(bs[b].size, alloc)];
    forall x {:trigger Next(bs', x)} | x in bs'
      ensures Next(bs', x) == end || Next(bs', x) in bs'
    {
      assert Next(bs', x) == Next(bs, x);
    }
  }

  lemma RestIsGood(size: nat, rest: nat)
    requires size % 8 == 0 && rest % 8 == 0 && size <= rest && rest - size >= MIN_BLOCK
    ensures GoodSize(rest - size)
  {
  }

  lemma SumIsGood(size: nat, rest: nat)
    requires GoodSize(size) && GoodSize(rest)
    ensures GoodSize(size + rest)
  {
  }

  lemma NextAligned(b: int, size: nat)
    requires b % 8 == 0 && GoodSize(size)
    ensures (b + size) % 8 == 0 && size >= MIN_BLOCK
  {
  }

  lemma CutApart(bs: Blocks, b: int, size: nat, rest: nat)
    requires Apart(bs) && b in bs && size > 0 && rest > 0 && size + rest == bs[b].size
    ensures Apart(bs[b := Block(size, true)][b + size := Block(rest, false)])
  {
    var c := b + size;
    var bs' := bs[b := Block(size, true)][c := Block(rest, false)];
    forall x, y | x in bs' && y in bs' && x < y
      ensures x + bs'[x].size <= y
    {
      if x == b || x == c {
        assert y == c || y in bs;
      } else {
        assert x in bs;
      }
    }
  }

  lemma CutTiles(bs: Blocks, first: int, end: int, b: int, size: nat)
    requires Tiles(bs, first, end) && b in bs && GoodSize(size) && size <= bs[b].size && GoodSize(bs[b].size - size)
    ensures Tiles(bs[b := Block(size, true)][b + size := Block(bs[b].size - size, false)], first, end)
  {
    hide GoodSize, Apart;
    var c := b + size;
    var bs' := bs[b := Block(size, true)][c := Block(bs[b].size - size, false)];
    NextAligned(b, size);
    NextAligned(c, bs[b].size - size);
    CutApart(bs, b, size, bs[b].size - size);
    assert Shaped(bs', first, end);
    forall x {:trigger Next(bs', x)} | x in bs'
      ensures Next(bs', x) == end || Next(bs', x) in bs'
    {
      if x == c {
        assert Next(bs', x) == Next(bs, b);
      } else if x != b {
        assert Next(bs', x) == Next(bs, x);
      }
    }
  }

  lemma SplitTiles(bs: Blocks, first: int, end: int, b: int, size: nat)
    requires Tiles(bs, first, end) && b in bs && size <= bs[b].size && GoodSize(size)
    ensures Tiles(Placed(bs, b, size), first, end)
  {
    if bs[b].size - size >= MIN_BLOCK {
      RestIsGood(size, bs[b].size);
      CutTiles(bs, first, end, b, size);
    } else {
      RetagTiles(bs, first, end, b, true);
    }
  }

  lemma MergeApart(bs: Blocks, b: int)
    requires Apart(bs) && b in bs && Next(bs, b) in bs
    ensures Apart(MergeNext(bs, b))
  {
    var bs' := MergeNext(bs, b);
    forall x, y | x in bs' && y in bs' && x < y
      ensures x + bs'[x].size <= y
    {
      assert x in bs && y in bs;
    }
  }

  lemma OnePrevious(bs: Blocks, a: int, b: int)
    requires Apart(bs) && a in bs && b in bs && GoodSize(bs[a].size) && GoodSize(bs[b].size)
    ensures Next(bs, a) == Next(bs, b) ==> a == b
  {
  }

  lemma MergeTiles(bs: Blocks, first: int, end: int, b: int)
    requires Tiles(bs, first, end) && b in bs && Next(bs, b) in bs
    ensures Tiles(MergeNext(bs, b), first, end)
  {
    hide GoodSize, Apart;
    var bs', n := MergeNext(bs, b), Next(bs, b);
    SumIsGood(bs[b].size, bs[n].size);
    NextAligned(n, bs[n].size);
    MergeApart(bs, b);
    assert Shaped(bs', first, end);
    forall x {:trigger Next(bs', x)} | x in bs'
      ensures Next(bs', x) == end || Next(bs', x) in bs'
    {
      if x == b {
        assert Next(bs', b) == Next(bs, n);
      } else {
        OnePrevious(bs, x, b);
        assert Next(bs', x) == Next(bs, x);
      }
    }
  }

  lemma ExtendTiles(bs: Blocks, first: int, end: int, size: nat)
    requires Tiles(bs, first, end) && GoodSize(size)
    requires end % 8 == 0
    ensures Tiles(bs[end := Block(size, false)], first, end + size)
  {
    var bs' := bs[end := Block(size, false)];
    forall x {:trigger Next(bs', x)} | x in bs'
      ensures Next(bs', x) == end + size || Next(bs', x) in bs'
    {
      if x != end {
        assert Next(bs', x) == Next(bs, x);
      }
    }
  }

  /** Following blocks from x, one meets the block that ends where b begins. */
  lemma {:induction false} WalkToPrevious(bs: Blocks, first: int, end: int, x: int, b: int) returns (p: int)
    requires Tiles(bs, first, end) && x in bs && b in bs && x < b
    ensures p in bs && Next(bs, p) == b
    decreases b - x
  {
    if Next(bs, x) == b {
      p := x;
    } else {
      p := WalkToPrevious(bs, first, end, Next(bs, x), b);
    }
  }

  /** Every block but the first has a predecessor that ends where it begins. */
  lemma Previous(bs: Blocks, first: int, end: int, b: int) returns (p: int)
    requires Tiles(bs, first, end) && b in bs && b != first
    ensures p in bs && Next(bs, p) == b
  {
    p := WalkToPrevious(bs, first, end, first, b);
  }

  lemma {:induction false} WalkToCover(bs: Blocks, first: int, end: int, x: int, a: int) returns (b: int)
    requires Tiles(bs, first, end) && x in bs && x <= a < end
    ensures b in bs && b <= a < Next(bs, b)
    decreases a - x
  {
    if a < Next(bs, x) {
      b := x;
    } else {
      b := WalkToCover(bs, first, end, Next(bs, x), a);
    }
  }

  /** Each address between prologue and epilogue belongs to exactly one block. */
  lemma TilesPartition(bs: Blocks, first: int, end: int, a: int)
    requires Tiles(bs, first, end) && first <= a < end
    ensures exists b :: b in bs && b <= a < Next(bs, b)
    ensures forall b, c | b in bs && c in bs && b <= a < Next(bs, b) && c <= a < Next(bs, c) :: b == c
  {
    var b := WalkToCover(bs, first, end, first, a);
  }

  /** With everything freed and no two free neighbours, one free block spans the heap. */
  lemma AllFreedIsOneBlock(bs: Blocks, first: int, end: int)
    requires Tiles(bs, first, end) && NoAdjacentFree(bs) && Live(bs) == map[]
    requires first < end
    ensures bs == map[first := Block(end - first, false)]
  {
    forall b | b in bs
      ensures !bs[b].alloc
    {
      assert b !in Live(bs);
    }
    assert Next(bs, first) == end;
    forall b | b in bs
      ensures b == first
    {
    }
    assert bs.Keys == {first};
  }

  lemma OneFreePrevious(bs: Blocks, first: int, end: int, p: int, q: int, b: int)
    requires Tiles(bs, first, end) && p in bs && q in bs && Next(bs, p) == b && Next(bs, q) == b
    ensures p == q
  {
  }

  /** Joining free blocks changes no live one. */
  lemma MergeKeepsLive(bs: Blocks, b: int)
    requires b in bs && Next(bs, b) in bs && bs[b].size > 0 && !bs[b].alloc && !bs[Next(bs, b)].alloc
    ensures Live(MergeNext(bs, b)) == Live(bs)
  {
  }

  lemma JoinShape(bs: Blocks, first: int, end: int, b: int)
    requires Tiles(bs, first, end) && b in bs && !bs[b].alloc
    ensures Tiles(JoinNext(bs, b), first, end) && b in JoinNext(bs, b) && !JoinNext(bs, b)[b].alloc
    ensures Live(JoinNext(bs, b)) == Live(bs)
    ensures JoinNext(bs, b)[b].size >= bs[b].size
    ensures forall x | x in bs && x < b :: x in JoinNext(bs, b) && JoinNext(bs, b)[x] == bs[x]
    ensures NoAdjacentFreeBut(bs, b) ==> NoAdjacentFreeBut(JoinNext(bs, b), b) && !FreeNext(JoinNext(bs, b), b)
  {
    if FreeNext(bs, b) {
      var n, bs' := Next(bs, b), MergeNext(bs, b);
      MergeTiles(bs, first, end, b);
      MergeKeepsLive(bs, b);
      if NoAdjacentFreeBut(bs, b) {
        assert Next(bs', b) == Next(bs, n);
        forall x {:trigger Next(bs', x)} | x in bs' && !bs'[x].alloc && x != b
          ensures Next(bs', x) != b && Next(bs', x) in bs' ==> bs'[Next(bs', x)].alloc
        {
          assert Next(bs', x) == Next(bs, x);
        }
      }
    }
  }

  /** What coalescing achieves: the same live blocks, and no free neighbours if b was the only exception. */
  lemma CoalescedShape(bs: Blocks, first: int, end: int, b: int, bs': Blocks, r: int)
    requires Tiles(bs, first, end) && b in bs && !bs[b].alloc && Coalesced(bs, b, bs', r)
    ensures Tiles(bs', first, end) && Live(bs') == Live(bs)
    ensures r in bs' && !bs'[r].alloc && r <= b && r + bs'[r].size >= b + bs[b].size
    ensures NoAdjacentFreeBut(bs, b) ==> NoAdjacentFree(bs')
  {
    var j := JoinNext(bs, b);
    JoinShape(bs, first, end, b);
    if r != b {
      assert Next(j, r) == b;
      MergeTiles(j, first, end, r);
      MergeKeepsLive(j, r);
    }
    if NoAdjacentFreeBut(bs, b) {
      forall x {:trigger Next(bs', x)} | x in bs' && !bs'[x].alloc && Next(bs', x) in bs'
        ensures bs'[Next(bs', x)].alloc
      {
        NoNeighbour(bs, first, end, b, bs', r, x);
      }
    }
  }

  /** The only block of a heap has nothing to be joined with. */
  lemma OnlyBlock(f: int, n: nat, bs: Blocks, bs': Blocks, r: int)
    requires n > 0 && bs == map[f := Block(n, false)] && Coalesced(bs, f, bs', r)
    ensures bs' == bs
  {
    assert Next(bs, f) == f + n;
    assert !FreePrevious(bs, r, f);
  }

  lemma NoNeighbour(bs: Blocks, first: int, end: int, b: int, bs': Blocks, r: int, x: int)
    requires Tiles(bs, first, end) && b in bs && !bs[b].alloc && Coalesced(bs, b, bs', r)
    requires NoAdjacentFreeBut(bs, b) && x in bs' && !bs'[x].alloc && Next(bs', x) in bs'
    ensures bs'[Next(bs', x)].alloc
  {
    var j := JoinNext(bs, b);
    JoinShape(bs, first, end, b);
    if r == b {
      assert Next(j, x) == b ==> x < b && FreePrevious(bs, x, b) by {
        if x < b {
          assert Next(bs, x) == Next(j, x);
        }
      }
    } else {
      assert Next(bs, r) == b && Next(j, r) == b;
      if x == r {
        assert Next(bs', r) == Next(j, b);
      } else {
        assert Next(bs', x) == Next(j, x);
        assert x < r ==> Next(bs, x) == Next(j, x);
      }
    }
  }

  /** A new free block at the end can only have a free neighbour before it. */
  lemma ExtendNoAdjacent(bs: Blocks, first: int, end: int, size: nat)
    requires Tiles(bs, first, end) && size > 0 && NoAdjacentFree(bs)
    ensures NoAdjacentFreeBut(bs[end := Block(size, false)], end)
    ensures Live(bs[end := Block(size, false)]) == Live(bs)
  {
    var bs' := bs[end := Block(size, false)];
    assert end !in bs;
    forall x {:trigger Next(bs', x)} | x in bs' && !bs'[x].alloc && x != end
      ensures Next(bs', x) != end && Next(bs', x) in bs' ==> bs'[Next(bs', x)].alloc
    {
      assert Next(bs', x) == Next(bs, x);
    }
  }

  /** Placing in a free block splits nothing off next to another free block; shrinking a live one may. */
  lemma PlacedNoAdjacent(bs: Blocks, first: int, end: int, b: int, size: nat)
    requires Tiles(bs, first, end) && b in bs && size <= bs[b].size && GoodSize(size) && NoAdjacentFree(bs)
    ensures NoAdjacentFree(Placed(bs, b, size))
       <==> !(bs[b].alloc && bs[b].size - size >= MIN_BLOCK && FreeNext(bs, b))
  {
    var bs' := Placed(bs, b, size);
    var split := bs[b].size - size >= MIN_BLOCK;
    if split {
      assert Next(bs', b + size) == Next(bs, b);
    }
    if !(bs[b].alloc && split && FreeNext(bs, b)) {
      forall x {:trigger Next(bs', x)} | x in bs' && !bs'[x].alloc && Next(bs', x) in bs'
        ensures bs'[Next(bs', x)].alloc
      {
        PlacedNeighbour(bs, first, end, b, size, x);
      }
    }
  }

  lemma PlacedNeighbour(bs: Blocks, first: int, end: int, b: int, size: nat, x: int)
    requires Tiles(bs, first, end) && b in bs && size <= bs[b].size && GoodSize(size) && NoAdjacentFree(bs)
    requires !(bs[b].alloc && bs[b].size - size >= MIN_BLOCK && FreeNext(bs, b))
    requires x in Placed(bs, b, size) && !Placed(bs, b, size)[x].alloc
    requires Next(Placed(bs, b, size), x) in Placed(bs, b, size)
    ensures Placed(bs, b, size)[Next(Placed(bs, b, size), x)].alloc
  {
    var bs' := Placed(bs, b, size);
    var split := bs[b].size - size >= MIN_BLOCK;
    if split && x == b + size {
      assert Next(bs', x) == Next(bs, b);
    } else {
      assert Next(bs', x) == Next(bs, x);
      assert !split || Next(bs, x) != b + size;
    }
  }

  lemma PlacedLive(bs: Blocks, first: int, end: int, b: int, size: nat)
    requires Tiles(bs, first, end) && b in bs && size <= bs[b].size && GoodSize(size)
    ensures b in Placed(bs, b, size) && Placed(bs, b, size)[b].alloc
    ensures size <= Placed(bs, b, size)[b].size <= bs[b].size
    ensures Live(Placed(bs, b, size)) == Live(bs)[b := Placed(bs, b, size)[b].size]
  {
    if bs[b].size - size >= MIN_BLOCK {
      assert b + size !in bs;
    }
  }

  /** Freeing a block makes it the only one that may have free neighbours. */
  lemma FreedNoAdjacent(bs: Blocks, b: int)
    requires b in bs && NoAdjacentFree(bs)
    ensures NoAdjacentFreeBut(Freed(bs, b), b)
  {
    var bs' := Freed(bs, b);
    forall x {:trigger Next(bs', x)} | x in bs' && !bs'[x].alloc && x != b
      ensures Next(bs', x) != b && Next(bs', x) in bs' ==> bs'[Next(bs', x)].alloc
    {
      assert Next(bs', x) == Next(bs, x);
    }
  }

  lemma FreedLive(bs: Blocks, b: int)
    requires b in bs
    ensures Live(Freed(bs, b)) == Live(bs) - {b}
  {
  }

  // ---- The growth scan of realloc ---------------------------------------------------------

  /**
   Follows free blocks after cur, adding their sizes to c, until the total reaches
   need: the block where it stops (0 if it never does) and the total.
   */
  ghost function Scan(bs: Blocks, first: int, end: int, cur: int, c: nat, need: nat): (int, nat)
    requires Tiles(bs, first, end) && cur in bs
    decreases end - cur
  {
    if !FreeNext(bs, cur) then (0, c)
    else
      var n := Next(bs, cur);
      if c + bs[n].size >= need then (n, c + bs[n].size) else Scan(bs, first, end, n, c + bs[n].size, need)
  }

  /** Growing block b to need bytes has to absorb more than the block right after it. */
  ghost predicate ScanOvershoots(bs: Blocks, first: int, end: int, b: int, need: nat)
    requires Tiles(bs, first, end) && b in bs
  {
    var stop := Scan(bs, first, end, b, bs[b].size, need).0;
    stop != 0 && stop != Next(bs, b)
  }

  lemma {:induction false} ScanResult(bs: Blocks, first: int, end: int, cur: int, c: nat, need: nat)
    requires Tiles(bs, first, end) && cur in bs && first > 0
    ensures var (stop, total) := Scan(bs, first, end, cur, c, need);
      stop != 0 ==> stop in bs && !bs[stop].alloc && stop >= Next(bs, cur) && total >= need
                    && (stop == Next(bs, cur) <==> FreeNext(bs, cur) && c + bs[Next(bs, cur)].size >= need)
    decreases end - cur
  {
    if FreeNext(bs, cur) && c + bs[Next(bs, cur)].size < need {
      ScanResult(bs, first, end, Next(bs, cur), c + bs[Next(bs, cur)].size, need);
    }
  }

  /** Without adjacent free blocks the scan can only stop right after the block. */
  lemma NoOvershoot(bs: Blocks, first: int, end: int, b: int, need: nat)
    requires Tiles(bs, first, end) && b in bs && NoAdjacentFree(bs)
    ensures !ScanOvershoots(bs, first, end, b, need)
  {
    if FreeNext(bs, b) {
      var n := Next(bs, b);
      assert !FreeNext(bs, n);
      assert Scan(bs, first, end, n, bs[b].size + bs[n].size, need).0 == 0;
    }
  }

  /** One page with a block of 72 bytes in use at its start. */
  ghost function PageWithBlock(f: int, page: nat): Blocks
    requires page >= 72
  {
    map[f := Block(72, true), f + 72 := Block(page - 72, false)]
  }

  lemma PageTiles(f: int, page: nat)
    requires f % 8 == 0 && page % 8 == 0 && page >= 96
    ensures Tiles(PageWithBlock(f, page), f, f + page) && NoAdjacentFree(PageWithBlock(f, page))
  {
  }

  /**
   Shrinking that block leaves two free neighbours, and growing it again to more than
   the first of them adds makes the scan stop beyond it.
   */
  lemma ShrunkOvershoots(f: int, page: nat)
    requires f > 0 && f % 8 == 0 && page % 8 == 0 && page >= 96
    ensures Tiles(PageWithBlock(f, page), f, f + page) && NoAdjacentFree(PageWithBlock(f, page))
    ensures var bs := Placed(PageWithBlock(f, page), f, 48);
      Tiles(bs, f, f + page) && f in bs && bs[f] == Block(48, true) && ScanOvershoots(bs, f, f + page, f, 80)
  {
    hide Shaped, Chained, Apart, NoAdjacentFree;
    var bs0 := PageWithBlock(f, page);
    var bs := Placed(bs0, f, 48);
    PageTiles(f, page);
    SplitTiles(bs0, f, f + page, f, 48);
    assert bs[f + 48] == Block(24, false) && bs[f + 72] == Block(page - 72, false);
    assert Next(bs, f) == f + 48 && Next(bs, f + 48) == f + 72;
    assert Scan(bs, f, f + page, f + 48, 72, 80) == (f + 72, page);
  }

  /** Absorbing the free block after a live one keeps every other live block. */
  lemma GrowLive(bs: Blocks, first: int, end: int, b: int)
    requires Tiles(bs, first, end) && b in bs && bs[b].alloc && FreeNext(bs, b)
    ensures Tiles(MergeNext(bs, b), first, end)
    ensures Live(MergeNext(bs, b)) == Live(bs)[b := bs[b].size + bs[Next(bs, b)].size]
    ensures NoAdjacentFree(bs) ==> NoAdjacentFree(MergeNext(bs, b))
  {
    hide Tiles, MergeNext, Live, NoAdjacentFree;
    TiledSizes(bs, first, end, b);
    MergeTiles(bs, first, end, b);
    GrownLive(bs, b);
    GrownNoAdjacent(bs, first, end, b);
  }

  lemma TiledSizes(bs: Blocks, first: int, end: int, b: int)
    requires Tiles(bs, first, end) && b in bs
    ensures GoodSize(bs[b].size) && (Next(bs, b) in bs ==> GoodSize(bs[Next(bs, b)].size))
  {
  }

  lemma GrownLive(bs: Blocks, b: int)
    requires b in bs && bs[b].alloc && FreeNext(bs, b) && GoodSize(bs[b].size)
    ensures Live(MergeNext(bs, b)) == Live(bs)[b := bs[b].size + bs[Next(bs, b)].size]
  {
  }

  lemma GrownNoAdjacent(bs: Blocks, first: int, end: int, b: int)
    requires Tiles(bs, first, end) && b in bs && bs[b].alloc && FreeNext(bs, b)
    ensures NoAdjacentFree(bs) ==> NoAdjacentFree(MergeNext(bs, b))
  {
    hide Tiles;
    var bs', n := MergeNext(bs, b), Next(bs, b);
    if NoAdjacentFree(bs) {
      forall x {:trigger Next(bs', x)} | x in bs' && !bs'[x].alloc && Next(bs', x) in bs'
        ensures bs'[Next(bs', x)].alloc
      {
        assert Next(bs', x) == Next(bs, x);
      }
    }
  }
}
