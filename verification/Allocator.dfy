/**
 The segregated-fit allocator: a heap of boundary-tagged blocks whose free ones
 are threaded into lists by size class.
 */
module Allocators {
  import opened HeapLayout
  import opened HeapMemory
  import opened FreeLists
  import opened HeapBytes
  import opened HeapFacts

  const HEADS_SIZE := 8 * FREE_LIST_COUNT
  const PROLOGUE := 8                      // size of the prologue block: header and footer only
  const MAX_PAGE := 0x4000_0000

  /**
   What a call to mm_realloc comes to: a pointer, or the loop that removes blocks
   between ptr and stop, which never advances and so never ends once entered.
   */
  datatype Outcome = Returned(p: int) | Loops

  /** The blocks, the lists of the free ones, and where the heap ends: what decides every further answer. */
  datatype Layout = Layout(blocks: Blocks, lists: seq<seq<int>>, brk: int)

  class Allocator {
    const base: int            // lowest address of the simulated heap
    const limit: int           // one past its highest legal address
    const pageSize: nat
    const linear: nat -> nat   // floating-point step of the size-class function

    var mem: Memory
    var brk: int
    var freeListp: seq<int>

    ghost var blocks: Blocks
    ghost var lists: seq<seq<int>>

    function First(): int { base + HEADS_SIZE + 2 * PROLOGUE }

    ghost predicate Params() {
      && 0 < base && base % 8 == 0 && base <= limit < base + 0x7fff_0000
      && limit < 0x4000_0000_0000_0000 && MIN_BLOCK <= pageSize <= MAX_PAGE
      && Monotone(linear)
    }

    /** Everything but the epilogue, with the free blocks in `detached` off their lists. */
    ghost predicate CoreOf(mem: Memory, brk: int, heads: seq<int>, blocks: Blocks, lists: seq<seq<int>>, detached: set<int>) {
      && Params() && Mapped(mem, base, limit) && brk % 8 == 0 && brk <= limit
      && Tiles(blocks, First(), brk) && Tagged(mem, blocks)
      && AllLinked(mem, heads, lists) && Filed(lists, blocks, detached, linear)
      && WordIs(mem, First() - 12, Tag(PROLOGUE, true)) && WordIs(mem, First() - 8, Tag(PROLOGUE, true))
    }

    ghost predicate Core(detached: set<int>)
      reads this
    {
      CoreOf(mem, brk, freeListp, blocks, lists, detached)
    }

    /** The heap invariant. */
    ghost predicate Valid()
      reads this
    {
      Core({}) && WordIs(mem, brk - 4, Tag(0, true))
    }

    /** A layout of the invariant: the blocks tile the heap, and the lists hold exactly the free ones. */
    ghost predicate WellFormed(h: Layout) {
      Params() && h.brk % 8 == 0 && Tiles(h.blocks, First(), h.brk) && Filed(h.lists, h.blocks, {}, linear)
    }

    ghost function Now(): Layout
      reads this
    {
      Layout(blocks, lists, brk)
    }

    lemma Bounds(detached: set<int>)
      requires Core(detached)
      ensures Addresses(blocks) && Sound(blocks)
      ensures forall i, x | 0 <= i < FREE_LIST_COUNT && x in lists[i] :: x in blocks && !blocks[x].alloc && x !in detached
    {
      forall i, x | 0 <= i < FREE_LIST_COUNT && x in lists[i]
        ensures x in blocks && !blocks[x].alloc && x !in detached
      {
        assert Member(blocks, detached, linear, x, i);
      }
    }

    // ---- Words ---------------------------------------------------------------------

    method Put(a: int, w: Word)
      requires a in mem && base <= a && a + 4 <= brk
      modifies `mem
      ensures mem == old(mem)[a := w]
    {
      mem := mem[a := w];
    }

    method SetPred(bp: int, pred: Pointer)
      requires HasPtr(mem, bp) && base <= bp && bp + 8 <= brk
      modifies `mem
      ensures mem == WritePtr(old(mem), bp, pred)
    {
      mem := WritePtr(mem, bp, pred);
    }

    method SetSucc(bp: int, succ: Pointer)
      requires HasPtr(mem, bp + 8) && base <= bp && bp + 16 <= brk
      modifies `mem
      ensures mem == WritePtr(old(mem), bp + 8, succ)
    {
      mem := WritePtr(mem, bp + 8, succ);
    }

    predicate SbrkRefuses(brk: int, incr: int) {
      incr < 0 || brk + incr > limit
    }

    /** Grows the heap, or refuses; the source of all memory. */
    method MemSbrk(incr: int) returns (p: int)
      requires brk <= limit
      modifies `brk
      ensures p == if SbrkRefuses(old(brk), incr) then -1 else old(brk)
      ensures brk == if SbrkRefuses(old(brk), incr) then old(brk) else old(brk) + incr
    {
      if incr < 0 || brk + incr > limit {
        return -1;
      }
      p := brk;
      brk := brk + incr;
    }

    /** The bytes wanted survive the conversion to mem_sbrk's int parameter, or are refused there. */
    predicate Uncut(brk: int, bytes: nat) {
      ToInt(Align(bytes)) == Align(bytes) || SbrkRefuses(brk, ToInt(Align(bytes)))
    }

    /** Exactly then does mem_sbrk refuse what the heap has no room for, and only that. */
    lemma UncutIsRight(brk: int, bytes: nat)
      requires Params() && base <= brk
      ensures Uncut(brk, bytes) <==> (SbrkRefuses(brk, ToInt(Align(bytes))) <==> brk + Align(bytes) > limit)
    {
      hide ToInt, Align, Monotone;
      ToIntCuts(Align(bytes));
    }

    /** A request whose block size neither wraps around nor is cut to fewer bytes. */
    predicate Representable(brk: int, size: nat) {
      size <= SIZE_T - 16 && Uncut(brk, Max(BlockSize(size), pageSize))
    }

    /** Every size below 2^32 - 15 is representable. */
    lemma SmallIsRepresentable(brk: int, size: nat)
      requires Params() && size <= 0xffff_fff0
      ensures Representable(brk, size)
    {
      hide Monotone, Align, BlockSize;
      SmallBlockSize(size);
      AlignedAlready(Max(BlockSize(size), pageSize));
    }

    lemma SmallBlockSize(size: nat)
      requires size <= 0xffff_fff0
      ensures BlockSize(size) <= 0xffff_fff8
    {
    }

    lemma AlignedAlready(n: nat)
      requires n <= 0xffff_fff8
      ensures Align(n) <= 0xffff_fff8
    {
    }

    /** 2^32 bytes are not while 8 more fit: that is what is left of them. */
    lemma FourGigabytes(brk: int)
      requires Params()
      ensures Representable(brk, 0x1_0000_0000) <==> brk + 8 > limit
    {
      assert BlockSize(0x1_0000_0000) == 0x1_0000_0008 == Align(0x1_0000_0008) && ToInt(0x1_0000_0008) == 8;
    }

    // ---- Free lists -------------------------------------------------------------------

    method MapToFreeListIndex(size: nat) returns (index: nat)
      requires size >= MIN_BLOCK
      ensures index == FreeListIndex(linear, size)
    {
      var b := (size - MIN_BLOCK) / 8;
      if b < EXACT_BELOW {
        return b;
      }
      var off := linear(size - MIN_LINEAR);
      if off < LINEAR_SIZE {
        return off + EXACT_BELOW;
      }
      var current := MAX_LINEAR_EXCL * 2;
      for i := LINEAR_BELOW to FREE_LIST_COUNT - 1
        invariant current >= 0 && DoublingClass(size, current, i) == DoublingClass(size, MAX_LINEAR_EXCL * 2, LINEAR_BELOW)
      {
        if size <= current {
          return i;
        }
        current := current * 2;
      }
      return FREE_LIST_COUNT - 1;
    }

    lemma LinksLeaveRest(detached: set<int>, m': Memory)
      requires Core(detached) && LinksOnly(mem, m', blocks)
      ensures PayloadsKept(mem, m', Live(blocks))
      ensures brk - 4 in mem ==> m'[brk - 4] == mem[brk - 4]
    {
      LinksAvoidPayloads(mem, m', blocks, First(), brk);
      if brk - 4 in mem {
        LinksStayInside(mem, m', blocks, First(), brk, brk - 4);
      }
    }

    lemma RemoveKeepsCore(detached: set<int>, i: nat, k: nat)
      requires Core(detached) && i < FREE_LIST_COUNT && k < |lists[i]|
      ensures var s := lists[i];
              var t := Without(s, k);
        && CoreOf(Bypassed(mem, s, k), brk, freeListp[i := At(t, 0)], blocks, lists[i := t], detached + {s[k]})
        && LinksOnly(mem, Bypassed(mem, s, k), blocks)
    {
      hide Tiles, Tagged, Linked, FreeListIndex, Bypassed;
      var s := lists[i];
      var m' := Bypassed(mem, s, k);
      Bounds(detached);
      RemoveKeepsLinked(mem, freeListp, lists, blocks, detached, linear, First(), brk, i, k);
      RemoveKeepsFiled(lists, blocks, detached, linear, i, k);
      LinksAvoidTags(mem, m', blocks, First(), brk);
      LinksStayInside(mem, m', blocks, First(), brk, First() - 12);
      LinksStayInside(mem, m', blocks, First(), brk, First() - 8);
    }

    /** Where a list neighbour x of some block may be written. */
    ghost predicate Writable(mem: Memory, brk: int, x: int) {
      HasPtr(mem, x) && HasPtr(mem, x + 8) && base <= x && x + LINKS <= brk && 0 < x < 0x8000_0000_0000_0000
    }

    /** The four link updates that bypass block bp, found at position k of list s. */
    method Bypass(bp: int, index: nat, ghost s: seq<int>, ghost k: nat)
      requires index < |freeListp| && k < |s| && s[k] == bp && NodeOk(mem, s, k)
      requires k == 0 ==> freeListp[index] == bp
      requires k > 0 ==> freeListp[index] == At(Without(s, k), 0) && Writable(mem, brk, s[k - 1])
      requires k + 1 < |s| ==> Writable(mem, brk, s[k + 1])
      modifies `mem, `freeListp
      ensures mem == Bypassed(old(mem), s, k)
      ensures freeListp == old(freeListp)[index := At(Without(s, k), 0)]
    {
      var pred := ReadPtr(mem, bp);
      var succ := ReadPtr(mem, bp + 8);
      if pred == NULL && succ == NULL {
        freeListp := freeListp[index := NULL];
        return;
      }
      if pred == NULL {
        SetPred(succ, NULL);
        freeListp := freeListp[index := succ];
        return;
      }
      if succ == NULL {
        SetSucc(pred, NULL);
        return;
      }
      SetSucc(pred, succ);
      SetPred(succ, pred);
    }

    lemma ListCount(detached: set<int>)
      requires Core(detached)
      ensures |lists| == FREE_LIST_COUNT == |freeListp|
    {
    }

    /** Takes a free block off its list. */
    method RemoveFreeBlockFromList(bp: int, ghost detached: set<int>)
      requires Core(detached) && bp in blocks && !blocks[bp].alloc && bp !in detached
      modifies `mem, `freeListp, `lists
      ensures Core(detached + {bp}) && lists == Unlisted(old(lists), {bp})
      ensures LinksOnly(old(mem), mem, blocks) && PayloadsKept(old(mem), mem, Live(blocks))
      ensures KeepsWord(old(mem), mem, brk - 4)
    {
      hide CoreOf, Live, LinksOnly, PayloadsKept, Bypassed, FreeListIndex, AllocOf, Unlisted;
      ListCount(detached);
      var size := ReadSize(bp, detached);
      var index := MapToFreeListIndex(size);
      ghost var s := lists[index];
      ghost var k :| 0 <= k < |s| && s[k] == bp;
      Neighbours(detached, index, k);
      RemoveKeepsCore(detached, index, k);
      RemovedList(detached, index, k);
      LinksLeaveRest(detached, Bypassed(mem, s, k));
      Bypass(bp, index, s, k);
      lists := lists[index := Without(s, k)];
    }

    lemma RemovedList(detached: set<int>, i: nat, k: nat)
      requires Core(detached) && i < FREE_LIST_COUNT && k < |lists[i]|
      ensures lists[i := Without(lists[i], k)] == Unlisted(lists, {lists[i][k]})
    {
      WithoutIsUnlisted(lists, blocks, detached, linear, i, k);
    }

    /** GET_SIZE of a block's header. */
    method ReadSize(bp: int, ghost detached: set<int>) returns (size: nat)
      requires Core(detached) && bp in blocks
      ensures size == blocks[bp].size && GoodSize(size)
      ensures !blocks[bp].alloc && bp !in detached ==> bp in lists[FreeListIndex(linear, size)]
      ensures AllocOf(mem[bp - 4]) == blocks[bp].alloc
    {
      TagRoundTrip(blocks[bp].size, blocks[bp].alloc);
      size := SizeOf(mem[bp - 4]);
    }

    /** What the links of a listed block say, and where its neighbours lie. */
    lemma Neighbours(detached: set<int>, i: nat, k: nat)
      requires Core(detached) && i < FREE_LIST_COUNT && k < |lists[i]|
      ensures var s := lists[i];
        && NodeOk(mem, s, k)
        && (k == 0 ==> freeListp[i] == s[k])
        && (k > 0 ==> freeListp[i] == At(Without(s, k), 0) && Writable(mem, brk, s[k - 1]))
        && (k + 1 < |s| ==> Writable(mem, brk, s[k + 1]))
    {
      Bounds(detached);
      var s := lists[i];
      assert Linked(mem, freeListp[i], s);
      assert NodeOk(mem, s, k);
      if k > 0 {
        assert NodeOk(mem, s, k - 1) && s[k - 1] in s;
      }
      if k + 1 < |s| {
        assert NodeOk(mem, s, k + 1) && s[k + 1] in s;
      }
    }

    lemma AddKeepsCore(detached: set<int>, i: nat, x: int)
      requires Core(detached) && x in detached && Member(blocks, {}, linear, x, i) && HasPtr(mem, x) && HasPtr(mem, x + 8)
      ensures var m' := Pushed(mem, lists[i], x);
        && CoreOf(m', brk, freeListp[i := x], blocks, lists[i := [x] + lists[i]], detached - {x})
        && LinksOnly(mem, m', blocks)
    {
      hide Tiles, Tagged, Linked, FreeListIndex, Pushed;
      var m' := Pushed(mem, lists[i], x);
      Bounds(detached);
      AddKeepsLinked(mem, freeListp, lists, blocks, detached, linear, First(), brk, i, x);
      AddKeepsFiled(lists, blocks, detached, linear, i, x);
      LinksAvoidTags(mem, m', blocks, First(), brk);
      LinksStayInside(mem, m', blocks, First(), brk, First() - 12);
      LinksStayInside(mem, m', blocks, First(), brk, First() - 8);
    }

    /** The three link updates that put block bp in front of list s. */
    method PushFront(bp: int, index: nat, ghost s: seq<int>)
      requires index < |freeListp| && freeListp[index] == At(s, 0) && Writable(mem, brk, bp)
      requires s != [] ==> Writable(mem, brk, s[0])
      modifies `mem, `freeListp
      ensures mem == Pushed(old(mem), s, bp)
      ensures freeListp == old(freeListp)[index := bp]
    {
      SetPred(bp, NULL);
      SetSucc(bp, freeListp[index]);
      if freeListp[index] != NULL {
        SetPred(freeListp[index], bp);
      }
      freeListp := freeListp[index := bp];
    }

    lemma FrontWritable(detached: set<int>, i: nat, bp: int)
      requires Core(detached) && bp in blocks && i < FREE_LIST_COUNT
      ensures i < |freeListp| && freeListp[i] == At(lists[i], 0) && Writable(mem, brk, bp)
      ensures lists[i] != [] ==> Writable(mem, brk, lists[i][0])
    {
      Bounds(detached);
      BlockWords(detached, bp);
      assert Linked(mem, freeListp[i], lists[i]);
      if lists[i] != [] {
        assert lists[i][0] in lists[i];
        BlockWords(detached, lists[i][0]);
      }
    }

    /** Puts a detached free block in front of the list of its class. */
    method AddFreeBlockToList(bp: int, ghost detached: set<int>)
      requires Core(detached) && bp in blocks && !blocks[bp].alloc && bp in detached
      modifies `mem, `freeListp, `lists
      ensures Core(detached - {bp}) && lists == Listed(old(lists), linear, bp, blocks[bp].size)
      ensures LinksOnly(old(mem), mem, blocks) && PayloadsKept(old(mem), mem, Live(blocks))
      ensures KeepsWord(old(mem), mem, brk - 4)
    {
      hide CoreOf, Live, LinksOnly, PayloadsKept, Pushed, FreeListIndex, AllocOf;
      ListCount(detached);
      var size := ReadSize(bp, detached);
      var index := MapToFreeListIndex(size);
      ghost var s := lists[index];
      FrontWritable(detached, index, bp);
      AddKeepsCore(detached, index, bp);
      LinksLeaveRest(detached, Pushed(mem, s, bp));
      PushFront(bp, index, s);
      lists := lists[index := [bp] + s];
    }

    // ---- Coalescing --------------------------------------------------------------------

    lemma BlockWords(detached: set<int>, b: int)
      requires Core(detached) && b in blocks
      ensures HasPtr(mem, b) && HasPtr(mem, b + 8)
      ensures b - 8 in mem && b - 4 in mem && b + blocks[b].size - 8 in mem && b + blocks[b].size - 4 in mem
    {
      MappedWords(mem, base, limit, b, blocks[b].size);
    }

    /** NEXT_BLOCK, FTRP and PREV_BLOCK, read from the tags in memory. */
    function NextBlock(mem: Memory, bp: int): int
      requires bp - 4 in mem
    {
      bp + SizeOf(mem[bp - 4])
    }

    function Ftrp(mem: Memory, bp: int): int
      requires bp - 4 in mem
    {
      bp + SizeOf(mem[bp - 4]) - 8
    }

    function PrevBlock(mem: Memory, bp: int): int
      requires bp - 8 in mem
    {
      bp - SizeOf(mem[bp - 8])
    }

    /** The tags after a block tell whether it has a free successor. */
    lemma TagsAfter(b: int)
      requires Valid() && b in blocks
      ensures b - 4 in mem && SizeOf(mem[b - 4]) == blocks[b].size && AllocOf(mem[b - 4]) == blocks[b].alloc
      ensures Ftrp(mem, b) == b + blocks[b].size - 8
      ensures NextBlock(mem, b) == Next(blocks, b) && NextBlock(mem, b) - 4 in mem
      ensures AllocOf(mem[NextBlock(mem, b) - 4]) <==> !FreeNext(blocks, b)
      ensures SizeOf(mem[NextBlock(mem, b) - 4]) == 0 <==> Next(blocks, b) == brk
      ensures Next(blocks, b) in blocks ==> SizeOf(mem[NextBlock(mem, b) - 4]) == blocks[Next(blocks, b)].size
    {
      TagRoundTrip(blocks[b].size, blocks[b].alloc);
      var n := Next(blocks, b);
      if n in blocks {
        TagRoundTrip(blocks[n].size, blocks[n].alloc);
      } else {
        TagRoundTrip(0, true);
      }
    }

    /** The footer before a block leads to its predecessor and tells whether that is free. */
    lemma TagsBefore(b: int)
      requires Valid() && b in blocks
      ensures b - 8 in mem && PrevBlock(mem, b) - 4 in mem && Ftrp(mem, PrevBlock(mem, b)) in mem
      ensures !AllocOf(mem[Ftrp(mem, PrevBlock(mem, b))]) ==> FreePrevious(blocks, PrevBlock(mem, b), b) && PrevBlock(mem, b) < b
      ensures AllocOf(mem[Ftrp(mem, PrevBlock(mem, b))]) ==> forall p :: !FreePrevious(blocks, p, b)
    {
      hide Tiles, AllLinked, Filed, Mapped, Monotone, Tag;
      if b == First() {
        FirstHasNone(blocks, First(), brk);
        TagRoundTrip(PROLOGUE, true);
      } else {
        var p := Previous(blocks, First(), brk, b);
        TagRoundTrip(blocks[p].size, blocks[p].alloc);
        TiledSizes(blocks, First(), brk, p);
        forall q | FreePrevious(blocks, q, b)
          ensures q == p
        {
          OneFreePrevious(blocks, First(), brk, p, q, b);
        }
      }
    }

    lemma FirstHasNone(bs: Blocks, first: int, end: int)
      requires Tiles(bs, first, end)
      ensures forall p :: !FreePrevious(bs, p, first)
    {
    }

    /** Tagging block r and redrawing the block map around it keeps the invariant. */
    lemma RedrawCore(detached: set<int>, bs': Blocks, detached': set<int>, r: int)
      requires Core(detached) && Redraws(blocks, First(), brk, detached, bs', detached', r)
      ensures r - 4 in mem && r + bs'[r].size - 8 in mem && First() - 4 <= r - 4 && r + bs'[r].size <= brk
      ensures bs'[r].size % 8 == 0 && bs'[r].size < 0x8000_0000
      ensures var t: Word := Tag(bs'[r].size, bs'[r].alloc);
              var mem' := mem[r - 4 := t][r + bs'[r].size - 8 := t];
        && CoreOf(mem', brk, freeListp, bs', lists, detached')
        && PayloadsKept(mem, mem', All(bs')) && (brk - 4 in mem ==> WordIs(mem', brk - 4, mem[brk - 4]))
    {
      hide Tagged, AllLinked, Filed, PayloadsKept, Tiles, Monotone, Sound, All, Tag;
      RedrawFacts(detached, bs', detached', r);
      CoreLists(detached);
      var t: Word := Tag(bs'[r].size, bs'[r].alloc);
      var mem' := mem[r - 4 := t][r + bs'[r].size - 8 := t];
      Retag(mem, blocks, bs', r);
      assert mem'.Keys == mem.Keys;
      RedrawLists(mem, mem', freeListp, lists, blocks, detached, bs', detached', linear);
    }

    lemma RedrawFacts(detached: set<int>, bs': Blocks, detached': set<int>, r: int)
      requires Core(detached) && Redraws(blocks, First(), brk, detached, bs', detached', r)
      ensures Sound(bs') && bs'[r].size % 8 == 0 && 24 <= bs'[r].size < 0x8000_0000
      ensures r - 4 in mem && r + bs'[r].size - 8 in mem && First() - 4 <= r - 4 && r + bs'[r].size <= brk
    {
      MappedWords(mem, base, limit, r, bs'[r].size);
    }

    /** Writes header, then the footer that the new header leads to. */
    method PutTags(r: int, size: nat, alloc: bool, ghost detached: set<int>, ghost bs': Blocks, ghost detached': set<int>)
      requires Core(detached) && Redraws(blocks, First(), brk, detached, bs', detached', r) && bs'[r] == Block(size, alloc)
      modifies `mem, `blocks
      ensures Core(detached') && blocks == bs'
      ensures PayloadsKept(old(mem), mem, All(blocks)) && KeepsWord(old(mem), mem, brk - 4)
    {
      hide CoreOf, Redraws, Tiles, PayloadsKept;
      RedrawCore(detached, bs', detached', r);
      Put(r - 4, Tag(size, alloc));
      TagRoundTrip(size, alloc);
      Put(Ftrp(mem, r), Tag(size, alloc));
      blocks := bs';
    }

    /** Writes header and footer of a block at the given places. */
    method PutTagsAt(header: int, footer: int, size: nat, alloc: bool,
                     ghost r: int, ghost detached: set<int>, ghost bs': Blocks, ghost detached': set<int>, ghost keep: int)
      requires Core(detached) && Redraws(blocks, First(), brk, detached, bs', detached', r) && bs'[r] == Block(size, alloc)
      requires header == r - 4 && footer == r + size - 8
      modifies `mem, `blocks
      ensures Core(detached') && blocks == bs'
      ensures header != keep && keep != footer ==> KeepsWord(old(mem), mem, keep)
      ensures PayloadsKept(old(mem), mem, All(blocks)) && KeepsWord(old(mem), mem, brk - 4)
    {
      hide CoreOf, Redraws, Tiles, PayloadsKept;
      RedrawCore(detached, bs', detached', r);
      Put(header, Tag(size, alloc));
      Put(footer, Tag(size, alloc));
      blocks := bs';
    }

    /** Takes two free blocks off their lists. */
    method RemovePair(x: int, y: int)
      requires Valid() && x in blocks && !blocks[x].alloc && y in blocks && !blocks[y].alloc && x != y
      modifies `mem, `freeListp, `lists
      ensures Core({x, y}) && WordIs(mem, brk - 4, Tag(0, true)) && lists == Unlisted(old(lists), {x, y})
      ensures PayloadsKept(old(mem), mem, Live(blocks))
    {
      hide CoreOf, PayloadsKept, LinksOnly, Live, Unlisted;
      UnlistedTwice(lists, {x}, {y});
      ghost var live, m0 := Live(blocks), mem;
      assert {} + {x} == {x} && {x} + {y} == {x, y};
      RemoveFreeBlockFromList(x, {});
      ghost var m1 := mem;
      RemoveFreeBlockFromList(y, {x});
      KeptTransitive(m0, m1, mem, live);
    }

    /** Puts the joined block r back on a list. */
    method AddJoined(r: int, ghost m0: Memory)
      requires Core({r}) && WordIs(mem, brk - 4, Tag(0, true)) && r in blocks && !blocks[r].alloc
      requires PayloadsKept(m0, mem, Live(blocks))
      modifies `mem, `freeListp, `lists
      ensures Valid() && PayloadsKept(m0, mem, Live(blocks)) && lists == Listed(old(lists), linear, r, blocks[r].size)
      ensures LinksOnly(old(mem), mem, blocks)
    {
      hide CoreOf, PayloadsKept, LinksOnly, Live, Listed;
      ghost var m1 := mem;
      AddFreeBlockToList(r, {r});
      assert {r} - {r} == {};
      KeptTransitive(m0, m1, mem, Live(blocks));
    }

    /** Joining blocks into r takes them off their lists and puts r in front of the list of its class. */
    ghost function Relisted(bs: Blocks, lists: seq<seq<int>>, bs': Blocks, r: int): seq<seq<int>> {
      if bs' == bs || r !in bs' then lists
      else Listed(Unlisted(lists, bs.Keys - bs'.Keys + {r}), linear, r, bs'[r].size)
    }

    lemma RelistedIs(bs: Blocks, lists: seq<seq<int>>, bs': Blocks, r: int, joined: set<int>)
      requires r in bs' && bs'.Keys == bs.Keys - joined + {r} && r in joined && joined <= bs.Keys && |joined| > 1
      ensures Relisted(bs, lists, bs', r) == Listed(Unlisted(lists, joined), linear, r, bs'[r].size)
    {
      assert bs.Keys - bs'.Keys + {r} == joined;
      assert bs' == bs ==> joined == {r};
    }

    lemma MergedKeys(bs: Blocks, b: int)
      requires b in bs && Next(bs, b) in bs
      ensures MergeNext(bs, b).Keys == bs.Keys - {Next(bs, b)} + {b}
    {
    }

    /** Joins the free block bp with the free block after it. */
    method MergeWithNext(bp: int)
      requires Valid() && bp in blocks && !blocks[bp].alloc && FreeNext(blocks, bp)
      modifies `mem, `freeListp, `lists, `blocks
      ensures Valid() && blocks == MergeNext(old(blocks), bp) && lists == Relisted(old(blocks), old(lists), blocks, bp)
      ensures PayloadsKept(old(mem), mem, Live(blocks))
    {
      hide *;
      NextFacts(bp);
      MergedKeys(blocks, bp);
      ghost var next := Next(blocks, bp);
      ghost var bs' := MergeNext(blocks, bp);
      ghost var m0 := mem;
      var currentSize := SizeOf(mem[bp - 4]);
      RemovePair(NextBlock(mem, bp), bp);
      ghost var m2 := mem;
      StillTagged({next, bp}, bp);
      StillTagged({next, bp}, next);
      var newSize := currentSize + SizeOf(mem[NextBlock(mem, bp) - 4]);
      PutTags(bp, newSize, false, {next, bp}, bs', {bp});
      TagsKeep(m0, m2, mem, blocks, brk - 4, Tag(0, true));
      AddJoined(bp, m0);
      RelistedIs(old(blocks), old(lists), blocks, bp, {next, bp});
    }

    /** Tags block r at the given places and puts it on a list; the word at `keep` inside it stays. */
    method TagAndAdd(header: int, footer: int, size: nat, r: int,
                     ghost detached: set<int>, ghost bs': Blocks, ghost m0: Memory, ghost keep: int)
      requires Core(detached) && WordIs(mem, brk - 4, Tag(0, true))
      requires Redraws(blocks, First(), brk, detached, bs', {r}, r) && bs'[r] == Block(size, false)
      requires header == r - 4 && footer == r + size - 8
      requires PayloadsKept(m0, mem, Live(blocks)) && Live(bs') == Live(blocks)
      requires keep in mem && r + 16 <= keep < footer
      modifies `mem, `freeListp, `lists, `blocks
      ensures Valid() && blocks == bs' && PayloadsKept(m0, mem, Live(blocks)) && lists == Listed(old(lists), linear, r, size)
      ensures keep in mem && mem[keep] == old(mem)[keep]
    {
      hide CoreOf, Redraws, PayloadsKept, Live, LinksOnly, Valid, Tiles, Listed;
      ghost var m2 := mem;
      RedrawsApart(blocks, First(), brk, detached, bs', {r}, r);
      PutTagsAt(header, footer, size, false, r, detached, bs', {r}, keep);
      TagsKeep(m0, m2, mem, blocks, brk - 4, Tag(0, true));
      ghost var m3 := mem;
      AddJoined(r, m0);
      KeptInside(m2, m3, mem, blocks, r, keep);
    }

    lemma KeptInside(m: Memory, m': Memory, m'': Memory, bs: Blocks, r: int, a: int)
      requires a in m && KeepsWord(m, m', a)
      requires Apart(bs) && LinksOnly(m', m'', bs) && r in bs && r + LINKS <= a < r + bs[r].size
      ensures a in m'' && m''[a] == m[a]
    {
      InteriorKept(m', m'', bs, r, a);
    }

    /** Joins the free block bp with the free block before it; the old footer still leads back. */
    method MergeWithPrevious(bp: int) returns (r: int)
      requires Valid() && bp in blocks && !blocks[bp].alloc && bp - 8 in mem
      requires FreePrevious(blocks, PrevBlock(mem, bp), bp)
      modifies `mem, `freeListp, `lists, `blocks
      ensures Valid() && r == PrevBlock(old(mem), bp) && blocks == MergeNext(old(blocks), r)
      ensures lists == Relisted(old(blocks), old(lists), blocks, r)
      ensures PayloadsKept(old(mem), mem, Live(blocks))
    {
      hide *;
      PreviousFacts(bp);
      ghost var p := PrevBlock(mem, bp);
      MergedKeys(blocks, p);
      ghost var bs' := MergeNext(blocks, p);
      ghost var m0 := mem;
      var currentSize := SizeOf(mem[bp - 4]);
      RemovePair(bp, PrevBlock(mem, bp));
      StillTagged({bp, p}, bp);
      StillTagged({bp, p}, p);
      PreviousFooter(p, bp, mem);
      var newSize := currentSize + SizeOf(mem[PrevBlock(mem, bp) - 4]);
      TagAndAdd(PrevBlock(mem, bp) - 4, Ftrp(mem, bp), newSize, PrevBlock(mem, bp), {bp, p}, bs', m0, bp - 8);
      RelistedIs(old(blocks), old(lists), blocks, p, {bp, p});
      PreviousFooter(p, bp, mem);
      r := PrevBlock(mem, bp);
    }

    /** Joins the free block bp with both its neighbours. */
    method MergeBoth(bp: int) returns (r: int)
      requires Valid() && bp in blocks && !blocks[bp].alloc && FreeNext(blocks, bp) && bp - 8 in mem
      requires FreePrevious(blocks, PrevBlock(mem, bp), bp)
      modifies `mem, `freeListp, `lists, `blocks
      ensures Valid() && r == PrevBlock(old(mem), bp)
      ensures r in MergeNext(old(blocks), bp) && Next(MergeNext(old(blocks), bp), r) in MergeNext(old(blocks), bp)
      ensures blocks == MergeNext(MergeNext(old(blocks), bp), r) && lists == Relisted(old(blocks), old(lists), blocks, r)
      ensures PayloadsKept(old(mem), mem, Live(blocks))
    {
      hide *;
      BothFacts(bp);
      ghost var p, n := PrevBlock(mem, bp), Next(blocks, bp);
      MergedKeys(blocks, bp);
      MergedKeys(MergeNext(blocks, bp), p);
      ghost var bs' := MergeNext(MergeNext(blocks, bp), p);
      ghost var m0 := mem;
      var currentSize := SizeOf(mem[bp - 4]);
      RemoveTriple(bp, NextBlock(mem, bp), PrevBlock(mem, bp));
      ThreeTags(p, bp, n);
      var newSize := currentSize + SizeOf(mem[NextBlock(mem, bp) - 4]) + SizeOf(mem[PrevBlock(mem, bp) - 4]);
      TagAndAdd(PrevBlock(mem, bp) - 4, Ftrp(mem, NextBlock(mem, bp)), newSize, PrevBlock(mem, bp), {bp, n, p}, bs', m0, bp - 8);
      RelistedIs(old(blocks), old(lists), blocks, p, {bp, n, p});
      PreviousFooter(p, bp, mem);
      r := PrevBlock(mem, bp);
    }

    lemma NextFacts(bp: int)
      requires Valid() && bp in blocks && !blocks[bp].alloc && FreeNext(blocks, bp)
      ensures var n := Next(blocks, bp);
        && n in blocks && !blocks[n].alloc && n != bp
        && bp - 4 in mem && SizeOf(mem[bp - 4]) == blocks[bp].size && NextBlock(mem, bp) == n
        && Redraws(blocks, First(), brk, {n, bp}, MergeNext(blocks, bp), {bp}, bp)
        && Live(MergeNext(blocks, bp)) == Live(blocks)
        && MergeNext(blocks, bp)[bp] == Block(blocks[bp].size + blocks[n].size, false)
    {
      TagsAfter(bp);
      MergeRedraws(blocks, First(), brk, bp);
    }

    lemma PreviousFacts(bp: int)
      requires Valid() && bp in blocks && !blocks[bp].alloc && bp - 8 in mem && FreePrevious(blocks, PrevBlock(mem, bp), bp)
      ensures var p := PrevBlock(mem, bp);
        && p in blocks && !blocks[p].alloc && p != bp && Next(blocks, p) == bp
        && p + blocks[p].size == bp && blocks[p].size >= 24 && blocks[bp].size >= 24
        && bp - 4 in mem && SizeOf(mem[bp - 4]) == blocks[bp].size
        && Redraws(blocks, First(), brk, {bp, p}, MergeNext(blocks, p), {p}, p)
        && Live(MergeNext(blocks, p)) == Live(blocks)
        && MergeNext(blocks, p)[p] == Block(blocks[bp].size + blocks[p].size, false)
    {
      var p := PrevBlock(mem, bp);
      TagsAfter(bp);
      MergeRedraws(blocks, First(), brk, p);
      assert {bp, p} == {p, bp};
    }

    /** What joining bp with both neighbours needs to know about them. */
    lemma BothFacts(bp: int)
      requires Valid() && bp in blocks && !blocks[bp].alloc && FreeNext(blocks, bp) && bp - 8 in mem
      requires FreePrevious(blocks, PrevBlock(mem, bp), bp)
      ensures var (p, n) := (PrevBlock(mem, bp), Next(blocks, bp));
        && p in blocks && n in blocks && !blocks[p].alloc && !blocks[n].alloc && p != bp && n != bp && n != p
        && p + blocks[p].size == bp && bp + blocks[bp].size == n && blocks[p].size >= 24 && blocks[bp].size >= 24
        && blocks[n].size >= 24
        && bp - 4 in mem && SizeOf(mem[bp - 4]) == blocks[bp].size && NextBlock(mem, bp) == n
        && var j := MergeNext(blocks, bp);
           && p in j && Next(j, p) in j
           && Redraws(blocks, First(), brk, {bp, n, p}, MergeNext(j, p), {p}, p)
           && Live(MergeNext(j, p)) == Live(blocks)
           && MergeNext(j, p)[p] == Block(blocks[bp].size + blocks[n].size + blocks[p].size, false)
    {
      TagsAfter(bp);
      MergeThreeRedraws(blocks, First(), brk, PrevBlock(mem, bp), bp);
    }

    lemma ThreeTags(p: int, bp: int, n: int)
      requires Core({bp, n, p}) && p in blocks && bp in blocks && n in blocks
      requires p + blocks[p].size == bp && bp + blocks[bp].size == n
      ensures bp - 8 in mem && bp - 4 in mem && p - 4 in mem && n - 4 in mem
      ensures PrevBlock(mem, bp) == p && NextBlock(mem, bp) == n && Ftrp(mem, n) == n + blocks[n].size - 8
      ensures SizeOf(mem[p - 4]) == blocks[p].size && SizeOf(mem[n - 4]) == blocks[n].size
      ensures SizeOf(mem[bp - 8]) == bp - p
    {
      hide CoreOf, SizeOf, AllocOf;
      StillTagged({bp, n, p}, p);
      StillTagged({bp, n, p}, bp);
      StillTagged({bp, n, p}, n);
      TagPlaces({bp, n, p}, bp);
    }

    lemma TagPlaces(detached: set<int>, b: int)
      requires Core(detached) && b in blocks
      ensures b - 4 in mem
    {
    }

    /** Takes three free blocks off their lists. */
    method RemoveTriple(x: int, y: int, z: int)
      requires Valid() && x in blocks && !blocks[x].alloc && y in blocks && !blocks[y].alloc && z in blocks && !blocks[z].alloc
      requires x != y && x != z && y != z
      modifies `mem, `freeListp, `lists
      ensures Core({x, y, z}) && WordIs(mem, brk - 4, Tag(0, true)) && lists == Unlisted(old(lists), {x, y, z})
      ensures PayloadsKept(old(mem), mem, Live(blocks))
    {
      hide CoreOf, PayloadsKept, LinksOnly, Live, Unlisted;
      UnlistedTwice(lists, {x, y}, {z});
      ghost var m0 := mem;
      RemovePair(x, y);
      ghost var m1 := mem;
      assert {x, y} + {z} == {x, y, z};
      RemoveFreeBlockFromList(z, {x, y});
      KeptTransitive(m0, m1, mem, Live(blocks));
    }

    /** The footer in front of bp, stale or not, holds the size of the block p that ends there. */
    lemma PreviousFooter(p: int, bp: int, mem: Memory)
      requires bp - 8 in mem && SizeOf(mem[bp - 8]) == bp - p
      ensures PrevBlock(mem, bp) == p
    {
    }

    /** Header facts of a block while some free blocks are off their lists. */
    lemma StillTagged(detached: set<int>, b: int)
      requires Core(detached) && b in blocks
      ensures b - 4 in mem && SizeOf(mem[b - 4]) == blocks[b].size && AllocOf(mem[b - 4]) == blocks[b].alloc
      ensures b + blocks[b].size - 8 in mem && SizeOf(mem[b + blocks[b].size - 8]) == blocks[b].size
      ensures AllocOf(mem[b + blocks[b].size - 8]) == blocks[b].alloc
      ensures NextBlock(mem, b) == Next(blocks, b) && Ftrp(mem, b) == b + blocks[b].size - 8
    {
      TagRoundTrip(blocks[b].size, blocks[b].alloc);
    }

    /** Joins the free block bp with whichever neighbours are free. */
    method Coalesce(bp: int) returns (r: int)
      requires Valid() && bp in blocks && !blocks[bp].alloc
      modifies `mem, `freeListp, `lists, `blocks
      ensures Valid() && Coalesced(old(blocks), bp, blocks, r) && lists == Relisted(old(blocks), old(lists), blocks, r)
      ensures PayloadsKept(old(mem), mem, Live(blocks))
    {
      hide CoreOf, Tiles, Live, Valid, Ftrp, NextBlock, PrevBlock, SizeOf, AllocOf, Tagged, Listed, Unlisted;
      TagsAfter(bp);
      TagsBefore(bp);
      var isPrevAlloc := AllocOf(mem[Ftrp(mem, PrevBlock(mem, bp))]);
      var isNextAlloc := AllocOf(mem[NextBlock(mem, bp) - 4]);
      if isPrevAlloc && isNextAlloc {
        return bp;
      }
      if isPrevAlloc && !isNextAlloc {
        MergeWithNext(bp);
        return bp;
      }
      if !isPrevAlloc && isNextAlloc {
        r := MergeWithPrevious(bp);
        return;
      }
      r := MergeBoth(bp);
    }

    // ---- Growing the heap ----------------------------------------------------------------

    /** Geometry of the heap with a new free block at its end. */
    lemma ExtendFacts(size: nat)
      requires Valid() && GoodSize(size)
      ensures var bs' := blocks[brk := Block(size, false)];
        && Tiles(bs', First(), brk + size) && Live(bs') == Live(blocks) && brk !in blocks
        && (NoAdjacentFree(blocks) ==> NoAdjacentFreeBut(bs', brk))
      ensures brk > 0 && First() <= brk <= limit && size >= 24 && size % 8 == 0 && brk % 8 == 0 && (brk + size) % 8 == 0 && First() - 4 <= brk - 4 && base <= brk - 4
      ensures brk + size <= limit ==> Sound(blocks[brk := Block(size, false)]) && size < 0x8000_0000
      ensures brk + size <= limit ==> brk - 4 in mem && brk + size - 8 in mem && brk + size - 4 in mem
    {
      hide Tag, AllLinked, Filed, Tagged, Tiles, Live, NoAdjacentFree, NoAdjacentFreeBut, Sound, Mapped, Monotone;
      AppendedBlocks(blocks, First(), brk, size);
      AlignedSum(brk, size);
      HasRoom(size);
      CoreSound({});
      EndInside(blocks, First(), brk);
      if brk + size <= limit {
        MappedWords(mem, base, limit, brk, size);
        SoundWithEnd(blocks, First(), brk, size);
      }
    }

    lemma CoreSound(detached: set<int>)
      requires Core(detached)
      ensures Sound(blocks)
    {
    }

    lemma EndInside(bs: Blocks, first: int, end: int)
      requires Tiles(bs, first, end)
      ensures first <= end
    {
    }

    lemma SoundWithEnd(bs: Blocks, first: int, end: int, size: nat)
      requires Tiles(bs, first, end) && Sound(bs) && GoodSize(size) && size < 0x8000_0000
      ensures Sound(bs[end := Block(size, false)])
    {
    }

    /** The blocks with a new free one at the end. */
    lemma AppendedBlocks(bs: Blocks, first: int, end: int, size: nat)
      requires Tiles(bs, first, end) && GoodSize(size) && end % 8 == 0
      ensures var bs' := bs[end := Block(size, false)];
        && Tiles(bs', first, end + size) && Live(bs') == Live(bs) && end !in bs
        && (NoAdjacentFree(bs) ==> NoAdjacentFreeBut(bs', end))
    {
      hide NoAdjacentFree, NoAdjacentFreeBut;
      ExtendTiles(bs, first, end, size);
      assert end !in bs;
      if NoAdjacentFree(bs) {
        ExtendNoAdjacent(bs, first, end, size);
      }
    }

    /** Memory once the tags of a new block of this size are written at the end of the heap. */
    ghost function Extended(mem: Memory, brk: int, size: nat): Memory
      requires size % 8 == 0 && size < 0x8000_0000
    {
      var t: Word := Tag(size, false);
      mem[brk - 4 := t][brk + size - 8 := t]
    }

    lemma ExtendTags(size: nat)
      requires Valid() && GoodSize(size) && brk + size <= limit
      ensures size < 0x8000_0000
      ensures Tagged(Extended(mem, brk, size), blocks[brk := Block(size, false)])
      ensures PayloadsKept(mem, Extended(mem, brk, size), All(blocks[brk := Block(size, false)]))
    {
      var bs' := blocks[brk := Block(size, false)];
      ExtendFacts(size);
      assert Tagged(mem, blocks);
      hide CoreOf, Tiles, Tagged, PayloadsKept, Sound, Valid;
      Retag(mem, blocks, bs', brk);
    }

    lemma ExtendLists(size: nat)
      requires Valid() && GoodSize(size) && brk + size <= limit
      ensures size < 0x8000_0000
      ensures AllLinked(Extended(mem, brk, size), freeListp, lists)
      ensures Filed(lists, blocks[brk := Block(size, false)], {brk}, linear)
      ensures PayloadsKept(mem, Extended(mem, brk, size), Live(blocks[brk := Block(size, false)]))
    {
      var bs' := blocks[brk := Block(size, false)];
      ExtendFacts(size);
      ExtendTags(size);
      assert AllLinked(mem, freeListp, lists) && Filed(lists, blocks, {}, linear);
      hide CoreOf, Tiles, Tagged, PayloadsKept, Sound, Valid, Extended, AllLinked, Filed;
      RedrawLists(mem, Extended(mem, brk, size), freeListp, lists, blocks, {}, bs', {brk}, linear);
      KeptSubset(mem, Extended(mem, brk, size), All(bs'), Live(bs'));
    }

    /** State after the new block's tags are written, before the new epilogue is. */
    lemma ExtendCore(size: nat)
      requires Valid() && GoodSize(size) && brk + size <= limit
      ensures size < 0x8000_0000 && brk - 4 in mem && brk + size - 8 in mem
      ensures CoreOf(Extended(mem, brk, size), brk + size, freeListp, blocks[brk := Block(size, false)], lists, {brk})
      ensures PayloadsKept(mem, Extended(mem, brk, size), Live(blocks[brk := Block(size, false)]))
    {
      hide Tiles, Tagged, AllLinked, Filed, PayloadsKept, Sound, Live, All, NoAdjacentFree, NoAdjacentFreeBut, Monotone;
      ExtendFacts(size);
      ExtendTags(size);
      ExtendLists(size);
    }

    /** Writing the epilogue header disturbs nothing. */
    lemma EpilogueCore(detached: set<int>, w: Word)
      requires Core(detached) && brk - 4 in mem
      ensures CoreOf(mem[brk - 4 := w], brk, freeListp, blocks, lists, detached)
      ensures PayloadsKept(mem, mem[brk - 4 := w], Live(blocks))
    {
      hide Tiles, Tagged, AllLinked, Filed, PayloadsKept, Live, All, Tag;
      EpilogueTags(mem, blocks, First(), brk, w);
      EndInside(blocks, First(), brk);
      CoreLists(detached);
      RedrawLists(mem, mem[brk - 4 := w], freeListp, lists, blocks, detached, blocks, detached, linear);
      AllIsLive(blocks);
      KeptSubset(mem, mem[brk - 4 := w], All(blocks), Live(blocks));
    }

    lemma EpilogueTags(mem: Memory, bs: Blocks, first: int, end: int, w: Word)
      requires Tiles(bs, first, end) && Tagged(mem, bs) && end - 4 in mem
      ensures Tagged(mem[end - 4 := w], bs) && PayloadsKept(mem, mem[end - 4 := w], All(bs))
    {
      hide Tag;
      assert mem[end - 4 := w].Keys == mem.Keys;
    }

    lemma AllIsLive(bs: Blocks)
      ensures forall b | b in Live(bs) :: b in All(bs) && Live(bs)[b] <= All(bs)[b]
    {
    }

    /** Writes the header of the new epilogue. */
    method PutEpilogue(a: int, ghost m0: Memory)
      requires Core({}) && a == brk - 4 && a in mem && base <= a
      requires PayloadsKept(m0, mem, Live(blocks))
      modifies `mem
      ensures Valid() && PayloadsKept(m0, mem, Live(blocks))
    {
      hide CoreOf, PayloadsKept, Live;
      EpilogueCore({}, Tag(0, true));
      ghost var m1 := mem;
      Put(a, Tag(0, true));
      KeptTransitive(m0, m1, mem, Live(blocks));
    }

    /** Tags the block at the end of a heap that has just grown; its header replaces the old epilogue. */
    method TagAppended(bp: int, size: nat)
      requires size % 8 == 0 && 8 <= size < 0x8000_0000 && brk == bp + size && base <= bp - 4
      requires bp - 4 in mem && bp + size - 8 in mem
      requires CoreOf(Extended(mem, bp, size), brk, freeListp, blocks[bp := Block(size, false)], lists, {bp})
      modifies `mem, `blocks
      ensures Core({bp}) && mem == Extended(old(mem), bp, size) && blocks == old(blocks)[bp := Block(size, false)]
    {
      hide CoreOf, SizeOf, Tag;
      Put(bp - 4, Tag(size, false));
      TagRoundTrip(size, false);
      Put(Ftrp(mem, bp), Tag(size, false));
      blocks := blocks[bp := Block(size, false)];
    }

    /** Appends a block, lists it and writes the new epilogue; it may still have a free predecessor. */
    method Grow(size: nat) returns (bp: int)
      requires Valid() && GoodSize(size) && (SbrkRefuses(brk, ToInt(size)) <==> brk + size > limit)
      modifies this
      ensures bp == if old(brk) + size > limit then -1 else old(brk)
      ensures bp == -1 ==> Valid() && unchanged(this)
      ensures bp != -1 ==> Valid() && brk == old(brk) + size && blocks == old(blocks)[bp := Block(size, false)]
      ensures bp != -1 ==> lists == Listed(old(lists), linear, bp, size)
      ensures bp != -1 ==> PayloadsKept(old(mem), mem, Live(blocks))
      ensures Live(blocks) == Live(old(blocks))
    {
      hide *;
      ExtendFacts(size);
      if brk + size <= limit {
        ExtendCore(size);
        ToIntCuts(size);
      }
      ghost var m0 := mem;
      bp := MemSbrk(ToInt(size));
      if bp == -1 {
        return;
      }
      TagAppended(bp, size);
      ListAppended(bp, m0);
    }

    /** Lists the appended block, then writes the header of the new epilogue behind it. */
    method ListAppended(bp: int, ghost m0: Memory)
      requires Core({bp}) && bp in blocks && !blocks[bp].alloc && bp + blocks[bp].size == brk
      requires PayloadsKept(m0, mem, Live(blocks))
      modifies `mem, `freeListp, `lists
      ensures Valid() && PayloadsKept(m0, mem, Live(blocks)) && lists == Listed(old(lists), linear, bp, blocks[bp].size)
    {
      hide *;
      ghost var m1 := mem;
      AddFreeBlockToList(bp, {bp});
      assert {bp} - {bp} == {};
      KeptTransitive(m0, m1, mem, Live(blocks));
      EndTags(bp, blocks[bp].size);
      PutEpilogue(NextBlock(mem, bp) - 4, m0);
    }

    lemma EndTags(bp: int, size: nat)
      requires Core({}) && bp in blocks && bp + size == brk && blocks[bp].size == size
      ensures bp - 4 in mem && NextBlock(mem, bp) - 4 == brk - 4 && brk - 4 in mem && base <= brk - 4
    {
      StillTagged({}, bp);
      AlignedWords(brk);
    }

    /** A new free block at the end, in front of its list. */
    ghost function Appended(h: Layout, n: nat): Layout {
      Layout(h.blocks[h.brk := Block(n, false)], Listed(h.lists, linear, h.brk, n), h.brk + n)
    }

    /** The free block b joined with its free neighbours into r. */
    ghost predicate JoinedTo(h: Layout, b: int, h': Layout, r: int) {
      b in h.blocks && Coalesced(h.blocks, b, h'.blocks, r) && h'.lists == Relisted(h.blocks, h.lists, h'.blocks, r) && h'.brk == h.brk
    }

    /** Extends the heap by at least `bytes` and returns the free block that results. */
    method ExtendHeap(bytes: nat) returns (r: int)
      requires Valid() && MIN_BLOCK <= bytes && Uncut(brk, bytes)
      modifies this
      ensures r == NULL <==> old(brk) + Align(bytes) > limit
      ensures r == NULL ==> Valid() && unchanged(this)
      ensures r != NULL ==> Valid() && brk == old(brk) + Align(bytes)
      ensures r != NULL ==> JoinedTo(Appended(old(Now()), Align(bytes)), old(brk), Now(), r)
      ensures r != NULL ==> r in blocks && !blocks[r].alloc && blocks[r].size >= bytes
      ensures Live(blocks) == Live(old(blocks)) && (NoAdjacentFree(old(blocks)) ==> NoAdjacentFree(blocks))
      ensures r != NULL ==> PayloadsKept(old(mem), mem, Live(blocks))
    {
      hide CoreOf, PayloadsKept, Live, Tiles, NoAdjacentFree, NoAdjacentFreeBut, Coalesced, LinksOnly, Tagged, Listed, Relisted;
      ExtendFacts(Align(bytes));
      Granted(bytes);
      ghost var m0 := mem;
      var effectiveSize := Align(bytes);
      var bp := Grow(effectiveSize);
      if bp == -1 {
        return NULL;
      }
      ghost var m2, bs' := mem, blocks;
      r := Coalesce(bp);
      CoalescedShape(bs', First(), brk, bp, blocks, r);
      KeptTransitive(m0, m2, mem, Live(blocks));
      FirstBelow(r);
    }

    lemma Granted(bytes: nat)
      requires Valid() && Uncut(brk, bytes)
      ensures SbrkRefuses(brk, ToInt(Align(bytes))) <==> brk + Align(bytes) > limit
    {
      UncutIsRight(brk, bytes);
    }

    lemma FirstBelow(b: int)
      requires Valid() && b in blocks
      ensures b >= First() > 0
    {
    }

    // ---- Placing -------------------------------------------------------------------------

    /** The four tag words that cut block b in two. */
    ghost function CutTags(mem: Memory, b: int, size: nat, rest: nat): Memory
      requires size % 8 == 0 && size < 0x8000_0000 && rest % 8 == 0 && rest < 0x8000_0000
    {
      mem[b - 4 := Tag(size, true)][b + size - 8 := Tag(size, true)]
         [b + size - 4 := Tag(rest, false)][b + size + rest - 8 := Tag(rest, false)]
    }

    /** Cutting an unlisted block in two keeps the invariant, with the rest still to be listed. */
    lemma CutCore(detached: set<int>, b: int, size: nat, rest: nat)
      requires Core(detached) && b in blocks && (blocks[b].alloc || b in detached) && detached <= {b}
      requires GoodSize(size) && GoodSize(rest) && size + rest == blocks[b].size && size < 0x8000_0000 && rest < 0x8000_0000
      ensures CoreOf(CutTags(mem, b, size, rest), brk, freeListp, Placed(blocks, b, size), lists, {b + size})
      ensures PayloadsKept(mem, CutTags(mem, b, size, rest), All(Placed(blocks, b, size)))
      ensures KeepsWord(mem, CutTags(mem, b, size, rest), brk - 4)
      ensures b - 4 in mem && b + size - 8 in mem && b + size - 4 in mem && b + size + rest - 8 in mem
    {
      hide Tiles, Tagged, AllLinked, Filed, PayloadsKept, Sound, Live, All, Monotone, Tag;
      CutFacts(detached, b, size);
      CutLists(detached, b, size, rest);
    }

    lemma CutLists(detached: set<int>, b: int, size: nat, rest: nat)
      requires Core(detached) && b in blocks && (blocks[b].alloc || b in detached) && detached <= {b}
      requires GoodSize(size) && GoodSize(rest) && size + rest == blocks[b].size && size < 0x8000_0000 && rest < 0x8000_0000
      ensures var mem' := CutTags(mem, b, size, rest);
        && Tagged(mem', Placed(blocks, b, size)) && PayloadsKept(mem, mem', All(Placed(blocks, b, size)))
        && AllLinked(mem', freeListp, lists) && Filed(lists, Placed(blocks, b, size), {b + size}, linear)
    {
      hide *;
      HasRoom(rest);
      CutFacts(detached, b, size);
      CoreLists(detached);
      CutMemory(mem, blocks, b, size, rest);
      CutRefiles(blocks, detached, b, size);
      RedrawLists(mem, CutTags(mem, b, size, rest), freeListp, lists, blocks, detached,
                  Placed(blocks, b, size), {b + size}, linear);
    }

    lemma HasRoom(size: nat)
      requires GoodSize(size)
      ensures size >= MIN_BLOCK && size % 8 == 0
    {
    }

    lemma CutRefiles(bs: Blocks, detached: set<int>, b: int, size: nat)
      requires b in bs && (bs[b].alloc || b in detached) && detached <= {b}
      requires size + MIN_BLOCK <= bs[b].size && b + size !in bs
      ensures var bs', detached' := Placed(bs, b, size), {b + size};
        && (forall x | x in bs && !bs[x].alloc && x !in detached :: x in bs' && bs'[x] == bs[x] && x !in detached')
        && (forall x | x in bs' && !bs'[x].alloc && x !in detached' :: x in bs && bs'[x] == bs[x] && x !in detached)
    {
    }

    lemma CoreLists(detached: set<int>)
      requires Core(detached)
      ensures Tagged(mem, blocks) && AllLinked(mem, freeListp, lists) && Filed(lists, blocks, detached, linear)
    {
    }

    lemma CutFacts(detached: set<int>, b: int, size: nat)
      requires Core(detached) && b in blocks && GoodSize(size) && size + MIN_BLOCK <= blocks[b].size
      ensures Tiles(Placed(blocks, b, size), First(), brk) && Sound(Placed(blocks, b, size)) && Sound(blocks)
      ensures var rest := blocks[b].size - size;
              GoodSize(rest) && rest < 0x8000_0000 && b + size !in blocks && size < 0x8000_0000 && size % 8 == 0 && rest % 8 == 0
      ensures First() <= b && base <= b - 4 && b + blocks[b].size <= brk && size <= blocks[b].size
      ensures b - 4 in mem && b + size - 8 in mem && b + size - 4 in mem && b + blocks[b].size - 8 in mem
    {
      SplitTiles(blocks, First(), brk, b, size);
      RestIsGood(size, blocks[b].size);
      MappedWords(mem, base, limit, b, size);
      BlockWords(detached, b);
    }

    /** The extent of every other block is clear of the four tag words. */
    lemma CutElsewhere(mem: Memory, bs: Blocks, b: int, size: nat, rest: nat, x: int, a: int)
      requires Apart(bs) && b in bs && x in bs && x != b && size + rest == bs[b].size && GoodSize(bs[x].size)
      requires size % 8 == 0 && 24 <= size < 0x8000_0000 && rest % 8 == 0 && 24 <= rest < 0x8000_0000
      requires x - 4 <= a < x + bs[x].size - 4 && a in mem
      ensures a in CutTags(mem, b, size, rest) && CutTags(mem, b, size, rest)[a] == mem[a]
    {
    }

    lemma CutTagged(mem: Memory, bs: Blocks, b: int, size: nat, rest: nat)
      requires Tagged(mem, bs) && b in bs && GoodSize(size) && GoodSize(rest) && size + rest == bs[b].size
      requires size < 0x8000_0000 && rest < 0x8000_0000 && b + size !in bs && Sound(bs)
      ensures Tagged(CutTags(mem, b, size, rest), Placed(bs, b, size))
    {
      hide CutTags, Apart, Tag;
      var mem', bs' := CutTags(mem, b, size, rest), Placed(bs, b, size);
      CutOwnTags(mem, b, size, rest);
      forall x | x in bs' && x != b && x != b + size
        ensures TaggedAt(mem', x, bs[x])
      {
        assert TaggedAt(mem, x, bs[x]);
        CutElsewhere(mem, bs, b, size, rest, x, x - 4);
        CutElsewhere(mem, bs, b, size, rest, x, x + bs[x].size - 8);
      }
      assert forall x | x in bs' :: TaggedAt(mem', x, bs'[x]);
    }

    ghost predicate TaggedAt(mem: Memory, b: int, k: Block) {
      && k.size % 8 == 0 && k.size < 0x8000_0000
      && WordIs(mem, b - 4, Tag(k.size, k.alloc)) && WordIs(mem, b + k.size - 8, Tag(k.size, k.alloc))
    }

    lemma CutOwnTags(mem: Memory, b: int, size: nat, rest: nat)
      requires size % 8 == 0 && 24 <= size < 0x8000_0000 && rest % 8 == 0 && 24 <= rest < 0x8000_0000
      ensures TaggedAt(CutTags(mem, b, size, rest), b, Block(size, true))
      ensures TaggedAt(CutTags(mem, b, size, rest), b + size, Block(rest, false))
    {
    }

    lemma CutMemory(mem: Memory, bs: Blocks, b: int, size: nat, rest: nat)
      requires Tagged(mem, bs) && b in bs && GoodSize(size) && GoodSize(rest) && size + rest == bs[b].size
      requires size < 0x8000_0000 && rest < 0x8000_0000 && b + size !in bs && Sound(bs)
      requires b - 4 in mem && b + size - 8 in mem && b + size - 4 in mem && b + bs[b].size - 8 in mem
      ensures Tagged(CutTags(mem, b, size, rest), Placed(bs, b, size))
      ensures PayloadsKept(mem, CutTags(mem, b, size, rest), All(Placed(bs, b, size)))
    {
      hide CutTags, Placed, Sound, Tagged, All, Tag;
      CutTagged(mem, bs, b, size, rest);
      CutKeys(mem, b, size, rest);
      var mem', live := CutTags(mem, b, size, rest), All(Placed(bs, b, size));
      forall x: int, a: int {:trigger live[x], mem'[a]} | x in live && x <= a && a + 8 < x + live[x] && a in mem
        ensures mem'[a] == mem[a]
      {
        CutPayload(mem, bs, b, size, rest, x, a);
      }
    }

    lemma CutKeys(mem: Memory, b: int, size: nat, rest: nat)
      requires size % 8 == 0 && size < 0x8000_0000 && rest % 8 == 0 && rest < 0x8000_0000
      requires b - 4 in mem && b + size - 8 in mem && b + size - 4 in mem && b + size + rest - 8 in mem
      ensures CutTags(mem, b, size, rest).Keys == mem.Keys
    {
    }

    /** No payload of the new layout holds a tag word of the cut. */
    lemma CutPayload(mem: Memory, bs: Blocks, b: int, size: nat, rest: nat, x: int, a: int)
      requires b in bs && GoodSize(size) && GoodSize(rest) && size + rest == bs[b].size && Sound(bs)
      requires size < 0x8000_0000 && rest < 0x8000_0000 && b + size !in bs && a in mem
      requires x in All(Placed(bs, b, size)) && x <= a && a + 8 < x + All(Placed(bs, b, size))[x]
      ensures a in CutTags(mem, b, size, rest) && CutTags(mem, b, size, rest)[a] == mem[a]
    {
      hide Tag;
      if x != b && x != b + size {
        CutElsewhere(mem, bs, b, size, rest, x, a);
      }
    }

    /** Writes the four tags that cut a block in two; each address is found through the tag before it. */
    method PutCutTags(b: int, size: nat, rest: nat) returns (next: int)
      requires size % 8 == 0 && 24 <= size < 0x8000_0000 && rest % 8 == 0 && 24 <= rest < 0x8000_0000
      requires base <= b - 4 && b + size + rest <= brk && b in blocks && size <= blocks[b].size
      requires b - 4 in mem && b + size - 8 in mem && b + size - 4 in mem && b + size + rest - 8 in mem
      requires CoreOf(CutTags(mem, b, size, rest), brk, freeListp, Placed(blocks, b, size), lists, {b + size})
      modifies `mem, `blocks
      ensures next == b + size && mem == CutTags(old(mem), b, size, rest)
      ensures blocks == Placed(old(blocks), b, size) && Core({next})
    {
      hide CoreOf, SizeOf, Tag, Placed;
      Put(b - 4, Tag(size, true));
      TagRoundTrip(size, true);
      Put(Ftrp(mem, b), Tag(size, true));
      next := NextBlock(mem, b);
      Put(next - 4, Tag(rest, false));
      TagRoundTrip(rest, false);
      Put(Ftrp(mem, next), Tag(rest, false));
      blocks := Placed(blocks, b, size);
    }

    /** Splits an unlisted block and lists the rest. */
    method PlaceSplit(block: int, size: nat, rest: nat, ghost detached: set<int>, ghost keep: map<int, nat>)
      requires Core(detached) && WordIs(mem, brk - 4, Tag(0, true)) && block in blocks
      requires (blocks[block].alloc || block in detached) && detached <= {block}
      requires GoodSize(size) && size + MIN_BLOCK <= blocks[block].size && rest == blocks[block].size - size
      requires Covered(keep, Placed(blocks, block, size))
      modifies `mem, `freeListp, `lists, `blocks
      ensures Valid() && blocks == Placed(old(blocks), block, size) && PayloadsKept(old(mem), mem, keep)
      ensures lists == Listed(old(lists), linear, block + size, rest)
    {
      hide *;
      ghost var m0 := mem;
      SplitFacts(detached, block, size, rest);
      var next := PutCutTags(block, size, rest);
      ghost var m1 := mem;
      TagsOnlyKeep(m0, m1, blocks, keep, brk - 4, Tag(0, true));
      AddFreeBlockToList(next, {next});
      assert {next} - {next} == {};
      LiveCovers(m1, mem, blocks, keep);
      KeptTransitive(m0, m1, mem, keep);
      WordKept(m1, mem, brk - 4, Tag(0, true));
      ValidIs();
    }

    lemma ValidIs()
      ensures Core({}) && WordIs(mem, brk - 4, Tag(0, true)) ==> Valid()
    {
    }

    lemma SplitFacts(detached: set<int>, b: int, size: nat, rest: nat)
      requires Core(detached) && b in blocks && (blocks[b].alloc || b in detached) && detached <= {b}
      requires GoodSize(size) && rest >= MIN_BLOCK && size + rest == blocks[b].size
      ensures rest % 8 == 0 && 24 <= rest < 0x8000_0000 && size % 8 == 0 && 24 <= size < 0x8000_0000
      ensures base <= b - 4 && b + size + rest <= brk
      ensures b - 4 in mem && b + size - 8 in mem && b + size - 4 in mem && b + size + rest - 8 in mem
      ensures rest % 8 == 0 && rest < 0x8000_0000 && size % 8 == 0 && size < 0x8000_0000 ==>
        && CoreOf(CutTags(mem, b, size, rest), brk, freeListp, Placed(blocks, b, size), lists, {b + size})
        && PayloadsKept(mem, CutTags(mem, b, size, rest), All(Placed(blocks, b, size)))
        && KeepsWord(mem, CutTags(mem, b, size, rest), brk - 4)
      ensures b + size in Placed(blocks, b, size) && Placed(blocks, b, size)[b + size] == Block(rest, false)
    {
      hide CoreOf, Tiles, Sound, PayloadsKept, All, KeepsWord, CutTags;
      CutFacts(detached, b, size);
      CutCore(detached, b, size, rest);
      FreeRest(blocks, b, size);
    }

    lemma FreeRest(bs: Blocks, b: int, size: nat)
      requires b in bs && size + MIN_BLOCK <= bs[b].size
      ensures b + size in Placed(bs, b, size) && Placed(bs, b, size)[b + size] == Block(bs[b].size - size, false)
    {
    }

    /** Payloads that placing in block b must not disturb: its own prefix when it is live already. */
    ghost function Survivors(bs: Blocks, b: int, size: nat): map<int, nat>
      requires b in bs && size <= bs[b].size
    {
      if bs[b].alloc then Live(Placed(bs, b, size)) else Live(bs)
    }

    /** Every payload in `keep` is, up to its length, a live block of bs. */
    ghost predicate Covered(keep: map<int, nat>, bs: Blocks) {
      forall x | x in keep :: x in bs && keep[x] <= bs[x].size && bs[x].alloc
    }

    /** Block b in use, off its list if it was free, and what it does not need listed. */
    ghost function PlacedAt(h: Layout, b: int, size: nat): (h': Layout)
      requires b in h.blocks && size <= h.blocks[b].size
      ensures h'.blocks == Placed(h.blocks, b, size) && h'.brk == h.brk
    {
      var l := if h.blocks[b].alloc then h.lists else Unlisted(h.lists, {b});
      var rest := h.blocks[b].size - size;
      Layout(Placed(h.blocks, b, size), if rest >= MIN_BLOCK then Listed(l, linear, b + size, rest) else l, h.brk)
    }

    /** Marks a block as used and splits off what it does not need. */
    method Place(block: int, size: nat)
      requires Valid() && block in blocks && GoodSize(size) && size <= blocks[block].size
      modifies `mem, `freeListp, `lists, `blocks
      ensures Valid() && Now() == PlacedAt(old(Now()), block, size)
      ensures PayloadsKept(old(mem), mem, Survivors(old(blocks), block, size))
    {
      hide CoreOf, PayloadsKept, Live, LinksOnly, Tiles, Survivors, Placed, Redraws, All, Tagged, SizeOf, AllocOf,
        Covered, KeepsWord, Listed, Unlisted;
      ghost var m0, keep := mem, Survivors(blocks, block, size);
      StillTagged({}, block);
      PlaceFacts(block, size);
      KeptReflexive(mem, keep);
      var currentSize := SizeOf(mem[block - 4]);
      ghost var detached: set<int> := {};
      if !AllocOf(mem[block - 4]) {
        RemoveFreeBlockFromList(block, {});
        detached := {block};
        assert {} + {block} == {block};
        WordKept(m0, mem, brk - 4, Tag(0, true));
      }
      ghost var m1 := mem;
      if currentSize - size >= MIN_BLOCK {
        PlaceSplit(block, size, currentSize - size, detached, keep);
        KeptTransitive(m0, m1, mem, keep);
        return;
      }
      PutTags(block, currentSize, true, detached, Placed(blocks, block, size), {});
      TagsOnlyKeep(m1, mem, blocks, keep, brk - 4, Tag(0, true));
      KeptTransitive(m0, m1, mem, keep);
    }

    /** Every surviving payload is (a prefix of) a block of the new layout, and live in it. */
    lemma PlaceFacts(b: int, size: nat)
      requires Valid() && b in blocks && GoodSize(size) && size <= blocks[b].size
      ensures var bs', keep := Placed(blocks, b, size), Survivors(blocks, b, size);
        && Covered(keep, bs')
        && (!blocks[b].alloc ==> keep == Live(blocks))
        && (blocks[b].size - size < MIN_BLOCK && !blocks[b].alloc ==> Redraws(blocks, First(), brk, {b}, bs', {}, b))
        && (blocks[b].size - size < MIN_BLOCK && blocks[b].alloc ==> Redraws(blocks, First(), brk, {}, bs', {}, b))
        && (blocks[b].size - size < MIN_BLOCK ==> bs'[b] == Block(blocks[b].size, true))
      ensures blocks[b].size % 8 == 0 && blocks[b].size < 0x8000_0000
    {
      hide CoreOf, Tiles, Placed, Redraws, Live, Covered;
      TilesHere({});
      BlockWordSizes({}, b);
      PlacedCovers(blocks, First(), brk, b, size);
    }

    lemma PlacedCovers(bs: Blocks, first: int, end: int, b: int, size: nat)
      requires Tiles(bs, first, end) && b in bs && GoodSize(size) && size <= bs[b].size
      ensures var bs', keep := Placed(bs, b, size), Survivors(bs, b, size);
        && Covered(keep, bs')
        && (!bs[b].alloc ==> keep == Live(bs))
        && (bs[b].size - size < MIN_BLOCK && !bs[b].alloc ==> Redraws(bs, first, end, {b}, bs', {}, b))
        && (bs[b].size - size < MIN_BLOCK && bs[b].alloc ==> Redraws(bs, first, end, {}, bs', {}, b))
        && (bs[b].size - size < MIN_BLOCK ==> bs'[b] == Block(bs[b].size, true))
    {
      hide Tiles;
      SplitTiles(bs, first, end, b, size);
      PlacedLive(bs, first, end, b, size);
      if size + MIN_BLOCK <= bs[b].size {
        OthersLive(bs, first, end, b, size);
      }
    }

    lemma OthersLive(bs: Blocks, first: int, end: int, b: int, size: nat)
      requires Tiles(bs, first, end) && b in bs && GoodSize(size) && size + MIN_BLOCK <= bs[b].size
      ensures b + size !in bs
    {
    }

    lemma TagsOnlyKeep(m: Memory, m': Memory, bs: Blocks, keep: map<int, nat>, a: int, w: Word)
      ensures PayloadsKept(m, m', All(bs)) && Covered(keep, bs) ==> PayloadsKept(m, m', keep)
      ensures KeepsWord(m, m', a) && WordIs(m, a, w) ==> WordIs(m', a, w)
    {
      if PayloadsKept(m, m', All(bs)) && Covered(keep, bs) {
        KeptSubset(m, m', All(bs), keep);
      }
    }

    lemma WordKept(m: Memory, m': Memory, a: int, w: Word)
      ensures KeepsWord(m, m', a) && WordIs(m, a, w) ==> WordIs(m', a, w)
    {
    }

    lemma LiveCovers(m: Memory, m': Memory, bs: Blocks, keep: map<int, nat>)
      ensures PayloadsKept(m, m', Live(bs)) && Covered(keep, bs) ==> PayloadsKept(m, m', keep)
    {
      if PayloadsKept(m, m', Live(bs)) && Covered(keep, bs) {
        KeptSubset(m, m', Live(bs), keep);
      }
    }

    // ---- Searching -------------------------------------------------------------------------

    /** No free block of the classes in [lo, hi) is large enough. */
    ghost predicate NoneFits(bs: Blocks, lo: int, hi: int, size: nat) {
      forall b | b in bs && !bs[b].alloc && bs[b].size >= MIN_BLOCK && lo <= FreeListIndex(linear, bs[b].size) < hi ::
        bs[b].size < size
    }

    /** A free block that fits, and a smallest one when it has fewer than 24 + 8 * 128 bytes. */
    ghost predicate Fits(bs: Blocks, r: int, size: nat) {
      && r in bs && !bs[r].alloc && bs[r].size >= size && bs[r].size >= MIN_BLOCK
      && (bs[r].size < 1048 ==> forall b | b in bs && !bs[b].alloc && bs[b].size >= size :: bs[r].size <= bs[b].size)
    }

    /** Position j of list i is the first that fits, in the first class from that of the size on in which a block does. */
    ghost predicate FirstAt(bs: Blocks, lists: seq<seq<int>>, i: int, j: int, size: nat) {
      && size >= MIN_BLOCK && 0 <= i < |lists| && 0 <= j < |lists[i]|
      && FreeListIndex(linear, size) <= i && NoneFits(bs, FreeListIndex(linear, size), i, size)
      && lists[i][j] in bs && bs[lists[i][j]].size >= size
      && forall k | 0 <= k < j :: lists[i][k] in bs && bs[lists[i][k]].size < size
    }

    ghost predicate FirstFit(bs: Blocks, lists: seq<seq<int>>, r: int, size: nat) {
      exists i: int, j: int :: FirstAt(bs, lists, i, j, size) && lists[i][j] == r
    }

    /** The node at position j of list i, as the search sees it. */
    lemma Visit(i: nat, j: nat)
      requires Valid() && i < FREE_LIST_COUNT && j <= |lists[i]|
      ensures freeListp[i] == At(lists[i], 0)
      ensures j < |lists[i]| ==>
        var x := lists[i][j];
        && x > 0 && x in blocks && !blocks[x].alloc && x - 4 in mem && SizeOf(mem[x - 4]) == blocks[x].size >= MIN_BLOCK
        && !AllocOf(mem[x - 4]) && HasPtr(mem, x + 8) && ReadPtr(mem, x + 8) == At(lists[i], j + 1)
        && FreeListIndex(linear, blocks[x].size) == i
    {
      Bounds({});
      assert Linked(mem, freeListp[i], lists[i]);
      if j < |lists[i]| {
        var x := lists[i][j];
        assert x in lists[i] && NodeOk(mem, lists[i], j);
        assert Member(blocks, {}, linear, x, i);
        StillTagged({}, x);
      }
    }

    /** Once a whole list has been seen, its class is done. */
    lemma ListDone(i: nat, lo: int, size: nat)
      requires Valid() && i < FREE_LIST_COUNT && NoneFits(blocks, lo, i, size)
      requires forall k | 0 <= k < |lists[i]| :: lists[i][k] in blocks && blocks[lists[i][k]].size < size
      ensures NoneFits(blocks, lo, i + 1, size)
    {
      forall b | b in blocks && !blocks[b].alloc && blocks[b].size >= MIN_BLOCK && lo <= FreeListIndex(linear, blocks[b].size) < i + 1
        ensures blocks[b].size < size
      {
        if FreeListIndex(linear, blocks[b].size) == i {
          assert b in lists[i];
        }
      }
    }

    /** Blocks of lower classes are too small, so the first hit of an exact class is a smallest fit. */
    lemma HitIsFit(r: int, size: nat, i: nat)
      requires Valid() && GoodSize(size) && r in blocks && !blocks[r].alloc && blocks[r].size >= size
      requires FreeListIndex(linear, blocks[r].size) == i && NoneFits(blocks, FreeListIndex(linear, size), i, size)
      ensures Fits(blocks, r, size)
    {
      if blocks[r].size < 1048 {
        forall b | b in blocks && !blocks[b].alloc && blocks[b].size >= size
          ensures blocks[r].size <= blocks[b].size
        {
          IndexMonotone(linear, size, blocks[b].size);
          ExactClass(linear, blocks[r].size);
          var c := FreeListIndex(linear, blocks[b].size);
          if blocks[b].size < blocks[r].size {
            IndexMonotone(linear, blocks[b].size, blocks[r].size);
            ExactClass(linear, blocks[b].size);
          }
        }
      }
    }

    lemma NothingFits(size: nat)
      requires Valid() && GoodSize(size) && NoneFits(blocks, FreeListIndex(linear, size), FREE_LIST_COUNT, size)
      ensures forall b | b in blocks && !blocks[b].alloc :: blocks[b].size < size
    {
      forall b | b in blocks && !blocks[b].alloc
        ensures blocks[b].size < size
      {
        if blocks[b].size >= size {
          IndexMonotone(linear, size, blocks[b].size);
        }
      }
    }

    /** First fit in the size class of the request and above. */
    method FindFit(size: nat) returns (r: int)
      requires Valid() && GoodSize(size)
      ensures r == NULL ==> forall b | b in blocks && !blocks[b].alloc :: blocks[b].size < size
      ensures r != NULL ==> Fits(blocks, r, size) && FirstFit(blocks, lists, r, size)
    {
      hide CoreOf, Tiles, Fits, FreeListIndex, Valid, ReadPtr, HasPtr, SizeOf, AllocOf;
      HeadCount();
      var start := MapToFreeListIndex(size);
      var i := start;
      while i < FREE_LIST_COUNT
        invariant start <= i <= FREE_LIST_COUNT && NoneFits(blocks, start, i, size)
      {
        ghost var s := lists[i];
        Visit(i, 0);
        var current := freeListp[i];
        ghost var j := 0;
        while current != NULL && SizeOf(mem[current - 4]) > 0
          invariant 0 <= j <= |s| && current == At(s, j) && (current != NULL ==> current - 4 in mem)
          invariant forall k | 0 <= k < j :: s[k] in blocks && blocks[s[k]].size < size
          invariant current == NULL || SizeOf(mem[current - 4]) > 0
          decreases |s| - j
        {
          Visit(i, j);
          assert !AllocOf(mem[current - 4]);
          if SizeOf(mem[current - 4]) >= size {
            HitIsFit(current, size, i);
            assert FirstAt(blocks, lists, i, j, size);
            return current;
          }
          current := ReadPtr(mem, current + 8);
          j := j + 1;
          Visit(i, j);
        }
        Visit(i, j);
        ListDone(i, start, size);
        i := i + 1;
      }
      NothingFits(size);
      return NULL;
    }

    lemma HeadCount()
      requires Valid()
      ensures |freeListp| == FREE_LIST_COUNT && |lists| == FREE_LIST_COUNT
    {
    }

    // ---- The interface ------------------------------------------------------------------------

    /** The simulated heap before mm_init: storage with arbitrary contents, nothing handed out. */
    constructor (base: int, limit: int, pageSize: nat, linear: nat -> nat, content: Memory)
      ensures this.base == base && this.limit == limit && this.pageSize == pageSize && this.linear == linear
      ensures mem == content && brk == base
    {
      this.base, this.limit, this.pageSize, this.linear := base, limit, pageSize, linear;
      mem, brk, freeListp, blocks, lists := content, base, [], map[], [];
    }

    /** The heap right after prologue and epilogue are in place. */
    lemma EmptyHeap()
      requires Params() && Mapped(mem, base, limit) && brk == First() <= limit
      requires WordIs(mem, First() - 12, Tag(PROLOGUE, true)) && WordIs(mem, First() - 8, Tag(PROLOGUE, true))
      requires WordIs(mem, brk - 4, Tag(0, true)) && blocks == map[]
      requires |freeListp| == FREE_LIST_COUNT && forall i | 0 <= i < FREE_LIST_COUNT :: freeListp[i] == NULL
      requires lists == seq(FREE_LIST_COUNT, i => [])
      ensures Valid()
    {
    }

    /** The four words of prologue and epilogue. */
    method PutPrologue(heap: int)
      requires Params() && Mapped(mem, base, limit) && heap == base + HEADS_SIZE && brk == First() <= limit
      requires blocks == map[] && lists == seq(FREE_LIST_COUNT, i => [])
      requires |freeListp| == FREE_LIST_COUNT && forall i | 0 <= i < FREE_LIST_COUNT :: freeListp[i] == NULL
      modifies `mem
      ensures Valid()
    {
      hide CoreOf;
      AlignedWords(heap + 8);
      AlignedWords(heap);
      Put(heap, 0);
      Put(heap + 4, Tag(PROLOGUE, true));
      Put(heap + 8, Tag(PROLOGUE, true));
      Put(heap + 12, Tag(0, true));
      EmptyHeap();
    }

    /** One free block of a rounded page behind 196 list heads, padding and the prologue. */
    ghost function FirstPage(): Layout {
      Layout(map[base + 1584 := Block(Align(pageSize), false)],
             Listed(seq(196, i => []), linear, base + 1584, Align(pageSize)), base + 1584 + Align(pageSize))
    }

    lemma NothingRelisted(bs: Blocks, lists: seq<seq<int>>, r: int)
      ensures Relisted(bs, lists, bs, r) == lists
    {
    }

    lemma PageUncut(brk: int)
      requires Params()
      ensures Uncut(brk, pageSize)
    {
    }

    /** Lays out list heads, prologue and epilogue, and takes the first page. */
    method MmInit() returns (r: int)
      requires Params() && Mapped(mem, base, limit) && brk == base
      modifies this
      ensures r == 0 || r == -1
      ensures r == 0 <==> base + 1584 + Align(pageSize) <= limit
      ensures r == 0 ==> Valid() && NoAdjacentFree(blocks) && Live(blocks) == map[] && Now() == FirstPage()
    {
      hide CoreOf, Valid, NoAdjacentFreeBut, Coalesced, PayloadsKept, Listed, Relisted;
      blocks, lists := map[], seq(FREE_LIST_COUNT, i => []);
      var heads := MemSbrk(HEADS_SIZE);
      if heads == -1 {
        return -1;
      }
      freeListp := [];
      for i := 0 to FREE_LIST_COUNT
        invariant |freeListp| == i && forall k | 0 <= k < i :: freeListp[k] == NULL
        invariant blocks == map[] && lists == seq(FREE_LIST_COUNT, i => [])
        invariant brk == heads + HEADS_SIZE && Mapped(mem, base, limit)
      {
        freeListp := freeListp + [NULL];
      }
      var prologueBlockSize := PROLOGUE;
      var heap := MemSbrk(2 * prologueBlockSize);
      if heap == -1 {
        return -1;
      }
      PutPrologue(heap);
      PageUncut(brk);
      var bp := ExtendHeap(pageSize);
      if bp == NULL {
        return -1;
      }
      OnlyBlock(First(), Align(pageSize), map[][First() := Block(Align(pageSize), false)], blocks, bp);
      assert map[][First() := Block(Align(pageSize), false)] == map[First() := Block(Align(pageSize), false)];
      NothingRelisted(blocks, Listed(seq(FREE_LIST_COUNT, i => []), linear, First(), Align(pageSize)), bp);
      return 0;
    }

    /** bs' differs from bs by one new live block p with room for the request. */
    ghost predicate Allocates(bs: Blocks, bs': Blocks, p: int, size: nat) {
      && p !in Live(bs) && p in bs' && bs'[p].alloc && bs'[p].size >= BlockSize(size)
      && Live(bs') == Live(bs)[p := bs'[p].size]
    }

    /** No free block is large enough and the heap cannot grow by what the request needs. */
    ghost predicate Exhausted(bs: Blocks, brk: int, size: nat) {
      && (forall b | b in bs && !bs[b].alloc :: bs[b].size < BlockSize(size))
      && brk + Align(Max(BlockSize(size), pageSize)) > limit
    }

    /** mid is h with a new block of n bytes at its end, joined to p with a free predecessor. */
    ghost predicate GrownAt(h: Layout, n: nat, mid: Layout, p: int) {
      JoinedTo(Appended(h, n), h.brk, mid, p) && p in mid.blocks
    }

    /** Where the new block comes from: the first fit if there is one, and only else new space. */
    ghost predicate Served(h: Layout, h': Layout, p: int, size: nat) {
      var need := BlockSize(size);
      if exists b :: b in h.blocks && !h.blocks[b].alloc && h.blocks[b].size >= need
      then Fits(h.blocks, p, need) && FirstFit(h.blocks, h.lists, p, need) && h' == PlacedAt(h, p, need)
      else exists mid: Layout ::
        GrownAt(h, Align(Max(need, pageSize)), mid, p) && need <= mid.blocks[p].size && h' == PlacedAt(mid, p, need)
    }

    method MmMalloc(size: nat) returns (p: int)
      requires Valid() && Representable(brk, size)
      modifies this
      ensures Valid()
      ensures p != NULL ==> Served(old(Now()), Now(), p, size)
      ensures brk >= old(brk)
      ensures p == NULL ==> unchanged(this)
      ensures p == NULL <==> size == 0 || Exhausted(old(blocks), old(brk), size)
      ensures p != NULL ==> Allocates(old(blocks), blocks, p, size) && PayloadsKept(old(mem), mem, Live(old(blocks)))
      ensures NoAdjacentFree(old(blocks)) ==> NoAdjacentFree(blocks)
    {
      hide CoreOf, Tiles, PayloadsKept, Live, NoAdjacentFree, Coalesced, Placed, PlacedAt, Appended, JoinedTo, FirstFit, Survivors, Valid, BlockSize;
      if size == 0 {
        return NULL;
      }
      ghost var m0, bs0, h0 := mem, blocks, Now();
      var blockSize := WrappedBlockSize(size);
      BlockSizeWraps(size);
      SizeFacts(size);
      var bp := FindFit(blockSize);
      if bp != NULL {
        MallocFacts(blocks, bp, blockSize);
        FitServes(h0, bp, size);
        Place(bp, blockSize);
        return bp;
      }
      bp := ExtendHeap(Max(blockSize, pageSize));
      if bp == NULL {
        return NULL;
      }
      ghost var m1, bs1 := mem, blocks;
      MallocFacts(blocks, bp, blockSize);
      GrowthServes(h0, Now(), bp, size);
      Place(bp, blockSize);
      KeptTransitive(m0, m1, mem, Live(bs0));
      SameLive(bs0, bs1, bp);
      return bp;
    }

    /** The requests below 2^64 - 15 that are not representable: they should be refused, and mem_sbrk grants fewer bytes. */
    lemma CutIsGranted(size: nat)
      requires Valid() && size <= 0xffff_ffff_ffff_fff0
      ensures var n := ToInt(Align(Max(BlockSize(size), pageSize)));
        !Representable(brk, size) <==> Exhausted(blocks, brk, size) && !SbrkRefuses(brk, n)
    {
      hide CoreOf, ToInt, Align, Max, BlockSize;
      ParamsHold();
      UncutIsRight(brk, Max(BlockSize(size), pageSize));
      ToIntCuts(Align(Max(BlockSize(size), pageSize)));
      FitInHeap();
    }

    lemma ParamsHold()
      requires Valid()
      ensures Params() && base <= brk <= limit
    {
    }

    /** A block that is free lies inside the heap, so a fit is shorter than the heap. */
    lemma FitInHeap()
      requires Valid()
      ensures forall b | b in blocks :: blocks[b].size < limit - base
    {
    }

    lemma FitServes(h: Layout, p: int, size: nat)
      requires Fits(h.blocks, p, BlockSize(size)) && FirstFit(h.blocks, h.lists, p, BlockSize(size))
      ensures Served(h, PlacedAt(h, p, BlockSize(size)), p, size)
    {
    }

    lemma GrowthServes(h: Layout, mid: Layout, p: int, size: nat)
      requires forall b | b in h.blocks && !h.blocks[b].alloc :: h.blocks[b].size < BlockSize(size)
      requires p in mid.blocks && BlockSize(size) <= mid.blocks[p].size
      requires JoinedTo(Appended(h, Align(Max(BlockSize(size), pageSize))), h.brk, mid, p)
      ensures Served(h, PlacedAt(mid, p, BlockSize(size)), p, size)
    {
      assert GrownAt(h, Align(Max(BlockSize(size), pageSize)), mid, p);
    }

    lemma SameLive(bs: Blocks, bs': Blocks, p: int)
      requires Live(bs') == Live(bs) && p !in Live(bs')
      ensures p !in Live(bs)
    {
    }

    lemma SizeFacts(size: nat)
      ensures GoodSize(BlockSize(size)) && MIN_BLOCK <= BlockSize(size) <= Max(BlockSize(size), pageSize)
    {
    }

    lemma MallocFacts(bs: Blocks, p: int, size: nat)
      requires Valid() && bs == blocks && p in bs && !bs[p].alloc && GoodSize(size) && size <= bs[p].size
      ensures p != NULL && Survivors(bs, p, size) == Live(bs) && p !in Live(bs)
      ensures p in Placed(bs, p, size) && Placed(bs, p, size)[p].alloc && Placed(bs, p, size)[p].size >= size
      ensures Live(Placed(bs, p, size)) == Live(bs)[p := Placed(bs, p, size)[p].size]
      ensures NoAdjacentFree(bs) ==> NoAdjacentFree(Placed(bs, p, size))
    {
      PlacedLive(bs, First(), brk, p, size);
      if NoAdjacentFree(bs) {
        PlacedNoAdjacent(bs, First(), brk, p, size);
      }
    }

    /** Block p freed, in front of its list, and joined with its free neighbours. */
    ghost predicate FreedTo(h: Layout, p: int, h': Layout)
      requires p in h.blocks
    {
      exists r :: JoinedTo(Layout(Freed(h.blocks, p), Listed(h.lists, linear, p, h.blocks[p].size), h.brk), p, h', r)
    }

    method MmFree(p: int)
      requires Valid() && p in Live(blocks)
      modifies `mem, `freeListp, `lists, `blocks
      ensures Valid() && Live(blocks) == Live(old(blocks)) - {p}
      ensures PayloadsKept(old(mem), mem, Live(blocks))
      ensures p in old(blocks) && FreedTo(old(Now()), p, Now())
      ensures NoAdjacentFree(old(blocks)) ==> NoAdjacentFree(blocks)
    {
      hide CoreOf, Tiles, PayloadsKept, Live, NoAdjacentFree, NoAdjacentFreeBut, Coalesced, Redraws, All, LinksOnly,
        Valid, KeepsWord, WordIs, Listed, Relisted, FreedTo;
      FreeFacts(p);
      ghost var m0, bs' := mem, Freed(blocks, p);
      StillTagged({}, p);
      var size := SizeOf(mem[p - 4]);
      PutTags(p, size, false, {}, bs', {p});
      ghost var m1 := mem;
      FreedKeep(m0, m1, blocks, brk - 4);
      AddFreeBlockToList(p, {p});
      assert {p} - {p} == {};
      ghost var m2 := mem;
      KeptTransitive(m0, m1, m2, Live(blocks));
      WordKept(m1, mem, brk - 4, Tag(0, true));
      ValidIs();
      var r := Coalesce(p);
      FreedIs(old(Now()), p, Now(), r);
      CoalescedShape(bs', First(), brk, p, blocks, r);
      KeptTransitive(m0, m2, mem, Live(blocks));
    }

    lemma FreedIs(h: Layout, p: int, h': Layout, r: int)
      requires p in h.blocks
      requires JoinedTo(Layout(Freed(h.blocks, p), Listed(h.lists, linear, p, h.blocks[p].size), h.brk), p, h', r)
      ensures FreedTo(h, p, h')
    {
    }

    lemma FreeFacts(p: int)
      requires Valid() && p in Live(blocks)
      ensures p in blocks && blocks[p].alloc && blocks[p].size % 8 == 0 && blocks[p].size < 0x8000_0000
      ensures var bs' := Freed(blocks, p);
        && Redraws(blocks, First(), brk, {}, bs', {p}, p) && Tiles(bs', First(), brk)
        && Live(bs') == Live(blocks) - {p}
        && (NoAdjacentFree(blocks) ==> NoAdjacentFreeBut(bs', p))
      ensures Core({}) && WordIs(mem, brk - 4, Tag(0, true))
    {
      hide CoreOf, Tiles, Live, NoAdjacentFree, NoAdjacentFreeBut, Freed, Redraws;
      LiveIs(blocks, p);
      TilesHere({});
      BlockWordSizes({}, p);
      RetagTiles(blocks, First(), brk, p, false);
      FreedLive(blocks, p);
      FreedRedraws(blocks, First(), brk, p);
      if NoAdjacentFree(blocks) {
        FreedNoAdjacent(blocks, p);
      }
    }

    lemma BlockWordSizes(detached: set<int>, b: int)
      requires Core(detached) && b in blocks
      ensures blocks[b].size % 8 == 0 && blocks[b].size < 0x8000_0000
    {
    }

    lemma FreedRedraws(bs: Blocks, first: int, end: int, p: int)
      requires p in bs && bs[p].alloc && Tiles(bs[p := Block(bs[p].size, false)], first, end)
      ensures Redraws(bs, first, end, {}, Freed(bs, p), {p}, p) && Tiles(Freed(bs, p), first, end)
    {
      hide Tiles;
    }

    lemma FreedKeep(m: Memory, m': Memory, bs: Blocks, a: int)
      ensures PayloadsKept(m, m', All(bs)) ==> PayloadsKept(m, m', Live(bs))
      ensures KeepsWord(m, m', a) && WordIs(m, a, Tag(0, true)) ==> WordIs(m', a, Tag(0, true))
    {
      if PayloadsKept(m, m', All(bs)) {
        KeptSubset(m, m', All(bs), Live(bs));
      }
    }

    // ---- Reallocation --------------------------------------------------------------------------

    /** Copies n bytes between two 4-aligned, disjoint places. */
    method MemCpy(dst: int, src: int, n: nat)
      requires dst % 4 == 0 && src % 4 == 0 && (dst + n + 4 <= src || src + n + 4 <= dst)
      requires forall a {:trigger a in mem} | dst <= a < dst + n && a % 4 == 0 :: a in mem
      requires forall a {:trigger a in mem} | src <= a < src + n && a % 4 == 0 :: a in mem
      modifies `mem
      ensures WordsCopied(old(mem), mem, dst, src, n)
    {
      hide WordsCopied;
      ghost var m := mem;
      var i := 0;
      NothingCopied(mem, dst, src);
      while i + 4 <= n
        invariant 0 <= i <= n && i % 4 == 0 && WordsCopied(m, mem, dst, src, i) && mem.Keys == m.Keys
      {
        CopyWord(m, mem, dst, src, i);
        mem := mem[dst + i := mem[src + i]];
        i := i + 4;
      }
      if i < n {
        CopyTail(m, mem, dst, src, i, n);
        mem := mem[dst + i := Merge(mem[dst + i], mem[src + i], n - i)];
      }
    }

    /** Follows the free blocks after ptr until their total reaches blockSize. */
    method ScanForward(ptr: int, blockSize: nat) returns (stop: int, c: nat)
      requires Valid() && ptr in blocks
      ensures (stop, c) == Scan(blocks, First(), brk, ptr, blocks[ptr].size, blockSize)
    {
      hide CoreOf, Tiles, Valid, SizeOf, AllocOf, NextBlock, First, FreeNext, Next;
      TilesNow();
      TagsAfter(ptr);
      c := SizeOf(mem[ptr - 4]);
      var current := ptr;
      stop := NULL;
      while true
        invariant current in blocks && stop == NULL
        invariant Scan(blocks, First(), brk, current, c, blockSize) == Scan(blocks, First(), brk, ptr, blocks[ptr].size, blockSize)
        decreases brk - current
      {
        TagsAfter(current);
        NextHigher(current);
        var next := NextBlock(mem, current);
        if AllocOf(mem[next - 4]) || SizeOf(mem[next - 4]) == 0 {
          return;
        }
        c := c + SizeOf(mem[next - 4]);
        if c >= blockSize {
          stop := next;
          return;
        }
        current := next;
      }
    }

    lemma WellFormedNow()
      requires Valid()
      ensures WellFormed(Now())
    {
    }

    lemma TilesNow()
      requires Valid()
      ensures Tiles(blocks, First(), brk) && First() > 0
    {
    }

    lemma NextHigher(b: int)
      requires Valid() && b in blocks
      ensures b < Next(blocks, b) <= brk
      ensures FreeNext(blocks, b) ==> Next(blocks, b) in blocks && Next(blocks, b) < brk && !blocks[Next(blocks, b)].alloc
                                      && blocks[Next(blocks, b)].size > 0
    {
    }

    /** Block p of bs has become live block q of bs', with room for the request; the other live blocks are the same. */
    ghost predicate Moves(bs: Blocks, bs': Blocks, p: int, q: int, size: nat) {
      && q in bs' && bs'[q].alloc && bs'[q].size >= BlockSize(size) && q !in Live(bs) - {p}
      && Live(bs') == (Live(bs) - {p})[q := bs'[q].size]
    }

    /** What a reallocation keeps: every other live payload, and the common prefix of the moved one. */
    ghost predicate Preserves(m: Memory, m': Memory, bs: Blocks, p: int, q: int, size: nat)
      requires p in bs
    {
      PayloadsKept(m, m', Live(bs) - {p}) && SameBytes(m, p, m', q, Min(bs[p].size - 8, size))
    }

    /** A payload kept as a whole keeps its first n bytes. */
    lemma PrefixKept(m: Memory, m': Memory, live: map<int, nat>, p: int, n: int)
      requires PayloadsKept(m, m', live) && p in live && n + 8 <= live[p] && WordsFrom(m, p, n)
      ensures SameBytes(m, p, m', p, n)
    {
      forall o: int, k: nat | 0 <= o && o % 4 == 0 && k < 4 && o + k < n
        ensures SameByte(m, p, m', p, o, k)
      {
        Aligned4(p, o);
        assert p + o in m;
        KeptWord(m, m', live, p, p + o);
      }
    }

    /** What shrinking does to the blocks, and where its payload words lie. */
    lemma PlaceOutcome(p: int, size: nat)
      requires Valid() && p in Live(blocks) && blocks[p].size >= BlockSize(size)
      ensures p in blocks && blocks[p].alloc && GoodSize(BlockSize(size))
      ensures Moves(blocks, Placed(blocks, p, BlockSize(size)), p, p, size)
      ensures var keep := Survivors(blocks, p, BlockSize(size));
        && p in keep && keep[p] >= BlockSize(size)
        && (forall b | b in Live(blocks) - {p} :: b in keep && keep[b] == Live(blocks)[b])
      ensures WordsFrom(mem, p, blocks[p].size - 8)
      ensures NoAdjacentFree(blocks) ==>
        (NoAdjacentFree(Placed(blocks, p, BlockSize(size)))
         <==> !(blocks[p].size - BlockSize(size) >= MIN_BLOCK && FreeNext(blocks, p)))
    {
      hide CoreOf, Tiles, Live, Placed, Survivors, Moves, NoAdjacentFree, WordsFrom, BlockSize;
      TilesHere({});
      PlacedMoves(blocks, First(), brk, p, size);
      PayloadWords(p);
    }

    lemma TilesHere(detached: set<int>)
      requires Core(detached)
      ensures Tiles(blocks, First(), brk)
    {
    }

    lemma PlacedMoves(bs: Blocks, first: int, end: int, p: int, size: nat)
      requires Tiles(bs, first, end) && p in Live(bs) && bs[p].size >= BlockSize(size)
      ensures p in bs && bs[p].alloc && Moves(bs, Placed(bs, p, BlockSize(size)), p, p, size)
      ensures var keep := Survivors(bs, p, BlockSize(size));
        && p in keep && keep[p] >= BlockSize(size)
        && (forall b | b in Live(bs) - {p} :: b in keep && keep[b] == Live(bs)[b])
      ensures NoAdjacentFree(bs) ==>
        (NoAdjacentFree(Placed(bs, p, BlockSize(size)))
         <==> !(bs[p].size - BlockSize(size) >= MIN_BLOCK && FreeNext(bs, p)))
    {
      hide Tiles, Placed, NoAdjacentFree, BlockSize;
      PlacedLive(bs, first, end, p, BlockSize(size));
      if NoAdjacentFree(bs) {
        PlacedNoAdjacent(bs, first, end, p, BlockSize(size));
      }
    }

    /** The words that hold the n bytes from the 4-aligned address p on exist. */
    ghost predicate WordsFrom(mem: Memory, p: int, n: int) {
      p % 4 == 0 && forall a {:trigger a in mem} | p <= a < p + n && a % 4 == 0 :: a in mem
    }

    lemma PayloadWords(p: int)
      requires Valid() && p in blocks
      ensures WordsFrom(mem, p, blocks[p].size - 8)
    {
      AlignedWords(p);
    }

    lemma PlacePrefix(m: Memory, m': Memory, keep: map<int, nat>, bs: Blocks, p: int, size: nat)
      requires p in bs && p in keep && keep[p] >= BlockSize(size) && bs[p].size >= BlockSize(size)
      requires PayloadsKept(m, m', keep) && WordsFrom(m, p, bs[p].size - 8)
      requires forall b | b in Live(bs) - {p} :: b in keep && keep[b] == Live(bs)[b]
      ensures Preserves(m, m', bs, p, p, size)
    {
      KeptSubset(m, m', keep, Live(bs) - {p});
      PrefixKept(m, m', keep, p, Min(bs[p].size - 8, size));
    }

    /** Shrinking in place; the part split off is not joined with a free successor. */
    method ReallocShrink(ptr: int, size: nat)
      requires Valid() && ptr in Live(blocks) && blocks[ptr].size >= BlockSize(size)
      modifies this
      ensures Valid() && ptr in old(blocks) && Moves(old(blocks), blocks, ptr, ptr, size)
      ensures old(blocks)[ptr].size >= BlockSize(size) && Now() == PlacedAt(old(Now()), ptr, BlockSize(size))
      ensures Preserves(old(mem), mem, old(blocks), ptr, ptr, size)
      ensures NoAdjacentFree(old(blocks)) ==>
        (NoAdjacentFree(blocks) <==> !(old(blocks)[ptr].size - BlockSize(size) >= MIN_BLOCK && FreeNext(old(blocks), ptr)))
    {
      hide CoreOf, Tiles, Valid, Live, Placed, Listed, Unlisted, Survivors, PayloadsKept, Preserves, Moves, NoAdjacentFree, BlockSize;
      LiveBlock(ptr);
      SizeFacts(size);
      ghost var m0, bs0, keep := mem, blocks, Survivors(blocks, ptr, BlockSize(size));
      PlaceOutcome(ptr, size);
      Place(ptr, BlockSize(size));
      PlacePrefix(m0, mem, keep, bs0, ptr, size);
    }

    lemma LiveBlock(p: int)
      requires Valid() && p in Live(blocks)
      ensures p in blocks && blocks[p].alloc && p > 0 && p - 4 in mem && SizeOf(mem[p - 4]) == blocks[p].size >= 24
    {
      StillTagged({}, p);
    }

    // Growing in place ...

    lemma GrowOutcome(p: int, size: nat)
      requires Valid() && p in Live(blocks) && FreeNext(blocks, p)
      requires blocks[p].size + blocks[Next(blocks, p)].size >= BlockSize(size) > blocks[p].size
      ensures p in blocks && Next(blocks, p) in blocks
      ensures var n, bs' := Next(blocks, p), MergeNext(blocks, p);
        && p in blocks && n in blocks && !blocks[n].alloc && n != p && p + blocks[p].size == n
        && Redraws(blocks, First(), brk, {n}, bs', {}, p) && bs'[p] == Block(blocks[p].size + blocks[n].size, true)
        && Moves(blocks, bs', p, p, size) && (NoAdjacentFree(blocks) ==> NoAdjacentFree(bs'))
        && (forall b | b in Live(blocks) :: b in All(bs') && Live(blocks)[b] <= All(bs')[b])
      ensures WordsFrom(mem, p, blocks[p].size - 8)
    {
      hide CoreOf, Tiles, Live, All, Moves, NoAdjacentFree, WordsFrom, BlockSize, Redraws, MergeNext;
      TilesHere({});
      GrowMoves(blocks, First(), brk, p, size);
      PayloadWords(p);
    }

    lemma GrowMoves(bs: Blocks, first: int, end: int, p: int, size: nat)
      requires Tiles(bs, first, end) && p in Live(bs) && FreeNext(bs, p)
      requires bs[p].size + bs[Next(bs, p)].size >= BlockSize(size)
      ensures p in bs && Next(bs, p) in bs
      ensures var n, bs' := Next(bs, p), MergeNext(bs, p);
        && !bs[n].alloc && n != p && p + bs[p].size == n
        && Redraws(bs, first, end, {n}, bs', {}, p) && bs'[p] == Block(bs[p].size + bs[n].size, true)
        && Moves(bs, bs', p, p, size) && (NoAdjacentFree(bs) ==> NoAdjacentFree(bs'))
        && (forall b | b in Live(bs) :: b in All(bs') && Live(bs)[b] <= All(bs')[b])
    {
      hide NoAdjacentFree, BlockSize, Tiles, MergeNext, Redraws, Live, All;
      LiveIs(bs, p);
      GrowLive(bs, first, end, p);
      TiledSizes(bs, first, end, p);
      MergedBlocks(bs, p);
      GrowRedraws(bs, MergeNext(bs, p), first, end, p);
      GrowCovers(bs, p);
      MovesGrown(bs, MergeNext(bs, p), p, size);
    }

    lemma LiveIs(bs: Blocks, p: int)
      ensures p in Live(bs) <==> p in bs && bs[p].alloc
      ensures p in Live(bs) ==> Live(bs)[p] == bs[p].size
    {
    }

    lemma MergedBlocks(bs: Blocks, p: int)
      requires p in bs && Next(bs, p) in bs && bs[p].size > 0
      ensures var n, bs' := Next(bs, p), MergeNext(bs, p);
        && n !in bs' && p in bs' && bs'[p] == Block(bs[p].size + bs[n].size, bs[p].alloc)
        && (forall x | x in bs && x != n && x != p :: x in bs' && bs'[x] == bs[x])
        && (forall x | x in bs' && x != p :: x in bs && bs'[x] == bs[x])
    {
    }

    lemma GrowRedraws(bs: Blocks, bs': Blocks, first: int, end: int, p: int)
      requires p in bs && FreeNext(bs, p) && bs[p].alloc && Tiles(bs', first, end)
      requires var n := Next(bs, p);
        && n != p && n !in bs' && p in bs' && bs'[p] == Block(bs[p].size + bs[n].size, bs[p].alloc)
        && (forall x | x in bs && x != n && x != p :: x in bs' && bs'[x] == bs[x])
        && (forall x | x in bs' && x != p :: x in bs && bs'[x] == bs[x])
      ensures Redraws(bs, first, end, {Next(bs, p)}, bs', {}, p)
    {
      hide Tiles;
    }

    lemma GrowCovers(bs: Blocks, p: int)
      requires p in bs && FreeNext(bs, p) && bs[p].size > 0
      ensures var bs' := MergeNext(bs, p); forall b | b in Live(bs) :: b in All(bs') && Live(bs)[b] <= All(bs')[b]
    {
    }

    lemma MovesGrown(bs: Blocks, bs': Blocks, p: int, size: nat)
      requires p in bs && p in bs' && bs'[p].alloc && bs'[p].size >= BlockSize(size)
      requires Live(bs') == Live(bs)[p := bs'[p].size]
      ensures Moves(bs, bs', p, p, size)
    {
      hide Live;
      assert (Live(bs) - {p})[p := bs'[p].size] == Live(bs)[p := bs'[p].size];
    }

    lemma GrowPreserves(m: Memory, m': Memory, m'': Memory, bs: Blocks, bs': Blocks, p: int, size: nat)
      requires p in Live(bs) && bs[p].size < BlockSize(size) && WordsFrom(m, p, bs[p].size - 8)
      requires PayloadsKept(m, m', Live(bs)) && PayloadsKept(m', m'', All(bs'))
      requires forall b | b in Live(bs) :: b in All(bs') && Live(bs)[b] <= All(bs')[b]
      ensures Preserves(m, m'', bs, p, p, size)
    {
      KeptSubset(m', m'', All(bs'), Live(bs));
      KeptTransitive(m, m', m'', Live(bs));
      KeptSubset(m, m'', Live(bs), Live(bs) - {p});
      PrefixKept(m, m'', Live(bs), p, Min(bs[p].size - 8, size));
    }

    /** Growing in place into the free block that follows. */
    method ReallocGrow(ptr: int, stop: int, c: nat, ghost size: nat)
      requires Valid() && ptr in Live(blocks) && FreeNext(blocks, ptr) && stop == Next(blocks, ptr)
      requires blocks[ptr].size < BlockSize(size) <= c && c == blocks[ptr].size + blocks[stop].size
      modifies this
      ensures Valid() && ptr in old(blocks) && Moves(old(blocks), blocks, ptr, ptr, size)
      ensures brk == old(brk) && blocks == MergeNext(old(blocks), ptr) && lists == Unlisted(old(lists), {stop})
      ensures Preserves(old(mem), mem, old(blocks), ptr, ptr, size)
      ensures NoAdjacentFree(old(blocks)) ==> NoAdjacentFree(blocks)
    {
      hide CoreOf, Tiles, Valid, Live, PayloadsKept, Preserves, Moves, NoAdjacentFree, BlockSize, Redraws, MergeNext,
        WordsFrom, All, LinksOnly, WordIs, KeepsWord, Unlisted, Min, Max;
      GrowOutcome(ptr, size);
      ghost var m0, bs0, bs' := mem, blocks, MergeNext(blocks, ptr);
      ValidParts();
      RemoveFreeBlockFromList(stop, {});
      assert {} + {stop} == {stop};
      WordKept(m0, mem, brk - 4, Tag(0, true));
      ghost var m1 := mem;
      StillTagged({stop}, stop);
      PutTagsAt(ptr - 4, Ftrp(mem, stop), c, true, ptr, {stop}, bs', {}, 0);
      WordKept(m1, mem, brk - 4, Tag(0, true));
      ValidIs();
      GrowPreserves(m0, m1, mem, bs0, bs', ptr, size);
    }

    lemma ValidParts()
      requires Valid()
      ensures Core({}) && WordIs(mem, brk - 4, Tag(0, true))
    {
    }

    // ... and moving.

    /** The two memories differ at most in the payload of block p. */
    ghost predicate OnlyPayload(m: Memory, m': Memory, bs: Blocks, p: int)
      requires p in bs
    {
      m'.Keys == m.Keys && forall a | a in m && (a < p || a + 8 >= p + bs[p].size) :: m'[a] == m[a]
    }

    /** Writing into a live payload is none of the allocator's business. */
    lemma StoreKeepsCore(m: Memory, m': Memory, p: int)
      requires CoreOf(m, brk, freeListp, blocks, lists, {}) && WordIs(m, brk - 4, Tag(0, true))
      requires p in Live(blocks) && OnlyPayload(m, m', blocks, p)
      ensures CoreOf(m', brk, freeListp, blocks, lists, {}) && WordIs(m', brk - 4, Tag(0, true))
      ensures PayloadsKept(m, m', Live(blocks) - {p})
    {
      StoreKeepsTags(m, m', blocks, p, First(), brk);
      StoreKeepsLists(m, m', p);
    }

    lemma StoreKeepsTags(m: Memory, m': Memory, bs: Blocks, p: int, first: int, end: int)
      requires Tiles(bs, first, end) && Tagged(m, bs) && p in bs && OnlyPayload(m, m', bs, p)
      ensures Tagged(m', bs) && PayloadsKept(m, m', Live(bs) - {p})
    {
      hide Tag;
      forall b | b in bs
        ensures m'[b - 4] == m[b - 4] && m'[b + bs[b].size - 8] == m[b + bs[b].size - 8]
      {
        StoreElsewhere(m, m', bs, p, b, b - 4);
        StoreElsewhere(m, m', bs, p, b, b + bs[b].size - 8);
      }
      StoreKeepsPayloads(m, m', bs, p);
    }

    /** Outside its own payload, a block keeps every word. */
    lemma StoreElsewhere(m: Memory, m': Memory, bs: Blocks, p: int, b: int, a: int)
      requires Apart(bs) && p in bs && OnlyPayload(m, m', bs, p) && b in bs && b - 4 <= a < b + bs[b].size - 4 && a in m
      requires b != p || a < b || a + 8 >= b + bs[b].size
      ensures a in m' && m'[a] == m[a]
    {
    }

    lemma StoreKeepsPayloads(m: Memory, m': Memory, bs: Blocks, p: int)
      requires Apart(bs) && p in bs && OnlyPayload(m, m', bs, p)
      ensures PayloadsKept(m, m', Live(bs) - {p})
    {
      var live := Live(bs) - {p};
      forall b: int, a: int {:trigger live[b], m'[a]} | b in live && b <= a && a + 8 < b + live[b] && a in m
        ensures m'[a] == m[a]
      {
        StoreElsewhere(m, m', bs, p, b, a);
      }
    }

    lemma StoreKeepsLists(m: Memory, m': Memory, p: int)
      requires CoreOf(m, brk, freeListp, blocks, lists, {}) && p in Live(blocks) && OnlyPayload(m, m', blocks, p)
      ensures AllLinked(m', freeListp, lists)
    {
      hide Tiles, Tagged, Linked, Tag, Mapped;
      TilesIn(m);
      forall i | 0 <= i < FREE_LIST_COUNT
        ensures Linked(m', freeListp[i], lists[i])
      {
        var s := lists[i];
        forall j, a {:trigger s[j], m'[a]} | 0 <= j < |s| && a in m && s[j] <= a < s[j] + LINKS
          ensures m'[a] == m[a]
        {
          assert s[j] in lists[i];
          assert Member(blocks, {}, linear, s[j], i);
          StoreElsewhere(m, m', blocks, p, s[j], a);
        }
        LinkedFrame(m, m', freeListp[i], s);
      }
    }

    lemma TilesIn(m: Memory)
      requires CoreOf(m, brk, freeListp, blocks, lists, {})
      ensures Apart(blocks)
    {
    }

    /** The client stores a word into a live payload. */
    method Store(p: int, offset: nat, w: Word)
      requires Valid() && p in Live(blocks) && offset % 4 == 0 && offset + 8 < blocks[p].size
      modifies `mem
      ensures Valid() && mem == old(mem)[p + offset := w] && PayloadsKept(old(mem), mem, Live(blocks) - {p})
    {
      hide CoreOf, PayloadsKept, Live, Valid;
      StoreFacts(p, offset, w);
      mem := mem[p + offset := w];
      ValidIs();
    }

    lemma StoreFacts(p: int, offset: nat, w: Word)
      requires Valid() && p in Live(blocks) && offset % 4 == 0 && offset + 8 < blocks[p].size
      ensures p + offset in mem
      ensures var m' := mem[p + offset := w];
        && CoreOf(m', brk, freeListp, blocks, lists, {}) && WordIs(m', brk - 4, Tag(0, true))
        && PayloadsKept(mem, m', Live(blocks) - {p})
    {
      PayloadWords(p);
      Aligned4(p, offset);
      var m' := mem[p + offset := w];
      assert m'.Keys == mem.Keys;
      StoreKeepsCore(mem, m', p);
    }

    /** Copies the first n bytes of live block src into live block dst. */
    method CopyPayload(dst: int, src: int, n: nat)
      requires Valid() && dst in Live(blocks) && src in Live(blocks) && dst != src
      requires n + 8 <= blocks[dst].size && n + 8 <= blocks[src].size
      modifies `mem
      ensures Valid() && SameBytes(old(mem), src, mem, dst, n) && PayloadsKept(old(mem), mem, Live(blocks) - {dst})
    {
      hide CoreOf, PayloadsKept, Live, Valid, WordsCopied, SameBytes, Tiles, Apart;
      CopyRoom(dst, src, n);
      ValidParts();
      ghost var m := mem;
      MemCpy(dst, src, n);
      CopiedBytes(m, mem, dst, src, n);
      CopyInside(m, mem, blocks, dst, src, n);
      StoreKeepsCore(m, mem, dst);
      ValidIs();
    }

    lemma CopyRoom(dst: int, src: int, n: nat)
      requires Valid() && dst in Live(blocks) && src in Live(blocks) && dst != src
      requires n + 8 <= blocks[dst].size && n + 8 <= blocks[src].size
      ensures dst in blocks && dst % 4 == 0 && src % 4 == 0 && (dst + n + 4 <= src || src + n + 4 <= dst)
      ensures blocks[dst].size % 8 == 0
      ensures forall a {:trigger a in mem} | dst <= a < dst + n && a % 4 == 0 :: a in mem
      ensures forall a {:trigger a in mem} | src <= a < src + n && a % 4 == 0 :: a in mem
    {
      PayloadWords(dst);
      PayloadWords(src);
    }

    lemma CopyInside(m: Memory, m': Memory, bs: Blocks, dst: int, src: int, n: nat)
      requires dst in bs && WordsCopied(m, m', dst, src, n) && n + 8 <= bs[dst].size
      ensures OnlyPayload(m, m', bs, dst)
    {
    }

    /** Moving allocates a block like any request and frees the old one after it. */
    ghost predicate MovedTo(h: Layout, h': Layout, ptr: int, p: int, size: nat) {
      exists mid: Layout :: ptr in mid.blocks && Served(h, mid, p, size) && FreedTo(mid, ptr, h')
    }

    /** Moving: a new block, a copy of the common prefix, and the old block freed. */
    method ReallocMove(ptr: int, size: nat) returns (p: int)
      requires Valid() && Representable(brk, size) && ptr in Live(blocks) && blocks[ptr].size < BlockSize(size)
      modifies this
      ensures Valid() && ptr in old(blocks)
      ensures p == NULL ==> unchanged(this)
      ensures p == NULL <==> Exhausted(old(blocks), old(brk), size)
      ensures p != ptr && brk >= old(brk)
      ensures p != NULL ==> MovedTo(old(Now()), Now(), ptr, p, size)
      ensures p != NULL ==> Moves(old(blocks), blocks, ptr, p, size) && Preserves(old(mem), mem, old(blocks), ptr, p, size)
      ensures NoAdjacentFree(old(blocks)) ==> NoAdjacentFree(blocks)
    {
      hide CoreOf, Tiles, Valid, Live, PayloadsKept, Preserves, Moves, NoAdjacentFree, BlockSize, SameBytes,
        Exhausted, Allocates, Served, FreedTo, WordsFrom, Min, Max;
      LiveBlock(ptr);
      PayloadWords(ptr);
      RequestPositive(blocks[ptr].size, size);
      var currentSize := SizeOf(mem[ptr - 4]);
      ghost var m0, bs0 := mem, blocks;
      p := MmMalloc(size);
      if p == NULL {
        return;
      }
      ghost var m1, bs1 := mem, blocks;
      MoveRoom(bs0, bs1, ptr, p, size);
      PayloadWords(p);
      var copySize := Min(currentSize - 8, size);
      CopyPayload(p, ptr, copySize);
      ghost var m2 := mem;
      MmFree(ptr);
      MoveDone(m0, m1, m2, mem, bs0, bs1, blocks, ptr, p, size);
    }

    lemma RequestPositive(n: nat, size: nat)
      requires MIN_BLOCK <= n < BlockSize(size)
      ensures size > 0
    {
    }

    lemma MoveRoom(bs: Blocks, bs': Blocks, ptr: int, p: int, size: nat)
      requires ptr in Live(bs) && Allocates(bs, bs', p, size) && bs[ptr].size < BlockSize(size) && bs[ptr].size >= 8
      ensures ptr in Live(bs') && p in Live(bs') && ptr != p && p in bs' && ptr in bs' && bs'[ptr].size == bs[ptr].size
      ensures var n := Min(bs[ptr].size - 8, size); 0 <= n && n + 8 <= bs'[p].size && n + 8 <= bs'[ptr].size
    {
      assert Live(bs')[ptr] == Live(bs)[ptr];
    }

    lemma MoveDone(m0: Memory, m1: Memory, m2: Memory, m3: Memory, bs0: Blocks, bs1: Blocks, bs2: Blocks, ptr: int, p: int, size: nat)
      requires ptr in Live(bs0) && Allocates(bs0, bs1, p, size) && bs0[ptr].size < BlockSize(size) && bs0[ptr].size >= 8
      requires WordsFrom(m0, ptr, bs0[ptr].size - 8) && p in bs1 && WordsFrom(m1, p, bs1[p].size - 8)
      requires PayloadsKept(m0, m1, Live(bs0))
      requires SameBytes(m1, ptr, m2, p, Min(bs0[ptr].size - 8, size)) && PayloadsKept(m1, m2, Live(bs1) - {p})
      requires Live(bs2) == Live(bs1) - {ptr} && PayloadsKept(m2, m3, Live(bs2))
      ensures Moves(bs0, bs2, ptr, p, size) && Preserves(m0, m3, bs0, ptr, p, size)
    {
      MoveRoom(bs0, bs1, ptr, p, size);
      var n, others := Min(bs0[ptr].size - 8, size), Live(bs0) - {ptr};
      assert Moves(bs0, bs2, ptr, p, size) by {
        assert p in Live(bs2) && Live(bs2)[p] == bs1[p].size;
        assert Live(bs2)[p] == bs2[p].size;
      }
      KeptSubset(m0, m1, Live(bs0), others);
      KeptSubset(m1, m2, Live(bs1) - {p}, others);
      KeptSubset(m2, m3, Live(bs2), others);
      KeptTransitive(m0, m1, m2, others);
      KeptTransitive(m0, m2, m3, others);
      PrefixKept(m0, m1, Live(bs0), ptr, n);
      SameBytesTransitive(m0, ptr, m1, ptr, m2, p, n);
      PrefixKept(m2, m3, Live(bs2), p, n);
      SameBytesTransitive(m0, ptr, m2, p, m3, p, n);
    }

    /** Shrinking splits something off in front of a free block. */
    ghost predicate LeavesNeighbours(bs: Blocks, p: int, size: nat) {
      p in bs && bs[p].alloc && size > 0 && bs[p].size >= BlockSize(size) + MIN_BLOCK && FreeNext(bs, p)
    }

    /** The requests that a returning realloc answers with NULL. */
    ghost predicate Refused(bs: Blocks, brk: int, p: int, size: nat) {
      || size == 0
      || (p == NULL && Exhausted(bs, brk, size))
      || (p != NULL && Tiles(bs, First(), brk) && p in bs && bs[p].size < BlockSize(size) && Exhausted(bs, brk, size)
          && Scan(bs, First(), brk, p, bs[p].size, BlockSize(size)).0 == NULL)
    }

    /** Growing has to absorb two or more free blocks. */
    ghost predicate Overshoots(bs: Blocks, brk: int, p: int, size: nat) {
      && Tiles(bs, First(), brk) && p in bs && bs[p].alloc && size > 0
      && bs[p].size < BlockSize(size) && ScanOvershoots(bs, First(), brk, p, BlockSize(size))
    }

    /** Shrinking and growing happen in place where they can: the block split, or joined with its free successor; else the block moves. */
    ghost predicate InPlace(h: Layout, h': Layout, ptr: int, p: int, size: nat)
      requires ptr in h.blocks
    {
      var need, n := BlockSize(size), Next(h.blocks, ptr);
      if h.blocks[ptr].size >= need then p == ptr && h' == PlacedAt(h, ptr, need)
      else if FreeNext(h.blocks, ptr) && h.blocks[ptr].size + h.blocks[n].size >= need
      then p == ptr && h' == Layout(MergeNext(h.blocks, ptr), Unlisted(h.lists, {n}), h.brk)
      else p != ptr && (p != NULL ==> MovedTo(h, h', ptr, p, size))
    }

    method MmRealloc(ptr: int, size: nat) returns (r: Outcome)
      requires Valid() && Representable(brk, size) && (ptr == NULL || ptr in Live(blocks))
      modifies this
      ensures r.Loops? <==> Overshoots(old(blocks), old(brk), ptr, size)
      ensures r.Returned? ==> Valid() && Reallocated(old(mem), mem, old(blocks), blocks, ptr, r.p, size)
      ensures r.Returned? ==> brk >= old(brk)
      ensures r.Returned? ==> (r.p == NULL <==> Refused(old(blocks), old(brk), ptr, size))
      ensures r.Returned? && r.p == NULL && !(ptr != NULL && size == 0) ==> unchanged(this)
      ensures r.Returned? && ptr != NULL && size == 0 ==>
        ptr in old(blocks) && FreedTo(old(Now()), ptr, Now())
      ensures r.Returned? && ptr != NULL && size > 0 ==>
        ptr in old(blocks) && InPlace(old(Now()), Now(), ptr, r.p, size)
      ensures r.Returned? && ptr == NULL && r.p != NULL ==> Served(old(Now()), Now(), r.p, size)
      ensures r.Returned? && NoAdjacentFree(old(blocks)) ==> (NoAdjacentFree(blocks) <==> !LeavesNeighbours(old(blocks), ptr, size))
    {
      hide CoreOf, Tiles, Valid, Live, PayloadsKept, Preserves, Moves, NoAdjacentFree, BlockSize, Allocates,
        Exhausted, Served, FreedTo, MovedTo, PlacedAt, Unlisted, ScanOvershoots, First;
      NullIsNoBlock();
      if ptr == NULL {
        var p := MmMalloc(size);
        return Returned(p);
      }
      LiveBlock(ptr);
      TilesNow();
      if size == 0 {
        MmFree(ptr);
        return Returned(NULL);
      }
      SizeFacts(size);
      var blockSize := WrappedBlockSize(size);
      BlockSizeWraps(size);
      var currentSize := SizeOf(mem[ptr - 4]);
      if currentSize >= blockSize {
        ReallocShrink(ptr, size);
        return Returned(ptr);
      }
      var stop, c := ScanForward(ptr, blockSize);
      OvershootIs(ptr, size, stop, c);
      TagsAfter(ptr);
      if stop != NULL {
        if NextBlock(mem, ptr) != stop {
          return Loops;
        }
        ReallocGrow(ptr, stop, c, size);
        return Returned(ptr);
      }
      var p := ReallocMove(ptr, size);
      return Returned(p);
    }

    /** The contract of a returning realloc, case by case. */
    ghost predicate Reallocated(m: Memory, m': Memory, bs: Blocks, bs': Blocks, ptr: int, p: int, size: nat) {
      if ptr == NULL then p != NULL ==> Allocates(bs, bs', p, size) && PayloadsKept(m, m', Live(bs))
      else if size == 0 then p == NULL && Live(bs') == Live(bs) - {ptr} && PayloadsKept(m, m', Live(bs'))
      else p != NULL ==> ptr in bs && Moves(bs, bs', ptr, p, size) && Preserves(m, m', bs, ptr, p, size)
    }

    lemma NullIsNoBlock()
      requires Valid()
      ensures NULL !in blocks
    {
    }

    lemma OvershootIs(p: int, size: nat, stop: int, c: nat)
      requires Valid() && p in blocks && blocks[p].size < BlockSize(size)
      requires (stop, c) == Scan(blocks, First(), brk, p, blocks[p].size, BlockSize(size))
      ensures Tiles(blocks, First(), brk)
      ensures ScanOvershoots(blocks, First(), brk, p, BlockSize(size)) <==> stop != NULL && stop != Next(blocks, p)
      ensures stop != NULL && stop == Next(blocks, p) ==>
        FreeNext(blocks, p) && c == blocks[p].size + blocks[stop].size && BlockSize(size) <= c
    {
      ScanResult(blocks, First(), brk, p, blocks[p].size, BlockSize(size));
    }
  }
}
