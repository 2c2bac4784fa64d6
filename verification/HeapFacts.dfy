/** Facts about blocks, tags and payloads that the allocator's steps share. */
module HeapFacts {
  import opened HeapLayout
  import opened HeapMemory
  import opened FreeLists

  /** Address and size of every block, free ones included. */
  ghost function All(bs: Blocks): map<int, nat> {
    map b | b in bs :: bs[b].size
  }

  /** Word addresses around an 8-aligned address. */
  lemma AlignedWords(b: int)
    requires b % 8 == 0
    ensures (b - 12) % 4 == 0 && (b - 8) % 4 == 0 && (b - 4) % 4 == 0 && b % 4 == 0
    ensures (b + 4) % 4 == 0 && (b + 8) % 4 == 0 && (b + 12) % 4 == 0
  {
  }

  lemma MappedWords(mem: Memory, lo: int, hi: int, b: int, size: nat)
    requires Mapped(mem, lo, hi) && lo % 8 == 0 && b % 8 == 0 && GoodSize(size) && lo + 8 <= b && b + size <= hi
    ensures HasPtr(mem, b) && HasPtr(mem, b + 8)
    ensures b - 8 in mem && b - 4 in mem && b + size - 8 in mem && b + size - 4 in mem
  {
    AlignedWords(b);
    AlignedSum(b, size);
    AlignedWords(b + size);
  }

  lemma AlignedSum(a: int, b: int)
    requires a % 8 == 0 && b % 8 == 0
    ensures (a + b) % 8 == 0
  {
  }

  ghost predicate Sound(bs: Blocks) {
    Apart(bs) && forall b | b in bs :: GoodSize(bs[b].size) && bs[b].size < 0x8000_0000
  }

  lemma RetagPayloads(mem: Memory, bs: Blocks, r: int, t: Word)
    requires Sound(bs) && r in bs && r - 4 in mem && r + bs[r].size - 8 in mem
    ensures PayloadsKept(mem, mem[r - 4 := t][r + bs[r].size - 8 := t], All(bs))
  {
  }

  /** Writing header and footer of block r tags it, and touches the payload of no block. */
  lemma Retag(mem: Memory, bs: Blocks, bs': Blocks, r: int)
    requires Sound(bs') && r in bs' && r - 4 in mem && r + bs'[r].size - 8 in mem
    requires forall x | x in bs' && x != r :: x in bs && bs'[x] == bs[x]
    requires Tagged(mem, bs)
    ensures var t: Word := Tag(bs'[r].size, bs'[r].alloc);
            var mem' := mem[r - 4 := t][r + bs'[r].size - 8 := t];
            Tagged(mem', bs') && PayloadsKept(mem, mem', All(bs'))
  {
    hide Tag, PayloadsKept;
    var t: Word := Tag(bs'[r].size, bs'[r].alloc);
    RetagPayloads(mem, bs', r, t);
    forall x | x in bs' && x != r
      ensures x - 4 !in {r - 4, r + bs'[r].size - 8} && x + bs'[x].size - 8 !in {r - 4, r + bs'[r].size - 8}
    {
      TagsApart(bs', x, r);
    }
  }

  lemma TagsApart(bs: Blocks, x: int, r: int)
    requires Apart(bs) && x in bs && r in bs && x != r && GoodSize(bs[x].size) && GoodSize(bs[r].size)
    ensures x - 4 !in {r - 4, r + bs[r].size - 8} && x + bs[x].size - 8 !in {r - 4, r + bs[r].size - 8}
  {
  }

  lemma KeptWord(m: Memory, m': Memory, live: map<int, nat>, b: int, a: int)
    requires PayloadsKept(m, m', live) && b in live && b <= a && a + 8 < b + live[b] && a in m
    ensures m'[a] == m[a]
  {
  }

  /** bs' redraws the block map around block r, which is on no list before or after. */
  ghost predicate Redraws(bs: Blocks, first: int, end: int, detached: set<int>, bs': Blocks, detached': set<int>, r: int) {
    && Tiles(bs', first, end) && r in bs' && (bs'[r].alloc || r in detached')
    && (forall x | x in bs' && x != r :: x in bs && bs'[x] == bs[x])
    && (forall x | x in bs && !bs[x].alloc && x !in detached :: x in bs' && bs'[x] == bs[x] && x !in detached')
    && (forall x | x in bs' && !bs'[x].alloc && x !in detached' :: x in bs && bs'[x] == bs[x] && x !in detached)
  }

  /** Inside a block, past the link words, no list update reaches. */
  lemma InteriorKept(m: Memory, m': Memory, bs: Blocks, r: int, a: int)
    requires Apart(bs) && LinksOnly(m, m', bs) && r in bs && r + LINKS <= a < r + bs[r].size && a in m
    ensures a in m' && m'[a] == m[a]
  {
    assert !InLinks(bs, a);
  }

  lemma RedrawsApart(bs: Blocks, first: int, end: int, detached: set<int>, bs': Blocks, detached': set<int>, r: int)
    requires Redraws(bs, first, end, detached, bs', detached', r)
    ensures Apart(bs') && r in bs'
  {
  }

  lemma MergeRedraws(bs: Blocks, first: int, end: int, b: int)
    requires Tiles(bs, first, end) && b in bs && !bs[b].alloc && FreeNext(bs, b)
    ensures Redraws(bs, first, end, {Next(bs, b), b}, MergeNext(bs, b), {b}, b)
    ensures Live(MergeNext(bs, b)) == Live(bs)
    ensures MergeNext(bs, b)[b] == Block(bs[b].size + bs[Next(bs, b)].size, false)
    ensures Next(bs, b) in bs && !bs[Next(bs, b)].alloc && Next(bs, b) != b
  {
    MergeTiles(bs, first, end, b);
    MergeKeepsLive(bs, b);
  }

  /** Joining three blocks at once. */
  lemma MergeThreeRedraws(bs: Blocks, first: int, end: int, p: int, b: int)
    requires Tiles(bs, first, end) && b in bs && !bs[b].alloc && FreeNext(bs, b) && FreePrevious(bs, p, b)
    ensures var j := MergeNext(bs, b);
      && p in j && Next(j, p) == b && b in j && p < b
      && Redraws(bs, first, end, {b, Next(bs, b), p}, MergeNext(j, p), {p}, p)
      && Live(MergeNext(j, p)) == Live(bs)
      && MergeNext(j, p)[p] == Block(bs[b].size + bs[Next(bs, b)].size + bs[p].size, false)
  {
    var j := MergeNext(bs, b);
    MergeTiles(bs, first, end, b);
    MergeKeepsLive(bs, b);
    assert Next(j, p) == b;
    MergeTiles(j, first, end, p);
    MergeKeepsLive(j, p);
  }

  /** Live payloads and the word at a survive a step that writes tags only. */
  lemma TagsKeep(m: Memory, m': Memory, m'': Memory, bs: Blocks, a: int, w: Word)
    requires PayloadsKept(m, m', Live(bs)) && PayloadsKept(m', m'', All(bs))
    requires WordIs(m', a, w) && KeepsWord(m', m'', a)
    ensures PayloadsKept(m, m'', Live(bs)) && WordIs(m'', a, w)
  {
    KeptSubset(m', m'', All(bs), Live(bs));
    KeptTransitive(m, m', m'', Live(bs));
  }

  ghost predicate KeepsWord(m: Memory, m': Memory, a: int) {
    a in m ==> WordIs(m', a, m[a])
  }

  /** Lists survive a change that touches no payload of the blocks on them. */
  lemma KeptLinked(m: Memory, m': Memory, heads: seq<int>, lists: seq<seq<int>>, bs: Blocks)
    requires AllLinked(m, heads, lists) && PayloadsKept(m, m', All(bs))
    requires forall i, x | 0 <= i < FREE_LIST_COUNT && x in lists[i] :: x in bs && bs[x].size >= MIN_BLOCK
    ensures AllLinked(m', heads, lists)
  {
    forall i | 0 <= i < FREE_LIST_COUNT
      ensures Linked(m', heads[i], lists[i])
    {
      var s := lists[i];
      forall j, a {:trigger s[j], m'[a]} | 0 <= j < |s| && a in m && s[j] <= a < s[j] + LINKS
        ensures m'[a] == m[a]
      {
        assert s[j] in lists[i];
        assert a in m'.Keys && bs[s[j]].size >= MIN_BLOCK;
        KeptWord(m, m', All(bs), s[j], a);
      }
      LinkedFrame(m, m', heads[i], s);
    }
  }

  /** The filing depends only on the free blocks outside the detached set. */
  lemma SameFiled(lists: seq<seq<int>>, bs: Blocks, detached: set<int>, bs': Blocks, detached': set<int>, linear: nat -> nat)
    requires Filed(lists, bs, detached, linear)
    requires forall x | x in bs && !bs[x].alloc && x !in detached :: x in bs' && bs'[x] == bs[x] && x !in detached'
    requires forall x | x in bs' && !bs'[x].alloc && x !in detached' :: x in bs && bs'[x] == bs[x] && x !in detached
    ensures Filed(lists, bs', detached', linear)
  {
  }

  lemma KeptSubset(m: Memory, m': Memory, live: map<int, nat>, live': map<int, nat>)
    requires PayloadsKept(m, m', live)
    requires forall b | b in live' :: b in live && live'[b] <= live[b]
    ensures PayloadsKept(m, m', live')
  {
    forall b: int, a: int {:trigger live'[b], m'[a]} | b in live' && b <= a && a + 8 < b + live'[b] && a in m
      ensures m'[a] == m[a]
    {
      assert b in live && a + 8 < b + live[b];
    }
  }

  lemma KeptReflexive(m: Memory, live: map<int, nat>)
    ensures PayloadsKept(m, m, live)
  {
  }

  lemma KeptTransitive(m: Memory, m': Memory, m'': Memory, live: map<int, nat>)
    ensures PayloadsKept(m, m', live) && PayloadsKept(m', m'', live) ==> PayloadsKept(m, m'', live)
  {
    if PayloadsKept(m, m', live) && PayloadsKept(m', m'', live) {
      forall b: int, a: int {:trigger live[b], m''[a]} | b in live && b <= a && a + 8 < b + live[b] && a in m
        ensures m''[a] == m[a]
      {
        assert m'[a] == m[a];
      }
    }
  }

  /** Round up to the next multiple of 8. */
  function Align(size: nat): (r: nat)
    ensures r % 8 == 0 && size <= r < size + 8
  {
    (size + 7) / 8 * 8
  }

  /** The lists carry over to a redrawn block map. */
  lemma RedrawLists(mem: Memory, mem': Memory, heads: seq<int>, lists: seq<seq<int>>, bs: Blocks, detached: set<int>,
                    bs': Blocks, detached': set<int>, linear: nat -> nat)
    requires AllLinked(mem, heads, lists) && Filed(lists, bs, detached, linear)
    requires PayloadsKept(mem, mem', All(bs'))
    requires forall x | x in bs && !bs[x].alloc && x !in detached :: x in bs' && bs'[x] == bs[x] && x !in detached'
    requires forall x | x in bs' && !bs'[x].alloc && x !in detached' :: x in bs && bs'[x] == bs[x] && x !in detached
    ensures AllLinked(mem', heads, lists) && Filed(lists, bs', detached', linear)
  {
    SameFiled(lists, bs, detached, bs', detached', linear);
    forall i, x | 0 <= i < FREE_LIST_COUNT && x in lists[i]
      ensures x in bs' && bs'[x].size >= MIN_BLOCK
    {
      assert Member(bs', detached', linear, x, i);
    }
    KeptLinked(mem, mem', heads, lists, bs');
  }

  function Max(a: nat, b: nat): (m: nat)
    ensures a <= m && b <= m && (m == a || m == b)
  {
    if a > b then a else b
  }

  function Min(a: int, b: int): (m: int)
    ensures m <= a && m <= b && (m == a || m == b)
  {
    if a > b then b else a
  }

  /** Block size for a request: two pointers' worth of payload at least, plus the tags. */
  function BlockSize(size: nat): (r: nat)
    ensures GoodSize(r) && size + 8 <= r
    ensures r < size + 16 || r == MIN_BLOCK
  {
    Align((if size > LINKS then size else LINKS) + 8)
  }

  const SIZE_T := 0x1_0000_0000_0000_0000   // one more than the largest size_t

  /** BLOCK_SIZE as size_t arithmetic computes it. */
  function WrappedBlockSize(size: nat): nat {
    ((if size > LINKS then size else LINKS) + 8 + 7) % SIZE_T / 8 * 8
  }

  /** That is the block size up to 2^64 - 16, and 0 or 8 for the 15 larger sizes. */
  lemma BlockSizeWraps(size: nat)
    requires size < 0x1_0000_0000_0000_0000
    ensures WrappedBlockSize(size) == BlockSize(size) <==> size <= 0xffff_ffff_ffff_fff0
    ensures size > 0xffff_ffff_ffff_fff0 ==> WrappedBlockSize(size) == 0 || WrappedBlockSize(size) == 8
  {
  }

  /** Conversion of a size_t to a 32-bit int. */
  function ToInt(n: nat): (r: int)
    ensures -0x8000_0000 <= r < 0x8000_0000 && (n - r) % 0x1_0000_0000 == 0
  {
    var low := n % 0x1_0000_0000;
    if low < 0x8000_0000 then low else low - 0x1_0000_0000
  }

  /** A size that does not survive is made negative or smaller. */
  lemma ToIntCuts(n: nat)
    ensures n < 0x8000_0000 ==> ToInt(n) == n
    ensures ToInt(n) <= n && (0 <= ToInt(n) < n ==> n >= 0x1_0000_0000)
  {
  }
}
