/**
 The heap's memory: 32-bit words at 4-aligned addresses, boundary tags
 (size | alloc bit) and 64-bit pointers stored in two words.
 */
module HeapMemory {
  import opened HeapLayout

  type Word = w: nat | w < 0x1_0000_0000

  type Memory = map<int, Word>

  const NULL := 0
  const LINKS := 16   // bytes at the start of a free payload that hold pred and succ

  type Pointer = p: nat | p < 0x1_0000_0000_0000_0000

  function Tag(size: nat, alloc: bool): Word
    requires size % 8 == 0 && size < 0x8000_0000
  {
    size + if alloc then 1 else 0
  }

  function SizeOf(w: Word): nat { w / 8 * 8 }

  predicate AllocOf(w: Word) { w % 2 == 1 }

  lemma TagRoundTrip(size: nat, alloc: bool)
    requires size % 8 == 0 && size < 0x8000_0000
    ensures SizeOf(Tag(size, alloc)) == size && AllocOf(Tag(size, alloc)) == alloc
  {
    var k := size / 8;
    var low := if alloc then 1 else 0;
    assert size == 8 * k;
    Eighths(k, low);
    Halves(4 * k, low);
  }

  lemma Eighths(k: nat, low: nat)
    requires low < 8
    ensures (8 * k + low) / 8 == k
  {
  }

  lemma Halves(k: nat, low: nat)
    requires low < 2
    ensures (2 * k + low) % 2 == low
  {
  }

  predicate HasPtr(mem: Memory, a: int) { a in mem && a + 4 in mem }

  function ReadPtr(mem: Memory, a: int): Pointer
    requires HasPtr(mem, a)
  {
    mem[a] as int + mem[a + 4] as int * 0x1_0000_0000
  }

  function WritePtr(mem: Memory, a: int, p: Pointer): (mem': Memory)
    requires HasPtr(mem, a)
    ensures mem'.Keys == mem.Keys
    ensures ReadPtr(mem', a) == p
    ensures forall x | x in mem && (x < a || x >= a + 8) :: mem'[x] == mem[x]
  {
    mem[a := p % 0x1_0000_0000][a + 4 := p / 0x1_0000_0000]
  }

  /** Header and footer of every block carry its size and its alloc bit. */
  ghost predicate Tagged(mem: Memory, bs: Blocks) {
    forall b | b in bs ::
      && bs[b].size % 8 == 0 && bs[b].size < 0x8000_0000
      && b - 4 in mem && mem[b - 4] == Tag(bs[b].size, bs[b].alloc)
      && b + bs[b].size - 8 in mem && mem[b + bs[b].size - 8] == Tag(bs[b].size, bs[b].alloc)
  }

  ghost predicate WordIs(mem: Memory, a: int, w: Word) { a in mem && mem[a] == w }

  /** Every word of [lo, hi) exists. */
  ghost predicate Mapped(mem: Memory, lo: int, hi: int) {
    forall a {:trigger a in mem} | lo <= a < hi && a % 4 == 0 :: a in mem
  }

  ghost predicate InLinks(bs: Blocks, a: int) {
    exists f :: f in bs && !bs[f].alloc && f <= a < f + LINKS
  }

  /** The two memories differ at most in the list pointers of free blocks. */
  ghost predicate LinksOnly(m: Memory, m': Memory, bs: Blocks) {
    m'.Keys == m.Keys && forall a | a in m && m[a] != m'[a] :: InLinks(bs, a)
  }

  /** The words of every live payload are the same in both memories. */
  ghost predicate PayloadsKept(m: Memory, m': Memory, live: map<int, nat>) {
    && m'.Keys == m.Keys
    && forall b: int, a: int {:trigger live[b], m'[a]} | b in live && b <= a && a + 8 < b + live[b] && a in m :: m'[a] == m[a]
  }

  lemma LinksAvoidPayloads(m: Memory, m': Memory, bs: Blocks, first: int, end: int)
    requires Tiles(bs, first, end) && LinksOnly(m, m', bs)
    ensures PayloadsKept(m, m', Live(bs))
  {
  }

  lemma LinksAvoidTags(m: Memory, m': Memory, bs: Blocks, first: int, end: int)
    requires Tiles(bs, first, end) && LinksOnly(m, m', bs) && Tagged(m, bs)
    ensures Tagged(m', bs)
  {
    forall b | b in bs
      ensures m'[b - 4] == m[b - 4] && m'[b + bs[b].size - 8] == m[b + bs[b].size - 8]
    {
      assert !InLinks(bs, b - 4) && !InLinks(bs, b + bs[b].size - 8);
    }
  }

  /** Words outside the tiled space, and the last header slot before end, are no list pointers. */
  lemma LinksStayInside(m: Memory, m': Memory, bs: Blocks, first: int, end: int, a: int)
    requires Tiles(bs, first, end) && LinksOnly(m, m', bs)
    requires a in m && (a < first || a >= end - 8)
    ensures m'[a] == m[a]
  {
    assert !InLinks(bs, a);
  }
}
