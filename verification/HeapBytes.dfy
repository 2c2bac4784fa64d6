/** Bytes of the word memory, and what copying bytes between 4-aligned places means. */
module HeapBytes {
  import opened HeapMemory

  function Pow256(k: nat): (p: nat)
    requires k <= 4
    ensures p > 0
  {
    if k == 0 then 1 else if k == 1 then 0x100 else if k == 2 then 0x1_0000 else if k == 3 then 0x100_0000 else 0x1_0000_0000
  }

  /** Byte k of a little-endian word; in the word at address w it is the byte at address w + k. */
  function ByteOf(w: Word, k: nat): nat
    requires k < 4
  {
    w / Pow256(k) % 256
  }

  function Compose(b0: nat, b1: nat, b2: nat, b3: nat): Word
    requires b0 < 256 && b1 < 256 && b2 < 256 && b3 < 256
  {
    b0 + 0x100 * b1 + 0x1_0000 * b2 + 0x100_0000 * b3
  }

  lemma LowByte(b: nat, rest: nat)
    requires b < 256
    ensures (b + 0x100 * rest) / 0x100 == rest && (b + 0x100 * rest) % 256 == b
  {
  }

  lemma ComposedBytes(b0: nat, b1: nat, b2: nat, b3: nat)
    requires b0 < 256 && b1 < 256 && b2 < 256 && b3 < 256
    ensures var w := Compose(b0, b1, b2, b3);
            ByteOf(w, 0) == b0 && ByteOf(w, 1) == b1 && ByteOf(w, 2) == b2 && ByteOf(w, 3) == b3
  {
    var w := Compose(b0, b1, b2, b3);
    var w1, w2 := b1 + 0x100 * b2 + 0x1_0000 * b3, b2 + 0x100 * b3;
    LowByte(b0, w1);
    LowByte(b1, w2);
    LowByte(b2, b3);
    assert w / 0x100 == w1 && w1 / 0x100 == w2 && w2 / 0x100 == b3;
    DivideTwice(w);
  }

  lemma DivideTwice(w: nat)
    ensures w / 0x100 / 0x100 == w / 0x1_0000 && w / 0x100 / 0x100 / 0x100 == w / 0x100_0000
  {
  }

  /** Little-endian: byte k of a word counts 256^k. */
  lemma BytesMakeWord(w: Word)
    ensures w == ByteOf(w, 0) + 0x100 * ByteOf(w, 1) + 0x1_0000 * ByteOf(w, 2) + 0x100_0000 * ByteOf(w, 3)
  {
    var w1 := w / 0x100;
    var w2 := w1 / 0x100;
    DivideTwice(w);
    SplitByte(w);
    SplitByte(w1);
    SplitByte(w2);
    assert w2 / 0x100 < 0x100 && w2 / 0x100 % 256 == w2 / 0x100;
  }

  lemma SplitByte(x: nat)
    ensures x == 0x100 * (x / 0x100) + x % 256
  {
  }

  /** The low r bytes of s over the high bytes of d. */
  function Merge(d: Word, s: Word, r: nat): Word
    requires 1 <= r <= 3
  {
    Compose(ByteOf(s, 0), ByteOf(if r >= 2 then s else d, 1), ByteOf(if r >= 3 then s else d, 2), ByteOf(d, 3))
  }

  lemma MergeBytes(d: Word, s: Word, r: nat, k: nat)
    requires 1 <= r <= 3 && k < 4
    ensures ByteOf(Merge(d, s, r), k) == if k < r then ByteOf(s, k) else ByteOf(d, k)
  {
    ComposedBytes(ByteOf(s, 0), ByteOf(if r >= 2 then s else d, 1), ByteOf(if r >= 3 then s else d, 2), ByteOf(d, 3));
  }

  /** Word w with byte k replaced by b. */
  function SetByte(w: Word, k: nat, b: nat): Word
    requires k < 4 && b < 256
  {
    Compose(if k == 0 then b else ByteOf(w, 0), if k == 1 then b else ByteOf(w, 1),
            if k == 2 then b else ByteOf(w, 2), if k == 3 then b else ByteOf(w, 3))
  }

  lemma SetByteBytes(w: Word, k: nat, b: nat, j: nat)
    requires k < 4 && b < 256 && j < 4
    ensures ByteOf(SetByte(w, k, b), j) == if j == k then b else ByteOf(w, j)
  {
    ComposedBytes(if k == 0 then b else ByteOf(w, 0), if k == 1 then b else ByteOf(w, 1),
                  if k == 2 then b else ByteOf(w, 2), if k == 3 then b else ByteOf(w, 3));
  }

  /** The byte at q + o + k in m' is the one at p + o + k in m. */
  ghost predicate SameByte(m: Memory, p: int, m': Memory, q: int, o: int, k: nat)
    requires k < 4
  {
    p + o in m && q + o in m' && ByteOf(m'[q + o], k) == ByteOf(m[p + o], k)
  }

  /** The n bytes from q on in m' are those from p on in m. */
  ghost predicate SameBytes(m: Memory, p: int, m': Memory, q: int, n: int) {
    forall o: int, k: nat | 0 <= o && o % 4 == 0 && k < 4 && o + k < n :: SameByte(m, p, m', q, o, k)
  }

  /** m' is m with the n / 4 whole words and the rest of the last one copied from src to dst. */
  ghost predicate WordsCopied(m: Memory, m': Memory, dst: int, src: int, n: nat) {
    && m'.Keys == m.Keys
    && (forall a: int {:trigger m'[a]} | a in m && (a < dst || dst + n <= a) :: m'[a] == m[a])
    && (forall a: int {:trigger m'[a]} | a in m && a % 4 == 0 :: WordCopied(m, m', dst, src, n, a))
  }

  ghost predicate WordCopied(m: Memory, m': Memory, dst: int, src: int, n: nat, a: int)
    requires a in m && a in m'
  {
    && (dst <= a && a + 4 <= dst + n ==> src + (a - dst) in m && m'[a] == m[src + (a - dst)])
    && (dst <= a < dst + n < a + 4 ==> src + (a - dst) in m && m'[a] == Merge(m[a], m[src + (a - dst)], dst + n - a))
  }

  lemma NothingCopied(m: Memory, dst: int, src: int)
    ensures WordsCopied(m, m, dst, src, 0)
  {
  }

  lemma CopyWord(m: Memory, m': Memory, dst: int, src: int, i: nat)
    requires WordsCopied(m, m', dst, src, i) && dst % 4 == 0 && src % 4 == 0 && i % 4 == 0
    requires src + i + 4 <= dst || dst + i + 4 <= src
    requires dst + i in m && src + i in m
    ensures m'[src + i] == m[src + i]
    ensures WordsCopied(m, m'[dst + i := m'[src + i]], dst, src, i + 4)
  {
    hide Merge;
    Aligned4(dst, i);
    Aligned4(src, i);
    var m'' := m'[dst + i := m'[src + i]];
    assert m'[src + i] == m[src + i];
    forall a: int {:trigger m''[a]} | a in m && a % 4 == 0
      ensures WordCopied(m, m'', dst, src, i + 4, a)
    {
      assert WordCopied(m, m', dst, src, i, a);
      SameOrApart(a, dst + i);
    }
  }

  lemma CopyTail(m: Memory, m': Memory, dst: int, src: int, i: nat, n: nat)
    requires WordsCopied(m, m', dst, src, i) && dst % 4 == 0 && src % 4 == 0 && i % 4 == 0 && i < n < i + 4
    requires src + i + 4 <= dst || dst + i + 4 <= src
    requires dst + i in m && src + i in m
    ensures WordsCopied(m, m'[dst + i := Merge(m'[dst + i], m'[src + i], n - i)], dst, src, n)
  {
    hide Merge;
    Aligned4(dst, i);
    Aligned4(src, i);
    assert m'[src + i] == m[src + i] && m'[dst + i] == m[dst + i];
    var m'' := m'[dst + i := Merge(m'[dst + i], m'[src + i], n - i)];
    assert m''.Keys == m.Keys;
    forall a: int {:trigger m''[a]} | a in m && (a < dst || dst + n <= a)
      ensures m''[a] == m[a]
    {
      assert a != dst + i && m''[a] == m'[a];
    }
    forall a: int {:trigger m''[a]} | a in m && a % 4 == 0
      ensures WordCopied(m, m'', dst, src, n, a)
    {
      assert WordCopied(m, m', dst, src, i, a);
      SameOrApart(a, dst + i);
      if a == dst + i {
        assert src + (a - dst) == src + i && dst + n - a == n - i;
        assert m''[a] == Merge(m[a], m[src + i], n - i);
      }
    }
  }

  lemma Aligned4(a: int, b: int)
    requires a % 4 == 0 && b % 4 == 0
    ensures (a + b) % 4 == 0
  {
  }

  lemma SameOrApart(a: int, b: int)
    requires a % 4 == 0 && b % 4 == 0
    ensures a == b || a + 4 <= b || b + 4 <= a
  {
  }

  /** Copying words, the last one partly, copies the bytes. */
  lemma CopiedBytes(m: Memory, m': Memory, dst: int, src: int, n: nat)
    requires WordsCopied(m, m', dst, src, n) && dst % 4 == 0
    requires forall a {:trigger a in m} | dst <= a < dst + n && a % 4 == 0 :: a in m
    ensures SameBytes(m, src, m', dst, n)
  {
    forall o: int, k: nat | 0 <= o && o % 4 == 0 && k < 4 && o + k < n
      ensures SameByte(m, src, m', dst, o, k)
    {
      CopiedByte(m, m', dst, src, n, o, k);
    }
  }

  lemma CopiedByte(m: Memory, m': Memory, dst: int, src: int, n: nat, o: int, k: nat)
    requires WordsCopied(m, m', dst, src, n) && dst % 4 == 0
    requires forall a {:trigger a in m} | dst <= a < dst + n && a % 4 == 0 :: a in m
    requires 0 <= o && o % 4 == 0 && k < 4 && o + k < n
    ensures SameByte(m, src, m', dst, o, k)
  {
    hide Merge, ByteOf;
    Aligned4(dst, o);
    assert dst + o in m;
    assert WordCopied(m, m', dst, src, n, dst + o);
    if o + 4 > n {
      MergeBytes(m[dst + o], m[src + o], n - o, k);
    }
  }

  lemma SameBytesTransitive(m: Memory, p: int, m': Memory, q: int, m'': Memory, r: int, n: int)
    requires SameBytes(m, p, m', q, n) && SameBytes(m', q, m'', r, n)
    ensures SameBytes(m, p, m'', r, n)
  {
    forall o: int, k: nat | 0 <= o && o % 4 == 0 && k < 4 && o + k < n
      ensures SameByte(m, p, m'', r, o, k)
    {
      hide ByteOf;
      assert SameByte(m, p, m', q, o, k) && SameByte(m', q, m'', r, o, k);
    }
  }
}
