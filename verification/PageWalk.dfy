/**
 Four-level page tables as memory: tables are frames of 512 entries, reached from the
 root frame through the entries' base fields, and the processor's walk over them.
 */
module PageWalk {
  import opened Powers

  const ENTRIES: nat := 512
  const ADDRESS_SPACE: nat := 0x1_0000_0000_0000   // 48 bits
  const BASE_PAGE_SIZE: nat := 4096
  const FRAMES: nat := 0x10_0000_0000               // base_addr holds 36 bits

  datatype Option<T> = None | Some(value: T)

  /**
   The bits of an entry that the code uses. `base` is the 36-bit field of a directory entry; the
   18-bit and 27-bit fields of huge and large pages are its upper bits.
   */
  datatype Entry = Entry(present: bool, rw: bool, ps: bool, base: nat)

  const ZERO := Entry(false, false, false, 0)

  type Tables = map<nat, seq<Entry>>

  /** Indices from the root table down to a table. */
  type Path = seq<nat>

  datatype Target = Target(pa: nat, span: nat, writable: bool)

  /** Bytes reached through one entry of a table at depth d. */
  function Span(d: nat): (n: nat)
    requires d < 4
    ensures n > 0
  {
    if d == 0 then 0x80_0000_0000 else if d == 1 then 0x4000_0000 else if d == 2 then 0x20_0000 else 4096
  }

  /** Base frames in one entry's span. */
  function SpanFrames(d: nat): (n: nat)
    requires d < 4
    ensures n > 0 && n * 4096 == Span(d)
  {
    if d == 0 then 0x800_0000 else if d == 1 then 0x4_0000 else if d == 2 then 0x200 else 1
  }

  /** How many spans the address space has. */
  function SpanCount(d: nat): (n: nat)
    requires d < 4
    ensures n > 0 && n * Span(d) == ADDRESS_SPACE && n * SpanFrames(d) == FRAMES
  {
    if d == 0 then 0x200 else if d == 1 then 0x4_0000 else if d == 2 then 0x800_0000 else 0x10_0000_0000
  }

  function Vpn(va: nat, d: nat): (i: nat)
    requires d < 4
    ensures i < ENTRIES
  {
    va / Span(d) % ENTRIES
  }

  ghost function PathTo(va: nat, d: nat): (p: Path)
    requires d <= 4
    ensures |p| == d
  {
    if d == 0 then [] else PathTo(va, d - 1) + [Vpn(va, d - 1)]
  }

  /** The two addresses lie in the same aligned span of the address space. */
  ghost predicate SamePage(va: nat, va': nat, span: nat)
    requires span > 0
  {
    va % ADDRESS_SPACE / span == va' % ADDRESS_SPACE / span
  }

  lemma SamePageIsSamePath(va: nat, va': nat, d: nat)
    requires d < 4
    ensures SamePage(va, va', Span(d)) <==> PathTo(va, d + 1) == PathTo(va', d + 1)
  {
    hide Vpn, Span, SamePage, PageNumber;
    PageNumberDigits(va, d);
    PageNumberDigits(va', d);
    SamePageNumber(va, va', d);
    PathEnds(va, va', d);
    if d > 0 {
      SamePageIsSamePath(va, va', d - 1);
      SamePageNumber(va, va', d - 1);
      SameDigits(PageNumber(va, d - 1), Vpn(va, d), PageNumber(va', d - 1), Vpn(va', d));
    }
  }

  /** Which span of its size the address lies in. */
  ghost function PageNumber(va: nat, d: nat): nat
    requires d < 4
  {
    va % ADDRESS_SPACE / Span(d)
  }

  lemma SamePageNumber(va: nat, va': nat, d: nat)
    requires d < 4
    ensures SamePage(va, va', Span(d)) <==> PageNumber(va, d) == PageNumber(va', d)
  {
  }

  lemma PageNumberDigits(va: nat, d: nat)
    requires d < 4
    ensures PageNumber(va, d) == (if d == 0 then 0 else PageNumber(va, d - 1) * ENTRIES) + Vpn(va, d)
  {
    hide Span, Vpn;
    SpanNumber(va, d);
  }

  lemma SameDigits(a: nat, i: nat, b: nat, j: nat)
    requires i < ENTRIES && j < ENTRIES
    ensures a * ENTRIES + i == b * ENTRIES + j <==> a == b && i == j
  {
  }

  lemma PathEnds(va: nat, va': nat, d: nat)
    requires d < 4
    ensures PathTo(va, d + 1) == PathTo(va', d + 1) <==> PathTo(va, d) == PathTo(va', d) && Vpn(va, d) == Vpn(va', d)
  {
    var p, q := PathTo(va, d + 1), PathTo(va', d + 1);
    assert p[..d] == PathTo(va, d) && q[..d] == PathTo(va', d);
    assert p[d] == Vpn(va, d) && q[d] == Vpn(va', d);
  }

  lemma SpanNumber(va: nat, d: nat)
    requires d < 4
    ensures d == 0 ==> va % ADDRESS_SPACE / Span(0) == Vpn(va, 0)
    ensures d > 0 ==> va % ADDRESS_SPACE / Span(d) == va % ADDRESS_SPACE / Span(d - 1) * ENTRIES + Vpn(va, d)
  {
    IndexBelow48(va, d);
    if d > 0 {
      SpanSplits(va % ADDRESS_SPACE, d);
    } else {
      assert va % ADDRESS_SPACE / Span(0) < ENTRIES;
    }
  }

  lemma SpanSplits(y: nat, d: nat)
    requires 0 < d < 4
    ensures y / Span(d) == y / Span(d - 1) * ENTRIES + y / Span(d) % ENTRIES
  {
    var x := y / Span(d);
    assert x / ENTRIES == y / Span(d - 1);
  }

  lemma DivPlus(a: nat, b: nat, span: nat)
    requires span > 0
    ensures (a * span + b) / span == a + b / span
  {
    var q := Quotient(b, span);
    assert a * span + b == (a + q) * span + Remainder(b, span);
    QuotientUnique(a * span + b, span, a + q, Remainder(b, span));
  }

  /** Bits 48 and up do not reach an index. */
  lemma IndexBelow48(va: nat, d: nat)
    requires d < 4
    ensures Vpn(va % ADDRESS_SPACE, d) == Vpn(va, d)
  {
    hide Span;
    var y := va % ADDRESS_SPACE;
    var c := HighBits(va, d);
    DivPlus(c * ENTRIES, y, Span(d));
    DropMultiple(c, y / Span(d));
  }

  lemma DropMultiple(c: nat, z: nat)
    ensures (c * ENTRIES + z) % ENTRIES == z % ENTRIES
  {
  }

  lemma HighBits(va: nat, d: nat) returns (c: nat)
    requires d < 4
    ensures va == c * ENTRIES * Span(d) + va % ADDRESS_SPACE
  {
    c := va / ADDRESS_SPACE * (if d == 0 then 1 else if d == 1 then 0x200 else if d == 2 then 0x4_0000 else 0x800_0000);
  }

  /** Splitting an address into its indices and offset loses nothing below bit 48. */
  lemma IndicesMakeAddress(va: nat)
    ensures va % ADDRESS_SPACE == Vpn(va, 0) * Span(0) + Vpn(va, 1) * Span(1) + Vpn(va, 2) * Span(2) + Vpn(va, 3) * Span(3) + va % 4096
  {
    hide Vpn, Span;
    var y := va % ADDRESS_SPACE;
    SpanNumbers(va);
    Horner(y / 4096, Vpn(va, 0), Vpn(va, 1), Vpn(va, 2), Vpn(va, 3), y % 4096);
    LowBits(va);
  }

  lemma LowBits(va: nat)
    ensures va % ADDRESS_SPACE % 4096 == va % 4096
    ensures va % ADDRESS_SPACE / 4096 * 4096 + va % 4096 == va % ADDRESS_SPACE
  {
  }

  lemma SpanNumbers(va: nat)
    ensures va % ADDRESS_SPACE / 4096 == ((Vpn(va, 0) * 512 + Vpn(va, 1)) * 512 + Vpn(va, 2)) * 512 + Vpn(va, 3)
  {
    hide Vpn;
    SpanNumber(va, 0);
    SpanNumber(va, 1);
    SpanNumber(va, 2);
    SpanNumber(va, 3);
  }

  lemma Horner(q: nat, a: nat, b: nat, c: nat, d: nat, low: nat)
    requires q == ((a * 512 + b) * 512 + c) * 512 + d
    ensures q * 4096 + low == a * Span(0) + b * Span(1) + c * Span(2) + d * Span(3) + low
  {
  }

  /** Start of the physical page that contains pa, below bit 48. */
  ghost function PageBase(pa: nat, span: nat): nat
    requires span > 0
  {
    (pa - pa % span) % ADDRESS_SPACE
  }

  /** That is the page asked for exactly when it begins below 2^48. */
  lemma PageBaseIsRequested(pa: nat, span: nat)
    requires span > 0
    ensures PageBase(pa, span) == pa - pa % span <==> pa - pa % span < ADDRESS_SPACE
  {
  }

  // ---- The walk ------------------------------------------------------------------------------

  ghost predicate IsLeaf(e: Entry, d: nat) {
    d == 3 || e.ps
  }

  ghost function LeafTarget(e: Entry, d: nat, va: nat): Option<Target>
    requires d < 4
  {
    if e.present then Some(Target(e.base / SpanFrames(d) * Span(d) + va % Span(d), Span(d), e.rw)) else None
  }

  /** Address translation by the processor; a write needs the write bit at every level. */
  ghost function Walk(tables: Tables, frame: nat, d: nat, va: nat): Option<Target>
    requires d < 4
    decreases 4 - d
  {
    if frame !in tables || |tables[frame]| != ENTRIES then None
    else
      var e := tables[frame][Vpn(va, d)];
      if !e.present || IsLeaf(e, d) then LeafTarget(e, d, va)
      else
        match Walk(tables, e.base, d + 1, va)
        case None => None
        case Some(t) => Some(t.(writable := t.writable && e.rw))
  }

  // ---- The invariant ---------------------------------------------------------------------------

  ghost function Child(p: Path, i: nat): Path {
    p + [i]
  }

  ghost predicate EntryOk(e: Entry, p: Path, i: nat, at: map<Path, nat>) {
    && e.base < FRAMES
    && (!e.present ==> e == ZERO)
    && (e.ps ==> |p| == 1 || |p| == 2)
    && (e.present && !e.ps && |p| < 3 <==> Child(p, i) in at)
    && (Child(p, i) in at ==> at[Child(p, i)] == e.base)
  }

  /** Every table but the root hangs off exactly one entry. */
  ghost predicate Placed(tables: Tables, root: nat, at: map<Path, nat>) {
    && [] in at && at[[]] == root
    && (forall p | p in at :: |p| <= 3 && at[p] in tables && |tables[at[p]]| == ENTRIES)
    && (forall p, q | p in at && q in at :: at[p] == at[q] ==> p == q)
    && (forall f | f in tables :: exists p :: p in at && at[p] == f)
    && (forall p | p in at && p != [] :: exists q, i: nat :: q in at && i < ENTRIES && p == Child(q, i))
  }

  ghost predicate Entries(tables: Tables, at: map<Path, nat>)
    requires forall p | p in at :: at[p] in tables && |tables[at[p]]| == ENTRIES
  {
    forall p, i: nat | p in at && i < ENTRIES :: EntryOk(tables[at[p]][i], p, i, at)
  }

  /** A write bit is only set below a set write bit. */
  ghost predicate WritesAllowed(tables: Tables, at: map<Path, nat>)
    requires forall p | p in at :: at[p] in tables && |tables[at[p]]| == ENTRIES
  {
    forall p, i: nat, j: nat | p in at && i < ENTRIES && j < ENTRIES && Child(p, i) in at ::
      tables[at[Child(p, i)]][j].rw ==> tables[at[p]][i].rw
  }

  /** The tables form an unshared tree rooted at `root`. */
  ghost predicate Tree(tables: Tables, root: nat, at: map<Path, nat>) {
    Placed(tables, root, at) && Entries(tables, at) && WritesAllowed(tables, at)
  }

  /** The entry for va in the table at depth d. */
  ghost function EntryAt(tables: Tables, at: map<Path, nat>, va: nat, d: nat): Entry
    requires d < 4 && PathTo(va, d) in at && at[PathTo(va, d)] in tables && |tables[at[PathTo(va, d)]]| == ENTRIES
  {
    tables[at[PathTo(va, d)]][Vpn(va, d)]
  }

  /** The walk, one level at a time; in a tree the write bits above a leaf never matter. */
  lemma WalkStep(tables: Tables, root: nat, at: map<Path, nat>, va: nat, d: nat)
    requires Tree(tables, root, at) && d < 4 && PathTo(va, d) in at
    ensures
      var e := EntryAt(tables, at, va, d);
      var p := PathTo(va, d + 1);
      if e.present && !IsLeaf(e, d)
      then d < 3 && p in at && Walk(tables, at[PathTo(va, d)], d, va) == Walk(tables, at[p], d + 1, va)
      else p !in at && Walk(tables, at[PathTo(va, d)], d, va) == LeafTarget(e, d, va)
  {
    hide PathTo, Vpn;
    var e := EntryAt(tables, at, va, d);
    var p, i := PathTo(va, d), Vpn(va, d);
    NextPath(va, d);
    assert EntryOk(e, p, i, at);
    if e.present && !IsLeaf(e, d) {
      var q := Child(p, i);
      NextWrites(tables, root, at, p, i, Vpn(va, d + 1));
    } else {
      assert |p| == d && PathTo(va, d + 1) !in at;
    }
  }

  lemma NextPath(va: nat, d: nat)
    requires d < 4
    ensures PathTo(va, d + 1) == Child(PathTo(va, d), Vpn(va, d))
  {
  }

  lemma NextWrites(tables: Tables, root: nat, at: map<Path, nat>, p: Path, i: nat, j: nat)
    requires Tree(tables, root, at) && p in at && i < ENTRIES && j < ENTRIES && Child(p, i) in at
    ensures at[Child(p, i)] in tables && |tables[at[Child(p, i)]]| == ENTRIES
    ensures tables[at[Child(p, i)]][j].rw ==> tables[at[p]][i].rw
  {
  }

  /** The entry a walk ends in. */
  ghost function Leaf(tables: Tables, frame: nat, d: nat, va: nat): Option<Entry>
    requires d < 4
    decreases 4 - d
  {
    if frame !in tables || |tables[frame]| != ENTRIES then None
    else
      var e := tables[frame][Vpn(va, d)];
      if !e.present then None
      else if IsLeaf(e, d) then Some(e)
      else Leaf(tables, e.base, d + 1, va)
  }

  /** The permission along the whole walk is the write bit of its last entry. */
  lemma {:induction false} WritableIsLeafBit(tables: Tables, root: nat, at: map<Path, nat>, va: nat, d: nat)
    requires Tree(tables, root, at) && d < 4 && PathTo(va, d) in at
    ensures
      var t, e := Walk(tables, at[PathTo(va, d)], d, va), Leaf(tables, at[PathTo(va, d)], d, va);
      (t.Some? <==> e.Some?) && (t.Some? ==> t.value.writable == e.value.rw)
    decreases 4 - d
  {
    WalkStep(tables, root, at, va, d);
    if PathTo(va, d + 1) in at {
      assert EntryOk(EntryAt(tables, at, va, d), PathTo(va, d), Vpn(va, d), at);
      assert PathTo(va, d + 1) == Child(PathTo(va, d), Vpn(va, d));
      WritableIsLeafBit(tables, root, at, va, d + 1);
    }
  }

  /** A translation ends in the table it passes through at depth d. */
  lemma WalkFrom(tables: Tables, root: nat, at: map<Path, nat>, va: nat, d: nat)
    requires Tree(tables, root, at) && d < 4 && PathTo(va, d) in at
    ensures Walk(tables, root, 0, va) == Walk(tables, at[PathTo(va, d)], d, va)
  {
    if d > 0 {
      PrefixIn(tables, root, at, va, d);
      WalkStep(tables, root, at, va, d - 1);
      WalkFrom(tables, root, at, va, d - 1);
    }
  }

  lemma PrefixIn(tables: Tables, root: nat, at: map<Path, nat>, va: nat, d: nat)
    requires Tree(tables, root, at) && 0 < d <= 4 && PathTo(va, d) in at
    ensures PathTo(va, d - 1) in at
  {
    var q, i: nat :| q in at && i < ENTRIES && PathTo(va, d) == Child(q, i);
    assert Child(q, i)[..d - 1] == q && PathTo(va, d)[..d - 1] == PathTo(va, d - 1);
  }
}
