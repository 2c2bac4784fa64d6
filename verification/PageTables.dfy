/** Mapping and unmapping 4K, 2M and 1G pages in a four-level page table. */
module PageTables {
  import opened PageWalk
  import opened PageUpdates

  ghost predicate Agree(tables: Tables, tables': Tables, root: nat) {
    forall va: nat :: Walk(tables', root, 0, va) == Walk(tables, root, 0, va)
  }

  /** The translation is by a page of at least the span of an entry at depth d. */
  ghost predicate Covers(t: Option<Target>, d: nat)
    requires d < 4
  {
    t.Some? && t.value.span >= Span(d)
  }

  /** A page of at least this span already translates va, or a table for smaller pages is in the way. */
  ghost predicate Blocked(tables: Tables, root: nat, at: map<Path, nat>, va: nat, d: nat)
    requires d < 4
  {
    PathTo(va, d + 1) in at || Covers(Walk(tables, root, 0, va), d)
  }

  /** The tables on the path to va reach depth d, or as far as a larger page lets them. */
  ghost predicate Dug(t: Option<Target>, at: map<Path, nat>, va: nat, d: nat)
    requires d < 4
  {
    forall e: nat | e < d :: PathTo(va, e + 1) in at <==> !Covers(t, e)
  }

  lemma DugTo(tables: Tables, root: nat, at: map<Path, nat>, va: nat, k: nat, d: nat)
    requires Tree(tables, root, at) && k <= d < 4 && PathTo(va, k) in at
    requires k < d ==> EntryAt(tables, at, va, k).ps
    ensures Dug(Walk(tables, root, 0, va), at, va, d)
  {
    hide Tree, Entries, WritesAllowed;
    TableThere(tables, root, at, PathTo(va, k));
    AllowedAbove(tables, root, at, PathTo(va, k), Vpn(va, k));
    WalkFrom(tables, root, at, va, k);
    WalkStep(tables, root, at, va, k);
    WalkAtMost(tables, at[PathTo(va, k)], k, va);
    forall e: nat | e < d
      ensures PathTo(va, e + 1) in at <==> !Covers(Walk(tables, root, 0, va), e)
    {
      if e < k {
        AllPrefixesIn(tables, root, at, va, e + 1, k);
      } else if PathTo(va, e + 1) in at {
        AllPrefixesIn(tables, root, at, va, k + 1, e + 1);
      }
    }
  }

  lemma {:induction false} WalkAtMost(tables: Tables, frame: nat, d: nat, va: nat)
    requires d < 4
    ensures var t := Walk(tables, frame, d, va); t.Some? ==> 4096 <= t.value.span <= Span(d)
    decreases 4 - d
  {
    if frame in tables && |tables[frame]| == ENTRIES && d < 3 {
      WalkAtMost(tables, tables[frame][Vpn(va, d)].base, d + 1, va);
    }
  }

  /** Tables stay where they are; new ones lie on the path to va, at depth n at most. */
  ghost predicate Grown(at: map<Path, nat>, at': map<Path, nat>, va: nat, n: nat)
    requires n < 4
  {
    && (forall p | p in at :: p in at' && at'[p] == at[p])
    && (forall p | p in at' && p !in at :: 0 < |p| <= n && p == PathTo(va, |p|))
  }

  /**
   Write bits of the entries that lead to tables: those set before, and if w those on the way to va
   down to depth n.
   */
  ghost predicate Widens(tables: Tables, at: map<Path, nat>, tables': Tables, at': map<Path, nat>, va: nat, n: nat, w: bool)
    requires n < 4
  {
    forall p | p in at' && p != [] ::
      Allows(tables', at', p) <==> (p in at && Allows(tables, at, p)) || (w && |p| <= n && p == PathTo(va, |p|))
  }

  /** At most the entry that leads to q is new, or has its write bit changed. */
  ghost predicate WidensAt(tables: Tables, at: map<Path, nat>, tables': Tables, at': map<Path, nat>, q: Path, w: bool) {
    && (forall p | p in at' && p != q :: p in at)
    && forall p | p in at' && p != [] :: Allows(tables', at', p) <==> (p in at && Allows(tables, at, p)) || (w && p == q)
  }

  lemma NothingWidened(tables: Tables, at: map<Path, nat>, va: nat)
    ensures Widens(tables, at, tables, at, va, 0, false) && Widens(tables, at, tables, at, va, 0, true)
  {
  }

  /** One more step down. */
  lemma WidensFurther(tables: Tables, at: map<Path, nat>, tables1: Tables, at1: map<Path, nat>, tables2: Tables, at2: map<Path, nat>,
                      va: nat, d: nat, w: bool)
    requires d < 3 && Widens(tables, at, tables1, at1, va, d, w) && Grown(at, at1, va, d)
    requires WidensAt(tables1, at1, tables2, at2, PathTo(va, d + 1), w)
    ensures Widens(tables, at, tables2, at2, va, d + 1, w)
  {
    forall p | p in at2 && p != []
      ensures Allows(tables2, at2, p) <==> (p in at && Allows(tables, at, p)) || (w && |p| <= d + 1 && p == PathTo(va, |p|))
    {
      assert p in at ==> p in at1;
    }
  }

  /** No table lies further down the way. */
  lemma WidensAsFar(tables: Tables, at: map<Path, nat>, tables1: Tables, at1: map<Path, nat>, root: nat, va: nat, k: nat, d: nat, w: bool)
    requires k <= d < 4 && Widens(tables, at, tables1, at1, va, k, w) && Tree(tables1, root, at1)
    requires k < d ==> PathTo(va, k + 1) !in at1
    ensures Widens(tables, at, tables1, at1, va, d, w)
  {
    hide Tree, Allows, PathTo;
    forall p | p in at1 && k < |p| <= d
      ensures p != PathTo(va, |p|)
    {
      if p == PathTo(va, |p|) {
        AllPrefixesIn(tables1, root, at1, va, k + 1, |p|);
      }
    }
  }

  /** An entry that leads to no table changes none of those bits. */
  lemma WidensNothing(tables: Tables, at: map<Path, nat>, tables1: Tables, at1: map<Path, nat>, root: nat,
                      p: Path, i: nat, e: Entry, va: nat, d: nat, w: bool)
    requires d < 4 && Widens(tables, at, tables1, at1, va, d, w) && Tree(tables1, root, at1)
    requires p in at1 && i < ENTRIES && Child(p, i) !in at1
    ensures Widens(tables, at, Put(tables1, at1[p], i, e), at1, va, d, w)
  {
    hide Tree, Allows;
    TableThere(tables1, root, at1, p);
    forall q | q in at1 && q != []
      ensures Allows(Put(tables1, at1[p], i, e), at1, q) <==> Allows(tables1, at1, q)
    {
      PutAllows(tables1, root, at1, p, i, e, q);
    }
  }

  /** A new, empty table on the way to va. */
  lemma DirectoryAdded(tables: Tables, root: nat, at: map<Path, nat>, va: nat, d: nat, f: nat, w: bool)
    requires Tree(tables, root, at) && d < 3 && PathTo(va, d) in at && !EntryAt(tables, at, va, d).present
    requires f !in tables && f < FRAMES && (w ==> Allows(tables, at, PathTo(va, d)))
    ensures
      var tables' := WithTable(tables, at[PathTo(va, d)], Vpn(va, d), f, w);
      var at' := at[PathTo(va, d + 1) := f];
      && Tree(tables', root, at') && Agree(tables, tables', root) && Grown(at, at', va, d + 1)
      && WidensAt(tables, at, tables', at', PathTo(va, d + 1), w)
      && (w ==> Allows(tables', at', PathTo(va, d + 1)))
  {
    hide Tree, EntryOk, Entries, WritesAllowed, WidensAt;
    var p, i := PathTo(va, d), Vpn(va, d);
    assert PathTo(va, d + 1) == Child(p, i);
    TableThere(tables, root, at, p);
    AddKeepsTree(tables, root, at, p, i, f, w);
    NotAChild(tables, root, at, p, i);
    forall a: nat
      ensures Walk(WithTable(tables, at[p], i, f, w), root, 0, a) == Walk(tables, root, 0, a)
    {
      AddWalk(tables, root, at, p, i, f, w, a, 0);
    }
    ChildParts(p, i);
    AddedWidens(tables, root, at, p, i, f, w);
  }

  lemma AddedWidens(tables: Tables, root: nat, at: map<Path, nat>, p: Path, i: nat, f: nat, w: bool)
    requires Tree(tables, root, at) && p in at && i < ENTRIES && f !in tables && Child(p, i) !in at
    requires at[p] in tables && |tables[at[p]]| == ENTRIES
    ensures WidensAt(tables, at, WithTable(tables, at[p], i, f, w), at[Child(p, i) := f], Child(p, i), w)
  {
    hide Tree, Allows, WithTable;
    var tables': Tables, at' := WithTable(tables, at[p], i, f, w), at[Child(p, i) := f];
    forall q | q in at' && q != []
      ensures Allows(tables', at', q) <==> (q in at && Allows(tables, at, q)) || (w && q == Child(p, i))
    {
      AddAllows(tables, root, at, p, i, f, w, q);
    }
  }

  /** A directory entry on the way to va with its write bit set. */
  lemma DirectoryAllows(tables: Tables, root: nat, at: map<Path, nat>, va: nat, d: nat, w: bool)
    requires Tree(tables, root, at) && d < 3 && PathTo(va, d) in at
    requires var e := EntryAt(tables, at, va, d); e.present && !e.ps
    requires w ==> Allows(tables, at, PathTo(va, d))
    ensures PathTo(va, d + 1) in at && at[PathTo(va, d + 1)] == EntryAt(tables, at, va, d).base
    ensures
      var e := EntryAt(tables, at, va, d);
      var tables' := Put(tables, at[PathTo(va, d)], Vpn(va, d), e.(rw := e.rw || w));
      && Tree(tables', root, at) && Agree(tables, tables', root)
      && WidensAt(tables, at, tables', at, PathTo(va, d + 1), w)
      && (w ==> Allows(tables', at, PathTo(va, d + 1)))
  {
    hide Tree, Entries, WritesAllowed, WidensAt;
    var p, i := PathTo(va, d), Vpn(va, d);
    assert PathTo(va, d + 1) == Child(p, i);
    TableThere(tables, root, at, p);
    var e := EntryAt(tables, at, va, d);
    var e' := e.(rw := e.rw || w);
    AllowedAbove(tables, root, at, p, i);
    PutKeepsTree(tables, root, at, p, i, e');
    forall a: nat
      ensures Walk(Put(tables, at[p], i, e'), root, 0, a) == Walk(tables, root, 0, a)
    {
      PutDirectoryWalk(tables, root, at, p, i, e', a, 0);
    }
    ChildParts(p, i);
    DirectoryWidens(tables, root, at, p, i, w);
  }

  lemma DirectoryWidens(tables: Tables, root: nat, at: map<Path, nat>, p: Path, i: nat, w: bool)
    requires Tree(tables, root, at) && p in at && i < ENTRIES && Child(p, i) in at
    requires at[p] in tables && |tables[at[p]]| == ENTRIES
    ensures var e := tables[at[p]][i];
      WidensAt(tables, at, Put(tables, at[p], i, e.(rw := e.rw || w)), at, Child(p, i), w)
  {
    hide Tree, Allows, Put;
    var e := tables[at[p]][i];
    var e' := e.(rw := e.rw || w);
    ChildParts(p, i);
    PutAllows(tables, root, at, p, i, e, Child(p, i));
    PutSame(tables, at[p], i);
    forall q | q in at && q != []
      ensures Allows(Put(tables, at[p], i, e'), at, q) <==> if q == Child(p, i) then e'.rw else Allows(tables, at, q)
    {
      PutAllows(tables, root, at, p, i, e', q);
    }
  }

  lemma PutSame(tables: Tables, f: nat, i: nat)
    requires f in tables && i < |tables[f]|
    ensures Put(tables, f, i, tables[f][i]) == tables
  {
    assert tables[f][i := tables[f][i]] == tables[f];
  }

  /** Entries of a tree are well formed, and a set write bit is allowed. */
  lemma AllowedAbove(tables: Tables, root: nat, at: map<Path, nat>, p: Path, i: nat)
    requires Tree(tables, root, at) && p in at && i < ENTRIES
    ensures EntryOk(tables[at[p]][i], p, i, at) && (tables[at[p]][i].rw ==> Allows(tables, at, p))
  {
    if p != [] {
      var q, j: nat :| q in at && j < ENTRIES && p == Child(q, j);
      ChildParts(q, j);
    }
  }

  /** What the entry at depth k on the way down to depth d says about being blocked. */
  lemma BlockedAt(tables: Tables, root: nat, at: map<Path, nat>, va: nat, k: nat, d: nat)
    requires Tree(tables, root, at) && k <= d < 4 && PathTo(va, k) in at
    ensures k < d && EntryAt(tables, at, va, k).ps ==> Blocked(tables, root, at, va, d)
    ensures k == d ==> (Blocked(tables, root, at, va, d) <==> EntryAt(tables, at, va, k).present)
  {
    assert EntryOk(EntryAt(tables, at, va, k), PathTo(va, k), Vpn(va, k), at);
    WalkFrom(tables, root, at, va, k);
    WalkStep(tables, root, at, va, k);
  }

  lemma GrownTwice(at: map<Path, nat>, at1: map<Path, nat>, at2: map<Path, nat>, va: nat, n: nat)
    requires 0 < n < 4
    ensures Grown(at, at1, va, n - 1) && (Grown(at1, at2, va, n) || at1 == at2) ==> Grown(at, at2, va, n)
  {
  }

  lemma AgreeTwice(tables: Tables, tables1: Tables, tables2: Tables, root: nat)
    requires Agree(tables, tables1, root)
    ensures Agree(tables1, tables2, root) ==> Agree(tables, tables2, root)
  {
    if Agree(tables1, tables2, root) {
      forall va: nat
        ensures Walk(tables2, root, 0, va) == Walk(tables, root, 0, va)
      {
        assert Walk(tables1, root, 0, va) == Walk(tables, root, 0, va);
      }
    }
  }

  lemma StillBlocked(tables: Tables, at: map<Path, nat>, tables': Tables, at': map<Path, nat>, root: nat, va: nat, d: nat)
    requires d < 4 && Agree(tables, tables', root) && Grown(at, at', va, d)
    ensures Blocked(tables, root, at, va, d) <==> Blocked(tables', root, at', va, d)
  {
    assert Walk(tables', root, 0, va) == Walk(tables, root, 0, va);
  }

  /** An entry without a subtree decides the translation of its span. */
  lemma SpanDecided(tables: Tables, root: nat, at: map<Path, nat>, va: nat, d: nat, va': nat)
    requires Tree(tables, root, at) && d < 4 && PathTo(va, d) in at && PathTo(va, d + 1) !in at && SamePage(va, va', Span(d))
    ensures Walk(tables, root, 0, va') == LeafTarget(EntryAt(tables, at, va, d), d, va')
  {
    SamePageIsSamePath(va, va', d);
    PathEnds(va, va', d);
    WalkFrom(tables, root, at, va', d);
    WalkStep(tables, root, at, va', d);
  }

  /** Replacing such an entry changes the translation of exactly its span. */
  lemma SpanReplaced(tables: Tables, root: nat, at: map<Path, nat>, va: nat, d: nat, e: Entry, va': nat)
    requires Tree(tables, root, at) && d < 4 && PathTo(va, d) in at && PathTo(va, d + 1) !in at
    requires Tree(Put(tables, at[PathTo(va, d)], Vpn(va, d), e), root, at)
    ensures Walk(Put(tables, at[PathTo(va, d)], Vpn(va, d), e), root, 0, va') ==
            if SamePage(va, va', Span(d)) then LeafTarget(e, d, va') else Walk(tables, root, 0, va')
  {
    SamePageIsSamePath(va, va', d);
    assert PathTo(va, d + 1) == Child(PathTo(va, d), Vpn(va, d));
    PutWalk(tables, root, at, PathTo(va, d), Vpn(va, d), e, va', 0);
  }

  /** The stored page number, shifted back, is the start of the physical page. */
  lemma StoredBase(pa: nat, d: nat)
    requires d < 4
    ensures var base := pa / Span(d) % SpanCount(d) * SpanFrames(d);
      base < FRAMES && base / SpanFrames(d) * Span(d) == PageBase(pa, Span(d))
  {
    var n, s, c := pa / Span(d), Span(d), SpanCount(d);
    BaseFits(n % c, d);
    WholeSpans(n, c, s);
    assert pa - pa % s == n * s;
  }

  lemma BaseFits(x: nat, d: nat)
    requires d < 4 && x < SpanCount(d)
    ensures x * SpanFrames(d) < FRAMES && x * SpanFrames(d) / SpanFrames(d) == x
  {
  }

  lemma WholeSpans(n: nat, c: nat, s: nat)
    requires c > 0 && s > 0 && c * s == ADDRESS_SPACE
    ensures n % c * s == n * s % ADDRESS_SPACE
  {
    var q, r := n / c, n % c;
    assert n * s == q * (c * s) + r * s;
    assert r * s < c * s;
  }

  /** The aligned span around va now translates to the aligned physical page around pa; nothing else changed. */
  ghost predicate Installs(tables: Tables, tables': Tables, root: nat, pa: nat, va: nat, d: nat, w: bool)
    requires d < 4
  {
    forall a: nat :: Walk(tables', root, 0, a) ==
      if SamePage(va, a, Span(d)) then Some(Target(PageBase(pa, Span(d)) + a % Span(d), Span(d), w))
      else Walk(tables, root, 0, a)
  }

  ghost predicate Vacant(tables: Tables, root: nat, va: nat, d: nat)
    requires d < 4
  {
    forall a: nat | SamePage(va, a, Span(d)) :: Walk(tables, root, 0, a) == None
  }

  /** Only a translation blocks a 4K page. */
  lemma PageBlocks(tables: Tables, root: nat, at: map<Path, nat>, va: nat)
    requires Tree(tables, root, at)
    ensures Blocked(tables, root, at, va, 3) <==> Walk(tables, root, 0, va) != None
  {
    assert PathTo(va, 4) !in at;
    WalkAtMost(tables, root, 0, va);
  }

  /** What a request to map one span at depth d does. */
  ghost predicate MapOutcome(ok: bool, tables: Tables, at: map<Path, nat>, tables': Tables, at': map<Path, nat>, root: nat,
                             pa: nat, va: nat, d: nat, w: bool)
    requires d < 4
  {
    && (ok <==> !Blocked(tables, root, at, va, d))
    && Grown(at, at', va, d) && Dug(Walk(tables, root, 0, va), at', va, d)
    && Widens(tables, at, tables', at', va, d, w)
    && (ok ==> Vacant(tables, root, va, d) && Installs(tables, tables', root, pa, va, d, w))
    && (!ok ==> Agree(tables, tables', root))
  }

  /** What va translates to after a page was mapped there: 1G, 2M or 4K of memory from the aligned address on, below bit 48. */
  lemma PageMapped(tables: Tables, at: map<Path, nat>, tables': Tables, at': map<Path, nat>, root: nat, pa: nat, va: nat, d: nat, w: bool)
    requires 0 < d < 4 && MapOutcome(true, tables, at, tables', at', root, pa, va, d, w)
    ensures var n := if d == 1 then 0x4000_0000 else if d == 2 then 0x20_0000 else 0x1000;
      Walk(tables', root, 0, va) == Some(Target((pa - pa % n) % 0x1_0000_0000_0000 + va % n, n, w))
  {
    hide Walk, Vacant, Grown, Dug, Widens, Blocked;
    assert SamePage(va, va, Span(d));
  }

  /** A 4K page is refused exactly when its address is translated already. */
  lemma MapRefusedIffTranslated(ok: bool, tables: Tables, at: map<Path, nat>, tables': Tables, at': map<Path, nat>, root: nat,
                                pa: nat, va: nat, w: bool)
    requires Tree(tables, root, at) && MapOutcome(ok, tables, at, tables', at', root, pa, va, 3, w)
    ensures !ok <==> Walk(tables, root, 0, va) != None
  {
    PageBlocks(tables, root, at, va);
  }

  lemma RefusedOutcome(tables: Tables, at: map<Path, nat>, tables': Tables, at': map<Path, nat>, root: nat,
                       pa: nat, va: nat, k: nat, d: nat, w: bool)
    requires k <= d < 4 && Agree(tables, tables', root) && Grown(at, at', va, k) && Widens(tables, at, tables', at', va, k, w)
    requires Tree(tables', root, at') && PathTo(va, k) in at'
    requires var e := EntryAt(tables', at', va, k); if k < d then e.ps else e.present
    ensures MapOutcome(false, tables, at, tables', at', root, pa, va, d, w)
  {
    hide Tree, Dug, Blocked, Widens, Allows;
    PageEndsWay(tables', root, at', va, k);
    WidensAsFar(tables, at, tables', at', root, va, k, d, w);
    BlockedAt(tables', root, at', va, k, d);
    DugTo(tables', root, at', va, k, d);
    StillBlocked(tables, at, tables', at', root, va, d);
    assert Walk(tables', root, 0, va) == Walk(tables, root, 0, va);
  }

  lemma PageEndsWay(tables: Tables, root: nat, at: map<Path, nat>, va: nat, k: nat)
    requires Tree(tables, root, at) && k < 4 && PathTo(va, k) in at
    ensures EntryAt(tables, at, va, k).ps ==> PathTo(va, k + 1) !in at
  {
    assert EntryOk(EntryAt(tables, at, va, k), PathTo(va, k), Vpn(va, k), at);
    assert PathTo(va, k + 1) == Child(PathTo(va, k), Vpn(va, k));
  }

  /** The entry of a page: the page number sits in the upper bits of the base field. */
  ghost function PageEntry(pa: nat, d: nat, w: bool): Entry
    requires d < 4
  {
    Entry(true, w, d < 3, pa / Span(d) % SpanCount(d) * SpanFrames(d))
  }

  lemma PageEntryIs(pa: nat, d: nat, w: bool)
    requires 0 < d < 4
    ensures PageEntry(pa, d, w) == Entry(true, w, d < 3,
      if d == 1 then pa / 0x4000_0000 % 0x4_0000 * 0x4_0000 else if d == 2 then pa / 0x20_0000 % 0x800_0000 * 0x200
      else pa / BASE_PAGE_SIZE % FRAMES)
  {
  }

  lemma PageEntryTarget(pa: nat, d: nat, w: bool, a: nat)
    requires d < 4
    ensures PageEntry(pa, d, w).base < FRAMES
    ensures LeafTarget(PageEntry(pa, d, w), d, a) == Some(Target(PageBase(pa, Span(d)) + a % Span(d), Span(d), w))
  {
    hide Span, SpanCount, SpanFrames, PageBase;
    StoredBase(pa, d);
  }

  /** The tables with one more page. */
  ghost function WithPage(tables: Tables, at: map<Path, nat>, pa: nat, va: nat, d: nat, w: bool): Tables
    requires d < 4 && PathTo(va, d) in at && at[PathTo(va, d)] in tables && |tables[at[PathTo(va, d)]]| == ENTRIES
  {
    Put(tables, at[PathTo(va, d)], Vpn(va, d), PageEntry(pa, d, w))
  }

  lemma PageStored(tables: Tables, root: nat, at: map<Path, nat>, pa: nat, va: nat, d: nat, w: bool)
    requires 0 < d < 4 && Tree(tables, root, at) && PathTo(va, d) in at && !EntryAt(tables, at, va, d).present
    requires w ==> Allows(tables, at, PathTo(va, d))
    ensures EntryAt(tables, at, va, d) == ZERO && Vacant(tables, root, va, d)
    ensures
      var tables' := WithPage(tables, at, pa, va, d, w);
      Tree(tables', root, at) && Installs(tables, tables', root, pa, va, d, w)
  {
    hide Tree, Allows, PageEntry, LeafTarget, Span, Walk, PageBase, SamePage;
    var p, i := PathTo(va, d), Vpn(va, d);
    TableThere(tables, root, at, p);
    AllowedAbove(tables, root, at, p, i);
    EmptyEntry(tables, at, va, d);
    PageEntryOk(pa, va, d, w, at);
    PutKeepsTree(tables, root, at, p, i, PageEntry(pa, d, w));
    forall a: nat
      ensures SamePage(va, a, Span(d)) ==> Walk(tables, root, 0, a) == None
      ensures Walk(WithPage(tables, at, pa, va, d, w), root, 0, a) ==
        if SamePage(va, a, Span(d)) then Some(Target(PageBase(pa, Span(d)) + a % Span(d), Span(d), w)) else Walk(tables, root, 0, a)
    {
      if SamePage(va, a, Span(d)) {
        SpanDecided(tables, root, at, va, d, a);
        ZeroTarget(d, a);
      }
      PageEntryTarget(pa, d, w, a);
      SpanReplaced(tables, root, at, va, d, PageEntry(pa, d, w), a);
    }
  }

  lemma ZeroTarget(d: nat, a: nat)
    requires d < 4
    ensures LeafTarget(ZERO, d, a) == None
  {
  }

  lemma EmptyHasNoTable(tables: Tables, root: nat, at: map<Path, nat>, va: nat, d: nat)
    requires Tree(tables, root, at) && d < 4 && PathTo(va, d) in at && !EntryAt(tables, at, va, d).present
    ensures Child(PathTo(va, d), Vpn(va, d)) !in at
  {
    AllowedAbove(tables, root, at, PathTo(va, d), Vpn(va, d));
    EmptyEntry(tables, at, va, d);
  }

  lemma EmptyEntry(tables: Tables, at: map<Path, nat>, va: nat, d: nat)
    requires d < 4 && PathTo(va, d) in at && at[PathTo(va, d)] in tables && |tables[at[PathTo(va, d)]]| == ENTRIES
    requires EntryOk(EntryAt(tables, at, va, d), PathTo(va, d), Vpn(va, d), at) && !EntryAt(tables, at, va, d).present
    ensures EntryAt(tables, at, va, d) == ZERO && PathTo(va, d + 1) !in at && Child(PathTo(va, d), Vpn(va, d)) !in at
  {
    assert PathTo(va, d + 1) == Child(PathTo(va, d), Vpn(va, d));
  }

  lemma PageEntryOk(pa: nat, va: nat, d: nat, w: bool, at: map<Path, nat>)
    requires 0 < d < 4 && Child(PathTo(va, d), Vpn(va, d)) !in at
    ensures EntryOk(PageEntry(pa, d, w), PathTo(va, d), Vpn(va, d), at) && PageEntry(pa, d, w).rw == w
  {
    PageEntryTarget(pa, d, w, 0);
  }

  lemma MappedOutcome(tables: Tables, at: map<Path, nat>, tables1: Tables, tables2: Tables, at': map<Path, nat>, root: nat,
                      pa: nat, va: nat, d: nat, w: bool)
    requires d < 4 && Agree(tables, tables1, root) && Grown(at, at', va, d) && Widens(tables, at, tables2, at', va, d, w)
    requires Tree(tables1, root, at') && PathTo(va, d) in at' && !EntryAt(tables1, at', va, d).present
    requires Vacant(tables1, root, va, d) && Installs(tables1, tables2, root, pa, va, d, w)
    ensures MapOutcome(true, tables, at, tables2, at', root, pa, va, d, w)
  {
    hide Tree, Installs, Vacant, Grown, Blocked, Dug, Widens;
    BlockedAt(tables1, root, at', va, d, d);
    DugTo(tables1, root, at', va, d, d);
    assert Walk(tables1, root, 0, va) == Walk(tables, root, 0, va);
    StillBlocked(tables, at, tables1, at', root, va, d);
    SameBefore(tables, tables1, tables2, root, pa, va, d, w);
  }

  lemma SameBefore(tables: Tables, tables1: Tables, tables2: Tables, root: nat, pa: nat, va: nat, d: nat, w: bool)
    requires d < 4 && Agree(tables, tables1, root)
    requires Vacant(tables1, root, va, d) && Installs(tables1, tables2, root, pa, va, d, w)
    ensures Vacant(tables, root, va, d) && Installs(tables, tables2, root, pa, va, d, w)
  {
    hide SamePage, Span, PageBase;
    forall a: nat
      ensures Walk(tables1, root, 0, a) == Walk(tables, root, 0, a)
    {
    }
  }

  /** The page that translates va, if there is one, translates nothing any more; nothing else changed, no write bit above it included. */
  ghost predicate UnmapOutcome(tables: Tables, tables': Tables, at: map<Path, nat>, root: nat, va: nat) {
    var t := Walk(tables, root, 0, va);
    && Widens(tables, at, tables', at, va, 0, false)
    && (forall a: nat :: Walk(tables', root, 0, a) ==
          if t.Some? && t.value.span > 0 && SamePage(va, a, t.value.span) then None else Walk(tables, root, 0, a))
  }

  /** Afterwards the address is not translated, and any other either is not or is as before. */
  lemma UnmapClears(tables: Tables, tables': Tables, at: map<Path, nat>, root: nat, va: nat)
    requires UnmapOutcome(tables, tables', at, root, va)
    ensures Walk(tables', root, 0, va) == None
    ensures forall a: nat :: Walk(tables', root, 0, a) == None || Walk(tables', root, 0, a) == Walk(tables, root, 0, a)
  {
    hide Widens;
    WalkAtMost(tables, root, 0, va);
    var t := Walk(tables, root, 0, va);
    assert t.Some? ==> SamePage(va, va, t.value.span);
  }

  /** Unmapping right after a successful mapping restores every translation. */
  lemma UnmapUndoesMap(tables: Tables, at: map<Path, nat>, tables1: Tables, at1: map<Path, nat>, tables2: Tables, root: nat,
                       pa: nat, va: nat, d: nat, w: bool)
    requires d < 4 && MapOutcome(true, tables, at, tables1, at1, root, pa, va, d, w)
    requires UnmapOutcome(tables1, tables2, at1, root, va)
    ensures Agree(tables, tables2, root)
  {
    hide Widens, Walk, Blocked, Grown, Dug, PageBase;
    assert SamePage(va, va, Span(d));
    forall a: nat
      ensures Walk(tables2, root, 0, a) == Walk(tables, root, 0, a)
    {
      assert Walk(tables1, root, 0, a).Some? || !SamePage(va, a, Span(d));
    }
  }

  lemma EntryCleared(tables: Tables, root: nat, at: map<Path, nat>, va: nat, d: nat)
    requires Tree(tables, root, at) && d < 4 && PathTo(va, d) in at && PathTo(va, d + 1) !in at
    ensures
      var tables' := Put(tables, at[PathTo(va, d)], Vpn(va, d), ZERO);
      Tree(tables', root, at) && UnmapOutcome(tables, tables', at, root, va)
  {
    hide Tree, Widens, Allows;
    var p, i := PathTo(va, d), Vpn(va, d);
    TableThere(tables, root, at, p);
    assert PathTo(va, d + 1) == Child(p, i);
    PutKeepsTree(tables, root, at, p, i, ZERO);
    NothingWidened(tables, at, va);
    WidensNothing(tables, at, tables, at, root, p, i, ZERO, va, 0, false);
    SpanDecided(tables, root, at, va, d, va);
    forall a: nat
      ensures SamePage(va, a, Span(d)) ==> Walk(tables, root, 0, a) == LeafTarget(EntryAt(tables, at, va, d), d, a)
      ensures Walk(Put(tables, at[p], i, ZERO), root, 0, a) == if SamePage(va, a, Span(d)) then None else Walk(tables, root, 0, a)
    {
      if SamePage(va, a, Span(d)) {
        SpanDecided(tables, root, at, va, d, a);
      }
      ZeroTarget(d, a);
      SpanReplaced(tables, root, at, va, d, ZERO, a);
    }
  }

  class PageTable {
    const cr3: nat
    var tables: Tables
    ghost var at: map<Path, nat>

    /** The tables form an unshared tree below cr3; `at` names the frame of each. */
    ghost predicate Valid()
      reads this
    {
      Tree(tables, cr3, at)
    }

    ghost function Translate(va: nat): Option<Target>
      reads this
    {
      Walk(tables, cr3, 0, va)
    }

    /** Frames the memory allocator may hand out next. */
    ghost predicate Unused(frames: seq<nat>)
      reads this
    {
      && (forall k | 0 <= k < |frames| :: frames[k] !in tables && frames[k] < FRAMES)
      && (forall j, k | 0 <= j < k < |frames| :: frames[j] != frames[k])
    }

    constructor (frame: nat)
      requires frame < FRAMES
      ensures Valid() && cr3 == frame && tables.Keys == {frame} && at == map[[] := frame]
      ensures forall va: nat :: Translate(va) == None
    {
      cr3 := frame;
      tables := map[frame := Zeros()];
      at := map[[] := frame];
      new;
      assert at[[]] == frame;
      forall va: nat
        ensures Walk(tables, cr3, 0, va) == None
      {
        WalkStep(tables, cr3, at, va, 0);
      }
    }

    method ParseVirtAddr(va: nat) returns (vpn1: nat, vpn2: nat, vpn3: nat, vpn4: nat, vpo: nat)
      ensures vpn1 == Vpn(va, 0) && vpn2 == Vpn(va, 1) && vpn3 == Vpn(va, 2) && vpn4 == Vpn(va, 3) && vpo == va % 4096
      ensures vpn1 < 512 && vpn2 < 512 && vpn3 < 512 && vpn4 < 512 && vpo < 0x1000
      ensures va % 0x1_0000_0000_0000 == vpn1 * 0x80_0000_0000 + vpn2 * 0x4000_0000 + vpn3 * 0x20_0000 + vpn4 * 0x1000 + vpo
    {
      hide Vpn;
      vpo := va % BASE_PAGE_SIZE;
      var v := va / BASE_PAGE_SIZE;
      vpn4 := v % ENTRIES;
      v := v / ENTRIES;
      vpn3 := v % ENTRIES;
      v := v / ENTRIES;
      vpn2 := v % ENTRIES;
      v := v / ENTRIES;
      vpn1 := v % ENTRIES;
      IndexDivides(va);
      IndicesMakeAddress(va);
    }

    lemma IndexDivides(va: nat)
      ensures Vpn(va, 3) == va / 4096 % 512 && Vpn(va, 2) == va / 4096 / 512 % 512
      ensures Vpn(va, 1) == va / 4096 / 512 / 512 % 512 && Vpn(va, 0) == va / 4096 / 512 / 512 / 512 % 512
    {
      assert va / 4096 / 512 == va / 0x20_0000;
      assert va / 0x20_0000 / 512 == va / 0x4000_0000;
      assert va / 0x4000_0000 / 512 == va / 0x80_0000_0000;
    }

    method AllocTable(frame: nat)
      requires frame !in tables
      modifies `tables
      ensures tables == old(tables)[frame := Zeros()]
    {
      tables := tables[frame := Zeros()];
    }

    method SetDirectoryEntry(table: nat, i: nat, pa: nat, rw: nat)
      requires table in tables && i < |tables[table]|
      modifies `tables
      ensures tables == Put(old(tables), table, i, Entry(true, rw % 2 == 1, false, pa / BASE_PAGE_SIZE % FRAMES))
    {
      var e := tables[table][i];
      e := e.(ps := false);
      e := e.(base := pa / BASE_PAGE_SIZE % FRAMES);
      e := e.(rw := rw % 2 == 1);
      e := e.(present := true);
      tables := tables[table := tables[table][i := e]];
    }

    /** The walk for va has come to `table` at depth d, and may set the write bit there if w. */
    ghost predicate Reached(va: nat, d: nat, table: nat, w: bool)
      requires d < 4
      reads this
    {
      && Valid() && PathTo(va, d) in at && at[PathTo(va, d)] == table
      && table in tables && |tables[table]| == ENTRIES
      && (w ==> Allows(tables, at, PathTo(va, d)))
    }

    /** An absent directory entry gets a new table. */
    method NewDirectory(ghost va: nat, ghost d: nat, table: nat, i: nat, frame: nat, rw: nat)
      requires d < 3 && Reached(va, d, table, rw % 2 == 1) && i == Vpn(va, d) && !tables[table][i].present
      requires frame !in tables && frame < FRAMES
      modifies this
      ensures table in tables && |tables[table]| == ENTRIES && Reached(va, d + 1, tables[table][i].base, rw % 2 == 1)
      ensures tables.Keys == old(tables.Keys) + {frame}
      ensures Agree(old(tables), tables, cr3) && Grown(old(at), at, va, d + 1)
      ensures WidensAt(old(tables), old(at), tables, at, PathTo(va, d + 1), rw % 2 == 1)
    {
      hide Tree, Allows, Agree, Grown, WidensAt;
      DirectoryAdded(tables, cr3, at, va, d, frame, rw % 2 == 1);
      TableThere(tables, cr3, at, PathTo(va, d));
      AllocTable(frame);
      SetDirectoryEntry(table, i, frame * BASE_PAGE_SIZE, rw);
      assert tables == WithTable(old(tables), table, i, frame, rw % 2 == 1);
      at := at[PathTo(va, d + 1) := frame];
    }

    /** read_write |= rw on a present directory entry. */
    method AllowWrites(ghost va: nat, ghost d: nat, table: nat, i: nat, rw: nat)
      requires d < 3 && Reached(va, d, table, rw % 2 == 1) && i == Vpn(va, d) && tables[table][i].present && !tables[table][i].ps
      modifies this
      ensures table in tables && |tables[table]| == ENTRIES && Reached(va, d + 1, tables[table][i].base, rw % 2 == 1)
      ensures tables.Keys == old(tables.Keys)
      ensures Agree(old(tables), tables, cr3) && Grown(old(at), at, va, d + 1)
      ensures WidensAt(old(tables), old(at), tables, at, PathTo(va, d + 1), rw % 2 == 1)
    {
      hide Tree, Allows, Agree, WidensAt;
      DirectoryAllows(tables, cr3, at, va, d, rw % 2 == 1);
      var e := tables[table][i];
      e := e.(rw := e.rw || rw % 2 == 1);
      tables := tables[table := tables[table][i := e]];
      TableThere(tables, cr3, at, PathTo(va, d + 1));
    }

    /**
     Since a request began, tables were only added and write bits only set on the way to va, down to
     depth d, and no translation changed.
     */
    ghost predicate Since(tables0: Tables, at0: map<Path, nat>, va: nat, d: nat, w: bool)
      requires d < 4
      reads this
    {
      Agree(tables0, tables, cr3) && Grown(at0, at, va, d) && Widens(tables0, at0, tables, at, va, d, w)
    }

    /** The step down one level that the three mapping functions share: make the table or widen its permission. */
    method Descend(ghost tables0: Tables, ghost at0: map<Path, nat>, ghost va: nat, ghost d: nat, table: nat, i: nat,
                   frame: nat, rw: nat) returns (next: nat)
      requires d < 3 && Reached(va, d, table, rw % 2 == 1) && i == Vpn(va, d) && !tables[table][i].ps
      requires frame !in tables && frame < FRAMES && Since(tables0, at0, va, d, rw % 2 == 1)
      modifies this
      ensures Reached(va, d + 1, next, rw % 2 == 1) && Since(tables0, at0, va, d + 1, rw % 2 == 1)
      ensures tables.Keys <= old(tables.Keys) + {frame}
    {
      hide Tree, Allows, Agree, Grown, Widens, WidensAt;
      ghost var tables1, at1 := tables, at;
      if !tables[table][i].present {
        NewDirectory(va, d, table, i, frame, rw);
      } else {
        AllowWrites(va, d, table, i, rw);
      }
      Twice(tables0, at0, tables1, at1, va, d + 1);
      WidensFurther(tables0, at0, tables1, at1, tables, at, va, d, rw % 2 == 1);
      next := tables[table][i].base;
    }

    lemma AtRoot(va: nat, w: bool)
      requires Valid()
      ensures Reached(va, 0, cr3, w) && !tables[cr3][Vpn(va, 0)].ps && Since(tables, at, va, 0, w)
    {
      NothingWidened(tables, at, va);
      assert EntryOk(tables[cr3][Vpn(va, 0)], [], Vpn(va, 0), at);
    }

    lemma AbsentIsZero(va: nat, d: nat)
      requires Valid() && d < 4 && PathTo(va, d) in at
      ensures !EntryAt(tables, at, va, d).present ==> EntryAt(tables, at, va, d) == ZERO
    {
      assert EntryOk(EntryAt(tables, at, va, d), PathTo(va, d), Vpn(va, d), at);
    }

    /** The request gives up at depth k. */
    lemma Refuse(tables0: Tables, at0: map<Path, nat>, pa: nat, va: nat, k: nat, d: nat, w: bool, table: nat)
      requires k <= d < 4 && Reached(va, k, table, w) && Since(tables0, at0, va, k, w)
      requires var e := tables[table][Vpn(va, k)]; if k < d then e.ps else e.present
      ensures MapOutcome(false, tables0, at0, tables, at, cr3, pa, va, d, w)
    {
      hide MapOutcome, Tree, Allows, Widens;
      RefusedOutcome(tables0, at0, tables, at, cr3, pa, va, k, d, w);
    }

    /** The request ends with a new page entry in `table`. */
    lemma Install(tables0: Tables, at0: map<Path, nat>, pa: nat, va: nat, d: nat, w: bool, table: nat)
      requires 0 < d < 4 && Reached(va, d, table, w) && Since(tables0, at0, va, d, w)
      requires !tables[table][Vpn(va, d)].present
      ensures tables[table][Vpn(va, d)] == ZERO
      ensures
        var tables' := Put(tables, table, Vpn(va, d), PageEntry(pa, d, w));
        Tree(tables', cr3, at) && MapOutcome(true, tables0, at0, tables', at, cr3, pa, va, d, w)
    {
      hide MapOutcome, Tree, Allows, Agree, Grown, Widens, PageEntry, Vacant, Installs;
      PageStored(tables, cr3, at, pa, va, d, w);
      EmptyHasNoTable(tables, cr3, at, va, d);
      WidensNothing(tables0, at0, tables, at, cr3, PathTo(va, d), Vpn(va, d), PageEntry(pa, d, w), va, d, w);
      MappedOutcome(tables0, at0, tables, WithPage(tables, at, pa, va, d, w), at, cr3, pa, va, d, w);
    }

    /** Maps a 1G page. */
    method MapHuge(pa: nat, va: nat, rw: nat, frames: seq<nat>) returns (ok: bool)
      requires Valid() && Unused(frames) && |frames| == 1
      modifies this
      ensures Valid() && tables.Keys <= old(tables.Keys) + {frames[0]}
      ensures MapOutcome(ok, old(tables), old(at), tables, at, cr3, pa, va, 1, rw % 2 == 1)
      ensures ok ==> Translate(va) == Some(Target((pa - pa % 0x4000_0000) % 0x1_0000_0000_0000 + va % 0x4000_0000, 0x4000_0000, rw % 2 == 1))
    {
      hide Tree, Since, Allows, MapOutcome, PathTo, Walk, Vpn, PageEntry;
      ghost var tables0, at0 := tables, at;
      var vpn1, vpn2, _, _, _ := ParseVirtAddr(va);
      AtRoot(va, rw % 2 == 1);
      var pdpt := Descend(tables0, at0, va, 0, cr3, vpn1, frames[0], rw);
      var pdpe := tables[pdpt][vpn2];
      if pdpe.present {
        Refuse(tables0, at0, pa, va, 1, 1, rw % 2 == 1, pdpt);
        return false;
      }
      Install(tables0, at0, pa, va, 1, rw % 2 == 1, pdpt);
      PageEntryIs(pa, 1, rw % 2 == 1);
      pdpe := pdpe.(ps := true);
      pdpe := pdpe.(rw := pdpe.rw || rw % 2 == 1);
      pdpe := pdpe.(base := pa / 0x4000_0000 % 0x4_0000 * 0x4_0000 + pdpe.base % 0x4_0000);
      pdpe := pdpe.(present := true);
      tables := tables[pdpt := tables[pdpt][vpn2 := pdpe]];
      PageMapped(tables0, at0, tables, at, cr3, pa, va, 1, rw % 2 == 1);
      return true;
    }

    /** Maps a 2M page. */
    method MapLarge(pa: nat, va: nat, rw: nat, frames: seq<nat>) returns (ok: bool)
      requires Valid() && Unused(frames) && |frames| == 2
      modifies this
      ensures Valid() && tables.Keys <= old(tables.Keys) + {frames[0], frames[1]}
      ensures MapOutcome(ok, old(tables), old(at), tables, at, cr3, pa, va, 2, rw % 2 == 1)
      ensures ok ==> Translate(va) == Some(Target((pa - pa % 0x20_0000) % 0x1_0000_0000_0000 + va % 0x20_0000, 0x20_0000, rw % 2 == 1))
    {
      hide Tree, Since, Allows, MapOutcome, PathTo, Walk, Vpn, PageEntry;
      ghost var tables0, at0 := tables, at;
      var vpn1, vpn2, vpn3, _, _ := ParseVirtAddr(va);
      AtRoot(va, rw % 2 == 1);
      var pdpt := Descend(tables0, at0, va, 0, cr3, vpn1, frames[0], rw);
      if tables[pdpt][vpn2].ps {
        Refuse(tables0, at0, pa, va, 1, 2, rw % 2 == 1, pdpt);
        return false;
      }
      var pd := Descend(tables0, at0, va, 1, pdpt, vpn2, frames[1], rw);
      var pde := tables[pd][vpn3];
      if pde.present {
        Refuse(tables0, at0, pa, va, 2, 2, rw % 2 == 1, pd);
        return false;
      }
      Install(tables0, at0, pa, va, 2, rw % 2 == 1, pd);
      PageEntryIs(pa, 2, rw % 2 == 1);
      pde := pde.(ps := true);
      pde := pde.(rw := pde.rw || rw % 2 == 1);
      pde := pde.(base := pa / 0x20_0000 % 0x800_0000 * 0x200 + pde.base % 0x200);
      pde := pde.(present := true);
      tables := tables[pd := tables[pd][vpn3 := pde]];
      PageMapped(tables0, at0, tables, at, cr3, pa, va, 2, rw % 2 == 1);
      return true;
    }

    lemma Twice(tables0: Tables, at0: map<Path, nat>, tables1: Tables, at1: map<Path, nat>, va: nat, n: nat)
      requires 0 < n < 4
      requires Agree(tables0, tables1, cr3) && Grown(at0, at1, va, n - 1)
      requires Agree(tables1, tables, cr3) && Grown(at1, at, va, n)
      ensures Agree(tables0, tables, cr3) && Grown(at0, at, va, n)
    {
      AgreeTwice(tables0, tables1, tables, cr3);
      GrownTwice(at0, at1, at, va, n);
    }

    lemma ThreeFrames(frames: seq<nat>)
      requires Unused(frames) && |frames| == 3
      ensures frames[0] !in tables && frames[1] !in tables.Keys + {frames[0]} && frames[2] !in tables.Keys + {frames[0], frames[1]}
      ensures frames[0] < FRAMES && frames[1] < FRAMES && frames[2] < FRAMES
    {
    }

    /** Maps a 4K page. */
    method Map(pa: nat, va: nat, rw: nat, frames: seq<nat>) returns (ok: bool)
      requires Valid() && Unused(frames) && |frames| == 3
      modifies this
      ensures Valid() && tables.Keys <= old(tables.Keys) + {frames[0], frames[1], frames[2]}
      ensures MapOutcome(ok, old(tables), old(at), tables, at, cr3, pa, va, 3, rw % 2 == 1)
      ensures ok ==> Translate(va) == Some(Target((pa - pa % 0x1000) % 0x1_0000_0000_0000 + va % 0x1000, 0x1000, rw % 2 == 1))
    {
      hide Tree, Since, Allows, MapOutcome, PathTo, Walk, Vpn, PageEntry, Unused;
      ThreeFrames(frames);
      ghost var tables0, at0 := tables, at;
      var vpn1, vpn2, vpn3, vpn4, _ := ParseVirtAddr(va);
      AtRoot(va, rw % 2 == 1);
      var pdpt := Descend(tables0, at0, va, 0, cr3, vpn1, frames[0], rw);
      if tables[pdpt][vpn2].present && tables[pdpt][vpn2].ps {
        Refuse(tables0, at0, pa, va, 1, 3, rw % 2 == 1, pdpt);
        return false;
      }
      AbsentIsZero(va, 1);
      var pd := Descend(tables0, at0, va, 1, pdpt, vpn2, frames[1], rw);
      if tables[pd][vpn3].present && tables[pd][vpn3].ps {
        Refuse(tables0, at0, pa, va, 2, 3, rw % 2 == 1, pd);
        return false;
      }
      AbsentIsZero(va, 2);
      var pt := Descend(tables0, at0, va, 2, pd, vpn3, frames[2], rw);
      var pte := tables[pt][vpn4];
      if pte.present {
        Refuse(tables0, at0, pa, va, 3, 3, rw % 2 == 1, pt);
        return false;
      }
      Install(tables0, at0, pa, va, 3, rw % 2 == 1, pt);
      PageEntryIs(pa, 3, rw % 2 == 1);
      pte := pte.(rw := rw % 2 == 1);
      pte := pte.(base := pa / BASE_PAGE_SIZE % FRAMES);
      pte := pte.(present := true);
      tables := tables[pt := tables[pt][vpn4 := pte]];
      PageMapped(tables0, at0, tables, at, cr3, pa, va, 3, rw % 2 == 1);
      return true;
    }

    /** Removes the page that translates va, whatever its size; tables stay. */
    method Unmap(va: nat)
      requires Valid()
      modifies `tables
      ensures Valid() && tables.Keys == old(tables.Keys)
      ensures UnmapOutcome(old(tables), tables, at, cr3, va)
      ensures Translate(va) == None && forall a: nat :: Translate(a) == None || Translate(a) == old(Translate(a))
    {
      hide Tree, UnmapOutcome, Put, Walk;
      var vpn1, vpn2, vpn3, vpn4, _ := ParseVirtAddr(va);
      AtRoot(va, false);
      NextTable(va, 0, cr3);
      if !tables[cr3][vpn1].present {
        return;
      }
      var pdpt := tables[cr3][vpn1].base;
      NextTable(va, 1, pdpt);
      if tables[pdpt][vpn2].ps {
        ClearEntry(va, 1, pdpt, vpn2);
        return;
      }
      if !tables[pdpt][vpn2].present {
        return;
      }
      var pd := tables[pdpt][vpn2].base;
      NextTable(va, 2, pd);
      if tables[pd][vpn3].ps {
        ClearEntry(va, 2, pd, vpn3);
        return;
      }
      if !tables[pd][vpn3].present {
        return;
      }
      var pt := tables[pd][vpn3].base;
      NextTable(va, 3, pt);
      ClearEntry(va, 3, pt, vpn4);
    }

    lemma NextTable(va: nat, d: nat, table: nat)
      requires d < 4 && Reached(va, d, table, false)
      ensures !tables[table][Vpn(va, d)].present ==> UnmapOutcome(tables, tables, at, cr3, va) && Translate(va) == None
      ensures tables[table][Vpn(va, d)].ps ==> tables[table][Vpn(va, d)].present && PathTo(va, d + 1) !in at
      ensures d == 3 ==> PathTo(va, d + 1) !in at
      ensures var e := tables[table][Vpn(va, d)];
        d < 3 && e.present && !e.ps ==> Reached(va, d + 1, e.base, false)
    {
      hide Tree, Put;
      var e := tables[table][Vpn(va, d)];
      AllowedAbove(tables, cr3, at, PathTo(va, d), Vpn(va, d));
      assert PathTo(va, d + 1) == Child(PathTo(va, d), Vpn(va, d));
      WalkFrom(tables, cr3, at, va, d);
      WalkStep(tables, cr3, at, va, d);
      if d < 3 && e.present && !e.ps {
        TableThere(tables, cr3, at, PathTo(va, d + 1));
      }
    }

    /** raw = 0 on an entry without a subtree. */
    method ClearEntry(ghost va: nat, ghost d: nat, table: nat, i: nat)
      requires d < 4 && Reached(va, d, table, false) && i == Vpn(va, d) && PathTo(va, d + 1) !in at
      modifies `tables
      ensures Valid() && tables.Keys == old(tables.Keys)
      ensures UnmapOutcome(old(tables), tables, at, cr3, va)
      ensures Translate(va) == None && forall a: nat :: Translate(a) == None || Translate(a) == old(Translate(a))
    {
      hide Tree, UnmapOutcome, Walk;
      ghost var tables0 := tables;
      EntryCleared(tables, cr3, at, va, d);
      tables := tables[table := tables[table][i := ZERO]];
      UnmapClears(tables0, tables, at, cr3, va);
    }
  }
}
