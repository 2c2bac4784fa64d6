/** Whole runs of map and unmap requests against a specification that only looks at the requests. */
module PageRuns {
  import opened PageWalk
  import opened PageUpdates
  import opened PageTables

  datatype Size = Huge | Large | Base {
    /** The level of the page's entry: 1G pages sit in the second table, 4K pages in the last. */
    function Depth(): (d: nat)
      ensures 0 < d < 4
    {
      if Huge? then 1 else if Large? then 2 else 3
    }
  }

  datatype Request = MapPage(pa: nat, va: nat, rw: nat, size: Size) | UnmapPage(va: nat)

  datatype Event = Event(r: Request, ok: bool)

  type History = seq<Event>

  /** The translation of va after the history: the last successful mapping of its page that was not removed. */
  ghost function Expected(h: History, va: nat): Option<Target>
    decreases |h|, 0
  {
    if h == [] then None else After(h[..|h| - 1], h[|h| - 1], va)
  }

  ghost function After(before: History, x: Event, va: nat): Option<Target>
    decreases |before|, 1
  {
    match x.r
    case MapPage(pa, va0, rw, size) =>
      var span := Span(size.Depth());
      if x.ok && SamePage(va0, va, span) then Some(Target(PageBase(pa, span) + va % span, span, rw % 2 == 1))
      else Expected(before, va)
    case UnmapPage(va0) =>
      var t := Expected(before, va0);
      if t.Some? && t.value.span > 0 && SamePage(va0, va, t.value.span) then None else Expected(before, va)
  }

  /** Some request for a smaller page in the span has left a table there. */
  ghost predicate Tabled(h: History, va: nat, d: nat)
    requires d < 4
  {
    h != [] && (Digs(h[..|h| - 1], h[|h| - 1].r, va, d) || Tabled(h[..|h| - 1], va, d))
  }

  ghost predicate Digs(before: History, r: Request, va: nat, d: nat)
    requires d < 4
  {
    r.MapPage? && d < r.size.Depth() && SamePage(r.va, va, Span(d)) && !Covers(Expected(before, r.va), d)
  }

  /** A request to map is refused when a page as large translates va, or a table for smaller pages was made. */
  ghost predicate Refused(h: History, r: Request) {
    r.MapPage? && (Covers(Expected(h, r.va), r.size.Depth()) || Tabled(h, r.va, r.size.Depth()))
  }

  /** Some request to write that came through the directory entry for va at depth d, or made it. */
  ghost predicate Widened(h: History, va: nat, d: nat)
    requires d < 4
  {
    h != [] && ((Digs(h[..|h| - 1], h[|h| - 1].r, va, d) && h[|h| - 1].r.rw % 2 == 1) || Widened(h[..|h| - 1], va, d))
  }

  /** The page table implements the history. */
  ghost predicate Implements(h: History, tables: Tables, root: nat, at: map<Path, nat>) {
    && (forall va: nat :: Walk(tables, root, 0, va) == Expected(h, va))
    && (forall va: nat, d: nat | d < 4 :: PathTo(va, d + 1) in at <==> Tabled(h, va, d))
    && (forall va: nat, d: nat | d < 4 && Tabled(h, va, d) :: Allows(tables, at, PathTo(va, d + 1)) <==> Widened(h, va, d))
  }

  lemma Extended(h: History, x: Event)
    ensures forall va: nat :: Expected(h + [x], va) == After(h, x, va)
    ensures forall va: nat, d: nat | d < 4 :: Tabled(h + [x], va, d) <==> Digs(h, x.r, va, d) || Tabled(h, va, d)
    ensures forall va: nat, d: nat | d < 4 ::
      Widened(h + [x], va, d) <==> (Digs(h, x.r, va, d) && x.r.rw % 2 == 1) || Widened(h, va, d)
  {
    assert (h + [x])[..|h|] == h;
  }

  lemma TablesMade(h: History, r: Request, tables: Tables, root: nat, at: map<Path, nat>, at': map<Path, nat>, va: nat, d: nat)
    requires r.MapPage? && d < 4 && Implements(h, tables, root, at)
    requires Grown(at, at', r.va, r.size.Depth()) && Dug(Walk(tables, root, 0, r.va), at', r.va, r.size.Depth())
    ensures PathTo(va, d + 1) in at' <==> Digs(h, r, va, d) || Tabled(h, va, d)
  {
    hide Covers, SamePage;
    SamePageIsSamePath(r.va, va, d);
    assert Walk(tables, root, 0, r.va) == Expected(h, r.va);
    assert PathTo(va, d + 1) in at <==> Tabled(h, va, d);
  }

  lemma WritesMade(h: History, r: Request, tables: Tables, root: nat, at: map<Path, nat>, tables': Tables, at': map<Path, nat>, va: nat, d: nat)
    requires r.MapPage? && d < 4 && Implements(h, tables, root, at)
    requires Grown(at, at', r.va, r.size.Depth()) && Dug(Walk(tables, root, 0, r.va), at', r.va, r.size.Depth())
    requires Widens(tables, at, tables', at', r.va, r.size.Depth(), r.rw % 2 == 1)
    requires PathTo(va, d + 1) in at'
    ensures Allows(tables', at', PathTo(va, d + 1)) <==> (Digs(h, r, va, d) && r.rw % 2 == 1) || Widened(h, va, d)
  {
    hide Covers, SamePage, Allows, PathTo, Walk;
    SamePageIsSamePath(r.va, va, d);
    TablesMade(h, r, tables, root, at, at', va, d);
    assert Walk(tables, root, 0, r.va) == Expected(h, r.va);
    assert PathTo(va, d + 1) in at <==> Tabled(h, va, d);
    assert Tabled(h, va, d) ==> (Allows(tables, at, PathTo(va, d + 1)) <==> Widened(h, va, d));
    WidenedIsTabled(h, va, d);
  }

  lemma {:induction false} WidenedIsTabled(h: History, va: nat, d: nat)
    requires d < 4
    ensures Widened(h, va, d) ==> Tabled(h, va, d)
  {
    hide Digs;
    if h != [] {
      WidenedIsTabled(h[..|h| - 1], va, d);
    }
  }

  lemma MapImplements(h: History, r: Request, ok: bool, tables: Tables, at: map<Path, nat>, tables': Tables, at': map<Path, nat>, root: nat)
    requires r.MapPage? && Implements(h, tables, root, at)
    requires MapOutcome(ok, tables, at, tables', at', root, r.pa, r.va, r.size.Depth(), r.rw % 2 == 1)
    ensures ok <==> !Refused(h, r)
    ensures Implements(h + [Event(r, ok)], tables', root, at')
  {
    hide SamePage, Span, PageBase, Vacant, Grown, Dug, Widens, Allows, Tabled, Digs, Widened, Expected, Walk;
    var h' := h + [Event(r, ok)];
    Extended(h, Event(r, ok));
    assert Walk(tables, root, 0, r.va) == Expected(h, r.va);
    forall va: nat
      ensures Walk(tables', root, 0, va) == Expected(h', va)
    {
      assert Walk(tables, root, 0, va) == Expected(h, va);
    }
    forall va: nat, d: nat | d < 4
      ensures PathTo(va, d + 1) in at' <==> Tabled(h', va, d)
    {
      TablesMade(h, r, tables, root, at, at', va, d);
    }
    forall va: nat, d: nat | d < 4 && Tabled(h', va, d)
      ensures Allows(tables', at', PathTo(va, d + 1)) <==> Widened(h', va, d)
    {
      WritesMade(h, r, tables, root, at, tables', at', va, d);
    }
  }

  lemma UnmapImplements(h: History, va: nat, tables: Tables, tables': Tables, at: map<Path, nat>, root: nat)
    requires Implements(h, tables, root, at) && UnmapOutcome(tables, tables', at, root, va)
    ensures Implements(h + [Event(UnmapPage(va), true)], tables', root, at)
  {
    hide SamePage, Tabled, Widened, Allows, Expected;
    var h' := h + [Event(UnmapPage(va), true)];
    Extended(h, Event(UnmapPage(va), true));
    assert Walk(tables, root, 0, va) == Expected(h, va);
    forall a: nat
      ensures Walk(tables', root, 0, a) == Expected(h', a)
    {
      assert Walk(tables, root, 0, a) == Expected(h, a);
    }
  }

  /** Serves the requests in order; the history alone decides every outcome and every translation. */
  method Run(pt: PageTable, requests: seq<Request>, frames: seq<nat>) returns (h: History)
    requires pt.Valid() && pt.at.Keys == {[]} && forall va: nat :: pt.Translate(va) == None
    requires pt.Unused(frames) && |frames| == 3 * |requests|
    modifies pt
    ensures pt.Valid() && |h| == |requests|
    ensures forall k | 0 <= k < |h| :: h[k].r == requests[k] && (h[k].ok <==> !Refused(h[..k], requests[k]))
    ensures forall va: nat :: pt.Translate(va) == Expected(h, va)
    ensures forall va: nat, d: nat | d < 4 :: PathTo(va, d + 1) in pt.at <==> Tabled(h, va, d)
    ensures forall va: nat, d: nat | d < 4 && Tabled(h, va, d) :: Allows(pt.tables, pt.at, PathTo(va, d + 1)) <==> Widened(h, va, d)
  {
    hide Tree, Refused, MapOutcome, UnmapOutcome, Implements;
    h := [];
    assert forall va: nat :: Walk(pt.tables, pt.cr3, 0, va) == pt.Translate(va);
    FreshImplements(pt.tables, pt.cr3, pt.at);
    while |h| < |requests|
      invariant |h| <= |requests| && pt.Valid() && Implements(h, pt.tables, pt.cr3, pt.at)
      invariant forall k | 0 <= k < |h| :: h[k].r == requests[k] && (h[k].ok <==> !Refused(h[..k], requests[k]))
      invariant forall k | 3 * |h| <= k < |frames| :: frames[k] !in pt.tables
    {
      var h' := Serve(pt, h, requests[|h|], frames[3 * |h|], frames[3 * |h| + 1], frames[3 * |h| + 2]);
      assert forall k | 0 <= k <= |h| :: h'[..k] == h[..k];
      h := h';
    }
    Translates(h, pt.tables, pt.cr3, pt.at);
  }

  method Serve(pt: PageTable, h: History, r: Request, f0: nat, f1: nat, f2: nat) returns (h': History)
    requires pt.Valid() && pt.Unused([f0, f1, f2]) && Implements(h, pt.tables, pt.cr3, pt.at)
    modifies pt
    ensures pt.Valid() && pt.tables.Keys <= old(pt.tables.Keys) + {f0, f1, f2}
    ensures |h'| == |h| + 1 && h'[..|h|] == h && h'[|h|].r == r && (h'[|h|].ok <==> !Refused(h, r))
    ensures Implements(h', pt.tables, pt.cr3, pt.at)
  {
    hide Tree, MapOutcome, UnmapOutcome, Implements;
    ghost var tables, at := pt.tables, pt.at;
    var ok := true;
    assert [f0, f1, f2][0] == f0 && [f0, f1, f2][1] == f1 && [f0, f1, f2][2] == f2;
    match r {
      case UnmapPage(va) =>
        pt.Unmap(va);
        UnmapImplements(h, va, tables, pt.tables, at, pt.cr3);
      case MapPage(pa, va, rw, size) =>
        match size {
          case Huge => ok := pt.MapHuge(pa, va, rw, [f0]);
          case Large => ok := pt.MapLarge(pa, va, rw, [f0, f1]);
          case Base => ok := pt.Map(pa, va, rw, [f0, f1, f2]);
        }
        MapImplements(h, r, ok, tables, at, pt.tables, pt.at, pt.cr3);
    }
    h' := h + [Event(r, ok)];
  }

  lemma Translates(h: History, tables: Tables, root: nat, at: map<Path, nat>)
    requires Implements(h, tables, root, at)
    ensures forall va: nat :: Walk(tables, root, 0, va) == Expected(h, va)
    ensures forall va: nat, d: nat | d < 4 :: PathTo(va, d + 1) in at <==> Tabled(h, va, d)
    ensures forall va: nat, d: nat | d < 4 && Tabled(h, va, d) :: Allows(tables, at, PathTo(va, d + 1)) <==> Widened(h, va, d)
  {
  }

  lemma FreshImplements(tables: Tables, root: nat, at: map<Path, nat>)
    requires at.Keys == {[]} && forall va: nat :: Walk(tables, root, 0, va) == None
    ensures Implements([], tables, root, at)
  {
    forall va: nat, n: nat | 0 < n <= 4
      ensures PathTo(va, n) !in at
    {
    }
  }

  // ---- Tables left empty ---------------------------------------------------------------------

  /** Every table but the root leads to some translation. */
  ghost predicate NoEmptyTables(tables: Tables, root: nat, at: map<Path, nat>) {
    forall p | p in at && p != [] :: Leads(tables, root, p)
  }

  ghost predicate Leads(tables: Tables, root: nat, p: Path) {
    exists va: nat :: |p| <= 4 && PathTo(va, |p|) == p && Walk(tables, root, 0, va).Some?
  }

  /** Mapping alone never leaves a table empty. */
  lemma MapLeavesNoEmptyTable(ok: bool, tables: Tables, at: map<Path, nat>, tables': Tables, at': map<Path, nat>, root: nat,
                              pa: nat, va: nat, d: nat, w: bool)
    requires d < 4 && Tree(tables, root, at) && NoEmptyTables(tables, root, at)
    requires MapOutcome(ok, tables, at, tables', at', root, pa, va, d, w)
    ensures NoEmptyTables(tables', root, at')
  {
    hide Tree, MapOutcome, Blocked;
    TranslationsKept(ok, tables, at, tables', at', root, pa, va, d, w);
    forall p | p in at' && p != []
      ensures Leads(tables', root, p)
    {
      if p in at {
        var a: nat :| |p| <= 4 && PathTo(a, |p|) == p && Walk(tables, root, 0, a).Some?;
        assert Walk(tables', root, 0, a).Some?;
      } else {
        NewTableUsed(ok, tables, at, tables', at', root, pa, va, d, w, p);
      }
    }
  }

  lemma TranslationsKept(ok: bool, tables: Tables, at: map<Path, nat>, tables': Tables, at': map<Path, nat>, root: nat,
                         pa: nat, va: nat, d: nat, w: bool)
    requires d < 4 && MapOutcome(ok, tables, at, tables', at', root, pa, va, d, w)
    ensures forall a: nat :: Walk(tables, root, 0, a).Some? ==> Walk(tables', root, 0, a).Some?
    ensures ok ==> Walk(tables', root, 0, va).Some?
  {
    hide Walk, Grown, Dug, Blocked, PageBase, Span;
  }

  lemma NewTableUsed(ok: bool, tables: Tables, at: map<Path, nat>, tables': Tables, at': map<Path, nat>, root: nat,
                     pa: nat, va: nat, d: nat, w: bool, p: Path)
    requires d < 4 && Tree(tables, root, at) && MapOutcome(ok, tables, at, tables', at', root, pa, va, d, w)
    requires p in at' && p !in at
    ensures Leads(tables', root, p)
  {
    hide Walk, Dug, PageBase, Span, Tree, Installs, Vacant, Agree, PathTo;
    TranslationsKept(ok, tables, at, tables', at', root, pa, va, d, w);
    if !ok && PathTo(va, d + 1) in at {
      AllPrefixesIn(tables, root, at, va, |p|, d + 1);
    }
  }

  /** Then a request is refused exactly when its span overlaps a page. */
  lemma RefusedIffOverlapping(tables: Tables, root: nat, at: map<Path, nat>, va: nat, d: nat)
    requires d < 4 && Tree(tables, root, at)
    ensures (exists a: nat :: SamePage(va, a, Span(d)) && Walk(tables, root, 0, a).Some?) ==> Blocked(tables, root, at, va, d)
    ensures NoEmptyTables(tables, root, at) && Blocked(tables, root, at, va, d) ==>
      exists a: nat :: SamePage(va, a, Span(d)) && Walk(tables, root, 0, a).Some?
  {
    hide Tree, Walk, Span, PathTo;
    if a: nat :| SamePage(va, a, Span(d)) && Walk(tables, root, 0, a).Some? {
      OverlapBlocks(tables, root, at, va, d, a);
    }
    if NoEmptyTables(tables, root, at) && Blocked(tables, root, at, va, d) {
      if PathTo(va, d + 1) in at {
        assert Leads(tables, root, PathTo(va, d + 1));
        var a: nat :| PathTo(a, d + 1) == PathTo(va, d + 1) && Walk(tables, root, 0, a).Some?;
        SamePageIsSamePath(va, a, d);
      } else {
        assert SamePage(va, va, Span(d));
      }
    }
  }

  /** A table was left by some earlier request for a smaller page in the span, made when no page that large was in its way. */
  lemma {:induction false} TabledByRequest(h: History, va: nat, d: nat)
    requires d < 4
    ensures Tabled(h, va, d) <==> exists k :: 0 <= k < |h| && Digs(h[..k], h[k].r, va, d)
  {
    hide Digs;
    if h != [] {
      var n := |h| - 1;
      var before := h[..n];
      TabledByRequest(before, va, d);
      assert forall k | 0 <= k <= n :: before[..k] == h[..k];
      assert forall k | 0 <= k < n :: before[k] == h[k];
      if k :| 0 <= k < n && Digs(before[..k], before[k].r, va, d) {
        assert Digs(h[..k], h[k].r, va, d);
      }
      if k :| 0 <= k < |h| && Digs(h[..k], h[k].r, va, d) {
        assert k < n ==> Digs(before[..k], before[k].r, va, d);
      }
    }
  }

  /** A write bit above va was set by some such request that asked to write. */
  lemma {:induction false} WidenedByRequest(h: History, va: nat, d: nat)
    requires d < 4
    ensures Widened(h, va, d) <==> exists k :: 0 <= k < |h| && Digs(h[..k], h[k].r, va, d) && h[k].r.rw % 2 == 1
  {
    hide Digs;
    DigsMaps(h, va, d);
    if h != [] {
      var n := |h| - 1;
      var before := h[..n];
      WidenedByRequest(before, va, d);
      assert forall k | 0 <= k <= n :: before[..k] == h[..k];
      assert forall k | 0 <= k < n :: before[k] == h[k];
      if k :| 0 <= k < n && Digs(before[..k], before[k].r, va, d) && before[k].r.rw % 2 == 1 {
        assert Digs(h[..k], h[k].r, va, d);
      }
      if k :| 0 <= k < |h| && Digs(h[..k], h[k].r, va, d) && h[k].r.rw % 2 == 1 {
        assert k < n ==> Digs(before[..k], before[k].r, va, d);
      }
    }
  }

  lemma DigsMaps(h: History, va: nat, d: nat)
    requires d < 4
    ensures forall k | 0 <= k < |h| && Digs(h[..k], h[k].r, va, d) :: h[k].r.MapPage?
  {
  }

  /** The sizes of the three kinds of pages. */
  lemma PageSizes(h: History, pa: nat, va: nat, rw: nat, size: Size)
    ensures var n := match size case Huge => 0x4000_0000 case Large => 0x20_0000 case Base => 0x1000;
      Expected(h + [Event(MapPage(pa, va, rw, size), true)], va)
        == Some(Target((pa - pa % n) % 0x1_0000_0000_0000 + va % n, n, rw % 2 == 1))
  {
    Extended(h, Event(MapPage(pa, va, rw, size), true));
    assert SamePage(va, va, Span(size.Depth()));
  }

  /** With nothing mapped in its span, a request is refused exactly because of such an earlier request. */
  lemma EmptySpanRefused(h: History, r: Request)
    requires r.MapPage? && forall a: nat | SamePage(r.va, a, Span(r.size.Depth())) :: Expected(h, a) == None
    ensures Refused(h, r) <==> exists k :: 0 <= k < |h| && Digs(h[..k], h[k].r, r.va, r.size.Depth())
  {
    assert SamePage(r.va, r.va, Span(r.size.Depth()));
    TabledByRequest(h, r.va, r.size.Depth());
  }

  lemma OverlapBlocks(tables: Tables, root: nat, at: map<Path, nat>, va: nat, d: nat, a: nat)
    requires d < 4 && Tree(tables, root, at) && SamePage(va, a, Span(d)) && Walk(tables, root, 0, a).Some?
    ensures Blocked(tables, root, at, va, d)
  {
    SamePageIsSamePath(va, a, d);
    if PathTo(va, d + 1) !in at {
      LargePage(tables, root, at, va, 0, d, a);
    }
  }

  /** A page found through an entry without a table is at least as large as the entry's span, and serves all of it. */
  lemma {:induction false} LargePage(tables: Tables, root: nat, at: map<Path, nat>, va: nat, k: nat, d: nat, a: nat)
    requires k <= d < 4 && Tree(tables, root, at) && PathTo(va, k) in at && PathTo(va, d + 1) !in at
    requires PathTo(va, d + 1) == PathTo(a, d + 1)
    requires Walk(tables, root, 0, a).Some?
    ensures Covers(Walk(tables, root, 0, va), d)
    decreases d - k
  {
    hide Tree, PathTo, Walk, LeafTarget, Span, Vpn;
    SamePrefixes(va, a, k, d + 1);
    SamePrefixes(va, a, k + 1, d + 1);
    PathEnds(va, a, k);
    WalkFrom(tables, root, at, va, k);
    WalkFrom(tables, root, at, a, k);
    WalkStep(tables, root, at, va, k);
    WalkStep(tables, root, at, a, k);
    if PathTo(va, k + 1) in at {
      LargePage(tables, root, at, va, k + 1, d, a);
    } else {
      TableThere(tables, root, at, PathTo(va, k));
      LeafCovers(EntryAt(tables, at, va, k), k, d, va, a);
    }
  }

  lemma LeafCovers(e: Entry, k: nat, d: nat, va: nat, a: nat)
    requires k <= d < 4 && LeafTarget(e, k, a).Some?
    ensures Covers(LeafTarget(e, k, va), d)
  {
  }

  lemma {:induction false} SamePrefixes(va: nat, a: nat, k: nat, n: nat)
    requires k <= n <= 4 && PathTo(va, n) == PathTo(a, n)
    ensures PathTo(va, k) == PathTo(a, k)
  {
    if k < n {
      PathEnds(va, a, n - 1);
      SamePrefixes(va, a, k, n - 1);
    }
  }

  /** Unmapping does: after a 4K page came and went, nothing is mapped and yet a 1G page is refused. */
  lemma EmptyTableRefuses()
    ensures
      var h := [Event(MapPage(0, 0, 0, Base), true), Event(UnmapPage(0), true)];
      (forall va: nat :: Expected(h, va) == None) && Refused(h, MapPage(0, 0, 0, Huge))
  {
    var x, y := Event(MapPage(0, 0, 0, Base), true), Event(UnmapPage(0), true);
    assert [x, y][..1] == [x] && [x][..0] == [];
    forall va: nat
      ensures Expected([x, y], va) == None
    {
      Extended([], x);
      Extended([x], y);
      assert [] + [x] == [x] && [x] + [y] == [x, y];
      assert Expected([x], 0).Some? && Expected([x], 0).value.span == 4096;
      assert Expected([x], va) == After([], x, va) && Expected([x, y], va) == After([x], y, va);
      assert Expected([], va) == None;
    }
    assert Digs([], x.r, 0, 1);
    assert Tabled([x], 0, 1);
  }

  /** The same by calls: the third request is refused although nothing is mapped. */
  method MapUnmapMap(pt: PageTable, frames: seq<nat>) returns (h: History)
    requires pt.Valid() && pt.at.Keys == {[]} && forall va: nat :: pt.Translate(va) == None
    requires pt.Unused(frames) && |frames| == 9
    modifies pt
    ensures pt.Valid() && |h| == 3 && h[0].ok && !h[2].ok && h[2].r == MapPage(0, 0, 0, Huge)
    ensures forall va: nat :: pt.Translate(va) == Expected(h[..2], va) == None
  {
    hide Tree, Expected, Tabled, Refused;
    var requests := [MapPage(0, 0, 0, Base), UnmapPage(0), MapPage(0, 0, 0, Huge)];
    h := Run(pt, requests, frames);
    NotRefused([], requests[0]);
    NotRefused(h[..1], requests[1]);
    EmptyTableRefuses();
    assert h[..0] == [] && h[..2] == [Event(requests[0], true), Event(requests[1], true)] && h == h[..2] + [h[2]];
    Extended(h[..2], h[2]);
  }

  lemma NotRefused(h: History, r: Request)
    requires h == [] || r.UnmapPage?
    ensures !Refused(h, r)
  {
  }
}
