/** The simulator's arrays and counters, updated in place, against the trace-based specification. */
module CacheSim {
  import opened Powers
  import opened LruSpec
  import opened CacheLines
  import opened CacheSpec

  class Counters {
    var hits: nat
    var misses: nat
    var evictions: nat

    constructor ()
      ensures hits == misses == evictions == 0
    {
      hits, misses, evictions := 0, 0, 0;
    }
  }

  class CacheSet {
    const valid: array<bool>
    const blocks: array<nat>
    const lru: array<nat>
    ghost var free: nat   // number of invalid lines

    ghost function Repr(): set<object> {
      {this, valid, blocks, lru}
    }

    ghost function Now(): Lines
      reads Repr()
    {
      Lines(valid[..], blocks[..], lru[..])
    }

    ghost predicate Valid(ways: nat)
      reads Repr()
    {
      blocks != lru && LinesOk(Now(), ways, free)
    }

    ghost function List(ways: nat): Recency
      requires Valid(ways)
      reads Repr()
    {
      ListOf(Now(), free)
    }

    constructor (ways: nat)
      ensures Valid(ways) && fresh(Repr()) && List(ways) == []
    {
      valid := new bool[ways](i => false);
      blocks := new nat[ways](i => 0);
      lru := new nat[ways];
      free := ways;
      new;
      var a := 0;
      while a < ways
        invariant a <= ways && forall k | 0 <= k < a :: lru[k] == k
        invariant free == ways && forall k | 0 <= k < ways :: !valid[k]
      {
        lru[a] := a;
        a := a + 1;
      }
      assert Permutation(lru[..]) by {
        forall i: nat | i < ways
          ensures i in lru[..]
        {
          assert lru[..][i] == i;
        }
      }
    }

    /** Moves `index` to the end of the order; false if it is not there. */
    method UpdateLru(index: nat) returns (found: bool)
      requires Permutation(lru[..]) && blocks != lru
      modifies lru
      ensures found <==> index in old(lru[..])
      ensures found ==> lru[..] == MoveToEnd(old(lru[..]), Index(old(lru[..]), index))
      ensures !found ==> lru[..] == old(lru[..])
    {
      hide Permutation, MoveToEnd, ShiftedFrom;
      ghost var was := lru[..];
      var ways := lru.Length;
      var i := 0;
      while i < ways
        invariant i <= ways && lru[..] == was && index !in was[..i]
      {
        if lru[i] == index {
          var j := i;
          NothingShifted(was, i);
          while j < ways - 1
            invariant i <= j < ways && lru.Length == ways && ShiftedFrom(lru[..], was, i, j)
          {
            ShiftOne(lru[..], was, i, j);
            lru[j] := lru[j + 1];
            j := j + 1;
          }
          ShiftedToEnd(lru[..], was, i);
          lru[ways - 1] := index;
          IndexUnique(was, i);
          return true;
        }
        i := i + 1;
      }
      assert was[..ways] == was;
      return false;
    }

    /** Looks the tag up, and on a miss fills a free line or replaces the least recently used one. */
    method Access(counts: Counters, tag: nat, ghost ways: nat)
      requires Valid(ways) && ways > 0
      modifies Repr(), counts
      ensures Valid(ways) && List(ways) == Touch(old(List(ways)), tag, ways)
      ensures counts.hits == old(counts.hits) + (if tag in old(List(ways)) then 1 else 0)
      ensures counts.misses == old(counts.misses) + (if tag in old(List(ways)) then 0 else 1)
      ensures counts.evictions == old(counts.evictions) + (if tag !in old(List(ways)) && |old(List(ways))| == ways then 1 else 0)
    {
      hide LinesOk, ListOf, Touch, MoveToEnd, Filled, Permutation, Index;
      ghost var l := Now();
      Sizes(l, ways, free);
      var i := 0;
      while i < blocks.Length
        invariant i <= ways && Now() == l && unchanged(this) && unchanged(counts)
        invariant forall k | 0 <= k < i :: !(blocks[k] == tag && valid[k])
      {
        if blocks[i] == tag && valid[i] {
          HitLine(l, ways, free, i);
          counts.hits := counts.hits + 1;
          var found := UpdateLru(i);
          assert Now() == l.(lru := MoveToEnd(l.lru, Index(l.lru, i)));
          return;
        }
        i := i + 1;
      }
      ListedIffValid(l, ways, free, tag);
      counts.misses := counts.misses + 1;
      i := 0;
      while i < valid.Length
        invariant i <= ways && Now() == l && unchanged(this)
        invariant counts.hits == old(counts.hits) && counts.misses == old(counts.misses) + 1 && counts.evictions == old(counts.evictions)
        invariant forall k | 0 <= k < i :: valid[k]
      {
        if !valid[i] {
          FreeLine(l, ways, free, i);
          FillLine(l, ways, free, Index(l.lru, i), tag);
          valid[i] := true;
          blocks[i] := tag;
          var found := UpdateLru(i);
          FilledIs(l, Index(l.lru, i), tag);
          assert Now() == Filled(l, Index(l.lru, i), tag);
          free := free - 1;
          return;
        }
        i := i + 1;
      }
      NoFreeLine(l, ways, free);
      counts.evictions := counts.evictions + 1;
      var evict := lru[0];
      FillLine(l, ways, free, 0, tag);
      blocks[evict] := tag;
      var found := UpdateLru(evict);
      FilledIs(l, 0, tag);
      assert Now() == Filled(l, 0, tag);
    }
  }

  lemma IndexUnique(s: seq<nat>, i: nat)
    requires Permutation(s) && i < |s|
    ensures Index(s, s[i]) == i
  {
  }

  lemma FilledIs(l: Lines, p: nat, tag: nat)
    requires p < |l.lru| && l.lru[p] < |l.valid| == |l.blocks|
    ensures Filled(l, p, tag) == Lines(l.valid[l.lru[p] := true], l.blocks[l.lru[p] := tag], MoveToEnd(l.lru, p))
  {
  }

  /** s is was with the elements after i, up to j, moved one place down. */
  ghost predicate ShiftedFrom(s: seq<nat>, was: seq<nat>, i: nat, j: nat) {
    && |s| == |was| && i <= j < |s|
    && forall k | 0 <= k < |s| :: s[k] == was[if i <= k < j then k + 1 else k]
  }

  lemma NothingShifted(s: seq<nat>, i: nat)
    requires i < |s|
    ensures ShiftedFrom(s, s, i, i)
  {
  }

  lemma ShiftOne(s: seq<nat>, was: seq<nat>, i: nat, j: nat)
    requires j + 1 < |s|
    ensures ShiftedFrom(s, was, i, j) ==> ShiftedFrom(s[j := s[j + 1]], was, i, j + 1)
  {
  }

  lemma ShiftedToEnd(s: seq<nat>, was: seq<nat>, i: nat)
    requires |s| > 0
    ensures ShiftedFrom(s, was, i, |s| - 1) ==> i < |was| && s[|s| - 1 := was[i]] == MoveToEnd(was, i)
  {
    if ShiftedFrom(s, was, i, |s| - 1) {
      var t := s[|s| - 1 := was[i]];
      forall k: nat | k < |s|
        ensures t[k] == MoveToEnd(was, i)[k]
      {
        MoveAt(was, i, k);
      }
    }
  }

  lemma Sizes(l: Lines, ways: nat, free: nat)
    requires LinesOk(l, ways, free)
    ensures |l.valid| == |l.blocks| == |l.lru| == ways && Permutation(l.lru)
    ensures |ListOf(l, free)| == ways - free && free <= ways
    ensures ways > 0 ==> l.lru[0] < ways
  {
  }

  lemma FreeLine(l: Lines, ways: nat, free: nat, i: nat)
    requires LinesOk(l, ways, free) && i < ways && !l.valid[i]
    ensures i in l.lru && Index(l.lru, i) < free
  {
    assert l.lru[Index(l.lru, i)] == i;
  }

  lemma NoFreeLine(l: Lines, ways: nat, free: nat)
    requires LinesOk(l, ways, free) && ways > 0 && forall i | 0 <= i < ways :: l.valid[i]
    ensures free == 0 && l.valid[l.lru[0] := true] == l.valid && Index(l.lru, l.lru[0]) == 0
  {
    assert l.valid[l.lru[0]];
    assert l.valid[l.lru[0] := true] == l.valid;
    IndexUnique(l.lru, 0);
  }

  // ---- The whole cache -------------------------------------------------------------------------

  ghost function Misses(g: Geometry, trace: seq<nat>): nat {
    |trace| - Hits(g, trace)
  }

  /** Misses that found their set full. */
  ghost function Evictions(g: Geometry, trace: seq<nat>): nat {
    if trace == [] then 0
    else
      var before, a := trace[..|trace| - 1], trace[|trace| - 1];
      Evictions(g, before) + if !IsHit(g, before, a) && Full(g, before, SetIndex(g, a)) then 1 else 0
  }

  ghost predicate Full(g: Geometry, trace: seq<nat>, i: nat) {
    |Lru(SetTrace(g, trace, i), g.ways)| == g.ways
  }

  method InitSets(count: nat, ways: nat) returns (ss: seq<CacheSet>)
    ensures |ss| == count
    ensures forall j | 0 <= j < count :: ss[j].Valid(ways) && ss[j].List(ways) == [] && fresh(ss[j].Repr())
    ensures forall j, k | 0 <= j < k < count :: ss[j].Repr() !! ss[k].Repr()
  {
    ss := [];
    while |ss| < count
      invariant |ss| <= count
      invariant forall j | 0 <= j < |ss| :: ss[j].Valid(ways) && ss[j].List(ways) == [] && fresh(ss[j].Repr())
      invariant forall j, k | 0 <= j < k < |ss| :: ss[j].Repr() !! ss[k].Repr()
    {
      var s := new CacheSet(ways);
      ss := ss + [s];
    }
  }

  lemma NothingListed(g: Geometry)
    ensures forall i: nat :: Lru(SetTrace(g, [], i), g.ways) == []
  {
  }

  class Cache {
    const g: Geometry
    const sets: seq<CacheSet>
    ghost var trace: seq<nat>

    ghost function Repr(): (r: set<object>)
      ensures this in r && forall i: nat | i < |sets| :: sets[i].Repr() <= r
    {
      {this} + set i: nat, o: object | i < |sets| && o in sets[i].Repr() :: o
    }

    /** Every set holds the replacement list of its part of the trace. */
    ghost predicate Valid()
      reads Repr()
    {
      && g.ways > 0 && |sets| == Pow2(g.setBits)
      && (forall i, j | 0 <= i < j < |sets| :: sets[i].Repr() !! sets[j].Repr())
      && (forall i: nat | i < |sets| :: this !in sets[i].Repr())
      && (forall i: nat | i < |sets| :: Holds(i))
    }

    ghost predicate Holds(i: nat)
      requires i < |sets|
      reads this, sets[i].Repr()
    {
      sets[i].Valid(g.ways) && sets[i].List(g.ways) == Lru(SetTrace(g, trace, i), g.ways)
    }

    constructor (setBits: nat, blockBits: nat, associativity: nat)
      requires associativity > 0
      ensures Valid() && fresh(Repr()) && trace == [] && g == Geometry(setBits, blockBits, associativity)
    {
      hide SetTrace, Lru, LinesOk, CacheSet.Valid, CacheSet.List, CacheSet.Now, CacheSet.Repr, Pow2;
      g := Geometry(setBits, blockBits, associativity);
      trace := [];
      NothingListed(Geometry(setBits, blockBits, associativity));
      var ss := InitSets(Pow2(setBits), associativity);
      assert forall i: nat | i < |ss| :: allocated(ss[i].Repr());
      sets := ss;
      new;
      assert forall i: nat | i < |ss| :: this !in ss[i].Repr();
    }

    method AccessCache(counts: Counters, address: nat)
      requires Valid() && counts !in Repr()
      modifies Repr(), counts
      ensures Valid() && trace == old(trace) + [address]
      ensures counts.hits == old(counts.hits) + (if IsHit(g, old(trace), address) then 1 else 0)
      ensures counts.misses == old(counts.misses) + (if IsHit(g, old(trace), address) then 0 else 1)
      ensures counts.evictions == old(counts.evictions) +
        (if !IsHit(g, old(trace), address) && Full(g, old(trace), SetIndex(g, address)) then 1 else 0)
    {
      hide IsHit, SetTrace, Touch, Lru, LinesOk, SetIndex, Tag, CacheSet.Valid, CacheSet.List, CacheSet.Now, Cache.Repr;
      var index := SetIndex(g, address);
      var tag := Tag(g, address);
      assert Holds(index);
      ListedIffHit(g, trace, address);
      sets[index].Access(counts, tag, g.ways);
      trace := trace + [address];
      forall i: nat | i < |sets|
        ensures Holds(i)
      {
        Appended(g, old(trace), address, i);
        assert old(Holds(i));
        if i != index {
          assert sets[i].Repr() !! sets[index].Repr();
        }
      }
    }
  }

  lemma Appended(g: Geometry, trace: seq<nat>, a: nat, i: nat)
    ensures Lru(SetTrace(g, trace + [a], i), g.ways) ==
      if SetIndex(g, a) == i then Touch(Lru(SetTrace(g, trace, i), g.ways), Tag(g, a), g.ways) else Lru(SetTrace(g, trace, i), g.ways)
  {
    assert (trace + [a])[..|trace|] == trace;
    var t := SetTrace(g, trace, i);
    assert (t + [Tag(g, a)])[..|t|] == t;
  }

  // ---- Accounting ------------------------------------------------------------------------------

  /** Valid lines in the first n sets. */
  ghost function Occupied(g: Geometry, trace: seq<nat>, n: nat): nat {
    if n == 0 then 0 else Occupied(g, trace, n - 1) + |Lru(SetTrace(g, trace, n - 1), g.ways)|
  }

  lemma {:induction false} WithoutLength(s: Recency, x: nat)
    ensures |Without(s, x)| == |s| - if x in s then 1 else 0
  {
    if s != [] && s[0] != x {
      WithoutLength(s[1..], x);
    }
  }

  lemma {:induction false} LruFits(trace: seq<nat>, ways: nat)
    ensures |Lru(trace, ways)| <= ways
  {
    if trace != [] {
      var s, x := Lru(trace[..|trace| - 1], ways), trace[|trace| - 1];
      LruFits(trace[..|trace| - 1], ways);
      WithoutLength(s, x);
    }
  }

  /** One access changes the number of valid lines of its own set only. */
  lemma {:induction false} OccupiedAfter(g: Geometry, trace: seq<nat>, a: nat, n: nat)
    requires g.ways > 0
    ensures Occupied(g, trace + [a], n) == Occupied(g, trace, n) +
      if SetIndex(g, a) < n && !IsHit(g, trace, a) && !Full(g, trace, SetIndex(g, a)) then 1 else 0
  {
    hide IsHit, SetTrace, Lru, SetIndex, Tag;
    if n > 0 {
      OccupiedAfter(g, trace, a, n - 1);
      Appended(g, trace, a, n - 1);
      if SetIndex(g, a) == n - 1 {
        ListedIffHit(g, trace, a);
        WithoutLength(Lru(SetTrace(g, trace, n - 1), g.ways), Tag(g, a));
        LruFits(SetTrace(g, trace, n - 1), g.ways);
      }
    }
  }

  /** Every miss fills a line, and every eviction reuses one. */
  lemma {:induction false} MissesFillLines(g: Geometry, trace: seq<nat>)
    requires g.ways > 0
    ensures Misses(g, trace) == Evictions(g, trace) + Occupied(g, trace, Pow2(g.setBits))
  {
    hide IsHit, Full, SetIndex;
    if trace == [] {
      NothingOccupied(g, Pow2(g.setBits));
    } else {
      var before, a := trace[..|trace| - 1], trace[|trace| - 1];
      assert trace == before + [a];
      MissesFillLines(g, before);
      OccupiedAfter(g, before, a, Pow2(g.setBits));
    }
  }

  lemma {:induction false} NothingOccupied(g: Geometry, n: nat)
    ensures Occupied(g, [], n) == 0
  {
    if n > 0 {
      NothingOccupied(g, n - 1);
    }
  }

  /** The valid flags agree with the count taken from the trace. */
  lemma OccupiedIsValid(cache: Cache, i: nat)
    requires cache.Valid() && i < |cache.sets|
    ensures var s := cache.sets[i];
      |s.Now().valid| == cache.g.ways && |set k: nat | k < cache.g.ways && s.Now().valid[k]| == |Lru(SetTrace(cache.g, cache.trace, i), cache.g.ways)|
  {
    hide LinesOk, ListOf, Lru, SetTrace;
    assert cache.Holds(i);
    Sizes(cache.sets[i].Now(), cache.g.ways, cache.sets[i].free);
    ValidCount(cache.sets[i].Now(), cache.g.ways, cache.sets[i].free);
  }

  // ---- Trace lines -----------------------------------------------------------------------------

  datatype Line = Line(command: char, address: nat)

  ghost function Commands(lines: seq<Line>): (s: seq<char>)
    ensures |s| == |lines|
  {
    seq(|lines|, i requires 0 <= i < |lines| => lines[i].command)
  }

  /** A modify loads and stores: the store always hits. */
  lemma SecondAccessHits(g: Geometry, trace: seq<nat>, a: nat)
    requires g.ways > 0
    ensures IsHit(g, trace + [a], a)
  {
    var t := trace + [a];
    assert Others(g, t, |trace|, a) == {};
    assert Near(g, t, |trace|, a);
  }

  lemma NothingCounted(g: Geometry)
    ensures Hits(g, []) == Misses(g, []) == Evictions(g, []) == 0
  {
  }

  class Simulator {
    const cache: Cache
    const counts: Counters

    ghost predicate Valid()
      reads this, counts, cache, cache.Repr()
    {
      && cache.Valid() && counts !in cache.Repr()
      && counts.hits == Hits(cache.g, cache.trace)
      && counts.misses == Misses(cache.g, cache.trace)
      && counts.evictions == Evictions(cache.g, cache.trace)
    }

    constructor (setBits: nat, associativity: nat, blockBits: nat)
      requires associativity > 0
      ensures Valid() && cache.trace == [] && cache.g == Geometry(setBits, blockBits, associativity)
      ensures fresh(cache.Repr()) && fresh(counts)
    {
      hide Cache.Valid, Cache.Repr, Hits, Misses, Evictions;
      NothingCounted(Geometry(setBits, blockBits, associativity));
      counts := new Counters();
      var c := new Cache(setBits, blockBits, associativity);
      assert allocated(c.Repr());
      cache := c;
      new;
      assert this !in c.Repr();
    }

    method AccessOnce(address: nat)
      requires Valid()
      modifies counts, cache.Repr()
      ensures Valid() && cache.trace == old(cache.trace) + [address]
      ensures counts.hits >= old(counts.hits) && counts.misses >= old(counts.misses)
    {
      hide IsHit, Full, SetIndex, CacheSet.Valid, CacheSet.List, CacheSet.Now, SetTrace;
      ghost var trace := cache.trace;
      cache.AccessCache(counts, address);
      assert cache.trace[..|trace|] == trace;
    }

    /** One line of the trace file: a load or store is one access, a modify is two, anything else is none. */
    method Execute(command: char, address: nat) returns (known: bool)
      requires Valid()
      modifies counts, cache.Repr()
      ensures Valid() && (known <==> command in ['I', 'M', 'L', 'S'])
      ensures counts.hits >= old(counts.hits) && counts.misses >= old(counts.misses)
      ensures command == 'L' || command == 'S' ==>
        && cache.trace == old(cache.trace) + [address]
        && counts.hits + counts.misses == old(counts.hits) + old(counts.misses) + 1
      ensures command == 'M' ==>
        && cache.trace == old(cache.trace) + [address, address] && counts.hits > old(counts.hits)
        && counts.hits + counts.misses == old(counts.hits) + old(counts.misses) + 2
      ensures command !in ['M', 'L', 'S'] ==>
        && cache.trace == old(cache.trace)
        && counts.hits == old(counts.hits) && counts.misses == old(counts.misses) && counts.evictions == old(counts.evictions)
    {
      known := true;
      if command == 'I' {
      } else if command == 'M' {
        AccessOnce(address);
        SecondAccessHits(cache.g, old(cache.trace), address);
        HitsAfter(cache.g, old(cache.trace), address);
        HitsAfter(cache.g, old(cache.trace) + [address], address);
        AccessOnce(address);
        assert old(cache.trace) + [address] + [address] == old(cache.trace) + [address, address];
      } else if command == 'L' || command == 'S' {
        AccessOnce(address);
      } else {
        known := false;
      }
    }

    /** The lines of a trace file, up to the first with an unknown command. */
    method Simulate(lines: seq<Line>) returns (done: nat)
      requires Valid()
      modifies counts, cache.Repr()
      ensures Valid() && done <= |lines|
      ensures forall k | 0 <= k < done :: lines[k].command in ['I', 'M', 'L', 'S']
      ensures done < |lines| ==> lines[done].command !in ['I', 'M', 'L', 'S']
      ensures var n := multiset(Commands(lines[..done]));
        counts.hits + counts.misses == old(counts.hits) + old(counts.misses) + n['L'] + n['S'] + 2 * n['M']
      ensures counts.hits >= old(counts.hits) + multiset(Commands(lines[..done]))['M']
    {
      hide Valid, Commands;
      NoCommands(lines);
      done := 0;
      while done < |lines|
        invariant done <= |lines| && Valid() && forall k | 0 <= k < done :: lines[k].command in ['I', 'M', 'L', 'S']
        invariant var n := multiset(Commands(lines[..done]));
          counts.hits + counts.misses == old(counts.hits) + old(counts.misses) + n['L'] + n['S'] + 2 * n['M']
        invariant counts.hits >= old(counts.hits) + multiset(Commands(lines[..done]))['M']
      {
        var known := Execute(lines[done].command, lines[done].address);
        if !known {
          return;
        }
        OneMoreCommand(lines, done);
        done := done + 1;
      }
    }
  }

  lemma NoCommands(lines: seq<Line>)
    ensures Commands(lines[..0]) == []
  {
  }

  lemma OneMoreCommand(lines: seq<Line>, n: nat)
    requires n < |lines|
    ensures var m, m' := multiset(Commands(lines[..n])), multiset(Commands(lines[..n + 1]));
      forall c :: m'[c] == (if c == lines[n].command then m[c] + 1 else m[c])
  {
    assert Commands(lines[..n + 1]) == Commands(lines[..n]) + [lines[n].command];
  }

  lemma HitsAfter(g: Geometry, trace: seq<nat>, a: nat)
    ensures Hits(g, trace + [a]) == Hits(g, trace) + if IsHit(g, trace, a) then 1 else 0
  {
    assert (trace + [a])[..|trace|] == trace;
  }
}
