/** What a set-associative LRU cache does to a trace of addresses, told from the trace alone. */
module CacheSpec {
  import opened Powers
  import opened LruSpec

  datatype Geometry = Geometry(setBits: nat, blockBits: nat, ways: nat)

  function SetIndex(g: Geometry, address: nat): (i: nat)
    ensures i < Pow2(g.setBits)
  {
    Remainder(Quotient(address, Pow2(g.blockBits)), Pow2(g.setBits))
  }

  function Tag(g: Geometry, address: nat): nat {
    Quotient(address, Pow2(g.blockBits + g.setBits))
  }

  ghost function BlockOf(g: Geometry, address: nat): nat {
    Quotient(address, Pow2(g.blockBits))
  }

  /** Set index and tag together name the block. */
  lemma SameBlock(g: Geometry, a: nat, b: nat)
    ensures BlockOf(g, a) == BlockOf(g, b) <==> SetIndex(g, a) == SetIndex(g, b) && Tag(g, a) == Tag(g, b)
  {
    BlockParts(g, a);
    BlockParts(g, b);
  }

  /** The address at an offset of block number k: its set is k modulo the number of sets, its tag the rest of k. */
  lemma AddressParts(g: Geometry, k: nat, offset: nat)
    requires offset < Pow2(g.blockBits)
    ensures var a := k * Pow2(g.blockBits) + offset;
      BlockOf(g, a) == k && SetIndex(g, a) == k % Pow2(g.setBits) && Tag(g, a) == k / Pow2(g.setBits)
  {
    var a := k * Pow2(g.blockBits) + offset;
    QuotientUnique(a, Pow2(g.blockBits), k, offset);
    BlockParts(g, a);
  }

  lemma BlockParts(g: Geometry, a: nat)
    ensures BlockOf(g, a) == Tag(g, a) * Pow2(g.setBits) + SetIndex(g, a)
    ensures Tag(g, a) == Quotient(BlockOf(g, a), Pow2(g.setBits))
  {
    hide Pow2, Quotient, Remainder;
    var b, s := Pow2(g.blockBits), Pow2(g.setBits);
    var x, low := Quotient(a, b), Remainder(a, b);
    var q, i := Quotient(x, s), Remainder(x, s);
    Pow2Add(g.blockBits, g.setBits);
    Regroup(q, s, i, b, low);
    MulMonotone(i + 1, s, b);
    QuotientUnique(a, b * s, q, i * b + low);
  }

  lemma Regroup(q: nat, s: nat, i: nat, b: nat, low: nat)
    ensures (q * s + i) * b + low == q * (b * s) + (i * b + low)
  {
  }

  /** The tags accessed in one set. */
  ghost function SetTrace(g: Geometry, trace: seq<nat>, i: nat): seq<nat> {
    if trace == [] then []
    else
      var before, a := trace[..|trace| - 1], trace[|trace| - 1];
      if SetIndex(g, a) == i then SetTrace(g, before, i) + [Tag(g, a)] else SetTrace(g, before, i)
  }

  /** The tags of other blocks of a's set accessed after position k. */
  ghost function Others(g: Geometry, trace: seq<nat>, k: nat, a: nat): set<nat> {
    set j | k < j < |trace| && SetIndex(g, trace[j]) == SetIndex(g, a) && BlockOf(g, trace[j]) != BlockOf(g, a) :: Tag(g, trace[j])
  }

  /** The block was accessed before, and fewer than `ways` other blocks of its set since. */
  ghost predicate IsHit(g: Geometry, trace: seq<nat>, a: nat) {
    exists k: nat :: k < |trace| && Near(g, trace, k, a)
  }

  ghost predicate Near(g: Geometry, trace: seq<nat>, k: nat, a: nat)
    requires k < |trace|
  {
    BlockOf(g, trace[k]) == BlockOf(g, a) && |Others(g, trace, k, a)| < g.ways
  }

  /** k is the last access to a's block. */
  ghost predicate LastAccess(g: Geometry, trace: seq<nat>, k: nat, a: nat) {
    && k < |trace| && BlockOf(g, trace[k]) == BlockOf(g, a)
    && forall j | k < j < |trace| :: BlockOf(g, trace[j]) != BlockOf(g, a)
  }

  lemma {:induction false} FindLast(g: Geometry, trace: seq<nat>, a: nat) returns (k: nat)
    requires exists j :: 0 <= j < |trace| && BlockOf(g, trace[j]) == BlockOf(g, a)
    ensures LastAccess(g, trace, k, a)
  {
    var n := |trace| - 1;
    if BlockOf(g, trace[n]) == BlockOf(g, a) {
      k := n;
    } else {
      var j :| 0 <= j < |trace| && BlockOf(g, trace[j]) == BlockOf(g, a);
      assert trace[..n][j] == trace[j];
      k := FindLast(g, trace[..n], a);
      assert forall i | k < i < n :: trace[..n][i] == trace[i];
    }
  }

  lemma {:induction false} InSetTrace(g: Geometry, trace: seq<nat>, a: nat)
    ensures Tag(g, a) in SetTrace(g, trace, SetIndex(g, a)) <==> exists j :: 0 <= j < |trace| && BlockOf(g, trace[j]) == BlockOf(g, a)
  {
    if trace != [] {
      var n := |trace| - 1;
      InSetTrace(g, trace[..n], a);
      SameBlock(g, trace[n], a);
      assert trace == trace[..n] + [trace[n]];
      if Tag(g, a) in SetTrace(g, trace[..n], SetIndex(g, a)) {
        var j :| 0 <= j < n && BlockOf(g, trace[..n][j]) == BlockOf(g, a);
        assert trace[j] == trace[..n][j];
      } else {
        forall j | 0 <= j < n
          ensures BlockOf(g, trace[j]) != BlockOf(g, a)
        {
          assert trace[j] == trace[..n][j];
        }
      }
    }
  }

  lemma {:induction false} OthersAreSince(g: Geometry, trace: seq<nat>, k: nat, a: nat)
    requires LastAccess(g, trace, k, a)
    ensures Others(g, trace, k, a) == Since(SetTrace(g, trace, SetIndex(g, a)), Tag(g, a))
  {
    var n, i := |trace| - 1, SetIndex(g, a);
    var z, before := trace[n], trace[..n];
    SameBlock(g, z, a);
    assert SetIndex(g, z) == i ==> SetTrace(g, trace, i)[..|SetTrace(g, trace, i)| - 1] == SetTrace(g, before, i);
    if k < n {
      assert forall j | 0 <= j < n :: before[j] == trace[j];
      OthersAreSince(g, before, k, a);
      OthersGrow(g, trace, k, a);
    } else {
      assert Others(g, trace, k, a) == {};
    }
  }

  lemma OthersGrow(g: Geometry, trace: seq<nat>, k: nat, a: nat)
    requires k < |trace| - 1
    ensures
      var z, before := trace[|trace| - 1], trace[..|trace| - 1];
      Others(g, trace, k, a) == Others(g, before, k, a) +
        (if SetIndex(g, z) == SetIndex(g, a) && BlockOf(g, z) != BlockOf(g, a) then {Tag(g, z)} else {})
  {
    var n := |trace| - 1;
    var before := trace[..n];
    assert forall j | 0 <= j < n :: before[j] == trace[j];
    forall t | t in Others(g, trace, k, a)
      ensures t in Others(g, before, k, a) || (t == Tag(g, trace[n]) && SetIndex(g, trace[n]) == SetIndex(g, a) && BlockOf(g, trace[n]) != BlockOf(g, a))
    {
      var j :| k < j < |trace| && SetIndex(g, trace[j]) == SetIndex(g, a) && BlockOf(g, trace[j]) != BlockOf(g, a) && t == Tag(g, trace[j]);
      if j < n {
        assert before[j] == trace[j];
      }
    }
    forall t | t in Others(g, before, k, a)
      ensures t in Others(g, trace, k, a)
    {
      var j :| k < j < |before| && SetIndex(g, before[j]) == SetIndex(g, a) && BlockOf(g, before[j]) != BlockOf(g, a) && t == Tag(g, before[j]);
      assert trace[j] == before[j];
    }
  }

  /** The replacement list finds a block exactly when its access is a hit. */
  lemma ListedIffHit(g: Geometry, trace: seq<nat>, a: nat)
    requires g.ways > 0
    ensures Tag(g, a) in Lru(SetTrace(g, trace, SetIndex(g, a)), g.ways) <==> IsHit(g, trace, a)
  {
    hide Others, Since, SetTrace, BlockOf, SetIndex, Tag;
    var t, x := SetTrace(g, trace, SetIndex(g, a)), Tag(g, a);
    HitIffNear(t, x, g.ways);
    InSetTrace(g, trace, a);
    if j: nat :| j < |trace| && BlockOf(g, trace[j]) == BlockOf(g, a) {
      var k := FindLast(g, trace, a);
      OthersAreSince(g, trace, k, a);
      if IsHit(g, trace, a) {
        var m: nat :| m < |trace| && Near(g, trace, m, a);
        FewerSinceLater(g, trace, m, k, a);
      } else {
        assert !Near(g, trace, k, a);
      }
    }
  }

  lemma FewerSinceLater(g: Geometry, trace: seq<nat>, j: nat, k: nat, a: nat)
    requires j <= k < |trace|
    ensures |Others(g, trace, k, a)| <= |Others(g, trace, j, a)|
  {
    SubsetSize(Others(g, trace, k, a), Others(g, trace, j, a));
  }

  lemma {:induction false} SubsetSize(s: set<nat>, t: set<nat>)
    requires s <= t
    ensures |s| <= |t|
  {
    if s != {} {
      var x :| x in s;
      SubsetSize(s - {x}, t - {x});
    }
  }

  // ---- Counting --------------------------------------------------------------------------------

  ghost function Hits(g: Geometry, trace: seq<nat>): (n: nat)
    ensures n <= |trace|
  {
    if trace == [] then 0
    else
      var before := trace[..|trace| - 1];
      Hits(g, before) + if IsHit(g, before, trace[|trace| - 1]) then 1 else 0
  }

  /** More lines per set never lose a hit. */
  lemma MoreWaysKeepHit(g: Geometry, more: Geometry, trace: seq<nat>, a: nat)
    requires more == g.(ways := more.ways) && g.ways <= more.ways
    ensures IsHit(g, trace, a) ==> IsHit(more, trace, a)
  {
    if IsHit(g, trace, a) {
      var k: nat :| k < |trace| && Near(g, trace, k, a);
      assert Others(g, trace, k, a) == Others(more, trace, k, a);
      assert Near(more, trace, k, a);
    }
  }

  lemma {:induction false} MoreWaysMoreHits(g: Geometry, more: Geometry, trace: seq<nat>)
    requires more == g.(ways := more.ways) && g.ways <= more.ways
    ensures Hits(g, trace) <= Hits(more, trace)
  {
    if trace != [] {
      MoreWaysMoreHits(g, more, trace[..|trace| - 1]);
      MoreWaysKeepHit(g, more, trace[..|trace| - 1], trace[|trace| - 1]);
    }
  }
}
