/** The arrays of one cache set and the replacement list they stand for. */
module CacheLines {
  import opened Sequences
  import opened LruSpec

  /** valid[i] and blocks[i] describe line i; lru lists the lines, least recently used first. */
  datatype Lines = Lines(valid: seq<bool>, blocks: seq<nat>, lru: seq<nat>)

  /** lru is a permutation of the lines, the `free` invalid ones ahead; valid lines have distinct tags. */
  ghost predicate LinesOk(l: Lines, ways: nat, free: nat) {
    && |l.valid| == |l.blocks| == |l.lru| == ways && free <= ways
    && Permutation(l.lru)
    && (forall k | 0 <= k < ways :: l.valid[l.lru[k]] <==> free <= k)
    && (forall i, j | 0 <= i < ways && 0 <= j < ways && l.valid[i] && l.valid[j] && i != j :: l.blocks[i] != l.blocks[j])
  }

  ghost predicate Permutation(s: seq<nat>) {
    (forall k | 0 <= k < |s| :: s[k] < |s|) && Distinct(s) && (forall i: nat | i < |s| :: i in s)
  }

  /** Tags of the valid lines, least recently used first. */
  ghost function ListOf(l: Lines, free: nat): (list: Recency)
    requires LinesOk(l, |l.lru|, free)
    ensures |list| == |l.lru| - free
  {
    seq(|l.lru| - free, k requires 0 <= k < |l.lru| - free => l.blocks[l.lru[free + k]])
  }

  ghost function MoveToEnd(s: seq<nat>, p: nat): seq<nat>
    requires p < |s|
  {
    s[..p] + s[p + 1..] + [s[p]]
  }

  ghost function Index(s: seq<nat>, x: nat): (p: nat)
    requires x in s
    ensures p < |s| && s[p] == x
  {
    var p :| 0 <= p < |s| && s[p] == x;
    p
  }

  lemma MoveAt(s: seq<nat>, p: nat, k: nat)
    requires p < |s| && k < |s|
    ensures |MoveToEnd(s, p)| == |s|
    ensures MoveToEnd(s, p)[k] == if k < p then s[k] else if k + 1 < |s| then s[k + 1] else s[p]
  {
  }

  lemma MoveKeepsPermutation(s: seq<nat>, p: nat)
    requires Permutation(s) && p < |s|
    ensures |MoveToEnd(s, p)| == |s| && Permutation(MoveToEnd(s, p))
  {
    var t := MoveToEnd(s, p);
    forall k: nat | k < |s|
      ensures t[k] == if k < p then s[k] else if k + 1 < |s| then s[k + 1] else s[p]
    {
      MoveAt(s, p, k);
    }
    assert Distinct(t);
    forall i: nat | i < |s|
      ensures i in t
    {
      var k := Index(s, i);
      assert t[if k < p then k else if k == p then |s| - 1 else k - 1] == i;
    }
  }

  /** A valid line holds exactly a listed tag. */
  lemma ListedIffValid(l: Lines, ways: nat, free: nat, tag: nat)
    requires LinesOk(l, ways, free)
    ensures tag in ListOf(l, free) <==> exists i :: 0 <= i < ways && l.valid[i] && l.blocks[i] == tag
  {
    var list := ListOf(l, free);
    if i: nat :| i < ways && l.valid[i] && l.blocks[i] == tag {
      var k := Index(l.lru, i);
      assert list[k - free] == tag;
    }
    if tag in list {
      var k := Index(list, tag);
      assert l.valid[l.lru[free + k]];
    }
  }

  lemma ListDistinct(l: Lines, ways: nat, free: nat)
    requires LinesOk(l, ways, free)
    ensures Distinct(ListOf(l, free))
  {
    var list := ListOf(l, free);
    forall i, j | 0 <= i < j < |list|
      ensures list[i] != list[j]
    {
      assert l.lru[free + i] != l.lru[free + j] && l.valid[l.lru[free + i]] && l.valid[l.lru[free + j]];
    }
  }

  /** A hit on line i. */
  lemma HitLine(l: Lines, ways: nat, free: nat, i: nat)
    requires LinesOk(l, ways, free) && i < ways && l.valid[i]
    ensures i in l.lru
    ensures
      var l' := l.(lru := MoveToEnd(l.lru, Index(l.lru, i)));
      LinesOk(l', ways, free) && l.blocks[i] in ListOf(l, free) && ListOf(l', free) == Touch(ListOf(l, free), l.blocks[i], ways)
  {
    var p := Index(l.lru, i);
    var l' := l.(lru := MoveToEnd(l.lru, p));
    MoveKeepsPermutation(l.lru, p);
    MovedValid(l, ways, free, p, free, l.valid);
    var list, list', x := ListOf(l, free), ListOf(l', free), l.blocks[i];
    ListDistinct(l, ways, free);
    assert list[p - free] == x;
    WithoutIndex(list, x, p - free);
    forall k: nat | k < |list|
      ensures list'[k] == (list[..p - free] + list[p - free + 1..] + [x])[k]
    {
      HitEntry(l, ways, free, p, k);
    }
    hide LinesOk, ListOf, Permutation, MoveToEnd, Without, Distinct;
    assert list' == list[..p - free] + list[p - free + 1..] + [x];
  }

  lemma HitEntry(l: Lines, ways: nat, free: nat, p: nat, k: nat)
    requires LinesOk(l, ways, free) && free <= p < ways && k < ways - free
    requires LinesOk(l.(lru := MoveToEnd(l.lru, p)), ways, free)
    ensures var list := ListOf(l, free);
      ListOf(l.(lru := MoveToEnd(l.lru, p)), free)[k] == (list[..p - free] + list[p - free + 1..] + [l.blocks[l.lru[p]]])[k]
  {
    MoveAt(l.lru, p, free + k);
  }

  /** Validity along the moved order. */
  lemma MovedValid(l: Lines, ways: nat, free: nat, p: nat, free': nat, valid': seq<bool>)
    requires LinesOk(l, ways, free) && p < ways && |valid'| == ways && valid'[l.lru[p]]
    requires forall i | 0 <= i < ways && i != l.lru[p] :: valid'[i] == l.valid[i]
    requires free' == if p < free then free - 1 else free
    ensures |MoveToEnd(l.lru, p)| == ways
    ensures forall k | 0 <= k < ways :: MoveToEnd(l.lru, p)[k] < ways && (valid'[MoveToEnd(l.lru, p)[k]] <==> free' <= k)
  {
    forall k: nat | k < ways
      ensures MoveToEnd(l.lru, p)[k] < ways && (valid'[MoveToEnd(l.lru, p)[k]] <==> free' <= k)
    {
      MoveAt(l.lru, p, k);
    }
  }

  ghost function Filled(l: Lines, p: nat, tag: nat): Lines
    requires p < |l.lru| && l.lru[p] < |l.valid| == |l.blocks|
  {
    Lines(l.valid[l.lru[p] := true], l.blocks[l.lru[p] := tag], MoveToEnd(l.lru, p))
  }

  ghost function Fewer(free: nat): nat {
    if free > 0 then free - 1 else 0
  }

  /** A miss that fills the line at position p of the order: an invalid line, or the oldest when none is left. */
  lemma FillLine(l: Lines, ways: nat, free: nat, p: nat, tag: nat)
    requires LinesOk(l, ways, free) && tag !in ListOf(l, free)
    requires p < ways && if free > 0 then p < free else p == 0
    ensures LinesOk(Filled(l, p, tag), ways, Fewer(free))
    ensures ListOf(Filled(l, p, tag), Fewer(free)) == Touch(ListOf(l, free), tag, ways)
  {
    hide LinesOk, ListOf, Filled, Touch;
    ListSize(l, ways, free);
    FilledOk(l, ways, free, p, tag);
    ListSize(Filled(l, p, tag), ways, Fewer(free));
    var list, list' := ListOf(l, free), ListOf(Filled(l, p, tag), Fewer(free));
    forall k: nat {:trigger list'[k]} | k < |list'|
      ensures list'[k] == if k == |list'| - 1 then tag else if free > 0 then list[k] else list[k + 1]
    {
      FilledEntry(l, ways, free, p, tag, k);
    }
    if free > 0 {
      assert list' == list + [tag];
    } else {
      assert list' == list[1..] + [tag];
    }
    TouchOther(list, tag, ways);
  }

  lemma ListSize(l: Lines, ways: nat, free: nat)
    requires LinesOk(l, ways, free)
    ensures |l.valid| == |l.blocks| == |l.lru| == ways && |ListOf(l, free)| == ways - free >= 0
    ensures forall k | 0 <= k < ways :: l.lru[k] < ways
  {
  }

  /** A tag that is not listed goes to the end, and the oldest gives way when the list is full. */
  lemma TouchOther(list: Recency, tag: nat, ways: nat)
    requires tag !in list && |list| <= ways && ways > 0
    ensures Touch(list, tag, ways) == if |list| < ways then list + [tag] else list[1..] + [tag]
  {
  }

  lemma FilledEntry(l: Lines, ways: nat, free: nat, p: nat, tag: nat, k: nat)
    requires LinesOk(l, ways, free) && p < ways && (if free > 0 then p < free else p == 0)
    requires LinesOk(Filled(l, p, tag), ways, Fewer(free)) && k < ways - Fewer(free)
    ensures var list, list' := ListOf(l, free), ListOf(Filled(l, p, tag), Fewer(free));
      list'[k] == if k == |list'| - 1 then tag else if free > 0 then list[k] else list[k + 1]
  {
    hide Permutation, MoveToEnd;
    var j := Fewer(free) + k;
    MoveAt(l.lru, p, j);
    OrderDistinct(l.lru, p, if j + 1 < ways then j + 1 else p);
  }

  lemma OrderDistinct(s: seq<nat>, i: nat, j: nat)
    requires Permutation(s) && i < |s| && j < |s|
    ensures s[i] < |s| && s[j] < |s| && (s[i] == s[j] ==> i == j)
  {
  }

  lemma FilledOk(l: Lines, ways: nat, free: nat, p: nat, tag: nat)
    requires LinesOk(l, ways, free) && tag !in ListOf(l, free)
    requires p < ways && if free > 0 then p < free else p == 0
    ensures LinesOk(Filled(l, p, tag), ways, Fewer(free))
  {
    MoveKeepsPermutation(l.lru, p);
    MovedValid(l, ways, free, p, Fewer(free), l.valid[l.lru[p] := true]);
    FilledDistinct(l, ways, free, l.lru[p], tag);
    hide MoveToEnd, Permutation;
  }

  lemma FilledDistinct(l: Lines, ways: nat, free: nat, i: nat, tag: nat)
    requires LinesOk(l, ways, free) && tag !in ListOf(l, free) && i < ways
    ensures
      var valid', blocks' := l.valid[i := true], l.blocks[i := tag];
      forall j, k | 0 <= j < ways && 0 <= k < ways && valid'[j] && valid'[k] && j != k :: blocks'[j] != blocks'[k]
  {
    ListedIffValid(l, ways, free, tag);
  }

  /** The list is as long as there are valid lines. */
  lemma ValidCount(l: Lines, ways: nat, free: nat)
    requires LinesOk(l, ways, free)
    ensures |set i: nat | i < ways && l.valid[i]| == |ListOf(l, free)|
  {
    var s := set i: nat | i < ways && l.valid[i];
    var order := l.lru[free..];
    assert Distinct(order);
    SetOfDistinct(order);
    forall i: nat
      ensures i in s <==> i in Tags(order)
    {
      if i in s {
        assert order[Index(l.lru, i) - free] == i;
      }
      if i in order {
        var k := Index(order, i);
        assert order[k] == l.lru[free + k];
      }
    }
    assert s == Tags(order);
  }

  /** Without the store into the last slot, the line that was moved is listed nowhere, unless it was last. */
  lemma ShiftAloneLoses(s: seq<nat>, p: nat)
    requires Permutation(s) && p < |s|
    ensures Permutation(s[..p] + s[p + 1..] + [s[|s| - 1]]) <==> p == |s| - 1
  {
    var t := s[..p] + s[p + 1..] + [s[|s| - 1]];
    if p < |s| - 1 {
      assert t[|s| - 2] == t[|s| - 1];
    } else {
      assert t == s;
    }
  }
}
