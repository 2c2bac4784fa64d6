/** Least-recently-used replacement as a list, and what it means for a trace. */
module LruSpec {
  import opened Sequences

  /** Tags in one set, least recently used first. */
  type Recency = seq<nat>

  ghost function Without(s: Recency, x: nat): (r: Recency)
  {
    if s == [] then [] else if s[0] == x then s[1..] else [s[0]] + Without(s[1..], x)
  }

  ghost function Tags(s: Recency): set<nat> {
    set y | y in s
  }

  /** One access to a set of `ways` lines. */
  ghost function Touch(s: Recency, x: nat, ways: nat): Recency {
    if x in s then Without(s, x) + [x]
    else if |s| < ways then s + [x]
    else if s == [] then []
    else s[1..] + [x]
  }

  ghost function Lru(trace: seq<nat>, ways: nat): Recency {
    if trace == [] then [] else Touch(Lru(trace[..|trace| - 1], ways), trace[|trace| - 1], ways)
  }

  /** All tags of the trace, by last access. */
  ghost function Stack(trace: seq<nat>): Recency {
    if trace == [] then [] else Without(Stack(trace[..|trace| - 1]), trace[|trace| - 1]) + [trace[|trace| - 1]]
  }

  /** The distinct tags accessed after the last access to x. */
  ghost function Since(trace: seq<nat>, x: nat): set<nat> {
    if trace == [] || trace[|trace| - 1] == x then {} else Since(trace[..|trace| - 1], x) + {trace[|trace| - 1]}
  }

  ghost function LastOf(s: Recency, n: nat): Recency {
    if |s| <= n then s else s[|s| - n..]
  }

  lemma {:induction false} WithoutIndex(s: Recency, x: nat, i: nat)
    requires Distinct(s) && i < |s| && s[i] == x
    ensures Without(s, x) == s[..i] + s[i + 1..]
  {
    if i > 0 {
      assert s[0] != x;
      WithoutIndex(s[1..], x, i - 1);
      assert s[..i] == [s[0]] + s[1..][..i - 1];
      assert s[i + 1..] == s[1..][i..];
    }
  }

  lemma {:induction false} WithoutAbsent(s: Recency, x: nat)
    requires x !in s
    ensures Without(s, x) == s
  {
    if s != [] {
      WithoutAbsent(s[1..], x);
    }
  }

  lemma {:induction false} WithoutFacts(s: Recency, x: nat)
    requires Distinct(s)
    ensures Distinct(Without(s, x))
    ensures forall y :: y in Without(s, x) <==> y in s && y != x
  {
    if s != [] {
      var rest := s[1..];
      assert Distinct(rest) && s[0] !in rest && s == [s[0]] + rest;
      WithoutFacts(rest, x);
    }
  }

  lemma {:induction false} StackFacts(trace: seq<nat>)
    ensures Distinct(Stack(trace))
    ensures forall y :: y in Stack(trace) <==> y in trace
  {
    if trace != [] {
      var before, x := trace[..|trace| - 1], trace[|trace| - 1];
      StackFacts(before);
      WithoutFacts(Stack(before), x);
      assert x !in Without(Stack(before), x);
      AppendDistinct(Without(Stack(before), x), x);
      assert trace == before + [x];
    }
  }

  lemma AppendDistinct(s: Recency, x: nat)
    requires Distinct(s) && x !in s
    ensures Distinct(s + [x])
  {
  }

  /** A set of any size holds the end of the one stack. */
  lemma {:induction false} LruIsEndOfStack(trace: seq<nat>, ways: nat)
    requires ways > 0
    ensures Lru(trace, ways) == LastOf(Stack(trace), ways)
  {
    if trace != [] {
      var before, x := trace[..|trace| - 1], trace[|trace| - 1];
      LruIsEndOfStack(before, ways);
      StackFacts(before);
      TouchEnd(Stack(before), x, ways);
    }
  }

  lemma TouchEnd(s: Recency, x: nat, ways: nat)
    requires ways > 0 && Distinct(s)
    ensures Touch(LastOf(s, ways), x, ways) == LastOf(Without(s, x) + [x], ways)
  {
    hide Touch, LastOf;
    if i: nat :| i < |s| && s[i] == x {
      InEnd(s, ways, i);
      if i + ways >= |s| {
        TouchHit(s, i, ways);
      } else {
        TouchForgotten(s, i, ways);
      }
    } else {
      NotInEnd(s, x, ways);
      TouchNew(s, x, ways);
    }
  }

  lemma NotInEnd(s: Recency, x: nat, n: nat)
    requires x !in s
    ensures x !in LastOf(s, n)
  {
  }

  lemma InEnd(s: Recency, n: nat, i: nat)
    requires Distinct(s) && i < |s|
    ensures s[i] in LastOf(s, n) <==> i + n >= |s|
  {
    var e := LastOf(s, n);
    var d := |s| - |e|;
    if i >= d {
      assert e[i - d] == s[i];
    } else {
      forall k | 0 <= k < |e|
        ensures e[k] != s[i]
      {
        assert e[k] == s[d + k];
      }
    }
  }

  lemma TouchHit(s: Recency, i: nat, ways: nat)
    requires ways > 0 && Distinct(s) && i < |s| && i + ways >= |s|
    ensures Touch(LastOf(s, ways), s[i], ways) == LastOf(Without(s, s[i]) + [s[i]], ways)
  {
    hide *;
    var d: nat, x := if |s| <= ways then 0 else |s| - ways, s[i];
    EndFrom(s, ways, d);
    EndDistinct(s, d);
    WithoutIndex(s[d..], x, i - d);
    WithoutIndex(s, x, i);
    EndFrom(Without(s, x) + [x], ways, d);
    CutThenDrop(s, d, i - d, x);
    TouchPresent(s[d..], x, ways);
  }

  lemma EndFrom(s: Recency, ways: nat, d: nat)
    requires d == if |s| <= ways then 0 else |s| - ways
    ensures LastOf(s, ways) == s[d..]
  {
  }

  lemma EndDistinct(s: Recency, d: nat)
    requires Distinct(s) && d <= |s|
    ensures Distinct(s[d..])
  {
  }

  lemma TouchPresent(s: Recency, x: nat, ways: nat)
    requires x in s
    ensures Touch(s, x, ways) == Without(s, x) + [x]
  {
  }

  lemma CutThenDrop(s: Recency, d: nat, i: nat, x: nat)
    requires d + i < |s|
    ensures (s[..d + i] + s[d + i + 1..] + [x])[d..] == s[d..][..i] + s[d..][i + 1..] + [x]
  {
  }

  lemma TouchForgotten(s: Recency, i: nat, ways: nat)
    requires ways > 0 && Distinct(s) && i < |s| && i + ways < |s|
    ensures Touch(LastOf(s, ways), s[i], ways) == LastOf(Without(s, s[i]) + [s[i]], ways)
  {
    hide Without, Distinct;
    InEnd(s, ways, i);
    WithoutIndex(s, s[i], i);
    DropAfterCut(s, |s| - ways, i, s[i]);
  }

  lemma DropAfterCut(s: Recency, d: nat, i: nat, x: nat)
    requires i < d < |s|
    ensures (s[..i] + s[i + 1..] + [x])[d..] == s[d..][1..] + [x]
  {
  }

  lemma TouchNew(s: Recency, x: nat, ways: nat)
    requires ways > 0 && x !in s && x !in LastOf(s, ways)
    ensures Touch(LastOf(s, ways), x, ways) == LastOf(Without(s, x) + [x], ways)
  {
    hide LastOf, Without;
    WithoutAbsent(s, x);
    if |s| >= ways {
      var d := |s| - ways;
      EndFrom(s, ways, d);
      EndFrom(s + [x], ways, d + 1);
      DropOneMore(s, d, x);
    } else {
      EndFrom(s, ways, 0);
      EndFrom(s + [x], ways, 0);
      assert s[0..] == s && (s + [x])[0..] == s + [x];
    }
  }

  lemma DropOneMore(s: Recency, d: nat, x: nat)
    requires d < |s|
    ensures (s + [x])[d + 1..] == s[d..][1..] + [x]
  {
  }

  /** Above x on the stack lie exactly the tags accessed since. */
  lemma {:induction false} StackAbove(trace: seq<nat>, x: nat, i: nat)
    requires i < |Stack(trace)| && Stack(trace)[i] == x
    ensures Tags(Stack(trace)[i + 1..]) == Since(trace, x)
    ensures |Since(trace, x)| == |Stack(trace)| - 1 - i
  {
    var before, z := trace[..|trace| - 1], trace[|trace| - 1];
    var s := Stack(before);
    StackFacts(before);
    StackFacts(trace);
    if z == x {
      assert Stack(trace)[|Stack(trace)| - 1] == x;
    } else {
      WithoutFacts(s, z);
      assert x in s;
      var k :| 0 <= k < |s| && s[k] == x;
      StackAbove(before, x, k);
      AboveAfter(s, z, k, Stack(trace), i);
    }
    SetOfDistinct(Stack(trace)[i + 1..]);
  }

  lemma AboveAfter(s: Recency, z: nat, k: nat, t: Recency, i: nat)
    requires Distinct(s) && t == Without(s, z) + [z] && k < |s| && i < |t| && s[k] == t[i] != z && Distinct(t)
    ensures Tags(t[i + 1..]) == Tags(s[k + 1..]) + {z}
  {
    hide Without, Tags;
    if j: nat :| j < |s| && s[j] == z {
      WithoutIndex(s, z, j);
      if k < j {
        SamePlace(t, i, k);
        SplitAbove(s, j, k);
      } else {
        SamePlace(t, i, k - 1);
        AboveAppended(t, i, s, k, z);
      }
    } else {
      WithoutAbsent(s, z);
      SamePlace(t, i, k);
      AboveAppended(t, i, s, k, z);
    }
  }

  lemma SamePlace(t: Recency, i: nat, k: nat)
    requires Distinct(t) && i < |t| && k < |t| && t[i] == t[k]
    ensures i == k
  {
  }

  lemma AboveAppended(t: Recency, i: nat, s: Recency, k: nat, z: nat)
    requires i < |t| && k < |s| && |t| - i == |s| - k + 1
    requires forall j | i < j < |t| - 1 :: t[j] == s[j - i + k]
    requires t[|t| - 1] == z
    ensures Tags(t[i + 1..]) == Tags(s[k + 1..]) + {z}
  {
    assert t[i + 1..] == s[k + 1..] + [z];
  }

  lemma SplitAbove(s: Recency, j: nat, k: nat)
    requires k < j < |s|
    ensures (s[..j] + s[j + 1..] + [s[j]])[k + 1..] == s[k + 1..j] + s[j + 1..] + [s[j]]
    ensures Tags(s[k + 1..j] + s[j + 1..] + [s[j]]) == Tags(s[k + 1..]) + {s[j]}
  {
    assert s[k + 1..] == s[k + 1..j] + [s[j]] + s[j + 1..];
  }

  lemma {:induction false} SetOfDistinct(s: Recency)
    requires Distinct(s)
    ensures |Tags(s)| == |s|
  {
    if s != [] {
      assert Distinct(s[1..]) && s[0] !in s[1..];
      SetOfDistinct(s[1..]);
      assert Tags(s) == Tags(s[1..]) + {s[0]};
    }
  }

  /** Stack distance: an access hits iff the tag came before and fewer than `ways` others came since. */
  lemma HitIffNear(trace: seq<nat>, x: nat, ways: nat)
    requires ways > 0
    ensures x in Lru(trace, ways) <==> x in trace && |Since(trace, x)| < ways
  {
    hide LastOf;
    LruIsEndOfStack(trace, ways);
    StackFacts(trace);
    var s := Stack(trace);
    if i: nat :| i < |s| && s[i] == x {
      StackAbove(trace, x, i);
      InEnd(s, ways, i);
    } else {
      NotInEnd(s, x, ways);
    }
  }
}
