/** The k-best sampling scheme: keep the k smallest measurements, sorted, until they agree. */
module Sampler {

  ghost predicate Ascending(v: seq<real>) {
    forall i, j | 0 <= i < j < |v| :: v[i] <= v[j]
  }

  /** v holds the k smallest samples of s, in order: what was left out is no smaller. */
  ghost predicate AreSmallest(v: seq<real>, s: seq<real>, k: nat) {
    && |v| == (if |s| < k then |s| else k) && Ascending(v)
    && exists rest: multiset<real> :: LeftOut(v, s, rest)
  }

  ghost predicate LeftOut(v: seq<real>, s: seq<real>, rest: multiset<real>) {
    multiset(v) + rest == multiset(s) && forall i, y | 0 <= i < |v| && y in rest :: v[i] <= y
  }

  ghost function Insert(v: seq<real>, x: real): (w: seq<real>)
    ensures |w| == |v| + 1
  {
    if v == [] || v[|v| - 1] <= x then v + [x] else Insert(v[..|v| - 1], x) + [v[|v| - 1]]
  }

  /** One more sample. */
  ghost function Sampled(v: seq<real>, x: real, k: nat): seq<real> {
    if |v| < k then Insert(v, x)
    else if v != [] && x < v[|v| - 1] then Insert(v[..|v| - 1], x)
    else v
  }

  ghost function Best(s: seq<real>, k: nat): seq<real> {
    if s == [] then [] else Sampled(Best(s[..|s| - 1], k), s[|s| - 1], k)
  }

  lemma {:induction false} InsertMultiset(v: seq<real>, x: real)
    ensures multiset(Insert(v, x)) == multiset(v) + multiset{x}
  {
    if v != [] && v[|v| - 1] > x {
      InsertMultiset(v[..|v| - 1], x);
      assert v == v[..|v| - 1] + [v[|v| - 1]];
    }
  }

  lemma {:induction false} InsertAscending(v: seq<real>, x: real)
    requires Ascending(v)
    ensures Ascending(Insert(v, x)) && Insert(v, x)[|v|] == if v != [] && v[|v| - 1] > x then v[|v| - 1] else x
  {
    if v != [] && v[|v| - 1] > x {
      var u, top := v[..|v| - 1], v[|v| - 1];
      assert u != [] ==> u[|u| - 1] == v[|v| - 2];
      InsertAscending(u, x);
      AppendAscending(Insert(u, x), top);
    } else {
      AppendAscending(v, x);
    }
  }

  lemma AppendAscending(v: seq<real>, x: real)
    requires Ascending(v) && (v == [] || v[|v| - 1] <= x)
    ensures Ascending(v + [x])
  {
    assert forall i | 0 <= i < |v| :: v[i] <= v[|v| - 1];
  }

  /** Keeping the best after every sample is keeping the best of all samples. */
  lemma {:induction false} BestAreSmallest(s: seq<real>, k: nat)
    ensures AreSmallest(Best(s, k), s, k)
  {
    if s == [] {
      assert LeftOut([], s, multiset{});
    } else {
      var before, x := s[..|s| - 1], s[|s| - 1];
      BestAreSmallest(before, k);
      assert s == before + [x];
      var v := Best(before, k);
      var rest :| LeftOut(v, before, rest);
      SampleKept(v, x, k, before, rest);
    }
  }

  lemma SampleKept(v: seq<real>, x: real, k: nat, s: seq<real>, rest: multiset<real>)
    requires |v| == (if |s| < k then |s| else k) && Ascending(v) && LeftOut(v, s, rest)
    ensures AreSmallest(Sampled(v, x, k), s + [x], k)
  {
    hide Insert, Ascending, LeftOut, AreSmallest;
    if |v| < k {
      InsertMultiset(v, x);
      InsertAscending(v, x);
      NothingLeftOut(v, s, rest);
      StillLeftOut(v, Insert(v, x), s, x, rest);
      SmallestIs(Insert(v, x), s + [x], k, rest);
    } else if v != [] && x < v[|v| - 1] {
      LargestDropped(v, x, s, rest);
      SmallestIs(Insert(v[..|v| - 1], x), s + [x], k, rest + multiset{v[|v| - 1]});
    } else {
      OneLeftOut(v, s, x, rest);
      SmallestIs(v, s + [x], k, rest + multiset{x});
    }
  }

  lemma SmallestIs(v: seq<real>, s: seq<real>, k: nat, rest: multiset<real>)
    requires |v| == (if |s| < k then |s| else k) && Ascending(v) && LeftOut(v, s, rest)
    ensures AreSmallest(v, s, k)
  {
  }

  lemma StillLeftOut(v: seq<real>, w: seq<real>, s: seq<real>, x: real, rest: multiset<real>)
    requires LeftOut(v, s, rest) && rest == multiset{} && multiset(w) == multiset(v) + multiset{x}
    ensures LeftOut(w, s + [x], rest)
  {
  }

  lemma OneLeftOut(v: seq<real>, s: seq<real>, x: real, rest: multiset<real>)
    requires LeftOut(v, s, rest) && Ascending(v) && (v == [] || v[|v| - 1] <= x)
    ensures LeftOut(v, s + [x], rest + multiset{x})
  {
    forall i | 0 <= i < |v|
      ensures v[i] <= x
    {
      assert v[i] <= v[|v| - 1];
    }
  }

  lemma NothingLeftOut(v: seq<real>, s: seq<real>, rest: multiset<real>)
    requires LeftOut(v, s, rest) && |v| == |s|
    ensures rest == multiset{}
  {
    assert |multiset(v)| == |v| && |multiset(s)| == |s| && |multiset(v) + rest| == |multiset(v)| + |rest|;
  }

  lemma LargestDropped(v: seq<real>, x: real, s: seq<real>, rest: multiset<real>)
    requires v != [] && x < v[|v| - 1] && Ascending(v) && LeftOut(v, s, rest)
    ensures var w := Insert(v[..|v| - 1], x);
      Ascending(w) && LeftOut(w, s + [x], rest + multiset{v[|v| - 1]})
  {
    hide Insert;
    var u, top := v[..|v| - 1], v[|v| - 1];
    assert v == u + [top];
    InsertMultiset(u, x);
    InsertAscending(u, x);
    BelowLast(Insert(u, x), top, rest);
    assert multiset(s + [x]) == multiset(s) + multiset{x};
    assert multiset(v) == multiset(u) + multiset{top};
    assert multiset(u) + multiset{x} + (rest + multiset{top}) == multiset(u) + multiset{top} + rest + multiset{x};
  }

  lemma BelowLast(w: seq<real>, top: real, rest: multiset<real>)
    requires Ascending(w) && w != [] && w[|w| - 1] <= top && forall y | y in rest :: top <= y
    ensures forall i, y | 0 <= i < |w| && y in rest + multiset{top} :: w[i] <= y
  {
    forall i | 0 <= i < |w|
      ensures w[i] <= top
    {
      assert w[i] <= w[|w| - 1];
    }
  }

  /** Nothing smaller than the first of the best was ever seen. */
  lemma FirstIsMinimum(s: seq<real>, k: nat)
    requires s != [] && k > 0
    ensures Best(s, k) != [] && Best(s, k)[0] in s && forall i | 0 <= i < |s| :: Best(s, k)[0] <= s[i]
  {
    BestAreSmallest(s, k);
    var v := Best(s, k);
    var rest :| LeftOut(v, s, rest);
    assert v[0] in multiset(v) && v[0] in multiset(s);
    forall i | 0 <= i < |s|
      ensures v[0] <= s[i]
    {
      assert s[i] in multiset(s);
      if s[i] in multiset(v) {
        var j :| 0 <= j < |v| && v[j] == s[i];
      }
    }
  }

  /** The best lie within a factor of 1 + epsilon of each other. */
  ghost predicate Converged(s: seq<real>, k: nat, epsilon: real) {
    |s| >= k > 0 && |Best(s, k)| == k && (1.0 + epsilon) * Best(s, k)[0] >= Best(s, k)[k - 1]
  }

  /** The samples that are at most b. */
  ghost function Low(s: seq<real>, b: real): (r: seq<real>)
    ensures |r| <= |s|
  {
    if s == [] then [] else Low(s[..|s| - 1], b) + if s[|s| - 1] <= b then [s[|s| - 1]] else []
  }

  lemma {:induction false} LowCounts(s: seq<real>, b: real, x: real)
    ensures multiset(Low(s, b))[x] == if x <= b then multiset(s)[x] else 0
  {
    if s != [] {
      LowCounts(s[..|s| - 1], b, x);
      assert s == s[..|s| - 1] + [s[|s| - 1]];
    }
  }

  lemma SmallerMultiset(a: multiset<real>, b: multiset<real>)
    requires a <= b
    ensures |a| <= |b|
  {
    assert b == a + (b - a);
    assert |a + (b - a)| == |a| + |b - a|;
  }

  /** The best have converged exactly when k samples lie within the factor of the smallest of all. */
  lemma ConvergedMeans(s: seq<real>, k: nat, epsilon: real, least: real)
    requires k > 0 && least in s && forall i | 0 <= i < |s| :: least <= s[i]
    ensures Converged(s, k, epsilon) <==> |s| >= k && |Low(s, (1.0 + epsilon) * least)| >= k
  {
    hide Best, Low;
    if |s| >= k {
      FirstIsMinimum(s, k);
      BestAreSmallest(s, k);
      var v, b := Best(s, k), (1.0 + epsilon) * least;
      assert v[0] == least;
      var rest :| LeftOut(v, s, rest);
      if v[k - 1] <= b {
        AllLow(v, s, rest, b);
      } else {
        FewLow(v, s, rest, b);
      }
    }
  }

  lemma AllLow(v: seq<real>, s: seq<real>, rest: multiset<real>, b: real)
    requires Ascending(v) && LeftOut(v, s, rest) && v != [] && v[|v| - 1] <= b
    ensures |Low(s, b)| >= |v|
  {
    forall x | x in multiset(v)
      ensures multiset(v)[x] <= multiset(Low(s, b))[x]
    {
      LowCounts(s, b, x);
      assert x in v;
      assert multiset(s)[x] == multiset(v)[x] + rest[x];
    }
    SmallerMultiset(multiset(v), multiset(Low(s, b)));
  }

  lemma FewLow(v: seq<real>, s: seq<real>, rest: multiset<real>, b: real)
    requires Ascending(v) && LeftOut(v, s, rest) && v != [] && v[|v| - 1] > b
    ensures |Low(s, b)| < |v|
  {
    var u, top := v[..|v| - 1], v[|v| - 1];
    assert v == u + [top];
    forall x
      ensures multiset(Low(s, b))[x] <= multiset(u)[x]
    {
      LowCounts(s, b, x);
      if x <= b {
        assert x !in rest;
        assert multiset(s)[x] == multiset(v)[x] + rest[x] && multiset(v)[x] == multiset(u)[x];
      }
    }
    SmallerMultiset(multiset(Low(s, b)), multiset(u));
  }

  lemma BestAfter(s: seq<real>, x: real, k: nat)
    ensures Best(s + [x], k) == Sampled(Best(s, k), x, k)
    ensures var v := Best(s, k);
      Sampled(v, x, k) == if |v| < k then Insert(v, x) else if v != [] && x < v[|v| - 1] then Insert(v[..|v| - 1], x) else v
  {
    assert (s + [x])[..|s|] == s;
  }

  /** Moving the insertion point of x one place down in w, or stopping there. */
  lemma InsertStep(w: seq<real>, pos: nat, x: real)
    requires pos <= |w|
    ensures w[..|w|] == w && w[|w|..] == []
    ensures if pos > 0 && w[pos - 1] > x
            then Insert(w[..pos], x) + w[pos..] == Insert(w[..pos - 1], x) + w[pos - 1..]
            else Insert(w[..pos], x) == w[..pos] + [x]
  {
    if pos > 0 && w[pos - 1] > x {
      assert w[..pos][..pos - 1] == w[..pos - 1];
      assert w[pos - 1..] == [w[pos - 1]] + w[pos..];
    }
  }

  lemma MoveDown(a: seq<real>, w: seq<real>, pos: nat, x: real)
    requires 0 < pos <= |w| && a == w[..pos] + [x] + w[pos..]
    ensures a[pos - 1 := x][pos := w[pos - 1]] == w[..pos - 1] + [x] + w[pos - 1..]
  {
  }

  class KBest {
    const kbest: nat
    const maxsamples: int
    const epsilon: real
    const values: array<real>
    var samplecount: nat
    ghost var seen: seq<real>

    ghost predicate Valid()
      reads this, values
    {
      && kbest > 0 && values.Length == kbest && samplecount == |seen|
      && values[..Kept()] == Best(seen, kbest)
    }

    ghost function Kept(): (n: nat)
      reads this
      ensures n <= kbest
    {
      if samplecount < kbest then samplecount else kbest
    }

    constructor (kbest: nat, maxsamples: int, epsilon: real)
      requires kbest > 0
      ensures Valid() && fresh(values) && seen == []
      ensures this.kbest == kbest && this.maxsamples == maxsamples && this.epsilon == epsilon
    {
      this.kbest, this.maxsamples, this.epsilon := kbest, maxsamples, epsilon;
      values := new real[kbest](i => 0.0);
      samplecount := 0;
      seen := [];
    }

    method AddSample(val: real)
      requires Valid()
      modifies this, values
      ensures Valid() && seen == old(seen) + [val]
    {
      hide Best, Sampled, Insert;
      ghost var v := Best(seen, kbest);
      BestAfter(seen, val, kbest);
      BestLength();
      seen := seen + [val];
      var pos := 0;
      ghost var w := v;
      if samplecount < kbest {
        pos := samplecount;
        values[pos] := val;
      } else if val < values[kbest - 1] {
        w := v[..kbest - 1];
        pos := kbest - 1;
        values[pos] := val;
      }
      samplecount := samplecount + 1;
      ghost var stored := |seen| <= kbest || val < v[kbest - 1];
      assert stored ==> values[..pos + 1] == w + [val] && pos == |w| && Kept() == pos + 1;
      assert !stored ==> pos == 0 && values[..Kept()] == v;
      InsertionSort(pos, w, val, stored);
    }

    /** The loop that moves the value at pos to its place among the sorted values before it. */
    method InsertionSort(start: nat, ghost w: seq<real>, ghost val: real, ghost stored: bool)
      requires start < values.Length && (stored ==> start == |w| && values[..start + 1] == w + [val])
      requires !stored ==> start == 0
      modifies values
      ensures stored ==> values[..start + 1] == Insert(w, val)
      ensures !stored ==> values[..] == old(values[..])
      ensures values[start + 1..] == old(values[start + 1..])
    {
      hide Insert;
      var pos := start;
      ghost var n := start + 1;
      InsertStep(w, |w|, val);
      while pos > 0 && values[pos - 1] > values[pos]
        invariant 0 <= pos <= start && values[n..] == old(values[n..])
        invariant !stored ==> values[..] == old(values[..])
        invariant stored ==> values[..n] == w[..pos] + [val] + w[pos..]
        invariant stored ==> Insert(w, val) == Insert(w[..pos], val) + w[pos..]
      {
        ghost var a := values[..n];
        assert a[pos - 1] == w[pos - 1] && a[pos] == val;
        InsertStep(w, pos, val);
        MoveDown(a, w, pos, val);
        var temp := values[pos - 1];
        values[pos - 1] := values[pos];
        values[pos] := temp;
        assert values[..n] == a[pos - 1 := val][pos := w[pos - 1]];
        pos := pos - 1;
      }
      if stored {
        assert values[..n][pos] == val && (pos > 0 ==> values[..n][pos - 1] == w[pos - 1]);
        InsertStep(w, pos, val);
      }
    }

    method HasConverged() returns (yes: bool)
      requires Valid()
      ensures yes <==> Converged(seen, kbest, epsilon)
    {
      hide Best;
      BestLength();
      yes := samplecount >= kbest && (1.0 + epsilon) * values[0] >= values[kbest - 1];
    }

    lemma BestLength()
      requires Valid()
      ensures |Best(seen, kbest)| == Kept() && forall i | 0 <= i < Kept() :: values[i] == Best(seen, kbest)[i]
    {
      assert |values[..Kept()]| == Kept();
      assert forall i | 0 <= i < Kept() :: values[i] == values[..Kept()][i];
    }
  }

  /** Measurements up to number n. */
  ghost function Taken(cycles: nat -> real, n: nat): (s: seq<real>)
    ensures |s| == n
  {
    seq(n, i requires 0 <= i => cycles(i))
  }

  /** Samples until the best agree or enough were taken; the answer is the smallest of them. */
  method Fcyc(cycles: nat -> real, kbest: nat, maxsamples: int, epsilon: real) returns (result: real, n: nat)
    requires kbest > 0
    ensures 1 <= n && (n <= maxsamples || n == 1)
    ensures Converged(Taken(cycles, n), kbest, epsilon) || n >= maxsamples
    ensures forall m: nat | 1 <= m < n :: !Converged(Taken(cycles, m), kbest, epsilon)
    ensures result in Taken(cycles, n) && forall i: nat | i < n :: result <= cycles(i)
  {
    hide Converged, Best, KBest.Kept;
    var sampler := new KBest(kbest, maxsamples, epsilon);
    n := 0;
    while true
      invariant n == 0 || n < maxsamples
      invariant sampler.Valid() && fresh(sampler) && fresh(sampler.values) && sampler.seen == Taken(cycles, n)
      invariant sampler.kbest == kbest && sampler.maxsamples == maxsamples && sampler.epsilon == epsilon
      invariant forall m: nat | 1 <= m <= n :: !Converged(Taken(cycles, m), kbest, epsilon)
      decreases maxsamples - n, n == 0
    {
      sampler.AddSample(cycles(n));
      assert Taken(cycles, n) + [cycles(n)] == Taken(cycles, n + 1);
      n := n + 1;
      var converged := sampler.HasConverged();
      if converged || sampler.samplecount >= maxsamples {
        break;
      }
    }
    FirstIsMinimum(sampler.seen, kbest);
    sampler.BestLength();
    result := sampler.values[0];
    assert forall i: nat | i < n :: Taken(cycles, n)[i] == cycles(i);
  }
}
