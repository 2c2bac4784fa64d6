/** The generic in-place heapsort, with an abstract comparator. */
module HeapSort {
  import opened Segments

  /** What a comparator promises: the sign of cmp(x, y) is a total preorder. */
  ghost predicate Preorder<T(!new)>(cmp: (T, T) -> int) {
    && (forall x, y :: cmp(x, y) > 0 <==> cmp(y, x) < 0)
    && (forall x, y, z :: cmp(x, y) <= 0 && cmp(y, z) <= 0 ==> cmp(x, z) <= 0)
  }

  ghost predicate Ordered<T>(s: seq<T>, cmp: (T, T) -> int, lo: int)
    requires 0 <= lo
  {
    forall i, j | lo <= i < j < |s| :: cmp(s[i], s[j]) <= 0
  }

  function Parent(k: int): (p: int)
    ensures k > 0 ==> 0 <= p < k && (k == 2 * p + 1 || k == 2 * p + 2)
    ensures k == 0 ==> p == 0
  {
    if k == 0 then 0 else (k - 1) / 2
  }

  /** No element of the first n is above its parent, but for the one at `hole` perhaps. */
  ghost predicate Heap<T>(s: seq<T>, cmp: (T, T) -> int, n: int, hole: int) {
    && 0 <= n <= |s|
    && (forall k | 0 < k < n && k != hole :: cmp(s[k], s[Parent(k)]) <= 0)
    && (forall k | 0 < k < n && hole > 0 && Parent(k) == hole :: cmp(s[k], s[Parent(hole)]) <= 0)
  }

  const NO_HOLE := -1

  lemma {:induction false} RootIsLargest<T(!new)>(s: seq<T>, cmp: (T, T) -> int, n: int, k: int)
    requires Preorder(cmp) && Heap(s, cmp, n, NO_HOLE) && 0 <= k < n
    ensures cmp(s[k], s[0]) <= 0
    decreases k
  {
    if k > 0 {
      RootIsLargest(s, cmp, n, Parent(k));
    } else {
      assert !(cmp(s[0], s[0]) > 0);
    }
  }

  /** In a heap, and only in one, no element is above the one whose children, at 2p + 1 and 2p + 2, it is among. */
  lemma HeapByChildren<T>(s: seq<T>, cmp: (T, T) -> int, n: int)
    requires 0 <= n <= |s|
    ensures Heap(s, cmp, n, NO_HOLE) <==>
      forall p: nat | p < n :: (2 * p + 1 < n ==> cmp(s[2 * p + 1], s[p]) <= 0) && (2 * p + 2 < n ==> cmp(s[2 * p + 2], s[p]) <= 0)
  {
    if Heap(s, cmp, n, NO_HOLE) {
      forall p: nat | p < n
        ensures 2 * p + 1 < n ==> cmp(s[2 * p + 1], s[p]) <= 0
        ensures 2 * p + 2 < n ==> cmp(s[2 * p + 2], s[p]) <= 0
      {
        assert Parent(2 * p + 1) == p && Parent(2 * p + 2) == p;
      }
    }
  }

  /** A new element joins the heap, possibly out of place. */
  lemma HeapGrows<T>(s: seq<T>, cmp: (T, T) -> int, n: int)
    requires Heap(s, cmp, n, NO_HOLE) && 0 < n < |s|
    ensures Heap(s, cmp, n + 1, n)
    ensures cmp(s[n], s[Parent(n)]) <= 0 ==> Heap(s, cmp, n + 1, NO_HOLE)
  {
  }

  /** Swapping the element out of place with its parent moves the hole up. */
  lemma SiftStep<T(!new)>(s: seq<T>, cmp: (T, T) -> int, n: int, j: int)
    requires Preorder(cmp) && Heap(s, cmp, n, j) && 0 < j < n && cmp(s[j], s[Parent(j)]) > 0
    ensures Heap(Swapped(s, j, Parent(j)), cmp, n, Parent(j))
  {
    var p := Parent(j);
    var t := Swapped(s, j, p);
    forall k | 0 < k < n && k != p
      ensures cmp(t[k], t[Parent(k)]) <= 0
    {
    }
    forall k | 0 < k < n && p > 0 && Parent(k) == p
      ensures cmp(t[k], t[Parent(p)]) <= 0
    {
      assert cmp(s[p], s[Parent(p)]) <= 0;
    }
  }

  lemma HoleClosed<T>(s: seq<T>, cmp: (T, T) -> int, n: int, j: int)
    requires Heap(s, cmp, n, j) && 0 <= j < n && cmp(s[j], s[Parent(j)]) <= 0
    ensures Heap(s, cmp, n, NO_HOLE)
  {
  }

  method Swap<T>(a: array<T>, i: nat, j: nat)
    requires i < a.Length && j < a.Length
    modifies a
    ensures a[..] == Swapped(old(a[..]), i, j)
  {
    var temp := a[i];
    a[i] := a[j];
    a[j] := temp;
  }

  /** Makes the first n elements a max-heap, sifting up one after the other. */
  method BuildMaxHeap<T(!new)>(a: array<T>, n: nat, cmp: (T, T) -> int)
    requires Preorder(cmp) && n <= a.Length
    modifies a
    ensures Heap(a[..], cmp, n, NO_HOLE) && Rearranged(old(a[..]), a[..], 0, n)
  {
    hide Heap, Preorder, Rearranged, Swapped;
    ghost var s := a[..];
    SmallHeap(s, cmp, n);
    var i := 1;
    while i < n
      invariant 1 <= i && (i <= n || i == 1)
      invariant Heap(a[..], cmp, if i <= n then i else n, NO_HOLE) && Rearranged(s, a[..], 0, n)
    {
      HeapGrows(a[..], cmp, i);
      if cmp(a[i], a[Parent(i)]) > 0 {
        var j := i;
        while cmp(a[j], a[Parent(j)]) > 0
          invariant 0 <= j <= i < n
          invariant Heap(a[..], cmp, i + 1, j) && Rearranged(s, a[..], 0, n)
          decreases j
        {
          NotAboveItself(a[j], cmp);
          SiftStep(a[..], cmp, i + 1, j);
          SwapRearranges(a[..], j, Parent(j), 0, n);
          RearrangedTwice(s, a[..], Swapped(a[..], j, Parent(j)), 0, n);
          Swap(a, j, Parent(j));
          j := Parent(j);
        }
        HoleClosed(a[..], cmp, i + 1, j);
      }
      i := i + 1;
    }
  }

  lemma SmallHeap<T>(s: seq<T>, cmp: (T, T) -> int, n: int)
    requires 0 <= n <= |s|
    ensures Heap(s, cmp, if 1 <= n then 1 else n, NO_HOLE) && Rearranged(s, s, 0, n)
  {
  }

  lemma NotAboveItself<T(!new)>(x: T, cmp: (T, T) -> int)
    requires Preorder(cmp)
    ensures cmp(x, x) == 0
  {
  }

  /** From position c on everything is in order and no smaller than what comes before. */
  ghost predicate Finished<T>(s: seq<T>, cmp: (T, T) -> int, c: int) {
    && 0 <= c <= |s| && Ordered(s, cmp, c)
    && forall i, j | 0 <= i < c <= j < |s| :: cmp(s[i], s[j]) <= 0
  }

  /** The root, swapped to position c, is in its final place. */
  lemma RootFinished<T(!new)>(s: seq<T>, cmp: (T, T) -> int, c: int)
    requires Preorder(cmp) && 0 < c < |s| && Heap(s, cmp, c + 1, NO_HOLE) && Finished(s, cmp, c + 1)
    ensures Finished(Swapped(s, c, 0), cmp, c)
  {
    forall k | 0 <= k <= c
      ensures cmp(s[k], s[0]) <= 0
    {
      RootIsLargest(s, cmp, c + 1, k);
    }
  }

  /** Rebuilding the heap in front leaves the finished part finished. */
  lemma StillFinished<T>(s: seq<T>, t: seq<T>, cmp: (T, T) -> int, c: int)
    requires Finished(s, cmp, c) && Rearranged(s, t, 0, c)
    ensures Finished(t, cmp, c)
  {
    OutsideKept(s, t, 0, c);
    forall i, j | 0 <= i < c <= j < |t|
      ensures cmp(t[i], t[j]) <= 0
    {
      var k := CameFrom(s, t, 0, c, i);
    }
  }

  method MySort<T(!new)>(a: array<T>, cmp: (T, T) -> int)
    requires Preorder(cmp) && a.Length > 0
    modifies a
    ensures Ordered(a[..], cmp, 0) && multiset(a[..]) == multiset(old(a[..]))
  {
    hide Heap, Preorder, Rearranged, Swapped, Finished;
    ghost var s := a[..];
    var num := a.Length;
    BuildMaxHeap(a, num, cmp);
    var c := num - 1;
    AllFinished(a[..], cmp);
    while c > 0
      invariant 0 <= c < num && Rearranged(s, a[..], 0, num)
      invariant Heap(a[..], cmp, c + 1, NO_HOLE) && Finished(a[..], cmp, c + 1)
    {
      ghost var t := a[..];
      RootFinished(t, cmp, c);
      SwapRearranges(t, c, 0, 0, num);
      RearrangedTwice(s, t, Swapped(t, c, 0), 0, num);
      Swap(a, c, 0);
      ghost var u := a[..];
      BuildMaxHeap(a, c, cmp);
      StillFinished(u, a[..], cmp, c);
      RearrangedWithin(u, a[..], 0, num, 0, c);
      RearrangedTwice(s, u, a[..], 0, num);
      c := c - 1;
    }
    SortedAtEnd(s, a[..], cmp);
  }

  lemma AllFinished<T>(s: seq<T>, cmp: (T, T) -> int)
    ensures Finished(s, cmp, |s|)
  {
  }

  lemma SortedAtEnd<T>(s: seq<T>, t: seq<T>, cmp: (T, T) -> int)
    requires Finished(t, cmp, 1) && Rearranged(s, t, 0, |s|)
    ensures Ordered(t, cmp, 0) && multiset(s) == multiset(t)
  {
    assert s[0..|s|] == s && t[0..|t|] == t;
  }
}
