/**
 The segregated free lists: the size-class function and the doubly linked lists
 kept inside the payloads of free blocks.
 */
module FreeLists {
  import opened Sequences
  import opened HeapLayout
  import opened HeapMemory

  const FREE_LIST_COUNT := 196
  const EXACT_BELOW := 128
  const LINEAR_BELOW := 188
  const LINEAR_SIZE := LINEAR_BELOW - EXACT_BELOW
  const MIN_LINEAR := EXACT_BELOW * 8 + MIN_BLOCK
  const MAX_LINEAR_EXCL := 0x100 * LINEAR_SIZE + MIN_LINEAR

  /** The classes past the linear range double in width; the last one is open. */
  function DoublingClass(size: nat, current: nat, i: nat): (r: nat)
    requires LINEAR_BELOW <= i <= FREE_LIST_COUNT - 1
    ensures i <= r < FREE_LIST_COUNT
    decreases FREE_LIST_COUNT - i
  {
    if i == FREE_LIST_COUNT - 1 || size <= current then i else DoublingClass(size, 2 * current, i + 1)
  }

  /**
   Size class of a block. `linear` stands for the floating-point step of the
   linear range, which maps size - MIN_LINEAR to a class offset.
   */
  function FreeListIndex(linear: nat -> nat, size: nat): (i: nat)
    requires size >= MIN_BLOCK
    ensures i < FREE_LIST_COUNT
  {
    if (size - MIN_BLOCK) / 8 < EXACT_BELOW then (size - MIN_BLOCK) / 8
    else if linear(size - MIN_LINEAR) < LINEAR_SIZE then linear(size - MIN_LINEAR) + EXACT_BELOW
    else DoublingClass(size, MAX_LINEAR_EXCL * 2, LINEAR_BELOW)
  }

  ghost predicate Monotone(linear: nat -> nat) {
    forall x, y | x <= y :: linear(x) <= linear(y)
  }

  lemma {:induction false} DoublingMonotone(s: nat, t: nat, current: nat, i: nat)
    requires s <= t && LINEAR_BELOW <= i <= FREE_LIST_COUNT - 1
    ensures DoublingClass(s, current, i) <= DoublingClass(t, current, i)
    decreases FREE_LIST_COUNT - i
  {
    if i < FREE_LIST_COUNT - 1 && s > current {
      DoublingMonotone(s, t, 2 * current, i + 1);
    }
  }

  /** Larger blocks never fall into a smaller class, across all three ranges. */
  lemma IndexMonotone(linear: nat -> nat, s: nat, t: nat)
    requires Monotone(linear) && MIN_BLOCK <= s <= t
    ensures FreeListIndex(linear, s) <= FreeListIndex(linear, t)
  {
    DoublingMonotone(s, t, MAX_LINEAR_EXCL * 2, LINEAR_BELOW);
  }

  /** Below the linear range a class holds a single block size. */
  lemma ExactClass(linear: nat -> nat, s: nat)
    requires GoodSize(s) && FreeListIndex(linear, s) < EXACT_BELOW
    ensures s == MIN_BLOCK + 8 * FreeListIndex(linear, s)
  {
  }

  // ---- One doubly linked list ---------------------------------------------------------

  ghost function At(s: seq<int>, j: int): int {
    if 0 <= j < |s| then s[j] else NULL
  }

  /** The pred and succ words of the node at position j name its neighbours. */
  ghost predicate NodeOk(mem: Memory, s: seq<int>, j: nat)
    requires j < |s|
  {
    && HasPtr(mem, s[j]) && ReadPtr(mem, s[j]) == At(s, j - 1)
    && HasPtr(mem, s[j] + 8) && ReadPtr(mem, s[j] + 8) == At(s, j + 1)
  }

  /** head and the pred/succ words of the nodes describe the list s. */
  ghost predicate Linked(mem: Memory, head: int, s: seq<int>) {
    head == At(s, 0) && forall j {:trigger NodeOk(mem, s, j)} | 0 <= j < |s| :: NodeOk(mem, s, j)
  }

  ghost function Without(s: seq<int>, k: nat): seq<int>
    requires k < |s|
  {
    s[..k] + s[k + 1..]
  }

  ghost predicate FarFrom(x: int, y: int) {
    x + LINKS <= y || y + LINKS <= x
  }

  /** Nodes of one list never share link words, and their addresses are pointers. */
  ghost predicate Spread(s: seq<int>) {
    && (forall j | 0 <= j < |s| :: 0 < s[j] < 0x8000_0000_0000_0000)
    && (forall j, k | 0 <= j < k < |s| :: FarFrom(s[j], s[k]))
  }

  ghost function SetSuccOf(mem: Memory, x: int, p: int): Memory {
    if x != NULL && HasPtr(mem, x + 8) && 0 <= p < 0x8000_0000_0000_0000 then WritePtr(mem, x + 8, p) else mem
  }

  ghost function SetPredOf(mem: Memory, x: int, p: int): Memory {
    if x != NULL && HasPtr(mem, x) && 0 <= p < 0x8000_0000_0000_0000 then WritePtr(mem, x, p) else mem
  }

  /** Memory after the node at position k has been bypassed. */
  ghost function Bypassed(mem: Memory, s: seq<int>, k: nat): Memory {
    SetPredOf(SetSuccOf(mem, At(s, k - 1), At(s, k + 1)), At(s, k + 1), At(s, k - 1))
  }

  /** Memory after node x has been put in front of the list s. */
  ghost function Pushed(mem: Memory, s: seq<int>, x: int): Memory {
    SetPredOf(SetSuccOf(SetPredOf(mem, x, NULL), x, At(s, 0)), At(s, 0), x)
  }

  /** What one pointer write changes: the pointer itself, and no word outside it. */
  lemma SetSuccEffect(mem: Memory, x: int, p: int, a: int)
    ensures SetSuccOf(mem, x, p).Keys == mem.Keys
    ensures a in mem && (x == NULL || a < x + 8 || a >= x + 16) ==> SetSuccOf(mem, x, p)[a] == mem[a]
    ensures HasPtr(mem, a) && (x == NULL || a + 4 < x + 8 || a >= x + 16) ==> ReadPtr(SetSuccOf(mem, x, p), a) == ReadPtr(mem, a)
    ensures x != NULL && HasPtr(mem, x + 8) && 0 <= p < 0x8000_0000_0000_0000 ==> ReadPtr(SetSuccOf(mem, x, p), x + 8) == p
  {
  }

  lemma SetPredEffect(mem: Memory, x: int, p: int, a: int)
    ensures SetPredOf(mem, x, p).Keys == mem.Keys
    ensures a in mem && (x == NULL || a < x || a >= x + 8) ==> SetPredOf(mem, x, p)[a] == mem[a]
    ensures HasPtr(mem, a) && (x == NULL || a + 4 < x || a >= x + 8) ==> ReadPtr(SetPredOf(mem, x, p), a) == ReadPtr(mem, a)
    ensures x != NULL && HasPtr(mem, x) && 0 <= p < 0x8000_0000_0000_0000 ==> ReadPtr(SetPredOf(mem, x, p), x) == p
  {
  }

  /** A list survives any change outside the link words of its nodes. */
  lemma LinkedFrame(m: Memory, m': Memory, head: int, s: seq<int>)
    requires Linked(m, head, s) && m'.Keys == m.Keys
    requires forall j, a {:trigger s[j], m'[a]} | 0 <= j < |s| && a in m && s[j] <= a < s[j] + LINKS :: m'[a] == m[a]
    ensures Linked(m', head, s)
  {
    forall j {:trigger NodeOk(m', s, j)} | 0 <= j < |s|
      ensures NodeOk(m', s, j)
    {
      assert NodeOk(m, s, j);
      var x := s[j];
      assert m'[x] == m[x] && m'[x + 4] == m[x + 4] && m'[x + 8] == m[x + 8] && m'[x + 12] == m[x + 12];
    }
  }

  lemma BypassTouches(mem: Memory, s: seq<int>, k: nat, a: int)
    requires k < |s| && a in mem
    requires k > 0 ==> a < s[k - 1] + 8 || a >= s[k - 1] + LINKS
    requires k + 1 < |s| ==> a < s[k + 1] || a >= s[k + 1] + 8
    ensures Bypassed(mem, s, k).Keys == mem.Keys && Bypassed(mem, s, k)[a] == mem[a]
  {
    SetSuccEffect(mem, At(s, k - 1), At(s, k + 1), a);
    SetPredEffect(SetSuccOf(mem, At(s, k - 1), At(s, k + 1)), At(s, k + 1), At(s, k - 1), a);
  }

  /** After bypassing position k, node j has the neighbours it has in the shorter list. */
  lemma BypassedNode(mem: Memory, s: seq<int>, k: nat, j: nat)
    requires k < |s| && Linked(mem, At(s, 0), s) && Spread(s) && j < |s| && j != k
    ensures HasPtr(Bypassed(mem, s, k), s[j]) && HasPtr(Bypassed(mem, s, k), s[j] + 8)
    ensures ReadPtr(Bypassed(mem, s, k), s[j]) == if j == k + 1 then At(s, k - 1) else At(s, j - 1)
    ensures ReadPtr(Bypassed(mem, s, k), s[j] + 8) == if j + 1 == k then At(s, k + 1) else At(s, j + 1)
  {
    hide SetPredOf, SetSuccOf, ReadPtr;
    var p, n, x := At(s, k - 1), At(s, k + 1), s[j];
    var m := SetSuccOf(mem, p, n);
    assert NodeOk(mem, s, j);
    SetSuccEffect(mem, p, n, x);
    SetSuccEffect(mem, p, n, x + 8);
    SetPredEffect(m, n, p, x);
    SetPredEffect(m, n, p, x + 8);
  }

  lemma BypassLinked(mem: Memory, s: seq<int>, k: nat)
    requires k < |s| && Linked(mem, At(s, 0), s) && Spread(s)
    ensures Linked(Bypassed(mem, s, k), At(Without(s, k), 0), Without(s, k))
  {
    hide Bypassed, ReadPtr, HasPtr, Spread;
    var t, m' := Without(s, k), Bypassed(mem, s, k);
    forall j {:trigger NodeOk(m', t, j)} | 0 <= j < |t|
      ensures NodeOk(m', t, j)
    {
      BypassedNode(mem, s, k, if j < k then j else j + 1);
    }
  }

  /** The new node in front points nowhere to the left and to the old front on the right. */
  lemma PushedFront(mem: Memory, s: seq<int>, x: int)
    requires Spread([x] + s) && HasPtr(mem, x) && HasPtr(mem, x + 8)
    ensures NodeOk(Pushed(mem, s, x), [x] + s, 0)
  {
    hide SetPredOf, SetSuccOf, ReadPtr;
    var t, head := [x] + s, At(s, 0);
    assert s != [] ==> t[1] == head && FarFrom(t[0], t[1]);
    var m1 := SetPredOf(mem, x, NULL);
    var m2 := SetSuccOf(m1, x, head);
    SetPredEffect(mem, x, NULL, x + 8);
    SetSuccEffect(m1, x, head, x);
    SetPredEffect(m2, head, x, x);
    SetPredEffect(m2, head, x, x + 8);
  }

  /** An old node keeps its right neighbour, and its left one unless it was in front. */
  lemma PushedOther(mem: Memory, s: seq<int>, x: int, j: nat)
    requires Linked(mem, At(s, 0), s) && j < |s| && 0 < x < 0x8000_0000_0000_0000 && s[0] > 0
    requires FarFrom(x, s[j]) && FarFrom(x, s[0]) && (j > 0 ==> FarFrom(s[0], s[j]))
    ensures HasPtr(Pushed(mem, s, x), s[j]) && HasPtr(Pushed(mem, s, x), s[j] + 8)
    ensures ReadPtr(Pushed(mem, s, x), s[j]) == if j == 0 then x else At(s, j - 1)
    ensures ReadPtr(Pushed(mem, s, x), s[j] + 8) == At(s, j + 1)
  {
    hide SetPredOf, SetSuccOf, ReadPtr;
    var head, y := At(s, 0), s[j];
    assert NodeOk(mem, s, j);
    var m1 := SetPredOf(mem, x, NULL);
    var m2 := SetSuccOf(m1, x, head);
    SetPredEffect(mem, x, NULL, y);
    SetPredEffect(mem, x, NULL, y + 8);
    SetSuccEffect(m1, x, head, y);
    SetSuccEffect(m1, x, head, y + 8);
    SetPredEffect(m2, head, x, y);
    SetPredEffect(m2, head, x, y + 8);
  }

  lemma PushLinked(mem: Memory, s: seq<int>, x: int)
    requires Linked(mem, At(s, 0), s) && Spread([x] + s) && HasPtr(mem, x) && HasPtr(mem, x + 8)
    ensures Linked(Pushed(mem, s, x), x, [x] + s)
  {
    hide Pushed, NodeOk, Spread;
    var t, m' := [x] + s, Pushed(mem, s, x);
    forall j {:trigger NodeOk(m', t, j)} | 0 <= j < |t|
      ensures NodeOk(m', t, j)
    {
      if j == 0 {
        PushedFront(mem, s, x);
      } else {
        PushedNode(mem, s, x, j - 1);
      }
    }
  }

  lemma SpreadFront(s: seq<int>, x: int, j: nat)
    requires Spread([x] + s) && j < |s|
    ensures FarFrom(x, s[j]) && FarFrom(x, s[0]) && (j > 0 ==> FarFrom(s[0], s[j]))
    ensures 0 < x < 0x8000_0000_0000_0000 && s[0] > 0
  {
    var t := [x] + s;
    assert t[0] == x && t[1] == s[0] && t[j + 1] == s[j];
    assert FarFrom(t[0], t[j + 1]) && FarFrom(t[0], t[1]) && (j > 0 ==> FarFrom(t[1], t[j + 1]));
  }

  lemma FrontPositions(s: seq<int>, x: int, j: nat)
    requires j < |s|
    ensures ([x] + s)[j + 1] == s[j]
    ensures At([x] + s, j) == (if j == 0 then x else At(s, j - 1)) && At([x] + s, j + 2) == At(s, j + 1)
  {
  }

  lemma PushedNode(mem: Memory, s: seq<int>, x: int, j: nat)
    requires Linked(mem, At(s, 0), s) && Spread([x] + s) && j < |s|
    ensures NodeOk(Pushed(mem, s, x), [x] + s, j + 1)
  {
    hide Pushed, ReadPtr, HasPtr, Linked, Spread, At;
    SpreadFront(s, x, j);
    PushedOther(mem, s, x, j);
    FrontPositions(s, x, j);
  }

  // ---- All lists together --------------------------------------------------------------

  /** x is a free block of class i that is on its list. */
  ghost predicate Member(bs: Blocks, detached: set<int>, linear: nat -> nat, x: int, i: int) {
    && x in bs && !bs[x].alloc && x !in detached
    && bs[x].size >= MIN_BLOCK && FreeListIndex(linear, bs[x].size) == i
  }

  /** The lists hold exactly the free blocks outside `detached`, each once, in the list of its class. */
  ghost predicate Filed(lists: seq<seq<int>>, bs: Blocks, detached: set<int>, linear: nat -> nat) {
    && |lists| == FREE_LIST_COUNT
    && (forall i | 0 <= i < FREE_LIST_COUNT :: Distinct(lists[i]))
    && (forall i, x | 0 <= i < FREE_LIST_COUNT && x in lists[i] :: Member(bs, detached, linear, x, i))
    && (forall b | b in bs && !bs[b].alloc && b !in detached ::
          bs[b].size >= MIN_BLOCK && b in lists[FreeListIndex(linear, bs[b].size)])
  }

  /** The list heads and the words of the nodes describe the lists. */
  ghost predicate AllLinked(mem: Memory, heads: seq<int>, lists: seq<seq<int>>) {
    && |heads| == FREE_LIST_COUNT && |lists| == FREE_LIST_COUNT
    && (forall i | 0 <= i < FREE_LIST_COUNT :: Linked(mem, heads[i], lists[i]))
  }

  ghost predicate Addresses(bs: Blocks) {
    forall b | b in bs :: 0 < b < 0x8000_0000_0000_0000
  }

  lemma MembersSpread(bs: Blocks, s: seq<int>, first: int, end: int)
    requires Tiles(bs, first, end) && Addresses(bs) && Distinct(s) && forall x | x in s :: x in bs
    ensures Spread(s)
  {
    forall j, k | 0 <= j < k < |s|
      ensures FarFrom(s[j], s[k])
    {
      assert s[j] in s && s[k] in s;
    }
    forall j | 0 <= j < |s|
      ensures 0 < s[j] < 0x8000_0000_0000_0000
    {
      assert s[j] in s;
    }
  }

  /** A change confined to the links of one class leaves every other list alone. */
  lemma OtherListKept(m: Memory, m': Memory, head: int, r: seq<int>, bs: Blocks, first: int, end: int, touched: set<int>)
    requires Tiles(bs, first, end) && Linked(m, head, r) && m'.Keys == m.Keys
    requires forall x | x in r :: x in bs && x !in touched
    requires touched <= bs.Keys
    requires forall a | a in m && m'[a] != m[a] :: exists f :: f in touched && f <= a < f + LINKS
    ensures Linked(m', head, r)
  {
    forall j, a {:trigger r[j], m'[a]} | 0 <= j < |r| && a in m && r[j] <= a < r[j] + LINKS
      ensures m'[a] == m[a]
    {
      assert r[j] in r;
    }
    LinkedFrame(m, m', head, r);
  }

  lemma BypassTouched(mem: Memory, s: seq<int>, k: nat, touched: set<int>)
    requires k < |s| && touched == set x | x in s
    ensures Bypassed(mem, s, k).Keys == mem.Keys
    ensures forall a | a in mem && Bypassed(mem, s, k)[a] != mem[a] :: exists f :: f in touched && f <= a < f + LINKS
  {
    var m' := Bypassed(mem, s, k);
    assert m'.Keys == mem.Keys;
    forall a | a in mem && m'[a] != mem[a]
      ensures exists f :: f in touched && f <= a < f + LINKS
    {
      if k > 0 && s[k - 1] + 8 <= a < s[k - 1] + LINKS {
        assert s[k - 1] in touched;
      } else if k + 1 < |s| && s[k + 1] <= a < s[k + 1] + 8 {
        assert s[k + 1] in touched;
      } else {
        BypassTouches(mem, s, k, a);
      }
    }
  }

  lemma PushTouched(mem: Memory, s: seq<int>, x: int, touched: set<int>)
    requires touched == {x} + set y | y in s
    ensures Pushed(mem, s, x).Keys == mem.Keys
    ensures forall a | a in mem && Pushed(mem, s, x)[a] != mem[a] :: exists f :: f in touched && f <= a < f + LINKS
  {
    var m' := Pushed(mem, s, x);
    var m1 := SetPredOf(mem, x, NULL);
    var m2 := SetSuccOf(m1, x, At(s, 0));
    assert m'.Keys == mem.Keys;
    forall a | a in mem && m'[a] != mem[a]
      ensures exists f :: f in touched && f <= a < f + LINKS
    {
      if x <= a < x + LINKS {
        assert x in touched;
      } else if s != [] && s[0] <= a < s[0] + 8 {
        assert s[0] in touched;
      } else {
        SetPredEffect(mem, x, NULL, a);
        SetSuccEffect(m1, x, At(s, 0), a);
        SetPredEffect(m2, At(s, 0), x, a);
      }
    }
  }

  lemma WithoutContents(s: seq<int>, k: nat)
    requires k < |s| && Distinct(s)
    ensures Distinct(Without(s, k)) && forall y :: y in Without(s, k) <==> y in s && y != s[k]
  {
    var t := Without(s, k);
    forall y
      ensures y in t <==> y in s && y != s[k]
    {
      if y in s && y != s[k] {
        var j :| 0 <= j < |s| && s[j] == y;
        assert t[if j < k then j else j - 1] == y;
      }
    }
  }

  // ---- What becomes of the lists ---------------------------------------------------------

  /** The elements of s outside `gone`, in their order. */
  ghost function Kept(s: seq<int>, gone: set<int>): seq<int> {
    if s == [] then [] else (if s[0] in gone then [] else [s[0]]) + Kept(s[1..], gone)
  }

  /** The lists without the blocks in `gone`. */
  ghost function Unlisted(lists: seq<seq<int>>, gone: set<int>): (r: seq<seq<int>>)
    ensures |r| == |lists|
  {
    seq(|lists|, i requires 0 <= i < |lists| => Kept(lists[i], gone))
  }

  /** The lists with block x of this size in front of the list of its class. */
  ghost function Listed(lists: seq<seq<int>>, linear: nat -> nat, x: int, size: nat): (r: seq<seq<int>>)
    ensures |r| == |lists|
  {
    if size < MIN_BLOCK || FreeListIndex(linear, size) >= |lists| then lists
    else lists[FreeListIndex(linear, size) := [x] + lists[FreeListIndex(linear, size)]]
  }

  lemma {:induction false} KeptAll(s: seq<int>, gone: set<int>)
    requires forall j | 0 <= j < |s| :: s[j] !in gone
    ensures Kept(s, gone) == s
  {
    if s != [] {
      KeptAll(s[1..], gone);
      assert [s[0]] + s[1..] == s;
    }
  }

  lemma {:induction false} KeptWithout(s: seq<int>, k: nat)
    requires k < |s| && Distinct(s)
    ensures Kept(s, {s[k]}) == Without(s, k)
  {
    if k == 0 {
      KeptAll(s[1..], {s[0]});
    } else {
      KeptWithout(s[1..], k - 1);
      assert Without(s, k) == [s[0]] + Without(s[1..], k - 1);
    }
  }

  lemma {:induction false} KeptTwice(s: seq<int>, gone: set<int>, more: set<int>)
    ensures Kept(Kept(s, gone), more) == Kept(s, gone + more)
  {
    if s != [] {
      KeptTwice(s[1..], gone, more);
      var rest := Kept(s[1..], gone);
      assert [] + rest == rest && ([s[0]] + rest)[1..] == rest;
    }
  }

  lemma UnlistedTwice(lists: seq<seq<int>>, gone: set<int>, more: set<int>)
    ensures Unlisted(Unlisted(lists, gone), more) == Unlisted(lists, gone + more)
  {
    forall i | 0 <= i < |lists|
      ensures Kept(Kept(lists[i], gone), more) == Kept(lists[i], gone + more)
    {
      KeptTwice(lists[i], gone, more);
    }
  }

  /** Taking one block off its list takes it off the lists. */
  lemma WithoutIsUnlisted(lists: seq<seq<int>>, bs: Blocks, detached: set<int>, linear: nat -> nat, i: nat, k: nat)
    requires Filed(lists, bs, detached, linear) && i < FREE_LIST_COUNT && k < |lists[i]|
    ensures lists[i := Without(lists[i], k)] == Unlisted(lists, {lists[i][k]})
  {
    var x := lists[i][k];
    assert x in lists[i];
    forall j | 0 <= j < |lists|
      ensures Kept(lists[j], {x}) == if j == i then Without(lists[i], k) else lists[j]
    {
      if j == i {
        KeptWithout(lists[i], k);
      } else {
        assert x !in lists[j] by {
          assert Member(bs, detached, linear, x, i);
          assert x in lists[j] ==> Member(bs, detached, linear, x, j);
        }
        KeptAll(lists[j], {x});
      }
    }
  }

  lemma RemoveKeepsFiled(lists: seq<seq<int>>, bs: Blocks, detached: set<int>, linear: nat -> nat, i: nat, k: nat)
    requires Filed(lists, bs, detached, linear) && i < FREE_LIST_COUNT && k < |lists[i]|
    ensures Filed(lists[i := Without(lists[i], k)], bs, detached + {lists[i][k]}, linear)
  {
    WithoutContents(lists[i], k);
    assert lists[i][k] in lists[i];
  }

  lemma RemoveKeepsLinked(mem: Memory, heads: seq<int>, lists: seq<seq<int>>, bs: Blocks, detached: set<int>,
                          linear: nat -> nat, first: int, end: int, i: nat, k: nat)
    requires Tiles(bs, first, end) && Addresses(bs)
    requires AllLinked(mem, heads, lists) && Filed(lists, bs, detached, linear)
    requires i < FREE_LIST_COUNT && k < |lists[i]|
    ensures AllLinked(Bypassed(mem, lists[i], k), heads[i := At(Without(lists[i], k), 0)], lists[i := Without(lists[i], k)])
    ensures LinksOnly(mem, Bypassed(mem, lists[i], k), bs)
  {
    var s := lists[i];
    var m', touched := Bypassed(mem, s, k), set x | x in s;
    MembersSpread(bs, s, first, end);
    BypassLinked(mem, s, k);
    BypassTouched(mem, s, k, touched);
    assert forall f | f in touched :: Member(bs, detached, linear, f, i);
    forall i' | 0 <= i' < FREE_LIST_COUNT && i' != i
      ensures Linked(m', heads[i'], lists[i'])
    {
      assert forall x | x in lists[i'] :: Member(bs, detached, linear, x, i');
      OtherListKept(mem, m', heads[i'], lists[i'], bs, first, end, touched);
    }
  }

  lemma AddKeepsFiled(lists: seq<seq<int>>, bs: Blocks, detached: set<int>, linear: nat -> nat, i: nat, x: int)
    requires Filed(lists, bs, detached, linear) && x in detached && Member(bs, {}, linear, x, i)
    ensures Filed(lists[i := [x] + lists[i]], bs, detached - {x}, linear)
  {
    var t := [x] + lists[i];
    assert x !in lists[i];
    assert forall y :: y in t <==> y == x || y in lists[i];
  }

  lemma AddKeepsLinked(mem: Memory, heads: seq<int>, lists: seq<seq<int>>, bs: Blocks, detached: set<int>,
                       linear: nat -> nat, first: int, end: int, i: nat, x: int)
    requires Tiles(bs, first, end) && Addresses(bs)
    requires AllLinked(mem, heads, lists) && Filed(lists, bs, detached, linear)
    requires x in detached && Member(bs, {}, linear, x, i) && HasPtr(mem, x) && HasPtr(mem, x + 8)
    ensures AllLinked(Pushed(mem, lists[i], x), heads[i := x], lists[i := [x] + lists[i]])
    ensures LinksOnly(mem, Pushed(mem, lists[i], x), bs)
  {
    hide Pushed, Tiles, Addresses, LinksOnly, Spread;
    var s := lists[i];
    var m', touched := Pushed(mem, s, x), {x} + set y | y in s;
    assert forall f | f in s :: Member(bs, detached, linear, f, i);
    FrontSpread(bs, s, x, first, end);
    PushLinked(mem, s, x);
    PushTouched(mem, s, x, touched);
    forall i' | 0 <= i' < FREE_LIST_COUNT && i' != i
      ensures Linked(m', heads[i'], lists[i'])
    {
      forall y | y in lists[i']
        ensures y in bs && y !in touched
      {
        assert Member(bs, detached, linear, y, i');
      }
      OtherListKept(mem, m', heads[i'], lists[i'], bs, first, end, touched);
    }
    TouchedFree(mem, m', bs, touched);
  }

  lemma FrontSpread(bs: Blocks, s: seq<int>, x: int, first: int, end: int)
    requires Tiles(bs, first, end) && Addresses(bs) && Distinct(s) && x in bs && x !in s && forall y | y in s :: y in bs
    ensures Spread([x] + s)
  {
    var t := [x] + s;
    assert forall y :: y in t <==> y == x || y in s;
    MembersSpread(bs, t, first, end);
  }

  lemma TouchedFree(m: Memory, m': Memory, bs: Blocks, touched: set<int>)
    requires m'.Keys == m.Keys && forall f | f in touched :: f in bs && !bs[f].alloc
    requires forall a | a in m && m'[a] != m[a] :: exists f :: f in touched && f <= a < f + LINKS
    ensures LinksOnly(m, m', bs)
  {
  }
}
