/** Quicksort in x86-64 assembly: registers, a stack and an array of 32-bit words in memory. */
module QuickSort {
  import opened Segments

  ghost predicate Ascending(s: seq<int>, lo: int, end: int)
    requires 0 <= lo && end <= |s|
  {
    forall i, j | lo <= i <= j < end :: s[i] <= s[j]
  }

  /** Bounds on all elements of a segment survive its rearrangement. */
  lemma BoundsKept(s: seq<int>, t: seq<int>, lo: int, end: int, x: int)
    requires Rearranged(s, t, lo, end)
    ensures (forall i | lo <= i < end :: s[i] <= x) ==> forall i | lo <= i < end :: t[i] <= x
    ensures (forall i | lo <= i < end :: s[i] > x) ==> forall i | lo <= i < end :: t[i] > x
  {
    forall i | lo <= i < end
      ensures exists k :: lo <= k < end && s[k] == t[i]
    {
      var k := CameFrom(s, t, lo, end, i);
    }
  }

  /** Both sides sorted around a pivot. */
  lemma SortedAroundPivot(s: seq<int>, lo: int, p: int, end: int)
    requires 0 <= lo <= p < end <= |s|
    requires Ascending(s, lo, p) && Ascending(s, p + 1, end)
    requires (forall i | lo <= i < p :: s[i] <= s[p]) && forall i | p < i < end :: s[i] > s[p]
    ensures Ascending(s, lo, end)
  {
  }

  // Return addresses: the instruction after each call.
  const AFTER_TAKE := 1
  const AFTER_PIVOT := 2
  const AFTER_PARTITION := 3
  const AFTER_LEFT := 4
  const AFTER_RIGHT := 5

  /** ret has taken the return address off the stack, and nothing else. */
  ghost predicate Returned(to: int, before: seq<int>, after: seq<int>) {
    before != [] && to == before[|before| - 1] && after == before[..|before| - 1]
  }

  lemma ReturnedIs(to: int, before: seq<int>, after: seq<int>)
    ensures before != [] && to == before[|before| - 1] && after == before[..|before| - 1] ==> Returned(to, before, after)
  {
  }

  /** A call pushes its return address; after ret the stack is the caller's again. */
  lemma CallReturns(to: int, s: seq<int>, address: int, after: seq<int>)
    ensures Returned(to, s + [address], after) ==> to == address && after == s
  {
  }

  /** Popping takes back what was pushed. */
  lemma PushPop(s: seq<int>, x: int)
    ensures s + [x] != [] && (s + [x])[|s + [x]| - 1] == x && (s + [x])[..|s + [x]| - 1] == s
  {
  }

  class Machine {
    const base: int          // address of the array
    const data: array<int>   // its words
    var stack: seq<int>      // top last
    var rax: int
    var rdx: int
    var rcx: int
    var rsi: int
    var rdi: int
    var r8: int
    var r9: int

    constructor (base: int, data: array<int>)
      ensures this.base == base && this.data == data && stack == []
    {
      this.base, this.data := base, data;
      stack := [];
      rax, rdx, rcx, rsi, rdi, r8, r9 := 0, 0, 0, 0, 0, 0, 0;
    }

    /** The address of word i of the array. */
    function Address(i: int): int {
      base + 4 * i
    }

    ghost predicate Word(address: int) {
      (address - base) % 4 == 0 && 0 <= (address - base) / 4 < data.Length
    }

    lemma AddressSteps(i: int, j: int)
      ensures Address(i) + 4 == Address(i + 1) && Address(i) + -4 == Address(i - 1)
      ensures Address(i) < Address(j) <==> i < j
      ensures Address(i) == Address(j) <==> i == j
    {
    }

    lemma WordAt(i: int)
      requires 0 <= i < data.Length
      ensures Word(Address(i)) && (Address(i) - base) / 4 == i
    {
    }

    method Load(address: int) returns (x: int)
      requires Word(address)
      ensures x == data[(address - base) / 4]
    {
      x := data[(address - base) / 4];
    }

    method Store(address: int, x: int)
      requires Word(address)
      modifies data
      ensures data[..] == old(data[..])[(address - base) / 4 := x]
    {
      data[(address - base) / 4] := x;
    }

    method Push(x: int)
      modifies `stack
      ensures stack == old(stack) + [x]
    {
      stack := stack + [x];
    }

    method Pop() returns (x: int)
      requires stack != []
      modifies `stack
      ensures stack == old(stack)[..|old(stack)| - 1] && x == old(stack)[|old(stack)| - 1]
    {
      x := stack[|stack| - 1];
      stack := stack[..|stack| - 1];
    }

    /** 8k(%rsp) */
    function Slot(k: nat): int
      requires k < |stack|
      reads this`stack
    {
      stack[|stack| - 1 - k]
    }

    /** The return address is on top of the stack; `to` is where ret goes. */
    method Swap(ghost i: int, ghost j: int) returns (to: int)
      requires 0 <= i < data.Length && 0 <= j < data.Length && rdi == Address(i) && rsi == Address(j)
      requires stack != []
      modifies data, `rax, `rdx, `stack
      ensures data[..] == Swapped(old(data[..]), i, j)
      ensures Returned(to, old(stack), stack)
    {
      hide Word, Address, Returned;
      WordAt(i);
      WordAt(j);
      rax := Load(rdi);
      rdx := Load(rsi);
      Store(rdi, rdx);
      Store(rsi, rax);
      ghost var s := stack;
      to := Pop();
      ReturnedIs(to, s, stack);
    }

    /** The block at .taken: the word at rcx joins the small ones; swap clobbers registers, so they are saved. */
    method Take(ghost i: int, ghost j: int)
      requires 0 <= i < data.Length && 0 <= j < data.Length && r9 == Address(i - 1) && rcx == Address(j)
      modifies data, this
      ensures data[..] == Swapped(old(data[..]), j, i) && r9 == Address(i)
      ensures stack == old(stack) && rdi == old(rdi) && rsi == old(rsi) && rdx == old(rdx) && rcx == old(rcx)
    {
      hide Returned, Swapped;
      ghost var s0 := stack;
      r9 := r9 + 4;
      Push(rdx);
      ghost var s1 := stack;
      Push(rdi);
      ghost var s2 := stack;
      Push(r9);
      ghost var s3 := stack;
      Push(rsi);
      ghost var s4 := stack;
      rsi := r9;
      rdi := rcx;
      Push(AFTER_TAKE);
      var to := Swap(j, i);
      CallReturns(to, s4, AFTER_TAKE, stack);
      PushPop(s3, old(rsi));
      rsi := Pop();
      PushPop(s2, r9);
      r9 := Pop();
      PushPop(s1, old(rdi));
      rdi := Pop();
      PushPop(s0, old(rdx));
      rdx := Pop();
    }

    /** Partitions the words from rdi to rsi around the last one; rax points to where it ends up. */
    method Partition(ghost lo: int, ghost hi: int) returns (to: int, ghost p: int)
      requires 0 <= lo < hi < data.Length && rdi == Address(lo) && rsi == Address(hi)
      requires stack != []
      modifies data, this
      ensures Returned(to, old(stack), stack)
      ensures lo <= p <= hi && rax == Address(p)
      ensures Rearranged(old(data[..]), data[..], lo, hi + 1) && Partitioned(data[..], lo, p, hi)
    {
      hide Rearranged, Swapped, Progress, Partitioned, Returned, Word, Address;
      ghost var s := data[..];
      ghost var i, j := lo, lo;
      WordAt(hi);
      AddressSteps(lo, hi);
      rdx := Load(rsi);
      r9 := rdi;
      r9 := r9 + -4;
      rcx := rdi;
      NothingDivided(s, lo, hi);
      while true
        invariant lo <= i <= j < hi && r9 == Address(i - 1) && rcx == Address(j)
        invariant rdi == Address(lo) && rsi == Address(hi) && rdx == s[hi] && stack == old(stack)
        invariant Progress(s, data[..], lo, i, j, hi)
        decreases hi - j
      {
        WordAt(j);
        r8 := Load(rcx);
        ProgressStep(s, data[..], lo, i, j, hi);
        if rdx >= r8 {
          Take(i, j);
          i := i + 1;
        }
        AddressSteps(j, hi);
        AddressSteps(j + 1, hi);
        rcx := rcx + 4;
        j := j + 1;
        if rcx == rsi {
          break;
        }
      }
      AddressSteps(i - 1, hi);
      r9 := r9 + 4;
      rdi := r9;
      PivotPlaced(s, data[..], lo, i, hi);
      Push(AFTER_PIVOT);
      to := Swap(i, hi);
      CallReturns(to, old(stack), AFTER_PIVOT, stack);
      rax := r9;
      p := i;
      to := Pop();
      ReturnedIs(to, old(stack), stack);
    }

    /** The end of quicksort: the three slots go back into registers, then ret. */
    method Leave(ghost s: seq<int>, ghost hi: int, ghost lo: int, ghost pivot: int) returns (to: int)
      requires s != [] && stack == Slots(s, hi, lo, pivot)
      modifies `stack, `rax, `rdi, `rsi
      ensures Returned(to, s, stack) && rax == pivot && rdi == lo && rsi == hi
    {
      PushPop(s + [hi] + [lo], pivot);
      rax := Pop();
      PushPop(s + [hi], lo);
      rdi := Pop();
      PushPop(s, hi);
      rsi := Pop();
      to := Pop();
    }

    /** The first recursive call, on what lies before the pivot; lo and the pivot come from their slots. */
    method SortBefore(ghost s: seq<int>, ghost lo: int, ghost p: int, ghost hi: int)
      requires 0 <= lo <= p <= hi < data.Length && stack == Slots(s, Address(hi), Address(lo), Address(p))
      modifies data, this
      ensures stack == old(stack)
      ensures Rearranged(old(data[..]), data[..], lo, p) && Ascending(data[..], lo, p)
      decreases p - lo, 1
    {
      hide Rearranged, Ascending, Returned, Address, Slots;
      SlotsHold(s, Address(hi), Address(lo), Address(p));
      AddressSteps(p, hi);
      rsi := Slot(0);
      rsi := rsi + -4;
      rdi := Slot(1);
      Push(AFTER_LEFT);
      var to := Quicksort(lo, p - 1);
      CallReturns(to, old(stack), AFTER_LEFT, stack);
    }

    /** The second one, on what lies behind the pivot; the pivot and hi come from their slots. */
    method SortBehind(ghost s: seq<int>, ghost lo: int, ghost p: int, ghost hi: int)
      requires 0 <= lo <= p <= hi < data.Length && stack == Slots(s, Address(hi), Address(lo), Address(p))
      modifies data, this
      ensures stack == old(stack)
      ensures Rearranged(old(data[..]), data[..], p + 1, hi + 1) && Ascending(data[..], p + 1, hi + 1)
      decreases hi - p, 1
    {
      hide Rearranged, Ascending, Returned, Address, Slots;
      SlotsHold(s, Address(hi), Address(lo), Address(p));
      AddressSteps(p, hi);
      rdi := Slot(0);
      rdi := rdi + 4;
      rsi := Slot(2);
      Push(AFTER_RIGHT);
      var to := Quicksort(p + 1, hi);
      CallReturns(to, old(stack), AFTER_RIGHT, stack);
    }

    /** Sorts the words from rdi to rsi in place; the pointers and the stack are as before. */
    method Quicksort(ghost lo: int, ghost hi: int) returns (to: int)
      requires 0 <= lo <= hi + 1 && hi < data.Length && rdi == Address(lo) && rsi == Address(hi)
      requires stack != []
      modifies data, this
      ensures Returned(to, old(stack), stack) && rdi == old(rdi) && rsi == old(rsi)
      ensures Rearranged(old(data[..]), data[..], lo, hi + 1)
      ensures Ascending(data[..], lo, hi + 1)
      decreases hi - lo + 1, 0
    {
      hide Rearranged, Ascending, Partitioned, Returned, Address;
      AddressSteps(lo, hi);
      if rdi >= rsi {
        ShortIsSorted(data[..], lo, hi + 1);
        to := Pop();
        ReturnedIs(to, old(stack), stack);
        return;
      }
      ghost var s := data[..];
      Push(rsi);
      Push(rdi);
      ghost var frame := stack;
      Push(AFTER_PARTITION);
      ghost var p;
      to, p := Partition(lo, hi);
      CallReturns(to, frame, AFTER_PARTITION, stack);
      ghost var t := data[..];
      Push(rax);
      SortBefore(old(stack), lo, p, hi);
      ghost var u := data[..];
      SortBehind(old(stack), lo, p, hi);
      HalvesSorted(s, t, u, data[..], lo, p, hi);
      to := Leave(old(stack), Address(hi), Address(lo), Address(p));
    }
  }

  /** The stack while quicksort runs: the caller's, then hi, lo and the pivot pointer. */
  ghost function Slots(s: seq<int>, hi: int, lo: int, pivot: int): seq<int> {
    s + [hi] + [lo] + [pivot]
  }

  lemma SlotsHold(s: seq<int>, hi: int, lo: int, pivot: int)
    ensures var t := Slots(s, hi, lo, pivot);
      |t| == |s| + 3 && t[|t| - 1] == pivot && t[|t| - 2] == lo && t[|t| - 3] == hi
  {
  }

  /** Elements up to the pivot are left of i, larger ones from i up to j; the pivot itself waits at hi. */
  ghost predicate Divided(s: seq<int>, lo: int, i: int, j: int, hi: int, pivot: int) {
    && 0 <= lo <= i <= j <= hi < |s| && s[hi] == pivot
    && (forall k | lo <= k < i :: s[k] <= pivot)
    && (forall k | i <= k < j :: s[k] > pivot)
  }

  ghost predicate Partitioned(s: seq<int>, lo: int, p: int, hi: int) {
    && 0 <= lo <= p <= hi < |s|
    && (forall k | lo <= k < p :: s[k] <= s[p])
    && (forall k | p < k <= hi :: s[k] > s[p])
  }

  ghost predicate Progress(s: seq<int>, t: seq<int>, lo: int, i: int, j: int, hi: int) {
    0 <= hi < |s| && Rearranged(s, t, lo, hi + 1) && Divided(t, lo, i, j, hi, s[hi])
  }

  lemma NothingDivided(s: seq<int>, lo: int, hi: int)
    requires 0 <= lo <= hi < |s|
    ensures Progress(s, s, lo, lo, lo, hi)
  {
  }

  lemma DividedStep(s: seq<int>, lo: int, i: int, j: int, hi: int, pivot: int)
    requires 0 <= i <= j < hi < |s|
    ensures Divided(s, lo, i, j, hi, pivot) && s[j] <= pivot ==> Divided(Swapped(s, j, i), lo, i + 1, j + 1, hi, pivot)
    ensures Divided(s, lo, i, j, hi, pivot) && s[j] > pivot ==> Divided(s, lo, i, j + 1, hi, pivot)
  {
  }

  lemma DividedEnd(s: seq<int>, lo: int, i: int, hi: int, pivot: int)
    requires 0 <= i <= hi < |s|
    ensures Divided(s, lo, i, hi, hi, pivot) ==> Partitioned(Swapped(s, i, hi), lo, i, hi)
  {
  }

  lemma ProgressStep(s: seq<int>, t: seq<int>, lo: int, i: int, j: int, hi: int)
    requires 0 <= lo <= i <= j < hi < |t| == |s|
    ensures Progress(s, t, lo, i, j, hi) && t[j] <= s[hi] ==> Progress(s, Swapped(t, j, i), lo, i + 1, j + 1, hi)
    ensures Progress(s, t, lo, i, j, hi) && t[j] > s[hi] ==> Progress(s, t, lo, i, j + 1, hi)
  {
    hide Rearranged, Divided, Swapped;
    if Progress(s, t, lo, i, j, hi) {
      DividedStep(t, lo, i, j, hi, s[hi]);
      SwapRearranges(t, j, i, lo, hi + 1);
      RearrangedTwice(s, t, Swapped(t, j, i), lo, hi + 1);
    }
  }

  lemma PivotPlaced(s: seq<int>, t: seq<int>, lo: int, i: int, hi: int)
    requires 0 <= lo <= i <= hi < |t| == |s|
    ensures Progress(s, t, lo, i, hi, hi) ==>
      Rearranged(s, Swapped(t, i, hi), lo, hi + 1) && Partitioned(Swapped(t, i, hi), lo, i, hi)
  {
    hide Rearranged, Divided, Swapped, Partitioned;
    if Progress(s, t, lo, i, hi, hi) {
      DividedEnd(t, lo, i, hi, s[hi]);
      SwapRearranges(t, i, hi, lo, hi + 1);
      RearrangedTwice(s, t, Swapped(t, i, hi), lo, hi + 1);
    }
  }

  lemma ShortIsSorted(s: seq<int>, lo: int, end: int)
    requires 0 <= lo <= end <= |s| && end <= lo + 1
    ensures Rearranged(s, s, lo, end) && Ascending(s, lo, end)
  {
  }

  /** From the partitioned words t through the sorted left part u to the result v. */
  lemma HalvesSorted(s: seq<int>, t: seq<int>, u: seq<int>, v: seq<int>, lo: int, p: int, hi: int)
    requires 0 <= lo <= p <= hi < |s| && |s| == |t| == |u| == |v|
    ensures Rearranged(s, t, lo, hi + 1) && Partitioned(t, lo, p, hi)
      && Rearranged(t, u, lo, p) && Ascending(u, lo, p)
      && Rearranged(u, v, p + 1, hi + 1) && Ascending(v, p + 1, hi + 1)
      ==> Rearranged(s, v, lo, hi + 1) && Ascending(v, lo, hi + 1)
  {
    hide Rearranged, Partitioned, Ascending;
    if Rearranged(s, t, lo, hi + 1) && Partitioned(t, lo, p, hi)
       && Rearranged(t, u, lo, p) && Ascending(u, lo, p)
       && Rearranged(u, v, p + 1, hi + 1) && Ascending(v, p + 1, hi + 1) {
      HalvesInOrder(t, u, v, lo, p, hi);
      RearrangedWithin(t, u, lo, hi + 1, lo, p);
      RearrangedWithin(u, v, lo, hi + 1, p + 1, hi + 1);
      RearrangedTwice(t, u, v, lo, hi + 1);
      RearrangedTwice(s, t, v, lo, hi + 1);
    }
  }

  lemma HalvesInOrder(t: seq<int>, u: seq<int>, v: seq<int>, lo: int, p: int, hi: int)
    requires 0 <= lo <= p <= hi < |t| && Partitioned(t, lo, p, hi)
    requires Rearranged(t, u, lo, p) && Ascending(u, lo, p)
    requires Rearranged(u, v, p + 1, hi + 1) && Ascending(v, p + 1, hi + 1)
    ensures Ascending(v, lo, hi + 1)
  {
    OutsideKept(t, u, lo, p);
    OutsideKept(u, v, p + 1, hi + 1);
    BoundsKept(t, u, lo, p, t[p]);
    BoundsKept(u, v, p + 1, hi + 1, t[p]);
    hide Rearranged;
    SortedAroundPivot(v, lo, p, hi + 1);
  }
}
