/**
 Whole runs of the allocator as a client sees them: a table of handles, each with
 the bytes last stored through it, whatever the allocator does in between.
 */
module AllocatorRuns {
  import opened HeapLayout
  import opened HeapMemory
  import opened HeapBytes
  import opened HeapFacts
  import opened FreeLists
  import opened Allocators
  import opened HeapLaws

  /** The byte at address p + i. */
  ghost function ByteHere(mem: Memory, p: int, i: nat): nat {
    var w := p + (i - i % 4);
    if w in mem then ByteOf(mem[w], i % 4) else 0
  }

  ghost function Bytes(mem: Memory, p: int, n: nat): (bytes: seq<nat>)
    ensures |bytes| == n
  {
    seq(n, i requires 0 <= i => ByteHere(mem, p, i))
  }

  lemma SameBytesAreEqual(m: Memory, p: int, m': Memory, q: int, n: nat)
    requires SameBytes(m, p, m', q, n)
    ensures Bytes(m, p, n) == Bytes(m', q, n)
  {
    forall i | 0 <= i < n
      ensures ByteHere(m, p, i) == ByteHere(m', q, i)
    {
      assert SameByte(m, p, m', q, i - i % 4, i % 4);
    }
  }

  lemma BytesPrefix(mem: Memory, p: int, n: nat, k: nat)
    requires k <= n
    ensures Bytes(mem, p, n)[..k] == Bytes(mem, p, k)
  {
  }

  type Contents = map<nat, seq<nat>>

  datatype State = State(layout: Layout, ptrs: Table, contents: Contents)

  datatype Op = Alloc(id: nat, size: nat) | Free(id: nat) | Realloc(id: nat, size: nat) | Write(id: nat, at: nat, b: nat)

  /** One client step on the abstract heap of independent byte strings; new bytes are arbitrary. */
  ghost predicate Step(c: Contents, op: Op, c': Contents, denied: bool) {
    match op
    case Alloc(id, size) => if id in c || denied then c' == c else id in c' && |c'[id]| == size && c' - {id} == c
    case Free(id) => c' == c - {id}
    case Realloc(id, size) =>
      if id !in c then c' == c
      else if size == 0 then c' == c - {id}
      else if denied then c' == c
      else id in c' && |c'[id]| == size && c' - {id} == c - {id} && SamePrefix(c[id], c'[id])
    case Write(id, at, b) =>
      if id in c && at < |c[id]| && b < 256 then c' == c[id := Updated(c[id], at, b)] else c' == c
  }

  /** The allocator answers with NULL. */
  ghost predicate Denied(heap: Allocator, s: State, op: Op) {
    match op
    case Alloc(_, size) => size == 0 || heap.Exhausted(s.layout.blocks, s.layout.brk, size)
    case Realloc(id, size) => id in s.ptrs && heap.Refused(s.layout.blocks, s.layout.brk, s.ptrs[id], size)
    case _ => false
  }

  ghost predicate SameHeap(s: State, s': State) {
    s'.layout == s.layout && s'.ptrs == s.ptrs
  }

  /** What the operation does to the blocks: where each request is served, and what is joined and split. */
  ghost predicate HeapStep(heap: Allocator, s: State, op: Op, s': State) {
    if op.Write? || (op.Alloc? && op.id in s.ptrs) || (!op.Alloc? && op.id !in s.ptrs) then SameHeap(s, s')
    else if op.Free? || (op.Realloc? && op.size == 0) then
      && s.ptrs[op.id] in s.layout.blocks && heap.FreedTo(s.layout, s.ptrs[op.id], s'.layout)
      && s'.ptrs == s.ptrs - {op.id}
    else if Denied(heap, s, op) then SameHeap(s, s')
    else
      && op.id in s'.ptrs && s'.ptrs[op.id] != NULL && s'.ptrs == s.ptrs[op.id := s'.ptrs[op.id]]
      && if op.Alloc? then heap.Served(s.layout, s'.layout, s'.ptrs[op.id], op.size)
         else s.ptrs[op.id] in s.layout.blocks && heap.InPlace(s.layout, s'.layout, s.ptrs[op.id], s'.ptrs[op.id], op.size)
  }

  /** The operation is a realloc that has to absorb two or more free blocks. */
  ghost predicate Stuck(heap: Allocator, s: State, op: Op) {
    op.Realloc? && op.id in s.ptrs && heap.Overshoots(s.layout.blocks, s.layout.brk, s.ptrs[op.id], op.size)
  }

  /** The operation's size is cut short on its way to mem_sbrk, or wraps around before. */
  ghost predicate Cut(heap: Allocator, s: State, op: Op) {
    ((op.Alloc? && op.id !in s.ptrs) || (op.Realloc? && op.id in s.ptrs)) && !heap.Representable(s.layout.brk, op.size)
  }

  lemma SmallNeverCut(heap: Allocator, s: State, op: Op)
    requires heap.Params() && (op.Alloc? || op.Realloc? ==> op.size <= 0xffff_fff0)
    ensures !Cut(heap, s, op)
  {
    if op.Alloc? || op.Realloc? {
      heap.SmallIsRepresentable(s.layout.brk, op.size);
    }
  }

  /** The operation is a realloc that splits something off in front of a free block. */
  ghost predicate Splits(heap: Allocator, s: State, op: Op) {
    op.Realloc? && op.id in s.ptrs && heap.LeavesNeighbours(s.layout.blocks, s.ptrs[op.id], op.size)
  }

  /** The first |trace| - 1 operations went as the states in between say, and none of them stopped the run. */
  ghost predicate Traced(heap: Allocator, ops: seq<Op>, trace: seq<State>) {
    && 0 < |trace| <= |ops| + 1
    && (forall k | 0 <= k < |trace| :: heap.WellFormed(trace[k].layout))
    && forall k | 0 <= k < |trace| - 1 ::
         && Step(trace[k].contents, ops[k], trace[k + 1].contents, Denied(heap, trace[k], ops[k]))
         && HeapStep(heap, trace[k], ops[k], trace[k + 1])
         && !Stuck(heap, trace[k], ops[k]) && !Cut(heap, trace[k], ops[k])
  }

  /** One step from the same layout and table ends in the same layout and table. */
  lemma StepIsDetermined(heap: Allocator, s: State, op: Op, s1: State, s2: State)
    requires heap.WellFormed(s.layout) && HeapStep(heap, s, op, s1) && HeapStep(heap, s, op, s2)
    ensures SameHeap(s1, s2)
  {
    hide Tiles, Allocator.WellFormed, Allocator.Served, Allocator.InPlace, Allocator.FreedTo, Denied;
    if SameHeap(s, s1) && SameHeap(s, s2) {
    } else if op.Free? || (op.Realloc? && op.size == 0) {
      WellFormedTiles(heap, s.layout);
      FreedIsDetermined(heap, s.layout, s.ptrs[op.id], s1.layout, s2.layout);
    } else if op.Alloc? && op.id !in s.ptrs && !Denied(heap, s, op) {
      ServedIsDetermined(heap, s.layout, s1.layout, s1.ptrs[op.id], s2.layout, s2.ptrs[op.id], op.size);
    } else if op.Realloc? && op.id in s.ptrs && !Denied(heap, s, op) {
      InPlaceIsDetermined(heap, s.layout, s1.layout, s1.ptrs[op.id], s2.layout, s2.ptrs[op.id], s.ptrs[op.id], op.size);
    }
  }

  /** The operations alone decide every pointer, every block, every list and the break, whatever the bytes are. */
  lemma {:induction false} RunsAreDetermined(heap: Allocator, ops: seq<Op>, t1: seq<State>, t2: seq<State>, k: nat)
    requires Traced(heap, ops, t1) && Traced(heap, ops, t2) && SameHeap(t1[0], t2[0]) && k < |t1| && k < |t2|
    ensures SameHeap(t1[k], t2[k])
  {
    hide HeapStep, Step, Allocator.WellFormed;
    if k > 0 {
      RunsAreDetermined(heap, ops, t1, t2, k - 1);
      SameStart(heap, t1[k - 1], t2[k - 1], ops[k - 1], t2[k]);
      StepIsDetermined(heap, t1[k - 1], ops[k - 1], t1[k], t2[k]);
    }
  }

  lemma SameStart(heap: Allocator, s: State, s': State, op: Op, next: State)
    requires SameHeap(s, s') && HeapStep(heap, s', op, next)
    ensures HeapStep(heap, s, op, next)
  {
  }

  /** No operation of the run splits something off in front of a free block. */
  ghost predicate Splitless(heap: Allocator, ops: seq<Op>, trace: seq<State>) {
    forall k | 0 <= k < |trace| - 1 && k < |ops| :: !Splits(heap, trace[k], ops[k])
  }

  ghost function Updated(s: seq<nat>, at: nat, b: nat): seq<nat>
    requires at < |s|
  {
    s[at := b]
  }

  /** The two strings agree on the length of the shorter one. */
  ghost predicate SamePrefix(s: seq<nat>, t: seq<nat>) {
    var n := if |s| < |t| then |s| else |t|;
    s[..n] == t[..n]
  }

  // ---- Pointer tables -------------------------------------------------------------------

  type Table = map<nat, int>

  /** Handles name distinct live payloads with room for what was requested, and every live payload has one. */
  ghost predicate TableOk(live: map<int, nat>, ptrs: Table, sizes: map<nat, nat>) {
    && ptrs.Keys == sizes.Keys
    && (forall id | id in ptrs :: ptrs[id] in live && sizes[id] + 8 <= live[ptrs[id]])
    && (forall i, j | i in ptrs && j in ptrs && i != j :: ptrs[i] != ptrs[j])
    && (forall p | p in live :: exists id :: id in ptrs && ptrs[id] == p)
  }

  /** The bytes behind every handle. */
  ghost function View(mem: Memory, ptrs: Table, sizes: map<nat, nat>): (c: Contents) {
    map id | id in ptrs && id in sizes :: Bytes(mem, ptrs[id], sizes[id])
  }

  ghost predicate KeepsTable(m: Memory, m': Memory, ptrs: Table, sizes: map<nat, nat>) {
    forall id | id in ptrs && id in sizes :: SameBytes(m, ptrs[id], m', ptrs[id], sizes[id])
  }

  lemma SameView(m: Memory, m': Memory, ptrs: Table, sizes: map<nat, nat>)
    requires KeepsTable(m, m', ptrs, sizes)
    ensures View(m, ptrs, sizes) == View(m', ptrs, sizes)
  {
    forall id | id in ptrs && id in sizes
      ensures Bytes(m, ptrs[id], sizes[id]) == Bytes(m', ptrs[id], sizes[id])
    {
      SameBytesAreEqual(m, ptrs[id], m', ptrs[id], sizes[id]);
    }
  }

  lemma TableAdd(live: map<int, nat>, ptrs: Table, sizes: map<nat, nat>, id: nat, p: int, n: nat, size: nat)
    requires TableOk(live, ptrs, sizes) && id !in ptrs && p !in live && size + 8 <= n
    ensures TableOk(live[p := n], ptrs[id := p], sizes[id := size])
  {
    var live', ptrs' := live[p := n], ptrs[id := p];
    forall q | q in live'
      ensures exists i :: i in ptrs' && ptrs'[i] == q
    {
      if q == p {
        assert ptrs'[id] == q;
      } else {
        var i :| i in ptrs && ptrs[i] == q;
        assert ptrs'[i] == q;
      }
    }
  }

  lemma TableRemove(live: map<int, nat>, ptrs: Table, sizes: map<nat, nat>, id: nat)
    requires TableOk(live, ptrs, sizes) && id in ptrs
    ensures TableOk(live - {ptrs[id]}, ptrs - {id}, sizes - {id})
  {
    var live', ptrs' := live - {ptrs[id]}, ptrs - {id};
    forall q | q in live'
      ensures exists i :: i in ptrs' && ptrs'[i] == q
    {
      var i :| i in ptrs && ptrs[i] == q;
      assert i in ptrs' && ptrs'[i] == q;
    }
  }

  /** Without handles nothing is live. */
  lemma NoHandles(live: map<int, nat>, ptrs: Table, sizes: map<nat, nat>)
    requires TableOk(live, ptrs, sizes)
    ensures ptrs == map[] ==> live == map[]
  {
    assert forall p: int :: p in live ==> exists id: nat :: id in ptrs && ptrs[id] == p;
    assert ptrs == map[] ==> forall p: int :: p !in live;
  }

  /** Table entry id now names p. */
  lemma TableMove(live: map<int, nat>, ptrs: Table, sizes: map<nat, nat>, id: nat, p: int, n: nat, size: nat)
    requires TableOk(live, ptrs, sizes) && id in ptrs && p !in live - {ptrs[id]} && size + 8 <= n
    ensures TableOk((live - {ptrs[id]})[p := n], ptrs[id := p], sizes[id := size])
  {
    TableRemove(live, ptrs, sizes, id);
    TableAdd(live - {ptrs[id]}, ptrs - {id}, sizes - {id}, id, p, n, size);
    assert (ptrs - {id})[id := p] == ptrs[id := p] && (sizes - {id})[id := size] == sizes[id := size];
  }

  /** Adding or replacing one entry changes the view at that handle only. */
  lemma ViewAdd(mem: Memory, ptrs: Table, sizes: map<nat, nat>, id: nat, p: int, size: nat)
    requires ptrs.Keys == sizes.Keys
    ensures var c := View(mem, ptrs[id := p], sizes[id := size]);
      id in c && c[id] == Bytes(mem, p, size) && c - {id} == View(mem, ptrs - {id}, sizes - {id})
  {
  }

  lemma ViewRemove(mem: Memory, ptrs: Table, sizes: map<nat, nat>, id: nat)
    requires ptrs.Keys == sizes.Keys
    ensures View(mem, ptrs - {id}, sizes - {id}) == View(mem, ptrs, sizes) - {id}
  {
  }

  class Client {
    const heap: Allocator
    var blocks: Table            // handle to pointer
    var sizes: map<nat, nat>     // handle to requested size

    constructor (heap: Allocator)
      requires heap.Valid() && Live(heap.blocks) == map[] && heap.First() < heap.brk
      ensures this.heap == heap && Valid() && Contents() == map[] && blocks == map[]
    {
      this.heap := heap;
      blocks, sizes := map[], map[];
    }

    ghost predicate Valid()
      reads this, heap
    {
      heap.Valid() && heap.First() < heap.brk && TableOk(Live(heap.blocks), blocks, sizes)
    }

    ghost function Contents(): Contents
      reads this, heap
    {
      View(heap.mem, blocks, sizes)
    }

    /** Payloads are aligned, inside the heap and pairwise disjoint. */
    ghost predicate Separate()
      reads this, heap
    {
      && blocks.Keys == sizes.Keys
      && (forall id | id in blocks :: blocks[id] % 8 == 0 && heap.base < blocks[id] && blocks[id] + sizes[id] + 8 <= heap.brk)
      && (forall i, j | i in blocks && j in blocks && i != j ::
            blocks[i] + sizes[i] <= blocks[j] || blocks[j] + sizes[j] <= blocks[i])
    }

    lemma ValidIsSeparate()
      requires Valid()
      ensures Separate()
    {
      heap.TilesNow();
      forall id | id in blocks
        ensures blocks[id] in heap.blocks && sizes[id] + 8 <= heap.blocks[blocks[id]].size
      {
        assert blocks[id] in Live(heap.blocks);
      }
    }

    /** What the table says about the memory before an operation. */
    ghost predicate Readable(live: map<int, nat>, ptrs: Table, sizes: map<nat, nat>, mem: Memory)
      reads {}
    {
      forall id | id in ptrs && id in sizes ::
        ptrs[id] in live && sizes[id] + 8 <= live[ptrs[id]] && heap.WordsFrom(mem, ptrs[id], sizes[id])
    }

    lemma TableReadable()
      requires Valid()
      ensures Readable(Live(heap.blocks), blocks, sizes, heap.mem)
    {
      forall id | id in blocks && id in sizes
        ensures heap.WordsFrom(heap.mem, blocks[id], sizes[id])
      {
        heap.PayloadWords(blocks[id]);
      }
    }

    /** Payloads kept over `live` keep the table entries inside it. */
    lemma TableKept(m: Memory, m': Memory, live: map<int, nat>, ptrs: Table, sizes: map<nat, nat>)
      requires PayloadsKept(m, m', live) && Readable(live, ptrs, sizes, m)
      ensures View(m, ptrs, sizes) == View(m', ptrs, sizes)
    {
      forall id | id in ptrs && id in sizes
        ensures SameBytes(m, ptrs[id], m', ptrs[id], sizes[id])
      {
        heap.PrefixKept(m, m', live, ptrs[id], sizes[id]);
      }
      SameView(m, m', ptrs, sizes);
    }

    method Alloc(id: nat, size: nat) returns (p: int)
      requires Valid() && id !in blocks && heap.Representable(heap.brk, size)
      modifies this, heap
      ensures Valid()
      ensures p == NULL <==> size == 0 || heap.Exhausted(old(heap.blocks), old(heap.brk), size)
      ensures p == NULL ==> Contents() == old(Contents()) && SameHeap(old(Now()), Now())
      ensures p != NULL ==>
        blocks == old(blocks)[id := p] && heap.Served(old(heap.Now()), heap.Now(), p, size)
      ensures p != NULL ==> id in Contents() && |Contents()[id]| == size && Contents() - {id} == old(Contents())
      ensures NoAdjacentFree(old(heap.blocks)) ==> NoAdjacentFree(heap.blocks)
      ensures heap.brk >= old(heap.brk)
    {
      hide TableOk, View, PayloadsKept, Live, NoAdjacentFree, BlockSize, Readable, Bytes, Allocator.Served;
      TableReadable();
      ghost var m, live, bs := heap.mem, Live(heap.blocks), heap.blocks;
      p := heap.MmMalloc(size);
      if p == NULL {
        return;
      }
      TableKept(m, heap.mem, live, blocks, sizes);
      AddFacts(live, blocks, sizes, id, p, heap.blocks[p].size, size);
      ViewAdd(heap.mem, blocks, sizes, id, p, size);
      blocks, sizes := blocks[id := p], sizes[id := size];
    }

    lemma AddFacts(live: map<int, nat>, ptrs: Table, sizes: map<nat, nat>, id: nat, p: int, n: nat, size: nat)
      requires TableOk(live, ptrs, sizes) && id !in ptrs && p !in live && BlockSize(size) <= n
      ensures TableOk(live[p := n], ptrs[id := p], sizes[id := size])
      ensures ptrs.Keys == sizes.Keys && ptrs - {id} == ptrs && sizes - {id} == sizes
    {
      TableAdd(live, ptrs, sizes, id, p, n, size);
    }

    method Free(id: nat)
      requires Valid() && id in blocks
      modifies this, heap
      ensures Valid() && Contents() == old(Contents()) - {id} && blocks == old(blocks) - {id}
      ensures old(blocks)[id] in old(heap.blocks) && heap.FreedTo(old(heap.Now()), old(blocks)[id], heap.Now())
      ensures NoAdjacentFree(old(heap.blocks)) ==> NoAdjacentFree(heap.blocks)
      ensures heap.brk == old(heap.brk)
    {
      hide TableOk, View, PayloadsKept, Live, NoAdjacentFree, Readable, Bytes, Allocator.FreedTo;
      TableReadable();
      EntryFacts(id);
      ghost var m, live := heap.mem, Live(heap.blocks);
      heap.MmFree(blocks[id]);
      TableRemove(live, blocks, sizes, id);
      StillReadable(live, live - {blocks[id]}, blocks, sizes, id, m);
      TableKept(m, heap.mem, live - {blocks[id]}, blocks - {id}, sizes - {id});
      ViewRemove(m, blocks, sizes, id);
      blocks, sizes := blocks - {id}, sizes - {id};
    }

    lemma EntryFacts(id: nat)
      requires Valid() && id in blocks
      ensures id in sizes && blocks.Keys == sizes.Keys && blocks[id] in Live(heap.blocks) && blocks[id] in heap.blocks
      ensures sizes[id] + 8 <= heap.blocks[blocks[id]].size && blocks[id] != NULL
      ensures heap.WordsFrom(heap.mem, blocks[id], heap.blocks[blocks[id]].size - 8)
    {
      heap.NullIsNoBlock();
      heap.PayloadWords(blocks[id]);
    }

    lemma StillReadable(live: map<int, nat>, live': map<int, nat>, ptrs: Table, sizes: map<nat, nat>, id: nat, m: Memory)
      requires TableOk(live, ptrs, sizes) && Readable(live, ptrs, sizes, m) && id in ptrs
      requires live' == live - {ptrs[id]}
      ensures Readable(live', ptrs - {id}, sizes - {id}, m)
    {
    }

    /** Reallocates; in the one looping case the heap is not described any further. */
    method Realloc(id: nat, size: nat) returns (r: Outcome)
      requires Valid() && id in blocks && heap.Representable(heap.brk, size)
      modifies this, heap
      ensures r.Loops? <==> heap.Overshoots(old(heap.blocks), old(heap.brk), old(blocks)[id], size)
      ensures r.Returned? ==> Valid() && heap.brk >= old(heap.brk)
      ensures r.Returned? ==> (r.p == NULL <==> heap.Refused(old(heap.blocks), old(heap.brk), old(blocks)[id], size))
      ensures r.Returned? && r.p == NULL && size > 0 ==> Contents() == old(Contents()) && SameHeap(old(Now()), Now())
      ensures r.Returned? && size == 0 ==>
        && old(blocks)[id] in old(heap.blocks) && heap.FreedTo(old(heap.Now()), old(blocks)[id], heap.Now())
        && blocks == old(blocks) - {id}
      ensures r.Returned? && r.p != NULL ==>
        && blocks == old(blocks)[id := r.p] && old(blocks)[id] in old(heap.blocks)
        && heap.InPlace(old(heap.Now()), heap.Now(), old(blocks)[id], r.p, size)
      ensures r.Returned? && size == 0 ==> Contents() == old(Contents()) - {id}
      ensures r.Returned? && r.p != NULL ==>
        && size > 0 && id in Contents() && |Contents()[id]| == size && Contents() - {id} == old(Contents()) - {id}
        && id in old(Contents()) && SamePrefix(old(Contents())[id], Contents()[id])
      ensures r.Returned? && NoAdjacentFree(old(heap.blocks)) ==>
        (NoAdjacentFree(heap.blocks) <==> !heap.LeavesNeighbours(old(heap.blocks), old(blocks)[id], size))
    {
      hide TableOk, View, PayloadsKept, Live, NoAdjacentFree, Readable, Bytes, BlockSize, Allocator.Moves,
        Allocator.Preserves, Allocator.Allocates, Allocator.Exhausted, Tiles, ScanOvershoots, SamePrefix, Scan,
        FreeNext, Allocator.InPlace, Allocator.FreedTo;
      TableReadable();
      EntryFacts(id);
      ghost var m, bs, live, c := heap.mem, heap.blocks, Live(heap.blocks), Contents();
      r := heap.MmRealloc(blocks[id], size);
      if r == Loops {
        return;
      }
      if size == 0 {
        TableRemove(live, blocks, sizes, id);
        StillReadable(live, live - {blocks[id]}, blocks, sizes, id, m);
        TableKept(m, heap.mem, live - {blocks[id]}, blocks - {id}, sizes - {id});
        ViewRemove(m, blocks, sizes, id);
        blocks, sizes := blocks - {id}, sizes - {id};
        return;
      }
      if r.p == NULL {
        return;
      }
      MovedFacts(m, heap.mem, bs, heap.blocks, blocks, sizes, id, r.p, size);
      blocks, sizes := blocks[id := r.p], sizes[id := size];
    }

    /** The table and its contents after handle id has moved to p. */
    lemma MovedFacts(m: Memory, m': Memory, bs: Blocks, bs': Blocks, ptrs: Table, sizes: map<nat, nat>, id: nat, p: int, size: nat)
      requires TableOk(Live(bs), ptrs, sizes) && Readable(Live(bs), ptrs, sizes, m) && id in ptrs && ptrs[id] in bs
      requires heap.Moves(bs, bs', ptrs[id], p, size) && heap.Preserves(m, m', bs, ptrs[id], p, size)
      ensures TableOk(Live(bs'), ptrs[id := p], sizes[id := size])
      ensures var c: Contents := View(m, ptrs, sizes);
              var c': Contents := View(m', ptrs[id := p], sizes[id := size]);
        id in c && id in c' && |c'[id]| == size && c' - {id} == c - {id} && SamePrefix(c[id], c'[id])
    {
      hide View, PayloadsKept, Bytes, SameBytes;
      var live := Live(bs);
      TableMove(live, ptrs, sizes, id, p, bs'[p].size, size);
      StillReadable(live, live - {ptrs[id]}, ptrs, sizes, id, m);
      TableKept(m, m', live - {ptrs[id]}, ptrs - {id}, sizes - {id});
      ViewRemove(m, ptrs, sizes, id);
      ViewAdd(m', ptrs, sizes, id, p, size);
      ViewEntry(m, ptrs, sizes, id);
      PrefixMoved(m, ptrs[id], m', p, sizes[id], size, bs[ptrs[id]].size);
    }

    lemma ViewEntry(m: Memory, ptrs: Table, sizes: map<nat, nat>, id: nat)
      requires id in ptrs && id in sizes
      ensures id in View(m, ptrs, sizes) && View(m, ptrs, sizes)[id] == Bytes(m, ptrs[id], sizes[id])
    {
    }

    lemma PrefixMoved(m: Memory, p: int, m': Memory, q: int, was: nat, size: nat, block: nat)
      requires was + 8 <= block && SameBytes(m, p, m', q, Min(block - 8, size))
      ensures SamePrefix(Bytes(m, p, was), Bytes(m', q, size)) && |Bytes(m', q, size)| == size
    {
      var n := if was < size then was else size;
      assert SameBytes(m, p, m', q, n);
      SameBytesAreEqual(m, p, m', q, n);
      BytesPrefix(m, p, was, n);
      BytesPrefix(m', q, size, n);
    }

    /** The client writes one byte. */
    method Write(id: nat, at: nat, b: nat)
      requires Valid() && id in blocks && at < sizes[id] && b < 256
      modifies heap
      ensures Valid() && heap.Now() == old(heap.Now()) && blocks == old(blocks)
      ensures id in old(Contents()) && at < |old(Contents())[id]|
      ensures Contents() == old(Contents())[id := Updated(old(Contents())[id], at, b)]
    {
      hide TableOk, View, PayloadsKept, Live, Readable, Bytes, SetByte, Updated, Allocator.Valid, Allocator.WordsFrom;
      TableReadable();
      EntryFacts(id);
      ghost var m, live := heap.mem, Live(heap.blocks);
      var k := at % 4;
      var offset := at - k;
      WordThere(m, blocks[id], heap.blocks[blocks[id]].size - 8, offset);
      heap.Store(blocks[id], offset, SetByte(heap.mem[blocks[id] + offset], k, b));
      StillReadable(live, live - {blocks[id]}, blocks, sizes, id, m);
      TableKept(m, heap.mem, live - {blocks[id]}, blocks - {id}, sizes - {id});
      WrittenView(m, heap.mem, blocks, sizes, id, at, b);
    }

    lemma WordThere(m: Memory, p: int, n: int, offset: nat)
      requires heap.WordsFrom(m, p, n) && offset % 4 == 0 && offset < n
      ensures p + offset in m
    {
      Aligned4(p, offset);
    }

    lemma WrittenView(m: Memory, m': Memory, ptrs: Table, sizes: map<nat, nat>, id: nat, at: nat, b: nat)
      requires ptrs.Keys == sizes.Keys && id in ptrs && at < sizes[id] && b < 256
      requires View(m, ptrs - {id}, sizes - {id}) == View(m', ptrs - {id}, sizes - {id})
      requires var w := ptrs[id] + (at - at % 4); w in m && m' == m[w := SetByte(m[w], at % 4, b)]
      ensures id in View(m, ptrs, sizes) && at < |View(m, ptrs, sizes)[id]|
      ensures View(m', ptrs, sizes) == View(m, ptrs, sizes)[id := Updated(View(m, ptrs, sizes)[id], at, b)]
    {
      hide View;
      ViewRemove(m, ptrs, sizes, id);
      ViewRemove(m', ptrs, sizes, id);
      ViewEntry(m, ptrs, sizes, id);
      ViewEntry(m', ptrs, sizes, id);
      WrittenBytes(m, m', ptrs[id], sizes[id], at, b);
      var c: Contents, c': Contents := View(m, ptrs, sizes), View(m', ptrs, sizes);
      assert c' == (c' - {id})[id := c'[id]];
      assert c[id := c'[id]] == (c - {id})[id := c'[id]];
    }

    lemma WrittenBytes(m: Memory, m': Memory, p: int, n: nat, at: nat, b: nat)
      requires at < n && b < 256
      requires var w := p + (at - at % 4); w in m && m' == m[w := SetByte(m[w], at % 4, b)]
      ensures Bytes(m', p, n) == Updated(Bytes(m, p, n), at, b)
    {
      var w := p + (at - at % 4);
      forall i | 0 <= i < n
        ensures ByteHere(m', p, i) == if i == at then b else ByteHere(m, p, i)
      {
        SetByteBytes(m[w], at % 4, b, i % 4);
        hide ByteOf, SetByte;
      }
    }

    // ---- Runs --------------------------------------------------------------------------------

    lemma ContentsKeys()
      requires Valid()
      ensures Contents().Keys == blocks.Keys == sizes.Keys
      ensures forall id | id in blocks :: |Contents()[id]| == sizes[id]
    {
    }

    /** The heap and its client at one moment of a run. */
    ghost function Now(): State
      reads this, heap
    {
      State(heap.Now(), blocks, Contents())
    }

    /**
     Executes one operation, unless it would never end or its size would be cut; operations on
     unknown handles, and allocations under a known one, do nothing.
     */
    method Execute(op: Op) returns (stops: bool)
      requires Valid()
      modifies this, heap
      ensures stops <==> Stuck(heap, old(Now()), op) || Cut(heap, old(Now()), op)
      ensures !stops ==> Valid() && heap.brk >= old(heap.brk)
      ensures !stops ==> Step(old(Contents()), op, Contents(), Denied(heap, old(Now()), op))
      ensures !stops ==> HeapStep(heap, old(Now()), op, Now())
      ensures !stops && NoAdjacentFree(old(heap.blocks)) ==> (NoAdjacentFree(heap.blocks) <==> !Splits(heap, old(Now()), op))
      ensures NoAdjacentFree(old(heap.blocks)) ==> !Stuck(heap, old(Now()), op)
    {
      hide TableOk, View, Live, PayloadsKept, NoAdjacentFree, SamePrefix, Allocator.Overshoots, Allocator.LeavesNeighbours,
        Allocator.Valid, Allocator.Representable, Allocator.Exhausted, Allocator.Refused, Allocator.Served, Allocator.InPlace,
        Allocator.FreedTo;
      ContentsKeys();
      stops := false;
      match op {
        case Alloc(id, size) =>
          if id !in blocks {
            if !heap.Representable(heap.brk, size) {
              return true;
            }
            var p := Alloc(id, size);
          }
        case Free(id) =>
          if id in blocks {
            Free(id);
          } else {
            assert Contents() - {id} == Contents();
          }
        case Realloc(id, size) =>
          if id in blocks {
            NeverOvershoots(blocks[id], size);
            if !heap.Representable(heap.brk, size) {
              return true;
            }
            var r := Realloc(id, size);
            stops := r.Loops?;
          }
        case Write(id, at, b) =>
          if id in blocks && at < sizes[id] && b < 256 {
            Write(id, at, b);
          }
      }
    }

    lemma NeverOvershoots(p: int, size: nat)
      requires heap.Valid()
      ensures NoAdjacentFree(heap.blocks) ==> !heap.Overshoots(heap.blocks, heap.brk, p, size)
    {
      heap.TilesNow();
      if NoAdjacentFree(heap.blocks) && p in heap.blocks {
        NoOvershoot(heap.blocks, heap.First(), heap.brk, p, BlockSize(size));
      }
    }

    lemma LayoutNow()
      requires Valid()
      ensures heap.WellFormed(Now().layout)
    {
      heap.WellFormedNow();
    }

    /**
     Every run of the allocator is a run of the abstract heap. It stops early exactly at the first
     reallocation that loops or size that is cut; the former never happens before a reallocation has split
     something off in front of a free block.
     */
    method Run(ops: seq<Op>) returns (done: nat, ghost trace: seq<State>)
      requires Valid()
      modifies this, heap
      ensures |trace| == done + 1 && Traced(heap, ops, trace) && trace[0] == old(Now())
      ensures done < |ops| ==> Stuck(heap, trace[done], ops[done]) || Cut(heap, trace[done], ops[done])
      ensures done == |ops| ==> Valid() && Separate() && trace[done] == Now() && heap.brk >= old(heap.brk)
      ensures NoAdjacentFree(old(heap.blocks)) && Splitless(heap, ops, trace) ==>
        NoAdjacentFree(trace[done].layout.blocks) && (done < |ops| ==> Cut(heap, trace[done], ops[done]))
    {
      hide TableOk, View, Live, NoAdjacentFree, Step, HeapStep, Allocator.WellFormed, Stuck, Cut, Splits, Denied, Valid, Separate;
      trace := [Now()];
      LayoutNow();
      done := 0;
      while done < |ops|
        invariant done <= |ops| && |trace| == done + 1 && trace[0] == old(Now()) && trace[done] == Now() && Valid()
        invariant heap.brk >= old(heap.brk) && Traced(heap, ops, trace)
        invariant NoAdjacentFree(old(heap.blocks)) && Splitless(heap, ops, trace) ==> NoAdjacentFree(heap.blocks)
      {
        ghost var before := trace;
        var stops := Execute(ops[done]);
        if stops {
          return;
        }
        trace := trace + [Now()];
        LayoutNow();
        assert Splitless(heap, ops, trace) ==> Splitless(heap, ops, before) && !Splits(heap, trace[done], ops[done]);
        done := done + 1;
      }
      ValidIsSeparate();
    }

    /** Freeing every live block leaves one free block that spans the heap, unless there were free neighbours before. */
    method FreeAll()
      requires Valid()
      modifies this, heap
      ensures Valid() && Contents() == map[] && heap.brk == old(heap.brk)
      ensures NoAdjacentFree(old(heap.blocks)) ==> heap.blocks == map[heap.First() := Block(heap.brk - heap.First(), false)]
    {
      hide View, PayloadsKept, NoAdjacentFree, TableOk, Live, Tiles, Valid;
      while blocks.Keys != {}
        invariant Valid() && heap.brk == old(heap.brk)
        invariant NoAdjacentFree(old(heap.blocks)) ==> NoAdjacentFree(heap.blocks)
        decreases |blocks.Keys|
      {
        var id :| id in blocks.Keys;
        assert blocks.Keys == (blocks.Keys - {id}) + {id};
        Free(id);
      }
      NothingLive();
      if NoAdjacentFree(heap.blocks) {
        AllFreedIsOneBlock(heap.blocks, heap.First(), heap.brk);
      }
    }

    lemma NothingLive()
      requires Valid() && blocks.Keys == {}
      ensures Live(heap.blocks) == map[] && Contents() == map[]
      ensures Tiles(heap.blocks, heap.First(), heap.brk) && heap.First() < heap.brk
    {
      heap.TilesNow();
      assert blocks == map[];
      NoHandles(Live(heap.blocks), blocks, sizes);
    }
  }

  lemma PagePositive(heap: Allocator)
    requires heap.Params()
    ensures Align(heap.pageSize) > 0
  {
  }

  /**
   From initialisation through any run to freeing everything: one free block spans the heap, if the run
   was not cut off and split nothing off in front of a free block.
   */
  method InitRunFreeAll(heap: Allocator, ops: seq<Op>) returns (ready: bool, done: nat, ghost trace: seq<State>)
    requires heap.Params() && Mapped(heap.mem, heap.base, heap.limit) && heap.brk == heap.base
    modifies heap
    ensures ready <==> heap.First() + Align(heap.pageSize) <= heap.limit
    ensures ready ==> Traced(heap, ops, trace) && |trace| == done + 1
    ensures ready ==> trace[0] == State(heap.FirstPage(), map[], map[])
    ensures ready && done < |ops| ==> Stuck(heap, trace[done], ops[done]) || Cut(heap, trace[done], ops[done])
    ensures ready && Splitless(heap, ops, trace) && done < |ops| ==> Cut(heap, trace[done], ops[done])
    ensures ready && Splitless(heap, ops, trace) && done == |ops| ==>
      && heap.Valid() && heap.blocks == map[heap.First() := Block(heap.brk - heap.First(), false)]
      && heap.brk >= heap.First() + Align(heap.pageSize)
  {
    hide Allocator.CoreOf, Tiles, NoAdjacentFree, Live, TableOk, View, Client.Separate, Traced, Splitless, Stuck, Cut;
    ready, done, trace := false, 0, [];
    var r := heap.MmInit();
    if r != 0 {
      return;
    }
    ready := true;
    PagePositive(heap);
    var client := new Client(heap);
    done, trace := client.Run(ops);
    if done == |ops| {
      client.FreeAll();
    }
  }

  lemma RequestSizes()
    ensures BlockSize(64) == 72 && BlockSize(40) == 48 && BlockSize(72) == 80
  {
  }

  /** The first request is served from the first page. */
  lemma FirstServed(heap: Allocator, page: nat, h: Layout, h': Layout, p: int)
    requires page % 8 == 0 && page >= 96 && heap.First() % 8 == 0
    requires h.blocks == map[heap.First() := Block(page, false)] && h.brk == heap.First() + page
    ensures !heap.Exhausted(h.blocks, h.brk, 64)
    ensures heap.Served(h, h', p, 64) ==> p == heap.First() && h'.blocks == PageWithBlock(p, page) && h'.brk == h.brk
  {
    hide Allocator.FirstFit, BlockSize, Align, Max, Listed, Unlisted;
    RequestSizes();
    assert heap.First() in h.blocks && !h.blocks[heap.First()].alloc && h.blocks[heap.First()].size >= 72;
  }

  /** Shrinking the only block to 40 bytes and asking for 72 again. */
  lemma ShrinkThenStuck(heap: Allocator, page: nat, h: Layout, h': Layout, q: int)
    requires page % 8 == 0 && page >= 96 && heap.First() % 8 == 0 && heap.First() > 0
    requires h.blocks == PageWithBlock(heap.First(), page) && h.brk == heap.First() + page
    ensures var p := heap.First();
      && p in Live(h.blocks) && p in h.blocks && !heap.Overshoots(h.blocks, h.brk, p, 40) && !heap.Refused(h.blocks, h.brk, p, 40)
      && (heap.InPlace(h, h', p, q, 40) ==>
            q == p && h'.brk == h.brk && p in Live(h'.blocks) && heap.Overshoots(h'.blocks, h'.brk, p, 72))
  {
    RequestSizes();
    ShrunkOvershoots(heap.First(), page);
  }

  lemma HeapStart(heap: Allocator)
    requires heap.Params() && 96 <= heap.pageSize
    ensures heap.First() == heap.base + 1584 > 0 && heap.First() % 8 == 0 && Align(heap.pageSize) % 8 == 0 && Align(heap.pageSize) >= 96
  {
  }

  /** A block shrunk and grown again: the removal loop of mm_realloc is entered, and never left. */
  method ShrinkThenGrow(heap: Allocator) returns (p: int, shrunk: Outcome, grown: Outcome)
    requires heap.Params() && Mapped(heap.mem, heap.base, heap.limit) && heap.brk == heap.base
    requires 96 <= heap.pageSize && heap.First() + Align(heap.pageSize) <= heap.limit
    modifies heap
    ensures p != NULL && shrunk == Returned(p) && grown == Loops
  {
    hide Allocator.CoreOf, Tiles, Live, Allocator.Served, Allocator.Exhausted, Allocator.Overshoots, Allocator.Refused,
      Allocator.InPlace, Allocator.Reallocated, Allocator.Allocates, PayloadsKept, NoAdjacentFree, PageWithBlock, Allocator.First,
      Allocator.LeavesNeighbours, Align, Mapped;
    HeapStart(heap);
    ghost var page := Align(heap.pageSize);
    var r := heap.MmInit();
    ghost var h0 := heap.Now();
    p := heap.MmMalloc(64);
    ghost var h := heap.Now();
    FirstServed(heap, page, h0, h, p);
    ShrinkThenStuck(heap, page, h, h, p);
    shrunk := heap.MmRealloc(p, 40);
    ShrinkThenStuck(heap, page, h, heap.Now(), if shrunk.Returned? then shrunk.p else NULL);
    grown := heap.MmRealloc(p, 72);
  }
}
