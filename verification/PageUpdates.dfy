/** What one stored entry does to the tree of tables and to the walk over it. */
module PageUpdates {
  import opened PageWalk

  ghost function Put(tables: Tables, f: nat, i: nat, e: Entry): Tables
    requires f in tables && i < |tables[f]|
  {
    tables[f := tables[f][i := e]]
  }

  /** The write bit may be set in the table at p: its parent entry has it, if there is one. */
  ghost predicate Allows(tables: Tables, at: map<Path, nat>, p: Path) {
    p != [] ==>
      var q := p[..|p| - 1];
      q in at && at[q] in tables && p[|p| - 1] < |tables[at[q]]| && tables[at[q]][p[|p| - 1]].rw
  }

  lemma ChildParts(p: Path, i: nat)
    ensures Child(p, i) != [] && Child(p, i)[..|Child(p, i)| - 1] == p && Child(p, i)[|Child(p, i)| - 1] == i
    ensures |Child(p, i)| == |p| + 1
  {
  }

  lemma ChildUnique(p: Path, i: nat, q: Path, j: nat)
    ensures Child(p, i) == Child(q, j) <==> p == q && i == j
  {
    ChildParts(p, i);
    ChildParts(q, j);
  }

  /** Replacing an entry, with the same subtree under it or none before and after. */
  lemma PutKeepsTree(tables: Tables, root: nat, at: map<Path, nat>, p: Path, i: nat, e: Entry)
    requires Tree(tables, root, at) && p in at && i < ENTRIES && EntryOk(e, p, i, at)
    requires e.rw ==> Allows(tables, at, p)
    requires Child(p, i) in at && tables[at[p]][i].rw ==> e.rw
    ensures Tree(Put(tables, at[p], i, e), root, at)
  {
    hide Entries, WritesAllowed, EntryOk, Allows;
    PutPlaced(tables, root, at, p, i, e);
    PutEntries(tables, root, at, p, i, e);
    PutWrites(tables, root, at, p, i, e);
    IsTree(Put(tables, at[p], i, e), root, at);
  }

  lemma TableThere(tables: Tables, root: nat, at: map<Path, nat>, p: Path)
    requires Tree(tables, root, at) && p in at
    ensures at[p] in tables && |tables[at[p]]| == ENTRIES && |p| < 4
    ensures [] in at && at[[]] == root
  {
  }

  lemma PutPlaced(tables: Tables, root: nat, at: map<Path, nat>, p: Path, i: nat, e: Entry)
    requires Tree(tables, root, at) && p in at && i < ENTRIES
    ensures Placed(Put(tables, at[p], i, e), root, at)
    ensures forall q, j: nat | q in at && j < ENTRIES ::
      Put(tables, at[p], i, e)[at[q]][j] == if q == p && j == i then e else tables[at[q]][j]
  {
    hide Entries, WritesAllowed;
    SameFrames(tables, Put(tables, at[p], i, e), root, at);
  }

  lemma SameFrames(tables: Tables, tables': Tables, root: nat, at: map<Path, nat>)
    requires Placed(tables, root, at) && tables'.Keys == tables.Keys
    requires forall f | f in tables && |tables[f]| == ENTRIES :: |tables'[f]| == ENTRIES
    ensures Placed(tables', root, at)
  {
  }

  lemma PutEntries(tables: Tables, root: nat, at: map<Path, nat>, p: Path, i: nat, e: Entry)
    requires Tree(tables, root, at) && p in at && i < ENTRIES
    requires EntryOk(e, p, i, at)
    ensures Placed(Put(tables, at[p], i, e), root, at) && Entries(Put(tables, at[p], i, e), at)
  {
    hide WritesAllowed, EntryOk, Put;
    PutPlaced(tables, root, at, p, i, e);
  }

  lemma PutWrites(tables: Tables, root: nat, at: map<Path, nat>, p: Path, i: nat, e: Entry)
    requires Tree(tables, root, at) && p in at && i < ENTRIES
    requires e.rw ==> Allows(tables, at, p)
    requires Child(p, i) in at && tables[at[p]][i].rw ==> e.rw
    ensures Placed(Put(tables, at[p], i, e), root, at) && WritesAllowed(Put(tables, at[p], i, e), at)
  {
    hide Entries, EntryOk, Put;
    var tables': Tables := Put(tables, at[p], i, e);
    PutPlaced(tables, root, at, p, i, e);
    forall q, j: nat, k: nat | q in at && j < ENTRIES && k < ENTRIES && Child(q, j) in at
      ensures tables'[at[Child(q, j)]][k].rw ==> tables'[at[q]][j].rw
    {
      PutWrite(tables, root, at, p, i, e, q, j, k);
    }
  }

  lemma PutWrite(tables: Tables, root: nat, at: map<Path, nat>, p: Path, i: nat, e: Entry, q: Path, j: nat, k: nat)
    requires Tree(tables, root, at) && p in at && i < ENTRIES
    requires e.rw ==> Allows(tables, at, p)
    requires Child(p, i) in at && tables[at[p]][i].rw ==> e.rw
    requires q in at && j < ENTRIES && k < ENTRIES && Child(q, j) in at
    requires Placed(Put(tables, at[p], i, e), root, at)
    ensures Put(tables, at[p], i, e)[at[Child(q, j)]][k].rw ==> Put(tables, at[p], i, e)[at[q]][j].rw
  {
    hide Entries, EntryOk, Put, Child;
    PutPlaced(tables, root, at, p, i, e);
    ChildParts(q, j);
  }

  /** An entry without a subtree decides the walk of exactly the addresses that reach it. */
  lemma {:induction false} PutWalk(tables: Tables, root: nat, at: map<Path, nat>, p: Path, i: nat, e: Entry, va: nat, d: nat)
    requires Tree(tables, root, at) && p in at && i < ENTRIES && Child(p, i) !in at
    requires Tree(Put(tables, at[p], i, e), root, at)
    requires d < 4 && PathTo(va, d) in at
    ensures Walk(Put(tables, at[p], i, e), at[PathTo(va, d)], d, va) ==
            if d <= |p| && PathTo(va, |p| + 1) == Child(p, i) then LeafTarget(e, |p|, va)
            else Walk(tables, at[PathTo(va, d)], d, va)
    decreases 4 - d
  {
    var tables': Tables := Put(tables, at[p], i, e);
    WalkStep(tables, root, at, va, d);
    WalkStep(tables', root, at, va, d);
    ChildUnique(p, i, PathTo(va, d), Vpn(va, d));
    var e0, e1 := EntryAt(tables, at, va, d), EntryAt(tables', at, va, d);
    assert PathTo(va, d + 1) == Child(PathTo(va, d), Vpn(va, d));
    if PathTo(va, d + 1) in at {
      PutWalk(tables, root, at, p, i, e, va, d + 1);
      if d == |p| {
        assert PathTo(va, |p| + 1) != Child(p, i);
      }
    } else if d < |p| {
      NotBelow(tables, root, at, va, d + 1, p);
    }
  }

  /** An address whose walk stops above depth |p| does not pass through p. */
  lemma {:induction false} NotBelow(tables: Tables, root: nat, at: map<Path, nat>, va: nat, d: nat, p: Path)
    requires Tree(tables, root, at) && p in at && d <= |p| && PathTo(va, d) !in at
    ensures |p| < 4 && forall i: nat :: PathTo(va, |p| + 1) != Child(p, i)
  {
    assert |p| <= 3;
    forall i: nat
      ensures PathTo(va, |p| + 1) != Child(p, i)
    {
      ChildParts(p, i);
      PathPrefix(va, |p|);
      if PathTo(va, |p|) == p {
        AllPrefixesIn(tables, root, at, va, d, |p|);
      }
    }
  }

  lemma PathPrefix(va: nat, n: nat)
    requires n < 4
    ensures PathTo(va, n + 1)[..n] == PathTo(va, n)
  {
  }

  lemma {:induction false} AllPrefixesIn(tables: Tables, root: nat, at: map<Path, nat>, va: nat, d: nat, n: nat)
    requires Tree(tables, root, at) && d <= n <= 4 && PathTo(va, n) in at
    ensures PathTo(va, d) in at
  {
    if d < n {
      PrefixIn(tables, root, at, va, n);
      AllPrefixesIn(tables, root, at, va, d, n - 1);
    }
  }

  /** Setting the write bit of a directory entry changes no translation. */
  lemma {:induction false} PutDirectoryWalk(tables: Tables, root: nat, at: map<Path, nat>, p: Path, i: nat, e: Entry, va: nat, d: nat)
    requires Tree(tables, root, at) && p in at && i < ENTRIES && Child(p, i) in at
    requires Tree(Put(tables, at[p], i, e), root, at)
    requires d < 4 && PathTo(va, d) in at
    ensures Walk(Put(tables, at[p], i, e), at[PathTo(va, d)], d, va) == Walk(tables, at[PathTo(va, d)], d, va)
    decreases 4 - d
  {
    var tables': Tables := Put(tables, at[p], i, e);
    WalkStep(tables, root, at, va, d);
    WalkStep(tables', root, at, va, d);
    ChildUnique(p, i, PathTo(va, d), Vpn(va, d));
    assert PathTo(va, d + 1) == Child(PathTo(va, d), Vpn(va, d));
    if PathTo(va, d + 1) in at {
      PutDirectoryWalk(tables, root, at, p, i, e, va, d + 1);
    }
  }

  // ---- Write bits of directory entries -------------------------------------------------------

  /** The entry that leads to the table at q. */
  lemma ParentEntry(tables: Tables, root: nat, at: map<Path, nat>, q: Path) returns (p: Path, i: nat)
    requires Tree(tables, root, at) && q in at && q != []
    ensures p in at && i < ENTRIES && q == Child(p, i)
    ensures at[p] in tables && |tables[at[p]]| == ENTRIES && (Allows(tables, at, q) <==> tables[at[p]][i].rw)
  {
    p, i :| p in at && i < ENTRIES && q == Child(p, i);
    ChildParts(p, i);
  }

  lemma PutAllows(tables: Tables, root: nat, at: map<Path, nat>, p: Path, i: nat, e: Entry, q: Path)
    requires Tree(tables, root, at) && p in at && i < ENTRIES && q in at && q != []
    ensures Allows(Put(tables, at[p], i, e), at, q) <==> if q == Child(p, i) then e.rw else Allows(tables, at, q)
  {
    hide Entries, WritesAllowed, Put;
    var u, j := ParentEntry(tables, root, at, q);
    PutPlaced(tables, root, at, p, i, e);
    ChildParts(u, j);
    ChildUnique(p, i, u, j);
  }

  lemma AddAllows(tables: Tables, root: nat, at: map<Path, nat>, p: Path, i: nat, f: nat, w: bool, q: Path)
    requires Tree(tables, root, at) && p in at && i < ENTRIES && f !in tables && Child(p, i) !in at
    requires q in at[Child(p, i) := f] && q != []
    ensures Allows(WithTable(tables, at[p], i, f, w), at[Child(p, i) := f], q) <==>
      if q == Child(p, i) then w else Allows(tables, at, q)
  {
    hide Entries, WritesAllowed;
    ChildParts(p, i);
    if q in at {
      var u, j := ParentEntry(tables, root, at, q);
      ChildParts(u, j);
      ChildUnique(p, i, u, j);
      assert at[u] == at[p] ==> u == p;
    }
  }

  // ---- A new, empty table ----------------------------------------------------------------------

  function Zeros(): seq<Entry> {
    seq(ENTRIES, i => ZERO)
  }

  /** The tables after entry i of the table at p has been pointed at an empty table in frame f. */
  ghost function WithTable(tables: Tables, parent: nat, i: nat, f: nat, w: bool): Tables
    requires parent in tables && i < |tables[parent]|
  {
    Put(tables, parent, i, Entry(true, w, false, f))[f := Zeros()]
  }

  lemma AddKeepsTree(tables: Tables, root: nat, at: map<Path, nat>, p: Path, i: nat, f: nat, w: bool)
    requires Tree(tables, root, at) && p in at && |p| < 3 && i < ENTRIES && !tables[at[p]][i].present
    requires f !in tables && f < FRAMES && (w ==> Allows(tables, at, p))
    ensures Tree(WithTable(tables, at[p], i, f, w), root, at[Child(p, i) := f])
  {
    hide Entries, WritesAllowed, EntryOk, Allows;
    NotAChild(tables, root, at, p, i);
    AddPlaced(tables, root, at, p, i, f, w);
    AddEntries(tables, root, at, p, i, f, w);
    AddWrites(tables, root, at, p, i, f, w);
    IsTree(WithTable(tables, at[p], i, f, w), root, at[Child(p, i) := f]);
  }

  lemma IsTree(tables: Tables, root: nat, at: map<Path, nat>)
    requires Placed(tables, root, at) && Entries(tables, at) && WritesAllowed(tables, at)
    ensures Tree(tables, root, at)
  {
  }

  lemma NotAChild(tables: Tables, root: nat, at: map<Path, nat>, p: Path, i: nat)
    requires Tree(tables, root, at) && p in at && i < ENTRIES && !tables[at[p]][i].present
    ensures Child(p, i) !in at
  {
    assert EntryOk(tables[at[p]][i], p, i, at);
  }

  lemma AddEntries(tables: Tables, root: nat, at: map<Path, nat>, p: Path, i: nat, f: nat, w: bool)
    requires Tree(tables, root, at) && p in at && |p| < 3 && i < ENTRIES && !tables[at[p]][i].present
    requires f !in tables && f < FRAMES && Child(p, i) !in at
    requires Placed(WithTable(tables, at[p], i, f, w), root, at[Child(p, i) := f])
    ensures Entries(WithTable(tables, at[p], i, f, w), at[Child(p, i) := f])
  {
    hide WritesAllowed, EntryOk, WithTable;
    var tables': Tables, at' := WithTable(tables, at[p], i, f, w), at[Child(p, i) := f];
    forall q, j: nat | q in at' && j < ENTRIES
      ensures EntryOk(tables'[at'[q]][j], q, j, at')
    {
      AddEntry(tables, root, at, p, i, f, w, q, j);
    }
  }

  lemma AddEntry(tables: Tables, root: nat, at: map<Path, nat>, p: Path, i: nat, f: nat, w: bool, q: Path, j: nat)
    requires Tree(tables, root, at) && p in at && |p| < 3 && i < ENTRIES && !tables[at[p]][i].present
    requires f !in tables && f < FRAMES && Child(p, i) !in at && j < ENTRIES
    ensures var at' := at[Child(p, i) := f];
      q in at' ==> at'[q] in WithTable(tables, at[p], i, f, w) && |WithTable(tables, at[p], i, f, w)[at'[q]]| == ENTRIES
                   && EntryOk(WithTable(tables, at[p], i, f, w)[at'[q]][j], q, j, at')
  {
    hide WritesAllowed, Child, WithTable;
    ChildUnique(p, i, q, j);
    ChildParts(p, i);
    if q in at {
      AddedEntries(tables, root, at, p, i, f, w, q);
      assert EntryOk(tables[at[q]][j], q, j, at);
    } else {
      AddedZero(tables, at[p], i, f, w, j);
      NoGrandchild(tables, root, at, p, i, j);
    }
  }

  lemma AddedZero(tables: Tables, parent: nat, i: nat, f: nat, w: bool, k: nat)
    requires parent in tables && i < |tables[parent]| && k < ENTRIES
    ensures f in WithTable(tables, parent, i, f, w) && |WithTable(tables, parent, i, f, w)[f]| == ENTRIES
    ensures WithTable(tables, parent, i, f, w)[f][k] == ZERO
  {
  }

  lemma AddWrites(tables: Tables, root: nat, at: map<Path, nat>, p: Path, i: nat, f: nat, w: bool)
    requires Tree(tables, root, at) && p in at && |p| < 3 && i < ENTRIES && !tables[at[p]][i].present
    requires f !in tables && f < FRAMES && Child(p, i) !in at
    requires Placed(WithTable(tables, at[p], i, f, w), root, at[Child(p, i) := f])
    requires w ==> Allows(tables, at, p)
    ensures WritesAllowed(WithTable(tables, at[p], i, f, w), at[Child(p, i) := f])
  {
    hide EntryOk, Entries, WithTable, Allows;
    var tables': Tables, at' := WithTable(tables, at[p], i, f, w), at[Child(p, i) := f];
    forall q, j: nat, k: nat | q in at' && j < ENTRIES && k < ENTRIES && Child(q, j) in at'
      ensures tables'[at'[Child(q, j)]][k].rw ==> tables'[at'[q]][j].rw
    {
      AddWrite(tables, root, at, p, i, f, w, q, j, k);
    }
  }

  lemma AddWrite(tables: Tables, root: nat, at: map<Path, nat>, p: Path, i: nat, f: nat, w: bool, q: Path, j: nat, k: nat)
    requires Tree(tables, root, at) && p in at && |p| < 3 && i < ENTRIES && !tables[at[p]][i].present
    requires f !in tables && f < FRAMES && Child(p, i) !in at && j < ENTRIES && k < ENTRIES
    requires w ==> Allows(tables, at, p)
    ensures var at' := at[Child(p, i) := f];
            var tables' := WithTable(tables, at[p], i, f, w);
      q in at' && Child(q, j) in at' && at'[q] in tables' && at'[Child(q, j)] in tables'
        && |tables'[at'[q]]| == |tables'[at'[Child(q, j)]]| == ENTRIES ==>
        tables'[at'[Child(q, j)]][k].rw ==> tables'[at'[q]][j].rw
  {
    hide EntryOk, Entries, WithTable, Child, Tree, Allows;
    ChildUnique(p, i, q, j);
    TableThere(tables, root, at, p);
    if Child(q, j) == Child(p, i) {
      AddedEmpty(tables, at[p], i, f, w);
    } else if q in at && Child(q, j) in at {
      AddedEntries(tables, root, at, p, i, f, w, q);
      AddedEntries(tables, root, at, p, i, f, w, Child(q, j));
      WriteAbove(tables, root, at, q, j, k);
    } else {
      NoGrandchild(tables, root, at, p, i, j);
    }
  }

  lemma WriteAbove(tables: Tables, root: nat, at: map<Path, nat>, q: Path, j: nat, k: nat)
    requires Tree(tables, root, at) && q in at && j < ENTRIES && k < ENTRIES && Child(q, j) in at
    ensures at[q] in tables && |tables[at[q]]| == ENTRIES
    ensures at[Child(q, j)] in tables && |tables[at[Child(q, j)]]| == ENTRIES
    ensures tables[at[Child(q, j)]][k].rw ==> tables[at[q]][j].rw
    ensures Allows(tables, at, Child(q, j)) ==> tables[at[q]][j].rw
  {
    ChildParts(q, j);
  }

  /** The entries of an old table after the new one was added. */
  lemma AddedEntries(tables: Tables, root: nat, at: map<Path, nat>, p: Path, i: nat, f: nat, w: bool, q: Path)
    requires Tree(tables, root, at) && p in at && i < ENTRIES && f !in tables && q in at
    ensures at[q] in WithTable(tables, at[p], i, f, w) && |WithTable(tables, at[p], i, f, w)[at[q]]| == ENTRIES
    ensures forall j: nat | j < ENTRIES ::
      WithTable(tables, at[p], i, f, w)[at[q]][j] == if q == p && j == i then Entry(true, w, false, f) else tables[at[q]][j]
  {
    hide Entries, WritesAllowed, EntryOk;
  }

  lemma AddedEmpty(tables: Tables, parent: nat, i: nat, f: nat, w: bool)
    requires parent in tables && i < |tables[parent]|
    ensures f in WithTable(tables, parent, i, f, w) && |WithTable(tables, parent, i, f, w)[f]| == ENTRIES
    ensures forall k: nat | k < ENTRIES :: !WithTable(tables, parent, i, f, w)[f][k].rw
  {
  }

  lemma NoGrandchild(tables: Tables, root: nat, at: map<Path, nat>, p: Path, i: nat, j: nat)
    requires Tree(tables, root, at) && Child(p, i) !in at
    ensures Child(Child(p, i), j) !in at && Child(Child(p, i), j) != Child(p, i)
  {
    var q := Child(Child(p, i), j);
    if q in at {
      var r, k: nat :| r in at && k < ENTRIES && q == Child(r, k);
      ChildUnique(r, k, Child(p, i), j);
    }
  }

  lemma AddPlaced(tables: Tables, root: nat, at: map<Path, nat>, p: Path, i: nat, f: nat, w: bool)
    requires Placed(tables, root, at) && p in at && |p| < 3 && i < ENTRIES && f !in tables
    requires Child(p, i) !in at
    ensures Placed(WithTable(tables, at[p], i, f, w), root, at[Child(p, i) := f])
  {
    hide WithTable, Child;
    var tables': Tables, at' := WithTable(tables, at[p], i, f, w), at[Child(p, i) := f];
    ChildParts(p, i);
    AddTables(tables, at[p], i, f, w);
    AddFrames(tables, root, at, p, i, f, tables', at');
    AddOccupied(tables, root, at, p, i, f, w, at');
    AddLinked(tables, root, at, p, i, f, at');
  }

  lemma AddTables(tables: Tables, parent: nat, i: nat, f: nat, w: bool)
    requires parent in tables && i < |tables[parent]| == ENTRIES
    ensures WithTable(tables, parent, i, f, w).Keys == tables.Keys + {f}
    ensures forall g | g == f || (g in tables && |tables[g]| == ENTRIES) :: |WithTable(tables, parent, i, f, w)[g]| == ENTRIES
  {
  }

  lemma AddFrames(tables: Tables, root: nat, at: map<Path, nat>, p: Path, i: nat, f: nat, tables': Tables, at': map<Path, nat>)
    requires Placed(tables, root, at) && |p| < 3 && f !in tables && at' == at[Child(p, i) := f]
    requires |Child(p, i)| == |p| + 1 && Child(p, i) !in at && tables'.Keys == tables.Keys + {f}
    requires forall g | g == f || (g in tables && |tables[g]| == ENTRIES) :: |tables'[g]| == ENTRIES
    ensures [] in at' && at'[[]] == root
    ensures forall q | q in at' :: |q| <= 3 && at'[q] in tables' && |tables'[at'[q]]| == ENTRIES
    ensures forall q, r | q in at' && r in at' :: at'[q] == at'[r] ==> q == r
  {
  }

  lemma AddOccupied(tables: Tables, root: nat, at: map<Path, nat>, p: Path, i: nat, f: nat, w: bool, at': map<Path, nat>)
    requires Placed(tables, root, at) && p in at && i < ENTRIES && f !in tables && Child(p, i) !in at
    requires at' == at[Child(p, i) := f]
    ensures forall g | g in WithTable(tables, at[p], i, f, w) :: exists q :: q in at' && at'[q] == g
  {
    hide Child;
    AddKeys(tables, at[p], i, f, w);
    forall g | g in WithTable(tables, at[p], i, f, w)
      ensures exists q :: q in at' && at'[q] == g
    {
      if g == f {
        assert at'[Child(p, i)] == g;
      } else {
        var q :| q in at && at[q] == g;
        assert at'[q] == g;
      }
    }
  }

  lemma AddKeys(tables: Tables, parent: nat, i: nat, f: nat, w: bool)
    requires parent in tables && i < |tables[parent]|
    ensures WithTable(tables, parent, i, f, w).Keys == tables.Keys + {f}
  {
  }

  lemma AddLinked(tables: Tables, root: nat, at: map<Path, nat>, p: Path, i: nat, f: nat, at': map<Path, nat>)
    requires Placed(tables, root, at) && p in at && i < ENTRIES && at' == at[Child(p, i) := f]
    ensures forall c | c in at' && c != [] :: exists q, j: nat :: q in at' && j < ENTRIES && c == Child(q, j)
  {
    forall c | c in at' && c != []
      ensures exists q, j: nat :: q in at' && j < ENTRIES && c == Child(q, j)
    {
      if c == Child(p, i) {
        assert p in at';
      } else {
        var q, j: nat :| q in at && j < ENTRIES && c == Child(q, j);
        assert q in at';
      }
    }
  }

  lemma {:induction false} AddWalk(tables: Tables, root: nat, at: map<Path, nat>, p: Path, i: nat, f: nat, w: bool, va: nat, d: nat)
    requires Tree(tables, root, at) && p in at && |p| < 3 && i < ENTRIES && !tables[at[p]][i].present && f !in tables
    requires Child(p, i) !in at && Tree(WithTable(tables, at[p], i, f, w), root, at[Child(p, i) := f])
    requires d < 4 && PathTo(va, d) in at
    ensures Walk(WithTable(tables, at[p], i, f, w), at[PathTo(va, d)], d, va) == Walk(tables, at[PathTo(va, d)], d, va)
    decreases 4 - d
  {
    var tables': Tables, at' := WithTable(tables, at[p], i, f, w), at[Child(p, i) := f];
    WalkStep(tables, root, at, va, d);
    WalkStep(tables', root, at', va, d);
    ChildUnique(p, i, PathTo(va, d), Vpn(va, d));
    assert PathTo(va, d + 1) == Child(PathTo(va, d), Vpn(va, d));
    if PathTo(va, d + 1) in at {
      AddWalk(tables, root, at, p, i, f, w, va, d + 1);
    } else if PathTo(va, d + 1) == Child(p, i) {
      WalkStep(tables', root, at', va, d + 1);
    }
  }
}
