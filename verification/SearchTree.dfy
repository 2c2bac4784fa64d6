/** The pointer search tree: nodes linked on the heap, searched and relinked by loops. */
module SearchTree {

  class Node {
    const key: int
    const value: int
    var left: Node?
    var right: Node?

    constructor (key: int, value: int)
      ensures this.key == key && this.value == value && left == null && right == null
    {
      this.key, this.value := key, value;
      left, right := null, null;
    }
  }

  /** The tree that a root pointer stands for. */
  datatype Shape = Nil | Fork(left: Shape, node: Node, right: Shape)

  ghost function Nodes(t: Shape): set<Node> {
    match t
    case Nil => {}
    case Fork(l, n, r) => Nodes(l) + {n} + Nodes(r)
  }

  ghost function Values(t: Shape): seq<int> {
    match t
    case Nil => []
    case Fork(l, n, r) => Values(l) + [n.value] + Values(r)
  }

  /** p is the root of t, and no node is shared. */
  ghost predicate Rep(t: Shape, p: Node?)
    reads Nodes(t)
  {
    match t
    case Nil => p == null
    case Fork(l, n, r) =>
      && p == n && n !in Nodes(l) && n !in Nodes(r) && Nodes(l) !! Nodes(r)
      && Rep(l, n.left) && Rep(r, n.right)
  }

  ghost predicate Ascending(s: seq<int>) {
    forall i, j | 0 <= i < j < |s| :: s[i] < s[j]
  }

  // ---- Positions in a tree -------------------------------------------------------------------

  /** Turns from the root: true goes right. */
  type Path = seq<bool>

  ghost predicate Leads(t: Shape, path: Path) {
    path == [] || (t.Fork? && Leads(if path[0] then t.right else t.left, path[1..]))
  }

  ghost function Sub(t: Shape, path: Path): Shape
    requires Leads(t, path)
  {
    if path == [] then t else Sub(if path[0] then t.right else t.left, path[1..])
  }

  ghost function Graft(t: Shape, path: Path, s: Shape): Shape
    requires Leads(t, path)
  {
    if path == [] then s
    else if path[0] then Fork(t.left, t.node, Graft(t.right, path[1..], s))
    else Fork(Graft(t.left, path[1..], s), t.node, t.right)
  }

  /** Values to the left and to the right of a position. */
  ghost function Before(t: Shape, path: Path): seq<int>
    requires Leads(t, path)
  {
    if path == [] then []
    else if path[0] then Values(t.left) + [t.node.value] + Before(t.right, path[1..])
    else Before(t.left, path[1..])
  }

  ghost function Beyond(t: Shape, path: Path): seq<int>
    requires Leads(t, path)
  {
    if path == [] then []
    else if path[0] then Beyond(t.right, path[1..])
    else Beyond(t.left, path[1..]) + [t.node.value] + Values(t.right)
  }

  /** The nodes outside the subtree at a position. */
  ghost function Outside(t: Shape, path: Path): set<Node>
    requires Leads(t, path)
  {
    if path == [] then {}
    else if path[0] then Nodes(t.left) + {t.node} + Outside(t.right, path[1..])
    else Outside(t.left, path[1..]) + {t.node} + Nodes(t.right)
  }

  /** The heap holds t except for the subtree at path, where the pointer is p. */
  ghost predicate Hole(t: Shape, path: Path, root: Node?, p: Node?)
    requires Leads(t, path)
    reads Outside(t, path)
  {
    if path == [] then root == p
    else if path[0] then
      && root == t.node && t.node !in Nodes(t.left) && t.node !in Outside(t.right, path[1..])
      && Nodes(t.left) !! Outside(t.right, path[1..])
      && Rep(t.left, t.node.left) && Hole(t.right, path[1..], t.node.right, p)
    else
      && root == t.node && t.node !in Nodes(t.right) && t.node !in Outside(t.left, path[1..])
      && Nodes(t.right) !! Outside(t.left, path[1..])
      && Rep(t.right, t.node.right) && Hole(t.left, path[1..], t.node.left, p)
  }

  lemma ForkValues(t: Shape)
    requires t.Fork?
    ensures Values(t) == Values(t.left) + [t.node.value] + Values(t.right)
  {
  }

  lemma AroundSum(before: seq<int>, a: seq<int>, v: seq<int>, b: seq<int>, x: seq<int>, beyond: seq<int>)
    ensures before + (a + v + b) == (before + a) + v + b
    ensures (a + v + b) + x + beyond == a + v + (b + x + beyond)
  {
  }

  lemma {:induction false} GraftValues(t: Shape, path: Path, s: Shape)
    requires Leads(t, path)
    ensures Values(Graft(t, path, s)) == Before(t, path) + Values(s) + Beyond(t, path)
  {
    hide Values;
    if path != [] {
      var child := if path[0] then t.right else t.left;
      GraftValues(child, path[1..], s);
      ForkValues(Graft(t, path, s));
      var a, v, b := Before(child, path[1..]), Values(s), Beyond(child, path[1..]);
      AroundSum(Values(t.left) + [t.node.value], a, v, b, [t.node.value], Values(t.right));
    }
  }

  lemma {:induction false} GraftNodes(t: Shape, path: Path, s: Shape)
    requires Leads(t, path)
    ensures Nodes(Graft(t, path, s)) == Outside(t, path) + Nodes(s)
  {
    if path != [] {
      GraftNodes(if path[0] then t.right else t.left, path[1..], s);
    }
  }

  lemma {:induction false} GraftSelf(t: Shape, path: Path)
    requires Leads(t, path)
    ensures Graft(t, path, Sub(t, path)) == t
  {
    if path != [] {
      GraftSelf(if path[0] then t.right else t.left, path[1..]);
    }
  }

  /** Taking a subtree out. */
  lemma {:induction false} Cut(t: Shape, path: Path, root: Node?) returns (p: Node?)
    requires Leads(t, path) && Rep(t, root)
    ensures Hole(t, path, root, p) && Rep(Sub(t, path), p) && Outside(t, path) !! Nodes(Sub(t, path))
  {
    if path == [] {
      p := root;
    } else {
      var child := if path[0] then t.right else t.left;
      GraftSelf(child, path[1..]);
      GraftNodes(child, path[1..], Sub(child, path[1..]));
      p := Cut(child, path[1..], if path[0] then t.node.right else t.node.left);
    }
  }

  /** Putting a subtree in. */
  lemma {:induction false} Fill(t: Shape, path: Path, root: Node?, s: Shape, p: Node?)
    requires Leads(t, path) && Hole(t, path, root, p) && Rep(s, p) && Outside(t, path) !! Nodes(s)
    ensures Rep(Graft(t, path, s), root)
  {
    if path != [] {
      var child := if path[0] then t.right else t.left;
      GraftNodes(child, path[1..], s);
      Fill(child, path[1..], if path[0] then t.node.right else t.node.left, s, p);
    }
  }

  lemma {:induction false} Extend(t: Shape, path: Path, d: bool)
    requires Leads(t, path) && Sub(t, path).Fork?
    ensures Leads(t, path + [d])
    ensures var s := Sub(t, path);
      && Sub(t, path + [d]) == (if d then s.right else s.left)
      && Outside(t, path + [d]) == Outside(t, path) + {s.node} + Nodes(if d then s.left else s.right)
  {
    hide Nodes;
    if path != [] {
      Extend(if path[0] then t.right else t.left, path[1..], d);
      assert (path + [d])[1..] == path[1..] + [d];
    }
  }

  lemma {:induction false} ExtendValues(t: Shape, path: Path, d: bool)
    requires Leads(t, path) && Sub(t, path).Fork?
    ensures Leads(t, path + [d])
    ensures var s := Sub(t, path);
      && Before(t, path + [d]) == Before(t, path) + (if d then Values(s.left) + [s.node.value] else [])
      && Beyond(t, path + [d]) == (if d then [] else [s.node.value] + Values(s.right)) + Beyond(t, path)
  {
    hide Values;
    if path != [] {
      ExtendValues(if path[0] then t.right else t.left, path[1..], d);
      assert (path + [d])[1..] == path[1..] + [d];
    }
  }

  /** A hole at a node becomes a hole below it. */
  lemma {:induction false} HoleBelow(t: Shape, path: Path, root: Node?, d: bool)
    requires Leads(t, path) && Sub(t, path).Fork? && Hole(t, path, root, Sub(t, path).node)
    requires var s := Sub(t, path);
      var other := if d then s.left else s.right;
      && s.node !in Outside(t, path) && s.node !in Nodes(other) && Nodes(other) !! Outside(t, path)
      && Rep(other, if d then s.node.left else s.node.right)
    ensures Leads(t, path + [d])
    ensures Hole(t, path + [d], root, if d then Sub(t, path).node.right else Sub(t, path).node.left)
  {
    Extend(t, path, d);
    if path != [] {
      var child := if path[0] then t.right else t.left;
      Extend(child, path[1..], d);
      HoleBelow(child, path[1..], if path[0] then t.node.right else t.node.left, d);
      assert (path + [d])[1..] == path[1..] + [d];
    }
  }

  // ---- Searching -------------------------------------------------------------------------------

  /** The search for x has narrowed down to the subtree at path. */
  ghost predicate Narrowed(t: Shape, path: Path, x: int) {
    && Leads(t, path)
    && (forall y | y in Before(t, path) :: y < x)
    && (forall y | y in Beyond(t, path) :: x < y)
  }

  /** One comparison on the way down. */
  lemma Narrow(t: Shape, path: Path, x: int)
    requires Ascending(Values(t)) && Narrowed(t, path, x) && Sub(t, path).Fork? && Sub(t, path).node.value != x
    ensures Narrowed(t, path + [Sub(t, path).node.value < x], x)
  {
    var s := Sub(t, path);
    var d := s.node.value < x;
    ExtendValues(t, path, d);
    GraftSelf(t, path);
    GraftValues(t, path, s);
    assert Values(t) == Before(t, path) + (Values(s.left) + [s.node.value] + Values(s.right)) + Beyond(t, path);
    AscendingParts(Before(t, path), Values(s.left), s.node.value, Values(s.right), Beyond(t, path));
  }

  lemma AscendingParts(a: seq<int>, b: seq<int>, v: int, c: seq<int>, d: seq<int>)
    requires Ascending(a + (b + [v] + c) + d)
    ensures (forall y | y in b :: y < v) && (forall y | y in c :: v < y)
  {
    var s := a + (b + [v] + c) + d;
    assert s[|a| + |b|] == v;
    forall i | 0 <= i < |b|
      ensures b[i] < v
    {
      assert s[|a| + i] == b[i];
    }
    forall i | 0 <= i < |c|
      ensures v < c[i]
    {
      assert s[|a| + |b| + 1 + i] == c[i];
    }
  }

  /** Where the search ended decides membership. */
  lemma FoundIffMember(t: Shape, path: Path, x: int)
    requires Ascending(Values(t)) && Narrowed(t, path, x)
    requires Sub(t, path).Fork? ==> Sub(t, path).node.value == x
    ensures x in Values(t) <==> Sub(t, path).Fork?
  {
    GraftSelf(t, path);
    GraftValues(t, path, Sub(t, path));
  }

  /** The parent of the position, and the side the position is on. */
  ghost predicate ParentAt(t: Shape, path: Path, parent: Node?, x: int) {
    && Leads(t, path)
    && (path == [] <==> parent == null)
    && (path != [] ==>
          var up := path[..|path| - 1];
          Leads(t, up) && Sub(t, up).Fork? && Sub(t, up).node == parent && parent.value != x
          && path == up + [parent.value < x])
  }

  /** The turns of the search for x, on any tree. */
  ghost function SearchPath(t: Shape, x: int): (path: Path)
    ensures Leads(t, path) && (Sub(t, path).Fork? ==> Sub(t, path).node.value == x)
  {
    match t
    case Nil => []
    case Fork(l, n, r) =>
      if n.value == x then [] else [n.value < x] + SearchPath(if n.value < x then r else l, x)
  }

  lemma SearchTurns(s: Shape, x: int)
    requires s.Fork? && s.node.value != x
    ensures SearchPath(s, x)
         == [s.node.value < x] + SearchPath(if s.node.value < x then s.right else s.left, x)
  {
  }

  lemma AddedTurn(path: Path, d: bool, rest: Path)
    ensures path + ([d] + rest) == (path + [d]) + rest
  {
  }

  /** The search goes on below a node that does not hold x. */
  lemma SearchOn(t: Shape, path: Path, x: int)
    requires Leads(t, path) && Sub(t, path).Fork? && Sub(t, path).node.value != x
    requires SearchPath(t, x) == path + SearchPath(Sub(t, path), x)
    ensures var below := path + [Sub(t, path).node.value < x];
      Leads(t, below) && SearchPath(t, x) == below + SearchPath(Sub(t, below), x)
  {
    hide SearchPath, Sub, Leads, Outside, Nodes;
    var s := Sub(t, path);
    var d := s.node.value < x;
    Extend(t, path, d);
    SearchTurns(s, x);
    AddedTurn(path, d, SearchPath(if d then s.right else s.left, x));
  }

  method Explore(root: Node?, key: int, ghost t: Shape) returns (parent: Node?, current: Node?, ghost path: Path)
    requires Rep(t, root)
    ensures Rep(t, root)
    ensures Leads(t, path) && Rep(Sub(t, path), current) && Hole(t, path, root, current)
    ensures Outside(t, path) !! Nodes(Sub(t, path))
    ensures ParentAt(t, path, parent, key)
    ensures current != null ==> current.value == key
    ensures path == SearchPath(t, key)
    ensures Ascending(Values(t)) ==> Narrowed(t, path, key)
  {
    hide SearchPath, Values, Ascending, Narrowed, Before, Beyond, Rep, Hole, Outside, Nodes;
    ExploreStarts(t, root);
    current := root;
    parent := null;
    path := [];
    SearchStarts(t, key);
    while current != null && current.value != key
      invariant Rep(t, root)
      invariant Leads(t, path) && Rep(Sub(t, path), current) && Hole(t, path, root, current)
      invariant Outside(t, path) !! Nodes(Sub(t, path))
      invariant ParentAt(t, path, parent, key)
      invariant SearchPath(t, key) == path + SearchPath(Sub(t, path), key)
      invariant Ascending(Values(t)) ==> Narrowed(t, path, key)
      decreases Sub(t, path)
    {
      RootOfSub(Sub(t, path), current);
      if Ascending(Values(t)) {
        Narrow(t, path, key);
      }
      ghost var d := current.value < key;
      SearchOn(t, path, key);
      StepDown(t, path, root, current, d);
      assert (path + [d])[..|path|] == path;
      parent := current;
      if key < current.value {
        current := current.left;
      } else {
        current := current.right;
      }
      path := path + [d];
    }
    RootOfSub(Sub(t, path), current);
    SearchStops(Sub(t, path), key);
  }

  lemma ExploreStarts(t: Shape, root: Node?)
    requires Rep(t, root)
    ensures Rep(Sub(t, []), root) && Hole(t, [], root, root) && Outside(t, []) !! Nodes(Sub(t, []))
  {
  }

  lemma RootOfSub(s: Shape, p: Node?)
    requires Rep(s, p)
    ensures (p == null <==> s == Nil) && (p != null ==> s.Fork? && s.node == p)
  {
  }

  /** The pointer on side d of the node reached is the subtree there, and the rest of the tree is around it. */
  lemma StepDown(t: Shape, path: Path, root: Node?, current: Node, d: bool)
    requires Leads(t, path) && Rep(Sub(t, path), current) && Hole(t, path, root, current)
    requires Outside(t, path) !! Nodes(Sub(t, path))
    ensures Leads(t, path + [d]) && Sub(t, path).Fork?
    ensures Sub(t, path + [d]) == if d then Sub(t, path).right else Sub(t, path).left
    ensures var child := if d then current.right else current.left;
      Rep(Sub(t, path + [d]), child) && Hole(t, path + [d], root, child)
    ensures Outside(t, path + [d]) !! Nodes(Sub(t, path + [d]))
  {
    Extend(t, path, d);
    HoleBelow(t, path, root, d);
  }

  lemma SearchStarts(t: Shape, x: int)
    ensures Narrowed(t, [], x) && SearchPath(t, x) == [] + SearchPath(Sub(t, []), x)
  {
  }

  lemma SearchStops(t: Shape, x: int)
    ensures t == Nil || t.node.value == x ==> SearchPath(t, x) == []
  {
  }

  method Lookup(root: Node?, key: int, ghost t: Shape) returns (found: Node?)
    requires Rep(t, root)
    ensures Ascending(Values(t)) ==> (found != null <==> key in Values(t))
    ensures found != null ==> found in Nodes(t) && found.value == key
  {
    var _, current, path := Explore(root, key, t);
    if Ascending(Values(t)) {
      FoundIffMember(t, path, key);
    }
    GraftSelf(t, path);
    GraftNodes(t, path, Sub(t, path));
    return current;
  }

  // ---- Insertion -------------------------------------------------------------------------------

  ghost predicate KeysAreValues(t: Shape) {
    forall n | n in Nodes(t) :: n.key == n.value
  }

  /** The node the search for x ends below sends x the same way by its key as by its value. */
  ghost predicate Agrees(t: Shape, x: int) {
    match t
    case Nil => true
    case Fork(l, n, r) =>
      var child := if n.value < x then r else l;
      n.value == x || if child == Nil then (n.key <= x <==> n.value < x) else Agrees(child, x)
  }

  /** Where the code links a new node for x: the parent by the search, the side by the parent's key. */
  ghost function LinkPath(t: Shape, x: int): (path: Path)
    requires Sub(t, SearchPath(t, x)) == Nil
    ensures Leads(t, path)
  {
    match t
    case Nil => []
    case Fork(l, n, r) =>
      var child := if n.value < x then r else l;
      if child == Nil then [n.key <= x] else [n.value < x] + LinkPath(child, x)
  }

  lemma FirstTurn(t: Shape, d: bool, rest: Path)
    requires t.Fork? && Leads(if d then t.right else t.left, rest)
    ensures Leads(t, [d] + rest) && Sub(t, [d] + rest) == Sub(if d then t.right else t.left, rest)
    ensures rest != [] ==> ([d] + rest)[..|rest|] == [d] + rest[..|rest| - 1]
  {
    assert ([d] + rest)[1..] == rest;
  }

  /** One step of both descents. */
  lemma LinkTurns(t: Shape, x: int)
    requires t.Fork? && Sub(t, SearchPath(t, x)) == Nil
    ensures var d := t.node.value < x;
      var child := if d then t.right else t.left;
      && t.node.value != x && SearchPath(t, x) == [d] + SearchPath(child, x)
      && Sub(child, SearchPath(child, x)) == Nil
      && LinkPath(t, x) == if child == Nil then [t.node.key <= x] else [d] + LinkPath(child, x)
  {
    var d := t.node.value < x;
    FirstTurn(t, d, SearchPath(if d then t.right else t.left, x));
  }

  /** The side of the parent's key, below the parent that the search found. */
  lemma {:induction false} LinkPathAtEnd(t: Shape, x: int)
    requires t.Fork? && Sub(t, SearchPath(t, x)) == Nil
    ensures SearchPath(t, x) != []
    ensures var up := SearchPath(t, x)[..|SearchPath(t, x)| - 1];
      Leads(t, up) && Sub(t, up).Fork? && LinkPath(t, x) == up + [Sub(t, up).node.key <= x]
  {
    hide SearchPath, LinkPath, Sub, Leads;
    var d := t.node.value < x;
    var child := if d then t.right else t.left;
    LinkTurns(t, x);
    if child.Fork? {
      LinkPathAtEnd(child, x);
      var rest := SearchPath(child, x);
      var up := rest[..|rest| - 1];
      FirstTurn(t, d, rest);
      FirstTurn(t, d, up);
      assert [d] + (up + [Sub(child, up).node.key <= x]) == ([d] + up) + [Sub(child, up).node.key <= x];
    } else {
      NoTurns(t, x);
    }
  }

  lemma NoTurns(t: Shape, x: int)
    ensures Leads(t, []) && Sub(t, []) == t && SearchPath(Nil, x) == []
  {
  }

  lemma {:induction false} AgreesAtEnd(t: Shape, x: int)
    requires Sub(t, SearchPath(t, x)) == Nil
    ensures Agrees(t, x) <==> LinkPath(t, x) == SearchPath(t, x)
  {
    if t.Fork? {
      var d := t.node.value < x;
      var child := if d then t.right else t.left;
      assert ([d] + SearchPath(child, x))[1..] == SearchPath(child, x);
      AgreesAtEnd(child, x);
      if child.Fork? {
        assert ([d] + LinkPath(child, x))[1..] == LinkPath(child, x);
      } else {
        assert [t.node.key <= x][0] == (t.node.key <= x) && ([d] + SearchPath(child, x))[0] == d;
      }
    }
  }

  /** Linking there is inserting where the search ended exactly when key and value agree at its last node. */
  lemma {:induction false} LinkedRightly(t: Shape, x: int, n: Node)
    requires Sub(t, SearchPath(t, x)) == Nil
    ensures Graft(t, LinkPath(t, x), Fork(Nil, n, Nil)) == WithLeaf(t, x, n) <==> Agrees(t, x)
  {
    if t.Fork? {
      var d := t.node.value < x;
      var child := if d then t.right else t.left;
      assert SearchPath(t, x)[1..] == SearchPath(child, x);
      assert child == Nil ==> WithLeaf(child, x, n) != Nil;
      if child.Fork? {
        assert LinkPath(t, x)[1..] == LinkPath(child, x);
        LinkedRightly(child, x, n);
      }
    }
  }

  lemma {:induction false} KeysAgree(t: Shape, x: int)
    requires KeysAreValues(t) && x !in Values(t)
    ensures Agrees(t, x)
  {
    if t.Fork? {
      assert t.node in Nodes(t);
      KeysAgree(t.left, x);
      KeysAgree(t.right, x);
    }
  }

  /** How many elements are below x. */
  ghost function Rank(s: seq<int>, x: int): (k: nat)
    ensures k <= |s|
  {
    if s == [] then 0 else Rank(s[..|s| - 1], x) + if s[|s| - 1] < x then 1 else 0
  }

  /** value stored where x belongs. */
  ghost function Inserted(s: seq<int>, x: int, value: int): seq<int> {
    s[..Rank(s, x)] + [value] + s[Rank(s, x)..]
  }

  lemma {:induction false} RankOfSplit(a: seq<int>, b: seq<int>, x: int)
    requires (forall i | 0 <= i < |a| :: a[i] < x) && forall i | 0 <= i < |b| :: x < b[i]
    ensures Rank(a + b, x) == |a|
  {
    if b != [] {
      assert (a + b)[..|a + b| - 1] == a + b[..|b| - 1];
      RankOfSplit(a, b[..|b| - 1], x);
    } else if a != [] {
      assert a + b == a && a[..|a| - 1] + b == a[..|a| - 1];
      RankOfSplit(a[..|a| - 1], b, x);
    }
  }

  lemma {:induction false} RankSplits(s: seq<int>, x: int)
    requires Ascending(s) && x !in s
    ensures (forall i | 0 <= i < Rank(s, x) :: s[i] < x) && forall i | Rank(s, x) <= i < |s| :: x < s[i]
  {
    if s != [] {
      RankSplits(s[..|s| - 1], x);
    }
  }

  /** Inserting keeps the order exactly when the value fits the gap its key belongs to. */
  lemma InsertedInOrder(s: seq<int>, x: int, value: int)
    requires Ascending(s) && x !in s
    ensures Ascending(Inserted(s, x, value)) <==> Fits(s, x, value)
    ensures forall y :: y in Inserted(s, x, value) <==> y in s || y == value
  {
    RankSplits(s, x);
    var k, u := Rank(s, x), Inserted(s, x, value);
    assert s == s[..k] + s[k..];
    assert Ascending(u) ==> Fits(s, x, value) by {
      if Ascending(u) {
        forall i | 0 <= i < |s|
          ensures if s[i] < x then s[i] < value else value < s[i]
        {
          assert u[k] == value && u[if i < k then i else i + 1] == s[i];
        }
      }
    }
  }

  ghost predicate Fits(s: seq<int>, x: int, value: int) {
    forall i | 0 <= i < |s| :: if s[i] < x then s[i] < value else value < s[i]
  }

  ghost function Sibling(t: Shape, up: Path, d: bool): Shape
    requires Leads(t, up) && Sub(t, up).Fork?
  {
    if d then Sub(t, up).left else Sub(t, up).right
  }

  /** The node at `up` stands apart from everything its links on side d do not lead to. */
  ghost predicate Loose(t: Shape, up: Path, d: bool)
    requires Leads(t, up) && Sub(t, up).Fork?
  {
    var n := Sub(t, up).node;
    n !in Outside(t, up) && n !in Nodes(Sibling(t, up, d)) && Nodes(Sibling(t, up, d)) !! Outside(t, up)
  }

  /** The tree with node n as a leaf, by comparing on the way down; LeafAt says that this is where the search for x ends. */
  ghost function WithLeaf(t: Shape, x: int, n: Node): Shape {
    match t
    case Nil => Fork(Nil, n, Nil)
    case Fork(l, m, r) => if x < m.value then Fork(WithLeaf(l, x, n), m, r) else Fork(l, m, WithLeaf(r, x, n))
  }

  lemma {:induction false} LeafAt(t: Shape, x: int, n: Node)
    requires Sub(t, SearchPath(t, x)) == Nil
    ensures WithLeaf(t, x, n) == Graft(t, SearchPath(t, x), Fork(Nil, n, Nil))
  {
    if t.Fork? {
      var child := if t.node.value < x then t.right else t.left;
      assert SearchPath(t, x)[1..] == SearchPath(child, x);
      LeafAt(child, x, n);
    }
  }

  /** Everything about the parent of a position before its link is overwritten. */
  lemma Unlink(t: Shape, up: Path, root: Node?, d: bool)
    requires Leads(t, up) && Sub(t, up).Fork?
    ensures Leads(t, up + [d]) && Sub(t, up).node in Nodes(t)
    ensures Nodes(t) == Outside(t, up + [d]) + Nodes(Sub(t, up + [d]))
    ensures
      var n := Sub(t, up).node;
      Rep(t, root) ==>
        && Loose(t, up, d) && Hole(t, up, root, n)
        && Rep(Sibling(t, up, d), if d then n.left else n.right)
        && Rep(Sub(t, up + [d]), if d then n.right else n.left)
        && Outside(t, up + [d]) !! Nodes(Sub(t, up + [d]))
  {
    Extend(t, up, d);
    GraftSelf(t, up);
    GraftNodes(t, up, Sub(t, up));
    if Rep(t, root) {
      var p := Cut(t, up, root);
    }
  }

  /** Overwriting that link grafts. */
  lemma Link(t: Shape, up: Path, root: Node?, d: bool, s: Shape)
    requires Leads(t, up) && Sub(t, up).Fork? && Loose(t, up, d)
    requires Leads(t, up + [d]) && Outside(t, up + [d]) !! Nodes(s)
    ensures
      var n := Sub(t, up).node;
      (Hole(t, up, root, n) && Rep(Sibling(t, up, d), if d then n.left else n.right) && Rep(s, if d then n.right else n.left)) ==>
        Rep(Graft(t, up + [d], s), root)
  {
    var n := Sub(t, up).node;
    if Hole(t, up, root, n) && Rep(Sibling(t, up, d), if d then n.left else n.right) && Rep(s, if d then n.right else n.left) {
      HoleBelow(t, up, root, d);
      Fill(t, up + [d], root, s, if d then n.right else n.left);
    }
  }

  /** The heap around `was`, the child on side d of the node at `up`. */
  ghost predicate Prepared(t: Shape, up: Path, root: Node?, d: bool, was: Node)
    requires Leads(t, up) && Sub(t, up).Fork?
    reads Outside(t, up), Nodes(Sibling(t, up, d)), {Sub(t, up).node}
  {
    var n := Sub(t, up).node;
    && Loose(t, up, d) && Hole(t, up, root, n) && Rep(Sibling(t, up, d), if d then n.left else n.right)
    && (n.left == was <==> !d)
  }

  lemma Prepare(t: Shape, up: Path, root: Node?, d: bool, was: Node)
    requires Leads(t, up) && Sub(t, up).Fork?
    ensures Leads(t, up + [d]) && Sub(t, up).node in Nodes(t)
    ensures Nodes(t) == Outside(t, up + [d]) + Nodes(Sub(t, up + [d]))
    ensures Outside(t, up + [d]) == Outside(t, up) + {Sub(t, up).node} + Nodes(Sibling(t, up, d))
    ensures Rep(t, root) && Sub(t, up + [d]).Fork? && Sub(t, up + [d]).node == was ==> Prepared(t, up, root, d, was)
  {
    Unlink(t, up, root, d);
    Extend(t, up, d);
  }

  /** Adds a node for key unless the search finds one; `added` is that node. */
  method Insert(root: Node?, key: int, value: int, ghost t: Shape) returns (root': Node?, ghost t': Shape, ghost added: Node?)
    requires Rep(t, root)
    modifies Nodes(t)
    ensures Rep(t', root')
    ensures added == null ==> root' == root && t' == t
    ensures added != null ==> fresh(added) && added.key == key && added.value == value
    ensures added == null <==> Sub(t, SearchPath(t, key)).Fork?
    ensures added != null ==>
      var at := LinkPath(t, key);
      t' == Graft(t, at, Fork(Nil, added, Nil)) && Nodes(t') == Outside(t, at) + {added}
    ensures added != null ==> (t' == WithLeaf(t, key, added) <==> Agrees(t, key))
    ensures Ascending(Values(t)) ==> (added == null <==> key in Values(t))
    ensures added != null && Ascending(Values(t)) && Agrees(t, key) ==>
      Values(t') == Inserted(Values(t), key, value) && Nodes(t') == Nodes(t) + {added}
    ensures added != null && Ascending(Values(t)) && !Agrees(t, key) && key == value ==> !Ascending(Values(t'))
  {
    hide Before, Beyond, Values, Rank, Inserted, Ascending, Narrowed, Graft, Hole, Outside, Rep, Loose, Agrees, WithLeaf, LinkPath, SearchPath;
    var parent, current, path := Explore(root, key, t);
    SearchEnd(t, path, current, key);
    if current != null {
      return root, t, null;
    }
    RepNull(t, root);
    assert allocated(Nodes(t));
    var n := new Node(key, value);
    ghost var leaf := Fork(Nil, n, Nil);
    LeafRep(n);
    if root == null {
      EmptyTree(t, n, key);
      LeafNodes(t, key, n);
      return n, leaf, n;
    }
    ghost var up := path[..|path| - 1];
    ghost var d := parent.key <= key;
    Unlink(t, up, root, d);
    if parent.key > key {
      parent.left := n;
    } else {
      parent.right := n;
    }
    Link(t, up, root, d, leaf);
    root', t', added := root, Graft(t, up + [d], leaf), n;
    LinkPathAtEnd(t, key);
    AgreesAtEnd(t, key);
    LinkedRightly(t, key, n);
    LeafNodes(t, key, n);
    if Ascending(Values(t)) {
      if Agrees(t, key) {
        LeafAdded(t, path, n, key);
      } else {
        WrongSide(t, up, d, n);
      }
    }
  }

  /** Whatever hung where the new leaf is linked is no longer in the tree. */
  lemma LeafNodes(t: Shape, x: int, n: Node)
    requires Sub(t, SearchPath(t, x)) == Nil
    ensures Nodes(Graft(t, LinkPath(t, x), Fork(Nil, n, Nil))) == Outside(t, LinkPath(t, x)) + {n}
  {
    var leaf := Fork(Nil, n, Nil);
    GraftNodes(t, LinkPath(t, x), leaf);
    assert Nodes(leaf) == {n};
  }

  /** A leaf on the wrong side of its parent is out of order. */
  lemma WrongSide(t: Shape, up: Path, d: bool, n: Node)
    requires Leads(t, up) && Sub(t, up).Fork?
    ensures Leads(t, up + [d])
    ensures (if d then n.value < Sub(t, up).node.value else n.value > Sub(t, up).node.value) ==>
      !Ascending(Values(Graft(t, up + [d], Fork(Nil, n, Nil))))
  {
    var leaf, s := Fork(Nil, n, Nil), Sub(t, up);
    ExtendValues(t, up, d);
    GraftValues(t, up + [d], leaf);
    var a, b := Before(t, up + [d]), Beyond(t, up + [d]);
    var v := Values(Graft(t, up + [d], leaf));
    assert Values(leaf) == [n.value];
    assert v == a + [n.value] + b && v[|a|] == n.value;
    if d {
      assert a[|a| - 1] == s.node.value && v[|a| - 1] == a[|a| - 1];
    } else {
      assert b[0] == s.node.value && v[|a| + 1] == b[0];
    }
  }

  /** Keys that differ from values: linking the third node by key drops the second, which the search finds before and not after. */
  method MismatchLosesNode() returns (before: Node?, after: Node?)
    ensures before != null && before.value == 7 && after == null
  {
    var root: Node?;
    ghost var t1, t2, t3;
    ghost var a, b, c;
    root, t1, a := Insert(null, 1, 5, Nil);
    assert t1 == Fork(Nil, a, Nil);
    root, t2, b := Insert(root, 7, 7, t1);
    assert LinkPath(t1, 7) == [true];
    assert t2 == Fork(Nil, a, Fork(Nil, b, Nil));
    before := Lookup(root, 7, t2);
    assert Values(t2) == [5, 7];
    root, t3, c := Insert(root, 2, 2, t2);
    assert LinkPath(t2, 2) == [true] && !Agrees(t2, 2);
    assert t3 == Fork(Nil, a, Fork(Nil, c, Nil));
    after := Lookup(root, 7, t3);
    assert Nodes(t3) == {a, c};
  }

  lemma RepNull(t: Shape, root: Node?)
    requires Rep(t, root)
    ensures root == null <==> t == Nil
  {
  }

  lemma LeafRep(n: Node)
    requires n.left == null && n.right == null
    ensures Rep(Fork(Nil, n, Nil), n) && Nodes(Fork(Nil, n, Nil)) == {n}
  {
  }

  /** The search ends at a member or at an empty position. */
  lemma SearchEnd(t: Shape, path: Path, current: Node?, x: int)
    requires Leads(t, path) && Rep(Sub(t, path), current) && (current != null ==> current.value == x)
    ensures current == null <==> Sub(t, path) == Nil
    ensures Ascending(Values(t)) && Narrowed(t, path, x) ==> (x in Values(t) <==> current != null)
  {
    if Ascending(Values(t)) && Narrowed(t, path, x) {
      FoundIffMember(t, path, x);
    }
  }

  lemma EmptyTree(t: Shape, n: Node, x: int)
    requires Rep(t, null)
    ensures Agrees(t, x) && WithLeaf(t, x, n) == Fork(Nil, n, Nil) && LinkPath(t, x) == SearchPath(t, x) == []
    ensures Graft(t, [], Fork(Nil, n, Nil)) == Fork(Nil, n, Nil)
    ensures t == Nil && Values(Fork(Nil, n, Nil)) == Inserted(Values(t), x, n.value) && Nodes(Fork(Nil, n, Nil)) == Nodes(t) + {n}
  {
  }

  lemma LeafParts(a: seq<int>, b: seq<int>)
    ensures a + [] + b == a + b && (a + b)[..|a|] == a && (a + b)[|a|..] == b
  {
  }

  /** A new leaf at the end of the search. */
  lemma LeafAdded(t: Shape, path: Path, n: Node, x: int)
    requires Narrowed(t, path, x) && Sub(t, path) == Nil
    ensures Values(Graft(t, path, Fork(Nil, n, Nil))) == Inserted(Values(t), x, n.value)
    ensures Nodes(Graft(t, path, Fork(Nil, n, Nil))) == Nodes(t) + {n}
  {
    hide Before, Beyond, Outside, Graft, Sub, Leads, Rank;
    var leaf := Fork(Nil, n, Nil);
    GraftSelf(t, path);
    GraftValues(t, path, Nil);
    GraftValues(t, path, leaf);
    GraftNodes(t, path, Nil);
    GraftNodes(t, path, leaf);
    var a, b := Before(t, path), Beyond(t, path);
    assert forall i | 0 <= i < |a| :: a[i] in a;
    assert forall i | 0 <= i < |b| :: b[i] in b;
    RankOfSplit(a, b, x);
    LeafParts(a, b);
    assert Values(leaf) == [n.value];
  }

  // ---- Deletion --------------------------------------------------------------------------------

  method ReplaceChild(parent: Node, was: Node, child: Node?)
    modifies parent
    ensures old(parent.left) == was ==> parent.left == child && parent.right == old(parent.right)
    ensures old(parent.left) != was ==> parent.right == child && parent.left == old(parent.left)
  {
    if parent.left == was {
      parent.left := child;
    } else {
      parent.right := child;
    }
  }

  /** Relinking the parent of `was` to `child` grafts child's subtree. */
  method Relink(ghost t: Shape, ghost up: Path, ghost root: Node?, ghost d: bool, parent: Node, was: Node, child: Node?, ghost s: Shape)
    requires Leads(t, up) && Sub(t, up).Fork? && Sub(t, up).node == parent && Leads(t, up + [d])
    requires parent !in Nodes(s) && Outside(t, up + [d]) !! Nodes(s)
    modifies parent
    ensures old(Prepared(t, up, root, d, was)) && old(Rep(s, child)) ==> Rep(Graft(t, up + [d], s), root)
  {
    hide Graft, Outside, Hole, Rep;
    assert allocated(Outside(t, up)) && allocated(Nodes(Sibling(t, up, d))) && allocated(Nodes(s));
    ReplaceChild(parent, was, child);
    if old(Prepared(t, up, root, d, was)) && old(Rep(s, child)) {
      Link(t, up, root, d, s);
    }
  }

  ghost function Leftmost(t: Shape): Node
    requires t.Fork?
  {
    if t.left == Nil then t.node else Leftmost(t.left)
  }

  ghost function DropLeftmost(t: Shape): Shape
    requires t.Fork?
  {
    if t.left == Nil then t.right else Fork(DropLeftmost(t.left), t.node, t.right)
  }

  /** A tree without its root: a missing child is replaced by the other one, else the successor moves up. */
  ghost function WithoutRoot(t: Shape): Shape
    requires t.Fork?
  {
    if t.left == Nil then t.right
    else if t.right == Nil then t.left
    else Fork(t.left, Leftmost(t.right), DropLeftmost(t.right))
  }

  lemma {:induction false} LeftmostIsFirst(t: Shape)
    requires t.Fork?
    ensures Values(t) == [Leftmost(t).value] + Values(DropLeftmost(t))
  {
    if t.left.Fork? {
      LeftmostIsFirst(t.left);
    }
  }

  /** A node with two children gives its place to the next larger value, from the right; the left stays as it is. */
  lemma SuccessorMovesUp(t: Shape)
    requires t.Fork? && t.left.Fork? && t.right.Fork?
    ensures Values(t.right) != [] && WithoutRoot(t).Fork? && WithoutRoot(t).left == t.left
    ensures WithoutRoot(t).node.value == Values(t.right)[0] && Values(WithoutRoot(t).right) == Values(t.right)[1..]
  {
    LeftmostIsFirst(t.right);
  }

  /** The tree without the node that a search for x finds. */
  ghost function Deleted(t: Shape, x: int): Shape {
    match t
    case Nil => Nil
    case Fork(l, n, r) =>
      if n.value == x then WithoutRoot(t)
      else if x < n.value then Fork(Deleted(l, x), n, r)
      else Fork(l, n, Deleted(r, x))
  }

  lemma {:induction false} DeletedAt(t: Shape, x: int)
    ensures var path := SearchPath(t, x);
      Deleted(t, x) == if Sub(t, path).Fork? then Graft(t, path, WithoutRoot(Sub(t, path))) else t
  {
    if t.Fork? && t.node.value != x {
      var child := if t.node.value < x then t.right else t.left;
      assert SearchPath(t, x)[1..] == SearchPath(child, x);
      DeletedAt(child, x);
    }
  }

  lemma {:induction false} LeftmostAt(t: Shape, path: Path)
    requires Leads(t, path) && Leftward(path) && Sub(t, path).Fork? && Sub(t, path).left == Nil
    ensures t.Fork? && Leftmost(t) == Sub(t, path).node && DropLeftmost(t) == Graft(t, path, Sub(t, path).right)
  {
    if path != [] {
      LeftmostAt(t.left, path[1..]);
    }
  }

  ghost predicate Leftward(path: Path) {
    forall i | 0 <= i < |path| :: !path[i]
  }

  lemma {:induction false} NothingBeforeLeftmost(t: Shape, path: Path)
    requires Leads(t, path) && Leftward(path)
    ensures Before(t, path) == []
  {
    if path != [] {
      NothingBeforeLeftmost(t.left, path[1..]);
    }
  }

  /** The leftmost node right of n, and the node that links to it. */
  method RightSucc(n: Node, ghost r: Shape) returns (parent: Node, res: Node, ghost path: Path)
    requires Rep(r, n.right) && r.Fork?
    ensures Rep(r, n.right)
    ensures res == Leftmost(r)
    ensures Leads(r, path) && Leftward(path) && Sub(r, path).Fork? && Sub(r, path).left == Nil && Sub(r, path).node == res
    ensures path == [] ==> parent == n
    ensures path != [] ==> Leads(r, path[..|path| - 1]) && Sub(r, path[..|path| - 1]).Fork? && Sub(r, path[..|path| - 1]).node == parent
    ensures path != [] ==> parent in Nodes(r)
  {
    parent := n;
    res := n.right;
    path := [];
    while res.left != null
      invariant Rep(r, n.right)
      invariant Leads(r, path) && Leftward(path) && Rep(Sub(r, path), res)
      invariant path == [] ==> parent == n
      invariant path != [] ==> Leads(r, path[..|path| - 1]) && Sub(r, path[..|path| - 1]).Fork? && Sub(r, path[..|path| - 1]).node == parent
      invariant path != [] ==> parent in Nodes(r)
      decreases Sub(r, path)
    {
      Extend(r, path, false);
      GraftSelf(r, path);
      GraftNodes(r, path, Sub(r, path));
      assert (path + [false])[..|path|] == path;
      parent := res;
      res := res.left;
      path := path + [false];
    }
    LeftmostAt(r, path);
  }

  /** successor.parent->left = successor.res->right */
  method BypassSuccessor(n: Node, parent: Node, res: Node, ghost r: Shape, ghost up: Path)
    requires Leads(r, up) && Sub(r, up).Fork? && Sub(r, up).node == parent
    requires Leads(r, up + [false]) && Sub(r, up + [false]).Fork? && Sub(r, up + [false]).left == Nil && Sub(r, up + [false]).node == res
    requires Rep(r, n.right) && n !in Nodes(r)
    modifies parent
    ensures Rep(Graft(r, up + [false], Sub(r, up + [false]).right), n.right)
  {
    hide Graft, Outside, Hole, Loose;
    Unlink(r, up, n.right, false);
    LiftedNodes(r, up + [false], n.right);
    UpDiffers(r, up, n.right);
    parent.left := res.right;
    Link(r, up, n.right, false, Sub(r, up + [false]).right);
  }

  /** n's successor takes n's place; n itself is left out. */
  method LiftSuccessor(n: Node, ghost l: Shape, ghost r: Shape) returns (top: Node, ghost s: Shape)
    requires Rep(Fork(l, n, r), n) && r.Fork?
    modifies Nodes(r)
    ensures Rep(s, top) && s == Fork(l, Leftmost(r), DropLeftmost(r))
    ensures Values(s) == Values(l) + Values(r) && Nodes(s) == Nodes(l) + Nodes(r)
  {
    hide Values, Before, Beyond, Graft, Outside, Hole, Loose, Leftward, Rep, Leftmost, DropLeftmost, Nodes;
    RootOf(l, n, r);
    assert allocated(Nodes(l)) && allocated(Nodes(r));
    var parent, res, path := RightSucc(n, r);
    ghost var rest := Sub(r, path).right;
    LiftedNodes(r, path, n.right);
    LiftedValues(l, r, path);
    LeftmostAt(r, path);
    if parent == n {
      res.left := n.left;
      RootOf(l, res, rest);
      return res, Fork(l, res, rest);
    }
    ghost var up := path[..|path| - 1];
    assert path == up + [false];
    BypassSuccessor(n, parent, res, r, up);
    res.right := null;
    res.left := n.left;
    res.right := n.right;
    RootOf(l, res, Graft(r, path, rest));
    return res, Fork(l, res, Graft(r, path, rest));
  }

  lemma RootOf(l: Shape, n: Node, r: Shape)
    ensures Rep(Fork(l, n, r), n) <==>
      n !in Nodes(l) && n !in Nodes(r) && Nodes(l) !! Nodes(r) && Rep(l, n.left) && Rep(r, n.right)
    ensures Nodes(Fork(l, n, r)) == Nodes(l) + {n} + Nodes(r)
  {
  }

  /** What r loses with its leftmost node. */
  lemma LiftedNodes(r: Shape, path: Path, p: Node?)
    requires Rep(r, p) && Leads(r, path) && Sub(r, path).Fork? && Sub(r, path).left == Nil
    ensures
      var res, rest := Sub(r, path).node, Sub(r, path).right;
      && res in Nodes(r) && res !in Nodes(rest) && Nodes(rest) <= Nodes(r) && Rep(rest, res.right)
      && res !in Nodes(Graft(r, path, rest)) && Nodes(Graft(r, path, rest)) + {res} == Nodes(r)
      && Outside(r, path) !! Nodes(rest) && (path == [] ==> r == Fork(Nil, res, rest) && Graft(r, path, rest) == rest)
  {
    hide Hole;
    var s := Sub(r, path);
    var q := Cut(r, path, p);
    GraftSelf(r, path);
    GraftNodes(r, path, s);
    GraftNodes(r, path, s.right);
    assert Nodes(Nil) == {};
  }

  lemma LiftedValues(l: Shape, r: Shape, path: Path)
    requires Leads(r, path) && Leftward(path) && Sub(r, path).Fork? && Sub(r, path).left == Nil
    ensures Values(Fork(l, Sub(r, path).node, Graft(r, path, Sub(r, path).right))) == Values(l) + Values(r)
  {
    hide Graft, Before, Beyond, Sub, Leads, Leftward;
    var s := Sub(r, path);
    GraftSelf(r, path);
    GraftValues(r, path, s);
    GraftValues(r, path, s.right);
    NothingBeforeLeftmost(r, path);
    var v, b := [s.node.value], Beyond(r, path);
    assert Values(r) == v + (Values(s.right) + b);
    assert Values(Graft(r, path, s.right)) == Values(s.right) + b;
    assert Values(l) + v + (Values(s.right) + b) == Values(l) + (v + (Values(s.right) + b));
  }

  /** A node is not the node above it. */
  lemma UpDiffers(r: Shape, up: Path, p: Node?)
    requires Rep(r, p) && Leads(r, up) && Sub(r, up).Fork? && Leads(r, up + [false]) && Sub(r, up + [false]).Fork?
    ensures Sub(r, up).node != Sub(r, up + [false]).node && Sub(r, up).node !in Nodes(Sub(r, up + [false]))
  {
    var q := Cut(r, up, p);
    Extend(r, up, false);
  }

  method Delete(root: Node?, key: int, ghost t: Shape) returns (root': Node?, ghost t': Shape, ghost removed: Node?)
    requires Rep(t, root)
    modifies Nodes(t)
    ensures Rep(t', root')
    ensures removed == null ==> root' == root && t' == t
    ensures removed != null ==> removed in Nodes(t) && removed.value == key && Nodes(t') == Nodes(t) - {removed}
    ensures Ascending(Values(t)) ==> (removed != null <==> key in Values(t))
    ensures Ascending(Values(t)) ==> Ascending(Values(t')) && forall x :: x in Values(t') <==> x in Values(t) && x != key
    ensures t' == Deleted(t, key)
  {
    hide Values, Before, Beyond, Graft, Outside, Hole, Loose, Rep, Ascending, Narrowed, Prepared, Deleted, Leftmost, DropLeftmost, Nodes, SearchPath;
    var parent, current, path := Explore(root, key, t);
    SearchEnd(t, path, current, key);
    DeletedAt(t, key);
    if current == null {
      return root, t, null;
    }
    ghost var s := Sub(t, path);
    ForkOf(s, current);
    SubtreeNodes(t, path);
    ghost var up := if path == [] then [] else path[..|path| - 1];
    ghost var d := path != [] && parent.value < key;
    if parent != null {
      Prepare(t, up, root, d, current);
      assert path == up + [d] && Prepared(t, up, root, d, current);
      assert allocated(Outside(t, up)) && allocated(Nodes(Sibling(t, up, d)));
    }
    var child: Node?;
    ghost var s': Shape;
    if current.left == null && current.right == null {
      child, s' := null, Nil;
    } else if current.left == null || current.right == null {
      child := if current.left == null then current.right else current.left;
      s' := if current.left == null then s.right else s.left;
    } else {
      child, s' := LiftSuccessor(current, s.left, s.right);
    }
    assert s' == WithoutRoot(s);
    assert Rep(s', child) && Values(s') == Values(s.left) + Values(s.right) && Nodes(s') == Nodes(s.left) + Nodes(s.right);
    t', removed := Graft(t, path, s'), current;
    SubtreeReplaced(t, path, s');
    ValueDropped(Before(t, path) + Values(s.left), key, Values(s.right) + Beyond(t, path));
    if parent == null {
      return child, t', removed;
    }
    Relink(t, up, root, d, parent, current, child, s');
    return root, t', removed;
  }

  lemma ForkOf(s: Shape, n: Node?)
    requires Rep(s, n)
    ensures n != null ==>
      && s.Fork? && s.node == n && Rep(s.left, n.left) && Rep(s.right, n.right)
      && n !in Nodes(s.left) && n !in Nodes(s.right) && Nodes(s.left) !! Nodes(s.right)
      && Nodes(s) == Nodes(s.left) + {n} + Nodes(s.right)
      && (n.left == null <==> s.left == Nil) && (n.right == null <==> s.right == Nil)
      && Values(s) == Values(s.left) + [n.value] + Values(s.right)
    ensures Values(Nil) == [] && Nodes(Nil) == {}
  {
  }

  lemma SubtreeNodes(t: Shape, path: Path)
    requires Leads(t, path)
    ensures Nodes(Sub(t, path)) <= Nodes(t)
  {
    GraftSelf(t, path);
    GraftNodes(t, path, Sub(t, path));
  }

  /** The tree after a subtree has lost its root node. */
  lemma SubtreeReplaced(t: Shape, path: Path, s: Shape)
    requires Leads(t, path) && Sub(t, path).Fork?
    requires var sub := Sub(t, path); Values(s) == Values(sub.left) + Values(sub.right)
    ensures path == [] ==> Graft(t, path, s) == s
    ensures Nodes(t) == Outside(t, path) + Nodes(Sub(t, path)) && Nodes(Graft(t, path, s)) == Outside(t, path) + Nodes(s)
    ensures
      var sub := Sub(t, path);
      var a, b := Before(t, path) + Values(sub.left), Values(sub.right) + Beyond(t, path);
      Values(t) == a + [sub.node.value] + b && Values(Graft(t, path, s)) == a + b
  {
    hide Before, Beyond, Outside, Sub, Leads, Graft, Values, Nodes;
    var sub := Sub(t, path);
    GraftIsSub(t, path, s);
    GraftSelf(t, path);
    GraftNodes(t, path, sub);
    GraftNodes(t, path, s);
    GraftValues(t, path, sub);
    GraftValues(t, path, s);
    ForkValues(sub);
    Regroup(Before(t, path), Values(sub.left), [sub.node.value], Values(sub.right), Beyond(t, path));
  }

  lemma Regroup(a: seq<int>, b: seq<int>, v: seq<int>, c: seq<int>, d: seq<int>)
    ensures a + (b + v + c) + d == (a + b) + v + (c + d)
    ensures a + (b + c) + d == (a + b) + (c + d)
  {
  }

  lemma GraftIsSub(t: Shape, path: Path, s: Shape)
    requires Leads(t, path)
    ensures path == [] ==> Graft(t, path, s) == s
  {
  }

  lemma ValueDropped(a: seq<int>, x: int, b: seq<int>)
    ensures Ascending(a + [x] + b) ==> Ascending(a + b) && forall y :: y in a + b <==> y in a + [x] + b && y != x
  {
    var s := a + [x] + b;
    if Ascending(s) {
      assert s[|a|] == x;
      assert forall i | 0 <= i < |a + b| :: (a + b)[i] == s[if i < |a| then i else i + 1];
      forall y
        ensures y in a + b <==> y in s && y != x
      {
        if y in a + b {
          var i :| 0 <= i < |a + b| && (a + b)[i] == y;
          assert s[if i < |a| then i else i + 1] == y;
        }
      }
    }
  }

  // ---- Runs ------------------------------------------------------------------------------------

  datatype Op = Add(x: int) | Remove(x: int)

  ghost function Members(ops: seq<Op>): set<int> {
    if ops == [] then {}
    else
      var before := Members(ops[..|ops| - 1]);
      match ops[|ops| - 1]
      case Add(x) => before + {x}
      case Remove(x) => before - {x}
  }

  /** With every key equal to its value, the tree is the set that the operations describe. */
  method Run(ops: seq<Op>) returns (root: Node?, ghost t: Shape)
    ensures Rep(t, root) && Ascending(Values(t)) && KeysAreValues(t)
    ensures forall x :: x in Values(t) <==> x in Members(ops)
    ensures root == null <==> Members(ops) == {}
  {
    hide Values, Rep, Ascending, Agrees, Inserted;
    root, t := null, Nil;
    EmptyIsOrdered();
    var i := 0;
    while i < |ops|
      invariant i <= |ops| && Rep(t, root) && fresh(Nodes(t))
      invariant Ascending(Values(t)) && KeysAreValues(t) && forall x :: x in Values(t) <==> x in Members(ops[..i])
    {
      assert ops[..i + 1][..i] == ops[..i];
      match ops[i] {
        case Add(x) =>
          if x !in Values(t) {
            KeysAgree(t, x);
            InsertedInOrder(Values(t), x, x);
          }
          ghost var added;
          root, t, added := Insert(root, x, x, t);
        case Remove(x) =>
          ghost var removed;
          root, t, removed := Delete(root, x, t);
      }
      i := i + 1;
    }
    assert ops[..i] == ops;
    NullIsEmpty(t, root, Members(ops));
  }

  lemma NullIsEmpty(t: Shape, root: Node?, members: set<int>)
    requires Rep(t, root) && forall x :: x in Values(t) <==> x in members
    ensures root == null <==> members == {}
  {
    if t.Fork? {
      assert t.node.value in Values(t);
    } else {
      forall x
        ensures x !in members
      {
        assert x in Values(t) <==> x in members;
      }
      assert members == {};
    }
  }

  lemma EmptyIsOrdered()
    ensures Rep(Nil, null) && Ascending(Values(Nil)) && Values(Nil) == [] && Nodes(Nil) == {}
  {
  }
}
