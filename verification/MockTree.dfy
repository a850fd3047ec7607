/** The node graph of the in-memory file system (crates/platform-mock/src/fs.rs). A shared node is
    an index into the sequence of all nodes ever created. */
module MockTree {
  import opened Wrappers
  import Endian

  type Id = nat
  type Name = string
  type Data = seq<Endian.Octet>

  datatype Node = File(data: Data) | Dir(entries: map<Name, Id>) | Symlink(target: Name)
  type Nodes = seq<Node>

  function Child(nodes: Nodes, dir: Id, name: Name): Option<Id> {
    if dir < |nodes| && nodes[dir].Dir? && name in nodes[dir].entries then Some(nodes[dir].entries[name]) else None
  }

  /** Every entry leads to a younger node, and no node has two entries. */
  ghost predicate Tree(nodes: Nodes) {
    && (forall d: Id, n: Name :: Child(nodes, d, n).Some? ==> d < Child(nodes, d, n).value < |nodes|)
    && (forall d: Id, n: Name, e: Id, m: Name :: Child(nodes, d, n).Some? && Child(nodes, d, n) == Child(nodes, e, m) ==> d == e && n == m)
  }

  // ----- The three ways entries change -----

  function Insert(nodes: Nodes, dir: Id, name: Name, node: Node): Nodes
    requires dir < |nodes| && nodes[dir].Dir?
  {
    nodes[dir := Dir(nodes[dir].entries[name := |nodes|])] + [node]
  }

  function Drop(nodes: Nodes, dir: Id, name: Name): Nodes
    requires dir < |nodes| && nodes[dir].Dir?
  {
    nodes[dir := Dir(nodes[dir].entries - {name})]
  }

  function Move(nodes: Nodes, dir: Id, from: Name, to: Name): Nodes
    requires dir < |nodes| && nodes[dir].Dir? && from in nodes[dir].entries
  {
    nodes[dir := Dir((nodes[dir].entries - {from})[to := nodes[dir].entries[from]])]
  }

  /** Nodes without entries come and go freely. */
  ghost predicate SameEntries(a: Nodes, b: Nodes) {
    |a| <= |b| && forall d: Id, n: Name :: Child(b, d, n) == Child(a, d, n)
  }

  lemma SameEntriesTree(a: Nodes, b: Nodes)
    requires Tree(a) && SameEntries(a, b)
    ensures Tree(b)
  {
  }

  function AfterInsert(nodes: Nodes, dir: Id, name: Name, d: Id, n: Name): Option<Id> {
    if d == dir && n == name then Some(|nodes|) else Child(nodes, d, n)
  }

  function AfterDrop(nodes: Nodes, dir: Id, name: Name, d: Id, n: Name): Option<Id> {
    if d == dir && n == name then None else Child(nodes, d, n)
  }

  function AfterMove(nodes: Nodes, dir: Id, from: Name, to: Name, d: Id, n: Name): Option<Id> {
    if d != dir then Child(nodes, d, n)
    else if n == to then Child(nodes, dir, from)
    else if n == from then None
    else Child(nodes, d, n)
  }

  lemma InsertTree(nodes: Nodes, dir: Id, name: Name, node: Node)
    requires Tree(nodes) && dir < |nodes| && nodes[dir].Dir? && (node.Dir? ==> node.entries == map[])
    ensures Tree(Insert(nodes, dir, name, node))
    ensures forall d: Id, n: Name :: Child(Insert(nodes, dir, name, node), d, n) == AfterInsert(nodes, dir, name, d, n)
  {
    var after := Insert(nodes, dir, name, node);
    forall d: Id, n: Name
      ensures Child(after, d, n) == AfterInsert(nodes, dir, name, d, n)
    {
      assert d < |nodes| && d != dir ==> after[d] == nodes[d];
    }
  }

  lemma DropTree(nodes: Nodes, dir: Id, name: Name)
    requires Tree(nodes) && dir < |nodes| && nodes[dir].Dir?
    ensures Tree(Drop(nodes, dir, name))
    ensures forall d: Id, n: Name :: Child(Drop(nodes, dir, name), d, n) == AfterDrop(nodes, dir, name, d, n)
  {
    var after := Drop(nodes, dir, name);
    forall d: Id, n: Name
      ensures Child(after, d, n) == AfterDrop(nodes, dir, name, d, n)
    {
      assert d < |nodes| && d != dir ==> after[d] == nodes[d];
    }
  }

  lemma MoveTree(nodes: Nodes, dir: Id, from: Name, to: Name)
    requires Tree(nodes) && dir < |nodes| && nodes[dir].Dir? && from in nodes[dir].entries
    ensures Tree(Move(nodes, dir, from, to))
    ensures forall d: Id, n: Name :: Child(Move(nodes, dir, from, to), d, n) == AfterMove(nodes, dir, from, to, d, n)
  {
    var after := Move(nodes, dir, from, to);
    forall d: Id, n: Name
      ensures Child(after, d, n) == AfterMove(nodes, dir, from, to, d, n)
    {
      assert d < |nodes| && d != dir ==> after[d] == nodes[d];
    }
  }

  // ----- Paths -----

  function Walk(nodes: Nodes, start: Id, path: seq<Name>): Option<Id>
    decreases |path|
  {
    if path == [] then Some(start)
    else
      match Child(nodes, start, path[0])
      case None => None
      case Some(next) => Walk(nodes, next, path[1..])
  }

  lemma {:induction false} WalkClimbs(nodes: Nodes, start: Id, path: seq<Name>)
    requires Tree(nodes) && Walk(nodes, start, path).Some?
    ensures Walk(nodes, start, path).value >= start + |path|
    decreases |path|
  {
    if path != [] {
      WalkClimbs(nodes, Child(nodes, start, path[0]).value, path[1..]);
    }
  }

  lemma {:induction false} WalkLast(nodes: Nodes, start: Id, path: seq<Name>)
    requires path != []
    ensures var parent := Walk(nodes, start, path[..|path| - 1]);
      Walk(nodes, start, path) == if parent.None? then None else Child(nodes, parent.value, path[|path| - 1])
    decreases |path|
  {
    var init := path[..|path| - 1];
    if |path| == 1 {
      assert path[1..] == [] && init == [];
    } else {
      assert init[0] == path[0] && init[1..] == path[1..][..|path| - 2];
      var next := Child(nodes, start, path[0]);
      if next.Some? {
        WalkLast(nodes, next.value, path[1..]);
      }
    }
  }

  /** No path leads back to where it starts. */
  lemma Acyclic(nodes: Nodes, start: Id, path: seq<Name>)
    requires Tree(nodes) && path != []
    ensures Walk(nodes, start, path) != Some(start)
  {
    if Walk(nodes, start, path).Some? {
      WalkClimbs(nodes, start, path);
    }
  }

  /** From any directory, a node is reached by at most one path. */
  lemma {:induction false} OnePath(nodes: Nodes, start: Id, p: seq<Name>, q: seq<Name>)
    requires Tree(nodes)
    requires Walk(nodes, start, p).Some? && Walk(nodes, start, p) == Walk(nodes, start, q)
    ensures p == q
    decreases |p|
  {
    if p == [] || q == [] {
      WalkClimbs(nodes, start, p);
      WalkClimbs(nodes, start, q);
    } else {
      WalkLast(nodes, start, p);
      WalkLast(nodes, start, q);
      OnePath(nodes, start, p[..|p| - 1], q[..|q| - 1]);
      assert p == p[..|p| - 1] + [p[|p| - 1]] && q == q[..|q| - 1] + [q[|q| - 1]];
    }
  }

  // ----- What a rename does to paths -----

  /** A walk that starts above `dir` never sees its entries. */
  lemma {:induction false} WalkAbove(a: Nodes, b: Nodes, dir: Id, start: Id, path: seq<Name>)
    requires Tree(a) && start > dir
    requires forall d: Id, n: Name :: d != dir ==> Child(b, d, n) == Child(a, d, n)
    ensures Walk(b, start, path) == Walk(a, start, path)
    decreases |path|
  {
    if path != [] && Child(a, start, path[0]).Some? {
      WalkAbove(a, b, dir, Child(a, start, path[0]).value, path[1..]);
    }
  }

  lemma {:induction false} WalkAppend(nodes: Nodes, start: Id, p: seq<Name>, q: seq<Name>)
    ensures var middle := Walk(nodes, start, p);
      Walk(nodes, start, p + q) == if middle.None? then None else Walk(nodes, middle.value, q)
    decreases |p|
  {
    if p == [] {
      assert p + q == q;
    } else {
      assert (p + q)[0] == p[0] && (p + q)[1..] == p[1..] + q;
      if Child(nodes, start, p[0]).Some? {
        WalkAppend(nodes, Child(nodes, start, p[0]).value, p[1..], q);
      }
    }
  }

  lemma MoveBelow(nodes: Nodes, dir: Id, from: Name, to: Name, name: Name, rest: seq<Name>)
    requires Tree(nodes) && dir < |nodes| && nodes[dir].Dir? && from in nodes[dir].entries
    ensures Walk(Move(nodes, dir, from, to), dir, [name] + rest) ==
      if name == to then Walk(nodes, dir, [from] + rest)
      else if name == from then None
      else Walk(nodes, dir, [name] + rest)
  {
    var moved := Move(nodes, dir, from, to);
    MoveTree(nodes, dir, from, to);
    assert ([name] + rest)[1..] == rest && ([from] + rest)[1..] == rest;
    var source := if name == to then from else name;
    if Child(moved, dir, name).Some? {
      WalkAbove(nodes, moved, dir, Child(nodes, dir, source).value, rest);
    }
  }

  /** A path that never takes a step from `dir` leads where it led. */
  lemma {:induction false} MovePast(nodes: Nodes, dir: Id, from: Name, to: Name, start: Id, path: seq<Name>)
    requires Tree(nodes) && dir < |nodes| && nodes[dir].Dir? && from in nodes[dir].entries
    requires forall i :: 0 <= i < |path| ==> Walk(nodes, start, path[..i]) != Some(dir)
    ensures Walk(Move(nodes, dir, from, to), start, path) == Walk(nodes, start, path)
    decreases |path|
  {
    MoveTree(nodes, dir, from, to);
    if path != [] {
      assert path[..0] == [] && start != dir;
      var next := Child(nodes, start, path[0]);
      if next.Some? {
        forall i | 0 <= i < |path[1..]|
          ensures Walk(nodes, next.value, path[1..][..i]) != Some(dir)
        {
          assert path[..i + 1][1..] == path[1..][..i];
        }
        MovePast(nodes, dir, from, to, next.value, path[1..]);
      }
    }
  }

  /** A rename moves the whole subtree, node for node: from wherever a path comes, below the new
      name it leads where it led below the old one, below the old name nowhere, and below any
      other name where it led. */
  lemma MoveMovesSubtree(nodes: Nodes, dir: Id, from: Name, to: Name, start: Id, way: seq<Name>, name: Name, rest: seq<Name>)
    requires Tree(nodes) && dir < |nodes| && nodes[dir].Dir? && from in nodes[dir].entries
    requires Walk(nodes, start, way) == Some(dir)
    ensures Walk(Move(nodes, dir, from, to), start, way + ([name] + rest)) ==
      if name == to then Walk(nodes, start, way + ([from] + rest))
      else if name == from then None
      else Walk(nodes, start, way + ([name] + rest))
  {
    forall i | 0 <= i < |way|
      ensures Walk(nodes, start, way[..i]) != Some(dir)
    {
      if Walk(nodes, start, way[..i]) == Some(dir) {
        OnePath(nodes, start, way[..i], way);
        assert false;
      }
    }
    MovePast(nodes, dir, from, to, start, way);
    MoveBelow(nodes, dir, from, to, name, rest);
    WalkAppend(Move(nodes, dir, from, to), start, way, [name] + rest);
    WalkAppend(nodes, start, way, [from] + rest);
    WalkAppend(nodes, start, way, [name] + rest);
  }

  // ----- What a rename loses -----

  ghost predicate HasEntry(nodes: Nodes, id: Id) {
    exists d: Id, n: Name :: Child(nodes, d, n) == Some(id)
  }

  /** A rename leaves every node that has an entry with one, exactly if nothing stood in its way. */
  lemma MoveLosesNothing(nodes: Nodes, dir: Id, from: Name, to: Name)
    requires Tree(nodes) && dir < |nodes| && nodes[dir].Dir? && from in nodes[dir].entries
    ensures (forall id: Id :: HasEntry(nodes, id) ==> HasEntry(Move(nodes, dir, from, to), id)) <==>
      from == to || Child(nodes, dir, to).None?
  {
    var moved := Move(nodes, dir, from, to);
    MoveTree(nodes, dir, from, to);
    if from == to || Child(nodes, dir, to).None? {
      forall id: Id | HasEntry(nodes, id)
        ensures HasEntry(moved, id)
      {
        var d: Id, n: Name :| Child(nodes, d, n) == Some(id);
        assert Child(moved, d, if d == dir && n == from then to else n) == Some(id);
      }
    } else {
      var lost := Child(nodes, dir, to).value;
      assert HasEntry(nodes, lost);
      forall d: Id, n: Name
        ensures Child(moved, d, n) != Some(lost)
      {
        assert Child(moved, d, n) == AfterMove(nodes, dir, from, to, d, n);
      }
      assert !HasEntry(moved, lost);
    }
  }

  /** Otherwise the node that stood there is lost with its whole subtree: whatever still leads to
      a node of the subtree starts inside it. */
  lemma {:induction false} ReplacedIsLost(nodes: Nodes, dir: Id, from: Name, to: Name, lost: Id, below: seq<Name>,
    start: Id, path: seq<Name>)
    requires Tree(nodes) && dir < |nodes| && nodes[dir].Dir? && from in nodes[dir].entries
    requires from != to && Child(nodes, dir, to) == Some(lost)
    requires Walk(nodes, lost, below).Some?
    requires Walk(Move(nodes, dir, from, to), start, path) == Walk(nodes, lost, below)
    ensures exists inner: seq<Name> :: Walk(nodes, lost, inner) == Some(start)
    decreases |path|
  {
    var moved := Move(nodes, dir, from, to);
    MoveTree(nodes, dir, from, to);
    if path == [] {
      assert Walk(nodes, lost, below) == Some(start);
    } else {
      WalkLast(moved, start, path);
      var parent, last := Walk(moved, start, path[..|path| - 1]).value, path[|path| - 1];
      ParentInside(nodes, dir, from, to, lost, below, parent, last);
      ReplacedIsLost(nodes, dir, from, to, lost, below[..|below| - 1], start, path[..|path| - 1]);
    }
  }

  /** After the rename, the directory that holds an entry for a node of the lost subtree is in it. */
  lemma ParentInside(nodes: Nodes, dir: Id, from: Name, to: Name, lost: Id, below: seq<Name>, parent: Id, last: Name)
    requires Tree(nodes) && dir < |nodes| && nodes[dir].Dir? && from in nodes[dir].entries
    requires from != to && Child(nodes, dir, to) == Some(lost)
    requires Walk(nodes, lost, below).Some? && Child(Move(nodes, dir, from, to), parent, last) == Walk(nodes, lost, below)
    ensures below != [] && Walk(nodes, lost, below[..|below| - 1]) == Some(parent)
  {
    MoveTree(nodes, dir, from, to);
    assert Child(Move(nodes, dir, from, to), parent, last) == AfterMove(nodes, dir, from, to, parent, last);
    if below != [] {
      WalkLast(nodes, lost, below);
      WalkClimbs(nodes, lost, below[..|below| - 1]);
    }
  }

  /** In particular a directory that is not empty: its entries can no longer be reached from the
      directory that held it, nor from any older one. */
  lemma ReplacedDirectory(nodes: Nodes, dir: Id, from: Name, to: Name, lost: Id, inside: Name, start: Id, path: seq<Name>)
    requires Tree(nodes) && dir < |nodes| && nodes[dir].Dir? && from in nodes[dir].entries
    requires from != to && Child(nodes, dir, to) == Some(lost) && Child(nodes, lost, inside).Some? && start <= dir
    ensures Walk(nodes, dir, [to, inside]) == Child(nodes, lost, inside)
    ensures Walk(Move(nodes, dir, from, to), start, path) != Child(nodes, lost, inside)
  {
    assert [to, inside][1..] == [inside] && [inside][1..] == [];
    assert Walk(nodes, lost, [inside]) == Child(nodes, lost, inside);
    if Walk(Move(nodes, dir, from, to), start, path) == Child(nodes, lost, inside) {
      ReplacedIsLost(nodes, dir, from, to, lost, [inside], start, path);
      var inner: seq<Name> :| Walk(nodes, lost, inner) == Some(start);
      WalkClimbs(nodes, lost, inner);
    }
  }
}
