/** The operations of `MockDir` and `MockFile` (crates/platform-mock/src/fs.rs), as functions on the
    shared state. `open` is two steps, because it releases the directory between looking a name up
    and acting on what it found. */
module MockFs {
  import opened Wrappers
  import Endian
  import opened MockTree

  datatype Error = NotFound | AlreadyExists | NotADirectory | IsADirectory | DirectoryNotEmpty | PermissionDenied

  /** `MockFile`: clones share the cursor. */
  datatype Handle = Handle(node: Id, cursor: nat, readable: bool, writable: bool)

  datatype Options = Options(read: bool, write: bool, append: bool, create: bool, createNew: bool, truncate: bool)

  datatype Fs = Fs(nodes: Nodes, cursors: seq<nat>, handles: seq<Handle>)

  datatype Lookup = Found(id: Id) | Missing(error: Error)

  datatype Reply = Done | Opened(handle: nat) | Delivered(data: Data) | Wrote(count: nat) | Refused(error: Error)

  datatype Outcome = Outcome(fs: Fs, reply: Reply)

  function Refuse(fs: Fs, error: Error): Outcome {
    Outcome(fs, Refused(error))
  }

  predicate IsDir(nodes: Nodes, id: Id) {
    id < |nodes| && nodes[id].Dir?
  }

  /** `child` */
  function LookUp(nodes: Nodes, dir: Id, rel: Name): Lookup {
    if !IsDir(nodes, dir) then Missing(NotADirectory)
    else if rel in nodes[dir].entries then Found(nodes[dir].entries[rel])
    else Missing(NotFound)
  }

  /** A handle with a cursor of its own. */
  function Hand(fs: Fs, nodes: Nodes, id: Id, readable: bool, writable: bool): Outcome {
    Outcome(Fs(nodes, fs.cursors + [0], fs.handles + [Handle(id, |fs.cursors|, readable, writable)]), Opened(|fs.handles|))
  }

  function Truncated(nodes: Nodes, id: Id): Nodes {
    if id < |nodes| && nodes[id].File? then nodes[id := File([])] else nodes
  }

  /** The rest of `open`, acting on a lookup that may be out of date. */
  function FinishOpen(fs: Fs, dir: Id, rel: Name, opts: Options, found: Lookup): Outcome {
    var writable := opts.write || opts.append;
    match found
    case Found(id) =>
      if opts.createNew then Refuse(fs, AlreadyExists)
      else Hand(fs, if opts.truncate then Truncated(fs.nodes, id) else fs.nodes, id, opts.read, writable)
    case Missing(error) =>
      if !(opts.create || opts.createNew) then Refuse(fs, error)
      else if !IsDir(fs.nodes, dir) then Refuse(fs, NotADirectory)
      else Hand(fs, Insert(fs.nodes, dir, rel, File([])), |fs.nodes|, opts.read, writable)
  }

  /** `create_dir` and `symlink` differ in the node they make. */
  function Make(fs: Fs, dir: Id, rel: Name, node: Node): Outcome {
    if !IsDir(fs.nodes, dir) then Refuse(fs, NotADirectory)
    else if rel in fs.nodes[dir].entries then Refuse(fs, AlreadyExists)
    else Outcome(fs.(nodes := Insert(fs.nodes, dir, rel, node)), Done)
  }

  /** Why a node cannot be removed, if it cannot. */
  function Unremovable(nodes: Nodes, id: Id, wantDir: bool): Option<Error> {
    if id >= |nodes| then None
    else
      match nodes[id]
      case Dir(entries) => if !wantDir then Some(IsADirectory) else if entries != map[] then Some(DirectoryNotEmpty) else None
      case _ => if wantDir then Some(NotADirectory) else None
  }

  /** `remove_file` and `remove_dir` */
  function Remove(fs: Fs, dir: Id, rel: Name, wantDir: bool): Outcome {
    match LookUp(fs.nodes, dir, rel)
    case Missing(error) => Refuse(fs, error)
    case Found(id) =>
      match Unremovable(fs.nodes, id, wantDir)
      case Some(error) => Refuse(fs, error)
      case None => Outcome(fs.(nodes := Drop(fs.nodes, dir, rel)), Done)
  }

  /** `rename` and `rename_no_replace` */
  function Rename(fs: Fs, dir: Id, from: Name, to: Name, replace: bool): Outcome {
    if !IsDir(fs.nodes, dir) then Refuse(fs, NotADirectory)
    else if from !in fs.nodes[dir].entries then Refuse(fs, NotFound)
    else if !replace && to in fs.nodes[dir].entries then Refuse(fs, AlreadyExists)
    else Outcome(fs.(nodes := Move(fs.nodes, dir, from, to)), Done)
  }

  /** Whatever is in use: handles name real nodes and cursors, and sharing a cursor means sharing
      the file. */
  predicate ValidHandles(fs: Fs) {
    && (forall h :: 0 <= h < |fs.handles| ==> fs.handles[h].node < |fs.nodes| && fs.handles[h].cursor < |fs.cursors|)
    && (forall h, k :: 0 <= h < |fs.handles| && 0 <= k < |fs.handles| && fs.handles[h].cursor == fs.handles[k].cursor ==>
          fs.handles[h].node == fs.handles[k].node)
  }

  /** What a read of up to `size` bytes finds at a position, which may be past the end. */
  function Slice(data: Data, pos: nat, size: nat): (r: Data)
    ensures |r| <= size
  {
    var start := Min(pos, |data|);
    data[start..start + Min(|data| - start, size)]
  }

  /** The bytes from the position on: all that fit, and less only where the data end. */
  predicate Delivers(data: Data, pos: nat, size: nat, bytes: Data) {
    && |bytes| <= size && (|bytes| < size ==> |data| <= pos + |bytes|)
    && (bytes != [] ==> pos + |bytes| <= |data| && bytes == data[pos..pos + |bytes|])
  }

  function Read(fs: Fs, h: nat, size: nat): Outcome
    requires ValidHandles(fs) && h < |fs.handles|
  {
    var handle := fs.handles[h];
    if !handle.readable then Refuse(fs, PermissionDenied)
    else if !fs.nodes[handle.node].File? then Refuse(fs, IsADirectory)
    else
      var pos := fs.cursors[handle.cursor];
      var bytes := Slice(fs.nodes[handle.node].data, pos, size);
      Outcome(fs.(cursors := fs.cursors[handle.cursor := pos + |bytes|]), Delivered(bytes))
  }

  /** A write appends, wherever the cursor stands. */
  function Write(fs: Fs, h: nat, bytes: Data): Outcome
    requires ValidHandles(fs) && h < |fs.handles|
  {
    var handle := fs.handles[h];
    if !handle.writable then Refuse(fs, PermissionDenied)
    else if !fs.nodes[handle.node].File? then Refuse(fs, IsADirectory)
    else Outcome(fs.(nodes := fs.nodes[handle.node := File(fs.nodes[handle.node].data + bytes)]), Wrote(|bytes|))
  }

  function TryClone(fs: Fs, h: nat): Outcome
    requires h < |fs.handles|
  {
    Outcome(fs.(handles := fs.handles + [fs.handles[h]]), Opened(|fs.handles|))
  }

  function Contents(nodes: Nodes, id: Id): Data {
    if id < |nodes| && nodes[id].File? then nodes[id].data else []
  }

  // ----- What the operations keep and change -----

  lemma PlainTree(nodes: Nodes, node: Node)
    requires Tree(nodes) && (node.Dir? ==> node.entries == map[])
    ensures Tree(nodes + [node])
  {
    var after := nodes + [node];
    forall d: Id, n: Name
      ensures Child(after, d, n) == Child(nodes, d, n)
    {
    }
    SameEntriesTree(nodes, after);
  }

  lemma DataTree(nodes: Nodes, id: Id, data: Data)
    requires Tree(nodes) && id < |nodes| && nodes[id].File?
    ensures Tree(nodes[id := File(data)]) && forall d: Id, n: Name :: Child(nodes[id := File(data)], d, n) == Child(nodes, d, n)
  {
    var after := nodes[id := File(data)];
    forall d: Id, n: Name
      ensures Child(after, d, n) == Child(nodes, d, n)
    {
    }
    SameEntriesTree(nodes, after);
  }

  lemma OpenTree(fs: Fs, dir: Id, rel: Name, opts: Options, found: Lookup)
    requires Tree(fs.nodes)
    ensures Tree(FinishOpen(fs, dir, rel, opts, found).fs.nodes)
  {
    match found
    case Found(id) =>
      if id < |fs.nodes| && fs.nodes[id].File? {
        DataTree(fs.nodes, id, []);
      }
    case Missing(_) =>
      if IsDir(fs.nodes, dir) {
        InsertTree(fs.nodes, dir, rel, File([]));
      }
  }

  /** A rename fails exactly on a missing source or, if it must not replace, a taken target. If it
      succeeds, only the two names change, all nodes keep their identity and contents, and a
      rename to the same name changes nothing. */
  lemma RenameExact(fs: Fs, dir: Id, from: Name, to: Name, replace: bool)
    requires Tree(fs.nodes) && IsDir(fs.nodes, dir)
    ensures var r := Rename(fs, dir, from, to, replace);
      r.reply == Done <==> Child(fs.nodes, dir, from).Some? && (replace || Child(fs.nodes, dir, to).None?)
    ensures var r := Rename(fs, dir, from, to, replace);
      r.reply == Done ==> forall d: Id, n: Name :: Child(r.fs.nodes, d, n) == AfterMove(fs.nodes, dir, from, to, d, n)
    ensures var r := Rename(fs, dir, from, to, replace);
      |r.fs.nodes| == |fs.nodes| && forall i :: 0 <= i < |fs.nodes| && i != dir ==> r.fs.nodes[i] == fs.nodes[i]
    ensures from == to ==> Rename(fs, dir, from, to, replace).fs == fs
  {
    if Rename(fs, dir, from, to, replace).reply == Done {
      MoveTree(fs.nodes, dir, from, to);
      if from == to {
        var entries := fs.nodes[dir].entries;
        assert (entries - {from})[to := entries[from]] == entries;
      }
    }
  }

  /** A removal succeeds exactly on a leaf of the wanted kind, and takes away only its name: the
      node stays as it is for those who have it open. */
  lemma RemoveExact(fs: Fs, dir: Id, rel: Name, wantDir: bool)
    requires Tree(fs.nodes) && IsDir(fs.nodes, dir)
    ensures var r, id := Remove(fs, dir, rel, wantDir), Child(fs.nodes, dir, rel);
      r.reply == Done <==> id.Some? && fs.nodes[id.value].Dir? == wantDir && forall n: Name :: Child(fs.nodes, id.value, n).None?
    ensures var r := Remove(fs, dir, rel, wantDir);
      r.reply == Done ==> forall d: Id, n: Name :: Child(r.fs.nodes, d, n) == AfterDrop(fs.nodes, dir, rel, d, n)
    ensures var r := Remove(fs, dir, rel, wantDir);
      |r.fs.nodes| == |fs.nodes| && forall i :: 0 <= i < |fs.nodes| && i != dir ==> r.fs.nodes[i] == fs.nodes[i]
  {
    var id := Child(fs.nodes, dir, rel);
    DropTree(fs.nodes, dir, rel);
    if id.Some? && fs.nodes[id.value].Dir? && fs.nodes[id.value].entries != map[] {
      var n :| n in fs.nodes[id.value].entries;
      assert Child(fs.nodes, id.value, n).Some?;
    }
  }

  // ----- The operations, updating in place -----

  /** All names but those that an insertion changes denote what they did. */
  ghost predicate Inserted(a: Nodes, b: Nodes, dir: Id, rel: Name) {
    |b| == |a| + 1 && forall d: Id, n: Name :: Child(b, d, n) == AfterInsert(a, dir, rel, d, n)
  }

  ghost predicate SameNames(a: Nodes, b: Nodes) {
    |b| == |a| && forall d: Id, n: Name :: Child(b, d, n) == Child(a, d, n)
  }

  /** The nodes that exist, except `x` and `y`, are as they were. */
  predicate SameExcept(a: Nodes, b: Nodes, x: Id, y: Id) {
    |a| <= |b| && forall i :: 0 <= i < |a| && i != x && i != y ==> b[i] == a[i]
  }

  lemma OpenExisting(nodes: Nodes, id: Id, truncate: bool)
    requires Tree(nodes) && id < |nodes|
    ensures var after := if truncate then Truncated(nodes, id) else nodes;
      && Tree(after) && SameNames(nodes, after) && SameExcept(nodes, after, id, id)
      && Contents(after, id) == if truncate then [] else Contents(nodes, id)
  {
    if nodes[id].File? {
      DataTree(nodes, id, []);
    }
  }

  lemma WithHandle(fs: Fs, nodes: Nodes, id: Id, readable: bool, writable: bool)
    requires ValidHandles(fs) && |fs.nodes| <= |nodes| && id < |nodes|
    ensures ValidHandles(Hand(fs, nodes, id, readable, writable).fs)
  {
  }

  class Store {
    var nodes: Nodes
    var cursors: seq<nat>
    var handles: seq<Handle>

    function State(): Fs
      reads this
    {
      Fs(nodes, cursors, handles)
    }

    ghost predicate Valid()
      reads this
    {
      Tree(nodes) && ValidHandles(State())
    }

    constructor ()
      ensures Valid() && State() == Fs([], [], [])
    {
      nodes, cursors, handles := [], [], [];
    }

    /** `child` */
    method LookUpChild(dir: Id, rel: Name) returns (found: Lookup)
      requires Valid()
      ensures found == LookUp(nodes, dir, rel)
      ensures found.Found? ==> Child(nodes, dir, rel) == Some(found.id) && dir < found.id < |nodes|
      ensures found.Missing? ==> Child(nodes, dir, rel).None?
    {
      if !IsDir(nodes, dir) {
        return Missing(NotADirectory);
      }
      found := if rel in nodes[dir].entries then Found(nodes[dir].entries[rel]) else Missing(NotFound);
      assert found.Found? ==> Child(nodes, dir, rel).Some?;
    }

    /** `open`, without a step of another thread in between: the handle is on what the name denotes
        afterwards, with a cursor of its own at the start. */
    method OpenFile(dir: Id, rel: Name, opts: Options) returns (reply: Reply)
      requires Valid()
      modifies this
      ensures Valid() && Outcome(State(), reply) == FinishOpen(old(State()), dir, rel, opts, LookUp(old(nodes), dir, rel))
      ensures Child(old(nodes), dir, rel).Some? ==> (reply == Refused(AlreadyExists) <==> opts.createNew)
      ensures !IsDir(old(nodes), dir) ==> reply == Refused(NotADirectory)
      ensures IsDir(old(nodes), dir) && Child(old(nodes), dir, rel).None? ==>
        (reply == Refused(NotFound) <==> !(opts.create || opts.createNew))
      ensures Child(old(nodes), dir, rel).Some? ==> (reply.Refused? <==> opts.createNew)
      ensures Child(old(nodes), dir, rel).None? ==> (reply.Refused? <==> !IsDir(old(nodes), dir) || !(opts.create || opts.createNew))
      ensures reply.Refused? ==> State() == old(State())
      ensures !reply.Refused? ==> reply == Opened(|old(handles)|) && |handles| == |old(handles)| + 1
      ensures !reply.Refused? ==> handles[..|old(handles)|] == old(handles)
      ensures !reply.Refused? ==> Child(nodes, dir, rel) == Some(handles[|old(handles)|].node)
      ensures !reply.Refused? ==> cursors == old(cursors) + [0] && handles[|old(handles)|].cursor == |old(cursors)|
      ensures !reply.Refused? ==> handles[|old(handles)|].readable == opts.read
      ensures !reply.Refused? ==> handles[|old(handles)|].writable == (opts.write || opts.append)
      ensures !reply.Refused? && Child(old(nodes), dir, rel).Some? ==> SameNames(old(nodes), nodes)
      ensures !reply.Refused? && Child(old(nodes), dir, rel).None? ==> Inserted(old(nodes), nodes, dir, rel)
      ensures !reply.Refused? ==> SameExcept(old(nodes), nodes, dir, handles[|old(handles)|].node)
      ensures !reply.Refused? ==>
        Contents(nodes, handles[|old(handles)|].node) == if opts.truncate then [] else Contents(old(nodes), handles[|old(handles)|].node)
    {
      var found := LookUpChild(dir, rel);
      var id: Id;
      if found.Found? {
        id := found.id;
        if opts.createNew {
          return Refused(AlreadyExists);
        }
        UseFile(id, opts.truncate);
      } else if opts.create || opts.createNew {
        if !IsDir(nodes, dir) {
          return Refused(NotADirectory);
        }
        id := CreateFile(dir, rel);
      } else {
        return Refused(found.error);
      }
      reply := AddHandle(id, opts.read, opts.write || opts.append);
    }

    /** The file that is there, emptied if asked to. */
    method UseFile(id: Id, truncate: bool)
      requires Valid() && id < |nodes|
      modifies this`nodes
      ensures Valid() && nodes == if truncate then Truncated(old(nodes), id) else old(nodes)
      ensures SameNames(old(nodes), nodes) && SameExcept(old(nodes), nodes, id, id)
      ensures Contents(nodes, id) == if truncate then [] else Contents(old(nodes), id)
    {
      OpenExisting(nodes, id, truncate);
      if truncate && nodes[id].File? {
        nodes := nodes[id := File([])];
      }
    }

    /** A new, empty file under the name. */
    method CreateFile(dir: Id, rel: Name) returns (id: Id)
      requires Valid() && IsDir(nodes, dir)
      modifies this`nodes
      ensures Valid() && id == |old(nodes)| && nodes == Insert(old(nodes), dir, rel, File([]))
      ensures Inserted(old(nodes), nodes, dir, rel) && SameExcept(old(nodes), nodes, dir, dir) && Contents(nodes, id) == []
    {
      InsertTree(nodes, dir, rel, File([]));
      id := |nodes|;
      nodes := nodes[dir := Dir(nodes[dir].entries[rel := id])] + [File([])];
    }

    /** A handle with a cursor of its own. */
    method AddHandle(id: Id, readable: bool, writable: bool) returns (reply: Reply)
      requires Valid() && id < |nodes|
      modifies this`handles, this`cursors
      ensures Valid() && Outcome(State(), reply) == Hand(old(State()), nodes, id, readable, writable)
      ensures reply == Opened(|old(handles)|) && handles == old(handles) + [Handle(id, |old(cursors)|, readable, writable)]
      ensures cursors == old(cursors) + [0]
    {
      WithHandle(State(), nodes, id, readable, writable);
      handles := handles + [Handle(id, |cursors|, readable, writable)];
      cursors := cursors + [0];
      reply := Opened(|handles| - 1);
    }

    /** `create_dir` and `symlink`: one new name for one new node, where there was none. */
    method MakeNode(dir: Id, rel: Name, node: Node) returns (reply: Reply)
      requires Valid() && (node.Dir? ==> node.entries == map[])
      modifies this
      ensures Valid() && Outcome(State(), reply) == Make(old(State()), dir, rel, node)
      ensures reply == Done <==> IsDir(old(nodes), dir) && Child(old(nodes), dir, rel).None?
      ensures reply == Refused(AlreadyExists) <==> Child(old(nodes), dir, rel).Some?
      ensures reply == Refused(NotADirectory) <==> !IsDir(old(nodes), dir)
      ensures reply != Done ==> reply.Refused? && State() == old(State())
      ensures reply == Done ==> Inserted(old(nodes), nodes, dir, rel) && nodes[|old(nodes)|] == node
      ensures reply == Done ==> SameExcept(old(nodes), nodes, dir, dir) && cursors == old(cursors) && handles == old(handles)
    {
      if !IsDir(nodes, dir) {
        return Refused(NotADirectory);
      }
      if rel in nodes[dir].entries {
        return Refused(AlreadyExists);
      }
      InsertTree(nodes, dir, rel, node);
      nodes := nodes[dir := Dir(nodes[dir].entries[rel := |nodes|])] + [node];
      reply := Done;
    }

    /** `remove`: takes a name away from a node of the wanted kind that has no entries, and leaves
        the node to those who have it open. */
    method RemoveNode(dir: Id, rel: Name, wantDir: bool) returns (reply: Reply)
      requires Valid()
      modifies this
      ensures Valid() && Outcome(State(), reply) == Remove(old(State()), dir, rel, wantDir)
      ensures reply == Done <==> var id := Child(old(nodes), dir, rel);
        id.Some? && old(nodes)[id.value].Dir? == wantDir && forall n: Name :: Child(old(nodes), id.value, n).None?
      ensures reply == Refused(NotFound) <==> IsDir(old(nodes), dir) && Child(old(nodes), dir, rel).None?
      ensures var id := Child(old(nodes), dir, rel);
        reply == Refused(IsADirectory) <==> id.Some? && old(nodes)[id.value].Dir? && !wantDir
      ensures var id := Child(old(nodes), dir, rel);
        reply == Refused(NotADirectory) <==> !IsDir(old(nodes), dir) || (id.Some? && !old(nodes)[id.value].Dir? && wantDir)
      ensures reply != Done ==> reply.Refused? && State() == old(State())
      ensures reply == Done ==> forall d: Id, n: Name :: Child(nodes, d, n) == AfterDrop(old(nodes), dir, rel, d, n)
      ensures reply == Done ==> |nodes| == |old(nodes)| && SameExcept(old(nodes), nodes, dir, dir)
      ensures cursors == old(cursors) && handles == old(handles)
    {
      var found := LookUpChild(dir, rel);
      if found.Missing? {
        return Refused(found.error);
      }
      RemoveExact(State(), dir, rel, wantDir);
      match nodes[found.id] {
        case Dir(entries) =>
          if !wantDir {
            return Refused(IsADirectory);
          }
          if entries != map[] {
            return Refused(DirectoryNotEmpty);
          }
        case _ =>
          if wantDir {
            return Refused(NotADirectory);
          }
      }
      DropTree(nodes, dir, rel);
      nodes := nodes[dir := Dir(nodes[dir].entries - {rel})];
      reply := Done;
    }

    /** `rename_impl`: the node goes from one name to the other; all else keeps its name. */
    method RenameEntry(dir: Id, from: Name, to: Name, replace: bool) returns (reply: Reply)
      requires Valid()
      modifies this
      ensures Valid() && Outcome(State(), reply) == Rename(old(State()), dir, from, to, replace)
      ensures reply == Done <==> Child(old(nodes), dir, from).Some? && (replace || Child(old(nodes), dir, to).None?)
      ensures reply == Refused(NotADirectory) <==> !IsDir(old(nodes), dir)
      ensures reply == Refused(NotFound) <==> IsDir(old(nodes), dir) && Child(old(nodes), dir, from).None?
      ensures reply != Done ==> reply.Refused? && State() == old(State())
      ensures reply == Done ==> forall d: Id, n: Name :: Child(nodes, d, n) == AfterMove(old(nodes), dir, from, to, d, n)
      ensures reply == Done ==> |nodes| == |old(nodes)| && SameExcept(old(nodes), nodes, dir, dir)
      ensures cursors == old(cursors) && handles == old(handles)
    {
      if !IsDir(nodes, dir) {
        return Refused(NotADirectory);
      }
      var entries := nodes[dir].entries;
      if from !in entries {
        return Refused(NotFound);
      }
      if !replace && to in entries {
        return Refused(AlreadyExists);
      }
      MoveTree(nodes, dir, from, to);
      var node := entries[from];
      entries := entries - {from};
      entries := entries[to := node];
      nodes := nodes[dir := Dir(entries)];
      reply := Done;
    }

    /** `read`: fills the front of the caller's buffer. */
    method ReadInto(h: nat, buf: array<Endian.Octet>) returns (reply: Reply)
      requires Valid() && h < |handles|
      modifies this, buf
      ensures Valid() && Outcome(State(), reply) == Read(old(State()), h, buf.Length)
      ensures nodes == old(nodes) && handles == old(handles)
      ensures reply.Delivered? <==> handles[h].readable && nodes[handles[h].node].File?
      ensures reply == Refused(PermissionDenied) <==> !handles[h].readable
      ensures reply.Delivered? || reply == Refused(PermissionDenied) || reply == Refused(IsADirectory)
      ensures var c := handles[h].cursor;
        reply.Delivered? ==> Delivers(Contents(nodes, handles[h].node), old(cursors)[c], buf.Length, reply.data)
      ensures var c := handles[h].cursor;
        reply.Delivered? ==> cursors == old(cursors)[c := old(cursors)[c] + |reply.data|]
      ensures reply.Delivered? ==> |reply.data| <= buf.Length && buf[..] == reply.data + old(buf[..])[|reply.data|..]
      ensures reply.Refused? ==> buf[..] == old(buf[..]) && cursors == old(cursors)
    {
      var handle := handles[h];
      if !handle.readable {
        return Refused(PermissionDenied);
      }
      if !nodes[handle.node].File? {
        return Refused(IsADirectory);
      }
      var data := nodes[handle.node].data;
      var pos := cursors[handle.cursor];
      var remaining := data[Min(pos, |data|)..];
      var count := Min(|remaining|, buf.Length);
      forall i | 0 <= i < count {
        buf[i] := remaining[i];
      }
      cursors := cursors[handle.cursor := pos + count];
      assert remaining[..count] == Slice(data, pos, buf.Length);
      reply := Delivered(remaining[..count]);
    }

    /** `write`: the bytes go to the end of the file, and nothing else changes: no name, no other
        file and no cursor. */
    method AppendBytes(h: nat, bytes: Data) returns (reply: Reply)
      requires Valid() && h < |handles|
      modifies this
      ensures Valid() && Outcome(State(), reply) == Write(old(State()), h, bytes)
      ensures reply == Wrote(|bytes|) <==> handles[h].writable && old(nodes)[handles[h].node].File?
      ensures reply == Refused(PermissionDenied) <==> !handles[h].writable
      ensures !reply.Wrote? ==> (reply == Refused(PermissionDenied) || reply == Refused(IsADirectory)) && nodes == old(nodes)
      ensures reply.Wrote? ==> Contents(nodes, handles[h].node) == Contents(old(nodes), handles[h].node) + bytes
      ensures SameNames(old(nodes), nodes) && SameExcept(old(nodes), nodes, handles[h].node, handles[h].node)
      ensures cursors == old(cursors) && handles == old(handles)
    {
      var handle := handles[h];
      if !handle.writable {
        return Refused(PermissionDenied);
      }
      if !nodes[handle.node].File? {
        return Refused(IsADirectory);
      }
      DataTree(nodes, handle.node, nodes[handle.node].data + bytes);
      nodes := nodes[handle.node := File(nodes[handle.node].data + bytes)];
      reply := Wrote(|bytes|);
    }

    /** `try_clone`: whatever is then done through the clone has the effect it would have through
        the original. */
    method CloneHandle(h: nat) returns (reply: Reply)
      requires Valid() && h < |handles|
      modifies this
      ensures Valid() && reply == Opened(|old(handles)|) && |handles| == |old(handles)| + 1 && handles[..|old(handles)|] == old(handles)
      ensures Outcome(State(), reply) == TryClone(old(State()), h)
      ensures forall size: nat :: Read(State(), |old(handles)|, size) == Read(State(), h, size)
      ensures forall bytes: Data :: Write(State(), |old(handles)|, bytes) == Write(State(), h, bytes)
    {
      handles := handles + [handles[h]];
      reply := Opened(|handles| - 1);
    }
  }
}
