/** Whole runs of the in-memory file system: any number of threads, directories and handles. */
module MockRuns {
  import opened Wrappers
  import opened MockTree
  import opened MockFs

  /** An `open` between its lookup and the rest of it. */
  datatype Pending = Pending(dir: Id, rel: Name, opts: Options, found: Lookup)

  datatype Op =
    | NewRoot
    | WithFile(dir: Id, rel: Name, data: Data)
    | BeginOpen(thread: nat, dir: Id, rel: Name, opts: Options)
    | EndOpen(thread: nat)
    | CreateDir(dir: Id, rel: Name)
    | CreateSymlink(dir: Id, target: Name, link: Name)
    | RemoveEntry(dir: Id, rel: Name, wantDir: bool)
    | RenameEntry(dir: Id, from: Name, to: Name, replace: bool)
    | CreateMemfd
    | ReadFrom(handle: nat, size: nat)
    | WriteTo(handle: nat, bytes: Data)
    | CloneOf(handle: nat)

  /** The state, the opens under way, and what the run has done so far: per cursor everything
      delivered through it, and the files that lost bytes to a truncation. */
  datatype Run = Run(fs: Fs, pending: map<nat, Pending>, log: seq<Data>, wiped: set<Id>)

  const START := Run(Fs([], [], []), map[], [], {})

  predicate Enabled(run: Run, op: Op) {
    match op
    case WithFile(dir, _, _) => IsDir(run.fs.nodes, dir)
    case EndOpen(thread) => thread in run.pending
    case ReadFrom(h, _) => h < |run.fs.handles|
    case WriteTo(h, _) => h < |run.fs.handles|
    case CloneOf(h) => h < |run.fs.handles|
    case _ => true
  }

  function Effect(run: Run, op: Op): Outcome
    requires ValidHandles(run.fs) && Enabled(run, op)
  {
    var fs := run.fs;
    match op
    case NewRoot => Outcome(fs.(nodes := fs.nodes + [Dir(map[])]), Done)
    case WithFile(dir, rel, data) => Outcome(fs.(nodes := Insert(fs.nodes, dir, rel, File(data))), Done)
    case BeginOpen(_, _, _, _) => Outcome(fs, Done)
    case EndOpen(thread) => var p := run.pending[thread]; FinishOpen(fs, p.dir, p.rel, p.opts, p.found)
    case CreateDir(dir, rel) => Make(fs, dir, rel, Dir(map[]))
    case CreateSymlink(dir, target, link) => Make(fs, dir, link, Symlink(target))
    case RemoveEntry(dir, rel, wantDir) => Remove(fs, dir, rel, wantDir)
    case RenameEntry(dir, from, to, replace) => Rename(fs, dir, from, to, replace)
    case CreateMemfd => Hand(fs, fs.nodes + [File([])], |fs.nodes|, true, true)
    case ReadFrom(h, size) => Read(fs, h, size)
    case WriteTo(h, bytes) => Write(fs, h, bytes)
    case CloneOf(h) => TryClone(fs, h)
  }

  function NextPending(run: Run, op: Op): map<nat, Pending> {
    match op
    case BeginOpen(thread, dir, rel, opts) => run.pending[thread := Pending(dir, rel, opts, LookUp(run.fs.nodes, dir, rel))]
    case EndOpen(thread) => run.pending - {thread}
    case _ => run.pending
  }

  function NextLog(run: Run, op: Op, after: Outcome): seq<Data> {
    if |after.fs.cursors| > |run.log| then run.log + [[]]
    else if after.reply.Delivered? && op.ReadFrom? && op.handle < |run.fs.handles| && run.fs.handles[op.handle].cursor < |run.log| then
      var c := run.fs.handles[op.handle].cursor;
      run.log[c := run.log[c] + after.reply.data]
    else run.log
  }

  /** The file that loses bytes in this step. */
  function Wiped(run: Run, op: Op): set<Id> {
    if op.EndOpen? && op.thread in run.pending then
      var p := run.pending[op.thread];
      if p.found.Found? && !p.opts.createNew && p.opts.truncate && Contents(run.fs.nodes, p.found.id) != [] then {p.found.id} else {}
    else {}
  }

  function Step(run: Run, op: Op): Run
    requires ValidHandles(run.fs) && Enabled(run, op)
  {
    var after := Effect(run, op);
    Run(after.fs, NextPending(run, op), NextLog(run, op, after), run.wiped + Wiped(run, op))
  }

  // ----- The invariant -----

  /** All that was delivered through a handle's cursor is the front of its file, up to the cursor. */
  predicate LogMatches(run: Run, h: nat)
    requires ValidHandles(run.fs) && h < |run.fs.handles| && |run.log| == |run.fs.cursors|
  {
    var handle := run.fs.handles[h];
    var data, pos := Contents(run.fs.nodes, handle.node), run.fs.cursors[handle.cursor];
    pos <= |data| && run.log[handle.cursor] == data[..pos]
  }

  ghost predicate Inv(run: Run) {
    && Tree(run.fs.nodes)
    && ValidHandles(run.fs)
    && |run.log| == |run.fs.cursors|
    && (forall t :: t in run.pending && run.pending[t].found.Found? ==> run.pending[t].found.id < |run.fs.nodes|)
    && (forall h :: 0 <= h < |run.fs.handles| && run.fs.handles[h].node !in run.wiped ==> LogMatches(run, h))
  }

  /** What a step may do to nodes that exist: never change a node's kind or a link's target, and
      only add to the contents of a file, unless it is wiped. */
  predicate Grows(a: Nodes, b: Nodes, wiped: set<Id>) {
    |a| <= |b| && forall i :: 0 <= i < |a| ==> Keeps(a[i], b[i], i in wiped)
  }

  predicate Keeps(a: Node, b: Node, wiped: bool) {
    match a
    case File(data) => b.File? && (wiped || data <= b.data)
    case Dir(_) => b.Dir?
    case Symlink(_) => b == a
  }

  lemma StepTree(run: Run, op: Op)
    requires Inv(run) && Enabled(run, op)
    ensures Tree(Effect(run, op).fs.nodes)
  {
    var nodes := run.fs.nodes;
    match op
    case NewRoot => PlainTree(nodes, Dir(map[]));
    case CreateMemfd => PlainTree(nodes, File([]));
    case WithFile(dir, rel, data) => InsertTree(nodes, dir, rel, File(data));
    case EndOpen(thread) =>
      var p := run.pending[thread];
      OpenTree(run.fs, p.dir, p.rel, p.opts, p.found);
    case CreateDir(dir, rel) =>
      if IsDir(nodes, dir) {
        InsertTree(nodes, dir, rel, Dir(map[]));
      }
    case CreateSymlink(dir, target, link) =>
      if IsDir(nodes, dir) {
        InsertTree(nodes, dir, link, Symlink(target));
      }
    case RemoveEntry(dir, rel, _) =>
      if IsDir(nodes, dir) {
        DropTree(nodes, dir, rel);
      }
    case RenameEntry(dir, from, to, _) =>
      if IsDir(nodes, dir) && from in nodes[dir].entries {
        MoveTree(nodes, dir, from, to);
      }
    case WriteTo(h, bytes) =>
      var id := run.fs.handles[h].node;
      if nodes[id].File? {
        DataTree(nodes, id, nodes[id].data + bytes);
      }
    case _ =>
  }

  lemma StepGrows(run: Run, op: Op)
    requires Inv(run) && Enabled(run, op)
    ensures Grows(run.fs.nodes, Effect(run, op).fs.nodes, Wiped(run, op))
  {
  }

  lemma SameHandles(fs: Fs, after: Fs)
    requires ValidHandles(fs) && after.handles == fs.handles && |after.cursors| == |fs.cursors| && |fs.nodes| <= |after.nodes|
    ensures ValidHandles(after)
  {
  }

  lemma OpenHandles(fs: Fs, p: Pending)
    requires ValidHandles(fs) && (p.found.Found? ==> p.found.id < |fs.nodes|)
    ensures var after := FinishOpen(fs, p.dir, p.rel, p.opts, p.found);
      ValidHandles(after.fs) && |after.fs.cursors| == |fs.cursors| + (if after.reply.Opened? then 1 else 0)
  {
    var after := FinishOpen(fs, p.dir, p.rel, p.opts, p.found);
    if after.reply.Opened? {
      var id := if p.found.Found? then p.found.id else |fs.nodes|;
      WithHandle(fs, after.fs.nodes, id, p.opts.read, p.opts.write || p.opts.append);
    }
  }

  predicate AddsHandle(op: Op) {
    op.EndOpen? || op.CreateMemfd? || op.CloneOf?
  }

  lemma OtherHandles(run: Run, op: Op)
    requires Inv(run) && Enabled(run, op) && !AddsHandle(op)
    ensures var after := Effect(run, op).fs;
      after.handles == run.fs.handles && |after.cursors| == |run.fs.cursors| && |run.fs.nodes| <= |after.nodes|
  {
  }

  lemma NewHandles(run: Run, op: Op)
    requires Inv(run) && Enabled(run, op) && AddsHandle(op)
    ensures var after := Effect(run, op).fs;
      ValidHandles(after) && |run.fs.cursors| <= |after.cursors| <= |run.fs.cursors| + 1
  {
    match op
    case EndOpen(thread) => OpenHandles(run.fs, run.pending[thread]);
    case CreateMemfd => WithHandle(run.fs, run.fs.nodes + [File([])], |run.fs.nodes|, true, true);
    case CloneOf(_) =>
  }

  lemma LogLength(run: Run, op: Op, after: Outcome)
    requires |run.log| == |run.fs.cursors| <= |after.fs.cursors| <= |run.fs.cursors| + 1
    ensures |NextLog(run, op, after)| == |after.fs.cursors|
  {
  }

  lemma StepHandles(run: Run, op: Op)
    requires Inv(run) && Enabled(run, op)
    ensures ValidHandles(Step(run, op).fs) && |Step(run, op).log| == |Step(run, op).fs.cursors|
  {
    var after := Effect(run, op);
    if AddsHandle(op) {
      NewHandles(run, op);
    } else {
      OtherHandles(run, op);
      SameHandles(run.fs, after.fs);
    }
    LogLength(run, op, after);
  }

  /** A read continues exactly where the deliveries through the same cursor stopped. */
  lemma ReadContinues(log: Data, data: Data, pos: nat, size: nat)
    requires pos <= |data| && log == data[..pos]
    ensures var bytes := Slice(data, pos, size);
      pos + |bytes| <= |data| && log + bytes == data[..pos + |bytes|]
  {
  }

  lemma ReadLogs(run: Run, op: Op, h: nat)
    requires Inv(run) && op.ReadFrom? && Enabled(run, op) && h < |run.fs.handles| && run.fs.handles[h].node !in run.wiped
    requires ValidHandles(Step(run, op).fs) && |Step(run, op).log| == |Step(run, op).fs.cursors|
    ensures LogMatches(Step(run, op), h)
  {
    var handle, reader := run.fs.handles[h], run.fs.handles[op.handle];
    assert LogMatches(run, h);
    if handle.cursor == reader.cursor && Effect(run, op).reply.Delivered? {
      ReadContinues(run.log[handle.cursor], Contents(run.fs.nodes, handle.node), run.fs.cursors[handle.cursor], op.size);
    }
  }

  /** Without a read, handles, cursors and the log up to here stay. */
  lemma KeptCursors(run: Run, op: Op, h: nat)
    requires Inv(run) && !op.ReadFrom? && Enabled(run, op) && h < |run.fs.handles|
    ensures var after := Step(run, op);
      && h < |after.fs.handles| && after.fs.handles[h] == run.fs.handles[h]
      && |run.fs.cursors| <= |after.fs.cursors| && |run.log| <= |after.log|
      && after.fs.cursors[run.fs.handles[h].cursor] == run.fs.cursors[run.fs.handles[h].cursor]
      && after.log[run.fs.handles[h].cursor] == run.log[run.fs.handles[h].cursor]
  {
  }

  lemma KeptContents(run: Run, op: Op, id: Id)
    requires Inv(run) && Enabled(run, op) && id < |run.fs.nodes| && id !in Wiped(run, op)
    ensures Contents(run.fs.nodes, id) <= Contents(Effect(run, op).fs.nodes, id)
  {
    StepGrows(run, op);
    assert Keeps(run.fs.nodes[id], Effect(run, op).fs.nodes[id], false);
  }

  lemma KeptLogs(run: Run, op: Op, h: nat)
    requires Inv(run) && !op.ReadFrom? && Enabled(run, op) && h < |run.fs.handles|
    requires run.fs.handles[h].node !in Step(run, op).wiped
    requires ValidHandles(Step(run, op).fs) && |Step(run, op).log| == |Step(run, op).fs.cursors|
    ensures h < |Step(run, op).fs.handles| && LogMatches(Step(run, op), h)
  {
    assert LogMatches(run, h);
    KeptCursors(run, op, h);
    KeptContents(run, op, run.fs.handles[h].node);
  }

  lemma StepLogs(run: Run, op: Op, h: nat)
    requires Inv(run) && Enabled(run, op)
    requires ValidHandles(Step(run, op).fs) && |Step(run, op).log| == |Step(run, op).fs.cursors|
    requires h < |Step(run, op).fs.handles| && Step(run, op).fs.handles[h].node !in Step(run, op).wiped
    ensures LogMatches(Step(run, op), h)
  {
    if h < |run.fs.handles| {
      if op.ReadFrom? {
        ReadLogs(run, op, h);
      } else {
        KeptLogs(run, op, h);
      }
    } else if op.CloneOf? {
      KeptLogs(run, op, op.handle);
    }
  }

  lemma StepInv(run: Run, op: Op)
    requires Inv(run) && Enabled(run, op)
    ensures Inv(Step(run, op))
  {
    StepTree(run, op);
    StepGrows(run, op);
    StepHandles(run, op);
    var after := Step(run, op);
    forall h | 0 <= h < |after.fs.handles| && after.fs.handles[h].node !in after.wiped
      ensures LogMatches(after, h)
    {
      StepLogs(run, op, h);
    }
    StepPending(run, op);
  }

  lemma StepPending(run: Run, op: Op)
    requires Inv(run) && Enabled(run, op)
    ensures var after := Step(run, op);
      forall t :: t in after.pending && after.pending[t].found.Found? ==> after.pending[t].found.id < |after.fs.nodes|
  {
    StepGrows(run, op);
    if op.BeginOpen? {
      assert LookUp(run.fs.nodes, op.dir, op.rel).Found? ==> Child(run.fs.nodes, op.dir, op.rel).Some?;
    }
  }

  // ----- Runs -----

  /** The states of a run that takes these steps, skipping those nobody can take. */
  ghost function Exec(run: Run, ops: seq<Op>): Run
    requires Inv(run)
    decreases |ops|
  {
    if ops == [] then run
    else if !Enabled(run, ops[0]) then Exec(run, ops[1..])
    else StepInv(run, ops[0]); Exec(Step(run, ops[0]), ops[1..])
  }

  lemma StartInv()
    ensures Inv(START)
  {
  }

  lemma {:induction false} ExecInv(run: Run, ops: seq<Op>)
    requires Inv(run)
    ensures Inv(Exec(run, ops))
    decreases |ops|
  {
    if ops != [] {
      if Enabled(run, ops[0]) {
        StepInv(run, ops[0]);
        ExecInv(Step(run, ops[0]), ops[1..]);
      } else {
        ExecInv(run, ops[1..]);
      }
    }
  }

  ghost function Reached(ops: seq<Op>): (run: Run)
    ensures Inv(run)
  {
    StartInv();
    ExecInv(START, ops);
    Exec(START, ops)
  }

  /** In every reachable state, whatever the threads did: no path leads back to its start, and no
      node is reached from a directory by two paths. */
  lemma AlwaysATree(ops: seq<Op>, start: Id, p: seq<Name>, q: seq<Name>)
    requires Walk(Reached(ops).fs.nodes, start, p).Some?
    requires Walk(Reached(ops).fs.nodes, start, p) == Walk(Reached(ops).fs.nodes, start, q)
    ensures p == q
    ensures p != [] ==> Walk(Reached(ops).fs.nodes, start, p) != Some(start)
  {
    OnePath(Reached(ops).fs.nodes, start, p, q);
    if p != [] {
      Acyclic(Reached(ops).fs.nodes, start, p);
    }
  }

  /** In every reachable state, all the handles that share a cursor have delivered, between them,
      in order, without gap or repetition, the front of one file, unless that file was truncated. */
  lemma DeliveredInOrder(ops: seq<Op>, h: nat)
    requires h < |Reached(ops).fs.handles| && Reached(ops).fs.handles[h].node !in Reached(ops).wiped
    ensures var run := Reached(ops);
      var handle := run.fs.handles[h];
      var data, pos := Contents(run.fs.nodes, handle.node), run.fs.cursors[handle.cursor];
      pos <= |data| && run.log[handle.cursor] == data[..pos]
  {
    assert LogMatches(Reached(ops), h);
  }

  lemma {:induction false} GrowsOver(a: Nodes, b: Nodes, c: Nodes, early: set<Id>, late: set<Id>)
    requires Grows(a, b, early) && Grows(b, c, late) && early <= late
    ensures Grows(a, c, late)
  {
    forall i | 0 <= i < |a|
      ensures Keeps(a[i], c[i], i in late)
    {
      assert Keeps(a[i], b[i], i in early) && Keeps(b[i], c[i], i in late);
    }
  }

  lemma {:induction false} WipedGrows(run: Run, ops: seq<Op>)
    requires Inv(run)
    ensures run.wiped <= Exec(run, ops).wiped
    decreases |ops|
  {
    if ops != [] {
      if Enabled(run, ops[0]) {
        StepInv(run, ops[0]);
        WipedGrows(Step(run, ops[0]), ops[1..]);
      } else {
        WipedGrows(run, ops[1..]);
      }
    }
  }

  /** Over any run, no node changes its kind, no link its target, and no file loses a byte except
      by truncation: directory handles stay directory handles. */
  lemma {:induction false} NodesEndure(run: Run, ops: seq<Op>)
    requires Inv(run)
    ensures Grows(run.fs.nodes, Exec(run, ops).fs.nodes, Exec(run, ops).wiped)
    decreases |ops|
  {
    if ops != [] {
      if Enabled(run, ops[0]) {
        StepInv(run, ops[0]);
        var next := Step(run, ops[0]);
        StepGrows(run, ops[0]);
        WipedGrows(next, ops[1..]);
        NodesEndure(next, ops[1..]);
        GrowsOver(run.fs.nodes, next.fs.nodes, Exec(run, ops).fs.nodes, Wiped(run, ops[0]), Exec(run, ops).wiped);
      } else {
        NodesEndure(run, ops[1..]);
      }
    }
  }

  // ----- Single operations -----

  /** A refused operation changes nothing. */
  lemma RefusedChangesNothing(run: Run, op: Op)
    requires Inv(run) && Enabled(run, op) && Effect(run, op).reply.Refused?
    ensures Step(run, op).fs == run.fs && Step(run, op).log == run.log && Step(run, op).wiped == run.wiped
  {
  }

  /** A file put into a directory holds the data under its name, whatever the name denoted before. */
  lemma FixtureReads(run: Run, dir: Id, rel: Name, data: Data)
    requires Inv(run) && Enabled(run, WithFile(dir, rel, data))
    ensures var after := Effect(run, WithFile(dir, rel, data)).fs.nodes;
      Child(after, dir, rel) == Some(|run.fs.nodes|) && Contents(after, |run.fs.nodes|) == data
  {
    InsertTree(run.fs.nodes, dir, rel, File(data));
  }

  /** An anonymous file is empty, open for reading and writing, and under no name. */
  lemma MemfdIsNameless(run: Run)
    requires Inv(run)
    ensures var after, h := Effect(run, CreateMemfd).fs, |run.fs.handles|;
      && |after.handles| == h + 1 && after.handles[h].readable && after.handles[h].writable
      && !HasEntry(after.nodes, after.handles[h].node) && Contents(after.nodes, after.handles[h].node) == []
  {
    var nodes := run.fs.nodes;
    forall d: Id, n: Name
      ensures Child(nodes + [File([])], d, n) == Child(nodes, d, n)
    {
    }
  }

  /** Every name that denotes a node still denotes it. */
  ghost predicate KeepsEntries(a: Nodes, b: Nodes) {
    forall d: Id, n: Name :: Child(a, d, n).Some? ==> Child(b, d, n) == Child(a, d, n)
  }

  /** A creation, exclusive or not, that found its name free takes no name away exactly when the
      name is still free. */
  lemma CreationKeeps(fs: Fs, dir: Id, rel: Name, opts: Options)
    requires Tree(fs.nodes) && IsDir(fs.nodes, dir) && (opts.create || opts.createNew)
    ensures var r := FinishOpen(fs, dir, rel, opts, Missing(NotFound));
      && r.reply.Opened?
      && (Child(fs.nodes, dir, rel).None? <==> KeepsEntries(fs.nodes, r.fs.nodes))
  {
    InsertTree(fs.nodes, dir, rel, File([]));
    assert Child(Insert(fs.nodes, dir, rel, File([])), dir, rel) == Some(|fs.nodes|);
  }

  /** The operation may give `name` in `dir` to a node, now or when it ends. */
  predicate MayGive(op: Op, dir: Id, name: Name) {
    match op
    case WithFile(d, n, _) => d == dir && n == name
    case BeginOpen(_, d, n, _) => d == dir && n == name
    case CreateDir(d, n) => d == dir && n == name
    case CreateSymlink(d, _, n) => d == dir && n == name
    case RenameEntry(d, _, n, _) => d == dir && n == name
    case _ => false
  }

  /** The operation is a step of an `open` of the thread. */
  predicate OpensAs(op: Op, thread: nat) {
    (op.EndOpen? || op.BeginOpen?) && op.thread == thread
  }

  /** No open of any thread but `thread` is under way on the name. */
  predicate OnlyOpener(run: Run, thread: nat, dir: Id, name: Name) {
    forall t :: t in run.pending && t != thread ==> !(run.pending[t].dir == dir && run.pending[t].rel == name)
  }

  lemma StaysFree(run: Run, op: Op, thread: nat, dir: Id, name: Name)
    requires Inv(run) && Enabled(run, op) && IsDir(run.fs.nodes, dir) && Child(run.fs.nodes, dir, name).None?
    requires OnlyOpener(run, thread, dir, name) && !MayGive(op, dir, name)
    requires !OpensAs(op, thread)
    ensures var after := Step(run, op);
      && IsDir(after.fs.nodes, dir) && Child(after.fs.nodes, dir, name).None? && OnlyOpener(after, thread, dir, name)
      && (thread in run.pending ==> thread in after.pending && after.pending[thread] == run.pending[thread])
  {
    StepGrows(run, op);
    assert Keeps(run.fs.nodes[dir], Effect(run, op).fs.nodes[dir], dir in Wiped(run, op));
  }

  lemma {:induction false} RunStaysFree(run: Run, ops: seq<Op>, thread: nat, dir: Id, name: Name)
    requires Inv(run) && IsDir(run.fs.nodes, dir) && Child(run.fs.nodes, dir, name).None? && thread in run.pending
    requires OnlyOpener(run, thread, dir, name)
    requires forall i :: 0 <= i < |ops| ==> !MayGive(ops[i], dir, name) && !OpensAs(ops[i], thread)
    ensures var after := Exec(run, ops);
      && IsDir(after.fs.nodes, dir) && Child(after.fs.nodes, dir, name).None?
      && thread in after.pending && after.pending[thread] == run.pending[thread]
    decreases |ops|
  {
    if ops != [] {
      if Enabled(run, ops[0]) {
        StaysFree(run, ops[0], thread, dir, name);
        StepInv(run, ops[0]);
        RunStaysFree(Step(run, ops[0]), ops[1..], thread, dir, name);
      } else {
        RunStaysFree(run, ops[1..], thread, dir, name);
      }
    }
  }

  /** A creation, exclusive or not, takes no name away if, between its lookup and its end, no operation that may
      give the name to a node begins or is under way, whatever else happens. */
  lemma CreationUndisturbed(run: Run, thread: nat, dir: Id, name: Name, opts: Options, between: seq<Op>)
    requires Inv(run) && IsDir(run.fs.nodes, dir) && (opts.create || opts.createNew)
    requires OnlyOpener(run, thread, dir, name)
    requires forall i :: 0 <= i < |between| ==> !MayGive(between[i], dir, name) && !OpensAs(between[i], thread)
    requires Child(run.fs.nodes, dir, name).None?
    ensures Inv(Step(run, BeginOpen(thread, dir, name, opts)))
    ensures var at := Exec(Step(run, BeginOpen(thread, dir, name, opts)), between);
      && ValidHandles(at.fs) && thread in at.pending
      && var after := Effect(at, EndOpen(thread));
         after.reply.Opened? && KeepsEntries(at.fs.nodes, after.fs.nodes)
  {
    var begun := Step(run, BeginOpen(thread, dir, name, opts));
    StepInv(run, BeginOpen(thread, dir, name, opts));
    RunStaysFree(begun, between, thread, dir, name);
    ExecInv(begun, between);
    CreationKeeps(Exec(begun, between).fs, dir, name, opts);
  }

  function Race(name: Name, opts: Options): seq<Op> {
    [NewRoot, BeginOpen(0, 0, name, opts), BeginOpen(1, 0, name, opts), EndOpen(0), EndOpen(1)]
  }

  /** Both threads have looked the name up in the empty directory. */
  function BothLooked(name: Name, opts: Options): Run {
    var p := Pending(0, name, opts, Missing(NotFound));
    Run(Fs([Dir(map[])], [], []), map[0 := p, 1 := p], [], {})
  }

  /** The first of them has created the file. */
  function OneCreated(name: Name, opts: Options): Run {
    var fs := Fs([Dir(map[name := 1]), File([])], [0], [Handle(1, 0, opts.read, opts.write || opts.append)]);
    Run(fs, map[1 := Pending(0, name, opts, Missing(NotFound))], [[]], {})
  }

  lemma RaceBegins(name: Name, opts: Options)
    ensures Inv(START) && Inv(BothLooked(name, opts))
    ensures Exec(START, Race(name, opts)) == Exec(BothLooked(name, opts), [EndOpen(0), EndOpen(1)])
  {
    StartInv();
    var root := Step(START, NewRoot);
    ExecNext(START, Race(name, opts));
    assert Race(name, opts)[1..] == [BeginOpen(0, 0, name, opts), BeginOpen(1, 0, name, opts), EndOpen(0), EndOpen(1)];
    ExecNext(root, Race(name, opts)[1..]);
    assert Race(name, opts)[1..][1..] == [BeginOpen(1, 0, name, opts), EndOpen(0), EndOpen(1)];
    ExecNext(Step(root, BeginOpen(0, 0, name, opts)), Race(name, opts)[1..][1..]);
    assert Race(name, opts)[1..][1..][1..] == [EndOpen(0), EndOpen(1)];
    assert root.fs.nodes == [Dir(map[])];
  }

  lemma FirstCreates(name: Name, opts: Options)
    requires opts.create || opts.createNew
    ensures Inv(BothLooked(name, opts)) && Inv(OneCreated(name, opts))
    ensures Exec(BothLooked(name, opts), [EndOpen(0), EndOpen(1)]) == Exec(OneCreated(name, opts), [EndOpen(1)])
  {
    RaceBegins(name, opts);
    ExecNext(BothLooked(name, opts), [EndOpen(0), EndOpen(1)]);
    assert [EndOpen(0), EndOpen(1)][1..] == [EndOpen(1)];
    FirstStep(name, opts);
  }

  lemma FirstStep(name: Name, opts: Options)
    requires opts.create || opts.createNew
    requires ValidHandles(BothLooked(name, opts).fs)
    ensures Step(BothLooked(name, opts), EndOpen(0)) == OneCreated(name, opts)
  {
    var run := BothLooked(name, opts);
    assert Insert(run.fs.nodes, 0, name, File([])) == [Dir(map[name := 1]), File([])];
    assert run.pending - {0} == OneCreated(name, opts).pending;
  }

  lemma SecondStep(name: Name, opts: Options, run: Run)
    requires opts.create || opts.createNew
    requires ValidHandles(OneCreated(name, opts).fs) && run == Step(OneCreated(name, opts), EndOpen(1))
    ensures run.fs.nodes == [Dir(map[name := 2]), File([]), File([])]
    ensures run.fs.handles == [Handle(1, 0, opts.read, opts.write || opts.append), Handle(2, 1, opts.read, opts.write || opts.append)]
  {
    assert OneCreated(name, opts).fs.nodes[0].entries[name := 2] == map[name := 2];
    assert Insert(OneCreated(name, opts).fs.nodes, 0, name, File([])) == [Dir(map[name := 2]), File([]), File([])];
  }

  /** Otherwise it may: in this run two threads both create the same name, exclusively or not, and
      the file of the first is then under no name at all. */
  lemma CreationRace(name: Name, opts: Options)
    requires opts.create || opts.createNew
    ensures var run := Reached(Race(name, opts));
      && |run.fs.handles| == 2 && run.fs.handles[0].node == 1 && run.fs.handles[1].node == 2
      && Child(run.fs.nodes, 0, name) == Some(2) && !HasEntry(run.fs.nodes, 1)
  {
    RaceEnds(name, opts);
    SecondStep(name, opts, Reached(Race(name, opts)));
    NamelessFirst(name, Reached(Race(name, opts)).fs.nodes);
  }

  lemma {:induction false} RaceEnds(name: Name, opts: Options)
    requires opts.create || opts.createNew
    ensures Inv(OneCreated(name, opts)) && Reached(Race(name, opts)) == Step(OneCreated(name, opts), EndOpen(1))
  {
    RaceBegins(name, opts);
    FirstCreates(name, opts);
    ExecNext(OneCreated(name, opts), [EndOpen(1)]);
    assert [EndOpen(1)][1..] == [];
  }

  lemma NamelessFirst(name: Name, nodes: Nodes)
    requires nodes == [Dir(map[name := 2]), File([]), File([])]
    ensures Child(nodes, 0, name) == Some(2) && !HasEntry(nodes, 1)
  {
  }

  lemma {:induction false} ExecNext(run: Run, ops: seq<Op>)
    requires Inv(run) && ops != [] && Enabled(run, ops[0])
    ensures Inv(Step(run, ops[0])) && Exec(run, ops) == Exec(Step(run, ops[0]), ops[1..])
  {
    StepInv(run, ops[0]);
  }

  // ----- A run that loses a directory -----

  function OnlyNodes(nodes: Nodes): Run {
    Run(Fs(nodes, [], []), map[], [], {})
  }

  function Replacing(from: Name, to: Name, inside: Name): seq<Op> {
    [NewRoot, CreateDir(0, to), CreateDir(1, inside), CreateDir(0, from), RenameEntry(0, from, to, true)]
  }

  /** The nodes before the rename. */
  function Filled(from: Name, to: Name, inside: Name): Nodes {
    [Dir(map[to := 1, from := 3]), Dir(map[inside := 2]), Dir(map[]), Dir(map[])]
  }

  lemma {:induction false} MakesDir(nodes: Nodes, dir: Id, rel: Name, after: Nodes, ops: seq<Op>)
    requires Inv(OnlyNodes(nodes)) && ops != [] && ops[0] == CreateDir(dir, rel)
    requires IsDir(nodes, dir) && rel !in nodes[dir].entries && after == Insert(nodes, dir, rel, Dir(map[]))
    ensures Inv(OnlyNodes(after)) && Exec(OnlyNodes(nodes), ops) == Exec(OnlyNodes(after), ops[1..])
  {
    ExecNext(OnlyNodes(nodes), ops);
    assert Step(OnlyNodes(nodes), ops[0]) == OnlyNodes(after);
  }

  lemma {:induction false} MakesRoot(ops: seq<Op>)
    requires ops != [] && ops[0] == NewRoot
    ensures Inv(START) && Inv(OnlyNodes([Dir(map[])])) && Exec(START, ops) == Exec(OnlyNodes([Dir(map[])]), ops[1..])
  {
    StartInv();
    ExecNext(START, ops);
    assert Step(START, NewRoot) == OnlyNodes([Dir(map[])]);
  }

  function One(to: Name): Nodes {
    [Dir(map[to := 1]), Dir(map[])]
  }

  function Two(to: Name, inside: Name): Nodes {
    [Dir(map[to := 1]), Dir(map[inside := 2]), Dir(map[])]
  }

  lemma {:induction false} FillsOne(to: Name, ops: seq<Op>)
    requires |ops| >= 2 && ops[0] == NewRoot && ops[1] == CreateDir(0, to)
    ensures Inv(START) && Inv(OnlyNodes(One(to))) && Exec(START, ops) == Exec(OnlyNodes(One(to)), ops[2..])
  {
    MakesRoot(ops);
    assert Insert([Dir(map[])], 0, to, Dir(map[])) == One(to);
    MakesDir([Dir(map[])], 0, to, One(to), ops[1..]);
    assert ops[1..][1..] == ops[2..];
  }

  lemma {:induction false} FillsTwo(from: Name, to: Name, inside: Name, ops: seq<Op>)
    requires from != to && |ops| >= 2 && ops[0] == CreateDir(1, inside) && ops[1] == CreateDir(0, from)
    requires Inv(OnlyNodes(One(to)))
    ensures Inv(OnlyNodes(Filled(from, to, inside)))
    ensures Exec(OnlyNodes(One(to)), ops) == Exec(OnlyNodes(Filled(from, to, inside)), ops[2..])
  {
    assert Insert(One(to), 1, inside, Dir(map[])) == Two(to, inside);
    MakesDir(One(to), 1, inside, Two(to, inside), ops);
    assert Insert(Two(to, inside), 0, from, Dir(map[])) == Filled(from, to, inside);
    MakesDir(Two(to, inside), 0, from, Filled(from, to, inside), ops[1..]);
    assert ops[1..][1..] == ops[2..];
  }

  lemma {:induction false} FillsUp(from: Name, to: Name, inside: Name, ops: seq<Op>)
    requires from != to && ops == Replacing(from, to, inside)
    ensures Inv(START) && Inv(OnlyNodes(Filled(from, to, inside)))
    ensures Exec(START, ops) == Exec(OnlyNodes(Filled(from, to, inside)), [RenameEntry(0, from, to, true)])
  {
    FillsOne(to, ops);
    FillsTwo(from, to, inside, ops[2..]);
    assert ops[2..][2..] == [RenameEntry(0, from, to, true)];
  }

  /** In this run a rename replaces a directory that is not empty; what it held could be reached from
      the root before, and cannot by any path afterwards. */
  lemma {:induction false} RenameLosesDirectory(from: Name, to: Name, inside: Name, path: seq<Name>)
    requires from != to
    ensures Walk(Filled(from, to, inside), 0, [to, inside]) == Some(2)
    ensures Reached(Replacing(from, to, inside)).fs.nodes == Move(Filled(from, to, inside), 0, from, to)
    ensures Walk(Reached(Replacing(from, to, inside)).fs.nodes, 0, path) != Some(2)
  {
    FillsUp(from, to, inside, Replacing(from, to, inside));
    var nodes := Filled(from, to, inside);
    ExecNext(OnlyNodes(nodes), [RenameEntry(0, from, to, true)]);
    assert [RenameEntry(0, from, to, true)][1..] == [];
    ReplacedDirectory(nodes, 0, from, to, 1, inside, 0, path);
  }
}
