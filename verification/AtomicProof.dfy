/** What every interleaving of `write_atomic` calls keeps, and what follows for readers and
    for crashes (crates/platform/src/fs.rs). */
module AtomicProof {
  import opened Wrappers
  import opened TempNames
  import opened WriteAtomic

  // ----- The invariant -----

  /** Fewer than 2^64 calls, and no call writes to the temporary name of a call. */
  ghost predicate Apart(cfg: Config, s: Sys) {
    && |s.calls| <= U64
    && forall c, m :: 0 <= c < |s.calls| && 0 <= m < |s.calls| ==> s.calls[c].rel != TempOf(cfg, s, m)
  }

  ghost predicate IsFinal(s: Sys, call: Call) {
    HasFile(s, call) && s.inodes[call.ino.value] == Inode(call.contents, true)
  }

  /** The state of one call's temporary file, by program counter. */
  ghost predicate CallOk(cfg: Config, s: Sys, c: nat)
    requires c < |s.calls|
  {
    var call := s.calls[c];
    && (call.ino.Some? ==> call.ino.value < |s.inodes|)
    && (call.published.Some? ==> call.pc.DirSyncing? || call.pc.Done?)
    && (match call.pc
        case Opening => call.ino.None?
        case Writing(off) =>
          && HasFile(s, call) && off <= |call.contents| && s.inodes[call.ino.value].data == call.contents[..off]
          && TempOf(cfg, s, c) in s.dir && s.dir[TempOf(cfg, s, c)] == call.ino.value
        case Renaming =>
          && IsFinal(s, call)
          && TempOf(cfg, s, c) in s.dir && s.dir[TempOf(cfg, s, c)] == call.ino.value
        case Cleaning => true
        case DirSyncing => call.published.Some?
        case Done(ok) => ok ==> call.published.Some? && (cfg.syncsDirs ==> call.published.value < s.durable))
    && (call.published.Some? ==>
          && IsFinal(s, call)
          && call.published.value < |s.ops|
          && s.ops[call.published.value] == Publish(c, TempOf(cfg, s, c), call.rel, call.ino.value))
  }

  /** Updates touch the temporary name of their call; publishing touches its target too,
      with a complete and synced file. */
  ghost predicate OpOk(cfg: Config, s: Sys, i: nat)
    requires i < |s.ops|
  {
    var op := s.ops[i];
    && op.owner < |s.calls|
    && (match op
        case Link(c, name, _) => name == TempOf(cfg, s, c)
        case Unlink(c, name) => name == TempOf(cfg, s, c)
        case Publish(c, from, to, ino) =>
          && from == TempOf(cfg, s, c) && to == s.calls[c].rel
          && s.calls[c].published == Some(i) && s.calls[c].ino == Some(ino))
  }

  ghost predicate Inv(cfg: Config, s0: Sys, s: Sys) {
    && s.base == s0.base && s.durable <= |s.ops|
    && |s0.inodes| <= |s.inodes| && s.inodes[..|s0.inodes|] == s0.inodes
    && (forall c :: 0 <= c < |s.calls| ==> CallOk(cfg, s, c))
    && (forall i :: 0 <= i < |s.ops| ==> OpOk(cfg, s, i))
    && (forall c :: 0 <= c < |s.calls| && s.calls[c].ino.Some? ==> |s0.inodes| <= s.calls[c].ino.value)
    && (forall c, m :: 0 <= c < m < |s.calls| && s.calls[c].ino.Some? ==> s.calls[c].ino != s.calls[m].ino)
    && s.dir == Replay(s.base, s.ops, i => true)
  }

  lemma TempsDiffer(cfg: Config, s: Sys, c: nat, m: nat)
    requires c < |s.calls| && m < |s.calls| && c != m && |s.calls| <= U64
    ensures TempOf(cfg, s, c) != TempOf(cfg, s, m)
  {
    if TempOf(cfg, s, c) == TempOf(cfg, s, m) {
      TempNamesDistinct(cfg.pid, s.calls[c].rel, c % U64, s.calls[m].rel, m % U64);
      assert false;
    }
  }

  lemma ReplaySnoc(base: Dir, ops: seq<DirOp>, op: DirOp, keep: nat -> bool)
    ensures Replay(base, ops + [op], keep) == if keep(|ops|) then ApplyOp(Replay(base, ops, keep), op) else Replay(base, ops, keep)
  {
    assert (ops + [op])[..|ops|] == ops;
  }

  /** Only call `c` changes, its name stays, and the updates and files of others stay. */
  ghost predicate OnlyCall(s: Sys, s': Sys, c: nat) {
    && |s'.calls| == |s.calls| && c < |s.calls|
    && (forall m :: 0 <= m < |s.calls| && m != c ==> s'.calls[m] == s.calls[m])
    && s'.calls[c].rel == s.calls[c].rel && s'.calls[c].contents == s.calls[c].contents
    && s.ops <= s'.ops && s.durable <= s'.durable
    && |s.inodes| <= |s'.inodes|
    && (forall i :: 0 <= i < |s.inodes| && s.calls[c].ino != Some(i) ==> s'.inodes[i] == s.inodes[i])
  }

  /** A call keeps its part of the invariant while another one moves, as long as its
      temporary name is left alone. */
  lemma OthersKeep(cfg: Config, s0: Sys, s: Sys, s': Sys, c: nat, m: nat)
    requires Inv(cfg, s0, s) && OnlyCall(s, s', c) && m < |s.calls| && m != c
    requires TempOf(cfg, s, m) in s.dir ==> TempOf(cfg, s', m) in s'.dir && s'.dir[TempOf(cfg, s', m)] == s.dir[TempOf(cfg, s, m)]
    ensures CallOk(cfg, s', m)
  {
    assert CallOk(cfg, s, m);
    if s.calls[m].ino.Some? {
      var i := s.calls[m].ino.value;
      assert s.calls[c].ino != Some(i);
    }
  }

  lemma OpsKeep(cfg: Config, s0: Sys, s: Sys, s': Sys, c: nat)
    requires Inv(cfg, s0, s) && OnlyCall(s, s', c)
    requires s'.calls[c].published == s.calls[c].published || s.calls[c].published.None?
    requires s'.calls[c].ino == s.calls[c].ino || s.calls[c].published.None?
    ensures forall i :: 0 <= i < |s.ops| ==> OpOk(cfg, s', i)
  {
    forall i | 0 <= i < |s.ops|
      ensures OpOk(cfg, s', i)
    {
      assert OpOk(cfg, s, i) && s'.ops[i] == s.ops[i];
    }
  }

  /** What a step of call `c` has to show for itself; the rest of the invariant follows. */
  lemma StepKeeps(cfg: Config, s0: Sys, s: Sys, s': Sys, c: nat)
    requires Inv(cfg, s0, s) && OnlyCall(s, s', c)
    requires s'.base == s.base && s'.durable <= |s'.ops|
    requires s'.calls[c].published == s.calls[c].published || s.calls[c].published.None?
    requires s'.calls[c].ino == s.calls[c].ino || (s.calls[c].ino.None? && s'.calls[c].ino == Some(|s.inodes|))
    requires forall m :: 0 <= m < |s.calls| && m != c && TempOf(cfg, s, m) in s.dir ==>
      TempOf(cfg, s, m) in s'.dir && s'.dir[TempOf(cfg, s, m)] == s.dir[TempOf(cfg, s, m)]
    requires CallOk(cfg, s', c)
    requires forall i :: |s.ops| <= i < |s'.ops| ==> OpOk(cfg, s', i)
    requires s'.dir == Replay(s'.base, s'.ops, i => true)
    ensures Inv(cfg, s0, s')
  {
    forall m | 0 <= m < |s.calls| && m != c
      ensures CallOk(cfg, s', m)
    {
      assert TempOf(cfg, s', m) == TempOf(cfg, s, m);
      OthersKeep(cfg, s0, s, s', c, m);
    }
    assert CallOk(cfg, s, c);
    assert forall m :: 0 <= m < |s.calls| && s.calls[m].ino.Some? ==> CallOk(cfg, s, m) && s.calls[m].ino.value < |s.inodes|;
    OpsKeep(cfg, s0, s, s', c);
    assert s'.inodes[..|s0.inodes|] == s0.inodes by {
      forall i | 0 <= i < |s0.inodes|
        ensures s'.inodes[i] == s0.inodes[i]
      {
        assert s.inodes[..|s0.inodes|][i] == s.inodes[i];
      }
    }
  }

  // ----- Each step keeps the invariant -----

  /** Steps that move only the program counter (and, for `sync_dir`, the durable mark). */
  lemma ControlStep(cfg: Config, s0: Sys, s: Sys, a: Action)
    requires Inv(cfg, s0, s) && Enabled(cfg, s, a)
    requires a.OpenFail? || a.SyncFail? || a.CleanFail? || a.RenameFail? || a.DirSyncOk? || a.DirSyncFail?
    ensures Inv(cfg, s0, Next(cfg, s, a))
  {
    var s' := Next(cfg, s, a);
    assert CallOk(cfg, s, a.c);
    assert TempOf(cfg, s', a.c) == TempOf(cfg, s, a.c);
    StepKeeps(cfg, s0, s, s', a.c);
  }

  lemma FileStep(cfg: Config, s0: Sys, s: Sys, a: Action)
    requires Inv(cfg, s0, s) && Enabled(cfg, s, a)
    requires a.WriteOk? || a.WriteFail? || a.SyncOk?
    ensures Inv(cfg, s0, Next(cfg, s, a))
  {
    var s' := Next(cfg, s, a);
    var call := s.calls[a.c];
    assert CallOk(cfg, s, a.c);
    assert TempOf(cfg, s', a.c) == TempOf(cfg, s, a.c);
    if a.SyncOk? {
      assert call.contents[..|call.contents|] == call.contents;
    } else {
      assert call.contents[..call.pc.off] + call.contents[call.pc.off..call.pc.off + a.k] == call.contents[..call.pc.off + a.k];
    }
    StepKeeps(cfg, s0, s, s', a.c);
  }

  lemma OpenStep(cfg: Config, s0: Sys, s: Sys, a: Action)
    requires Inv(cfg, s0, s) && Apart(cfg, s) && Enabled(cfg, s, a) && a.OpenOk?
    ensures Inv(cfg, s0, Next(cfg, s, a))
  {
    var s' := Next(cfg, s, a);
    assert CallOk(cfg, s, a.c);
    assert TempOf(cfg, s', a.c) == TempOf(cfg, s, a.c);
    forall m | 0 <= m < |s.calls| && m != a.c
      ensures TempOf(cfg, s, m) != TempOf(cfg, s, a.c)
    {
      TempsDiffer(cfg, s, m, a.c);
    }
    ReplaySnoc(s.base, s.ops, s'.ops[|s.ops|], i => true);
    StepKeeps(cfg, s0, s, s', a.c);
  }

  lemma CleanStep(cfg: Config, s0: Sys, s: Sys, a: Action)
    requires Inv(cfg, s0, s) && Apart(cfg, s) && Enabled(cfg, s, a) && a.CleanOk?
    ensures Inv(cfg, s0, Next(cfg, s, a))
  {
    var s' := Next(cfg, s, a);
    assert CallOk(cfg, s, a.c);
    assert TempOf(cfg, s', a.c) == TempOf(cfg, s, a.c);
    forall m | 0 <= m < |s.calls| && m != a.c
      ensures TempOf(cfg, s, m) != TempOf(cfg, s, a.c)
    {
      TempsDiffer(cfg, s, m, a.c);
    }
    ReplaySnoc(s.base, s.ops, s'.ops[|s.ops|], i => true);
    StepKeeps(cfg, s0, s, s', a.c);
  }

  lemma RenameStep(cfg: Config, s0: Sys, s: Sys, a: Action)
    requires Inv(cfg, s0, s) && Apart(cfg, s) && Enabled(cfg, s, a) && a.RenameOk?
    ensures Inv(cfg, s0, Next(cfg, s, a))
  {
    var s' := Next(cfg, s, a);
    assert CallOk(cfg, s, a.c);
    assert TempOf(cfg, s', a.c) == TempOf(cfg, s, a.c);
    forall m | 0 <= m < |s.calls| && m != a.c
      ensures TempOf(cfg, s, m) != TempOf(cfg, s, a.c) && TempOf(cfg, s, m) != s.calls[a.c].rel
    {
      TempsDiffer(cfg, s, m, a.c);
    }
    ReplaySnoc(s.base, s.ops, s'.ops[|s.ops|], i => true);
    StepKeeps(cfg, s0, s, s', a.c);
  }

  lemma BeginStep(cfg: Config, s0: Sys, s: Sys, a: Action)
    requires Inv(cfg, s0, s) && a.Begin?
    ensures Inv(cfg, s0, Next(cfg, s, a))
  {
    var s' := Next(cfg, s, a);
    forall c | 0 <= c < |s.calls|
      ensures CallOk(cfg, s', c)
    {
      assert CallOk(cfg, s, c) && TempOf(cfg, s', c) == TempOf(cfg, s, c);
    }
    forall i | 0 <= i < |s.ops|
      ensures OpOk(cfg, s', i)
    {
      assert OpOk(cfg, s, i);
    }
  }

  lemma AnyStep(cfg: Config, s0: Sys, s: Sys, a: Action)
    requires Inv(cfg, s0, s) && Apart(cfg, s) && Enabled(cfg, s, a)
    ensures Inv(cfg, s0, Next(cfg, s, a))
  {
    match a
    case Begin(_, _) => BeginStep(cfg, s0, s, a);
    case OpenOk(_) => OpenStep(cfg, s0, s, a);
    case CleanOk(_) => CleanStep(cfg, s0, s, a);
    case RenameOk(_) => RenameStep(cfg, s0, s, a);
    case WriteOk(_, _) => FileStep(cfg, s0, s, a);
    case WriteFail(_, _) => FileStep(cfg, s0, s, a);
    case SyncOk(_) => FileStep(cfg, s0, s, a);
    case _ => ControlStep(cfg, s0, s, a);
  }

  /** Calls never go away or change their target, so a run that ends apart was always apart. */
  lemma ApartBefore(cfg: Config, s: Sys, a: Action)
    requires Enabled(cfg, s, a) && Apart(cfg, Next(cfg, s, a))
    ensures Apart(cfg, s)
  {
    var s' := Next(cfg, s, a);
    assert forall c :: 0 <= c < |s.calls| ==> s'.calls[c].rel == s.calls[c].rel && TempOf(cfg, s', c) == TempOf(cfg, s, c);
  }

  /** The invariant holds in every reachable state of every interleaving. */
  lemma {:induction false} InvHolds(cfg: Config, s0: Sys, run: seq<Action>)
    requires Init(s0) && ValidRun(cfg, s0, run) && Apart(cfg, Exec(cfg, s0, run))
    ensures Inv(cfg, s0, Exec(cfg, s0, run))
  {
    if run != [] {
      var front := run[..|run| - 1];
      ApartBefore(cfg, Exec(cfg, s0, front), run[|run| - 1]);
      InvHolds(cfg, s0, front);
      AnyStep(cfg, s0, Exec(cfg, s0, front), run[|run| - 1]);
    }
  }

  // ----- What a name resolves to -----

  ghost predicate PublishesTo(op: DirOp, name: Name) {
    op.Publish? && op.to == name
  }

  /** The last kept update that publishes under `name`. */
  ghost function LastKept(ops: seq<DirOp>, keep: nat -> bool, name: Name): (r: Option<nat>)
    ensures r.Some? ==> r.value < |ops| && keep(r.value) && PublishesTo(ops[r.value], name)
    ensures forall i :: 0 <= i < |ops| && keep(i) && PublishesTo(ops[i], name) ==> r.Some? && i <= r.value
  {
    if ops == [] then None
    else if keep(|ops| - 1) && PublishesTo(ops[|ops| - 1], name) then Some(|ops| - 1)
    else LastKept(ops[..|ops| - 1], keep, name)
  }

  /** No update uses `name` as a temporary name. */
  ghost predicate NeverTemp(ops: seq<DirOp>, name: Name) {
    forall i :: 0 <= i < |ops| ==>
      match ops[i]
      case Link(_, n, _) => n != name
      case Unlink(_, n) => n != name
      case Publish(_, from, _, _) => from != name
  }

  /** Whatever subset of the updates survives, a name that is no temporary name holds what
      the last surviving rename onto it put there, or what it held at first. */
  lemma {:induction false} ReplayAt(base: Dir, ops: seq<DirOp>, keep: nat -> bool, name: Name)
    requires NeverTemp(ops, name)
    ensures var d := Replay(base, ops, keep);
      match LastKept(ops, keep, name)
      case None => (name in d <==> name in base) && (name in d ==> d[name] == base[name])
      case Some(i) => name in d && d[name] == ops[i].ino
  {
    if ops != [] {
      var front := ops[..|ops| - 1];
      assert forall i :: 0 <= i < |front| ==> front[i] == ops[i];
      ReplayAt(base, front, keep, name);
      var op := ops[|ops| - 1];
      assert match op case Link(_, n, _) => n != name case Unlink(_, n) => n != name case Publish(_, from, _, _) => from != name;
    }
  }

  lemma InvNeverTemp(cfg: Config, s0: Sys, s: Sys, name: Name)
    requires Inv(cfg, s0, s)
    requires forall c :: 0 <= c < |s.calls| ==> name != TempOf(cfg, s, c)
    ensures NeverTemp(s.ops, name)
  {
    forall i | 0 <= i < |s.ops|
      ensures match s.ops[i] case Link(_, n, _) => n != name case Unlink(_, n) => n != name case Publish(_, from, _, _) => from != name
    {
      assert OpOk(cfg, s, i);
    }
  }

  // ----- The theorems -----

  ghost predicate NotTemp(cfg: Config, s: Sys, name: Name) {
    forall c :: 0 <= c < |s.calls| ==> name != TempOf(cfg, s, c)
  }

  /** Call `c` has renamed its file onto `name`. */
  ghost predicate PublishedUnder(s: Sys, c: nat, name: Name) {
    c < |s.calls| && s.calls[c].rel == name && s.calls[c].published.Some?
  }

  /** `view` is the complete contents of call `c`, and no durable rename onto `name` is
      more recent than that of `c`. */
  ghost predicate IsNew(s: Sys, name: Name, view: Option<Bytes>, c: nat) {
    && PublishedUnder(s, c, name)
    && view == Some(s.calls[c].contents)
    && forall m: nat :: PublishedUnder(s, m, name) && s.calls[m].published.value < s.durable ==>
         s.calls[m].published.value <= s.calls[c].published.value
  }

  /** `view` is what `name` held at first, and no rename onto `name` is durable yet. */
  ghost predicate IsOld(s0: Sys, s: Sys, name: Name, view: Option<Bytes>) {
    && view == Visible(s0, name)
    && forall m: nat :: PublishedUnder(s, m, name) ==> s.durable <= s.calls[m].published.value
  }

  ghost predicate OldOrNew(s0: Sys, s: Sys, name: Name, view: Option<Bytes>) {
    IsOld(s0, s, name, view) || exists c: nat :: IsNew(s, name, view, c)
  }

  lemma CrashAtInv(cfg: Config, s0: Sys, s: Sys, keep: nat -> bool, disk: seq<Bytes>, name: Name)
    requires Init(s0) && Inv(cfg, s0, s) && NotTemp(cfg, s, name) && CrashOutcome(s, keep, disk)
    ensures OldOrNew(s0, s, name, AfterCrash(s, keep, disk, name))
  {
    InvNeverTemp(cfg, s0, s, name);
    ReplayAt(s.base, s.ops, keep, name);
    forall m: nat | PublishedUnder(s, m, name)
      ensures s.calls[m].published.value < |s.ops| && PublishesTo(s.ops[s.calls[m].published.value], name)
    {
      assert CallOk(cfg, s, m);
    }
    match LastKept(s.ops, keep, name) {
      case None =>
        if name in s.base {
          var i := s.base[name];
          assert s.inodes[..|s0.inodes|][i] == s.inodes[i];
        }
        assert IsOld(s0, s, name, AfterCrash(s, keep, disk, name));
      case Some(i) =>
        var c := s.ops[i].owner;
        assert OpOk(cfg, s, i) && CallOk(cfg, s, c);
        assert IsNew(s, name, AfterCrash(s, keep, disk, name), c);
    }
  }

  /** Atomicity: after a crash at any point of any interleaving, whatever unsynced directory
      updates and file contents survive, a name that is no temporary name shows its complete
      old contents or the complete contents of one call, and never anything older than the
      last durable rename. */
  lemma CrashAtomicity(cfg: Config, s0: Sys, run: seq<Action>, keep: nat -> bool, disk: seq<Bytes>, name: Name)
    requires Init(s0) && ValidRun(cfg, s0, run)
    requires Apart(cfg, Exec(cfg, s0, run)) && NotTemp(cfg, Exec(cfg, s0, run), name)
    requires CrashOutcome(Exec(cfg, s0, run), keep, disk)
    ensures OldOrNew(s0, Exec(cfg, s0, run), name, AfterCrash(Exec(cfg, s0, run), keep, disk, name))
  {
    InvHolds(cfg, s0, run);
    CrashAtInv(cfg, s0, Exec(cfg, s0, run), keep, disk, name);
  }

  /** Call `c` is the last to have renamed onto `name`. */
  ghost predicate IsLatest(s: Sys, c: nat, name: Name) {
    && PublishedUnder(s, c, name)
    && forall m: nat :: PublishedUnder(s, m, name) ==> s.calls[m].published.value <= s.calls[c].published.value
  }

  lemma LatestIsVisible(cfg: Config, s0: Sys, s: Sys, name: Name, c: nat)
    requires Init(s0) && Inv(cfg, s0, s) && NotTemp(cfg, s, name) && IsLatest(s, c, name)
    ensures Visible(s, name) == Some(s.calls[c].contents)
  {
    InvNeverTemp(cfg, s0, s, name);
    ReplayAt(s.base, s.ops, i => true, name);
    assert CallOk(cfg, s, c);
    var i := LastKept(s.ops, i => true, name).value;
    assert OpOk(cfg, s, i) && PublishedUnder(s, s.ops[i].owner, name);
  }

  lemma NeverAbsent(cfg: Config, s0: Sys, s: Sys, name: Name)
    requires Init(s0) && Inv(cfg, s0, s) && NotTemp(cfg, s, name) && name in s0.base
    ensures name in s.dir
  {
    InvNeverTemp(cfg, s0, s, name);
    ReplayAt(s.base, s.ops, i => true, name);
  }

  /** Without a crash the same holds for every reader, who sees the latest rename; and no
      existing name ever vanishes. */
  lemma ReadersSeeWholeFiles(cfg: Config, s0: Sys, run: seq<Action>, name: Name)
    requires Init(s0) && ValidRun(cfg, s0, run)
    requires Apart(cfg, Exec(cfg, s0, run)) && NotTemp(cfg, Exec(cfg, s0, run), name)
    ensures OldOrNew(s0, Exec(cfg, s0, run), name, Visible(Exec(cfg, s0, run), name))
    ensures name in s0.base ==> name in Exec(cfg, s0, run).dir
    ensures forall c: nat :: IsLatest(Exec(cfg, s0, run), c, name) ==>
      Visible(Exec(cfg, s0, run), name) == Some(Exec(cfg, s0, run).calls[c].contents)
  {
    var s := Exec(cfg, s0, run);
    InvHolds(cfg, s0, run);
    CrashAtInv(cfg, s0, s, i => true, Data(s.inodes), name);
    if name in s0.base {
      NeverAbsent(cfg, s0, s, name);
    }
    forall c: nat | IsLatest(s, c, name)
      ensures Visible(s, name) == Some(s.calls[c].contents)
    {
      LatestIsVisible(cfg, s0, s, name, c);
    }
  }

  /** Where `sync_dir` syncs, `Ok` is durable: every later crash shows the contents of that
      call, or of one that renamed after it. */
  lemma AcknowledgedIsDurable(cfg: Config, s0: Sys, run: seq<Action>, keep: nat -> bool, disk: seq<Bytes>, c: nat)
    requires cfg.syncsDirs && Init(s0) && ValidRun(cfg, s0, run)
    requires Apart(cfg, Exec(cfg, s0, run)) && CrashOutcome(Exec(cfg, s0, run), keep, disk)
    requires c < |Exec(cfg, s0, run).calls| && Exec(cfg, s0, run).calls[c].pc == Done(true)
    ensures var s := Exec(cfg, s0, run);
      exists m: nat :: && PublishedUnder(s, m, s.calls[c].rel)
                  && AfterCrash(s, keep, disk, s.calls[c].rel) == Some(s.calls[m].contents)
                  && s.calls[c].published.Some? && s.calls[c].published.value <= s.calls[m].published.value
  {
    var s := Exec(cfg, s0, run);
    InvHolds(cfg, s0, run);
    assert CallOk(cfg, s, c);
    var name := s.calls[c].rel;
    CrashAtInv(cfg, s0, s, keep, disk, name);
    assert PublishedUnder(s, c, name);
    var m: nat :| IsNew(s, name, AfterCrash(s, keep, disk, name), m);
  }

  /** A call that has not renamed has touched no name but its temporary one. */
  lemma UnpublishedTouchesOnlyTemp(cfg: Config, s0: Sys, run: seq<Action>, c: nat, i: nat)
    requires Init(s0) && ValidRun(cfg, s0, run) && Apart(cfg, Exec(cfg, s0, run))
    requires c < |Exec(cfg, s0, run).calls| && Exec(cfg, s0, run).calls[c].published.None?
    requires i < |Exec(cfg, s0, run).ops| && Exec(cfg, s0, run).ops[i].owner == c
    ensures var s := Exec(cfg, s0, run);
      !s.ops[i].Publish? && s.ops[i].name == TempOf(cfg, s, c)
  {
    InvHolds(cfg, s0, run);
    assert OpOk(cfg, Exec(cfg, s0, run), i);
  }

  /** No step but a successful rename changes any other name. */
  lemma FailedStepChangesNoOtherName(cfg: Config, s: Sys, a: Action, name: Name)
    requires Enabled(cfg, s, a) && !a.RenameOk?
    requires a.Begin? || name != TempOf(cfg, s, a.c)
    ensures name in Next(cfg, s, a).dir <==> name in s.dir
    ensures name in s.dir ==> Next(cfg, s, a).dir[name] == s.dir[name]
  {
  }
}
