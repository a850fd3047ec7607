/** Where the guarantees of `write_atomic` (crates/platform/src/fs.rs) end: the exact set of
    targets for which they hold, and what the no-op default of `sync_dir` leaves open. */
module AtomicLimits {
  import opened Wrappers
  import opened TempNames
  import opened WriteAtomic
  import opened AtomicProof

  lemma LongerThanTarget(pid: string, rel: Name, n: nat)
    ensures |TempName(pid, rel, n)| > |rel|
  {
  }

  // ----- Which targets are safe -----

  ghost predicate Targets(s: Sys, rels: seq<Name>) {
    |s.calls| == |rels| && forall c :: 0 <= c < |rels| ==> s.calls[c].rel == rels[c]
  }

  /** Something a caller can check beforehand: no target is the temporary name of a call. */
  predicate TargetsApart(cfg: Config, rels: seq<Name>) {
    forall c, m :: 0 <= c < |rels| && 0 <= m < |rels| ==> rels[c] != TempName(cfg.pid, rels[m], m % U64)
  }

  /** In every interleaving of calls to `rels`, each target always reads as old or new. */
  ghost predicate AlwaysOldOrNew(cfg: Config, rels: seq<Name>) {
    forall s0, run, s, name ::
      Reaches(cfg, s0, run, s) && Targets(s, rels) && name in rels ==> OldOrNew(s0, s, name, Visible(s, name))
  }

  ghost function Fresh(rels: seq<Name>): seq<Call> {
    seq(|rels|, i requires 0 <= i < |rels| => Call(rels[i], [], None, Opening, None))
  }

  lemma {:induction false} BeginAll(cfg: Config, s0: Sys, rels: seq<Name>) returns (run: seq<Action>, s: Sys)
    requires Init(s0)
    ensures s == s0.(calls := Fresh(rels)) && Reaches(cfg, s0, run, s)
  {
    if rels == [] {
      run, s := [], s0;
    } else {
      run, s := BeginAll(cfg, s0, rels[..|rels| - 1]);
      var a := Begin(rels[|rels| - 1], []);
      ReachesNext(cfg, s0, run, s, a);
      run, s := run + [a], Next(cfg, s, a);
    }
  }

  /** `s'` differs from `s` by steps of call `c` alone, none of which reached the disk's
      directory or touched an older file. */
  ghost predicate Alone(s: Sys, s': Sys, c: nat) {
    && c < |s.calls| && |s'.calls| == |s.calls|
    && s'.calls[c].rel == s.calls[c].rel && s'.calls[c].contents == s.calls[c].contents
    && (forall m :: 0 <= m < |s.calls| && m != c ==> s'.calls[m] == s.calls[m])
    && s'.base == s.base
    && |s.inodes| <= |s'.inodes| && s'.inodes[..|s.inodes|] == s.inodes
  }

  /** The write phase of a call: open, one write unless there is nothing to write, sync. */
  lemma Stage(cfg: Config, s0: Sys, run: seq<Action>, s: Sys, c: nat) returns (run': seq<Action>, s': Sys)
    requires Reaches(cfg, s0, run, s) && c < |s.calls|
    requires s.calls[c].pc == Opening && TempOf(cfg, s, c) !in s.dir
    ensures Reaches(cfg, s0, run', s') && Alone(s, s', c) && s'.durable == s.durable
    ensures s'.calls[c].pc == Renaming && TempOf(cfg, s', c) in s'.dir
  {
    var len := |s.calls[c].contents|;
    ReachesNext(cfg, s0, run, s, OpenOk(c));
    run', s' := run + [OpenOk(c)], Next(cfg, s, OpenOk(c));
    if len > 0 {
      ReachesNext(cfg, s0, run', s', WriteOk(c, len));
      run', s' := run' + [WriteOk(c, len)], Next(cfg, s', WriteOk(c, len));
    }
    ReachesNext(cfg, s0, run', s', SyncOk(c));
    run', s' := run' + [SyncOk(c)], Next(cfg, s', SyncOk(c));
  }

  /** The rest of it: rename and `sync_dir`, both successful. */
  lemma Acknowledge(cfg: Config, s0: Sys, run: seq<Action>, s: Sys, c: nat) returns (run': seq<Action>, s': Sys)
    requires Reaches(cfg, s0, run, s) && c < |s.calls|
    requires s.calls[c].pc == Renaming && TempOf(cfg, s, c) in s.dir
    ensures Reaches(cfg, s0, run', s') && Alone(s, s', c) && s'.inodes == s.inodes
    ensures s'.calls[c].pc == Done(true) && s.calls[c].rel in s'.dir
    ensures !cfg.syncsDirs ==> s'.durable == s.durable
  {
    ReachesNext(cfg, s0, run, s, RenameOk(c));
    run', s' := run + [RenameOk(c)], Next(cfg, s, RenameOk(c));
    ReachesNext(cfg, s0, run', s', DirSyncOk(c));
    run', s' := run' + [DirSyncOk(c)], Next(cfg, s', DirSyncOk(c));
  }

  /** All calls have begun, and call `n` has ended, its target being the temporary name of `m`. */
  lemma PublishOver(cfg: Config, rels: seq<Name>, n: nat, m: nat) returns (s0: Sys, run: seq<Action>, s: Sys)
    requires |rels| <= U64 && n < |rels| && m < |rels|
    requires rels[n] == TempName(cfg.pid, rels[m], m % U64)
    ensures Reaches(cfg, s0, run, s) && Targets(s, rels) && s.calls[m].pc == Opening
    ensures rels[n] in s0.base && rels[n] in s.dir
  {
    LongerThanTarget(cfg.pid, rels[m], m % U64);
    s0 := Sys(map[rels[n] := 0], [], 0, map[rels[n] := 0], [Inode([], true)], []);
    run, s := BeginAll(cfg, s0, rels);
    TempsDiffer(cfg, s, n, m);
    run, s := Stage(cfg, s0, run, s, n);
    run, s := Acknowledge(cfg, s0, run, s, n);
  }

  /** A failed `open`, and the cleanup that follows it. */
  lemma FailAndClean(cfg: Config, s0: Sys, run: seq<Action>, s: Sys, m: nat) returns (run': seq<Action>, s': Sys)
    requires Reaches(cfg, s0, run, s) && m < |s.calls| && s.calls[m].pc == Opening && TempOf(cfg, s, m) in s.dir
    ensures Reaches(cfg, s0, run', s') && |s'.calls| == |s.calls|
    ensures forall c :: 0 <= c < |s.calls| ==> s'.calls[c].rel == s.calls[c].rel
    ensures TempOf(cfg, s, m) !in s'.dir
  {
    ReachesNext(cfg, s0, run, s, OpenFail(m));
    run', s' := run + [OpenFail(m)], Next(cfg, s, OpenFail(m));
    assert TempOf(cfg, s', m) == TempOf(cfg, s, m);
    ReachesNext(cfg, s0, run', s', CleanOk(m));
    run', s' := run' + [CleanOk(m)], Next(cfg, s', CleanOk(m));
  }

  /** If call `n` writes to the temporary name of call `m`, the failing `open` of `m` makes
      its cleanup remove the file that `n` has published. */
  lemma TempTargetVanishes(cfg: Config, rels: seq<Name>, n: nat, m: nat) returns (s0: Sys, run: seq<Action>, s: Sys)
    requires |rels| <= U64 && n < |rels| && m < |rels|
    requires rels[n] == TempName(cfg.pid, rels[m], m % U64)
    ensures Reaches(cfg, s0, run, s) && Targets(s, rels)
    ensures rels[n] in s0.base && rels[n] !in s.dir
  {
    s0, run, s := PublishOver(cfg, rels, n, m);
    run, s := FailAndClean(cfg, s0, run, s, m);
  }

  /** The guarantee holds for exactly the target lists that are apart. */
  lemma SafeTargets(cfg: Config, rels: seq<Name>)
    requires |rels| <= U64
    ensures AlwaysOldOrNew(cfg, rels) <==> TargetsApart(cfg, rels)
  {
    if TargetsApart(cfg, rels) {
      forall s0, run, s, name | Reaches(cfg, s0, run, s) && Targets(s, rels) && name in rels
        ensures OldOrNew(s0, s, name, Visible(s, name))
      {
        assert forall c :: 0 <= c < |rels| ==> TempOf(cfg, s, c) == TempName(cfg.pid, rels[c], c % U64);
        ReadersSeeWholeFiles(cfg, s0, run, name);
      }
    } else {
      var n: nat, m: nat :| n < |rels| && m < |rels| && rels[n] == TempName(cfg.pid, rels[m], m % U64);
      var s0, run, s := TempTargetVanishes(cfg, rels, n, m);
      assert !OldOrNew(s0, s, rels[n], Visible(s, rels[n]));
      assert rels[n] in rels;
    }
  }

  // ----- The no-op default of sync_dir -----

  /** One call, just begun, on a file that exists. */
  lemma FirstCall(cfg: Config, rel: Name, old': Bytes, new': Bytes) returns (s0: Sys, run: seq<Action>, s: Sys)
    ensures Reaches(cfg, s0, run, s) && Visible(s0, rel) == Some(old')
    ensures s.calls == [Call(rel, new', None, Opening, None)] && s.durable == 0
    ensures s.base == s.dir == map[rel := 0] && s.inodes == [Inode(old', true)]
  {
    s0 := Sys(map[rel := 0], [], 0, map[rel := 0], [Inode(old', true)], []);
    var a := Begin(rel, new');
    ReachesNext(cfg, s0, [], s0, a);
    run, s := [] + [a], Next(cfg, s0, a);
  }

  /** A crash that keeps no update shows the first file of the disk. */
  lemma UpdatesLost(s: Sys, rel: Name, old': Bytes)
    requires s.base == map[rel := 0] && s.durable == 0 && s.inodes != [] && s.inodes[0] == Inode(old', true)
    ensures CrashOutcome(s, i => false, Data(s.inodes))
    ensures AfterCrash(s, i => false, Data(s.inodes), rel) == Some(old')
  {
    NothingKept(s.base, s.ops);
  }

  /** Without a directory sync, `Ok` promises old or new but not new: for every target and
      all contents there is an acknowledged call whose result a crash undoes. */
  lemma OkMayBeUndone(cfg: Config, rel: Name, old': Bytes, new': Bytes) returns (s0: Sys, run: seq<Action>, s: Sys)
    requires !cfg.syncsDirs
    ensures Reaches(cfg, s0, run, s) && Visible(s0, rel) == Some(old')
    ensures |s.calls| == 1 && s.calls[0].rel == rel && s.calls[0].contents == new' && s.calls[0].pc == Done(true)
    ensures CrashOutcome(s, i => false, Data(s.inodes))
    ensures AfterCrash(s, i => false, Data(s.inodes), rel) == Some(old')
  {
    LongerThanTarget(cfg.pid, rel, 0);
    s0, run, s := FirstCall(cfg, rel, old', new');
    assert TempOf(cfg, s, 0) != rel;
    run, s := Stage(cfg, s0, run, s, 0);
    run, s := Acknowledge(cfg, s0, run, s, 0);
    assert s.inodes[..1][0] == s.inodes[0];
    UpdatesLost(s, rel, old');
  }

  lemma {:induction false} NothingKept(base: Dir, ops: seq<DirOp>)
    ensures Replay(base, ops, i => false) == base
  {
    if ops != [] {
      NothingKept(base, ops[..|ops| - 1]);
    }
  }
}
