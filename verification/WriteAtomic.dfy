/** `Dir::write_atomic` (crates/platform/src/fs.rs) as a protocol: any number of calls of one
    process interleave step by step on one directory, any step may fail, writes may be
    short, and the machine may crash between any two steps.

    Directory updates reach stable storage in no particular order before a directory sync:
    a crash keeps all updates up to the last sync and any subset of the later ones. File
    contents survive a crash only if the file was synced after its last write; otherwise
    the file holds anything at all. */
module WriteAtomic {
  import opened Wrappers
  import opened TempNames
  import Endian

  type Bytes = seq<Endian.Octet>

  // ----- State -----

  datatype Inode = Inode(data: Bytes, synced: bool)

  /** A directory update; `owner` is the call that issued it. */
  datatype DirOp =
    | Link(owner: nat, name: Name, ino: nat)
    | Unlink(owner: nat, name: Name)
    | Publish(owner: nat, from: Name, to: Name, ino: nat)

  datatype Pc = Opening | Writing(off: nat) | Cleaning | Renaming | DirSyncing | Done(ok: bool)

  /** One call. `ino` is its temporary file, `published` the index of its rename in `ops`. */
  datatype Call = Call(rel: Name, contents: Bytes, ino: Option<nat>, pc: Pc, published: Option<nat>)

  type Dir = map<Name, nat>

  /** `base` is the directory at the start; `dir` is what a reader sees; `ops[..durable]`
      have reached stable storage. The number of a call is the value of the counter before
      its `fetch_add`. */
  datatype Sys = Sys(base: Dir, ops: seq<DirOp>, durable: nat, dir: Dir, inodes: seq<Inode>, calls: seq<Call>)

  /** `pid`: decimal text of the process id. `syncsDirs`: the backend overrides the no-op
      default of `sync_dir`. */
  datatype Config = Config(pid: string, syncsDirs: bool)

  const U64 := 0x1_0000_0000_0000_0000

  function TempOf(cfg: Config, s: Sys, c: nat): Name
    requires c < |s.calls|
  {
    TempName(cfg.pid, s.calls[c].rel, c % U64)
  }

  function ApplyOp(d: Dir, op: DirOp): Dir {
    match op
    case Link(_, name, ino) => d[name := ino]
    case Unlink(_, name) => d - {name}
    case Publish(_, from, to, ino) => (d - {from})[to := ino]
  }

  // ----- Steps -----

  datatype Action =
    | Begin(rel: Name, contents: Bytes)
    | OpenOk(c: nat)
    | OpenFail(c: nat)
    | WriteOk(c: nat, k: nat)
    | WriteFail(c: nat, k: nat)
    | SyncOk(c: nat)
    | SyncFail(c: nat)
    | CleanOk(c: nat)
    | CleanFail(c: nat)
    | RenameOk(c: nat)
    | RenameFail(c: nat)
    | DirSyncOk(c: nat)
    | DirSyncFail(c: nat)

  predicate Enabled(cfg: Config, s: Sys, a: Action) {
    if a.Begin? then true
    else
      && a.c < |s.calls|
      && var call := s.calls[a.c];
      var tmp := TempOf(cfg, s, a.c);
      match a
      case OpenOk(_) => call.pc == Opening && tmp !in s.dir
      case OpenFail(_) => call.pc == Opening
      case WriteOk(_, k) => call.pc.Writing? && CanWrite(s, call, k) && k > 0
      case WriteFail(_, k) => call.pc.Writing? && CanWrite(s, call, k)
      case SyncOk(_) => call.pc == Writing(|call.contents|) && HasFile(s, call)
      case SyncFail(_) => call.pc == Writing(|call.contents|)
      case CleanOk(_) => call.pc == Cleaning && tmp in s.dir
      case CleanFail(_) => call.pc == Cleaning
      case RenameOk(_) => call.pc == Renaming && tmp in s.dir
      case RenameFail(_) => call.pc == Renaming
      case DirSyncOk(_) => call.pc == DirSyncing
      case DirSyncFail(_) => call.pc == DirSyncing
  }

  predicate HasFile(s: Sys, call: Call) {
    call.ino.Some? && call.ino.value < |s.inodes|
  }

  /** A `write` may take any nonempty part of what is left; a failing one, or one that
      returns 0, may still leave some bytes in the file. */
  predicate CanWrite(s: Sys, call: Call, k: nat)
    requires call.pc.Writing?
  {
    HasFile(s, call) && call.pc.off < |call.contents| && call.pc.off + k <= |call.contents|
  }

  function WithOp(s: Sys, op: DirOp): Sys {
    s.(ops := s.ops + [op], dir := ApplyOp(s.dir, op))
  }

  function WithCall(s: Sys, c: nat, call: Call): Sys
    requires c < |s.calls|
  {
    s.(calls := s.calls[c := call])
  }

  function WithPc(s: Sys, c: nat, pc: Pc): Sys
    requires c < |s.calls|
  {
    WithCall(s, c, s.calls[c].(pc := pc))
  }

  function Appended(s: Sys, c: nat, k: nat, pc: Pc): Sys
    requires c < |s.calls| && s.calls[c].pc.Writing? && CanWrite(s, s.calls[c], k)
  {
    var call := s.calls[c];
    var off := call.pc.off;
    var file := s.inodes[call.ino.value];
    WithPc(s, c, pc).(inodes := s.inodes[call.ino.value := Inode(file.data + call.contents[off..off + k], false)])
  }

  function Next(cfg: Config, s: Sys, a: Action): Sys
    requires Enabled(cfg, s, a)
  {
    match a
    case Begin(rel, contents) => s.(calls := s.calls + [Call(rel, contents, None, Opening, None)])
    case OpenOk(c) =>
      var ino := |s.inodes|;
      var s' := WithOp(s, Link(c, TempOf(cfg, s, c), ino)).(inodes := s.inodes + [Inode([], false)]);
      WithCall(s', c, s.calls[c].(ino := Some(ino), pc := Writing(0)))
    case OpenFail(c) => WithPc(s, c, Cleaning)
    case WriteOk(c, k) => Appended(s, c, k, Writing(s.calls[c].pc.off + k))
    case WriteFail(c, k) => Appended(s, c, k, Cleaning)
    case SyncOk(c) =>
      var ino := s.calls[c].ino.value;
      WithPc(s, c, Renaming).(inodes := s.inodes[ino := s.inodes[ino].(synced := true)])
    case SyncFail(c) => WithPc(s, c, Cleaning)
    case CleanOk(c) => WithPc(WithOp(s, Unlink(c, TempOf(cfg, s, c))), c, Done(false))
    case CleanFail(c) => WithPc(s, c, Done(false))
    case RenameOk(c) =>
      var tmp := TempOf(cfg, s, c);
      var s' := WithOp(s, Publish(c, tmp, s.calls[c].rel, s.dir[tmp]));
      WithCall(s', c, s.calls[c].(pc := DirSyncing, published := Some(|s.ops|)))
    case RenameFail(c) => WithPc(s, c, Done(false))
    case DirSyncOk(c) =>
      WithPc(s, c, Done(true)).(durable := if cfg.syncsDirs then |s.ops| else s.durable)
    case DirSyncFail(c) => WithPc(s, c, Done(false))
  }

  // ----- Runs -----

  ghost predicate Init(s: Sys) {
    && s.ops == [] && s.durable == 0 && s.calls == [] && s.dir == s.base
    && (forall n :: n in s.base ==> s.base[n] < |s.inodes|)
    && (forall i :: 0 <= i < |s.inodes| ==> s.inodes[i].synced)
  }

  ghost predicate ValidRun(cfg: Config, s: Sys, run: seq<Action>)
    decreases |run|, 0
  {
    run == [] || (ValidRun(cfg, s, run[..|run| - 1]) && Enabled(cfg, Exec(cfg, s, run[..|run| - 1]), run[|run| - 1]))
  }

  ghost function Exec(cfg: Config, s: Sys, run: seq<Action>): Sys
    requires ValidRun(cfg, s, run)
    decreases |run|, 1
  {
    if run == [] then s else Next(cfg, Exec(cfg, s, run[..|run| - 1]), run[|run| - 1])
  }

  /** `s` is reached from the initial state `s0` by `run`. */
  ghost predicate Reaches(cfg: Config, s0: Sys, run: seq<Action>, s: Sys) {
    Init(s0) && ValidRun(cfg, s0, run) && Exec(cfg, s0, run) == s
  }

  lemma ReachesNext(cfg: Config, s0: Sys, run: seq<Action>, s: Sys, a: Action)
    requires Reaches(cfg, s0, run, s) && Enabled(cfg, s, a)
    ensures Reaches(cfg, s0, run + [a], Next(cfg, s, a))
  {
    assert (run + [a])[..|run|] == run;
  }

  // ----- Crashes -----

  /** The directory if only the updates that `keep` selects ever took effect. */
  ghost function Replay(base: Dir, ops: seq<DirOp>, keep: nat -> bool): Dir {
    if ops == [] then base
    else
      var d := Replay(base, ops[..|ops| - 1], keep);
      if keep(|ops| - 1) then ApplyOp(d, ops[|ops| - 1]) else d
  }

  /** A crash keeps every synced update and any of the others, and every synced file. */
  ghost predicate CrashOutcome(s: Sys, keep: nat -> bool, disk: seq<Bytes>) {
    && (forall i: nat :: i < s.durable ==> keep(i))
    && |disk| == |s.inodes|
    && (forall i :: 0 <= i < |disk| && s.inodes[i].synced ==> disk[i] == s.inodes[i].data)
  }

  ghost function Contents(d: Dir, disk: seq<Bytes>, name: Name): Option<Bytes> {
    if name in d && d[name] < |disk| then Some(disk[d[name]]) else None
  }

  ghost function AfterCrash(s: Sys, keep: nat -> bool, disk: seq<Bytes>, name: Name): Option<Bytes> {
    Contents(Replay(s.base, s.ops, keep), disk, name)
  }

  function Data(inodes: seq<Inode>): seq<Bytes> {
    seq(|inodes|, i requires 0 <= i < |inodes| => inodes[i].data)
  }

  /** What a reader of the running system finds under a name. */
  ghost function Visible(s: Sys, name: Name): Option<Bytes> {
    Contents(s.dir, Data(s.inodes), name)
  }
}
