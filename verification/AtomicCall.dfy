/** The body of `write_atomic` (crates/platform/src/fs.rs) as it is written: a counter bump, a
    loop over short writes, and a sequence of fallible effects. Every effect it has is a step
    of the protocol in `WriteAtomic`, so all that is proved of runs holds for it. */
module AtomicCall {
  import opened Wrappers
  import opened TempNames
  import opened WriteAtomic

  ghost predicate SameName(before: Dir, after: Dir, n: Name) {
    (n in after <==> n in before) && (n in after ==> after[n] == before[n])
  }

  /** All names but `x` and `y` denote what they did. */
  ghost predicate SameNames(before: Dir, after: Dir, x: Name, y: Name) {
    forall n :: n != x && n != y ==> SameName(before, after, n)
  }

  lemma SameLater(a: Dir, b: Dir, c: Dir, x: Name, y: Name)
    requires SameNames(a, b, x, x) && SameNames(b, c, x, y)
    ensures SameNames(a, c, x, y)
  {
    forall n | n != x && n != y
      ensures SameName(a, c, n)
    {
      assert SameName(a, b, n) && SameName(b, c, n);
    }
  }

  /** Every name but the temporary one of call `c`, and every file, is as in `before`. */
  ghost predicate OthersKept(cfg: Config, before: Sys, s: Sys, c: nat) {
    && c == |before.calls| && |s.calls| == c + 1 && s.calls[..c] == before.calls
    && |before.inodes| <= |s.inodes| && s.inodes[..|before.inodes|] == before.inodes
    && SameNames(before.dir, s.dir, TempOf(cfg, s, c), TempOf(cfg, s, c))
  }

  /** The temporary file of call `c` is in place and holds the first `off` bytes. */
  ghost predicate Staged(cfg: Config, before: Sys, s: Sys, c: nat, off: nat) {
    && |s.calls| == c + 1 && HasFile(s, s.calls[c]) && off <= |s.calls[c].contents|
    && |before.inodes| <= s.calls[c].ino.value
    && TempOf(cfg, s, c) in s.dir && s.dir[TempOf(cfg, s, c)] == s.calls[c].ino.value
    && s.inodes[s.calls[c].ino.value].data == s.calls[c].contents[..off]
  }

  /** Call `c`, begun in state `before`, has not renamed and is at its present step. */
  ghost predicate Unpublished(cfg: Config, before: Sys, s: Sys, c: nat, rel: Name, contents: Bytes) {
    && OthersKept(cfg, before, s, c)
    && s.calls[c].rel == rel && s.calls[c].contents == contents && s.calls[c].published.None?
    && (s.calls[c].pc.Writing? ==> Staged(cfg, before, s, c, s.calls[c].pc.off))
    && (s.calls[c].pc.Renaming? ==> Staged(cfg, before, s, c, |contents|) && s.inodes[s.calls[c].ino.value].synced)
  }

  /** The machine lets no step from the n-th up to the m-th fail. */
  ghost predicate Smooth(fails: nat -> bool, n: nat, m: nat) {
    forall i: nat :: n <= i < m ==> !fails(i)
  }

  lemma SmoothParts(fails: nat -> bool, a: nat, b: nat, c: nat)
    requires a <= b <= c
    ensures Smooth(fails, a, c) <==> Smooth(fails, a, b) && Smooth(fails, b, c)
    ensures Smooth(fails, a, a + 1) <==> !fails(a)
  {
  }

  /** The action is what the machine answers with at a point where it fails, or does not: a step
      fails exactly if it says so, or if the name it is about is taken, or missing. */
  predicate Answers(cfg: Config, s: Sys, a: Action, failing: bool)
    requires Enabled(cfg, s, a)
  {
    if a.Begin? then true
    else
      var tmp := TempOf(cfg, s, a.c);
      match a
      case OpenOk(_) => !failing
      case OpenFail(_) => failing || tmp in s.dir
      case WriteOk(_, _) => !failing
      case WriteFail(_, _) => failing
      case SyncOk(_) => !failing
      case SyncFail(_) => failing
      case CleanOk(_) => !failing
      case CleanFail(_) => failing || tmp !in s.dir
      case RenameOk(_) => !failing
      case RenameFail(_) => failing || tmp !in s.dir
      case DirSyncOk(_) => !failing
      case DirSyncFail(_) => failing
  }

  lemma FirstStep(cfg: Config, s: Sys, rel: Name, contents: Bytes)
    ensures Unpublished(cfg, s, Next(cfg, s, Begin(rel, contents)), |s.calls|, rel, contents)
  {
  }

  lemma OpenKeeps(cfg: Config, before: Sys, s: Sys, c: nat, rel: Name, contents: Bytes)
    requires Unpublished(cfg, before, s, c, rel, contents) && Enabled(cfg, s, OpenOk(c))
    ensures Unpublished(cfg, before, Next(cfg, s, OpenOk(c)), c, rel, contents)
  {
    var tmp, s' := TempOf(cfg, s, c), Next(cfg, s, OpenOk(c));
    assert TempOf(cfg, s', c) == tmp;
    SameLater(before.dir, s.dir, s'.dir, tmp, tmp);
  }

  lemma FileKeeps(cfg: Config, before: Sys, s: Sys, a: Action, rel: Name, contents: Bytes)
    requires a.WriteOk? || a.WriteFail? || a.SyncOk?
    requires Unpublished(cfg, before, s, a.c, rel, contents) && Enabled(cfg, s, a)
    ensures Unpublished(cfg, before, Next(cfg, s, a), a.c, rel, contents)
  {
    var off := s.calls[a.c].pc.off;
    assert TempOf(cfg, Next(cfg, s, a), a.c) == TempOf(cfg, s, a.c);
    if !a.SyncOk? {
      assert contents[..off] + contents[off..off + a.k] == contents[..off + a.k];
    }
  }

  lemma ControlKeeps(cfg: Config, before: Sys, s: Sys, a: Action, rel: Name, contents: Bytes)
    requires a.OpenFail? || a.SyncFail? || a.CleanOk? || a.CleanFail? || a.RenameFail?
    requires Unpublished(cfg, before, s, a.c, rel, contents) && Enabled(cfg, s, a)
    ensures Unpublished(cfg, before, Next(cfg, s, a), a.c, rel, contents)
  {
    var tmp, s' := TempOf(cfg, s, a.c), Next(cfg, s, a);
    assert TempOf(cfg, s', a.c) == tmp;
    SameLater(before.dir, s.dir, s'.dir, tmp, tmp);
  }

  /** Call `c` has renamed, and the target reads as the whole contents; the temporary name is gone,
      and every other name, and every file, is as in `before`. */
  ghost predicate Renamed(cfg: Config, before: Sys, s: Sys, c: nat, rel: Name, contents: Bytes) {
    && |s.calls| == c + 1 && s.calls[..c] == before.calls
    && |before.inodes| <= |s.inodes| && s.inodes[..|before.inodes|] == before.inodes
    && TempOf(cfg, s, c) !in s.dir && TempOf(cfg, s, c) != rel
    && SameNames(before.dir, s.dir, TempOf(cfg, s, c), rel)
    && s.calls[c].rel == rel && s.calls[c].contents == contents && s.calls[c].published.Some?
    && Visible(s, rel) == Some(contents)
  }

  lemma RenameShows(cfg: Config, before: Sys, s: Sys, c: nat, rel: Name, contents: Bytes)
    requires Unpublished(cfg, before, s, c, rel, contents) && Enabled(cfg, s, RenameOk(c))
    ensures Renamed(cfg, before, Next(cfg, s, RenameOk(c)), c, rel, contents) && Next(cfg, s, RenameOk(c)).calls[c].pc == DirSyncing
  {
    var s' := Next(cfg, s, RenameOk(c));
    assert contents[..|contents|] == contents;
    assert s'.calls[..c] == s.calls[..c];
    assert TempOf(cfg, s', c) == TempOf(cfg, s, c) && |TempOf(cfg, s, c)| > |rel|;
    SameLater(before.dir, s.dir, s'.dir, TempOf(cfg, s, c), rel);
  }

  /** The call has ended, published or not. */
  ghost predicate Ends(cfg: Config, before: Sys, s: Sys, c: nat, rel: Name, contents: Bytes, ok: bool) {
    && c == |before.calls| && |s.calls| == c + 1 && s.calls[..c] == before.calls
    && s.calls[c].rel == rel && s.calls[c].contents == contents && s.calls[c].pc == Done(ok)
    && (if s.calls[c].published.Some? then Renamed(cfg, before, s, c, rel, contents) else !ok && OthersKept(cfg, before, s, c))
  }

  /** The machine decides which steps fail: `fails(n)` is its answer to the n-th. */
  class Volume {
    const cfg: Config
    const fails: nat -> bool
    var sys: Sys
    var steps: nat
    ghost const start: Sys
    ghost var trace: seq<Action>

    ghost predicate Valid()
      reads this
    {
      Reaches(cfg, start, trace, sys) && steps == |trace|
    }

    constructor (cfg: Config, fails: nat -> bool, initial: Sys)
      requires Init(initial)
      ensures Valid() && sys == initial && this.cfg == cfg && this.fails == fails && steps == 0
    {
      this.cfg, this.fails, sys, steps, start, trace := cfg, fails, initial, 0, initial, [];
    }

    /** One step of the protocol, as the machine answers it. */
    method Do(a: Action)
      requires Valid() && Enabled(cfg, sys, a) && Answers(cfg, sys, a, fails(steps))
      modifies this
      ensures Valid() && sys == Next(cfg, old(sys), a) && trace == old(trace) + [a] && steps == old(steps) + 1
    {
      ReachesNext(cfg, start, trace, sys, a);
      sys := Next(cfg, sys, a);
      trace := trace + [a];
      steps := steps + 1;
    }

    /** The `open` with `create_new`: refuses an existing name, and may fail anyway. */
    method Open(ghost before: Sys, c: nat, ghost rel: Name, ghost contents: Bytes) returns (ok: bool)
      requires Valid() && Unpublished(cfg, before, sys, c, rel, contents) && sys.calls[c].pc == Opening
      modifies this
      ensures Valid() && old(trace) <= trace && Unpublished(cfg, before, sys, c, rel, contents)
      ensures sys.calls[c].pc == if ok then Writing(0) else Cleaning
      ensures steps == old(steps) + 1 && (ok <==> !fails(old(steps)) && TempOf(cfg, old(sys), c) !in old(sys).dir)
    {
      ok := !fails(steps) && TempOf(cfg, sys, c) !in sys.dir;
      if ok {
        OpenKeeps(cfg, before, sys, c, rel, contents);
        Do(OpenOk(c));
      } else {
        ControlKeeps(cfg, before, sys, OpenFail(c), rel, contents);
        Do(OpenFail(c));
      }
    }

    /** One `write` of the rest: takes some of it, or fails with any part written. */
    method Write(ghost before: Sys, c: nat, ghost rel: Name, contents: Bytes, off: nat) returns (n: nat)
      requires Valid() && Unpublished(cfg, before, sys, c, rel, contents)
      requires sys.calls[c].pc == Writing(off) && off < |contents|
      modifies this
      ensures Valid() && old(trace) <= trace && Unpublished(cfg, before, sys, c, rel, contents)
      ensures off + n <= |contents|
      ensures sys.calls[c].pc == if n > 0 then Writing(off + n) else Cleaning
      ensures steps == old(steps) + 1 && (n > 0 <==> !fails(old(steps)))
    {
      if fails(steps) {
        n := 0;
        var partial: nat :| off + partial <= |contents|;
        FileKeeps(cfg, before, sys, WriteFail(c, partial), rel, contents);
        Do(WriteFail(c, partial));
      } else {
        n :| 0 < n && off + n <= |contents|;
        FileKeeps(cfg, before, sys, WriteOk(c, n), rel, contents);
        Do(WriteOk(c, n));
      }
    }

    method SyncAll(ghost before: Sys, c: nat, ghost rel: Name, ghost contents: Bytes) returns (ok: bool)
      requires Valid() && Unpublished(cfg, before, sys, c, rel, contents) && sys.calls[c].pc == Writing(|contents|)
      modifies this
      ensures Valid() && old(trace) <= trace && Unpublished(cfg, before, sys, c, rel, contents)
      ensures sys.calls[c].pc == if ok then Renaming else Cleaning
      ensures steps == old(steps) + 1 && (ok <==> !fails(old(steps)))
    {
      ok := !fails(steps);
      if ok {
        FileKeeps(cfg, before, sys, SyncOk(c), rel, contents);
        Do(SyncOk(c));
      } else {
        ControlKeeps(cfg, before, sys, SyncFail(c), rel, contents);
        Do(SyncFail(c));
      }
    }

    /** The loop over short writes. */
    method WriteAll(ghost before: Sys, c: nat, ghost rel: Name, contents: Bytes) returns (ok: bool)
      requires Valid() && Unpublished(cfg, before, sys, c, rel, contents) && sys.calls[c].pc == Writing(0)
      modifies this
      ensures Valid() && old(trace) <= trace && Unpublished(cfg, before, sys, c, rel, contents)
      ensures sys.calls[c].pc == if ok then Writing(|contents|) else Cleaning
      ensures old(steps) <= steps && (ok <==> Smooth(fails, old(steps), steps))
    {
      var off := 0;
      while off < |contents|
        invariant Valid() && old(trace) <= trace && Unpublished(cfg, before, sys, c, rel, contents)
        invariant off <= |contents| && sys.calls[c].pc == Writing(off)
        invariant old(steps) <= steps && Smooth(fails, old(steps), steps)
      {
        ghost var now := steps;
        var n := Write(before, c, rel, contents, off);
        SmoothParts(fails, old(steps), now, steps);
        SmoothParts(fails, now, steps, steps);
        if n == 0 {
          return false;
        }
        off := off + n;
      }
      ok := true;
    }

    /** The closure `write_and_sync`: open, a loop over short writes, sync. */
    method WriteAndSync(ghost before: Sys, c: nat, ghost rel: Name, contents: Bytes) returns (ok: bool)
      requires Valid() && Unpublished(cfg, before, sys, c, rel, contents) && sys.calls[c].pc == Opening
      modifies this
      ensures Valid() && old(trace) <= trace && Unpublished(cfg, before, sys, c, rel, contents)
      ensures sys.calls[c].pc == if ok then Renaming else Cleaning
      ensures old(steps) < steps
      ensures ok <==> TempOf(cfg, old(sys), c) !in old(sys).dir && Smooth(fails, old(steps), steps)
      ensures ok ==> HasFile(sys, sys.calls[c]) && sys.inodes[sys.calls[c].ino.value] == Inode(contents, true)
    {
      ok := Open(before, c, rel, contents);
      SmoothParts(fails, old(steps), old(steps) + 1, steps);
      if !ok {
        return;
      }
      ok := WriteAll(before, c, rel, contents);
      ghost var now := steps;
      SmoothParts(fails, old(steps), old(steps) + 1, now);
      if ok {
        ok := SyncAll(before, c, rel, contents);
        SmoothParts(fails, old(steps), now, steps);
        SmoothParts(fails, now, now + 1, now + 1);
      }
    }

    /** Best-effort removal of the temporary file: tried, whatever comes of it. */
    method RemoveFile(ghost before: Sys, c: nat, ghost rel: Name, ghost contents: Bytes)
      requires Valid() && Unpublished(cfg, before, sys, c, rel, contents) && sys.calls[c].pc == Cleaning
      modifies this
      ensures Valid() && old(trace) <= trace && Unpublished(cfg, before, sys, c, rel, contents)
      ensures sys.calls[c].pc == Done(false)
      ensures steps == old(steps) + 1 && (!fails(old(steps)) ==> TempOf(cfg, sys, c) !in sys.dir)
    {
      var removed := !fails(steps) && TempOf(cfg, sys, c) in sys.dir;
      ghost var tmp := TempOf(cfg, sys, c);
      if removed {
        ControlKeeps(cfg, before, sys, CleanOk(c), rel, contents);
        Do(CleanOk(c));
      } else {
        ControlKeeps(cfg, before, sys, CleanFail(c), rel, contents);
        Do(CleanFail(c));
      }
      assert TempOf(cfg, sys, c) == tmp;
    }

    /** `rename` */
    method Rename(ghost before: Sys, c: nat, ghost rel: Name, ghost contents: Bytes) returns (ok: bool)
      requires Valid() && Unpublished(cfg, before, sys, c, rel, contents) && sys.calls[c].pc == Renaming
      modifies this
      ensures Valid() && old(trace) <= trace && steps == old(steps) + 1 && (ok <==> !fails(old(steps)))
      ensures ok ==> Renamed(cfg, before, sys, c, rel, contents) && sys.calls[c].pc == DirSyncing
      ensures !ok ==> Unpublished(cfg, before, sys, c, rel, contents) && sys.calls[c].pc == Done(false)
    {
      ok := !fails(steps);
      if ok {
        RenameShows(cfg, before, sys, c, rel, contents);
        Do(RenameOk(c));
      } else {
        ControlKeeps(cfg, before, sys, RenameFail(c), rel, contents);
        Do(RenameFail(c));
      }
    }

    /** `sync_dir`, whose result is the result of the call. */
    method SyncDir(ghost before: Sys, c: nat, ghost rel: Name, ghost contents: Bytes) returns (ok: bool)
      requires Valid() && Renamed(cfg, before, sys, c, rel, contents) && sys.calls[c].pc == DirSyncing
      modifies this
      ensures Valid() && old(trace) <= trace && steps == old(steps) + 1 && (ok <==> !fails(old(steps)))
      ensures Renamed(cfg, before, sys, c, rel, contents) && sys.calls[c].pc == Done(ok)
    {
      ok := !fails(steps);
      Do(if ok then DirSyncOk(c) else DirSyncFail(c));
      assert sys.calls[..c] == old(sys.calls)[..c];
      assert TempOf(cfg, sys, c) == TempOf(cfg, old(sys), c);
    }

    /** `rename` and `sync_dir`. */
    method Publish(ghost before: Sys, c: nat, ghost rel: Name, ghost contents: Bytes) returns (ok: bool)
      requires Valid() && Unpublished(cfg, before, sys, c, rel, contents) && sys.calls[c].pc == Renaming
      modifies this
      ensures Valid() && old(trace) <= trace && Ends(cfg, before, sys, c, rel, contents, ok)
      ensures old(steps) <= steps && (ok <==> Smooth(fails, old(steps), steps))
    {
      ok := Rename(before, c, rel, contents);
      SmoothParts(fails, old(steps), old(steps) + 1, steps);
      if ok {
        ok := SyncDir(before, c, rel, contents);
        SmoothParts(fails, old(steps), old(steps) + 1, steps);
        SmoothParts(fails, old(steps) + 1, steps, steps);
      }
    }

    /** `write_atomic`: once it has renamed, the target reads as the new contents and no other name
        has changed; if it fails before that, none but its temporary one has. It is `Ok` exactly
        if the temporary name was free and the machine let none of its steps fail. */
    method WriteAtomic(rel: Name, contents: Bytes) returns (ok: bool)
      requires Valid()
      modifies this
      ensures Valid() && old(trace) <= trace && old(steps) < steps
      ensures Ends(cfg, old(sys), sys, |old(sys.calls)|, rel, contents, ok)
      ensures ok <==> TempName(cfg.pid, rel, |old(sys.calls)| % U64) !in old(sys.dir) && Smooth(fails, old(steps) + 1, steps)
    {
      var c := |sys.calls|;
      FirstStep(cfg, sys, rel, contents);
      Do(Begin(rel, contents));
      assert TempOf(cfg, sys, c) == TempName(cfg.pid, rel, c % U64);
      ok := WriteAndSync(old(sys), c, rel, contents);
      ghost var now := steps;
      if ok {
        ok := Publish(old(sys), c, rel, contents);
      } else {
        RemoveFile(old(sys), c, rel, contents);
      }
      SmoothParts(fails, old(steps) + 1, now, steps);
    }
  }
}
