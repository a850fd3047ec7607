/** Waiting for whichever child ends first: the portable loop
    (crates/platform/src/process.rs) and the pidfd path of the Linux backend
    (crates/platform-linux/src/process.rs), held to one contract. */
module WaitAny {
  import opened Wrappers
  import opened WaitStatus
  import opened Children

  /** Children of one kernel with different pids, all waitable. */
  ghost predicate Family(k: Kernel, cs: seq<LinuxChild>)
    reads k, cs
  {
    && (forall i :: 0 <= i < |cs| ==> cs[i].kernel == k && cs[i].Valid())
    && (forall i, j :: 0 <= i < j < |cs| ==> cs[i].pid != cs[j].pid)
  }

  ghost function Stashes(cs: seq<LinuxChild>): seq<Option<ExitStatus>>
    reads cs
  {
    seq(|cs|, i requires 0 <= i < |cs| reads cs => cs[i].reaped)
  }

  /** Which of the children have ended and wait to be reaped. */
  ghost function Zombies(k: Kernel, cs: seq<LinuxChild>): seq<bool>
    reads k
  {
    seq(|cs|, i requires 0 <= i < |cs| reads k => cs[i].pid in k.procs && k.procs[cs[i].pid].Zombie?)
  }

  /** `StillWaiting`: without a timeout the call has not returned after the given number of
      rounds. */
  datatype Outcome = Ready(index: nat) | TimedOut | Errored(error: Error) | StillWaiting

  /** Neither stashed nor ended: the first `n` children. */
  ghost predicate NoneEnded(before: seq<Option<ExitStatus>>, zombies: seq<bool>, n: nat) {
    n <= |before| && n <= |zombies| && forall j :: 0 <= j < n ==> before[j].None? && !zombies[j]
  }

  /** The contract of `wait_any`, given the stashes and the ended processes at the call: only the
      child it names may change from unknown to ended, its status is stashed, nothing else
      changes; no child in front of it had ended; it only gives up if no child at all had ended;
      and an empty list is refused. */
  ghost predicate WaitAnyContract(before: seq<Option<ExitStatus>>, zombies: seq<bool>, after: seq<Option<ExitStatus>>, r: Outcome) {
    && |after| == |before|
    && (before == [] ==> r == Errored(InvalidInput))
    && match r
       case Ready(i) =>
         && i < |before| && after[i].Some? && Terminal(after[i].value)
         && (before[i].Some? ==> after[i] == before[i])
         && (forall j :: 0 <= j < |before| && j != i ==> after[j] == before[j])
         && NoneEnded(before, zombies, i)
       case Errored(_) => after == before
       case _ => after == before && NoneEnded(before, zombies, |before|)
  }

  /** Each of the first `n` children was asked for its status so many times. */
  twostate predicate Asked(k: Kernel, cs: seq<LinuxChild>, n: nat, times: nat)
    reads k
  {
    n <= |cs| && forall j :: 0 <= j < n ==> old(k.asks)[cs[j].pid] + times <= k.asks[cs[j].pid]
  }

  /** The contract also holds for an earlier call, when fewer children had ended. */
  lemma Earlier(before: seq<Option<ExitStatus>>, early: seq<bool>, late: seq<bool>, after: seq<Option<ExitStatus>>, r: Outcome)
    requires WaitAnyContract(before, late, after, r) && |early| == |late| == |before|
    requires forall j :: 0 <= j < |early| && early[j] ==> late[j]
    ensures WaitAnyContract(before, early, after, r)
  {
  }

  /** One child polled: the family stays one, and the other stashes and zombies stay. */
  method Poll(k: Kernel, cs: seq<LinuxChild>, i: nat) returns (r: Result<Option<ExitStatus>>)
    requires Family(k, cs) && i < |cs|
    modifies k, cs[i]
    ensures Family(k, cs) && k.KeepsReaped() && k.KeepsRecord() && k.OnlyPolls()
    ensures forall j :: 0 <= j < |cs| && j != i ==> cs[j].reaped == old(cs[j].reaped)
    ensures forall j :: 0 <= j < |cs| && j != i && old(Zombies(k, cs))[j] ==> Zombies(k, cs)[j]
    ensures r.Ok? ==> r.value == cs[i].reaped
    ensures old(cs[i].reaped).Some? || r.Err? ==> cs[i].reaped == old(cs[i].reaped)
    ensures old(cs[i].reaped).Some? ==> r.Ok?
    ensures old(Zombies(k, cs))[i] && r.Ok? ==> cs[i].reaped.Some?
    ensures r.Err? ==> k.failures > old(k.failures)
    ensures old(cs[i].reaped).None? ==> old(k.asks)[cs[i].pid] < k.asks[cs[i].pid]
  {
    assert forall j :: 0 <= j < |cs| ==> cs[j].kernel == k && cs[j].Valid();
    r := cs[i].TryWait();
  }

  /** One pass over the children, in order: the loop body that both versions share. */
  method Sweep(k: Kernel, cs: seq<LinuxChild>) returns (r: Outcome)
    requires Family(k, cs) && cs != []
    modifies k, cs
    ensures Family(k, cs) && k.KeepsReaped() && k.KeepsRecord() && k.OnlyPolls()
    ensures WaitAnyContract(old(Stashes(cs)), old(Zombies(k, cs)), Stashes(cs), r)
    ensures r.Errored? ==> cs == [] || k.failures > old(k.failures)
    ensures r.TimedOut? || r.StillWaiting? ==> Asked(k, cs, |cs|, 1)
    ensures !r.StillWaiting?
  {
    ghost var before, zombies := Stashes(cs), Zombies(k, cs);
    for i := 0 to |cs|
      invariant Family(k, cs) && k.KeepsReaped() && k.KeepsRecord() && k.OnlyPolls()
      invariant Stashes(cs) == before && NoneEnded(before, zombies, i) && Asked(k, cs, i, 1)
      invariant forall j :: i <= j < |cs| && zombies[j] ==> Zombies(k, cs)[j]
    {
      var polled := Poll(k, cs, i);
      match polled
      case Err(e) =>
        assert Stashes(cs) == before;
        return Errored(e);
      case Ok(status) =>
        if status.Some? {
          return Ready(i);
        }
        assert Stashes(cs) == before;
    }
    r := TimedOut;
  }

  /** The portable loop: poll every child, then give up if the limit has passed, else sleep.
      `timeout` counts the rounds until the limit; `rounds` bounds the wait without one. */
  method WaitAnyPortable(k: Kernel, cs: seq<LinuxChild>, timeout: Option<nat>, rounds: nat) returns (r: Outcome)
    requires Family(k, cs)
    modifies k, cs
    ensures Family(k, cs) && k.KeepsReaped() && k.KeepsRecord() && k.OnlyPolls()
    ensures WaitAnyContract(old(Stashes(cs)), old(Zombies(k, cs)), Stashes(cs), r)
    ensures r.Errored? ==> cs == [] || k.failures > old(k.failures)
    ensures r.TimedOut? && timeout.Some? ==> Asked(k, cs, |cs|, timeout.value + 1)
    ensures r.StillWaiting? ==> Asked(k, cs, |cs|, rounds + 1)
    ensures r.TimedOut? ==> timeout.Some?
    ensures r.StillWaiting? ==> timeout.None?
  {
    if cs == [] {
      return Errored(InvalidInput);
    }
    var limit: nat := if timeout.Some? then timeout.value else rounds;
    var left: nat := limit;
    ghost var before, zombies := Stashes(cs), Zombies(k, cs);
    while true
      invariant Family(k, cs) && k.KeepsReaped() && k.KeepsRecord() && k.OnlyPolls()
      invariant Stashes(cs) == before
      invariant forall j :: 0 <= j < |cs| && zombies[j] ==> Zombies(k, cs)[j]
      invariant left <= limit && Asked(k, cs, |cs|, limit - left)
      decreases left
    {
      ghost var now := Zombies(k, cs);
      r := Sweep(k, cs);
      Earlier(before, zombies, now, Stashes(cs), r);
      if !r.TimedOut? {
        return;
      }
      if left == 0 {
        return if timeout.Some? then TimedOut else StillWaiting;
      }
      left := left - 1;
    }
  }

  datatype PollReply = Readable(pos: nat) | Expired | NoPidfd | PollFailed(errno: int)

  /** The first position whose process has ended. */
  method FirstEnded(k: Kernel, pids: seq<Pid>) returns (r: Option<nat>)
    requires forall i :: 0 <= i < |pids| ==> pids[i] in k.procs
    ensures r.Some? ==> r.value < |pids| && k.procs[pids[r.value]].Zombie?
    ensures r.Some? ==> forall i :: 0 <= i < r.value ==> !k.procs[pids[i]].Zombie?
    ensures r.None? ==> forall i :: 0 <= i < |pids| ==> !k.procs[pids[i]].Zombie?
  {
    for i := 0 to |pids|
      invariant forall j :: 0 <= j < i ==> !k.procs[pids[j]].Zombie?
    {
      if k.procs[pids[i]].Zombie? {
        return Some(i);
      }
    }
    r := None;
  }

  /** The pids are those of processes that can be waited for. */
  ghost predicate Waitable(procs: map<Pid, Proc>, pids: seq<Pid>) {
    forall i :: 0 <= i < |pids| ==> pids[i] in procs && !procs[pids[i]].Reaped?
  }

  /** None of the first `n` processes has ended. */
  ghost predicate Alive(procs: map<Pid, Proc>, pids: seq<Pid>, n: nat) {
    n <= |pids| && forall i :: 0 <= i < n ==> pids[i] in procs && !procs[pids[i]].Zombie?
  }

  /** Time has passed: processes that had ended still have. */
  ghost predicate AllEvolve(before: map<Pid, Proc>, after: map<Pid, Proc>) {
    before.Keys == after.Keys && forall q :: q in after ==> Evolves(before[q], after[q])
  }

  lemma AliveBefore(before: map<Pid, Proc>, after: map<Pid, Proc>, pids: seq<Pid>, n: nat)
    requires AllEvolve(before, after) && Alive(after, pids, n)
    ensures Alive(before, pids, n)
  {
    forall i | 0 <= i < n
      ensures pids[i] in before && !before[pids[i]].Zombie?
    {
      var q := pids[i];
      assert q in after;
      assert Evolves(before[q], after[q]);
    }
  }

  lemma WaitableLater(before: map<Pid, Proc>, after: map<Pid, Proc>, pids: seq<Pid>)
    requires AllEvolve(before, after) && Waitable(before, pids)
    ensures Waitable(after, pids)
  {
    forall i | 0 <= i < |pids|
      ensures pids[i] in after && !after[pids[i]].Reaped?
    {
      var q := pids[i];
      assert q in before.Keys;
      assert q in after;
      assert Evolves(before[q], after[q]);
    }
  }

  /** One `poll`, not interrupted: names the first process that has ended, or expires if there is
      none, or blocks until there is. */
  method PollOnce(k: Kernel, pids: seq<Pid>, forever: bool) returns (r: PollReply)
    requires k.Valid() && pids != [] && Waitable(k.procs, pids)
    modifies k
    ensures k.Valid() && AllEvolve(old(k.procs), k.procs) && k.KeepsRecord() && k.OnlyPolls()
    ensures r.Readable? ==> r.pos < |pids| && k.procs[pids[r.pos]].Zombie? && Alive(old(k.procs), pids, r.pos)
    ensures r.Expired? ==> !forever && Alive(old(k.procs), pids, |pids|)
    ensures !r.NoPidfd?
    ensures r.PollFailed? ==> k.failures > old(k.failures)
  {
    var fails: bool := *;
    if fails {
      var errno: int := *;
      k.failures := k.failures + 1;
      return PollFailed(errno);
    }
    var hit := FirstEnded(k, pids);
    if hit.Some? {
      return Readable(hit.value);
    } else if !forever {
      return Expired;
    }
    assert Alive(k.procs, pids, |pids|);
    var pos: nat, w: Word :| pos < |pids| && IsExitWord(w);
    k.procs := k.procs[pids[pos] := Zombie(w)];
    r := Readable(pos);
  }

  /** `poll_pids`: opens a pidfd for each pid, then polls them, retrying when interrupted. A
      pidfd is readable once its process has ended; a kernel without pidfds says so. */
  method PollPids(k: Kernel, pids: seq<Pid>, forever: bool) returns (r: PollReply)
    requires k.Valid() && pids != [] && Waitable(k.procs, pids)
    modifies k
    ensures k.Valid() && AllEvolve(old(k.procs), k.procs) && k.KeepsRecord() && k.OnlyPolls()
    ensures r.Readable? ==> r.pos < |pids| && k.procs[pids[r.pos]].Zombie? && Alive(old(k.procs), pids, r.pos)
    ensures r.Expired? ==> !forever && Alive(old(k.procs), pids, |pids|)
    ensures r.PollFailed? ==> k.failures > old(k.failures)
  {
    var supported: bool := *;
    if !supported {
      return NoPidfd;
    }
    while true
      invariant k.Valid() && AllEvolve(old(k.procs), k.procs) && k.KeepsRecord() && k.OnlyPolls()
      decreases k.interruptions
    {
      k.Elapse();
      if k.interruptions > 0 {
        k.interruptions := k.interruptions - 1;
        continue;
      }
      ghost var now := k.procs;
      WaitableLater(old(k.procs), now, pids);
      r := PollOnce(k, pids, forever);
      if r.Readable? || r.Expired? {
        AliveBefore(old(k.procs), now, pids, if r.Readable? then r.pos else |pids|);
      }
      return;
    }
  }

  /** The fast pass: polls every child, and collects the pids of those that are this backend's own
      until it meets one that is not. */
  method FastPass(k: Kernel, cs: seq<LinuxChild>, ours: seq<bool>) returns (r: Option<Outcome>, pids: Option<seq<Pid>>)
    requires Family(k, cs) && |ours| == |cs| > 0
    modifies k, cs
    ensures Family(k, cs) && k.KeepsReaped() && k.KeepsRecord() && k.OnlyPolls()
    ensures r.Some? ==> WaitAnyContract(old(Stashes(cs)), old(Zombies(k, cs)), Stashes(cs), r.value) && (r.value.Ready? || r.value.Errored?)
    ensures r.Some? && r.value.Errored? ==> k.failures > old(k.failures)
    ensures r.None? ==> Stashes(cs) == old(Stashes(cs))
    ensures r.None? ==> forall j :: 0 <= j < |cs| && old(Zombies(k, cs))[j] ==> Zombies(k, cs)[j]
    ensures r.None? && pids.Some? ==> NoneEnded(old(Stashes(cs)), old(Zombies(k, cs)), |cs|) && pids.value == Pids(cs)
    ensures r.None? && pids.Some? ==> Asked(k, cs, |cs|, 1)
  {
    ghost var before, zombies := Stashes(cs), Zombies(k, cs);
    var pending: seq<Pid> := [];
    r, pids := None, None;
    for i := 0 to |cs|
      invariant Family(k, cs) && k.KeepsReaped() && k.KeepsRecord() && k.OnlyPolls()
      invariant Stashes(cs) == before && NoneEnded(before, zombies, i) && Asked(k, cs, i, 1)
      invariant forall j :: 0 <= j < |cs| && zombies[j] ==> Zombies(k, cs)[j]
      invariant |pending| == i && forall j :: 0 <= j < i ==> pending[j] == cs[j].pid
    {
      var polled := Poll(k, cs, i);
      match polled
      case Err(e) =>
        assert Stashes(cs) == before;
        return Some(Errored(e)), None;
      case Ok(status) =>
        if status.Some? {
          return Some(Ready(i)), None;
        }
        assert Stashes(cs) == before;
        if !ours[i] {
          return;
        }
        pending := pending + [cs[i].pid];
    }
    pids := Some(pending);
  }

  ghost predicate NoneStashed(cs: seq<LinuxChild>)
    reads cs
  {
    forall j :: 0 <= j < |cs| ==> cs[j].reaped.None?
  }

  ghost function Pids(cs: seq<LinuxChild>): seq<Pid> {
    seq(|cs|, i requires 0 <= i < |cs| => cs[i].pid)
  }

  lemma FamilyWaitable(k: Kernel, cs: seq<LinuxChild>)
    requires Family(k, cs) && NoneStashed(cs)
    ensures Waitable(k.procs, Pids(cs))
  {
    forall j | 0 <= j < |cs|
      ensures cs[j].pid in k.procs && !k.procs[cs[j].pid].Reaped?
    {
      assert cs[j].Valid();
    }
  }

  lemma AliveNotEnded(procs: map<Pid, Proc>, cs: seq<LinuxChild>, before: seq<Option<ExitStatus>>, zombies: seq<bool>, n: nat)
    requires Alive(procs, Pids(cs), n) && |before| == |zombies| == |cs|
    requires forall j :: 0 <= j < |cs| ==> before[j].None? && zombies[j] == (cs[j].pid in procs && procs[cs[j].pid].Zombie?)
    ensures NoneEnded(before, zombies, n)
  {
    forall j | 0 <= j < n
      ensures !zombies[j]
    {
      assert Pids(cs)[j] == cs[j].pid;
    }
  }

  /** Reaps the child whose pidfd was readable, so that its status is stashed. */
  method ReapReady(k: Kernel, cs: seq<LinuxChild>, pos: nat, ghost zombies: seq<bool>) returns (r: Outcome)
    requires Family(k, cs) && pos < |cs| && NoneStashed(cs) && Zombies(k, cs)[pos]
    requires |zombies| == |cs| && NoneEnded(Stashes(cs), zombies, pos)
    modifies k, cs
    ensures Family(k, cs) && k.KeepsReaped() && k.KeepsRecord() && k.OnlyPolls()
    ensures WaitAnyContract(old(Stashes(cs)), zombies, Stashes(cs), r) && (r.Ready? || r.Errored?)
    ensures r.Errored? ==> k.failures > old(k.failures)
  {
    ghost var before := Stashes(cs);
    var polled := Poll(k, cs, pos);
    if polled.Err? {
      assert Stashes(cs) == before;
      return Errored(polled.error);
    }
    r := Ready(pos);
  }

  /** The wait proper: one `poll` over the pidfds of children none of which is stashed. */
  method PollChildren(k: Kernel, cs: seq<LinuxChild>, pids: seq<Pid>, timeout: Option<nat>, rounds: nat) returns (r: Outcome)
    requires Family(k, cs) && cs != [] && NoneStashed(cs) && pids == Pids(cs)
    modifies k, cs
    ensures Family(k, cs) && k.KeepsReaped() && k.KeepsRecord() && k.OnlyPolls()
    ensures WaitAnyContract(old(Stashes(cs)), old(Zombies(k, cs)), Stashes(cs), r)
    ensures r.Errored? ==> cs == [] || k.failures > old(k.failures)
    ensures r.TimedOut? ==> timeout.Some?
    ensures r.StillWaiting? ==> timeout.None?
  {
    ghost var before, zombies := Stashes(cs), Zombies(k, cs);
    assert cs[0].Valid();
    FamilyWaitable(k, cs);
    var ready := PollPids(k, pids, timeout.None?);
    assert Family(k, cs) && Stashes(cs) == before;
    match ready
    case Readable(pos) =>
      AliveNotEnded(old(k.procs), cs, before, zombies, pos);
      r := ReapReady(k, cs, pos, zombies);
    case Expired =>
      AliveNotEnded(old(k.procs), cs, before, zombies, |cs|);
      r := TimedOut;
    case NoPidfd =>
      ghost var now := Zombies(k, cs);
      r := WaitAnyPortable(k, cs, timeout, rounds);
      Earlier(before, zombies, now, Stashes(cs), r);
    case PollFailed(errno) =>
      r := Errored(Os(errno));
  }

  /** `LinuxSpawner::wait_any`: a polling pass, then one `poll` over pidfds; the portable loop
      when a child is not this backend's own or the kernel has no pidfds. */
  method WaitAnyPidfd(k: Kernel, cs: seq<LinuxChild>, ours: seq<bool>, timeout: Option<nat>, rounds: nat) returns (r: Outcome)
    requires Family(k, cs) && |ours| == |cs|
    modifies k, cs
    ensures Family(k, cs) && k.KeepsReaped() && k.KeepsRecord() && k.OnlyPolls()
    ensures WaitAnyContract(old(Stashes(cs)), old(Zombies(k, cs)), Stashes(cs), r)
    ensures r.Errored? ==> cs == [] || k.failures > old(k.failures)
    ensures r.TimedOut? || r.StillWaiting? ==> Asked(k, cs, |cs|, 1)
    ensures r.TimedOut? ==> timeout.Some?
    ensures r.StillWaiting? ==> timeout.None?
  {
    if cs == [] {
      return Errored(InvalidInput);
    }
    ghost var before, zombies := Stashes(cs), Zombies(k, cs);
    var done, pids := FastPass(k, cs, ours);
    if done.Some? {
      return done.value;
    }
    ghost var now := Zombies(k, cs);
    match pids
    case None =>
      r := WaitAnyPortable(k, cs, timeout, rounds);
    case Some(all) =>
      assert forall j :: 0 <= j < |cs| ==> cs[j].reaped == before[j] && before[j].None?;
      r := PollChildren(k, cs, all, timeout, rounds);
    Earlier(before, zombies, now, Stashes(cs), r);
  }
}
