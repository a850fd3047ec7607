/** Waiting for one child (crates/platform-linux/src/process.rs over
    crates/platform-linux/src/sys/spawn.rs), against a kernel that may do anything between
    two calls that a kernel may do. */
module Children {
  import opened Wrappers
  import opened WaitStatus

  // ----- The kernel -----

  /** `Running` carries the last stop or resumption that has not been reported yet. */
  datatype Proc = Running(news: Option<Word>) | Zombie(word: Word) | Reaped(word: Word)

  predicate ValidProc(p: Proc) {
    match p
    case Running(news) => news.Some? ==> IsJobWord(news.value)
    case Zombie(w) => IsExitWord(w)
    case Reaped(w) => IsExitWord(w)
  }

  /** What may happen to a process that nobody waits for. */
  predicate Evolves(p: Proc, q: Proc) {
    ValidProc(q) && (p == q || (p.Running? && !q.Reaped?))
  }

  type Pid = int

  datatype WaitReply = Reported(word: Word) | NothingYet | Interrupted | Failed(errno: int)

  class Kernel {
    var procs: map<Pid, Proc>
    var nextPid: Pid
    /** The signals that will still interrupt a system call: any number, but not infinitely many. */
    var interruptions: nat
    /** What each process was started to run. */
    ghost var programs: map<Pid, string>
    /** Every `kill`, and every child given up to `wait`, in order. */
    ghost var kills: seq<Pid>
    ghost var waits: seq<Pid>
    /** Every command that was tried, and whether it started, in order. */
    ghost var spawns: seq<(string, bool)>
    /** How often each process was asked for its status. */
    ghost var asks: multiset<Pid>
    /** How often it was asked for stops and resumptions too. */
    ghost var jobAsks: multiset<Pid>
    /** The waits that could block, in order. */
    ghost var blocks: seq<Pid>
    /** How many system calls have failed, other than by an interruption. */
    ghost var failures: nat

    ghost predicate Valid()
      reads this
    {
      forall p :: p in procs ==> p < nextPid && ValidProc(procs[p])
    }

    /** Time passes for every process but `pid`. */
    twostate predicate OthersEvolve(pid: Pid)
      reads this
    {
      && procs.Keys == old(procs).Keys && nextPid == old(nextPid)
      && forall q :: q in procs && q != pid ==> Evolves(old(procs)[q], procs[q])
    }

    /** Nothing was started, killed or given up. */
    twostate predicate KeepsRecord()
      reads this
    {
      && programs == old(programs) && spawns == old(spawns) && nextPid == old(nextPid)
      && kills == old(kills) && waits == old(waits) && Adds()
    }

    /** No wait that could block, and none for stops and resumptions. */
    twostate predicate OnlyPolls()
      reads this
    {
      blocks == old(blocks) && jobAsks == old(jobAsks)
    }

    /** What only ever grows. */
    twostate predicate Adds()
      reads this
    {
      failures >= old(failures) && old(asks) <= asks
    }

    /** A reaped process stays reaped, with the same status, and one that has ended stays ended. */
    twostate predicate KeepsReaped()
      reads this
    {
      forall q :: q in old(procs) ==>
        && q in procs
        && (old(procs)[q].Reaped? ==> procs[q] == old(procs)[q])
        && (old(procs)[q].Zombie? ==> !procs[q].Running?)
    }

    method Elapse()
      requires Valid()
      modifies this
      ensures Valid() && procs.Keys == old(procs).Keys && nextPid == old(nextPid)
      ensures forall q :: q in procs ==> Evolves(old(procs)[q], procs[q])
      ensures interruptions == old(interruptions) && KeepsRecord() && asks == old(asks) && OnlyPolls()
    {
      assert forall q :: q in procs ==> Evolves(procs[q], procs[q]);
      var later: map<Pid, Proc> :| later.Keys == procs.Keys && forall q :: q in later ==> Evolves(procs[q], later[q]);
      forall q | q in later
        ensures q < nextPid && ValidProc(later[q])
      {
        assert q in procs && Evolves(procs[q], later[q]);
      }
      procs := later;
    }

    /** What a reply to a wait says about the process. */
    twostate predicate Replied(pid: Pid, nohang: bool, job: bool, new r: WaitReply)
      requires pid in old(procs) && pid in procs
      reads this
    {
      match r
      case Reported(w) =>
        if IsExitWord(w) then procs[pid] == Reaped(w) && (old(procs)[pid].Zombie? ==> old(procs)[pid].word == w)
        else job && IsJobWord(w) && old(procs)[pid].Running? && procs[pid] == Running(None)
      case NothingYet =>
        && nohang && old(procs)[pid].Running? && Evolves(old(procs)[pid], procs[pid])
        && (job ==> procs[pid] == Running(None))
      case Interrupted => Evolves(old(procs)[pid], procs[pid]) && interruptions < old(interruptions)
      case Failed(_) => Evolves(old(procs)[pid], procs[pid]) && failures > old(failures)
    }

    /** `waitpid`. Its precondition is the safety property of the layers above: a pid that was
        reaped may belong to another process by now and is never waited for. */
    method WaitPid(pid: Pid, nohang: bool, job: bool) returns (r: WaitReply)
      requires Valid() && pid in procs && !procs[pid].Reaped?
      modifies this
      ensures Valid() && OthersEvolve(pid) && KeepsRecord() && Replied(pid, nohang, job, r)
      ensures interruptions <= old(interruptions)
      ensures asks == old(asks) + multiset{pid}
      ensures jobAsks == if job then old(jobAsks) + multiset{pid} else old(jobAsks)
      ensures blocks == if nohang then old(blocks) else old(blocks) + [pid]
    {
      r := Serve(pid, nohang, job);
      asks := asks + multiset{pid};
      jobAsks := if job then jobAsks + multiset{pid} else jobAsks;
      blocks := if nohang then blocks else blocks + [pid];
    }

    /** The call itself: it may fail or be interrupted. */
    method Serve(pid: Pid, nohang: bool, job: bool) returns (r: WaitReply)
      requires Valid() && pid in procs && !procs[pid].Reaped?
      modifies this
      ensures Valid() && OthersEvolve(pid) && KeepsRecord() && Replied(pid, nohang, job, r)
      ensures interruptions <= old(interruptions) && asks == old(asks) && OnlyPolls()
    {
      Elapse();
      var fails: bool := *;
      if fails {
        var errno: int := *;
        failures := failures + 1;
        return Failed(errno);
      }
      if interruptions > 0 {
        interruptions := interruptions - 1;
        return Interrupted;
      }
      r := Answer(pid, nohang, job);
    }

    /** What `waitpid` reports when nothing goes wrong. */
    method Answer(pid: Pid, nohang: bool, job: bool) returns (r: WaitReply)
      requires Valid() && pid in procs && !procs[pid].Reaped?
      modifies this`procs
      ensures Valid() && pid in procs && procs == old(procs)[pid := procs[pid]] && (r.Reported? || r.NothingYet?)
      ensures r.NothingYet? ==> nohang && old(procs)[pid].Running? && procs == old(procs)
      ensures r.NothingYet? && job ==> procs[pid] == Running(None)
      ensures r.Reported? && IsExitWord(r.word) ==>
        procs[pid] == Reaped(r.word) && (old(procs)[pid].Zombie? ==> old(procs)[pid].word == r.word)
      ensures r.Reported? && !IsExitWord(r.word) ==>
        job && IsJobWord(r.word) && old(procs)[pid].Running? && procs[pid] == Running(None)
    {
      match procs[pid]
      case Zombie(w) =>
        procs := procs[pid := Reaped(w)];
        r := Reported(w);
      case Running(news) =>
        if job && news.Some? {
          procs := procs[pid := Running(None)];
          r := Reported(news.value);
        } else if nohang {
          r := NothingYet;
        } else {
          // The call blocks until the process ends, stops or resumes.
          var w: Word :| IsExitWord(w) || (job && IsJobWord(w));
          procs := procs[pid := if IsExitWord(w) then Reaped(w) else Running(None)];
          r := Reported(w);
        }
    }

    /** `kill`, which like `waitpid` must not name a reaped process. */
    method KillPid(pid: Pid)
      requires Valid() && pid in procs && !procs[pid].Reaped?
      modifies this
      ensures Valid() && procs.Keys == old(procs).Keys && nextPid == old(nextPid)
      ensures forall q :: q in procs ==> Evolves(old(procs)[q], procs[q])
      ensures kills == old(kills) + [pid] && waits == old(waits) && Adds()
      ensures programs == old(programs) && spawns == old(spawns) && OnlyPolls()
    {
      kills := kills + [pid];
      Elapse();
    }
  }

  // ----- The sys layer: retry on EINTR, decode the word -----

  datatype Result<+T> = Ok(value: T) | Err(error: Error)

  datatype Error = InvalidInput | Unsupported | Os(errno: int)

  /** The effect of one completed wait on `pid`, whose decoded outcome is `r`: a termination
      reaps it, anything else leaves it waitable. */
  twostate predicate Waited(k: Kernel, pid: Pid, new r: Result<Option<ExitStatus>>)
    reads k
    requires old(pid in k.procs)
  {
    && k.Valid() && k.OthersEvolve(pid) && k.KeepsRecord()
    && if r.Ok? && r.value.Some? && Terminal(r.value.value)
       then k.procs[pid].Reaped? && r.value.value == Decode(k.procs[pid].word)
       else !k.procs[pid].Reaped? && (old(k.procs[pid].Zombie?) ==> r.Err? && k.procs[pid] == old(k.procs[pid]))
  }

  /** `wait`, `try_wait`, `wait_job` and `try_wait_job` of the sys layer: they differ in their
      flags and in the decoder only. */
  method SysWait(k: Kernel, pid: Pid, nohang: bool, job: bool) returns (r: Result<Option<ExitStatus>>)
    requires k.Valid() && pid in k.procs && !k.procs[pid].Reaped?
    modifies k
    ensures Waited(k, pid, r)
    ensures old(k.asks)[pid] < k.asks[pid]
    ensures if job then old(k.jobAsks)[pid] < k.jobAsks[pid] else k.jobAsks == old(k.jobAsks)
    ensures nohang ==> k.blocks == old(k.blocks)
    ensures r == Ok(None) && job ==> k.procs[pid] == Running(None)
    ensures r.Err? ==> k.failures > old(k.failures)
    ensures r.Ok? && r.value.Some? && !Terminal(r.value.value) ==> k.procs[pid] == Running(None)
    ensures r.Ok? && !nohang ==> r.value.Some?
    ensures r.Ok? && r.value.Some? && !job ==> Terminal(r.value.value)
  {
    while true
      invariant k.Valid() && k.OthersEvolve(pid) && k.KeepsRecord()
      invariant pid in k.procs && !k.procs[pid].Reaped?
      invariant old(k.asks)[pid] <= k.asks[pid]
      invariant if job then old(k.jobAsks)[pid] <= k.jobAsks[pid] else k.jobAsks == old(k.jobAsks)
      invariant nohang ==> k.blocks == old(k.blocks)
      invariant old(k.procs[pid].Zombie?) ==> k.procs[pid] == old(k.procs[pid])
      decreases k.interruptions
    {
      var reply := k.WaitPid(pid, nohang, job);
      match reply
      case Reported(w) =>
        DecodersAgree(w);
        return Ok(Some(if job then DecodeJob(w) else Decode(w)));
      case NothingYet =>
        return Ok(None);
      case Failed(errno) =>
        return Err(Os(errno));
      case Interrupted =>
    }
  }

  // ----- The child -----

  /** A spawned child. `reaped` is the stash: the status of the wait that reaped it. */
  class LinuxChild {
    const pid: Pid
    const kernel: Kernel
    var reaped: Option<ExitStatus>
    /** `wait` takes the child by value: afterwards there is no child to call. */
    ghost var consumed: bool

    /** The stash is filled exactly when the process is reaped, with its true status. */
    ghost predicate Valid()
      reads this, kernel
    {
      && !consumed && kernel.Valid() && pid in kernel.procs
      && (reaped.Some? <==> kernel.procs[pid].Reaped?)
      && (reaped.Some? ==> Terminal(reaped.value) && reaped.value == Decode(kernel.procs[pid].word))
    }

    constructor (kernel: Kernel, pid: Pid)
      requires kernel.Valid() && pid in kernel.procs && !kernel.procs[pid].Reaped?
      ensures Valid() && this.kernel == kernel && this.pid == pid && reaped == None
    {
      this.kernel, this.pid, reaped, consumed := kernel, pid, None, false;
    }

    /** `try_wait`: reports the stash, now and ever after. */
    method TryWait() returns (r: Result<Option<ExitStatus>>)
      requires Valid()
      modifies this`reaped, kernel
      ensures Valid() && kernel.OthersEvolve(pid) && kernel.KeepsRecord()
      ensures r.Err? ==> kernel.failures > old(kernel.failures)
      ensures old(reaped).Some? ==> reaped == old(reaped) && r.Ok? && unchanged(kernel)
      ensures r.Ok? ==> r.value == reaped
      ensures r.Err? ==> reaped == old(reaped)
      ensures old(kernel.procs[pid].Zombie?) && r.Ok? ==> reaped.Some?
      ensures old(kernel.procs[pid].Zombie?) ==> !kernel.procs[pid].Running?
      ensures old(reaped).None? ==> old(kernel.asks)[pid] < kernel.asks[pid]
      ensures kernel.OnlyPolls()
    {
      if reaped.None? {
        r := SysWait(kernel, pid, true, false);
        if r.Err? {
          return;
        }
        reaped := r.value;
      }
      r := Ok(reaped);
    }

    /** `wait_job`: blocks; stashes the status unless it is a stop or a resumption. */
    method WaitJob() returns (r: Result<ExitStatus>)
      requires Valid()
      modifies this`reaped, kernel
      ensures Valid() && kernel.OthersEvolve(pid) && kernel.KeepsRecord()
      ensures r.Err? ==> kernel.failures > old(kernel.failures)
      ensures old(reaped).Some? ==> reaped == old(reaped) && r == Ok(reaped.value) && unchanged(kernel)
      ensures reaped == if r.Ok? && Terminal(r.value) then Some(r.value) else None
      ensures old(kernel.procs[pid].Zombie?) && r.Ok? ==> reaped.Some?
      ensures r.Ok? && !Terminal(r.value) ==> kernel.procs[pid] == Running(None)
      ensures old(reaped).None? ==> old(kernel.jobAsks)[pid] < kernel.jobAsks[pid]
    {
      if reaped.Some? {
        return Ok(reaped.value);
      }
      var w := SysWait(kernel, pid, false, true);
      if w.Err? {
        return Err(w.error);
      }
      var status := w.value.value;
      if !(status.Stopped? || status.Continued?) {
        reaped := Some(status);
      }
      r := Ok(status);
    }

    /** `try_wait_job`: as `wait_job`, without blocking. */
    method TryWaitJob() returns (r: Result<Option<ExitStatus>>)
      requires Valid()
      modifies this`reaped, kernel
      ensures Valid() && kernel.OthersEvolve(pid) && kernel.KeepsRecord()
      ensures r.Err? ==> kernel.failures > old(kernel.failures)
      ensures old(reaped).Some? ==> reaped == old(reaped) && r == Ok(reaped) && unchanged(kernel)
      ensures reaped == if r.Ok? && r.value.Some? && Terminal(r.value.value) then r.value else None
      ensures old(kernel.procs[pid].Zombie?) && r.Ok? ==> reaped.Some?
      ensures r.Ok? && !(r.value.Some? && Terminal(r.value.value)) ==> kernel.procs[pid] == Running(None)
      ensures old(reaped).None? ==> old(kernel.jobAsks)[pid] < kernel.jobAsks[pid]
      ensures kernel.blocks == old(kernel.blocks)
    {
      if reaped.Some? {
        return Ok(reaped);
      }
      r := SysWait(kernel, pid, true, true);
      if r.Ok? && r.value.Some? {
        if !(r.value.value.Stopped? || r.value.value.Continued?) {
          reaped := r.value;
        }
      }
    }

    /** `wait`: consumes the child and yields the stash, or blocks for the status. */
    method Wait() returns (r: Result<ExitStatus>)
      requires Valid()
      modifies this`consumed, kernel
      ensures consumed && kernel.Valid() && kernel.OthersEvolve(pid)
      ensures kernel.waits == old(kernel.waits) + [pid]
      ensures kernel.kills == old(kernel.kills) && kernel.programs == old(kernel.programs)
      ensures kernel.spawns == old(kernel.spawns) && kernel.Adds()
      ensures r.Err? ==> kernel.failures > old(kernel.failures)
      ensures old(kernel.procs[pid].Zombie?) ==> !kernel.procs[pid].Running?
      ensures old(reaped).Some? ==> r == Ok(old(reaped).value) && kernel.procs == old(kernel.procs) && kernel.OnlyPolls()
      ensures kernel.jobAsks == old(kernel.jobAsks)
      ensures r.Ok? ==> kernel.procs[pid].Reaped? && Terminal(r.value) && r.value == Decode(kernel.procs[pid].word)
    {
      consumed := true;
      kernel.waits := kernel.waits + [pid];
      match reaped
      case Some(status) =>
        r := Ok(status);
      case None =>
        var w := SysWait(kernel, pid, false, false);
        r := if w.Err? then Err(w.error) else Ok(w.value.value);
    }
  }

  // ----- Any sequence of calls -----

  datatype WaitCall = CallTryWait | CallWaitJob | CallTryWaitJob

  /** A reply that reports that the child has ended. */
  predicate Ended(r: Result<Option<ExitStatus>>) {
    r.Ok? && r.value.Some? && Terminal(r.value.value)
  }

  /** Once a reply reports the end, every later reply is that same one. */
  predicate Settled(replies: seq<Result<Option<ExitStatus>>>) {
    forall i, j :: 0 <= i < j < |replies| && Ended(replies[i]) ==> replies[j] == replies[i]
  }

  /** Every sequence of calls that ends in `wait`, against any kernel: no call waits for a
      reaped pid, and the first terminal status is what all later calls return. */
  method CallSequence(child: LinuxChild, calls: seq<WaitCall>) returns (replies: seq<Result<Option<ExitStatus>>>)
    requires child.Valid()
    modifies child, child.kernel
    ensures child.consumed && |replies| == |calls| + 1 && Settled(replies)
    ensures old(child.reaped).Some? ==> forall i :: 0 <= i < |replies| ==> replies[i] == Ok(old(child.reaped))
  {
    replies := [];
    for i := 0 to |calls|
      invariant child.Valid() && |replies| == i
      invariant forall j :: 0 <= j < i && Ended(replies[j]) ==> replies[j].value == child.reaped
      invariant Settled(replies)
      invariant old(child.reaped).Some? ==> child.reaped == old(child.reaped)
      invariant old(child.reaped).Some? ==> forall j :: 0 <= j < i ==> replies[j] == Ok(old(child.reaped))
    {
      var reply: Result<Option<ExitStatus>>;
      match calls[i] {
        case CallTryWait =>
          reply := child.TryWait();
        case CallTryWaitJob =>
          reply := child.TryWaitJob();
        case CallWaitJob =>
          var r := child.WaitJob();
          reply := if r.Ok? then Ok(Some(r.value)) else Err(r.error);
      }
      replies := replies + [reply];
    }
    var last := child.Wait();
    replies := replies + [if last.Ok? then Ok(Some(last.value)) else Err(last.error)];
  }
}
