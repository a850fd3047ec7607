/** `rpar` (crates/coreutils/src/bin/rpar.rs): runs commands concurrently and reports each as it
    finishes. Its two parallel lists lose elements by `swap_remove`. */
module Rpar {
  import opened Wrappers
  import opened WaitStatus
  import opened Children
  import opened WaitAny

  // ----- swap_remove -----

  function SwapRemove<T>(s: seq<T>, i: nat): seq<T>
    requires i < |s|
  {
    s[i := s[|s| - 1]][..|s| - 1]
  }

  lemma SwapRemoveContents<T>(s: seq<T>, i: nat)
    requires i < |s|
    ensures multiset(s) == multiset(SwapRemove(s, i)) + multiset{s[i]}
  {
    var t := s[i := s[|s| - 1]];
    assert t == SwapRemove(s, i) + [s[|s| - 1]];
    assert s == s[..|s| - 1] + [s[|s| - 1]];
    assert multiset(t) == multiset(s) - multiset{s[i]} + multiset{s[|s| - 1]};
  }

  /** A job: the label under which a command is reported, and the process that runs it. */
  type Job = (string, Pid)

  /** The two lists, read together. */
  ghost function Jobs(labels: seq<string>, cs: seq<LinuxChild>): seq<Job>
    requires |labels| == |cs|
  {
    seq(|cs|, i requires 0 <= i < |cs| => (labels[i], cs[i].pid))
  }

  /** Removing at the same index keeps every label with its own child. */
  lemma SwapRemovePaired(labels: seq<string>, cs: seq<LinuxChild>, i: nat)
    requires |labels| == |cs| && i < |cs|
    ensures Jobs(SwapRemove(labels, i), SwapRemove(cs, i)) == SwapRemove(Jobs(labels, cs), i)
    ensures multiset(Jobs(labels, cs)) == multiset(Jobs(SwapRemove(labels, i), SwapRemove(cs, i))) + multiset{(labels[i], cs[i].pid)}
  {
    SwapRemoveContents(Jobs(labels, cs), i);
    assert Jobs(SwapRemove(labels, i), SwapRemove(cs, i)) == SwapRemove(Jobs(labels, cs), i);
  }

  // ----- Reports -----

  datatype Report = Report(command: string, pid: Pid, result: Result<ExitStatus>)

  ghost function Reported(reports: seq<Report>): seq<Job> {
    seq(|reports|, i requires 0 <= i < |reports| => (reports[i].command, reports[i].pid))
  }

  predicate Success(r: Report) {
    r.result == Ok(Code(0))
  }

  predicate AllSucceed(reports: seq<Report>) {
    forall i :: 0 <= i < |reports| ==> Success(reports[i])
  }

  datatype SignalEvent = Interrupt | Terminate

  /** How a run ends. `StillRunning` means that the given ticks are used up. */
  datatype Exit =
    | Usage
    | AllDone(success: bool)
    | WaitFailed
    | Signalled(event: SignalEvent)
    | StillRunning

  /** What the loop finds at its safe point. */
  datatype Tick = Quiet | Pending(event: SignalEvent)

  /** How many turns pass before the first signal. */
  function QuietTurns(ticks: seq<Tick>): (n: nat)
    ensures n <= |ticks| && (forall i :: 0 <= i < n ==> ticks[i].Quiet?) && (n < |ticks| ==> ticks[n].Pending?)
  {
    if ticks == [] || ticks[0].Pending? then 0 else 1 + QuietTurns(ticks[1..])
  }

  // ----- Spawning -----

  /** `spawn`: fails, or creates a process with a fresh pid that runs the command. Either way time
      passes, for the new process too. */
  method Spawn(k: Kernel, command: string) returns (child: LinuxChild?)
    requires k.Valid()
    modifies k
    ensures k.Valid() && k.kills == old(k.kills) && k.waits == old(k.waits) && k.Adds() && k.OnlyPolls()
    ensures k.spawns == old(k.spawns) + [(command, child != null)]
    ensures forall q :: q in old(k.procs) ==> q in k.procs && Evolves(old(k.procs)[q], k.procs[q])
    ensures child == null ==> k.nextPid == old(k.nextPid) && k.programs == old(k.programs)
    ensures child != null ==> fresh(child) && child.kernel == k && child.Valid() && child.reaped.None?
    ensures child != null ==> child.pid == old(k.nextPid) && k.nextPid == old(k.nextPid) + 1
    ensures child != null ==> k.programs == old(k.programs)[child.pid := command]
  {
    var started: bool := *;
    k.spawns := k.spawns + [(command, started)];
    if !started {
      k.Elapse();
      return null;
    }
    var pid := k.nextPid;
    k.procs := k.procs[pid := Running(None)];
    k.programs := k.programs[pid := command];
    k.nextPid := pid + 1;
    k.Elapse();
    child := new LinuxChild(k, pid);
  }

  /** Children that have not ended as far as anyone knows. */
  ghost predicate AllOpen(k: Kernel, cs: seq<LinuxChild>)
    reads k, cs
  {
    k.Valid() && Family(k, cs) && NoneStashed(cs)
  }

  /** Every child runs the command whose label stands at its index. */
  ghost predicate Labelled(k: Kernel, labels: seq<string>, cs: seq<LinuxChild>)
    reads k
  {
    |labels| == |cs| && forall i :: 0 <= i < |cs| ==> cs[i].pid in k.programs && k.programs[cs[i].pid] == labels[i]
  }

  /** The kernel's record at some point. */
  datatype Record = Record(
    programs: map<Pid, string>,
    spawns: seq<(string, bool)>,
    nextPid: Pid,
    kills: seq<Pid>,
    waits: seq<Pid>,
    asks: multiset<Pid>,
    blocks: seq<Pid>)

  ghost function RecordOf(k: Kernel): Record
    reads k
  {
    Record(k.programs, k.spawns, k.nextPid, k.kills, k.waits, k.asks, k.blocks)
  }

  /** One label and one child for each process started since the record `start`, no others. */
  ghost predicate Spawned(k: Kernel, start: Record, labels: seq<string>, cs: seq<LinuxChild>)
    reads k, cs
  {
    && AllOpen(k, cs) && Labelled(k, labels, cs)
    && k.kills == start.kills && k.waits == start.waits && start.asks <= k.asks
    && k.nextPid == start.nextPid + |cs|
    && forall j :: 0 <= j < |cs| ==> start.nextPid <= cs[j].pid < k.nextPid
  }

  /** A turn of the spawn loop. */
  method SpawnOne(k: Kernel, ghost start: Record, command: string, labels: seq<string>, cs: seq<LinuxChild>)
    returns (ok: bool, labels': seq<string>, cs': seq<LinuxChild>)
    requires Spawned(k, start, labels, cs)
    modifies k
    ensures Spawned(k, start, labels', cs') && k.Adds() && k.OnlyPolls()
    ensures k.spawns == old(k.spawns) + [(command, ok)]
    ensures labels' == if ok then labels + [command] else labels
    ensures forall j :: 0 <= j < |cs'| ==> if j < |cs| then cs'[j] == cs[j] else fresh(cs'[j])
  {
    labels', cs' := labels, cs;
    assert forall j :: 0 <= j < |cs| ==> cs[j].kernel == k && cs[j].Valid();
    var child := Spawn(k, command);
    ok := child != null;
    if child != null {
      labels' := labels + [command];
      cs' := cs + [child];
    }
  }

  /** The commands, each with whether it started. */
  ghost function Attempts(commands: seq<string>, started: seq<bool>): seq<(string, bool)>
    requires |commands| == |started|
  {
    seq(|commands|, i requires 0 <= i < |commands| => (commands[i], started[i]))
  }

  /** The spawn loop: tries every command once, in order; one label and one child for every command
      that starts, and no process besides. */
  method SpawnAll(k: Kernel, commands: seq<string>)
    returns (labels: seq<string>, cs: seq<LinuxChild>, failed: bool, ghost started: seq<bool>)
    requires k.Valid()
    modifies k
    ensures AllOpen(k, cs) && Labelled(k, labels, cs) && k.Adds() && k.OnlyPolls()
    ensures k.kills == old(k.kills) && k.waits == old(k.waits)
    ensures k.nextPid == old(k.nextPid) + |cs|
    ensures forall i :: 0 <= i < |cs| ==> fresh(cs[i]) && old(k.nextPid) <= cs[i].pid
    ensures |started| == |commands| && labels == Started(commands, started)
    ensures k.spawns == old(k.spawns) + Attempts(commands, started)
    ensures failed <==> false in started
  {
    labels, cs, failed, started := [], [], false, [];
    ghost var start := RecordOf(k);
    for i := 0 to |commands|
      invariant Spawned(k, start, labels, cs) && k.Adds() && k.OnlyPolls()
      invariant forall j :: 0 <= j < |cs| ==> fresh(cs[j])
      invariant Tally(commands, i, labels, failed, started) && Tried(k.spawns, start.spawns, commands, started)
    {
      var ok, labels', cs' := SpawnOne(k, start, commands[i], labels, cs);
      TallyMore(commands, i, labels, failed, started, ok);
      TriedMore(start.spawns, commands, started, ok);
      labels, cs, failed, started := labels', cs', failed || !ok, started + [ok];
    }
    assert commands[..|commands|] == commands;
  }

  /** The attempts on the first commands, in order, are what was added to the log. */
  ghost predicate Tried(log: seq<(string, bool)>, start: seq<(string, bool)>, commands: seq<string>, started: seq<bool>) {
    |started| <= |commands| && log == start + Attempts(commands[..|started|], started)
  }

  lemma TriedMore(start: seq<(string, bool)>, commands: seq<string>, started: seq<bool>, ok: bool)
    requires |started| < |commands|
    ensures var i := |started|;
      Tried(start + Attempts(commands[..i], started) + [(commands[i], ok)], start, commands, started + [ok])
  {
    var i := |started|;
    assert Attempts(commands[..i + 1], started + [ok]) == Attempts(commands[..i], started) + [(commands[i], ok)];
  }

  /** The labels are those of the commands that started among the first `i`. */
  ghost predicate Tally(commands: seq<string>, i: nat, labels: seq<string>, failed: bool, started: seq<bool>) {
    i == |started| <= |commands| && labels == Started(commands[..i], started) && (failed <==> false in started)
  }

  lemma TallyMore(commands: seq<string>, i: nat, labels: seq<string>, failed: bool, started: seq<bool>, ok: bool)
    requires Tally(commands, i, labels, failed, started) && i < |commands|
    ensures Tally(commands, i + 1, if ok then labels + [commands[i]] else labels, failed || !ok, started + [ok])
  {
    assert commands[..i + 1][..i] == commands[..i] && (started + [ok])[..i] == started;
  }

  /** The commands that started, in order. */
  ghost function Started(commands: seq<string>, started: seq<bool>): seq<string>
    requires |commands| == |started|
  {
    if commands == [] then []
    else
      Started(commands[..|commands| - 1], started[..|started| - 1])
      + if started[|started| - 1] then [commands[|commands| - 1]] else []
  }

  // ----- The signal branch -----

  /** No process was started, and no question was taken back. */
  twostate predicate Unstarted(k: Kernel)
    reads k
  {
    k.programs == old(k.programs) && k.spawns == old(k.spawns) && k.nextPid == old(k.nextPid) && k.Adds()
  }

  /** Every child is given up to `wait`, in order. */
  method WaitEach(k: Kernel, cs: seq<LinuxChild>)
    requires AllOpen(k, cs)
    modifies k, cs
    ensures k.Valid() && k.KeepsReaped()
    ensures k.waits == old(k.waits) + Pids(cs) && k.kills == old(k.kills) && Unstarted(k)
    ensures forall i :: 0 <= i < |cs| ==> cs[i].consumed
  {
    for i := 0 to |cs|
      invariant k.Valid() && k.KeepsReaped() && AllOpen(k, cs[i..])
      invariant k.waits == old(k.waits) + Pids(cs)[..i] && k.kills == old(k.kills) && Unstarted(k)
      invariant forall j :: 0 <= j < i ==> cs[j].consumed
    {
      assert cs[i..][0] == cs[i];
      assert cs[i..][1..] == cs[i + 1..];
      assert forall j :: i <= j < |cs| ==> cs[i..][j - i] == cs[j];
      assert !cs[i].consumed && forall j :: 0 <= j < i ==> cs[j] != cs[i];
      var result := cs[i].Wait();
    }
  }

  /** Kill every remaining child, then wait for every one of them. Neither call ever names a
      process that has been reaped. */
  method KillAndWait(k: Kernel, cs: seq<LinuxChild>)
    requires AllOpen(k, cs)
    modifies k, cs
    ensures k.Valid() && k.KeepsReaped()
    ensures k.kills == old(k.kills) + Pids(cs) && k.waits == old(k.waits) + Pids(cs) && Unstarted(k)
    ensures forall i :: 0 <= i < |cs| ==> cs[i].consumed
  {
    for i := 0 to |cs|
      invariant AllOpen(k, cs) && k.KeepsReaped()
      invariant k.kills == old(k.kills) + Pids(cs)[..i] && k.waits == old(k.waits) && Unstarted(k)
    {
      assert cs[i].Valid();
      k.KillPid(cs[i].pid);
    }
    WaitEach(k, cs);
  }

  // ----- The reactor loop -----

  /** The report tells the truth: the process ran that command and is reaped with that status. */
  ghost predicate Truthful(k: Kernel, r: Report)
    reads k
  {
    && r.pid in k.programs && k.programs[r.pid] == r.command
    && r.result.Ok? && Terminal(r.result.value)
    && r.pid in k.procs && k.procs[r.pid].Reaped? && r.result.value == Decode(k.procs[r.pid].word)
  }

  /** Takes the child at an index out of both lists, waits for it and reports it. */
  method TakeOut(k: Kernel, labels: seq<string>, cs: seq<LinuxChild>, i: nat)
    returns (labels': seq<string>, cs': seq<LinuxChild>, report: Report)
    requires k.Valid() && Family(k, cs) && Labelled(k, labels, cs) && i < |cs| && cs[i].reaped.Some?
    requires forall j :: 0 <= j < |cs| && j != i ==> cs[j].reaped.None?
    modifies k, cs[i]
    ensures k.KeepsReaped() && Truthful(k, report)
    ensures AllOpen(k, cs') && Labelled(k, labels', cs') && forall j :: 0 <= j < |cs'| ==> cs'[j] in cs
    ensures |cs'| == |cs| - 1
    ensures multiset(Jobs(labels, cs)) == multiset(Jobs(labels', cs')) + multiset{(report.command, report.pid)}
    ensures k.waits == old(k.waits) + [report.pid] && k.kills == old(k.kills) && Unstarted(k) && k.OnlyPolls()
  {
    SwapRemovePaired(labels, cs, i);
    labels', cs' := SwapRemove(labels, i), SwapRemove(cs, i);
    assert forall j :: 0 <= j < |cs'| ==> cs'[j] != cs[i];
    var result := cs[i].Wait();
    report := Report(labels[i], cs[i].pid, result);
  }

  /** One turn of the loop after its safe point: wait for any child with a timeout, and if one
      has ended, take it out of both lists and report it. */
  method Turn(k: Kernel, labels: seq<string>, cs: seq<LinuxChild>, tick: nat)
    returns (r: Outcome, labels': seq<string>, cs': seq<LinuxChild>, report: Option<Report>)
    requires AllOpen(k, cs) && Labelled(k, labels, cs) && cs != []
    modifies k, cs
    ensures k.KeepsReaped()
    ensures AllOpen(k, cs') && Labelled(k, labels', cs') && forall i :: 0 <= i < |cs'| ==> cs'[i] in cs
    ensures !r.StillWaiting?
    ensures r.Errored? ==> k.failures > old(k.failures)
    ensures r.Ready? <==> report.Some?
    ensures r.TimedOut? ==> Asked(k, cs, |cs|, 1) && forall i :: 0 <= i < |cs| ==> !old(Zombies(k, cs))[i]
    ensures report.None? ==> labels' == labels && cs' == cs && k.waits == old(k.waits)
    ensures report.Some? ==> Truthful(k, report.value) && |cs'| == |cs| - 1 && k.waits == old(k.waits) + [report.value.pid]
    ensures report.Some? ==>
      multiset(Jobs(labels, cs)) == multiset(Jobs(labels', cs')) + multiset{(report.value.command, report.value.pid)}
    ensures k.kills == old(k.kills) && Unstarted(k) && k.OnlyPolls()
  {
    labels', cs', report := labels, cs, None;
    ghost var before := Stashes(cs);
    assert cs[0].Valid();
    r := WaitAnyPidfd(k, cs, seq(|cs|, _ => true), Some(tick), 0);
    assert cs[0].Valid();
    assert forall j :: 0 <= j < |cs| ==> before[j].None? && Stashes(cs)[j] == cs[j].reaped;
    if r.Ready? {
      var taken;
      labels', cs', taken := TakeOut(k, labels, cs, r.index);
      report := Some(taken);
    }
  }

  ghost function JobPids(jobs: seq<Job>): seq<Pid> {
    seq(|jobs|, i requires 0 <= i < |jobs| => jobs[i].1)
  }

  /** What a finished or abandoned loop leaves, given the kills and waits it issued: the reports
      and the jobs in `rest` are together exactly the jobs it started with; each reported job
      was waited for once, in order; on a signal each job in `rest` was killed once, then waited
      for once; and when all is done `rest` is empty. */
  ghost predicate Accounted(jobs: seq<Job>, failed: bool, exit: Exit, reports: seq<Report>, rest: seq<Job>,
    kills: seq<Pid>, waits: seq<Pid>)
  {
    && multiset(Reported(reports)) + multiset(rest) == multiset(jobs)
    && kills == (if exit.Signalled? then JobPids(rest) else [])
    && waits == JobPids(Reported(reports)) + (if exit.Signalled? then JobPids(rest) else [])
    && match exit
       case AllDone(success) => rest == [] && (success <==> !failed && AllSucceed(reports))
       case Usage => false
       case _ => true
  }

  lemma ReportMore(jobs: multiset<Job>, reports: seq<Report>, r: Report, rest: multiset<Job>, rest': multiset<Job>)
    requires multiset(Reported(reports)) + rest == jobs
    requires rest == rest' + multiset{(r.command, r.pid)}
    ensures multiset(Reported(reports + [r])) + rest' == jobs
    ensures JobPids(Reported(reports + [r])) == JobPids(Reported(reports)) + [r.pid]
    ensures AllSucceed(reports + [r]) <==> AllSucceed(reports) && Success(r)
  {
    assert Reported(reports + [r]) == Reported(reports) + [(r.command, r.pid)];
    assert forall i :: 0 <= i < |reports| ==> (reports + [r])[i] == reports[i];
    assert (reports + [r])[|reports|] == r;
  }

  /** A state of the loop: the two lists, the flag, the reports, and how many turns have timed out. */
  datatype Loop = Loop(labels: seq<string>, cs: seq<LinuxChild>, failed: bool, reports: seq<Report>, idle: nat)

  /** What the loop began with: the kernel's record, the jobs, whether a command did not start, and
      the processes that had already ended. */
  datatype Origin = Origin(start: Record, jobs: seq<Job>, failed: bool, ended: set<Pid>)

  /** The books are in order: reports and jobs left make up all jobs, each report was waited for. */
  ghost predicate Balanced(k: Kernel, o: Origin, l: Loop)
    requires |l.labels| == |l.cs|
    reads k
  {
    && multiset(Reported(l.reports)) + multiset(Jobs(l.labels, l.cs)) == multiset(o.jobs)
    && (l.failed <==> o.failed || !AllSucceed(l.reports))
    && (forall i :: 0 <= i < |l.reports| ==> Truthful(k, l.reports[i]))
    && k.programs == o.start.programs && k.spawns == o.start.spawns && k.nextPid == o.start.nextPid
    && k.kills == o.start.kills && k.waits == o.start.waits + JobPids(Reported(l.reports)) && k.blocks == o.start.blocks
  }

  /** The loop gets on: each child left was asked in every turn that timed out; and once a turn has
      timed out, no child is left that had ended when the loop began. */
  ghost predicate GettingOn(asks: multiset<Pid>, procs: map<Pid, Proc>, o: Origin, l: Loop) {
    && o.start.asks <= asks
    && (forall i :: 0 <= i < |l.cs| ==> o.start.asks[l.cs[i].pid] + l.idle <= asks[l.cs[i].pid])
    && (forall i :: 0 <= i < |l.cs| && l.cs[i].pid in o.ended ==> l.idle == 0 && Ended(procs, l.cs[i].pid))
  }

  ghost predicate Ended(procs: map<Pid, Proc>, pid: Pid) {
    pid in procs && procs[pid].Zombie?
  }

  /** What every turn of the loop keeps. */
  ghost predicate Going(k: Kernel, o: Origin, l: Loop)
    reads k, l.cs
  {
    && AllOpen(k, l.cs) && Labelled(k, l.labels, l.cs)
    && Balanced(k, o, l) && GettingOn(k.asks, k.procs, o, l)
  }

  /** None of the processes was reaped from one state to the other, and those that had ended still have. */
  ghost predicate StillEnded(before: map<Pid, Proc>, after: map<Pid, Proc>, cs: seq<LinuxChild>) {
    forall i :: 0 <= i < |cs| && Ended(before, cs[i].pid) ==> Ended(after, cs[i].pid)
  }

  lemma ReportGetsOn(o: Origin, l: Loop, l': Loop, asks: multiset<Pid>, procs: map<Pid, Proc>, asks': multiset<Pid>, procs': map<Pid, Proc>)
    requires GettingOn(asks, procs, o, l) && asks <= asks' && l'.idle == l.idle && StillEnded(procs, procs', l'.cs)
    requires forall i :: 0 <= i < |l'.cs| ==> l'.cs[i] in l.cs
    ensures GettingOn(asks', procs', o, l')
  {
    forall i | 0 <= i < |l'.cs|
      ensures o.start.asks[l'.cs[i].pid] + l'.idle <= asks'[l'.cs[i].pid]
      ensures l'.cs[i].pid in o.ended ==> l'.idle == 0 && Ended(procs', l'.cs[i].pid)
    {
      var j :| 0 <= j < |l.cs| && l.cs[j] == l'.cs[i];
    }
  }

  lemma IdleGetsOn(o: Origin, l: Loop, asks: multiset<Pid>, procs: map<Pid, Proc>, asks': multiset<Pid>, procs': map<Pid, Proc>)
    requires GettingOn(asks, procs, o, l) && asks <= asks'
    requires forall i :: 0 <= i < |l.cs| ==> asks[l.cs[i].pid] < asks'[l.cs[i].pid] && !Ended(procs, l.cs[i].pid)
    ensures GettingOn(asks', procs', o, l.(idle := l.idle + 1))
  {
  }

  lemma OpenStillEnded(k: Kernel, before: map<Pid, Proc>, cs: seq<LinuxChild>)
    requires AllOpen(k, cs)
    requires forall q :: q in before && before[q].Zombie? ==> q in k.procs && !k.procs[q].Running?
    ensures StillEnded(before, k.procs, cs)
  {
    forall i | 0 <= i < |cs| && Ended(before, cs[i].pid)
      ensures Ended(k.procs, cs[i].pid)
    {
      assert cs[i].Valid() && cs[i].reaped.None?;
    }
  }

  /** A turn without a signal, which reports a child or times out; false is the failed `wait_any`. */
  method Advance(k: Kernel, ghost o: Origin, l: Loop) returns (ok: bool, l': Loop)
    requires Going(k, o, l) && l.cs != []
    modifies k, l.cs
    ensures Going(k, o, l') && k.Adds()
    ensures forall i :: 0 <= i < |l'.cs| ==> l'.cs[i] in l.cs
    ensures ok ==> |l'.reports| + l'.idle == |l.reports| + l.idle + 1
    ensures !ok ==> k.failures > old(k.failures) && l'.reports == l.reports
  {
    ghost var asks, procs, zombies := k.asks, k.procs, Zombies(k, l.cs);
    assert forall i :: 0 <= i < |l.cs| ==> zombies[i] == Ended(procs, l.cs[i].pid);
    var r, labels', cs', report := Turn(k, l.labels, l.cs, 20);
    ok := !r.Errored?;
    OpenStillEnded(k, procs, cs');
    if report.Some? {
      ReportMore(multiset(o.jobs), l.reports, report.value, multiset(Jobs(l.labels, l.cs)), multiset(Jobs(labels', cs')));
      l' := Loop(labels', cs', l.failed || !Success(report.value), l.reports + [report.value], l.idle);
      ReportGetsOn(o, l, l', asks, procs, k.asks, k.procs);
    } else if r.TimedOut? {
      l' := l.(idle := l.idle + 1);
      IdleGetsOn(o, l, asks, procs, k.asks, k.procs);
    } else {
      l' := l;
      ReportGetsOn(o, l, l', asks, procs, k.asks, k.procs);
    }
  }

  /** After so many turns: all but the reporting ones timed out, each child left over was asked in all
      of those, and if there were any, none is left that had ended before the loop. */
  ghost predicate Progress(turns: nat, start: multiset<Pid>, ended: set<Pid>, asks: multiset<Pid>, reports: nat, rest: seq<Job>) {
    && reports <= turns
    && forall i :: 0 <= i < |rest| ==>
         start[rest[i].1] + (turns - reports) <= asks[rest[i].1] && (reports < turns ==> rest[i].1 !in ended)
  }

  lemma GoingProgress(o: Origin, l: Loop, asks: multiset<Pid>, procs: map<Pid, Proc>, turns: nat)
    requires GettingOn(asks, procs, o, l) && |l.reports| + l.idle == turns && |l.labels| == |l.cs|
    ensures Progress(turns, o.start.asks, o.ended, asks, |l.reports|, Jobs(l.labels, l.cs))
  {
  }

  lemma ProgressLater(turns: nat, start: multiset<Pid>, ended: set<Pid>, asks: multiset<Pid>, reports: nat, rest: seq<Job>,
    early: multiset<Pid>, asks': multiset<Pid>)
    requires Progress(turns, start, ended, asks, reports, rest) && early <= start && asks <= asks'
    ensures Progress(turns, early, ended, asks', reports, rest)
  {
  }

  /** How the loop ended, all told. */
  datatype Ending = Ending(exit: Exit, reports: seq<Report>, rest: seq<Job>, kills: seq<Pid>, waits: seq<Pid>)

  ghost predicate EndsWell(k: Kernel, o: Origin, e: Ending)
    reads k
  {
    && Accounted(o.jobs, o.failed, e.exit, e.reports, e.rest, e.kills, e.waits)
    && (forall i :: 0 <= i < |e.reports| ==> Truthful(k, e.reports[i]))
    && k.kills == o.start.kills + e.kills && k.waits == o.start.waits + e.waits
    && k.programs == o.start.programs && k.spawns == o.start.spawns && k.nextPid == o.start.nextPid
    && (!e.exit.Signalled? ==> k.blocks == o.start.blocks)
  }

  /** Everything that holds when the loop has ended. */
  ghost predicate Concludes(k: Kernel, o: Origin, failures: nat, ticks: seq<Tick>, e: Ending)
    reads k
  {
    var turns := QuietTurns(ticks);
    && EndsWell(k, o, e)
    && (e.exit.WaitFailed? ==> k.failures > failures)
    && (e.exit.Signalled? ==> turns < |ticks| && ticks[turns] == Pending(e.exit.event))
    && (e.exit.StillRunning? ==> turns == |ticks|)
    && (e.exit.Signalled? || e.exit.StillRunning? ==> Progress(turns, o.start.asks, o.ended, k.asks, |e.reports|, e.rest))
  }

  lemma Begins(k: Kernel, o: Origin, l: Loop)
    requires AllOpen(k, l.cs) && Labelled(k, l.labels, l.cs) && l.reports == [] && l.idle == 0
    requires o == Origin(RecordOf(k), Jobs(l.labels, l.cs), l.failed, EndedPids(k))
    ensures Going(k, o, l)
  {
    assert Reported([]) == [];
  }

  /** The loop ends as it stands. */
  ghost function Left(l: Loop, exit: Exit): Ending
    requires |l.labels| == |l.cs|
  {
    Ending(exit, l.reports, Jobs(l.labels, l.cs), [], JobPids(Reported(l.reports)))
  }

  lemma EndsHere(k: Kernel, o: Origin, l: Loop, exit: Exit)
    requires Going(k, o, l) && (exit.WaitFailed? || exit.StillRunning? || (exit == AllDone(!l.failed) && l.cs == []))
    ensures EndsWell(k, o, Left(l, exit))
  {
    assert l.cs == [] ==> Jobs(l.labels, l.cs) == [];
  }

  lemma StopsRunning(k: Kernel, o: Origin, failures: nat, ticks: seq<Tick>, l: Loop)
    requires Going(k, o, l) && QuietTurns(ticks) == |ticks| == |l.reports| + l.idle
    ensures Concludes(k, o, failures, ticks, Left(l, StillRunning))
  {
    EndsHere(k, o, l, StillRunning);
    GoingProgress(o, l, k.asks, k.procs, |ticks|);
  }

  /** The signal branch, from any turn. */
  method Stop(k: Kernel, ghost o: Origin, l: Loop, ticks: seq<Tick>, t: nat) returns (exit: Exit, ghost e: Ending)
    requires Going(k, o, l) && t < |ticks| && ticks[t].Pending? && QuietTurns(ticks) == t == |l.reports| + l.idle
    modifies k, l.cs
    ensures exit == e.exit && e.reports == l.reports && exit.Signalled?
    ensures Concludes(k, o, k.failures, ticks, e) && k.Adds()
  {
    ghost var rest, asks := Jobs(l.labels, l.cs), k.asks;
    exit := Signalled(ticks[t].event);
    e := Ending(exit, l.reports, rest, JobPids(rest), JobPids(Reported(l.reports)) + JobPids(rest));
    assert Pids(l.cs) == JobPids(rest);
    GoingProgress(o, l, k.asks, k.procs, t);
    KillAndWait(k, l.cs);
    ProgressLater(t, o.start.asks, o.ended, asks, |l.reports|, rest, o.start.asks, k.asks);
  }

  /** The pids of the children that have ended and wait to be reaped. */
  ghost function EndedPids(k: Kernel): set<Pid>
    reads k
  {
    set q | q in k.procs && k.procs[q].Zombie?
  }

  /** The completion-order loop. Each element of `ticks` is what one turn finds pending. */
  method React(k: Kernel, labels: seq<string>, cs: seq<LinuxChild>, failed: bool, ticks: seq<Tick>, ghost o: Origin)
    returns (exit: Exit, reports: seq<Report>, ghost e: Ending)
    requires AllOpen(k, cs) && Labelled(k, labels, cs)
    requires o == Origin(RecordOf(k), Jobs(labels, cs), failed, EndedPids(k))
    modifies k, cs
    ensures exit == e.exit && reports == e.reports && k.Adds()
    ensures Concludes(k, o, old(k.failures), ticks, e)
  {
    var l, t := Loop(labels, cs, failed, [], 0), 0;
    Begins(k, o, l);
    while l.cs != []
      invariant Going(k, o, l) && k.Adds()
      invariant forall i :: 0 <= i < |l.cs| ==> l.cs[i] in cs
      invariant t <= QuietTurns(ticks) && |l.reports| + l.idle == t
      decreases |ticks| - t
    {
      if t == |ticks| {
        StopsRunning(k, o, old(k.failures), ticks, l);
        return StillRunning, l.reports, Left(l, StillRunning);
      }
      if ticks[t].Pending? {
        exit, e := Stop(k, o, l, ticks, t);
        return exit, l.reports, e;
      }
      var ok;
      ok, l := Advance(k, o, l);
      if !ok {
        EndsHere(k, o, l, WaitFailed);
        return WaitFailed, l.reports, Left(l, WaitFailed);
      }
      t := t + 1;
    }
    exit, reports := AllDone(!l.failed), l.reports;
    EndsHere(k, o, l, exit);
    e := Left(l, exit);
  }

  /** `rpar`: tries every command once, in order, and starts nothing else. The exit is success if and
      only if every command started and every one of them exited with code 0; each started
      command is reported once, under its own label, or on a signal killed and waited for once;
      nothing else is killed or waited for. While children are left, every turn reports one or
      asks all of them, and no call blocks on one of them. */
  method Run(k: Kernel, commands: seq<string>, ticks: seq<Tick>)
    returns (exit: Exit, reports: seq<Report>, ghost started: seq<bool>, ghost jobs: seq<Job>, ghost e: Ending)
    requires k.Valid()
    modifies k
    ensures exit.Usage? <==> commands == []
    ensures exit.Usage? ==> unchanged(k)
    ensures commands != [] ==> |started| == |commands| && k.spawns == old(k.spawns) + Attempts(commands, started)
    ensures commands != [] ==> |jobs| == |Started(commands, started)| && k.nextPid == old(k.nextPid) + |jobs|
    ensures commands != [] ==> forall i :: 0 <= i < |jobs| ==> jobs[i].0 == Started(commands, started)[i]
    ensures commands != [] ==> forall i :: 0 <= i < |jobs| ==> Runs(k, jobs[i]) && old(k.nextPid) <= jobs[i].1
    ensures commands != [] ==> forall i, j :: 0 <= i < j < |jobs| ==> jobs[i].1 != jobs[j].1
    ensures commands != [] ==> e.exit == exit && e.reports == reports
    ensures commands != [] ==> Accounted(jobs, false in started, exit, reports, e.rest, e.kills, e.waits)
    ensures commands != [] ==> k.kills == old(k.kills) + e.kills && k.waits == old(k.waits) + e.waits
    ensures commands != [] ==> forall i :: 0 <= i < |reports| ==> Truthful(k, reports[i])
    ensures !exit.Signalled? ==> k.blocks == old(k.blocks)
    ensures exit.WaitFailed? ==> k.failures > old(k.failures)
    ensures exit.Signalled? ==> QuietTurns(ticks) < |ticks| && ticks[QuietTurns(ticks)] == Pending(exit.event)
    ensures exit.StillRunning? ==> QuietTurns(ticks) == |ticks|
    ensures exit.Signalled? || exit.StillRunning? ==>
      Progress(QuietTurns(ticks), old(k.asks), {}, k.asks, |reports|, e.rest)
  {
    if commands == [] {
      return Usage, [], [], [], Ending(Usage, [], [], [], []);
    }
    var labels, cs, failed;
    labels, cs, failed, started := SpawnAll(k, commands);
    jobs := Jobs(labels, cs);
    ghost var o := Origin(RecordOf(k), jobs, failed, EndedPids(k));
    exit, reports, e := React(k, labels, cs, failed, ticks, o);
  }

  /** The process of a job runs the command it is labelled with. */
  ghost predicate Runs(k: Kernel, job: Job)
    reads k
  {
    job.1 in k.programs && k.programs[job.1] == job.0
  }
}
