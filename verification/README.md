# Verified models of rustils

rustils gives programs one set of traits for files, processes and sockets, with Linux, Windows and
in-memory backends. This project models the parts of it that carry an algorithm or a protocol, and
proves what their documentation and tests promise, for every input and every run.

- **Command lines.** `WinArgv` prints an argument list as one Windows command line, for executables
  and for batch files. `ArgvSplit` is the separately written splitter; the two are inverse to each
  other, and the condition on the program name under which they are is exact. `BatchLine` reads
  batch lines back and shows that no argument unit leaves its quotes. `PosixQuote` does the same
  against a reader of section 2.2 of the POSIX Shell Command Language.
- **`Dir::write_atomic`.** `WriteAtomic` is a state machine with any number of concurrent calls,
  short writes, failing steps and a crash between any two of them, after which any subset of the
  directory updates that are not durable survives and files that were not synced hold anything.
  `AtomicProof` has the invariant and the theorems, `AtomicLimits` where they end, `TempNames` why
  temporary names never collide, `AtomicCall` the method itself, tied to the machine step by step.
- **Waiting for children.** `Children` runs the stash of `LinuxChild` against a kernel that does
  what it likes with its processes; that kernel's `WaitPid` has the precondition that the pid was
  not reaped, so everything that verifies never waits for one, and it records what was tried,
  started, asked, killed and given up to a wait. `WaitAny` holds the portable and the
  pidfd `wait_any` to one contract, and `Rpar` is the loop on top of it. `WaitStatus` has the
  decoders of the status word.
- **The seccomp filter.** `Seccomp` interprets classic BPF and proves the eleven instructions
  equal to the policy they stand for. `Endian` is about little-endian fields.
- **Dates.** `Calendar` proves `civil_from_days` a bijection between all days and all valid dates.
- **Certificates.** `Base64` refines a decoder on unbounded bit streams by the one with a 32-bit
  accumulator, and decodes whatever section 4 of RFC 4648 encodes. `Pem` extracts the blocks;
  `PemBlocks` has the exact condition under which it finds them.
- **NT symbolic links.** `Reparse` builds and reads the buffer of section 2.1.2.4 of [MS-FSCC].
- **The in-memory backends.** `MockTree`, `MockFs` and `MockRuns` are the node graph under any
  number of threads; `MockStream` is a connection, `Mailboxes` and `MockRegistry` the registries
  of listeners and sockets, `MockConnect` the connections made through them, `MockSession` all
  of these together.

Imperative code is a method or a class with a specification function beside it; the lemmas are about
that function. `dafny verify dfyconfig.toml` checks everything.

## Where the code and its promises differ

- The command line round trip fails for a program with a quote in it, and for one that is quoted and
  ends in a backslash: the quoter doubles that backslash, the rule for the first token does not
  halve it. `ArgvSplit.RoundTrip` is an equivalence; `ArgvSplit.TrailingBackslashIsDoubled` is an input.
- A batch line keeps its arguments inside quotes exactly if the program has an even number of quotes
  (`BatchLine.ArgumentsStayQuoted`; `BatchLine.OddProgramOpens` is an input).
- `write_atomic` does not keep a target whole if the target is itself the temporary name of another
  call: the cleanup of that call removes it. `AtomicLimits.SafeTargets` is an equivalence.
- For a certificate block to be found, it is not enough that its gap and its body do not contain the
  markers: they may supply the front of an overlapping one, which loses certificates
  (`PemBlocks.LostCertificate`) or turns malformed ones into valid ones (`PemBlocks.CutShort`).
  `PemBlocks.CutsExactly` is an equivalence.
- A substitute name of 32768 units or more wraps its 16-bit length, and `symlink` panics on a slice
  bound (`Reparse.BuildBuffer`, with inputs in `Reparse.NameLengthWraps`); the recorded data length
  wraps already at half of that (`Reparse.RegionsFill`; `Reparse.DataLengthWraps` is an input).
  Both are far above what the file system accepts.
- The in-memory `open` lets go of the directory between lookup and creation, so that two threads can
  both create a name, even exclusively (`MockRuns.CreationRace`; `MockRuns.CreationKeeps` has the exact
  condition on the state, `MockRuns.CreationUndisturbed` one on the run).
- The in-memory `rename` replaces a directory that is not empty, whose nodes are then reached from
  nowhere outside it (`MockTree.ReplacedDirectory`; `MockRuns.RenameLosesDirectory` is a run;
  `MockTree.MoveLosesNothing` is an equivalence).
- An empty write on an in-memory stream reads as end of stream (`MockStream.EmptyWriteLooksClosed`),
  and a stream that is being dropped still takes writes (`MockStream.HalfDropped`).
- The counter behind ephemeral ports wraps to port 0 (`MockConnect.EphemeralRounds`).

## Model

| member | source | states |
|---|---|---|
| `WinArgv.ClassifyByExtension` | crates/winargv/src/lib.rs:56-78 | A program is a batch target exactly if its last four units spell one of the two extensions, each letter in either case. |
| `WinArgv.QuoteArgInto` | crates/winargv/src/lib.rs:93-118 | Appends the quoted form of the argument as the backward-looking `Quoted` defines it: every quote preceded by its run of backslashes doubled plus one, the run at the end doubled when the argument is quoted. |
| `ArgvSplit.PrintedUnchanged` | crates/winargv/src/lib.rs:93-97 | An argument is printed as it is if and only if it is not empty and has no space, tab or quote. |
| `WinArgv.PushEscaped` | crates/winargv/src/lib.rs:98-111 | The loop with its running backslash counter: the output is the escaped form, the counter the length of the trailing run. |
| `WinArgv.EscapedSnoc` | crates/winargv/src/lib.rs:99-111 | One more unit adds itself, after as many backslashes as the trailing run needs if it is a quote. |
| `WinArgv.QuoteBatchArgInto` | crates/winargv/src/lib.rs:133-153 | Refuses exactly the arguments with NUL, CR, LF or a percent sign; otherwise appends the argument in quotes with its quotes doubled. |
| `WinArgv.BuildCommandLineWide` | crates/winargv/src/lib.rs:160-178 | Succeeds if and only if the program is nonempty, nothing holds a NUL and every argument of a batch target can be represented; the line is the program token and each argument after a space. |
| `ArgvSplit.ModelSplit` | fuzz/fuzz_targets/winargv_roundtrip.rs:36-102 | The splitter with its index and its nested loops is the unit-by-unit automaton `Split`. |
| `ArgvSplit.SplitArgs` | fuzz/fuzz_targets/winargv_roundtrip.rs:57-100 | The argument loop, which jumps over whole runs of backslashes, ends as the automaton that counts them one by one. |
| `ArgvSplit.ReadEscaped` | fuzz/fuzz_targets/winargv_roundtrip.rs:63-96 | The parser-state invariant: inside quotes, the automaton that read an escaped text holds that text less its trailing run of backslashes, and that run as its count. |
| `ArgvSplit.ReadArgs` | fuzz/fuzz_targets/winargv_roundtrip.rs:116-118 | Reading the printed arguments yields exactly the arguments, whatever was read before. |
| `ArgvSplit.ProgramTokenExact` | fuzz/fuzz_targets/winargv_roundtrip.rs:40-55 | The first token reads back as the program if and only if the program has no quote, and does not both hold a blank and end in a backslash. |
| `ArgvSplit.RoundTrip` | fuzz/fuzz_targets/winargv_roundtrip.rs:108-119 | For every executable target and all arguments, splitting the built line returns program and arguments if and only if the program is of that form. |
| `ArgvSplit.TrailingBackslashIsDoubled` | fuzz/fuzz_targets/winargv_roundtrip.rs:34-48 | A program for which the round trip fails. |
| `BatchLine.BatchRoundTrip` | crates/winargv/src/lib.rs:120-153 | The argument part of every batch line that can be built reads back, by undoubling quotes, as the argument list. |
| `BatchLine.ArgumentsStayQuoted` | crates/winargv/src/lib.rs:124-151 | Every unit of every argument that is not a quote lies inside an open quote of the whole line, counting toggles from its start, if and only if the program has an even number of quotes. |
| `BatchLine.OddProgramOpens` | crates/winargv/src/lib.rs:168-176 | A batch program with one quote in its name, and an argument that stands outside quotes. |
| `BatchLine.BatchArgumentsAreClean` | fuzz/fuzz_targets/winargv_roundtrip.rs:126-140 | A batch line holds CR, LF or a percent sign if and only if its program does; the argument part never does. |
| `PosixQuote.PosixQuoteArg` | crates/winargv/src/lib.rs:205-250 | The pushing loop computes the quoted form: unchanged without metacharacters, else single quotes with the quote itself closed, escaped and reopened. |
| `PosixQuote.QuotedExactly` | crates/winargv/src/lib.rs:206-238 | An argument is returned as it is if and only if it is not empty and has none of the twenty-four characters listed. |
| `PosixQuote.PosixRoundTrip` | crates/winargv/src/lib.rs:194-250 | A reader of section 2.2 of the POSIX Shell Command Language splits the quoted arguments, joined by spaces, into exactly the arguments, for all argument lists. |
| `TempNames.HexInjective` | crates/platform/src/fs.rs:387-390 | Different counters print as different hexadecimal strings. |
| `TempNames.TempNamesDistinct` | crates/platform/src/fs.rs:387-390 | Temporary names of one process are equal only for the same counter and the same target: both can be recovered from the name. |
| `TempNames.TempNamesOfProcesses` | crates/platform/src/fs.rs:387-390 | Nor do the names of two processes collide: the process id can be recovered too. |
| `AtomicProof.InvHolds` | crates/platform/src/fs.rs:386-421 | The invariant holds in every state of every interleaving of any number of calls, with any short writes and failures. |
| `AtomicProof.ReplayAt` | crates/platform/src/fs.rs:419-420 | Whatever subset of directory updates survives, a name that is never temporary denotes what the last surviving rename onto it put there, or what it did at first. |
| `AtomicProof.CrashAtomicity` | crates/platform/src/fs.rs:365-421 | After a crash at any point, with any surviving updates and any contents of unsynced files, a name shows its complete old contents or the complete contents of one call, and nothing older than the last durable rename. |
| `AtomicProof.ReadersSeeWholeFiles` | crates/platform/src/fs.rs:365-421 | Without a crash, readers of a name see its old contents or the full contents of the call that renamed last, and a name that existed never vanishes. |
| `AtomicProof.AcknowledgedIsDurable` | crates/platform-linux/src/fs.rs:345-347 | Where `sync_dir` syncs, every crash after an `Ok` shows the contents of that call or of one that renamed later. |
| `AtomicProof.UnpublishedTouchesOnlyTemp` | crates/platform/src/fs.rs:392-418 | A call that has not renamed has changed no directory entry but that of its own temporary name. |
| `AtomicProof.FailedStepChangesNoOtherName` | crates/platform/src/fs.rs:392-420 | No step but the successful rename changes what a name other than the temporary one denotes. |
| `AtomicLimits.SafeTargets` | crates/platform/src/fs.rs:386-421 | For every list of targets: each target always reads as old or new, in all interleavings, if and only if no target is the temporary name of one of the calls. |
| `AtomicLimits.TempTargetVanishes` | crates/platform/src/fs.rs:415-418 | Otherwise there is a run in which a target that existed is gone. |
| `AtomicLimits.OkMayBeUndone` | crates/platform/src/fs.rs:361-363 | With the default `sync_dir`, for every target and all contents there is an acknowledged call that a crash undoes. |
| `AtomicCall.Volume.WriteAtomic` | crates/platform/src/fs.rs:386-421 | The machine decides which steps fail. The method takes a path of the protocol and ends it: renamed, the target reads as the new contents, the temporary name is gone and no other name or file has changed; not renamed, no name but the temporary one has changed. It says ok if and only if the temporary name was free and the machine let none of its steps fail. |
| `AtomicCall.Volume.WriteAndSync` | crates/platform/src/fs.rs:392-413 | Ends with the file holding all contents, synced, if and only if the name was free and the machine let no step fail, however short the writes. |
| `AtomicCall.Volume.RemoveFile` | crates/platform/src/fs.rs:415-418 | The cleanup is tried: the temporary name is gone unless the machine lets the removal fail. |
| `WaitStatus.DecodersRecoverEvents` | crates/platform-linux/src/sys/spawn.rs:652-662 | Both decoders recover from the kernel's status word the event it encodes. |
| `WaitStatus.DecodersAgree` | crates/platform-linux/src/sys/spawn.rs:761-773 | On every word of a terminated process the job decoder says what the plain one says; on the others it reports a stop or a resumption. |
| `Children.SysWait` | crates/platform-linux/src/sys/spawn.rs:684-701 | A wait retried over interruptions reports a termination exactly if it reaped the process, with the status of its word, and leaves the process waitable otherwise. |
| `Children.LinuxChild.TryWait` | crates/platform-linux/src/process.rs:81-86 | Keeps the stash true: filled exactly when the process is reaped. Once filled it is returned without a system call; before, the process is asked, an end is found if there was one, and the call never blocks. |
| `Children.LinuxChild.WaitJob` | crates/platform-linux/src/process.rs:88-97 | The same, blocking: the process is asked for stops and resumptions too, an end is found if there was one, a stop or a resumption is reported only if the process goes on, and never stashed. |
| `Children.LinuxChild.TryWaitJob` | crates/platform-linux/src/process.rs:99-110 | The same without blocking: nothing is reported only if the process runs and there is no stop or resumption to report. |
| `Children.LinuxChild.Wait` | crates/platform-linux/src/process.rs:53-58 | Consumes the child and returns the stash or the status of the reaped process. |
| `Children.CallSequence` | crates/platform/src/process.rs:313-340 | For every sequence of the three calls ended by `wait`, against any kernel: no reaped pid is waited for, and all calls after the first that reports the end return that same status. |
| `WaitAny.Sweep` | crates/platform/src/process.rs:407-411 | One pass over the children stops at the first that is stashed or has ended, stashes its status and changes no other stash; a pass without a hit means that no child had ended; an error means that a system call failed. |
| `WaitAny.WaitAnyPortable` | crates/platform/src/process.rs:392-420 | Names a child that has ended, whose status is then stashed, and in front of which none had ended; no other stash changes; it times out only if no child had ended at the call and every child was asked in every round; it never blocks on a child; an empty list is refused. |
| `WaitAny.PollPids` | crates/platform-linux/src/sys/spawn.rs:454-494 | A readable position is a process that has ended and is not reaped, in front of which none had ended; it expires only if none had ended; nothing is reaped by polling. |
| `WaitAny.FastPass` | crates/platform-linux/src/process.rs:250-268 | Returns the first child that is stashed or has ended, or else the pids of all children, none of which had ended, unless one is of another backend. |
| `WaitAny.WaitAnyPidfd` | crates/platform-linux/src/process.rs:238-285 | Keeps the contract of the portable version, timeouts included, on every path: the first pass, pidfds, and both fallbacks. |
| `Rpar.SwapRemoveContents` | crates/coreutils/src/bin/rpar.rs:84-85 | `swap_remove` takes out exactly the element at the index. |
| `Rpar.SwapRemovePaired` | crates/coreutils/src/bin/rpar.rs:84-85 | Removing at the same index from labels and children keeps every remaining child with its own label. |
| `Rpar.SpawnAll` | crates/coreutils/src/bin/rpar.rs:28-43 | By the kernel's log, tries exactly the commands, each once and in order; one label and one child for every command that starts, which the kernel runs under that label; failed exactly if a command did not start. |
| `Rpar.Turn` | crates/coreutils/src/bin/rpar.rs:75-102 | Whatever a turn removes it waits for once and reports, under the command the process ran and with the status it was reaped with; the other jobs stay; nothing is killed. |
| `Rpar.Advance` | crates/coreutils/src/bin/rpar.rs:75-102 | A turn keeps the books: it reports one child, or times out having asked every child, none of which had ended, or a system call failed. |
| `Rpar.KillAndWait` | crates/coreutils/src/bin/rpar.rs:64-69 | On a signal the kernel sees one kill for every remaining process, and every child is given up to one wait; none of them was reaped before. |
| `Rpar.React` | crates/coreutils/src/bin/rpar.rs:58-103 | Over the whole loop, the reports and the jobs left over are exactly the jobs at the start; the kernel's kills and waits are one wait per report, in order, and on a signal one kill and one wait per job left over. All turns before a signal report a child or ask every child left; if one of them timed out, no child is left that had ended when the loop began. A failed exit means that a system call failed. |
| `Rpar.Run` | crates/coreutils/src/bin/rpar.rs:28-108 | By the kernel's logs, every command is tried once, in order, and nothing else is started, killed or waited for. Without signal or error every started command is reported once under its own label, and the exit is success if and only if every command started and ended with code 0; otherwise every job left over was asked in all turns that reported nothing; except after a signal, no call blocks on a process. |
| `Seccomp.AcceptedReturns` | crates/platform-linux/src/sys/security.rs:309-330 | Every program whose jumps stay inside, whose loads are in bounds and which cannot run off its end reaches a return, on all data and from every instruction. |
| `Seccomp.FilterAccepted` | crates/platform-linux/src/sys/security.rs:309-330 | The filter is such a program. |
| `Seccomp.Loads` | crates/platform-linux/src/sys/security.rs:269-271 | The hand-computed offsets load the architecture, the number and the low word of the first argument. |
| `Seccomp.FilterImplementsPolicy` | crates/platform-linux/src/sys/security.rs:301-330 | On every call data, the filter kills on a foreign architecture, denies `socket` for the three address families with `EPERM`, and allows the rest. |
| `Endian.LowWord` | crates/platform-linux/src/sys/security.rs:319-322 | A four-byte load from a wide little-endian field is its low word. |
| `Calendar.YearOfEra` | crates/coreutils/src/ls.rs:208-210 | The closed formula for the year of the era finds the year whose days contain the day, for every day of an era. |
| `Calendar.MonthOfYear` | crates/coreutils/src/ls.rs:211-212 | So does the one for the month, so that no subtraction underflows. |
| `Calendar.DaysRoundTrip` | crates/coreutils/src/ls.rs:204-216 | For every day, negative ones included, the date is valid and counts back to that day. |
| `Calendar.DatesRoundTrip` | crates/coreutils/src/ls.rs:204-216 | Every valid date of the proleptic Gregorian calendar is the date of its day. |
| `Calendar.ConsecutiveDays` | crates/coreutils/src/ls.rs:204-216 | The next day has the next date, under the rule of 4, 100 and 400 years. |
| `Calendar.EpochIsDayZero` | crates/coreutils/src/ls.rs:199-200 | Day 0 is 1 January 1970. |
| `Calendar.Increasing` | crates/coreutils/src/ls.rs:204-216 | Later days have later dates. |
| `Calendar.MinuteOfSecond` | crates/coreutils/src/ls.rs:218-225 | Day, hour and minute bracket the second they were computed from, before the epoch too. |
| `Base64.B64Decode` | crates/platform-linux/src/sys/trust_anchors.rs:66-96 | The loop with its wrapping 32-bit accumulator computes, on every input, what packing the unbounded bit stream of the sextets gives. |
| `Base64.LowBitsSurvive` | crates/platform-linux/src/sys/trust_anchors.rs:88-92 | The bits that are still to be emitted survive every shift, whatever is lost at the top. |
| `Base64.PackUnique` | crates/platform-linux/src/sys/trust_anchors.rs:89-93 | Packing is the only byte string whose bits are the front of the stream with less than one byte left. |
| `Base64.RefusedExactly` | crates/platform-linux/src/sys/trust_anchors.rs:61-67 | Decoding fails exactly on a character before the first pad that is no letter, digit, plus, slash or whitespace. |
| `Base64.SpaceSkipped` | crates/platform-linux/src/sys/trust_anchors.rs:85-87 | Each of the five whitespace characters counts for nothing, wherever it stands. |
| `Base64.RoundTrip` | crates/platform-linux/src/sys/trust_anchors.rs:66-96 | The encoding of any byte string per section 4 of RFC 4648, with tabs, line feeds, form feeds, carriage returns and spaces anywhere, decodes to that byte string. |
| `Pem.PemToDers` | crates/platform-linux/src/sys/trust_anchors.rs:109-126 | Terminates with the recursive reading of the text, block after block. |
| `PemBlocks.DocumentYields` | crates/platform-linux/src/sys/trust_anchors.rs:101-126 | A document of well-placed blocks yields, in order, exactly the nonempty decodings; a malformed block costs only itself and an unterminated tail adds nothing. |
| `PemBlocks.BundleRoundTrip` | crates/platform-linux/src/sys/trust_anchors.rs:101-126 | Any certificates, encoded with line breaks anywhere between gaps without dashes, come back one by one. |
| `PemBlocks.NoDashPlaced` | crates/platform-linux/src/sys/trust_anchors.rs:98-99 | Text without dashes is clean before either marker. |
| `PemBlocks.PlacedExactly` | crates/platform-linux/src/sys/trust_anchors.rs:112-114 | A marker is first found where it stands if and only if the text before it neither contains it nor ends in one that lacks one to five of its last dashes. |
| `PemBlocks.MarkersSpelled` | crates/platform-linux/src/sys/trust_anchors.rs:98-99 | The two markers, spelled out. |
| `PemBlocks.FirstCutExactly` | crates/platform-linux/src/sys/trust_anchors.rs:112-123 | The first block of a text is cut out as it was put in, body and rest, if and only if its gap and its body are clean in that sense. |
| `PemBlocks.CutsExactly` | crates/platform-linux/src/sys/trust_anchors.rs:109-126 | A document is cut into exactly its blocks if and only if all of them are well placed and the tail holds no complete block. |
| `PemBlocks.CutShort` | crates/platform-linux/src/sys/trust_anchors.rs:114-123 | Every body that ends in an end marker without its last five dashes: it does not contain the marker, is malformed as a whole, and yet yields what its front decodes to. |
| `PemBlocks.LostCertificate` | crates/platform-linux/src/sys/trust_anchors.rs:112-123 | Every certificate behind a gap that ends in a begin marker without its last five dashes: the gap does not contain the marker, and yet the certificate is lost. |
| `Reparse.TargetRecovered` | crates/platform-windows/src/sys/fileio.rs:489-503 | The substitute name and the relative flag determine the target they were made from. |
| `Reparse.NameSpelled` | crates/platform-windows/src/sys/fileio.rs:489-503 | The substitute name spelled out: which targets count as absolute, and what precedes them. |
| `Reparse.BuildBuffer` | crates/platform-windows/src/sys/fileio.rs:563-598 | The buffer filled in place is the specified layout; it panics exactly when the substitute name does not fit its 16-bit length. |
| `Reparse.LinkRoundTrip` | crates/platform-windows/src/sys/fileio.rs:659-687 | For every target whose buffer fits the maximum, reading returns the target unit for unit, not normalised, whatever the rest of the read buffer holds. |
| `Reparse.LinkResolves` | crates/platform-windows/src/sys/fileio.rs:568-598 | The substitute fields of the buffer hold the wire name, from which the target with its separators normalised is recovered. |
| `Reparse.RegionsFill` | crates/platform-windows/src/sys/fileio.rs:571-589 | The two names are adjacent, disjoint and fill the buffer to its end; the recorded data length is right exactly if it fits 16 bits, and it does for every buffer within the maximum. |
| `Reparse.DataLengthWraps` | crates/platform-windows/src/sys/fileio.rs:576-581 | A target whose buffer is built with a recorded data length of 0. |
| `Reparse.NameLengthWraps` | crates/platform-windows/src/sys/fileio.rs:571-597 | Targets of plain letters: from 32768 on, and only then, no buffer is built. |
| `Reparse.HeaderFields` | crates/platform-windows/src/sys/fileio.rs:579-589 | Every header field reads back at its offset, cut to its width. |
| `Reparse.LayoutInNumbers` | crates/platform-windows/src/sys/fileio.rs:579-597 | Every field of a built buffer at its offset, in numbers. |
| `Reparse.ReadLinkRefuses` | crates/platform-windows/src/sys/fileio.rs:659-685 | Reading is refused exactly on fewer than eight bytes or another tag, and its slice fails exactly when the name does not end within the buffer. |
| `MockTree.OnePath` | crates/platform-mock/src/fs.rs:220-222 | In a tree, a node is reached from a directory by at most one path. |
| `MockTree.Acyclic` | crates/platform-mock/src/fs.rs:220-222 | No path leads back to its start. |
| `MockTree.MoveMovesSubtree` | crates/platform-mock/src/fs.rs:391-407 | After a rename, from any start and along any way to the directory: below the new name a path leads where it led below the old one, below the old name nowhere, below any other name where it led. |
| `MockTree.MovePast` | crates/platform-mock/src/fs.rs:391-407 | Every path that takes no step from the directory leads where it led. |
| `MockTree.MoveLosesNothing` | crates/platform-mock/src/fs.rs:402-405 | Every node that had an entry still has one after a rename if and only if the new name was free or is the old one. |
| `MockTree.ReplacedIsLost` | crates/platform-mock/src/fs.rs:402-405 | Otherwise the replaced node is lost with its whole subtree: whatever still leads into the subtree starts inside it. |
| `MockTree.ReplacedDirectory` | crates/platform-mock/src/fs.rs:402-405 | In particular a directory that is not empty: what it held is reached no more from the directory it was in, nor from any older one. |
| `MockFs.Store.OpenFile` | crates/platform-mock/src/fs.rs:156-189 | Keeps the tree and the handles valid. Refused exactly if the name is taken and must be new, or free and may not be created; else the handle is on the node the name then denotes, with the access asked for and a cursor of its own; only a free name is given to a new file, only truncation empties one, and no other name or node changes. |
| `MockFs.Store.MakeNode` | crates/platform-mock/src/fs.rs:202-215 | Keeps the tree. `create_dir` and `symlink` succeed exactly on a free name in a directory, which then denotes the new node; no other name or node changes. |
| `MockFs.Store.RemoveNode` | crates/platform-mock/src/fs.rs:367-389 | Keeps the tree. Succeeds exactly on a node of the wanted kind without entries; that name denotes nothing afterwards, and no other name and no other node changes. |
| `MockFs.Store.RenameEntry` | crates/platform-mock/src/fs.rs:391-407 | Keeps the tree. Fails exactly on a missing source, or a taken target if it must not replace; else the new name denotes what the old one did, the old one nothing, and no other name or node changes. |
| `MockFs.Store.ReadInto` | crates/platform-mock/src/fs.rs:87-109 | Delivers exactly with read access to a file: the bytes from the shared cursor on, as many as fit, and fewer only at the end of the file; moves the cursor by as many; changes nothing else and leaves the rest of the buffer alone. |
| `MockFs.Store.AppendBytes` | crates/platform-mock/src/fs.rs:111-129 | The file grows by the bytes at its end; no name, no other node and no cursor changes; refused exactly without write access or on what is not a file. |
| `MockFs.Store.CloneHandle` | crates/platform-mock/src/fs.rs:140-148 | Whatever is read or written through the clone has the effect and the result it would have through the original. |
| `MockRuns.AlwaysATree` | crates/platform-mock/src/fs.rs:156-222 | In every reachable state of any threads, directories and handles, no path leads back to its start and no node is reached from a directory by two paths. |
| `MockRuns.StepInv` | crates/platform-mock/src/fs.rs:156-215 | Every step keeps each node in at most one entry, every entry leading to a younger node, and every cursor true to what was delivered through it. |
| `MockRuns.DeliveredInOrder` | crates/platform-mock/src/fs.rs:71-109 | In every reachable state, all handles that share a cursor have delivered between them the front of one file, in order, without gap or repetition, unless the file was truncated. |
| `MockRuns.NodesEndure` | crates/platform-mock/src/fs.rs:26-30 | Over any run no node changes its kind, no link its target, and no file loses a byte except by truncation. |
| `MockRuns.RefusedChangesNothing` | crates/platform-mock/src/fs.rs:367-407 | A refused operation leaves the state as it was. |
| `MockRuns.FixtureReads` | crates/platform-mock/src/fs.rs:45-57 | A file put into a directory holds its data under its name. |
| `MockRuns.MemfdIsNameless` | crates/platform-mock/src/fs.rs:422-431 | An anonymous file is empty, open for reading and writing, and under no name. |
| `MockFs.RenameExact` | crates/platform-mock/src/fs.rs:391-407 | A rename fails exactly on a missing source, or a taken target if it must not replace; it changes only the two names, keeps every node, and to the same name changes nothing. |
| `MockFs.RemoveExact` | crates/platform-mock/src/fs.rs:367-389 | A removal succeeds exactly on a node of the wanted kind without entries, and takes away its name only. |
| `MockRuns.CreationKeeps` | crates/platform-mock/src/fs.rs:171-180 | A creation, exclusive or not, that found its name free takes no entry away if and only if the name is still free. |
| `MockRuns.CreationUndisturbed` | crates/platform-mock/src/fs.rs:157-180 | It takes none away if, between its lookup and its end, no operation that may give the name to a node begins or is under way, whatever else happens. |
| `MockRuns.CreationRace` | crates/platform-mock/src/fs.rs:157-180 | For all creating options, a run in which two threads both create one name, after which the file of the first has no entry. |
| `MockRuns.RenameLosesDirectory` | crates/platform-mock/src/fs.rs:391-407 | A run in which a rename replaces a directory that is not empty: what it held was reached from the root before, and is by no path afterwards. |
| `MockStream.Stream.ReadInto` | crates/platform-mock/src/net.rs:210-240 | Delivers from the current chunk, fetching the next one only when it is used up, and fewer bytes than asked for only at the end of a chunk; end of stream, timeout and blocking as the channel has it; the rest of the buffer is left alone. |
| `MockStream.Stream.WriteAll` | crates/platform-mock/src/net.rs:242-247 | Queues the slice as one chunk, or fails exactly if the receiver is gone. |
| `MockStream.NothingLost` | crates/platform-mock/src/net.rs:193-247 | In any interleaving of reads, writes and drops of both ends, per direction: delivered, then unread, then queued bytes are exactly the bytes written. |
| `MockStream.EndOfStream` | crates/platform-mock/src/net.rs:210-240 | In every run without empty writes, a read into a nonempty buffer returns 0 if and only if the peer's drop has begun and all it wrote was delivered. |
| `MockStream.ZeroRead` | crates/platform-mock/src/net.rs:313-329 | In general it returns 0 exactly at the end of the stream or on an empty chunk. |
| `MockStream.EmptyWriteLooksClosed` | crates/platform-mock/src/net.rs:242-247 | A live peer whose empty write reads as 0. |
| `MockStream.HalfDropped` | crates/platform-mock/src/net.rs:195-197 | Between the two steps of a drop the peer reads the end of the stream and can still write. |
| `Mailboxes.StepInv` | crates/platform-mock/src/net.rs:66-172 | Every step keeps registry keys and live owners in step, and what was taken and what is queued equal to what was posted. |
| `Mailboxes.KeysAreLive` | crates/platform-mock/src/net.rs:103-119 | In every run, with connects and drops in two steps each, the keys are exactly the addresses of the live listeners or sockets, which are all different; listening fails exactly on an address a live one holds, connecting at its lookup exactly if none does. |
| `Mailboxes.DropsOnlyItsOwn` | crates/platform-mock/src/net.rs:289-295 | A drop removes its own entry and no other. |
| `Mailboxes.NeverDisconnected` | crates/platform-mock/src/net.rs:276-282 | The error branch of `accept` is unreachable: a live listener's channel always has a sender. |
| `Mailboxes.TakesTheOldest` | crates/platform-mock/src/net.rs:276-279 | In every run, `accept` returns the oldest connection that was not accepted yet, exactly if there is one. |
| `Mailboxes.HistoryGrows` | crates/platform-mock/src/net.rs:276-282 | From any state to any later one, what was posted to or taken from a box stays so, in its place. |
| `Mailboxes.SentWhereFound` | crates/platform-mock/src/net.rs:66-101 | Whatever happens between lookup and send, the message is queued last at the listener that held the address at the lookup, or refused, exactly if its channel is gone; nothing else changes, and a later holder of the address never gets it. |
| `Mailboxes.DatagramArrives` | crates/platform-mock/src/net.rs:403-412 | A datagram is queued at the live socket bound to its address, or vanishes without effect if there is none; it is lookup and send with nothing in between. |
| `MockRegistry.Registry.Listen` | crates/platform-mock/src/net.rs:103-119 | Check and insert in one step, keeping the invariant. |
| `MockRegistry.Registry.FindSender` | crates/platform-mock/src/net.rs:121-127 | The lookup of a connect. |
| `MockRegistry.Registry.Send` | crates/platform-mock/src/net.rs:151-157 | Its send, refused if the channel is gone. |
| `MockRegistry.Registry.Receive` | crates/platform-mock/src/net.rs:362-368 | Returns the oldest item not yet taken and records it, exactly if there is one; else waits or fails by whether a sender is left; no other box changes. |
| `MockRegistry.Registry.DropEntry` | crates/platform-mock/src/net.rs:375-390 | Removes the entry of the owner's address. |
| `MockConnect.AdvanceWired` | crates/platform-mock/src/net.rs:66-158 | Every call keeps each message that was sent cross-wired to the client end that the same connect returned, addressed to its listener, and all connections without a shared channel. |
| `MockConnect.AcceptedInConnectOrder` | crates/platform-mock/src/net.rs:66-101 | In every run, the i-th stream a listener hands out is cross-wired to the end that the i-th connect to it returned, which had asked for its address; the address handed out is that client's; no other connection shares a channel with it. |
| `MockConnect.AcceptHandsOutTheNext` | crates/platform-mock/src/net.rs:276-282 | In every run, the stream that `accept` returns is cross-wired to the end that the next connect in line returned, and comes with its address. |
| `MockConnect.ClientsGrow` | crates/platform-mock/src/net.rs:97-101 | The ends that connects have returned stay in their place over any run. |
| `MockSession.UnacceptedClient` | crates/platform-mock/src/net.rs:289-295 | In every run of the registry and the streams together, a client whose connection was not accepted reads 0 and fails to write once the listener's channel is gone, and before that waits on every read and succeeds in every write. |
| `MockSession.NextValid` | crates/platform-mock/src/net.rs:66-101 | Every call and every use of a stream keeps that: server ends in a channel are used by nobody, and dropped with it. |
| `MockSession.GoneAcceptsNothing` | crates/platform-mock/src/net.rs:276-282 | A listener that is gone accepts nothing more, so that what was not accepted then never is. |
| `MockConnect.EphemeralRounds` | crates/platform-mock/src/net.rs:53-56 | Two calls get the same port exactly if a multiple of 65536 apart; port 0 comes up once in each round. |

## Left out

- WaitAny.WaitAnyPortable: time is a number of rounds; without a timeout, `rounds` bounds how long the model looks on, and `StillWaiting` says that the call has not returned by then. The clock and the length of the sleeps are not modelled.
- WaitAny.PollPids: a positive poll count always comes with a readable entry, so the error for a kernel that contradicts itself is not modelled.
- Children.SysWait: a kernel interrupts a wait any finite number of times; endless interruption is not modelled.
- Rpar.Run: `ticks` is what each turn finds of signals; `StillRunning` stands for a run that outlasts them. Printing, exit code numbers and the installing of signal handlers are not modelled.
- Seccomp.FilterImplementsPolicy: the policy is that of the source; call numbers of other calling conventions of the same architecture are not considered.
- PosixQuote.PosixRoundTrip: `=` and `%` are ordinary characters to the reader: assignments, reserved words and job names are a matter of the words a shell has read, not of splitting.
- Calendar.DaysRoundTrip: over unbounded integers; the 64-bit overflow of the first addition, 719468 days from the end of the range, is not modelled.
- MockStream.Stream.WriteAll: no limit on queued chunks, as in the unbounded channel of the source; memory is not modelled.
- AtomicCall.Volume.WriteAtomic: one call from begin to end; interleavings are in `AtomicProof`. Process ids are text, file names strings, and other processes that use the same names are not modelled.
- Mailboxes.KeysAreLive: addresses are those a call ends up with, after an ephemeral port was chosen for port 0.
- Mailboxes.DatagramArrives: the truncation of a long datagram to the receiver's buffer is not modelled.
- Locks are taken and released inside one step of each model; poisoned locks are not modelled.
- Shared nodes and listeners of the in-memory backends are indices that are never reused, where the source counts references and frees memory.
- All system calls, Win32 and NT calls, terminals, sandboxes and D-Bus: what they do is decided outside the repository.
- The pure queries of the in-memory file system (`metadata`, `read_dir`, `read_link`, `access`, `file_id`): each is one lookup.
- `to_sockaddr_un` and `from_sockaddr_un`, the small command line tools, error tables, the other in-memory backends: they would only add easy members.
