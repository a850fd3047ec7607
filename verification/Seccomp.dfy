/** The seccomp filter that denies internet sockets (crates/platform-linux/src/sys/security.rs),
    run on a classic-BPF interpreter over the byte layout of `struct seccomp_data`. */
module Seccomp {
  import opened Wrappers
  import opened Endian

  type U32 = x: nat | x < 0x1_0000_0000
  type U64 = x: nat | x < 0x1_0000_0000_0000_0000

  // ----- The data a filter sees -----

  datatype SeccompData = SeccompData(nr: U32, arch: U32, ip: U64, args: seq<U64>)

  function ArgBytes(args: seq<U64>): (s: seq<Octet>)
    ensures |s| == 8 * |args|
  {
    if args == [] then [] else Bytes(args[0], 8) + ArgBytes(args[1..])
  }

  /** `nr` at 0, `arch` at 4, `instruction_pointer` at 8, `args` from 16. */
  function Layout(d: SeccompData): seq<Octet> {
    Bytes(d.nr, 4) + Bytes(d.arch, 4) + Bytes(d.ip, 8) + ArgBytes(d.args)
  }

  /** A 32-bit load at a byte offset. */
  function LoadWord(data: seq<Octet>, at: nat): U32
    requires at + 4 <= |data|
  {
    ReadBound(data[at..at + 4]);
    assert Pow256(4) == 0x1_0000_0000;
    Read(data[at..at + 4])
  }

  // ----- Classic BPF -----

  const LD_W_ABS: nat := 0x20
  const JMP_JEQ_K: nat := 0x15
  const RET_K: nat := 0x06

  datatype Instr = Instr(code: nat, jt: Octet, jf: Octet, k: U32)

  /** Runs from `pc` with accumulator `acc`: 0x20 loads a word, 0x15 jumps on equality with a
      constant, 0x06 returns a constant. `None`: left the program, loaded outside the data,
      or met an instruction outside the three forms the filter uses. */
  function Interpret(prog: seq<Instr>, data: seq<Octet>, pc: nat, acc: U32): Option<U32>
    decreases |prog| - pc
  {
    if pc >= |prog| then None
    else
      var i := prog[pc];
      if i.code == 0x20 then
        if i.k + 4 <= |data| then Interpret(prog, data, pc + 1, LoadWord(data, i.k)) else None
      else if i.code == 0x15 then
        Interpret(prog, data, pc + 1 + (if acc == i.k then i.jt else i.jf) as nat, acc)
      else if i.code == 0x06 then Some(i.k)
      else None
  }

  /** What the kernel checks before it accepts a filter: loads are aligned and inside the data,
      every jump stays inside, and control cannot fall off the end. */
  predicate Accepted(prog: seq<Instr>, size: nat) {
    forall pc :: 0 <= pc < |prog| ==>
      var i := prog[pc];
      || (i.code == LD_W_ABS && i.k % 4 == 0 && i.k + 4 <= size && pc + 1 < |prog|)
      || (i.code == JMP_JEQ_K && pc + 1 + i.jt as nat < |prog| && pc + 1 + i.jf as nat < |prog|)
      || i.code == RET_K
  }

  /** Forward jumps that stay in range always reach a return, in every program. */
  lemma {:induction false} AcceptedReturns(prog: seq<Instr>, data: seq<Octet>, pc: nat, acc: U32)
    requires Accepted(prog, |data|) && pc < |prog|
    ensures Interpret(prog, data, pc, acc).Some?
    ensures exists r :: pc <= r < |prog| && prog[r].code == RET_K && Interpret(prog, data, pc, acc) == Some(prog[r].k)
    decreases |prog| - pc
  {
    var i := prog[pc];
    if i.code == LD_W_ABS {
      AcceptedReturns(prog, data, pc + 1, LoadWord(data, i.k));
    } else if i.code == JMP_JEQ_K {
      AcceptedReturns(prog, data, pc + 1 + (if acc == i.k then i.jt else i.jf) as nat, acc);
    }
  }

  // ----- The filter -----

  const NR_OFFSET: U32 := 0
  const ARCH_OFFSET: U32 := 4
  const ARG0_OFFSET: U32 := 16
  const AUDIT_ARCH_X86_64: U32 := 0xC000_003E
  const SYS_SOCKET: U32 := 41
  const AF_INET: U32 := 2
  const AF_INET6: U32 := 10
  const AF_PACKET: U32 := 17
  const RET_ALLOW: U32 := 0x7fff_0000
  const RET_ERRNO_EPERM: U32 := 0x0005_0001
  const RET_KILL_PROCESS: U32 := 0x8000_0000

  function Stmt(code: nat, k: U32): Instr { Instr(code, 0, 0, k) }

  function Jump(code: nat, k: U32, jt: Octet, jf: Octet): Instr { Instr(code, jt, jf, k) }

  /** `build_seccomp_program`: the jump offsets are counted by hand in the source. */
  const FILTER: seq<Instr> := [
    Stmt(LD_W_ABS, ARCH_OFFSET),
    Jump(JMP_JEQ_K, AUDIT_ARCH_X86_64, 0, 8),
    Stmt(LD_W_ABS, NR_OFFSET),
    Jump(JMP_JEQ_K, SYS_SOCKET, 0, 4),
    Stmt(LD_W_ABS, ARG0_OFFSET),
    Jump(JMP_JEQ_K, AF_INET, 3, 0),
    Jump(JMP_JEQ_K, AF_INET6, 2, 0),
    Jump(JMP_JEQ_K, AF_PACKET, 1, 0),
    Stmt(RET_K, RET_ALLOW),
    Stmt(RET_K, RET_ERRNO_EPERM),
    Stmt(RET_K, RET_KILL_PROCESS)
  ]

  /** The documented policy: kill on another architecture; deny `socket` for three domains,
      which is a C `int` and so the low word of the argument; allow everything else. In the
      kernel's numbers, from its headers. */
  function Policy(d: SeccompData): U32
    requires |d.args| == 6
  {
    if d.arch != 0xC000_003E then 0x8000_0000
    else if d.nr == 41 && d.args[0] % 0x1_0000_0000 in {2, 10, 17} then 0x0005_0001
    else 0x7fff_0000
  }

  // ----- The filter implements the policy -----

  /** The three loads of the filter read the fields they mean to read. */
  lemma Loads(d: SeccompData)
    requires |d.args| == 6
    ensures |Layout(d)| == 64
    ensures LoadWord(Layout(d), NR_OFFSET) == d.nr
    ensures LoadWord(Layout(d), ARCH_OFFSET) == d.arch
    ensures LoadWord(Layout(d), ARG0_OFFSET) == d.args[0] % 0x1_0000_0000
  {
    var data := Layout(d);
    assert data[0..4] == Bytes(d.nr, 4);
    LowWord(d.nr);
    assert data[4..8] == Bytes(d.arch, 4);
    LowWord(d.arch);
    BytesPrefix(d.args[0], 8, 4);
    assert data[16..20] == Bytes(d.args[0], 8)[..4];
    LowWord(d.args[0]);
  }

  lemma FilterAccepted()
    ensures |FILTER| == 11 && Accepted(FILTER, 64)
  {
  }

  /** From instruction 4, with the architecture and the system call known. */
  lemma SocketPart(data: seq<Octet>, acc: U32)
    requires |data| == 64
    ensures Interpret(FILTER, data, 4, acc) ==
      Some(if LoadWord(data, ARG0_OFFSET) in {AF_INET, AF_INET6, AF_PACKET} then RET_ERRNO_EPERM else RET_ALLOW)
  {
    var domain := LoadWord(data, ARG0_OFFSET);
    assert Interpret(FILTER, data, 4, acc) == Interpret(FILTER, data, 5, domain);
    assert Interpret(FILTER, data, 9, domain) == Some(RET_ERRNO_EPERM);
    assert Interpret(FILTER, data, 8, domain) == Some(RET_ALLOW);
    assert Interpret(FILTER, data, 7, domain) == Interpret(FILTER, data, if domain == AF_PACKET then 9 else 8, domain);
    assert Interpret(FILTER, data, 6, domain) == Interpret(FILTER, data, if domain == AF_INET6 then 9 else 7, domain);
    assert Interpret(FILTER, data, 5, domain) == Interpret(FILTER, data, if domain == AF_INET then 9 else 6, domain);
  }

  /** On every `seccomp_data` the filter returns exactly what the policy says. */
  lemma FilterImplementsPolicy(d: SeccompData)
    requires |d.args| == 6
    ensures Interpret(FILTER, Layout(d), 0, 0) == Some(Policy(d))
  {
    var data := Layout(d);
    Loads(d);
    assert Interpret(FILTER, data, 0, 0) == Interpret(FILTER, data, 1, d.arch);
    assert Interpret(FILTER, data, 10, d.arch) == Some(RET_KILL_PROCESS);
    if d.arch == AUDIT_ARCH_X86_64 {
      assert Interpret(FILTER, data, 1, d.arch) == Interpret(FILTER, data, 2, d.arch);
      assert Interpret(FILTER, data, 2, d.arch) == Interpret(FILTER, data, 3, d.nr);
      assert Interpret(FILTER, data, 8, d.nr) == Some(RET_ALLOW);
      SocketPart(data, d.nr);
    }
  }
}
