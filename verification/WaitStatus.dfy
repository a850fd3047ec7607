/** Raw wait statuses and their decoding (crates/platform-linux/src/sys/spawn.rs). */
module WaitStatus {

  /** The uniformly decoded status (crates/platform/src/process.rs). */
  datatype ExitStatus = Code(code: nat) | Signaled(sig: nat) | Stopped(sig: nat) | Continued

  predicate Terminal(s: ExitStatus) {
    s.Code? || s.Signaled?
  }

  /** The low 16 bits of a status word. */
  type Word = w: nat | w < 0x1_0000

  predicate WIfExited(w: Word) { w % 128 == 0 }

  predicate WIfSignaled(w: Word) { 0 < w % 128 < 127 }

  predicate WIfStopped(w: Word) { w % 256 == 127 }

  function HighByte(w: Word): nat { w / 256 }

  /** `decode`: for waits without `WUNTRACED` and `WCONTINUED`. */
  function Decode(w: Word): ExitStatus {
    if WIfExited(w) then Code(HighByte(w))
    else if WIfSignaled(w) then Signaled(w % 128)
    else Code(1)
  }

  /** `decode_job`: for waits with both flags. */
  function DecodeJob(w: Word): ExitStatus {
    if WIfExited(w) then Code(HighByte(w))
    else if WIfSignaled(w) then Signaled(w % 128)
    else if WIfStopped(w) then Stopped(HighByte(w))
    else Continued
  }

  // ----- The words a kernel produces -----

  predicate IsExitWord(w: Word) {
    WIfExited(w) || WIfSignaled(w)
  }

  predicate IsJobWord(w: Word) {
    WIfStopped(w) || w == 0xFFFF
  }

  /** What a kernel means to say: an exit code, a signal with or without a core dump, a
      stopping signal, or a resumption. */
  datatype Event = Exit(code: nat) | Kill(sig: nat, core: bool) | Stop(sig: nat) | Resume

  predicate ValidEvent(e: Event) {
    match e
    case Exit(code) => code < 256
    case Kill(sig, _) => 0 < sig < 127
    case Stop(sig) => sig < 256
    case Resume => true
  }

  function Encode(e: Event): Word
    requires ValidEvent(e)
  {
    match e
    case Exit(code) => 256 * code
    case Kill(sig, core) => sig + if core then 128 else 0
    case Stop(sig) => 256 * sig + 127
    case Resume => 0xFFFF
  }

  /** Both decoders recover a termination; the job decoder recovers stops and resumptions,
      which the plain decoder would misread as exit code 1. */
  lemma DecodersRecoverEvents(e: Event)
    requires ValidEvent(e)
    ensures e.Exit? ==> Decode(Encode(e)) == DecodeJob(Encode(e)) == Code(e.code)
    ensures e.Kill? ==> Decode(Encode(e)) == DecodeJob(Encode(e)) == Signaled(e.sig)
    ensures e.Stop? ==> DecodeJob(Encode(e)) == Stopped(e.sig) && Decode(Encode(e)) == Code(1)
    ensures e.Resume? ==> DecodeJob(Encode(e)) == Continued && Decode(Encode(e)) == Code(1)
    ensures IsExitWord(Encode(e)) <==> e.Exit? || e.Kill?
    ensures IsJobWord(Encode(e)) <==> e.Stop? || e.Resume?
  {
    match e
    case Exit(code) => assert 256 * code % 128 == 0;
    case Kill(_, _) =>
    case Stop(sig) => assert (256 * sig + 127) % 256 == 127 && (256 * sig + 127) % 128 == 127;
    case Resume =>
  }

  /** The decoders agree exactly on terminations. */
  lemma DecodersAgree(w: Word)
    ensures IsExitWord(w) <==> Terminal(DecodeJob(w))
    ensures IsExitWord(w) ==> Decode(w) == DecodeJob(w)
  {
  }
}
