/** Names of the temporary files of `write_atomic` (crates/platform/src/fs.rs): the target
    name, the process id and a counter in hexadecimal. */
module TempNames {

  type Name = string

  const DIGITS := "0123456789abcdef"

  /** `{n:x}`: lower-case hexadecimal without leading zeros. */
  function Hex(n: nat): (s: string)
    ensures s != ""
    ensures '-' !in s
  {
    if n < 16 then [DIGITS[n]] else Hex(n / 16) + [DIGITS[n % 16]]
  }

  /** `pid` is the decimal text of the process id, the same for every call of one process. */
  function TempName(pid: string, rel: Name, n: nat): Name {
    rel + ".rustils-tmp-" + pid + "-" + Hex(n)
  }

  lemma DigitsDiffer(a: nat, b: nat)
    requires a < 16 && b < 16 && DIGITS[a] == DIGITS[b]
    ensures a == b
  {
  }

  lemma OneDigit(n: nat)
    ensures |Hex(n)| == 1 <==> n < 16
  {
  }

  lemma {:induction false} HexInjective(a: nat, b: nat)
    requires Hex(a) == Hex(b)
    ensures a == b
  {
    OneDigit(a);
    OneDigit(b);
    if a < 16 {
      DigitsDiffer(a, b);
    } else {
      var x, y := Hex(a / 16), Hex(b / 16);
      assert Hex(a)[..|x|] == x && Hex(b)[..|y|] == y;
      HexInjective(a / 16, b / 16);
      assert Hex(a)[|x|] == DIGITS[a % 16] && Hex(b)[|y|] == DIGITS[b % 16];
      DigitsDiffer(a % 16, b % 16);
    }
  }

  lemma NoDashAfter(a: string, h: string, i: nat)
    requires '-' !in h && i < |a + "-" + h| && (a + "-" + h)[i] == '-'
    ensures i <= |a|
  {
    assert forall j :: 0 <= j < |h| ==> (a + "-" + h)[|a| + 1 + j] == h[j];
  }

  /** The last dash of a name is recoverable: what follows it holds none. */
  lemma LastDash(a: string, h: string, b: string, k: string)
    requires a + "-" + h == b + "-" + k
    requires '-' !in h && '-' !in k
    ensures a == b && h == k
  {
    var s := a + "-" + h;
    NoDashAfter(a, h, |b|);
    NoDashAfter(b, k, |a|);
    assert a == s[..|a|] && b == s[..|b|] && h == s[|a| + 1..] && k == s[|b| + 1..];
  }

  /** Temporary names never collide: neither across counters nor across targets. */
  lemma TempNamesDistinct(pid: string, rel: Name, n: nat, rel': Name, n': nat)
    requires TempName(pid, rel, n) == TempName(pid, rel', n')
    ensures rel == rel' && n == n'
  {
    LastDash(rel + ".rustils-tmp-" + pid, Hex(n), rel' + ".rustils-tmp-" + pid, Hex(n'));
    HexInjective(n, n');
    var t, t' := rel + ".rustils-tmp-" + pid, rel' + ".rustils-tmp-" + pid;
    assert rel == t[..|rel|] && rel' == t'[..|rel'|];
  }

  /** Nor do those of two processes: the name holds the process id too. */
  lemma TempNamesOfProcesses(pid: string, rel: Name, n: nat, pid': string, rel': Name, n': nat)
    requires '-' !in pid && '-' !in pid' && TempName(pid, rel, n) == TempName(pid', rel', n')
    ensures pid == pid' && rel == rel' && n == n'
  {
    var t, t' := rel + ".rustils-tmp", rel' + ".rustils-tmp";
    assert rel + ".rustils-tmp-" + pid == t + "-" + pid && rel' + ".rustils-tmp-" + pid' == t' + "-" + pid';
    LastDash(rel + ".rustils-tmp-" + pid, Hex(n), rel' + ".rustils-tmp-" + pid', Hex(n'));
    LastDash(t, pid, t', pid');
    HexInjective(n, n');
    assert rel == t[..|rel|] && rel' == t'[..|rel'|];
  }
}
