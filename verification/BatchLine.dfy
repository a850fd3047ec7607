/** The batch form of the command line (crates/winargv/src/lib.rs): `cmd.exe` doubles quotes
    instead of escaping them. A reader that undoubles them recovers the arguments, and under
    quote toggling no argument unit is ever outside quotes. */
module BatchLine {
  import opened WinArgv
  import opened Wrappers

  // ----- Recovering the arguments -----

  /** `QuoteSeen`: the last unit was a quote inside an argument, which either ends the
      argument or is the first half of a doubled quote. */
  datatype Mode = Between | Inside | QuoteSeen | Malformed

  datatype Reader = Reader(out: seq<Text>, mode: Mode, current: Text)

  function Step(r: Reader, u: Unit): Reader {
    match r.mode
    case Between =>
      if u == SPACE then r else if u == QUOTE then Reader(r.out, Inside, []) else r.(mode := Malformed)
    case Inside =>
      if u == QUOTE then r.(mode := QuoteSeen) else r.(current := r.current + [u])
    case QuoteSeen =>
      if u == QUOTE then r.(mode := Inside, current := r.current + [QUOTE])
      else if u == SPACE then Reader(r.out + [r.current], Between, [])
      else r.(mode := Malformed)
    case Malformed => r
  }

  function Run(r: Reader, line: Text): Reader {
    if line == [] then r else Step(Run(r, line[..|line| - 1]), line[|line| - 1])
  }

  function Finish(r: Reader): Option<seq<Text>> {
    match r.mode
    case Between => Some(r.out)
    case QuoteSeen => Some(r.out + [r.current])
    case _ => None
  }

  lemma {:induction false} RunAppend(r: Reader, a: Text, b: Text)
    ensures Run(r, a + b) == Run(Run(r, a), b)
  {
    if b == [] {
      assert a + b == a;
    } else {
      RunAppend(r, a, b[..|b| - 1]);
      assert (a + b)[..|a + b| - 1] == a + b[..|b| - 1];
    }
  }

  lemma RunSnoc(r: Reader, a: Text, u: Unit)
    ensures Run(r, a + [u]) == Step(Run(r, a), u)
  {
    assert (a + [u])[..|a|] == a;
  }

  lemma {:induction false} ReadDoubled(r: Reader, p: Text)
    requires r.mode == Inside && r.current == []
    ensures Run(r, Doubled(p)) == r.(current := p)
  {
    if p != [] {
      var p', u := p[..|p| - 1], p[|p| - 1];
      ReadDoubled(r, p');
      assert p == p' + [u];
      if u == QUOTE {
        RunSnoc(r, Doubled(p'), QUOTE);
        RunSnoc(r, Doubled(p') + [QUOTE], QUOTE);
      } else {
        assert Doubled(p) == Doubled(p') + [u];
        RunSnoc(r, Doubled(p'), u);
      }
    }
  }

  lemma ReadArg(r: Reader, arg: Text)
    requires Finish(r).Some?
    ensures Run(r, [SPACE] + BatchQuoted(arg)) == Reader(Finish(r).value, QuoteSeen, arg)
  {
    assert [SPACE] + BatchQuoted(arg) == ([] + [SPACE] + [QUOTE]) + Doubled(arg) + [QUOTE];
    RunSnoc(r, [], SPACE);
    RunSnoc(r, [] + [SPACE], QUOTE);
    RunAppend(r, [] + [SPACE] + [QUOTE], Doubled(arg));
    ReadDoubled(Reader(Finish(r).value, Inside, []), arg);
    RunSnoc(r, [] + [SPACE] + [QUOTE] + Doubled(arg), QUOTE);
  }

  lemma AppendHeadTail(a: seq<Text>, args: seq<Text>)
    requires args != []
    ensures a + [args[0]] + args[1..] == a + args
  {
  }

  /** The argument list is recoverable from the line by undoubling. */
  lemma {:induction false} Recover(r: Reader, args: seq<Text>)
    requires Finish(r).Some?
    ensures Finish(Run(r, ArgsPart(Batch, args))) == Some(Finish(r).value + args)
    decreases |args|
  {
    if args == [] {
      assert Finish(r).value + args == Finish(r).value;
    } else {
      RunAppend(r, [SPACE] + BatchQuoted(args[0]), ArgsPart(Batch, args[1..]));
      ReadArg(r, args[0]);
      Recover(Reader(Finish(r).value, QuoteSeen, args[0]), args[1..]);
      AppendHeadTail(Finish(r).value, args);
    }
  }

  /** What stands after the program token determines the arguments, for every argument list. */
  lemma BatchRoundTrip(program: Text, args: seq<Text>)
    requires Classify(program) == Batch
    ensures Finish(Run(Reader([], Between, []), Line(program, args)[|Quoted(program)|..])) == Some(args)
  {
    assert Line(program, args)[|Quoted(program)|..] == ArgsPart(Batch, args);
    Recover(Reader([], Between, []), args);
    assert [] + args == args;
  }

  // ----- Quote toggling -----

  /** Whether `s` holds an odd number of quotes. */
  predicate OddQuotes(s: Text) {
    s != [] && (OddQuotes(s[..|s| - 1]) != (s[|s| - 1] == QUOTE))
  }

  /** Whether position `i` lies inside quotes when every quote toggles. */
  predicate OpenAt(line: Text, i: nat)
    requires i <= |line|
  {
    OddQuotes(line[..i])
  }

  lemma {:induction false} OddAppend(a: Text, b: Text)
    ensures OddQuotes(a + b) == (OddQuotes(a) != OddQuotes(b))
  {
    if b == [] {
      assert a + b == a;
    } else {
      OddAppend(a, b[..|b| - 1]);
      assert (a + b)[..|a + b| - 1] == a + b[..|b| - 1];
    }
  }

  lemma OddSnoc(a: Text, u: Unit)
    ensures OddQuotes(a + [u]) == (OddQuotes(a) != (u == QUOTE))
  {
    assert (a + [u])[..|a|] == a;
  }

  lemma {:induction false} BackslashesAreEven(n: nat)
    ensures !OddQuotes(Repeat(BACKSLASH, n))
  {
    if n > 0 {
      BackslashesAreEven(n - 1);
      assert Repeat(BACKSLASH, n)[..n - 1] == Repeat(BACKSLASH, n - 1);
    }
  }

  lemma {:induction false} DoubledIsEven(p: Text)
    ensures !OddQuotes(Doubled(p))
  {
    if p != [] {
      var p', u := p[..|p| - 1], p[|p| - 1];
      DoubledIsEven(p');
      if u == QUOTE {
        OddSnoc(Doubled(p'), QUOTE);
        OddSnoc(Doubled(p') + [QUOTE], QUOTE);
      } else {
        assert Doubled(p) == Doubled(p') + [u];
        OddSnoc(Doubled(p'), u);
      }
    }
  }

  /** Before any unit of an argument other than a quote, the doubled quotes are paired. */
  lemma {:induction false} EvenBefore(p: Text, j: nat)
    requires j < |Doubled(p)| && Doubled(p)[j] != QUOTE
    ensures !OddQuotes(Doubled(p)[..j])
  {
    var p', u := p[..|p| - 1], p[|p| - 1];
    if j < |Doubled(p')| {
      EvenBefore(p', j);
      assert Doubled(p)[..j] == Doubled(p')[..j];
    } else {
      assert u != QUOTE;
      assert Doubled(p)[..j] == Doubled(p');
      DoubledIsEven(p');
    }
  }

  lemma OddInsideArg(arg: Text, j: nat)
    requires j < |BatchQuoted(arg)| && BatchQuoted(arg)[j] != QUOTE
    ensures OddQuotes(BatchQuoted(arg)[..j])
  {
    EvenBefore(arg, j - 1);
    OddSnoc([], QUOTE);
    assert [] + [QUOTE] == [QUOTE];
    OddAppend([QUOTE], Doubled(arg)[..j - 1]);
    assert BatchQuoted(arg)[..j] == [QUOTE] + Doubled(arg)[..j - 1];
  }

  lemma WholeArgIsEven(arg: Text)
    ensures !OddQuotes([SPACE] + BatchQuoted(arg))
  {
    var open := [] + [SPACE] + [QUOTE];
    OddSnoc([], SPACE);
    OddSnoc([] + [SPACE], QUOTE);
    DoubledIsEven(arg);
    OddAppend(open, Doubled(arg));
    OddSnoc(open + Doubled(arg), QUOTE);
    assert [SPACE] + BatchQuoted(arg) == open + Doubled(arg) + [QUOTE];
  }

  lemma {:induction false} EscapedKeepsParity(p: Text)
    ensures OddQuotes(Escaped(p)) == OddQuotes(p)
  {
    if p != [] {
      var p', u := p[..|p| - 1], p[|p| - 1];
      EscapedKeepsParity(p');
      var run := if u == QUOTE then Repeat(BACKSLASH, TrailingRun(p') + 1) else [];
      BackslashesAreEven(TrailingRun(p') + 1);
      OddAppend(Escaped(p'), run);
      OddSnoc(Escaped(p') + run, u);
    }
  }

  lemma QuotedProgramParity(p: Text)
    ensures OddQuotes(Quoted(p)) == OddQuotes(p)
  {
    EscapedKeepsParity(p);
    if NeedsQuotes(p) {
      var run := Repeat(BACKSLASH, TrailingRun(p));
      OddSnoc([], QUOTE);
      assert [] + [QUOTE] == [QUOTE];
      BackslashesAreEven(TrailingRun(p));
      OddAppend([QUOTE], Escaped(p));
      OddAppend([QUOTE] + Escaped(p), run);
      OddSnoc([QUOTE] + Escaped(p) + run, QUOTE);
    }
  }

  /** The offset, within the arguments part, of the printed argument `k`. */
  function ArgOffset(args: seq<Text>, k: nat): nat
    requires k < |args|
  {
    if k == 0 then 1 else 1 + |BatchQuoted(args[0])| + ArgOffset(args[1..], k - 1)
  }

  lemma OddPrefix(a: Text, b: Text, i: nat)
    requires i <= |b|
    ensures OddQuotes((a + b)[..|a| + i]) == (OddQuotes(a) != OddQuotes(b[..i]))
  {
    assert (a + b)[..|a| + i] == a + b[..i];
    OddAppend(a, b[..i]);
  }

  lemma Shifted(token: Text, part: Text, i: nat, line: Text, at: nat)
    requires i < |part| && OddQuotes(part[..i]) && line == token + part && at == |token| + i
    ensures at < |line| && line[at] == part[i]
    ensures OpenAt(line, at) <==> !OddQuotes(token)
  {
    OddPrefix(token, part, i);
  }

  lemma OddAtFirstArg(arg: Text, rest: Text, j: nat, part: Text)
    requires j < |BatchQuoted(arg)| && BatchQuoted(arg)[j] != QUOTE && part == [SPACE] + BatchQuoted(arg) + rest
    ensures 1 + j < |part| && part[1 + j] == BatchQuoted(arg)[j] && OddQuotes(part[..1 + j])
  {
    OddInsideArg(arg, j);
    OddSnoc([], SPACE);
    assert [] + [SPACE] == [SPACE];
    OddAppend([SPACE], BatchQuoted(arg)[..j]);
    assert part[..1 + j] == [SPACE] + BatchQuoted(arg)[..j];
  }

  lemma OddLater(arg: Text, rest: Text, i: nat, part: Text, at: nat)
    requires i < |rest| && OddQuotes(rest[..i])
    requires part == [SPACE] + BatchQuoted(arg) + rest && at == 1 + |BatchQuoted(arg)| + i
    ensures at < |part| && part[at] == rest[i] && OddQuotes(part[..at])
  {
    WholeArgIsEven(arg);
    OddPrefix([SPACE] + BatchQuoted(arg), rest, i);
  }

  /** Before unit `j` of printed argument `k` there is an odd number of quotes, unless it is
      a quote itself. */
  lemma {:induction false} OddAtArg(args: seq<Text>, k: nat, j: nat, unit: Unit, part: Text, at: nat)
    requires k < |args| && j < |BatchQuoted(args[k])| && BatchQuoted(args[k])[j] == unit != QUOTE
    requires part == ArgsPart(Batch, args) && at == ArgOffset(args, k) + j
    ensures at < |part| && part[at] == unit && OddQuotes(part[..at])
    decreases k
  {
    var rest := ArgsPart(Batch, args[1..]);
    if k == 0 {
      OddAtFirstArg(args[0], rest, j, part);
    } else {
      var i := ArgOffset(args[1..], k - 1) + j;
      OddAtArg(args[1..], k - 1, j, unit, rest, i);
      OddLater(args[0], rest, i, part, at);
    }
  }

  /** The same after any program token. */
  lemma OddAfterToken(token: Text, args: seq<Text>, k: nat, j: nat, unit: Unit, part: Text, i: nat, line: Text, at: nat)
    requires k < |args| && j < |BatchQuoted(args[k])| && BatchQuoted(args[k])[j] == unit != QUOTE
    requires part == ArgsPart(Batch, args) && i == ArgOffset(args, k) + j
    requires line == token + part && at == |token| + i
    ensures at < |line| && line[at] == unit
    ensures OpenAt(line, at) <==> !OddQuotes(token)
  {
    OddAtArg(args, k, j, unit, part, i);
    Shifted(token, part, i, line, at);
  }

  /** Every argument unit of a batch line other than a quote lies inside quotes, for every
      argument list, if and only if the program holds an even number of quotes. */
  lemma ArgumentsStayQuoted(program: Text, args: seq<Text>, k: nat, j: nat, line: Text) returns (at: nat)
    requires Classify(program) == Batch && line == Line(program, args)
    requires k < |args| && j < |BatchQuoted(args[k])| && BatchQuoted(args[k])[j] != QUOTE
    ensures at == |Quoted(program)| + (ArgOffset(args, k) + j) < |line|
    ensures line[at] == BatchQuoted(args[k])[j]
    ensures OpenAt(line, at) <==> !OddQuotes(program)
  {
    var token := Quoted(program);
    at := |token| + (ArgOffset(args, k) + j);
    QuotedProgramParity(program);
    OddAfterToken(token, args, k, j, BatchQuoted(args[k])[j], ArgsPart(Batch, args), ArgOffset(args, k) + j, line, at);
  }

  lemma OddName(program: Text)
    requires program == [QUOTE] + [46, 98, 97, 116]
    ensures Classify(program) == Batch && OddQuotes(program)
  {
    ClassifyByExtension([QUOTE], [46, 98, 97, 116]);
    OddAppend([QUOTE], [46, 98, 97, 116]);
    OddSnoc([], QUOTE);
    assert [] + [QUOTE] == [QUOTE];
    NoQuotes([46, 98, 97, 116]);
  }

  /** A batch program whose name starts with a quote: the argument `a` stands outside quotes. */
  lemma OddProgramOpens(line: Text) returns (at: nat)
    requires line == Line([QUOTE] + [46, 98, 97, 116], [[97]])
    ensures at < |line| && line[at] == 97 && !OpenAt(line, at)
  {
    OddName([QUOTE] + [46, 98, 97, 116]);
    OneUnit(97);
    at := ArgumentsStayQuoted([QUOTE] + [46, 98, 97, 116], [[97]], 0, 1, line);
  }

  lemma OneUnit(u: Unit)
    requires u != QUOTE
    ensures BatchQuoted([u]) == [QUOTE, u, QUOTE]
  {
    assert [u][..0] == [];
    assert Doubled([u]) == Doubled([]) + [] + [u];
    assert [QUOTE] + [u] + [QUOTE] == [QUOTE, u, QUOTE];
  }

  lemma {:induction false} NoQuotes(s: Text)
    requires QUOTE !in s
    ensures !OddQuotes(s)
  {
    if s != [] {
      NoQuotes(s[..|s| - 1]);
    }
  }

  // ----- No newline or percent sign enters through an argument -----

  lemma {:induction false} DoubledAddsNothing(p: Text, u: Unit)
    requires u in Doubled(p)
    ensures u in p || u == QUOTE
  {
    var p' := p[..|p| - 1];
    if u in Doubled(p') {
      DoubledAddsNothing(p', u);
    }
  }

  lemma {:induction false} ArgsPartAddsNothing(args: seq<Text>, u: Unit)
    requires u in ArgsPart(Batch, args) && u != SPACE && u != QUOTE
    ensures exists k :: 0 <= k < |args| && u in args[k]
    decreases |args|
  {
    if u in Doubled(args[0]) {
      DoubledAddsNothing(args[0], u);
    } else {
      assert u in ArgsPart(Batch, args[1..]);
      ArgsPartAddsNothing(args[1..], u);
      var k :| 0 <= k < |args[1..]| && u in args[1..][k];
      assert args[k + 1] == args[1..][k];
    }
  }

  lemma {:induction false} EscapedHolds(p: Text, u: Unit)
    requires u != BACKSLASH
    ensures u in Escaped(p) <==> u in p
  {
    if p != [] {
      EscapedHolds(p[..|p| - 1], u);
      assert p == p[..|p| - 1] + [p[|p| - 1]];
    }
  }

  lemma QuotedHolds(p: Text, u: Unit)
    requires u != BACKSLASH && u != QUOTE
    ensures u in Quoted(p) <==> u in p
  {
    EscapedHolds(p, u);
  }

  /** A built batch line holds CR, LF or `%` if and only if its program does: nothing of the kind
      enters through an argument. */
  lemma BatchArgumentsAreClean(program: Text, args: seq<Text>, u: Unit, line: Text)
    requires Representable(program, args) && Classify(program) == Batch && line == Line(program, args)
    requires u == CR || u == LF || u == PERCENT || u == NUL
    ensures u !in line[|Quoted(program)|..]
    ensures u in line <==> u in program
  {
    QuotedHolds(program, u);
    ArgsAreClean(program, args, u);
    Joined(Quoted(program), ArgsPart(Batch, args), line, u);
  }

  lemma ArgsAreClean(program: Text, args: seq<Text>, u: Unit)
    requires Representable(program, args) && Classify(program) == Batch
    requires u == CR || u == LF || u == PERCENT || u == NUL
    ensures u !in ArgsPart(Batch, args)
  {
    if u in ArgsPart(Batch, args) {
      ArgsPartAddsNothing(args, u);
    }
  }

  lemma Joined(a: Text, b: Text, line: Text, u: Unit)
    requires line == a + b && u !in b
    ensures line[|a|..] == b && (u in line <==> u in a)
  {
  }
}
