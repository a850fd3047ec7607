/** The MSVCRT splitter that the fuzz target checks the quoter against
    (fuzz/fuzz_targets/winargv_roundtrip.rs), and the proof that it undoes the quoter. */
module ArgvSplit {
  import opened WinArgv

  // ----- The splitting rules, one unit at a time -----

  /** `pending` backslashes have been read whose meaning depends on the next unit. */
  datatype State = State(out: seq<Text>, inQuotes: bool, inArg: bool, current: Text, pending: nat)

  const START := State([], false, false, [], 0)

  /** Backslashes that no quote follows stand for themselves. */
  function Flush(s: State): State {
    if s.pending == 0 then s
    else s.(inArg := true, current := s.current + Repeat(BACKSLASH, s.pending), pending := 0)
  }

  function Step(s: State, u: Unit): State {
    if u == BACKSLASH then s.(pending := s.pending + 1)
    else if u == QUOTE then
      var halved := s.(inArg := true, current := s.current + Repeat(BACKSLASH, s.pending / 2), pending := 0);
      if s.pending % 2 == 1 then halved.(current := halved.current + [QUOTE])
      else halved.(inQuotes := !s.inQuotes)
    else
      var f := Flush(s);
      if (u == SPACE || u == TAB) && !f.inQuotes then
        if f.inArg then f.(out := f.out + [f.current], inArg := false, current := []) else f
      else f.(inArg := true, current := f.current + [u])
  }

  function Run(s: State, line: Text): State {
    if line == [] then s else Step(Run(s, line[..|line| - 1]), line[|line| - 1])
  }

  function Finish(s: State): seq<Text> {
    var f := Flush(s);
    if f.inArg then f.out + [f.current] else f.out
  }

  /** The first index at or after `i` that holds a stop unit, or the end of the line. */
  function Until(line: Text, stops: set<Unit>, i: nat): (k: nat)
    requires i <= |line|
    ensures i <= k <= |line|
    ensures forall j :: i <= j < k ==> line[j] !in stops
    ensures k < |line| ==> line[k] in stops
    decreases |line| - i
  {
    if i == |line| || line[i] in stops then i else Until(line, stops, i + 1)
  }

  /** The simple rule for the first token: quoted up to the next quote, else up to a blank.
      Returns the token and the index at which the arguments start. */
  function ProgramToken(line: Text): (r: (Text, nat))
    ensures r.1 <= |line|
  {
    if line != [] && line[0] == QUOTE then
      var k := Until(line, {QUOTE}, 1);
      (line[1..k], if k < |line| then k + 1 else k)
    else
      var k := Until(line, {SPACE, TAB}, 0);
      (line[..k], k)
  }

  function Split(line: Text): seq<Text> {
    var (program, rest) := ProgramToken(line);
    [program] + Finish(Run(START, line[rest..]))
  }

  lemma {:induction false} RunAppend(s: State, a: Text, b: Text)
    ensures Run(s, a + b) == Run(Run(s, a), b)
  {
    if b == [] {
      assert a + b == a;
    } else {
      var b' := b[..|b| - 1];
      RunAppend(s, a, b');
      assert (a + b)[..|a + b| - 1] == a + b';
    }
  }

  lemma Assoc(a: Text, b: Text, c: Text)
    ensures a + b + c == a + (b + c)
  {
  }

  // ----- The splitter as the fuzz target writes it -----

  /** Appends the line's units from `i` on to `token` until a stop unit. */
  method CopyUntil(line: Text, stops: set<Unit>, start: nat) returns (token: Text, i: nat)
    requires start <= |line|
    ensures i == Until(line, stops, start)
    ensures token == line[start..i]
  {
    token, i := [], start;
    while i < |line| && line[i] !in stops
      invariant start <= i <= |line|
      invariant token == line[start..i]
      invariant Until(line, stops, start) == Until(line, stops, i)
    {
      token := token + [line[i]];
      i := i + 1;
    }
  }

  lemma RunNext(s: State, line: Text, from: nat, i: nat)
    requires from <= i < |line|
    ensures Run(s, line[from..i + 1]) == Step(Run(s, line[from..i]), line[i])
  {
    assert line[from..i + 1][..i - from] == line[from..i];
  }

  /** Consumes a run of backslashes; the automaton only counts them. */
  method CountBackslashes(line: Text, ghost from: nat, start: nat) returns (n: nat, i: nat)
    requires from <= start <= |line|
    requires Run(START, line[from..start]).pending == 0
    ensures start <= i <= |line| && n == i - start
    ensures i < |line| ==> line[i] != BACKSLASH
    ensures start < |line| && line[start] == BACKSLASH ==> start < i
    ensures Run(START, line[from..i]) == Run(START, line[from..start]).(pending := n)
  {
    n, i := 0, start;
    ghost var s := Run(START, line[from..start]);
    while i < |line| && line[i] == BACKSLASH
      invariant start <= i <= |line| && n == i - start
      invariant Run(START, line[from..i]) == s.(pending := n)
    {
      RunNext(START, line, from, i);
      n := n + 1;
      i := i + 1;
    }
  }

  /** What one unit does to a state whose backslashes have been flushed. */
  lemma StepFlushed(s: State, u: Unit)
    requires u != BACKSLASH
    requires u != QUOTE || s.pending == 0
    ensures Flush(Step(s, u)) == Step(s, u) == Step(Flush(s), u)
    ensures u == QUOTE ==> Step(s, u) == s.(inArg := true, inQuotes := !s.inQuotes)
  {
    assert s.current + Repeat(BACKSLASH, 0) == s.current;
  }

  /** What the splitter's variables hold in a state whose backslashes have been flushed. */
  ghost predicate Holds(s: State, out: seq<Text>, inQuotes: bool, inArg: bool, current: Text) {
    Flush(s) == State(out, inQuotes, inArg, current, 0)
  }

  lemma RunThenQuote(s: State, n: nat, out: seq<Text>, inQuotes: bool, inArg: bool, current: Text)
    requires Holds(s, out, inQuotes, inArg, current) && s.pending == 0
    ensures Step(s.(pending := n), QUOTE).pending == 0
    ensures Holds(Step(s.(pending := n), QUOTE), out, if n % 2 == 1 then inQuotes else !inQuotes, true,
              current + Repeat(BACKSLASH, n / 2) + if n % 2 == 1 then [QUOTE] else [])
  {
  }

  lemma RunThenOther(s: State, n: nat, out: seq<Text>, inQuotes: bool, inArg: bool, current: Text)
    requires Holds(s, out, inQuotes, inArg, current) && s.pending == 0 && n > 0
    ensures Holds(s.(pending := n), out, inQuotes, true, current + Repeat(BACKSLASH, n))
  {
  }

  /** A unit that is neither a backslash nor a quote after backslashes. */
  lemma OtherUnit(s: State, u: Unit, out: seq<Text>, inQuotes: bool, inArg: bool, current: Text)
    requires Holds(s, out, inQuotes, inArg, current) && u != BACKSLASH && (u != QUOTE || s.pending == 0)
    ensures Step(s, u).pending == 0
    ensures u == QUOTE ==> Holds(Step(s, u), out, !inQuotes, true, current)
    ensures u != QUOTE && (u == SPACE || u == TAB) && !inQuotes ==>
      Holds(Step(s, u), if inArg then out + [current] else out, false, false, if inArg then [] else current)
    ensures u != QUOTE && !((u == SPACE || u == TAB) && !inQuotes) ==> Holds(Step(s, u), out, inQuotes, true, current + [u])
  {
    StepFlushed(s, u);
  }

  /** A run of backslashes and, if one follows, the quote after it. */
  method TakeRun(line: Text, ghost from: nat, start: nat, ghost s: State, ghost out: seq<Text>, inQuotes: bool,
    ghost inArg: bool, current: Text)
    returns (i: nat, inQuotes': bool, current': Text, ghost s': State)
    requires from <= start < |line| && line[start] == BACKSLASH
    requires s == Run(START, line[from..start]) && s.pending == 0 && Holds(s, out, inQuotes, inArg, current)
    ensures start < i <= |line| && s' == Run(START, line[from..i]) && Holds(s', out, inQuotes', true, current')
    ensures s'.pending > 0 && i < |line| ==> line[i] != BACKSLASH && line[i] != QUOTE
  {
    var n;
    n, i := CountBackslashes(line, from, start);
    inQuotes', s' := inQuotes, s.(pending := n);
    if i < |line| && line[i] == QUOTE {
      RunNext(START, line, from, i);
      RunThenQuote(s, n, out, inQuotes, inArg, current);
      s' := Step(s', QUOTE);
      current' := current + Repeat(BACKSLASH, n / 2);
      if n % 2 == 1 {
        current' := current' + [QUOTE];
      } else {
        inQuotes' := !inQuotes;
      }
      i := i + 1;
    } else {
      RunThenOther(s, n, out, inQuotes, inArg, current);
      current' := current + Repeat(BACKSLASH, n);
    }
  }

  /** The second half of `model_split`: the arguments, from index `from` on. */
  method SplitArgs(line: Text, from: nat) returns (out: seq<Text>)
    requires from <= |line|
    ensures out == Finish(Run(START, line[from..]))
  {
    var i := from;
    out := [];
    var inQuotes, inArg := false, false;
    var current: Text := [];
    ghost var s := START;
    while i < |line|
      invariant from <= i <= |line|
      invariant s == Run(START, line[from..i]) && Holds(s, out, inQuotes, inArg, current)
      invariant s.pending > 0 && i < |line| ==> line[i] != BACKSLASH && line[i] != QUOTE
    {
      var u := line[i];
      if u == BACKSLASH {
        i, inQuotes, current, s := TakeRun(line, from, i, s, out, inQuotes, inArg, current);
        inArg := true;
      } else {
        RunNext(START, line, from, i);
        OtherUnit(s, u, out, inQuotes, inArg, current);
        s := Step(s, u);
        if u == QUOTE {
          inQuotes := !inQuotes;
          inArg := true;
        } else if (u == SPACE || u == TAB) && !inQuotes {
          if inArg {
            out := out + [current];
            current := [];
            inArg := false;
          }
        } else {
          current := current + [u];
          inArg := true;
        }
        i := i + 1;
      }
    }
    assert line[from..|line|] == line[from..];
    if inArg {
      out := out + [current];
    }
  }

  /** `model_split`: the program token by the simple rule, then the arguments. */
  method ModelSplit(line: Text) returns (out: seq<Text>)
    ensures out == Split(line)
  {
    var program: Text;
    var i: nat;
    if line != [] && line[0] == QUOTE {
      program, i := CopyUntil(line, {QUOTE}, 1);
      i := if i + 1 < |line| then i + 1 else |line|;
    } else {
      program, i := CopyUntil(line, {SPACE, TAB}, 0);
    }
    var rest := SplitArgs(line, i);
    out := [program] + rest;
  }

  // ----- Reading one printed argument -----

  /** What the splitter knows after `p`, read as part of an argument: all of `p` except its
      trailing backslashes, which are still pending. */
  ghost predicate Read(s: State, out: seq<Text>, inQuotes: bool, p: Text) {
    && s.out == out
    && s.inQuotes == inQuotes
    && s.pending == TrailingRun(p)
    && p == s.current + Repeat(BACKSLASH, s.pending)
    && (s.inArg || (!inQuotes && s.current == []))
  }

  lemma {:induction false} ReadBackslashes(s: State, n: nat)
    ensures Run(s, Repeat(BACKSLASH, n)) == s.(pending := s.pending + n)
  {
    if n > 0 {
      assert Repeat(BACKSLASH, n)[..n - 1] == Repeat(BACKSLASH, n - 1);
      ReadBackslashes(s, n - 1);
    }
  }

  lemma RepeatAppend(a: nat, b: nat)
    ensures Repeat(BACKSLASH, a) + Repeat(BACKSLASH, b) == Repeat(BACKSLASH, a + b)
  {
  }

  /** A quote inside an argument: its `n + 1` extra backslashes and the `n` that stood
      before it make an odd run, which halves to `n` and a literal quote. */
  lemma ReadEscapedQuote(s: State, out: seq<Text>, p: Text)
    requires Read(s, out, true, p) && s.inArg
    ensures Read(Run(s, Repeat(BACKSLASH, TrailingRun(p) + 1) + [QUOTE]), out, true, p + [QUOTE])
    ensures Run(s, Repeat(BACKSLASH, TrailingRun(p) + 1) + [QUOTE]).inArg
  {
    var n := TrailingRun(p);
    RunAppend(s, Repeat(BACKSLASH, n + 1), [QUOTE]);
    ReadBackslashes(s, n + 1);
    var t := Run(s, Repeat(BACKSLASH, n + 1));
    assert [QUOTE][..0] == [];
    assert Run(t, [QUOTE]) == Step(t, QUOTE);
    assert t.pending / 2 == n && t.pending % 2 == 1;
  }

  lemma ReadPlain(s: State, out: seq<Text>, q: bool, p: Text, u: Unit)
    requires Read(s, out, q, p)
    requires u != QUOTE && (q || (u != SPACE && u != TAB))
    ensures Read(Step(s, u), out, q, p + [u])
  {
    assert (p + [u])[..|p|] == p;
    if u == BACKSLASH {
      RepeatAppend(s.pending, 1);
    }
  }

  lemma PlainParts(p: Text, u: Unit)
    ensures QUOTE !in p + [u] && !HasBlank(p + [u]) <==> QUOTE !in p && !HasBlank(p) && u != QUOTE && u != SPACE && u != TAB
  {
    assert (p + [u])[|p|] == u;
  }

  /** The invariant over backslash runs: whatever was printed so far reads back. */
  lemma {:induction false} ReadEscaped(s: State, out: seq<Text>, q: bool, p: Text)
    requires s == State(out, q, q, [], 0)
    requires q || (QUOTE !in p && !HasBlank(p))
    ensures Read(Run(s, Escaped(p)), out, q, p)
    ensures q ==> Run(s, Escaped(p)).inArg
  {
    if p == [] {
      assert Repeat(BACKSLASH, 0) == [];
    } else {
      var p', u := p[..|p| - 1], p[|p| - 1];
      assert p == p' + [u];
      PlainParts(p', u);
      ReadEscaped(s, out, q, p');
      ReadEscapedSnoc(s, out, q, p', u);
    }
  }

  lemma ReadEscapedSnoc(s: State, out: seq<Text>, q: bool, p: Text, u: Unit)
    requires Read(Run(s, Escaped(p)), out, q, p)
    requires q ==> Run(s, Escaped(p)).inArg
    requires q || (u != QUOTE && u != SPACE && u != TAB)
    ensures Read(Run(s, Escaped(p + [u])), out, q, p + [u])
    ensures q ==> Run(s, Escaped(p + [u])).inArg
  {
    EscapedSnoc(p, u);
    var t := Run(s, Escaped(p));
    if u == QUOTE {
      var run := Repeat(BACKSLASH, TrailingRun(p) + 1);
      Assoc(Escaped(p), run, [QUOTE]);
      RunAppend(s, Escaped(p), run + [QUOTE]);
      ReadEscapedQuote(t, out, p);
    } else {
      assert Escaped(p + [u]) == Escaped(p) + [u];
      RunAppend(s, Escaped(p), [u]);
      RunOne(t, u);
      ReadPlain(t, out, q, p, u);
    }
  }

  lemma RunOne(s: State, u: Unit)
    ensures Run(s, [u]) == Step(s, u)
  {
    assert [u][..0] == [];
  }

  /** The closing quote: doubled backslashes make an even run, which halves and toggles. */
  lemma ReadClosing(s: State, out: seq<Text>, p: Text)
    requires Read(s, out, true, p)
    ensures Run(s, Repeat(BACKSLASH, TrailingRun(p)) + [QUOTE]) == State(out, false, true, p, 0)
  {
    var n := TrailingRun(p);
    RunAppend(s, Repeat(BACKSLASH, n), [QUOTE]);
    ReadBackslashes(s, n);
    RunOne(s.(pending := n + n), QUOTE);
    assert (n + n) / 2 == n && (n + n) % 2 == 0;
  }

  lemma ReadQuotedForm(s: State, arg: Text)
    requires s == State(s.out, false, false, [], 0)
    ensures Run(s, [QUOTE] + Escaped(arg) + (Repeat(BACKSLASH, TrailingRun(arg)) + [QUOTE])) == State(s.out, false, true, arg, 0)
  {
    RunOne(s, QUOTE);
    StepFlushed(s, QUOTE);
    var t := State(s.out, true, true, [], 0);
    ReadEscaped(t, s.out, true, arg);
    RunAppend(s, [QUOTE], Escaped(arg));
    RunAppend(s, [QUOTE] + Escaped(arg), Repeat(BACKSLASH, TrailingRun(arg)) + [QUOTE]);
    ReadClosing(Run(t, Escaped(arg)), s.out, arg);
  }

  /** After a printed argument the splitter holds exactly that argument and is outside quotes. */
  lemma ReadQuoted(s: State, arg: Text)
    requires s == State(s.out, false, false, [], 0)
    ensures Flush(Run(s, Quoted(arg))) == State(s.out, false, true, arg, 0)
  {
    if NeedsQuotes(arg) {
      assert Quoted(arg) == [QUOTE] + Escaped(arg) + (Repeat(BACKSLASH, TrailingRun(arg)) + [QUOTE]);
      ReadQuotedForm(s, arg);
    } else {
      ReadEscaped(s, s.out, false, arg);
    }
  }

  // ----- Reading the whole line -----

  /** A blank outside quotes ends the argument, if there is one. */
  lemma ReadSpace(s: State)
    requires !s.inQuotes && (Flush(s).inArg || s.current == [])
    ensures Run(s, [SPACE]) == State(Finish(s), false, false, [], 0)
  {
    assert [SPACE][..0] == [];
  }

  lemma ReadOneArg(s: State, arg: Text) returns (t: State)
    requires !s.inQuotes && (Flush(s).inArg || s.current == [])
    ensures t == Run(s, [SPACE] + Quoted(arg))
    ensures !t.inQuotes && Flush(t).inArg && Finish(t) == Finish(s) + [arg]
  {
    ReadSpace(s);
    RunAppend(s, [SPACE], Quoted(arg));
    var between := State(Finish(s), false, false, [], 0);
    ReadQuoted(between, arg);
    t := Run(between, Quoted(arg));
  }

  lemma AppendHeadTail(a: seq<Text>, args: seq<Text>)
    requires args != []
    ensures a + [args[0]] + args[1..] == a + args
  {
  }

  /** From any state outside quotes the splitter appends exactly `args` to what it has. */
  lemma {:induction false} ReadArgs(s: State, args: seq<Text>)
    requires !s.inQuotes && (Flush(s).inArg || s.current == [])
    ensures Finish(Run(s, ArgsPart(Executable, args))) == Finish(s) + args
    decreases |args|
  {
    if args == [] {
      assert Finish(s) + args == Finish(s);
    } else {
      var t := ReadOneArg(s, args[0]);
      RunAppend(s, [SPACE] + Quoted(args[0]), ArgsPart(Executable, args[1..]));
      ReadArgs(t, args[1..]);
      AppendHeadTail(Finish(s), args);
    }
  }

  // ----- The program token -----

  /** The programs that the simple rule reads back: no quote, and no backslash that the
      quoter would have to double before its closing quote. */
  predicate SimpleProgram(p: Text) {
    QUOTE !in p && !(HasBlank(p) && p != [] && p[|p| - 1] == BACKSLASH)
  }

  lemma {:induction false} EscapedWithoutQuotes(p: Text)
    requires QUOTE !in p
    ensures Escaped(p) == p
  {
    if p != [] {
      EscapedWithoutQuotes(p[..|p| - 1]);
    }
  }

  lemma {:induction false} EscapedLonger(p: Text)
    ensures |Escaped(p)| >= |p|
  {
    if p != [] {
      EscapedLonger(p[..|p| - 1]);
    }
  }

  /** An argument is printed as it is exactly if it is not empty and has no space, tab or quote. */
  lemma PrintedUnchanged(arg: Text)
    ensures Quoted(arg) == arg <==> arg != [] && 32 !in arg && 9 !in arg && 34 !in arg
  {
    EscapedLonger(arg);
    if QUOTE !in arg {
      EscapedWithoutQuotes(arg);
    }
  }

  lemma UntilIs(line: Text, stops: set<Unit>, i: nat, k: nat)
    requires i <= k <= |line|
    requires forall j :: i <= j < k ==> line[j] !in stops
    requires k == |line| || line[k] in stops
    ensures Until(line, stops, i) == k
  {
  }

  lemma QuotedTokenShape(body: Text, rest: Text)
    requires QUOTE !in body
    ensures ProgramToken([QUOTE] + body + ([QUOTE] + rest)) == (body, |body| + 2)
  {
    var line := [QUOTE] + body + ([QUOTE] + rest);
    assert line[1..|body| + 1] == body;
    UntilIs(line, {QUOTE}, 1, |body| + 1);
  }

  lemma QuotedWithoutQuotes(p: Text)
    requires NeedsQuotes(p) && QUOTE !in p
    ensures Quoted(p) == [QUOTE] + (p + Repeat(BACKSLASH, TrailingRun(p))) + [QUOTE]
  {
    EscapedWithoutQuotes(p);
    Assoc([QUOTE], p, Repeat(BACKSLASH, TrailingRun(p)));
  }

  /** A quoted program without quotes is read up to its closing quote, doubled backslashes
      and all. */
  lemma QuotedToken(p: Text, rest: Text)
    requires NeedsQuotes(p) && QUOTE !in p
    ensures ProgramToken(Quoted(p) + rest) == (p + Repeat(BACKSLASH, TrailingRun(p)), |Quoted(p)|)
  {
    QuotedWithoutQuotes(p);
    var body := p + Repeat(BACKSLASH, TrailingRun(p));
    QuotedTokenShape(body, rest);
    Assoc([QUOTE] + body, [QUOTE], rest);
  }

  lemma BareToken(p: Text, rest: Text)
    requires !NeedsQuotes(p) && (rest == [] || rest[0] == SPACE)
    ensures ProgramToken(Quoted(p) + rest) == (p, |Quoted(p)|)
  {
    EscapedWithoutQuotes(p);
    var line := Quoted(p) + rest;
    UntilIs(line, {SPACE, TAB}, 0, |p|);
    assert line[..|p|] == p;
  }

  /** The token is the program exactly for the simple programs. */
  lemma ProgramTokenExact(p: Text, rest: Text)
    requires p != [] && (rest == [] || rest[0] == SPACE)
    ensures ProgramToken(Quoted(p) + rest).0 == p <==> SimpleProgram(p)
    ensures SimpleProgram(p) ==> ProgramToken(Quoted(p) + rest).1 == |Quoted(p)|
  {
    if QUOTE in p {
      var token := ProgramToken(Quoted(p) + rest).0;
      assert (Quoted(p) + rest)[0] == QUOTE;
      assert QUOTE !in token;
    } else if NeedsQuotes(p) {
      QuotedToken(p, rest);
      assert p + Repeat(BACKSLASH, TrailingRun(p)) == p <==> TrailingRun(p) == 0;
    } else {
      BareToken(p, rest);
    }
  }

  /** The round trip that the fuzz target samples, for all argument lists: splitting the
      built line gives back program and arguments if and only if the program is simple. */
  lemma RoundTrip(program: Text, args: seq<Text>)
    requires program != [] && Classify(program) == Executable
    ensures Split(Line(program, args)) == [program] + args <==> SimpleProgram(program)
  {
    var rest := ArgsPart(Executable, args);
    ProgramTokenExact(program, rest);
    assert ([program] + args)[0] == program;
    if SimpleProgram(program) {
      assert Line(program, args)[|Quoted(program)|..] == rest;
      ReadArgs(START, args);
      assert Finish(START) + args == args;
    }
  }

  /** A program outside the domain: `a b\` comes back with its backslash doubled. */
  lemma TrailingBackslashIsDoubled()
    ensures Split(Line([97, SPACE, 98, BACKSLASH], []))[0] == [97, SPACE, 98, BACKSLASH, BACKSLASH]
  {
    var p: Text := [97, SPACE, 98, BACKSLASH];
    assert p[..3][..2] == p[..2];
    QuotedToken(p, []);
    assert Line(p, []) == Quoted(p) + [];
    assert TrailingRun(p) == 1;
    assert p + Repeat(BACKSLASH, 1) == [97, SPACE, 98, BACKSLASH, BACKSLASH];
  }
}
