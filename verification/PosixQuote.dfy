/** POSIX shell quoting (`posix_quote_arg`, crates/winargv/src/lib.rs) against a word reader
    for the quoting rules of section 2.2 of the POSIX Shell Command Language. */
module PosixQuote {
  import opened Wrappers

  // ----- The quoter -----

  /** The characters whose presence makes `posix_quote_arg` quote. */
  predicate IsMeta(c: char) {
    || c == ' ' || c == '\t' || c == '\n' || c == '\'' || c == '"' || c == '\\'
    || c == '$' || c == '`' || c == '&' || c == '|' || c == ';' || c == '<' || c == '>'
    || c == '(' || c == ')' || c == '{' || c == '}' || c == '*' || c == '?' || c == '['
    || c == ']' || c == '!' || c == '~' || c == '#'
  }

  predicate HasMeta(arg: string) {
    exists i :: 0 <= i < |arg| && IsMeta(arg[i])
  }

  /** Inside single quotes only the single quote itself needs the close-escape-reopen form. */
  function Body(arg: string): string {
    if arg == [] then []
    else
      var c := arg[|arg| - 1];
      Body(arg[..|arg| - 1]) + if c == '\'' then "'\\''" else [c]
  }

  function Quote(arg: string): string {
    if arg == "" then "''" else if !HasMeta(arg) then arg else "'" + Body(arg) + "'"
  }

  /** Exactly these characters, and the empty argument, call for quotes; without them an argument is
      returned as it is, and with them it is not. */
  lemma QuotedExactly(arg: string)
    ensures Quote(arg) == arg <==> arg != "" && forall c :: c in arg ==>
      c !in {' ', '\t', '\n', '\'', '"', '\\', '$', '`', '&', '|', ';', '<', '>', '(', ')', '{', '}', '*', '?', '[', ']', '!', '~', '#'}
  {
    BodyLonger(arg);
    if HasMeta(arg) {
      var i :| 0 <= i < |arg| && IsMeta(arg[i]);
      assert arg[i] in arg;
    }
  }

  lemma {:induction false} BodyLonger(arg: string)
    ensures |Body(arg)| >= |arg|
  {
    if arg != [] {
      BodyLonger(arg[..|arg| - 1]);
    }
  }

  /** `posix_quote_arg`. */
  method PosixQuoteArg(arg: string) returns (out: string)
    ensures out == Quote(arg)
  {
    if arg == "" {
      return "''";
    }
    if !HasMeta(arg) {
      return arg;
    }
    out := "'";
    for i := 0 to |arg|
      invariant out == "'" + Body(arg[..i])
    {
      assert arg[..i + 1][..i] == arg[..i];
      if arg[i] == '\'' {
        out := out + "'\\''";
      } else {
        out := out + [arg[i]];
      }
    }
    assert arg[..|arg|] == arg;
    out := out + "'";
  }

  function Joined(args: seq<string>): string {
    if args == [] then ""
    else Joined(args[..|args| - 1]) + (if |args| == 1 then "" else " ") + Quote(args[|args| - 1])
  }

  // ----- The shell's reader -----

  datatype Mode = Plain | Single | Double | Escape | DoubleEscape | Refused

  datatype Reader = Reader(words: seq<string>, inWord: bool, word: string, mode: Mode)

  const START := Reader([], false, "", Plain)

  /** Unquoted, these end the command, start an expansion, a comment or a pattern: the line
      is then more than a list of words. */
  predicate IsSpecial(c: char) {
    || c == '\n' || c == '|' || c == '&' || c == ';' || c == '<' || c == '>' || c == '('
    || c == ')' || c == '$' || c == '`' || c == '*' || c == '?' || c == '[' || c == '#' || c == '~'
  }

  function Push(r: Reader, c: char): Reader {
    r.(inWord := true, word := r.word + [c])
  }

  function Step(r: Reader, c: char): Reader {
    match r.mode
    case Plain =>
      if c == ' ' || c == '\t' then
        if r.inWord then Reader(r.words + [r.word], false, "", Plain) else r
      else if IsSpecial(c) then r.(mode := Refused)
      else if c == '\\' then r.(mode := Escape)
      else if c == '\'' then r.(inWord := true, mode := Single)
      else if c == '"' then r.(inWord := true, mode := Double)
      else Push(r, c)
    case Escape =>
      if c == '\n' then r.(mode := Plain) else Push(r, c).(mode := Plain)
    case Single =>
      if c == '\'' then r.(mode := Plain) else Push(r, c)
    case Double =>
      if c == '"' then r.(mode := Plain)
      else if c == '\\' then r.(mode := DoubleEscape)
      else if c == '$' || c == '`' then r.(mode := Refused)
      else Push(r, c)
    case DoubleEscape =>
      if c == '\n' then r.(mode := Double)
      else if c == '$' || c == '`' || c == '"' || c == '\\' then Push(r, c).(mode := Double)
      else Push(Push(r, '\\'), c).(mode := Double)
    case Refused => r
  }

  function Run(r: Reader, line: string): Reader {
    if line == [] then r else Step(Run(r, line[..|line| - 1]), line[|line| - 1])
  }

  /** The words of a line, or `None` if the line is not a complete list of words. */
  function Words(line: string): Option<seq<string>> {
    var r := Run(START, line);
    if r.mode != Plain then None else Some(if r.inWord then r.words + [r.word] else r.words)
  }

  // ----- The round trip -----

  lemma {:induction false} RunAppend(r: Reader, a: string, b: string)
    ensures Run(r, a + b) == Run(Run(r, a), b)
  {
    if b == [] {
      assert a + b == a;
    } else {
      RunAppend(r, a, b[..|b| - 1]);
      assert (a + b)[..|a + b| - 1] == a + b[..|b| - 1];
    }
  }

  lemma RunSnoc(r: Reader, a: string, c: char)
    ensures Run(r, a + [c]) == Step(Run(r, a), c)
  {
    assert (a + [c])[..|a|] == a;
  }

  lemma RunOne(r: Reader, c: char)
    ensures Run(r, [c]) == Step(r, c)
  {
    RunSnoc(r, [], c);
    assert [] + [c] == [c];
  }

  /** `'\''` inside single quotes leaves, adds a literal quote, and re-enters. */
  lemma ReadReopened(r: Reader, word: string)
    requires r == Reader(r.words, true, word, Single)
    ensures Run(r, "'\\''") == Reader(r.words, true, word + ['\''], Single)
  {
    RunOne(r, '\'');
    RunSnoc(r, ['\''], '\\');
    RunSnoc(r, ['\'', '\\'], '\'');
    RunSnoc(r, ['\'', '\\', '\''], '\'');
    assert ['\''] + ['\\'] == ['\'', '\\'];
    assert ['\'', '\\'] + ['\''] == ['\'', '\\', '\''];
    assert ['\'', '\\', '\''] + ['\''] == "'\\''";
  }

  lemma {:induction false} ReadBody(r: Reader, arg: string)
    requires r == Reader(r.words, true, "", Single)
    ensures Run(r, Body(arg)) == Reader(r.words, true, arg, Single)
  {
    if arg != [] {
      var p, c := arg[..|arg| - 1], arg[|arg| - 1];
      ReadBody(r, p);
      assert arg == p + [c];
      if c == '\'' {
        RunAppend(r, Body(p), "'\\''");
        ReadReopened(Reader(r.words, true, p, Single), p);
      } else {
        RunSnoc(r, Body(p), c);
      }
    }
  }

  lemma {:induction false} ReadBare(r: Reader, arg: string)
    requires r == Reader(r.words, false, "", Plain) && !HasMeta(arg)
    ensures Run(r, arg) == Reader(r.words, arg != "", arg, Plain)
  {
    if arg != [] {
      var p, c := arg[..|arg| - 1], arg[|arg| - 1];
      ReadBare(r, p);
      assert arg == p + [c] && !IsMeta(c);
    }
  }

  lemma ReadQuote(r: Reader, arg: string)
    requires r == Reader(r.words, false, "", Plain)
    ensures Run(r, Quote(arg)) == Reader(r.words, true, arg, Plain)
  {
    if arg == "" || HasMeta(arg) {
      assert Quote(arg) == ['\''] + Body(arg) + ['\''];
      RunOne(r, '\'');
      ReadBody(Reader(r.words, true, "", Single), arg);
      RunAppend(r, ['\''], Body(arg));
      RunSnoc(r, ['\''] + Body(arg), '\'');
    } else {
      ReadBare(r, arg);
    }
  }

  lemma Unsnoc(args: seq<string>)
    requires args != []
    ensures args[..|args| - 1] + [args[|args| - 1]] == args
  {
  }

  /** From between words, a blank and one more quoted word. */
  lemma ReadNext(line: string, front: seq<string>, w: string, arg: string)
    requires Run(START, line) == Reader(front, true, w, Plain)
    ensures Run(START, line + " " + Quote(arg)) == Reader(front + [w], true, arg, Plain)
  {
    RunSnoc(START, line, ' ');
    RunAppend(START, line + " ", Quote(arg));
    ReadQuote(Reader(front + [w], false, "", Plain), arg);
  }

  lemma ReadFirst(arg: string)
    ensures Run(START, Joined([arg])) == Reader([], true, arg, Plain)
  {
    ReadQuote(START, arg);
    assert Joined([arg]) == Quote(arg);
  }

  lemma JoinedMore(front: seq<string>, arg: string)
    requires front != []
    ensures Joined(front + [arg]) == Joined(front) + " " + Quote(arg)
  {
    assert (front + [arg])[..|front|] == front;
  }

  lemma {:induction false} ReadJoined(front: seq<string>, last: string)
    ensures Run(START, Joined(front + [last])) == Reader(front, true, last, Plain)
    decreases |front|
  {
    if front == [] {
      ReadFirst(last);
      assert front + [last] == [last];
    } else {
      var before, w := front[..|front| - 1], front[|front| - 1];
      Unsnoc(front);
      ReadJoined(before, w);
      JoinedMore(front, last);
      ReadNext(Joined(front), before, w, last);
    }
  }

  /** A shell that follows the quoting rules reads back exactly the quoted words, for every
      list of words. */
  lemma PosixRoundTrip(args: seq<string>)
    ensures Words(Joined(args)) == Some(args)
  {
    if args != [] {
      Unsnoc(args);
      ReadJoined(args[..|args| - 1], args[|args| - 1]);
    }
  }
}
