/** Windows command-line construction (crates/winargv/src/lib.rs).

 A command line is one sequence of UTF-16 units. The quoters of this module print an
 argument list into such a line; module `ArgvSplit` reads it back under MSVCRT rules and
 module `BatchLine` under the quote-doubling rule of `cmd.exe`.
 */
module WinArgv {

  /** A UTF-16 code unit, as `CreateProcessW` takes it: surrogates need not be paired. */
  newtype Unit = u: int | 0 <= u < 0x1_0000

  type Text = seq<Unit>

  const NUL: Unit := 0
  const TAB: Unit := 9
  const LF: Unit := 10
  const CR: Unit := 13
  const SPACE: Unit := 32
  const QUOTE: Unit := 34
  const PERCENT: Unit := 37
  const BACKSLASH: Unit := 92

  /** The characters that matter to the rules below. */
  lemma CharactersSpelled()
    ensures TAB as int == '\t' as int && LF as int == '\n' as int && CR as int == '\r' as int && NUL == 0
    ensures SPACE as int == ' ' as int && QUOTE as int == '"' as int
    ensures PERCENT as int == '%' as int && BACKSLASH as int == '\\' as int
  {
  }

  datatype Target = Executable | Batch

  /** All refusals of the builder are `InvalidInput`; they differ in their message only. */
  datatype Refusal = EmptyProgram | EmbeddedNul | UnrepresentableBatchArgument

  datatype Result<+T> = Success(value: T) | Failure(refusal: Refusal)

  // ----- Classification -----

  function Lower(u: Unit): Unit {
    if 65 <= u <= 90 then u + 32 else u
  }

  /** `.bat` and `.cmd`, in any letter case, name a batch script. */
  function Classify(program: Text): Target {
    if |program| < 4 then Executable
    else
      var tail := program[|program| - 4..];
      var lower := [Lower(tail[0]), Lower(tail[1]), Lower(tail[2]), Lower(tail[3])];
      if lower == [46, 98, 97, 116] || lower == [46, 99, 109, 100] then Batch else Executable
  }

  /** `ext` is the word, each letter in either case. */
  predicate Spells(ext: Text, word: string) {
    |ext| == |word| && forall i :: 0 <= i < |word| ==>
      ext[i] as int == word[i] as int || ('a' <= word[i] <= 'z' && ext[i] as int == word[i] as int - 32)
  }

  /** A program is a batch script exactly by its last four units. */
  lemma ClassifyByExtension(stem: Text, ext: Text)
    requires |ext| == 4
    ensures Classify(stem + ext) == Batch <==> Spells(ext, ".bat") || Spells(ext, ".cmd")
  {
    var program := stem + ext;
    assert program[|program| - 4..] == ext;
    var lower := [Lower(ext[0]), Lower(ext[1]), Lower(ext[2]), Lower(ext[3])];
    assert lower == [46, 98, 97, 116] <==> Spells(ext, ".bat") by {
      var w := ".bat";
      assert w[0] == '.' && w[1] == 'b' && w[2] == 'a' && w[3] == 't';
    }
    assert lower == [46, 99, 109, 100] <==> Spells(ext, ".cmd") by {
      var w := ".cmd";
      assert w[0] == '.' && w[1] == 'c' && w[2] == 'm' && w[3] == 'd';
    }
  }

  // ----- The printed form of one argument -----

  function Repeat(u: Unit, n: nat): Text {
    seq(n, _ => u)
  }

  /** The number of backslashes that end `s`. */
  function TrailingRun(s: Text): nat {
    if s == [] || s[|s| - 1] != BACKSLASH then 0 else 1 + TrailingRun(s[..|s| - 1])
  }

  predicate HasBlank(s: Text) {
    SPACE in s || TAB in s
  }

  predicate NeedsQuotes(arg: Text) {
    arg == [] || HasBlank(arg) || QUOTE in arg
  }

  /** Every quote is preceded by one more backslash than already stands before it. */
  function Escaped(s: Text): Text {
    if s == [] then []
    else
      var p := s[..|s| - 1];
      var u := s[|s| - 1];
      Escaped(p) + (if u == QUOTE then Repeat(BACKSLASH, TrailingRun(p) + 1) else []) + [u]
  }

  function Quoted(arg: Text): Text {
    if NeedsQuotes(arg) then
      [QUOTE] + Escaped(arg) + Repeat(BACKSLASH, TrailingRun(arg)) + [QUOTE]
    else
      Escaped(arg)
  }

  /** `cmd.exe` escapes a quote by doubling it. */
  function Doubled(s: Text): Text {
    if s == [] then []
    else
      var u := s[|s| - 1];
      Doubled(s[..|s| - 1]) + (if u == QUOTE then [QUOTE] else []) + [u]
  }

  function BatchQuoted(arg: Text): Text {
    [QUOTE] + Doubled(arg) + [QUOTE]
  }

  predicate BatchRepresentable(arg: Text) {
    NUL !in arg && CR !in arg && LF !in arg && PERCENT !in arg
  }

  // ----- The whole line -----

  function Printed(target: Target, arg: Text): Text {
    if target == Executable then Quoted(arg) else BatchQuoted(arg)
  }

  function ArgsPart(target: Target, args: seq<Text>): Text {
    if args == [] then [] else [SPACE] + Printed(target, args[0]) + ArgsPart(target, args[1..])
  }

  function Line(program: Text, args: seq<Text>): Text {
    Quoted(program) + ArgsPart(Classify(program), args)
  }

  predicate NulFree(program: Text, args: seq<Text>) {
    NUL !in program && forall i :: 0 <= i < |args| ==> NUL !in args[i]
  }

  /** The documented refusal set: an empty program, a NUL anywhere, and for batch targets
      CR, LF or `%` in an argument. */
  predicate Representable(program: Text, args: seq<Text>) {
    && program != []
    && NulFree(program, args)
    && (Classify(program) == Batch ==> forall i :: 0 <= i < |args| ==> BatchRepresentable(args[i]))
  }

  // ----- The operations -----

  method PushBackslashes(out: Text, n: nat) returns (r: Text)
    ensures r == out + Repeat(BACKSLASH, n)
  {
    r := out;
    for k := 0 to n
      invariant r == out + Repeat(BACKSLASH, k)
    {
      assert Repeat(BACKSLASH, k + 1) == Repeat(BACKSLASH, k) + [BACKSLASH];
      r := r + [BACKSLASH];
    }
  }

  /** One more unit: what the loop of `quote_arg_into` appends for it. */
  lemma EscapedSnoc(p: Text, u: Unit)
    ensures Escaped(p + [u]) == Escaped(p) + (if u == QUOTE then Repeat(BACKSLASH, TrailingRun(p) + 1) else []) + [u]
    ensures TrailingRun(p + [u]) == if u == BACKSLASH then TrailingRun(p) + 1 else 0
  {
    assert (p + [u])[..|p|] == p;
  }

  lemma SnocAssoc(a: Text, b: Text, c: Text, u: Unit)
    ensures a + b + c + [u] == a + (b + c + [u])
  {
  }

  lemma EscapedNext(out: Text, p: Text, u: Unit, q: Text)
    requires q == p + [u]
    ensures out + Escaped(q) == out + Escaped(p) + (if u == QUOTE then Repeat(BACKSLASH, TrailingRun(p) + 1) else []) + [u]
    ensures TrailingRun(q) == if u == BACKSLASH then TrailingRun(p) + 1 else 0
  {
    EscapedSnoc(p, u);
    SnocAssoc(out, Escaped(p), if u == QUOTE then Repeat(BACKSLASH, TrailingRun(p) + 1) else [], u);
  }

  /** A turn of the loop. */
  method PushUnit(u: Unit, out: Text, backslashes: nat) returns (r: Text, backslashes': nat)
    ensures r == out + (if u == QUOTE then Repeat(BACKSLASH, backslashes + 1) else []) + [u]
    ensures backslashes' == if u == BACKSLASH then backslashes + 1 else 0
  {
    r := out;
    if u == BACKSLASH {
      backslashes' := backslashes + 1;
    } else {
      if u == QUOTE {
        r := PushBackslashes(r, backslashes + 1);
      }
      backslashes' := 0;
    }
    r := r + [u];
  }

  /** The loop of `quote_arg_into`, with its running count of backslashes. */
  method PushEscaped(arg: Text, out: Text) returns (r: Text, backslashes: nat)
    ensures r == out + Escaped(arg)
    ensures backslashes == TrailingRun(arg)
  {
    r, backslashes := out, 0;
    for i := 0 to |arg|
      invariant r == out + Escaped(arg[..i])
      invariant backslashes == TrailingRun(arg[..i])
    {
      assert arg[..i + 1] == arg[..i] + [arg[i]];
      EscapedNext(out, arg[..i], arg[i], arg[..i + 1]);
      r, backslashes := PushUnit(arg[i], r, backslashes);
    }
    assert arg[..|arg|] == arg;
  }

  /** `quote_arg_into`: quotes only where the argument would not survive without. */
  method QuoteArgInto(arg: Text, out: Text) returns (r: Text)
    ensures r == out + Quoted(arg)
  {
    var quote := NeedsQuotes(arg);
    r := out;
    if quote {
      r := r + [QUOTE];
    }
    var backslashes;
    r, backslashes := PushEscaped(arg, r);
    if quote {
      r := PushBackslashes(r, backslashes);
      r := r + [QUOTE];
    }
  }

  /** `quote_batch_arg_into`: refuses what `cmd.exe` cannot be given safely. */
  method QuoteBatchArgInto(arg: Text, out: Text) returns (r: Result<Text>)
    ensures r.Success? <==> BatchRepresentable(arg)
    ensures r.Success? ==> r.value == out + BatchQuoted(arg)
    ensures r.Failure? ==> r.refusal == UnrepresentableBatchArgument
  {
    if NUL in arg || CR in arg || LF in arg || PERCENT in arg {
      return Failure(UnrepresentableBatchArgument);
    }
    var buf := out + [QUOTE];
    for i := 0 to |arg|
      invariant buf == out + [QUOTE] + Doubled(arg[..i])
    {
      assert arg[..i + 1][..i] == arg[..i];
      if arg[i] == QUOTE {
        buf := buf + [QUOTE];
      }
      buf := buf + [arg[i]];
    }
    assert arg[..|arg|] == arg;
    r := Success(buf + [QUOTE]);
  }

  /** One separator and one argument, under the rules of `target`. */
  method PushArg(target: Target, arg: Text, out: Text) returns (r: Result<Text>)
    ensures r.Success? <==> (target == Batch ==> BatchRepresentable(arg))
    ensures r.Success? ==> r.value == out + ([SPACE] + Printed(target, arg))
  {
    var spaced := out + [SPACE];
    match target {
      case Executable =>
        var line := QuoteArgInto(arg, spaced);
        r := Success(line);
      case Batch =>
        r := QuoteBatchArgInto(arg, spaced);
    }
  }

  lemma ArgsPartStep(target: Target, args: seq<Text>, i: nat, out: Text)
    requires i < |args|
    ensures out + ArgsPart(target, args[i..]) == out + ([SPACE] + Printed(target, args[i])) + ArgsPart(target, args[i + 1..])
  {
    assert args[i..][1..] == args[i + 1..];
  }

  /** `build_command_line_wide`: succeeds on exactly the representable inputs. */
  method BuildCommandLineWide(program: Text, args: seq<Text>) returns (r: Result<Text>)
    ensures r.Success? <==> Representable(program, args)
    ensures r.Success? ==> r.value == Line(program, args)
  {
    if program == [] {
      return Failure(EmptyProgram);
    }
    if !NulFree(program, args) {
      return Failure(EmbeddedNul);
    }
    var out := QuoteArgInto(program, []);
    assert out == Quoted(program);
    r := PushArgs(Classify(program), args, out);
  }

  /** The loop over the arguments, which stops at the first that a batch line cannot hold. */
  method PushArgs(target: Target, args: seq<Text>, start: Text) returns (r: Result<Text>)
    ensures r.Success? <==> target == Executable || forall j :: 0 <= j < |args| ==> BatchRepresentable(args[j])
    ensures r.Success? ==> r.value == start + ArgsPart(target, args)
  {
    var out := start;
    ghost var whole := start + ArgsPart(target, args);
    assert args[0..] == args;
    for i := 0 to |args|
      invariant out + ArgsPart(target, args[i..]) == whole
      invariant target == Batch ==> forall j :: 0 <= j < i ==> BatchRepresentable(args[j])
    {
      ArgsPartStep(target, args, i, out);
      var pushed := PushArg(target, args[i], out);
      if pushed.Failure? {
        return pushed;
      }
      out := pushed.value;
    }
    assert out + ArgsPart(target, []) == out;
    return Success(out);
  }
}
