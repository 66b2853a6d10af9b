/** user/xargs.c without its fork/exec/wait: reading one line of standard
    input, building the argument vector for it, and the sequence of argument
    vectors the main loop executes. Exit statuses are `Failure(status)`. */
module Xargs {
  import opened Wrappers
  import opened CStrings

  const NEWLINE: char := '\n'
  const SPACE: char := ' '

  /** What read_line leaves behind: the buffer (the line's bytes with a NUL in
      place of the newline), the returned length, and the unread input. */
  datatype LineRead = LineRead(buf: seq<char>, length: nat, rest: seq<char>)

  /** read_line: one byte at a time up to the first newline; input that ends
      before any newline is exit(1). */
  function ReadLine(input: seq<char>): (r: Result<LineRead, nat>)
    ensures r.Failure? <==> NEWLINE !in input
    ensures r.Failure? ==> r.error == 1
    ensures r.Success? ==>
      && r.value.length < |input|
      && input[r.value.length] == NEWLINE
      && NEWLINE !in input[..r.value.length]
      && r.value.buf == input[..r.value.length] + [NUL]
      && r.value.rest == input[r.value.length + 1..]
  {
    if |input| == 0 then Failure(1)
    else if input[0] == NEWLINE then Success(LineRead([NUL], 0, input[1..]))
    else
      match ReadLine(input[1..])
      case Failure(status) => Failure(status)
      case Success(l) => Success(LineRead([input[0]] + l.buf, l.length + 1, l.rest))
  }

  /** strchr(s, c) as an index: the first occurrence of `c`, if any. */
  function Strchr(s: string, c: char): (r: Option<nat>)
    ensures r.None? <==> c !in s
    ensures r.Some? ==> r.value < |s| && s[r.value] == c && c !in s[..r.value]
  {
    if |s| == 0 then None
    else if s[0] == c then Some(0)
    else
      match Strchr(s[1..], c)
      case None => None
      case Some(i) => Some(i + 1)
  }

  /** strchr finds the first occurrence and no other. */
  lemma StrchrFirst(s: string, c: char, i: nat)
    requires i < |s| && s[i] == c && c !in s[..i]
    ensures Strchr(s, c) == Some(i)
  {
    var j := Strchr(s, c).value;
    assert forall k | 0 <= k < i :: s[..i][k] == s[k];
    assert forall k | 0 <= k < j :: s[..j][k] == s[k];
  }

  /** read_line stops at the first newline and no other. */
  lemma ReadLineFirst(input: seq<char>, i: nat)
    requires i < |input| && input[i] == NEWLINE && NEWLINE !in input[..i]
    ensures ReadLine(input).Success? && ReadLine(input).value.length == i
  {
    var j := ReadLine(input).value.length;
    assert forall k | 0 <= k < i :: input[..i][k] == input[k];
    assert forall k | 0 <= k < j :: input[..j][k] == input[k];
  }

  /** The tokens create_argv's split loop stores: the text up to each space,
      then the remainder after the last one. `k` spaces give `k + 1` tokens,
      empty ones included. */
  function SplitSpaces(p: string): (tokens: seq<string>)
    ensures |tokens| == multiset(p)[SPACE] + 1
    ensures forall t | t in tokens :: SPACE !in t
    decreases |p|
  {
    match Strchr(p, SPACE)
    case None => [p]
    case Some(i) =>
      assert p == p[..i] + [SPACE] + p[i + 1..];
      [p[..i]] + SplitSpaces(p[i + 1..])
  }

  /** The tokens separated by single spaces. */
  function JoinSpaces(tokens: seq<string>): string {
    if |tokens| == 0 then ""
    else if |tokens| == 1 then tokens[0]
    else tokens[0] + [SPACE] + JoinSpaces(tokens[1..])
  }

  /** Joining the split tokens gives the line back. */
  lemma {:induction false} JoinSplit(p: string)
    ensures JoinSpaces(SplitSpaces(p)) == p
    decreases |p|
  {
    match Strchr(p, SPACE)
    case None =>
    case Some(i) =>
      JoinSplit(p[i + 1..]);
      assert p == p[..i] + [SPACE] + p[i + 1..];
  }

  /** A space-free first token is split off at the space after it. */
  lemma SplitFirst(t: string, more: string)
    requires SPACE !in t
    ensures SplitSpaces(t + [SPACE] + more) == [t] + SplitSpaces(more)
  {
    var p := t + [SPACE] + more;
    assert p[..|t|] == t && p[|t| + 1..] == more;
    StrchrFirst(p, SPACE, |t|);
  }

  /** Splitting space-free tokens joined by spaces gives the tokens back. */
  lemma {:induction false} SplitJoin(tokens: seq<string>)
    requires |tokens| >= 1 && forall t | t in tokens :: SPACE !in t
    ensures SplitSpaces(JoinSpaces(tokens)) == tokens
  {
    if |tokens| == 1 {
      assert SPACE !in tokens[0];
    } else {
      var t, tl := tokens[0], tokens[1..];
      assert t in tokens;
      SplitFirst(t, JoinSpaces(tl));
      assert forall u | u in tl :: u in tokens;
      SplitJoin(tl);
      assert tokens == [t] + tl;
    }
  }

  /** One store `buf[slot] = arg` of create_argv; `None` is the NULL that
      ends the vector. */
  datatype Store = Store(slot: nat, arg: Option<string>)

  /** What create_argv as written does: its stores into `buf`, in program
      order, and then either `exit(status)` (`Some(status)`) or the return of
      `buf` (`None`). */
  datatype ArgvTrace = ArgvTrace(stores: seq<Store>, exit: Option<nat>)

  /** create_argv's split loop from slot `i`: `buf[i++] = p`, then strchr for
      a space; a space found is overwritten with NUL, which ends the stored
      argument there, and the loop goes on after it. */
  function SplitStores(i: nat, p: string): (s: seq<Store>)
    ensures |s| == |SplitSpaces(p)|
    ensures forall t | 0 <= t < |s| :: s[t] == Store(i + t, Some(SplitSpaces(p)[t]))
    decreases |p|
  {
    match Strchr(p, SPACE)
    case None => [Store(i, Some(p))]
    case Some(k) => [Store(i, Some(p[..k]))] + SplitStores(i + 1, p[k + 1..])
  }

  /** create_argv as written: copy the fixed arguments, split the line, and
      only then compare the count with MAXARG. Exit 1 when the count reaches
      MAXARG; otherwise store the NULL after the last argument. Every store
      goes to the next slot, and one store per argument comes before the
      decision. */
  function CreateArgvAsWritten(argv: seq<string>, extra: string, maxarg: nat): (t: ArgvTrace)
    ensures t.exit.Some? <==> |argv| + multiset(extra)[SPACE] + 1 >= maxarg
    ensures t.exit.Some? ==> t.exit.value == 1
    ensures forall j | 0 <= j < |t.stores| :: t.stores[j].slot == j
    ensures |t.stores| == |argv| + multiset(extra)[SPACE] + 1 + (if t.exit.None? then 1 else 0)
    ensures forall j | 0 <= j < |t.stores| :: t.stores[j].arg.Some? <==> j < |argv| + multiset(extra)[SPACE] + 1
  {
    var copies := seq(|argv|, j requires 0 <= j < |argv| => Store(j, Some(argv[j])));
    var stores := copies + SplitStores(|argv|, extra);
    var i := |stores|;
    if i >= maxarg then ArgvTrace(stores, Some(1))
    else ArgvTrace(stores + [Store(i, None)], None)
  }

  /** As written, the bound check comes after the stores: a store lands
      outside `buf[MAXARG]` exactly when `argc + spaces + 1 > MAXARG`, and
      the exit(1) only follows it. */
  lemma CreateArgvOverrun(argv: seq<string>, extra: string, maxarg: nat)
    ensures var t := CreateArgvAsWritten(argv, extra, maxarg);
      (exists j | 0 <= j < |t.stores| :: t.stores[j].slot >= maxarg)
        <==> |argv| + multiset(extra)[SPACE] + 1 > maxarg
    ensures var t := CreateArgvAsWritten(argv, extra, maxarg);
      |argv| + multiset(extra)[SPACE] + 1 > maxarg ==>
        maxarg < |t.stores| && t.stores[maxarg].slot == maxarg && t.stores[maxarg].arg.Some? && t.exit == Some(1)
  {
    var t := CreateArgvAsWritten(argv, extra, maxarg);
    if |argv| + multiset(extra)[SPACE] + 1 > maxarg {
      assert t.stores[maxarg].slot >= maxarg;
    }
  }

  /** The arguments stored as written are the fixed arguments followed by the
      line's tokens, slot by slot; whenever the corrected create_argv returns
      a vector, the as-written call stores exactly that vector and its NULL,
      and whenever it exits, the as-written call exits with the same status. */
  lemma CreateArgvAgrees(argv: seq<string>, extra: string, maxarg: nat)
    ensures var t := CreateArgvAsWritten(argv, extra, maxarg);
      forall j | 0 <= j < |t.stores| && t.stores[j].arg.Some? :: t.stores[j].arg.value == (argv + SplitSpaces(extra))[j]
    ensures var t := CreateArgvAsWritten(argv, extra, maxarg);
      var r := CreateArgv(argv, extra, maxarg);
      && (r.Failure? <==> t.exit.Some?)
      && (r.Failure? ==> t.exit == Some(r.error))
      && (r.Success? ==>
            && |t.stores| == |r.value| + 1
            && t.stores[|r.value|] == Store(|r.value|, None)
            && forall j | 0 <= j < |r.value| :: t.stores[j] == Store(j, Some(r.value[j])))
  {
    var t := CreateArgvAsWritten(argv, extra, maxarg);
    var v := argv + SplitSpaces(extra);
    var s := SplitStores(|argv|, extra);
    forall j | 0 <= j < |t.stores| && t.stores[j].arg.Some?
      ensures t.stores[j].arg.value == v[j]
    {
      if j >= |argv| {
        assert t.stores[j] == s[j - |argv|];
      }
    }
  }

  /** One concrete overrun: MAXARG 2, one fixed argument, the line " ".
      Three arguments are stored, the last into slot 2 of a two-slot buffer,
      before the exit(1); the corrected version stores nothing and exits. */
  lemma CreateArgvOverrunExample()
    ensures CreateArgvAsWritten(["echo"], " ", 2)
         == ArgvTrace([Store(0, Some("echo")), Store(1, Some("")), Store(2, Some(""))], Some(1))
    ensures CreateArgv(["echo"], " ", 2) == Failure(1)
  {
    assert multiset(" ")[SPACE] == 1;
    assert Strchr(" ", SPACE) == Some(0);
    assert SplitStores(1, " ") == [Store(1, Some(""))] + SplitStores(2, "");
  }

  /** create_argv with the count checked before anything is stored: the fixed
      prefix, then the line split at every space; the arguments and the NULL
      after them fit in the MAXARG slots, and otherwise it is exit(1). */
  function CreateArgv(argv: seq<string>, extra: string, maxarg: nat): (r: Result<seq<string>, nat>)
    ensures r.Failure? <==> |argv| + multiset(extra)[SPACE] + 1 >= maxarg
    ensures r.Failure? ==> r.error == 1
    ensures r.Success? ==>
      && |argv| < |r.value| < maxarg
      && r.value[..|argv|] == argv
      && JoinSpaces(r.value[|argv|..]) == extra
      && |r.value| - |argv| == multiset(extra)[SPACE] + 1
      && forall t | t in r.value[|argv|..] :: SPACE !in t
  {
    var tokens := SplitSpaces(extra);
    if |argv| + |tokens| >= maxarg then Failure(1)
    else
      JoinSplit(extra);
      assert (argv + tokens)[|argv|..] == tokens;
      Success(argv + tokens)
  }

  /** What the main loop does: the argument vectors it executes, in order, and
      the status it exits with. */
  datatype Run = Run(commands: seq<seq<string>>, status: nat)

  /** main's loop with `args` = argv + 1: read a line; stop with status 0 at
      the first empty line; otherwise run `args` followed by the line's
      tokens. Forking is taken to succeed. */
  function XargsLoop(args: seq<string>, input: seq<char>, maxarg: nat): (r: Run)
    ensures forall c | c in r.commands :: |args| < |c| && c[..|args|] == args
    ensures NEWLINE !in input ==> r == Run([], 1)
    ensures |input| > 0 && input[0] == NEWLINE ==> r == Run([], 0)
    decreases |input|
  {
    match ReadLine(input)
    case Failure(status) => Run([], status)
    case Success(l) =>
      if l.length == 0 then Run([], 0)
      else
        match CreateArgv(args, CStr(l.buf), maxarg)
        case Failure(status) => Run([], status)
        case Success(cmd) =>
          var r := XargsLoop(args, l.rest, maxarg);
          Run([cmd] + r.commands, r.status)
  }

  /** xargs: with no program named it prints the usage and exits 0; every
      command it runs starts with the program name and the fixed arguments. */
  function Xargs(argv: seq<string>, input: seq<char>, maxarg: nat): (r: Run)
    ensures |argv| < 2 ==> r == Run([], 0)
    ensures |argv| >= 2 ==> forall c | c in r.commands :: |argv| - 1 < |c| && c[0] == argv[1] && c[..|argv| - 1] == argv[1..]
  {
    if |argv| < 2 then Run([], 0)
    else XargsLoop(argv[1..], input, maxarg)
  }

  /** Lines, each followed by its newline. */
  function Unlines(lines: seq<string>): string {
    if |lines| == 0 then "" else lines[0] + [NEWLINE] + Unlines(lines[1..])
  }

  function Commands(args: seq<string>, lines: seq<string>): seq<seq<string>> {
    if |lines| == 0 then [] else [args + SplitSpaces(CStr(lines[0]))] + Commands(args, lines[1..])
  }

  /** One turn of the loop on a non-empty line whose arguments fit. */
  lemma XargsLoopStep(args: seq<string>, l: string, rest: string, maxarg: nat)
    requires |l| > 0 && NEWLINE !in l
    requires |args| + multiset(CStr(l))[SPACE] + 1 < maxarg
    ensures
      var tail := XargsLoop(args, rest, maxarg);
      XargsLoop(args, l + [NEWLINE] + rest, maxarg) == Run([args + SplitSpaces(CStr(l))] + tail.commands, tail.status)
  {
    var input := l + [NEWLINE] + rest;
    assert input[..|l|] == l;
    ReadLineFirst(input, |l|);
    assert input[|l| + 1..] == rest;
    CStrTerminated(l);
  }

  /** A non-empty line whose arguments do not fit ends the run: create_argv
      exits 1 and nothing is executed. */
  lemma XargsLoopTooMany(args: seq<string>, l: string, rest: string, maxarg: nat)
    requires |l| > 0 && NEWLINE !in l
    requires |args| + multiset(CStr(l))[SPACE] + 1 >= maxarg
    ensures XargsLoop(args, l + [NEWLINE] + rest, maxarg) == Run([], 1)
  {
    var input := l + [NEWLINE] + rest;
    assert input[..|l|] == l;
    ReadLineFirst(input, |l|);
    CStrTerminated(l);
  }

  lemma ConsAppend<T>(a: T, y: seq<T>, z: seq<T>)
    ensures ([a] + y) + z == [a] + (y + z)
  {
  }

  /** Every line is non-empty, newline-free, and its arguments fit. */
  ghost predicate LinesFit(args: seq<string>, lines: seq<string>, maxarg: nat) {
    forall j | 0 <= j < |lines| ::
      |lines[j]| > 0 && NEWLINE !in lines[j] && |args| + multiset(CStr(lines[j]))[SPACE] + 1 < maxarg
  }

  lemma LinesFitTail(args: seq<string>, lines: seq<string>, maxarg: nat)
    requires |lines| > 0 && LinesFit(args, lines, maxarg)
    ensures LinesFit(args, lines[1..], maxarg)
  {
    var tl := lines[1..];
    forall j | 0 <= j < |tl|
      ensures |tl[j]| > 0 && NEWLINE !in tl[j] && |args| + multiset(CStr(tl[j]))[SPACE] + 1 < maxarg
    {
      assert tl[j] == lines[j + 1];
    }
  }

  /** Each non-empty line of the input runs `args` followed by that line's
      space-separated words, in input order; what follows the lines decides
      how the loop ends. */
  lemma {:induction false} XargsRunsEachLine(args: seq<string>, lines: seq<string>, rest: string, maxarg: nat)
    requires LinesFit(args, lines, maxarg)
    ensures
      var tail := XargsLoop(args, rest, maxarg);
      XargsLoop(args, Unlines(lines) + rest, maxarg) == Run(Commands(args, lines) + tail.commands, tail.status)
  {
    if |lines| > 0 {
      var l := lines[0];
      var rest' := Unlines(lines[1..]) + rest;
      var cmd := args + SplitSpaces(CStr(l));
      var tail := XargsLoop(args, rest, maxarg);
      assert Unlines(lines) + rest == l + [NEWLINE] + rest';
      XargsLoopStep(args, l, rest', maxarg);
      var next := XargsLoop(args, rest', maxarg);
      assert XargsLoop(args, Unlines(lines) + rest, maxarg) == Run([cmd] + next.commands, next.status);
      LinesFitTail(args, lines, maxarg);
      XargsRunsEachLine(args, lines[1..], rest, maxarg);
      assert next == Run(Commands(args, lines[1..]) + tail.commands, tail.status);
      assert Commands(args, lines) == [cmd] + Commands(args, lines[1..]);
      ConsAppend(cmd, Commands(args, lines[1..]), tail.commands);
    } else {
      assert Unlines(lines) + rest == rest;
      assert Commands(args, lines) + XargsLoop(args, rest, maxarg).commands == XargsLoop(args, rest, maxarg).commands;
    }
  }
}
