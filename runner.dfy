/** The test-file reader of tests/runner.c: a test file is read line by
    line, and each line is classified by its first marks: `$$` lines give
    the words of the compile command, `!!` lines those of the run command,
    `##` lines accumulate the expected output, `%%` lines the input, and a
    line of dashes closes a run. The file is a parameter (its chars); the
    accumulating strings are held as their text plus whether they own a
    buffer yet. The module ends with the pass check of run_test and the
    loop that reads a run's output from the child's pipe, whose reads are
    a parameter too. */
module Runner {
  import opened Wrappers
  import opened Str

  /** LastLineKind (tests/runner.c:265-272). */
  datatype Kind = Normal | Compile | Run | Input | Output | Split

  /** The input and expected output of one run. */
  datatype RunIo = RunIo(input: seq<char>, output: seq<char>)

  /** What parse_file accumulates apart from the two commands: the kind of
      the last line, the pending input and output with whether each owns a
      buffer, and the runs closed so far, in file order. */
  datatype Acc = Acc(kind: Kind, input: seq<char>, output: seq<char>,
                     inputAlloc: bool, outputAlloc: bool, runs: seq<RunIo>)

  /** The state parse_file starts in (tests/runner.c:280-286). */
  const Start := Acc(Normal, [], [], false, false, [])

  // ---------------------------------------------------------------- lines

  /** The index of the first newline of `s`. */
  function NewlineAt(s: seq<char>): (i: nat)
    requires '\n' in s
    ensures i < |s| && s[i] == '\n' && '\n' !in s[..i]
  {
    if s[0] == '\n' then 0
    else
      assert '\n' in s[1..] by { var k :| 0 <= k < |s| && s[k] == '\n'; assert s[1..][k - 1] == '\n'; }
      var j := NewlineAt(s[1..]);
      assert s[..j + 1] == [s[0]] + s[1..][..j];
      j + 1
  }

  /** The complete lines of `s`, each without its newline; chars after the
      last newline form no line. */
  function Lines(s: seq<char>): seq<seq<char>>
    decreases |s|
  {
    if '\n' in s then
      var i := NewlineAt(s);
      [s[..i]] + Lines(s[i + 1..])
    else []
  }

  /** Each line followed by a newline. */
  function Unlines(ls: seq<seq<char>>): seq<char>
  {
    if ls == [] then [] else ls[0] + ['\n'] + Unlines(ls[1..])
  }

  /** Lines without newlines, written out one per line and followed by any
      text without a newline, are read back as the same lines: a final
      unterminated line is never read. */
  lemma {:induction false} LinesOfUnlines(ls: seq<seq<char>>, tail: seq<char>)
    requires forall l :: l in ls ==> '\n' !in l
    requires '\n' !in tail
    ensures Lines(Unlines(ls) + tail) == ls
  {
    if ls == [] {
      assert Unlines(ls) + tail == tail;
    } else {
      var s := Unlines(ls) + tail;
      var rest := Unlines(ls[1..]) + tail;
      assert s == ls[0] + ['\n'] + rest;
      assert ls[0] in ls;
      assert s[..|ls[0]|] == ls[0];
      NewlineIsFirst(s, |ls[0]|);
      assert s[|ls[0]| + 1..] == rest;
      LinesOfUnlines(ls[1..], tail);
    }
  }

  /** A newline with no newline before it is the first one. */
  lemma {:induction false} NewlineIsFirst(s: seq<char>, i: nat)
    requires i < |s| && s[i] == '\n' && '\n' !in s[..i]
    ensures '\n' in s && NewlineAt(s) == i
    decreases i
  {
    if i > 0 {
      assert s[..i][0] == s[0];
      assert s[1..][..i - 1] == s[..i][1..];
      NewlineIsFirst(s[1..], i - 1);
    }
  }

  /** string_read_line (tests/runner.c:204-213): the chars from `pos` up to
      the next newline; false when the file ends first, in which case the
      chars read are not a line. Reading from `pos` yields the first of the
      complete lines from there and moves past its newline. */
  method ReadLine(file: seq<char>, pos: nat) returns (ok: bool, line: seq<char>, next: nat)
    requires pos <= |file|
    ensures ok <==> '\n' in file[pos..]
    ensures ok ==> pos < next <= |file| && Lines(file[pos..]) == [line] + Lines(file[next..])
    ensures !ok ==> next == |file| && line == file[pos..] && Lines(file[pos..]) == []
  {
    var i := pos;
    line := [];
    while i < |file| && file[i] != '\n'
      invariant pos <= i <= |file| && line == file[pos..i] && '\n' !in line
    {
      line := line + [file[i]];
      i := i + 1;
    }
    ok := i < |file|;
    if ok {
      next := i + 1;
      LineAt(file, pos, i);
    } else {
      next := i;
      assert '\n' !in file[pos..] by {
        assert file[pos..] == line;
      }
    }
  }

  /** A newline at `i` with none between `pos` and it ends the first line
      read from `pos`. */
  lemma LineAt(file: seq<char>, pos: nat, i: nat)
    requires pos <= i < |file| && file[i] == '\n' && '\n' !in file[pos..i]
    ensures '\n' in file[pos..]
    ensures Lines(file[pos..]) == [file[pos..i]] + Lines(file[i + 1..])
  {
    var s := file[pos..];
    assert s[i - pos] == '\n' && s[..i - pos] == file[pos..i];
    NewlineIsFirst(s, i - pos);
    assert s[i - pos + 1..] == file[i + 1..];
  }

  // ------------------------------------------------------- classification

  /** The classes of line parse_file tells apart, with what each carries. */
  datatype LineClass =
    | CompileLine(args: seq<char>)
    | RunLine(args: seq<char>)
    | OutputLine(text: seq<char>)
    | InputLine(text: seq<char>)
    | SplitLine
    | OtherLine

  /** A line without its leading spaces and tabs. */
  function Trim(s: seq<char>): (t: seq<char>)
    ensures |t| <= |s| && s[|s| - |t|..] == t
  {
    s[Span(s, Blank)..]
  }

  /** `l` starts with exactly two `m`. */
  predicate HasMark(l: seq<char>, m: char)
  {
    |l| >= 2 && l[0] == m && l[1] == m && (|l| == 2 || l[2] != m)
  }

  /** What follows a two-char mark, without its leading spaces and tabs. */
  function AfterMark(l: seq<char>): seq<char>
    requires |l| >= 2
  {
    Trim(l[2..])
  }

  /** The classification of parse_file (tests/runner.c:290-349): after the
      leading spaces and tabs, exactly two `$`, `!`, `#` or `%` (tried in
      that order) make a compile, run, output or input line; otherwise a
      line of one or more dashes and nothing else closes a run. */
  function Classify(line: seq<char>): (c: LineClass)
  {
    Marked(Trim(line))
  }

  /** The classification of a line already trimmed. */
  function Marked(l: seq<char>): (c: LineClass)
  {
    if Span(l, Is('$')) == 2 then CompileLine(AfterMark(l))
    else if Span(l, Is('!')) == 2 then RunLine(AfterMark(l))
    else if Span(l, Is('#')) == 2 then OutputLine(AfterMark(l))
    else if Span(l, Is('%')) == 2 then InputLine(AfterMark(l))
    else if Span(l, Is('-')) != 0 && Span(l, Is('-')) == |l| then SplitLine
    else OtherLine
  }

  /** Exactly two `$`, `!`, `#` or `%` after the leading spaces and tabs
      make a compile, run, output or input line, and a line of one or more
      dashes and nothing else closes a run. */
  lemma ClassifyMeaning(line: seq<char>)
    ensures var c, l := Classify(line), Trim(line);
      && (c.CompileLine? <==> HasMark(l, '$'))
      && (c.RunLine? <==> HasMark(l, '!'))
      && (c.OutputLine? <==> HasMark(l, '#'))
      && (c.InputLine? <==> HasMark(l, '%'))
      && (c.SplitLine? <==> l != [] && forall i :: 0 <= i < |l| ==> l[i] == '-')
  {
    var l := Trim(line);
    MarkSpan(l, '$');
    MarkSpan(l, '!');
    MarkSpan(l, '#');
    MarkSpan(l, '%');
    SpanMeaning(l, Is('-'));
    if l != [] && forall i :: 0 <= i < |l| ==> l[i] == '-' {
      SpanExact(l, Is('-'), |l|);
    }
  }

  /** A span of exactly two `m` is a mark. */
  lemma MarkSpan(l: seq<char>, m: char)
    ensures Span(l, Is(m)) == 2 <==> HasMark(l, m)
  {
    SpanMeaning(l, Is(m));
    if HasMark(l, m) {
      SpanExact(l, Is(m), 2);
    }
  }

  // ------------------------------------------------------- the state machine

  /** One line's effect on what parse_file accumulates. An output or input
      line following one of its own kind is joined to it by a newline, and
      makes its string own a buffer; a split line closes a run with the
      pending input and output and clears both, keeping their buffers. */
  function Step(a: Acc, c: LineClass): Acc
  {
    match c
    case CompileLine(_) => a.(kind := Compile)
    case RunLine(_) => a.(kind := Run)
    case OutputLine(t) =>
      a.(kind := Output, outputAlloc := true,
         output := a.output + (if a.kind == Output then ['\n'] else []) + t)
    case InputLine(t) =>
      a.(kind := Input, inputAlloc := true,
         input := a.input + (if a.kind == Input then ['\n'] else []) + t)
    case SplitLine => a.(kind := Split, runs := a.runs + [RunIo(a.input, a.output)], input := [], output := [])
    case OtherLine => a.(kind := Normal)
  }

  /** The classes of the given lines, in order. */
  function Classes(ls: seq<seq<char>>): (cs: seq<LineClass>)
    ensures |cs| == |ls|
  {
    if ls == [] then [] else Classes(ls[..|ls| - 1]) + [Classify(ls[|ls| - 1])]
  }

  /** What parse_file has accumulated after lines of the given classes. */
  function Parse(cs: seq<LineClass>): Acc
  {
    if cs == [] then Start else Step(Parse(cs[..|cs| - 1]), cs[|cs| - 1])
  }

  /** The words a line adds to the compile command. */
  function CompileWords(c: LineClass): seq<seq<char>>
  {
    if c.CompileLine? then Words(c.args) else []
  }

  /** The words a line adds to the run command. */
  function RunWords(c: LineClass): seq<seq<char>>
  {
    if c.RunLine? then Words(c.args) else []
  }

  /** The compile command's words over lines of the given classes. */
  function CompileArgs(cs: seq<LineClass>): seq<seq<char>>
  {
    if cs == [] then [] else CompileArgs(cs[..|cs| - 1]) + CompileWords(cs[|cs| - 1])
  }

  /** The run command's words over lines of the given classes. */
  function RunArgs(cs: seq<LineClass>): seq<seq<char>>
  {
    if cs == [] then [] else RunArgs(cs[..|cs| - 1]) + RunWords(cs[|cs| - 1])
  }

  /** Words as argv entries: each an owned copy. */
  function Present(ws: seq<seq<char>>): (args: seq<Option<seq<char>>>)
    ensures |args| == |ws|
  {
    if ws == [] then [] else [Some(ws[0])] + Present(ws[1..])
  }

  /** Entry `i` of the argv entries is an owned copy of word `i`. */
  lemma {:induction false} PresentAt(ws: seq<seq<char>>, i: nat)
    requires i < |ws|
    ensures Present(ws)[i] == Some(ws[i])
  {
    if i > 0 {
      PresentAt(ws[1..], i - 1);
    }
  }

  lemma {:induction false} PresentAppend(a: seq<seq<char>>, b: seq<seq<char>>)
    ensures Present(a + b) == Present(a) + Present(b)
  {
    if a == [] {
      assert a + b == b;
    } else {
      assert (a + b)[1..] == a[1..] + b;
      PresentAppend(a[1..], b);
    }
  }

  // ------------------------------------------------------------- commands

  /** A command line under construction (tests/runner.c:163-167): `args`
      holds the `len` entries, an absent one standing for NULL, and `cap`
      the room reserved for them. */
  class Command {
    var args: seq<Option<seq<char>>>
    var cap: int

    ghost predicate Valid()
      reads this
    {
      (cap == 0 && args == []) || |args| < cap
    }

    /** command_init (tests/runner.c:169): no entries, no room. */
    constructor Init()
      ensures Valid() && args == [] && cap == 0
    {
      args, cap := [], 0;
    }

    /** command_append (tests/runner.c:181-192): the room grows to
        `cap * 2 + 10` when one more entry would leave none spare, and a
        copy of `arg` is added; the copy of an empty view owns no buffer,
        so it is NULL. */
    method Append(arg: seq<char>)
      requires Valid()
      modifies this
      ensures Valid() && args == old(args) + [if arg == [] then None else Some(arg)]
      ensures cap == if |old(args)| + 1 >= old(cap) then old(cap) * 2 + 10 else old(cap)
    {
      if |args| + 1 >= cap {
        cap := cap * 2 + 10;
      }
      var copy := RefClone(arg);
      args := args + [copy];
    }

    /** command_finish (tests/runner.c:194-202): with the same growth, a
        NULL is added, so that the entries form an argv. */
    method Finish()
      requires Valid()
      modifies this
      ensures Valid() && args == old(args) + [None]
      ensures cap == if |old(args)| + 1 >= old(cap) then old(cap) * 2 + 10 else old(cap)
    {
      if |args| + 1 >= cap {
        cap := cap * 2 + 10;
      }
      args := args + [None];
    }
  }

  /** string_ref_clone into a fresh string (tests/runner.c:111-114,
      182-189): each char is appended in turn; the result's buffer, or
      null when nothing was appended. */
  method RefClone(view: seq<char>) returns (r: Option<seq<char>>)
    ensures r == if view == [] then None else Some(view)
  {
    var s := new String.Init();
    var i := 0;
    while i < |view|
      invariant 0 <= i <= |view| && s.Valid() && s.Content() == view[..i]
      invariant s.buf == null <==> i == 0
      invariant fresh(s) && (s.buf == null || fresh(s.buf))
    {
      s.Append(view[i]);
      i := i + 1;
    }
    assert view[..i] == view;
    r := if s.buf == null then None else Some(s.buf[..s.len]);
  }

  /** The argument loop of parse_file (tests/runner.c:298-301): the view
      is split at whitespace until no word is left, each word going into
      the command in order. */
  method AppendWords(cmd: Command, s: seq<char>)
    requires cmd.Valid()
    modifies cmd
    ensures cmd.Valid() && cmd.args == old(cmd.args) + Present(Words(s))
  {
    var rest := s;
    ghost var want := old(cmd.args) + Present(Words(s));
    assert want == cmd.args + Present(Words(rest));
    while true
      invariant cmd.Valid() && want == cmd.args + Present(Words(rest))
      decreases |rest|
    {
      var r, token, ok := SplitWsOnce(rest);
      ghost var before := cmd.args;
      WordStep(before, rest, token, r);
      if !ok {
        break;
      }
      cmd.Append(token);
      rest := r;
    }
  }

  /** One split of the argument loop moves the first word from the text
      into the entries, or finds that no word is left. */
  lemma WordStep(args: seq<Option<seq<char>>>, rest: seq<char>, token: seq<char>, r: seq<char>)
    requires SplitOnce(rest, token, r)
    ensures token != [] ==> args + Present(Words(rest)) == (args + [Some(token)]) + Present(Words(r))
    ensures token == [] ==> args + Present(Words(rest)) == args
  {
    SplitWords(rest, token, r);
    if token != [] {
      PresentAppend([token], Words(r));
    }
  }

  // ------------------------------------------------------------ parse_file

  /** The body of parse_file's loop for one line (tests/runner.c:290-352):
      trims it, classifies it by its marks, and adds its words to a
      command or updates what is accumulated. */
  method ProcessLine(a: Acc, line: seq<char>, compile: Command, run: Command) returns (b: Acc)
    requires compile.Valid() && run.Valid() && compile != run
    modifies compile, run
    ensures compile.Valid() && run.Valid()
    ensures b == Step(a, Classify(line))
    ensures compile.args == old(compile.args) + Present(CompileWords(Classify(line)))
    ensures run.args == old(run.args) + Present(RunWords(Classify(line)))
  {
    var l, _ := TrimLeftWs(line);
    MarkedWords(l);
    var isCompile := CommandLine(l, '$', compile);
    if isCompile {
      b := a.(kind := Compile);
      assert run.args == old(run.args) + [];
    } else {
      var isRun := CommandLine(l, '!', run);
      if isRun {
        b := a.(kind := Run);
      } else {
        b := ProcessText(a, l);
      }
    }
  }

  /** The words a trimmed line gives each command. */
  lemma MarkedWords(l: seq<char>)
    ensures CompileWords(Marked(l)) == if Span(l, Is('$')) == 2 then Words(AfterMark(l)) else []
    ensures RunWords(Marked(l)) == if Span(l, Is('$')) != 2 && Span(l, Is('!')) == 2 then Words(AfterMark(l)) else []
    ensures Present([]) == []
  {
  }

  /** A trimmed line that starts with exactly two `mark`s gives the words
      after them to `cmd` (tests/runner.c:296-311); any other line leaves
      `cmd` as it was. */
  method CommandLine(l: seq<char>, mark: char, cmd: Command) returns (matched: bool)
    requires cmd.Valid()
    modifies cmd
    ensures cmd.Valid()
    ensures matched <==> Span(l, Is(mark)) == 2
    ensures cmd.args == old(cmd.args) + Present(if matched then Words(AfterMark(l)) else [])
  {
    var markLine, n := TrimLeft(l, mark);
    matched := n == 2;
    if matched {
      var rest, _ := TrimLeftWs(markLine);
      AppendWords(cmd, rest);
    } else {
      assert cmd.args == old(cmd.args) + [];
    }
  }

  /** The rest of the loop body, for a trimmed line that is neither a
      compile nor a run line (tests/runner.c:312-349). */
  method ProcessText(a: Acc, l: seq<char>) returns (b: Acc)
    requires Span(l, Is('$')) != 2 && Span(l, Is('!')) != 2
    ensures b == Step(a, Marked(l))
  {
    var outputLine, no := TrimLeft(l, '#');
    if no == 2 {
      assert Marked(l) == OutputLine(Trim(outputLine));
      b := TextLine(a, outputLine, Output);
    } else {
      var inputLine, ni := TrimLeft(l, '%');
      if ni == 2 {
        assert Marked(l) == InputLine(Trim(inputLine));
        b := TextLine(a, inputLine, Input);
      } else {
        b := SplitOrOther(a, l);
      }
    }
  }

  /** A trimmed line with none of the four marks (tests/runner.c:331-349):
      a line of dashes closes the run, anything else is ignored. */
  method SplitOrOther(a: Acc, l: seq<char>) returns (b: Acc)
    requires Span(l, Is('$')) != 2 && Span(l, Is('!')) != 2
    requires Span(l, Is('#')) != 2 && Span(l, Is('%')) != 2
    ensures b == Step(a, Marked(l))
  {
    var splitLine, ns := TrimLeft(l, '-');
    if ns != 0 && |splitLine| == 0 {
      b := a.(kind := Split, runs := a.runs + [RunIo(a.input, a.output)], input := [], output := []);
    } else {
      b := a.(kind := Normal);
    }
  }

  /** An output or input line (tests/runner.c:312-329): the text after the
      mark, without its leading spaces and tabs, goes after the pending
      text, joined to it by a newline when the last line was of the same
      kind; the string then owns a buffer. */
  method TextLine(a: Acc, afterMark: seq<char>, kind: Kind) returns (b: Acc)
    requires kind == Output || kind == Input
    ensures kind == Output ==> b == Step(a, OutputLine(Trim(afterMark)))
    ensures kind == Input ==> b == Step(a, InputLine(Trim(afterMark)))
  {
    var text, _ := TrimLeftWs(afterMark);
    var sep := if a.kind == kind then ['\n'] else [];
    if kind == Output {
      b := a.(kind := Output, outputAlloc := true, output := a.output + sep + text);
    } else {
      b := a.(kind := Input, inputAlloc := true, input := a.input + sep + text);
    }
  }

  /** parse_file (tests/runner.c:263-366) on the chars of a file, together
      with the run list run_test hands it (tests/runner.c:472): every
      complete line is processed in order, and both commands get the words
      of their lines in order followed by a NULL. The list is the runs
      closed by split lines, in file order. It is never empty: its head
      node comes from run_list_init, so a file with no split line leaves
      that one node holding empty input and output, and run_test still
      runs it. */
  method ParseFile(file: seq<char>, compile: Command, run: Command) returns (runs: seq<RunIo>)
    requires compile.Valid() && run.Valid() && compile != run
    modifies compile, run
    ensures compile.Valid() && run.Valid()
    ensures runs != []
    ensures var cs := Classes(Lines(file));
      && (Parse(cs).runs != [] ==> runs == Parse(cs).runs)
      && (Parse(cs).runs == [] ==> runs == [RunIo([], [])])
      && compile.args == old(compile.args) + Present(CompileArgs(cs)) + [None]
      && run.args == old(run.args) + Present(RunArgs(cs)) + [None]
  {
    var acc := ParseLines(file, compile, run);
    compile.Finish();
    run.Finish();
    if acc.runs == [] {
      runs := [RunIo([], [])];
    } else {
      runs := acc.runs;
    }
  }

  /** parse_file's loop (tests/runner.c:289-352): every complete line of
      the file, read in order, is processed. */
  method ParseLines(file: seq<char>, compile: Command, run: Command) returns (acc: Acc)
    requires compile.Valid() && run.Valid() && compile != run
    modifies compile, run
    ensures compile.Valid() && run.Valid()
    ensures var cs := Classes(Lines(file));
      && acc == Parse(cs)
      && compile.args == old(compile.args) + Present(CompileArgs(cs))
      && run.args == old(run.args) + Present(RunArgs(cs))
  {
    acc := Start;
    var pos := 0;
    ghost var done: seq<seq<char>> := [];
    assert file[0..] == file;
    while true
      invariant pos <= |file| && Lines(file) == done + Lines(file[pos..])
      invariant acc == Parse(Classes(done)) && compile.Valid() && run.Valid()
      invariant compile.args == old(compile.args) + Present(CompileArgs(Classes(done)))
      invariant run.args == old(run.args) + Present(RunArgs(Classes(done)))
      decreases |file| - pos
    {
      var ok, line, next := ReadLine(file, pos);
      if !ok {
        break;
      }
      Regroup(Lines(file), done, line, Lines(file[next..]));
      acc := ConsumeLine(done, old(compile.args), old(run.args), acc, line, compile, run);
      done := done + [line];
      pos := next;
    }
    assert done + [] == done;
  }

  /** Taking the next line moves it from the lines ahead to those done. */
  lemma Regroup(all: seq<seq<char>>, done: seq<seq<char>>, line: seq<char>, later: seq<seq<char>>)
    requires all == done + ([line] + later)
    ensures all == (done + [line]) + later
  {
  }

  /** One turn of parse_file's loop, in terms of the lines processed
      before: what is accumulated and the commands' words so far extend to
      the line taken. */
  method ConsumeLine(ghost done: seq<seq<char>>, ghost compile0: seq<Option<seq<char>>>,
                     ghost run0: seq<Option<seq<char>>>, a: Acc, line: seq<char>,
                     compile: Command, run: Command) returns (b: Acc)
    requires compile.Valid() && run.Valid() && compile != run
    requires a == Parse(Classes(done))
    requires compile.args == compile0 + Present(CompileArgs(Classes(done)))
    requires run.args == run0 + Present(RunArgs(Classes(done)))
    modifies compile, run
    ensures compile.Valid() && run.Valid()
    ensures b == Parse(Classes(done + [line]))
    ensures compile.args == compile0 + Present(CompileArgs(Classes(done + [line])))
    ensures run.args == run0 + Present(RunArgs(Classes(done + [line])))
  {
    b := ProcessLine(a, line, compile, run);
    ClassesSnoc(done, line);
    CompileArgsStep(compile0, done, line, compile.args);
    RunArgsStep(run0, done, line, run.args);
  }

  /** The compile command after one more line holds the words of all the
      lines taken so far. */
  lemma CompileArgsStep(base: seq<Option<seq<char>>>, done: seq<seq<char>>, line: seq<char>, now: seq<Option<seq<char>>>)
    requires now == base + Present(CompileArgs(Classes(done))) + Present(CompileWords(Classify(line)))
    ensures now == base + Present(CompileArgs(Classes(done + [line])))
  {
    ClassesSnoc(done, line);
    PresentAppend(CompileArgs(Classes(done)), CompileWords(Classify(line)));
  }

  /** The run command after one more line holds the words of all the lines
      taken so far. */
  lemma RunArgsStep(base: seq<Option<seq<char>>>, done: seq<seq<char>>, line: seq<char>, now: seq<Option<seq<char>>>)
    requires now == base + Present(RunArgs(Classes(done))) + Present(RunWords(Classify(line)))
    ensures now == base + Present(RunArgs(Classes(done + [line])))
  {
    ClassesSnoc(done, line);
    PresentAppend(RunArgs(Classes(done)), RunWords(Classify(line)));
  }

  /** Classifying one more line adds its class at the end. */
  lemma ClassesSnoc(ls: seq<seq<char>>, l: seq<char>)
    ensures Classes(ls + [l]) == Classes(ls) + [Classify(l)]
    ensures Parse(Classes(ls) + [Classify(l)]) == Step(Parse(Classes(ls)), Classify(l))
    ensures CompileArgs(Classes(ls) + [Classify(l)]) == CompileArgs(Classes(ls)) + CompileWords(Classify(l))
    ensures RunArgs(Classes(ls) + [Classify(l)]) == RunArgs(Classes(ls)) + RunWords(Classify(l))
  {
    assert (ls + [l])[..|ls|] == ls;
    assert (Classes(ls) + [Classify(l)])[..|ls|] == Classes(ls);
  }

  // ------------------------------------------------------------ properties

  /** Closing a run appends the pending input and output as the next run,
      after every run closed before, and starts both afresh. */
  lemma SplitClosesRun(cs: seq<LineClass>)
    ensures var a := Parse(cs);
      Parse(cs + [SplitLine]) == a.(kind := Split, runs := a.runs + [RunIo(a.input, a.output)], input := [], output := [])
  {
    assert (cs + [SplitLine])[..|cs|] == cs;
  }

  /** Runs are only ever added at the end: those of a prefix of the file
      are a prefix of those of the whole, and each split line adds one. */
  lemma {:induction false} RunsInFileOrder(cs: seq<LineClass>, ds: seq<LineClass>)
    ensures |Parse(cs).runs| <= |Parse(cs + ds).runs|
    ensures Parse(cs + ds).runs[..|Parse(cs).runs|] == Parse(cs).runs
    ensures |Parse(cs + ds).runs| == |Parse(cs).runs| + Splits(ds)
    decreases |ds|
  {
    if ds == [] {
      assert cs + ds == cs;
    } else {
      var init := ds[..|ds| - 1];
      RunsInFileOrder(cs, init);
      assert (cs + ds)[..|cs + ds| - 1] == cs + init;
      var a := Parse(cs + init);
      assert Parse(cs + ds) == Step(a, ds[|ds| - 1]);
      StepKeepsRuns(a, ds[|ds| - 1]);
      assert Parse(cs + ds).runs[..|Parse(cs).runs|] == a.runs[..|Parse(cs).runs|];
    }
  }

  /** One line keeps the runs closed so far, adding one for a split line. */
  lemma StepKeepsRuns(a: Acc, c: LineClass)
    ensures |Step(a, c).runs| == |a.runs| + (if c == SplitLine then 1 else 0)
    ensures Step(a, c).runs[..|a.runs|] == a.runs
  {
  }

  /** The number of split lines among the classes. */
  function Splits(cs: seq<LineClass>): nat
  {
    if cs == [] then 0 else Splits(cs[..|cs| - 1]) + (if cs[|cs| - 1] == SplitLine then 1 else 0)
  }

  /** Two output lines in a row add their texts joined by a newline. */
  lemma OutputLinesJoined(cs: seq<LineClass>, t1: seq<char>, t2: seq<char>)
    ensures var a := Parse(cs);
      Parse(cs + [OutputLine(t1), OutputLine(t2)]).output
        == a.output + (if a.kind == Output then ['\n'] else []) + t1 + ['\n'] + t2
  {
    assert (cs + [OutputLine(t1), OutputLine(t2)])[..|cs| + 1] == cs + [OutputLine(t1)];
    assert (cs + [OutputLine(t1)])[..|cs|] == cs;
  }

  /** An output line after a line of another kind is not joined by a
      newline: a blank line between two output lines glues their texts. */
  lemma BlankLineGluesOutput()
    ensures Parse([OutputLine("a"), OtherLine, OutputLine("b")]).output == "ab"
    ensures Parse([OutputLine("a"), OutputLine("b")]).output == "a\nb"
  {
    assert [OutputLine("a")][..0] == [];
    assert [OutputLine("a"), OtherLine][..1] == [OutputLine("a")];
    assert [OutputLine("a"), OutputLine("b")][..1] == [OutputLine("a")];
    assert [OutputLine("a"), OtherLine, OutputLine("b")][..2] == [OutputLine("a"), OtherLine];
  }

  /** The empty line is of no class. */
  lemma ClassifyBlank()
    ensures Classify("") == OtherLine
  {
  }

  /** `## x` with one space and no further `#` is an output line of text
      `x`, provided `x` does not start with a space or tab. */
  lemma ClassifyOutput(l: seq<char>, x: seq<char>)
    requires l == "## " + x && (x != [] ==> x[0] != ' ' && x[0] != '\t')
    ensures Classify(l) == OutputLine(x)
  {
    SpanExact(l, Blank, 0);
    SpanExact(l, Is('$'), 0);
    SpanExact(l, Is('!'), 0);
    SpanExact(l, Is('#'), 2);
    assert l[2..] == [' '] + x;
    SpanExact(l[2..], Blank, 1);
    assert l[2..][1..] == x;
  }

  /** `%% 1` is an input line of text `1`, and `---` a split line. */
  lemma ClassifyInputAndSplit()
    ensures Classify("%% 1") == InputLine("1")
    ensures Classify("---") == SplitLine
  {
    SpanExact("%% 1", Blank, 0);
    SpanExact("%% 1", Is('$'), 0);
    SpanExact("%% 1", Is('!'), 0);
    SpanExact("%% 1", Is('#'), 0);
    SpanExact("%% 1", Is('%'), 2);
    assert "%% 1"[2..] == " 1";
    SpanExact(" 1", Blank, 1);
    assert " 1"[1..] == "1";
    SpanExact("---", Blank, 0);
    SpanExact("---", Is('$'), 0);
    SpanExact("---", Is('!'), 0);
    SpanExact("---", Is('#'), 0);
    SpanExact("---", Is('%'), 0);
    SpanExact("---", Is('-'), 3);
  }

  /** A file whose first run has input but no `##` line, such as the
      lines `%% 1` and `---`, reaches the split with an output string that
      never owned a buffer, so string_clone copies from null there
      (tests/runner.c:338-339); the run's expected output is then the empty
      text. */
  lemma SplitClonesNullAsWritten()
    ensures !Parse([InputLine("1")]).outputAlloc && Parse([InputLine("1")]).inputAlloc
    ensures Parse([InputLine("1"), SplitLine]).runs == [RunIo("1", "")]
  {
    assert [InputLine("1")][..0] == [];
    assert [InputLine("1"), SplitLine][..1] == [InputLine("1")];
    var a1 := Parse([InputLine("1")]);
    assert a1.input == [] + [] + "1" == "1";
    assert a1.output == [];
    assert Parse([InputLine("1"), SplitLine]).runs == [] + [RunIo(a1.input, a1.output)];
  }

  // ------------------------------------------------------------ pass check

  /** The text a C string function sees: the chars before the first NUL. */
  function CStr(s: seq<char>): (t: seq<char>)
    ensures |t| <= |s| && t == s[..|t|] && '\0' !in t
    ensures |t| < |s| ==> s[|t|] == '\0'
  {
    SpanMeaning(s, IsNot('\0'));
    s[..Span(s, IsNot('\0'))]
  }

  /** The pass check as written (tests/runner.c:499-500): equal lengths,
      and strcmp finding the texts before the first NUL equal. */
  predicate PassesAsWritten(got: seq<char>, expected: seq<char>)
  {
    |got| == |expected| && CStr(got) == CStr(expected)
  }

  /** For an output without NUL chars, which is what the read loop as
      written produces (KeptAsWritten), the check as written is exact
      comparison, whatever the expected text holds. */
  lemma PassesWithoutNul(got: seq<char>, expected: seq<char>)
    requires '\0' !in got
    ensures PassesAsWritten(got, expected) <==> got == expected
  {
    SpanExact(got, IsNot('\0'), |got|);
    if PassesAsWritten(got, expected) {
      assert |CStr(expected)| == |got| == |expected|;
      assert expected == expected[..|expected|];
    }
  }

  /** The pass check compared as intended, chars and length: a run passes
      exactly when its output is the expected one. */
  method OutputMatches(got: seq<char>, expected: seq<char>) returns (ok: bool)
    ensures ok <==> got == expected
  {
    if |got| != |expected| {
      return false;
    }
    var i := 0;
    while i < |got|
      invariant 0 <= i <= |got| && got[..i] == expected[..i]
    {
      if got[i] != expected[i] {
        return false;
      }
      i := i + 1;
    }
    assert got == got[..i] && expected == expected[..i];
    return true;
  }

  // ----------------------------------------------------------- child output

  /** The most one read of run_in_fork's loop takes: its buffer holds 1024
      chars, zeroed, and a read fills at most 1023 (tests/runner.c:408-409). */
  const READ_MAX := 1023

  /** The reads run_in_fork's loop performs (tests/runner.c:407-419) are the
      first `n` of `chunks`: it stops after the first that returns fewer than
      READ_MAX chars. */
  ghost predicate LoopReads(chunks: seq<seq<char>>, n: nat)
  {
    && 0 < n <= |chunks|
    && |chunks[n - 1]| < READ_MAX
    && forall i :: 0 <= i < n - 1 ==> |chunks[i]| == READ_MAX
  }

  /** Every char of the chunks, in order. */
  function Flatten(chunks: seq<seq<char>>): seq<char>
  {
    if chunks == [] then [] else Flatten(chunks[..|chunks| - 1]) + chunks[|chunks| - 1]
  }

  /** What the loop as written keeps of the chunks: string_concat_with_cstr
      measures the zeroed buffer with strlen, so each read is kept only up
      to its first NUL. The kept text never holds a NUL and is never longer
      than what was read. */
  function KeptAsWritten(chunks: seq<seq<char>>): (got: seq<char>)
    ensures '\0' !in got && |got| <= |Flatten(chunks)|
  {
    if chunks == [] then [] else KeptAsWritten(chunks[..|chunks| - 1]) + CStr(chunks[|chunks| - 1])
  }

  /** When the child writes no NUL, the loop as written keeps everything. */
  lemma {:induction false} KeptWithoutNul(chunks: seq<seq<char>>)
    requires '\0' !in Flatten(chunks)
    ensures KeptAsWritten(chunks) == Flatten(chunks)
  {
    if chunks != [] {
      var init, last := chunks[..|chunks| - 1], chunks[|chunks| - 1];
      assert Flatten(chunks) == Flatten(init) + last;
      assert '\0' !in Flatten(init) && '\0' !in last;
      KeptWithoutNul(init);
      SpanExact(last, IsNot('\0'), |last|);
    }
  }

  /** A child that writes "a\0b" is read back as "a", so its run passes
      against an expected output of "a". */
  lemma NulOutputTruncatedAsWritten()
    ensures KeptAsWritten(["a\0b"]) == "a" != Flatten(["a\0b"])
    ensures PassesAsWritten(KeptAsWritten(["a\0b"]), "a")
  {
    SpanExact("a\0b", IsNot('\0'), 1);
    assert ["a\0b"][..0] == [];
    assert Flatten(["a\0b"]) == "a\0b";
    assert KeptAsWritten(["a\0b"]) == [] + "a";
    PassesWithoutNul("a", "a");
  }

  /** The read loop of run_in_fork as written (tests/runner.c:407-420), on
      `chunks`, the chars the successive chunks of the pipe return: each of
      at most READ_MAX, and the pipe ends with a shorter one (at the latest
      the empty read at end of file). Each read is appended up to its first
      NUL. */
  method ReadOutputAsWritten(chunks: seq<seq<char>>) returns (got: seq<char>, n: nat)
    requires forall i :: 0 <= i < |chunks| ==> |chunks[i]| <= READ_MAX
    requires exists i :: 0 <= i < |chunks| && |chunks[i]| < READ_MAX
    ensures LoopReads(chunks, n)
    ensures got == KeptAsWritten(chunks[..n])
  {
    got, n := [], 0;
    while true
      invariant n <= |chunks| && got == KeptAsWritten(chunks[..n])
      invariant forall i :: 0 <= i < n ==> |chunks[i]| == READ_MAX
      decreases |chunks| - n
    {
      assert n < |chunks| by {
        var k :| 0 <= k < |chunks| && |chunks[k]| < READ_MAX;
        assert k >= n;
      }
      var buffer := chunks[n];
      assert chunks[..n + 1][..n] == chunks[..n] && chunks[..n + 1][n] == buffer;
      got := got + CStr(buffer);
      n := n + 1;
      if |buffer| < READ_MAX {
        return;
      }
    }
  }

  /** The read loop as evidently intended: every char of each read is kept,
      `read_amt` of them per read, NULs included. The loop still stops after
      the first short read, as the source's loop does. */
  method ReadOutput(chunks: seq<seq<char>>) returns (got: seq<char>, n: nat)
    requires forall i :: 0 <= i < |chunks| ==> |chunks[i]| <= READ_MAX
    requires exists i :: 0 <= i < |chunks| && |chunks[i]| < READ_MAX
    ensures LoopReads(chunks, n)
    ensures got == Flatten(chunks[..n])
  {
    got, n := [], 0;
    while true
      invariant n <= |chunks| && got == Flatten(chunks[..n])
      invariant forall i :: 0 <= i < n ==> |chunks[i]| == READ_MAX
      decreases |chunks| - n
    {
      assert n < |chunks| by {
        var k :| 0 <= k < |chunks| && |chunks[k]| < READ_MAX;
        assert k >= n;
      }
      var buffer := chunks[n];
      assert chunks[..n + 1][..n] == chunks[..n] && chunks[..n + 1][n] == buffer;
      got := got + buffer;
      n := n + 1;
      if |buffer| < READ_MAX {
        return;
      }
    }
  }
}
