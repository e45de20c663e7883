/** The driver of src/shell.py: parse_command splits a line into a command, its arguments and
    its options; execute_command logs the line into the history (except for history and undo)
    and then dispatches to the command object; exit stops the loop. */
module ShellDriver {
  import opened Text
  import opened Paths
  import opened Wrappers
  import opened Disk
  import opened Base
  import opened FileCommands
  import opened Advanced
  import opened Commands

  /** The options dictionary: only -l, -r and -i are ever set, and get(.., False) reads them. */
  datatype Options = Options(detailed: bool, recursive: bool, ignoreCase: bool)

  const NoOptions := Options(false, false, false)

  datatype Parsed = Parsed(command: string, args: seq<string>, options: Options)

  /** A token that starts with '-' is an option, never an argument. */
  predicate IsOption(token: string) {
    |token| > 0 && token[0] == '-'
  }

  /** The arguments of a token list: the tokens that are not options, in order. */
  function Arguments(tokens: seq<string>): seq<string> {
    if tokens == [] then []
    else
      var last := tokens[|tokens| - 1];
      Arguments(tokens[..|tokens| - 1]) + (if IsOption(last) then [] else [last])
  }

  /** What one option token sets; any other option is ignored. */
  function SetOption(o: Options, token: string): Options {
    if token == "-l" then o.(detailed := true)
    else if token == "-r" then o.(recursive := true)
    else if token == "-i" then o.(ignoreCase := true)
    else o
  }

  /** The options of a token list. */
  function OptionsOf(tokens: seq<string>): Options {
    if tokens == [] then NoOptions
    else
      var last := tokens[|tokens| - 1];
      var o := OptionsOf(tokens[..|tokens| - 1]);
      if IsOption(last) then SetOption(o, last) else o
  }

  /** parse_command: None for a blank line; otherwise the first word is the command and the
      remaining words split into arguments and options. */
  function Parse(input: string): (r: Option<Parsed>)
    ensures r.None? <==> IsBlank(input)
  {
    var parts := Words(input);
    if parts == [] then None
    else Some(Parsed(parts[0], Arguments(parts[1..]), OptionsOf(parts[1..])))
  }

  /** Arguments keeps exactly the non-option tokens. */
  lemma {:induction false} ArgumentsExactly(tokens: seq<string>, x: string)
    ensures x in Arguments(tokens) <==> x in tokens && !IsOption(x)
  {
    if tokens != [] {
      var init := tokens[..|tokens| - 1];
      ArgumentsExactly(init, x);
      assert tokens == init + [tokens[|tokens| - 1]];
    }
  }

  /** Arguments keeps the order: the arguments of a concatenation are the concatenation of
      the arguments. */
  lemma {:induction false} ArgumentsAppend(a: seq<string>, b: seq<string>)
    ensures Arguments(a + b) == Arguments(a) + Arguments(b)
    decreases |b|
  {
    if b != [] {
      var init := b[..|b| - 1];
      var last := b[|b| - 1];
      var x := if IsOption(last) then [] else [last];
      assert (a + b)[..|a + b| - 1] == a + init;
      assert (a + b)[|a + b| - 1] == last;
      ArgumentsAppend(a, init);
      assert Arguments(a + b) == Arguments(a + init) + x;
    } else {
      assert a + b == a;
    }
  }

  /** Each flag is set exactly when its option token appears. */
  lemma {:induction false} OptionsExactly(tokens: seq<string>)
    ensures OptionsOf(tokens).detailed <==> "-l" in tokens
    ensures OptionsOf(tokens).recursive <==> "-r" in tokens
    ensures OptionsOf(tokens).ignoreCase <==> "-i" in tokens
  {
    if tokens != [] {
      var init := tokens[..|tokens| - 1];
      OptionsExactly(init);
      assert tokens == init + [tokens[|tokens| - 1]];
    }
  }

  /** The outcomes the model takes as inputs: whether file operations and the history write
      succeed, the answer typed at rm's prompt and the clock. */
  datatype Env = Env(ioOk: bool, writeOk: bool, answer: string, now: nat)

  /** What one command line does: the new session, and whether the shell stops. */
  datatype Step = Step(session: Session, exit: bool)

  /** Every command except history and undo is logged before it runs. */
  predicate Logged(command: string) {
    command != "history" && command != "undo"
  }

  /** The dispatch of execute_command, on an already logged session. A command missing its
      arguments only prints an error. */
  function Dispatch(home: Path, s: Session, p: Parsed, env: Env): (r: Step)
    ensures r.exit <==> p.command == "exit"
    ensures p.command != "cd" ==> r.session.cwd == s.cwd
    ensures p.command !in {"cd", "cp", "mv", "rm", "undo"} ==> r.session == s
    ensures (p.command in {"cp", "mv"} && |p.args| < 2) || (p.command in {"cd", "rm"} && |p.args| < 1)
      ==> r == Step(s, false)
  {
    var a := p.args;
    if p.command == "cd" then Step(if |a| < 1 then s else Cd(home, s, a[0]), false)
    else if p.command == "cp" then
      Step(if |a| < 2 then s else Cp(s, a[0], a[1], p.options.recursive, env.ioOk), false)
    else if p.command == "mv" then Step(if |a| < 2 then s else Mv(s, a[0], a[1], env.ioOk), false)
    else if p.command == "rm" then
      Step(if |a| < 1 then s else Rm(s, a[0], p.options.recursive, env.answer, env.now, env.ioOk), false)
    else if p.command == "undo" then Step(Undo(s, env.ioOk, env.writeOk).session, false)
    else if p.command == "exit" then Step(s, true)
    else Step(s, false)
  }

  /** execute_command: a line that parses to nothing does nothing; only exit stops the shell and
      only cd moves the current directory. */
  function Execute(home: Path, s: Session, input: string, env: Env): (r: Step)
    ensures Parse(input).None? ==> r == Step(s, false)
    ensures r.exit <==> Parse(input).Some? && Parse(input).value.command == "exit"
    ensures r.session.cwd != s.cwd ==> Parse(input).Some? && Parse(input).value.command == "cd"
  {
    match Parse(input)
    case None => Step(s, false)
    case Some(p) => Dispatch(home, if Logged(p.command) then AddToHistory(s, input, env.writeOk) else s, p, env)
  }

  /** A blank line does nothing at all. */
  lemma ExecuteBlank(home: Path, s: Session, input: string, env: Env)
    requires IsBlank(input)
    ensures Execute(home, s, input, env) == Step(s, false)
  {
  }

  /** A logged line ends up in the history before the command's own effect: afterwards the
      history is add_to_history's result, or that followed by one record. */
  lemma ExecuteLogsFirst(home: Path, s: Session, input: string, env: Env)
    requires Parse(input).Some? && Logged(Parse(input).value.command)
    ensures var logged := AddToHistory(s, input, env.writeOk).history;
      var h := Execute(home, s, input, env).session.history;
      h == logged || (|h| == |logged| + 1 && h[..|logged|] == logged)
  {
    var p := Parse(input).value;
    var t := AddToHistory(s, input, env.writeOk);
    var a := p.args;
    assert Execute(home, s, input, env) == Dispatch(home, t, p, env);
    if p.command == "cp" && |a| >= 2 {
      CpOutcome(t, a[0], a[1], p.options.recursive, env.ioOk);
    } else if p.command == "mv" && |a| >= 2 {
      MvRecordsBeforeMove(t, a[0], a[1], env.ioOk);
    } else if p.command == "rm" && |a| >= 1 {
      RmAppendsAtMostOne(t, a[0], p.options.recursive, env.answer, env.now, env.ioOk);
    }
  }

  /** The history never grows past MAX_HISTORY_SIZE + 1: logging trims to 100 and a command
      appends at most one record after that; history and undo never lengthen it. */
  lemma ExecuteKeepsHistoryBounded(home: Path, s: Session, input: string, env: Env)
    requires |s.history| <= MAX_HISTORY_SIZE + 1
    ensures |Execute(home, s, input, env).session.history| <= MAX_HISTORY_SIZE + 1
  {
    match Parse(input)
    case None =>
    case Some(p) =>
      if Logged(p.command) {
        AddToHistoryBounded(s, input, env.writeOk);
        ExecuteLogsFirst(home, s, input, env);
      } else if p.command == "undo" {
        if exists k :: 0 <= k < |s.history| && '|' in s.history[k] {
          UndoPopsExactlyTarget(s, env.ioOk, env.writeOk);
        } else {
          UndoNothing(s, env.ioOk, env.writeOk);
        }
      }
  }

  /** The history command changes nothing, not even the history. */
  lemma HistoryCommandChangesNothing(home: Path, s: Session, input: string, env: Env)
    requires Parse(input).Some? && Parse(input).value.command == "history"
    ensures Execute(home, s, input, env) == Step(s, false)
  {
  }

  /** execute_command("cp a b") logs the line, then cp appends its record; a following undo
      removes only that record, so the logged line is again the newest entry. */
  lemma CpThenUndoKeepsCommandLine(home: Path, s: Session, cpLine: string, undoLine: string, env: Env, env2: Env)
    requires Parse(cpLine).Some? && Parse(cpLine).value.command == "cp"
    requires Parse(undoLine).Some? && Parse(undoLine).value.command == "undo"
    requires |Execute(home, s, cpLine, env).session.history| > |AddToHistory(s, cpLine, env.writeOk).history|
    requires env2.ioOk
    ensures var logged := AddToHistory(s, cpLine, env.writeOk).history;
      var after := Execute(home, Execute(home, s, cpLine, env).session, undoLine, env2).session.history;
      after == logged && after[|after| - 1] == cpLine
  {
    var t := AddToHistory(s, cpLine, env.writeOk);
    AddToHistoryBounded(s, cpLine, env.writeOk);
    var r := Execute(home, s, cpLine, env).session;
    var src, d := CpRecorded(home, s, cpLine, env);
    UndoNewestCopyRecord(r, t.history, src, d, env2.writeOk);
    ExecuteUndo(home, r, undoLine, env2);
  }

  /** A cp line that recorded something left add_to_history's result followed by one cp record. */
  lemma CpRecorded(home: Path, s: Session, cpLine: string, env: Env) returns (src: Path, dst: Path)
    requires Parse(cpLine).Some? && Parse(cpLine).value.command == "cp"
    requires |Execute(home, s, cpLine, env).session.history| > |AddToHistory(s, cpLine, env.writeOk).history|
    ensures Execute(home, s, cpLine, env).session.history
      == AddToHistory(s, cpLine, env.writeOk).history + [Record("cp", src, dst)]
  {
    var p := Parse(cpLine).value;
    var t := AddToHistory(s, cpLine, env.writeOk);
    var a := p.args;
    assert Execute(home, s, cpLine, env) == Dispatch(home, t, p, env);
    var r := Cp(t, a[0], a[1], p.options.recursive, env.ioOk);
    CpOutcome(t, a[0], a[1], p.options.recursive, env.ioOk);
    src := Abspath(t.cwd, a[0]);
    dst := CopyDestination(t, src, Abspath(t.cwd, a[1]));
  }

  /** An undo line runs undo on the session as it is, without logging. */
  lemma ExecuteUndo(home: Path, s: Session, undoLine: string, env: Env)
    requires Parse(undoLine).Some? && Parse(undoLine).value.command == "undo"
    ensures Execute(home, s, undoLine, env).session == Undo(s, env.ioOk, env.writeOk).session
  {
  }

  /** The shell: its command object and the running flag. */
  class Shell {
    const commands: ShellCommands
    var running: bool

    constructor(disk: FS, cwd: Path, home: Path, readOk: bool)
      ensures running && fresh(commands)
      ensures commands.State() == Initial(disk, cwd, readOk) && commands.home == home
    {
      commands := new ShellCommands(disk, cwd, home, readOk);
      running := true;
    }

    /** parse_command */
    method ParseCommand(input: string) returns (r: Option<Parsed>)
      ensures r == Parse(input)
    {
      var parts := Words(input);
      if parts == [] {
        return None;
      }
      var command := parts[0];
      var args: seq<string> := [];
      var options := NoOptions;
      var i := 1;
      while i < |parts|
        invariant 1 <= i <= |parts|
        invariant args == Arguments(parts[1..i])
        invariant options == OptionsOf(parts[1..i])
      {
        assert parts[1..i + 1][..i - 1] == parts[1..i];
        if IsOption(parts[i]) {
          var option := parts[i];
          if option == "-l" {
            options := options.(detailed := true);
          } else if option == "-r" {
            options := options.(recursive := true);
          } else if option == "-i" {
            options := options.(ignoreCase := true);
          }
        } else {
          args := args + [parts[i]];
        }
        i := i + 1;
      }
      assert parts[1..i] == parts[1..];
      return Some(Parsed(command, args, options));
    }

    /** execute_command */
    method ExecuteCommand(input: string, env: Env)
      modifies this, commands
      ensures var step := Execute(commands.home, old(commands.State()), input, env);
        commands.State() == step.session && running == (old(running) && !step.exit)
    {
      var parsed := ParseCommand(input);
      if parsed.None? {
        return;
      }
      var command, args, options := parsed.value.command, parsed.value.args, parsed.value.options;
      if command != "history" && command != "undo" {
        commands.AddToHistory(input, env.writeOk);
      }
      if command == "cd" {
        if |args| < 1 {
          return;
        }
        commands.Cd(args[0]);
      } else if command == "cp" {
        if |args| < 2 {
          return;
        }
        commands.Cp(args[0], args[1], options.recursive, env.ioOk);
      } else if command == "mv" {
        if |args| < 2 {
          return;
        }
        commands.Mv(args[0], args[1], env.ioOk);
      } else if command == "rm" {
        if |args| < 1 {
          return;
        }
        commands.Rm(args[0], options.recursive, env.answer, env.now, env.ioOk);
      } else if command == "history" {
        var lines := commands.ShowHistory();
      } else if command == "undo" {
        var report := commands.Undo(env.ioOk, env.writeOk);
      } else if command == "exit" {
        running := false;
      }
    }
  }
}
