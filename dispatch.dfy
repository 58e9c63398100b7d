/** The dispatch of shell.cpp: `execute_expression` decides, from the parsed
    expression, whether a line is rejected, handed to the pipeline runner,
    or run as one of the built-ins `exit` and `cd` or as an external
    program; `execute_command` rejects a command without parts, and
    `handle_change_directory` picks the directory `cd` goes to. The effects
    themselves (fork, exec, chdir, the pipeline) are outside the model: each
    decision is an `Outcome`. */
module Dispatch {
  import opened Tokenizer
  import opened Parser
  import opened QuoteFix

  /** `EINVAL` on Linux. */
  const EINVAL := 22

  const ExitBuiltin := "exit"
  const CdBuiltin := "cd"
  const HomeShorthand := "~"

  /** Where `cd` goes: the directory named in `HOME`, or a given path. */
  datatype CdTarget = HomeDirectory | Directory(path: string)

  /** What `execute_expression` does with an expression. */
  datatype Outcome =
    | Return(code: int)                 // returns this error code to the read loop
    | Pipeline                          // hands the expression to `process_pipeline`
    | ExitShell                         // `exit(0)`
    | ChangeDirectory(target: CdTarget) // `handle_change_directory`, then returns 0
    | Spawn(cmd: Command)               // forks a child that runs `cmd`
    | OutOfRange                        // `std::out_of_range` escapes and ends the shell

  /** `handle_change_directory` (shell.cpp): with no argument, or with `~`,
      `cd` goes home; otherwise to its first argument, any further ones
      being ignored. */
  function ChangeDirectoryTarget(parts: seq<string>): (t: CdTarget)
    ensures t == HomeDirectory <==> |parts| < 2 || parts[1] == HomeShorthand
    ensures t.Directory? ==> |parts| >= 2 && t.path == parts[1]
  {
    if |parts| < 2 then HomeDirectory
    else if parts[1] == HomeShorthand then HomeDirectory
    else Directory(parts[1])
  }

  /** The check `execute_command` (shell.cpp) makes before calling `execvp`:
      a command without parts is rejected with `EINVAL`; `None` means the
      command goes on to be executed. */
  function ExecuteCommandCheck(c: Command): (r: Option<int>)
    ensures r.Some? <==> c.parts == []
    ensures r.Some? ==> r.value == EINVAL
  {
    if |c.parts| == 0 then Some(EINVAL) else None
  }

  /** `execute_expression` (shell.cpp) as written, after the quote fix: with
      one stage it reads the first part of that stage with `at(0)`, which
      throws when the stage has no parts. */
  function DecideAsWritten(cmds: seq<Command>): (r: Outcome)
    ensures r.Return? <==> |cmds| == 0
    ensures r.Return? ==> r.code == EINVAL
    ensures r.OutOfRange? <==> |cmds| == 1 && cmds[0].parts == []
    ensures r.Spawn? ==> |cmds| == 1 && r.cmd == cmds[0] && ExecuteCommandCheck(r.cmd).None?
  {
    if |cmds| == 0 then Return(EINVAL)
    else if |cmds| > 1 then Pipeline
    else if |cmds[0].parts| == 0 then OutOfRange
    else if cmds[0].parts[0] == ExitBuiltin then ExitShell
    else if cmds[0].parts[0] == CdBuiltin then ChangeDirectory(ChangeDirectoryTarget(cmds[0].parts))
    else Spawn(cmds[0])
  }

  /** `execute_expression` with a stage without parts rejected the way
      `execute_command` rejects it, instead of by an escaping exception. */
  function Decide(cmds: seq<Command>): (r: Outcome)
    ensures !r.OutOfRange?
    ensures r.Return? <==> |cmds| == 0 || (|cmds| == 1 && cmds[0].parts == [])
    ensures r.Return? ==> r.code == EINVAL
    ensures r.Pipeline? <==> |cmds| > 1
    ensures r.ExitShell? <==> |cmds| == 1 && cmds[0].parts != [] && cmds[0].parts[0] == ExitBuiltin
    ensures r.ChangeDirectory? <==> |cmds| == 1 && cmds[0].parts != [] && cmds[0].parts[0] == CdBuiltin
    ensures r.ChangeDirectory? ==> r.target == ChangeDirectoryTarget(cmds[0].parts)
    ensures r.Spawn? <==>
      |cmds| == 1 && cmds[0].parts != [] && cmds[0].parts[0] != ExitBuiltin && cmds[0].parts[0] != CdBuiltin
    ensures r.Spawn? ==> r.cmd == cmds[0] && ExecuteCommandCheck(r.cmd).None?
  {
    if |cmds| == 1 && ExecuteCommandCheck(cmds[0]).Some? then Return(ExecuteCommandCheck(cmds[0]).value)
    else DecideAsWritten(cmds)
  }

  /** The two dispatches differ on exactly one kind of expression, a single
      stage without parts, which the source lets escape as an exception. */
  lemma DecideDiffersOnlyOnEmptyStage(cmds: seq<Command>)
    ensures DecideAsWritten(cmds) == OutOfRange <==> |cmds| == 1 && cmds[0].parts == []
    ensures DecideAsWritten(cmds) != OutOfRange ==> Decide(cmds) == DecideAsWritten(cmds)
  {
  }

  /** `execute_expression` (shell.cpp): rejects an expression without
      commands, otherwise applies the quote fix and then dispatches on the
      number of stages and the program name. */
  method ExecuteExpression(expression: Expression) returns (outcome: Outcome)
    requires QuoteFixDefinedAll(expression.commands)
    modifies expression
    ensures expression.commands == GrepFixed(old(expression.commands))
    ensures expression.inputFromFile == old(expression.inputFromFile)
    ensures expression.outputToFile == old(expression.outputToFile)
    ensures expression.background == old(expression.background)
    ensures outcome == Decide(expression.commands)
  {
    if |expression.commands| == 0 {
      assert expression.commands == GrepFixed(expression.commands);
      return Return(EINVAL);
    }
    FixGrepQuotes(expression);
    if |expression.commands| > 1 {
      return Pipeline;
    }
    var commands := expression.commands[0].parts;
    if |commands| == 0 {
      // shell.cpp reads commands.at(0) here and throws.
      return Return(EINVAL);
    }
    if commands[0] == ExitBuiltin {
      outcome := ExitShell;
    } else if commands[0] == CdBuiltin {
      outcome := ChangeDirectory(ChangeDirectoryTarget(commands));
    } else {
      outcome := Spawn(expression.commands[0]);
    }
  }
}
