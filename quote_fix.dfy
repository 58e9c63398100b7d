/** The quote-fix pass of shell.cpp: `fix_grep_quotes` rewrites an
    expression in place so that every argument of every `grep` command
    (with at least one argument) that both starts and ends with `"` loses
    that first and last character. */
module QuoteFix {
  import opened Parser

  const Grep := "grep"
  const Quote := '"'

  /** The commands the pass looks at: `grep` with at least one argument. */
  predicate IsGrepWithArgs(c: Command)
  {
    |c.parts| > 1 && c.parts[0] == Grep
  }

  /** The pass reads the first and last character of each argument it looks
      at, which `std::string::front`/`back` define only for a non-empty
      string. */
  predicate QuoteFixDefined(c: Command)
  {
    IsGrepWithArgs(c) ==> forall j | 1 <= j < |c.parts| :: c.parts[j] != ""
  }

  predicate QuoteFixDefinedAll(cmds: seq<Command>)
  {
    forall i | 0 <= i < |cmds| :: QuoteFixDefined(cmds[i])
  }

  /** The argument starts and ends with a double quote; a lone `"` does both. */
  predicate IsQuoted(arg: string)
    requires arg != ""
  {
    arg[0] == Quote && arg[|arg| - 1] == Quote
  }

  /** `std::string::substr(pos, count)`: at most `count` characters from `pos`,
      fewer when the string ends first. */
  function Substr(s: string, pos: nat, count: nat): (r: string)
    requires pos <= |s|
    ensures |r| <= count && pos + |r| <= |s| && r == s[pos..pos + |r|]
    ensures |r| == count || pos + |r| == |s|
  {
    if count <= |s| - pos then s[pos..pos + count] else s[pos..]
  }

  /** `size() - 2` computed in a 64-bit `size_t`: for a one-character string
      it wraps around to the largest value. */
  function SizeMinusTwo(size: nat): (r: nat)
    requires size >= 1
    ensures (r + 2) % 0x1_0000_0000_0000_0000 == size % 0x1_0000_0000_0000_0000
    ensures size == 1 ==> r == 0xFFFF_FFFF_FFFF_FFFF
  {
    if size >= 2 then size - 2 else size + 0x1_0000_0000_0000_0000 - 2
  }

  /** `arg.substr(1, arg.size() - 2)`: the text between the first and last
      character; for a lone `"` the count wraps and the result is empty. */
  function Unquote(arg: string): (r: string)
    requires arg != ""
    ensures |arg| >= 2 ==> r == arg[1..|arg| - 1]
    ensures |arg| == 1 ==> r == ""
  {
    Substr(arg, 1, SizeMinusTwo(|arg|))
  }

  /** Unquoting undoes quoting, and a quoted argument is its unquoted text
      with the two quotes put back; a lone `"` unquotes to nothing. */
  lemma UnquoteInverse(arg: string, text: string)
    requires arg != ""
    ensures Unquote([Quote] + text + [Quote]) == text
    ensures |arg| >= 2 && IsQuoted(arg) ==> [Quote] + Unquote(arg) + [Quote] == arg
    ensures |arg| == 1 ==> Unquote(arg) == ""
  {
    var q := [Quote] + text + [Quote];
    assert q[1..|q| - 1] == text;
    if |arg| >= 2 {
      assert arg == [arg[0]] + arg[1..|arg| - 1] + [arg[|arg| - 1]];
    }
  }

  /** What the pass makes of one argument at index >= 1 of a `grep` command. */
  function FixArg(arg: string): string
    requires arg != ""
  {
    if IsQuoted(arg) then Unquote(arg) else arg
  }

  /** An argument changes exactly when it is quoted, and then it loses just
      its first and last character. */
  lemma FixArgChanges(arg: string)
    requires arg != ""
    ensures FixArg(arg) != arg <==> IsQuoted(arg)
    ensures IsQuoted(arg) && |arg| >= 2 ==> [Quote] + FixArg(arg) + [Quote] == arg
    ensures IsQuoted(arg) && |arg| == 1 ==> FixArg(arg) == ""
  {
    UnquoteInverse(arg, "");
  }

  /** What the pass makes of one command. */
  function FixCommand(c: Command): (r: Command)
    requires QuoteFixDefined(c)
    ensures |r.parts| == |c.parts|
  {
    if IsGrepWithArgs(c) then
      Command(seq(|c.parts|, j requires 0 <= j < |c.parts| => if j == 0 then c.parts[0] else FixArg(c.parts[j])))
    else c
  }

  /** What the pass makes of the commands of an expression. */
  function GrepFixed(cmds: seq<Command>): (r: seq<Command>)
    requires QuoteFixDefinedAll(cmds)
    ensures |r| == |cmds|
  {
    seq(|cmds|, i requires 0 <= i < |cmds| => FixCommand(cmds[i]))
  }

  /** `fix_grep_quotes` (shell.cpp): walks every command, and within a `grep`
      command every argument from index 1, overwriting the quoted ones in
      place. */
  method FixGrepQuotes(expression: Expression)
    requires QuoteFixDefinedAll(expression.commands)
    modifies expression
    ensures expression.commands == GrepFixed(old(expression.commands))
    ensures expression.inputFromFile == old(expression.inputFromFile)
    ensures expression.outputToFile == old(expression.outputToFile)
    ensures expression.background == old(expression.background)
  {
    ghost var original := expression.commands;
    var i := 0;
    while i < |expression.commands|
      invariant i <= |expression.commands| == |original|
      invariant forall k | 0 <= k < i :: expression.commands[k] == FixCommand(original[k])
      invariant forall k | i <= k < |original| :: expression.commands[k] == original[k]
      invariant expression.inputFromFile == old(expression.inputFromFile)
      invariant expression.outputToFile == old(expression.outputToFile)
      invariant expression.background == old(expression.background)
    {
      var cmd := expression.commands[i];
      if |cmd.parts| > 1 && cmd.parts[0] == Grep {
        FixCommandAt(expression, i);
      }
      i := i + 1;
    }
    assert expression.commands == GrepFixed(original);
  }

  /** The inner loop of `fix_grep_quotes` for the `grep` command at index `i`:
      every argument from index 1 is overwritten in place when quoted. */
  method FixCommandAt(expression: Expression, i: nat)
    requires i < |expression.commands| && IsGrepWithArgs(expression.commands[i])
    requires QuoteFixDefined(expression.commands[i])
    modifies expression
    ensures expression.commands == old(expression.commands)[i := FixCommand(old(expression.commands)[i])]
    ensures expression.inputFromFile == old(expression.inputFromFile)
    ensures expression.outputToFile == old(expression.outputToFile)
    ensures expression.background == old(expression.background)
  {
    ghost var before := expression.commands;
    ghost var cmd := before[i];
    var j := 1;
    while j < |expression.commands[i].parts|
      invariant |expression.commands| == |before|
      invariant 1 <= j <= |expression.commands[i].parts| == |cmd.parts|
      invariant expression.commands[i].parts[0] == cmd.parts[0]
      invariant forall k | 1 <= k < j :: expression.commands[i].parts[k] == FixArg(cmd.parts[k])
      invariant forall k | j <= k < |cmd.parts| :: expression.commands[i].parts[k] == cmd.parts[k]
      invariant expression.commands == before[i := expression.commands[i]]
      invariant expression.inputFromFile == old(expression.inputFromFile)
      invariant expression.outputToFile == old(expression.outputToFile)
      invariant expression.background == old(expression.background)
    {
      var part := expression.commands[i].parts[j];
      if part[0] == Quote && part[|part| - 1] == Quote {
        var parts := expression.commands[i].parts[j := Substr(part, 1, SizeMinusTwo(|part|))];
        expression.commands := expression.commands[i := Command(parts)];
      }
      j := j + 1;
    }
    assert expression.commands[i] == FixCommand(cmd);
  }

  /** The pass keeps the number of commands and of their parts, leaves the
      program name and every command other than `grep` with arguments as
      they were, and rewrites a `grep` argument exactly when it is quoted:
      then the result is what lay between the two quotes, or nothing for a
      lone `"`. */
  lemma {:induction false} GrepFixedArgs(cmds: seq<Command>, i: nat, j: nat)
    requires QuoteFixDefinedAll(cmds) && i < |cmds| && j < |cmds[i].parts|
    ensures |GrepFixed(cmds)[i].parts| == |cmds[i].parts|
    ensures !IsGrepWithArgs(cmds[i]) ==> GrepFixed(cmds)[i] == cmds[i]
    ensures j == 0 ==> GrepFixed(cmds)[i].parts[j] == cmds[i].parts[j]
    ensures IsGrepWithArgs(cmds[i]) && j >= 1 ==>
      var p, q := cmds[i].parts[j], GrepFixed(cmds)[i].parts[j];
      (q != p <==> IsQuoted(p)) &&
      (IsQuoted(p) && |p| >= 2 ==> [Quote] + q + [Quote] == p) &&
      (IsQuoted(p) && |p| == 1 ==> q == "")
  {
    assert QuoteFixDefined(cmds[i]);
    if IsGrepWithArgs(cmds[i]) && j >= 1 {
      var p := cmds[i].parts[j];
      assert p != "";
      FixArgChanges(p);
    }
  }

  /** Every expression the parser produces meets the pass's precondition:
      its arguments are never empty. */
  lemma ParsedIsFixable(line: string)
    ensures QuoteFixDefinedAll(ParseCommands(line))
  {
    ParseYieldsWords(line);
    var cmds := ParseCommands(line);
    forall i | 0 <= i < |cmds| ensures QuoteFixDefined(cmds[i]) {
      assert cmds[i] in cmds;
      forall j | 1 <= j < |cmds[i].parts| ensures cmds[i].parts[j] != "" {
        assert cmds[i].parts[j] in cmds[i].parts;
        assert IsWord(cmds[i].parts[j]);
      }
    }
  }
}
