/** The expression builder of shell.cpp: `parse_command_line` cuts a line
    into `|`-separated stages, splits each stage on spaces, and peels the
    background and redirection markers off the textual edges of the
    pipeline, in a fixed order: a trailing `&` on the last stage, then a
    trailing `> file` on the last stage, then a trailing `< file` on the
    first stage. Markers anywhere else stay in place as plain arguments. */
module Parser {
  import opened Tokenizer

  /** `struct Command`: the argument vector of one pipeline stage; `parts[0]`,
      when present, names the program or built-in. */
  datatype Command = Command(parts: seq<string>)

  /** `struct Expression`: the pipeline stages plus the three modifiers. The
      parser and the quote fix update it in place. An empty file name means
      "no redirection", as in the source. */
  class Expression {
    var commands: seq<Command>
    var inputFromFile: string
    var outputToFile: string
    var background: bool

    constructor ()
      ensures commands == [] && inputFromFile == "" && outputToFile == "" && !background
    {
      commands := [];
      inputFromFile := "";
      outputToFile := "";
      background := false;
    }
  }

  const PipeDelimiter := '|'
  const ArgDelimiter := ' '

  /** The token group of every stage: the `|`-separated segments of the line,
      each split on spaces. */
  function Groups(line: string): seq<seq<string>>
  {
    SplitEach(Split(line, PipeDelimiter))
  }

  /** Every segment split on spaces, in order. */
  function SplitEach(segs: seq<string>): (r: seq<seq<string>>)
    ensures |r| == |segs|
  {
    if segs == [] then [] else [Split(segs[0], ArgDelimiter)] + SplitEach(segs[1..])
  }

  lemma {:induction false} SplitEachAt(segs: seq<string>, i: nat)
    requires i < |segs|
    ensures SplitEach(segs)[i] == Split(segs[i], ArgDelimiter)
  {
    if i > 0 {
      SplitEachAt(segs[1..], i - 1);
    }
  }

  /** How many of a stage's tokens `a` stay once a trailing `&` is dropped;
      only the last stage is looked at, and the marker counts only as the
      last of at least two tokens. */
  function AfterBackground(a: seq<string>, last: bool): (m: nat)
    ensures m <= |a|
  {
    if last && |a| > 1 && a[|a| - 1] == "&" then |a| - 1 else |a|
  }

  /** How many tokens then stay once a trailing `> file` is dropped; only the
      last stage is looked at, and `>` counts only as the second-to-last of at
      least three remaining tokens. */
  function AfterOutput(a: seq<string>, last: bool): (m: nat)
    ensures m <= AfterBackground(a, last)
  {
    var m := AfterBackground(a, last);
    if last && m > 2 && a[m - 2] == ">" then m - 2 else m
  }

  /** How many tokens then stay once a trailing `< file` is dropped; only the
      first stage is looked at, with the same position rule as for `>`. */
  function AfterInput(a: seq<string>, first: bool, last: bool): (m: nat)
    ensures m <= AfterOutput(a, last)
  {
    var m := AfterOutput(a, last);
    if first && m > 2 && a[m - 2] == "<" then m - 2 else m
  }

  /** Each marker test removes nothing, or exactly its marker (`&` alone,
      `>` or `<` with the file name after it); `&` and `>` only on the last
      stage, `<` only on the first; and the program name always stays. */
  lemma MarkerOffsets(a: seq<string>, first: bool, last: bool)
    ensures var m := AfterBackground(a, last);
      (m == |a| || m == |a| - 1) && (m < |a| ==> last && m >= 1 && a[m] == "&")
    ensures var m, n := AfterOutput(a, last), AfterBackground(a, last);
      (m == n || m + 2 == n) && (m < n ==> last && m >= 1 && a[m] == ">")
    ensures var m, n := AfterInput(a, first, last), AfterOutput(a, last);
      (m == n || m + 2 == n) && (m < n ==> first && m >= 1 && a[m] == "<")
  {
  }

  predicate HasBackground(a: seq<string>, last: bool)
  {
    AfterBackground(a, last) < |a|
  }

  predicate HasOutput(a: seq<string>, last: bool)
  {
    AfterOutput(a, last) < AfterBackground(a, last)
  }

  predicate HasInput(a: seq<string>, first: bool, last: bool)
  {
    AfterInput(a, first, last) < AfterOutput(a, last)
  }

  /** Stage `i`'s command: what is left of its tokens after the markers. */
  function StageParts(g: seq<seq<string>>, i: nat): seq<string>
    requires i < |g|
  {
    g[i][..AfterInput(g[i], i == 0, i == |g| - 1)]
  }

  /** The `commands` of the expression built from `line`. */
  function ParseCommands(line: string): seq<Command>
  {
    var g := Groups(line);
    StageCommands(g, |g|)
  }

  /** The commands of the first `k` stages. */
  function StageCommands(g: seq<seq<string>>, k: nat): (r: seq<Command>)
    requires k <= |g|
    ensures |r| == k
  {
    if k == 0 then [] else StageCommands(g, k - 1) + [Command(StageParts(g, k - 1))]
  }

  lemma {:induction false} StageCommandsAt(g: seq<seq<string>>, k: nat, j: nat)
    requires j < k <= |g|
    ensures StageCommands(g, k)[j] == Command(StageParts(g, j))
  {
    if j < k - 1 {
      StageCommandsAt(g, k - 1, j);
    }
  }

  /** The `background` flag of the expression built from `line`. */
  predicate ParseBackground(line: string)
  {
    var g := Groups(line);
    |g| > 0 && HasBackground(g[|g| - 1], true)
  }

  /** The `outputToFile` of the expression built from `line`: the token after
      the dropped `>`, or "". */
  function ParseOutput(line: string): string
  {
    var g := Groups(line);
    if |g| > 0 && HasOutput(g[|g| - 1], true) then g[|g| - 1][AfterBackground(g[|g| - 1], true) - 1]
    else ""
  }

  /** The `inputFromFile` of the expression built from `line`: the token after
      the dropped `<`, or "". */
  function ParseInput(line: string): string
  {
    var g := Groups(line);
    if |g| > 0 && HasInput(g[0], true, |g| == 1) then g[0][AfterOutput(g[0], |g| == 1) - 1]
    else ""
  }

  /** The three modifiers of an expression. */
  datatype Markers = Markers(background: bool, outputToFile: string, inputFromFile: string)

  function MarkersOf(e: Expression): Markers
    reads e
  {
    Markers(e.background, e.outputToFile, e.inputFromFile)
  }

  /** The modifiers after one stage's tokens have been looked at: a marker
      found replaces the previous value, anything else is kept. */
  function StripInto(m: Markers, tokens: seq<string>, first: bool, last: bool): (r: Markers)
    ensures m.background ==> r.background
    ensures !last ==> r.background == m.background && r.outputToFile == m.outputToFile
    ensures !first ==> r.inputFromFile == m.inputFromFile
  {
    Markers(
      HasBackground(tokens, last) || m.background,
      if HasOutput(tokens, last) then tokens[AfterBackground(tokens, last) - 1] else m.outputToFile,
      if HasInput(tokens, first, last) then tokens[AfterOutput(tokens, last) - 1] else m.inputFromFile)
  }

  /** The modifiers after the first `k` stages, stage by stage as the loop of
      `parse_command_line` sets them. */
  function MarkersAfter(g: seq<seq<string>>, k: nat): Markers
    requires k <= |g|
  {
    if k == 0 then Markers(false, "", "")
    else StripInto(MarkersAfter(g, k - 1), g[k - 1], k - 1 == 0, k - 1 == |g| - 1)
  }

  /** Only the first stage can set the input file and only the last stage the
      output file and the background flag, so once every stage has been seen
      the modifiers are those read off the two ends of the pipeline. */
  lemma {:induction false} MarkersAfterEnds(g: seq<seq<string>>, k: nat)
    requires k <= |g|
    ensures var n := |g|;
      MarkersAfter(g, k) == Markers(
        k == n > 0 && HasBackground(g[n - 1], true),
        if k == n > 0 && HasOutput(g[n - 1], true) then g[n - 1][AfterBackground(g[n - 1], true) - 1] else "",
        if k > 0 && HasInput(g[0], true, n == 1) then g[0][AfterOutput(g[0], n == 1) - 1] else "")
  {
    if k > 0 {
      MarkersAfterEnds(g, k - 1);
    }
  }

  /** The body of `parse_command_line`'s loop for one stage (shell.cpp): the
      three marker tests, each on what the previous one left, with `first`
      and `last` saying whether the stage is the first or the last. A marker
      found is moved into `expression` and cut off the tokens. */
  method StripMarkers(expression: Expression, tokens: seq<string>, first: bool, last: bool)
    returns (args: seq<string>)
    modifies expression
    ensures args == tokens[..AfterInput(tokens, first, last)]
    ensures expression.commands == old(expression.commands)
    ensures MarkersOf(expression) == StripInto(old(MarkersOf(expression)), tokens, first, last)
  {
    args := tokens;
    if last && |args| > 1 && args[|args| - 1] == "&" {
      expression.background := true;
      args := args[..|args| - 1];
    }
    assert args == tokens[..AfterBackground(tokens, last)];
    if last && |args| > 2 && args[|args| - 2] == ">" {
      expression.outputToFile := args[|args| - 1];
      args := args[..|args| - 2];
    }
    assert args == tokens[..AfterOutput(tokens, last)];
    if first && |args| > 2 && args[|args| - 2] == "<" {
      expression.inputFromFile := args[|args| - 1];
      args := args[..|args| - 2];
    }
  }

  /** One turn of `parse_command_line`'s loop (shell.cpp): split the stage
      on spaces, strip its markers into `expression`, and append what is
      left as a command. */
  method ParseStage(expression: Expression, stage: string, first: bool, last: bool)
    modifies expression
    ensures var tokens := Split(stage, ArgDelimiter);
      expression.commands == old(expression.commands) + [Command(tokens[..AfterInput(tokens, first, last)])] &&
      MarkersOf(expression) == StripInto(old(MarkersOf(expression)), tokens, first, last)
  {
    var args := SplitString(stage, ArgDelimiter);
    args := StripMarkers(expression, args, first, last);
    expression.commands := expression.commands + [Command(args)];
  }

  /** `parse_command_line` (shell.cpp): one `Command` per `|`-segment, with the
      markers of the first and last stage moved into the expression's fields. */
  method ParseCommandLine(commandLine: string) returns (expression: Expression)
    ensures fresh(expression)
    ensures expression.commands == ParseCommands(commandLine)
    ensures expression.background == ParseBackground(commandLine)
    ensures expression.outputToFile == ParseOutput(commandLine)
    ensures expression.inputFromFile == ParseInput(commandLine)
  {
    expression := new Expression();
    var commands := SplitString(commandLine, PipeDelimiter);
    ghost var g := SplitEach(commands);
    assert g == Groups(commandLine);
    var i := 0;
    while i < |commands|
      invariant i <= |commands| == |g|
      invariant expression.commands == StageCommands(g, i)
      invariant MarkersOf(expression) == MarkersAfter(g, i)
    {
      SplitEachAt(commands, i);
      ParseStage(expression, commands[i], i == 0, i == |commands| - 1);
      i := i + 1;
    }
    MarkersOfLine(commandLine);
  }

  /** The modifiers the loop leaves are those the line defines. */
  lemma MarkersOfLine(line: string)
    ensures MarkersAfter(Groups(line), |Groups(line)|) ==
      Markers(ParseBackground(line), ParseOutput(line), ParseInput(line))
  {
    MarkersAfterEnds(Groups(line), |Groups(line)|);
  }

  /** A token that can reach a `Command`: non-empty, without a space and
      without a pipe character. */
  predicate IsWord(t: string)
  {
    t != "" && ArgDelimiter !in t && PipeDelimiter !in t
  }

  /** Every token of every stage is a word. */
  lemma GroupsAreWords(line: string, i: nat, j: nat)
    requires i < |Groups(line)| && j < |Groups(line)[i]|
    ensures IsWord(Groups(line)[i][j])
  {
    var segs := Split(line, PipeDelimiter);
    SplitEachAt(segs, i);
    SplitTokens(line, PipeDelimiter);
    assert segs[i] in segs;
    SplitTokens(segs[i], ArgDelimiter);
    assert Groups(line)[i][j] in Split(segs[i], ArgDelimiter);
  }

  /** A stage's tokens are its command followed by exactly the markers that
      were taken off, in their original order: `< file`, then `> file`,
      then `&`. Nothing else is dropped or reordered. */
  lemma MarkersRestore(a: seq<string>, first: bool, last: bool)
    ensures a == a[..AfterInput(a, first, last)]
      + (if HasInput(a, first, last) then ["<", a[AfterOutput(a, last) - 1]] else [])
      + (if HasOutput(a, last) then [">", a[AfterBackground(a, last) - 1]] else [])
      + (if HasBackground(a, last) then ["&"] else [])
  {
    var m1, m2, m3 := AfterBackground(a, last), AfterOutput(a, last), AfterInput(a, first, last);
    assert a == a[..m1] + a[m1..];
    assert a[..m1] == a[..m2] + a[m2..m1];
    assert a[..m2] == a[..m3] + a[m3..m2];
  }

  /** The tokens of stage `i` as the expression gives them back: the
      command, then the input redirection if this is the first stage, then
      the output redirection and the background marker if it is the last. */
  function Restored(line: string, i: nat): seq<string>
    requires i < |Groups(line)|
  {
    var n := |Groups(line)|;
    ParseCommands(line)[i].parts
      + (if i == 0 && ParseInput(line) != "" then ["<", ParseInput(line)] else [])
      + (if i == n - 1 && ParseOutput(line) != "" then [">", ParseOutput(line)] else [])
      + (if i == n - 1 && ParseBackground(line) then ["&"] else [])
  }

  /** Parsing loses nothing: every stage's space-split tokens are recovered
      from the expression, so the only tokens removed are the markers. */
  lemma ParseLossless(line: string, i: nat)
    requires i < |Groups(line)|
    ensures Groups(line)[i] == Restored(line, i)
  {
    var g := Groups(line);
    var n := |g|;
    StageCommandsAt(g, n, i);
    MarkersRestore(g[i], i == 0, i == n - 1);
    if HasOutput(g[n - 1], true) {
      GroupsAreWords(line, n - 1, AfterBackground(g[n - 1], true) - 1);
    }
    if HasInput(g[0], true, n == 1) {
      GroupsAreWords(line, 0, AfterOutput(g[0], n == 1) - 1);
    }
  }

  /** One command per non-empty `|`-separated segment of the line. */
  lemma ParseCommandCount(line: string)
    ensures |ParseCommands(line)| == |Split(line, PipeDelimiter)|
  {
    assert |Groups(line)| == |Split(line, PipeDelimiter)|;
  }

  /** Stages strictly between the first and the last keep all their tokens. */
  lemma ParseInnerStages(line: string, i: nat)
    requires 0 < i < |Split(line, PipeDelimiter)| - 1
    ensures |ParseCommands(line)| == |Split(line, PipeDelimiter)|
    ensures ParseCommands(line)[i].parts == Split(Split(line, PipeDelimiter)[i], ArgDelimiter)
  {
    var g := Groups(line);
    StageCommandsAt(g, |g|, i);
    SplitEachAt(Split(line, PipeDelimiter), i);
  }

  /** Every argument of every command, and each file name taken, is a word
      (or, for a file name, "" when there is none). */
  lemma ParseYieldsWords(line: string)
    ensures forall c, t | c in ParseCommands(line) && t in c.parts :: IsWord(t)
    ensures ParseOutput(line) == "" || IsWord(ParseOutput(line))
    ensures ParseInput(line) == "" || IsWord(ParseInput(line))
  {
    var g := Groups(line);
    var n := |g|;
    forall c, t | c in ParseCommands(line) && t in c.parts
      ensures IsWord(t)
    {
      var i :| 0 <= i < n && ParseCommands(line)[i] == c;
      StageCommandsAt(g, n, i);
      var j :| 0 <= j < |c.parts| && c.parts[j] == t;
      GroupsAreWords(line, i, j);
    }
    if n > 0 && HasOutput(g[n - 1], true) {
      GroupsAreWords(line, n - 1, AfterBackground(g[n - 1], true) - 1);
    }
    if n > 0 && HasInput(g[0], true, n == 1) {
      GroupsAreWords(line, 0, AfterOutput(g[0], n == 1) - 1);
    }
  }
}
