/** One turn of the read loop of shell.cpp (`shell`): a line read from the
    user is parsed and then executed. Reading the line and printing the
    error for a non-zero return code are outside the model. */
module Shell {
  import opened Tokenizer
  import opened Parser
  import opened QuoteFix
  import opened Dispatch

  /** What the shell does with one input line. */
  function LineOutcome(line: string): Outcome
  {
    ParsedIsFixable(line);
    Decide(GrepFixed(ParseCommands(line)))
  }

  /** The body of the read loop in `shell` (shell.cpp): parse the line into a
      fresh expression and execute it. */
  method RunLine(commandLine: string) returns (rc: Outcome)
    ensures rc == LineOutcome(commandLine)
  {
    var expression := ParseCommandLine(commandLine);
    ParsedIsFixable(commandLine);
    rc := ExecuteExpression(expression);
  }

  /** A character that is in none of the pieces and is not the delimiter is
      not in their join. */
  lemma {:induction false} JoinAvoids(ps: seq<string>, d: char, c: char)
    requires c != d && forall p | p in ps :: c !in p
    ensures c !in Join(ps, d)
  {
    if |ps| > 1 {
      assert ps[0] in ps;
      assert forall p | p in ps[1..] :: p in ps;
      JoinAvoids(ps[1..], d, c);
    } else if |ps| == 1 {
      assert ps[0] in ps;
    }
  }

  /** A line of words separated by single spaces, with no `|`, is one stage
      whose tokens are those words. */
  lemma SingleStage(ws: seq<string>)
    requires |ws| > 0 && forall w | w in ws :: IsWord(w)
    ensures Groups(Join(ws, ArgDelimiter)) == [ws]
    ensures ParseCommands(Join(ws, ArgDelimiter)) == [Command(ws[..AfterInput(ws, true, true)])]
  {
    var line := Join(ws, ArgDelimiter);
    JoinAvoids(ws, ArgDelimiter, PipeDelimiter);
    assert ws[0] in ws;
    assert line != [] by {
      if |ws| > 1 { assert |line| >= |ws[0]|; }
    }
    SplitWord(line, PipeDelimiter);
    SplitJoinTokens(ws, ArgDelimiter);
    assert Groups(line) == SplitEach([line]);
    SplitEachAt([line], 0);
    StageCommandsAt(Groups(line), 1, 0);
  }

  /** A line of nothing but spaces, or an empty line, is rejected with
      `EINVAL`; the shell as written ends on the ones that hold a space
      (see `BlankLineAsWritten`). */
  lemma BlankLine(k: nat)
    ensures ParseCommands(Repeat(ArgDelimiter, k)) == (if k == 0 then [] else [Command([])])
    ensures LineOutcome(Repeat(ArgDelimiter, k)) == Return(EINVAL)
  {
    var line := Repeat(ArgDelimiter, k);
    assert line + [] == line;
    SplitLeading([], ArgDelimiter, k);
    if k > 0 {
      assert PipeDelimiter !in line;
      SplitWord(line, PipeDelimiter);
      assert Groups(line) == SplitEach([line]);
      SplitEachAt([line], 0);
      StageCommandsAt(Groups(line), 1, 0);
    } else {
      assert Split(line, PipeDelimiter) == [];
    }
  }

  /** The shell as written: a line of one or more spaces gets past the check
      for an empty expression and then reads the first part of a stage
      without parts, so `std::out_of_range` escapes. */
  lemma BlankLineAsWritten(k: nat)
    requires k >= 1
    ensures ParseCommands(Repeat(ArgDelimiter, k)) == [Command([])]
    ensures DecideAsWritten(GrepFixed(ParseCommands(Repeat(ArgDelimiter, k)))) == OutOfRange
  {
    BlankLine(k);
    ParsedIsFixable(Repeat(ArgDelimiter, k));
  }

  /** The smallest such line: a single space. */
  lemma SingleSpaceAsWritten()
    ensures ParseCommands(" ") == [Command([])]
    ensures DecideAsWritten(GrepFixed(ParseCommands(" "))) == OutOfRange
    ensures LineOutcome(" ") == Return(EINVAL)
  {
    assert Repeat(ArgDelimiter, 1) == " ";
    BlankLineAsWritten(1);
    BlankLine(1);
  }

  /** `exit` and `cd` are built-ins: a line that is one of them never forks,
      and every line that forks runs a single stage whose program is neither. */
  lemma BuiltinsNeverSpawn(line: string)
    ensures LineOutcome(line).Spawn? ==>
      |ParseCommands(line)| == 1 && ParseCommands(line)[0].parts != [] &&
      ParseCommands(line)[0].parts[0] != ExitBuiltin && ParseCommands(line)[0].parts[0] != CdBuiltin
  {
    var cmds := ParseCommands(line);
    ParsedIsFixable(line);
    if LineOutcome(line).Spawn? {
      GrepFixedArgs(cmds, 0, 0);
    }
  }

  /** What the shell does with a line of words separated by single spaces
      and free of `|`: it decides on the one stage those words make, after
      the markers have been stripped and the quote fix applied. */
  lemma LineOfWords(ws: seq<string>)
    requires |ws| > 0 && forall w | w in ws :: IsWord(w)
    ensures QuoteFixDefinedAll([Command(ws[..AfterInput(ws, true, true)])])
    ensures LineOutcome(Join(ws, ArgDelimiter)) == Decide(GrepFixed([Command(ws[..AfterInput(ws, true, true)])]))
  {
    SingleStage(ws);
    ParsedIsFixable(Join(ws, ArgDelimiter));
  }

  /** A line of words separated by single spaces, free of `|` and of the
      redirection and background markers, runs those words as one stage. */
  lemma LineOfPlainWords(line: string, ws: seq<string>)
    requires |ws| > 0 && forall w | w in ws :: IsWord(w)
    requires line == Join(ws, ArgDelimiter) && AfterInput(ws, true, true) == |ws|
    ensures QuoteFixDefinedAll([Command(ws)])
    ensures LineOutcome(line) == Decide(GrepFixed([Command(ws)]))
  {
    LineOfWords(ws);
    assert ws[..|ws|] == ws;
  }

  /** The quote fix leaves a command other than `grep` as it is. */
  lemma NotGrepUnchanged(c: Command)
    requires c.parts != [] && c.parts[0] != Grep
    ensures QuoteFixDefinedAll([c]) && GrepFixed([c]) == [c]
  {
    GrepFixedArgs([c], 0, 0);
  }

  /** The quote fix strips the quotes around the one argument of `grep "x"`,
      leaving nothing when `x` is empty. */
  lemma GrepQuotedWordFixed(x: string)
    ensures QuoteFixDefinedAll([Command([Grep, [Quote] + x + [Quote]])])
    ensures GrepFixed([Command([Grep, [Quote] + x + [Quote]])]) == [Command([Grep, x])]
  {
    var q := [Quote] + x + [Quote];
    var cmds := [Command([Grep, q])];
    assert QuoteFixDefined(cmds[0]);
    GrepFixedArgs(cmds, 0, 0);
    GrepFixedArgs(cmds, 0, 1);
    UnquoteInverse(q, x);
    assert GrepFixed(cmds)[0].parts == [Grep, x];
  }

  /** `grep "x"` runs `grep` with `x`. */
  lemma GrepQuotedWord(x: string)
    requires ArgDelimiter !in x && PipeDelimiter !in x
    ensures LineOutcome("grep " + ([Quote] + x + [Quote])) == Spawn(Command([Grep, x]))
  {
    var q := [Quote] + x + [Quote];
    JoinCons(Grep, [q], ArgDelimiter);
    assert q[0] == Quote;
    LineOfPlainWords("grep " + q, [Grep, q]);
    GrepQuotedWordFixed(x);
  }

  /** Neither half of `"x y"` both starts and ends with a quote, so the quote
      fix leaves both. */
  lemma GrepQuotedPhraseFixed(x: string, y: string)
    requires IsWord(x) && IsWord(y) && Quote !in x && Quote !in y
    ensures QuoteFixDefinedAll([Command([Grep, [Quote] + x, y + [Quote]])])
    ensures GrepFixed([Command([Grep, [Quote] + x, y + [Quote]])]) == [Command([Grep, [Quote] + x, y + [Quote]])]
  {
    var qx, yq := [Quote] + x, y + [Quote];
    var cmds := [Command([Grep, qx, yq])];
    assert qx[|qx| - 1] == x[|x| - 1] && x[|x| - 1] in x;
    assert yq[0] == y[0] && y[0] in y;
    assert QuoteFixDefined(cmds[0]);
    GrepFixedArgs(cmds, 0, 0);
    GrepFixedArgs(cmds, 0, 1);
    GrepFixedArgs(cmds, 0, 2);
    assert GrepFixed(cmds)[0].parts == cmds[0].parts;
  }

  /** Arguments are split at spaces before the quote fix, so `grep "x y"`
      passes two arguments that each keep their one quote. */
  lemma GrepQuotedPhrase(x: string, y: string)
    requires IsWord(x) && IsWord(y) && Quote !in x && Quote !in y
    ensures LineOutcome("grep " + ([Quote] + x) + " " + (y + [Quote])) ==
            Spawn(Command([Grep, [Quote] + x, y + [Quote]]))
  {
    var qx, yq := [Quote] + x, y + [Quote];
    JoinCons(qx, [yq], ArgDelimiter);
    JoinCons(Grep, [qx, yq], ArgDelimiter);
    assert yq[|yq| - 1] == Quote;
    LineOfPlainWords("grep " + qx + " " + yq, [Grep, qx, yq]);
    GrepQuotedPhraseFixed(x, y);
  }

  /** `cd` alone goes home. */
  lemma ChangeDirectoryAlone()
    ensures LineOutcome(CdBuiltin) == ChangeDirectory(HomeDirectory)
  {
    LineOfPlainWords(CdBuiltin, [CdBuiltin]);
    NotGrepUnchanged(Command([CdBuiltin]));
  }

  /** `cd ~` goes home, and `cd dir` goes to `dir` for any other word that
      is not `&`. */
  lemma ChangeDirectoryTo(dir: string)
    requires IsWord(dir) && dir != "&"
    ensures LineOutcome("cd " + dir) ==
            ChangeDirectory(if dir == HomeShorthand then HomeDirectory else Directory(dir))
  {
    JoinCons(CdBuiltin, [dir], ArgDelimiter);
    LineOfPlainWords("cd " + dir, [CdBuiltin, dir]);
    NotGrepUnchanged(Command([CdBuiltin, dir]));
  }

  /** Joining a word list of two or more words puts one delimiter after the
      first word. */
  lemma JoinCons(w: string, ws: seq<string>, d: char)
    requires ws != []
    ensures Join([w] + ws, d) == w + [d] + Join(ws, d)
  {
    assert ([w] + ws)[1..] == ws;
  }

  /** The words of a stage written with single spaces are its tokens, and
      the stage is a non-empty piece free of `|`. */
  lemma StageOfWords(ws: seq<string>)
    requires |ws| > 0 && forall w | w in ws :: IsWord(w)
    ensures IsToken(Join(ws, ArgDelimiter), PipeDelimiter)
    ensures Split(Join(ws, ArgDelimiter), ArgDelimiter) == ws
  {
    JoinAvoids(ws, ArgDelimiter, PipeDelimiter);
    SplitJoinTokens(ws, ArgDelimiter);
  }

  /** Two stages joined by `|` are the two groups of their tokens. */
  lemma TwoStages(s1: string, s2: string)
    requires IsToken(s1, PipeDelimiter) && IsToken(s2, PipeDelimiter)
    ensures Groups(s1 + "|" + s2) == [Split(s1, ArgDelimiter), Split(s2, ArgDelimiter)]
  {
    var segs := [s1, s2];
    JoinCons(s1, [s2], PipeDelimiter);
    SplitJoinTokens(segs, PipeDelimiter);
    SplitEachAt(segs, 0);
    SplitEachAt(segs, 1);
  }

  lemma JoinInputStage(a: string, src: string)
    ensures Join([a, "<", src], ArgDelimiter) == a + " < " + src
  {
    JoinCons("<", [src], ArgDelimiter);
    JoinCons(a, ["<", src], ArgDelimiter);
  }

  lemma JoinOutputStage(b: string, dst: string)
    ensures Join([b, ">", dst, "&"], ArgDelimiter) == b + " > " + dst + " &"
  {
    JoinCons(dst, ["&"], ArgDelimiter);
    JoinCons(">", [dst, "&"], ArgDelimiter);
    JoinCons(b, [">", dst, "&"], ArgDelimiter);
  }

  /** The stages and words of `a < src|b > dst &`. */
  lemma RedirectedPipelineGroups(a: string, b: string, src: string, dst: string)
    requires IsWord(a) && IsWord(b) && IsWord(src) && IsWord(dst)
    ensures Groups((a + " < " + src) + "|" + (b + " > " + dst + " &")) == [[a, "<", src], [b, ">", dst, "&"]]
  {
    var first, second := [a, "<", src], [b, ">", dst, "&"];
    JoinInputStage(a, src);
    JoinOutputStage(b, dst);
    assert forall w | w in first :: IsWord(w);
    assert forall w | w in second :: IsWord(w);
    StageOfWords(first);
    StageOfWords(second);
    TwoStages(a + " < " + src, b + " > " + dst + " &");
  }

  /** In `a < src|b > dst &` the input file is taken from the first stage,
      the output file and `&` from the last, each stage keeps only its
      program name, and the line goes to the pipeline runner. */
  lemma RedirectedPipeline(a: string, b: string, src: string, dst: string)
    requires IsWord(a) && IsWord(b) && IsWord(src) && IsWord(dst)
    ensures var line := (a + " < " + src) + "|" + (b + " > " + dst + " &");
      ParseCommands(line) == [Command([a]), Command([b])] &&
      ParseInput(line) == src && ParseOutput(line) == dst && ParseBackground(line) &&
      LineOutcome(line) == Pipeline
  {
    var line := (a + " < " + src) + "|" + (b + " > " + dst + " &");
    RedirectedPipelineGroups(a, b, src, dst);
    var g := Groups(line);
    assert AfterInput(g[0], true, false) == 1;
    assert AfterInput(g[1], false, true) == 1;
    assert StageParts(g, 0) == [a] && StageParts(g, 1) == [b];
    StageCommandsAt(g, 2, 0);
    StageCommandsAt(g, 2, 1);
    var cmds := ParseCommands(line);
    assert cmds[0] == Command([a]) && cmds[1] == Command([b]);
    assert cmds == [Command([a]), Command([b])];
    ParsedIsFixable(line);
  }
}
