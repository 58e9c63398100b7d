# simple-unix-shell front end, in Dafny

This project models the front end of the shell in `shell.cpp`: the part that
turns one input line into an `Expression` and decides what happens to it.

- `split_string` cuts a string on a delimiter and drops empty pieces. It is
  modelled as the method `Tokenizer.SplitString` with its loop. That method is
  proved equal to the recursive function `Tokenizer.Split`, and lemmas give
  `Split` its meaning: the non-empty maximal delimiter-free pieces, in order.
- `parse_command_line` splits the line on `|` and then on spaces. It takes a
  trailing `&` and `> file` off the last stage and a trailing `< file` off the
  first stage. It is modelled as the method `Parser.ParseCommandLine`, which
  fills an `Expression` object in place. The method is proved against the
  functions `ParseCommands`, `ParseBackground`, `ParseOutput` and `ParseInput`.
- `fix_grep_quotes` strips one pair of surrounding double quotes from every
  argument of a `grep` command. It is modelled as the method
  `QuoteFix.FixGrepQuotes`, with its two nested loops updating the
  expression in place (the inner loop is the method `QuoteFix.FixCommandAt`). The method is proved against the function
  `QuoteFix.GrepFixed`.
- `execute_expression`, `execute_command` and `handle_change_directory` are
  modelled as a classifier, `Dispatch.Decide`. Given the commands, it returns
  one `Outcome`:
  - return an error code;
  - run the pipeline;
  - exit the shell;
  - change directory (home, or a path);
  - fork and run a command.

  The method `Dispatch.ExecuteExpression` follows the source's if-chain and
  returns that outcome.
- One turn of the read loop is `Shell.RunLine`: it parses a line and then
  executes it. Lemmas about `Shell.LineOutcome` state what whole lines do.

Nothing is executed. Fork, exec, chdir, file redirection and the pipeline
runner are represented only by the outcome that names them.

## Model

| member | source | states |
|---|---|---|
| Tokenizer.IndexOf | shell.cpp:42 | the first position of the delimiter: none exactly when it does not occur; otherwise it is there and not earlier |
| Tokenizer.Find | shell.cpp:42 | `std::string::find` from `pos`: npos exactly when the delimiter does not occur at or after `pos`; otherwise the first occurrence at or after `pos` |
| Tokenizer.SplitAllDelimiters | shell.cpp:38-54 | `Split`, the recursive form of `split_string`, gives no tokens exactly when every character is the delimiter; `SplitIsNonEmptyPieces` pins down the rest |
| Tokenizer.SplitString | shell.cpp:38-54 | the loop returns exactly `Split(str, delimiter)` |
| Tokenizer.SplitAtDelimiter | shell.cpp:42-51 | one loop step: from `pos`, the pieces are the text up to the next delimiter (omitted when empty) followed by the pieces after it |
| Tokenizer.SplitTokens | shell.cpp:40-52 | every piece is non-empty and free of the delimiter, and its characters come from the input |
| Tokenizer.SplitIsNonEmptyPieces | shell.cpp:38-54 | the result is the maximal delimiter-free segments of the input (which join back to it) with the empty ones removed, in order |
| Tokenizer.Pieces | shell.cpp:38-54 | the reference segmentation: delimiter-free pieces that join back with the delimiter to the input |
| Tokenizer.SplitJoin | shell.cpp:38-54 | splitting a join of delimiter-free pieces gives back the non-empty pieces |
| Tokenizer.SplitJoinTokens | shell.cpp:38-54 | round trip: splitting a join of non-empty delimiter-free tokens gives back exactly those tokens |
| Tokenizer.SplitWord | shell.cpp:44-46 | a non-empty string without the delimiter is a single piece |
| Tokenizer.SplitConcat | shell.cpp:38-54 | splitting `a + d + b` is splitting `a` followed by splitting `b` |
| Tokenizer.SplitLeading | shell.cpp:48-51 | leading delimiters do not change the result |
| Tokenizer.SplitTrailing | shell.cpp:48-51 | trailing delimiters do not change the result |
| Tokenizer.SplitCollapse | shell.cpp:48-51 | a run of one or more delimiters separates exactly like a single one |
| Parser.Expression.constructor | shell.cpp:30-35 | a fresh expression has no commands, no redirections and no background flag |
| Parser.SplitEachAt | shell.cpp:106-109 | stage `i`'s tokens are pipe-separated segment `i` split on spaces |
| Parser.AfterBackground | shell.cpp:110-113 | the tokens left after the `&` test, never more than the stage had; `MarkerOffsets` says which token goes |
| Parser.AfterOutput | shell.cpp:114-117 | the tokens left after the `>` test, never more than the `&` test left; `MarkerOffsets` says which tokens go |
| Parser.AfterInput | shell.cpp:118-121 | the tokens left after the `<` test, never more than the `>` test left; `MarkerOffsets` says which tokens go |
| Parser.MarkerOffsets | shell.cpp:110-121 | each test removes nothing or exactly its marker (`&` alone, `>`/`<` with the file name after it); `&` and `>` only on the last stage, `<` only on the first; the program name always stays |
| Parser.StripInto | shell.cpp:110-121 | the modifiers after one stage: a background flag once set stays set; a stage that is not the last leaves the background flag and the output file alone, and one that is not the first leaves the input file alone |
| Parser.StageCommandsAt | shell.cpp:122 | command `j` holds stage `j`'s tokens with its markers removed |
| Parser.StripMarkers | shell.cpp:110-121 | the three marker tests of one stage: the arguments left are the tokens less the markers found; a marker found replaces the expression's value and anything else keeps it; the commands are not touched |
| Parser.ParseStage | shell.cpp:108-122 | one stage appends one command (its space-split tokens less markers) and updates the modifiers as `StripInto` says |
| Parser.ParseCommandLine | shell.cpp:104-125 | the built expression has exactly the commands, background flag, output file and input file that the parse functions give |
| Parser.MarkersAfterEnds | shell.cpp:107-121 | after the loop, background and output come only from the last stage and input only from the first, whatever earlier stages contained |
| Parser.MarkersOfLine | shell.cpp:104-125 | the modifiers set stage by stage equal those read off the two ends of the pipeline |
| Parser.GroupsAreWords | shell.cpp:106-109 | every token is non-empty and contains no space and no pipe character |
| Parser.MarkersRestore | shell.cpp:110-121 | a stage's tokens are its command followed by exactly the markers removed (`< f`, then `> f`, then `&`); nothing else is dropped or reordered |
| Parser.ParseLossless | shell.cpp:104-125 | every stage's tokens are recovered from the expression: the command, plus the input redirection on the first stage, plus the output redirection and `&` on the last |
| Parser.ParseCommandCount | shell.cpp:106-122 | there is exactly one command per non-empty pipe-separated segment of the line |
| Parser.ParseInnerStages | shell.cpp:106-122 | for a line of three or more stages, a stage strictly between the first and the last keeps its space-split tokens unchanged, so `&`, `>` and `<` there stay arguments |
| Parser.ParseYieldsWords | shell.cpp:104-125 | every argument and every redirection file name that is set is a non-empty word without spaces or pipe characters |
| QuoteFix.SizeMinusTwo | shell.cpp:264 | `size() - 2` in a 64-bit `size_t`: congruent to the size minus two modulo 2^64, and the largest `size_t` value for a one-character string |
| QuoteFix.Unquote | shell.cpp:264 | `substr(1, size() - 2)`: the characters strictly between the first and the last, and empty for a one-character string |
| QuoteFix.FixArgChanges | shell.cpp:263-264 | `FixArg`, the rewrite of one `grep` argument: it changes exactly when the argument starts and ends with `"`, and then loses just those two characters (a lone `"` becomes empty) |
| QuoteFix.Substr | shell.cpp:264 | `std::string::substr(pos, count)`: a slice of at most `count` characters from `pos`, shorter only where the string ends |
| QuoteFix.UnquoteInverse | shell.cpp:263-264 | removing the quotes undoes adding them; a quoted argument is its stripped text with the quotes put back; a lone `"` becomes empty |
| QuoteFix.FixGrepQuotes | shell.cpp:259-268 | the commands become `GrepFixed` of the old commands; the redirections and the background flag are unchanged |
| QuoteFix.FixCommandAt | shell.cpp:261-266 | the inner loop over one `grep` command: that command becomes `FixCommand` of itself, every other command and the other fields are unchanged |
| QuoteFix.GrepFixedArgs | shell.cpp:259-268 | command and argument counts are kept; the program name and every non-`grep` command are unchanged; a `grep` argument changes exactly when it starts and ends with `"`, and then it loses just those two characters (a lone `"` becomes empty) |
| QuoteFix.ParsedIsFixable | shell.cpp:263 | every parsed expression satisfies the quote fix's precondition: no argument is empty, so `front()`/`back()` are defined |
| Dispatch.ChangeDirectoryTarget | shell.cpp:141-153 | `cd` goes home exactly when it has no argument or its argument is `~`; otherwise it goes to its first argument |
| Dispatch.ExecuteCommandCheck | shell.cpp:75-78 | a command is rejected exactly when it has no parts, and then with `EINVAL` |
| Dispatch.DecideAsWritten | shell.cpp:271-293 | the dispatch as written: `EINVAL` exactly for no commands; `std::out_of_range` exactly for a single stage without parts; a spawned command is the single stage, with parts |
| Dispatch.Decide | shell.cpp:271-293 | each outcome and its exact condition: `EINVAL` for no commands or one empty command; pipeline for more than one stage; exit, cd (with its target) or spawn by program name; never an escaping exception |
| Dispatch.DecideDiffersOnlyOnEmptyStage | shell.cpp:284-288 | the dispatch as written throws exactly on a single stage without parts, and otherwise agrees with the corrected dispatch |
| Dispatch.ExecuteExpression | shell.cpp:271-293 | the quote fix is applied (except for an empty expression); the other fields are unchanged; the outcome is `Decide` of the fixed commands |
| Shell.RunLine | shell.cpp:355-359 | one turn of the loop: parse, then execute; the outcome is `LineOutcome` of the line |
| Shell.SingleStage | shell.cpp:104-125 | a line of words separated by single spaces, with no pipe character, is one stage whose command is the words less markers |
| Shell.LineOfWords | shell.cpp:355-359 | such a line is decided on its single command after the quote fix |
| Shell.BlankLine | shell.cpp:273-274 | an empty line parses to no commands, and a line of spaces to one command without parts; with the corrected dispatch, both return `EINVAL` |
| Shell.BlankLineAsWritten | shell.cpp:284-288 | a line of one or more spaces reaches `commands.at(0)` on an empty vector in the dispatch as written |
| Shell.SingleSpaceAsWritten | shell.cpp:284-288 | the concrete input `" "`: one command without parts; the dispatch as written throws, the corrected one returns `EINVAL` |
| Shell.BuiltinsNeverSpawn | shell.cpp:284-296 | a line that forks has a single stage, and its program is neither `exit` nor `cd` |
| Shell.NotGrepUnchanged | shell.cpp:261 | the quote fix leaves a command that is not `grep` as it is |
| Shell.GrepQuotedWord | shell.cpp:259-268 | `grep "x"`, with `x` free of spaces and pipe characters, runs `grep` with argument `x` |
| Shell.GrepQuotedPhrase | shell.cpp:259-268 | `grep "x y"` runs `grep` with the two arguments `"x` and `y"`, both unchanged, because spaces split the line before the fix |
| Shell.ChangeDirectoryAlone | shell.cpp:141-144 | `cd` alone goes home |
| Shell.ChangeDirectoryTo | shell.cpp:141-153 | for a word `dir` other than `&`: `cd ~` goes home, and `cd dir` goes to `dir` (`cd &` is excluded because there `&` is the background marker of shell.cpp:110-112) |
| Shell.RedirectedPipeline | shell.cpp:104-125 | the line `a < src`, a pipe character, then `b > dst &` parses to the commands `a` and `b`, input `src`, output `dst`, in the background, and goes to the pipeline runner |

## Left out

- `process_pipeline` (shell.cpp:184-256), and the fork, wait and exec of `execute_expression` (shell.cpp:295-329): they become the outcomes `Pipeline` and `Spawn`. Process creation, pipes and waiting are operating-system effects.
- The `execvp` wrapper and the exec call of `execute_command` (shell.cpp:57-72, 81-82): the program run and its `errno` are outside the model. Only the `EINVAL` guard is modelled.
- `handle_input_redirection` and `handle_output_redirection` (shell.cpp:156-181): these open files. The model keeps only the file names in the expression.
- `goto_home_directory` and the `chdir` call (shell.cpp:128-138, 148): they read the environment and the file system. The model keeps only the target, `HomeDirectory` or `Directory(path)`, and leaves out the error messages.
- `display_prompt`, `get_user_input` and the read loop (shell.cpp:85-102, 355-364): they are terminal I/O. One turn of the loop is `Shell.RunLine`, with the line as a parameter. The printing of `strerror(rc)` is left out.
- `step1` (shell.cpp:335-353): this is a demonstration routine, not part of line handling.
- Dispatch.ExecuteExpression: after `cd` and in the parent after a fork, the source returns 0. The model returns the outcome instead of that code.
- Dispatch.ExecuteExpression: follows the corrected behaviour for a single stage without parts (see Findings). `Dispatch.DecideAsWritten` keeps the source's behaviour.
- QuoteFix.FixGrepQuotes: requires every `grep` argument to be non-empty. On an empty argument, `front()`/`back()` are undefined behaviour in the source. `QuoteFix.ParsedIsFixable` proves that a parsed line never has one.
- `grep "foo bar"` does not pass `foo bar` as one argument: the line is split on spaces before the quote fix, so the arguments are `"foo` and `bar"`, and the fix changes neither (see `Shell.GrepQuotedPhrase`). No quoting that keeps spaces inside an argument is modelled, because the shell has none.
- `std::string::find` and `substr` are modelled as functions on `seq<char>`. `size_t` shows up only where it matters: the wrap-around of `size() - 2` for a one-character argument, in `QuoteFix.Unquote`.

## Findings

| source | as written | input that shows it | evidently intended | confidence | as-written member | corrected member |
|---|---|---|---|---|---|---|
| shell.cpp:284-288 | A line of spaces parses to one command with an empty `parts`. `execute_expression` then reads `commands.at(0)` on that empty vector, and `std::out_of_range` escapes and ends the shell. | `" "` | reject the command with `EINVAL`, as `execute_command` does for a command without parts (shell.cpp:77-78) | not executed | Shell.SingleSpaceAsWritten | Dispatch.Decide |
