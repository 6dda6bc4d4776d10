# A verified model of the sequential core of a small job-control shell

This project models, in Dafny, the parts of a small C shell that compute
rather than drive processes:

- the line tokenizer of `tokenizer.c`: quoting, escapes, `$NAME`
  expansion, operators with a one-digit fd prefix, and errors for
  unterminated quotes;
- the three structural splitters of `parser.c`, which cut a token array at
  depth-0 `;`/`&`, `&&`/`||` and `|`;
- the growable buffers of `dynamicstring.c`;
- the environment list and the `&&`/`||` and `;`/`&` evaluation loops of
  `my_shell.c`;
- the 16-slot job table of `jobcontrol.c`;
- the per-child bookkeeping of the SIGCHLD handler in `sighandler.c`.

There is one module per C file. Where the C code works by changing things
step by step, the model does too:

- Procedures with loops are Dafny methods with `while` loops, proved to
  compute a specification function: `Tokenizer.ParseLine` computes
  `Tokenize`, and `Parser.ParseSep` computes `SepList`.
- Objects updated in place are classes: `DyString`, `DyArray`, `JobTable`
  and `ShellStatus`.
- The properties the shell relies on are lemmas about those specification
  functions, in the `*Props` modules. They cover round trips, shapes,
  counts, lookups after updates and short-circuit rules.

Modules: `Wrappers` (Option), `DynamicString`, `Tokenizer`,
`TokenizerProps`, `Parser`, `ParserProps`, `MyShell`, `JobControl`,
`JobControlProps` and `SigHandler`.

Foreign calls and I/O become parameters:
- `getenv` is a `map<string, string>`;
- `exec_job` is a function from a command's tokens and its foreground
  flag to an exit status;
- a wait status is a `ChildEvent` (`Exited(code)`, `Signaled` or
  `Stopped`).

The header files do not match their sources. The `dystring` of
`dynamicstring.h` is a string array. `jobcontrol.h` lacks `pgid`,
`n_procs`, `n_finished` and `pids`. `my_shell.c` calls `parse_sep` on a
`char *` and reads fields `parser.h` does not declare. Each module is
therefore written against the interface its `.c` file actually uses:
- the splitters accumulate a `seq<string>`;
- `Job` has every field that `jobcontrol.c` and `sighandler.c` use;
- `exec_sep` and `exec_logic` take the token array of their command.

Where the specification text and the code disagree, the model follows
the code:
- There is no `$` expansion inside double quotes: tokenizer.c:153-170
  copies the characters.
- `$?` and `$$` are not special. `$` followed by a non-name character
  expands the empty name to nothing, and the character is then read
  normally.
- Unmatched parentheses are not an error: the depth counter just goes
  up or down.
- `!` is only a one-character token. No code in the core negates a
  status.

## Model

| member | source | states |
|---|---|---|
| `DynamicString.DyString.constructor` | dynamicstring.c:13-17 | init_dystring: length 0, capacity 64, a live buffer of that capacity |
| `DynamicString.DyString.Append` | dynamicstring.c:19-26 | contents become old contents ++ [c], length grows by 1, a NUL follows the last character; capacity doubles exactly when length >= capacity - 1 before the append; length < capacity is kept |
| `DynamicString.DyString.Merge` | dynamicstring.c:38-45 | contents become old contents ++ target, in order; capacity never shrinks and is unchanged when everything fits |
| `DynamicString.FreeDyString` | dynamicstring.c:28-36 | on a buffer: no buffer, length 0 and capacity 0 afterwards; on NULL: nothing |
| `DynamicString.DyArray.constructor` | dynamicstring.c:55-62 | init_dyarray: no elements, capacity 128, NULL terminator at index 0 |
| `DynamicString.DyArray.Append` | dynamicstring.c:64-75 | contents become old contents ++ [s], existing slots unchanged, NULL after the last element, capacity doubles exactly when length + 1 >= capacity |
| `Tokenizer.NameLen` | tokenizer.c:176-178 | length of the longest run of alnum/`_` characters at the start of the text |
| `Tokenizer.AddToken` | tokenizer.c:14-19 | add_token keeps every emitted token in place and puts the pending token after them |
| `Tokenizer.ScanStep` | tokenizer.c:103-217 | one pass of parseline's loop body over the unread rest of the line consumes at least one character. `fixed == false` is the code as written; `fixed == true` is the corrected tokenizer, whose pipe, `&`+space and `< > &` branches also emit a pending quoted empty token and clear is_empty |
| `Tokenizer.ScanStepShape` | tokenizer.c:103-217 | one pass leaves a suffix of the line to read, never takes back an emitted token, and fails only at an opening quote, with that quote's error |
| `Tokenizer.ScanShape` | tokenizer.c:103-224 | the whole scan never takes back an emitted token, and it fails only on a line holding a quote of the kind it reports |
| `Tokenizer.Tokenize` | tokenizer.c:85-225 | parseline as written (`fixed == false`): an unterminated-quote error only for a line holding a quote of that kind |
| `Tokenizer.TokenizeCorrected` | tokenizer.c:85-225 | parseline with the corrected operator branches (`fixed == true`): the same error rule |
| `Tokenizer.Written` | tokenizer.c:14-19 | the array built by the add_token calls: token k in slot k and a NULL after the last one; nothing at all when add_token never ran |
| `Tokenizer.ReadToNull` | tokenizer.c:18 | a walk of the array up to its NULL: defined exactly when the array holds a NULL, and then the entries before the first one |
| `Tokenizer.ReadSingleQuoted` | tokenizer.c:141-152 | the copy loop of the single-quote branch finds the closing quote exactly when `SingleQuoted` does, with the same token and the same rest of the line |
| `Tokenizer.ReadDoubleQuoted` | tokenizer.c:153-170 | the copy loop of the double-quote branch, including the backslash rule, computes `DoubleQuoted` |
| `Tokenizer.ReadName` | tokenizer.c:171-181 | the name-reading loop stops right after the name, after `NameLen` characters |
| `Tokenizer.StepSeparator` | tokenizer.c:111-130 | whitespace, `( ) ! ;` and `&`+whitespace branches: the C state after the branch is the next scanner state of `ScanStep` |
| `Tokenizer.StepBackslash` | tokenizer.c:131-140 | backslash branch agrees with `ScanStep`: backslash-newline is dropped and any other character is appended literally |
| `Tokenizer.StepSingleQuote` | tokenizer.c:141-152 | single-quote branch: sets is_empty and copies the quoted text, or reports the unterminated-quote error exactly when `ScanStep` fails |
| `Tokenizer.StepDoubleQuote` | tokenizer.c:153-170 | double-quote branch: as for single quotes, state or error agree with `ScanStep` |
| `Tokenizer.StepDollar` | tokenizer.c:171-188 | `$NAME` branch: appends the value from the environment (nothing when unset) and resumes right after the name |
| `Tokenizer.StepPipe` | tokenizer.c:189-200 | pipe branch: emits a pending token that has characters, then the one-character pipe token, or the two-character one when a second pipe follows |
| `Tokenizer.StepRedirect` | tokenizer.c:201-213 | `< > &` branch: keeps a pending one-digit token as the fd prefix, otherwise flushes it, and joins a following `>` or `&` into the operator |
| `Tokenizer.StepOther` | tokenizer.c:214-216 | any other character is appended to the pending token |
| `Tokenizer.ParseLine` | tokenizer.c:85-225 | parseline's token list is exactly `Tokenize(line, env)`, or the unterminated-quote error where the C code exits. The array it stores is `Written` of that list, which has no NULL when the list is empty (see Findings) |
| `TokenizerProps.TokenizeJoin` | tokenizer.c:103-221 | round trip: for words, escaped words, single- and double-quoted strings, control operators and fd-prefixed redirections written with single spaces, the tokens are exactly the items' values. Quotes and escapes are removed, `''` gives one empty token, `&`+space gives `&`, and nothing inside quotes is expanded, whatever the environment |
| `TokenizerProps.UnterminatedSingleQuoteRejected` | tokenizer.c:141-151 | from any scanner state, in either tokenizer, an opening single quote with no closing quote after it ends the scan with the single-quote error and no tokens |
| `TokenizerProps.UnterminatedDoubleQuoteRejected` | tokenizer.c:153-169 | from any scanner state, in either tokenizer, an opening double quote followed by EscapeDq-escaped text (escaped double quotes included) and then text with no double quote ends the scan with the double-quote error and no tokens |
| `TokenizerProps.ScanDollar` | tokenizer.c:171-188 | an unquoted `$name` appends the variable's value to the pending token (nothing when unset), and the character after the name is scanned normally |
| `TokenizerProps.TokenizeVariable` | tokenizer.c:171-224 | a line `$name` gives the value as its only token when it is set and non-empty; otherwise it gives no token, and as written then an array with no NULL |
| `TokenizerProps.BlankScan` | tokenizer.c:111-115 | a run of blanks from a fresh word emits no token, in either tokenizer |
| `TokenizerProps.WrittenReads` | tokenizer.c:14-19 | walking the stored array up to its NULL reads back exactly the tokens, and fails when there are none |
| `TokenizerProps.ReturnedArrayAsWritten` | tokenizer.c:85-225 | as written: for a line parseline accepts, the returned array has a NULL exactly when the line emits a token, and then the walk reads back exactly the tokens |
| `TokenizerProps.BlankLineUnterminated` | tokenizer.c:85-225 | as written: the empty line and a line of blanks emit no token, so the returned array has no NULL |
| `TokenizerProps.UnsetVariableUnterminated` | tokenizer.c:171-224 | as written: a line `$name` with an empty expansion emits no token, so the returned array has no NULL |
| `TokenizerProps.ReturnedArrayCorrected` | tokenizer.c:86-92 | with a NULL stored in the fresh array before the scan, the walk reads back exactly the tokens, the empty list included |
| `TokenizerProps.BackslashNewlineDropped` | tokenizer.c:131-136 | outside quotes, backslash-newline disappears and leaves the pending token unchanged |
| `TokenizerProps.PunctuationEndsWord` | tokenizer.c:117-123 | `(`, `)`, `!`, `;` emit a pending token that has characters or a quote, then become a one-character token of their own |
| `TokenizerProps.OperatorAsWritten` | tokenizer.c:189-213 | as written: after a pending quoted word, a pipe or redirection operator followed by a space gives the word only if it has characters, then the operator, then a spurious empty token |
| `TokenizerProps.AmpersandAsWritten` | tokenizer.c:124-130 | as written: `&`+space after a quoted word emits the word and `&` but keeps is_empty, so a following `;` is preceded by a spurious empty token |
| `TokenizerProps.AmpersandCorrected` | tokenizer.c:124-130 | corrected tokenizer: `&`+space after a quoted word gives the word, `&`, then `;` with no empty token |
| `TokenizerProps.QuotedWordBeforePipe` | tokenizer.c:189-200 | as written: a single-quoted word written right against a pipe gives the word, the pipe token, then a spurious empty token before the rest |
| `TokenizerProps.EmptyQuoteBeforePipe` | tokenizer.c:189-200 | as written: a quoted empty string written right against a pipe gives the pipe token then the empty token, which moves to the right of the operator |
| `TokenizerProps.CorrectedOperatorEndsWord` | tokenizer.c:189-213 | corrected tokenizer: the pipe, or-operator, `&&` and redirection operators end a pending word, even a quoted empty one, and read the same with or without a space before them |
| `TokenizerProps.QuotedWordBeforePipeCorrected` | tokenizer.c:189-200 | corrected tokenizer: a single-quoted word written right against a pipe gives the word, the pipe token, then the rest |
| `TokenizerProps.QuotedWordBeforePipeSpacing` | tokenizer.c:189-200 | corrected tokenizer: a quoted word written right against a pipe reads as if a space separated them |
| `Parser.ParseSep` | parser.c:37-75 | parse_sep returns `SepList(args)`, the walk that cuts at depth-0 `;` (SEP_SYNC) and `&` (SEP_ASYNC) |
| `Parser.ParseLogic` | parser.c:127-165 | parse_logic returns `LogicList(args)`, cut at depth-0 `&&` (LOGIC_AND) and the or operator (LOGIC_OR) |
| `Parser.ParsePipe` | parser.c:215-252 | parse_pipe returns `PipeList(args)`, cut at depth-0 pipe tokens |
| `ParserProps.SplitShape` | parser.c:46-72 | every group except the last is closed by a separator of the set; only the last may have none, and then it is non-empty |
| `ParserProps.SplitRoundTrip` | parser.c:46-65 | the groups with their separators put back give the open group followed by the remaining tokens |
| `ParserProps.SepNodesAt` | parser.c:14-35 | node k of the list is made from group k: appending at the tail keeps input order |
| `ParserProps.SepRoundTrip` | parser.c:46-72 | each node's args followed by `;`, `&` or nothing, by its type, rebuild the input token array exactly |
| `ParserProps.SepListShape` | parser.c:55-72 | only the last parse_sep node can be SEP_NONE, and then it has arguments |
| `ParserProps.LogicNodesAt` | parser.c:104-125 | node k of the logic list is made from group k, in input order |
| `ParserProps.LogicRoundTrip` | parser.c:136-162 | each node's args followed by `&&`, the or operator or nothing, by its type, rebuild the input token array |
| `ParserProps.LogicListShape` | parser.c:145-162 | only the last parse_logic node can be LOGIC_NONE, and then it has arguments |
| `ParserProps.SplitShielded` | parser.c:47-53 | tokens read while the depth stays positive join the open group whatever they are |
| `ParserProps.ParenthesisedGroupKept` | parser.c:47-64 | a balanced `( ... )` is kept whole in one group, parentheses included, whatever separators it contains |
| `ParserProps.ConsecutiveSeparators` | parser.c:55-63 | two separators in a row at depth 0 close the open group and then an empty group |
| `ParserProps.SepEmptyMiddleNode` | parser.c:55-68 | `a ; ; b` gives three nodes: `[a]` SEP_SYNC, `[]` SEP_SYNC, `[b]` SEP_NONE |
| `ParserProps.SplitCount` | parser.c:46-68 | number of groups = depth-0 separators + 1 if the trailing group is non-empty |
| `ParserProps.SplitClean` | parser.c:55-63 | the walk cuts at every separator met at depth 0 or below and nowhere else: no group's arguments hold such a separator, and each group's own separator is met at depth 0 or below |
| `ParserProps.CleanIsSplit` | parser.c:46-72 | any well-cut, clean group list is the walk of the tokens it stands for |
| `ParserProps.SplitCharacterised` | parser.c:46-72 | a group list is the walk of the tokens exactly when it stands for them, is well cut and is clean |
| `ParserProps.SepListClean` | parser.c:46-72 | parse_sep's nodes are the clean walk cut at `;` and `&`, node k made from group k |
| `ParserProps.LogicListClean` | parser.c:136-162 | parse_logic's nodes are the clean walk cut at `&&` and the or-operator, node k made from group k |
| `ParserProps.PipeListClean` | parser.c:224-249 | parse_pipe's nodes are the clean walk cut at the pipe, node k holding group k's arguments |
| `ParserProps.PipeNodesAt` | parser.c:193-213 | node k of the pipe list carries the args of group k |
| `ParserProps.PipeCount` | parser.c:224-249 | number of parse_pipe nodes = number of depth-0 pipe tokens + 1 if the trailing group is non-empty |
| `ParserProps.PipeRoundTrip` | parser.c:224-249 | pipe nodes carry the groups' args, every closed group ends at a pipe token, and the groups with their pipe tokens put back rebuild the input |
| `MyShell.FindFrom` | my_shell.c:43-45 | the lowest index whose entry starts with `key=`, or none when no entry does |
| `MyShell.Lookup` | my_shell.c:38-48 | a value exists exactly when some entry starts with `key=`; it is the text after `=` of the first such entry |
| `MyShell.GetEnviron` | my_shell.c:38-48 | the scan up to the NULL terminator returns `Lookup` of the array's contents |
| `MyShell.EqIndex` | my_shell.c:341-344 | index of the first `=` of the assignment, with no `=` before it |
| `MyShell.Updated` | my_shell.c:346-356 | when some entry defines the name, the first such entry is replaced and the length is kept; otherwise the assignment is appended |
| `MyShell.UpdateEnviron` | my_shell.c:335-358 | update_environ leaves the array valid, holding `Updated(old contents, envp)` |
| `MyShell.UpdateThenLookup` | my_shell.c:335-358 | after update_environ("K=V"), get_environ("K") returns "V" |
| `MyShell.UpdateOtherKey` | my_shell.c:346-353 | update_environ("K=V") changes get_environ for no other `=`-free name |
| `MyShell.ExecLogic` | my_shell.c:159-179 | exec_logic returns the status and the run trace of `LogicRun` over `LogicList(args)` |
| `MyShell.RanExactly` | my_shell.c:167-175 | the nodes run are exactly those the loop reaches with skip clear, in increasing order |
| `MyShell.FirstNodeRuns` | my_shell.c:164-170 | the first node always runs |
| `MyShell.StatusOfLastRun` | my_shell.c:169-178 | skipped nodes leave last_status alone: the result is the status of the last node run, 0 if none ran |
| `MyShell.AndChain` | my_shell.c:172 | after `&&` nodes, a node runs exactly when every earlier node returned 0 |
| `MyShell.OrChain` | my_shell.c:173 | after or-operator nodes, a node runs exactly when every earlier node returned non-zero |
| `MyShell.FailedAndThenOr` | my_shell.c:167-178 | `a && b` or-ed with `c`, with `a` failing, skips `b`, runs `c`, and returns `c`'s status |
| `MyShell.ExecSep` | my_shell.c:139-151 | exec_sep calls exec_logic once per node, in order, in the foreground unless the node was closed by `&`; it returns the last node's result, 0 for no nodes |
| `JobControl.FreeSlot` | jobcontrol.c:36-37 | the lowest slot with pgid 0, or none when all are taken |
| `JobControl.JidSlot` | jobcontrol.c:86-91 | the lowest slot whose jid equals the argument, free slots included, or none |
| `JobControl.Cleared` | jobcontrol.c:15-22 | every slot's pgid is 0, other fields kept |
| `JobControl.JobTable.constructor` | jobcontrol.c:11-13 | the zero-initialised globals: all slots zero, counter 0, not initialised |
| `JobControl.JobTable.InitJob` | jobcontrol.c:15-22 | initjob frees every slot and resets the counter to 0 |
| `JobControl.JobTable.AddJob` | jobcontrol.c:24-49 | first call initialises the table. pgid <= 0 or a full table returns -1 and changes no slot. Otherwise the lowest free slot gets pgid, state, cmdline, n_procs = n_finished = 0 and jid = counter; the call returns that jid and increments the counter; no other slot changes |
| `JobControl.JobTable.DeleteJob` | jobcontrol.c:51-56 | deletejob sets the slot's pgid to 0, leaves its other fields and the other slots alone, and decrements the counter |
| `JobControl.JobTable.FindJid` | jobcontrol.c:86-91 | the fg/bg/disown loop finds `JidSlot`, the lowest slot with that jid |
| `JobControl.JobTable.Fg` | jobcontrol.c:83-93 | the selected slot's state becomes FG and nothing else changes |
| `JobControl.JobTable.Bg` | jobcontrol.c:106-116 | the selected slot's state becomes BG and nothing else changes |
| `JobControl.JobTable.Disown` | jobcontrol.c:120-133 | the selected slot is deleted through deletejob, and exec_jobctrl returns 1 |
| `JobControlProps.ClearedDistinct` | jobcontrol.c:15-22 | right after initjob no job is live |
| `JobControlProps.AddKeepsDistinct` | jobcontrol.c:36-45 | addjob keeps live jids distinct and below the counter |
| `JobControlProps.FreeKeepsDistinct` | jobcontrol.c:51-56 | freeing a slot without decrementing the counter keeps live jids distinct |
| `JobControlProps.DuplicateJidScenario` | jobcontrol.c:51-56 | as written: add, add, delete the first, add; the third job gets jid 1 like the live second job, and the jid lookup finds the third job's slot |
| `JobControlProps.DeleteJobCorrected` | jobcontrol.c:51-56 | corrected deletejob: frees the slot, keeps the counter, and preserves distinct live jids |
| `JobControlProps.DistinctJidScenario` | jobcontrol.c:51-56 | with the corrected deletion the same calls give jids 0, 1, 2, and the lookup of 1 finds the second job |
| `SigHandler.OwnerFrom` | sighandler.c:42-47 | the lowest slot whose first n_procs pids include the pid, or none |
| `SigHandler.GetJobIdx` | sighandler.c:39-50 | the nested search returns that slot, or -1 exactly when no job owns the pid |
| `SigHandler.ReapChild` | sighandler.c:64-89 | a pid owned by no job changes nothing, last_status included. Otherwise: exit or kill adds exactly 1 to n_finished; stop sets state ST; fg_child_count drops by 1 exactly when the new state is FG or the child stopped; the slot is freed through deletejob when n_finished reaches n_procs; last_status becomes the exit code when the pid is last_pid and the child exited, else 1 |

## Left out

- readline (tokenizer.c:33-62) reads the terminal with getchar and is not part of this model.
- A trailing backslash makes parseline read past the line's NUL (tokenizer.c:131-140). The model ends the scan there and keeps the pending token.
- The C code scans the bytes of a `char*`; the model scans Dafny characters. A multi-byte UTF-8 character is one character here and several bytes in C, so the byte bounds of the token and `var` buffers count differently. The ctype tests classify such bytes as ordinary word characters in the C locale, as the model does for non-ASCII characters.
- `Tokenizer.ParseLine` and `TokenizerProps.TokenizeVariable`: the model's empty token list stands for an empty NULL-terminated array. As written, parseline stores no NULL for a line that emits no token (see Findings); the model returns `Ok([])` for such a line, which is the corrected reading.
- A line is the characters before its NUL. The model does not treat a `'\0'` character inside the sequence as the end of the line.
- The fixed C buffers are treated as large enough and their overflow is not modelled: the 1024-byte token buffer, the 64-byte `var_name` and the token array's growth (tokenizer.c:104-107). update_environ's 4096-byte `var` and the 1024-byte `cmdline` are preconditions.
- getenv is the `env` map parameter. The empty name is treated as unset.
- `MyShell.ExecLogic`: exec_job is a given status function. In the shell a command's status can depend on what earlier commands did to processes and the environment; the model does not capture that.
- `MyShell.ExecSep`: the C code passes each node's `cmd` string to exec_logic and reads a `sync` flag that parser.h does not declare. The model passes the node's tokens and takes `sync` to mean the node was not closed by `&`.
- my_shell.c process control is not part of this model: init_shell, launch_process, launch_job, do_cd, myshell_loop and the builtin dispatch of exec_job (my_shell.c:50-130, 183-333, 360-420). These consist of fork, exec, pipes, dup2, process groups, the terminal and chdir.
- `MyShell.UpdateEnviron` requires the assignment to contain `=`. Without one the C name loop runs past the string.
- The signalling half of exec_jobctrl is not modelled: kill, tcsetpgrp, the sigsuspend wait, sigprocmask and the `jobs` listing (jobcontrol.c:61-82, 92, 94-105, 115, 117).
- `JobControl.JobTable.Fg`: does not model `fg_child_count = n_procs - n_finished` (jobcontrol.c:95), which feeds only the omitted wait loop.
- `JobControl.JobTable.FindJid`: the jid comes in as an integer (the atoi of the argument is not modelled). When no slot matches, the C code uses an uninitialised pointer; Fg, Bg and Disown therefore require a match.
- sighandler.c: signal_wrapper, the waitpid drain loop, the sigprocmask masking, errno handling and the empty SIGINT/SIGTSTP handlers are not modelled (sighandler.c:22-37, 55-62, 91-110). Only one reaped child's update is modelled, with no concurrency.
- Memory management: the free_* functions, malloc/realloc failure paths and the list relinking of the append_*node helpers are not modelled. Node lists are sequences, and free_sep_list, free_logic_list, free_pipe_list and free_dyarray have nothing to do.
- new_dystring and new_dyarray are the constructors.
- All integers are unbounded. With 16 slots and ordinary exit codes no C int limit is reached, except by an unbounded number of deletejob calls.

## Findings

| source | as written | input that shows it | evidently intended | confidence | as-written member | corrected member |
|---|---|---|---|---|---|---|
| tokenizer.c:189-213 | The pipe and `< > &` branches emit a pending token only when it has characters, and neither clears `is_empty`. After a quoted word, the space after the operator then emits a spurious empty token, and a quoted empty string ends up to the right of the operator. | The line `'w'`, pipe, space, `b` gives `w`, the pipe token, an empty token, `b`. The line `''`, pipe, space, `b` gives the pipe token, an empty token, `b`. The line `'w'> f` gives `w`, `>`, an empty token, `f` | The operator ends the quoted word like whitespace does: `w`, pipe, `b`; an empty token, pipe, `b`; `w`, `>`, `f` | not executed; medium | `TokenizerProps.OperatorAsWritten` | `TokenizerProps.CorrectedOperatorEndsWord` |
| tokenizer.c:124-130 | The `&`+space branch emits the pending token, quoted empty included, but does not clear `is_empty`, and it skips the space. The next separator then emits a spurious empty token. | The line `'w'& ;` gives `w`, `&`, an empty token, `;` | `w`, `&`, `;` | not executed; medium | `TokenizerProps.AmpersandAsWritten` | `TokenizerProps.AmpersandCorrected` |
| tokenizer.c:85-225 | parseline stores a NULL in the token array only inside add_token, and the array comes from malloc uninitialised. A line that emits no token returns an array with no NULL, and a caller walking it to its NULL reads memory never written. | The empty line; a line of blanks; the line `$X` with X unset | The array holds a NULL after the tokens, so a line without tokens gives an array whose first entry is NULL | not executed; high | `TokenizerProps.ReturnedArrayAsWritten` | `TokenizerProps.ReturnedArrayCorrected` |
| jobcontrol.c:51-56 | deletejob decrements the jid counter even when the deleted job is not the newest one. | addjob, addjob, deletejob of the first, addjob: the third job gets jid 1, which the live second job already has; `fg 1` then picks the third job | Live jobs keep distinct jids, so deletejob frees the slot and leaves the counter alone | not executed; medium | `JobControlProps.DuplicateJidScenario` | `JobControlProps.DeleteJobCorrected` |
