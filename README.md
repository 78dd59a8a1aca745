# finit's process runner, modelled in Dafny

finit is a small PID 1 for embedded Linux systems. Its `exec.c` holds the
code that starts other programs:

- `run(cmd)` copies a command line. It splits the copy into at most 16
  arguments, either blank-separated or quoted with `'` or `"`. It forks a
  child that execs them, its stdio on `/dev/null` when it can open that
  file. It waits for the child
  and turns the wait status into a result. The result is the exit code, or
  1 for a child killed by a signal, 1 for an internal failure, and -1 when
  fork fails.
- `complete(cmd, pid)` waits for one child.
- `run_interactive(cmd, fmt)` runs a command with `run()` while its stdout
  and stderr go to a temporary file. Then it restores them and copies the
  file to stderr.
- `run_parts(dir, cmd)` runs every executable entry of a directory, one
  after the other in `scandir()` order. Each entry gets `start`/`stop` for
  SysV `S<n>`/`K<n>` names, or the forced argument.
- `run_getty(cmd, args, console)` forks a child. The child may take over
  the console. Then it loops: it waits while a "stopped" marker file
  exists, prompts for Enter on the console, and execs the getty program.
  It exits when a "shutdown" marker appears.

The model has six modules, one file each:

- `Syscalls` holds what exec.c gets from the kernel: the Linux
  wait-status encoding with its round trips, `complete()`, and a `Process`
  class. A `Process` holds the descriptor table (descriptor to open file)
  and a log of writes. Its `dup`, `dup2`, `close`, `open` and `write`
  follow the kernel's rules, handing out descriptors lowest-free-first
  below a limit.
- `Tokenizer` holds the splitting loop of `run()`. It runs in place on a
  `char` array with `strsep` semantics. It is proved against a functional
  definition of the tokens, `Tokens`. For input without quotes, that
  definition is related to a plain split on blanks that `Join` inverts.
- `Runner` holds `run()` and the mapping from status to result.
- `Interactive` holds `run_interactive()`, working on a `Process`.
- `Parts` holds `run_parts()`.
- `Getty` holds `run_getty()`; its child's console set-up works on a
  `Process`.

The kernel's answers are parameters, never computed. That covers
whether strdup can allocate, what fork, waitpid, read and execv return,
the directory listing, the file modes, and whether the marker files exist.
What the code asks of the kernel comes back as a trace (`Event`s for
fork/waitpid, `Step`s for the getty child), or as the new state of a
`Process`.

Behaviour of exec.c worth knowing, all of it modelled as the code does it:

- A command line has at most 16 tokens, `NUM_ARGS`; the 17th slot holds
  the terminating NULL. The rest of a longer line, after the blank that
  ends the 16th token, is dropped without an error. The "too many
  arguments" branch (exec.c:101-106) is never taken, because `args[16]` has
  just been set to NULL. `Tokenize` proves this as `ensures !tooLong`.
- The first token is never taken as quoted. A quoted token keeps both of
  its quote characters. The character after the closing quote is
  overwritten with the terminator, whatever it is.
- `run_interactive()` copies back only the first buffer of the captured
  output when that output is longer than one byte (`ReplayedText`). The
  reason is that `fwrite()` returns the item count, 1, and not the byte
  count.
- `run_parts()` runs entries one at a time in the listing's order
  (`PartsRunInOrder`). The listing is `scandir()`'s with `alphasort`; that
  sort is taken as given, not modelled.
- `run_parts()` calls `complete(path, -1)` when fork fails. That waits
  for any child. Its status is never looked at.

## Model

| member | source | states |
|---|---|---|
| Syscalls.DecodeEncode | exec.c:145-153 | WIFEXITED, WIFSIGNALED, WEXITSTATUS and WTERMSIG read back exactly the outcome (exit code, or signal with exit bits 0) encoded in a status |
| Syscalls.EncodeDecode | exec.c:52-63 | every status waitpid can report for a terminated child is the encoding of one outcome, so decoding loses nothing |
| Syscalls.Complete | exec.c:48-64 | one waitpid on the pid; -1 exactly when it fails, otherwise a reportable status that decodes to the child's outcome |
| Tokenizer.Next | exec.c:78-92 | one strsep step from a cursor: the token is a quoted one only for a later token starting with a quote, it starts at the cursor and ends inside the line, and when it is the last one it reaches the end of the line; no step exists for an unclosed quote |
| Tokenizer.Scan | exec.c:77-106 | the loop as a definition: tokens are taken until the cursor is NULL or 16 are taken; its properties are stated by SpanAt, TokenCount and PlainTokens |
| Tokenizer.Tokens | exec.c:77-106 | the texts of the tokens, as definition; TokenText and Tokenize state what they are |
| Tokenizer.TokenCount | exec.c:77-106 | a command line yields between 1 and 16 (NUM_ARGS) tokens |
| Tokenizer.SpanAt | exec.c:77-106 | token spans lie inside the line, in order, each starting after the previous one's end |
| Tokenizer.SpanShape | exec.c:78-92 | the first token is plain; a later token is quoted exactly when it starts with a quote character |
| Tokenizer.TokenText | exec.c:77-106 | each token is the slice of the line its span covers |
| Tokenizer.SplitJoin | exec.c:78-92 | the reference blank-split is inverted by joining the pieces with the separators between them |
| Tokenizer.PlainTokens | exec.c:78-92 | when no quote follows a blank, tokenizing is defined and gives the first 16 blank-separated pieces, and those pieces rejoin to the line when there are at most 16 |
| Tokenizer.QuotedToken | exec.c:82-91 | a quoted token starts and ends with its quote character, with none inside, and the next token starts one past its closing quote |
| Tokenizer.PlainToken | exec.c:78-92 | an unquoted token holds no blank and ends at a blank or at the end of the line |
| Tokenizer.Strsep | exec.c:78 | strsep: the token runs to the first delimiter, which is overwritten with NUL, and the returned pointer is past it, or NULL at the end of the string |
| Tokenizer.TakeQuoted | exec.c:82-91 | the quoted token runs to the first matching quote after the opening one, and the character after it is overwritten with NUL |
| Tokenizer.TakeToken | exec.c:78-92 | one token cut in place: the quoted or the plain path according to its first character and whether it is the first token |
| Tokenizer.TakeArg | exec.c:77-93 | one pass of the loop: stores the token pointer in args[i] and leaves the buffer cut after i+1 tokens, with the next pointer at the next token's start |
| Tokenizer.Tokenize | exec.c:77-106 | args[k] points at a C string holding Tokens(s)[k] for each of the n tokens, args[n] is NULL, n is at most 16, and the too-many-arguments flag is never set |
| Runner.Strdup | exec.c:72-75 | the copy exists exactly when allocation succeeds, and it is a fresh array equal to the command |
| Runner.ReadString | exec.c:129 | reading the C string at an argument pointer gives the token stored there |
| Runner.ArgStrings | exec.c:129 | execvp receives exactly the tokens of the command |
| Runner.StatusResult | exec.c:145-154 | run()'s result from a wait status is a byte |
| Runner.Reap | exec.c:139-154 | one waitpid on the child; 1 when it fails, otherwise the status mapped to a result |
| Runner.Run | exec.c:66-159 | run()'s result and its fork/waitpid calls agree with RunResult and RunTrace: nothing when strdup fails, a fork of the tokenized command, and a wait only for a forked child |
| Runner.RunResult | exec.c:72-158 | run()'s result as a definition of what strdup, fork and waitpid answer; RunExitCode, RunKilled, RunZero, RunFailures and RunRange state its properties |
| Runner.RunTrace | exec.c:72-143 | the calls run() makes as a definition; RunFailures and RunExecsTokens state its properties |
| Runner.RunExitCode | exec.c:145-147 | a child that exits with code c makes run() return c |
| Runner.RunKilled | exec.c:148-153 | a child killed by a signal makes run() return 1 |
| Runner.SignaledNotZero | exec.c:148-153 | no status with a terminating signal maps to 0 |
| Runner.RunZero | exec.c:66-159 | run() returns 0 exactly when strdup and fork succeed and the child exits with 0 |
| Runner.RunFailures | exec.c:72-143 | 1 with no calls when strdup fails, -1 with no wait when fork fails, 1 when waitpid fails |
| Runner.RunRange | exec.c:66-159 | the result is -1 or a byte, and -1 exactly when fork fails |
| Runner.RunImage | exec.c:109-131 | the child of run() as a definition; RunExecsTokens states it |
| Runner.RunExecsTokens | exec.c:108-131 | the child execs the first token, searched in PATH, with all the tokens, at most 16 of them, as its argument vector, after trying to put its stdio on /dev/null, and exits 1 when the exec fails |
| Syscalls.Process.LowestFree | exec.c:182-185 | the lowest descriptor not in use, or the limit when all below it are in use |
| Syscalls.Process.Dup | exec.c:184-185 | dup fails when the descriptor is closed or the table is full; otherwise the lowest free descriptor now refers to the same file |
| Syscalls.Process.Dup2 | exec.c:186-187 | dup2 fails when the source is closed or the target is out of range; otherwise the target refers to the source's file |
| Syscalls.Process.Close | exec.c:194-203 | close removes the descriptor, and fails exactly when it was not open |
| Syscalls.Process.Open | exec.c:182 | tempfile() or open() fails when not allowed or when the table is full; otherwise a new file is open on the lowest free descriptor |
| Syscalls.Process.WriteTo | exec.c:215 | a write lands in the file the descriptor refers to, and fails exactly when the descriptor is closed |
| Interactive.Replay | exec.c:209-217 | rewinding and copying the temporary file appends exactly ReplayWrites of its contents to the file stderr refers to; no descriptor changes |
| Interactive.ReplayPass | exec.c:213-216 | one fread/fwrite pass: the position advances by the buffer read, that buffer is written to stderr, and the loop goes on only when the write's return value, the item count 1, equals the length read |
| Interactive.ReplayChunks | exec.c:212-216 | the buffers the replay loop writes, as a definition; ReplayedText gives them in closed form |
| Interactive.ReplayedText | exec.c:213-216 | what the replay writes is the whole rest of the file when the buffer is one byte, and otherwise only its first buffer |
| Interactive.Redirect | exec.c:183-188 | stdout and stderr refer to the temporary file, and the saved descriptors (when not -1) are fresh copies of the old stdout and stderr |
| Interactive.Restore | exec.c:194-203 | each saved descriptor is put back on stdout or stderr and then closed; a standard descriptor that was not saved keeps its file; nothing else changes |
| Interactive.CaptureRoundTrip | exec.c:183-202 | redirecting then restoring leaves every descriptor as before, except that stderr stays on the temporary file when it could not be saved |
| Interactive.CaptureRun | exec.c:182-217 | run()'s result and calls are unchanged by capturing; with capture the child's output goes to the temporary file and is then copied to the restored stderr |
| Interactive.CloseTemp | exec.c:182-220 | closing the temporary file after the round trip leaves every descriptor as it was on entry, except a standard one that could not be saved |
| Interactive.ChildWrites | exec.c:119-129 | what the command writes, as a definition: one write to the file stdout refers to, made only when the child ran and could not open /dev/null; ContentsOfChild states what lands in a file |
| Interactive.ContentsOfChild | exec.c:119-129 | the file stdout refers to receives the command's output when the child ran and could not open /dev/null, and nothing from it otherwise |
| Interactive.RunInteractive | exec.c:161-223 | 1 and no effect for a NULL command; otherwise run()'s result. Output is captured exactly when the temporary file opens and debug is off. The temporary file and the saved descriptors are closed again, and every descriptor is as it was on entry, except that stdout or stderr stays on the temporary file when its dup failed. Without capture the child writes where stdout points; with capture its output goes to the temporary file and is then copied to stderr |
| Parts.BuildArgs | exec.c:315-330 | the argument array holds Argv(path, name, cmd) followed by NULL |
| Parts.StartStop | exec.c:319-326 | the argument an entry's name calls for, as a definition; ArgvShape states it |
| Parts.Argv | exec.c:315-330 | an entry's argument vector, as a definition; ArgvShape and StopScriptExample state it |
| Parts.Runnable | exec.c:309-313 | the entry filter, as a definition; PickedRunnable states which entries pass it |
| Parts.PartImage | exec.c:332-338 | the child forked for an entry, as a definition; PartExecsPath states it |
| Parts.PartExecsPath | exec.c:332-338 | the child execs the entry's full path, with no PATH search, with that path as argv[0], keeps init's stdio, and exits 0 when execv fails |
| Parts.PartsTrace | exec.c:300-341 | the calls run_parts() makes for a listing, as a definition; PartsRunInOrder states its shape |
| Parts.ArgvShape | exec.c:315-330 | the argument vector is the path, then the forced argument, else "start" for S<digit> names and "stop" for K<digit> names, else nothing more |
| Parts.StopScriptExample | exec.c:319-329 | K01third gets "stop", S01first gets "start", Sfirst gets nothing, and a forced argument wins over the name |
| Parts.RunEntry | exec.c:304-341 | a skipped entry makes no call; a runnable one is forked with its argument vector and then waited for on fork's answer |
| Parts.RunParts | exec.c:289-348 | -1 and no calls when scandir fails, otherwise 0 and the calls of every entry in listing order |
| Parts.PickedRunnable | exec.c:309-313 | the entries run are exactly the executable non-directories, in increasing listing order |
| Parts.PartsRunInOrder | exec.c:300-341 | the k-th fork is of the k-th runnable entry, and it is followed at once by a waitpid on that fork's pid (-1 when the fork failed) |
| Getty.ReadLine | exec.c:269-270 | the reads of one line: the next answer index stays within the answers; ReadLineStops states the stop rule |
| Getty.ReadLineStops | exec.c:269-270 | the reads of a line get the answers in order, all but the last a character other than a newline, the last a failure or a newline, and the answers used are consumed |
| Getty.Loop | exec.c:260-282 | the supervisor loop as a definition over the answers; LoopExits, LoopReplaced, LoopFinalLast, LoopGuarded and LoopConsoleOnly state its properties |
| Getty.ReadUntilNewline | exec.c:269-270 | reads one byte at a time until a read fails or returns a newline, as ReadLine defines |
| Getty.Round | exec.c:260-277 | one pass of the supervisor loop takes the steps Loop prescribes and either ends the child or continues from the next observation |
| Getty.Supervise | exec.c:260-277 | the supervisor loop's steps and ending are those of Loop from the start |
| Getty.CloseStdio | exec.c:237-239 | stdin, stdout and stderr are closed and nothing else changes |
| Getty.ShareConsole | exec.c:246-248 | stdin, stdout and stderr refer to the file open on descriptor 0 |
| Getty.AttachConsole | exec.c:233-249 | the console lands on descriptor 0 exactly when open succeeds; then descriptors 0, 1 and 2 all refer to it, and other descriptors are untouched |
| Getty.GettyChild | exec.c:229-283 | with console, the child exits 1 without further steps when the console cannot be opened; otherwise it runs the supervisor loop, and closes the console before exit(0) |
| Getty.RunGetty | exec.c:225-286 | the parent returns -1 exactly when fork fails, otherwise the child's pid |
| Getty.LoopExits | exec.c:260-282 | the child exits only with 0, and exactly when its last step found the shutdown marker |
| Getty.LoopReplaced | exec.c:276 | the child's image is replaced exactly when its last step is a successful execv |
| Getty.LoopFinalLast | exec.c:260-282 | nothing follows a shutdown marker seen or a successful execv |
| Getty.LoopGuarded | exec.c:263-276 | a prompt or an execv comes only right after a check that found the stopped marker absent, and an execv also needs the check before the prompt to have found it absent |
| Getty.LoopConsoleOnly | exec.c:268-272 | a child without the console never prompts or reads |

## Left out

- Logging and diagnostics are not modelled: `_e`, `_d`, `_pe`, `print_desc`, `print_result`, `errno`, and the `verbose` flag with the `fmt` arguments. The global `debug` flag is a parameter.
- The child's signal handling, `sig_unblock()`, `vhangup()`, `setsid()`, `ioctl(TIOCSCTTY)`, `prctl()` and the length of `sleep(1)` are not modelled. Each is a call with no result the code uses.
- The child of `run()` is described by its image (path, argument vector, PATH search, stdio, exit code on exec failure). Its own execution is not modelled.
- Runner.RunImage: the image's `stdio` (`TryDevNull`) is the attempted redirection. Whether `fopen("/dev/null")` succeeds happens inside the child, after the fork; only `Interactive.ChildOutput.nullOk` says which way it went.
- Interactive.CaptureRun: what the command writes is given as one write to stdout (`ChildOutput`). That write happens only when the child could not put its stdio on `/dev/null`.
- Interactive.RunInteractive: the descriptor guarantees are stated only when stdout and stderr are open on entry, as they are for init. The method also requires the process limit to admit descriptors 1 and 2.
- Interactive.Replay: the file is read as a snapshot of its contents when the replay starts, so stdio buffering is not modelled. When stderr still refers to the temporary file, the bytes it appends are not read back.
- `LINE_SIZE` and the descriptor limit are parameters (`lineSize`, `limit`).
- Parts: the path is `dir + "/" + name` with no truncation to `CMD_SIZE` by `snprintf`.
- Parts: `scandir()` and `alphasort` are taken as given. The listing is a parameter, in the order `scandir()` returns it.
- Parts: `fmode()`, `S_ISEXEC` and `S_ISDIR` are the `exec`/`dir` booleans of an entry. `isdigit` is the C locale's.
- Parts.RunParts: fork and waitpid answer per listing entry (`forks[i]`, `waits[i]`). The wait results change nothing, because `run_parts()` ignores them.
- Getty: the answers of `fexist()` and `execv()` come from finite sequences. The model's run ends `Pending` when either runs out, because the real loop can go on forever. The answers of `read()` come from a sequence too; once it runs out, every further read fails, as on a closed console, and the loop goes on.
- Getty.GettyChild: without the console, the child's descriptors are not touched and not modelled.
- Syscalls: the `Forked` pid is positive, as fork's is. Only the Linux encoding of wait statuses is modelled, and stopped or continued children are not reported to a plain waitpid.
- Tokenizer: lines whose splitting has undefined behaviour are excluded by the precondition `Safe`. There are two such cases. In the first, a quote opens a token and no closing quote follows, so the cursor is NULL when exec.c:88 computes `arg - 1`. In the second, a closing quote is the last character and fewer than 16 tokens are taken, so the cursor is read one past the copy's end.
