/*
 * run_getty() (exec.c:225-286): fork a child that, on the console when
 * asked to, waits until neither shutdown nor stop is signalled and then
 * execs the getty program.
 *
 * The child polls two marker files with fexist(); each call is answered by
 * the next of a sequence of observations. What read() returns and whether
 * execv() succeeds are sequences too, and what the child does is returned
 * as a trace of Steps. The model stops (End Pending) when the observations
 * run out.
 */
module Getty {
  import opened Syscalls

  /** The marker files SYNC_SHUTDOWN and SYNC_STOPPED. */
  datatype Marker = Shutdown | Stopped

  /** What the child does, with the answers it gets. */
  datatype Step =
    | Check(marker: Marker, present: bool)                 // fexist()
    | Pause                                                 // sleep(1)
    | Prompt(data: string)                                  // write() to stderr
    | Read(got: Option<char>)                               // read() of one byte; None when it returns 0 or -1
    | Exec(path: string, argv: seq<string>, replaced: bool) // execv(); `replaced` when it succeeds

  /** How the child ends: it exits with a code, its image is replaced by
      execv, or it is still running when the observations run out. */
  datatype End = Exit(code: int) | Replaced | Pending

  datatype Run = Run(end: End, steps: seq<Step>)

  /** `r`, after the steps `pre`. */
  function Then(pre: seq<Step>, r: Run): Run {
    Run(r.end, pre + r.steps)
  }

  /** What run_getty() hands the child: the program, its arguments and
      whether to take the console. */
  datatype Getty = Getty(cmd: string, argv: seq<string>, console: bool)

  /** The prompt of exec.c:261, written at exec.c:269 with sizeof(msg) bytes: its
      terminating NUL goes out too. */
  const PROMPT: string := "\nPlease press Enter to activate this console.\0"

  /** The reads of a line, and the index of the first read answer left
      after them. */
  datatype Line = Line(next: nat, steps: seq<Step>)

  /** exec.c:269-270: one byte at a time until a read fails or returns a
      newline. `input[i]` answers the i-th read; once the answers run out
      every read fails. */
  function ReadLine(input: seq<Option<char>>, i: nat): (l: Line)
    requires i <= |input|
    ensures i <= l.next <= |input|
    decreases |input| - i
  {
    if i == |input| then Line(i, [Read(None)])
    else if input[i].None? || input[i].value == '\n' then Line(i + 1, [Read(input[i])])
    else var rest := ReadLine(input, i + 1); Line(rest.next, [Read(input[i])] + rest.steps)
  }

  /** The supervisor loop of exec.c:260-277 from observation `mi`, read
      answer `ii` and execv answer `ei` on. Each round checks the shutdown
      marker, then the stopped marker (and sleeps when it is there),
      prompts and reads a line on the console, checks the stopped marker
      again and, when it is still absent, calls execv. */
  function Loop(g: Getty, ms: seq<bool>, mi: nat, input: seq<Option<char>>, ii: nat,
                execs: seq<bool>, ei: nat): Run
    requires ii <= |input|
    decreases |ms| - mi
  {
    if mi >= |ms| then Run(Pending, [])
    else if ms[mi] then Run(Exit(0), [Check(Shutdown, true)])
    else if mi + 1 == |ms| then Run(Pending, [Check(Shutdown, false)])
    else if ms[mi + 1] then
      Then([Check(Shutdown, false), Check(Stopped, true), Pause], Loop(g, ms, mi + 2, input, ii, execs, ei))
    else
      var line := if g.console then ReadLine(input, ii) else Line(ii, []);
      var pre := Opening(g, line);
      if mi + 2 == |ms| then Run(Pending, pre)
      else if ms[mi + 2] then
        Then(pre + [Check(Stopped, true)], Loop(g, ms, mi + 3, input, line.next, execs, ei))
      else if ei >= |execs| then Run(Pending, pre + [Check(Stopped, false)])
      else if execs[ei] then Run(Replaced, pre + [Check(Stopped, false), Exec(g.cmd, g.argv, true)])
      else
        Then(pre + [Check(Stopped, false), Exec(g.cmd, g.argv, false)],
             Loop(g, ms, mi + 3, input, line.next, execs, ei + 1))
  }

  /** The start of a round that goes on to the prompt: both markers
      absent, then the prompt and the line read on the console. */
  function Opening(g: Getty, line: Line): seq<Step> {
    [Check(Shutdown, false), Check(Stopped, false)] + if g.console then [Prompt(PROMPT)] + line.steps else []
  }

  /** exec.c:269-270 on the console: reads until a read fails or returns a
      newline. */
  method ReadUntilNewline(input: seq<Option<char>>, i: nat) returns (next: nat, steps: seq<Step>)
    requires i <= |input|
    ensures Line(next, steps) == ReadLine(input, i)
  {
    next, steps := i, [];
    var go := true;
    while go
      invariant i <= next <= |input|
      invariant go ==> Then(steps, Run(Pending, ReadLine(input, next).steps)).steps == ReadLine(input, i).steps
      invariant go ==> ReadLine(input, next).next == ReadLine(input, i).next
      invariant !go ==> Line(next, steps) == ReadLine(input, i)
      decreases |input| - next, go
    {
      var got: Option<char> := if next < |input| then input[next] else None;
      AppendAssoc(steps, [Read(got)], if next < |input| && got.Some? && got.value != '\n' then ReadLine(input, next + 1).steps else []);
      steps := steps + [Read(got)];
      if next < |input| {
        next := next + 1;
      }
      go := got.Some? && got.value != '\n';
    }
  }

  /** One pass of the loop of exec.c:260-277 from observation `mi`: the
      steps it takes and, when the child stops in it, how it ends;
      otherwise where the next pass starts. */
  method Round(g: Getty, ms: seq<bool>, mi: nat, input: seq<Option<char>>, ii: nat, execs: seq<bool>, ei: nat)
    returns (steps: seq<Step>, end: Option<End>, mi': nat, ii': nat, ei': nat)
    requires mi <= |ms| && ii <= |input| && ei <= |execs|
    ensures mi <= mi' <= |ms| && ii' <= |input| && ei' <= |execs|
    ensures end.Some? ==> Loop(g, ms, mi, input, ii, execs, ei) == Run(end.value, steps)
    ensures end.None? ==> mi < mi'
    ensures end.None? ==> Loop(g, ms, mi, input, ii, execs, ei) == Then(steps, Loop(g, ms, mi', input, ii', execs, ei'))
  {
    mi', ii', ei' := mi, ii, ei;
    // The shutdown check at the head of the loop (exec.c:260).
    if mi == |ms| {
      return [], Some(Pending), mi', ii', ei';
    }
    if ms[mi] {
      return [Check(Shutdown, true)], Some(Exit(0)), mi + 1, ii', ei';
    }
    // The first stopped check, which pauses and starts over (exec.c:263-266).
    if mi + 1 == |ms| {
      return [Check(Shutdown, false)], Some(Pending), mi + 1, ii', ei';
    }
    if ms[mi + 1] {
      return [Check(Shutdown, false), Check(Stopped, true), Pause], None, mi + 2, ii', ei';
    }
    var line := Line(ii, []);
    if g.console {
      var next, chars := ReadUntilNewline(input, ii);
      line := Line(next, chars);
    }
    steps := Opening(g, line);
    ii' := line.next;
    // The second stopped check, after the prompt (exec.c:273-274).
    if mi + 2 == |ms| {
      return steps, Some(Pending), mi + 2, ii', ei';
    }
    if ms[mi + 2] {
      return steps + [Check(Stopped, true)], None, mi + 3, ii', ei';
    }
    // The exec of the getty program (exec.c:276).
    if ei == |execs| {
      return steps + [Check(Stopped, false)], Some(Pending), mi + 3, ii', ei';
    }
    steps := steps + [Check(Stopped, false), Exec(g.cmd, g.argv, execs[ei])];
    if execs[ei] {
      return steps, Some(Replaced), mi + 3, ii', ei + 1;
    }
    return steps, None, mi + 3, ii', ei + 1;
  }

  /** exec.c:260-277: the whole supervisor loop. */
  method Supervise(g: Getty, ms: seq<bool>, input: seq<Option<char>>, execs: seq<bool>) returns (r: Run)
    ensures r == Loop(g, ms, 0, input, 0, execs, 0)
  {
    var mi: nat, ii: nat, ei: nat := 0, 0, 0;
    var steps: seq<Step> := [];
    var end: Option<End> := None;
    while end.None?
      invariant mi <= |ms| && ii <= |input| && ei <= |execs|
      invariant end.None? ==> Then(steps, Loop(g, ms, mi, input, ii, execs, ei)) == Loop(g, ms, 0, input, 0, execs, 0)
      invariant end.Some? ==> Run(end.value, steps) == Loop(g, ms, 0, input, 0, execs, 0)
      decreases |ms| - mi, end.None?
    {
      var s;
      s, end, mi, ii, ei := Round(g, ms, mi, input, ii, execs, ei);
      if end.None? {
        AppendAssoc(steps, s, Loop(g, ms, mi, input, ii, execs, ei).steps);
      }
      steps := steps + s;
    }
    r := Run(end.value, steps);
  }

  /** exec.c:232-249: with `console`, the child hangs up its terminal,
      closes its stdio and opens the console, which must land on
      descriptor 0, then makes stdout and stderr refer to it too. The
      result is what open() returned. Since descriptor 0 has just been
      closed, open() can only miss it by failing. */
  method AttachConsole(p: Process, openOk: bool) returns (fd: int)
    requires p.Valid()
    modifies p
    ensures p.Valid() && p.writes == old(p.writes)
    ensures fd == 0 <==> openOk && p.limit > 0
    ensures fd != 0 ==> fd == -1
    ensures fd == 0 ==> p.files == old(p.files) + 1
    ensures fd == 0 ==> forall k :: 0 <= k <= STDERR && k < p.limit ==> k in p.fds && p.fds[k] == old(p.files)
    ensures forall k :: k > STDERR ==> SameAt(p.fds, old(p.fds), k)
  {
    CloseStdio(p);
    fd := p.Open(openOk);
    if fd != 0 {
      return;
    }
    ghost var withConsole := p.fds;
    ShareConsole(p);
    forall k | k > STDERR
      ensures SameAt(p.fds, old(p.fds), k)
    {
      assert SameAt(p.fds, withConsole, k);
    }
  }

  /** exec.c:237-239: closes stderr, stdout and stdin. */
  method CloseStdio(p: Process)
    requires p.Valid()
    modifies p
    ensures p.Valid() && p.files == old(p.files) && p.writes == old(p.writes)
    ensures p.fds == old(p.fds) - {0, STDOUT, STDERR}
  {
    var closed := p.Close(STDERR);
    closed := p.Close(STDOUT);
    closed := p.Close(0);
  }

  /** exec.c:246-248: stdin, stdout and stderr all refer to the file open
      on descriptor 0 (those below the limit). */
  method ShareConsole(p: Process)
    requires p.Valid() && 0 in p.fds
    modifies p
    ensures p.Valid() && p.files == old(p.files) && p.writes == old(p.writes)
    ensures forall k :: 0 <= k <= STDERR && k < p.limit ==> k in p.fds && p.fds[k] == old(p.fds)[0]
    ensures forall k :: k > STDERR ==> SameAt(p.fds, old(p.fds), k)
  {
    var copied := p.Dup2(0, 0);
    copied := p.Dup2(0, STDOUT);
    copied := p.Dup2(0, STDERR);
  }

  /** The child of run_getty() (exec.c:229-283): it exits 1 when the
      console cannot be opened on descriptor 0, and otherwise runs the
      supervisor loop; when the loop ends at shutdown it closes the
      console and exits 0. */
  method GettyChild(p: Process, g: Getty, openOk: bool, ms: seq<bool>, input: seq<Option<char>>, execs: seq<bool>)
    returns (r: Run)
    requires p.Valid()
    modifies p
    ensures p.Valid()
    ensures g.console && !(openOk && p.limit > 0) ==> r == Run(Exit(1), [])
    ensures !(g.console && !(openOk && p.limit > 0)) ==> r == Loop(g, ms, 0, input, 0, execs, 0)
    ensures g.console && r.end == Exit(0) ==> 0 !in p.fds
  {
    var fd := 0;
    if g.console {
      fd := AttachConsole(p, openOk);
      if fd != 0 {
        return Run(Exit(1), []);
      }
    }
    r := Supervise(g, ms, input, execs);
    if g.console && r.end == Exit(0) {
      var _ := p.Close(fd);
    }
  }

  /** run_getty() in the parent: fork's answer, the child's pid or -1
      (exec.c:227, 285). */
  method RunGetty(fork: ForkReply) returns (pid: int)
    ensures pid == -1 <==> fork.ForkFailed?
    ensures fork.Forked? ==> pid == fork.pid
  {
    pid := PidOf(fork);
  }

  // ---------------------------------------------------------------------
  // How the loop ends.

  /** The child leaves the loop only by exit(0), and exactly when its last
      step saw the shutdown marker. */
  lemma {:induction false} LoopExits(g: Getty, ms: seq<bool>, mi: nat, input: seq<Option<char>>, ii: nat,
                                     execs: seq<bool>, ei: nat)
    requires ii <= |input|
    ensures ExitsAtEnd(Loop(g, ms, mi, input, ii, execs, ei))
    decreases |ms| - mi
  {
    if mi < |ms| && !ms[mi] && mi + 1 < |ms| {
      if ms[mi + 1] {
        LoopExits(g, ms, mi + 2, input, ii, execs, ei);
        ThenKeeps([Check(Shutdown, false), Check(Stopped, true), Pause], Loop(g, ms, mi + 2, input, ii, execs, ei));
      } else {
        var line := if g.console then ReadLine(input, ii) else Line(ii, []);
        ReadLineReads(input, ii);
        OpeningSteps(g, line);
        var o := Opening(g, line);
        if mi + 2 == |ms| {
          ThenKeeps(o, Run(Pending, []));
        } else if ms[mi + 2] {
          LoopExits(g, ms, mi + 3, input, line.next, execs, ei);
          ThenKeeps([Check(Stopped, true)], Loop(g, ms, mi + 3, input, line.next, execs, ei));
          ThenKeeps(o, Then([Check(Stopped, true)], Loop(g, ms, mi + 3, input, line.next, execs, ei)));
          AppendAssoc(o, [Check(Stopped, true)], Loop(g, ms, mi + 3, input, line.next, execs, ei).steps);
        } else if ei >= |execs| {
          ThenKeeps(o, Run(Pending, [Check(Stopped, false)]));
        } else if execs[ei] {
          ThenKeeps(o, Run(Replaced, [Check(Stopped, false), Exec(g.cmd, g.argv, true)]));
        } else {
          var tail := [Check(Stopped, false), Exec(g.cmd, g.argv, false)];
          LoopExits(g, ms, mi + 3, input, line.next, execs, ei + 1);
          ThenKeeps(tail, Loop(g, ms, mi + 3, input, line.next, execs, ei + 1));
          ThenKeeps(o, Then(tail, Loop(g, ms, mi + 3, input, line.next, execs, ei + 1)));
          AppendAssoc(o, tail, Loop(g, ms, mi + 3, input, line.next, execs, ei + 1).steps);
        }
      }
    }
  }

  /** The child's image is replaced exactly when its last step is an
      execv that succeeded. */
  lemma {:induction false} LoopReplaced(g: Getty, ms: seq<bool>, mi: nat, input: seq<Option<char>>, ii: nat,
                                     execs: seq<bool>, ei: nat)
    requires ii <= |input|
    ensures ReplacedAtEnd(Loop(g, ms, mi, input, ii, execs, ei))
    decreases |ms| - mi
  {
    if mi < |ms| && !ms[mi] && mi + 1 < |ms| {
      if ms[mi + 1] {
        LoopReplaced(g, ms, mi + 2, input, ii, execs, ei);
        ThenKeeps([Check(Shutdown, false), Check(Stopped, true), Pause], Loop(g, ms, mi + 2, input, ii, execs, ei));
      } else {
        var line := if g.console then ReadLine(input, ii) else Line(ii, []);
        ReadLineReads(input, ii);
        OpeningSteps(g, line);
        var o := Opening(g, line);
        if mi + 2 == |ms| {
          ThenKeeps(o, Run(Pending, []));
        } else if ms[mi + 2] {
          LoopReplaced(g, ms, mi + 3, input, line.next, execs, ei);
          ThenKeeps([Check(Stopped, true)], Loop(g, ms, mi + 3, input, line.next, execs, ei));
          ThenKeeps(o, Then([Check(Stopped, true)], Loop(g, ms, mi + 3, input, line.next, execs, ei)));
          AppendAssoc(o, [Check(Stopped, true)], Loop(g, ms, mi + 3, input, line.next, execs, ei).steps);
        } else if ei >= |execs| {
          ThenKeeps(o, Run(Pending, [Check(Stopped, false)]));
        } else if execs[ei] {
          ThenKeeps(o, Run(Replaced, [Check(Stopped, false), Exec(g.cmd, g.argv, true)]));
        } else {
          var tail := [Check(Stopped, false), Exec(g.cmd, g.argv, false)];
          LoopReplaced(g, ms, mi + 3, input, line.next, execs, ei + 1);
          ThenKeeps(tail, Loop(g, ms, mi + 3, input, line.next, execs, ei + 1));
          ThenKeeps(o, Then(tail, Loop(g, ms, mi + 3, input, line.next, execs, ei + 1)));
          AppendAssoc(o, tail, Loop(g, ms, mi + 3, input, line.next, execs, ei + 1).steps);
        }
      }
    }
  }

  /** A run that exits does so with 0, exactly when its last step saw the
      shutdown marker. */
  predicate ExitsAtEnd(r: Run) {
    && (r.end.Exit? ==> r.end.code == 0)
    && (r.end == Exit(0) <==> |r.steps| > 0 && r.steps[|r.steps| - 1] == Check(Shutdown, true))
  }

  /** A run ends with its image replaced exactly when its last step is a
      successful execv. */
  predicate ReplacedAtEnd(r: Run) {
    r.end == Replaced <==> |r.steps| > 0 && r.steps[|r.steps| - 1].Exec? && r.steps[|r.steps| - 1].replaced
  }

  /** Steps none of which is final can be put in front of a run. */
  lemma ThenKeeps(pre: seq<Step>, r: Run)
    requires forall k :: 0 <= k < |pre| ==> !Final(pre[k])
    ensures ExitsAtEnd(r) ==> ExitsAtEnd(Then(pre, r))
    ensures ReplacedAtEnd(r) ==> ReplacedAtEnd(Then(pre, r))
  {
    var s := pre + r.steps;
    if |r.steps| > 0 {
      assert s[|s| - 1] == r.steps[|r.steps| - 1];
    } else {
      assert s == pre;
      if |pre| > 0 {
        assert !Final(pre[|pre| - 1]);
      }
    }
  }

  /** Nothing follows a shutdown marker seen or a successful execv. */
  lemma {:induction false} LoopFinalLast(g: Getty, ms: seq<bool>, mi: nat, input: seq<Option<char>>, ii: nat,
                                         execs: seq<bool>, ei: nat)
    requires ii <= |input|
    ensures FinalLast(Loop(g, ms, mi, input, ii, execs, ei).steps)
    decreases |ms| - mi
  {
    if mi < |ms| && !ms[mi] && mi + 1 < |ms| {
      var line := if g.console then ReadLine(input, ii) else Line(ii, []);
      ReadLineReads(input, ii);
      OpeningSteps(g, line);
      var o := Opening(g, line);
      if ms[mi + 1] {
        LoopFinalLast(g, ms, mi + 2, input, ii, execs, ei);
        FinalLastConcat([Check(Shutdown, false), Check(Stopped, true), Pause], Loop(g, ms, mi + 2, input, ii, execs, ei).steps);
      } else if mi + 2 == |ms| {
        FinalLastConcat(o, []);
        assert o + [] == o;
      } else {
        var tail := if ms[mi + 2] then [Check(Stopped, true)] else [Check(Stopped, false)];
        if ms[mi + 2] || ei >= |execs| {
          FinalLastConcat(o, tail);
        }
        if ms[mi + 2] {
          LoopFinalLast(g, ms, mi + 3, input, line.next, execs, ei);
          FinalLastConcat(o + tail, Loop(g, ms, mi + 3, input, line.next, execs, ei).steps);
        } else if ei < |execs| {
          var tail' := tail + [Exec(g.cmd, g.argv, execs[ei])];
          FinalLastConcat(o, tail');
          if !execs[ei] {
            LoopFinalLast(g, ms, mi + 3, input, line.next, execs, ei + 1);
            FinalLastConcat(o + tail', Loop(g, ms, mi + 3, input, line.next, execs, ei + 1).steps);
          }
        }
      }
    }
  }

  /** Only the last step can be final. */
  predicate FinalLast(s: seq<Step>) {
    forall k :: 0 <= k < |s| - 1 ==> !Final(s[k])
  }

  /** Steps none of which is final can be put in front. */
  lemma FinalLastConcat(a: seq<Step>, b: seq<Step>)
    requires forall k :: 0 <= k < |a| ==> !Final(a[k])
    requires FinalLast(b)
    ensures FinalLast(a + b)
  {
    forall k | 0 <= k < |a + b| - 1
      ensures !Final((a + b)[k])
    {
      if k >= |a| {
        assert (a + b)[k] == b[k - |a|];
      }
    }
  }

  /** A step after which the child does nothing more. */
  predicate Final(s: Step) {
    s == Check(Shutdown, true) || (s.Exec? && s.replaced)
  }

  /** The reads of a line are reads, and no step of an opening ends the
      child. */
  lemma OpeningSteps(g: Getty, line: Line)
    requires forall k :: 0 <= k < |line.steps| ==> line.steps[k].Read?
    ensures var o := Opening(g, line);
      |o| >= 2 && o[1] == Check(Stopped, false) && forall k :: 0 <= k < |o| ==> !Final(o[k]) && !o[k].Exec?
  {
  }

  /** ReadLine only reads. */
  lemma {:induction false} ReadLineReads(input: seq<Option<char>>, i: nat)
    requires i <= |input|
    ensures forall k :: 0 <= k < |ReadLine(input, i).steps| ==> ReadLine(input, i).steps[k].Read?
    decreases |input| - i
  {
    if i < |input| && input[i].Some? && input[i].value != '\n' {
      ReadLineReads(input, i + 1);
    }
  }

  /** The answer the read made `k` reads after answer `i` gets: the next
      one, or a failure once they have run out. */
  function Answer(input: seq<Option<char>>, i: nat, k: nat): Option<char> {
    if i + k < |input| then input[i + k] else None
  }

  /** `steps` are the reads of exec.c:270 from answer `i` on: at least one,
      each getting the next answer, all but the last a character other than
      a newline, and the last a failure or a newline. */
  predicate LineOfReads(input: seq<Option<char>>, i: nat, steps: seq<Step>) {
    && |steps| > 0
    && (forall k :: 0 <= k < |steps| ==> steps[k] == Read(Answer(input, i, k)))
    && (forall k :: 0 <= k < |steps| - 1 ==> steps[k].got.Some? && steps[k].got.value != '\n')
    && (steps[|steps| - 1].got.None? || steps[|steps| - 1].got.value == '\n')
  }

  /** ReadLine stops at the first read that fails or returns a newline,
      and consumes the answers it used. */
  lemma {:induction false} ReadLineStops(input: seq<Option<char>>, i: nat)
    requires i <= |input|
    ensures LineOfReads(input, i, ReadLine(input, i).steps)
    ensures ReadLine(input, i).next == if i + |ReadLine(input, i).steps| <= |input| then i + |ReadLine(input, i).steps| else |input|
    decreases |input| - i
  {
    if i < |input| && input[i].Some? && input[i].value != '\n' {
      ReadLineStops(input, i + 1);
      var rest := ReadLine(input, i + 1).steps;
      var st := ReadLine(input, i).steps;
      assert st == [Read(input[i])] + rest;
      forall k | 0 <= k < |st|
        ensures st[k] == Read(Answer(input, i, k))
      {
        if k > 0 {
          assert st[k] == rest[k - 1] && Answer(input, i, k) == Answer(input, i + 1, k - 1);
        }
      }
    }
  }

  // ---------------------------------------------------------------------
  // What the stopped marker guards.

  /** The index of the last fexist() check before step `k`, or -1. */
  function LastCheck(s: seq<Step>, k: int): (j: int)
    requires k <= |s|
    ensures j == -1 || 0 <= j < k
    decreases k
  {
    if k <= 0 then -1
    else if s[k - 1].Check? then k - 1
    else LastCheck(s, k - 1)
  }

  /** Step `j` is a check that found the stopped marker absent. */
  predicate NotStopped(s: seq<Step>, j: int) {
    0 <= j < |s| && s[j] == Check(Stopped, false)
  }

  /** Step `k` prompts or execs only right after the stopped marker was
      found absent; an execv also needs the check before that one, made
      before the prompt, to have found it absent. */
  predicate Guarded(s: seq<Step>, k: int)
    requires 0 <= k < |s|
  {
    && (s[k].Prompt? || s[k].Exec? ==> NotStopped(s, LastCheck(s, k)))
    && (s[k].Exec? ==> NotStopped(s, LastCheck(s, LastCheck(s, k))))
  }

  /** Every step is guarded. */
  predicate AllGuarded(s: seq<Step>) {
    forall k :: 0 <= k < |s| ==> Guarded(s, k)
  }

  /** The last check before `k` is `j` when no step in between checks. */
  lemma {:induction false} LastCheckSkip(s: seq<Step>, j: int, k: int)
    requires 0 <= j < k <= |s| && s[j].Check?
    requires forall i :: j < i < k ==> !s[i].Check?
    ensures LastCheck(s, k) == j
    decreases k
  {
    if k - 1 > j {
      LastCheckSkip(s, j, k - 1);
    }
  }

  /** Steps appended later do not change what came before. */
  lemma {:induction false} LastCheckPrefix(a: seq<Step>, b: seq<Step>, k: int)
    requires k <= |a|
    ensures LastCheck(a + b, k) == LastCheck(a, k)
    decreases k
  {
    if k > 0 {
      assert (a + b)[k - 1] == a[k - 1];
      LastCheckPrefix(a, b, k - 1);
    }
  }

  /** Steps put in front shift a check found after them. */
  lemma {:induction false} LastCheckShift(a: seq<Step>, b: seq<Step>, k: int)
    requires 0 <= k <= |b|
    ensures LastCheck(b, k) >= 0 ==> LastCheck(a + b, |a| + k) == |a| + LastCheck(b, k)
    decreases k
  {
    if k > 0 {
      assert (a + b)[|a| + k - 1] == b[k - 1];
      LastCheckShift(a, b, k - 1);
    }
  }

  /** A guarded step stays guarded with steps appended. */
  lemma GuardedPrefix(a: seq<Step>, b: seq<Step>, k: int)
    requires 0 <= k < |a| && Guarded(a, k)
    ensures Guarded(a + b, k)
  {
    assert (a + b)[k] == a[k];
    LastCheckPrefix(a, b, k);
    var j := LastCheck(a, k);
    if 0 <= j {
      assert (a + b)[j] == a[j];
      LastCheckPrefix(a, b, j);
      var i := LastCheck(a, j);
      if 0 <= i {
        assert (a + b)[i] == a[i];
      }
    }
  }

  /** A guarded step stays guarded with steps put in front. */
  lemma GuardedShift(a: seq<Step>, b: seq<Step>, k: int)
    requires 0 <= k < |b| && Guarded(b, k)
    ensures Guarded(a + b, |a| + k)
  {
    assert (a + b)[|a| + k] == b[k];
    if b[k].Prompt? || b[k].Exec? {
      var j := LastCheck(b, k);
      LastCheckShift(a, b, k);
      assert (a + b)[|a| + j] == b[j];
      if b[k].Exec? {
        var i := LastCheck(b, j);
        LastCheckShift(a, b, j);
        assert (a + b)[|a| + i] == b[i];
      }
    }
  }

  /** Guarded steps stay guarded with steps put before or after them. */
  lemma GuardedConcat(a: seq<Step>, b: seq<Step>)
    requires AllGuarded(a) && AllGuarded(b)
    ensures AllGuarded(a + b)
  {
    forall k | 0 <= k < |a + b|
      ensures Guarded(a + b, k)
    {
      if k < |a| {
        GuardedPrefix(a, b, k);
      } else {
        GuardedShift(a, b, k - |a|);
      }
    }
  }

  /** The steps of one round up to its second check of the stopped
      marker, and the execv when that check finds it absent, are
      guarded. */
  lemma RoundGuarded(g: Getty, line: Line, tail: seq<Step>)
    requires forall k :: 0 <= k < |line.steps| ==> line.steps[k].Read?
    requires tail == [] || tail == [Check(Stopped, true)] || tail == [Check(Stopped, false)]
          || (|tail| == 2 && tail[0] == Check(Stopped, false) && tail[1].Exec?)
    ensures AllGuarded(Opening(g, line) + tail)
  {
    var s := Opening(g, line) + tail;
    var o := Opening(g, line);
    forall k | 0 <= k < |s|
      ensures Guarded(s, k)
    {
      if s[k].Prompt? {
        assert g.console && k == 2;
        LastCheckSkip(s, 1, 2);
      } else if s[k].Exec? {
        assert k == |o| + 1 && s[k - 1] == Check(Stopped, false);
        LastCheckSkip(s, k - 1, k);
        forall i | 1 < i < k - 1
          ensures !s[i].Check?
        {
          assert s[i] == o[i];
        }
        LastCheckSkip(s, 1, k - 1);
      }
    }
  }

  /** Whatever the observations, the child prompts only after finding the
      stopped marker absent, and calls execv only when it found the marker
      absent both before and after the prompt: while the system is
      stopped it neither prompts nor execs. */
  lemma {:induction false} LoopGuarded(g: Getty, ms: seq<bool>, mi: nat, input: seq<Option<char>>, ii: nat,
                                       execs: seq<bool>, ei: nat)
    requires ii <= |input|
    ensures AllGuarded(Loop(g, ms, mi, input, ii, execs, ei).steps)
    decreases |ms| - mi
  {
    if mi < |ms| && !ms[mi] && mi + 1 < |ms| {
      if ms[mi + 1] {
        LoopGuarded(g, ms, mi + 2, input, ii, execs, ei);
        var pre := [Check(Shutdown, false), Check(Stopped, true), Pause];
        assert forall k :: 0 <= k < |pre| ==> !pre[k].Prompt? && !pre[k].Exec?;
        GuardedConcat(pre, Loop(g, ms, mi + 2, input, ii, execs, ei).steps);
      } else {
        var line := if g.console then ReadLine(input, ii) else Line(ii, []);
        ReadLineReads(input, ii);
        var o := Opening(g, line);
        if mi + 2 == |ms| {
          RoundGuarded(g, line, []);
          assert o + [] == o;
        } else if ms[mi + 2] {
          RoundGuarded(g, line, [Check(Stopped, true)]);
          LoopGuarded(g, ms, mi + 3, input, line.next, execs, ei);
          GuardedConcat(o + [Check(Stopped, true)], Loop(g, ms, mi + 3, input, line.next, execs, ei).steps);
        } else if ei >= |execs| {
          RoundGuarded(g, line, [Check(Stopped, false)]);
        } else {
          var tail := [Check(Stopped, false), Exec(g.cmd, g.argv, execs[ei])];
          RoundGuarded(g, line, tail);
          if !execs[ei] {
            LoopGuarded(g, ms, mi + 3, input, line.next, execs, ei + 1);
            GuardedConcat(o + tail, Loop(g, ms, mi + 3, input, line.next, execs, ei + 1).steps);
          }
        }
      }
    }
  }

  /** Only the console child prompts and reads. */
  lemma {:induction false} LoopConsoleOnly(g: Getty, ms: seq<bool>, mi: nat, input: seq<Option<char>>, ii: nat,
                                           execs: seq<bool>, ei: nat)
    requires ii <= |input| && !g.console
    ensures forall x :: x in Loop(g, ms, mi, input, ii, execs, ei).steps ==> !x.Prompt? && !x.Read?
    decreases |ms| - mi
  {
    if mi < |ms| && !ms[mi] && mi + 1 < |ms| {
      if ms[mi + 1] {
        LoopConsoleOnly(g, ms, mi + 2, input, ii, execs, ei);
      } else if mi + 2 < |ms| && (ms[mi + 2] || (ei < |execs| && !execs[ei])) {
        LoopConsoleOnly(g, ms, mi + 3, input, ii, execs, if ms[mi + 2] then ei else ei + 1);
      }
    }
  }
}
