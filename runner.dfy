/*
 * run() (exec.c:66-159): copy the command, split the copy into an argument
 * vector, fork a child that execs it with its standard descriptors on
 * /dev/null, wait for the child and turn its wait status into run()'s
 * result.
 *
 * The kernel's answers (whether strdup can allocate, what fork and waitpid
 * return) are parameters; what run() asks of the kernel is returned as a
 * trace of Events.
 */
module Runner {
  import opened Tokenizer
  import opened Syscalls

  /** A C string in an array: the text, then its terminator last. */
  predicate IsCString(a: seq<char>) {
    |a| > 0 && a[|a| - 1] == NUL && NoNul(a[..|a| - 1])
  }

  /** The text of a C string. */
  function Text(a: seq<char>): string
    requires |a| > 0
  {
    a[..|a| - 1]
  }

  /** A C string is its text followed by the terminator. */
  lemma TextThenNul(a: seq<char>)
    requires IsCString(a)
    ensures a == Text(a) + [NUL]
  {
    assert a == a[..|a| - 1] + [a[|a| - 1]];
  }

  /** exec.c:73: strdup(cmd); None when the allocation fails. The copy is a
      new array, so splitting it leaves the caller's string alone. */
  method Strdup(cmd: array<char>, ok: bool) returns (copy: Option<array<char>>)
    requires IsCString(cmd[..])
    ensures ok <==> copy.Some?
    ensures copy.Some? ==> fresh(copy.value) && copy.value[..] == cmd[..]
  {
    if !ok {
      return None;
    }
    var b := new char[cmd.Length](k requires 0 <= k < cmd.Length reads cmd => cmd[k]);
    return Some(b);
  }

  /** The C string at `p` in `b`, as execvp reads each argument. */
  method ReadString(b: array<char>, p: nat, ghost text: string) returns (t: string)
    requires HoldsAt(b[..], p, text) && NoNul(text)
    ensures t == text
  {
    var k := p;
    while b[k] != NUL
      invariant p <= k <= p + |text|
      invariant b[p..k] == text[..k - p]
      decreases p + |text| - k
    {
      assert b[..][k] == text[k - p];
      k := k + 1;
    }
    t := b[p..k];
  }

  /** The argument vector execvp receives: the strings at the first `n`
      pointers of `args`. */
  method ArgStrings(b: array<char>, args: array<Ptr>, n: nat, ghost s: string) returns (argv: seq<string>)
    requires NoNul(s) && Safe(s) && n == |Spans(s).value| <= args.Length
    requires forall k :: 0 <= k < n ==>
               args[k] == At(Spans(s).value[k].start) && HoldsAt(b[..], Spans(s).value[k].start, Tokens(s)[k])
    ensures argv == Tokens(s)
  {
    argv := [];
    var i := 0;
    while i < n
      invariant i <= n && argv == Tokens(s)[..i]
    {
      TokenNoNul(s, i);
      var t := ReadString(b, args[i].index, Tokens(s)[i]);
      PrefixSnoc(Tokens(s), i);
      argv := argv + [t];
      i := i + 1;
    }
  }

  /** A prefix one longer is the prefix and the next element. */
  lemma PrefixSnoc<T>(xs: seq<T>, i: nat)
    requires i < |xs|
    ensures xs[..i + 1] == xs[..i] + [xs[i]]
  {
  }

  /** A token of a line without NUL holds no NUL. */
  lemma TokenNoNul(s: string, k: nat)
    requires NoNul(s) && Safe(s) && k < |Spans(s).value|
    ensures NoNul(Tokens(s)[k])
  {
    TokenText(s, k);
    SliceNoNul(s, Spans(s).value[k].start, Spans(s).value[k].end);
  }

  lemma SliceNoNul(s: string, a: nat, e: nat)
    requires NoNul(s) && a <= e <= |s|
    ensures NoNul(s[a..e])
  {
    assert forall k :: 0 <= k < e - a ==> s[a..e][k] == s[a + k];
  }

  /** exec.c:145-154: the exit status, except that a child killed by a
      signal never reports 0. */
  function StatusResult(status: Status): (r: int)
    ensures 0 <= r < 0x100
  {
    var result := ExitStatus(status);
    if Exited(status) then result
    else if Signaled(status) && result == 0 then 1
    else result
  }

  /** run()'s result, from whether strdup could allocate, what fork
      returned and what waitpid did. */
  function RunResult(allocOk: bool, fork: ForkReply, wait: WaitReply): int {
    if !allocOk then 1
    else if fork.ForkFailed? then -1
    else if wait.Failed? then 1
    else StatusResult(Encode(wait.outcome))
  }

  /** The child run() forks: it execs the first token, searched for in
      PATH, with all the tokens, after trying to put its stdio on /dev/null,
      and exits 1 when the exec fails (exec.c:109-131). */
  function RunImage(s: string): Image
    requires Safe(s)
  {
    TokenCount(s);
    Image(Tokens(s)[0], Tokens(s), true, TryDevNull, 1)
  }

  /** What run() asks of the kernel: nothing when strdup fails; otherwise
      one fork, and one waitpid on the child only when fork succeeded. */
  function RunTrace(s: string, allocOk: bool, fork: ForkReply): seq<Event>
    requires allocOk ==> Safe(s)
  {
    if !allocOk then []
    else [Fork(RunImage(s), fork)] + if fork.ForkFailed? then [] else [Wait(fork.pid)]
  }

  /** run(cmd) for the C string in `cmd`. Its tokenizing has to have
      defined behaviour (see Tokenizer.Safe) whenever it happens. */
  method Run(cmd: array<char>, allocOk: bool, fork: ForkReply, wait: WaitReply) returns (r: int, trace: seq<Event>)
    requires IsCString(cmd[..]) && (allocOk ==> Safe(Text(cmd[..])))
    ensures r == RunResult(allocOk, fork, wait)
    ensures trace == RunTrace(Text(cmd[..]), allocOk, fork)
  {
    ghost var s := Text(cmd[..]);
    var backup := Strdup(cmd, allocOk);
    if backup.None? {
      return 1, [];
    }
    var b := backup.value;
    TextThenNul(cmd[..]);
    var args, n, tooLong := Tokenize(b, s);
    if tooLong {
      r, trace := 1, [];
    } else {
      var argv := ArgStrings(b, args, n, s);
      TokenCount(s);
      trace := [Fork(Image(argv[0], argv, true, TryDevNull, 1), fork)];
      if fork.ForkFailed? {
        r := -1;
      } else {
        var waited;
        r, waited := Reap(fork.pid, wait);
        trace := trace + waited;
      }
    }
  }

  /** exec.c:138-154: the parent waits for the child with complete() and
      maps the status to run()'s result. */
  method Reap(pid: int, wait: WaitReply) returns (r: int, trace: seq<Event>)
    ensures r == if wait.Failed? then 1 else StatusResult(Encode(wait.outcome))
    ensures trace == [Wait(pid)]
  {
    var status;
    status, trace := Complete(pid, wait);
    if status == -1 {
      r := 1;
    } else {
      EncodeDecode(status);
      var result := ExitStatus(status);
      if !Exited(status) && Signaled(status) && result == 0 {
        result := 1;
      }
      r := result;
    }
  }

  // ---------------------------------------------------------------------
  // What run() returns.

  /** A child that exits reports its exit code, 0 included. */
  lemma RunExitCode(pid: Pid, code: Byte)
    ensures RunResult(true, Forked(pid), Reaped(ExitedWith(code))) == code
  {
    DecodeEncode(ExitedWith(code));
  }

  /** A child killed by a signal gives 1, never 0: its exit status bits are
      0 in the Linux encoding. */
  lemma RunKilled(pid: Pid, signal: Signal, core: bool)
    ensures RunResult(true, Forked(pid), Reaped(KilledBy(signal, core))) == 1
  {
    DecodeEncode(KilledBy(signal, core));
  }

  /** Whatever status waitpid stores, one with a terminating signal never
      gives 0. */
  lemma SignaledNotZero(status: Status)
    requires Signaled(status)
    ensures StatusResult(status) != 0
  {
  }

  /** 0 means exactly that the child ran and exited with 0. */
  lemma RunZero(allocOk: bool, fork: ForkReply, wait: WaitReply)
    ensures RunResult(allocOk, fork, wait) == 0 <==>
              allocOk && fork.Forked? && wait == Reaped(ExitedWith(0))
  {
    if allocOk && fork.Forked? && wait.Reaped? {
      DecodeEncode(wait.outcome);
    }
  }

  /** The failures of run() itself: 1 when strdup fails or waitpid fails,
      -1 (and no waitpid) when fork fails. */
  lemma RunFailures(s: string, fork: ForkReply, wait: WaitReply, pid: Pid, errno: int)
    requires Safe(s)
    ensures RunResult(false, fork, wait) == 1 && RunTrace(s, false, fork) == []
    ensures RunResult(true, ForkFailed, wait) == -1
    ensures forall e :: e in RunTrace(s, true, ForkFailed) ==> !e.Wait?
    ensures RunResult(true, Forked(pid), Failed(errno)) == 1
  {
  }

  /** The result is -1, or an exit status 0-255. */
  lemma RunRange(allocOk: bool, fork: ForkReply, wait: WaitReply)
    ensures -1 <= RunResult(allocOk, fork, wait) < 0x100
    ensures RunResult(allocOk, fork, wait) == -1 <==> allocOk && fork.ForkFailed?
  {
  }

  /** The child execs exactly the tokens of the command, its first token
      looked up in PATH by execvp, after trying to put its stdio on
      /dev/null, and exits 1 when the exec fails. */
  lemma RunExecsTokens(s: string, fork: ForkReply)
    requires Safe(s)
    ensures var t := RunTrace(s, true, fork);
      && t[0].Fork? && t[0].child.argv == Tokens(s) && t[0].child.path == Tokens(s)[0]
      && |t[0].child.argv| <= NUM_ARGS
      && t[0].child.search && t[0].child.stdio == TryDevNull && t[0].child.failExit == 1
  {
    TokenCount(s);
  }
}
