/*
 * The boundary between exec.c and the kernel: wait statuses, what fork and
 * waitpid answer, the record of the calls made, and complete()
 * (exec.c:47-64).
 *
 * A wait status is the int waitpid stores, read with the macros of
 * <sys/wait.h> (POSIX.1-2017, XSH wait()) in the Linux encoding: the low
 * seven bits hold the terminating signal (0 when the child exited, 0x7f for
 * a stopped child), bit 7 the core-dump flag and bits 8-15 the exit status.
 *
 * A process is a descriptor table (descriptor -> open file) with the
 * kernel's rules for dup, dup2, close and opening a file: a new descriptor
 * is the lowest one free, below the process's limit. What is written to
 * each file is kept as a log of writes.
 */
module Syscalls {

  /** A value the kernel may or may not supply. */
  datatype Option<T> = None | Some(value: T)

  /** A status waitpid can store: 16 bits. */
  type Status = s: int | 0 <= s < 0x1_0000

  type Byte = x: int | 0 <= x < 0x100

  /** A signal number that can terminate a process. */
  type Signal = x: int | 1 <= x < 0x7f witness 1

  /** WIFEXITED: the child ended through exit. */
  predicate Exited(s: Status) { s % 0x80 == 0 }

  /** WEXITSTATUS: bits 8-15. */
  function ExitStatus(s: Status): (r: Byte) { s / 0x100 }

  /** WIFSIGNALED: the low seven bits name a signal (0x7f marks a stop). */
  predicate Signaled(s: Status) { s % 0x80 != 0 && s % 0x80 != 0x7f }

  /** WTERMSIG: the low seven bits. */
  function TermSig(s: Status): int { s % 0x80 }

  /** How a child ended, as waitpid without options reports it (stopped and
      continued children are only reported when asked for). */
  datatype Outcome = ExitedWith(code: Byte) | KilledBy(signal: Signal, core: bool)

  /** The status the kernel stores for an outcome. */
  function Encode(o: Outcome): Status {
    match o
    case ExitedWith(code) => code * 0x100
    case KilledBy(signal, core) => signal + if core then 0x80 else 0
  }

  /** The macros read an encoded outcome back. */
  lemma DecodeEncode(o: Outcome)
    ensures Exited(Encode(o)) <==> o.ExitedWith?
    ensures Signaled(Encode(o)) <==> o.KilledBy?
    ensures o.ExitedWith? ==> ExitStatus(Encode(o)) == o.code
    ensures o.KilledBy? ==> TermSig(Encode(o)) == o.signal && ExitStatus(Encode(o)) == 0
  {
    match o
    case ExitedWith(code) =>
      assert code * 0x100 == (code * 2) * 0x80;
    case KilledBy(signal, core) =>
  }

  /** A status waitpid without options can store: an exit status in bits
      8-15 and nothing else, or a signal with the core-dump flag and nothing
      else. */
  predicate Reportable(s: Status) {
    (Exited(s) && s % 0x100 == 0) || (Signaled(s) && s < 0x100)
  }

  /** The outcome a reportable status stands for. */
  function Decode(s: Status): (o: Outcome)
    requires Reportable(s)
  {
    if Exited(s) then ExitedWith(ExitStatus(s)) else KilledBy(TermSig(s), s >= 0x80)
  }

  /** Every reportable status is the encoding of exactly one outcome. */
  lemma EncodeDecode(s: Status)
    requires Reportable(s)
    ensures Encode(Decode(s)) == s
  {
    if Exited(s) {
      assert s == ExitStatus(s) * 0x100 + s % 0x100;
    }
  }

  /** A process id fork() can return to the parent. */
  type Pid = x: int | x > 0 witness 1

  /** What fork() returns to the parent: the child's pid, or -1. */
  datatype ForkReply = Forked(pid: Pid) | ForkFailed

  /** What waitpid() does: reap the child with its outcome, or fail with
      errno (EINTR, ECHILD, ...). */
  datatype WaitReply = Reaped(outcome: Outcome) | Failed(errno: int)

  /** How the forked child treats its standard descriptors before exec:
      it keeps them, or it tries to open /dev/null and, only when that
      succeeds, dup2s it onto stdin, stdout and stderr (exec.c:119-126).
      Whether the open succeeds is decided inside the child, after the
      fork, so the image records the attempt. */
  datatype Stdio = Inherited | TryDevNull

  /** The program a forked child runs: it execs `path` (through the PATH
      search of execvp when `search`) with `argv`, and exits with
      `failExit` when the exec fails. */
  datatype Image = Image(path: string, argv: seq<string>, search: bool, stdio: Stdio, failExit: int)

  /** A call made to the kernel, with the answer it got. */
  datatype Event =
    | Fork(child: Image, reply: ForkReply)
    | Wait(pid: int)

  /** The pid fork() returned, as exec.c stores it. */
  function PidOf(f: ForkReply): int {
    match f
    case Forked(pid) => pid
    case ForkFailed => -1
  }

  /** complete() (exec.c:48-64): one waitpid on `pid`; -1 when it fails,
      whatever the reason, and the stored status otherwise. */
  method Complete(pid: int, reply: WaitReply) returns (r: int, trace: seq<Event>)
    ensures trace == [Wait(pid)]
    ensures r == -1 <==> reply.Failed?
    ensures reply.Reaped? ==> 0 <= r < 0x1_0000 && Reportable(r) && Decode(r) == reply.outcome
  {
    trace := [Wait(pid)];
    match reply
    case Failed(_) =>
      r := -1;
    case Reaped(outcome) =>
      r := Encode(outcome);
      DecodeEncode(outcome);
  }

  /** Concatenation regroups: the traces of calls are built piece by
      piece. */
  lemma AppendAssoc<T>(a: seq<T>, b: seq<T>, c: seq<T>)
    ensures (a + b) + c == a + (b + c)
  {
  }

  // ---------------------------------------------------------------------
  // The descriptor table of a process.

  const STDOUT: nat := 1
  const STDERR: nat := 2

  /** An open file, as descriptors refer to it. */
  type FileId = int

  /** `data` was written to file `file`. */
  datatype Write = Write(file: FileId, data: string)

  /** Descriptor `fd` is open in both tables, on the same file, or in neither. */
  predicate SameAt(m: map<int, FileId>, m': map<int, FileId>, fd: int) {
    (fd in m <==> fd in m') && (fd in m ==> m[fd] == m'[fd])
  }

  /** Every descriptor below `limit` is in use. */
  predicate Full(m: map<int, FileId>, limit: nat) {
    forall k :: 0 <= k < limit ==> k in m
  }

  class Process {
    /** The descriptor table: each open descriptor and its file. */
    var fds: map<int, FileId>
    /** Descriptors are below this limit (RLIMIT_NOFILE). */
    const limit: nat
    /** The files opened so far are 0 .. files - 1. */
    var files: nat
    /** What has been written, to which file, in order. */
    var writes: seq<Write>

    predicate Valid()
      reads this
    {
      && (forall fd :: fd in fds ==> 0 <= fd < limit && 0 <= fds[fd] < files)
      && (forall k :: 0 <= k < |writes| ==> 0 <= writes[k].file < files)
    }

    /** A process with stdin, stdout and stderr open on its terminal. */
    constructor (limit: nat)
      requires limit > STDERR
      ensures Valid() && this.limit == limit
      ensures fds == map[0 := 0, STDOUT := 0, STDERR := 0] && files == 1 && writes == []
    {
      this.limit := limit;
      fds := map[0 := 0, STDOUT := 0, STDERR := 0];
      files := 1;
      writes := [];
    }

    /** The lowest descriptor not in use, or `limit` when all are. */
    method LowestFree() returns (fd: nat)
      ensures fd <= limit && (fd < limit ==> fd !in fds)
      ensures forall k :: 0 <= k < fd ==> k in fds
    {
      fd := 0;
      while fd < limit && fd in fds
        invariant fd <= limit
        invariant forall k :: 0 <= k < fd ==> k in fds
        decreases limit - fd
      {
        fd := fd + 1;
      }
    }

    /** dup(fd): the lowest free descriptor now refers to fd's file; -1
        when fd is not open or no descriptor is free. */
    method Dup(fd: nat) returns (r: int)
      requires Valid()
      modifies this
      ensures Valid() && files == old(files) && writes == old(writes)
      ensures r == -1 <==> fd !in old(fds) || Full(old(fds), limit)
      ensures r == -1 ==> fds == old(fds)
      ensures r != -1 ==> 0 <= r < limit && r !in old(fds) && (forall k :: 0 <= k < r ==> k in old(fds))
      ensures r != -1 ==> fds == old(fds)[r := old(fds)[fd]]
    {
      if fd !in fds {
        return -1;
      }
      var n := LowestFree();
      if n == limit {
        return -1;
      }
      fds := fds[n := fds[fd]];
      r := n;
    }

    /** dup2(from, to): `to` now refers to from's file, whatever it
        referred to before; -1 when `from` is not open or `to` is out of
        range. */
    method Dup2(from: nat, to: nat) returns (r: int)
      requires Valid()
      modifies this
      ensures Valid() && files == old(files) && writes == old(writes)
      ensures r == -1 <==> from !in old(fds) || to >= limit
      ensures r == -1 ==> fds == old(fds)
      ensures r != -1 ==> r == to && fds == old(fds)[to := old(fds)[from]]
    {
      if from !in fds || to >= limit {
        return -1;
      }
      if from != to {
        fds := fds[to := fds[from]];
      } else {
        assert fds[to := fds[from]] == fds;
      }
      r := to;
    }

    /** close(fd): -1 when fd is not open. */
    method Close(fd: nat) returns (r: int)
      requires Valid()
      modifies this
      ensures Valid() && files == old(files) && writes == old(writes)
      ensures r == -1 <==> fd !in old(fds)
      ensures fds == old(fds) - {fd}
    {
      if fd !in fds {
        return -1;
      }
      fds := fds - {fd};
      r := 0;
    }

    /** tempfile() or open(): opens a file, new to this process, on the
        lowest free descriptor; -1 when that fails (`ok` false) or no
        descriptor is free. */
    method Open(ok: bool) returns (fd: int)
      requires Valid()
      modifies this
      ensures Valid() && writes == old(writes)
      ensures fd == -1 <==> !ok || Full(old(fds), limit)
      ensures fd == -1 ==> fds == old(fds) && files == old(files)
      ensures fd != -1 ==> 0 <= fd < limit && fd !in old(fds) && (forall k :: 0 <= k < fd ==> k in old(fds))
      ensures fd != -1 ==> fds == old(fds)[fd := old(files)] && files == old(files) + 1
    {
      if !ok {
        return -1;
      }
      var n := LowestFree();
      if n == limit {
        return -1;
      }
      fds := fds[n := files];
      files := files + 1;
      fd := n;
    }

    /** write(fd, data): appends `data` to fd's file; false when fd is not
        open. */
    method WriteTo(fd: nat, data: string) returns (ok: bool)
      requires Valid()
      modifies this
      ensures Valid() && fds == old(fds) && files == old(files)
      ensures ok <==> fd in old(fds)
      ensures writes == if ok then old(writes) + [Write(old(fds)[fd], data)] else old(writes)
    {
      if fd !in fds {
        return false;
      }
      writes := writes + [Write(fds[fd], data)];
      ok := true;
    }
  }
}
