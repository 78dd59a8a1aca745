/*
 * run_parts() (exec.c:289-348): run every executable entry of a directory,
 * one at a time and in the order scandir() returns them (sorted by
 * alphasort), with the SysV start/stop argument or a forced one.
 *
 * The listing scandir() returns, what fmode() says of each entry and what
 * fork() and waitpid() answer are parameters; the calls run_parts() makes
 * are returned as a trace of Events.
 */
module Parts {
  import opened Tokenizer
  import opened Syscalls

  /** A directory entry as run_parts() sees it: its name, and whether the
      mode fmode() reports for its path is executable (S_ISEXEC) and a
      directory (S_ISDIR). */
  datatype Entry = Entry(name: string, exec: bool, dir: bool)

  /** The path snprintf builds for an entry (exec.c:308). */
  function Path(dir: string, name: string): string {
    dir + "/" + name
  }

  /** exec.c:309-313: only executables that are not directories are run;
      "." and "..", being directories, never are. */
  predicate Runnable(e: Entry) {
    e.exec && !e.dir
  }

  /** isdigit() in the C locale. */
  predicate IsDigit(c: char) {
    '0' <= c <= '9'
  }

  /** The argument run_parts() passes to an entry when the caller gave
      none: "start" for a name `S<digit>...`, "stop" for `K<digit>...`
      (exec.c:319-325). A one-letter name has the terminator as its second
      character, which is no digit. */
  function StartStop(name: string): Option<string> {
    if |name| >= 2 && name[0] == 'S' && IsDigit(name[1]) then Some("start")
    else if |name| >= 2 && name[0] == 'K' && IsDigit(name[1]) then Some("stop")
    else None
  }

  /** The argument vector of an entry: its path, then the forced argument
      `cmd`, or else the start/stop argument its name calls for. */
  function Argv(path: string, name: string, cmd: Option<string>): seq<string> {
    match cmd
    case Some(arg) => [path, arg]
    case None =>
      match StartStop(name)
      case Some(arg) => [path, arg]
      case None => [path]
  }

  /** The strings of a NULL-free prefix of an argument array. */
  function Strings(args: seq<Option<string>>): seq<string>
    requires forall k :: 0 <= k < |args| ==> args[k].Some?
  {
    seq(|args|, k requires 0 <= k < |args| && args[k].Some? => args[k].value)
  }

  /** exec.c:315-330: fills args[] for an entry and terminates it with
      NULL. */
  method BuildArgs(path: string, name: string, cmd: Option<string>) returns (args: array<Option<string>>, n: nat)
    ensures fresh(args) && args.Length == NUM_ARGS && n < NUM_ARGS
    ensures args[n] == None
    ensures forall k :: 0 <= k < n ==> args[k].Some?
    ensures Strings(args[..n]) == Argv(path, name, cmd)
  {
    args := new Option<string>[NUM_ARGS](_ => None);
    var j := 0;
    args[j] := Some(path);
    j := j + 1;
    if cmd.None? {
      if |name| >= 2 && name[0] == 'S' && IsDigit(name[1]) {
        args[j] := Some("start");
        j := j + 1;
      } else if |name| >= 2 && name[0] == 'K' && IsDigit(name[1]) {
        args[j] := Some("stop");
        j := j + 1;
      }
    } else {
      args[j] := cmd;
      j := j + 1;
    }
    args[j] := None;
    n := j;
  }

  /** The child forked for an entry: it execs the path with execv (no PATH
      search), keeps the stdio of init, and exits 0 when the exec fails
      (exec.c:332-338). */
  function PartImage(dir: string, e: Entry, cmd: Option<string>): Image {
    Image(Path(dir, e.name), Argv(Path(dir, e.name), e.name, cmd), false, Inherited, 0)
  }

  /** What run_parts() asks of the kernel for one entry: nothing when it is
      skipped; otherwise a fork and then a waitpid on the pid fork
      returned, which is -1 when the fork failed (exec.c:332-340). */
  function EntryTrace(dir: string, e: Entry, cmd: Option<string>, fork: ForkReply): seq<Event> {
    if Runnable(e) then [Fork(PartImage(dir, e, cmd), fork), Wait(PidOf(fork))] else []
  }

  /** The calls for the entries `es`, in order; `forks[i]` is what fork()
      answers when entry i is run. */
  function PartsTrace(dir: string, es: seq<Entry>, cmd: Option<string>, forks: seq<ForkReply>): seq<Event>
    requires |forks| == |es|
  {
    if es == [] then []
    else PartsTrace(dir, es[..|es| - 1], cmd, forks[..|es| - 1]) + EntryTrace(dir, es[|es| - 1], cmd, forks[|es| - 1])
  }

  /** exec.c:304-341: one pass of the loop, for entry `e`. The status
      complete() returns is not looked at. */
  method RunEntry(dir: string, e: Entry, cmd: Option<string>, fork: ForkReply, wait: WaitReply)
    returns (trace: seq<Event>)
    ensures trace == EntryTrace(dir, e, cmd, fork)
  {
    var path := dir + "/" + e.name;
    if !e.exec || e.dir {
      return [];
    }
    var args, n := BuildArgs(path, e.name, cmd);
    trace := [Fork(Image(path, Strings(args[..n]), false, Inherited, 0), fork)];
    var pid := PidOf(fork);
    var _, waited := Complete(pid, wait);
    trace := trace + waited;
  }

  /** run_parts(dir, cmd) with scandir's listing `listing` (None when
      scandir fails): -1 when the listing fails, 0 otherwise, whatever the
      scripts do. */
  method RunParts(dir: string, listing: Option<seq<Entry>>, cmd: Option<string>,
                  forks: seq<ForkReply>, waits: seq<WaitReply>) returns (r: int, trace: seq<Event>)
    requires listing.Some? ==> |forks| == |listing.value| && |waits| == |listing.value|
    ensures r == if listing.None? then -1 else 0
    ensures trace == if listing.None? then [] else PartsTrace(dir, listing.value, cmd, forks)
  {
    if listing.None? {
      return -1, [];
    }
    var es := listing.value;
    trace := [];
    var i := 0;
    while i < |es|
      invariant i <= |es|
      invariant trace == PartsTrace(dir, es[..i], cmd, forks[..i])
    {
      var t := RunEntry(dir, es[i], cmd, forks[i], waits[i]);
      assert es[..i + 1][..i] == es[..i] && forks[..i + 1][..i] == forks[..i];
      trace := trace + t;
      i := i + 1;
    }
    assert es[..i] == es && forks[..i] == forks;
    r := 0;
  }

  // ---------------------------------------------------------------------
  // Which entries are run, and how.

  /** The indices of the entries that are run, in listing order. */
  function Picked(es: seq<Entry>): seq<int> {
    if es == [] then []
    else Picked(es[..|es| - 1]) + if Runnable(es[|es| - 1]) then [|es| - 1] else []
  }

  /** `p` lists, in increasing order, exactly the indices of the runnable
      entries of `es`. */
  predicate RunnableIndices(es: seq<Entry>, p: seq<int>) {
    && (forall k :: 0 <= k < |p| ==> 0 <= p[k] < |es| && Runnable(es[p[k]]))
    && (forall a, b :: 0 <= a < b < |p| ==> p[a] < p[b])
    && (forall i :: 0 <= i < |es| && Runnable(es[i]) ==> i in p)
  }

  /** Entry `es[p[k]]` runs k-th: fork, then waitpid on what fork
      returned. */
  predicate RunsAt(dir: string, es: seq<Entry>, cmd: Option<string>, forks: seq<ForkReply>,
                   p: seq<int>, t: seq<Event>, k: int)
    requires |forks| == |es| && RunnableIndices(es, p) && |t| == 2 * |p| && 0 <= k < |p|
  {
    && t[2 * k] == Fork(PartImage(dir, es[p[k]], cmd), forks[p[k]])
    && t[2 * k + 1] == Wait(PidOf(forks[p[k]]))
  }

  /** Picked lists the runnable entries, in the order of the listing. */
  lemma {:induction false} PickedRunnable(es: seq<Entry>)
    ensures RunnableIndices(es, Picked(es))
  {
    if es != [] {
      var init := es[..|es| - 1];
      PickedRunnable(init);
      var p := Picked(es);
      forall k | 0 <= k < |Picked(init)|
        ensures es[Picked(init)[k]] == init[Picked(init)[k]]
      {
      }
      assert forall k :: 0 <= k < |Picked(init)| ==> p[k] == Picked(init)[k];
      forall i | 0 <= i < |es| && Runnable(es[i])
        ensures i in p
      {
        if i < |es| - 1 {
          assert init[i] == es[i];
          var k :| 0 <= k < |Picked(init)| && Picked(init)[k] == i;
          assert p[k] == i;
        } else {
          assert p[|p| - 1] == i;
        }
      }
    }
  }

  /** run_parts() forks the runnable entries one after the other, in
      listing order, and waits for each (on -1 when its fork failed)
      before the next; the exec'd image and the pid waited for come from
      that entry and its fork alone. */
  lemma {:induction false} PartsRunInOrder(dir: string, es: seq<Entry>, cmd: Option<string>, forks: seq<ForkReply>)
    requires |forks| == |es|
    ensures RunnableIndices(es, Picked(es))
    ensures |PartsTrace(dir, es, cmd, forks)| == 2 * |Picked(es)|
    ensures forall k :: 0 <= k < |Picked(es)| ==> RunsAt(dir, es, cmd, forks, Picked(es), PartsTrace(dir, es, cmd, forks), k)
  {
    PickedRunnable(es);
    if es != [] {
      var n := |es| - 1;
      var init, finit := es[..n], forks[..n];
      PartsRunInOrder(dir, init, cmd, finit);
      var t0 := PartsTrace(dir, init, cmd, finit);
      var t := PartsTrace(dir, es, cmd, forks);
      var p0, p := Picked(init), Picked(es);
      forall k | 0 <= k < |p|
        ensures RunsAt(dir, es, cmd, forks, p, t, k)
      {
        if k < |p0| {
          assert RunsAt(dir, init, cmd, finit, p0, t0, k);
          assert p[k] == p0[k] && es[p[k]] == init[p0[k]] && forks[p[k]] == finit[p0[k]];
          assert t[2 * k] == t0[2 * k] && t[2 * k + 1] == t0[2 * k + 1];
        } else {
          assert p[k] == n;
        }
      }
    }
  }

  /** The argument vector: the path first, then the forced argument, else
      "start" for `S<digit>...`, "stop" for `K<digit>...`, and nothing
      more for other names. */
  lemma ArgvShape(path: string, name: string, cmd: Option<string>)
    ensures var argv := Argv(path, name, cmd);
      && 1 <= |argv| <= 2 && argv[0] == path
      && (cmd.Some? ==> argv == [path, cmd.value])
      && (cmd.None? && |name| >= 2 && name[0] == 'S' && IsDigit(name[1]) ==> argv == [path, "start"])
      && (cmd.None? && |name| >= 2 && name[0] == 'K' && IsDigit(name[1]) ==> argv == [path, "stop"])
      && (|argv| == 1 <==> cmd.None? && !(|name| >= 2 && name[0] in "SK" && IsDigit(name[1])))
  {
  }

  /** The child forked for an entry execs the entry's full path, with no
      PATH search, passing that path as argv[0], keeps init's stdio, and
      exits 0 when the exec fails. */
  lemma PartExecsPath(dir: string, e: Entry, cmd: Option<string>)
    ensures var image := PartImage(dir, e, cmd);
      && image.path == dir + "/" + e.name && |image.argv| >= 1 && image.argv[0] == image.path
      && !image.search && image.stdio == Inherited && image.failExit == 0
  {
    ArgvShape(Path(dir, e.name), e.name, cmd);
  }

  /** Examples of argument vectors: a K<digit> script gets "stop", an
      S<digit> script "start", a name without the digit nothing, and a
      forced argument replaces the one the name calls for. */
  lemma StopScriptExample()
    ensures Argv("/etc/rc.d/K01third", "K01third", None) == ["/etc/rc.d/K01third", "stop"]
    ensures Argv("/etc/rc.d/S01first", "S01first", None) == ["/etc/rc.d/S01first", "start"]
    ensures Argv("/etc/rc.d/Sfirst", "Sfirst", None) == ["/etc/rc.d/Sfirst"]
    ensures Argv("/etc/rc.d/S01first", "S01first", Some("stop")) == ["/etc/rc.d/S01first", "stop"]
  {
  }
}
