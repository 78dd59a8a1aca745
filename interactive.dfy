/*
 * run_interactive() (exec.c:161-223): run a command with run() while its
 * output is captured in a temporary file, then show that output on stderr.
 *
 * Each step works on a Syscalls.Process, the descriptor table of the
 * process calling run_interactive() with its log of writes.
 */
module Interactive {
  import opened Tokenizer
  import opened Syscalls
  import opened Runner

  /** What the child of run() does with its standard output: `nullOk` when
      it could open /dev/null for its stdio (exec.c:119-126), `out` what it
      writes to standard output otherwise. */
  datatype ChildOutput = ChildOutput(nullOk: bool, out: string)

  /** Everything written to file `f`, in order. */
  function Contents(writes: seq<Write>, f: FileId): string {
    if writes == [] then []
    else
      var last := writes[|writes| - 1];
      Contents(writes[..|writes| - 1], f) + if last.file == f then last.data else []
  }

  /** The writes of `chunks` to file `f`, in order. */
  function WritesOf(f: FileId, chunks: seq<string>): (r: seq<Write>)
    ensures |r| == |chunks|
  {
    if chunks == [] then [] else WritesOf(f, chunks[..|chunks| - 1]) + [Write(f, chunks[|chunks| - 1])]
  }

  function Min(a: int, b: int): int { if a <= b then a else b }

  /** The chunks the loop of exec.c:213-216 writes to stderr from offset
      `pos` of the captured text with a buffer of `lineSize` bytes: fread
      takes up to `lineSize` bytes, fwrite(line, len, 1, stderr) writes
      them and returns its item count, 1, and the loop goes on only while
      that count equals the length. */
  function ReplayChunks(content: string, pos: nat, lineSize: nat): seq<string>
    requires pos <= |content| && lineSize > 0
    decreases |content| - pos
  {
    var len := Min(lineSize, |content| - pos);
    if len == 0 then []
    else [content[pos..pos + len]] + if len == 1 then ReplayChunks(content, pos + 1, lineSize) else []
  }

  /** The chunks, one after the other. */
  function Concat(chunks: seq<string>): string {
    if chunks == [] then [] else chunks[0] + Concat(chunks[1..])
  }

  /** What the replay loop shows: with a one-byte buffer all the captured
      text from `pos` on, with a bigger one only the first buffer-full of
      it, in at most one chunk. */
  lemma {:induction false} ReplayedText(content: string, pos: nat, lineSize: nat)
    requires pos <= |content| && lineSize > 0
    ensures Concat(ReplayChunks(content, pos, lineSize)) ==
              if lineSize == 1 then content[pos..] else content[pos..pos + Min(lineSize, |content| - pos)]
    ensures lineSize > 1 ==> |ReplayChunks(content, pos, lineSize)| <= 1
    decreases |content| - pos
  {
    var len := Min(lineSize, |content| - pos);
    var chunks := ReplayChunks(content, pos, lineSize);
    if len > 0 {
      var rest := if len == 1 then ReplayChunks(content, pos + 1, lineSize) else [];
      assert chunks == [content[pos..pos + len]] + rest;
      assert chunks[0] == content[pos..pos + len] && chunks[1..] == rest;
      if len == 1 {
        ReplayedText(content, pos + 1, lineSize);
        if lineSize == 1 {
          assert content[pos..] == content[pos..pos + 1] + content[pos + 1..];
        } else {
          assert pos + 1 == |content|;
        }
      } else {
        assert Concat(rest) == [];
        assert content[pos..pos + len] + [] == content[pos..pos + len];
      }
    }
  }


  /** Standard output and standard error are open. */
  predicate StdOpen(m: map<int, FileId>) {
    STDOUT in m && STDERR in m
  }

  /** After exec.c:184-187, with stdout and stderr open in `m0` before:
      the descriptors saved (those not -1) refer to the old stdout and
      stderr, and every other descriptor but stdout and stderr is as it
      was. */
  ghost predicate Saved(m0: map<int, FileId>, m: map<int, FileId>, o: int, e: int)
    requires StdOpen(m0)
  {
    && (o != -1 ==> 0 <= o && o in m && m[o] == m0[STDOUT])
    && (e != -1 ==> 0 <= e && e in m && m[e] == m0[STDERR])
    && forall k: int :: k != STDOUT && k != STDERR && (o < 0 || k != o) && (e < 0 || k != e) ==>
         SameAt(m, m0, k)
  }

  /** After exec.c:194-203, for saved descriptors other than stdout and
      stderr and open in `m1` before: stdout (stderr) refers to the file
      saved in `o` (`e`) and that copy is closed, or is as it was when it
      was not saved; every other descriptor is as it was. */
  ghost predicate Restored(m1: map<int, FileId>, m: map<int, FileId>, o: int, e: int) {
    && o != STDOUT && o != STDERR && e != STDOUT && e != STDERR && (o < 0 || o != e)
    && (o >= 0 ==> o in m1) && (e >= 0 ==> e in m1)
    ==>
    && (o >= 0 ==> STDOUT in m && m[STDOUT] == m1[o] && o !in m)
    && (o < 0 ==> SameAt(m, m1, STDOUT))
    && (e >= 0 ==> STDERR in m && m[STDERR] == m1[e] && e !in m)
    && (e < 0 ==> SameAt(m, m1, STDERR))
    && forall k: int :: k != STDOUT && k != STDERR && (o < 0 || k != o) && (e < 0 || k != e) ==>
         SameAt(m, m1, k)
  }

  /** What the replay loop writes: the chunks of `content`, to the file
      stderr refers to in `fds`; nothing when stderr is closed. */
  function ReplayWrites(fds: map<int, FileId>, content: string, lineSize: nat): seq<Write>
    requires lineSize > 0
  {
    if STDERR in fds then WritesOf(fds[STDERR], ReplayChunks(content, 0, lineSize)) else []
  }


  /** exec.c:212-216: rewinds the file open on `fp` and copies it to
      stderr through a buffer of `lineSize` bytes. Nothing is copied when
      stderr is closed: the first fwrite fails and ends the loop. */
  method Replay(p: Process, fp: nat, lineSize: nat)
    requires p.Valid() && fp in p.fds && lineSize > 0
    modifies p
    ensures p.Valid() && p.fds == old(p.fds) && p.files == old(p.files)
    ensures p.writes == old(p.writes) + ReplayWrites(old(p.fds), Contents(old(p.writes), old(p.fds)[fp]), lineSize)
  {
    var content := Contents(p.writes, p.fds[fp]);
    ghost var all := ReplayChunks(content, 0, lineSize);
    ghost var err := if STDERR in p.fds then p.fds[STDERR] else 0;
    ghost var done: seq<string> := [];
    var pos := 0;
    var go := true;
    while go
      invariant p.Valid() && p.fds == old(p.fds) && p.files == old(p.files) && pos <= |content|
      invariant p.writes == old(p.writes) + if STDERR in p.fds then WritesOf(err, done) else []
      invariant go ==> done + ReplayChunks(content, pos, lineSize) == all
      invariant !go && STDERR in p.fds ==> done == all
      decreases |content| - pos, go
    {
      ghost var line := content[pos..pos + Min(lineSize, |content| - pos)];
      ReplayAdvance(content, pos, lineSize, done, all);
      WritesOfSnoc(err, done, line);
      ghost var pos0 := pos;
      pos, go := ReplayPass(p, content, pos, lineSize);
      if pos > pos0 {
        done := done + [line];
      }
    }
  }

  /** One pass of the loop of exec.c:213-216 at offset `pos` of
      `content`: fread takes up to `lineSize` bytes and fwrite(line, len,
      1, stderr) writes them, returning 1 on success. Returns the new
      offset and whether the loop goes on: only when that 1 equals the
      length. */
  method ReplayPass(p: Process, content: string, pos: nat, lineSize: nat) returns (next: nat, go: bool)
    requires p.Valid() && pos <= |content| && lineSize > 0
    modifies p
    ensures p.Valid() && p.fds == old(p.fds) && p.files == old(p.files)
    ensures next == pos + Min(lineSize, |content| - pos) && next <= |content|
    ensures go <==> next == pos + 1 && STDERR in p.fds
    ensures p.writes == if next > pos && STDERR in p.fds
                      then old(p.writes) + [Write(p.fds[STDERR], content[pos..next])]
                      else old(p.writes)
  {
    var len := Min(lineSize, |content| - pos);
    var line := content[pos..pos + len];
    next := pos + len;
    var written := 0;
    if len > 0 {
      var ok := p.WriteTo(STDERR, line);
      if ok {
        written := 1;
      }
    }
    go := len > 0 && written == len;
  }

  /** exec.c:184-187: saves stdout and stderr with dup, then points both
      at the file open on `fp`. */
  method Redirect(p: Process, fp: nat) returns (oldout: int, olderr: int)
    requires p.Valid() && fp in p.fds && STDOUT < p.limit && STDERR < p.limit
    modifies p
    ensures p.Valid() && p.files == old(p.files) && p.writes == old(p.writes)
    ensures STDOUT in p.fds && p.fds[STDOUT] == old(p.fds)[fp] && STDERR in p.fds && p.fds[STDERR] == old(p.fds)[fp]
    ensures oldout == -1 || (0 <= oldout && oldout !in old(p.fds))
    ensures olderr == -1 || (0 <= olderr && olderr !in old(p.fds) && olderr != oldout)
    ensures forall k :: k in old(p.fds) ==> k in p.fds
    ensures StdOpen(old(p.fds)) ==> Saved(old(p.fds), p.fds, oldout, olderr)
  {
    oldout := p.Dup(STDOUT);
    olderr := p.Dup(STDERR);
    var _ := p.Dup2(fp, STDOUT);
    var _ := p.Dup2(fp, STDERR);
  }

  /** exec.c:194-203: each standard descriptor that was saved is pointed
      back at the saved file, and the saved descriptor closed. */
  method Restore(p: Process, oldout: int, olderr: int)
    requires p.Valid() && STDOUT < p.limit && STDERR < p.limit
    modifies p
    ensures p.Valid() && p.files == old(p.files) && p.writes == old(p.writes)
    ensures forall k :: k in old(p.fds) && k != oldout && k != olderr ==> k in p.fds
    ensures Restored(old(p.fds), p.fds, oldout, olderr)
  {
    if oldout >= 0 {
      var _ := p.Dup2(oldout, STDOUT);
      var _ := p.Close(oldout);
    }
    if olderr >= 0 {
      var _ := p.Dup2(olderr, STDERR);
      var _ := p.Close(olderr);
    }
  }

  /** exec.c:183-217 once the temporary file is open on `fp` (when
      `capture`): redirects stdout and stderr to it, runs the command,
      restores them and copies the file to stderr. The temporary file
      stays open. */
  method CaptureRun(p: Process, cmd: array<char>, capture: bool, fp: nat, lineSize: nat,
                    allocOk: bool, fork: ForkReply, wait: WaitReply, child: ChildOutput)
    returns (r: int, trace: seq<Event>, oldout: int, olderr: int)
    requires p.Valid() && lineSize > 0 && STDOUT < p.limit && STDERR < p.limit
    requires IsCString(cmd[..]) && (allocOk ==> Safe(Text(cmd[..])))
    requires capture ==> fp in p.fds
    modifies p
    ensures p.Valid() && p.files == old(p.files)
    ensures r == RunResult(allocOk, fork, wait) && trace == RunTrace(Text(cmd[..]), allocOk, fork)
    ensures !capture ==> p.fds == old(p.fds) && p.writes == old(p.writes) + ChildWrites(allocOk && fork.Forked?, child, old(p.fds))
    ensures capture && StdOpen(old(p.fds)) && fp != STDOUT && fp != STDERR ==>
              && fp in p.fds && p.fds[fp] == old(p.fds)[fp]
              && (forall k :: k != STDOUT && k != STDERR ==> SameAt(p.fds, old(p.fds), k))
              && (oldout != -1 ==> SameAt(p.fds, old(p.fds), STDOUT))
              && (olderr != -1 ==> SameAt(p.fds, old(p.fds), STDERR))
    ensures capture && StdOpen(old(p.fds)) && fp != STDOUT && fp != STDERR ==>
              var cw := ChildWrites(allocOk && fork.Forked?, child, old(p.fds)[STDOUT := old(p.fds)[fp]]);
              var err := if olderr != -1 then old(p.fds)[STDERR] else old(p.fds)[fp];
              p.writes == old(p.writes) + cw
                        + WritesOf(err, ReplayChunks(Contents(old(p.writes) + cw, old(p.fds)[fp]), 0, lineSize))
  {
    oldout, olderr := 1, 2;
    ghost var fdsT := p.fds;
    if capture {
      oldout, olderr := Redirect(p, fp);
    }
    ghost var fds1 := p.fds;
    r, trace := Run(cmd, allocOk, fork, wait);
    if allocOk && fork.Forked? && !child.nullOk {
      var _ := p.WriteTo(STDOUT, child.out);
    }
    if capture {
      Restore(p, oldout, olderr);
      ghost var cw := ChildWrites(allocOk && fork.Forked?, child, fds1);
      if StdOpen(fdsT) && fp != STDOUT && fp != STDERR {
        ChildWritesStdout(allocOk && fork.Forked?, child, fds1, fdsT[STDOUT := fdsT[fp]]);
        CaptureRoundTrip(fdsT, fds1, p.fds, fp, oldout, olderr);
      }
      ghost var writes1, fds2 := p.writes, p.fds;
      assert writes1 == old(p.writes) + cw;
      Replay(p, fp, lineSize);
      assert p.writes == writes1 + ReplayWrites(fds2, Contents(writes1, fds2[fp]), lineSize);
    }
  }

  /** run_interactive(cmd, fmt): `cmd` is None for a NULL command; the
      temporary file can be created when `tmpOk`; `allocOk`, `fork`,
      `wait` and `child` are what run(cmd) meets. Returns run()'s result,
      its trace, whether output was captured, the descriptor of the
      temporary file and the two saved descriptors. */
  method RunInteractive(p: Process, cmd: Option<array<char>>, debug: bool, tmpOk: bool, lineSize: nat,
                        allocOk: bool, fork: ForkReply, wait: WaitReply, child: ChildOutput)
    returns (r: int, trace: seq<Event>, capture: bool, fp: int, oldout: int, olderr: int)
    requires p.Valid() && lineSize > 0 && STDOUT < p.limit && STDERR < p.limit
    requires cmd.Some? ==> IsCString(cmd.value[..]) && (allocOk ==> Safe(Text(cmd.value[..])))
    modifies p
    ensures p.Valid()
    ensures cmd.None? ==> r == 1 && trace == [] && !capture
                          && p.fds == old(p.fds) && p.files == old(p.files) && p.writes == old(p.writes)
    ensures cmd.Some? ==> r == RunResult(allocOk, fork, wait)
                          && trace == RunTrace(Text(cmd.value[..]), allocOk, fork)
    ensures capture <==> cmd.Some? && fp != -1 && !debug
    ensures cmd.Some? ==> (fp != -1 <==> tmpOk && !Full(old(p.fds), p.limit))
    // With stdout and stderr open on entry: the temporary file and the
    // saved descriptors are closed again,
    ensures StdOpen(old(p.fds)) ==> forall k :: k != STDOUT && k != STDERR ==> SameAt(p.fds, old(p.fds), k)
    // a standard descriptor that could be saved is restored,
    ensures StdOpen(old(p.fds)) && (!capture || oldout != -1) ==> SameAt(p.fds, old(p.fds), STDOUT)
    ensures StdOpen(old(p.fds)) && (!capture || olderr != -1) ==> SameAt(p.fds, old(p.fds), STDERR)
    // without capture the child writes where stdout points,
    ensures StdOpen(old(p.fds)) && !capture ==>
              p.writes == old(p.writes) + ChildWrites(cmd.Some? && allocOk && fork.Forked?, child, old(p.fds))
    // with capture it writes to the temporary file, which is then copied
    // to stderr (still the temporary file when stderr was not saved).
    ensures StdOpen(old(p.fds)) && capture ==>
              var out := if allocOk && fork.Forked? && !child.nullOk then child.out else [];
              var err := if olderr != -1 then old(p.fds)[STDERR] else old(p.files);
              p.writes == old(p.writes) + ChildWrites(allocOk && fork.Forked?, child, old(p.fds)[STDOUT := old(p.files)])
                                    + WritesOf(err, ReplayChunks(out, 0, lineSize))
  {
    if cmd.None? {
      return 1, [], false, -1, 1, 2;
    }
    ghost var fds0, files0, writes0 := p.fds, p.files, p.writes;
    fp := p.Open(tmpOk);
    capture := fp != -1 && !debug;
    ghost var fdsT := p.fds;
    r, trace, oldout, olderr := CaptureRun(p, cmd.value, capture, if fp == -1 then 0 else fp, lineSize, allocOk, fork, wait, child);
    if capture && StdOpen(fds0) {
      var cw := ChildWrites(allocOk && fork.Forked?, child, fds0[STDOUT := files0]);
      ChildWritesStdout(allocOk && fork.Forked?, child, fds0[STDOUT := files0], fdsT[STDOUT := fdsT[fp]]);
      ContentsOfNew(writes0, cw, files0);
      ContentsOfChild(allocOk && fork.Forked?, child, fds0[STDOUT := files0], files0);
    }
    ghost var fds3 := p.fds;
    if fp != -1 {
      var _ := p.Close(fp);
      CloseTemp(fds0, fdsT, fds3, fp, capture, oldout, olderr);
    }
  }

  /** What the child of run() writes: its output goes to the file its
      standard output refers to, when it ran and could not open /dev/null. */
  function ChildWrites(ran: bool, child: ChildOutput, fds: map<int, FileId>): seq<Write> {
    if ran && !child.nullOk && STDOUT in fds then [Write(fds[STDOUT], child.out)] else []
  }

  /** One pass of the replay loop: a chunk of up to `lineSize` bytes, and
      the rest only when that chunk is one byte long. */
  lemma ReplayNext(content: string, pos: nat, lineSize: nat)
    requires pos <= |content| && lineSize > 0
    ensures var len := Min(lineSize, |content| - pos);
      ReplayChunks(content, pos, lineSize) ==
        if len == 0 then []
        else [content[pos..pos + len]] + if len == 1 then ReplayChunks(content, pos + len, lineSize) else []
  {
  }

  /** The chunks still to come after one pass of the replay loop. */
  lemma ReplayAdvance(content: string, pos: nat, lineSize: nat, done: seq<string>, all: seq<string>)
    requires pos <= |content| && lineSize > 0 && done + ReplayChunks(content, pos, lineSize) == all
    ensures var len := Min(lineSize, |content| - pos);
      && (len == 0 ==> done == all)
      && (len > 1 ==> done + [content[pos..pos + len]] == all)
      && (len == 1 ==> (done + [content[pos..pos + len]]) + ReplayChunks(content, pos + len, lineSize) == all)
  {
    ReplayNext(content, pos, lineSize);
    var len := Min(lineSize, |content| - pos);
    if len == 0 {
      assert done + [] == done;
    } else if len == 1 {
      AppendAssoc(done, [content[pos..pos + len]], ReplayChunks(content, pos + len, lineSize));
    } else {
      assert [content[pos..pos + len]] + [] == [content[pos..pos + len]];
    }
  }

  /** With stdout and stderr open and the temporary file on `fp`:
      redirecting and restoring leave every descriptor as it was except a
      standard one that could not be saved, which still refers to the
      temporary file. */
  lemma CaptureRoundTrip(mt: map<int, FileId>, m1: map<int, FileId>, m2: map<int, FileId>,
                         fp: nat, o: int, e: int)
    requires StdOpen(mt) && fp in mt && fp != STDOUT && fp != STDERR
    requires o == -1 || (0 <= o && o !in mt)
    requires e == -1 || (0 <= e && e !in mt && e != o)
    requires Saved(mt, m1, o, e) && STDOUT in m1 && m1[STDOUT] == mt[fp] && STDERR in m1 && m1[STDERR] == mt[fp]
    requires Restored(m1, m2, o, e)
    ensures fp in m2 && m2[fp] == mt[fp]
    ensures STDERR in m2 && m2[STDERR] == if e != -1 then mt[STDERR] else mt[fp]
    ensures forall k :: k != STDOUT && k != STDERR ==> SameAt(m2, mt, k)
    ensures o != -1 ==> SameAt(m2, mt, STDOUT)
    ensures e != -1 ==> SameAt(m2, mt, STDERR)
  {
    assert SameAt(m2, m1, fp) && SameAt(m1, mt, fp);
    forall k | k != STDOUT && k != STDERR
      ensures SameAt(m2, mt, k)
    {
      if (o < 0 || k != o) && (e < 0 || k != e) {
        assert SameAt(m2, m1, k) && SameAt(m1, mt, k);
      }
    }
  }

  /** Closing the temporary file, which was opened on the free descriptor
      `fp`, gives back the descriptors that were open before it. */
  lemma CloseTemp(m0: map<int, FileId>, mt: map<int, FileId>, m3: map<int, FileId>,
                  fp: nat, capture: bool, o: int, e: int)
    requires fp !in m0 && fp in mt && mt == m0[fp := mt[fp]]
    requires !capture ==> m3 == mt
    requires capture && StdOpen(m0) ==> forall k :: k != STDOUT && k != STDERR ==> SameAt(m3, mt, k)
    requires capture && StdOpen(m0) && o != -1 ==> SameAt(m3, mt, STDOUT)
    requires capture && StdOpen(m0) && e != -1 ==> SameAt(m3, mt, STDERR)
    ensures StdOpen(m0) ==> forall k :: k != STDOUT && k != STDERR ==> SameAt(m3 - {fp}, m0, k)
    ensures StdOpen(m0) && (!capture || o != -1) ==> SameAt(m3 - {fp}, m0, STDOUT)
    ensures StdOpen(m0) && (!capture || e != -1) ==> SameAt(m3 - {fp}, m0, STDERR)
  {
    if StdOpen(m0) {
      forall k | k != STDOUT && k != STDERR
        ensures SameAt(m3 - {fp}, m0, k)
      {
        if k != fp {
          assert SameAt(m3, mt, k);
        }
      }
    }
  }

  /** Where the child's output goes depends only on stdout. */
  lemma ChildWritesStdout(ran: bool, child: ChildOutput, m: map<int, FileId>, m': map<int, FileId>)
    requires STDOUT in m && STDOUT in m' && m[STDOUT] == m'[STDOUT]
    ensures ChildWrites(ran, child, m) == ChildWrites(ran, child, m')
  {
  }

  /** With stdout on file `f`, the child's output is all `f` gets. */
  lemma ContentsOfChild(ran: bool, child: ChildOutput, fds: map<int, FileId>, f: FileId)
    requires STDOUT in fds && fds[STDOUT] == f
    ensures Contents(ChildWrites(ran, child, fds), f) == if ran && !child.nullOk then child.out else []
  {
    if ran && !child.nullOk {
      assert Contents([Write(f, child.out)], f) == Contents([], f) + child.out;
    }
  }

  lemma WritesOfSnoc(f: FileId, chunks: seq<string>, c: string)
    ensures WritesOf(f, chunks + [c]) == WritesOf(f, chunks) + [Write(f, c)]
  {
    assert (chunks + [c])[..|chunks|] == chunks;
  }

  /** A file no earlier write went to holds just what is written to it
      afterwards. */
  lemma {:induction false} ContentsOfNew(before: seq<Write>, after: seq<Write>, f: FileId)
    requires forall k :: 0 <= k < |before| ==> before[k].file < f
    ensures Contents(before + after, f) == Contents(after, f)
    decreases |after|
  {
    if after == [] {
      assert before + after == before;
      ContentsNone(before, f);
    } else {
      var w := before + after;
      assert w[..|w| - 1] == before + after[..|after| - 1];
      ContentsOfNew(before, after[..|after| - 1], f);
    }
  }

  /** A file no write went to is empty. */
  lemma {:induction false} ContentsNone(ws: seq<Write>, f: FileId)
    requires forall k :: 0 <= k < |ws| ==> ws[k].file < f
    ensures Contents(ws, f) == []
  {
    if ws != [] {
      ContentsNone(ws[..|ws| - 1], f);
    }
  }
}
