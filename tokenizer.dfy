/*
 * The command tokenizer of run() (exec.c:72-106).
 *
 * run() copies the command with strdup and splits the copy in place with
 * strsep on space and tab. Tokens after the first that start with a single
 * or double quote run to the next identical quote; both quotes stay in the
 * token and the one character after the closing quote is overwritten with
 * NUL. At most NUM_ARGS tokens are taken; the rest of the line is ignored.
 *
 * The specification works on the caller's text `s` (a C string, so it holds
 * no NUL) and describes each token as a Span of `s`; the methods work on the
 * copy, an array holding `s` followed by the terminator.
 */
module Tokenizer {
  import opened Syscalls

  /** Capacity of the argument vector, without its NULL terminator (exec.c:44). */
  const NUM_ARGS: nat := 16

  const NUL: char := '\0'

  /** The delimiters strsep is given: space and tab for an ordinary token,
      the opening quote character for a quoted one. */
  datatype Delims = Blank | Closing(quote: char)

  predicate In(c: char, d: Delims) {
    match d
    case Blank => c == ' ' || c == '\t'
    case Closing(q) => c == q
  }

  predicate IsQuote(c: char) { c == '\'' || c == '"' }

  /** The text of a C string holds no NUL. */
  predicate NoNul(s: string) {
    forall k :: 0 <= k < |s| ==> s[k] != NUL
  }

  /** The first index at or after `from` whose character is one of `delims`,
      or |s| when there is none: where strsep stops in the copy of `s`. */
  function Find(s: string, from: nat, delims: Delims): (e: nat)
    requires from <= |s|
    ensures from <= e <= |s|
    ensures e < |s| ==> In(s[e], delims)
    decreases |s| - from
  {
    if from == |s| || In(s[from], delims) then from else Find(s, from + 1, delims)
  }

  /** Nothing before the index Find returns is a delimiter. */
  lemma {:induction false} FindClear(s: string, from: nat, delims: Delims)
    requires from <= |s|
    ensures forall k :: from <= k < Find(s, from, delims) ==> !In(s[k], delims)
    decreases |s| - from
  {
    if from < |s| && !In(s[from], delims) {
      FindClear(s, from + 1, delims);
    }
  }

  /** Find returns the one index that is a delimiter (or the end) with no
      delimiter before it. */
  lemma {:induction false} FindFirst(s: string, from: nat, delims: Delims, e: nat)
    requires from <= e <= |s| && (e < |s| ==> In(s[e], delims))
    requires forall k :: from <= k < e ==> !In(s[k], delims)
    ensures Find(s, from, delims) == e
    decreases |s| - from
  {
    if from < e {
      FindFirst(s, from + 1, delims, e);
    }
  }

  /** A token is s[start..end]; the copy holds NUL at index `end`. */
  datatype Span = Span(start: nat, end: nat)

  /** An ordinary token runs from its start to the first space or tab. */
  predicate PlainSpan(s: string, sp: Span) {
    sp.start <= |s| && sp.end == Find(s, sp.start, Blank)
  }

  /** A quoted token runs from its opening quote to the next identical
      quote, both included. */
  predicate QuotedSpan(s: string, sp: Span) {
    && sp.start < |s| && IsQuote(s[sp.start])
    && sp.end == Find(s, sp.start + 1, Closing(s[sp.start])) + 1
    && sp.end <= |s|
  }

  /** A token after the first is quoted exactly when it starts with a quote. */
  predicate Shaped(s: string, sp: Span) {
    if sp.start < |s| && IsQuote(s[sp.start]) then QuotedSpan(s, sp) else PlainSpan(s, sp)
  }

  /** One strsep step with the cursor at `at`: the token it takes, and
      whether the cursor is left non-NULL, pointing just after the one
      character that ends the token. */
  datatype Step = Step(span: Span, more: bool)

  /** The first token (exec.c:78) is taken by strsep on space and tab; a
      later one (exec.c:82-93) is quoted when it starts with a quote. The
      step is None when it has no defined behaviour: a quote that is never
      closed leaves the cursor NULL, and exec.c:88 computes NULL - 1. */
  function Next(s: string, at: nat, first: bool): (r: Option<Step>)
    requires at <= |s|
    ensures r.Some? ==> r.value.span.start == at <= r.value.span.end <= |s|
    ensures r.Some? && !r.value.more ==> r.value.span.end == |s|
  {
    if !first && at < |s| && IsQuote(s[at]) then
      var j := Find(s, at + 1, Closing(s[at]));
      if j == |s| then None else Some(Step(Span(at, j + 1), true))
    else
      var e := Find(s, at, Blank);
      Some(Step(Span(at, e), e < |s|))
  }

  /** A step takes an ordinary token, or a quoted one exactly when it is
      not the first and starts with a quote. */
  lemma NextShaped(s: string, at: nat, first: bool)
    requires at <= |s| && Next(s, at, first).Some?
    ensures if first then PlainSpan(s, Next(s, at, first).value.span)
            else Shaped(s, Next(s, at, first).value.span)
  {
  }

  predicate InBounds(s: string, spans: seq<Span>) {
    forall k :: 0 <= k < |spans| ==> spans[k].start <= spans[k].end <= |s|
  }

  /** The tokens run() takes from cursor `at` when `count` tokens are
      already taken; None when that has no defined behaviour, which is also
      the case when a closing quote is the last character and the loop goes
      on: the cursor is then one past the copy and is read at exec.c:82. */
  function Scan(s: string, at: nat, count: nat): Option<seq<Span>>
    requires at <= |s| && count <= NUM_ARGS
    decreases NUM_ARGS - count
  {
    if count == NUM_ARGS then Some([])
    else
      var st := Next(s, at, count == 0);
      if st.None? then None
      else if !st.value.more || count + 1 == NUM_ARGS then Some([st.value.span])
      else if st.value.span.end == |s| then None
      else
        var rest := Scan(s, st.value.span.end + 1, count + 1);
        if rest.None? then None else Some([st.value.span] + rest.value)
  }

  /** A step that leaves the cursor after the text's end of a token, short
      of NUM_ARGS tokens, is followed by the tokens from there. */
  lemma ScanCons(s: string, at: nat, count: nat, span: Span)
    requires at <= |s| && count + 1 < NUM_ARGS && span.end < |s|
    requires Next(s, at, count == 0) == Some(Step(span, true))
    requires Scan(s, span.end + 1, count + 1).Some?
    ensures Scan(s, at, count) == Some([span] + Scan(s, span.end + 1, count + 1).value)
  {
  }

  /** A step that leaves the cursor NULL, or takes the last token room is
      left for, ends the tokens. */
  lemma ScanLast(s: string, at: nat, count: nat, st: Step)
    requires at <= |s| && count < NUM_ARGS
    requires Next(s, at, count == 0) == Some(st) && (!st.more || count + 1 == NUM_ARGS)
    ensures Scan(s, at, count) == Some([st.span])
  {
  }

  /** Token `k` after the cursor is the one a step from its start takes;
      another token follows exactly when that step leaves the cursor
      non-NULL and fewer than NUM_ARGS tokens are taken, and it starts right
      after the one character ending token `k`. */
  lemma {:induction false} ScanAt(s: string, at: nat, count: nat, k: nat)
    requires at <= |s| && count <= NUM_ARGS && Scan(s, at, count).Some?
    requires k < |Scan(s, at, count).value|
    ensures var r := Scan(s, at, count).value;
      && r[k].start <= |s|
      && var st := Next(s, r[k].start, count + k == 0);
      && st.Some? && st.value.span == r[k]
      && (k + 1 < |r| <==> st.value.more && count + k + 1 < NUM_ARGS)
      && (k + 1 < |r| ==> r[k + 1].start == r[k].end + 1 && r[k].end < |s|)
    decreases NUM_ARGS - count
  {
    if k > 0 {
      var st := Next(s, at, count == 0).value;
      ScanAt(s, st.span.end + 1, count + 1, k - 1);
    }
  }

  /** Scanning takes at least one token and never more than room is left
      for. */
  lemma {:induction false} ScanCount(s: string, at: nat, count: nat)
    requires at <= |s| && count <= NUM_ARGS && Scan(s, at, count).Some?
    ensures count + |Scan(s, at, count).value| <= NUM_ARGS
    ensures count < NUM_ARGS ==> |Scan(s, at, count).value| > 0
    decreases NUM_ARGS - count
  {
    if count < NUM_ARGS {
      var st := Next(s, at, count == 0).value;
      if st.more && count + 1 < NUM_ARGS {
        ScanCount(s, st.span.end + 1, count + 1);
      }
    }
  }

  /** The tokens of `s`, as spans. */
  function Spans(s: string): Option<seq<Span>> {
    Scan(s, 0, 0)
  }

  /** run() may be given `s`: tokenizing its copy has defined behaviour. */
  predicate Safe(s: string) { Spans(s).Some? }

  /** Token `k` of `s` is the one a step from its start takes; another
      token follows exactly when that step leaves the cursor non-NULL and
      fewer than NUM_ARGS tokens are taken, and it starts right after the
      one character ending token `k`. */
  lemma SpanAt(s: string, k: nat)
    requires Safe(s) && k < |Spans(s).value|
    ensures var r := Spans(s).value;
      && r[0].start == 0 && r[k].start <= |s|
      && var st := Next(s, r[k].start, k == 0);
      && st.Some? && st.value.span == r[k]
      && (k + 1 < |r| <==> st.value.more && k + 1 < NUM_ARGS)
      && (k + 1 < |r| ==> r[k + 1].start == r[k].end + 1 && r[k].end < |s|)
  {
    ScanAt(s, 0, 0, k);
  }

  /** The first token is ordinary; a later token is quoted exactly when it
      starts with a quote; fewer than NUM_ARGS tokens means the last one
      reaches the end of the text. */
  lemma SpanShape(s: string, k: nat)
    requires Safe(s) && k < |Spans(s).value|
    ensures var r := Spans(s).value;
      && r[k].start <= r[k].end <= |s|
      && (if k == 0 then PlainSpan(s, r[k]) else Shaped(s, r[k]))
      && (k + 1 == |r| < NUM_ARGS ==> r[k].end == |s|)
  {
    SpanAt(s, k);
    NextShaped(s, Spans(s).value[k].start, k == 0);
  }

  /** The text of a span of `s` (empty for one that is not inside `s`,
      which no token is). */
  function Slice(s: string, sp: Span): string {
    if sp.start <= sp.end <= |s| then s[sp.start..sp.end] else []
  }

  /** The text of each span. */
  function Texts(s: string, spans: seq<Span>): (r: seq<string>)
    ensures |r| == |spans|
  {
    if spans == [] then [] else [Slice(s, spans[0])] + Texts(s, spans[1..])
  }

  lemma {:induction false} TextAt(s: string, spans: seq<Span>, k: nat)
    requires k < |spans|
    ensures Texts(s, spans)[k] == Slice(s, spans[k])
  {
    if k > 0 {
      TextAt(s, spans[1..], k - 1);
    }
  }

  /** The argument vector run() hands to execvp, without its NULL. */
  function Tokens(s: string): seq<string>
    requires Safe(s)
  {
    Texts(s, Spans(s).value)
  }

  /** Token `k` is the text of span `k`. */
  lemma TokenText(s: string, k: nat)
    requires Safe(s) && k < |Spans(s).value|
    ensures Spans(s).value[k].start <= Spans(s).value[k].end <= |s|
    ensures Tokens(s)[k] == s[Spans(s).value[k].start..Spans(s).value[k].end]
  {
    SpanAt(s, k);
    TextAt(s, Spans(s).value, k);
  }

  /** There is at least one token and at most NUM_ARGS: text after the
      16th token is dropped. */
  lemma TokenCount(s: string)
    requires Safe(s)
    ensures 1 <= |Tokens(s)| <= NUM_ARGS
  {
    ScanCount(s, 0, 0);
  }

  // ---------------------------------------------------------------------
  // Reference definition: the pieces between separators.

  /** The pieces of s[at..] between spaces and tabs. Adjacent separators
      give an empty piece, and so does a separator at the end. */
  function SplitFrom(s: string, at: nat): (r: seq<string>)
    requires at <= |s|
    ensures |r| >= 1
    decreases |s| - at
  {
    var e := Find(s, at, Blank);
    [s[at..e]] + if e == |s| then [] else SplitFrom(s, e + 1)
  }

  /** The separators of s[at..], in order. */
  function SepsFrom(s: string, at: nat): (r: seq<char>)
    requires at <= |s|
    ensures forall k :: 0 <= k < |r| ==> In(r[k], Blank)
    decreases |s| - at
  {
    var e := Find(s, at, Blank);
    if e == |s| then [] else [s[e]] + SepsFrom(s, e + 1)
  }

  function Split(s: string): seq<string> { SplitFrom(s, 0) }

  function Separators(s: string): seq<char> { SepsFrom(s, 0) }

  /** Puts `pieces` back together with `seps` between them. */
  function Join(pieces: seq<string>, seps: seq<char>): string
    requires |pieces| == |seps| + 1
  {
    if seps == [] then pieces[0] else pieces[0] + [seps[0]] + Join(pieces[1..], seps[1..])
  }

  /** At most `n` elements of `xs`, from the front. */
  function Take<T>(xs: seq<T>, n: nat): (r: seq<T>)
    ensures |r| <= n
    ensures |xs| <= n ==> r == xs
  {
    if |xs| <= n then xs else xs[..n]
  }

  /** The character after index `i` is not a quote if s[i] is a space or tab. */
  predicate NoQuoteAfter(s: string, i: nat)
    requires i + 1 < |s|
  {
    In(s[i], Blank) ==> !IsQuote(s[i + 1])
  }

  /** No space or tab in `s` is followed by a quote character, so no piece
      after the first starts with one. */
  predicate NoQuoteAfterBlank(s: string) {
    forall i: nat :: i + 1 < |s| ==> NoQuoteAfter(s, i)
  }

  /** Splitting and joining with the same separators gives back the text. */
  lemma {:induction false} SplitJoin(s: string, at: nat)
    requires at <= |s|
    ensures |SplitFrom(s, at)| == |SepsFrom(s, at)| + 1
    ensures Join(SplitFrom(s, at), SepsFrom(s, at)) == s[at..]
    decreases |s| - at
  {
    var e := Find(s, at, Blank);
    if e < |s| {
      SplitJoin(s, e + 1);
      assert s[at..] == s[at..e] + [s[e]] + s[e + 1..];
    }
  }

  lemma TakeCons<T>(x: T, xs: seq<T>, n: nat)
    requires n >= 1
    ensures Take([x] + xs, n) == [x] + Take(xs, n - 1)
  {
    if |xs| + 1 > n {
      assert ([x] + xs)[..n] == [x] + xs[..n - 1];
    }
  }

  lemma TextsCons(s: string, x: Span, rest: seq<Span>)
    ensures Texts(s, [x] + rest) == [Slice(s, x)] + Texts(s, rest)
  {
    assert ([x] + rest)[1..] == rest;
  }

  /** The spans of the first `room` pieces of s[at..] between spaces and
      tabs. */
  function PieceSpans(s: string, at: nat, room: nat): seq<Span>
    requires at <= |s|
    decreases room
  {
    if room == 0 then []
    else
      var e := Find(s, at, Blank);
      if e == |s| || room == 1 then [Span(at, e)] else [Span(at, e)] + PieceSpans(s, e + 1, room - 1)
  }

  /** The texts of those spans are the first `room` pieces. */
  lemma {:induction false} PieceTexts(s: string, at: nat, room: nat)
    requires at <= |s|
    ensures Texts(s, PieceSpans(s, at, room)) == Take(SplitFrom(s, at), room)
    decreases room
  {
    if room > 0 {
      var e := Find(s, at, Blank);
      if e == |s| || room == 1 {
        PieceLast(s, at, room);
      } else {
        PieceMore(s, at, room);
        PieceTexts(s, e + 1, room - 1);
      }
    }
  }

  /** The last piece there is room for. */
  lemma PieceLast(s: string, at: nat, room: nat)
    requires at <= |s| && room > 0 && (Find(s, at, Blank) == |s| || room == 1)
    ensures Texts(s, PieceSpans(s, at, room)) == Take(SplitFrom(s, at), room)
  {
    var e := Find(s, at, Blank);
    var span := Span(at, e);
    assert PieceSpans(s, at, room) == [span];
    assert Texts(s, [span]) == [s[at..e]];
    if e < |s| {
      TakeCons(s[at..e], SplitFrom(s, e + 1), room);
    }
  }

  /** A piece with room left for more after it. */
  lemma PieceMore(s: string, at: nat, room: nat)
    requires at <= |s| && room > 1 && Find(s, at, Blank) < |s|
    ensures var e := Find(s, at, Blank);
      && Texts(s, PieceSpans(s, at, room)) == [s[at..e]] + Texts(s, PieceSpans(s, e + 1, room - 1))
      && Take(SplitFrom(s, at), room) == [s[at..e]] + Take(SplitFrom(s, e + 1), room - 1)
  {
    var e := Find(s, at, Blank);
    TextsCons(s, Span(at, e), PieceSpans(s, e + 1, room - 1));
    TakeCons(s[at..e], SplitFrom(s, e + 1), room);
  }

  /** A step that does not start at a quote (or takes the first token)
      takes the text up to the next space or tab. */
  lemma NextPlain(s: string, at: nat, first: bool)
    requires at <= |s| && (first || at == |s| || !IsQuote(s[at]))
    ensures Next(s, at, first) == Some(Step(Span(at, Find(s, at, Blank)), Find(s, at, Blank) < |s|))
  {
  }

  /** When no space or tab is followed by a quote, the tokens from the
      cursor on are the pieces between separators, as many as there is
      `room` left for. */
  lemma {:induction false} ScanPlain(s: string, at: nat, count: nat, room: nat)
    requires at <= |s| && count + room == NUM_ARGS && NoQuoteAfterBlank(s)
    requires count > 0 ==> 0 < at && In(s[at - 1], Blank)
    ensures Scan(s, at, count) == Some(PieceSpans(s, at, room))
    decreases room
  {
    if room > 0 {
      if count > 0 && at < |s| {
        assert NoQuoteAfter(s, at - 1);
      }
      NextPlain(s, at, count == 0);
      var e := Find(s, at, Blank);
      var span := Span(at, e);
      if e == |s| || room == 1 {
        ScanLast(s, at, count, Step(span, e < |s|));
      } else {
        ScanPlain(s, e + 1, count + 1, room - 1);
        ScanCons(s, at, count, span);
      }
    }
  }

  /** For a command with no quote at the head of a token after the first,
      run() passes exactly the pieces between spaces and tabs, dropping all
      after the 16th without an error; when there are at most 16 pieces,
      joining the tokens with the original separators gives the command back. */
  lemma PlainTokens(s: string)
    requires NoQuoteAfterBlank(s)
    ensures Safe(s)
    ensures Tokens(s) == Take(Split(s), NUM_ARGS)
    ensures |Split(s)| <= NUM_ARGS ==>
              |Tokens(s)| == |Separators(s)| + 1 && Join(Tokens(s), Separators(s)) == s
  {
    ScanPlain(s, 0, 0, NUM_ARGS);
    PieceTexts(s, 0, NUM_ARGS);
    SplitJoin(s, 0);
    assert s[0..] == s;
  }

  /** What a quoted token (after the first) looks like: it keeps both
      quotes, holds no other copy of its quote (spaces and tabs may appear),
      and the one character after the closing quote is consumed: the next
      token starts right after it. */
  lemma QuotedToken(s: string, k: nat)
    requires Safe(s) && 1 <= k < |Spans(s).value|
    requires Spans(s).value[k].start < |s| && IsQuote(s[Spans(s).value[k].start])
    ensures QuotedWord(Tokens(s)[k], s[Spans(s).value[k].start])
    ensures k + 1 < |Spans(s).value| ==> Spans(s).value[k + 1].start == Spans(s).value[k].end + 1
  {
    SpanShape(s, k);
    SpanAt(s, k);
    TokenText(s, k);
    var sp := Spans(s).value[k];
    var q := s[sp.start];
    var j := Find(s, sp.start + 1, Closing(q));
    FindClear(s, sp.start + 1, Closing(q));
    QuotedText(s, sp.start, j, q, Tokens(s)[k]);
  }

  /** `t` starts and ends with quote `q` and holds no other `q`. */
  predicate QuotedWord(t: string, q: char) {
    && |t| >= 2 && t[0] == q && t[|t| - 1] == q
    && forall m :: 0 < m < |t| - 1 ==> t[m] != q
  }

  lemma QuotedText(s: string, a: nat, j: nat, q: char, t: string)
    requires a < j < |s| && s[a] == q && In(s[j], Closing(q))
    requires forall m :: a < m < j ==> !In(s[m], Closing(q))
    requires t == s[a..j + 1]
    ensures QuotedWord(t, q)
  {
  }

  /** What an ordinary token looks like (the first token always is one):
      it holds no space or tab and ends at a separator or at the end. */
  lemma PlainToken(s: string, k: nat)
    requires Safe(s) && k < |Spans(s).value|
    requires k == 0 || !(Spans(s).value[k].start < |s| && IsQuote(s[Spans(s).value[k].start]))
    ensures forall m :: 0 <= m < |Tokens(s)[k]| ==> !In(Tokens(s)[k][m], Blank)
    ensures Spans(s).value[k].end <= |s|
    ensures Spans(s).value[k].end == |s| || In(s[Spans(s).value[k].end], Blank)
  {
    SpanShape(s, k);
    TokenText(s, k);
    var sp := Spans(s).value[k];
    FindClear(s, sp.start, Blank);
    PlainText(s, sp.start, sp.end, Tokens(s)[k]);
  }

  lemma PlainText(s: string, a: nat, e: nat, t: string)
    requires a <= e <= |s|
    requires forall m :: a <= m < e ==> !In(s[m], Blank)
    requires t == s[a..e]
    ensures forall m :: 0 <= m < |t| ==> !In(t[m], Blank)
  {
  }

  // ---------------------------------------------------------------------
  // The in-place implementation over the strdup copy.

  /** A char pointer: NULL, or an index into the copy. */
  datatype Ptr = Null | At(index: nat)

  /** The C string starting at `p` in `buf` is `text`. */
  predicate HoldsAt(buf: seq<char>, p: nat, text: string) {
    p + |text| < |buf| && buf[p..p + |text|] == text && buf[p + |text|] == NUL
  }

  /** strsep on the copy `b` of `s` with the cursor at `at`, the part from
      `at` on still untouched: it NULs the first delimiter and returns the
      cursor after it, or returns NULL when the terminator comes first. */
  method Strsep(b: array<char>, at: nat, delims: Delims, ghost s: string) returns (next: Ptr)
    requires b.Length == |s| + 1 && at <= |s| && NoNul(s) && !In(NUL, delims)
    requires b[|s|] == NUL && forall k :: at <= k < |s| ==> b[k] == s[k]
    modifies b
    ensures var e := Find(s, at, delims);
      if e == |s| then next == Null && b[..] == old(b[..])
      else next == At(e + 1) && b[..] == old(b[..])[e := NUL]
  {
    var k := at;
    while !In(b[k], delims) && b[k] != NUL
      invariant at <= k <= |s|
      invariant forall j :: at <= j < k ==> !In(s[j], delims)
      decreases |s| - k
    {
      k := k + 1;
    }
    FindFirst(s, at, delims, k);
    if b[k] == NUL {
      next := Null;
    } else {
      b[k] := NUL;
      next := At(k + 1);
    }
  }

  /** Writing after the end of a C string keeps it. */
  lemma UpdateKeepsString(buf: seq<char>, i: nat, c: char, p: nat, text: string)
    requires i < |buf| && HoldsAt(buf, p, text) && p + |text| < i
    ensures HoldsAt(buf[i := c], p, text)
  {
    assert buf[i := c][p..p + |text|] == buf[p..p + |text|];
  }

  /** Span `j + 1` starts one character after span `j` ends. */
  predicate Linked(sp: seq<Span>, j: nat)
    requires j + 1 < |sp|
  {
    sp[j + 1].start == sp[j].end + 1
  }

  /** Each span ends before the next one starts, one character apart. */
  predicate Chained(s: string, sp: seq<Span>) {
    && InBounds(s, sp)
    && forall j: nat :: j + 1 < |sp| ==> Linked(sp, j)
  }

  lemma SpansChained(s: string)
    requires Safe(s)
    ensures Chained(s, Spans(s).value)
  {
    var sp := Spans(s).value;
    forall k | 0 <= k < |sp| ensures sp[k].start <= sp[k].end <= |s| && (k + 1 < |sp| ==> Linked(sp, k)) {
      SpanAt(s, k);
    }
  }

  /** The copy after the first `i` tokens are cut out of it: `s` and its
      terminator, with a NUL at the end of each of those tokens. */
  ghost function Cut(s: string, sp: seq<Span>, i: nat): (r: seq<char>)
    requires i <= |sp| && InBounds(s, sp)
    ensures |r| == |s| + 1 && r[|s|] == NUL
  {
    if i == 0 then s + [NUL] else Cut(s, sp, i - 1)[sp[i - 1].end := NUL]
  }

  /** Past the end of the last token cut, the copy still holds `s`. */
  lemma {:induction false} CutAbove(s: string, sp: seq<Span>, i: nat, m: nat)
    requires 0 < i <= |sp| && Chained(s, sp) && sp[i - 1].end < m < |s|
    ensures Cut(s, sp, i)[m] == s[m]
  {
    if i > 1 {
      assert Linked(sp, i - 2);
      CutAbove(s, sp, i - 1, m);
    }
  }

  /** Each token cut stays a C string holding its text while later tokens
      are cut. */
  lemma {:induction false} CutHolds(s: string, sp: seq<Span>, i: nat, k: nat)
    requires k < i <= |sp| && Chained(s, sp)
    ensures HoldsAt(Cut(s, sp, i), sp[k].start, s[sp[k].start..sp[k].end])
  {
    var text := s[sp[k].start..sp[k].end];
    if i == k + 1 {
      var before := Cut(s, sp, k);
      forall m | sp[k].start <= m < sp[k].end ensures before[m] == s[m] {
        if k > 0 {
          assert Linked(sp, k - 1);
          CutAbove(s, sp, k, m);
        }
      }
      assert Cut(s, sp, i)[sp[k].start..sp[k].end] == text;
    } else {
      CutHolds(s, sp, i - 1, k);
      assert Linked(sp, i - 2);
      CutOrder(s, sp, k, i - 2);
      UpdateKeepsString(Cut(s, sp, i - 1), sp[i - 1].end, NUL, sp[k].start, text);
    }
  }

  /** Once all tokens are cut, each is a C string holding its text. */
  lemma CutTokens(s: string)
    requires Safe(s) && Chained(s, Spans(s).value)
    ensures forall k :: 0 <= k < |Spans(s).value| ==>
              HoldsAt(Cut(s, Spans(s).value, |Spans(s).value|), Spans(s).value[k].start, Tokens(s)[k])
  {
    var sp := Spans(s).value;
    forall k | 0 <= k < |sp| ensures HoldsAt(Cut(s, sp, |sp|), sp[k].start, Tokens(s)[k]) {
      TokenText(s, k);
      CutHolds(s, sp, |sp|, k);
    }
  }

  /** Later tokens end later. */
  lemma {:induction false} CutOrder(s: string, sp: seq<Span>, k: nat, j: nat)
    requires k <= j < |sp| && Chained(s, sp)
    ensures sp[k].end <= sp[j].end
    decreases j - k
  {
    if k < j {
      assert Linked(sp, k);
      CutOrder(s, sp, k + 1, j);
    }
  }

  /** exec.c:84-90: the token at `a` starts with quote `q`; strsep on `q`
      from the next character NULs the closing quote, which is put back, and
      the character after it becomes the token's terminator. Returns where
      the cursor is left, just past that terminator. */
  method TakeQuoted(b: array<char>, a: nat, q: char, ghost s: string) returns (next: nat)
    requires b.Length == |s| + 1 && a < |s| && NoNul(s) && IsQuote(q) && s[a] == q
    requires b[|s|] == NUL && forall k :: a <= k < |s| ==> b[k] == s[k]
    requires Find(s, a + 1, Closing(q)) < |s|
    modifies b
    ensures var j := Find(s, a + 1, Closing(q));
      next == j + 2 && b[..] == old(b[..])[j + 1 := NUL]
  {
    var arg := Strsep(b, a + 1, Closing(q), s);
    var p := arg.index - 1;
    b[p] := q;
    b[p + 1] := NUL;
    next := p + 2;
  }

  /** One strsep step on the copy `b` of `s` with the cursor at `a`, the
      part from `a` on still untouched: exec.c:78 for the first token,
      exec.c:82-93 for a later one. The copy gets the token's terminator and
      nothing else changes; the cursor is left after it, or NULL. */
  method TakeToken(b: array<char>, a: nat, first: bool, ghost s: string) returns (arg: Ptr)
    requires b.Length == |s| + 1 && a <= |s| && NoNul(s)
    requires b[|s|] == NUL && forall k :: a <= k < |s| ==> b[k] == s[k]
    requires Next(s, a, first).Some?
    modifies b
    ensures var st := Next(s, a, first).value;
      && arg == (if st.more then At(st.span.end + 1) else Null)
      && b[..] == old(b[..])[st.span.end := NUL]
  {
    var c := b[a];
    if !first && (c == '\'' || c == '"') {
      var next := TakeQuoted(b, a, c, s);
      arg := At(next);
    } else {
      arg := Strsep(b, a, Blank, s);
    }
  }

  /** One pass of the loop of exec.c:77-94 (the first pass is exec.c:78):
      stores the pointer to token `i`, which starts at the cursor `a`, cuts
      the token out of the copy and moves the cursor past it. */
  method TakeArg(b: array<char>, args: array<Ptr>, i: nat, a: nat, ghost s: string) returns (arg: Ptr)
    requires Safe(s) && NoNul(s) && Chained(s, Spans(s).value)
    requires i < |Spans(s).value| && a == Spans(s).value[i].start && i < args.Length
    requires b.Length == |s| + 1 && b[..] == Cut(s, Spans(s).value, i)
    requires forall k :: a <= k < |s| ==> b[k] == s[k]
    modifies b, args
    ensures b[..] == Cut(s, Spans(s).value, i + 1)
    ensures args[..] == old(args[..])[i := At(a)]
    ensures arg.Null? ==> i + 1 == |Spans(s).value|
    ensures i + 1 == NUM_ARGS ==> i + 1 == |Spans(s).value|
    ensures arg.At? && i + 1 < NUM_ARGS ==> i + 1 < |Spans(s).value| && arg.index == Spans(s).value[i + 1].start
    ensures arg.At? ==> forall k :: arg.index <= k < |s| ==> b[k] == s[k]
  {
    SpanAt(s, i);
    ghost var e := Spans(s).value[i].end;
    args[i] := At(a);
    ghost var before := b[..];
    arg := TakeToken(b, a, i == 0, s);
    if arg.At? {
      forall k | e + 1 <= k < |s| ensures b[k] == s[k] {
        assert b[..][k] == before[k];
      }
    }
  }

  /** The loop of exec.c:77-106 on the copy `b` of `s`: fills `args` with a
      pointer to each token, NULL-terminates it, and reports the overflow
      test of exec.c:101, which can never fire. */
  method Tokenize(b: array<char>, ghost s: string) returns (args: array<Ptr>, n: nat, tooLong: bool)
    requires b[..] == s + [NUL] && NoNul(s) && Safe(s)
    modifies b
    ensures fresh(args) && args.Length == NUM_ARGS + 1
    ensures !tooLong
    ensures n == |Spans(s).value| <= NUM_ARGS && args[n] == Null
    ensures forall k :: 0 <= k < n ==>
              args[k] == At(Spans(s).value[k].start) && HoldsAt(b[..], Spans(s).value[k].start, Tokens(s)[k])
  {
    ghost var sp := Spans(s).value;
    ScanCount(s, 0, 0);
    SpansChained(s);
    args := new Ptr[NUM_ARGS + 1](_ => Null);
    var i := 0;
    var arg := At(0);
    while arg.At? && (i == 0 || i < NUM_ARGS)
      invariant i <= |sp| && args.Length == NUM_ARGS + 1
      invariant b.Length == |s| + 1 && b[..] == Cut(s, sp, i)
      invariant arg.Null? ==> i == |sp|
      invariant i == NUM_ARGS ==> i == |sp|
      invariant arg.At? && (i == 0 || i < NUM_ARGS) ==> i < |sp| && arg.index == sp[i].start
      invariant arg.At? ==> forall k :: arg.index <= k < |s| ==> b[k] == s[k]
      invariant forall k :: 0 <= k < i ==> args[k] == At(sp[k].start)
      decreases NUM_ARGS - i
    {
      arg := TakeArg(b, args, i, arg.index, s);
      i := i + 1;
    }
    args[i] := Null;
    n := i;
    tooLong := i == NUM_ARGS && args[i] != Null;
    CutTokens(s);
  }
}
