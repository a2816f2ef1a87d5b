/** How deps/cmark/src/blocks.c cuts its input into lines, chunk by chunk. */
module LineFeed {
  import opened Bytes

  /** U+FFFD, which stands in for a NUL. */
  const REPLACEMENT: seq<byte> := [0xEF, 0xBF, 0xBD]

  predicate IsEnd(c: byte) { c == LF || c == CR }

  predicate IsPlain(c: byte) { !IsEnd(c) && c != 0 }

  // ---------------------------------------------------------------- the lines of a document

  function Replaced(c: byte): seq<byte> { if c == 0 then REPLACEMENT else [c] }

  function Replace(s: seq<byte>): seq<byte> {
    if s == [] then [] else Replace(s[..|s| - 1]) + Replaced(s[|s| - 1])
  }

  /** Where the line that starts at i ends. */
  function LineEnd(s: seq<byte>, i: nat): (e: nat)
    requires i <= |s|
    ensures i <= e <= |s| && (forall k :: i <= k < e ==> !IsEnd(s[k])) && (e < |s| ==> IsEnd(s[e]))
    decreases |s| - i
  {
    if i == |s| || IsEnd(s[i]) then i else LineEnd(s, i + 1)
  }

  /** Behind the line ending at e: LF, CR or CRLF. */
  function Behind(s: seq<byte>, e: nat): (k: nat)
    requires e < |s|
    ensures e < k <= |s|
  {
    if s[e] == CR && e + 1 < |s| && s[e + 1] == LF then e + 2 else e + 1
  }

  /** The lines of s from i on; the last need not have an ending. */
  function Lines(s: seq<byte>, i: nat): seq<seq<byte>>
    requires i <= |s|
    decreases |s| - i
  {
    if i == |s| then []
    else
      var e := LineEnd(s, i);
      [Replace(s[i..e])] + if e == |s| then [] else Lines(s, Behind(s, e))
  }

  // ---------------------------------------------------------------- what the parser does

  /** What came last: a CR, after which an LF is skipped, or a NUL, after which any line ending is. */
  datatype Mode = Fresh | AfterCr | AfterNul

  /** The lines passed on, and the line in the making. */
  datatype State = State(lines: seq<seq<byte>>, cur: seq<byte>, mode: Mode)

  const START: State := State([], [], Fresh)

  function Step(st: State, c: byte): State {
    if IsEnd(c) then
      if st.mode.AfterNul? || (st.mode.AfterCr? && c == LF)
          then State(st.lines, st.cur, if c == CR then AfterCr else Fresh)
      else State(st.lines + [st.cur], [], if c == CR then AfterCr else Fresh)
    else State(st.lines, st.cur + Replaced(c), if c == 0 then AfterNul else Fresh)
  }

  /** After the first k octets of s. */
  function Upto(st: State, s: seq<byte>, k: nat): State
    requires k <= |s|
  {
    if k == 0 then st else Step(Upto(st, s, k - 1), s[k - 1])
  }

  /** A chunk ends: that a NUL came last is forgotten. At the end of the file an unfinished line is passed on at
      once, unless a NUL ends it. */
  function Feed(st: State, chunk: seq<byte>, eof: bool): State {
    var t := Upto(st, chunk, |chunk|);
    if eof && chunk != [] && IsPlain(chunk[|chunk| - 1]) then State(t.lines + [t.cur], [], Fresh)
    else if t.mode.AfterNul? then State(t.lines, t.cur, Fresh)
    else t
  }

  function FeedAll(chunks: seq<seq<byte>>): State {
    if chunks == [] then START else Feed(FeedAll(chunks[..|chunks| - 1]), chunks[|chunks| - 1], false)
  }

  /** cmark_parser_finish */
  function Finish(st: State): seq<seq<byte>> { if st.cur != [] then st.lines + [st.cur] else st.lines }

  // ---------------------------------------------------------------- the object

  /** The fields between two rounds of the loop. What came last does not matter to what comes next. */
  predicate IsReached(lines: seq<seq<byte>>, linebuf: seq<byte>, endedWithCr: bool, t: State, s: seq<byte>, k: nat) {
    && k <= |s| && lines == t.lines && linebuf == t.cur
    && (if k == |s| then endedWithCr == t.mode.AfterCr?
        else !endedWithCr && (t.mode.AfterCr? ==> s[k] != LF) && (t.mode.AfterNul? ==> !IsEnd(s[k])))
  }

  class Parser {
    var linebuf: seq<byte>
    var lastBufferEndedWithCr: bool
    /** What S_process_line was called with. */
    var lines: seq<seq<byte>>

    constructor ()
      ensures View() == START
    {
      linebuf, lastBufferEndedWithCr, lines := [], false, [];
    }

    ghost function View(): State
      reads this
    {
      State(lines, linebuf, if lastBufferEndedWithCr then AfterCr else Fresh)
    }

    method ProcessLine(line: seq<byte>)
      modifies this`lines
      ensures lines == old(lines) + [line]
    {
      lines := lines + [line];
    }

    ghost predicate Reached(t: State, s: seq<byte>, k: nat)
      reads this
    {
      IsReached(lines, linebuf, lastBufferEndedWithCr, t, s, k)
    }

    /** S_parser_feed. An empty chunk must not come after a CR. */
    method ParserFeed(buffer: seq<byte>, eof: bool)
      requires buffer == [] ==> !lastBufferEndedWithCr
      modifies this
      ensures View() == Feed(old(View()), buffer, eof)
    {
      ghost var st := View();
      var k := 0;
      if lastBufferEndedWithCr && buffer[0] == LF {
        k := 1;
      }
      lastBufferEndedWithCr := false;
      assert Reached(Upto(st, buffer, k), buffer, k) by { FeedStarts(st, buffer, k); }
      while k < |buffer|
        invariant k <= |buffer|
        invariant (Reached(Upto(st, buffer, k), buffer, k) && (eof && k > 0 ==> !IsPlain(buffer[k - 1])))
               || (eof && k == |buffer| && View() == Feed(st, buffer, eof))
      {
        k := Round(buffer, eof, k, st);
      }
    }

    /** The next line ending or NUL. */
    method FindStop(buffer: seq<byte>, k: nat) returns (eol: nat)
      requires k < |buffer|
      ensures k <= eol <= |buffer| && (forall i :: k <= i < eol ==> IsPlain(buffer[i]))
      ensures (eol < |buffer| ==> !IsPlain(buffer[eol]))
    {
      eol := k;
      while eol < |buffer| && IsPlain(buffer[eol])
        invariant k <= eol <= |buffer| && forall i :: k <= i < eol ==> IsPlain(buffer[i])
      {
        eol := eol + 1;
      }
    }

    /** One line, or what there is of it, or the part up to a NUL. */
    method Round(buffer: seq<byte>, eof: bool, k: nat, ghost st: State) returns (k': nat)
      requires k < |buffer| && Reached(Upto(st, buffer, k), buffer, k)
      modifies this
      ensures k < k' <= |buffer|
      ensures (Reached(Upto(st, buffer, k'), buffer, k') && (eof ==> !IsPlain(buffer[k' - 1])))
           || (eof && k' == |buffer| && View() == Feed(st, buffer, eof))
    {
      var eol := FindStop(buffer, k);
      PlainRun(st, buffer, k, eol);
      hide Upto, Feed, Behind, IsPlain;
      k' := TakePart(buffer, eof, k, eol);
      k' := SkipEnding(buffer, k');
      RoundEnds(st, buffer, eof, k, eol, k', lines, linebuf, lastBufferEndedWithCr);
      hide *;
    }

    /** What is before the stop goes where it belongs, and a NUL with it. */
    method TakePart(buffer: seq<byte>, eof: bool, k: nat, eol: nat) returns (k': nat)
      requires k <= eol <= |buffer|
      modifies this`lines, this`linebuf
      ensures var line, isNul := old(linebuf) + buffer[k..eol], eol < |buffer| && buffer[eol] == 0;
              if (if eol < |buffer| then IsEnd(buffer[eol]) else eof) then
                k' == eol && lines == old(lines) + [line] && linebuf == []
              else
                && k' == (if isNul then eol + 1 else eol) && lines == old(lines)
                && linebuf == line + (if isNul then REPLACEMENT else [])
    {
      var process := (eol < |buffer| && IsEnd(buffer[eol])) || (eol >= |buffer| && eof);
      k' := eol;
      if process {
        EndLine(buffer[k..eol]);
      } else if eol < |buffer| && buffer[eol] == 0 {
        linebuf := linebuf + buffer[k..eol];
        linebuf := linebuf + REPLACEMENT;
        k' := k' + 1;
      } else {
        linebuf := linebuf + buffer[k..eol];
      }
    }

    /** The line in the making ends with part. */
    method EndLine(part: seq<byte>)
      modifies this`lines, this`linebuf
      ensures lines == old(lines) + [old(linebuf) + part] && linebuf == []
    {
      if |linebuf| > 0 {
        linebuf := linebuf + part;
        ProcessLine(linebuf);
        linebuf := [];
      } else {
        assert linebuf + part == part;
        ProcessLine(part);
      }
    }

    method SkipEnding(buffer: seq<byte>, k: nat) returns (k': nat)
      requires k <= |buffer| && !lastBufferEndedWithCr
      modifies this`lastBufferEndedWithCr
      ensures k' == if k < |buffer| && IsEnd(buffer[k]) then Behind(buffer, k) else k
      ensures lastBufferEndedWithCr == (k < k' == |buffer| && buffer[k' - 1] == CR)
    {
      k' := k;
      if k' < |buffer| && buffer[k'] == CR {
        k' := k' + 1;
        if k' == |buffer| {
          lastBufferEndedWithCr := true;
        }
      }
      if k' < |buffer| && buffer[k'] == LF {
        k' := k' + 1;
      }
    }

    /** cmark_parser_finish, as far as lines go. */
    method ParserFinish()
      modifies this
      ensures lines == Finish(old(View())) && linebuf == []
    {
      if |linebuf| > 0 {
        ProcessLine(linebuf);
        linebuf := [];
      }
    }
  }

  /** Where a chunk is begun: behind an LF that follows the CR of the last chunk. */
  lemma FeedStarts(st: State, s: seq<byte>, k: nat)
    requires st.mode == Fresh || (st.mode == AfterCr && s != [])
    requires k == if st.mode == AfterCr && s[0] == LF then 1 else 0
    ensures IsReached(st.lines, st.cur, false, Upto(st, s, k), s, k)
  {
  }

  /** Behind the stop of a round. */
  lemma StopAt(st: State, s: seq<byte>, k: nat, e: nat)
    requires k <= e <= |s| && k < |s| && (e < |s| ==> !IsPlain(s[e])) && forall i :: k <= i < e ==> IsPlain(s[i])
    requires var t := Upto(st, s, k); (t.mode.AfterCr? ==> s[k] != LF) && (t.mode.AfterNul? ==> !IsEnd(s[k]))
    ensures var t := Upto(st, s, e);
            if e == |s| then t.mode == Fresh && Feed(st, s, true) == State(t.lines + [t.cur], [], Fresh)
            else
              var f := if s[e] != 0 then e else e + 1;
              var b := if f < |s| && IsEnd(s[f]) then Behind(s, f) else f;
              var u := Upto(st, s, b);
              && b > k && !IsPlain(s[b - 1])
              && u.lines == (if s[e] == 0 then t.lines else t.lines + [t.cur])
              && u.cur == (if s[e] == 0 then t.cur + REPLACEMENT else [])
              && u.mode == (if s[b - 1] == CR then AfterCr else if s[b - 1] == LF then Fresh else AfterNul)
              && (b < |s| ==> (s[b - 1] == CR ==> s[b] != LF) && (s[b - 1] == 0 ==> !IsEnd(s[b])))
  {
    PlainRun(st, s, k, e);
    if e < |s| && IsEnd(s[e]) {
      EndingAt(st, s, e);
    } else if e < |s| {
      NulAt(st, s, e);
    }
    hide Upto, Step;
  }

  /** The fields after a round. */
  lemma RoundEnds(st: State, s: seq<byte>, eof: bool, k: nat, e: nat, k': nat, lines: seq<seq<byte>>,
                  linebuf: seq<byte>, endedWithCr: bool)
    requires k <= e <= |s| && k < |s| && (e < |s| ==> !IsPlain(s[e])) && forall i :: k <= i < e ==> IsPlain(s[i])
    requires var t := Upto(st, s, k); (t.mode.AfterCr? ==> s[k] != LF) && (t.mode.AfterNul? ==> !IsEnd(s[k]))
    requires var t := Upto(st, s, e);
             if (if e < |s| then IsEnd(s[e]) else eof) then lines == t.lines + [t.cur] && linebuf == []
             else lines == t.lines && linebuf == t.cur + (if e < |s| && s[e] == 0 then REPLACEMENT else [])
    requires var f := if e < |s| && s[e] == 0 then e + 1 else e;
             && k' == (if f < |s| && IsEnd(s[f]) then Behind(s, f) else f)
             && endedWithCr == (f < k' == |s| && s[k' - 1] == CR)
    ensures k < k' <= |s|
    ensures (IsReached(lines, linebuf, endedWithCr, Upto(st, s, k'), s, k') && (eof ==> !IsPlain(s[k' - 1])))
         || (eof && k' == |s| && State(lines, linebuf, if endedWithCr then AfterCr else Fresh) == Feed(st, s, eof))
  {
    StopAt(st, s, k, e);
    hide Upto, Feed, Behind, IsPlain, Step;
    if e == |s| {
      assert k' == |s| && !endedWithCr;
    } else {
      var u := Upto(st, s, k');
      assert lines == u.lines && linebuf == u.cur;
    }
  }

  /** What a line ending at e does, when it is not skipped. */
  lemma EndingAt(st: State, s: seq<byte>, e: nat)
    requires e < |s| && IsEnd(s[e])
    requires var t := Upto(st, s, e); !t.mode.AfterNul? && !(t.mode.AfterCr? && s[e] == LF)
    ensures var t, k := Upto(st, s, e), Behind(s, e);
            Upto(st, s, k) == State(t.lines + [t.cur], [], if s[k - 1] == CR then AfterCr else Fresh)
  {
    assert Upto(st, s, e + 1) == Step(Upto(st, s, e), s[e]);
  }

  /** What a NUL at e does, and the line ending after it. */
  lemma NulAt(st: State, s: seq<byte>, e: nat)
    requires e < |s| && s[e] == 0
    ensures var t, k := Upto(st, s, e), if e + 1 < |s| && IsEnd(s[e + 1]) then Behind(s, e + 1) else e + 1;
            Upto(st, s, k) == State(t.lines, t.cur + REPLACEMENT,
                if s[k - 1] == CR then AfterCr else if s[k - 1] == LF then Fresh else AfterNul)
  {
    assert Upto(st, s, e + 1) == Step(Upto(st, s, e), s[e]);
    if e + 1 < |s| && IsEnd(s[e + 1]) {
      assert Upto(st, s, e + 2) == Step(Upto(st, s, e + 1), s[e + 1]);
    }
  }

  /** A stretch without line endings and NULs goes into the line in the making. */
  lemma {:induction false} PlainRun(st: State, s: seq<byte>, k: nat, e: nat)
    requires k <= e <= |s| && forall i :: k <= i < e ==> IsPlain(s[i])
    ensures var t, u := Upto(st, s, k), Upto(st, s, e);
            u.lines == t.lines && u.cur == t.cur + s[k..e] && u.mode == if k == e then t.mode else Fresh
  {
    if k < e {
      PlainRun(st, s, k, e - 1);
      assert s[k..e] == s[k..e - 1] + [s[e - 1]];
    }
  }

  // ---------------------------------------------------------------- chunks do not matter

  /** Every NUL before a line ending stands before the last line ending of the text, with nothing behind it. */
  predicate Quiet(s: seq<byte>) {
    forall i :: 0 < i < |s| && s[i - 1] == 0 && IsEnd(s[i]) ==> Behind(s, i) == |s|
  }

  /** Reading octet by octet, as if a NUL were any other octet. */
  function Plainly(s: seq<byte>, k: nat): State
    requires k <= |s|
  {
    if k == 0 then START
    else
      var t := Plainly(s, k - 1);
      Step(if t.mode.AfterNul? then State(t.lines, t.cur, Fresh) else t, s[k - 1])
  }

  lemma {:induction false} ReplaceNext(s: seq<byte>, i: nat, k: nat)
    requires i <= k < |s|
    ensures Replace(s[i..k + 1]) == Replace(s[i..k]) + Replaced(s[k])
  {
    assert s[i..k + 1][..k - i] == s[i..k];
  }

  lemma PlainlyNext(s: seq<byte>, k: nat)
    requires k < |s| && !IsEnd(s[k])
    ensures var t, u := Plainly(s, k), Plainly(s, k + 1);
            u.lines == t.lines && u.cur == t.cur + Replaced(s[k]) && !u.mode.AfterCr?
  {
    hide Replaced;
  }

  lemma {:induction false} PlainlyInLine(s: seq<byte>, i: nat, k: nat)
    requires i <= k <= |s| && (forall j :: i <= j < k ==> !IsEnd(s[j])) && Plainly(s, i).cur == []
    ensures Plainly(s, k).lines == Plainly(s, i).lines && Plainly(s, k).cur == Replace(s[i..k])
    ensures i < k ==> !Plainly(s, k).mode.AfterCr?
  {
    if i < k {
      hide Replace, Replaced, Plainly;
      PlainlyInLine(s, i, k - 1);
      ReplaceNext(s, i, k - 1);
      PlainlyNext(s, k - 1);
    } else {
      assert s[i..k] == [];
      hide Plainly;
    }
  }

  lemma PlainlyEnds(s: seq<byte>, i: nat, e: nat)
    requires i <= e < |s| && (forall j :: i <= j < e ==> !IsEnd(s[j])) && IsEnd(s[e]) && Plainly(s, i).cur == []
    requires Plainly(s, i).mode.AfterCr? ==> s[i] != LF
    ensures var u := Plainly(s, Behind(s, e));
            && u.lines == Plainly(s, i).lines + [Replace(s[i..e])] && u.cur == []
            && (u.mode.AfterCr? && Behind(s, e) < |s| ==> s[Behind(s, e)] != LF)
  {
    PlainlyInLine(s, i, e);
    assert Plainly(s, e + 1).lines == Plainly(s, i).lines + [Replace(s[i..e])];
  }

  /** Reading octet by octet gives the lines. */
  lemma {:induction false} PlainlyLines(s: seq<byte>, i: nat)
    requires i <= |s| && Plainly(s, i).cur == [] && (Plainly(s, i).mode.AfterCr? && i < |s| ==> s[i] != LF)
    ensures Finish(Plainly(s, |s|)) == Plainly(s, i).lines + Lines(s, i)
    decreases |s| - i
  {
    hide Plainly, Step, Replace, LineEnd, Behind;
    if i < |s| {
      var e := LineEnd(s, i);
      if e == |s| {
        PlainlyInLine(s, i, e);
        ReplaceNonEmpty(s[i..e]);
      } else {
        PlainlyEnds(s, i, e);
        PlainlyLines(s, Behind(s, e));
        Append(Plainly(s, i).lines, Replace(s[i..e]), Lines(s, Behind(s, e)));
      }
    }
  }

  lemma Append<T>(a: seq<T>, x: T, b: seq<T>)
    ensures a + [x] + b == a + ([x] + b)
  {
  }

  lemma ReplaceNonEmpty(s: seq<byte>)
    ensures s != [] ==> Replace(s) != []
  {
  }

  /** The two ways of reading are at the same place; or one has passed on a line that the other will pass on at
      the end, because the last line ending was skipped after a NUL. */
  predicate Near(st: State, plain: State, s: seq<byte>, k: nat) {
    && k <= |s| && (st.mode.AfterCr? <==> plain.mode.AfterCr?)
    && (if st.lines == plain.lines then
          st.cur == plain.cur && (st.mode.AfterNul? ==> k > 0 && s[k - 1] == 0 && st.cur != [])
        else
          plain.lines == st.lines + [st.cur] && st.cur != [] && plain.cur == [] && !st.mode.AfterNul?
          && (k < |s| ==> k + 1 == |s| && st.mode.AfterCr? && s[k] == LF))
  }

  lemma StepNear(st: State, s: seq<byte>, k: nat)
    requires Quiet(s) && k < |s| && Near(st, Plainly(s, k), s, k)
    ensures Near(Step(st, s[k]), Plainly(s, k + 1), s, k + 1)
  {
    var t := Plainly(s, k);
    assert Plainly(s, k + 1) == Step(if t.mode.AfterNul? then State(t.lines, t.cur, Fresh) else t, s[k]);
    hide Plainly;
  }

  lemma {:induction false} UptoNear(st: State, s: seq<byte>, p: nat, q: nat, j: nat)
    requires Quiet(s) && p <= q <= |s| && j <= q - p && Near(st, Plainly(s, p), s, p)
    ensures Near(Upto(st, s[p..q], j), Plainly(s, p + j), s, p + j)
  {
    hide Near, Step, Plainly, Quiet;
    if j > 0 {
      UptoNear(st, s, p, q, j - 1);
      StepNear(Upto(st, s[p..q], j - 1), s, p + j - 1);
    }
  }

  lemma {:induction false} FeedAllNear(chunks: seq<seq<byte>>, s: seq<byte>)
    requires Quiet(s) && Concat(chunks) <= s
    ensures Near(FeedAll(chunks), Plainly(s, |Concat(chunks)|), s, |Concat(chunks)|)
  {
    if chunks != [] {
      var init, last := chunks[..|chunks| - 1], chunks[|chunks| - 1];
      var p, q := |Concat(init)|, |Concat(chunks)|;
      assert Concat(init) <= s && s[p..q] == last;
      FeedAllNear(init, s);
      UptoNear(FeedAll(init), s, p, q, q - p);
      hide Plainly, Upto, Concat;
    }
  }

  lemma PlainlyIsLines(s: seq<byte>)
    ensures Finish(Plainly(s, |s|)) == Lines(s, 0)
  {
    PlainlyLines(s, 0);
    hide Plainly, Lines;
  }

  /** A way of cutting s into chunks that are not empty. */
  predicate Cut(chunks: seq<seq<byte>>, s: seq<byte>) {
    Concat(chunks) == s && forall i :: 0 <= i < |chunks| ==> chunks[i] != []
  }

  /** Feeding chunks, however the text is cut into them, and finishing passes on the lines of the text. */
  lemma ChunkingDoesNotMatter(chunks: seq<seq<byte>>, s: seq<byte>)
    requires Cut(chunks, s) && Quiet(s)
    ensures Finish(FeedAll(chunks)) == Lines(s, 0)
  {
    FeedAllNear(chunks, s);
    PlainlyIsLines(s);
    hide Plainly, Lines, Quiet;
  }

  /** Parsing a whole document at once passes on the same lines. */
  lemma WholeDocument(s: seq<byte>)
    requires Quiet(s)
    ensures Finish(Feed(START, s, true)) == Lines(s, 0)
  {
    if s == [] {
      ChunkingDoesNotMatter([], s);
      assert Feed(START, s, true) == START == FeedAll([]);
    } else {
      Pieces(s, 0);
      hide Quiet, Lines, Cut;
      ChunkingDoesNotMatter([s], s);
      AtEndOfFile(START, s);
    }
  }

  /** Telling the parser that a chunk is the last makes no difference once it is told to finish. */
  lemma AtEndOfFile(st: State, chunk: seq<byte>)
    ensures Finish(Feed(st, chunk, true)) == Finish(Feed(st, chunk, false))
  {
  }

  // ---------------------------------------------------------------- and when they do

  /** One reading has passed on one line more than the other. */
  predicate Ahead(a: State, b: State) {
    |b.lines| == |a.lines| + 1 && a.mode == b.mode && (a.cur == b.cur || (a.cur != [] && b.cur != []))
  }

  lemma StepAhead(a: State, b: State, c: byte)
    requires Ahead(a, b)
    ensures Ahead(Step(a, c), Step(b, c))
  {
  }

  lemma {:induction false} UptoAhead(a: State, s: seq<byte>, b: State, i: nat, from: nat, to: nat)
    requires i <= from <= to <= |s| && Ahead(Upto(a, s, from), Upto(b, s[i..], from - i))
    ensures Ahead(Upto(a, s, to), Upto(b, s[i..], to - i))
  {
    if from < to {
      UptoAhead(a, s, b, i, from, to - 1);
      StepAhead(Upto(a, s, to - 1), Upto(b, s[i..], to - 1 - i), s[to - 1]);
      hide Ahead, Step;
    }
  }

  lemma {:induction false} UptoPrefix(st: State, s: seq<byte>, i: nat, k: nat)
    requires k <= i <= |s|
    ensures Upto(st, s[..i], k) == Upto(st, s, k)
  {
    if k > 0 {
      UptoPrefix(st, s, i, k - 1);
    }
  }

  /** A chunk that ends with the NUL makes the parser see the line ending that it otherwise skips. */
  lemma SkippedEnding(a: State, s: seq<byte>, i: nat, b: State)
    requires 0 < i < |s| && s[i - 1] == 0 && IsEnd(s[i]) && Behind(s, i) < |s|
    requires a.mode.AfterNul? && a.cur != [] && b == State(a.lines, a.cur, Fresh)
    ensures var k, t := Behind(s, i), s[i..];
            var a', b' := Step(a, s[i]), Step(b, s[i]);
            var a2, b2 := if k == i + 1 then a' else Step(a', s[i + 1]), if k == i + 1 then b' else Step(b', s[i + 1]);
            Ahead(Step(a2, s[k]), Step(b2, s[k]))
  {
  }

  lemma SoonAhead(s: seq<byte>, i: nat, b: State)
    requires 0 < i < |s| && s[i - 1] == 0 && IsEnd(s[i]) && Behind(s, i) < |s| && b == Feed(START, s[..i], false)
    ensures var k := Behind(s, i); Ahead(Upto(START, s, k + 1), Upto(b, s[i..], k + 1 - i))
  {
    var a, k, t := Upto(START, s, i), Behind(s, i), s[i..];
    UptoPrefix(START, s, i, i);
    SkippedEnding(a, s, i, b);
    assert t[0] == s[i] && t[k - i] == s[k] && t[k - 1 - i] == s[k - 1];
    hide Ahead, Step, Feed;
    assert Upto(START, s, i + 1) == Step(a, s[i]) && Upto(b, t, 0) == b && Upto(b, t, 1) == Step(b, s[i]);
    if k == i + 2 {
      assert Upto(START, s, i + 2) == Step(Upto(START, s, i + 1), s[i + 1])
          && Upto(b, t, 2) == Step(Upto(b, t, 1), t[1]);
    }
  }

  lemma CutAfterNul(s: seq<byte>, i: nat)
    requires 0 < i < |s| && s[i - 1] == 0 && IsEnd(s[i]) && Behind(s, i) < |s|
    ensures |Finish(Feed(Feed(START, s[..i], false), s[i..], false))| == |Finish(Feed(START, s, false))| + 1
  {
    hide Upto, Step;
    var b := Feed(START, s[..i], false);
    SoonAhead(s, i, b);
    UptoAhead(START, s, b, i, Behind(s, i) + 1, |s|);
  }

  lemma NotQuiet(s: seq<byte>) returns (chunks: seq<seq<byte>>)
    requires !Quiet(s)
    ensures Cut(chunks, s) && Finish(FeedAll(chunks)) != Finish(FeedAll([s]))
  {
    var i :| 0 < i < |s| && s[i - 1] == 0 && IsEnd(s[i]) && Behind(s, i) != |s|;
    Pieces(s, i);
    CutAfterNul(s, i);
    hide *;
    chunks := [s[..i], s[i..]];
  }

  /** The lines do not depend on the cutting exactly when no NUL stands before a line ending with text behind it. */
  lemma QuietIs(s: seq<byte>)
    ensures Quiet(s) <==> forall chunks :: Cut(chunks, s) ==> Finish(FeedAll(chunks)) == Lines(s, 0)
  {
    hide Finish, FeedAll, Concat, Lines;
    if Quiet(s) {
      forall chunks | Cut(chunks, s) ensures Finish(FeedAll(chunks)) == Lines(s, 0) {
        ChunkingDoesNotMatter(chunks, s);
      }
    } else {
      Pieces(s, 0);
      var chunks := NotQuiet(s);
    }
  }

  lemma Pieces(s: seq<byte>, i: nat)
    requires i <= |s|
    ensures (s != [] ==> Cut([s], s)) && FeedAll([s]) == Feed(START, s, false)
    ensures (0 < i < |s| ==> Cut([s[..i], s[i..]], s))
    ensures FeedAll([s[..i], s[i..]]) == Feed(Feed(START, s[..i], false), s[i..], false)
  {
    OneChunk(s);
    OneChunk(s[..i]);
    var two := [s[..i], s[i..]];
    assert two[..1] == [s[..i]] && two[1] == s[i..] && s[..i] + s[i..] == s;
    hide Feed;
    assert Concat(two) == Concat([s[..i]]) + s[i..];
  }

  lemma OneChunk(s: seq<byte>)
    ensures Concat([s]) == s && FeedAll([s]) == Feed(START, s, false)
  {
    ConcatOne(s);
    assert [s][..0] == [];
    hide Feed;
  }
}
