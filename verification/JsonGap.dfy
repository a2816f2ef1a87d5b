/** What stands between the tokens of a text, and what an accepted text may end with: white space and, where
    deps/yajl/src/yajl_lex.c is told to allow them, comments; a string or a comment that was begun and never closed. */
module JsonGap {
  import opened Bytes
  import opened Rfc8259
  import opened JsonLex
  import JsonBody
  import opened JsonNumber
  import opened JsonTokens

  predicate IsClose(s: seq<byte>, q: nat) { q + 1 < |s| && s[q] == 0x2A && s[q + 1] == 0x2F }

  /** A comment from i to j: two slashes up to the end of the line, or what is between a slash with a star and the
      first star with a slash. */
  predicate CommentAt(s: seq<byte>, i: nat, j: nat) {
    && i + 3 <= j <= |s| && s[i] == 0x2F
    && if s[i + 1] == 0x2F then s[j - 1] == 0x0A && forall q :: i + 2 <= q < j - 1 ==> s[q] != 0x0A
       else s[i + 1] == 0x2A && i + 4 <= j && IsClose(s, j - 2) && forall q :: i + 2 <= q < j - 2 ==> !IsClose(s, q)
  }

  /** White space, or a comment. */
  predicate BlankAt(comments: bool, s: seq<byte>, i: nat, j: nat) {
    i < j <= |s| && ((j == i + 1 && IsWhite(s[i])) || (comments && CommentAt(s, i, j)))
  }

  ghost predicate GapIn(comments: bool, s: seq<byte>, i: nat, j: nat)
    decreases j - i
  {
    i == j <= |s| || exists k :: i < k <= j && BlankAt(comments, s, i, k) && GapIn(comments, s, k, j)
  }

  // ---------------------------------------------------------------- the lexer passes over gaps

  /** Inside a comment; star: the octet before was one, and counts for the end. */
  function Within(star: bool): Mode { if star then BlockStar else BlockComment }

  lemma {:induction false} LineWalks(cfg: Config, s: seq<byte>, i: nat)
    requires i <= |s|
    ensures var stop := Walk(cfg, LineComment, s, i);
            if stop.At? then stop.move.Drop? && s[stop.index] == LF && forall q :: i <= q < stop.index ==> s[q] != LF
            else forall q :: i <= q < |s| ==> s[q] != LF
    decreases |s| - i
  {
    if i < |s| && s[i] != LF {
      LineWalks(cfg, s, i + 1);
    }
  }

  lemma {:induction false} BlockWalks(cfg: Config, star: bool, s: seq<byte>, i: nat)
    requires i <= |s| && (star ==> 0 < i && s[i - 1] == STAR)
    ensures var stop, from := Walk(cfg, Within(star), s, i), if star then i - 1 else i;
            if stop.At? then
              && stop.move.Drop? && from < stop.index && IsClose(s, stop.index - 1)
              && forall q :: from <= q < stop.index - 1 ==> !IsClose(s, q)
            else forall q :: from <= q < |s| ==> !IsClose(s, q)
    decreases |s| - i
  {
    if i < |s| && !(star && s[i] == SLASH) {
      BlockWalks(cfg, s[i] == STAR, s, i + 1);
    }
  }

  /** From the second character of a comment on. */
  lemma CommentEnds(cfg: Config, s: seq<byte>, i: nat)
    requires i + 1 < |s| && s[i] == SLASH && (s[i + 1] == SLASH || s[i + 1] == STAR)
    ensures var stop := Walk(cfg, if s[i + 1] == SLASH then LineComment else BlockComment, s, i + 2);
            && (stop.At? ==> stop.move.Drop? && CommentAt(s, i, stop.index + 1))
            && (stop.OutOfText? <==> OpenComment(s, i))
            && forall j :: CommentAt(s, i, j) ==> stop.At? && stop.index + 1 == j
  {
    if s[i + 1] == SLASH {
      LineWalks(cfg, s, i + 2);
    } else {
      BlockWalks(cfg, false, s, i + 2);
    }
    hide Walk;
  }

  /** From a slash on. */
  lemma CommentWalks(cfg: Config, s: seq<byte>, i: nat)
    requires i < |s| && s[i] == SLASH && cfg.comments
    ensures var stop := Walk(cfg, Ground, s, i);
            && (stop.At? && stop.move.Drop? ==> CommentAt(s, i, stop.index + 1))
            && (stop.At? ==> stop.move.Drop? || stop.move.Reject?)
            && (stop.OutOfText? <==> i + 1 == |s| || OpenComment(s, i))
            && forall j :: CommentAt(s, i, j) ==> stop.At? && stop.move.Drop? && stop.index + 1 == j
  {
    WalkGround(cfg, s, i);
    if i + 1 < |s| {
      WalkSlash(cfg, s, i + 1);
      if s[i + 1] == SLASH || s[i + 1] == STAR {
        CommentEnds(cfg, s, i);
        hide IsClose;
      }
    }
    hide Walk;
  }

  /** One step over a gap. */
  lemma BlankWalks(cfg: Config, s: seq<byte>, i: nat, j: nat)
    requires BlankAt(cfg.comments, s, i, j)
    ensures Walk(cfg, Ground, s, i) == At(j - 1, Drop)
  {
    WalkGround(cfg, s, i);
    if s[i] == SLASH {
      CommentWalks(cfg, s, i);
    }
    hide Walk, CommentAt;
  }

  lemma DropIsBlank(cfg: Config, s: seq<byte>, i: nat)
    requires i <= |s|
    ensures var stop := Walk(cfg, Ground, s, i);
            stop.At? && stop.move.Drop? ==> BlankAt(cfg.comments, s, i, stop.index + 1)
  {
    if i < |s| {
      WalkGround(cfg, s, i);
      var move := GroundStep(cfg, s[i]);
      if s[i] == SLASH && cfg.comments {
        CommentWalks(cfg, s, i);
      } else if move.To? {
        TokensDropNothing(cfg, move.mode, s, i + 1);
      }
    }
    hide Walk, CommentAt;
  }

  lemma {:induction false} TokensDropNothing(cfg: Config, m: Mode, s: seq<byte>, i: nat)
    requires i <= |s| && !m.Ground? && !InComment(m)
    ensures var stop := Walk(cfg, m, s, i); stop.At? ==> !stop.move.Drop?
    decreases |s| - i
  {
    if i < |s| && Step(cfg, m, s[i]).To? {
      TokensDropNothing(cfg, Step(cfg, m, s[i]).mode, s, i + 1);
    }
  }

  /** A gap before a token changes nothing. */
  lemma {:induction false} ScanSkipsGap(cfg: Config, s: seq<byte>, i: nat, j: nat)
    requires i <= j <= |s| && GapIn(cfg.comments, s, i, j)
    ensures Scan(cfg, s, i) == Scan(cfg, s, j)
    decreases j - i
  {
    if i < j {
      var k :| i < k <= j && BlankAt(cfg.comments, s, i, k) && GapIn(cfg.comments, s, k, j);
      hide Walk, Scan, BlankAt;
      BlankWalks(cfg, s, i, k);
      ScanOne(cfg, s, i);
      ScanSkipsGap(cfg, s, k, j);
    }
  }

  /** What the lexer passes over is a gap, and what it finds behind it is a token. */
  lemma {:induction false} ScanGap(cfg: Config, s: seq<byte>, i: nat)
    requires i <= |s|
    ensures var r := Scan(cfg, s, i);
            && (r.More? ==> GapIn(cfg.comments, s, i, r.from) && Walk(cfg, Ground, s, r.from).OutOfText?)
            && (r.Found? ==> GapIn(cfg.comments, s, i, r.from) && IsToken(cfg.utf8, r.kind, s[r.from..r.to]))
    decreases |s| - i
  {
    hide IsToken, Walk, Scan, BlankAt;
    ScanOne(cfg, s, i);
    if i < |s| {
      FoundIsToken(cfg, s, i);
    }
    DropIsBlank(cfg, s, i);
    var stop := Walk(cfg, Ground, s, i);
    if stop.At? && stop.move.Drop? {
      ScanGap(cfg, s, stop.index + 1);
    }
  }

  // ---------------------------------------------------------------- the space that finishing adds

  lemma {:induction false} GapAlike(comments: bool, s: seq<byte>, u: seq<byte>, i: nat, j: nat)
    requires i <= j <= |s| && j <= |u| && s[..j] == u[..j]
    ensures GapIn(comments, s, i, j) ==> GapIn(comments, u, i, j)
    decreases j - i
  {
    if i < j && GapIn(comments, s, i, j) {
      var k :| i < k <= j && BlankAt(comments, s, i, k) && GapIn(comments, s, k, j);
      GapAlike(comments, s, u, k, j);
      assert forall q :: 0 <= q < j ==> s[q] == s[..j][q] == u[q];
      assert BlankAt(comments, u, i, k) by {
        BlankAlike(comments, s, u, i, k);
      }
    }
  }

  lemma BlankAlike(comments: bool, s: seq<byte>, u: seq<byte>, i: nat, j: nat)
    requires BlankAt(comments, s, i, j) && j <= |u| && forall q :: 0 <= q < j ==> s[q] == u[q]
    ensures BlankAt(comments, u, i, j)
  {
    assert forall q: nat | q + 1 < j :: IsClose(u, q) <==> IsClose(s, q);
  }

  /** A space behind a gap belongs to it. */
  lemma {:induction false} GapSpace(comments: bool, s: seq<byte>, i: nat)
    requires i < |s| && s[|s| - 1] == SPACE
    ensures GapIn(comments, s, i, |s|) <==> GapIn(comments, s, i, |s| - 1)
    decreases |s| - i
  {
    var n := |s|;
    if i == n - 1 {
      assert BlankAt(comments, s, i, n) && GapIn(comments, s, n, n);
    } else {
      if GapIn(comments, s, i, n) {
        var k :| i < k <= n && BlankAt(comments, s, i, k) && GapIn(comments, s, k, n);
        GapSpace(comments, s, k);
      }
      if GapIn(comments, s, i, n - 1) {
        var k :| i < k <= n - 1 && BlankAt(comments, s, i, k) && GapIn(comments, s, k, n - 1);
        GapSpace(comments, s, k);
      }
    }
  }

  // ---------------------------------------------------------------- unfinished rests

  /** A comment that begins at i and does not end. */
  predicate OpenComment(s: seq<byte>, i: nat) {
    && i + 2 <= |s| && s[i] == 0x2F
    && ((s[i + 1] == 0x2F && forall q :: i + 2 <= q < |s| ==> s[q] != 0x0A)
        || (s[i + 1] == 0x2A && forall q :: i + 2 <= q < |s| ==> !IsClose(s, q)))
  }

  /** A quote, and what may stand in a string, but no second quote. */
  predicate OpenString(utf8: bool, s: seq<byte>, i: nat) {
    i < |s| && s[i] == 0x22 && JsonBody.BodyAt(utf8, 0, s, i + 1)
  }

  predicate IsOpen(cfg: Config, s: seq<byte>, i: nat) {
    OpenString(cfg.utf8, s, i) || (cfg.comments && OpenComment(s, i))
  }

  lemma HexStays(cfg: Config, s: seq<byte>, i: nat)
    requires i < |s| && s[|s| - 1] == SPACE
    ensures var b := s[..|s| - 1];
            if JsonBody.FourDigits(b, i) then Walk(cfg, Hex(4), s, i) == Walk(cfg, Str(true), s, i + 4)
            else Walk(cfg, Hex(4), s, i).At?
  {
    var b := s[..|s| - 1];
    WalkHex(cfg, 4, s, i);
    if i + 1 < |s| { WalkHex(cfg, 3, s, i + 1); }
    if i + 2 < |s| { WalkHex(cfg, 2, s, i + 2); }
    if i + 3 < |s| { WalkHex(cfg, 1, s, i + 3); }
    hide Walk;
    assert forall k :: 0 <= k < |b| ==> b[k] == s[k];
  }

  /** The automaton, in a string of a text that ends with a space, is still in it at the end exactly when all before
      the space is a body. */
  lemma {:induction false} BodyStays(cfg: Config, n: nat, esc: bool, s: seq<byte>, i: nat)
    requires i < |s| && s[|s| - 1] == SPACE && n < 4 && (n > 0 ==> cfg.utf8)
    ensures Walk(cfg, Inside(cfg, n, esc), s, i).OutOfText? <==> JsonBody.BodyAt(cfg.utf8, n, s[..|s| - 1], i)
    decreases |s| - i
  {
    var b := s[..|s| - 1];
    hide Walk, Step;
    if n > 0 {
      WalkTrail(cfg, n, esc, s, i);
      if i < |b| && IsContinuation(s[i]) {
        BodyStays(cfg, n - 1, esc, s, i + 1);
      }
    } else {
      WalkString(cfg, esc, s, i);
      if s[i] == BACKSLASH {
        WalkEscape(cfg, s, i + 1);
        if i + 1 < |b| && s[i + 1] == 0x75 {
          if i + 2 < |s| { HexStays(cfg, s, i + 2); }
          if JsonBody.FourDigits(b, i + 2) {
            BodyStays(cfg, 0, true, s, i + 6);
          }
        } else if i + 1 < |b| && IsEscaped(s[i + 1]) {
          BodyStays(cfg, 0, true, s, i + 2);
        }
      } else if i < |b| && s[i] != QUOTE && s[i] >= 0x20 && (cfg.utf8 ==> Continuations(s[i]) < 4) {
        BodyStays(cfg, if cfg.utf8 then Continuations(s[i]) else 0, esc, s, i + 1);
      }
    }
  }

  /** Numbers and words end at a space, or before. */
  lemma {:induction false} SpaceStops(cfg: Config, m: Mode, s: seq<byte>, i: nat)
    requires i < |s| && s[|s| - 1] == SPACE && (InNumber(m) || (m.Word? && SPACE !in m.want))
    ensures Walk(cfg, m, s, i).At?
    decreases |s| - i
  {
    if Step(cfg, m, s[i]).To? {
      SpaceStops(cfg, Step(cfg, m, s[i]).mode, s, i + 1);
    }
  }

  lemma OpenCommentSpace(s: seq<byte>, i: nat)
    requires s != [] && s[|s| - 1] == SPACE
    ensures OpenComment(s, i) <==> OpenComment(s[..|s| - 1], i)
  {
    var b := s[..|s| - 1];
    if OpenComment(b, i) {
      assert forall q :: IsClose(s, q) ==> IsClose(b, q);
    }
    if OpenComment(s, i) {
      assert forall q :: IsClose(b, q) ==> IsClose(s, q);
    }
  }

  /** Before the space a string or a comment is open exactly where the lexer finds no end. */
  lemma OpenIs(cfg: Config, s: seq<byte>, i: nat)
    requires i < |s| && s[|s| - 1] == SPACE
    ensures Walk(cfg, Ground, s, i).OutOfText? <==> IsOpen(cfg, s[..|s| - 1], i)
  {
    WalkGround(cfg, s, i);
    var move := GroundStep(cfg, s[i]);
    if i == |s| - 1 {
    } else if s[i] == QUOTE {
      BodyStays(cfg, 0, false, s, i + 1);
    } else if s[i] == SLASH {
      if cfg.comments {
        CommentWalks(cfg, s, i);
        OpenCommentSpace(s, i);
      }
    } else if move.To? {
      SpaceStops(cfg, move.mode, s, i + 1);
    }
    hide Walk, JsonBody.BodyAt;
  }
}
