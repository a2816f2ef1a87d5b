/** JSON texts, RFC 8259 section 2: gaps and tokens, one after the other, and tokens that spell a value; and when a text
    that deps/yajl/src/yajl_parser.c accepts is one. Besides the four characters of RFC 8259 the lexer takes vertical
    tab and form feed for white space, and so does this module; where comments are allowed they may stand in a gap. */
module JsonText {
  import opened Bytes
  import opened JsonLex
  import opened JsonNumber
  import opened JsonTokens
  import opened JsonGap
  import YajlLexer
  import opened JsonParse
  import opened JsonTree
  import opened JsonGrammar
  import opened JsonAccepted

  /** Where a token stands. */
  datatype Piece = Piece(kind: Kind, from: nat, to: nat)

  ghost predicate PieceAt(cfg: Config, s: seq<byte>, i: nat, j: nat, p: Piece) {
    && i <= p.from < p.to <= j <= |s|
    && GapIn(cfg.comments, s, i, p.from) && IsToken(cfg.utf8, p.kind, s[p.from..p.to])
  }

  /** From i to j the text is the pieces, with gaps before, between and behind them. */
  ghost predicate Lays(cfg: Config, s: seq<byte>, i: nat, j: nat, ps: seq<Piece>)
    decreases |ps|
  {
    if ps == [] then i <= j <= |s| && GapIn(cfg.comments, s, i, j)
    else PieceAt(cfg, s, i, j, ps[0]) && Lays(cfg, s, ps[0].to, j, ps[1..])
  }

  function TokenOf(s: seq<byte>, p: Piece): Token {
    Token(p.kind, if p.from <= p.to <= |s| then YajlLexer.Lexeme(p.kind, s[p.from..p.to]) else [])
  }

  function TokensOf(s: seq<byte>, ps: seq<Piece>): (ts: seq<Token>)
    ensures |ts| == |ps| && forall k :: 0 <= k < |ps| ==> ts[k] == TokenOf(s, ps[k])
  {
    if ps == [] then [] else [TokenOf(s, ps[0])] + TokensOf(s, ps[1..])
  }

  /** The text up to j is JSON, and says v. A string spells what it decodes to; one that stops the decoder spells
      nothing. */
  ghost predicate SaysTo(cfg: Config, s: seq<byte>, j: nat, v: Json) {
    exists ps :: Lays(cfg, s, 0, j, ps) && SpellsAll(TokensOf(s, ps), v)
  }

  ghost predicate Says(cfg: Config, s: seq<byte>, v: Json) { SaysTo(cfg, s, |s|, v) }

  ghost predicate IsJson(cfg: Config, s: seq<byte>) { exists v :: Says(cfg, s, v) }

  // ---------------------------------------------------------------- what is scanned is laid out

  /** A scan without an error lays out the text up to where it finds no end. */
  lemma {:induction false} ScanLays(cfg: Config, s: seq<byte>, i: nat) returns (ps: seq<Piece>)
    requires i <= |s| && Rest(cfg, s, i).More?
    ensures var k := Rest(cfg, s, i).from; Lays(cfg, s, i, k, ps) && Walk(cfg, Ground, s, k).OutOfText?
    ensures TokensOf(s, ps) == Tokens(cfg, s, i)
    decreases |s| - i
  {
    ScanGap(cfg, s, i);
    var r := Scan(cfg, s, i);
    hide Scan, Walk, IsToken, GapIn;
    if r.Found? {
      var rest := ScanLays(cfg, s, r.to);
      var p := Piece(r.kind, r.from, r.to);
      ps := [p] + rest;
      assert ps[1..] == rest;
    } else {
      ps := [];
    }
  }

  // ---------------------------------------------------------------- what is laid out is scanned

  predicate IsNumberKind(kind: Kind) { kind.Integer? || kind.Double? }

  predicate EndsValue(kind: Kind) { kind.Comma? || kind.CloseArray? || kind.CloseMap? }

  /** What follows a number ends it. */
  predicate ApartAt(ts: seq<Token>, k: nat)
    requires k + 1 < |ts|
  {
    IsNumberKind(ts[k].kind) ==> EndsValue(ts[k + 1].kind)
  }

  predicate Apart(ts: seq<Token>, i: nat, j: nat)
    requires j <= |ts|
  {
    forall k :: i <= k && k + 1 < j ==> ApartAt(ts, k)
  }

  lemma ApartJoin(ts: seq<Token>, i: nat, k: nat, j: nat)
    requires i <= k < j <= |ts| && Apart(ts, i, k) && Apart(ts, k + 1, j)
    requires !IsNumberKind(ts[k].kind) && (EndsValue(ts[k].kind) || i == k || !IsNumberKind(ts[k - 1].kind))
    ensures Apart(ts, i, j)
  {
    forall q | i <= q && q + 1 < j ensures ApartAt(ts, q) {
    }
  }

  lemma {:induction false} SpelledApart(ts: seq<Token>, i: nat, j: nat, v: Json)
    requires j <= |ts| && Spells(ts, i, j, v)
    ensures Apart(ts, i, j)
    decreases v, 1
  {
    if v.JArray? {
      ItemsApart(ts, i + 1, j - 1, v.items);
      hide SpellItems, Apart;
      ApartEnds(ts, i, j);
    } else if v.JObject? {
      MembersApart(ts, i + 1, j - 1, v.members);
      hide SpellMembers, Apart;
      ApartEnds(ts, i, j);
    }
  }

  /** Brackets around a stretch. */
  lemma ApartEnds(ts: seq<Token>, i: nat, j: nat)
    requires i + 1 < j <= |ts| && Apart(ts, i + 1, j - 1) && !IsNumberKind(ts[i].kind) && EndsValue(ts[j - 1].kind)
    ensures Apart(ts, i, j)
  {
    ApartJoin(ts, i, i, j - 1);
    ApartJoin(ts, i, j - 1, j);
  }

  lemma {:induction false} ItemsApart(ts: seq<Token>, i: nat, j: nat, items: seq<Json>)
    requires j <= |ts| && SpellItems(ts, i, j, items)
    ensures i <= j && Apart(ts, i, j)
    decreases items, 0
  {
    hide Spells;
    if |items| == 1 {
      SpelledApart(ts, i, j, items[0]);
      SpelledIsSomething(ts, i, j, items[0]);
    } else if |items| > 1 {
      var k := LastItem(ts, i, j, items);
      hide SpellItems;
      ItemsApart(ts, i, k, items[..|items| - 1]);
      SpelledApart(ts, k + 1, j, items[|items| - 1]);
      ApartJoin(ts, i, k, j);
    }
  }

  lemma SpelledIsSomething(ts: seq<Token>, i: nat, j: nat, v: Json)
    requires j <= |ts| && Spells(ts, i, j, v)
    ensures i < j
  {
  }

  lemma MemberApart(ts: seq<Token>, i: nat, j: nat, m: Member)
    requires j <= |ts| && SpellMember(ts, i, j, m)
    ensures i < j && Apart(ts, i, j)
    decreases m, 0
  {
    SpelledApart(ts, i + 2, j, m.value);
    hide Spells;
    ApartJoin(ts, i + 1, i + 1, j);
    ApartJoin(ts, i, i, j);
  }

  lemma {:induction false} MembersApart(ts: seq<Token>, i: nat, j: nat, members: seq<Member>)
    requires j <= |ts| && SpellMembers(ts, i, j, members)
    ensures i <= j && Apart(ts, i, j)
    decreases members, 0
  {
    hide SpellMember;
    if |members| == 1 {
      MemberApart(ts, i, j, members[0]);
    } else if |members| > 1 {
      var k := LastMember(ts, i, j, members);
      hide SpellMembers;
      MembersApart(ts, i, k, members[..|members| - 1]);
      MemberApart(ts, k + 1, j, members[|members| - 1]);
      ApartJoin(ts, i, k, j);
    }
  }

  /** No token ends with white space. */
  lemma TokenEnd(utf8: bool, kind: Kind, raw: seq<byte>)
    requires IsToken(utf8, kind, raw)
    ensures raw[|raw| - 1] != SPACE
  {
    if IsNumberKind(kind) {
      NumberEnd(raw);
    }
    hide IsNumber, JsonBody.BodyAt;
  }

  lemma NumberEnd(raw: seq<byte>)
    requires IsNumber(raw)
    ensures raw != [] && IsDigit(raw[|raw| - 1])
  {
    var i, j, k :| Parts(raw, i, j, k);
  }

  lemma TokenStart(utf8: bool, kind: Kind, raw: seq<byte>)
    requires IsToken(utf8, kind, raw) && EndsValue(kind)
    ensures EndsNumber(raw[0])
  {
  }

  lemma GapStart(comments: bool, s: seq<byte>, i: nat, j: nat)
    requires i < j && GapIn(comments, s, i, j)
    ensures i < |s| && EndsNumber(s[i])
  {
  }

  /** The automaton can stop here without an end: nothing is left, or something that ends a number is. */
  predicate Unended(cfg: Config, s: seq<byte>, k: nat) {
    k <= |s| && Walk(cfg, Ground, s, k).OutOfText? && if k < |s| then EndsNumber(s[k]) else s != [] && s[k - 1] == SPACE
  }

  /** Where tokens are laid out up to an unended rest, the lexer finds them and that rest. */
  lemma {:induction false} LaysScans(cfg: Config, s: seq<byte>, i: nat, k: nat, ps: seq<Piece>)
    requires Lays(cfg, s, i, k, ps) && Unended(cfg, s, k) && Apart(TokensOf(s, ps), 0, |ps|)
    ensures i <= |s| && Tokens(cfg, s, i) == TokensOf(s, ps) && Rest(cfg, s, i) == More(k)
    decreases |ps|
  {
    if ps == [] {
      ScanSkipsGap(cfg, s, i, k);
      ScanOne(cfg, s, k);
      hide Scan, Walk, GapIn;
    } else {
      var p, rest := ps[0], ps[1..];
      ScanSkipsGap(cfg, s, i, p.from);
      NumberIsFollowed(cfg, s, k, ps);
      hide Scan, Walk, GapIn, IsToken, Apart;
      TokenIsFound(cfg, s, p.from, p.to, p.kind);
      ApartRest(s, ps);
      LaysScans(cfg, s, p.to, k, rest);
    }
  }

  lemma ApartRest(s: seq<byte>, ps: seq<Piece>)
    requires ps != [] && Apart(TokensOf(s, ps), 0, |ps|)
    ensures Apart(TokensOf(s, ps[1..]), 0, |ps| - 1)
  {
    var ts, us := TokensOf(s, ps), TokensOf(s, ps[1..]);
    forall k | 0 <= k && k + 1 < |ps| - 1 ensures ApartAt(us, k) {
      assert ApartAt(ts, k + 1) && us[k] == ts[k + 1] && us[k + 1] == ts[k + 2];
    }
  }

  lemma NextEnds(s: seq<byte>, ps: seq<Piece>)
    requires |ps| > 1 && Apart(TokensOf(s, ps), 0, |ps|)
    ensures IsNumberKind(ps[0].kind) ==> EndsValue(ps[1].kind)
  {
    var ts := TokensOf(s, ps);
    assert ApartAt(ts, 0) && ts[0] == TokenOf(s, ps[0]) && ts[1] == TokenOf(s, ps[1]);
    hide TokensOf;
  }

  /** What stands behind a number: a gap, or a token that ends it. */
  lemma NextStart(cfg: Config, s: seq<byte>, i: nat, k: nat, ps: seq<Piece>)
    requires i < k && Lays(cfg, s, i, k, ps) && (ps != [] ==> EndsValue(ps[0].kind))
    ensures i < |s| && EndsNumber(s[i])
  {
    hide IsToken, GapIn, EndsNumber;
    var next := if ps == [] then k else ps[0].from;
    if i < next {
      GapStart(cfg.comments, s, i, next);
    } else {
      TokenStart(cfg.utf8, ps[0].kind, s[i..ps[0].to]);
    }
  }

  lemma NumberIsFollowed(cfg: Config, s: seq<byte>, k: nat, ps: seq<Piece>)
    requires ps != [] && Unended(cfg, s, k) && Apart(TokensOf(s, ps), 0, |ps|)
    requires ps[0].from < ps[0].to <= k && IsToken(cfg.utf8, ps[0].kind, s[ps[0].from..ps[0].to])
    requires Lays(cfg, s, ps[0].to, k, ps[1..])
    ensures IsNumberKind(ps[0].kind) ==> ps[0].to < |s| && EndsNumber(s[ps[0].to])
  {
    hide IsToken, Apart, TokensOf, Walk, Lays, EndsNumber;
    var p := ps[0];
    if IsNumberKind(p.kind) {
      TokenEnd(cfg.utf8, p.kind, s[p.from..p.to]);
      assert s[p.from..p.to][p.to - p.from - 1] == s[p.to - 1];
      if p.to < k {
        if |ps| > 1 {
          NextEnds(s, ps);
        }
        NextStart(cfg, s, p.to, k, ps[1..]);
      }
    }
  }

  // ---------------------------------------------------------------- the text and the space that finishing adds

  lemma SameSlice(s: seq<byte>, u: seq<byte>, j: nat, a: nat, b: nat)
    requires a <= b <= j <= |s| && j <= |u| && s[..j] == u[..j]
    ensures s[a..b] == u[a..b]
  {
    SliceOfSlice(s, 0, j, a, b);
    SliceOfSlice(u, 0, j, a, b);
    assert s[0..j] == s[..j] && u[0..j] == u[..j];
  }

  /** Up to j two texts are the same, and so is what they say there. */
  lemma {:induction false} LaysAlike(cfg: Config, s: seq<byte>, u: seq<byte>, i: nat, j: nat, ps: seq<Piece>)
    requires j <= |s| && j <= |u| && s[..j] == u[..j] && Lays(cfg, s, i, j, ps)
    ensures Lays(cfg, u, i, j, ps) && TokensOf(s, ps) == TokensOf(u, ps)
    decreases |ps|
  {
    hide IsToken, GapIn;
    if ps == [] {
      GapAlike(cfg.comments, s, u, i, j);
    } else {
      var p := ps[0];
      SameSlice(s, u, j, 0, p.from);
      SameSlice(s, u, j, p.from, p.to);
      GapAlike(cfg.comments, s, u, i, p.from);
      LaysAlike(cfg, s, u, p.to, j, ps[1..]);
    }
  }

  lemma SaysAlike(cfg: Config, s: seq<byte>, u: seq<byte>, j: nat, v: Json)
    requires j <= |s| && j <= |u| && s[..j] == u[..j]
    ensures SaysTo(cfg, s, j, v) <==> SaysTo(cfg, u, j, v)
  {
    hide Lays, SpellsAll;
    if ps :| Lays(cfg, s, 0, j, ps) && SpellsAll(TokensOf(s, ps), v) {
      LaysAlike(cfg, s, u, 0, j, ps);
    }
    if ps :| Lays(cfg, u, 0, j, ps) && SpellsAll(TokensOf(u, ps), v) {
      LaysAlike(cfg, u, s, 0, j, ps);
    }
  }

  /** The space behind a text belongs to no token. */
  lemma {:induction false} LaysSpace(cfg: Config, s: seq<byte>, i: nat, ps: seq<Piece>)
    requires i < |s| && s[|s| - 1] == SPACE
    ensures Lays(cfg, s, i, |s|, ps) <==> Lays(cfg, s, i, |s| - 1, ps)
    decreases |ps|
  {
    if ps == [] {
      GapSpace(cfg.comments, s, i);
    } else {
      var p := ps[0];
      hide IsToken, GapIn;
      if p.from < p.to <= |s| && IsToken(cfg.utf8, p.kind, s[p.from..p.to]) {
        TokenEnd(cfg.utf8, p.kind, s[p.from..p.to]);
        assert s[p.from..p.to][p.to - p.from - 1] == s[p.to - 1];
        if p.to < |s| {
          LaysSpace(cfg, s, p.to, ps[1..]);
        }
      }
    }
  }

  lemma SaysSpace(cfg: Config, s: seq<byte>, v: Json)
    requires s != [] && s[|s| - 1] == SPACE
    ensures SaysTo(cfg, s, |s|, v) <==> SaysTo(cfg, s, |s| - 1, v)
  {
    hide Lays, SpellsAll;
    forall ps ensures Lays(cfg, s, 0, |s|, ps) <==> Lays(cfg, s, 0, |s| - 1, ps) {
      LaysSpace(cfg, s, 0, ps);
    }
  }

  /** What the scan of a text finds and leaves, and what the text says up to there. */
  lemma ScanSays(cfg: Config, s: seq<byte>, k: nat, v: Json)
    ensures Rest(cfg, s, 0) == More(k) && SpellsAll(Tokens(cfg, s, 0), v) ==>
              SaysTo(cfg, s, k, v) && k <= |s| && Walk(cfg, Ground, s, k).OutOfText?
    ensures SaysTo(cfg, s, k, v) && Unended(cfg, s, k) ==>
              Rest(cfg, s, 0) == More(k) && SpellsAll(Tokens(cfg, s, 0), v)
  {
    if Rest(cfg, s, 0) == More(k) && SpellsAll(Tokens(cfg, s, 0), v) {
      var ps := ScanLays(cfg, s, 0);
    }
    if ps :| Lays(cfg, s, 0, k, ps) && SpellsAll(TokensOf(s, ps), v) && Unended(cfg, s, k) {
      SpelledApart(TokensOf(s, ps), 0, |ps|, v);
      hide Spells;
      LaysScans(cfg, s, 0, k, ps);
    }
    hide Lays, Tokens, Rest, SpellsAll, Walk;
  }

  // ---------------------------------------------------------------- what is accepted

  /** The text says v up to k, and what is left is a string or a comment that was begun and never closed. */
  ghost predicate SaysThenOpen(cfg: Config, s: seq<byte>, k: nat, v: Json) {
    k < |s| && Says(cfg, s[..k], v) && IsOpen(cfg, s[k..], 0)
  }

  ghost predicate SaysAndEnds(cfg: Config, s: seq<byte>, k: nat, v: Json) {
    k == |s| && Says(cfg, s, v)
  }

  lemma OpenShift(cfg: Config, s: seq<byte>, k: nat)
    requires k <= |s|
    ensures IsOpen(cfg, s[k..], 0) <==> IsOpen(cfg, s, k)
  {
    if k < |s| && s[k] == QUOTE {
      BodyShift(cfg.utf8, 0, s, k, k + 1);
    }
    var t := s[k..];
    assert forall q: nat | q < |t| :: IsClose(t, q) <==> IsClose(s, k + q);
    assert forall q: nat | k <= q < |s| :: t[q - k] == s[q] && (IsClose(t, q - k) <==> IsClose(s, q));
    hide JsonBody.BodyAt, IsClose;
  }

  /** Behind the space that finishing adds, the scan ends well at k exactly when the text says v up to k, and ends there
      or has an open rest. */
  lemma ScanEnds(cfg: Config, s: seq<byte>, k: nat, v: Json)
    requires k <= |s|
    ensures var u, m := s + [SPACE], if k == |s| then k + 1 else k;
            Rest(cfg, u, 0) == More(m) && SpellsAll(Tokens(cfg, u, 0), v) <==>
            SaysAndEnds(cfg, s, k, v) || SaysThenOpen(cfg, s, k, v)
  {
    var u, m := s + [SPACE], if k == |s| then k + 1 else k;
    hide SaysTo, Rest, Tokens, SpellsAll, Walk, IsOpen;
    assert u[..|s|] == s && u[|u| - 1] == SPACE && s[..k] == u[..k] == s[..k][..k];
    ScanSays(cfg, u, m, v);
    SaysAlike(cfg, s[..k], u, k, v);
    if k == |s| {
      SaysSpace(cfg, u, v);
      assert s[..k] == s;
    } else {
      OpenIs(cfg, u, k);
      OpenShift(cfg, s, k);
      OpenStart(cfg, s, k);
    }
  }

  /** The tokens of a text, laid out, are found behind it too when it ends there or has an open rest. */
  lemma LaidOut(cfg: Config, s: seq<byte>, k: nat, ps: seq<Piece>)
    requires k <= |s| && Lays(cfg, s, 0, k, ps) && Apart(TokensOf(s, ps), 0, |ps|)
    requires k == |s| || IsOpen(cfg, s[k..], 0)
    ensures var u := s + [SPACE]; Rest(cfg, u, 0).More? && Tokens(cfg, u, 0) == TokensOf(s, ps)
  {
    var u, m := s + [SPACE], if k == |s| then k + 1 else k;
    hide Rest, Tokens, TokensOf, Walk, IsOpen, Lays, Apart;
    assert u[..|s|] == s && u[|u| - 1] == SPACE && s[..k] == u[..k];
    LaysAlike(cfg, s, u, 0, k, ps);
    if k == |s| {
      LaysSpace(cfg, u, 0, ps);
    } else {
      OpenIs(cfg, u, k);
      OpenShift(cfg, s, k);
      OpenStart(cfg, s, k);
    }
    LaysScans(cfg, u, 0, m, ps);
  }

  lemma OpenStart(cfg: Config, s: seq<byte>, k: nat)
    ensures IsOpen(cfg, s, k) ==> k < |s| && EndsNumber(s[k])
  {
    hide JsonBody.BodyAt, IsClose;
  }

  lemma RestIsBeforeSpace(cfg: Config, s: seq<byte>)
    ensures Rest(cfg, s + [SPACE], 0) != More(|s|)
  {
    var u := s + [SPACE];
    if Rest(cfg, u, 0) == More(|s|) {
      var ps := ScanLays(cfg, u, 0);
      WalkGround(cfg, u, |s|);
    }
    hide Rest, Walk;
  }

  /** With no option set that changes it,
      a run ends well with the callbacks of v if and only if the text says v, or says
      v up to a string or a comment that was begun and never closed. */
  lemma RunIs(flags: Flags, chunks: seq<seq<byte>>, v: Json)
    requires Strict(flags)
    ensures var cfg, s := Config(flags.allowComments, !flags.dontValidateStrings), Concat(chunks);
            Run(flags, chunks) == (Flatten(v), Ok) <==> Says(cfg, s, v) || exists k: nat :: SaysThenOpen(cfg, s, k, v)
  {
    var s, cfg := Concat(chunks), LexConfig(flags);
    var ts, rest := Tokens(cfg, s + [SPACE], 0), Rest(cfg, s + [SPACE], 0);
    assert cfg == Config(flags.allowComments, !flags.dontValidateStrings);
    hide Says, Tokens, Rest, SpellsAll, Flatten, Run, FinalHandle, IsOpen, LexConfig;
    TokensDecide(flags, chunks);
    RestIsBeforeSpace(cfg, s);
    if Run(flags, chunks) == (Flatten(v), Ok) {
      var w :| SpellsAll(ts, w);
      FlattenIsInjective(v, w);
      ScanEnds(cfg, s, if rest.from == |s| + 1 then |s| else rest.from, v);
    }
    ScanEnds(cfg, s, |s|, v);
    if k: nat :| SaysThenOpen(cfg, s, k, v) {
      ScanEnds(cfg, s, k, v);
    }
  }

  /** A text is JSON and says v if and only if the run ends well, the callbacks are those of v, and no octets are left
      that never became a token. */
  lemma AcceptedIs(flags: Flags, chunks: seq<seq<byte>>, v: Json)
    requires Strict(flags)
    ensures Says(Config(flags.allowComments, !flags.dontValidateStrings), Concat(chunks), v) <==>
            Run(flags, chunks) == (Flatten(v), Ok) && FinalHandle(flags, chunks).pending == []
  {
    var s, cfg := Concat(chunks), LexConfig(flags);
    var ts, rest := Tokens(cfg, s + [SPACE], 0), Rest(cfg, s + [SPACE], 0);
    assert cfg == Config(flags.allowComments, !flags.dontValidateStrings);
    hide Says, Tokens, Rest, SpellsAll, Flatten, Run, FinalHandle, IsOpen, LexConfig;
    TokensDecide(flags, chunks);
    ScanEnds(cfg, s, |s|, v);
    if Run(flags, chunks) == (Flatten(v), Ok) {
      var w :| SpellsAll(ts, w);
      FlattenIsInjective(v, w);
    }
  }

  /** JSON, and then an open rest. */
  ghost predicate OpenBehind(cfg: Config, s: seq<byte>, k: nat) {
    k < |s| && IsJson(cfg, s[..k]) && IsOpen(cfg, s[k..], 0)
  }

  /** The accepted texts: JSON, and JSON with an open string or comment behind it. */
  lemma OkIs(flags: Flags, chunks: seq<seq<byte>>)
    requires Strict(flags)
    ensures var cfg, s := Config(flags.allowComments, !flags.dontValidateStrings), Concat(chunks);
            Run(flags, chunks).1 == Ok <==> IsJson(cfg, s) || exists k: nat :: OpenBehind(cfg, s, k)
  {
    var cfg, s := LexConfig(flags), Concat(chunks);
    assert cfg == Config(flags.allowComments, !flags.dontValidateStrings);
    hide Says, Flatten, Run, IsOpen, LexConfig;
    if Run(flags, chunks).1 == Ok {
      var v := SoundRun(flags, chunks);
      RunIs(flags, chunks, v);
      if !Says(cfg, s, v) {
        var k: nat :| SaysThenOpen(cfg, s, k, v);
        assert OpenBehind(cfg, s, k);
      }
    }
    if v :| Says(cfg, s, v) {
      RunIs(flags, chunks, v);
    }
    if k: nat :| OpenBehind(cfg, s, k) {
      var v :| Says(cfg, s[..k], v);
      assert SaysThenOpen(cfg, s, k, v);
      RunIs(flags, chunks, v);
    }
  }

  /** No text is both. */
  lemma OpenIsNoJson(cfg: Config, s: seq<byte>, k: nat)
    requires OpenBehind(cfg, s, k)
    ensures !IsJson(cfg, s)
  {
    var v :| Says(cfg, s[..k], v);
    hide Says, Rest, Tokens, SpellsAll, IsOpen;
    ScanEnds(cfg, s, k, v);
    if w :| Says(cfg, s, w) {
      ScanEnds(cfg, s, |s|, w);
    }
  }

  /** So ending well means being JSON exactly for the texts that are not JSON with an open rest behind it. */
  lemma OkIsJson(flags: Flags, chunks: seq<seq<byte>>)
    requires Strict(flags)
    ensures var cfg, s := Config(flags.allowComments, !flags.dontValidateStrings), Concat(chunks);
            (Run(flags, chunks).1 == Ok <==> IsJson(cfg, s)) <==> !exists k: nat :: OpenBehind(cfg, s, k)
  {
    var cfg, s := LexConfig(flags), Concat(chunks);
    assert cfg == Config(flags.allowComments, !flags.dontValidateStrings);
    hide IsJson, OpenBehind, Run, LexConfig;
    OkIs(flags, chunks);
    if k: nat :| OpenBehind(cfg, s, k) {
      OpenIsNoJson(cfg, s, k);
    }
  }

  lemma RestIsOpen(cfg: Config, s: seq<byte>, k: nat, v: Json)
    requires k < |s| && Rest(cfg, s + [SPACE], 0) == More(k) && SpellsAll(Tokens(cfg, s + [SPACE], 0), v)
    ensures OpenBehind(cfg, s, k) && (s + [SPACE])[k..] == s[k..] + [SPACE]
  {
    hide Says, Rest, Tokens, SpellsAll, IsOpen;
    ScanEnds(cfg, s, k, v);
  }

  /** What a run that ends well leaves unread is the open rest, and the space that finishing adds. */
  lemma OnlyOpenIsLeft(flags: Flags, chunks: seq<seq<byte>>)
    requires Strict(flags) && Run(flags, chunks).1 == Ok
    ensures var cfg, s := Config(flags.allowComments, !flags.dontValidateStrings), Concat(chunks);
            var left := FinalHandle(flags, chunks).pending;
            left != [] ==> exists k: nat :: OpenBehind(cfg, s, k) && left == s[k..] + [SPACE]
  {
    var s, cfg := Concat(chunks), LexConfig(flags);
    var ts, rest := Tokens(cfg, s + [SPACE], 0), Rest(cfg, s + [SPACE], 0);
    assert cfg == Config(flags.allowComments, !flags.dontValidateStrings);
    hide OpenBehind, Tokens, Rest, SpellsAll, Flatten, Run, FinalHandle, LexConfig;
    TokensDecide(flags, chunks);
    RestIsBeforeSpace(cfg, s);
    var v :| SpellsAll(ts, v);
    if rest.from < |s| {
      RestIsOpen(cfg, s, rest.from, v);
    }
  }

  /** A value and the start of a string: accepted, and no JSON. */
  lemma UnclosedStringIsAccepted(flags: Flags) returns (text: seq<byte>)
    requires Strict(flags)
    ensures text == [0x31, SPACE, QUOTE]
    ensures Run(flags, [text]) == ([Number([0x31])], Ok)
    ensures !IsJson(Config(flags.allowComments, !flags.dontValidateStrings), text)
  {
    text := [0x31, SPACE, QUOTE];
    ConcatOne(text);
    var cfg, v := Config(flags.allowComments, !flags.dontValidateStrings), JNumber([0x31]);
    OneIsSaid(cfg, text[..2]);
    QuoteIsOpen(cfg, text[2..]);
    hide Says, IsOpen, Run;
    assert SaysThenOpen(cfg, text, 2, v) && OpenBehind(cfg, text, 2);
    RunIs(flags, [text], v);
    OpenIsNoJson(cfg, text, 2);
    OneIsNumber(v);
  }

  lemma OneIsNumber(v: Json)
    requires v == JNumber([0x31])
    ensures Flatten(v) == [Number([0x31])]
  {
  }

  lemma QuoteIsOpen(cfg: Config, s: seq<byte>)
    requires s == [QUOTE]
    ensures IsOpen(cfg, s, 0)
  {
  }

  lemma OneIsSaid(cfg: Config, s: seq<byte>)
    requires s == [0x31, SPACE]
    ensures Says(cfg, s, JNumber([0x31]))
  {
    var ps := [Piece(Integer, 0, 1)];
    assert Parts([0x31], 0, 1, 1) && s[0..1] == [0x31];
    assert BlankAt(cfg.comments, s, 1, 2) && GapIn(cfg.comments, s, 0, 0) && GapIn(cfg.comments, s, 2, 2);
    assert Lays(cfg, s, 1, 2, []) && PieceAt(cfg, s, 0, 2, ps[0]) && ps[1..] == [];
    assert Lays(cfg, s, 0, 2, ps);
    assert TokensOf(s, ps) == [Token(Integer, [0x31])];
  }
}
