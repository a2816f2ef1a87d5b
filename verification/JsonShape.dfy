/** The texts of RFC 8259 by their shape alone, whatever is in their strings: what becomes of a run then depends only on
    whether the decoder gets through the strings. */
module JsonShape {
  import opened Bytes
  import opened JsonLex
  import JsonString
  import JsonBody
  import opened JsonGap
  import opened JsonParse
  import opened JsonTree
  import opened JsonGrammar
  import opened JsonAccepted
  import opened JsonText
  import Reprint

  predicate IsWord(t: Token) { t.kind.Text? || t.kind.EscapedText? }

  /** A string token without what is in it. */
  function Blanked(t: Token): Token { if IsWord(t) then Token(Text, []) else t }

  function BlankedAll(ts: seq<Token>): (us: seq<Token>)
    ensures |us| == |ts| && forall k :: 0 <= k < |ts| ==> us[k] == Blanked(ts[k])
  {
    if ts == [] then [] else [Blanked(ts[0])] + BlankedAll(ts[1..])
  }

  /** The tokens stand as the grammar asks. */
  ghost predicate HasShape(ts: seq<Token>) { exists v :: SpellsAll(BlankedAll(ts), v) }

  /** The decoder gets through the string. */
  predicate IsSteady(t: Token) { t.kind.EscapedText? ==> JsonBody.Steady(t.text, 0, JsonBody.Calm) }

  predicate AllSteady(ts: seq<Token>, k: nat)
    requires k <= |ts|
  {
    forall q :: k <= q < |ts| ==> IsSteady(ts[q])
  }

  // ---------------------------------------------------------------- the parser does not look into strings

  predicate SameStack(c: Core, d: Core) { c.low == d.low && c.top == d.top }

  lemma ValueAlike(c: Core, d: Core, t: Token)
    requires Stacked(c) && SameStack(c, d) && WantsValue(c.top)
    ensures var c', d' := OnValue(c, t.kind, t.text), OnValue(d, Blanked(t).kind, Blanked(t).text);
            if TextOf(t.kind, t.text).Some? then SameStack(c', d') else c'.top.Halted?
  {
    hide LowOk, JsonString.Decode;
  }

  lemma KeyAlike(c: Core, d: Core, t: Token)
    requires Stacked(c) && SameStack(c, d) && InMap(c.top)
    ensures var c', d' := OnKey(c, t.kind, t.text), OnKey(d, Blanked(t).kind, Blanked(t).text);
            if TextOf(t.kind, t.text).Some? then SameStack(c', d') else c'.top.Halted?
  {
    hide LowOk, JsonString.Decode;
  }

  lemma AdvanceAlike(c: Core, d: Core, t: Token)
    requires Stacked(c) && SameStack(c, d)
    ensures var c', d' := Advance(c, t.kind, t.text), Advance(d, Blanked(t).kind, Blanked(t).text);
            if TextOf(t.kind, t.text).Some? then SameStack(c', d')
            else Failed(c'.top) && (Failed(d'.top) || c'.top.Halted?)
  {
    if WantsValue(c.top) {
      ValueAlike(c, d, t);
    } else if c.top.MapStart? || c.top.MapNeedKey? {
      KeyAlike(c, d, t);
    }
    hide LowOk, OnValue, OnKey, JsonString.Decode;
  }

  /** What running on tokens and on blanked tokens comes to. */
  predicate EndsAlike(steady: bool, r: Core, q: Core) {
    if steady then SameStack(r, q) else Failed(r.top) && (Failed(q.top) || r.top.Halted?)
  }

  /** Run on the blanked tokens the parser does the same, unless a string stops the program. */
  lemma {:induction false} RunAlike(utf8: bool, c: Core, d: Core, ts: seq<Token>, k: nat)
    requires k <= |ts| && Stacked(c) && SameStack(c, d) && Reprint.AllLexed(utf8, ts)
    ensures EndsAlike(AllSteady(ts, k), RunOn(c, ts, k), RunOn(d, BlankedAll(ts), k))
    decreases |ts| - k
  {
    if k < |ts| {
      var t, b := ts[k], BlankedAll(ts)[k];
      var c', d' := Advance(c, t.kind, t.text), Advance(d, b.kind, b.text);
      assert Reprint.Lexed(utf8, t);
      AdvanceAlike(c, d, t);
      TextIsSteady(utf8, t);
      hide Advance, LowOk, TopOk, TextOf, IsSteady, BlankedAll, Reprint.AllLexed, Reprint.Lexed;
      if IsSteady(t) {
        RunAlike(utf8, c', d', ts, k + 1);
      } else {
        FailedStays(c', ts, k + 1);
        FailedStays(d', BlankedAll(ts), k + 1);
      }
    }
  }

  lemma FailedStays(c: Core, ts: seq<Token>, k: nat)
    requires k <= |ts| && Stacked(c)
    ensures Failed(c.top) ==> RunOn(c, ts, k) == c
  {
    if Failed(c.top) {
      FailureStays(c, ts, k);
    }
  }

  lemma TextIsSteady(utf8: bool, t: Token)
    requires Reprint.Lexed(utf8, t)
    ensures TextOf(t.kind, t.text).Some? <==> IsSteady(t)
  {
    if t.kind.EscapedText? {
      JsonBody.SteadyIs(utf8, t.text);
    }
    hide JsonBody.BodyAt, JsonBody.Steady, JsonString.Decode;
  }

  // ---------------------------------------------------------------- whole texts

  lemma BlankedApart(ts: seq<Token>)
    requires HasShape(ts)
    ensures Apart(ts, 0, |ts|)
  {
    var us := BlankedAll(ts);
    var v :| SpellsAll(us, v);
    SpelledApart(us, 0, |us|, v);
    forall k: nat | k + 1 < |ts| ensures ApartAt(ts, k) {
      assert ApartAt(us, k) && us[k] == Blanked(ts[k]) && us[k + 1] == Blanked(ts[k + 1]);
    }
  }

  /** A run on tokens of that shape ends well exactly when the decoder gets through all strings, and stops the program
      otherwise. */
  lemma ShapeRuns(utf8: bool, ts: seq<Token>)
    requires HasShape(ts) && Reprint.AllLexed(utf8, ts)
    ensures var top := RunOn(INIT, ts, 0).top; if AllSteady(ts, 0) then top.ParseComplete? else top.Halted?
  {
    hide SpellsAll, RunOn, AllSteady, Reprint.AllLexed;
    AcceptsIs(INIT, BlankedAll(ts));
    RunAlike(utf8, INIT, INIT, ts, 0);
  }

  /** The text is laid out as pieces up to k, where it ends or has an open rest, and the pieces have the shape of a
      value. */
  ghost predicate Shaped(cfg: Config, s: seq<byte>, k: nat, ps: seq<Piece>) {
    k <= |s| && Lays(cfg, s, 0, k, ps) && HasShape(TokensOf(s, ps)) && (k == |s| || IsOpen(cfg, s[k..], 0))
  }

  /** A text of that shape is accepted if and only if the decoder gets through all its strings; otherwise the program
      stops. */
  lemma ShapedRuns(flags: Flags, chunks: seq<seq<byte>>, k: nat, ps: seq<Piece>)
    requires Strict(flags) && Shaped(LexConfig(flags), Concat(chunks), k, ps)
    ensures Run(flags, chunks).1 == if AllSteady(TokensOf(Concat(chunks), ps), 0) then Ok else Stopped
  {
    var cfg, s := LexConfig(flags), Concat(chunks);
    var u, ts := s + [SPACE], TokensOf(s, ps);
    hide Lays, TokensOf, HasShape, IsOpen, Tokens, Rest, Run, Parse, RunOn, AllSteady, Reprint.AllLexed;
    BlankedApart(ts);
    LaidOut(cfg, s, k, ps);
    Reprint.TokensAreLexed(cfg, u, 0);
    ShapeRuns(cfg.utf8, ts);
    RunIsParse(flags, chunks);
    ParseIsRunOn(flags, INIT, u, 0);
  }

  /** Tokens that spell a value have its shape, and steady strings. */
  lemma SpelledIsSteady(utf8: bool, ts: seq<Token>, v: Json)
    requires SpellsAll(ts, v) && Reprint.AllLexed(utf8, ts)
    ensures HasShape(ts) && AllSteady(ts, 0)
  {
    hide RunOn, AllSteady, SpellsAll, Reprint.AllLexed, Flatten;
    AcceptsIs(INIT, ts);
    RunAlike(utf8, INIT, INIT, ts, 0);
    AcceptsIs(INIT, BlankedAll(ts));
  }

  ghost predicate ShapedAndSteady(cfg: Config, s: seq<byte>, k: nat) {
    exists ps :: Shaped(cfg, s, k, ps) && AllSteady(TokensOf(s, ps), 0)
  }

  lemma SaysIsShaped(cfg: Config, s: seq<byte>, k: nat, v: Json)
    requires k <= |s| && Says(cfg, s[..k], v) && (k == |s| || IsOpen(cfg, s[k..], 0))
    ensures ShapedAndSteady(cfg, s, k)
  {
    hide Lays, IsOpen, SpellsAll, Spells, AllSteady, HasShape, Tokens, Rest, Reprint.AllLexed, Apart;
    assert s[..k][..k] == s[..k];
    SaysAlike(cfg, s[..k], s, k, v);
    var ps :| Lays(cfg, s, 0, k, ps) && SpellsAll(TokensOf(s, ps), v);
    hide TokensOf;
    var ts := TokensOf(s, ps);
    SpelledIsApart(ts, v);
    LaidOut(cfg, s, k, ps);
    Reprint.TokensAreLexed(cfg, s + [SPACE], 0);
    SpelledIsSteady(cfg.utf8, ts, v);
    assert Shaped(cfg, s, k, ps);
  }

  lemma SpelledIsApart(ts: seq<Token>, v: Json)
    requires SpellsAll(ts, v)
    ensures Apart(ts, 0, |ts|)
  {
    SpelledApart(ts, 0, |ts|, v);
  }

  /** What is accepted is what has that shape, with strings that the decoder gets through. */
  lemma OkIsShaped(flags: Flags, chunks: seq<seq<byte>>)
    requires Strict(flags)
    ensures var cfg := Config(flags.allowComments, !flags.dontValidateStrings);
            Run(flags, chunks).1 == Ok <==> exists k: nat :: ShapedAndSteady(cfg, Concat(chunks), k)
  {
    var cfg, s := LexConfig(flags), Concat(chunks);
    assert cfg == Config(flags.allowComments, !flags.dontValidateStrings);
    hide Says, Shaped, IsOpen, Run, AllSteady, LexConfig, TokensOf;
    if Run(flags, chunks).1 == Ok {
      OkIs(flags, chunks);
      if v :| Says(cfg, s, v) {
        assert s[..|s|] == s;
        SaysIsShaped(cfg, s, |s|, v);
      } else {
        var k: nat :| OpenBehind(cfg, s, k);
        var v :| Says(cfg, s[..k], v);
        SaysIsShaped(cfg, s, k, v);
      }
    }
    if k: nat :| ShapedAndSteady(cfg, s, k) {
      var ps :| Shaped(cfg, s, k, ps) && AllSteady(TokensOf(s, ps), 0);
      ShapedRuns(flags, chunks, k, ps);
    }
  }
}
