/** What becomes of the strings that the lexer accepts: when decoding them stops the program, and when a value that
    was parsed can be printed and parsed again. */
module Reprint {
  import opened Bytes
  import opened Optional
  import opened JsonLex
  import opened JsonNumber
  import JsonString
  import JsonBody
  import opened JsonTokens
  import YajlLexer
  import opened JsonParse
  import opened JsonTree
  import opened JsonGrammar
  import opened JsonAccepted
  import opened YajlGen
  import opened PrintParse

  // ---------------------------------------------------------------- the tokens of a text

  /** What is known about a token that the lexer found. */
  ghost predicate Lexed(utf8: bool, t: Token) {
    && (t.kind.Integer? || t.kind.Double? ==> IsNumber(t.text))
    && (t.kind.Text? || t.kind.EscapedText? ==> JsonBody.BodyAt(utf8, 0, t.text, 0))
    && (t.kind.Text? ==> !HasBackslash(t.text, 0, |t.text|))
  }

  lemma TokenIsLexed(utf8: bool, kind: Kind, raw: seq<byte>)
    requires IsToken(utf8, kind, raw)
    ensures Lexed(utf8, Token(kind, YajlLexer.Lexeme(kind, raw)))
  {
    if kind.Text? || kind.EscapedText? {
      StringIsBody(utf8, raw);
    }
    hide JsonBody.BodyAt, IsNumber;
  }

  function TokenIn(s: seq<byte>, kind: Kind, from: nat, to: nat): Token
    requires from <= to <= |s|
  {
    Token(kind, YajlLexer.Lexeme(kind, s[from..to]))
  }

  lemma StopIsLexed(cfg: Config, s: seq<byte>, i: nat)
    requires i <= |s|
    ensures var stop := Walk(cfg, Ground, s, i);
            stop.At? ==>
              && (stop.move.Accept? ==> Lexed(cfg.utf8, TokenIn(s, stop.move.kind, i, stop.index + 1)))
              && (stop.move.Before? ==> Lexed(cfg.utf8, TokenIn(s, stop.move.kind, i, stop.index)))
  {
    hide Lexed, IsToken, Walk;
    var stop := Walk(cfg, Ground, s, i);
    if stop.At? {
      FoundIsToken(cfg, s, i);
      if stop.move.Accept? {
        TokenIsLexed(cfg.utf8, stop.move.kind, s[i..stop.index + 1]);
      } else if stop.move.Before? {
        TokenIsLexed(cfg.utf8, stop.move.kind, s[i..stop.index]);
      }
    }
  }

  lemma {:induction false} FoundIsLexed(cfg: Config, s: seq<byte>, i: nat)
    requires i <= |s|
    ensures var r := Scan(cfg, s, i); r.Found? ==> Lexed(cfg.utf8, TokenIn(s, r.kind, r.from, r.to))
    decreases |s| - i
  {
    hide Lexed, Walk, Scan, TokenIn;
    ScanOne(cfg, s, i);
    StopIsLexed(cfg, s, i);
    var stop := Walk(cfg, Ground, s, i);
    if stop.At? && stop.move.Drop? {
      FoundIsLexed(cfg, s, stop.index + 1);
    }
  }

  ghost predicate AllLexed(utf8: bool, ts: seq<Token>) { forall k :: 0 <= k < |ts| ==> Lexed(utf8, ts[k]) }

  lemma {:induction false} TokensAreLexed(cfg: Config, s: seq<byte>, i: nat)
    requires i <= |s|
    ensures AllLexed(cfg.utf8, Tokens(cfg, s, i))
    decreases |s| - i
  {
    var r := Scan(cfg, s, i);
    FoundIsLexed(cfg, s, i);
    hide Lexed, Scan;
    if r.Found? {
      TokensAreLexed(cfg, s, r.to);
    }
  }

  // ---------------------------------------------------------------- decoding

  /** A string of a text is decoded without meeting an assertion if and only if the scan of its body is steady. */
  lemma LexedDecodes(cfg: Config, s: seq<byte>, k: nat)
    requires var ts := Tokens(cfg, s, 0); k < |ts| && ts[k].kind.EscapedText?
    ensures var t := Tokens(cfg, s, 0)[k]; TextOf(t.kind, t.text).Some? <==> JsonBody.Steady(t.text, 0, JsonBody.Calm)
  {
    TokensAreLexed(cfg, s, 0);
    hide Tokens, JsonBody.BodyAt, JsonBody.Steady, IsNumber, HasBackslash;
    var t := Tokens(cfg, s, 0)[k];
    assert Lexed(cfg.utf8, t);
    JsonBody.SteadyIs(cfg.utf8, t.text);
  }

  /** A string that the lexer accepts and the decoder stops at. */
  lemma StringsThatStop() returns (text: seq<byte>)
    ensures text == [QUOTE, BACKSLASH, 0x75, 0x44, 0x38, 0x30, 0x30, BACKSLASH, BACKSLASH, 0x71, QUOTE]
    ensures forall flags :: Run(flags, [text]) == ([], Stopped)
  {
    text := [QUOTE, BACKSLASH, 0x75, 0x44, 0x38, 0x30, 0x30, BACKSLASH, BACKSLASH, 0x71, QUOTE];
    var s := text + [SPACE];
    ConcatOne(text);
    forall flags ensures Run(flags, [text]) == ([], Stopped) {
      StopsThere(flags, s);
      RunIsParse(flags, [text]);
      hide Run, Parse, FinalHandle;
    }
  }

  lemma StopsThere(flags: Flags, s: seq<byte>)
    requires s == [QUOTE, BACKSLASH, 0x75, 0x44, 0x38, 0x30, 0x30, BACKSLASH, BACKSLASH, 0x71, QUOTE, SPACE]
    ensures Parse(flags, INIT, s, 0).core == INIT.Set(Halted)
  {
    var cfg := LexConfig(flags);
    var body := s[1..10];
    assert s[0..11][1..10] == body;
    ScannedAt(cfg, s);
    DecodingStops(body);
    ParseOne(flags, INIT, s, 0);
    hide Scan, JsonString.Decode;
    assert Advance(INIT, EscapedText, body) == INIT.Set(Halted);
    ParseDeaf(flags, INIT.Set(Halted), s, 11);
  }

  lemma ScannedAt(cfg: Config, s: seq<byte>)
    requires s == [QUOTE, BACKSLASH, 0x75, 0x44, 0x38, 0x30, 0x30, BACKSLASH, BACKSLASH, 0x71, QUOTE, SPACE]
    ensures Scan(cfg, s, 0) == Found(EscapedText, 0, 11)
  {
    hide Walk, Scan;
    WalkString(cfg, false, s, 1);
    WalkEscape(cfg, s, 2);
    FourAreScanned(cfg, s);
    WalkString(cfg, true, s, 7);
    WalkEscape(cfg, s, 8);
    WalkString(cfg, true, s, 9);
    WalkString(cfg, true, s, 10);
    ScanQuote(cfg, s, 0, 10, EscapedText);
  }

  lemma FourAreScanned(cfg: Config, s: seq<byte>)
    requires |s| > 7 && s[3..7] == [0x44, 0x38, 0x30, 0x30]
    ensures Walk(cfg, Hex(4), s, 3) == Walk(cfg, Str(true), s, 7)
  {
    hide Walk;
    assert forall k :: 3 <= k < 7 ==> s[k] == s[3..7][k - 3];
    WalkHex(cfg, 4, s, 3);
    WalkHex(cfg, 3, s, 4);
    WalkHex(cfg, 2, s, 5);
    WalkHex(cfg, 1, s, 6);
  }

  lemma DecodingStops(body: seq<byte>)
    requires body == [BACKSLASH, 0x75, 0x44, 0x38, 0x30, 0x30, BACKSLASH, BACKSLASH, 0x71]
    ensures JsonString.Decode(body, 0) == None
  {
    assert JsonString.FourNibbles(body, 2) && JsonString.Hex4(body, 2) == 0xD800;
    assert JsonString.Unescape(body, 1) == JsonString.Gives([JsonString.QUESTION], 7);
    assert JsonString.Unescape(body, 8) == JsonString.Unescaped.Halts;
  }

  // ---------------------------------------------------------------- printing what was parsed

  /** No lone surrogate of the string tears a UTF-8 sequence. */
  predicate Whole(t: Token) { t.kind.EscapedText? ==> !JsonBody.Tears(t.text, 0, JsonBody.Calm) }

  predicate AllWhole(ts: seq<Token>, i: nat, j: nat)
    requires j <= |ts|
  {
    forall k :: i <= k < j ==> Whole(ts[k])
  }

  lemma {:induction false} BodyIsValid(n: nat, s: seq<byte>, i: nat)
    requires i <= |s| && JsonBody.BodyAt(true, n, s, i) && !HasBackslash(s, i, |s|)
    ensures JsonString.ValidFrom(n, s, i)
    decreases |s| - i
  {
    if i < |s| {
      if n == 0 {
        assert s[i] != BACKSLASH;
      }
      BodyIsValid(if n > 0 then n - 1 else Continuations(s[i]), s, i + 1);
    }
  }

  /** The string that a token spells is valid exactly when the token is whole. */
  lemma WordIsValid(t: Token, word: seq<byte>)
    requires Lexed(true, t) && (t.kind.Text? || t.kind.EscapedText?) && TextOf(t.kind, t.text) == Some(word)
    ensures JsonString.ValidFrom(0, word, 0) <==> Whole(t)
  {
    hide JsonBody.BodyAt, JsonBody.Tears, JsonString.Decode;
    if t.kind.Text? {
      BodyIsValid(0, t.text, 0);
    } else {
      JsonBody.TearsIs(t.text);
    }
  }

  lemma ScalarPrints(t: Token, v: Json)
    requires Lexed(true, t) && ScalarOf(t.kind, t.text) == Some(v)
    ensures Printable(v) <==> Whole(t)
  {
    if t.kind.Text? || t.kind.EscapedText? {
      WordIsValid(t, v.text);
    }
    hide JsonBody.BodyAt, JsonString.ValidFrom, IsNumber, TextOf;
  }

  lemma AllJoin(ts: seq<Token>, i: nat, k: nat, j: nat)
    requires i <= k < j <= |ts| && Whole(ts[k])
    ensures AllWhole(ts, i, j) <==> AllWhole(ts, i, k) && AllWhole(ts, k + 1, j)
  {
    hide Whole;
  }

  /** Brackets around a stretch. */
  lemma AllEnds(ts: seq<Token>, i: nat, j: nat)
    requires i + 1 < j <= |ts| && Whole(ts[i]) && Whole(ts[j - 1])
    ensures AllWhole(ts, i, j) <==> AllWhole(ts, i + 1, j - 1)
  {
    AllJoin(ts, i, i, j);
    AllJoin(ts, i + 1, j - 1, j);
  }

  lemma {:induction false} ValuePrints(ts: seq<Token>, i: nat, j: nat, v: Json)
    requires j <= |ts| && Spells(ts, i, j, v) && AllLexed(true, ts)
    ensures i < j && (Printable(v) <==> AllWhole(ts, i, j))
    decreases v, 1
  {
    hide Lexed;
    if v.JArray? {
      ItemsPrint(ts, i + 1, j - 1, v.items);
      hide SpellItems;
      AllEnds(ts, i, j);
    } else if v.JObject? {
      MembersPrint(ts, i + 1, j - 1, v.members);
      hide SpellMembers;
      AllEnds(ts, i, j);
    } else {
      assert Lexed(true, ts[i]);
      hide Whole, Printable;
      ScalarPrints(ts[i], v);
    }
  }

  lemma {:induction false} ItemsPrint(ts: seq<Token>, i: nat, j: nat, items: seq<Json>)
    requires j <= |ts| && SpellItems(ts, i, j, items) && AllLexed(true, ts)
    ensures i <= j && (PrintableItems(items) <==> AllWhole(ts, i, j))
    decreases items, 0
  {
    hide Spells, Printable, AllLexed;
    if |items| == 1 {
      ValuePrints(ts, i, j, items[0]);
    } else if |items| > 1 {
      var k := LastItem(ts, i, j, items);
      hide SpellItems;
      ItemsPrint(ts, i, k, items[..|items| - 1]);
      ValuePrints(ts, k + 1, j, items[|items| - 1]);
      AllJoin(ts, i, k, j);
      hide AllWhole;
    }
  }

  ghost predicate PrintableMember(m: Member) { JsonString.ValidFrom(0, m.key, 0) && Printable(m.value) }

  lemma MemberPrints(ts: seq<Token>, i: nat, j: nat, m: Member)
    requires j <= |ts| && SpellMember(ts, i, j, m) && AllLexed(true, ts)
    ensures i < j && (PrintableMember(m) <==> AllWhole(ts, i, j))
    decreases m, 0
  {
    ValuePrints(ts, i + 2, j, m.value);
    assert Lexed(true, ts[i]);
    WordIsValid(ts[i], m.key);
    hide Spells, Printable, Lexed, AllLexed, JsonString.ValidFrom;
    assert Whole(ts[i + 1]);
    hide Whole;
  }

  lemma {:induction false} MembersPrint(ts: seq<Token>, i: nat, j: nat, members: seq<Member>)
    requires j <= |ts| && SpellMembers(ts, i, j, members) && AllLexed(true, ts)
    ensures i <= j && (PrintableMembers(members) <==> AllWhole(ts, i, j))
    decreases members, 0
  {
    hide SpellMember, Printable, AllLexed, JsonString.ValidFrom;
    if |members| == 1 {
      MemberPrints(ts, i, j, members[0]);
    } else if |members| > 1 {
      var k := LastMember(ts, i, j, members);
      hide SpellMembers;
      MembersPrint(ts, i, k, members[..|members| - 1]);
      MemberPrints(ts, k + 1, j, members[|members| - 1]);
      AllJoin(ts, i, k, j);
      hide AllWhole;
    }
  }

  /** A value that was parsed from validated strings is printable if and only if no string of its text tears a UTF-8
      sequence. */
  lemma ParsedIsPrintable(flags: Flags, chunks: seq<seq<byte>>, v: Json)
    requires Strict(flags) && !flags.dontValidateStrings && Run(flags, chunks) == (Flatten(v), Ok)
    ensures var ts := Tokens(LexConfig(flags), Concat(chunks) + [SPACE], 0); Printable(v) <==> AllWhole(ts, 0, |ts|)
  {
    var s, cfg := Concat(chunks) + [SPACE], LexConfig(flags);
    var ts := Tokens(cfg, s, 0);
    TokensAreLexed(cfg, s, 0);
    hide Tokens, Run, FinalHandle, Flatten, Spells, AllLexed, AllWhole, Printable;
    TokensDecide(flags, chunks);
    var w :| SpellsAll(ts, w);
    FlattenIsInjective(v, w);
    ValuePrints(ts, 0, |ts|, v);
  }

  /** Then it is printed, as long as it is at most 127 containers deep, and parsing what was printed gives it back. */
  lemma ParsedPrintsAgain(flags: Flags, chunks: seq<seq<byte>>, v: Json, opts: Options, flags': Flags,
                          chunks': seq<seq<byte>>)
    requires Strict(flags) && !flags.dontValidateStrings && Run(flags, chunks) == (Flatten(v), Ok)
    requires var ts := Tokens(LexConfig(flags), Concat(chunks) + [SPACE], 0); AllWhole(ts, 0, |ts|)
    requires ValidOptions(opts) && Depth(v) < 128
    ensures GenRun(opts, BLANK, Flatten(v)).Some?
    ensures Concat(chunks') == GenRun(opts, BLANK, Flatten(v)).value.out ==> Run(flags', chunks') == Run(flags, chunks)
  {
    hide Run, GenRun, Flatten, Tokens, AllWhole;
    ParsedIsPrintable(flags, chunks, v);
    PrintThenParse(opts, flags', v, chunks');
  }
}
