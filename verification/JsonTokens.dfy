/** The tokens of JSON octet by octet, RFC 8259 sections 2, 3, 6 and 7, and that the lexer of
    deps/yajl/src/yajl_lex.c finds exactly these. The UTF-8 of strings is that of yajl_string_validate_utf8. */
module JsonTokens {
  import opened Bytes
  import opened Optional
  import opened JsonLex
  import opened JsonNumber
  import JsonBody

  // ---------------------------------------------------------------- tokens as texts

  /** A number with a fraction or an exponent. */
  predicate HasPart(raw: seq<byte>, k: nat) {
    exists q :: k <= q < |raw| && (raw[q] == 0x2E || raw[q] == 0x65 || raw[q] == 0x45)
  }

  predicate HasBackslash(s: seq<byte>, i: nat, j: nat)
    requires j <= |s|
  {
    exists q :: i <= q < j && s[q] == 0x5C
  }

  predicate IsString(utf8: bool, raw: seq<byte>) {
    |raw| >= 2 && raw[0] == raw[|raw| - 1] == 0x22 && JsonBody.BodyAt(utf8, 0, raw[..|raw| - 1], 1)
  }

  function Mark(kind: Kind): Option<byte> {
    match kind
    case Colon => Some(0x3A)
    case Comma => Some(0x2C)
    case OpenMap => Some(0x7B)
    case CloseMap => Some(0x7D)
    case OpenArray => Some(0x5B)
    case CloseArray => Some(0x5D)
    case _ => None
  }

  const NULL_WORD: seq<byte> := [0x6E, 0x75, 0x6C, 0x6C]
  const TRUE_WORD: seq<byte> := [0x74, 0x72, 0x75, 0x65]
  const FALSE_WORD: seq<byte> := [0x66, 0x61, 0x6C, 0x73, 0x65]

  ghost predicate IsToken(utf8: bool, kind: Kind, raw: seq<byte>) {
    raw != [] &&
    match kind
    case NullTok => raw == NULL_WORD
    case BoolTok => raw == TRUE_WORD || raw == FALSE_WORD
    case Integer => IsNumber(raw) && !HasPart(raw, 0)
    case Double => IsNumber(raw) && HasPart(raw, 0)
    case Text => IsString(utf8, raw) && !HasBackslash(raw, 0, |raw|)
    case EscapedText => IsString(utf8, raw) && HasBackslash(raw, 0, |raw|)
    case _ => Some(raw[0]) == Mark(kind) && |raw| == 1
  }

  // ---------------------------------------------------------------- strings

  /** Inside a string, with n continuation octets due. */
  function Inside(cfg: Config, n: nat, esc: bool): Mode { if n == 0 then Str(esc) else Trail(n, esc) }

  predicate EndsString(stop: Stop, j: nat) { stop.At? && stop.index == j && stop.move.Accept? }

  function StringKind(esc: bool): Kind { if esc then EscapedText else Text }

  lemma HexWalks(cfg: Config, s: seq<byte>, i: nat, j: nat)
    requires i <= j < |s|
    ensures JsonBody.FourDigits(s[..j], i) ==> Walk(cfg, Hex(4), s, i) == Walk(cfg, Str(true), s, i + 4)
    ensures EndsString(Walk(cfg, Hex(4), s, i), j) ==> i + 4 <= j && JsonBody.FourDigits(s[..j], i)
  {
    WalkHex(cfg, 4, s, i);
    if i + 1 < |s| { WalkHex(cfg, 3, s, i + 1); }
    if i + 2 < |s| { WalkHex(cfg, 2, s, i + 2); }
    if i + 3 < |s| { WalkHex(cfg, 1, s, i + 3); }
    hide Walk;
    if JsonBody.FourDigits(s[..j], i) {
      assert forall k :: i <= k < i + 4 ==> s[k] == s[..j][k];
    }
  }

  lemma BackslashNext(s: seq<byte>, i: nat, j: nat)
    requires i <= j <= |s|
    ensures HasBackslash(s, i, j) <==> i < j && (s[i] == BACKSLASH || HasBackslash(s, i + 1, j))
  {
  }

  /** From inside the body of a string the automaton gets to the quote at j exactly when what is before it is the
      rest of a body. */
  lemma {:induction false} BodyWalks(cfg: Config, n: nat, esc: bool, s: seq<byte>, i: nat, j: nat)
    requires i <= j < |s| && n < 4 && (n > 0 ==> cfg.utf8)
    ensures var stop := Walk(cfg, Inside(cfg, n, esc), s, i);
            && (EndsString(stop, j) <==> s[j] == QUOTE && JsonBody.BodyAt(cfg.utf8, n, s[..j], i))
            && (EndsString(stop, j) ==> stop.move.kind == StringKind(esc || HasBackslash(s, i, j)))
    decreases j - i
  {
    var b := s[..j];
    BackslashNext(s, i, j);
    hide Walk, Step, HasBackslash;
    if n > 0 {
      WalkTrail(cfg, n, esc, s, i);
      if i < j && IsContinuation(s[i]) {
        BodyWalks(cfg, n - 1, esc, s, i + 1, j);
      }
    } else {
      WalkString(cfg, esc, s, i);
      if i < j && s[i] == BACKSLASH {
        EscapeWalks(cfg, s, i, j);
        if i + 1 < j && s[i + 1] == 0x75 && JsonBody.FourDigits(b, i + 2) {
          BodyWalks(cfg, 0, true, s, i + 6, j);
        } else if i + 1 < j && IsEscaped(s[i + 1]) {
          BodyWalks(cfg, 0, true, s, i + 2, j);
        }
      } else if i < j && s[i] != QUOTE && s[i] >= 0x20 && (cfg.utf8 ==> Continuations(s[i]) < 4) {
        BodyWalks(cfg, if cfg.utf8 then Continuations(s[i]) else 0, esc, s, i + 1, j);
      }
    }
  }

  /** From a backslash on. */
  lemma EscapeWalks(cfg: Config, s: seq<byte>, i: nat, j: nat)
    requires i < j < |s| && s[i] == BACKSLASH
    ensures EndsString(Walk(cfg, Escape, s, i + 1), j) ==> i + 1 < j
    ensures i + 1 < j ==>
              if s[i + 1] == 0x75 then
                if JsonBody.FourDigits(s[..j], i + 2) then Walk(cfg, Escape, s, i + 1) == Walk(cfg, Str(true), s, i + 6)
                else !EndsString(Walk(cfg, Escape, s, i + 1), j)
              else if IsEscaped(s[i + 1]) then Walk(cfg, Escape, s, i + 1) == Walk(cfg, Str(true), s, i + 2)
              else !EndsString(Walk(cfg, Escape, s, i + 1), j)
  {
    WalkEscape(cfg, s, i + 1);
    if i + 1 < j && s[i + 1] == 0x75 {
      HexWalks(cfg, s, i + 2, j);
    }
    hide Walk;
  }

  lemma ScanQuote(cfg: Config, s: seq<byte>, i: nat, k: nat, kind: Kind)
    requires i < k < |s| && s[i] == QUOTE && Walk(cfg, Str(false), s, i + 1) == At(k, Accept(kind))
    ensures Scan(cfg, s, i) == Found(kind, i, k + 1)
  {
    WalkGround(cfg, s, i);
    hide Walk;
  }

  // ---------------------------------------------------------------- punctuation and words

  lemma ScanPunctuation(cfg: Config, s: seq<byte>, i: nat)
    requires i < |s| && GroundStep(cfg, s[i]).Accept?
    ensures Scan(cfg, s, i) == Found(GroundStep(cfg, s[i]).kind, i, i + 1)
  {
    WalkGround(cfg, s, i);
  }

  /** The automaton accepts a word exactly when it is the one that it wants. */
  lemma {:induction false} WordWalks(cfg: Config, want: seq<byte>, kind: Kind, s: seq<byte>, i: nat, j: nat)
    requires want != [] && i <= j < |s|
    ensures EndsString(Walk(cfg, Word(want, kind), s, i), j) <==> s[i..j + 1] == want
    ensures s[i..j + 1] == want ==> Walk(cfg, Word(want, kind), s, i) == At(j, Accept(kind))
    ensures EndsString(Walk(cfg, Word(want, kind), s, i), j) ==> Walk(cfg, Word(want, kind), s, i).move.kind == kind
    decreases want
  {
    WalkWord(cfg, want, kind, s, i);
    assert s[i] == s[i..j + 1][0];
    if |want| > 1 && i < j {
      assert s[i + 1..j + 1] == s[i..j + 1][1..];
      assert want == [want[0]] + want[1..] && s[i..j + 1] == [s[i]] + s[i + 1..j + 1];
      WordWalks(cfg, want[1..], kind, s, i + 1, j);
    }
    hide Walk;
  }

  lemma ScanWord(cfg: Config, word: seq<byte>, s: seq<byte>, i: nat)
    requires word == TRUE_TEXT || word == FALSE_TEXT || word == NULL_TEXT
    requires i + |word| <= |s| && s[i..i + |word|] == word
    ensures Scan(cfg, s, i) == Found(if word == NULL_TEXT then NullTok else BoolTok, i, i + |word|)
  {
    var want, kind := word[1..], if word == NULL_TEXT then NullTok else BoolTok;
    assert s[i] == s[i..i + |word|][0];
    assert s[i + 1..i + 1 + |want|] == s[i..i + |word|][1..];
    WalkGround(cfg, s, i);
    WordWalks(cfg, want, kind, s, i + 1, i + |want|);
    hide Walk;
  }

  // ---------------------------------------------------------------- numbers

  predicate EndsNumber(c: byte) { !IsDigit(c) && c != DOT && !IsExponentMark(c) }

  function NumberKind(m: Mode): Kind { if m.Zero? || m.Digits? then Integer else Double }

  /** The automaton reads a number as far as it goes. */
  lemma {:induction false} NumberWalks(cfg: Config, m: Mode, s: seq<byte>, i: nat, j: nat)
    requires i <= j < |s| && (InNumber(m) || (m.Ground? && i < j && (s[i] == MINUS || IsDigit(s[i]))))
    ensures var stop, end := Walk(cfg, m, s, i), Through(CFG, m, s[..j], i);
            && (stop.At? && stop.index == j && !stop.move.Reject? ==>
                  Ends(end) && stop.move == Before(NumberKind(end.value)))
            && (Ends(end) && EndsNumber(s[j]) ==> stop == At(j, Before(NumberKind(end.value))))
    decreases j - i
  {
    if i < j {
      assert s[..j][i] == s[i];
      assert Step(cfg, m, s[i]) == Step(CFG, m, s[i]);
      if Step(cfg, m, s[i]).To? {
        NumberWalks(cfg, Step(cfg, m, s[i]).mode, s, i + 1, j);
      }
    }
  }

  lemma {:induction false} ThroughShift(m: Mode, s: seq<byte>, d: nat, i: nat)
    requires d <= i <= |s|
    ensures Through(CFG, m, s, i) == Through(CFG, m, s[d..], i - d)
    decreases |s| - i
  {
    if i < |s| && Step(CFG, m, s[i]).To? {
      ThroughShift(Step(CFG, m, s[i]).mode, s, d, i + 1);
    }
  }

  /** A number without fraction and exponent is an integer, and no other. */
  lemma {:induction false} PartsDecide(m: Mode, raw: seq<byte>, k: nat)
    requires k <= |raw| && Ends(Through(CFG, m, raw, k))
    requires InNumber(m) || (m.Ground? && k < |raw| && (raw[k] == MINUS || IsDigit(raw[k])))
    ensures NumberKind(Through(CFG, m, raw, k).value) ==
            if (m.Ground? || m.Minus? || m.Zero? || m.Digits?) && !HasPart(raw, k) then Integer else Double
    decreases |raw| - k
  {
    if k < |raw| {
      PartsDecide(Step(CFG, m, raw[k]).mode, raw, k + 1);
    }
  }

  lemma NumberIs(s: seq<byte>, i: nat, j: nat)
    requires i < j <= |s|
    ensures Ends(Through(CFG, Ground, s[..j], i)) <==> IsNumber(s[i..j])
    ensures IsNumber(s[i..j]) ==>
              && NumberKind(Through(CFG, Ground, s[..j], i).value) == (if HasPart(s[i..j], 0) then Double else Integer)
              && (s[i] == MINUS || IsDigit(s[i]))
  {
    var raw := s[i..j];
    assert raw == s[..j][i..];
    ThroughShift(Ground, s[..j], i, i);
    NumbersAreNumbers(raw);
    hide Through, IsNumber;
    if ValidNumber(raw) {
      NumberStarts(raw);
      PartsDecide(Ground, raw, 0);
    }
  }

  lemma ScanNumber(cfg: Config, text: seq<byte>, s: seq<byte>, i: nat)
    requires IsNumber(text) && i + |text| < |s| && s[i..i + |text|] == text && EndsNumber(s[i + |text|])
    ensures Scan(cfg, s, i) == Found(if HasPart(text, 0) then Double else Integer, i, i + |text|)
  {
    NumbersAreNumbers(text);
    NumberStarts(text);
    NumberIs(s, i, i + |text|);
    NumberWalks(cfg, Ground, s, i, i + |text|);
    hide Walk, Through, IsNumber, HasPart;
  }

  // ---------------------------------------------------------------- any token

  lemma {:induction false} BodyShift(utf8: bool, n: nat, s: seq<byte>, d: nat, i: nat)
    requires d <= i <= |s|
    ensures JsonBody.BodyAt(utf8, n, s, i) == JsonBody.BodyAt(utf8, n, s[d..], i - d)
    decreases |s| - i
  {
    if i < |s| {
      assert s[d..][i - d] == s[i];
      if n > 0 {
        BodyShift(utf8, n - 1, s, d, i + 1);
      } else if s[i] != BACKSLASH {
        BodyShift(utf8, if utf8 then Continuations(s[i]) else 0, s, d, i + 1);
      } else if i + 1 < |s| {
        assert s[d..][i + 1 - d] == s[i + 1];
        FourShift(s, d, i + 2);
        if s[i + 1] != 0x75 {
          BodyShift(utf8, 0, s, d, i + 2);
        } else if JsonBody.FourDigits(s, i + 2) {
          BodyShift(utf8, 0, s, d, i + 6);
        }
      }
    }
  }

  lemma FourShift(s: seq<byte>, d: nat, i: nat)
    requires d <= i
    ensures d <= |s| ==> JsonBody.FourDigits(s, i) == JsonBody.FourDigits(s[d..], i - d)
  {
    if i + 4 <= |s| {
      assert forall k :: i <= k < i + 4 ==> s[k] == s[d..][k - d];
      assert forall k :: i - d <= k < i - d + 4 ==> s[d..][k] == s[k + d];
    }
  }

  /** A string in its place. */
  lemma StringInPlace(utf8: bool, s: seq<byte>, i: nat, j: nat)
    requires i + 2 <= j <= |s|
    ensures IsString(utf8, s[i..j]) <==>
            s[i] == QUOTE && s[j - 1] == QUOTE && JsonBody.BodyAt(utf8, 0, s[..j - 1], i + 1)
    ensures s[i] == QUOTE && s[j - 1] == QUOTE ==> (HasBackslash(s[i..j], 0, j - i) <==> HasBackslash(s, i + 1, j - 1))
  {
    var raw := s[i..j];
    assert raw[..|raw| - 1] == s[..j - 1][i..];
    BodyShift(utf8, 0, s[..j - 1], i, i + 1);
    if q :| 0 <= q < j - i && raw[q] == BACKSLASH {
      assert s[q + i] == BACKSLASH;
    }
    if q :| i + 1 <= q < j - 1 && s[q] == BACKSLASH {
      assert raw[q - i] == BACKSLASH;
    }
    hide JsonBody.BodyAt;
  }

  /** What the lexer finds is a token. */
  lemma FoundIsToken(cfg: Config, s: seq<byte>, i: nat)
    requires i < |s|
    ensures var stop := Walk(cfg, Ground, s, i);
            stop.At? ==>
              && (stop.move.Accept? ==> IsToken(cfg.utf8, stop.move.kind, s[i..stop.index + 1]))
              && (stop.move.Before? ==> i < stop.index && IsToken(cfg.utf8, stop.move.kind, s[i..stop.index]))
  {
    hide Walk, JsonBody.BodyAt, Through, IsNumber;
    var stop := Walk(cfg, Ground, s, i);
    WalkGround(cfg, s, i);
    if stop.At? {
      var j := stop.index;
      if s[i] == QUOTE {
        QuoteIsString(cfg, s, i);
      } else if s[i] == MINUS || IsDigit(s[i]) {
        NumberFound(cfg, s, i);
      } else if s[i] == SLASH {
        CommentIsNoToken(cfg, Slash, s, i + 1);
      } else if stop.move.Accept? {
        if GroundStep(cfg, s[i]).To? {
          var want, kind := GroundStep(cfg, s[i]).mode.want, GroundStep(cfg, s[i]).mode.kind;
          WordWalks(cfg, want, kind, s, i + 1, j);
          assert s[i..j + 1] == [s[i]] + s[i + 1..j + 1];
        }
      } else if stop.move.Before? {
        WordIsNoNumber(cfg, GroundStep(cfg, s[i]).mode.want, GroundStep(cfg, s[i]).mode.kind, s, i + 1);
      }
    }
  }

  lemma {:induction false} WordIsNoNumber(cfg: Config, want: seq<byte>, kind: Kind, s: seq<byte>, i: nat)
    requires i <= |s|
    ensures var stop := Walk(cfg, Word(want, kind), s, i); stop.At? ==> !stop.move.Before? && !stop.move.Drop?
    decreases |s| - i
  {
    if i < |s| && |want| > 1 && s[i] == want[0] {
      WordIsNoNumber(cfg, want[1..], kind, s, i + 1);
    }
  }

  predicate InComment(m: Mode) { m.Slash? || m.LineComment? || m.BlockComment? || m.BlockStar? }

  lemma {:induction false} CommentIsNoToken(cfg: Config, m: Mode, s: seq<byte>, i: nat)
    requires i <= |s| && InComment(m)
    ensures var stop := Walk(cfg, m, s, i); stop.At? ==> stop.move.Drop? || stop.move.Reject?
    decreases |s| - i
  {
    if i < |s| && Step(cfg, m, s[i]).To? {
      CommentIsNoToken(cfg, Step(cfg, m, s[i]).mode, s, i + 1);
    }
  }

  predicate InString(m: Mode) { m.Str? || m.Escape? || m.Hex? || m.Trail? }

  lemma {:induction false} StringStops(cfg: Config, m: Mode, s: seq<byte>, i: nat)
    requires i <= |s| && InString(m)
    ensures var stop := Walk(cfg, m, s, i); stop.At? ==> stop.move.Accept? || stop.move.Reject?
    decreases |s| - i
  {
    if i < |s| && Step(cfg, m, s[i]).To? {
      StringStops(cfg, Step(cfg, m, s[i]).mode, s, i + 1);
    }
  }

  lemma QuoteIsString(cfg: Config, s: seq<byte>, i: nat)
    requires i < |s| && s[i] == QUOTE
    ensures var stop := Walk(cfg, Str(false), s, i + 1);
            stop.At? ==> (stop.move.Accept? || stop.move.Reject?)
                         && (stop.move.Accept? ==> IsToken(cfg.utf8, stop.move.kind, s[i..stop.index + 1]))
  {
    var stop := Walk(cfg, Str(false), s, i + 1);
    StringStops(cfg, Str(false), s, i + 1);
    hide Walk, JsonBody.BodyAt, HasBackslash;
    if stop.At? && stop.move.Accept? {
      BodyWalks(cfg, 0, false, s, i + 1, stop.index);
      StringInPlace(cfg.utf8, s, i, stop.index + 1);
    }
  }

  lemma {:induction false} NumberStops(cfg: Config, m: Mode, s: seq<byte>, i: nat)
    requires i <= |s| && InNumber(m)
    ensures var stop := Walk(cfg, m, s, i); stop.At? ==> stop.move.Before? || stop.move.Reject?
    decreases |s| - i
  {
    if i < |s| && Step(cfg, m, s[i]).To? {
      NumberStops(cfg, Step(cfg, m, s[i]).mode, s, i + 1);
    }
  }

  lemma NumberFound(cfg: Config, s: seq<byte>, i: nat)
    requires i < |s| && (s[i] == MINUS || IsDigit(s[i]))
    ensures var stop := Walk(cfg, Ground, s, i);
            stop.At? ==> (stop.move.Before? || stop.move.Reject?)
                         && (stop.move.Before? ==>
                             i < stop.index && IsToken(cfg.utf8, stop.move.kind, s[i..stop.index]))
  {
    var stop := Walk(cfg, Ground, s, i);
    WalkGround(cfg, s, i);
    NumberStops(cfg, GroundStep(cfg, s[i]).mode, s, i + 1);
    if stop.At? && stop.move.Before? {
      NumberWalks(cfg, Ground, s, i, stop.index);
      NumberIs(s, i, stop.index);
    }
    hide Walk, Through, IsNumber, HasPart;
  }

  /** A token is what the lexer finds. A number must be followed by something that ends it. */
  lemma TokenIsFound(cfg: Config, s: seq<byte>, i: nat, j: nat, kind: Kind)
    requires i < j <= |s| && IsToken(cfg.utf8, kind, s[i..j])
    requires kind.Integer? || kind.Double? ==> j < |s| && EndsNumber(s[j])
    ensures Scan(cfg, s, i) == Found(kind, i, j)
  {
    hide Scan, Walk, JsonBody.BodyAt, IsNumber, HasPart, HasBackslash;
    var raw := s[i..j];
    assert TRUE_TEXT[0] == 0x74 && FALSE_TEXT[0] == 0x66 && NULL_TEXT[0] == 0x6E;
    match kind
    case NullTok => ScanWord(cfg, raw, s, i);
    case BoolTok => ScanWord(cfg, raw, s, i);
    case Integer => ScanNumber(cfg, raw, s, i);
    case Double => ScanNumber(cfg, raw, s, i);
    case Text => StringIsFound(cfg, s, i, j);
    case EscapedText => StringIsFound(cfg, s, i, j);
    case _ => assert raw[0] == s[i]; ScanPunctuation(cfg, s, i);
  }

  lemma StringIsFound(cfg: Config, s: seq<byte>, i: nat, j: nat)
    requires i + 2 <= j <= |s| && IsString(cfg.utf8, s[i..j])
    ensures Scan(cfg, s, i) == Found(StringKind(HasBackslash(s[i..j], 0, j - i)), i, j)
  {
    StringInPlace(cfg.utf8, s, i, j);
    BodyWalks(cfg, 0, false, s, i + 1, j - 1);
    hide Walk, JsonBody.BodyAt, HasBackslash, IsString;
    ScanQuote(cfg, s, i, j - 1, StringKind(HasBackslash(s, i + 1, j - 1)));
  }

  /** What the lexer hands over for a string is a body, in valid UTF-8 when it validates. */
  lemma StringIsBody(utf8: bool, raw: seq<byte>)
    requires IsString(utf8, raw)
    ensures JsonBody.BodyAt(utf8, 0, raw[1..|raw| - 1], 0)
  {
    BodyShift(utf8, 0, raw[..|raw| - 1], 1, 1);
    assert raw[..|raw| - 1][1..] == raw[1..|raw| - 1];
    hide JsonBody.BodyAt;
  }
}
