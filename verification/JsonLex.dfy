/** The token language of the JSON lexer, as an automaton that reads one byte at a time.
    The resumable lexer of module YajlLexer is proved against it. */
module JsonLex {
  import opened Bytes

  datatype Kind =
    | BoolTok | NullTok | Colon | Comma
    | OpenMap | CloseMap | OpenArray | CloseArray
    | Integer | Double | Text | EscapedText

  datatype LexError =
    | InvalidUtf8 | InvalidEscapedChar | InvalidJsonChar | InvalidHexChar
    | InvalidChar | InvalidWord
    | MissingIntegerAfterExponent | MissingIntegerAfterDecimal | MissingIntegerAfterMinus
    | UnallowedComment

  datatype Config = Config(comments: bool, utf8: bool)

  /** What has been read of the current token. */
  datatype Mode =
    | Ground
    | Word(want: seq<byte>, kind: Kind)
    | Str(escapes: bool) | Escape | Hex(missing: nat) | Trail(missing: nat, escapes: bool)
    | Minus | Zero | Digits | Point | Fraction | ExpMark | ExpSign | ExpDigits
    | Slash | LineComment | BlockComment | BlockStar

  /** What one byte does: continue the token, end it with or before this byte,
      complete something that is no token (white space, a comment), or fail. */
  datatype Move =
    | To(mode: Mode)
    | Drop
    | Accept(kind: Kind)
    | Before(kind: Kind)
    | Reject(error: LexError)

  predicate IsSpace(c: byte) { TAB <= c <= CR || c == SPACE }

  const RUE: seq<byte> := [0x72, 0x75, 0x65]
  const ALSE: seq<byte> := [0x61, 0x6C, 0x73, 0x65]
  const ULL: seq<byte> := [0x75, 0x6C, 0x6C]

  const TRUE_TEXT: seq<byte> := [0x74] + RUE
  const FALSE_TEXT: seq<byte> := [0x66] + ALSE
  const NULL_TEXT: seq<byte> := [0x6E] + ULL

  function GroundStep(cfg: Config, c: byte): Move {
    if c == LBRACE then Accept(OpenMap)
    else if c == RBRACE then Accept(CloseMap)
    else if c == LBRACKET then Accept(OpenArray)
    else if c == RBRACKET then Accept(CloseArray)
    else if c == COMMA then Accept(Comma)
    else if c == COLON then Accept(Colon)
    else if IsSpace(c) then Drop
    else if c == 0x74 then To(Word(RUE, BoolTok))
    else if c == 0x66 then To(Word(ALSE, BoolTok))
    else if c == 0x6E then To(Word(ULL, NullTok))
    else if c == QUOTE then To(Str(false))
    else if c == MINUS then To(Minus)
    else if c == ZERO then To(Zero)
    else if IsDigit(c) then To(Digits)
    else if c == SLASH then if cfg.comments then To(Slash) else Reject(UnallowedComment)
    else Reject(InvalidChar)
  }

  /** A byte that stands for itself inside a string and needs no look at its neighbours. */
  predicate Plain(cfg: Config, c: byte) {
    c >= 0x20 && c != QUOTE && c != BACKSLASH && (cfg.utf8 ==> c <= 0x7F)
  }

  /** The bytes that may follow a backslash, 'u' apart. */
  predicate IsEscaped(c: byte) {
    c == QUOTE || c == SLASH || c == BACKSLASH || c == 0x62 || c == 0x66 || c == 0x6E || c == 0x72 || c == 0x74
  }

  function StringStep(cfg: Config, escapes: bool, c: byte): Move {
    if c == QUOTE then Accept(if escapes then EscapedText else Text)
    else if c == BACKSLASH then To(Escape)
    else if c < 0x20 then Reject(InvalidJsonChar)
    else if !cfg.utf8 || Continuations(c) == 0 then To(Str(escapes))
    else if Continuations(c) < 4 then To(Trail(Continuations(c), escapes))
    else Reject(InvalidUtf8)
  }

  function AfterInteger(c: byte): Move {
    if c == DOT then To(Point)
    else if IsExponentMark(c) then To(ExpMark)
    else Before(Integer)
  }

  function Step(cfg: Config, m: Mode, c: byte): Move {
    match m
    case Ground => GroundStep(cfg, c)
    case Word(want, kind) =>
      if want == [] || c != want[0] then Reject(InvalidWord)
      else if |want| == 1 then Accept(kind) else To(Word(want[1..], kind))
    case Str(escapes) => StringStep(cfg, escapes, c)
    case Escape =>
      if c == 0x75 then To(Hex(4)) else if IsEscaped(c) then To(Str(true)) else Reject(InvalidEscapedChar)
    case Hex(n) =>
      if !IsHex(c) then Reject(InvalidHexChar) else if n <= 1 then To(Str(true)) else To(Hex(n - 1))
    case Trail(n, escapes) =>
      if !IsContinuation(c) then Reject(InvalidUtf8)
      else if n <= 1 then To(Str(escapes)) else To(Trail(n - 1, escapes))
    case Minus =>
      if c == ZERO then To(Zero) else if IsDigit(c) then To(Digits) else Reject(MissingIntegerAfterMinus)
    case Zero => AfterInteger(c)
    case Digits => if IsDigit(c) then To(Digits) else AfterInteger(c)
    case Point => if IsDigit(c) then To(Fraction) else Reject(MissingIntegerAfterDecimal)
    case Fraction =>
      if IsDigit(c) then To(Fraction) else AfterFraction(c)
    case ExpMark =>
      if c == PLUS || c == MINUS then To(ExpSign)
      else if IsDigit(c) then To(ExpDigits) else Reject(MissingIntegerAfterExponent)
    case ExpSign => if IsDigit(c) then To(ExpDigits) else Reject(MissingIntegerAfterExponent)
    case ExpDigits => if IsDigit(c) then To(ExpDigits) else Before(Double)
    case Slash =>
      if c == SLASH then To(LineComment) else if c == STAR then To(BlockComment) else Reject(InvalidChar)
    case LineComment => if c == LF then Drop else To(LineComment)
    case BlockComment => if c == STAR then To(BlockStar) else To(BlockComment)
    case BlockStar =>
      if c == SLASH then Drop else if c == STAR then To(BlockStar) else To(BlockComment)
  }

  /** Where the automaton stops: the index of the byte that decides and what it decides. */
  datatype Stop = OutOfText | At(index: nat, move: Move)

  function Walk(cfg: Config, m: Mode, s: seq<byte>, i: nat): (r: Stop)
    requires i <= |s|
    ensures i == |s| ==> r == OutOfText
    ensures r.At? ==> i <= r.index < |s| && !r.move.To?
    decreases |s| - i
  {
    if i == |s| then OutOfText
    else
      match Step(cfg, m, s[i])
      case To(next) => Walk(cfg, next, s, i + 1)
      case move => At(i, move)
  }

  /** The walk, one byte on. */
  function WalkOn(cfg: Config, move: Move, s: seq<byte>, i: nat): Stop
    requires i < |s|
  {
    if move.To? then Walk(cfg, move.mode, s, i + 1) else At(i, move)
  }

  // One byte of the walk, mode by mode.

  lemma WalkGround(cfg: Config, s: seq<byte>, i: nat)
    requires i < |s|
    ensures Walk(cfg, Ground, s, i) == WalkOn(cfg, GroundStep(cfg, s[i]), s, i)
  {
  }

  lemma WalkWord(cfg: Config, want: seq<byte>, kind: Kind, s: seq<byte>, i: nat)
    requires i < |s| && want != []
    ensures Walk(cfg, Word(want, kind), s, i) ==
            if s[i] != want[0] then At(i, Reject(InvalidWord))
            else if |want| == 1 then At(i, Accept(kind)) else Walk(cfg, Word(want[1..], kind), s, i + 1)
  {
  }

  lemma WalkString(cfg: Config, escapes: bool, s: seq<byte>, i: nat)
    requires i < |s|
    ensures Walk(cfg, Str(escapes), s, i) == WalkOn(cfg, StringStep(cfg, escapes, s[i]), s, i)
  {
  }

  lemma WalkEscape(cfg: Config, s: seq<byte>, i: nat)
    requires i < |s|
    ensures Walk(cfg, Escape, s, i) ==
            if s[i] == 0x75 then Walk(cfg, Hex(4), s, i + 1)
            else if IsEscaped(s[i]) then Walk(cfg, Str(true), s, i + 1) else At(i, Reject(InvalidEscapedChar))
  {
  }

  lemma WalkHex(cfg: Config, missing: nat, s: seq<byte>, i: nat)
    requires i < |s| && missing > 0
    ensures Walk(cfg, Hex(missing), s, i) ==
            if !IsHex(s[i]) then At(i, Reject(InvalidHexChar))
            else Walk(cfg, if missing == 1 then Str(true) else Hex(missing - 1), s, i + 1)
  {
  }

  lemma WalkTrail(cfg: Config, missing: nat, escapes: bool, s: seq<byte>, i: nat)
    requires i < |s| && missing > 0
    ensures Walk(cfg, Trail(missing, escapes), s, i) ==
            if !IsContinuation(s[i]) then At(i, Reject(InvalidUtf8))
            else Walk(cfg, if missing == 1 then Str(escapes) else Trail(missing - 1, escapes), s, i + 1)
  {
  }

  lemma WalkMinus(cfg: Config, s: seq<byte>, i: nat)
    requires i < |s|
    ensures Walk(cfg, Minus, s, i) ==
            if !IsDigit(s[i]) then At(i, Reject(MissingIntegerAfterMinus))
            else Walk(cfg, if s[i] == ZERO then Zero else Digits, s, i + 1)
  {
  }

  lemma WalkZero(cfg: Config, s: seq<byte>, i: nat)
    requires i < |s|
    ensures Walk(cfg, Zero, s, i) == WalkOn(cfg, AfterInteger(s[i]), s, i)
  {
  }

  lemma WalkDigits(cfg: Config, s: seq<byte>, i: nat)
    requires i < |s|
    ensures Walk(cfg, Digits, s, i) ==
            if IsDigit(s[i]) then Walk(cfg, Digits, s, i + 1) else WalkOn(cfg, AfterInteger(s[i]), s, i)
  {
  }

  lemma WalkPoint(cfg: Config, s: seq<byte>, i: nat)
    requires i < |s|
    ensures Walk(cfg, Point, s, i) ==
            if IsDigit(s[i]) then Walk(cfg, Fraction, s, i + 1) else At(i, Reject(MissingIntegerAfterDecimal))
  {
  }

  predicate IsExponentMark(c: byte) { c == 0x65 || c == 0x45 }

  function AfterFraction(c: byte): Move {
    if IsExponentMark(c) then To(ExpMark) else Before(Double)
  }

  lemma WalkFraction(cfg: Config, s: seq<byte>, i: nat)
    requires i < |s|
    ensures Walk(cfg, Fraction, s, i) ==
            if IsDigit(s[i]) then Walk(cfg, Fraction, s, i + 1) else WalkOn(cfg, AfterFraction(s[i]), s, i)
  {
  }

  lemma WalkExponent(cfg: Config, m: Mode, s: seq<byte>, i: nat)
    requires i < |s| && (m.ExpMark? || m.ExpSign? || m.ExpDigits?)
    ensures Walk(cfg, m, s, i) ==
            if IsDigit(s[i]) then Walk(cfg, ExpDigits, s, i + 1)
            else if m.ExpDigits? then At(i, Before(Double))
            else if m.ExpMark? && (s[i] == PLUS || s[i] == MINUS) then Walk(cfg, ExpSign, s, i + 1)
            else At(i, Reject(MissingIntegerAfterExponent))
  {
  }

  lemma WalkSlash(cfg: Config, s: seq<byte>, i: nat)
    requires i < |s|
    ensures Walk(cfg, Slash, s, i) ==
            if s[i] == SLASH then Walk(cfg, LineComment, s, i + 1)
            else if s[i] == STAR then Walk(cfg, BlockComment, s, i + 1) else At(i, Reject(InvalidChar))
  {
  }

  lemma WalkLineComment(cfg: Config, s: seq<byte>, i: nat)
    requires i < |s|
    ensures Walk(cfg, LineComment, s, i) == if s[i] == LF then At(i, Drop) else Walk(cfg, LineComment, s, i + 1)
  {
  }

  lemma WalkBlockComment(cfg: Config, s: seq<byte>, i: nat)
    requires i < |s|
    ensures Walk(cfg, BlockComment, s, i) == Walk(cfg, if s[i] == STAR then BlockStar else BlockComment, s, i + 1)
  {
  }

  /** After a star that no slash follows, the byte counts as one of the comment's body. */
  lemma WalkBlockStar(cfg: Config, s: seq<byte>, i: nat)
    requires i < |s|
    ensures Walk(cfg, BlockStar, s, i) == if s[i] == SLASH then At(i, Drop) else Walk(cfg, BlockComment, s, i)
  {
  }

  /** The first token at or after i, or where the unfinished rest begins. */
  datatype Lexed = More(from: nat) | Found(kind: Kind, from: nat, to: nat) | Bad(error: LexError)

  function Scan(cfg: Config, s: seq<byte>, i: nat): (r: Lexed)
    requires i <= |s|
    ensures r.More? ==> i <= r.from <= |s|
    ensures r.Found? ==> i <= r.from < r.to <= |s|
    decreases |s| - i
  {
    var r := Walk(cfg, Ground, s, i);
    if r.OutOfText? then More(i)
    else if r.move.Drop? then Scan(cfg, s, r.index + 1)
    else if r.move.Accept? then Found(r.move.kind, i, r.index + 1)
    else if r.move.Before? then Found(r.move.kind, i, r.index)
    else Bad(r.move.error)
  }

  lemma ScanOne(cfg: Config, s: seq<byte>, i: nat)
    requires i <= |s|
    ensures var r := Walk(cfg, Ground, s, i);
            Scan(cfg, s, i) ==
            if r.OutOfText? then More(i)
            else if r.move.Drop? then Scan(cfg, s, r.index + 1)
            else if r.move.Accept? then Found(r.move.kind, i, r.index + 1)
            else if r.move.Before? then Found(r.move.kind, i, r.index)
            else Bad(r.move.error)
  {
  }

  /** A decision once taken is not changed by more text. */
  lemma {:induction false} WalkExtends(cfg: Config, m: Mode, s: seq<byte>, t: seq<byte>, i: nat)
    requires i <= |s|
    ensures Walk(cfg, m, s, i).At? ==> Walk(cfg, m, s + t, i) == Walk(cfg, m, s, i)
    ensures Walk(cfg, m, s, i).OutOfText? && Walk(cfg, m, s + t, i).At? ==> |s| <= Walk(cfg, m, s + t, i).index
    decreases |s| - i
  {
    if i < |s| {
      assert (s + t)[i] == s[i];
      if Step(cfg, m, s[i]).To? {
        WalkExtends(cfg, Step(cfg, m, s[i]).mode, s, t, i + 1);
      }
    }
  }

  /** Walking depends only on the bytes from i on. */
  lemma {:induction false} WalkShift(cfg: Config, m: Mode, s: seq<byte>, d: nat, i: nat)
    requires d <= i <= |s|
    ensures Walk(cfg, m, s[d..], i - d) ==
            match Walk(cfg, m, s, i) case OutOfText => OutOfText case At(j, move) => if d <= j then At(j - d, move)
                else OutOfText
    decreases |s| - i
  {
    if i < |s| && Step(cfg, m, s[i]).To? {
      WalkShift(cfg, Step(cfg, m, s[i]).mode, s, d, i + 1);
    }
  }

  function Shift(r: Lexed, d: nat): Lexed {
    match r
    case More(from) => More(from + d)
    case Found(kind, from, to) => Found(kind, from + d, to + d)
    case Bad(_) => r
  }

  lemma {:induction false} ScanShift(cfg: Config, s: seq<byte>, d: nat, i: nat)
    requires d <= i <= |s|
    ensures Scan(cfg, s, i) == Shift(Scan(cfg, s[d..], i - d), d)
    decreases |s| - i
  {
    WalkShift(cfg, Ground, s, d, i);
    var r := Walk(cfg, Ground, s, i);
    if r.At? && r.move.Drop? {
      ScanShift(cfg, s, d, r.index + 1);
    }
  }

  /** Chunk boundaries, one token at a time: what was decided stays, and what was left unfinished
      is scanned again from where it began. */
  lemma {:induction false} ScanExtends(cfg: Config, s: seq<byte>, t: seq<byte>, i: nat)
    requires i <= |s|
    ensures !Scan(cfg, s, i).More? ==> Scan(cfg, s + t, i) == Scan(cfg, s, i)
    ensures Scan(cfg, s, i).More? ==> Scan(cfg, s + t, i) == Scan(cfg, s + t, Scan(cfg, s, i).from)
    decreases |s| - i
  {
    WalkExtends(cfg, Ground, s, t, i);
    hide Walk, Scan;
    var r := Walk(cfg, Ground, s, i);
    if r.At? && r.move.Drop? {
      ScanExtends(cfg, s, t, r.index + 1);
    }
    ScanAlike(cfg, s, s + t, i);
  }

  lemma ScanAlike(cfg: Config, s: seq<byte>, u: seq<byte>, i: nat)
    requires i <= |s| <= |u| && (Walk(cfg, Ground, s, i).At? ==> Walk(cfg, Ground, u, i) == Walk(cfg, Ground, s, i))
    requires var r := Walk(cfg, Ground, s, i);
             r.At? && r.move.Drop? ==> Alike(Scan(cfg, s, r.index + 1), cfg, u, r.index + 1)
    ensures Alike(Scan(cfg, s, i), cfg, u, i)
  {
    ScanOne(cfg, s, i);
    ScanOne(cfg, u, i);
    hide Walk, Scan;
  }

  /** What was found in the beginning of u is found in u, and what was not is looked for from where it begins. */
  predicate Alike(r: Lexed, cfg: Config, u: seq<byte>, i: nat)
    requires i <= |u|
  {
    if r.More? then r.from <= |u| && Scan(cfg, u, i) == Scan(cfg, u, r.from) else Scan(cfg, u, i) == r
  }

  /** The rest that is kept for the next chunk is itself unfinished from its first byte. */
  lemma {:induction false} RestIsUnfinished(cfg: Config, s: seq<byte>, i: nat)
    requires i <= |s| && Scan(cfg, s, i).More?
    ensures var k := Scan(cfg, s, i).from; Walk(cfg, Ground, s[k..], 0) == OutOfText
    decreases |s| - i
  {
    var r := Walk(cfg, Ground, s, i);
    if r.At? {
      RestIsUnfinished(cfg, s, r.index + 1);
    } else {
      WalkShift(cfg, Ground, s, i, i);
    }
  }

  /** Only numbers are read one byte too far. */
  lemma {:induction false} OnlyNumbersEndBefore(cfg: Config, m: Mode, s: seq<byte>, i: nat)
    requires i <= |s| && Walk(cfg, m, s, i).At? && Walk(cfg, m, s, i).move.Before?
    ensures Walk(cfg, m, s, i).move.kind.Integer? || Walk(cfg, m, s, i).move.kind.Double?
    decreases |s| - i
  {
    if Step(cfg, m, s[i]).To? {
      OnlyNumbersEndBefore(cfg, Step(cfg, m, s[i]).mode, s, i + 1);
    }
  }

  /** A finished string still carries both its quotes. */
  lemma StringHasQuotes(cfg: Config, s: seq<byte>, i: nat)
    requires i <= |s| && Scan(cfg, s, i).Found? && Scan(cfg, s, i).from == i
    requires Scan(cfg, s, i).kind.Text? || Scan(cfg, s, i).kind.EscapedText?
    ensures i + 2 <= Scan(cfg, s, i).to
  {
    var r := Walk(cfg, Ground, s, i);
    WalkGround(cfg, s, i);
    if r.move.Before? {
      OnlyNumbersEndBefore(cfg, Ground, s, i);
    }
  }

  /** White space before a token changes nothing. */
  lemma {:induction false} ScanSkipsSpace(cfg: Config, s: seq<byte>, i: nat, j: nat)
    requires i <= j <= |s| && forall k :: i <= k < j ==> IsSpace(s[k])
    ensures Scan(cfg, s, i) == Scan(cfg, s, j)
    decreases j - i
  {
    if i < j {
      assert IsSpace(s[i]);
      ScanSkipsSpace(cfg, s, i + 1, j);
    }
  }
}
