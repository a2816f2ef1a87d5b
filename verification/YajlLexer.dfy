/** The resumable lexer of deps/yajl/src/yajl_lex.c: a token cut by the end of a chunk is kept in a buffer,
    and read again from there when the next chunk arrives. */
module YajlLexer {
  import opened Bytes
  import opened JsonLex

  datatype Token = Eof | Error | Comment | Tok(kind: Kind)

  /** The text handed to the client: a string goes without its quotes. */
  function Lexeme(kind: Kind, raw: seq<byte>): seq<byte> {
    if (kind.Text? || kind.EscapedText?) && |raw| >= 2 then raw[1..|raw| - 1] else raw
  }

  /** yajl_string_scan: how many leading bytes need no attention. */
  method StringScan(cfg: Config, text: seq<byte>, from: nat) returns (skip: nat)
    requires from <= |text|
    ensures from + skip <= |text|
    ensures forall k :: from <= k < from + skip ==> Plain(cfg, text[k])
    ensures from + skip < |text| ==> !Plain(cfg, text[from + skip])
  {
    skip := 0;
    while from + skip < |text| && Plain(cfg, text[from + skip])
      invariant from + skip <= |text|
      invariant forall k :: from <= k < from + skip ==> Plain(cfg, text[k])
    {
      skip := skip + 1;
    }
  }

  lemma {:induction false} WalkSkipsPlain(cfg: Config, escapes: bool, s: seq<byte>, i: nat, j: nat)
    requires i <= j <= |s| && forall k :: i <= k < j ==> Plain(cfg, s[k])
    ensures Walk(cfg, Str(escapes), s, i) == Walk(cfg, Str(escapes), s, j)
    decreases j - i
  {
    if i < j {
      assert Plain(cfg, s[i]);
      WalkSkipsPlain(cfg, escapes, s, i + 1, j);
    }
  }

/** The next octet of a word. */
  lemma WalkWordOn(cfg: Config, want: seq<byte>, i: nat, kind: Kind, s: seq<byte>, q: nat)
    requires q < |s| && i < |want|
    ensures Walk(cfg, Word(want[i..], kind), s, q) ==
            if s[q] != want[i] then At(q, Reject(InvalidWord))
            else if i + 1 == |want| then At(q, Accept(kind)) else Walk(cfg, Word(want[i + 1..], kind), s, q + 1)
  {
    hide Walk;
    WalkWord(cfg, want[i..], kind, s, q);
    assert want[i..][1..] == want[i + 1..];
  }

  class Lexer {
    const cfg: Config
    var buf: seq<byte>
    var bufOff: nat
    var bufInUse: bool
    var error: LexError

    constructor (allowComments: bool, validateUtf8: bool)
      ensures cfg == Config(allowComments, validateUtf8)
      ensures Idle() && Pending() == []
    {
      cfg := Config(allowComments, validateUtf8);
      buf, bufOff, bufInUse := [], 0, false;
    }

    /** What earlier chunks left unread. */
    ghost function Pending(): seq<byte>
      reads this`buf, this`bufInUse
    {
      if bufInUse then buf else []
    }

    /** Between calls: the buffer holds the unfinished beginning of a token, or nothing. */
    ghost predicate Idle()
      reads this
    {
      bufInUse ==> bufOff == 0 && Walk(cfg, Ground, buf, 0) == OutOfText
    }

    /** While reading: the buffer is exhausted before the chunk is touched. Together they make up
        the text whole, and p is where the next byte comes from. */
    ghost predicate Sees(text: seq<byte>, off: nat, whole: seq<byte>, p: nat)
      reads this`buf, this`bufOff, this`bufInUse
    {
      && off <= |text| && |text| > 0
      && whole == Pending() + text
      && p == (if bufInUse then bufOff else 0) + off
      && (bufInUse ==> bufOff <= |buf| && (bufOff < |buf| ==> off == 0))
    }

    method ReadChar(text: seq<byte>, off: nat, ghost whole: seq<byte>, ghost p: nat) returns (c: byte, off': nat)
      requires Sees(text, off, whole, p) && off < |text|
      modifies this`bufOff
      ensures Sees(text, off', whole, p + 1)
      ensures p < |whole| && c == whole[p]
      ensures off' >= |text| <==> p + 1 == |whole|
    {
      if bufInUse && |buf| > 0 && bufOff < |buf| {
        c, off' := buf[bufOff], off;
        bufOff := bufOff + 1;
      } else {
        c, off' := text[off], off + 1;
      }
    }

    method UnreadChar(text: seq<byte>, off: nat, ghost whole: seq<byte>, ghost p: nat) returns (off': nat)
      requires Sees(text, off, whole, p) && p > 0
      modifies this`bufOff
      ensures Sees(text, off', whole, p - 1)
      ensures off' < |text| && p <= |whole|
    {
      if off > 0 {
        off' := off - 1;
      } else {
        off' := off;
        bufOff := bufOff - 1;
      }
    }

    lemma EndOfText(text: seq<byte>, off: nat, whole: seq<byte>, p: nat)
      requires Sees(text, off, whole, p)
      ensures p <= |whole| && (off >= |text| <==> p == |whole|)
    {
    }

    /** A token routine did what the automaton does: it decided the same, at the same byte q. */
    static ghost predicate Follows(stop: Stop, tok: Token, error: LexError, atEnd: bool, q: nat)
    {
      match stop
      case OutOfText => tok == Eof && atEnd
      case At(j, Accept(kind)) => tok == Tok(kind) && q == j + 1
      case At(j, Before(kind)) => tok == Tok(kind) && q == j
      case At(j, Drop) => tok == Comment && q == j + 1
      case At(_, Reject(e)) => tok == Error && error == e
      case At(_, To(_)) => false
    }

    /** One continuation byte of yajl_lex_utf8_char, missing counting it; ok means that it is one. */
    method TrailByte(text: seq<byte>, off: nat, ghost missing: nat, ghost escapes: bool, ghost whole: seq<byte>,
                     ghost p: nat)
      returns (ok: bool, off': nat, ghost q: nat)
      requires Sees(text, off, whole, p) && p <= |whole| && missing > 0
      modifies this`bufOff
      ensures Sees(text, off', whole, q) && p <= q <= |whole|
      ensures var stop := Walk(cfg, Trail(missing, escapes), whole, p);
              if ok then stop == Walk(cfg, if missing == 1 then Str(escapes) else Trail(missing - 1, escapes), whole, q)
              else if p == |whole| then stop == OutOfText && off' >= |text|
              else stop == At(p, Reject(InvalidUtf8)) && q == p + 1
    {
      EndOfText(text, off, whole, p);
      hide Walk, Sees, Step;
      ok, off', q := false, off, p;
      if off < |text| {
        var cur: byte;
        cur, off' := ReadChar(text, off, whole, p);
        WalkTrail(cfg, missing, escapes, whole, p);
        ok, q := cur / 64 == 2, p + 1;
      }
    }

    method LexUtf8Char(text: seq<byte>, off: nat, lead: byte, ghost escapes: bool, ghost whole: seq<byte>, ghost p: nat)
      returns (tok: Token, off': nat, ghost q: nat)
      requires Sees(text, off, whole, p) && cfg.utf8 && 0 < p <= |whole|
      requires lead >= 0x20 && lead != QUOTE && lead != BACKSLASH
      modifies this`bufOff
      ensures Sees(text, off', whole, q) && p <= q <= |whole|
      ensures tok == Eof || tok == Error || tok == Tok(Text)
      ensures var stop := WalkOn(cfg, StringStep(cfg, escapes, lead), whole, p - 1);
              match tok
              case Eof => stop == OutOfText && off' >= |text|
              case Error => stop.At? && stop.move == Reject(InvalidUtf8)
              case Tok(_) => stop == Walk(cfg, Str(escapes), whole, q)
              case Comment => false
    {
      hide Walk, Sees, Step;
      off', q := off, p;
      var missing := if lead <= 0x7F then 0
          else if lead / 32 == 0x06 then 1 else if lead / 16 == 0x0E then 2 else if lead / 8 == 0x1E then 3 else 4;
      if missing == 4 {
        return Error, off', q;
      }
      ghost var stop := WalkOn(cfg, StringStep(cfg, escapes, lead), whole, p - 1);
      while missing > 0
        invariant 0 <= missing < 4 && Sees(text, off', whole, q) && p <= q <= |whole|
        invariant stop == Walk(cfg, if missing == 0 then Str(escapes) else Trail(missing, escapes), whole, q)
      {
        var ok: bool;
        EndOfText(text, off', whole, q);
        var ended := off' >= |text|;
        ok, off', q := TrailByte(text, off', missing, escapes, whole, q);
        if !ok {
          return if ended then Eof else Error, off', q;
        }
        missing := missing - 1;
      }
      return Tok(Text), off', q;
    }

    method LexString(text: seq<byte>, off: nat, ghost whole: seq<byte>, ghost p: nat)
      returns (tok: Token, off': nat, ghost q: nat)
      requires Sees(text, off, whole, p) && p <= |whole|
      modifies this`bufOff, this`error
      ensures Sees(text, off', whole, q) && p <= q <= |whole|
      ensures Follows(Walk(cfg, Str(false), whole, p), tok, error, off' >= |text|, q)
    {
      hide Walk, Sees, Step;
      ghost var goal := Walk(cfg, Str(false), whole, p);
      off', q := off, p;
      var hasEscapes := false;
      while true
        invariant Sees(text, off', whole, q) && p <= q <= |whole|
        invariant Walk(cfg, Str(hasEscapes), whole, q) == goal
        decreases |whole| - q
      {
        off', q := SkipPlain(text, off', hasEscapes, whole, q);
        if off' >= |text| {
          return Eof, off', q;
        }
        var c: byte;
        c, off' := ReadChar(text, off', whole, q);
        WalkString(cfg, hasEscapes, whole, q);
        q := q + 1;
        if c == QUOTE {
          return Tok(if hasEscapes then EscapedText else Text), off', q;
        } else if c == BACKSLASH {
          hasEscapes := true;
          if off' >= |text| {
            return Eof, off', q;
          }
          c, off' := ReadChar(text, off', whole, q);
          WalkEscape(cfg, whole, q);
          q := q + 1;
          if c == 0x75 {
            var ok: bool;
            ok, off', q := LexHex(text, off', whole, q);
            if !ok {
              return if off' >= |text| then Eof else Error, off', q;
            }
          } else if !IsEscaped(c) {
            off' := UnreadChar(text, off', whole, q);
            error := InvalidEscapedChar;
            return Error, off', q - 1;
          }
        } else if c < 0x20 {
          off' := UnreadChar(text, off', whole, q);
          error := InvalidJsonChar;
          return Error, off', q - 1;
        } else if cfg.utf8 {
          var t: Token;
          t, off', q := LexUtf8Char(text, off', c, hasEscapes, whole, q);
          if t == Eof {
            return Eof, off', q;
          } else if t == Error {
            error := InvalidUtf8;
            return Error, off', q;
          }
        }
      }
    }

    /** The four digits after \u; not ok means that the text ended or a digit is wrong. */
    method LexHex(text: seq<byte>, off: nat, ghost whole: seq<byte>, ghost p: nat)
      returns (ok: bool, off': nat, ghost q: nat)
      requires Sees(text, off, whole, p) && p <= |whole| && (off >= |text| <==> p == |whole|)
      modifies this`bufOff, this`error
      ensures Sees(text, off', whole, q) && p <= q <= |whole|
      ensures if ok then Walk(cfg, Hex(4), whole, p) == Walk(cfg, Str(true), whole, q)
              else if off' >= |text| then Walk(cfg, Hex(4), whole, p) == OutOfText
              else Walk(cfg, Hex(4), whole, p) == At(q, Reject(InvalidHexChar)) && error == InvalidHexChar
    {
      hide Walk, Sees, Step;
      off', q := off, p;
      for i := 0 to 4
        invariant Sees(text, off', whole, q) && p <= q <= |whole|
        invariant off' >= |text| <==> q == |whole|
        invariant Walk(cfg, if i < 4 then Hex(4 - i) else Str(true), whole, q) == Walk(cfg, Hex(4), whole, p)
      {
        if off' >= |text| {
          return false, off', q;
        }
        var c: byte;
        c, off' := ReadChar(text, off', whole, q);
        WalkHex(cfg, 4 - i, whole, q);
        q := q + 1;
        if !IsHex(c) {
          off' := UnreadChar(text, off', whole, q);
          error := InvalidHexChar;
          return false, off', q - 1;
        }
      }
      return true, off', q;
    }

    /** The fast scan at the head of yajl_lex_string, over the buffer or else over the chunk. */
    method SkipPlain(text: seq<byte>, off: nat, ghost escapes: bool, ghost whole: seq<byte>, ghost p: nat)
      returns (off': nat, ghost q: nat)
      requires Sees(text, off, whole, p) && p <= |whole|
      modifies this`bufOff
      ensures Sees(text, off', whole, q) && p <= q <= |whole|
      ensures off' >= |text| <==> q == |whole|
      ensures Walk(cfg, Str(escapes), whole, q) == Walk(cfg, Str(escapes), whole, p)
    {
      hide Walk;
      off', q := off, p;
      if bufInUse && |buf| > 0 && bufOff < |buf| {
        var skip := StringScan(cfg, buf, bufOff);
        bufOff, q := bufOff + skip, p + skip;
      } else if off' < |text| {
        var skip := StringScan(cfg, text, off');
        off', q := off' + skip, p + skip;
      }
      WalkSkipsPlain(cfg, escapes, whole, p, q);
    }

    method LexNumber(text: seq<byte>, off: nat, ghost whole: seq<byte>, ghost p: nat)
      returns (tok: Token, off': nat, ghost q: nat)
      requires Sees(text, off, whole, p) && off < |text|
      requires p < |whole| && (whole[p] == MINUS || IsDigit(whole[p]))
      modifies this`bufOff, this`error
      ensures Sees(text, off', whole, q) && p <= q <= |whole|
      ensures Follows(Walk(cfg, Ground, whole, p), tok, error, off' >= |text|, q)
    {
      hide Walk, Sees, Step, AfterInteger;
      ghost var goal := Walk(cfg, Ground, whole, p);
      var kind := Integer;
      var c: byte;
      q := p;
      c, off' := ReadChar(text, off, whole, q);
      WalkGround(cfg, whole, q);
      q := q + 1;
      if c == MINUS {
        if off' >= |text| { return Eof, off', q; }
        c, off' := ReadChar(text, off', whole, q);
        WalkMinus(cfg, whole, q);
        q := q + 1;
      }
      if c == ZERO {
        if off' >= |text| { return Eof, off', q; }
        c, off' := ReadChar(text, off', whole, q);
        WalkZero(cfg, whole, q);
        q := q + 1;
      } else if IsDigit(c) {
        var ended: bool;
        ended, c, off', q := SkipDigits(text, off', whole, q);
        if ended { return Eof, off', q; }
      } else {
        off' := UnreadChar(text, off', whole, q);
        error := MissingIntegerAfterMinus;
        return Error, off', q - 1;
      }
      tok, off', q := LexFraction(text, off', c, whole, q);
    }

    /** The digits of an integer behind the first, and the byte c that follows them, unless the text ends. */
    method SkipDigits(text: seq<byte>, off: nat, ghost whole: seq<byte>, ghost p: nat)
      returns (ended: bool, c: byte, off': nat, ghost q: nat)
      requires Sees(text, off, whole, p) && p <= |whole| && (off >= |text| <==> p == |whole|)
      modifies this`bufOff
      ensures Sees(text, off', whole, q) && p <= q <= |whole| && (off' >= |text| <==> q == |whole|)
      ensures if ended then Walk(cfg, Digits, whole, p) == OutOfText && off' >= |text|
              else 0 < q && c == whole[q - 1]
                   && Walk(cfg, Digits, whole, p) == WalkOn(cfg, AfterInteger(c), whole, q - 1)
    {
      hide Walk, Sees, Step, AfterInteger;
      c, off', q := 0, off, p;
      while true
        invariant Sees(text, off', whole, q) && p <= q <= |whole|
        invariant off' >= |text| <==> q == |whole|
        invariant Walk(cfg, Digits, whole, q) == Walk(cfg, Digits, whole, p)
        decreases |whole| - q
      {
        if off' >= |text| { return true, c, off', q; }
        c, off' := ReadChar(text, off', whole, q);
        WalkDigits(cfg, whole, q);
        q := q + 1;
        if !IsDigit(c) { return false, c, off', q; }
      }
    }

    /** The second half of yajl_lex_number, from the byte c that follows the integer digits. */
    method LexFraction(text: seq<byte>, off: nat, first: byte, ghost whole: seq<byte>, ghost p: nat)
      returns (tok: Token, off': nat, ghost q: nat)
      requires Sees(text, off, whole, p) && 0 < p <= |whole| && first == whole[p - 1]
      requires off >= |text| <==> p == |whole|
      modifies this`bufOff, this`error
      ensures Sees(text, off', whole, q) && p - 1 <= q <= |whole|
      ensures Follows(WalkOn(cfg, AfterInteger(first), whole, p - 1), tok, error, off' >= |text|, q)
    {
      hide Walk, Sees, Step;
      var c, kind := first, Integer;
      off', q := off, p;
      ghost var goal := WalkOn(cfg, AfterInteger(first), whole, p - 1);
      if c == DOT {
        var digits := 0;
        if off' >= |text| { return Eof, off', q; }
        c, off' := ReadChar(text, off', whole, q);
        WalkPoint(cfg, whole, q);
        q := q + 1;
        while IsDigit(c)
          invariant Sees(text, off', whole, q) && p < q <= |whole| && digits >= 0
          invariant off' >= |text| <==> q == |whole|
          invariant goal == if IsDigit(c) then Walk(cfg, Fraction, whole, q)
                              else WalkOn(cfg, if digits == 0 then Reject(MissingIntegerAfterDecimal)
                                  else AfterFraction(c), whole, q - 1)
          decreases |whole| - q
        {
          digits := digits + 1;
          if off' >= |text| { return Eof, off', q; }
          c, off' := ReadChar(text, off', whole, q);
          WalkFraction(cfg, whole, q);
          q := q + 1;
        }
        if digits == 0 {
          off' := UnreadChar(text, off', whole, q);
          error := MissingIntegerAfterDecimal;
          return Error, off', q - 1;
        }
        kind := Double;
      }
      if IsExponentMark(c) {
        tok, off', q := LexExponent(text, off', whole, q);
      } else {
        off' := UnreadChar(text, off', whole, q);
        return Tok(kind), off', q - 1;
      }
    }

    /** The last part of yajl_lex_number, after the 'e'. */
    method LexExponent(text: seq<byte>, off: nat, ghost whole: seq<byte>, ghost p: nat)
      returns (tok: Token, off': nat, ghost q: nat)
      requires Sees(text, off, whole, p) && p <= |whole|
      requires off >= |text| <==> p == |whole|
      modifies this`bufOff, this`error
      ensures Sees(text, off', whole, q) && p <= q <= |whole|
      ensures Follows(Walk(cfg, ExpMark, whole, p), tok, error, off' >= |text|, q)
    {
      hide Walk, Sees, Step;
      ghost var goal := Walk(cfg, ExpMark, whole, p);
      q := p;
      var c: byte;
      if off >= |text| { return Eof, off, q; }
      c, off' := ReadChar(text, off, whole, q);
      WalkExponent(cfg, ExpMark, whole, q);
      q := q + 1;
      if c == PLUS || c == MINUS {
        if off' >= |text| { return Eof, off', q; }
        c, off' := ReadChar(text, off', whole, q);
        WalkExponent(cfg, ExpSign, whole, q);
        q := q + 1;
      }
      if !IsDigit(c) {
        off' := UnreadChar(text, off', whole, q);
        error := MissingIntegerAfterExponent;
        return Error, off', q - 1;
      }
      while true
        invariant Sees(text, off', whole, q) && p < q <= |whole|
        invariant off' >= |text| <==> q == |whole|
        invariant Walk(cfg, ExpDigits, whole, q) == goal
        decreases |whole| - q
      {
        if off' >= |text| { return Eof, off', q; }
        c, off' := ReadChar(text, off', whole, q);
        WalkExponent(cfg, ExpDigits, whole, q);
        q := q + 1;
        if !IsDigit(c) { break; }
      }
      off' := UnreadChar(text, off', whole, q);
      return Tok(Double), off', q - 1;
    }

    method LexComment(text: seq<byte>, off: nat, ghost whole: seq<byte>, ghost p: nat)
      returns (tok: Token, off': nat, ghost q: nat)
      requires Sees(text, off, whole, p) && p <= |whole|
      modifies this`bufOff, this`error
      ensures Sees(text, off', whole, q) && p <= q <= |whole|
      ensures Follows(Walk(cfg, Slash, whole, p), tok, error, off' >= |text|, q)
    {
      EndOfText(text, off, whole, p);
      hide Walk, Sees, Step;
      off', q := off, p;
      var c: byte;
      if off' >= |text| { return Eof, off', q; }
      c, off' := ReadChar(text, off', whole, q);
      WalkSlash(cfg, whole, q);
      q := q + 1;
      if c == SLASH {
        tok, off', q := LexLineComment(text, off', whole, q);
      } else if c == STAR {
        tok, off', q := LexBlockComment(text, off', whole, q);
      } else {
        error := InvalidChar;
        return Error, off', q;
      }
    }

    method LexLineComment(text: seq<byte>, off: nat, ghost whole: seq<byte>, ghost p: nat)
      returns (tok: Token, off': nat, ghost q: nat)
      requires Sees(text, off, whole, p) && p <= |whole| && (off >= |text| <==> p == |whole|)
      modifies this`bufOff
      ensures Sees(text, off', whole, q) && p <= q <= |whole|
      ensures Follows(Walk(cfg, LineComment, whole, p), tok, error, off' >= |text|, q)
    {
      hide Walk, Sees, Step;
      off', q := off, p;
      var c: byte;
      while true
        invariant Sees(text, off', whole, q) && p <= q <= |whole|
        invariant off' >= |text| <==> q == |whole|
        invariant Walk(cfg, LineComment, whole, q) == Walk(cfg, LineComment, whole, p)
        decreases |whole| - q
      {
        if off' >= |text| { return Eof, off', q; }
        c, off' := ReadChar(text, off', whole, q);
        WalkLineComment(cfg, whole, q);
        q := q + 1;
        if c == LF { return Comment, off', q; }
      }
    }

    method LexBlockComment(text: seq<byte>, off: nat, ghost whole: seq<byte>, ghost p: nat)
      returns (tok: Token, off': nat, ghost q: nat)
      requires Sees(text, off, whole, p) && p <= |whole| && (off >= |text| <==> p == |whole|)
      modifies this`bufOff
      ensures Sees(text, off', whole, q) && p <= q <= |whole|
      ensures Follows(Walk(cfg, BlockComment, whole, p), tok, error, off' >= |text|, q)
    {
      hide Walk, Sees, Step;
      off', q := off, p;
      var c: byte;
      while true
        invariant Sees(text, off', whole, q) && p <= q <= |whole|
        invariant off' >= |text| <==> q == |whole|
        invariant Walk(cfg, BlockComment, whole, q) == Walk(cfg, BlockComment, whole, p)
        decreases |whole| - q
      {
        if off' >= |text| { return Eof, off', q; }
        c, off' := ReadChar(text, off', whole, q);
        WalkBlockComment(cfg, whole, q);
        q := q + 1;
        if c == STAR {
          if off' >= |text| { return Eof, off', q; }
          c, off' := ReadChar(text, off', whole, q);
          WalkBlockStar(cfg, whole, q);
          if c == SLASH {
            return Comment, off', q + 1;
          } else {
            off' := UnreadChar(text, off', whole, q + 1);
          }
        }
      }
    }

    /** The rest of true, false or null; its first letter has been read. */
    method LexWord(text: seq<byte>, off: nat, want: seq<byte>, kind: Kind, ghost whole: seq<byte>, ghost p: nat)
      returns (tok: Token, off': nat, ghost q: nat)
      requires Sees(text, off, whole, p) && p <= |whole| && want != []
      modifies this`bufOff, this`error
      ensures Sees(text, off', whole, q) && p <= q <= |whole|
      ensures Follows(Walk(cfg, Word(want, kind), whole, p), tok, error, off' >= |text|, q)
    {
      EndOfText(text, off, whole, p);
      hide Walk, Sees, Step;
      off', q := off, p;
      var i := 0;
      while true
        invariant Sees(text, off', whole, q) && p <= q <= |whole| && 0 <= i < |want|
        invariant off' >= |text| <==> q == |whole|
        invariant Walk(cfg, Word(want[i..], kind), whole, q) == Walk(cfg, Word(want, kind), whole, p)
        decreases |want| - i
      {
        if off' >= |text| { return Eof, off', q; }
        var c: byte;
        c, off' := ReadChar(text, off', whole, q);
        WalkWordOn(cfg, want, i, kind, whole, q);
        q := q + 1;
        if c != want[i] {
          off' := UnreadChar(text, off', whole, q);
          error := InvalidWord;
          return Error, off', q - 1;
        }
        i := i + 1;
        if i == |want| { return Tok(kind), off', q; }
      }
    }

    /** One token from where the automaton stands on its first byte: the switch of yajl_lex_lex. */
    method LexToken(text: seq<byte>, off: nat, c: byte, ghost whole: seq<byte>, ghost p: nat)
      returns (tok: Token, off': nat, ghost q: nat)
      requires Sees(text, off, whole, p + 1) && p < |whole| && c == whole[p] && !IsSpace(c)
      modifies this`bufOff, this`error
      ensures Sees(text, off', whole, q) && p <= q <= |whole|
      ensures Follows(Walk(cfg, Ground, whole, p), tok, error, off' >= |text|, q)
    {
      WalkGround(cfg, whole, p);
      hide Walk, Sees, Step, Scan;
      off', q := off, p + 1;
      if c == LBRACE {
        tok := Tok(OpenMap);
      } else if c == RBRACE {
        tok := Tok(CloseMap);
      } else if c == LBRACKET {
        tok := Tok(OpenArray);
      } else if c == RBRACKET {
        tok := Tok(CloseArray);
      } else if c == COMMA {
        tok := Tok(Kind.Comma);
      } else if c == COLON {
        tok := Tok(Kind.Colon);
      } else if c == 0x74 {
        tok, off', q := LexWord(text, off', RUE, BoolTok, whole, q);
      } else if c == 0x66 {
        tok, off', q := LexWord(text, off', ALSE, BoolTok, whole, q);
      } else if c == 0x6E {
        tok, off', q := LexWord(text, off', ULL, NullTok, whole, q);
      } else if c == QUOTE {
        tok, off', q := LexString(text, off', whole, q);
      } else if c == MINUS || IsDigit(c) {
        off' := UnreadChar(text, off', whole, q);
        tok, off', q := LexNumber(text, off', whole, q - 1);
      } else if c == SLASH {
        if !cfg.comments {
          off' := UnreadChar(text, off', whole, q);
          error := UnallowedComment;
          return Error, off', q - 1;
        }
        tok, off', q := LexComment(text, off', whole, q);
      } else {
        error := JsonLex.InvalidChar;
        tok := Error;
      }
    }

    /** At the first byte of a token: p is its place in the text that earlier chunks left unread (base)
        followed by this chunk, and start its offset in the chunk. */
    ghost predicate AtStart(text: seq<byte>, off: nat, start: nat, base: seq<byte>, p: nat)
      reads this
    {
      && off <= |text|
      && if Pending() == [] then p == |base| + off && start == off && (bufInUse ==> bufOff == 0)
         else buf == base && bufOff == 0 && off == 0 && start == 0 && p == 0 && Walk(cfg, Ground, base, 0) == OutOfText
    }

    /** The bytes of base that are no longer in the buffer. */
    ghost function Gone(base: seq<byte>): nat
      reads this`buf, this`bufInUse
    {
      if Pending() == [] then |base| else 0
    }

    /** A walk over buffer and chunk is a walk over base and chunk, and cannot end inside base. */
    lemma TokenInPlace(text: seq<byte>, off: nat, start: nat, base: seq<byte>, p: nat)
      requires AtStart(text, off, start, base, p)
      ensures Gone(base) <= p <= |base + text| && p - Gone(base) <= |Pending() + text|
      ensures var stop := Walk(cfg, Ground, Pending() + text, p - Gone(base));
              Walk(cfg, Ground, base + text, p) ==
              match stop case OutOfText => OutOfText case At(j, move) => At(j + Gone(base), move)
      ensures var stop := Walk(cfg, Ground, base + text, p); stop.At? ==> |base| <= stop.index
    {
      hide Walk;
      if Pending() == [] {
        WalkShift(cfg, Ground, base + text, |base|, p);
        assert (base + text)[|base|..] == text == Pending() + text;
      } else {
        WalkExtends(cfg, Ground, base, text, 0);
      }
    }

    lemma SpaceDrops(text: seq<byte>, p: nat)
      requires p < |text| && IsSpace(text[p])
      ensures Walk(cfg, Ground, text, p) == At(p, Drop)
    {
    }

    /** How the outcome of the loop reads as a scan. */
    lemma LexDone(all: seq<byte>, off: nat, p: nat, q: nat, tok: Token, atEnd: bool)
      requires off <= |all| && p <= |all| && Scan(cfg, all, p) == Scan(cfg, all, off) && tok != Comment
      requires Follows(Walk(cfg, Ground, all, p), tok, error, atEnd, q)
      ensures match tok
              case Eof => Scan(cfg, all, off) == More(p) && Walk(cfg, Ground, all[p..], 0) == OutOfText
              case Error => Scan(cfg, all, off) == Bad(error)
              case Tok(kind) =>
                && Scan(cfg, all, off) == Found(kind, p, q) && q <= |all|
                && (kind.Text? || kind.EscapedText? ==> q - p >= 2)
              case Comment => true
    {
      ScanOne(cfg, all, p);
      if tok == Eof {
        RestIsUnfinished(cfg, all, off);
      } else if tok == Tok(Text) || tok == Tok(EscapedText) {
        StringHasQuotes(cfg, all, p);
      }
    }

    lemma NothingNew(text: seq<byte>, off: nat, base: seq<byte>)
      requires Idle() && base == Pending() && off == |text| && (base != [] ==> off == 0)
      ensures off <= |base + text|
      ensures Follows(Walk(cfg, Ground, base + text, off), Eof, error, off >= |text|, |base| + off)
    {
      assert base + text == if base == [] then text else base;
    }

    static lemma RawBytes(text: seq<byte>, start: nat, off: nat, base: seq<byte>, kept: seq<byte>, p: nat)
      requires start <= off <= |text|
      requires if kept == [] then p == |base| + start else kept == base && start == 0 && p == 0
      ensures kept + text[start..off] == (base + text)[p..|base| + off]
      ensures off == |text| ==> kept + text[start..off] == (base + text)[p..]
    {
    }

    /** The same stop, seen from an earlier beginning of the text. */
    static lemma FollowsOn(stop: Stop, later: Stop, tok: Token, error: LexError, atEnd: bool, q: nat, gone: nat)
      requires Follows(stop, tok, error, atEnd, q)
      requires later == match stop case OutOfText => OutOfText case At(j, move) => At(j + gone, move)
      ensures Follows(later, tok, error, atEnd, q + gone)
    {
    }

    /** The token that starts with c, seen from the beginning of base. */
    method TokenFrom(text: seq<byte>, off: nat, c: byte, ghost base: seq<byte>, ghost p: nat)
      returns (tok: Token, off': nat, ghost q: nat)
      requires Gone(base) <= p && p - Gone(base) < |Pending() + text| && c == (Pending() + text)[p - Gone(base)]
      requires Sees(text, off, Pending() + text, p - Gone(base) + 1) && !IsSpace(c) && p <= |base + text|
      requires var stop := Walk(cfg, Ground, Pending() + text, p - Gone(base));
               Walk(cfg, Ground, base + text, p) ==
               match stop case OutOfText => OutOfText case At(j, move) => At(j + Gone(base), move)
      modifies this`bufOff, this`error
      ensures p <= q && Gone(base) <= q <= Gone(base) + |Pending() + text|
      ensures Sees(text, off', Pending() + text, q - Gone(base))
      ensures Follows(Walk(cfg, Ground, base + text, p), tok, error, off' >= |text|, q)
    {
      hide Walk, Follows;
      ghost var whole, gone := Pending() + text, Gone(base);
      tok, off', q := LexToken(text, off, c, whole, p - gone);
      ghost var stop, stop' := Walk(cfg, Ground, whole, p - gone), Walk(cfg, Ground, base + text, p);
      FollowsOn(stop, stop', tok, error, off' >= |text|, q, gone);
      q := q + gone;
    }

    /** The loop of yajl_lex_lex, up to its label lexed. */
    method LexRaw(text: seq<byte>, off: nat, ghost base: seq<byte>)
      returns (tok: Token, off': nat, start: nat, ghost p: nat, ghost q: nat)
      requires Idle() && off < |text| && base == Pending() && (base != [] ==> off == 0)
      modifies this
      ensures off' <= |text| && tok != Comment && p <= q <= |base + text|
      ensures p <= |base + text| && Scan(cfg, base + text, p) == Scan(cfg, base + text, off)
      ensures Follows(Walk(cfg, Ground, base + text, p), tok, error, off' >= |text|, q)
      ensures tok.Tok? ==> |base| <= q
      ensures tok == Eof ==> off' == |text|
      ensures if Pending() == [] then p == |base| + start && start <= off' && q == |base| + off'
              else buf == base && start == 0 && p == 0 && (q < |base| || q == |base| + off')
    {
      hide Walk, Scan, Step, GroundStep;
      var c: byte;
      ghost var all := base + text;
      off', start, p, tok, q := off, off, off, Eof, off;
      while true
        invariant AtStart(text, off', start, base, p)
        invariant p <= |all| && Scan(cfg, all, p) == Scan(cfg, all, off)
        decreases |text| - off' + (if Pending() == [] then 0 else 1)
      {
        TokenInPlace(text, off', start, base, p);
        if off' >= |text| {
          tok, q := Eof, p;
          break;
        }
        ScanOne(cfg, all, p);
        c, off' := ReadFirst(text, off', start, base, p);
        if IsSpace(c) {
          start, p := start + 1, p + 1;
        } else {
          tok, off', q := TokenFrom(text, off', c, base, p);
          if tok != Comment {
            InPlace(text, off', base, q);
            hide Sees;
            break;
          }
          DropComment(text, off', base, q);
          hide Sees;
          start, p := off', q;
        }
      }
    }

    /** The first octet of a token, or white space. */
    method ReadFirst(text: seq<byte>, off: nat, ghost start: nat, ghost base: seq<byte>, ghost p: nat)
      returns (c: byte, off': nat)
      requires AtStart(text, off, start, base, p) && off < |text|
      modifies this`bufOff
      ensures Gone(base) <= p && p - Gone(base) < |Pending() + text| && c == (Pending() + text)[p - Gone(base)]
      ensures Sees(text, off', Pending() + text, p - Gone(base) + 1)
      ensures IsSpace(c) ==>
                && Pending() == [] && off' == off + 1 && p < |base + text|
                && AtStart(text, off', start + 1, base, p + 1) && Walk(cfg, Ground, base + text, p) == At(p, Drop)
    {
      hide Walk;
      c, off' := ReadChar(text, off, Pending() + text, p - Gone(base));
      if Pending() != [] {
        WalkGround(cfg, base, 0);
      } else if IsSpace(c) {
        SpaceDrops(base + text, p);
      }
    }

    /** A comment is forgotten, the part of it that was kept included. */
    method DropComment(text: seq<byte>, off: nat, ghost base: seq<byte>, ghost p: nat)
      requires |base| <= p && (Pending() == [] || buf == base)
      requires Sees(text, off, Pending() + text, p - Gone(base))
      modifies this`buf, this`bufInUse
      ensures Pending() == [] && AtStart(text, off, off, base, p)
    {
      buf, bufInUse := [], false;
    }

    /** Where the lexer stands, seen from the beginning of base. */
    lemma InPlace(text: seq<byte>, off: nat, base: seq<byte>, q: nat)
      requires Gone(base) <= q && Sees(text, off, Pending() + text, q - Gone(base))
      requires Pending() == [] || buf == base
      ensures if Pending() == [] then q >= |base| && (!bufInUse || bufOff == 0 ==> q == |base| + off)
              else q < |base| || q == |base| + off
    {
    }

    /** What yajl_lex_lex does at its label lexed: keep an unfinished token, or hand out a finished one. */
    method HandOut(tok: Token, text: seq<byte>, start: nat, off: nat) returns (out: seq<byte>)
      requires off <= |text| && (tok != Error || bufInUse ==> start <= off) && tok != Comment
      requires tok == Tok(Text) || tok == Tok(EscapedText) ==> |Pending()| + off - start >= 2
      modifies this`buf, this`bufOff, this`bufInUse
      ensures Pending() == if tok == Eof then old(Pending()) + text[start..off] else []
      ensures if tok == Eof then bufInUse && bufOff == 0 else !bufInUse
      ensures tok.Tok? ==> out == Lexeme(tok.kind, old(Pending()) + text[start..off])
    {
      out := [];
      if tok == Eof || bufInUse {
        if !bufInUse { buf := []; }
        bufInUse := true;
        buf := buf + text[start..off];
        bufOff := 0;
        if tok != Eof {
          out := buf;
          bufInUse := false;
        }
      } else if tok != Error {
        out := text[start..off];
      }
      if tok == Tok(Text) || tok == Tok(EscapedText) {
        out := out[1..|out| - 1];
      }
    }

    /** yajl_lex_lex: the next token of the text that earlier chunks left unread followed by this one. */
    method Lex(text: seq<byte>, off: nat) returns (tok: Token, off': nat, out: seq<byte>)
      requires Idle() && off <= |text| && (Pending() != [] ==> off == 0)
      modifies this
      ensures Idle() && off' <= |text|
      ensures var all, r := old(Pending()) + text, Scan(cfg, old(Pending()) + text, off);
              if r.More? then tok == Eof && off' == |text| && Pending() == all[r.from..]
              else if r.Found? then
                && tok == Tok(r.kind) && Pending() == [] && r.to == |old(Pending())| + off'
                && out == Lexeme(r.kind, all[r.from..r.to])
              else tok == Error && error == r.error && Pending() == []
    {
      hide Walk, Scan, Follows, Lexeme, GroundStep, Step;
      ghost var base := Pending();
      ghost var all, p, q := base + text, off, |base| + off;
      off', tok := off, Eof;
      var start := off;
      if off < |text| {
        tok, off', start, p, q := LexRaw(text, off, base);
      } else {
        NothingNew(text, off, base);
      }
      LexDone(all, off, p, q, tok, off' >= |text|);
      if tok != Error {
        RawBytes(text, start, off', base, Pending(), p);
      }
      out := HandOut(tok, text, start, off');
    }
  }
}
