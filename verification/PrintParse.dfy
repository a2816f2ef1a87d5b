/** What the generator prints, the parser reads back: after every legal sequence of generator calls, parsing
    the bytes printed so far gives exactly the events of the calls. */
module PrintParse {
  import opened Bytes
  import opened Optional
  import opened JsonLex
  import opened JsonNumber
  import opened JsonTokens
  import opened JsonParse
  import JsonString
  import opened JsonTree
  import YajlLexer
  import opened YajlGen

  // ---------------------------------------------------------------- reading one token

  /** The event that a text stands for is read from s[i..j] whatever follows. */
  lemma TakeToken(flags: Flags, c: Core, s: seq<byte>, i: nat, j: nat, kind: Kind)
    requires i <= j <= |s| && Stacked(c) && Listens(c.top)
    requires Scan(LexConfig(flags), s, i) == Found(kind, i, j)
    ensures Parse(flags, c, s, i) == Parse(flags, Advance(c, kind, YajlLexer.Lexeme(kind, s[i..j])), s, j)
  {
    ParseOne(flags, c, s, i);
  }

  lemma SkipSpace(flags: Flags, c: Core, s: seq<byte>, i: nat, j: nat)
    requires i <= j <= |s| && Stacked(c) && forall k :: i <= k < j ==> IsSpace(s[k])
    ensures Parse(flags, c, s, i) == Parse(flags, c, s, j)
  {
    ParseDeaf(flags, c, s, i);
    ParseDeaf(flags, c, s, j);
    var c' := Reopen(flags, c);
    if !Deaf(flags, c'.top) {
      ScanSkipsSpace(LexConfig(flags), s, i, j);
      ParseOne(flags, c', s, i);
      ParseOne(flags, c', s, j);
    }
  }

  // ---------------------------------------------------------------- strings

  predicate NeedsEscape(str: seq<byte>, i: nat, solidus: bool)
    requires i <= |str|
    decreases |str| - i
  {
    i < |str| && (JsonString.Escapes(str[i], solidus) || NeedsEscape(str, i + 1, solidus))
  }

  lemma WalkOneEncoded(cfg: Config, esc: bool, c: byte, solidus: bool, s: seq<byte>, i: nat, j: nat)
    requires i <= j <= |s| && s[i..j] == JsonString.EncodeByte(c, solidus) && c <= 0x7F
    ensures Walk(cfg, Str(esc), s, i) == Walk(cfg, Str(esc || JsonString.Escapes(c, solidus)), s, j)
  {
    var u := s[i..j];
    assert |u| == j - i;
    assert s[i] == u[0];
    WalkString(cfg, esc, s, i);
    if |u| > 1 {
      assert s[i + 1] == u[1];
      WalkEscape(cfg, s, i + 1);
      if |u| == 6 {
        assert s[i + 2] == u[2] && s[i + 3] == u[3] && s[i + 4] == u[4] && s[i + 5] == u[5];
        WalkHex(cfg, 4, s, i + 2);
        WalkHex(cfg, 3, s, i + 3);
        WalkHex(cfg, 2, s, i + 4);
        WalkHex(cfg, 1, s, i + 5);
      }
    }
    hide Walk;
  }

  /** From inside the body of an encoded string to its closing quote; n continuation bytes are due. */
  lemma {:induction false} WalkReadsString(cfg: Config, esc: bool, n: nat, str: seq<byte>, k: nat, solidus: bool,
                                           s: seq<byte>, i: nat, j: nat)
    requires k <= |str| && n < 4 && JsonString.ValidFrom(n, str, k)
    requires i <= j < |s| && s[i..j] == JsonString.Encode(str, k, solidus) && s[j] == QUOTE
    ensures Walk(cfg, StringMode(cfg, n, esc), s, i) ==
              At(j, Accept(if esc || NeedsEscape(str, k, solidus) then EscapedText else Text))
    decreases |str| - k
  {
    hide JsonString.EncodeByte, JsonString.Escapes, Walk;
    if k == |str| {
      WalkString(cfg, esc, s, i);
    } else {
      var c := str[k];
      var e := JsonString.EncodeByte(c, solidus);
      var a := i + |e|;
      CutFront(s, i, j, e, JsonString.Encode(str, k + 1, solidus));
      var escapes := JsonString.Escapes(c, solidus);
      var due := if n > 0 then n - 1 else Continuations(c);
      WalkReadsString(cfg, esc || escapes, due, str, k + 1, solidus, s, a, j);
      if n == 0 && c <= 0x7F {
        WalkOneEncoded(cfg, esc, c, solidus, s, i, a);
      } else {
        HighByteAsIs(c, solidus);
        assert s[i] == s[i..a][0] == c;
        WalkHighByte(cfg, esc, n, s, i);
      }
    }
  }

  /** Inside a string, with n continuation bytes due, which the lexer counts only when it validates. */
  function StringMode(cfg: Config, n: nat, esc: bool): Mode { if n == 0 || !cfg.utf8 then Str(esc) else Trail(n, esc) }

  lemma CutFront(s: seq<byte>, i: nat, j: nat, e: seq<byte>, rest: seq<byte>)
    requires i <= j <= |s| && s[i..j] == e + rest
    ensures i + |e| <= j && s[i..i + |e|] == e && s[i + |e|..j] == rest
  {
    SliceOfSlice(s, i, j, 0, |e|);
    SliceOfSlice(s, i, j, |e|, j - i);
  }

  lemma HighByteAsIs(c: byte, solidus: bool)
    requires c > 0x7F
    ensures JsonString.EncodeByte(c, solidus) == [c] && !JsonString.Escapes(c, solidus)
  {
  }

  lemma WalkHighByte(cfg: Config, esc: bool, n: nat, s: seq<byte>, i: nat)
    requires i < |s| && n < 4 && (if n > 0 then IsContinuation(s[i]) else 0 < Continuations(s[i]) < 4)
    ensures var due := if n > 0 then n - 1 else Continuations(s[i]);
            Walk(cfg, StringMode(cfg, n, esc), s, i) == Walk(cfg, StringMode(cfg, due, esc), s, i + 1)
  {
    WalkString(cfg, esc, s, i);
    if n > 0 {
      WalkTrail(cfg, n, esc, s, i);
    }
  }

  lemma {:induction false} EncodeWithoutEscapes(str: seq<byte>, k: nat, solidus: bool)
    requires k <= |str| && !NeedsEscape(str, k, solidus)
    ensures JsonString.Encode(str, k, solidus) == str[k..]
    decreases |str| - k
  {
    if k < |str| {
      assert !JsonString.Escapes(str[k], solidus);
      EncodeWithoutEscapes(str, k + 1, solidus);
    }
  }

  lemma QuotedPlaces(s: seq<byte>, i: nat, j: nat, e: seq<byte>)
    requires i <= j <= |s| && s[i..j] == [QUOTE] + e + [QUOTE]
    ensures j == i + |e| + 2 && s[i] == s[j - 1] == QUOTE && s[i + 1..j - 1] == e
  {
    var q := s[i..j];
    assert |q| == j - i && q[1..j - i - 1] == e && q[0] == s[i] && q[j - i - 1] == s[j - 1];
    SliceOfSlice(s, i, j, 1, j - i - 1);
  }

  lemma QuotedMeans(str: seq<byte>, solidus: bool)
    ensures var kind := if NeedsEscape(str, 0, solidus) then EscapedText else Text;
            TextOf(kind, YajlLexer.Lexeme(kind, [QUOTE] + JsonString.Encode(str, 0, solidus) + [QUOTE])) == Some(str)
  {
    var e := JsonString.Encode(str, 0, solidus);
    var q := [QUOTE] + e + [QUOTE];
    assert q[1..|q| - 1] == e;
    if NeedsEscape(str, 0, solidus) {
      JsonString.DecodeUndoesEncode(str, 0, solidus, e, 0);
    } else {
      EncodeWithoutEscapes(str, 0, solidus);
    }
  }

  /** A quoted string is one token, and its text is the string that was printed. */
  lemma ScanString(cfg: Config, opts: Options, str: seq<byte>, s: seq<byte>, i: nat, j: nat)
    requires JsonString.ValidFrom(0, str, 0)
    requires i <= j <= |s| && s[i..j] == Quoted(opts, str)
    ensures var kind := if NeedsEscape(str, 0, opts.escapeSolidus) then EscapedText else Text;
            Scan(cfg, s, i) == Found(kind, i, j) && TextOf(kind, YajlLexer.Lexeme(kind, s[i..j])) == Some(str)
  {
    hide Walk, Scan, TextOf, YajlLexer.Lexeme, NeedsEscape, JsonString.Encode, JsonString.ValidFrom;
    var kind := if NeedsEscape(str, 0, opts.escapeSolidus) then EscapedText else Text;
    QuotedPlaces(s, i, j, JsonString.Encode(str, 0, opts.escapeSolidus));
    QuotedMeans(str, opts.escapeSolidus);
    WalkReadsString(cfg, false, 0, str, 0, opts.escapeSolidus, s, i + 1, j - 1);
    ScanQuote(cfg, s, i, j - 1, kind);
  }

  // ---------------------------------------------------------------- generator states and parser states

  /** The parser's state on a level of the generator: where the generator has not printed a separator yet. */
  function Here(s: GenState): State {
    match s
    case GenStart => StartState
    case GenComplete => ParseComplete
    case GenMapStart => MapStart
    case GenMapKey => MapGotVal
    case GenMapVal => MapSep
    case GenArrayStart => ArrayStart
    case GenInArray => ArrayGotVal
    case GenError => ParseError
  }

  /** Once the separator is read. */
  function Ready(s: GenState): State {
    match s
    case GenMapKey => MapNeedKey
    case GenMapVal => MapNeedVal
    case GenInArray => ArrayNeedVal
    case _ => Here(s)
  }

  /** On a level with an open container above it the parser has already moved on. */
  function Done(s: GenState): State { Here(After(s)) }

  function DoneAll(states: seq<GenState>): seq<State> { seq(|states|, i requires 0 <= i < |states| => Done(states[i])) }

  function ParserAt(states: seq<GenState>, trace: seq<Event>): Core
    requires states != []
  {
    Core(DoneAll(states[..|states| - 1]), Here(states[|states| - 1]), trace)
  }

  predicate StatesFit(states: seq<GenState>)
    requires states != []
  {
    Fits(DoneAll(states[..|states| - 1]), Here(states[|states| - 1]))
  }

  /** The stacks of states that calls can lead to. */
  predicate Levels(states: seq<GenState>) {
    && states != []
    && (states[0].GenStart? || (states[0].GenComplete? && |states| == 1))
    && (forall i :: 0 < i < |states| ==> !states[i].GenStart? && !states[i].GenComplete? && !states[i].GenError?)
    && (forall i :: 0 < i < |states| - 1 ==> states[i].GenMapVal? || states[i].GenArrayStart? || states[i].GenInArray?)
  }

  lemma LevelsStacked(states: seq<GenState>)
    requires Levels(states)
    ensures StatesFit(states)
    ensures Fits(DoneAll(states[..|states| - 1]), Ready(states[|states| - 1]))
  {
  }

  predicate AllSpace(part: seq<byte>) { forall k :: 0 <= k < |part| ==> IsSpace(part[k]) }

  lemma {:induction false} IndentIsSpace(opts: Options, depth: nat)
    requires ValidOptions(opts)
    ensures AllSpace(Indent(opts, depth))
  {
    if depth > 0 {
      IndentIsSpace(opts, depth - 1);
      assert forall k :: 0 <= k < |opts.indent| ==> opts.indent[k] in opts.indent;
    }
  }

  /** A stretch of a text that is white space. */
  lemma SkipPart(flags: Flags, c: Core, s: seq<byte>, i: nat, j: nat)
    requires i <= j <= |s| && AllSpace(s[i..j]) && Stacked(c)
    ensures Parse(flags, c, s, i) == Parse(flags, c, s, j)
  {
    var part := s[i..j];
    assert forall k :: i <= k < j ==> s[k] == part[k - i];
    hide LowOk, Parse;
    SkipSpace(flags, c, s, i, j);
  }

  predicate HasMark(s: GenState) { s.GenMapKey? || s.GenInArray? || s.GenMapVal? }

  lemma MarkReads(flags: Flags, low: seq<State>, top: GenState, trace: seq<Event>, s: seq<byte>, i: nat)
    requires HasMark(top) && i < |s| && s[i] == if top.GenMapVal? then COLON else COMMA
    requires Fits(low, Here(top)) && Fits(low, Ready(top))
    ensures Parse(flags, Core(low, Here(top), trace), s, i) == Parse(flags, Core(low, Ready(top), trace), s, i + 1)
  {
    var c := Core(low, Here(top), trace);
    var kind := if top.GenMapVal? then Kind.Colon else Kind.Comma;
    ScanPunctuation(LexConfig(flags), s, i);
    assert Advance(c, kind, s[i..i + 1]) == Core(low, Ready(top), trace);
    hide Parse, Scan, Advance, Ready, GroundStep;
    TakeToken(flags, c, s, i, i + 1, kind);
  }

  /** A mark, where the level needs one, and white space. */
  predicate IsLead(top: GenState, lead: seq<byte>) {
    if HasMark(top) then lead != [] && lead[0] == (if top.GenMapVal? then COLON else COMMA) && AllSpace(lead[1..])
    else AllSpace(lead)
  }

  lemma LeadIsLead(opts: Options, top: GenState, depth: nat)
    requires ValidOptions(opts)
    ensures IsLead(top, Separator(opts, top) + Whitespace(opts, top, depth))
  {
    IndentIsSpace(opts, depth);
    hide Indent;
  }

  /** The separator, and the indentation after it, take the parser to where it can read what comes next. */
  lemma LeadReads(flags: Flags, low: seq<State>, top: GenState, trace: seq<Event>, s: seq<byte>, i: nat, j: nat)
    requires i <= j <= |s| && IsLead(top, s[i..j]) && Fits(low, Here(top)) && Fits(low, Ready(top))
    ensures Parse(flags, Core(low, Here(top), trace), s, i) == Parse(flags, Core(low, Ready(top), trace), s, j)
  {
    hide LowOk, Parse, AllSpace;
    var c := Core(low, Ready(top), trace);
    if HasMark(top) {
      assert s[i] == s[i..j][0];
      MarkReads(flags, low, top, trace, s, i);
      SliceOfSlice(s, i, j, 1, j - i);
      SkipPart(flags, c, s, i + 1, j);
    } else {
      assert Here(top) == Ready(top);
      SkipPart(flags, c, s, i, j);
    }
  }

  /** What an event may carry. */
  predicate Wellformed(e: Event) {
    match e
    case Number(text) => ValidNumber(text)
    case String(text) => JsonString.ValidFrom(0, text, 0)
    case MapKey(text) => JsonString.ValidFrom(0, text, 0)
    case _ => true
  }

  /** A token that the parser turns into this event. */
  predicate Means(kind: Kind, text: seq<byte>, e: Event) {
    match e
    case Null => kind.NullTok?
    case Boolean(b) => kind.BoolTok? && b == (text != [] && text[0] == 0x74)
    case Number(t) => (kind.Integer? || kind.Double?) && text == t
    case String(t) => (kind.Text? || kind.EscapedText?) && TextOf(kind, text) == Some(t)
    case MapKey(t) => (kind.Text? || kind.EscapedText?) && TextOf(kind, text) == Some(t)
    case _ => false
  }

  lemma ScanBody(opts: Options, cfg: Config, e: Event, s: seq<byte>, i: nat)
    requires IsAtom(e) && Wellformed(e)
    requires var body := Body(opts, e); i + |body| <= |s| && s[i..i + |body|] == body
    requires e.Number? ==> i + |e.text| < |s| && EndsNumber(s[i + |e.text|])
    ensures var r := Scan(cfg, s, i);
            r.Found? && r.from == i && r.to == i + |Body(opts, e)|
                && Means(r.kind, YajlLexer.Lexeme(r.kind, s[i..r.to]), e)
  {
    hide Scan, ValidNumber, JsonString.Decode, JsonString.Encode, Quoted, JsonString.ValidFrom;
    if e.String? || e.MapKey? {
      ScanString(cfg, opts, e.text, s, i, i + |Body(opts, e)|);
    } else if e.Number? {
      NumbersAreNumbers(e.text);
      ScanNumber(cfg, e.text, s, i);
    } else {
      ScanWord(cfg, Body(opts, e), s, i);
      assert TRUE_TEXT[0] == 0x74 && FALSE_TEXT[0] == 0x66 && NULL_TEXT[0] == 0x6E;
    }
  }

  /** Where a value or a key is read from. */
  predicate Awaits(c: Core, e: Event) {
    if e.MapKey? then c.top.MapStart? || c.top.MapNeedKey? else WantsValue(c.top)
  }

  function AfterEvent(s: State, e: Event): State { if e.MapKey? then MapSep else AfterValue(s) }

  lemma AdvanceByMeaning(c: Core, kind: Kind, text: seq<byte>, e: Event)
    requires Stacked(c) && IsAtom(e) && Awaits(c, e) && Means(kind, text, e)
    ensures Advance(c, kind, text) == c.Set(AfterEvent(c.top, e)).Emit(e)
  {
    hide LowOk, JsonString.Decode;
  }

  /** One whole value, or one key. */
  lemma BodyReads(opts: Options, flags: Flags, c: Core, e: Event, s: seq<byte>, i: nat, j: nat)
    requires Stacked(c) && IsAtom(e) && Wellformed(e) && Awaits(c, e)
    requires i <= j <= |s| && s[i..j] == Body(opts, e)
    requires e.Number? ==> j < |s| && EndsNumber(s[j])
    ensures var c' := c.Set(AfterEvent(c.top, e)).Emit(e);
            Stacked(c') && Parse(flags, c, s, i) == Parse(flags, c', s, j)
  {
    assert i + |Body(opts, e)| == j;
    ScanBody(opts, LexConfig(flags), e, s, i);
    var r := Scan(LexConfig(flags), s, i);
    TakeToken(flags, c, s, i, j, r.kind);
    AdvanceByMeaning(c, r.kind, YajlLexer.Lexeme(r.kind, s[i..r.to]), e);
    hide Scan, Parse, Advance, Means;
  }

  // ---------------------------------------------------------------- one call

  /** What one call prints. */
  function Emission(opts: Options, g: Printed, e: Event): seq<byte>
    requires g.states != [] && Legal(g, e)
  {
    if IsAtom(e) then Lead(opts, g) + Body(opts, e) + FinalNewline(opts, After(g.Top()))
    else if e.StartMap? then Lead(opts, g) + [LBRACE] + Break(opts)
    else if e.StartArray? then Lead(opts, g) + [LBRACKET] + Break(opts)
    else
      var outer := After(g.states[|g.states| - 2]);
      Break(opts) + Whitespace(opts, outer, |g.states| - 2) + [if e.EndMap? then RBRACE else RBRACKET]
          + FinalNewline(opts, outer)
  }

  lemma EmissionIsPrinted(opts: Options, g: Printed, e: Event)
    requires g.states != [] && Legal(g, e)
    ensures Emit(opts, g, e).out == g.out + Emission(opts, g, e)
  {
  }

  /** Cutting a stretch of a text where its parts end. */
  lemma SplitParts(s: seq<byte>, i: nat, first: seq<byte>, middle: seq<byte>, last: seq<byte>)
    requires var all := first + middle + last; i + |all| <= |s| && s[i..i + |all|] == all
    ensures var a := i + |first|; var b := a + |middle|; var d := b + |last|;
            s[i..a] == first && s[a..b] == middle && s[b..d] == last
  {
    var all, m, n := first + middle + last, |first|, |first| + |middle|;
    SliceOfSlice(s, i, i + |all|, 0, m);
    SliceOfSlice(s, i, i + |all|, m, n);
    SliceOfSlice(s, i, i + |all|, n, |all|);
    assert all[0..m] == first && all[m..n] == middle && all[n..|all|] == last;
  }

  /** After a complete value the next byte must end a number. */
  predicate Continues(top: GenState, rest: seq<byte>) {
    top.GenMapKey? || top.GenInArray? || top.GenComplete? ==> rest != [] && EndsNumber(rest[0])
  }

  lemma DoneAllAppend(low: seq<GenState>, s: GenState)
    ensures DoneAll(low + [s]) == DoneAll(low) + [Done(s)]
  {
  }

  lemma LevelsNext(states: seq<GenState>)
    requires Levels(states) && !states[|states| - 1].GenComplete?
    ensures Levels(states[..|states| - 1] + [After(states[|states| - 1])])
  {
  }

  /** A level of the parser before and after the separator, and after the event. */
  lemma LevelStacks(low: seq<GenState>, top: GenState)
    requires Levels(low + [top]) && !top.GenComplete?
    ensures Fits(DoneAll(low), Here(top)) && Fits(DoneAll(low), Ready(top)) && Fits(DoneAll(low), Done(top))
    ensures forall trace :: ParserAt(low + [top], trace) == Core(DoneAll(low), Here(top), trace)
    ensures forall trace :: ParserAt(low + [After(top)], trace) == Core(DoneAll(low), Done(top), trace)
    ensures Levels(low + [After(top)])
  {
    var states, next := low + [top], low + [After(top)];
    assert states[..|states| - 1] == low && next[..|next| - 1] == low;
    LevelsStacked(states);
    LevelsNext(states);
    LevelsStacked(next);
    hide Levels, LowOk, DoneAll;
  }

  /** Calls that the generator accepts on a level. */
  predicate Accepts(top: GenState, e: Event) {
    && !top.GenComplete? && !top.GenError?
    && (e.MapKey? <==> top.GenMapStart? || top.GenMapKey?)
  }

  lemma AtomParts(opts: Options, flags: Flags, low: seq<State>, top: GenState, e: Event, trace: seq<Event>,
                  s: seq<byte>, i: nat, a: nat, b: nat, d: nat)
    requires i <= a <= b <= d <= |s| && IsLead(top, s[i..a]) && IsAtom(e) && s[a..b] == Body(opts, e)
    requires AllSpace(s[b..d])
    requires Wellformed(e) && Accepts(top, e)
    requires Fits(low, Here(top)) && Fits(low, Ready(top)) && Fits(low, Done(top))
    requires e.Number? ==> b < |s| && EndsNumber(s[b])
    ensures Parse(flags, Core(low, Here(top), trace), s, i) == Parse(flags, Core(low, Done(top), trace + [e]), s, d)
  {
    hide LowOk, Parse, Quoted, Wellformed, IsLead, AllSpace, Body;
    LeadReads(flags, low, top, trace, s, i, a);
    BodyReads(opts, flags, Core(low, Ready(top), trace), e, s, a, b);
    SkipPart(flags, Core(low, Done(top), trace + [e]), s, b, d);
  }

  lemma OpenAdvances(low: seq<State>, top: State, isMap: bool, trace: seq<Event>)
    requires Fits(low, top) && WantsValue(top)
    ensures Advance(Core(low, top, trace),
              if isMap then OpenMap else OpenArray, [if isMap then LBRACE else LBRACKET]) ==
            Core(low + [AfterValue(top)],
                if isMap then MapStart else ArrayStart, trace + [if isMap then StartMap else StartArray])
  {
    hide LowOk;
  }

  lemma CloseAdvances(low: seq<State>, outer: State, top: State, isMap: bool, trace: seq<Event>)
    requires Fits(low + [outer], top)
    requires if isMap then top.MapStart? || top.MapGotVal? else top.ArrayStart? || top.ArrayGotVal?
    ensures Advance(Core(low + [outer], top, trace),
              if isMap then CloseMap else CloseArray, [if isMap then RBRACE else RBRACKET]) ==
            Core(low, outer, trace + [if isMap then EndMap else EndArray])
  {
    hide LowOk;
  }

  predicate IsBracket(bracket: byte, kind: Kind) {
    || (bracket == LBRACE && kind == OpenMap) || (bracket == RBRACE && kind == CloseMap)
    || (bracket == LBRACKET && kind == OpenArray) || (bracket == RBRACKET && kind == CloseArray)
  }

  /** One bracket. */
  lemma BracketReads(flags: Flags, c: Core, bracket: byte, kind: Kind, s: seq<byte>, k: nat)
    requires Stacked(c) && Listens(c.top)
    requires k < |s| && s[k..k + 1] == [bracket] && IsBracket(bracket, kind)
    ensures Parse(flags, c, s, k) == Parse(flags, Advance(c, kind, [bracket]), s, k + 1)
  {
    assert s[k] == s[k..k + 1][0];
    ScanPunctuation(LexConfig(flags), s, k);
    TakeToken(flags, c, s, k, k + 1, kind);
  }

  /** One bracket and the white space after it. */
  lemma BracketParts(flags: Flags, c: Core, bracket: byte, kind: Kind, s: seq<byte>, a: nat, d: nat)
    requires Stacked(c) && Listens(c.top) && IsBracket(bracket, kind)
    requires a < d <= |s| && s[a..a + 1] == [bracket] && AllSpace(s[a + 1..d])
    ensures Parse(flags, c, s, a) == Parse(flags, Advance(c, kind, [bracket]), s, d)
  {
    hide Parse, AllSpace, Advance, LowOk, Fits;
    BracketReads(flags, c, bracket, kind, s, a);
    SkipPart(flags, Advance(c, kind, [bracket]), s, a + 1, d);
  }

  /** A container opens: its bracket is read, and the levels below go on. */
  lemma OpenParts(flags: Flags, low: seq<State>, top: GenState, isMap: bool, trace: seq<Event>, s: seq<byte>, i: nat,
                  a: nat, d: nat)
    requires i <= a < d <= |s| && IsLead(top, s[i..a]) && s[a..a + 1] == [if isMap then LBRACE else LBRACKET]
    requires AllSpace(s[a + 1..d])
    requires Accepts(top, StartMap) && Fits(low, Here(top)) && Fits(low, Ready(top))
    ensures var c' := Core(low + [Done(top)],
              if isMap then MapStart else ArrayStart, trace + [if isMap then StartMap else StartArray]);
            Stacked(c') && Parse(flags, Core(low, Here(top), trace), s, i) == Parse(flags, c', s, d)
  {
    assert AfterValue(Ready(top)) == Done(top) && WantsValue(Ready(top)) && Listens(Ready(top));
    hide LowOk, Parse, IsLead, AllSpace, Advance, Done, AfterValue, Here, Ready;
    var kind, bracket := if isMap then OpenMap else OpenArray, if isMap then LBRACE else LBRACKET;
    var c := Core(low, Ready(top), trace);
    OpenAdvances(low, Ready(top), isMap, trace);
    LeadReads(flags, low, top, trace, s, i, a);
    BracketParts(flags, c, bracket, kind, s, a, d);
  }

  /** A container closes. */
  lemma CloseParts(flags: Flags, low: seq<State>, outer: State, top: GenState, isMap: bool, trace: seq<Event>,
                   s: seq<byte>, i: nat, a: nat, d: nat)
    requires i <= a < d <= |s| && AllSpace(s[i..a]) && s[a..a + 1] == [if isMap then RBRACE else RBRACKET]
    requires AllSpace(s[a + 1..d])
    requires if isMap then top.GenMapStart? || top.GenMapKey? else top.GenArrayStart? || top.GenInArray?
    requires Fits(low + [outer], Here(top))
    ensures var c' := Core(low, outer, trace + [if isMap then EndMap else EndArray]);
            Stacked(c') && Parse(flags, Core(low + [outer], Here(top), trace), s, i) == Parse(flags, c', s, d)
  {
    assert Listens(Here(top));
    hide LowOk, Parse, AllSpace, Advance;
    var kind, bracket := if isMap then CloseMap else CloseArray, if isMap then RBRACE else RBRACKET;
    var c := Core(low + [outer], Here(top), trace);
    CloseAdvances(low, outer, Here(top), isMap, trace);
    SkipPart(flags, c, s, i, a);
    BracketParts(flags, c, bracket, kind, s, a, d);
  }

  // ---------------------------------------------------------------- any sequence of calls

  /** A call that the generator takes and that makes sense to it. */
  predicate Call(opts: Options, g: Printed, e: Event) {
    g.states != [] && Legal(g, e) && StatusOf(opts, g, e) == GenOk && Wellformed(e)
  }

  /** The emission of e stands at s[i..d]. */
  predicate Printing(opts: Options, g: Printed, e: Event, s: seq<byte>, i: nat, d: nat) {
    && ValidOptions(opts) && Levels(g.states) && Call(opts, g, e)
    && i <= d <= |s| && s[i..d] == Emission(opts, g, e) && Continues(Emit(opts, g, e).Top(), s[d..])
  }

  /** The call takes the parser along. */
  ghost predicate Along(opts: Options, flags: Flags, g: Printed, e: Event, trace: seq<Event>, s: seq<byte>, i: nat,
                        d: nat)
    requires i <= |s| && d <= |s| && g.states != [] && Legal(g, e)
  {
    var next := Emit(opts, g, e).states;
    && Levels(next) && StatesFit(g.states) && StatesFit(next)
    && Parse(flags, ParserAt(g.states, trace), s, i) == Parse(flags, ParserAt(next, trace + [e]), s, d)
  }

  lemma BreaksAreSpace(opts: Options, s: GenState)
    ensures AllSpace(Break(opts)) && AllSpace(FinalNewline(opts, s))
  {
  }

  lemma AtomReads(opts: Options, flags: Flags, low: seq<State>, top: GenState, depth: nat, e: Event,
                  trace: seq<Event>, s: seq<byte>, i: nat, d: nat)
    requires ValidOptions(opts) && IsAtom(e) && Wellformed(e) && Accepts(top, e)
    requires Fits(low, Here(top)) && Fits(low, Ready(top)) && Fits(low, Done(top))
    requires i <= d <= |s| && Continues(After(top), s[d..])
    requires s[i..d] == Separator(opts, top) + Whitespace(opts, top, depth) + Body(opts, e)
              + FinalNewline(opts, After(top))
    ensures Parse(flags, Core(low, Here(top), trace), s, i) == Parse(flags, Core(low, Done(top), trace + [e]), s, d)
  {
    var lead, body, final := Separator(opts, top) + Whitespace(opts, top, depth), Body(opts, e),
        FinalNewline(opts, After(top));
    var a := i + |lead|;
    var b := a + |body|;
    assert d == b + |final|;
    SplitParts(s, i, lead, body, final);
    LeadIsLead(opts, top, depth);
    BreaksAreSpace(opts, After(top));
    if e.Number? {
      assert s[b] == if final == [] then s[d..][0] else s[b..d][0];
    }
    hide LowOk, Parse, Quoted, IsLead, AllSpace, Wellformed, Body;
    AtomParts(opts, flags, low, top, e, trace, s, i, a, b, d);
  }

  lemma OpenReads(opts: Options, flags: Flags, low: seq<State>, top: GenState, depth: nat, isMap: bool,
                  trace: seq<Event>, s: seq<byte>, i: nat, d: nat)
    requires ValidOptions(opts) && Accepts(top, StartMap) && Fits(low, Here(top)) && Fits(low, Ready(top))
    requires i <= d <= |s|
    requires s[i..d] == Separator(opts, top) + Whitespace(opts, top, depth) + [if isMap then LBRACE else LBRACKET]
              + Break(opts)
    ensures var c' := Core(low + [Done(top)],
              if isMap then MapStart else ArrayStart, trace + [if isMap then StartMap else StartArray]);
            Stacked(c') && Parse(flags, Core(low, Here(top), trace), s, i) == Parse(flags, c', s, d)
  {
    var lead := Separator(opts, top) + Whitespace(opts, top, depth);
    assert d == i + |lead| + 1 + |Break(opts)|;
    SplitParts(s, i, lead, [if isMap then LBRACE else LBRACKET], Break(opts));
    LeadIsLead(opts, top, depth);
    BreaksAreSpace(opts, top);
    hide LowOk, Parse, IsLead, AllSpace, Separator, Whitespace, Break;
    OpenParts(flags, low, top, isMap, trace, s, i, i + |lead|, d);
  }

  lemma CloseReads(opts: Options, flags: Flags, low: seq<State>, outer: State, top: GenState, around: GenState,
                   depth: nat, isMap: bool, trace: seq<Event>, s: seq<byte>, i: nat, d: nat)
    requires ValidOptions(opts) && Fits(low + [outer], Here(top))
    requires if isMap then top.GenMapStart? || top.GenMapKey? else top.GenArrayStart? || top.GenInArray?
    requires i <= d <= |s|
    requires s[i..d] == Break(opts) + Whitespace(opts, around, depth) + [if isMap then RBRACE else RBRACKET]
              + FinalNewline(opts, around)
    ensures var c' := Core(low, outer, trace + [if isMap then EndMap else EndArray]);
            Stacked(c') && Parse(flags, Core(low + [outer], Here(top), trace), s, i) == Parse(flags, c', s, d)
  {
    var lead, final := Break(opts) + Whitespace(opts, around, depth), FinalNewline(opts, around);
    assert d == i + |lead| + 1 + |final|;
    SplitParts(s, i, lead, [if isMap then RBRACE else RBRACKET], final);
    IndentIsSpace(opts, depth);
    BreaksAreSpace(opts, around);
    assert AllSpace(lead);
    hide LowOk, Parse, AllSpace, Whitespace, Break, FinalNewline;
    CloseParts(flags, low, outer, top, isMap, trace, s, i, i + |lead|, d);
  }

  lemma LevelsOpen(states: seq<GenState>, inner: GenState)
    requires Levels(states) && (inner.GenMapStart? || inner.GenArrayStart?)
    requires var top := states[|states| - 1]; top.GenStart? || top.GenMapVal? || top.GenArrayStart? || top.GenInArray?
    ensures Levels(states + [inner])
    ensures forall trace :: ParserAt(states + [inner], trace) == Core(DoneAll(states), Here(inner), trace)
  {
    var next := states + [inner];
    assert next[..|next| - 1] == states;
    hide DoneAll;
  }

  lemma LevelsClose(states: seq<GenState>)
    requires Levels(states) && |states| > 1
    ensures Levels(states[..|states| - 1]) && !states[|states| - 2].GenComplete?
  {
  }

  lemma AtomAlong(opts: Options, flags: Flags, g: Printed, e: Event, trace: seq<Event>, s: seq<byte>, i: nat, d: nat)
    requires Printing(opts, g, e, s, i, d) && IsAtom(e)
    ensures Along(opts, flags, g, e, trace, s, i, d)
  {
    hide LowOk, Parse, Body, Wellformed, DoneAll, Levels, Separator, Whitespace, FinalNewline, Quoted,
        JsonString.ValidFrom;
    var below, top := g.Below(), g.Top();
    assert g.states == below + [top];
    assert Accepts(top, e);
    LevelStacks(below, top);
    hide ParserAt, Continues, ValidOptions;
    AtomReads(opts, flags, DoneAll(below), top, |g.states| - 1, e, trace, s, i, d);
  }

  lemma OpenAlong(opts: Options, flags: Flags, g: Printed, e: Event, trace: seq<Event>, s: seq<byte>, i: nat, d: nat)
    requires Printing(opts, g, e, s, i, d) && (e.StartMap? || e.StartArray?)
    ensures Along(opts, flags, g, e, trace, s, i, d)
  {
    hide LowOk, Parse, DoneAll, Levels, Separator, Whitespace, Break;
    var below, top := g.Below(), g.Top();
    assert g.states == below + [top];
    LevelStacks(below, top);
    LevelsOpen(g.states, if e.StartMap? then GenMapStart else GenArrayStart);
    DoneAllAppend(below, top);
    hide ParserAt, ValidOptions;
    OpenReads(opts, flags, DoneAll(below), top, |g.states| - 1, e.StartMap?, trace, s, i, d);
  }

  lemma CloseAlong(opts: Options, flags: Flags, g: Printed, e: Event, trace: seq<Event>, s: seq<byte>, i: nat, d: nat)
    requires Printing(opts, g, e, s, i, d) && (e.EndMap? || e.EndArray?)
    ensures Along(opts, flags, g, e, trace, s, i, d)
  {
    hide LowOk, Parse, DoneAll, Levels, Whitespace, Break, FinalNewline;
    var depth := |g.states| - 1;
    var lowest, outer, top := g.states[..depth - 1], g.states[depth - 1], g.Top();
    assert g.Below() == lowest + [outer] && g.states == g.Below() + [top];
    LevelStacks(g.Below(), top);
    LevelsClose(g.states);
    LevelStacks(lowest, outer);
    DoneAllAppend(lowest, outer);
    hide ParserAt, ValidOptions;
    CloseReads(opts, flags, DoneAll(lowest), Done(outer), top, After(outer), depth - 1, e.EndMap?, trace, s, i, d);
  }

  lemma EmissionReads(opts: Options, flags: Flags, g: Printed, e: Event, trace: seq<Event>, s: seq<byte>, i: nat,
                      d: nat)
    requires Printing(opts, g, e, s, i, d)
    ensures Along(opts, flags, g, e, trace, s, i, d)
  {
    if IsAtom(e) {
      AtomAlong(opts, flags, g, e, trace, s, i, d);
    } else if e.StartMap? || e.StartArray? {
      OpenAlong(opts, flags, g, e, trace, s, i, d);
    } else {
      CloseAlong(opts, flags, g, e, trace, s, i, d);
    }
    hide Along, Printing;
  }

  /** An emission can follow what was printed before it. */
  lemma EmissionContinues(opts: Options, g: Printed, e: Event, rest: seq<byte>)
    requires ValidOptions(opts) && Levels(g.states) && Call(opts, g, e)
    ensures Continues(g.Top(), Emission(opts, g, e) + rest)
  {
    if e.EndMap? || e.EndArray? {
      IndentIsSpace(opts, |g.states| - 2);
      assert AllSpace(Whitespace(opts, After(g.states[|g.states| - 2]), |g.states| - 2));
    }
  }

  /** Whatever can follow what was printed, the parser has read the calls made so far when it gets there. */
  ghost predicate ReadsBack(flags: Flags, g: Printed, trace: seq<Event>) {
    && Levels(g.states) && StatesFit(g.states)
    && forall rest {:trigger Continues(g.Top(), rest)} :: Continues(g.Top(), rest) ==>
         Parse(flags, INIT, g.out + rest, 0) == Parse(flags, ParserAt(g.states, trace), g.out + rest, |g.out|)
  }

  lemma CallReadsBack(opts: Options, flags: Flags, g: Printed, e: Event, trace: seq<Event>)
    requires ValidOptions(opts) && ReadsBack(flags, g, trace) && Call(opts, g, e)
    ensures ReadsBack(flags, Emit(opts, g, e), trace + [e])
  {
    var next := Emit(opts, g, e);
    assert Continues(next.Top(), [SPACE]);
    hide Emit, Call, ValidOptions, Levels, StatesFit, Continues, ParserAt;
    forall rest | Continues(next.Top(), rest)
      ensures Levels(next.states) && StatesFit(next.states)
      ensures Parse(flags, INIT, next.out + rest, 0) ==
              Parse(flags, ParserAt(next.states, trace + [e]), next.out + rest, |next.out|)
    {
      CallReads(opts, flags, g, e, trace, rest);
    }
  }

  lemma CallReads(opts: Options, flags: Flags, g: Printed, e: Event, trace: seq<Event>, rest: seq<byte>)
    requires ValidOptions(opts) && ReadsBack(flags, g, trace) && Call(opts, g, e)
    requires Continues(Emit(opts, g, e).Top(), rest)
    ensures var next := Emit(opts, g, e);
            && Levels(next.states) && StatesFit(next.states)
            && Parse(flags, INIT, next.out + rest, 0) ==
               Parse(flags, ParserAt(next.states, trace + [e]), next.out + rest, |next.out|)
  {
    var next, em := Emit(opts, g, e), Emission(opts, g, e);
    var i, d, s := |g.out|, |g.out| + |em|, next.out + rest;
    EmissionIsPrinted(opts, g, e);
    assert s == g.out + (em + rest) && s[i..d] == em && s[d..] == rest;
    hide Emission, Levels, StatesFit, ValidOptions, ParserAt, Parse, Call;
    EmissionContinues(opts, g, e, rest);
    EmissionReads(opts, flags, g, e, trace, s, i, d);
  }

  /** The generator after a sequence of calls, if all of them are legal and succeed. */
  function GenRun(opts: Options, g: Printed, calls: seq<Event>): (r: Option<Printed>)
    requires g.states != []
    ensures r.Some? ==> r.value.states != []
  {
    if calls == [] then Some(g)
    else
      var before := GenRun(opts, g, calls[..|calls| - 1]);
      if before.Some? && Call(opts, before.value, calls[|calls| - 1])
          then Some(Emit(opts, before.value, calls[|calls| - 1])) else None
  }

  /** Printing is read back, for every sequence of calls, under every setting of generator and parser. */
  lemma {:induction false} CallsReadBack(opts: Options, flags: Flags, calls: seq<Event>)
    requires ValidOptions(opts) && GenRun(opts, BLANK, calls).Some?
    ensures ReadsBack(flags, GenRun(opts, BLANK, calls).value, calls)
  {
    if calls == [] {
      BlankReadsBack(flags);
    } else {
      hide ReadsBack, Call, Emit, ValidOptions, GenRun;
      var init, last := calls[..|calls| - 1], calls[|calls| - 1];
      assert init + [last] == calls;
      GenOne(opts, BLANK, init, last);
      CallsReadBack(opts, flags, init);
      CallReadsBack(opts, flags, GenRun(opts, BLANK, init).value, last, init);
    }
  }

  lemma BlankReadsBack(flags: Flags)
    ensures ReadsBack(flags, BLANK, [])
  {
    assert ParserAt(BLANK.states, []) == INIT;
  }

  // ---------------------------------------------------------------- whole values

  /** How many containers are open at once. */
  function Depth(v: Json): nat
    decreases v, 1
  {
    match v
    case JArray(items) => 1 + DepthItems(items)
    case JObject(members) => 1 + DepthMembers(members)
    case _ => 0
  }

  function Max(a: nat, b: nat): nat { if a < b then b else a }

  function DepthItems(items: seq<Json>): nat
    decreases items, 0
  {
    if items == [] then 0 else Max(DepthItems(items[..|items| - 1]), Depth(items[|items| - 1]))
  }

  function DepthMembers(members: seq<Member>): nat
    decreases members, 0
  {
    if members == [] then 0 else Max(DepthMembers(members[..|members| - 1]), Depth(members[|members| - 1].value))
  }

  /** All strings pass yajl_string_validate_utf8, and all numbers are spelt as JSON spells them. */
  ghost predicate Printable(v: Json)
    decreases v, 1
  {
    match v
    case JNumber(text) => IsNumber(text)
    case JString(text) => JsonString.ValidFrom(0, text, 0)
    case JArray(items) => PrintableItems(items)
    case JObject(members) => PrintableMembers(members)
    case _ => true
  }

  ghost predicate PrintableItems(items: seq<Json>)
    decreases items, 0
  {
    items == [] || (PrintableItems(items[..|items| - 1]) && Printable(items[|items| - 1]))
  }

  ghost predicate PrintableMembers(members: seq<Member>)
    decreases members, 0
  {
    members == [] ||
    (PrintableMembers(members[..|members| - 1])
     && JsonString.ValidFrom(0, members[|members| - 1].key, 0) && Printable(members[|members| - 1].value))
  }

  lemma {:induction false} GenConcat(opts: Options, g: Printed, a: seq<Event>, b: seq<Event>)
    requires g.states != []
    ensures GenRun(opts, g, a + b) == var m := GenRun(opts, g, a); if m.None? then None else GenRun(opts, m.value, b)
  {
    if b == [] {
      assert a + b == a;
    } else {
      assert (a + b)[..|a + b| - 1] == a + b[..|b| - 1];
      GenConcat(opts, g, a, b[..|b| - 1]);
    }
  }

  lemma GenOne(opts: Options, g: Printed, a: seq<Event>, e: Event)
    requires g.states != []
    ensures GenRun(opts, g, a + [e]) ==
            var m := GenRun(opts, g, a);
            if m.Some? && Call(opts, m.value, e) then Some(Emit(opts, m.value, e)) else None
  {
    assert (a + [e])[..|a + [e]| - 1] == a;
  }

  lemma GenSingle(opts: Options, g: Printed, e: Event)
    requires g.states != []
    ensures GenRun(opts, g, [e]) == if Call(opts, g, e) then Some(Emit(opts, g, e)) else None
  {
    assert [] + [e] == [e];
    GenOne(opts, g, [], e);
  }

  /** A sequence of calls that all succeed and leave the levels below alone. */
  predicate Leads(opts: Options, g: Printed, calls: seq<Event>, top: GenState)
    requires g.states != []
  {
    var r := GenRun(opts, g, calls);
    r.Some? && r.value.states == g.Below() + [top]
  }

  predicate TakesValue(s: GenState) { s.GenStart? || s.GenMapVal? || s.GenArrayStart? || s.GenInArray? }

  lemma AtomCall(opts: Options, g: Printed, e: Event)
    requires g.states != [] && IsAtom(e) && Wellformed(e)
    requires (if e.MapKey? then g.Top().GenMapStart? || g.Top().GenMapKey? else TakesValue(g.Top()))
    ensures Call(opts, g, e) && Emit(opts, g, e).states == g.Below() + [After(g.Top())]
  {
  }

  lemma OpenCall(opts: Options, g: Printed, isMap: bool)
    requires g.states != [] && TakesValue(g.Top()) && |g.states| < MAX_DEPTH
    ensures var e := if isMap then StartMap else StartArray;
            Call(opts, g, e) && Emit(opts, g, e).states == g.states + [if isMap then GenMapStart else GenArrayStart]
  {
  }

  lemma CloseCall(opts: Options, g: Printed, isMap: bool, below: seq<GenState>, top: GenState, last: GenState)
    requires g.states == below + [top] + [last]
    requires if isMap then last.GenMapStart? || last.GenMapKey? else last.GenArrayStart? || last.GenInArray?
    ensures var e := if isMap then EndMap else EndArray;
            Call(opts, g, e) && Emit(opts, g, e).states == below + [After(top)]
  {
    assert g.states[..|g.states| - 2] == below;
  }

  lemma GenContainer(opts: Options, g: Printed, isMap: bool, body: seq<Event>, last: GenState)
    requires g.states != [] && TakesValue(g.Top()) && |g.states| < MAX_DEPTH
    requires if isMap then last.GenMapStart? || last.GenMapKey? else last.GenArrayStart? || last.GenInArray?
    requires Leads(opts, Emit(opts, g, if isMap then StartMap else StartArray), body, last)
    ensures Leads(opts, g, [if isMap then StartMap else StartArray] + body + [if isMap then EndMap else EndArray],
              After(g.Top()))
  {
    var start, end := if isMap then StartMap else StartArray, if isMap then EndMap else EndArray;
    OpenCall(opts, g, isMap);
    var inner := Emit(opts, g, start);
    assert inner.Below() == g.states == g.Below() + [g.Top()];
    var r := GenRun(opts, inner, body).value;
    CloseCall(opts, r, isMap, g.Below(), g.Top(), last);
    hide Emit, Call, After;
    GenSingle(opts, g, start);
    GenConcat(opts, g, [start], body);
    GenOne(opts, g, [start] + body, end);
    hide GenRun;
  }

  lemma {:induction false} GenValue(opts: Options, g: Printed, v: Json)
    requires g.states != [] && TakesValue(g.Top()) && |g.states| + Depth(v) <= MAX_DEPTH && Printable(v)
    ensures Leads(opts, g, Flatten(v), After(g.Top()))
    decreases v, 1
  {
    if v.JArray? {
      OpenCall(opts, g, false);
      hide Emit, Call, Leads, GenRun;
      GenItems(opts, Emit(opts, g, StartArray), v.items);
      GenContainer(opts, g, false, FlattenItems(v.items), if v.items == [] then GenArrayStart else GenInArray);
    } else if v.JObject? {
      OpenCall(opts, g, true);
      hide Emit, Call, Leads, GenRun;
      GenMembers(opts, Emit(opts, g, StartMap), v.members);
      GenContainer(opts, g, true, FlattenMembers(v.members), if v.members == [] then GenMapStart else GenMapKey);
    } else {
      if v.JNumber? {
        NumbersAreNumbers(v.text);
      }
      AtomCall(opts, g, Flatten(v)[0]);
      hide Emit, Call;
      GenSingle(opts, g, Flatten(v)[0]);
    }
  }

  lemma LeadsThen(opts: Options, g: Printed, a: seq<Event>, x: GenState, b: seq<Event>, y: GenState)
    requires g.states != [] && Leads(opts, g, a, x) && Leads(opts, GenRun(opts, g, a).value, b, y)
    ensures Leads(opts, g, a + b, y)
  {
    GenConcat(opts, g, a, b);
    var m := GenRun(opts, g, a).value;
    assert m.Below() == g.Below();
    hide GenRun;
  }

  lemma LeadsTo(opts: Options, g: Printed, calls: seq<Event>, top: GenState)
    requires g.states != [] && Leads(opts, g, calls, top)
    ensures var r := GenRun(opts, g, calls); r.Some? && r.value.Top() == top && |r.value.states| == |g.states|
  {
    hide GenRun;
  }

  lemma KeyLeads(opts: Options, g: Printed, key: seq<byte>)
    requires g.states != [] && (g.Top().GenMapStart? || g.Top().GenMapKey?) && JsonString.ValidFrom(0, key, 0)
    ensures Leads(opts, g, [MapKey(key)], GenMapVal)
  {
    AtomCall(opts, g, MapKey(key));
    hide Emit, Call;
    GenSingle(opts, g, MapKey(key));
  }

  lemma LeadsNowhere(opts: Options, g: Printed)
    requires g.states != []
    ensures Leads(opts, g, [], g.Top())
  {
    assert g.states == g.Below() + [g.Top()];
  }

  lemma {:induction false} GenItems(opts: Options, g: Printed, items: seq<Json>)
    requires g.states != [] && g.Top().GenArrayStart? && |g.states| + DepthItems(items) <= MAX_DEPTH
    requires PrintableItems(items)
    ensures Leads(opts, g, FlattenItems(items), if items == [] then GenArrayStart else GenInArray)
    decreases items, 0
  {
    hide GenRun, Leads, Flatten, Printable, Depth;
    if items == [] {
      LeadsNowhere(opts, g);
    } else {
      var init, last := items[..|items| - 1], items[|items| - 1];
      var top := if init == [] then GenArrayStart else GenInArray;
      GenItems(opts, g, init);
      LeadsTo(opts, g, FlattenItems(init), top);
      var m := GenRun(opts, g, FlattenItems(init)).value;
      GenValue(opts, m, last);
      LeadsThen(opts, g, FlattenItems(init), top, Flatten(last), GenInArray);
    }
  }

  lemma {:induction false} GenMembers(opts: Options, g: Printed, members: seq<Member>)
    requires g.states != [] && g.Top().GenMapStart? && |g.states| + DepthMembers(members) <= MAX_DEPTH
    requires PrintableMembers(members)
    ensures Leads(opts, g, FlattenMembers(members), if members == [] then GenMapStart else GenMapKey)
    decreases members, 0
  {
    hide GenRun, Leads, Flatten, Printable, Depth, Emit, Call;
    if members == [] {
      LeadsNowhere(opts, g);
    } else {
      var init, last := members[..|members| - 1], members[|members| - 1];
      var top := if init == [] then GenMapStart else GenMapKey;
      GenMembers(opts, g, init);
      LeadsTo(opts, g, FlattenMembers(init), top);
      var before := GenRun(opts, g, FlattenMembers(init)).value;
      KeyLeads(opts, before, last.key);
      LeadsThen(opts, g, FlattenMembers(init), top, [MapKey(last.key)], GenMapVal);
      LeadsTo(opts, g, FlattenMembers(init) + [MapKey(last.key)], GenMapVal);
      var keyed := GenRun(opts, g, FlattenMembers(init) + [MapKey(last.key)]).value;
      GenValue(opts, keyed, last.value);
      LeadsThen(opts, g, FlattenMembers(init) + [MapKey(last.key)], GenMapVal, Flatten(last.value), GenMapKey);
    }
  }

  /** At the end of a complete value the space of yajl_do_finish changes nothing. */
  lemma CompleteFinishes(flags: Flags, trace: seq<Event>, out: seq<byte>)
    ensures var o := Parse(flags, Core([], ParseComplete, trace), out + [SPACE], |out|).core;
            o.trace == trace && Verdict(flags, o.top) == Ok
  {
    var s, c := out + [SPACE], Core([], ParseComplete, trace);
    SkipSpace(flags, c, s, |out|, |s|);
    ParseDeaf(flags, c, s, |s|);
  }

  lemma CompleteRun(flags: Flags, g: Printed, trace: seq<Event>, chunks: seq<seq<byte>>)
    requires ReadsBack(flags, g, trace) && g.states == [GenComplete] && Concat(chunks) == g.out
    ensures Run(flags, chunks) == (trace, Ok)
  {
    hide Run, Parse, LowOk, Levels;
    assert ParserAt(g.states, trace) == Core([], ParseComplete, trace);
    CompleteFinishes(flags, trace, g.out);
    assert Continues(g.Top(), [SPACE]);
    RunIsParse(flags, chunks);
  }

  /** Print then parse: every printable value at most 127 containers deep is printed without a refusal, under
      every setting of the generator; and what was printed, cut into chunks in any way, is parsed without an
      error into exactly the events of the value, under every setting of the parser. */
  lemma PrintThenParse(opts: Options, flags: Flags, v: Json, chunks: seq<seq<byte>>)
    requires ValidOptions(opts) && Printable(v) && Depth(v) < 128
    ensures GenRun(opts, BLANK, Flatten(v)).Some?
    ensures Concat(chunks) == GenRun(opts, BLANK, Flatten(v)).value.out ==> Run(flags, chunks) == (Flatten(v), Ok)
  {
    GenValue(opts, BLANK, v);
    CallsReadBack(opts, flags, Flatten(v));
    hide GenRun, ReadsBack, Flatten, Run;
    if Concat(chunks) == GenRun(opts, BLANK, Flatten(v)).value.out {
      CompleteRun(flags, GenRun(opts, BLANK, Flatten(v)).value, Flatten(v), chunks);
    }
  }
}
