/** What the streaming parser of deps/yajl/src/yajl_parser.c makes of a text, chunk boundaries aside. */
module JsonParse {
  import opened Bytes
  import opened Optional
  import opened JsonLex
  import JsonString
  import YajlLexer

  /** Halted: the program has stopped at an assertion of yajl_string_decode. */
  datatype State =
    | StartState | GotValue | ParseComplete | ParseError | LexicalError | Halted
    | MapStart | MapSep | MapNeedVal | MapGotVal | MapNeedKey
    | ArrayStart | ArrayGotVal | ArrayNeedVal

  /** One callback of the client. Numbers are handed over as written. */
  datatype Event =
    | Null | Boolean(value: bool) | Number(text: seq<byte>) | String(text: seq<byte>)
    | StartMap | MapKey(text: seq<byte>) | EndMap | StartArray | EndArray

  datatype Flags = Flags(
    allowComments: bool, dontValidateStrings: bool, trailingGarbage: bool, multipleValues: bool, partialValues: bool)

  function LexConfig(flags: Flags): Config { Config(flags.allowComments, !flags.dontValidateStrings) }

  /** The state stack, its top apart, and the callbacks made so far. */
  datatype Core = Core(low: seq<State>, top: State, trace: seq<Event>) {
    /** yajl_bs_set */
    function Set(s: State): Core { Core(low, s, trace) }

    function Push(s: State): Core { Core(low + [top], s, trace) }

    function Pop(): Core
      requires low != []
    {
      Core(low[..|low| - 1], low[|low| - 1], trace)
    }

    function Emit(e: Event): Core { Core(low, top, trace + [e]) }
  }

  const INIT: Core := Core([], StartState, [])

  predicate InMap(s: State) { s.MapStart? || s.MapSep? || s.MapNeedVal? || s.MapGotVal? || s.MapNeedKey? }

  predicate InArray(s: State) { s.ArrayStart? || s.ArrayGotVal? || s.ArrayNeedVal? }

  predicate Failed(s: State) { s.ParseError? || s.LexicalError? || s.Halted? }

  predicate InContainer(s: State) { InMap(s) || InArray(s) }

  /** Every level but the lowest is inside a container, unless parsing has failed there. */
  predicate LowOk(low: seq<State>) {
    && (low != [] ==> !InContainer(low[0]))
    && forall i :: 0 < i < |low| ==> InContainer(low[i])
  }

  predicate TopOk(lowest: bool, top: State) {
    if lowest then !InContainer(top) else InContainer(top) || Failed(top)
  }

  predicate Fits(low: seq<State>, top: State) { LowOk(low) && TopOk(low == [], top) }

  predicate Stacked(c: Core) { Fits(c.low, c.top) }

  /** The string that a token stands for; None when the program stops while decoding it. */
  function TextOf(kind: Kind, text: seq<byte>): Option<seq<byte>> {
    if kind.EscapedText? then JsonString.Decode(text, 0) else Some(text)
  }

  /** A value at this level is complete, or has been opened. */
  function AfterValue(s: State): State {
    if s.StartState? || s.GotValue? then ParseComplete
    else if s.MapNeedVal? then MapGotVal
    else ArrayGotVal
  }

  predicate WantsValue(s: State) { s.StartState? || s.GotValue? || s.MapNeedVal? || s.ArrayNeedVal? || s.ArrayStart? }

  /** What one token can do to the stack keeps it well-formed. */
  lemma NextStacks(c: Core)
    requires Stacked(c)
    ensures InContainer(c.top) ==> c.low != [] && LowOk(c.low[..|c.low| - 1]) && TopOk(|c.low| == 1, c.low[|c.low| - 1])
    ensures WantsValue(c.top) ==> LowOk(c.low + [AfterValue(c.top)])
  {
  }

  function OnValue(c: Core, kind: Kind, text: seq<byte>): (r: Core)
    requires Stacked(c) && WantsValue(c.top)
    ensures Stacked(r)
  {
    NextStacks(c);
    var next := AfterValue(c.top);
    match kind
    case Text => c.Emit(String(text)).Set(next)
    case EscapedText =>
      var word := TextOf(kind, text);
      if word.None? then c.Set(Halted) else c.Emit(String(word.value)).Set(next)
    case BoolTok => c.Emit(Boolean(text != [] && text[0] == 0x74)).Set(next)
    case NullTok => c.Emit(Null).Set(next)
    case Integer => c.Emit(Number(text)).Set(next)
    case Double => c.Emit(Number(text)).Set(next)
    case OpenMap => c.Emit(StartMap).Set(next).Push(MapStart)
    case OpenArray => c.Emit(StartArray).Set(next).Push(ArrayStart)
    case CloseArray => if c.top.ArrayStart? then c.Emit(EndArray).Pop() else c.Set(ParseError)
    case _ => c.Set(ParseError)
  }

  function OnKey(c: Core, kind: Kind, text: seq<byte>): (r: Core)
    requires Stacked(c) && InMap(c.top)
    ensures Stacked(r)
  {
    NextStacks(c);
    match kind
    case Text => c.Emit(MapKey(text)).Set(MapSep)
    case EscapedText =>
      var word := TextOf(kind, text);
      if word.None? then c.Set(Halted) else c.Emit(MapKey(word.value)).Set(MapSep)
    case CloseMap => if c.top.MapStart? then c.Emit(EndMap).Pop() else c.Set(ParseError)
    case _ => c.Set(ParseError)
  }

  /** The effect of one token in a state that reads one. */
  function Advance(c: Core, kind: Kind, text: seq<byte>): (r: Core)
    requires Stacked(c)
    ensures Stacked(r)
  {
    NextStacks(c);
    match c.top
    case ParseComplete => c.Set(ParseError)
    case MapStart => OnKey(c, kind, text)
    case MapNeedKey => OnKey(c, kind, text)
    case MapSep => if kind == Kind.Colon then c.Set(MapNeedVal) else c.Set(ParseError)
    case MapGotVal =>
      if kind == CloseMap then c.Emit(EndMap).Pop()
      else if kind == Kind.Comma then c.Set(MapNeedKey) else c.Set(ParseError)
    case ArrayGotVal =>
      if kind == CloseArray then c.Emit(EndArray).Pop()
      else if kind == Kind.Comma then c.Set(ArrayNeedVal) else c.Set(ParseError)
    case ParseError => c
    case LexicalError => c
    case Halted => c
    case _ => OnValue(c, kind, text)
  }

  /** No more input changes anything. */
  predicate Deaf(flags: Flags, s: State) {
    Failed(s) || (s.ParseComplete? && flags.trailingGarbage && !flags.multipleValues)
  }

  /** A state in which the next token decides, whatever the flags. */
  predicate Listens(s: State) { !Failed(s) && !s.ParseComplete? }

  /** With yajl_allow_multiple_values a complete value is the start of the next. */
  function Reopen(flags: Flags, c: Core): (r: Core)
    requires Stacked(c)
    ensures Stacked(r)
  {
    if c.top.ParseComplete? && flags.multipleValues then c.Set(GotValue) else c
  }

  /** The final state, and where the unfinished rest of the text begins. */
  datatype Outcome = Outcome(core: Core, rest: nat)

  function Parse(flags: Flags, c0: Core, s: seq<byte>, i: nat): (o: Outcome)
    requires i <= |s| && Stacked(c0)
    ensures o.rest <= |s| && Stacked(o.core)
    decreases |s| - i
  {
    var c := Reopen(flags, c0);
    if Deaf(flags, c.top) then Outcome(c, |s|)
    else
      match Scan(LexConfig(flags), s, i)
      case More(from) => Outcome(c, from)
      case Bad(_) => Outcome(c.Set(if c.top.ParseComplete? then ParseError else LexicalError), |s|)
      case Found(kind, from, to) =>
        Parse(flags, Advance(c, kind, YajlLexer.Lexeme(kind, s[from..to])), s, to)
  }

  lemma ParseOne(flags: Flags, c: Core, s: seq<byte>, i: nat)
    requires i <= |s| && Stacked(c) && !Deaf(flags, c.top) && Reopen(flags, c) == c
    ensures var r := Scan(LexConfig(flags), s, i);
            Parse(flags, c, s, i) ==
            if r.More? then Outcome(c, r.from)
            else if r.Bad? then Outcome(c.Set(if c.top.ParseComplete? then ParseError else LexicalError), |s|)
            else Parse(flags, Advance(c, r.kind, YajlLexer.Lexeme(r.kind, s[r.from..r.to])), s, r.to)
  {
  }

  lemma ParseDeaf(flags: Flags, c: Core, s: seq<byte>, i: nat)
    requires i <= |s| && Stacked(c)
    ensures Deaf(flags, c.top) ==> Parse(flags, c, s, i) == Outcome(c, |s|)
    ensures Stacked(Reopen(flags, c)) && Parse(flags, c, s, i) == Parse(flags, Reopen(flags, c), s, i)
  {
  }

  /** Cutting a text in two changes nothing: what the second part is parsed from is what the first part left. */
  lemma {:induction false} ParseExtends(flags: Flags, c0: Core, s: seq<byte>, t: seq<byte>, i: nat)
    requires i <= |s| && Stacked(c0)
    ensures var o := Parse(flags, c0, s, i);
            Parse(flags, c0, s + t, i) == Parse(flags, o.core, s + t, o.rest)
    decreases |s| - i
  {
    hide Advance, LowOk, Scan;
    var c := Reopen(flags, c0);
    if !Deaf(flags, c.top) {
      ScanExtends(LexConfig(flags), s, t, i);
      match Scan(LexConfig(flags), s, i)
      case More(from) =>
      case Bad(_) =>
      case Found(kind, from, to) =>
        assert (s + t)[from..to] == s[from..to];
        ParseExtends(flags, Advance(c, kind, YajlLexer.Lexeme(kind, s[from..to])), s, t, to);
    }
  }

  /** Parsing depends only on the bytes from i on. */
  lemma {:induction false} ParseShift(flags: Flags, c0: Core, s: seq<byte>, d: nat, i: nat)
    requires d <= i <= |s| && Stacked(c0)
    ensures Parse(flags, c0, s, i).core == Parse(flags, c0, s[d..], i - d).core
    ensures Parse(flags, c0, s, i).rest == Parse(flags, c0, s[d..], i - d).rest + d
    decreases |s| - i
  {
    hide Advance, LowOk, Reopen, Scan;
    var c := Reopen(flags, c0);
    if !Deaf(flags, c.top) {
      ScanShift(LexConfig(flags), s, d, i);
      match Scan(LexConfig(flags), s, i)
      case More(from) =>
      case Bad(_) =>
      case Found(kind, from, to) =>
        assert s[d..][from - d..to - d] == s[from..to];
        ParseShift(flags, Advance(c, kind, YajlLexer.Lexeme(kind, s[from..to])), s, d, to);
    }
  }

  // ---------------------------------------------------------------- whole runs

  /** Stopped: there is no status, since the program stopped at an assertion. */
  datatype Status = Ok | Failure | Stopped

  function StatusIn(s: State): Status {
    if s.Halted? then Stopped else if Failed(s) then Failure else Ok
  }

  /** Between two chunks: the state, and the bytes of an unfinished token. */
  datatype Handle = Handle(core: Core, pending: seq<byte>)

  const FRESH: Handle := Handle(INIT, [])

  function Feed(flags: Flags, h: Handle, chunk: seq<byte>): (r: Handle)
    requires Stacked(h.core)
    ensures Stacked(r.core)
  {
    var o := Parse(flags, h.core, h.pending + chunk, 0);
    Handle(o.core, (h.pending + chunk)[o.rest..])
  }

  function FeedAll(flags: Flags, h: Handle, chunks: seq<seq<byte>>): (r: Handle)
    requires Stacked(h.core)
    ensures Stacked(r.core)
  {
    if chunks == [] then h else Feed(flags, FeedAll(flags, h, chunks[..|chunks| - 1]), chunks[|chunks| - 1])
  }

  /** The verdict of yajl_do_finish on the state it finds after its one space. */
  function Verdict(flags: Flags, s: State): Status {
    if Failed(s) then StatusIn(s)
    else if s.GotValue? || s.ParseComplete? || flags.partialValues then Ok
    else Failure
  }

  /** All callbacks and the final status of feeding the chunks and finishing. */
  function Run(flags: Flags, chunks: seq<seq<byte>>): (seq<Event>, Status) {
    var h := Feed(flags, FeedAll(flags, FRESH, chunks), [SPACE]);
    (h.core.trace, Verdict(flags, h.core.top))
  }

  lemma FeedTwice(flags: Flags, h: Handle, a: seq<byte>, b: seq<byte>)
    requires Stacked(h.core)
    ensures Feed(flags, Feed(flags, h, a), b) == Feed(flags, h, a + b)
  {
    hide Parse, LowOk;
    var s := h.pending + a;
    var o := Parse(flags, h.core, s, 0);
    assert h.pending + (a + b) == s + b;
    ParseExtends(flags, h.core, s, b, 0);
    ParseShift(flags, o.core, s + b, o.rest, o.rest);
    assert (s + b)[o.rest..] == s[o.rest..] + b;
  }

  lemma {:induction false} FeedAllIsFeed(flags: Flags, chunks: seq<seq<byte>>)
    ensures FeedAll(flags, FRESH, chunks + [[]]) == Feed(flags, FRESH, Concat(chunks))
  {
    var all := chunks + [[]];
    assert all[..|all| - 1] == chunks;
    if chunks == [] {
    } else {
      var init, last := chunks[..|chunks| - 1], chunks[|chunks| - 1];
      FeedAllIsFeed(flags, init);
      assert (init + [[]])[..|init|] == init;
      var h := FeedAll(flags, FRESH, init);
      FeedTwice(flags, h, [], last);
      FeedTwice(flags, h, last, []);
      assert [] + last == last == last + [];
      FeedTwice(flags, FRESH, Concat(init), last);
    }
  }

  /** Chunk independence: two ways of cutting the same text give the same callbacks and the same status,
      under every setting of the flags. */
  lemma ChunkingDoesNotMatter(flags: Flags, chunks: seq<seq<byte>>, chunks': seq<seq<byte>>)
    requires Concat(chunks) == Concat(chunks')
    ensures Run(flags, chunks) == Run(flags, chunks')
  {
    FeedAllIsFeed(flags, chunks);
    FeedAllIsFeed(flags, chunks');
    FinishAfterEmpty(flags, chunks);
    FinishAfterEmpty(flags, chunks');
  }

  lemma FinishAfterEmpty(flags: Flags, chunks: seq<seq<byte>>)
    ensures Feed(flags, FeedAll(flags, FRESH, chunks + [[]]), [SPACE]) ==
              Feed(flags, FeedAll(flags, FRESH, chunks), [SPACE])
  {
    var all := chunks + [[]];
    assert all[..|all| - 1] == chunks;
    FeedTwice(flags, FeedAll(flags, FRESH, chunks), [], [SPACE]);
    assert [] + [SPACE] == [SPACE];
  }

  /** What the handle holds after a run: the final state, and the octets that never became a token. */
  function FinalHandle(flags: Flags, chunks: seq<seq<byte>>): (h: Handle)
    ensures Stacked(h.core)
  {
    Feed(flags, FeedAll(flags, FRESH, chunks), [SPACE])
  }

  /** A run is one parse of the whole text and a space. */
  lemma RunIsParse(flags: Flags, chunks: seq<seq<byte>>)
    ensures var s := Concat(chunks) + [SPACE]; var o := Parse(flags, INIT, s, 0);
            Run(flags, chunks) == (o.core.trace, Verdict(flags, o.core.top))
                && FinalHandle(flags, chunks) == Handle(o.core, s[o.rest..])
  {
    FeedAllIsFeed(flags, chunks);
    FinishAfterEmpty(flags, chunks);
    FeedTwice(flags, FRESH, Concat(chunks), [SPACE]);
    assert [] + (Concat(chunks) + [SPACE]) == Concat(chunks) + [SPACE];
  }
}
