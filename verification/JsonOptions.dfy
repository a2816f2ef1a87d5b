/** What the options of deps/yajl/src/yajl_parser.c for trailing garbage, several values and partial values accept,
    told in the tokens of the text. */
module JsonOptions {
  import opened Bytes
  import opened JsonLex
  import opened JsonParse
  import opened JsonTree
  import YajlLexer
  import opened JsonGrammar
  import opened JsonAccepted

  // ---------------------------------------------------------------- the parser on tokens, under any options

  function RunWith(flags: Flags, c0: Core, ts: seq<Token>, k: nat): (r: Core)
    requires k <= |ts| && Stacked(c0)
    ensures Stacked(r)
    decreases |ts| - k
  {
    var c := Reopen(flags, c0);
    if Deaf(flags, c.top) || k == |ts| then c else RunWith(flags, Advance(c, ts[k].kind, ts[k].text), ts, k + 1)
  }

  lemma {:induction false} WithShift(flags: Flags, c: Core, t: Token, ts: seq<Token>, k: nat)
    requires k <= |ts| && Stacked(c)
    ensures RunWith(flags, c, [t] + ts, k + 1) == RunWith(flags, c, ts, k)
    decreases |ts| - k
  {
    hide Advance, LowOk, TopOk, Reopen, Deaf;
    var c' := Reopen(flags, c);
    if !Deaf(flags, c'.top) && k < |ts| {
      WithShift(flags, Advance(c', ts[k].kind, ts[k].text), t, ts, k + 1);
    }
  }

  /** Parsing a text is running on its tokens, until the parser listens no more or the text has no more tokens. */
  lemma {:induction false} ParseIsRunWith(flags: Flags, c0: Core, s: seq<byte>, i: nat)
    requires i <= |s| && Stacked(c0)
    ensures var o, r := Parse(flags, c0, s, i), RunWith(flags, c0, Tokens(LexConfig(flags), s, i), 0);
            if Deaf(flags, r.top) || Rest(LexConfig(flags), s, i).More? then o.core == r else Failed(o.core.top)
    decreases |s| - i
  {
    var cfg, c := LexConfig(flags), Reopen(flags, c0);
    hide Advance, LowOk, Scan, TopOk, LexConfig;
    if !Deaf(flags, c.top) {
      var r := Scan(cfg, s, i);
      if r.Found? {
        var t := Token(r.kind, YajlLexer.Lexeme(r.kind, s[r.from..r.to]));
        ParseIsRunWith(flags, Advance(c, t.kind, t.text), s, r.to);
        WithShift(flags, Advance(c, t.kind, t.text), t, Tokens(cfg, s, r.to), 0);
      }
    }
  }

  /** A run that does not fail on the first n tokens goes on from there. */
  lemma {:induction false} RunFirst(flags: Flags, c: Core, ts: seq<Token>, i: nat, n: nat)
    requires i <= n <= |ts| && Stacked(c) && !Failed(RunOn(c, ts[..n], i).top)
    ensures RunWith(flags, c, ts, i) == RunWith(flags, RunOn(c, ts[..n], i), ts, n)
    decreases n - i
  {
    hide LowOk, TopOk, Advance;
    if i < n {
      Undone(c, ts[..n], i);
      RunFirst(flags, Advance(c, ts[i].kind, ts[i].text), ts, i + 1, n);
    }
  }

  /** Where a run does not fail on one more token, no value was complete. */
  lemma Undone(c: Core, ts: seq<Token>, i: nat)
    requires i < |ts| && Stacked(c) && !Failed(RunOn(c, ts, i).top)
    ensures !c.top.ParseComplete? && !Failed(c.top)
  {
    hide LowOk, TopOk;
    if Failed(c.top) {
      FailureStays(c, ts, i);
    } else if c.top.ParseComplete? {
      FailureStays(Advance(c, ts[i].kind, ts[i].text), ts, i + 1);
    }
  }

  /** The run comes to the end of a value, fails, or takes all tokens. */
  lemma {:induction false} FindEnd(flags: Flags, c: Core, ts: seq<Token>, i: nat) returns (n: nat)
    requires i <= |ts| && Stacked(c)
    ensures i <= n <= |ts| && (WantsValue(c.top) && i < |ts| ==> i < n)
    ensures var m := RunOn(c, ts[..n], i);
            && (m.top.ParseComplete? || Failed(m.top) || n == |ts|)
            && RunWith(flags, c, ts, i) == RunWith(flags, m, ts, n)
    decreases |ts| - i
  {
    hide LowOk, TopOk, Advance;
    if c.top.ParseComplete? || Failed(c.top) || i == |ts| {
      n := i;
    } else {
      n := FindEnd(flags, Advance(c, ts[i].kind, ts[i].text), ts, i + 1);
      assert ts[..n][i] == ts[i];
    }
  }

  // ---------------------------------------------------------------- tokens that can become a value

  /** More tokens can make a value of these. */
  ghost predicate Unfinished(ts: seq<Token>) { exists more, v :: SpellsAll(ts + more, v) }

  /** A level of the stack below its top: what its value will leave there. */
  predicate Waiting(s: State) { s.ParseComplete? || s.MapGotVal? || s.ArrayGotVal? }

  predicate AllWaiting(low: seq<State>) { forall s :: s in low ==> Waiting(s) }

  lemma AdvanceWaits(c: Core, t: Token)
    requires Stacked(c) && AllWaiting(c.low)
    ensures AllWaiting(Advance(c, t.kind, t.text).low)
  {
    hide LowOk, TextOf, AllWaiting;
    WaitingMore(c.low, AfterValue(c.top));
    WaitingLess(c.low);
  }

  lemma WaitingMore(low: seq<State>, s: State)
    requires AllWaiting(low) && Waiting(s)
    ensures AllWaiting(low + [s])
  {
  }

  lemma WaitingLess(low: seq<State>)
    requires AllWaiting(low)
    ensures low != [] ==> AllWaiting(low[..|low| - 1]) && Waiting(low[|low| - 1])
  {
  }

  lemma {:induction false} RunWaits(c: Core, ts: seq<Token>, k: nat)
    requires k <= |ts| && Stacked(c) && AllWaiting(c.low)
    ensures AllWaiting(RunOn(c, ts, k).low)
    decreases |ts| - k
  {
    hide LowOk, TopOk, Advance, AllWaiting;
    if k < |ts| {
      AdvanceWaits(c, ts[k]);
      RunWaits(Advance(c, ts[k].kind, ts[k].text), ts, k + 1);
    }
  }

  /** A token that leads one step nearer to the end of the value. */
  function Next(s: State): Token {
    Token(match s
          case MapStart => CloseMap
          case MapSep => Kind.Colon
          case MapGotVal => CloseMap
          case MapNeedKey => Text
          case ArrayStart => CloseArray
          case ArrayGotVal => CloseArray
          case _ => NullTok, [])
  }

  function Steps(s: State): nat {
    match s
    case ParseComplete => 0
    case MapNeedKey => 4
    case MapSep => 3
    case MapNeedVal => 2
    case ArrayNeedVal => 2
    case _ => 1
  }

  lemma NextStep(c: Core)
    requires Stacked(c) && AllWaiting(c.low) && !Failed(c.top) && !c.top.ParseComplete?
    ensures var c' := Advance(c, Next(c.top).kind, Next(c.top).text);
            && AllWaiting(c'.low) && !Failed(c'.top)
            && (|c'.low| < |c.low| || (c'.low == c.low && Steps(c'.top) < Steps(c.top)))
  {
    AdvanceWaits(c, Next(c.top));
    WaitingLess(c.low);
    hide LowOk, AllWaiting;
  }

  /** Without a failure the run can be brought to the end of the value. */
  lemma {:induction false} Finishing(c: Core) returns (more: seq<Token>)
    requires Stacked(c) && AllWaiting(c.low) && !Failed(c.top)
    ensures RunOn(c, more, 0).top.ParseComplete?
    decreases |c.low|, Steps(c.top)
  {
    hide LowOk, TopOk, Advance, AllWaiting, Next, Steps;
    if c.top.ParseComplete? {
      more := [];
    } else {
      NextStep(c);
      var t := Next(c.top);
      var c' := Advance(c, t.kind, t.text);
      var rest := Finishing(c');
      more := [t] + rest;
      RunShift(c', t, rest, 0);
    }
  }

  lemma {:induction false} RunJoin(c: Core, ts: seq<Token>, more: seq<Token>, k: nat)
    requires k <= |ts| && Stacked(c)
    ensures RunOn(c, ts + more, k) == RunOn(RunOn(c, ts, k), more, 0)
    decreases |ts| - k
  {
    hide LowOk, TopOk, Advance;
    if k < |ts| {
      RunJoin(Advance(c, ts[k].kind, ts[k].text), ts, more, k + 1);
    } else {
      RunBehind(c, ts, more, 0);
    }
  }

  lemma {:induction false} RunBehind(c: Core, ts: seq<Token>, more: seq<Token>, k: nat)
    requires k <= |more| && Stacked(c)
    ensures RunOn(c, ts + more, |ts| + k) == RunOn(c, more, k)
    decreases |more| - k
  {
    hide LowOk, TopOk, Advance;
    if k < |more| {
      RunBehind(Advance(c, more[k].kind, more[k].text), ts, more, k + 1);
    }
  }

  /** The parser fails on some tokens exactly when no tokens behind them could make a value. */
  lemma UnfinishedIs(c: Core, ts: seq<Token>)
    requires AtTop(c)
    ensures !Failed(RunOn(c, ts, 0).top) <==> Unfinished(ts)
  {
    assert Stacked(c);
    hide LowOk, TopOk, Advance, SpellsAll, RunOn;
    RunWaits(c, ts, 0);
    var m := RunOn(c, ts, 0);
    if !Failed(m.top) {
      var more := Finishing(m);
      RunJoin(c, ts, more, 0);
      AcceptsIs(c, ts + more);
    }
    if more, v :| SpellsAll(ts + more, v) {
      AcceptsIs(c, ts + more);
      RunJoin(c, ts, more, 0);
      if Failed(m.top) {
        FailureStays(m, more, 0);
      }
    }
  }

  // ---------------------------------------------------------------- what is accepted

  lemma TopStacks(c: Core)
    ensures AtTop(c) ==> Stacked(c)
  {
  }

  /** Some of the tokens spell the values, one after the other, and rest are behind them. */
  ghost predicate SpellsMany(ts: seq<Token>, vs: seq<Json>, rest: seq<Token>)
    decreases |vs|
  {
    if vs == [] then ts == rest
    else exists n :: 0 <= n <= |ts| && SpellsAll(ts[..n], vs[0]) && SpellsMany(ts[n..], vs[1..], rest)
  }

  /** What a client hears of values one after the other. */
  function FlattenMany(vs: seq<Json>): seq<Event> { if vs == [] then [] else Flatten(vs[0]) + FlattenMany(vs[1..]) }

  /** Where the top level waits for a value again. */
  function Again(c: Core, vs: seq<Json>): Core {
    Core([], if vs == [] then c.top else GotValue, c.trace + FlattenMany(vs))
  }

  lemma AgainOnce(c: Core, v: Json, vs: seq<Json>)
    requires AtTop(c)
    ensures Again(After(c, v).Set(GotValue), vs) == Again(c, [v] + vs)
  {
    assert ([v] + vs)[1..] == vs;
    assert c.trace + Flatten(v) + FlattenMany(vs) == c.trace + (Flatten(v) + FlattenMany(vs));
    hide FlattenMany, Flatten;
  }

  lemma AgainNever(c: Core)
    requires AtTop(c)
    ensures Again(c, []) == c
  {
    assert c.trace + [] == c.trace;
  }

  lemma {:induction false} WithCut(flags: Flags, c: Core, ts: seq<Token>, n: nat, k: nat)
    requires n <= k <= |ts| && Stacked(c)
    ensures RunWith(flags, c, ts, k) == RunWith(flags, c, ts[n..], k - n)
    decreases |ts| - k
  {
    hide Advance, LowOk, TopOk, Reopen, Deaf;
    var c' := Reopen(flags, c);
    if !Deaf(flags, c'.top) && k < |ts| {
      WithCut(flags, Advance(c', ts[k].kind, ts[k].text), ts, n, k + 1);
    }
  }

  /** One value, and the run goes on as it would at the start. */
  lemma OneOfMany(flags: Flags, c: Core, ts: seq<Token>, n: nat, v: Json)
    requires flags.multipleValues && AtTop(c) && n <= |ts| && SpellsAll(ts[..n], v)
    ensures AtTop(After(c, v).Set(GotValue))
    ensures RunWith(flags, c, ts, 0) == RunWith(flags, After(c, v).Set(GotValue), ts[n..], 0)
  {
    assert Stacked(c) && Stacked(After(c, v)) && Stacked(After(c, v).Set(GotValue));
    hide Advance, SpellsAll;
    AcceptsIs(c, ts[..n]);
    RunFirst(flags, c, ts, 0, n);
    WithCut(flags, After(c, v), ts, n, n);
  }

  lemma {:induction false} ManyRun(flags: Flags, c: Core, ts: seq<Token>, vs: seq<Json>, rest: seq<Token>)
    requires flags.multipleValues && AtTop(c) && SpellsMany(ts, vs, rest)
    ensures AtTop(Again(c, vs)) && RunWith(flags, c, ts, 0) == RunWith(flags, Again(c, vs), rest, 0)
    decreases |vs|
  {
    hide SpellsAll, RunWith, LowOk;
    if vs == [] {
      AgainNever(c);
    } else {
      var n :| 0 <= n <= |ts| && SpellsAll(ts[..n], vs[0]) && SpellsMany(ts[n..], vs[1..], rest);
      OneOfMany(flags, c, ts, n, vs[0]);
      ManyRun(flags, After(c, vs[0]).Set(GotValue), ts[n..], vs[1..], rest);
      AgainOnce(c, vs[0], vs[1..]);
      assert [vs[0]] + vs[1..] == vs;
    }
  }

  /** Without several values or trailing garbage, behind no complete value, the options change nothing. */
  lemma RunAll(flags: Flags, c: Core, ts: seq<Token>)
    requires Stacked(c) && !Failed(RunOn(c, ts, 0).top)
    ensures RunWith(flags, c, ts, 0) == Reopen(flags, RunOn(c, ts, 0))
  {
    hide Advance, LowOk, TopOk, RunOn, Reopen;
    assert ts[..|ts|] == ts;
    RunFirst(flags, c, ts, 0, |ts|);
  }

  /** A run over several values that does not fail: it takes the values, and what is left is unfinished. */
  lemma {:induction false} FindMany(flags: Flags, c: Core, ts: seq<Token>) returns (vs: seq<Json>, rest: seq<Token>)
    requires flags.multipleValues && AtTop(c) && !Failed(RunWith(flags, c, ts, 0).top)
    ensures SpellsMany(ts, vs, rest) && Unfinished(rest) && AtTop(Again(c, vs))
    ensures RunWith(flags, c, ts, 0) == RunOn(Again(c, vs), rest, 0)
    decreases |ts|
  {
    assert Stacked(c);
    hide Advance, LowOk, TopOk, SpellsAll, Unfinished;
    var n := FindEnd(flags, c, ts, 0);
    AcceptsIs(c, ts[..n]);
    if RunOn(c, ts[..n], 0).top.ParseComplete? {
      var v :| SpellsAll(ts[..n], v);
      OneOfMany(flags, c, ts, n, v);
      var more;
      more, rest := FindMany(flags, After(c, v).Set(GotValue), ts[n..]);
      AgainOnce(c, v, more);
      vs := [v] + more;
      assert vs[1..] == more;
      hide SpellsMany, After, Again, RunOn, RunWith;
      ManyMore(ts, n, v, more, rest);
    } else {
      assert ts[..|ts|] == ts;
      vs, rest := [], ts;
      UnfinishedIs(c, ts);
      AgainNever(c);
    }
  }

  lemma ManyMore(ts: seq<Token>, n: nat, v: Json, vs: seq<Json>, rest: seq<Token>)
    requires n <= |ts| && SpellsAll(ts[..n], v) && SpellsMany(ts[n..], vs, rest)
    ensures SpellsMany(ts, [v] + vs, rest)
  {
    hide SpellsAll;
    assert ([v] + vs)[1..] == vs;
  }

  /** Behind a token the top level waits for no first value. */
  lemma TakesOne(c: Core, ts: seq<Token>)
    requires AtTop(c) && ts != []
    ensures OneValue(RunOn(c, ts, 0))
  {
    assert Stacked(c);
    FirstTaken(c, ts[0]);
    hide Advance, LowOk, TopOk, OneValue;
    RunKeepsOne(Advance(c, ts[0].kind, ts[0].text), ts, 1);
  }

  lemma FirstTaken(c: Core, t: Token)
    requires AtTop(c)
    ensures OneValue(Advance(c, t.kind, t.text))
  {
    ScalarMoves(c, t.kind, t.text);
    hide JsonString.Decode;
  }

  /** With several values allowed none is the last. */
  lemma {:induction false} NeverLast(flags: Flags, c: Core, ts: seq<Token>, k: nat)
    requires k <= |ts| && Stacked(c) && flags.multipleValues
    ensures !RunWith(flags, c, ts, k).top.ParseComplete?
    decreases |ts| - k
  {
    hide LowOk, TopOk, Advance;
    var c' := Reopen(flags, c);
    if !Deaf(flags, c'.top) && k < |ts| {
      NeverLast(flags, Advance(c', ts[k].kind, ts[k].text), ts, k + 1);
    }
  }

  ghost predicate SeveralOf(ts: seq<Token>) { exists vs :: vs != [] && SpellsMany(ts, vs, []) }

  ghost predicate SeveralAndMore(ts: seq<Token>) { exists vs, rest :: SpellsMany(ts, vs, rest) && Unfinished(rest) }

  /** The verdict on the tokens alone, with several values allowed. */
  lemma ManyVerdict(flags: Flags, ts: seq<Token>)
    requires flags.multipleValues
    ensures var top := RunWith(flags, INIT, ts, 0).top;
            && (!Failed(top) <==> SeveralAndMore(ts))
            && (!Failed(top) && (top.GotValue? || top.ParseComplete?) <==> SeveralOf(ts))
  {
    hide LowOk, TopOk, Advance, RunWith, SpellsMany, Unfinished, RunOn, Again, OneValue;
    TopStacks(INIT);
    NeverLast(flags, INIT, ts, 0);
    if !Failed(RunWith(flags, INIT, ts, 0).top) {
      var vs, rest := FindMany(flags, INIT, ts);
      ManyEnds(vs, rest);
    }
    if vs, rest :| SpellsMany(ts, vs, rest) && Unfinished(rest) {
      ManyRun(flags, INIT, ts, vs, rest);
      UnfinishedIs(Again(INIT, vs), rest);
      TopStacks(Again(INIT, vs));
      RunAll(flags, Again(INIT, vs), rest);
    }
    if vs :| vs != [] && SpellsMany(ts, vs, []) {
      ManyRun(flags, INIT, ts, vs, []);
      NothingLeft(flags, vs);
    }
  }

  /** At the end the top level waits for one more value exactly when there are some, and nothing is left. */
  lemma ManyEnds(vs: seq<Json>, rest: seq<Token>)
    requires AtTop(Again(INIT, vs))
    ensures RunOn(Again(INIT, vs), rest, 0).top.GotValue? ==> vs != [] && rest == []
  {
    hide LowOk, TopOk, Advance, RunOn;
    if rest != [] {
      TakesOne(Again(INIT, vs), rest);
    } else {
      hide *;
      TopStacks(Again(INIT, vs));
      NoTokens(Again(INIT, vs));
      AgainTop(vs);
    }
  }

  lemma NoTokens(c: Core)
    requires Stacked(c)
    ensures RunOn(c, [], 0) == c
  {
  }

  lemma AgainTop(vs: seq<Json>)
    ensures Again(INIT, vs).top == if vs == [] then StartState else GotValue
  {
  }

  lemma NothingLeft(flags: Flags, vs: seq<Json>)
    requires vs != []
    ensures RunWith(flags, Again(INIT, vs), [], 0) == Core([], GotValue, FlattenMany(vs))
  {
    hide FlattenMany;
  }

  /** With several values allowed, trailing garbage allowed or not: a run ends well if and only if the scan meets no
      error and the tokens spell one or more values, or, with partial values allowed, some values and the start of
      another. The client hears the values one after the other. */
  lemma ManyIs(flags: Flags, chunks: seq<seq<byte>>)
    requires flags.multipleValues
    ensures var s, cfg := Concat(chunks) + [SPACE], LexConfig(flags);
            var ts, rest := Tokens(cfg, s, 0), Rest(cfg, s, 0);
            && (Run(flags, chunks).1 == Ok <==>
                rest.More? && if flags.partialValues then SeveralAndMore(ts) else SeveralOf(ts))
            && forall vs :: rest.More? && vs != [] && SpellsMany(ts, vs, []) ==>
                 Run(flags, chunks) == (FlattenMany(vs), Ok)
  {
    var s, cfg := Concat(chunks) + [SPACE], LexConfig(flags);
    var ts := Tokens(cfg, s, 0);
    hide Tokens, Rest, SpellsMany, FlattenMany, Run, Parse, LexConfig, RunWith, LowOk, Unfinished, Again;
    RunIsParse(flags, chunks);
    ParseIsRunWith(flags, INIT, s, 0);
    ManyVerdict(flags, ts);
    NeverLast(flags, INIT, ts, 0);
    forall vs | vs != [] && SpellsMany(ts, vs, [])
      ensures RunWith(flags, INIT, ts, 0) == Core([], GotValue, FlattenMany(vs))
    {
      ManyRun(flags, INIT, ts, vs, []);
      NothingLeft(flags, vs);
    }
  }

  /** The first tokens spell a value. */
  ghost predicate BeginsWith(ts: seq<Token>, n: nat, v: Json) { n <= |ts| && SpellsAll(ts[..n], v) }

  lemma GarbageRun(flags: Flags, ts: seq<Token>, n: nat, v: Json)
    requires flags.trailingGarbage && !flags.multipleValues && BeginsWith(ts, n, v)
    ensures RunWith(flags, INIT, ts, 0) == Core([], ParseComplete, Flatten(v))
  {
    hide Advance, SpellsAll, Flatten;
    AcceptsIs(INIT, ts[..n]);
    assert [] + Flatten(v) == Flatten(v);
    RunFirst(flags, INIT, ts, 0, n);
  }

  lemma GarbageVerdict(flags: Flags, ts: seq<Token>)
    requires flags.trailingGarbage && !flags.multipleValues
    ensures var top := RunWith(flags, INIT, ts, 0).top;
            && (top.ParseComplete? <==> exists n: nat, v :: BeginsWith(ts, n, v))
            && (!Failed(top) <==> Unfinished(ts) || exists n: nat, v :: BeginsWith(ts, n, v))
            && (top.GotValue? ==> false)
  {
    TopStacks(INIT);
    hide Advance, SpellsAll, Flatten, LowOk, TopOk, RunWith, RunOn, Unfinished;
    if n: nat, v :| BeginsWith(ts, n, v) {
      GarbageRun(flags, ts, n, v);
    } else {
      UnfinishedIs(INIT, ts);
      var n := FindEnd(flags, INIT, ts, 0);
      Begins(ts, n);
      Begins(ts, |ts|);
      assert ts[..|ts|] == ts;
      if Failed(RunOn(INIT, ts, 0).top) {
        FailedStops(flags, RunOn(INIT, ts[..n], 0), ts, n);
      } else {
        RunAll(flags, INIT, ts);
        RunKeepsOne(INIT, ts, 0);
      }
    }
  }

  lemma Begins(ts: seq<Token>, n: nat)
    requires n <= |ts|
    ensures RunOn(INIT, ts[..n], 0).top.ParseComplete? ==> exists v :: BeginsWith(ts, n, v)
  {
    hide SpellsAll, RunOn, LowOk, TopOk;
    AcceptsIs(INIT, ts[..n]);
    if v :| SpellsAll(ts[..n], v) {
      assert BeginsWith(ts, n, v);
    }
  }

  lemma FailedStops(flags: Flags, c: Core, ts: seq<Token>, n: nat)
    requires n <= |ts| && Stacked(c) && Failed(c.top)
    ensures RunWith(flags, c, ts, n) == c
  {
    hide LowOk, TopOk, Advance;
  }

  /** With trailing garbage allowed and not several values: a run ends well if and only if the first tokens spell a
      value, whatever is behind them, errors included; with partial values allowed, also if the scan meets no error and
      the tokens are the start of a value. */
  lemma GarbageIs(flags: Flags, chunks: seq<seq<byte>>)
    requires flags.trailingGarbage && !flags.multipleValues
    ensures var s, cfg := Concat(chunks) + [SPACE], LexConfig(flags);
            var ts, rest := Tokens(cfg, s, 0), Rest(cfg, s, 0);
            && (Run(flags, chunks).1 == Ok <==>
                (exists n: nat, v :: BeginsWith(ts, n, v)) || (flags.partialValues && rest.More? && Unfinished(ts)))
            && forall n: nat, v :: BeginsWith(ts, n, v) ==> Run(flags, chunks) == (Flatten(v), Ok)
  {
    var s, cfg := Concat(chunks) + [SPACE], LexConfig(flags);
    var ts := Tokens(cfg, s, 0);
    TopStacks(INIT);
    hide Tokens, Rest, BeginsWith, Flatten, Run, Parse, LexConfig, RunWith, LowOk, TopOk, Unfinished;
    RunIsParse(flags, chunks);
    ParseIsRunWith(flags, INIT, s, 0);
    GarbageVerdict(flags, ts);
    forall n: nat, v | BeginsWith(ts, n, v)
      ensures RunWith(flags, INIT, ts, 0) == Core([], ParseComplete, Flatten(v))
    {
      GarbageRun(flags, ts, n, v);
    }
  }

  /** With partial values alone: a run ends well if and only if the scan meets no error and more tokens could make a
      value of those there are. */
  lemma PartialIs(flags: Flags, chunks: seq<seq<byte>>)
    requires flags.partialValues && !flags.multipleValues && !flags.trailingGarbage
    ensures var s, cfg := Concat(chunks) + [SPACE], LexConfig(flags);
            Run(flags, chunks).1 == Ok <==> Rest(cfg, s, 0).More? && Unfinished(Tokens(cfg, s, 0))
  {
    var s, cfg := Concat(chunks) + [SPACE], LexConfig(flags);
    var ts := Tokens(cfg, s, 0);
    TopStacks(INIT);
    hide Tokens, Rest, Run, Parse, LexConfig, RunOn, LowOk, TopOk, Unfinished;
    RunIsParse(flags, chunks);
    ParseIsRunOn(flags, INIT, s, 0);
    UnfinishedIs(INIT, ts);
  }
}
