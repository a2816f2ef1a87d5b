/** The tree of deps/yajl/src/yajl_tree.c keeps every text as a C string, without a length: what can be read of it
    ends at its first NUL. What the tree is then, and when that is the value that was parsed. */
module TreeStrings {
  import opened Bytes
  import opened Optional
  import opened JsonNumber
  import opened JsonLex
  import JsonString
  import JsonBody
  import opened JsonTokens
  import opened JsonParse
  import opened JsonTree
  import opened JsonGrammar
  import opened JsonAccepted
  import Reprint

  predicate HasNul(s: seq<byte>) { NUL in s }

  /** What can be read of octets that were copied with a NUL behind them. */
  function CString(s: seq<byte>): (r: seq<byte>)
    ensures r <= s && !HasNul(r)
    ensures |r| < |s| ==> s[|r|] == NUL
    ensures r == s <==> !HasNul(s)
  {
    if s == [] || s[0] == NUL then []
    else
      assert s == [s[0]] + s[1..];
      [s[0]] + CString(s[1..])
  }

  /** The NUL that is put behind a copy changes nothing about what can be read of it. */
  lemma {:induction false} CopyReads(s: seq<byte>)
    ensures CString(s + [NUL]) == CString(s)
  {
    if s != [] {
      assert (s + [NUL])[1..] == s[1..] + [NUL];
      CopyReads(s[1..]);
    }
  }

  // ---------------------------------------------------------------- values and callbacks, cut

  /** No text of the value has a NUL. */
  predicate NulFree(v: Json)
    decreases v, 1
  {
    match v
    case JNumber(text) => !HasNul(text)
    case JString(text) => !HasNul(text)
    case JArray(items) => NulFreeItems(items)
    case JObject(members) => NulFreeMembers(members)
    case _ => true
  }

  predicate NulFreeItems(items: seq<Json>)
    decreases items, 0
  {
    items == [] || (NulFreeItems(items[..|items| - 1]) && NulFree(items[|items| - 1]))
  }

  predicate NulFreeMembers(members: seq<Member>)
    decreases members, 0
  {
    members == []
    || var last := members[|members| - 1];
       NulFreeMembers(members[..|members| - 1]) && !HasNul(last.key) && NulFree(last.value)
  }

  /** A value as the tree can hold it. */
  type Tree = v: Json | NulFree(v) witness JNull

  function Truncated(v: Json): (t: Tree)
    ensures t == v <==> NulFree(v)
    decreases v, 1
  {
    match v
    case JNumber(text) => JNumber(CString(text))
    case JString(text) => JString(CString(text))
    case JArray(items) => JArray(TruncatedItems(items))
    case JObject(members) => JObject(TruncatedMembers(members))
    case _ => v
  }

  function TruncatedItems(items: seq<Json>): (r: seq<Json>)
    ensures NulFreeItems(r) && |r| == |items|
    ensures r == items <==> NulFreeItems(items)
    decreases items, 0
  {
    if items == [] then []
    else
      var init, last := items[..|items| - 1], items[|items| - 1];
      var r := TruncatedItems(init) + [Truncated(last)];
      assert r[..|r| - 1] == TruncatedItems(init) && r[|r| - 1] == Truncated(last);
      assert items == init + [last];
      r
  }

  function TruncatedMember(m: Member): (r: Member)
    ensures !HasNul(r.key) && NulFree(r.value)
    ensures r == m <==> !HasNul(m.key) && NulFree(m.value)
    decreases m, 0
  {
    Member(CString(m.key), Truncated(m.value))
  }

  function TruncatedMembers(members: seq<Member>): (r: seq<Member>)
    ensures NulFreeMembers(r) && |r| == |members|
    ensures r == members <==> NulFreeMembers(members)
    decreases members, 0
  {
    if members == [] then []
    else
      var init, last := members[..|members| - 1], members[|members| - 1];
      var r := TruncatedMembers(init) + [TruncatedMember(last)];
      assert r[..|r| - 1] == TruncatedMembers(init) && r[|r| - 1] == TruncatedMember(last);
      assert members == init + [last];
      r
  }

  /** What a callback of the tree makes of its text. */
  function Heard(e: Event): Event {
    match e
    case Number(text) => Number(CString(text))
    case String(text) => String(CString(text))
    case MapKey(text) => MapKey(CString(text))
    case _ => e
  }

  function HeardAll(trace: seq<Event>): (r: seq<Event>)
    ensures |r| == |trace|
  {
    if trace == [] then [] else HeardAll(trace[..|trace| - 1]) + [Heard(trace[|trace| - 1])]
  }

  lemma HeardOne(a: seq<Event>, e: Event)
    ensures HeardAll(a + [e]) == HeardAll(a) + [Heard(e)]
  {
    assert (a + [e])[..|a + [e]| - 1] == a;
  }

  lemma {:induction false} HeardConcat(a: seq<Event>, b: seq<Event>)
    ensures HeardAll(a + b) == HeardAll(a) + HeardAll(b)
  {
    if b == [] {
      assert a + b == a;
    } else {
      assert (a + b)[..|a + b| - 1] == a + b[..|b| - 1];
      HeardConcat(a, b[..|b| - 1]);
    }
  }

  // ---------------------------------------------------------------- the builder, cut

  function CutKey(key: Option<seq<byte>>): Option<seq<byte>> {
    if key.None? then None else Some(CString(key.value))
  }

  function CutStack(stack: Stack): Stack {
    match stack
    case Bottom => Bottom
    case Level(key, open, next) => Level(CutKey(key), Truncated(open), CutStack(next))
  }

  /** The builder's stack and root, as far as C strings keep them. */
  function Cut(ctx: Ctx): Ctx {
    Ctx(CutStack(ctx.stack), if ctx.root.None? then None else Some(Truncated(ctx.root.value)))
  }

  function CutIf(ctx: Option<Ctx>): Option<Ctx> { if ctx.None? then None else Some(Cut(ctx.value)) }

  lemma AppendCut(items: seq<Json>, v: Json)
    ensures TruncatedItems(items + [v]) == TruncatedItems(items) + [Truncated(v)]
  {
    assert (items + [v])[..|items + [v]| - 1] == items;
    hide Truncated;
  }

  lemma AppendMemberCut(members: seq<Member>, m: Member)
    ensures TruncatedMembers(members + [m]) == TruncatedMembers(members) + [TruncatedMember(m)]
  {
    assert (members + [m])[..|members + [m]| - 1] == members;
    hide TruncatedMember;
  }

  lemma TruncatedContainer(v: Json)
    ensures v.JArray? <==> Truncated(v).JArray?
    ensures v.JObject? <==> Truncated(v).JObject?
    ensures v.JString? <==> Truncated(v).JString?
    ensures v.JString? ==> Truncated(v).text == CString(v.text)
  {
    hide NulFree, CString, TruncatedItems, TruncatedMembers;
  }

  lemma AddCuts(ctx: Ctx, v: Json)
    ensures Add(Cut(ctx), Truncated(v)) == CutIf(Add(ctx, v))
  {
    if ctx.stack.Level? {
      var open := ctx.stack.value;
      TruncatedContainer(open);
      TruncatedContainer(v);
      hide NulFree, TruncatedItems, TruncatedMembers, CString;
      if open.JArray? {
        AppendCut(open.items, v);
      } else if open.JObject? && ctx.stack.key.Some? {
        AppendMemberCut(open.members, Member(ctx.stack.key.value, v));
      } else {
        hide Truncated;
      }
    }
  }

  /** Nothing in it has a NUL: all of it can be read. */
  predicate Readable(ctx: Ctx) { Cut(ctx) == ctx }

  lemma AddStaysReadable(ctx: Ctx, v: Tree)
    requires Readable(ctx)
    ensures Add(ctx, v).Some? ==> Readable(Add(ctx, v).value)
  {
    AddCuts(ctx, v);
    hide Add, Cut;
    assert Truncated(v) == v;
  }

  lemma PushStaysReadable(ctx: Ctx, v: Tree)
    requires Readable(ctx)
    ensures Readable(Push(ctx, v))
  {
    hide Truncated;
  }

  lemma PopStaysReadable(ctx: Ctx)
    requires Readable(ctx) && ctx.stack.Level?
    ensures NulFree(ctx.stack.value) && Readable(Ctx(ctx.stack.next, ctx.root))
  {
    hide Truncated, NulFree;
  }

  /** A callback with the text that the tree keeps of it goes from what the tree keeps to what the tree keeps. */
  lemma StepCuts(ctx: Ctx, e: Event)
    ensures BuildStep(Cut(ctx), Heard(e)) == CutIf(BuildStep(ctx, e))
  {
    match e
    case Null => AddCuts(ctx, JNull);
    case Boolean(b) => AddCuts(ctx, JBool(b));
    case Number(text) => AddCuts(ctx, JNumber(text));
    case String(text) => AddCuts(ctx, JString(text));
    case MapKey(text) => AddCuts(ctx, JString(text));
    case EndMap => CloseCuts(ctx);
    case EndArray => CloseCuts(ctx);
    case _ =>
  }

  lemma CloseCuts(ctx: Ctx)
    ensures Close(Cut(ctx)) == CutIf(Close(ctx))
  {
    if ctx.stack.Level? {
      AddCuts(Ctx(ctx.stack.next, ctx.root), ctx.stack.value);
    }
    hide Add, Truncated;
  }

  lemma {:induction false} BuildCuts(ctx: Ctx, trace: seq<Event>)
    ensures Build(Cut(ctx), HeardAll(trace)) == CutIf(Build(ctx, trace))
  {
    if trace != [] {
      var init, e := trace[..|trace| - 1], trace[|trace| - 1];
      BuildCuts(ctx, init);
      BuildOne(Cut(ctx), HeardAll(init), Heard(e));
      var before := Build(ctx, init);
      if before.Some? {
        StepCuts(before.value, e);
      }
    }
    hide BuildStep, Heard, Cut;
  }

  // ---------------------------------------------------------------- flattening, cut

  lemma {:induction false} FlattenCuts(v: Json)
    ensures Flatten(Truncated(v)) == HeardAll(Flatten(v))
    decreases v, 1
  {
    hide HeardAll;
    match v
    case JArray(items) =>
      FlattenItemsCut(items);
      hide FlattenItems, TruncatedItems;
      Bracketed(StartArray, FlattenItems(items), EndArray);
    case JObject(members) =>
      FlattenMembersCut(members);
      hide FlattenMembers, TruncatedMembers;
      Bracketed(StartMap, FlattenMembers(members), EndMap);
    case _ =>
      HeardSingle(Flatten(v)[0]);
  }

  lemma HeardSingle(e: Event)
    ensures HeardAll([e]) == [Heard(e)]
  {
    HeardOne([], e);
    assert [] + [e] == [e];
  }

  lemma Bracketed(start: Event, body: seq<Event>, end: Event)
    ensures HeardAll([start] + body + [end]) == [Heard(start)] + HeardAll(body) + [Heard(end)]
  {
    HeardOne([start] + body, end);
    OpenedCut(start, body);
  }

  lemma {:induction false} FlattenItemsCut(items: seq<Json>)
    ensures FlattenItems(TruncatedItems(items)) == HeardAll(FlattenItems(items))
    decreases items, 0
  {
    if items != [] {
      var init, last := items[..|items| - 1], items[|items| - 1];
      FlattenItemsCut(init);
      FlattenCuts(last);
      HeardConcat(FlattenItems(init), Flatten(last));
      AppendItem(TruncatedItems(init), Truncated(last));
      hide Flatten, Truncated, HeardAll;
    }
  }

  lemma {:induction false} FlattenMembersCut(members: seq<Member>)
    ensures FlattenMembers(TruncatedMembers(members)) == HeardAll(FlattenMembers(members))
    decreases members, 0
  {
    if members != [] {
      var init, last := members[..|members| - 1], members[|members| - 1];
      FlattenMembersCut(init);
      FlattenMemberCut(FlattenMembers(init), last);
      AppendMember(TruncatedMembers(init), TruncatedMember(last));
      hide Flatten, TruncatedMember, HeardAll;
    }
  }

  lemma FlattenMemberCut(es: seq<Event>, m: Member)
    ensures var t := TruncatedMember(m);
            HeardAll(es + [MapKey(m.key)] + Flatten(m.value)) == HeardAll(es) + [MapKey(t.key)] + Flatten(t.value)
    decreases m, 0
  {
    FlattenCuts(m.value);
    HeardOne(es, MapKey(m.key));
    HeardConcat(es + [MapKey(m.key)], Flatten(m.value));
    hide Flatten, Truncated, HeardAll;
  }

  lemma FlattenOpenCut(key: Option<seq<byte>>, open: Json)
    ensures FlattenOpen(CutKey(key), Truncated(open)) == HeardAll(FlattenOpen(key, open))
  {
    hide HeardAll, Flatten, FlattenItems, FlattenMembers, TruncatedItems, TruncatedMembers, CString;
    match open
    case JArray(items) =>
      FlattenItemsCut(items);
      OpenedCut(StartArray, FlattenItems(items));
    case JObject(members) =>
      FlattenMembersCut(members);
      OpenedCut(StartMap, FlattenMembers(members));
      if key.Some? {
        HeardOne([StartMap] + FlattenMembers(members), MapKey(key.value));
      } else {
        assert [StartMap] + FlattenMembers(members) + [] == [StartMap] + FlattenMembers(members);
      }
    case _ =>
      HeardNothing();
  }

  lemma OpenedCut(start: Event, body: seq<Event>)
    ensures HeardAll([start] + body) == [Heard(start)] + HeardAll(body)
  {
    HeardConcat([start], body);
    HeardSingle(start);
  }

  lemma HeardNothing()
    ensures HeardAll([]) == []
  {
  }

  lemma {:induction false} FlattenStackCut(stack: Stack)
    ensures FlattenStack(CutStack(stack)) == HeardAll(FlattenStack(stack))
  {
    if stack.Level? {
      FlattenStackCut(stack.next);
      FlattenOpenCut(stack.key, stack.value);
      HeardConcat(FlattenStack(stack.next), FlattenOpen(stack.key, stack.value));
    }
    hide FlattenOpen, Truncated, CutKey;
  }

  lemma FlattenCtxCut(ctx: Ctx)
    ensures FlattenCtx(Cut(ctx)) == HeardAll(FlattenCtx(ctx))
  {
    FlattenStackCut(ctx.stack);
    if ctx.root.Some? {
      FlattenCuts(ctx.root.value);
      HeardConcat(Flatten(ctx.root.value), FlattenStack(ctx.stack));
    } else {
      assert [] + FlattenStack(ctx.stack) == FlattenStack(ctx.stack);
    }
    hide Flatten, FlattenStack, Truncated, HeardAll;
  }

  // ---------------------------------------------------------------- whole runs

  /** In every state that feeding any chunks can reach no callback of the tree has failed, and its stack and root hold
      exactly the callbacks made so far, each text up to its first NUL. */
  lemma BuilderNeverFails(flags: Flags, chunks: seq<seq<byte>>) returns (ctx: Ctx)
    requires !flags.multipleValues
    ensures var c := FeedAll(flags, FRESH, chunks).core;
            && Build(EMPTY, HeardAll(c.trace)) == Some(Cut(ctx)) && FlattenCtx(Cut(ctx)) == HeardAll(c.trace)
            && FlattenCtx(ctx) == c.trace
  {
    hide FlattenCtx, Cut, Build;
    ctx := CallbacksFollow(flags, chunks);
    var trace := FeedAll(flags, FRESH, chunks).core.trace;
    assert Cut(EMPTY) == EMPTY by { NothingIsCut(); }
    BuildCuts(EMPTY, trace);
    FlattenCtxCut(ctx);
  }

  lemma NothingIsCut()
    ensures Cut(EMPTY) == EMPTY
  {
  }

  lemma TreeOf(v: Json)
    ensures Build(EMPTY, HeardAll(Flatten(v))) == Some(Ctx(Bottom, Some(Truncated(v))))
  {
    hide Flatten, Truncated, HeardAll, Build;
    FlattenCuts(v);
    BuildFlatten(EMPTY, Truncated(v));
  }

  /** When a run ends well the root of the tree is the value, each text up to its first NUL: it is the value itself if
      and only if no text of it has one. */
  lemma RootOfRun(flags: Flags, chunks: seq<seq<byte>>) returns (v: Json)
    requires !flags.multipleValues && !flags.partialValues && Run(flags, chunks).1 == Ok
    ensures Run(flags, chunks).0 == Flatten(v)
    ensures Build(EMPTY, HeardAll(Run(flags, chunks).0)) == Some(Ctx(Bottom, Some(Truncated(v))))
    ensures Build(EMPTY, HeardAll(Run(flags, chunks).0)) == Some(Ctx(Bottom, Some(v))) <==> NulFree(v)
  {
    hide Run, Flatten, Truncated, HeardAll, Build;
    v := SoundRun(flags, chunks);
    TreeOf(v);
  }

  // ---------------------------------------------------------------- which texts lose something

  /** The token spells no NUL. */
  predicate Clean(t: Token) { t.kind.EscapedText? ==> !JsonBody.NamesNul(t.text, 0, JsonBody.Calm) }

  predicate AllClean(ts: seq<Token>, i: nat)
    requires i <= |ts|
  {
    forall k :: i <= k < |ts| ==> Clean(ts[k])
  }

  lemma WordIsClean(utf8: bool, t: Token, word: seq<byte>)
    requires Reprint.Lexed(utf8, t) && (t.kind.Text? || t.kind.EscapedText?) && TextOf(t.kind, t.text) == Some(word)
    ensures HasNul(word) <==> !Clean(t)
  {
    hide JsonBody.BodyAt, JsonBody.NamesNul, JsonString.Decode;
    if t.kind.Text? {
      JsonBody.PlainHasNoNul(utf8, 0, t.text, 0);
    } else {
      JsonBody.NamesNulIs(utf8, t.text);
    }
  }

  lemma NumberHasNoNul(s: seq<byte>)
    requires IsNumber(s)
    ensures !HasNul(s)
  {
    var i, j, k :| Parts(s, i, j, k);
  }

  predicate IsWord(t: Token) { t.kind.Text? || t.kind.EscapedText? }

  /** The callback that the token causes. */
  predicate Calls(t: Token, e: Event) {
    match e
    case String(text) => IsWord(t) && TextOf(t.kind, t.text) == Some(text)
    case MapKey(text) => IsWord(t) && TextOf(t.kind, t.text) == Some(text)
    case Number(text) => (t.kind.Integer? || t.kind.Double?) && text == t.text
    case _ => !IsWord(t)
  }

  /** From c to c' the token was read, and called back if it has a text. */
  ghost predicate Tells(c: Core, t: Token, c': Core) {
    (c'.trace == c.trace && !IsWord(t)) || exists e :: c'.trace == c.trace + [e] && Calls(t, e)
  }

  lemma ValueCalls(c: Core, t: Token)
    requires Stacked(c) && WantsValue(c.top) && !Failed(OnValue(c, t.kind, t.text).top)
    ensures Tells(c, t, OnValue(c, t.kind, t.text))
  {
    hide LowOk, JsonString.Decode, Fits;
  }

  lemma KeyCalls(c: Core, t: Token)
    requires Stacked(c) && InMap(c.top) && !Failed(OnKey(c, t.kind, t.text).top)
    ensures Tells(c, t, OnKey(c, t.kind, t.text))
  {
    hide LowOk, JsonString.Decode;
  }

  lemma AdvanceCalls(c: Core, t: Token)
    requires Stacked(c) && !Failed(Advance(c, t.kind, t.text).top)
    ensures Tells(c, t, Advance(c, t.kind, t.text))
  {
    if WantsValue(c.top) {
      ValueCalls(c, t);
      hide Tells, OnValue, LowOk;
    } else if c.top.MapStart? || c.top.MapNeedKey? {
      KeyCalls(c, t);
      hide Tells, OnKey, LowOk;
    } else {
      hide OnValue, OnKey, LowOk;
    }
  }

  lemma CallIsHeard(utf8: bool, t: Token, e: Event)
    requires Reprint.Lexed(utf8, t) && Calls(t, e)
    ensures Heard(e) == e <==> Clean(t)
  {
    match e
    case String(text) => WordIsClean(utf8, t, text);
    case MapKey(text) => WordIsClean(utf8, t, text);
    case Number(text) => NumberHasNoNul(text);
    case _ =>
      hide HasNul, TextOf, JsonBody.BodyAt, JsonBody.NamesNul;
  }

  /** What a callback makes of a token loses something exactly when the token spells a NUL. */
  lemma AdvanceHears(utf8: bool, c: Core, t: Token)
    requires Stacked(c) && Reprint.Lexed(utf8, t) && !Failed(Advance(c, t.kind, t.text).top)
    ensures var c' := Advance(c, t.kind, t.text);
            HeardAll(c'.trace) == c'.trace <==> HeardAll(c.trace) == c.trace && Clean(t)
  {
    hide Advance, LowOk, Reprint.Lexed, Calls, Clean, Heard, HeardAll;
    var c' := Advance(c, t.kind, t.text);
    AdvanceCalls(c, t);
    if !t.kind.EscapedText? {
      NotEscaped(t);
    }
    if e :| c'.trace == c.trace + [e] && Calls(t, e) {
      CallIsHeard(utf8, t, e);
      HeardOne(c.trace, e);
      SameEnd(HeardAll(c.trace), Heard(e), c.trace, e);
    }
  }

  lemma SameEnd<T>(a: seq<T>, x: T, b: seq<T>, y: T)
    requires |a| == |b|
    ensures a + [x] == b + [y] <==> a == b && x == y
  {
    assert (a + [x])[..|a|] == a && (b + [y])[..|b|] == b && (a + [x])[|a|] == x && (b + [y])[|b|] == y;
  }

  lemma NotEscaped(t: Token)
    requires !t.kind.EscapedText?
    ensures Clean(t)
  {
  }

  lemma {:induction false} RunHears(utf8: bool, c: Core, ts: seq<Token>, k: nat)
    requires k <= |ts| && Stacked(c) && Reprint.AllLexed(utf8, ts) && !Failed(RunOn(c, ts, k).top)
    ensures HeardAll(RunOn(c, ts, k).trace) == RunOn(c, ts, k).trace <==>
              HeardAll(c.trace) == c.trace && AllClean(ts, k)
    decreases |ts| - k
  {
    hide Advance, LowOk, TopOk, Failed, Reprint.Lexed, Clean, HeardAll;
    if k < |ts| {
      var t := ts[k];
      var c' := Advance(c, t.kind, t.text);
      assert Reprint.Lexed(utf8, t);
      if Failed(c'.top) {
        FailureStays(c', ts, k + 1);
      } else {
        AdvanceHears(utf8, c, t);
        RunHears(utf8, c', ts, k + 1);
      }
    }
  }

  /** So the tree is the value that the text says if and only if no string of the text has an escape that names
      a NUL. */
  lemma RootIsWhole(flags: Flags, chunks: seq<seq<byte>>, v: Json)
    requires Strict(flags) && Run(flags, chunks) == (Flatten(v), Ok)
    ensures var ts := Tokens(LexConfig(flags), Concat(chunks) + [SPACE], 0);
            Build(EMPTY, HeardAll(Run(flags, chunks).0)) == Some(Ctx(Bottom, Some(v))) <==> AllClean(ts, 0)
  {
    var s, cfg := Concat(chunks) + [SPACE], LexConfig(flags);
    var ts := Tokens(cfg, s, 0);
    hide Run, Flatten, Truncated, HeardAll, Build, FinalHandle, Tokens, Rest, AllClean, Reprint.AllLexed, SpellsAll;
    Reprint.TokensAreLexed(cfg, s, 0);
    TokensDecide(flags, chunks);
    var w :| SpellsAll(ts, w);
    FlattenIsInjective(v, w);
    TokensHeard(cfg.utf8, ts, v);
    TreeOf(v);
  }

  lemma HeardIs(v: Json)
    ensures HeardAll(Flatten(v)) == Flatten(v) <==> Truncated(v) == v
  {
    hide Flatten, Truncated, HeardAll;
    FlattenCuts(v);
    if HeardAll(Flatten(v)) == Flatten(v) {
      FlattenIsInjective(v, Truncated(v));
    }
  }

  lemma TokensHeard(utf8: bool, ts: seq<Token>, v: Json)
    requires SpellsAll(ts, v) && Reprint.AllLexed(utf8, ts)
    ensures Truncated(v) == v <==> AllClean(ts, 0)
  {
    hide Flatten, Truncated, HeardAll, Reprint.AllLexed, AllClean, SpellsAll, RunOn, LowOk;
    AcceptsIs(INIT, ts);
    assert [] + Flatten(v) == Flatten(v);
    RunHears(utf8, INIT, ts, 0);
    HeardNothing();
    HeardIs(v);
  }

  /** What yajl_tree_parse asks of the parser. */
  const TREE_FLAGS: Flags := Flags(true, false, false, false, false)

  /** yajl_tree_parse: the root of the tree, None for its NULL. Its text, too, ends at the first NUL. */
  function TreeParse(input: seq<byte>): Option<Json> {
    var run := Run(TREE_FLAGS, [CString(input)]);
    var ctx := Build(EMPTY, HeardAll(run.0));
    if run.1 == Ok && ctx.Some? then ctx.value.root else None
  }

  lemma TreeParseOf(input: seq<byte>, v: Json)
    ensures var text := CString(input);
            var ts := Tokens(LexConfig(TREE_FLAGS), text + [SPACE], 0);
            && (TreeParse(input).Some? <==> Run(TREE_FLAGS, [text]).1 == Ok)
            && (Run(TREE_FLAGS, [text]) == (Flatten(v), Ok) ==>
                  TreeParse(input) == Some(Truncated(v)) && (TreeParse(input) == Some(v) <==> AllClean(ts, 0)))
  {
    var text := CString(input);
    ConcatOne(text);
    hide Run, Flatten, Truncated, HeardAll, Build, Tokens, AllClean;
    if Run(TREE_FLAGS, [text]).1 == Ok {
      var w := RootOfRun(TREE_FLAGS, [text]);
    }
    if Run(TREE_FLAGS, [text]) == (Flatten(v), Ok) {
      TreeOf(v);
      RootIsWhole(TREE_FLAGS, [text], v);
    }
  }

  /** Comments are allowed and strings validated, and nothing else is asked for. There is a tree exactly when the run of
      the text ends well. It is the value that the text says, each string up to its first NUL, and that value itself if
      and only if no string of the text has an escape that names a NUL. */
  lemma TreeParseIs(input: seq<byte>, v: Json)
    ensures var text := CString(input);
            var flags := Flags(allowComments := true, dontValidateStrings := false, trailingGarbage := false,
                               multipleValues := false, partialValues := false);
            var ts := Tokens(Config(comments := true, utf8 := true), text + [SPACE], 0);
            && (TreeParse(input).Some? <==> Run(flags, [text]).1 == Ok)
            && (Run(flags, [text]) == (Flatten(v), Ok) ==>
                  TreeParse(input) == Some(Truncated(v)) && (TreeParse(input) == Some(v) <==> AllClean(ts, 0)))
  {
    hide *;
    TreeParseOf(input, v);
    TreeFlags();
  }

  lemma TreeFlags()
    ensures TREE_FLAGS == Flags(allowComments := true, dontValidateStrings := false, trailingGarbage := false,
                              multipleValues := false, partialValues := false)
    ensures LexConfig(TREE_FLAGS) == Config(comments := true, utf8 := true)
  {
  }

  /** A string with a NUL: the callback has it, and the tree has the empty string. */
  lemma NulIsLost(flags: Flags) returns (text: seq<byte>)
    requires Strict(flags)
    ensures text == [QUOTE, BACKSLASH, 0x75, ZERO, ZERO, ZERO, ZERO, QUOTE]
    ensures Run(flags, [text]) == ([String([NUL])], Ok)
    ensures Build(EMPTY, HeardAll(Run(flags, [text]).0)) == Some(Ctx(Bottom, Some(JString([]))))
  {
    text := [QUOTE, BACKSLASH, 0x75, ZERO, ZERO, ZERO, ZERO, QUOTE];
    var cfg, ts := LexConfig(flags), [Token(EscapedText, text[1..7])];
    ConcatOne(text);
    NulIsScanned(cfg, text);
    NulIsDecoded(text[1..7]);
    var v := JString([NUL]);
    OneTokenSpells(ts[0], v);
    hide Run, Flatten, HeardAll, Build, Tokens, Rest, LexConfig, FinalHandle, SpellsAll;
    TokensDecide(flags, [text]);
    TreeOf(v);
  }

  lemma OneTokenSpells(t: Token, v: Json)
    requires v == JString([NUL]) && t.kind.EscapedText? && JsonString.Decode(t.text, 0) == Some([NUL])
    ensures SpellsAll([t], v) && Flatten(v) == [String([NUL])] && Truncated(v) == JString([])
  {
    hide JsonString.Decode;
  }

  lemma NulIsDecoded(body: seq<byte>)
    requires body == [BACKSLASH, 0x75, ZERO, ZERO, ZERO, ZERO]
    ensures JsonString.Decode(body, 0) == Some([NUL])
  {
    assert JsonString.FourNibbles(body, 2) && JsonString.Hex4(body, 2) == 0;
    assert JsonString.Unescape(body, 1) == JsonString.Gives([NUL], 6);
    assert JsonString.Decode(body, 6) == Some([]) && [NUL] + [] == [NUL];
  }

  lemma NulIsScanned(cfg: Config, text: seq<byte>)
    requires text == [QUOTE, BACKSLASH, 0x75, ZERO, ZERO, ZERO, ZERO, QUOTE]
    ensures Tokens(cfg, text + [SPACE], 0) == [Token(EscapedText, text[1..7])]
    ensures Rest(cfg, text + [SPACE], 0) == More(9)
  {
    var s := text + [SPACE];
    assert s[0..8] == text;
    assert IsToken(cfg.utf8, EscapedText, text) by {
      var body := text[..7];
      assert text[1] == BACKSLASH && body[1] == BACKSLASH && body[2] == 0x75;
      assert JsonBody.FourDigits(body, 3) && JsonBody.BodyAt(cfg.utf8, 0, body, 7);
    }
    TokenIsFound(cfg, s, 0, 8, EscapedText);
    ScanSkipsSpace(cfg, s, 8, 9);
    hide Walk, IsToken;
  }
}
