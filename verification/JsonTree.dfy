/** The tree builder of deps/yajl/src/yajl_tree.c with its texts kept whole, and what it says about the parser: the
    callbacks of a run are the flattening of one JSON value. Module TreeStrings says what C strings leave of it. */
module JsonTree {
  import opened Bytes
  import opened Optional
  import opened JsonLex
  import opened JsonParse
  import JsonString
  import YajlLexer

  datatype Json =
    | JNull | JBool(value: bool) | JNumber(text: seq<byte>) | JString(text: seq<byte>)
    | JArray(items: seq<Json>)
    | JObject(members: seq<Member>)

  /** Members keep their order, and a key may occur more than once. */
  datatype Member = Member(key: seq<byte>, value: Json)

  // ---------------------------------------------------------------- flattening

  function Flatten(v: Json): seq<Event>
    decreases v, 1
  {
    match v
    case JNull => [Null]
    case JBool(b) => [Boolean(b)]
    case JNumber(text) => [Number(text)]
    case JString(text) => [String(text)]
    case JArray(items) => [StartArray] + FlattenItems(items) + [EndArray]
    case JObject(members) => [StartMap] + FlattenMembers(members) + [EndMap]
  }

  function FlattenItems(items: seq<Json>): seq<Event>
    decreases items, 0
  {
    if items == [] then [] else FlattenItems(items[..|items| - 1]) + Flatten(items[|items| - 1])
  }

  function FlattenMembers(members: seq<Member>): seq<Event>
    decreases members, 0
  {
    if members == [] then []
    else
      var last := members[|members| - 1];
      FlattenMembers(members[..|members| - 1]) + [MapKey(last.key)] + Flatten(last.value)
  }

  // ---------------------------------------------------------------- building

  /** The builder's stack: containers still open, each with the key that waits for its value. */
  datatype Stack = Bottom | Level(key: Option<seq<byte>>, value: Json, next: Stack)

  datatype Ctx = Ctx(stack: Stack, root: Option<Json>)

  const EMPTY: Ctx := Ctx(Bottom, None)

  /** context_add_value; None is its error return or a failed assertion. */
  function Add(ctx: Ctx, v: Json): Option<Ctx> {
    match ctx.stack
    case Bottom => if ctx.root.None? then Some(Ctx(Bottom, Some(v))) else None
    case Level(key, open, next) =>
      if open.JObject? then
        if key.None? then
          if v.JString? then Some(Ctx(Level(Some(v.text), open, next), ctx.root)) else None
        else Some(Ctx(Level(None, JObject(open.members + [Member(key.value, v)]), next), ctx.root))
      else if open.JArray? then Some(Ctx(Level(key, JArray(open.items + [v]), next), ctx.root))
      else None
  }

  function Push(ctx: Ctx, v: Json): Ctx { Ctx(Level(None, v, ctx.stack), ctx.root) }

  /** context_pop, and the value that comes off the stack goes into the level below. */
  function Close(ctx: Ctx): Option<Ctx> {
    if ctx.stack.Bottom? then None else Add(Ctx(ctx.stack.next, ctx.root), ctx.stack.value)
  }

  /** The handle_* callback for one event. */
  function BuildStep(ctx: Ctx, e: Event): Option<Ctx> {
    match e
    case Null => Add(ctx, JNull)
    case Boolean(b) => Add(ctx, JBool(b))
    case Number(text) => Add(ctx, JNumber(text))
    case String(text) => Add(ctx, JString(text))
    case MapKey(text) => Add(ctx, JString(text))
    case StartMap => Some(Push(ctx, JObject([])))
    case StartArray => Some(Push(ctx, JArray([])))
    case EndMap => Close(ctx)
    case EndArray => Close(ctx)
  }

  function Build(ctx: Ctx, trace: seq<Event>): Option<Ctx> {
    if trace == [] then Some(ctx)
    else
      var before := Build(ctx, trace[..|trace| - 1]);
      if before.None? then None else BuildStep(before.value, trace[|trace| - 1])
  }

  lemma {:induction false} BuildConcat(ctx: Ctx, a: seq<Event>, b: seq<Event>)
    ensures Build(ctx, a + b) == var m := Build(ctx, a); if m.None? then None else Build(m.value, b)
  {
    if b == [] {
      assert a + b == a;
    } else {
      assert (a + b)[..|a + b| - 1] == a + b[..|b| - 1];
      BuildConcat(ctx, a, b[..|b| - 1]);
    }
  }

  lemma BuildOne(ctx: Ctx, a: seq<Event>, e: Event)
    ensures Build(ctx, a + [e]) == var m := Build(ctx, a); if m.None? then None else BuildStep(m.value, e)
  {
    assert (a + [e])[..|a + [e]| - 1] == a;
  }

  lemma BuildSingle(ctx: Ctx, e: Event)
    ensures Build(ctx, [e]) == BuildStep(ctx, e)
  {
    assert [] + [e] == [e];
    BuildOne(ctx, [], e);
  }

  /** A value may be added here. */
  predicate Open(ctx: Ctx) {
    if ctx.stack.Bottom? then ctx.root.None?
    else ctx.stack.value.JArray? || (ctx.stack.value.JObject? && ctx.stack.key.Some?)
  }

  lemma BuildContainer(ctx: Ctx, start: Event, body: seq<Event>, end: Event, empty: Json, v: Json)
    requires (start == StartArray && empty == JArray([]) && end == EndArray)
              || (start == StartMap && empty == JObject([]) && end == EndMap)
    requires Build(Push(ctx, empty), body) == Some(Push(ctx, v))
    ensures Build(ctx, [start] + body + [end]) == Add(ctx, v)
  {
    BuildSingle(ctx, start);
    BuildConcat(ctx, [start], body);
    BuildOne(ctx, [start] + body, end);
  }

  /** Building undoes flattening, wherever a value may stand. */
  lemma {:induction false} BuildFlatten(ctx: Ctx, v: Json)
    requires Open(ctx)
    ensures Add(ctx, v).Some? && Build(ctx, Flatten(v)) == Add(ctx, v)
    decreases v, 1
  {
    hide Build;
    match v
    case JArray(items) =>
      BuildItems(Push(ctx, JArray([])), items);
      assert [] + items == items;
      BuildContainer(ctx, StartArray, FlattenItems(items), EndArray, JArray([]), v);
    case JObject(members) =>
      BuildMembers(Push(ctx, JObject([])), members);
      assert [] + members == members;
      BuildContainer(ctx, StartMap, FlattenMembers(members), EndMap, JObject([]), v);
    case _ =>
      BuildSingle(ctx, Flatten(v)[0]);
  }

  lemma {:induction false} BuildItems(ctx: Ctx, items: seq<Json>)
    requires ctx.stack.Level? && ctx.stack.value.JArray?
    ensures Build(ctx, FlattenItems(items)) ==
            Some(Ctx(Level(ctx.stack.key, JArray(ctx.stack.value.items + items), ctx.stack.next), ctx.root))
    decreases items, 0
  {
    var done := ctx.stack.value.items;
    if items == [] {
      assert done + items == done;
    } else {
      var init, last := items[..|items| - 1], items[|items| - 1];
      assert done + init + [last] == done + items;
      hide Build, Flatten;
      BuildItems(ctx, init);
      BuildFlatten(Ctx(Level(ctx.stack.key, JArray(done + init), ctx.stack.next), ctx.root), last);
      BuildConcat(ctx, FlattenItems(init), Flatten(last));
    }
  }

  lemma {:induction false} BuildMembers(ctx: Ctx, members: seq<Member>)
    requires ctx.stack.Level? && ctx.stack.value.JObject? && ctx.stack.key.None?
    ensures Build(ctx, FlattenMembers(members)) ==
            Some(Ctx(Level(None, JObject(ctx.stack.value.members + members), ctx.stack.next), ctx.root))
    decreases members, 0
  {
    var done := ctx.stack.value.members;
    if members == [] {
      assert done + members == done;
    } else {
      var init, last := members[..|members| - 1], members[|members| - 1];
      assert done + init + [last] == done + members;
      hide Build, Flatten;
      BuildMembers(ctx, init);
      BuildMember(ctx, FlattenMembers(init), done + init, last);
    }
  }

  lemma BuildMember(ctx: Ctx, es: seq<Event>, done: seq<Member>, m: Member)
    requires ctx.stack.Level? && Build(ctx, es) == Some(Ctx(Level(None, JObject(done), ctx.stack.next), ctx.root))
    ensures Build(ctx, es + [MapKey(m.key)] + Flatten(m.value)) ==
            Some(Ctx(Level(None, JObject(done + [m]), ctx.stack.next), ctx.root))
    decreases m, 0
  {
    hide Build, Flatten;
    BuildOne(ctx, es, MapKey(m.key));
    BuildFlatten(Ctx(Level(Some(m.key), JObject(done), ctx.stack.next), ctx.root), m.value);
    BuildConcat(ctx, es + [MapKey(m.key)], Flatten(m.value));
  }

  /** No two values have the same flattening. */
  lemma FlattenIsInjective(v: Json, w: Json)
    requires Flatten(v) == Flatten(w)
    ensures v == w
  {
    BuildFlatten(EMPTY, v);
    BuildFlatten(EMPTY, w);
  }

  // ---------------------------------------------------------------- the builder holds the trace

  function FlattenOpen(key: Option<seq<byte>>, open: Json): seq<Event> {
    match open
    case JArray(items) => [StartArray] + FlattenItems(items)
    case JObject(members) => [StartMap] + FlattenMembers(members) + (if key.Some? then [MapKey(key.value)] else [])
    case _ => []
  }

  function FlattenStack(stack: Stack): seq<Event> {
    match stack
    case Bottom => []
    case Level(key, open, next) => FlattenStack(next) + FlattenOpen(key, open)
  }

  /** The events that led to a builder state. */
  function FlattenCtx(ctx: Ctx): seq<Event> {
    (if ctx.root.Some? then Flatten(ctx.root.value) else []) + FlattenStack(ctx.stack)
  }

  lemma AppendItem(items: seq<Json>, v: Json)
    ensures FlattenItems(items + [v]) == FlattenItems(items) + Flatten(v)
  {
    assert (items + [v])[..|items + [v]| - 1] == items;
    hide Flatten;
  }

  lemma AppendMember(members: seq<Member>, m: Member)
    ensures FlattenMembers(members + [m]) == FlattenMembers(members) + [MapKey(m.key)] + Flatten(m.value)
  {
    assert (members + [m])[..|members + [m]| - 1] == members;
    hide Flatten;
  }

  lemma AssocInner<T>(a: seq<T>, b: seq<T>, c: seq<T>, d: seq<T>)
    ensures a + (b + (c + d)) == a + (b + c) + d
  {
  }

  lemma ArrayGrows(key: Option<seq<byte>>, items: seq<Json>, v: Json)
    ensures FlattenOpen(key, JArray(items + [v])) == FlattenOpen(key, JArray(items)) + Flatten(v)
  {
    AppendItem(items, v);
    AssocInner([], [StartArray], FlattenItems(items), Flatten(v));
    hide Flatten, FlattenItems;
  }

  lemma ObjectGrows(members: seq<Member>, m: Member)
    ensures FlattenOpen(None, JObject(members + [m])) == FlattenOpen(Some(m.key), JObject(members)) + Flatten(m.value)
  {
    AppendMember(members, m);
    hide Flatten, FlattenMembers;
    var f := FlattenMembers(members);
    assert FlattenOpen(None, JObject(members + [m])) == [StartMap] + (f + [MapKey(m.key)] + Flatten(m.value));
    assert FlattenOpen(Some(m.key), JObject(members)) == [StartMap] + f + [MapKey(m.key)];
  }

  lemma AddKeepsTrace(ctx: Ctx, v: Json)
    requires Open(ctx)
    ensures Add(ctx, v).Some? && FlattenCtx(Add(ctx, v).value) == FlattenCtx(ctx) + Flatten(v)
  {
    if ctx.stack.Level? {
      var Level(key, open, next) := ctx.stack;
      if open.JArray? {
        ArrayGrows(key, open.items, v);
      } else {
        ObjectGrows(open.members, Member(key.value, v));
      }
      hide FlattenOpen, Flatten;
      var root := if ctx.root.Some? then Flatten(ctx.root.value) else [];
      AssocInner(root, FlattenStack(next), FlattenOpen(key, open), Flatten(v));
    }
  }

  lemma KeyKeepsTrace(ctx: Ctx, key: seq<byte>)
    requires ctx.stack.Level? && ctx.stack.value.JObject? && ctx.stack.key.None?
    ensures Add(ctx, JString(key)).Some? && FlattenCtx(Add(ctx, JString(key)).value) == FlattenCtx(ctx) + [MapKey(key)]
  {
  }

  /** A container is the events that opened it and the one that closes it. */
  lemma ClosedFlatten(open: Json, e: Event)
    requires (open.JArray? && e == EndArray) || (open.JObject? && e == EndMap)
    ensures Flatten(open) == FlattenOpen(None, open) + [e]
  {
    hide FlattenItems, FlattenMembers;
    if open.JObject? {
      assert FlattenOpen(None, open) == [StartMap] + FlattenMembers(open.members);
    }
  }

  lemma TopLast(ctx: Ctx)
    requires ctx.stack.Level?
    ensures FlattenCtx(ctx) == FlattenCtx(Ctx(ctx.stack.next, ctx.root)) + FlattenOpen(ctx.stack.key, ctx.stack.value)
  {
    hide Flatten, FlattenOpen;
  }

  lemma CloseKeepsTrace(ctx: Ctx, e: Event)
    requires ctx.stack.Level? && ctx.stack.key.None? && Open(Ctx(ctx.stack.next, ctx.root))
    requires (ctx.stack.value.JArray? && e == EndArray) || (ctx.stack.value.JObject? && e == EndMap)
    ensures Close(ctx).Some? && FlattenCtx(Close(ctx).value) == FlattenCtx(ctx) + [e]
  {
    hide Add, Open, FlattenCtx, Flatten, FlattenOpen;
    AddKeepsTrace(Ctx(ctx.stack.next, ctx.root), ctx.stack.value);
    ClosedFlatten(ctx.stack.value, e);
    TopLast(ctx);
  }

  // ---------------------------------------------------------------- parser and builder agree

  /** The levels under an open container: each waits for the value that is being read above it. */
  predicate Below(low: seq<State>, levels: Stack) {
    match levels
    case Bottom => low == [ParseComplete]
    case Level(key, open, next) => |low| >= 2 && WaitsAbove(low[|low| - 1], key, open) && Below(low[..|low| - 1], next)
  }

  predicate WaitsAbove(s: State, key: Option<seq<byte>>, open: Json) {
    if open.JObject? then s.MapGotVal? && key.Some? else open.JArray? && s.ArrayGotVal? && key.None?
  }

  predicate TopAgrees(s: State, key: Option<seq<byte>>, open: Json) {
    match s
    case MapStart => key.None? && open == JObject([])
    case MapSep => key.Some? && open.JObject?
    case MapNeedVal => key.Some? && open.JObject?
    case MapGotVal => key.None? && open.JObject?
    case MapNeedKey => key.None? && open.JObject?
    case ArrayStart => key.None? && open == JArray([])
    case ArrayGotVal => key.None? && open.JArray?
    case ArrayNeedVal => key.None? && open.JArray?
    case _ => Failed(s)
  }

  predicate Agree(low: seq<State>, top: State, ctx: Ctx) {
    match ctx.stack
    case Bottom =>
      low == [] && (Failed(top) || (top.StartState? && ctx.root.None?) || (top.ParseComplete? && ctx.root.Some?))
    case Level(key, open, next) =>
      ctx.root.None? && TopAgrees(top, key, open) && Below(low, next)
  }

  /** The builder has followed the trace without an error, and holds exactly its events. */
  predicate Follows(c: Core, ctx: Ctx) {
    Build(EMPTY, c.trace) == Some(ctx) && FlattenCtx(ctx) == c.trace && Agree(c.low, c.top, ctx)
  }

  lemma EmitFollows(c: Core, ctx: Ctx, e: Event, ctx': Ctx)
    requires Build(EMPTY, c.trace) == Some(ctx) && FlattenCtx(ctx) == c.trace
    requires BuildStep(ctx, e) == Some(ctx') && FlattenCtx(ctx') == FlattenCtx(ctx) + [e]
    ensures Build(EMPTY, c.Emit(e).trace) == Some(ctx') && FlattenCtx(ctx') == c.Emit(e).trace
  {
    BuildOne(EMPTY, c.trace, e);
  }

  /** A level that is about to get a value waits for it. */
  lemma Waits(low: seq<State>, top: State, ctx: Ctx)
    requires Agree(low, top, ctx) && WantsValue(top)
    ensures Open(ctx) && ctx.root.None? && Below(low + [AfterValue(top)], ctx.stack)
    ensures ctx.stack.Level? ==>
              WaitsAbove(AfterValue(top), ctx.stack.key, ctx.stack.value) && Below(low, ctx.stack.next)
  {
    assert (low + [AfterValue(top)])[..|low|] == low;
  }

  /** The value it waited for brings it back into agreement. */
  lemma AddAgrees(low: seq<State>, top: State, ctx: Ctx, v: Json)
    requires ctx.root.None?
    requires if ctx.stack.Bottom? then low == [] && top.ParseComplete?
             else WaitsAbove(top, ctx.stack.key, ctx.stack.value) && Below(low, ctx.stack.next)
    ensures Open(ctx) && Add(ctx, v).Some? && Agree(low, top, Add(ctx, v).value)
  {
    hide Below;
  }

  /** A scalar goes where any value may. */
  lemma ScalarFollows(c: Core, ctx: Ctx, e: Event, v: Json)
    requires Stacked(c) && Follows(c, ctx) && WantsValue(c.top)
    requires BuildStep(ctx, e) == Add(ctx, v) && Flatten(v) == [e]
    ensures Add(ctx, v).Some? && Follows(c.Emit(e).Set(AfterValue(c.top)), Add(ctx, v).value)
  {
    Waits(c.low, c.top, ctx);
    AddAgrees(c.low, AfterValue(c.top), ctx, v);
    AddKeepsTrace(ctx, v);
    EmitFollows(c, ctx, e, Add(ctx, v).value);
    hide Build, FlattenCtx, Flatten, Agree, Below, Add, BuildStep, LowOk;
  }

  lemma PushKeepsTrace(ctx: Ctx, e: Event, empty: Json)
    requires (e == StartMap && empty == JObject([])) || (e == StartArray && empty == JArray([]))
    ensures FlattenCtx(Push(ctx, empty)) == FlattenCtx(ctx) + [e]
  {
    assert FlattenOpen(None, empty) == [e];
    hide FlattenOpen;
  }

  lemma OpenAgrees(low: seq<State>, top: State, ctx: Ctx, empty: Json, inner: State)
    requires Agree(low, top, ctx) && WantsValue(top)
    requires (empty == JObject([]) && inner == MapStart) || (empty == JArray([]) && inner == ArrayStart)
    ensures Agree(low + [AfterValue(top)], inner, Push(ctx, empty))
  {
    Waits(low, top, ctx);
    hide Below;
  }

  lemma OpenFollows(c: Core, ctx: Ctx, e: Event, empty: Json, inner: State)
    requires Stacked(c) && Follows(c, ctx) && WantsValue(c.top)
    requires (e == StartMap && empty == JObject([]) && inner == MapStart)
              || (e == StartArray && empty == JArray([]) && inner == ArrayStart)
    ensures Follows(c.Emit(e).Set(AfterValue(c.top)).Push(inner), Push(ctx, empty))
  {
    hide FlattenCtx, Agree, Build;
    OpenAgrees(c.low, c.top, ctx, empty, inner);
    PushKeepsTrace(ctx, e, empty);
    EmitFollows(c, ctx, e, Push(ctx, empty));
  }

  /** What is closed goes into the level below. */
  lemma CloseAgrees(low: seq<State>, top: State, ctx: Ctx, isMap: bool)
    requires Agree(low, top, ctx)
    requires if isMap then top.MapStart? || top.MapGotVal? else top.ArrayStart? || top.ArrayGotVal?
    ensures ctx.stack.Level? && ctx.stack.key.None? && Open(Ctx(ctx.stack.next, ctx.root)) && low != []
    ensures if isMap then ctx.stack.value.JObject? else ctx.stack.value.JArray?
    ensures Close(ctx).Some? && Agree(low[..|low| - 1], low[|low| - 1], Close(ctx).value)
  {
    AddAgrees(low[..|low| - 1], low[|low| - 1], Ctx(ctx.stack.next, ctx.root), ctx.stack.value);
  }

  lemma CloseFollows(c: Core, ctx: Ctx, e: Event)
    requires Stacked(c) && Follows(c, ctx)
    requires (e == EndMap && (c.top.MapStart? || c.top.MapGotVal?))
              || (e == EndArray && (c.top.ArrayStart? || c.top.ArrayGotVal?))
    ensures Close(ctx).Some? && Follows(c.Emit(e).Pop(), Close(ctx).value)
  {
    hide FlattenCtx, Agree, Build, Close, Open;
    CloseAgrees(c.low, c.top, ctx, e == EndMap);
    CloseKeepsTrace(ctx, e);
    EmitFollows(c, ctx, e, Close(ctx).value);
  }

  lemma KeyAgrees(low: seq<State>, top: State, ctx: Ctx, key: seq<byte>)
    requires Agree(low, top, ctx) && (top.MapStart? || top.MapNeedKey?)
    ensures ctx.stack.Level? && ctx.stack.value.JObject? && ctx.stack.key.None?
    ensures Add(ctx, JString(key)).Some? && Agree(low, MapSep, Add(ctx, JString(key)).value)
  {
    hide Below;
  }

  lemma KeyFollows(c: Core, ctx: Ctx, key: seq<byte>)
    requires Stacked(c) && Follows(c, ctx) && (c.top.MapStart? || c.top.MapNeedKey?)
    ensures Add(ctx, JString(key)).Some? && Follows(c.Emit(MapKey(key)).Set(MapSep), Add(ctx, JString(key)).value)
  {
    hide Build, FlattenCtx, Agree, Add;
    KeyAgrees(c.low, c.top, ctx, key);
    KeyKeepsTrace(ctx, key);
    EmitFollows(c, ctx, MapKey(key), Add(ctx, JString(key)).value);
  }

  /** A change of state that no callback goes with. */
  lemma SetFollows(c: Core, ctx: Ctx, s: State)
    requires Stacked(c) && Follows(c, ctx)
    requires Failed(s) || (c.top.MapSep? && s.MapNeedVal?) || (c.top.MapGotVal? && s.MapNeedKey?)
              || (c.top.ArrayGotVal? && s.ArrayNeedVal?)
    ensures Follows(c.Set(s), ctx)
  {
    hide Build, FlattenCtx, Flatten, Below, LowOk;
  }

  /** The value that a token stands for by itself. */
  function ScalarOf(kind: Kind, text: seq<byte>): Option<Json> {
    match kind
    case BoolTok => Some(JBool(text != [] && text[0] == 0x74))
    case NullTok => Some(JNull)
    case Integer => Some(JNumber(text))
    case Double => Some(JNumber(text))
    case Text => Some(JString(text))
    case EscapedText => if TextOf(kind, text).None? then None else Some(JString(TextOf(kind, text).value))
    case _ => None
  }

  lemma ScalarMoves(c: Core, kind: Kind, text: seq<byte>)
    requires Stacked(c) && WantsValue(c.top)
    ensures var v, next := ScalarOf(kind, text), AfterValue(c.top);
            if v.Some? then
              && |Flatten(v.value)| == 1 && OnValue(c, kind, text) == c.Emit(Flatten(v.value)[0]).Set(next)
              && forall ctx :: BuildStep(ctx, Flatten(v.value)[0]) == Add(ctx, v.value)
            else if kind.EscapedText? then OnValue(c, kind, text) == c.Set(Halted)
            else if kind.OpenMap? then OnValue(c, kind, text) == c.Emit(StartMap).Set(next).Push(MapStart)
            else if kind.OpenArray? then OnValue(c, kind, text) == c.Emit(StartArray).Set(next).Push(ArrayStart)
            else if kind.CloseArray? && c.top.ArrayStart? then OnValue(c, kind, text) == c.Emit(EndArray).Pop()
            else OnValue(c, kind, text) == c.Set(ParseError)
  {
    hide LowOk, JsonString.Decode;
  }

  lemma OnValueFollows(c: Core, ctx: Ctx, kind: Kind, text: seq<byte>) returns (ctx': Ctx)
    requires Stacked(c) && Follows(c, ctx) && WantsValue(c.top)
    ensures Follows(OnValue(c, kind, text), ctx')
  {
    ctx' := ctx;
    SetFollows(c, ctx, ParseError);
    SetFollows(c, ctx, Halted);
    ScalarMoves(c, kind, text);
    hide Build, FlattenCtx, Below, Agree, LowOk, TextOf, ScalarOf, Follows;
    if kind == OpenMap || kind == OpenArray {
      var e, empty, inner := if kind == OpenMap then StartMap else StartArray,
                             if kind == OpenMap then JObject([]) else JArray([]),
                             if kind == OpenMap then MapStart else ArrayStart;
      OpenFollows(c, ctx, e, empty, inner);
      ctx' := Push(ctx, empty);
    } else if kind == CloseArray && c.top.ArrayStart? {
      CloseFollows(c, ctx, EndArray);
      ctx' := Close(ctx).value;
    } else if ScalarOf(kind, text).Some? {
      var v := ScalarOf(kind, text).value;
      ScalarFollows(c, ctx, Flatten(v)[0], v);
      ctx' := Add(ctx, v).value;
    }
  }

  lemma OnKeyFollows(c: Core, ctx: Ctx, kind: Kind, text: seq<byte>) returns (ctx': Ctx)
    requires Stacked(c) && Follows(c, ctx) && (c.top.MapStart? || c.top.MapNeedKey?)
    ensures Follows(OnKey(c, kind, text), ctx')
  {
    hide Follows, LowOk, Fits, Add, Close, JsonString.Decode, Agree, FlattenCtx, Build;
    ctx' := ctx;
    SetFollows(c, ctx, ParseError);
    if kind == EscapedText && TextOf(kind, text).None? {
      SetFollows(c, ctx, Halted);
    } else if kind == Text || kind == EscapedText {
      var word := TextOf(kind, text).value;
      KeyFollows(c, ctx, word);
      ctx' := Add(ctx, JString(word)).value;
    } else if kind == CloseMap && c.top.MapStart? {
      CloseFollows(c, ctx, EndMap);
      ctx' := Close(ctx).value;
    }
  }

  /** Whatever the token, the builder takes the callbacks it causes without an error. */
  lemma AdvanceFollows(c: Core, ctx: Ctx, kind: Kind, text: seq<byte>) returns (ctx': Ctx)
    requires Stacked(c) && Follows(c, ctx)
    ensures Follows(Advance(c, kind, text), ctx')
  {
    hide Follows, LowOk, OnValue, OnKey;
    ctx' := ctx;
    SetFollows(c, ctx, ParseError);
    if WantsValue(c.top) {
      ctx' := OnValueFollows(c, ctx, kind, text);
    } else if c.top.MapStart? || c.top.MapNeedKey? {
      ctx' := OnKeyFollows(c, ctx, kind, text);
    } else if c.top.MapSep? {
      SetFollows(c, ctx, MapNeedVal);
    } else if c.top.MapGotVal? {
      SetFollows(c, ctx, MapNeedKey);
      CloseFollows(c, ctx, EndMap);
      ctx' := if kind == CloseMap then Close(ctx).value else ctx;
    } else if c.top.ArrayGotVal? {
      SetFollows(c, ctx, ArrayNeedVal);
      CloseFollows(c, ctx, EndArray);
      ctx' := if kind == CloseArray then Close(ctx).value else ctx;
    }
  }

  // ---------------------------------------------------------------- whole runs

  lemma {:induction false} ParseFollows(flags: Flags, c: Core, ctx: Ctx, s: seq<byte>, i: nat) returns (ctx': Ctx)
    requires i <= |s| && Stacked(c) && Follows(c, ctx) && !flags.multipleValues
    ensures Follows(Parse(flags, c, s, i).core, ctx')
    decreases |s| - i
  {
    ParseDeaf(flags, c, s, i);
    ctx' := ctx;
    if !Deaf(flags, c.top) {
      ParseOne(flags, c, s, i);
      var r := Scan(LexConfig(flags), s, i);
      hide Follows, LowOk, Scan, Advance, Parse;
      if r.Bad? {
        SetFollows(c, ctx, if c.top.ParseComplete? then ParseError else LexicalError);
      } else if r.Found? {
        var text := YajlLexer.Lexeme(r.kind, s[r.from..r.to]);
        var next := AdvanceFollows(c, ctx, r.kind, text);
        ctx' := ParseFollows(flags, Advance(c, r.kind, text), next, s, r.to);
      }
    }
  }

  /** In every state that feeding any chunks can reach, a builder that keeps its texts whole has followed the callbacks
      without an error. */
  lemma {:induction false} CallbacksFollow(flags: Flags, chunks: seq<seq<byte>>) returns (ctx: Ctx)
    requires !flags.multipleValues
    ensures Follows(FeedAll(flags, FRESH, chunks).core, ctx)
  {
    if chunks == [] {
      ctx := EMPTY;
    } else {
      var h := FeedAll(flags, FRESH, chunks[..|chunks| - 1]);
      var before := CallbacksFollow(flags, chunks[..|chunks| - 1]);
      ctx := ParseFollows(flags, h.core, before, h.pending + chunks[|chunks| - 1], 0);
    }
  }

  /** A run that ends well has called back exactly the flattening of one value. */
  lemma SoundRun(flags: Flags, chunks: seq<seq<byte>>) returns (v: Json)
    requires !flags.multipleValues && !flags.partialValues && Run(flags, chunks).1 == Ok
    ensures Run(flags, chunks).0 == Flatten(v)
    ensures forall w :: Flatten(w) == Run(flags, chunks).0 ==> w == v
  {
    var ctx := CallbacksFollow(flags, chunks + [[SPACE]]);
    var all := chunks + [[SPACE]];
    assert all[..|all| - 1] == chunks;
    v := ctx.root.value;
    forall w | Flatten(w) == Run(flags, chunks).0 ensures w == v {
      FlattenIsInjective(v, w);
    }
  }

  // ---------------------------------------------------------------- the stack is the set of open containers

  /** The containers that a trace has opened and not closed, outermost first; true is an object. */
  function OpenContainers(trace: seq<Event>): seq<bool> {
    if trace == [] then []
    else
      var before := OpenContainers(trace[..|trace| - 1]);
      match trace[|trace| - 1]
      case StartMap => before + [true]
      case StartArray => before + [false]
      case EndMap => if before == [] then [] else before[..|before| - 1]
      case EndArray => if before == [] then [] else before[..|before| - 1]
      case _ => before
  }

  predicate Inside(isMap: bool, s: State) { if isMap then InMap(s) else InArray(s) }

  predicate StackIsOpen(c: Core) {
    var open := OpenContainers(c.trace);
    && |c.low| == |open|
    && (forall i :: 0 < i < |c.low| ==> Inside(open[i - 1], c.low[i]))
    && (c.low != [] ==> Inside(open[|open| - 1], c.top) || Failed(c.top))
  }

  lemma OpenAfter(trace: seq<Event>, e: Event)
    ensures OpenContainers(trace + [e]) ==
            var before := OpenContainers(trace);
            match e
            case StartMap => before + [true]
            case StartArray => before + [false]
            case EndMap => if before == [] then [] else before[..|before| - 1]
            case EndArray => if before == [] then [] else before[..|before| - 1]
            case _ => before
  {
    assert (trace + [e])[..|trace + [e]| - 1] == trace;
  }

  lemma SetKeepsOpen(c: Core, s: State)
    requires StackIsOpen(c)
    requires (Failed(s) || c.low == [] || (InMap(c.top) && InMap(s)) || (InArray(c.top) && InArray(s)))
    ensures StackIsOpen(c.Set(s))
  {
  }

  lemma EmitKeepsOpen(c: Core, e: Event)
    requires StackIsOpen(c) && !e.StartMap? && !e.StartArray? && !e.EndMap? && !e.EndArray?
    ensures StackIsOpen(c.Emit(e))
  {
    OpenAfter(c.trace, e);
  }

  lemma PushKeepsOpen(c: Core, e: Event)
    requires StackIsOpen(c) && !Failed(c.top) && (e.StartMap? || e.StartArray?)
    ensures StackIsOpen(c.Emit(e).Push(if e.StartMap? then MapStart else ArrayStart))
  {
    OpenAfter(c.trace, e);
  }

  lemma PopKeepsOpen(c: Core, e: Event)
    requires Stacked(c) && StackIsOpen(c) && InContainer(c.top) && (e.EndMap? || e.EndArray?)
    ensures StackIsOpen(c.Emit(e).Pop())
  {
    OpenAfter(c.trace, e);
  }

  lemma OnValueKeepsOpen(c: Core, kind: Kind, text: seq<byte>)
    requires Stacked(c) && StackIsOpen(c) && WantsValue(c.top)
    ensures StackIsOpen(OnValue(c, kind, text))
  {
    var next := AfterValue(c.top);
    SetKeepsOpen(c, ParseError);
    SetKeepsOpen(c, next);
    hide StackIsOpen, LowOk, TextOf;
    if kind == OpenMap || kind == OpenArray {
      PushKeepsOpen(c.Set(next), if kind == OpenMap then StartMap else StartArray);
    } else if kind == CloseArray && c.top.ArrayStart? {
      PopKeepsOpen(c, EndArray);
    } else if kind == EscapedText && TextOf(kind, text).None? {
      SetKeepsOpen(c, Halted);
    } else {
      EmitKeepsOpen(c.Set(next), match kind
                                 case Text => String(text)
                                 case EscapedText => String(TextOf(kind, text).value)
                                 case BoolTok => Boolean(text != [] && text[0] == 0x74)
                                 case NullTok => Null
                                 case _ => Number(text));
    }
  }

  lemma AdvanceKeepsOpen(c: Core, kind: Kind, text: seq<byte>)
    requires Stacked(c) && StackIsOpen(c)
    ensures StackIsOpen(Advance(c, kind, text))
  {
    hide StackIsOpen, LowOk, OnValue, JsonString.Decode;
    SetKeepsOpen(c, ParseError);
    SetKeepsOpen(c, Halted);
    if WantsValue(c.top) {
      OnValueKeepsOpen(c, kind, text);
    } else if InMap(c.top) {
      PopKeepsOpen(c, EndMap);
      SetKeepsOpen(c, MapNeedVal);
      SetKeepsOpen(c, MapNeedKey);
      SetKeepsOpen(c, MapSep);
      if (kind == Text || kind == EscapedText) && TextOf(kind, text).Some? {
        EmitKeepsOpen(c.Set(MapSep), MapKey(TextOf(kind, text).value));
      }
    } else if InArray(c.top) {
      PopKeepsOpen(c, EndArray);
      SetKeepsOpen(c, ArrayNeedVal);
    }
  }

  lemma {:induction false} ParseKeepsOpen(flags: Flags, c: Core, s: seq<byte>, i: nat)
    requires i <= |s| && Stacked(c) && StackIsOpen(c)
    ensures StackIsOpen(Parse(flags, c, s, i).core)
    decreases |s| - i
  {
    ParseDeaf(flags, c, s, i);
    var c' := Reopen(flags, c);
    if c' != c {
      SetKeepsOpen(c, GotValue);
    }
    if !Deaf(flags, c'.top) {
      ParseOne(flags, c', s, i);
      var r := Scan(LexConfig(flags), s, i);
      if r.Bad? {
        SetKeepsOpen(c', if c'.top.ParseComplete? then ParseError else LexicalError);
      } else if r.Found? {
        var text := YajlLexer.Lexeme(r.kind, s[r.from..r.to]);
        AdvanceKeepsOpen(c', r.kind, text);
        ParseKeepsOpen(flags, Advance(c', r.kind, text), s, r.to);
      }
      hide StackIsOpen, LowOk, Scan, Advance, Parse;
    }
  }

  /** Under every setting of the flags and after any chunks, the state stack above its bottom is exactly the
      containers that the callbacks so far have opened and not closed. */
  lemma {:induction false} StackIsOpenContainers(flags: Flags, chunks: seq<seq<byte>>)
    ensures StackIsOpen(FeedAll(flags, FRESH, chunks).core)
  {
    if chunks != [] {
      var h := FeedAll(flags, FRESH, chunks[..|chunks| - 1]);
      StackIsOpenContainers(flags, chunks[..|chunks| - 1]);
      ParseKeepsOpen(flags, h.core, h.pending + chunks[|chunks| - 1], 0);
    }
  }
}
