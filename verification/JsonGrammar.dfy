/** The grammar of JSON over tokens, RFC 8259 sections 2 to 5, and that the parser of deps/yajl/src/yajl_parser.c
    accepts exactly what it generates. */
module JsonGrammar {
  import opened Bytes
  import opened Optional
  import opened JsonLex
  import opened JsonParse
  import opened JsonTree
  import YajlLexer

  datatype Token = Token(kind: Kind, text: seq<byte>)

  /** The tokens of s from i on, up to the first place where there is none. */
  function Tokens(cfg: Config, s: seq<byte>, i: nat): seq<Token>
    requires i <= |s|
    decreases |s| - i
  {
    var r := Scan(cfg, s, i);
    if r.Found? then [Token(r.kind, YajlLexer.Lexeme(r.kind, s[r.from..r.to]))] + Tokens(cfg, s, r.to) else []
  }

  /** What is behind the tokens: an unfinished rest, perhaps empty, or an error. */
  function Rest(cfg: Config, s: seq<byte>, i: nat): (r: Lexed)
    requires i <= |s|
    ensures !r.Found? && (r.More? ==> i <= r.from <= |s|)
    decreases |s| - i
  {
    var r := Scan(cfg, s, i);
    if r.Found? then Rest(cfg, s, r.to) else r
  }

  // ---------------------------------------------------------------- the grammar

  predicate IsKey(t: Token, key: seq<byte>) {
    (t.kind.Text? || t.kind.EscapedText?) && TextOf(t.kind, t.text) == Some(key)
  }

  /** The tokens from i to j spell v. */
  ghost predicate Spells(ts: seq<Token>, i: nat, j: nat, v: Json)
    requires j <= |ts|
    decreases v, 1
  {
    i < j &&
    match v
    case JArray(items) =>
      i + 1 < j && ts[i].kind.OpenArray? && ts[j - 1].kind.CloseArray? && SpellItems(ts, i + 1, j - 1, items)
    case JObject(members) =>
      i + 1 < j && ts[i].kind.OpenMap? && ts[j - 1].kind.CloseMap? && SpellMembers(ts, i + 1, j - 1, members)
    case _ => j == i + 1 && ScalarOf(ts[i].kind, ts[i].text) == Some(v)
  }

  /** Values with commas between them. */
  ghost predicate SpellItems(ts: seq<Token>, i: nat, j: nat, items: seq<Json>)
    requires j <= |ts|
    decreases items, 0
  {
    if items == [] then i == j
    else if |items| == 1 then Spells(ts, i, j, items[0])
    else exists k :: i <= k < j && IsComma(ts, k) && SpellItems(ts, i, k, items[..|items| - 1])
                     && Spells(ts, k + 1, j, items[|items| - 1])
  }

  predicate IsComma(ts: seq<Token>, k: nat)
    requires k < |ts|
  {
    ts[k].kind.Comma?
  }

  /** A key, a colon and a value. */
  ghost predicate SpellMember(ts: seq<Token>, i: nat, j: nat, m: Member)
    requires j <= |ts|
    decreases m, 0
  {
    i + 2 < j && IsKey(ts[i], m.key) && ts[i + 1].kind.Colon? && Spells(ts, i + 2, j, m.value)
  }

  ghost predicate SpellMembers(ts: seq<Token>, i: nat, j: nat, members: seq<Member>)
    requires j <= |ts|
    decreases members, 0
  {
    if members == [] then i == j
    else if |members| == 1 then SpellMember(ts, i, j, members[0])
    else exists k :: i <= k < j && IsComma(ts, k) && SpellMembers(ts, i, k, members[..|members| - 1])
                     && SpellMember(ts, k + 1, j, members[|members| - 1])
  }

  // ---------------------------------------------------------------- the parser on tokens

  function RunOn(c: Core, ts: seq<Token>, k: nat): (r: Core)
    requires k <= |ts| && Stacked(c)
    ensures Stacked(r)
    decreases |ts| - k
  {
    if k == |ts| then c else RunOn(Advance(c, ts[k].kind, ts[k].text), ts, k + 1)
  }

  lemma {:induction false} RunShift(c: Core, t: Token, ts: seq<Token>, k: nat)
    requires k <= |ts| && Stacked(c)
    ensures RunOn(c, [t] + ts, k + 1) == RunOn(c, ts, k)
    decreases |ts| - k
  {
    hide Advance, LowOk;
    if k < |ts| {
      RunShift(Advance(c, ts[k].kind, ts[k].text), t, ts, k + 1);
    }
  }

  /** A failure is final. */
  lemma {:induction false} FailureStays(c: Core, ts: seq<Token>, k: nat)
    requires k <= |ts| && Stacked(c) && Failed(c.top)
    ensures RunOn(c, ts, k) == c
    decreases |ts| - k
  {
    hide LowOk;
    if k < |ts| {
      FailureStays(c, ts, k + 1);
    }
  }

  /** Parsing a text is running on its tokens, when one value is asked for and nothing may follow it. */
  lemma {:induction false} ParseIsRunOn(flags: Flags, c: Core, s: seq<byte>, i: nat)
    requires i <= |s| && Stacked(c) && !flags.multipleValues && !flags.trailingGarbage
    ensures var o, r := Parse(flags, c, s, i), Rest(LexConfig(flags), s, i);
            if r.More? then
              && o.core == RunOn(c, Tokens(LexConfig(flags), s, i), 0)
              && (!Failed(o.core.top) ==> o.rest == r.from)
            else Failed(o.core.top)
    decreases |s| - i
  {
    var cfg := LexConfig(flags);
    hide Advance, LowOk, Scan, TopOk, LexConfig;
    ParseDeaf(flags, c, s, i);
    if Failed(c.top) {
      FailureStays(c, Tokens(cfg, s, i), 0);
    } else {
      ParseOne(flags, c, s, i);
      var r := Scan(cfg, s, i);
      if r.Found? {
        var t := Token(r.kind, YajlLexer.Lexeme(r.kind, s[r.from..r.to]));
        ParseIsRunOn(flags, Advance(c, t.kind, t.text), s, r.to);
        RunShift(Advance(c, t.kind, t.text), t, Tokens(cfg, s, r.to), 0);
      }
    }
  }

  // ---------------------------------------------------------------- what the grammar generates is accepted

  /** The state after a whole value. */
  function After(c: Core, v: Json): Core { Core(c.low, AfterValue(c.top), c.trace + Flatten(v)) }

  lemma AfterStacks(c: Core, v: Json)
    requires Stacked(c) && WantsValue(c.top)
    ensures Stacked(After(c, v))
  {
    hide LowOk;
  }

  /** Inside an array, after some items. */
  function AfterItems(c: Core, items: seq<Json>): Core {
    Core(c.low, if items == [] then c.top else ArrayGotVal, c.trace + FlattenItems(items))
  }

  function AfterMembers(c: Core, members: seq<Member>): Core {
    Core(c.low, if members == [] then c.top else MapGotVal, c.trace + FlattenMembers(members))
  }

  /** A bracket opens a container. */
  function Opened(c: Core, isMap: bool): Core {
    Core(c.low + [AfterValue(c.top)],
        if isMap then MapStart else ArrayStart, c.trace + [if isMap then StartMap else StartArray])
  }

  lemma OpenMoves(c: Core, t: Token, isMap: bool)
    requires Stacked(c) && WantsValue(c.top) && (if isMap then t.kind.OpenMap? else t.kind.OpenArray?)
    ensures Stacked(Opened(c, isMap)) && Advance(c, t.kind, t.text) == Opened(c, isMap)
  {
    NextStacks(c);
    ScalarMoves(c, t.kind, t.text);
    hide LowOk, TextOf;
  }

  /** Its partner closes it. */
  lemma CloseMoves(c: Core, t: Token, isMap: bool, inner: Core, v: Json)
    requires Stacked(c) && WantsValue(c.top) && Stacked(inner) && inner.low == Opened(c, isMap).low
    requires if isMap then t.kind.CloseMap? && (inner.top.MapStart? || inner.top.MapGotVal?)
             else t.kind.CloseArray? && (inner.top.ArrayStart? || inner.top.ArrayGotVal?)
    requires inner.trace + [if isMap then EndMap else EndArray] == c.trace + Flatten(v)
    ensures Advance(inner, t.kind, t.text) == After(c, v)
  {
    hide LowOk, TextOf, Flatten;
  }

  lemma ScalarRuns(c: Core, t: Token, v: Json)
    requires Stacked(c) && WantsValue(c.top) && ScalarOf(t.kind, t.text) == Some(v)
    ensures Advance(c, t.kind, t.text) == After(c, v)
  {
    ScalarMoves(c, t.kind, t.text);
    hide LowOk, TextOf;
  }

  lemma {:induction false} ValueRuns(c: Core, ts: seq<Token>, i: nat, j: nat, v: Json)
    requires j <= |ts| && Spells(ts, i, j, v) && Stacked(c) && WantsValue(c.top)
    ensures Stacked(After(c, v)) && RunOn(c, ts, i) == RunOn(After(c, v), ts, j)
    decreases v, 1
  {
    AfterStacks(c, v);
    hide LowOk, Advance, ScalarOf, TopOk;
    if v.JArray? {
      var inner := Opened(c, false);
      OpenMoves(c, ts[i], false);
      ItemsRun(inner, ts, i + 1, j - 1, v.items);
      Wrap(c.trace, StartArray, FlattenItems(v.items), EndArray);
      CloseMoves(c, ts[j - 1], false, AfterItems(inner, v.items), v);
    } else if v.JObject? {
      var inner := Opened(c, true);
      OpenMoves(c, ts[i], true);
      MembersRun(inner, ts, i + 1, j - 1, v.members);
      Wrap(c.trace, StartMap, FlattenMembers(v.members), EndMap);
      CloseMoves(c, ts[j - 1], true, AfterMembers(inner, v.members), v);
    } else {
      ScalarRuns(c, ts[i], v);
    }
  }

  lemma Wrap(a: seq<Event>, start: Event, body: seq<Event>, end: Event)
    ensures a + [start] + body + [end] == a + ([start] + body + [end])
  {
  }

  /** A comma between two items. */
  lemma CommaMoves(c: Core, t: Token)
    requires Stacked(c) && t.kind.Comma? && (c.top.ArrayGotVal? || c.top.MapGotVal?)
    ensures Stacked(c.Set(if c.top.MapGotVal? then MapNeedKey else ArrayNeedVal))
    ensures Advance(c, t.kind, t.text) == c.Set(if c.top.MapGotVal? then MapNeedKey else ArrayNeedVal)
  {
    hide LowOk;
  }

  lemma {:induction false} ItemsRun(c: Core, ts: seq<Token>, i: nat, j: nat, items: seq<Json>)
    requires j <= |ts| && SpellItems(ts, i, j, items) && Stacked(c) && c.top.ArrayStart?
    ensures i <= j && Stacked(AfterItems(c, items)) && RunOn(c, ts, i) == RunOn(AfterItems(c, items), ts, j)
    decreases items, 0
  {
    if items == [] {
      NoItems(c);
    } else {
      var init, last := items[..|items| - 1], items[|items| - 1];
      hide LowOk, Advance, TopOk, Spells, After;
      ItemsGrow(c, items, if |items| == 1 then c.top else ArrayNeedVal);
      if |items| == 1 {
        NoItems(c);
        ValueRuns(c, ts, i, j, last);
      } else {
        var k := LastItem(ts, i, j, items);
        hide *;
        ItemsRun(c, ts, i, k, init);
        MoreItemsRun(c, ts, i, k, j, init, last);
      }
    }
  }

  lemma ItemsGrow(c: Core, items: seq<Json>, s: State)
    requires items != [] && (s.ArrayStart? || s.ArrayNeedVal?)
    ensures var init, last := items[..|items| - 1], items[|items| - 1];
            After(AfterItems(c, init).Set(s), last) == AfterItems(c, items)
  {
    var init, last := items[..|items| - 1], items[|items| - 1];
    Assoc(c.trace, FlattenItems(init), Flatten(last));
    hide Flatten;
  }

  lemma LastItem(ts: seq<Token>, i: nat, j: nat, items: seq<Json>) returns (k: nat)
    requires j <= |ts| && SpellItems(ts, i, j, items) && |items| > 1
    ensures i <= k < j && IsComma(ts, k) && SpellItems(ts, i, k, items[..|items| - 1])
    ensures Spells(ts, k + 1, j, items[|items| - 1]) && items[..|items| - 1] != []
  {
    hide Spells;
    k :| i <= k < j && IsComma(ts, k) && SpellItems(ts, i, k, items[..|items| - 1])
        && Spells(ts, k + 1, j, items[|items| - 1]);
  }

  lemma MoreItemsRun(c: Core, ts: seq<Token>, i: nat, k: nat, j: nat, init: seq<Json>, last: Json)
    requires i <= k < j <= |ts| && IsComma(ts, k) && Spells(ts, k + 1, j, last) && init != []
    requires Stacked(c) && Stacked(AfterItems(c, init)) && RunOn(c, ts, i) == RunOn(AfterItems(c, init), ts, k)
    ensures Stacked(After(AfterItems(c, init).Set(ArrayNeedVal), last))
    ensures RunOn(c, ts, i) == RunOn(After(AfterItems(c, init).Set(ArrayNeedVal), last), ts, j)
    decreases last, 2
  {
    TopAfterItems(c, init);
    hide AfterItems, After, Spells, Stacked, Advance;
    CommaMoves(AfterItems(c, init), ts[k]);
    ValueRuns(AfterItems(c, init).Set(ArrayNeedVal), ts, k + 1, j, last);
  }

  lemma NoItems(c: Core)
    ensures AfterItems(c, []) == c
  {
    assert c.trace + FlattenItems([]) == c.trace;
  }

  lemma TopAfterItems(c: Core, items: seq<Json>)
    requires items != []
    ensures AfterItems(c, items).top == ArrayGotVal
  {
  }

  /** A key and its colon. */
  function Keyed(c: Core, key: seq<byte>): Core { Core(c.low, MapNeedVal, c.trace + [MapKey(key)]) }

  lemma KeyMoves(c: Core, t: Token, colon: Token, key: seq<byte>)
    requires Stacked(c) && (c.top.MapStart? || c.top.MapNeedKey?) && IsKey(t, key) && colon.kind.Colon?
    ensures Stacked(Keyed(c, key))
    ensures Advance(Advance(c, t.kind, t.text), colon.kind, colon.text) == Keyed(c, key)
  {
    hide LowOk, JsonString.Decode;
  }

  function AfterMember(c: Core, m: Member): Core {
    Core(c.low, MapGotVal, c.trace + [MapKey(m.key)] + Flatten(m.value))
  }

  lemma MembersGrow(c: Core, members: seq<Member>, s: State)
    requires members != []
    ensures var init, last := members[..|members| - 1], members[|members| - 1];
            AfterMember(AfterMembers(c, init).Set(s), last) == AfterMembers(c, members)
  {
    var init, last := members[..|members| - 1], members[|members| - 1];
    Assoc(c.trace, FlattenMembers(init) + [MapKey(last.key)], Flatten(last.value));
    Assoc(c.trace, FlattenMembers(init), [MapKey(last.key)]);
    hide Flatten;
  }

  lemma {:induction false} MemberRuns(c: Core, ts: seq<Token>, i: nat, j: nat, m: Member)
    requires j <= |ts| && SpellMember(ts, i, j, m) && Stacked(c) && (c.top.MapStart? || c.top.MapNeedKey?)
    ensures Stacked(AfterMember(c, m)) && RunOn(c, ts, i) == RunOn(AfterMember(c, m), ts, j)
    decreases m, 0
  {
    KeyMoves(c, ts[i], ts[i + 1], m.key);
    hide LowOk, Advance, Flatten, TopOk, Spells;
    ValueRuns(Keyed(c, m.key), ts, i + 2, j, m.value);
  }

  lemma {:induction false} MembersRun(c: Core, ts: seq<Token>, i: nat, j: nat, members: seq<Member>)
    requires j <= |ts| && SpellMembers(ts, i, j, members) && Stacked(c) && c.top.MapStart?
    ensures i <= j && Stacked(AfterMembers(c, members)) && RunOn(c, ts, i) == RunOn(AfterMembers(c, members), ts, j)
    decreases members, 0
  {
    if members == [] {
      NoMembers(c);
    } else {
      var init, last := members[..|members| - 1], members[|members| - 1];
      hide LowOk, Advance, TopOk, SpellMember, AfterMember;
      MembersGrow(c, members, if |members| == 1 then c.top else MapNeedKey);
      if |members| == 1 {
        NoMembers(c);
        MemberRuns(c, ts, i, j, last);
      } else {
        var k := LastMember(ts, i, j, members);
        hide *;
        MembersRun(c, ts, i, k, init);
        MoreMembersRun(c, ts, i, k, j, init, last);
      }
    }
  }

  lemma LastMember(ts: seq<Token>, i: nat, j: nat, members: seq<Member>) returns (k: nat)
    requires j <= |ts| && SpellMembers(ts, i, j, members) && |members| > 1
    ensures i <= k < j && IsComma(ts, k) && SpellMembers(ts, i, k, members[..|members| - 1])
    ensures SpellMember(ts, k + 1, j, members[|members| - 1]) && members[..|members| - 1] != []
  {
    hide SpellMember;
    k :| i <= k < j && IsComma(ts, k) && SpellMembers(ts, i, k, members[..|members| - 1])
         && SpellMember(ts, k + 1, j, members[|members| - 1]);
  }

  lemma MoreMembersRun(c: Core, ts: seq<Token>, i: nat, k: nat, j: nat, init: seq<Member>, last: Member)
    requires i <= k < j <= |ts| && IsComma(ts, k) && SpellMember(ts, k + 1, j, last) && init != []
    requires Stacked(c) && Stacked(AfterMembers(c, init)) && RunOn(c, ts, i) == RunOn(AfterMembers(c, init), ts, k)
    ensures Stacked(AfterMember(AfterMembers(c, init).Set(MapNeedKey), last))
    ensures RunOn(c, ts, i) == RunOn(AfterMember(AfterMembers(c, init).Set(MapNeedKey), last), ts, j)
    decreases last, 1
  {
    TopAfterMembers(c, init);
    hide AfterMembers, AfterMember, SpellMember, Stacked, Advance;
    CommaMoves(AfterMembers(c, init), ts[k]);
    MemberRuns(AfterMembers(c, init).Set(MapNeedKey), ts, k + 1, j, last);
  }

  lemma NoMembers(c: Core)
    ensures AfterMembers(c, []) == c
  {
    assert c.trace + FlattenMembers([]) == c.trace;
  }

  lemma TopAfterMembers(c: Core, members: seq<Member>)
    requires members != []
    ensures AfterMembers(c, members).top == MapGotVal
  {
  }
}
