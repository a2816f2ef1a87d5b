/** Which texts the parser accepts: nothing but what the grammar generates, and when that is all of the text. */
module JsonAccepted {
  import opened Bytes
  import opened Optional
  import opened JsonLex
  import opened JsonParse
  import opened JsonTree
  import opened JsonGrammar

  /** The parser ends with a complete value. */
  predicate Accepts(c: Core, ts: seq<Token>, k: nat) {
    k <= |ts| && Stacked(c) && RunOn(c, ts, k).top.ParseComplete?
  }

  /** There is a token, and the parser takes it. */
  lemma NextIsTaken(c: Core, ts: seq<Token>, k: nat)
    requires Accepts(c, ts, k) && !c.top.ParseComplete?
    ensures k < |ts| && Accepts(Advance(c, ts[k].kind, ts[k].text), ts, k + 1)
    ensures !Failed(Advance(c, ts[k].kind, ts[k].text).top)
  {
    hide Advance, LowOk, TopOk;
    var c' := Advance(c, ts[k].kind, ts[k].text);
    if Failed(c'.top) {
      FailureStays(c', ts, k + 1);
    }
  }

  lemma StartsValue(c: Core, t: Token)
    requires Stacked(c) && WantsValue(c.top) && !Failed(Advance(c, t.kind, t.text).top)
    requires c.top.ArrayStart? ==> !t.kind.CloseArray?
    ensures ScalarOf(t.kind, t.text).Some? || t.kind.OpenMap? || t.kind.OpenArray?
  {
    ScalarMoves(c, t.kind, t.text);
    hide LowOk, TextOf;
  }

  /** Where a value is wanted the tokens spell one. */
  lemma {:induction false} FindValue(c: Core, ts: seq<Token>, k: nat) returns (n: nat, v: Json)
    requires Accepts(c, ts, k) && WantsValue(c.top)
    requires c.top.ArrayStart? && k < |ts| ==> !ts[k].kind.CloseArray?
    ensures k < n <= |ts| && Spells(ts, k, n, v) && Accepts(After(c, v), ts, n)
    decreases |ts| - k, 1
  {
    hide LowOk, TopOk, Advance, ScalarOf, SpellItems, SpellMembers;
    NextIsTaken(c, ts, k);
    var t := ts[k];
    StartsValue(c, t);
    if ScalarOf(t.kind, t.text).Some? {
      n, v := k + 1, ScalarOf(t.kind, t.text).value;
      ScalarSpells(t.kind, t.text, v);
    } else if t.kind.OpenArray? {
      OpenMoves(c, t, false);
      var items;
      n, items := FindItems(Opened(c, false), ts, k + 1);
      n, v := n + 1, JArray(items);
    } else {
      OpenMoves(c, t, true);
      var members;
      n, members := FindMembers(Opened(c, true), ts, k + 1);
      n, v := n + 1, JObject(members);
    }
    hide Spells;
    ValueRuns(c, ts, k, n, v);
  }

  lemma ScalarSpells(kind: Kind, text: seq<byte>, v: Json)
    requires ScalarOf(kind, text) == Some(v)
    ensures !v.JArray? && !v.JObject?
  {
    hide TextOf;
  }

  lemma {:induction false} FindItems(c: Core, ts: seq<Token>, k: nat) returns (n: nat, items: seq<Json>)
    requires Accepts(c, ts, k) && c.top.ArrayStart?
    ensures k <= n < |ts| && ts[n].kind.CloseArray? && SpellItems(ts, k, n, items)
    decreases |ts| - k, 3
  {
    hide LowOk, TopOk, Advance, Spells, After;
    NextIsTaken(c, ts, k);
    if ts[k].kind.CloseArray? {
      n, items := k, [];
    } else {
      var m, v := FindValue(c, ts, k);
      n, items := FindMoreItems(c, ts, k, m, [v]);
    }
  }

  /** Behind some items: a comma and another one, or the end. */
  lemma {:induction false} FindMoreItems(c: Core, ts: seq<Token>, i: nat, k: nat, items: seq<Json>)
    returns (n: nat, all: seq<Json>)
    requires Accepts(c, ts, i) && c.top.ArrayStart? && i <= k <= |ts| && items != [] && SpellItems(ts, i, k, items)
    ensures k <= n < |ts| && ts[n].kind.CloseArray? && SpellItems(ts, i, n, all)
    decreases |ts| - k, 2
  {
    hide LowOk, TopOk, Spells, After, SpellItems;
    ItemsRun(c, ts, i, k, items);
    TopAfterItems(c, items);
    var c' := AfterItems(c, items);
    hide AfterItems;
    NextIsTaken(c', ts, k);
    if ts[k].kind.CloseArray? {
      n, all := k, items;
    } else {
      GoesOn(c', ts[k]);
      CommaMoves(c', ts[k]);
      hide Advance;
      var m, v := FindValue(c'.Set(ArrayNeedVal), ts, k + 1);
      OneMoreItem(ts, i, k, m, items, v);
      n, all := FindMoreItems(c, ts, i, m, items + [v]);
    }
  }

  lemma GoesOn(c: Core, t: Token)
    requires Stacked(c) && (c.top.ArrayGotVal? || c.top.MapGotVal?) && !Failed(Advance(c, t.kind, t.text).top)
    ensures t.kind.Comma? || if c.top.ArrayGotVal? then t.kind.CloseArray? else t.kind.CloseMap?
  {
    hide LowOk;
  }

  lemma OneMoreItem(ts: seq<Token>, i: nat, k: nat, j: nat, items: seq<Json>, v: Json)
    requires i <= k < j <= |ts| && items != [] && SpellItems(ts, i, k, items) && ts[k].kind.Comma?
    requires Spells(ts, k + 1, j, v)
    ensures SpellItems(ts, i, j, items + [v])
  {
    assert (items + [v])[..|items + [v]| - 1] == items && IsComma(ts, k);
    hide Spells;
  }

  lemma {:induction false} FindMembers(c: Core, ts: seq<Token>, k: nat) returns (n: nat, members: seq<Member>)
    requires Accepts(c, ts, k) && c.top.MapStart?
    ensures k <= n < |ts| && ts[n].kind.CloseMap? && SpellMembers(ts, k, n, members)
    decreases |ts| - k, 3
  {
    hide LowOk, TopOk, Advance, SpellMember, AfterMember;
    NextIsTaken(c, ts, k);
    if ts[k].kind.CloseMap? {
      n, members := k, [];
    } else {
      var j, m := FindMember(c, ts, k);
      n, members := FindMoreMembers(c, ts, k, j, [m]);
    }
  }

  lemma {:induction false} FindMoreMembers(c: Core, ts: seq<Token>, i: nat, k: nat, members: seq<Member>)
    returns (n: nat, all: seq<Member>)
    requires Accepts(c, ts, i) && c.top.MapStart? && i <= k <= |ts| && members != [] && SpellMembers(ts, i, k, members)
    ensures k <= n < |ts| && ts[n].kind.CloseMap? && SpellMembers(ts, i, n, all)
    decreases |ts| - k, 2
  {
    hide LowOk, TopOk, SpellMember, SpellMembers;
    MembersRun(c, ts, i, k, members);
    TopAfterMembers(c, members);
    var c' := AfterMembers(c, members);
    hide AfterMembers;
    NextIsTaken(c', ts, k);
    if ts[k].kind.CloseMap? {
      n, all := k, members;
    } else {
      GoesOn(c', ts[k]);
      CommaMoves(c', ts[k]);
      hide Advance;
      var j, m := FindMember(c'.Set(MapNeedKey), ts, k + 1);
      OneMoreMember(ts, i, k, j, members, m);
      n, all := FindMoreMembers(c, ts, i, j, members + [m]);
    }
  }

  lemma OneMoreMember(ts: seq<Token>, i: nat, k: nat, j: nat, members: seq<Member>, m: Member)
    requires i <= k < j <= |ts| && members != [] && SpellMembers(ts, i, k, members)
    requires ts[k].kind.Comma? && SpellMember(ts, k + 1, j, m)
    ensures SpellMembers(ts, i, j, members + [m])
  {
    assert (members + [m])[..|members + [m]| - 1] == members && IsComma(ts, k);
    hide SpellMember;
  }

  lemma {:induction false} FindMember(c: Core, ts: seq<Token>, k: nat) returns (n: nat, m: Member)
    requires Accepts(c, ts, k) && (c.top.MapStart? || c.top.MapNeedKey?)
    requires c.top.MapStart? && k < |ts| ==> !ts[k].kind.CloseMap?
    ensures k < n <= |ts| && SpellMember(ts, k, n, m)
    decreases |ts| - k, 0
  {
    hide LowOk, TopOk, Spells, After;
    NextIsTaken(c, ts, k);
    var key := StartsMember(c, ts[k]);
    var c' := Advance(c, ts[k].kind, ts[k].text);
    NextIsTaken(c', ts, k + 1);
    ColonFollows(c', ts[k + 1]);
    KeyMoves(c, ts[k], ts[k + 1], key);
    hide Advance;
    var v;
    n, v := FindValue(Keyed(c, key), ts, k + 2);
    m := Member(key, v);
  }

  lemma StartsMember(c: Core, t: Token) returns (key: seq<byte>)
    requires Stacked(c) && (c.top.MapStart? || c.top.MapNeedKey?) && !Failed(Advance(c, t.kind, t.text).top)
    requires c.top.MapStart? ==> !t.kind.CloseMap?
    ensures IsKey(t, key) && Advance(c, t.kind, t.text).top.MapSep?
  {
    hide LowOk, JsonString.Decode;
    key := TextOf(t.kind, t.text).value;
  }

  lemma ColonFollows(c: Core, t: Token)
    requires Stacked(c) && c.top.MapSep? && !Failed(Advance(c, t.kind, t.text).top)
    ensures t.kind.Colon?
  {
    hide LowOk;
  }

  // ---------------------------------------------------------------- whole texts, token by token

  /** No level waits for another value at the top. */
  predicate OneValue(c: Core) { !c.top.GotValue? && (c.low != [] ==> !c.low[0].GotValue?) }

  lemma AdvanceKeepsOne(c: Core, t: Token)
    requires Stacked(c) && OneValue(c)
    ensures OneValue(Advance(c, t.kind, t.text))
  {
    hide JsonString.Decode;
    if WantsValue(c.top) {
      ScalarMoves(c, t.kind, t.text);
    }
  }

  lemma {:induction false} RunKeepsOne(c: Core, ts: seq<Token>, k: nat)
    requires k <= |ts| && Stacked(c) && OneValue(c)
    ensures OneValue(RunOn(c, ts, k))
    decreases |ts| - k
  {
    hide LowOk, Advance, OneValue;
    if k < |ts| {
      AdvanceKeepsOne(c, ts[k]);
      RunKeepsOne(Advance(c, ts[k].kind, ts[k].text), ts, k + 1);
    }
  }

  /** The tokens spell one value. */
  ghost predicate SpellsAll(ts: seq<Token>, v: Json) { Spells(ts, 0, |ts|, v) }

  /** The parser waits for a value, and nothing is open. */
  predicate AtTop(c: Core) { c.low == [] && (c.top.StartState? || c.top.GotValue?) }

  /** From there it comes to the end of a value exactly on tokens that spell one. */
  lemma AcceptsIs(c: Core, ts: seq<Token>)
    requires AtTop(c)
    ensures RunOn(c, ts, 0).top.ParseComplete? <==> exists v :: SpellsAll(ts, v)
    ensures forall v :: SpellsAll(ts, v) ==> RunOn(c, ts, 0) == After(c, v)
  {
    hide Spells, Advance;
    if Accepts(c, ts, 0) {
      var n, v := FindValue(c, ts, 0);
      if n < |ts| {
        NothingFollows(After(c, v), ts, n);
      }
      assert SpellsAll(ts, v);
    }
    forall v | SpellsAll(ts, v) ensures RunOn(c, ts, 0) == After(c, v) {
      ValueRuns(c, ts, 0, |ts|, v);
    }
  }

  lemma NothingFollows(c: Core, ts: seq<Token>, k: nat)
    requires Accepts(c, ts, k) && c.top.ParseComplete?
    ensures k == |ts|
  {
    hide LowOk, TopOk;
    if k < |ts| {
      FailureStays(Advance(c, ts[k].kind, ts[k].text), ts, k + 1);
    }
  }

  /** No tokens spell two values. */
  lemma SpellsOne(ts: seq<Token>, v: Json, w: Json)
    requires SpellsAll(ts, v) && SpellsAll(ts, w)
    ensures v == w
  {
    hide *;
    SpelledIsHeard(ts, v);
    SpelledIsHeard(ts, w);
    FlattenIsInjective(v, w);
  }

  lemma SpelledIsHeard(ts: seq<Token>, v: Json)
    requires SpellsAll(ts, v)
    ensures RunOn(INIT, ts, 0).trace == Flatten(v)
  {
    hide SpellsAll, RunOn;
    AcceptsIs(INIT, ts);
    assert [] + Flatten(v) == Flatten(v);
  }

  /** The options that change what is accepted are off; comments and the validation of strings may be on or off. */
  predicate Strict(flags: Flags) { !flags.multipleValues && !flags.trailingGarbage && !flags.partialValues }

  /** What the client hears, and what the parser says, is decided by the tokens of the text and the space that
      finishing adds: the run ends well if and only if the scan meets no error and the tokens spell a value. */
  lemma TokensDecide(flags: Flags, chunks: seq<seq<byte>>)
    requires Strict(flags)
    ensures var s, cfg := Concat(chunks) + [SPACE], LexConfig(flags);
            var ts, rest := Tokens(cfg, s, 0), Rest(cfg, s, 0);
            && (Run(flags, chunks).1 == Ok <==> rest.More? && exists v :: SpellsAll(ts, v))
            && (Run(flags, chunks).1 == Ok ==> rest.More? && FinalHandle(flags, chunks).pending == s[rest.from..])
            && forall v :: rest.More? && SpellsAll(ts, v) ==> Run(flags, chunks) == (Flatten(v), Ok)
  {
    var s, cfg := Concat(chunks) + [SPACE], LexConfig(flags);
    var ts := Tokens(cfg, s, 0);
    hide Tokens, Rest, SpellsAll, Flatten, Run, Parse, LexConfig;
    RunIsParse(flags, chunks);
    ParseIsRunOn(flags, INIT, s, 0);
    RunKeepsOne(INIT, ts, 0);
    AcceptsIs(INIT, ts);
    assert forall v :: [] + Flatten(v) == Flatten(v);
  }
}
