/** How the generator of deps/yajl/src/yajl_gen.c lays out a whole value: a printer that follows the value instead of
    the calls, written in octets, and the proof that the calls print the same. */
module GenLayout {
  import opened Bytes
  import opened Optional
  import opened JsonParse
  import opened JsonTree
  import JsonString
  import opened YajlGen
  import opened PrintParse

  // ---------------------------------------------------------------- the printer

  /** LF, where the text is to be beautiful. */
  function Eol(opts: Options): seq<byte> { if opts.beautify then [0x0A] else [] }

  /** The indentation of a line, n containers deep. */
  function Margin(opts: Options, n: nat): seq<byte> {
    if n == 0 || !opts.beautify then [] else Margin(opts, n - 1) + opts.indent
  }

  /** A string between quotation marks. */
  function Marked(opts: Options, text: seq<byte>): seq<byte> {
    [0x22] + JsonString.Encode(text, 0, opts.escapeSolidus) + [0x22]
  }

  /** The text of a value n containers deep, from its first octet to its last: scalars and strings on one line,
      containers with each item or member on a line of its own, one step further in. An empty container has a line of
      no items. */
  function Layout(opts: Options, n: nat, v: Json): seq<byte>
    decreases v, 1
  {
    match v
    case JNull => [0x6E, 0x75, 0x6C, 0x6C]
    case JBool(b) => if b then [0x74, 0x72, 0x75, 0x65] else [0x66, 0x61, 0x6C, 0x73, 0x65]
    case JNumber(text) => text
    case JString(text) => Marked(opts, text)
    case JArray(items) => [0x5B] + Eol(opts) + Lines(opts, n + 1, items) + Eol(opts) + Margin(opts, n) + [0x5D]
    case JObject(members) => [0x7B] + Eol(opts) + Fields(opts, n + 1, members) + Eol(opts) + Margin(opts, n) + [0x7D]
  }

  /** Commas between the items, and a line break behind each comma. */
  function Lines(opts: Options, n: nat, items: seq<Json>): seq<byte>
    decreases items, 0
  {
    if items == [] then []
    else
      var init := items[..|items| - 1];
      Lines(opts, n, init) + (if init == [] then [] else [0x2C] + Eol(opts)) + Margin(opts, n)
          + Layout(opts, n, items[|items| - 1])
  }

  /** A colon behind each key, and a space behind the colon where the text is to be beautiful. */
  function Fields(opts: Options, n: nat, members: seq<Member>): seq<byte>
    decreases members, 0
  {
    if members == [] then []
    else
      var init, last := members[..|members| - 1], members[|members| - 1];
      Fields(opts, n, init) + (if init == [] then [] else [0x2C] + Eol(opts)) + Margin(opts, n)
          + Marked(opts, last.key) + (if opts.beautify then [0x3A, 0x20] else [0x3A]) + Layout(opts, n, last.value)
  }

  // ---------------------------------------------------------------- what the calls print

  /** The calls succeed and print the text. */
  predicate Writes(opts: Options, g: Printed, calls: seq<Event>, text: seq<byte>)
    requires g.states != []
  {
    var r := GenRun(opts, g, calls);
    r.Some? && r.value.out == g.out + text
  }

  /** What stands before a value or key, n containers deep. */
  function Before(opts: Options, top: GenState, n: nat): seq<byte> {
    if top.GenMapVal? then if opts.beautify then [0x3A, 0x20] else [0x3A]
    else if top.GenMapKey? || top.GenInArray? then [0x2C] + Eol(opts) + Margin(opts, n)
    else Margin(opts, n)
  }

  /** Behind a whole text. */
  function Behind(opts: Options, top: GenState): seq<byte> { if top.GenStart? then Eol(opts) else [] }

  lemma {:induction false} MarginIs(opts: Options, n: nat)
    ensures Margin(opts, n) == if opts.beautify then Indent(opts, n) else []
  {
    if n > 0 {
      MarginIs(opts, n - 1);
    }
  }

  lemma LeadIs(opts: Options, g: Printed)
    requires g.states != [] && !g.Top().GenError? && !g.Top().GenComplete?
    ensures Lead(opts, g) == Before(opts, g.Top(), |g.states| - 1)
    ensures FinalNewline(opts, After(g.Top())) == Behind(opts, g.Top())
  {
    var n := |g.states| - 1;
    MarginIs(opts, n);
    hide Margin, Indent;
    assert [COMMA, LF] + Indent(opts, n) == [0x2C] + [0x0A] + Indent(opts, n);
    assert [COMMA] + [] == [0x2C] + [] + [];
  }

  lemma WritesThen(opts: Options, g: Printed, a: seq<Event>, x: seq<byte>, b: seq<Event>, y: seq<byte>)
    requires g.states != [] && Writes(opts, g, a, x) && Writes(opts, GenRun(opts, g, a).value, b, y)
    ensures Writes(opts, g, a + b, x + y)
  {
    hide *;
    WritesIs(opts, g, a, x);
    WritesIs(opts, GenRun(opts, g, a).value, b, y);
    WritesIs(opts, g, a + b, x + y);
    GenConcat(opts, g, a, b);
    Associate(g.out, x, y);
  }

  lemma WritesIs(opts: Options, g: Printed, calls: seq<Event>, text: seq<byte>)
    requires g.states != []
    ensures var r := GenRun(opts, g, calls); Writes(opts, g, calls, text) <==> r.Some? && r.value.out == g.out + text
  {
    hide GenRun;
  }

  lemma Associate(a: seq<byte>, b: seq<byte>, c: seq<byte>)
    ensures a + b + c == a + (b + c)
  {
  }

  lemma WritesNothing(opts: Options, g: Printed)
    requires g.states != []
    ensures Writes(opts, g, [], [])
  {
  }

  lemma AtomWrites(opts: Options, g: Printed, e: Event, text: seq<byte>)
    requires g.states != [] && IsAtom(e) && Wellformed(e) && text == Body(opts, e)
    requires (if e.MapKey? then g.Top().GenMapStart? || g.Top().GenMapKey? else TakesValue(g.Top()))
    ensures Writes(opts, g, [e], Before(opts, g.Top(), |g.states| - 1) + text + Behind(opts, g.Top()))
  {
    AtomCall(opts, g, e);
    LeadIs(opts, g);
    hide Call, Lead, FinalNewline, Body, Before, Behind;
    GenSingle(opts, g, e);
  }

  lemma ScalarWrites(opts: Options, g: Printed, v: Json)
    requires g.states != [] && TakesValue(g.Top()) && Printable(v) && !v.JArray? && !v.JObject?
    ensures Writes(opts, g, Flatten(v),
                Before(opts, g.Top(), |g.states| - 1) + Layout(opts, |g.states| - 1, v) + Behind(opts, g.Top()))
  {
    if v.JNumber? {
      JsonNumber.NumbersAreNumbers(v.text);
    }
    hide Writes, Before, Behind, JsonNumber.ValidNumber, JsonString.Encode, JsonString.ValidFrom;
    AtomWrites(opts, g, Flatten(v)[0], Layout(opts, |g.states| - 1, v));
  }

  lemma OpenWrites(opts: Options, g: Printed, isMap: bool)
    requires g.states != [] && TakesValue(g.Top()) && |g.states| < MAX_DEPTH
    ensures var e := if isMap then StartMap else StartArray;
            && Call(opts, g, e) && GenRun(opts, g, [e]) == Some(Emit(opts, g, e))
            && Writes(opts, g, [e],
                Before(opts, g.Top(), |g.states| - 1) + [if isMap then 0x7B else 0x5B] + Eol(opts))
  {
    var e := if isMap then StartMap else StartArray;
    OpenCall(opts, g, isMap);
    LeadIs(opts, g);
    GenSingle(opts, g, e);
    hide Call, Lead, Before, GenRun;
  }

  /** The partner of the bracket. */
  lemma CloseWrites(opts: Options, g: Printed, isMap: bool, below: seq<GenState>, top: GenState, last: GenState)
    requires g.states == below + [top] + [last] && TakesValue(top)
    requires if isMap then last.GenMapStart? || last.GenMapKey? else last.GenArrayStart? || last.GenInArray?
    ensures Writes(opts, g, [if isMap then EndMap else EndArray],
                Eol(opts) + Margin(opts, |below|) + [if isMap then 0x7D else 0x5D] + Behind(opts, top))
  {
    hide *;
    var e := if isMap then EndMap else EndArray;
    CloseCall(opts, g, isMap, below, top, last);
    GenSingle(opts, g, e);
    ClosePrints(opts, g, isMap, below, top, last);
    WritesIs(opts, g, [e],
        Eol(opts) + Margin(opts, |below|) + [if isMap then 0x7D else 0x5D] + Behind(opts, top));
  }

  lemma ClosePrints(opts: Options, g: Printed, isMap: bool, below: seq<GenState>, top: GenState, last: GenState)
    requires g.states == below + [top] + [last] && TakesValue(top)
    requires Legal(g, if isMap then EndMap else EndArray)
    ensures Emit(opts, g, if isMap then EndMap else EndArray).out ==
            g.out + (Eol(opts) + Margin(opts, |below|) + [if isMap then 0x7D else 0x5D] + Behind(opts, top))
  {
    hide *;
    SecondLast(g.states, below, top, last);
    ClosingIs(opts, top, |below|);
    EmitCloses(opts, g, isMap);
  }

  lemma SecondLast(states: seq<GenState>, below: seq<GenState>, top: GenState, last: GenState)
    requires states == below + [top] + [last]
    ensures |states| == |below| + 2 && states[|states| - 2] == top
  {
  }

  lemma EmitCloses(opts: Options, g: Printed, isMap: bool)
    requires g.states != [] && Legal(g, if isMap then EndMap else EndArray)
    ensures |g.states| > 1
    ensures var outer := After(g.states[|g.states| - 2]);
            Emit(opts, g, if isMap then EndMap else EndArray).out ==
            g.out + (Break(opts) + Whitespace(opts, outer, |g.states| - 2) + [if isMap then 0x7D else 0x5D]
                     + FinalNewline(opts, outer))
  {
    hide After, Break, Whitespace, FinalNewline;
  }

  lemma ClosingIs(opts: Options, top: GenState, n: nat)
    requires TakesValue(top)
    ensures Break(opts) == Eol(opts) && Whitespace(opts, After(top), n) == Margin(opts, n)
    ensures FinalNewline(opts, After(top)) == Behind(opts, top)
  {
    MarginIs(opts, n);
    hide Margin, Indent;
  }

  lemma Five(a: seq<byte>, b: seq<byte>, c: seq<byte>, d: seq<byte>, e: seq<byte>, f: seq<byte>, x: seq<byte>,
             y: seq<byte>)
    ensures a + b + c + x + (c + d + e + f) == a + (b + c + x + c + d + e) + f
  {
  }

  lemma ContainerWrites(opts: Options, g: Printed, isMap: bool, body: seq<Event>, last: GenState, text: seq<byte>)
    requires g.states != [] && TakesValue(g.Top()) && |g.states| < MAX_DEPTH
    requires if isMap then last.GenMapStart? || last.GenMapKey? else last.GenArrayStart? || last.GenInArray?
    requires Leads(opts, Emit(opts, g, if isMap then StartMap else StartArray), body, last)
    requires Writes(opts, Emit(opts, g, if isMap then StartMap else StartArray), body, text)
    ensures Writes(opts, g, [if isMap then StartMap else StartArray] + body + [if isMap then EndMap else EndArray],
                Before(opts, g.Top(), |g.states| - 1)
                + ([if isMap then 0x7B else 0x5B] + Eol(opts) + text + Eol(opts) + Margin(opts, |g.states| - 1)
                   + [if isMap then 0x7D else 0x5D])
                + Behind(opts, g.Top()))
  {
    var start, end := if isMap then StartMap else StartArray, if isMap then EndMap else EndArray;
    hide Emit, Call, Before, Behind, Margin, Eol, GenRun;
    var lead := Before(opts, g.Top(), |g.states| - 1) + [if isMap then 0x7B else 0x5B] + Eol(opts);
    var tail := Eol(opts) + Margin(opts, |g.states| - 1) + [if isMap then 0x7D else 0x5D] + Behind(opts, g.Top());
    OpenCall(opts, g, isMap);
    var inner := Emit(opts, g, start);
    assert inner.Below() == g.states == g.Below() + [g.Top()];
    OpenWrites(opts, g, isMap);
    WritesThen(opts, g, [start], lead, body, text);
    CloseWrites(opts, GenRun(opts, inner, body).value, isMap, g.Below(), g.Top(), last);
    GenConcat(opts, g, [start], body);
    WritesThen(opts, g, [start] + body, lead + text, [end], tail);
    Five(Before(opts, g.Top(), |g.states| - 1), [if isMap then 0x7B else 0x5B], Eol(opts),
        Margin(opts, |g.states| - 1), [if isMap then 0x7D else 0x5D], Behind(opts, g.Top()), text, []);
  }

  lemma {:induction false} ValueWrites(opts: Options, g: Printed, v: Json)
    requires g.states != [] && TakesValue(g.Top()) && |g.states| + Depth(v) <= MAX_DEPTH && Printable(v)
    ensures Writes(opts, g, Flatten(v),
                Before(opts, g.Top(), |g.states| - 1) + Layout(opts, |g.states| - 1, v) + Behind(opts, g.Top()))
    decreases v, 1
  {
    hide *;
    var n := |g.states| - 1;
    if v.JArray? {
      ArrayParts(opts, n, v);
      Opens(opts, g, false);
      GenItems(opts, Emit(opts, g, StartArray), v.items);
      ItemsWrite(opts, Emit(opts, g, StartArray), v.items);
      ContainerWrites(opts, g, false, FlattenItems(v.items), if v.items == [] then GenArrayStart else GenInArray,
          Lines(opts, n + 1, v.items));
    } else if v.JObject? {
      ObjectParts(opts, n, v);
      Opens(opts, g, true);
      GenMembers(opts, Emit(opts, g, StartMap), v.members);
      MembersWrite(opts, Emit(opts, g, StartMap), v.members);
      ContainerWrites(opts, g, true, FlattenMembers(v.members), if v.members == [] then GenMapStart else GenMapKey,
          Fields(opts, n + 1, v.members));
    } else {
      ScalarWrites(opts, g, v);
    }
  }

  lemma ArrayParts(opts: Options, n: nat, v: Json)
    requires v.JArray? && Printable(v)
    ensures Flatten(v) == [StartArray] + FlattenItems(v.items) + [EndArray]
    ensures Layout(opts, n, v) ==
            [0x5B] + Eol(opts) + Lines(opts, n + 1, v.items) + Eol(opts) + Margin(opts, n) + [0x5D]
    ensures Depth(v) == 1 + DepthItems(v.items) && PrintableItems(v.items)
  {
  }

  lemma ObjectParts(opts: Options, n: nat, v: Json)
    requires v.JObject? && Printable(v)
    ensures Flatten(v) == [StartMap] + FlattenMembers(v.members) + [EndMap]
    ensures Layout(opts, n, v) ==
            [0x7B] + Eol(opts) + Fields(opts, n + 1, v.members) + Eol(opts) + Margin(opts, n) + [0x7D]
    ensures Depth(v) == 1 + DepthMembers(v.members) && PrintableMembers(v.members)
  {
  }

  lemma Opens(opts: Options, g: Printed, isMap: bool)
    requires g.states != [] && TakesValue(g.Top()) && |g.states| < MAX_DEPTH
    ensures var e := if isMap then StartMap else StartArray;
            && Legal(g, e)
            && var inner := Emit(opts, g, e);
               && |inner.states| == |g.states| + 1
               && if isMap then inner.Top().GenMapStart? else inner.Top().GenArrayStart?
  {
    OpenCall(opts, g, isMap);
    hide Emit;
  }

  lemma {:induction false} ItemsWrite(opts: Options, g: Printed, items: seq<Json>)
    requires g.states != [] && g.Top().GenArrayStart? && |g.states| + DepthItems(items) <= MAX_DEPTH
    requires PrintableItems(items)
    ensures Writes(opts, g, FlattenItems(items), Lines(opts, |g.states| - 1, items))
    decreases items, 0
  {
    hide GenRun, Leads, Flatten, Printable, Depth, Margin, Writes, Layout;
    if items == [] {
      WritesNothing(opts, g);
    } else {
      var init, last, n := items[..|items| - 1], items[|items| - 1], |g.states| - 1;
      var top := if init == [] then GenArrayStart else GenInArray;
      GenItems(opts, g, init);
      LeadsTo(opts, g, FlattenItems(init), top);
      ItemsWrite(opts, g, init);
      var m := GenRun(opts, g, FlattenItems(init)).value;
      ValueWrites(opts, m, last);
      WritesThen(opts, g, FlattenItems(init), Lines(opts, n, init), Flatten(last),
          Before(opts, top, n) + Layout(opts, n, last) + []);
      ItemJoin(opts, n, init, last);
    }
  }

  lemma ItemJoin(opts: Options, n: nat, init: seq<Json>, last: Json)
    ensures Lines(opts, n, init)
            + (Before(opts, if init == [] then GenArrayStart else GenInArray, n) + Layout(opts, n, last) + [])
            == Lines(opts, n, init + [last])
  {
    assert (init + [last])[..|init + [last]| - 1] == init;
    hide Layout, Margin, Eol;
  }

  lemma FieldJoin(opts: Options, n: nat, init: seq<Member>, last: Member)
    ensures Fields(opts, n, init)
            + (Before(opts, if init == [] then GenMapStart else GenMapKey, n) + Marked(opts, last.key) + [])
            + (Before(opts, GenMapVal, n) + Layout(opts, n, last.value) + [])
            == Fields(opts, n, init + [last])
  {
    hide *;
    var sep := if init == [] then [] else [0x2C] + Eol(opts);
    var colon := if opts.beautify then [0x3A, 0x20] else [0x3A];
    FieldsNext(opts, n, init, last, sep, colon);
    Six(Fields(opts, n, init), sep, Margin(opts, n), Marked(opts, last.key), colon, Layout(opts, n, last.value));
  }

  lemma FieldsNext(opts: Options, n: nat, init: seq<Member>, last: Member, sep: seq<byte>, colon: seq<byte>)
    requires sep == if init == [] then [] else [0x2C] + Eol(opts)
    requires colon == if opts.beautify then [0x3A, 0x20] else [0x3A]
    ensures Fields(opts, n, init + [last]) ==
            Fields(opts, n, init) + sep + Margin(opts, n) + Marked(opts, last.key) + colon + Layout(opts, n, last.value)
    ensures Before(opts, if init == [] then GenMapStart else GenMapKey, n) == sep + Margin(opts, n)
    ensures Before(opts, GenMapVal, n) == colon
  {
    assert (init + [last])[..|init + [last]| - 1] == init;
    hide Layout, Margin, Eol, Marked;
    assert [] + Margin(opts, n) == Margin(opts, n);
  }

  lemma Six(a: seq<byte>, b: seq<byte>, c: seq<byte>, d: seq<byte>, e: seq<byte>, f: seq<byte>)
    ensures a + (b + c + d + []) + (e + f + []) == a + b + c + d + e + f
  {
  }

  lemma KeyWrites(opts: Options, g: Printed, key: seq<byte>)
    requires g.states != [] && (g.Top().GenMapStart? || g.Top().GenMapKey?) && JsonString.ValidFrom(0, key, 0)
    ensures Writes(opts, g, [MapKey(key)], Before(opts, g.Top(), |g.states| - 1) + Marked(opts, key) + [])
  {
    hide JsonString.Encode, JsonString.ValidFrom, Before, Writes;
    AtomWrites(opts, g, MapKey(key), Marked(opts, key));
  }

  lemma {:induction false} MembersWrite(opts: Options, g: Printed, members: seq<Member>)
    requires g.states != [] && g.Top().GenMapStart? && |g.states| + DepthMembers(members) <= MAX_DEPTH
    requires PrintableMembers(members)
    ensures Writes(opts, g, FlattenMembers(members), Fields(opts, |g.states| - 1, members))
    decreases members, 0
  {
    hide GenRun, Leads, Flatten, Printable, Depth, Emit, Call, Margin, Writes, Layout, Before;
    if members == [] {
      WritesNothing(opts, g);
    } else {
      var init, last, n := members[..|members| - 1], members[|members| - 1], |g.states| - 1;
      var top := if init == [] then GenMapStart else GenMapKey;
      GenMembers(opts, g, init);
      LeadsTo(opts, g, FlattenMembers(init), top);
      MembersWrite(opts, g, init);
      var m := GenRun(opts, g, FlattenMembers(init)).value;
      KeyLeads(opts, m, last.key);
      KeyWrites(opts, m, last.key);
      var head := FlattenMembers(init) + [MapKey(last.key)];
      var x, y := Before(opts, top, n) + Marked(opts, last.key) + [],
                  Before(opts, GenMapVal, n) + Layout(opts, n, last.value) + [];
      WritesThen(opts, g, FlattenMembers(init), Fields(opts, n, init), [MapKey(last.key)], x);
      LeadsThen(opts, g, FlattenMembers(init), top, [MapKey(last.key)], GenMapVal);
      LeadsTo(opts, g, head, GenMapVal);
      ValueWrites(opts, GenRun(opts, g, head).value, last.value);
      WritesThen(opts, g, head, Fields(opts, n, init) + x, Flatten(last.value), y);
      FieldJoin(opts, n, init, last);
    }
  }

  /** A value that can be printed is laid out as the printer lays it out, and a final line break where the text is to
      be beautiful. */
  lemma LaidOutAs(opts: Options, v: Json)
    requires Printable(v) && Depth(v) < 128
    ensures var r := GenRun(opts, BLANK, Flatten(v));
            r.Some? && r.value.out == Layout(opts, 0, v) + (if opts.beautify then [0x0A] else [])
  {
    ValueWrites(opts, BLANK, v);
    hide GenRun, Layout;
    assert [] + Layout(opts, 0, v) == Layout(opts, 0, v);
  }
}
