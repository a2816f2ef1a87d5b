/** How deep the generator goes, and the way from a value through its text back to the value. */
module PrintLimits {
  import opened Bytes
  import opened Optional
  import opened JsonParse
  import opened JsonTree
  import opened YajlGen
  import opened PrintParse
  import opened TreeStrings

  lemma StopsIn(opts: Options, g: Printed, a: seq<Event>, b: seq<Event>)
    requires g.states != []
    requires GenRun(opts, g, a).None? || GenRun(opts, GenRun(opts, g, a).value, b).None?
    ensures GenRun(opts, g, a + b).None?
  {
    GenConcat(opts, g, a, b);
    hide GenRun;
  }

  /** A container at the limit, or one whose body goes past it. */
  lemma ContainerStops(opts: Options, g: Printed, isMap: bool, body: seq<Event>)
    requires g.states != [] && TakesValue(g.Top())
    requires var start := if isMap then StartMap else StartArray;
             |g.states| == MAX_DEPTH || (|g.states| < MAX_DEPTH && GenRun(opts, Emit(opts, g, start), body).None?)
    ensures GenRun(opts, g, [if isMap then StartMap else StartArray] + body
              + [if isMap then EndMap else EndArray]).None?
  {
    var start := if isMap then StartMap else StartArray;
    assert Call(opts, g, start) ==> |g.states| < MAX_DEPTH;
    hide GenRun, Call, Emit;
    GenSingle(opts, g, start);
    StopsIn(opts, g, [start], body);
    StopsIn(opts, g, [start] + body, [if isMap then EndMap else EndArray]);
  }

  lemma {:induction false} ValueStops(opts: Options, g: Printed, v: Json)
    requires g.states != [] && TakesValue(g.Top()) && Printable(v) && |g.states| <= MAX_DEPTH < |g.states| + Depth(v)
    ensures GenRun(opts, g, Flatten(v)).None?
    decreases v, 1
  {
    hide GenRun, Call;
    if v.JArray? {
      if |g.states| < MAX_DEPTH {
        OpenCall(opts, g, false);
        hide Emit;
        ItemsStop(opts, Emit(opts, g, StartArray), v.items);
      }
      ContainerStops(opts, g, false, FlattenItems(v.items));
    } else {
      if |g.states| < MAX_DEPTH {
        OpenCall(opts, g, true);
        hide Emit;
        MembersStop(opts, Emit(opts, g, StartMap), v.members);
      }
      ContainerStops(opts, g, true, FlattenMembers(v.members));
    }
  }

  lemma {:induction false} ItemsStop(opts: Options, g: Printed, items: seq<Json>)
    requires g.states != [] && g.Top().GenArrayStart? && PrintableItems(items)
    requires |g.states| <= MAX_DEPTH < |g.states| + DepthItems(items)
    ensures GenRun(opts, g, FlattenItems(items)).None?
    decreases items, 0
  {
    hide GenRun, Leads, Flatten, Printable, Depth;
    var init, last := items[..|items| - 1], items[|items| - 1];
    if |g.states| + DepthItems(init) > MAX_DEPTH {
      ItemsStop(opts, g, init);
    } else {
      var top := if init == [] then GenArrayStart else GenInArray;
      GenItems(opts, g, init);
      LeadsTo(opts, g, FlattenItems(init), top);
      ValueStops(opts, GenRun(opts, g, FlattenItems(init)).value, last);
    }
    StopsIn(opts, g, FlattenItems(init), Flatten(last));
  }

  lemma {:induction false} MembersStop(opts: Options, g: Printed, members: seq<Member>)
    requires g.states != [] && g.Top().GenMapStart? && PrintableMembers(members)
    requires |g.states| <= MAX_DEPTH < |g.states| + DepthMembers(members)
    ensures GenRun(opts, g, FlattenMembers(members)).None?
    decreases members, 0
  {
    hide GenRun, Leads, Flatten, Printable, Depth, Emit, Call;
    var init, last := members[..|members| - 1], members[|members| - 1];
    if |g.states| + DepthMembers(init) > MAX_DEPTH {
      MembersStop(opts, g, init);
      StopsIn(opts, g, FlattenMembers(init), [MapKey(last.key)]);
    } else {
      var top := if init == [] then GenMapStart else GenMapKey;
      GenMembers(opts, g, init);
      LeadsTo(opts, g, FlattenMembers(init), top);
      KeyLeads(opts, GenRun(opts, g, FlattenMembers(init)).value, last.key);
      LeadsThen(opts, g, FlattenMembers(init), top, [MapKey(last.key)], GenMapVal);
      LeadsTo(opts, g, FlattenMembers(init) + [MapKey(last.key)], GenMapVal);
      ValueStops(opts, GenRun(opts, g, FlattenMembers(init) + [MapKey(last.key)]).value, last.value);
    }
    StopsIn(opts, g, FlattenMembers(init) + [MapKey(last.key)], Flatten(last.value));
  }

  /** A value that can be printed at all is printed exactly when it is at most 127 containers deep. */
  lemma PrintsUpToTheLimit(opts: Options, v: Json)
    requires Printable(v)
    ensures GenRun(opts, BLANK, Flatten(v)).Some? <==> Depth(v) < 128
  {
    if Depth(v) < MAX_DEPTH {
      GenValue(opts, BLANK, v);
    } else {
      ValueStops(opts, BLANK, v);
    }
  }

  /** Printing a value, parsing the text in any chunks and building the tree from the callbacks gives the value, each
      text up to its first NUL: the value itself if and only if it has none. */
  lemma PrintThenBuild(opts: Options, flags: Flags, v: Json, chunks: seq<seq<byte>>)
    requires ValidOptions(opts) && Printable(v) && Depth(v) < 128
    requires GenRun(opts, BLANK, Flatten(v)).Some? ==> Concat(chunks) == GenRun(opts, BLANK, Flatten(v)).value.out
    ensures Run(flags, chunks).1 == Ok
    ensures Build(EMPTY, HeardAll(Run(flags, chunks).0)) == Some(Ctx(Bottom, Some(Truncated(v))))
    ensures Build(EMPTY, HeardAll(Run(flags, chunks).0)) == Some(Ctx(Bottom, Some(v))) <==> NulFree(v)
  {
    PrintThenParse(opts, flags, v, chunks);
    TreeOf(v);
    hide GenRun, Run, Flatten, HeardAll, Build, Truncated;
  }
}
