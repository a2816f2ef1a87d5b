/** How the generator of deps/yajl/src/yajl_gen.c answers a call, told from the calls before it and not from its
    states. */
module GenAnswers {
  import opened JsonParse
  import opened JsonTree
  import JsonString
  import opened YajlGen
  import opened PrintParse

  /** A whole value has been printed: something has, and nothing is open. */
  predicate Whole(calls: seq<Event>) { calls != [] && OpenContainers(calls) == [] }

  predicate Innermost(calls: seq<Event>, isMap: bool) {
    var open := OpenContainers(calls);
    open != [] && open[|open| - 1] == isMap
  }

  /** A map is the innermost open container, and the last call was not for a key. */
  predicate KeyDue(calls: seq<Event>) { calls != [] && Innermost(calls, true) && !calls[|calls| - 1].MapKey? }

  predicate MapLevel(s: GenState) { s.GenMapStart? || s.GenMapKey? || s.GenMapVal? }

  predicate ArrayLevel(s: GenState) { s.GenArrayStart? || s.GenInArray? }

  /** What the states tell about the calls that led to them. */
  predicate Tells(states: seq<GenState>, calls: seq<Event>) {
    var open := OpenContainers(calls);
    && |states| == |open| + 1
    && states[0] == (if Whole(calls) then GenComplete else GenStart)
    && (forall i :: 0 < i < |states| ==> if open[i - 1] then MapLevel(states[i]) else ArrayLevel(states[i]))
    && (forall i :: 0 < i < |states| - 1 ==> states[i].GenMapVal? || ArrayLevel(states[i]))
    && (open != [] ==> calls != [] && (states[|open|].GenMapVal? <==> calls[|calls| - 1].MapKey?))
  }

  lemma AtomTells(g: Printed, calls: seq<Event>, e: Event)
    requires g.states != [] && Tells(g.states, calls) && !g.Top().GenComplete? && IsAtom(e) && Legal(g, e)
    requires !e.String? && !e.MapKey? ==> !g.Top().GenMapKey? && !g.Top().GenMapStart?
    ensures Tells(g.Below() + [After(g.Top())], calls + [e])
  {
    OpenAfter(calls, e);
    hide OpenContainers;
  }

  lemma OpenTells(g: Printed, calls: seq<Event>, isMap: bool)
    requires g.states != [] && Tells(g.states, calls) && !g.Top().GenComplete?
    requires !g.Top().GenMapKey? && !g.Top().GenMapStart?
    ensures var e, s := if isMap then StartMap else StartArray, if isMap then GenMapStart else GenArrayStart;
            Tells(g.states + [s], calls + [e])
  {
    OpenAfter(calls, if isMap then StartMap else StartArray);
    hide OpenContainers;
  }

  lemma CloseTells(g: Printed, calls: seq<Event>, isMap: bool)
    requires g.states != [] && Tells(g.states, calls) && Legal(g, if isMap then EndMap else EndArray)
    ensures |g.states| > 1
    ensures Tells(g.states[..|g.states| - 2] + [After(g.states[|g.states| - 2])],
                calls + [if isMap then EndMap else EndArray])
  {
    OpenAfter(calls, if isMap then EndMap else EndArray);
    hide OpenContainers;
  }

  lemma CallTells(opts: Options, g: Printed, calls: seq<Event>, e: Event)
    requires g.states != [] && Tells(g.states, calls) && Call(opts, g, e)
    ensures Tells(Emit(opts, g, e).states, calls + [e])
  {
    hide Tells, Lead, Body, FinalNewline, Break, Whitespace, JsonString.ValidFrom, Wellformed;
    if IsAtom(e) {
      AtomTells(g, calls, e);
    } else if e.StartMap? || e.StartArray? {
      OpenTells(g, calls, e.StartMap?);
    } else {
      CloseTells(g, calls, e.EndMap?);
    }
  }

  lemma {:induction false} RunTells(opts: Options, calls: seq<Event>)
    requires GenRun(opts, BLANK, calls).Some?
    ensures Tells(GenRun(opts, BLANK, calls).value.states, calls)
  {
    if calls != [] {
      var init, last := calls[..|calls| - 1], calls[|calls| - 1];
      hide Tells, Call, Emit;
      RunTells(opts, init);
      CallTells(opts, GenRun(opts, BLANK, init).value, init, last);
      assert init + [last] == calls;
    }
  }

  /** After any calls that succeeded, the answer to the next: a string that is no UTF-8 is refused first, where that is
      checked; behind a whole value everything is; then what is no string where a key is due; and the 128th
      container. */
  lemma AnswersTo(opts: Options, calls: seq<Event>, e: Event)
    requires GenRun(opts, BLANK, calls).Some?
    ensures StatusOf(opts, GenRun(opts, BLANK, calls).value, e) ==
            if (e.String? || e.MapKey?) && opts.validateUtf8 && !JsonString.ValidFrom(0, e.text, 0) then InvalidString
            else if Whole(calls) then GenerationComplete
            else if KeyDue(calls) && e in {Null, Boolean(true), Boolean(false), StartMap, StartArray} then
              KeysMustBeStrings
            else if KeyDue(calls) && e.Number? then KeysMustBeStrings
            else if e in {StartMap, StartArray} && |OpenContainers(calls)| >= 127 then MaxDepthExceeded
            else GenOk
  {
    RunTells(opts, calls);
    hide GenRun, OpenContainers, JsonString.ValidFrom;
  }

  /** A caller closes the innermost container, a map not behind a key, and says key for what stands where one is due. */
  lemma LegalIs(opts: Options, calls: seq<Event>, e: Event)
    requires GenRun(opts, BLANK, calls).Some?
    ensures Legal(GenRun(opts, BLANK, calls).value, e) <==>
            && (e.EndMap? || e.MapKey? ==> KeyDue(calls))
            && (e.String? ==> !KeyDue(calls))
            && (e.EndArray? ==> Innermost(calls, false))
  {
    RunTells(opts, calls);
    hide GenRun, OpenContainers;
  }
}
