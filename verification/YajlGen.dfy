/** The generator of deps/yajl/src/yajl_gen.c. */
module YajlGen {
  import opened Bytes
  import opened JsonParse
  import JsonLex
  import Rfc8259
  import JsonString

  datatype GenState =
    | GenStart | GenMapStart | GenMapKey | GenMapVal | GenArrayStart | GenInArray | GenComplete | GenError

  datatype GenStatus =
    | GenOk | KeysMustBeStrings | MaxDepthExceeded | InErrorState | GenerationComplete | InvalidString

  datatype Options = Options(beautify: bool, validateUtf8: bool, escapeSolidus: bool, indent: seq<byte>)

  const MAX_DEPTH: nat := 128

  /** yajl_gen_config accepts no other indentation. */
  predicate ValidOptions(opts: Options) { forall c :: c in opts.indent ==> Rfc8259.IsWhite(c) }

  /** The states of the levels from the outermost to the current one, and what has been printed. */
  datatype Printed = Printed(states: seq<GenState>, out: seq<byte>) {
    function Top(): GenState
      requires states != []
    {
      states[|states| - 1]
    }

    function Below(): seq<GenState>
      requires states != []
    {
      states[..|states| - 1]
    }

    function Print(text: seq<byte>): Printed { Printed(states, out + text) }
  }

  const BLANK: Printed := Printed([GenStart], [])

  const NEWLINE: seq<byte> := [LF]

  // ---------------------------------------------------------------- the macros

  /** INSERT_SEP */
  function Separator(opts: Options, s: GenState): seq<byte> {
    if s.GenMapKey? || s.GenInArray? then if opts.beautify then [COMMA, LF] else [COMMA]
    else if s.GenMapVal? then if opts.beautify then [COLON, SPACE] else [COLON]
    else []
  }

  function Indent(opts: Options, depth: nat): seq<byte> {
    if depth == 0 then [] else Indent(opts, depth - 1) + opts.indent
  }

  lemma NoIndent(opts: Options, out: seq<byte>)
    ensures out + Indent(opts, 0) == out == out + []
  {
  }

  lemma MoreIndent(opts: Options, out: seq<byte>, depth: nat)
    ensures out + Indent(opts, depth) + opts.indent == out + Indent(opts, depth + 1)
  {
  }

  /** INSERT_WHITESPACE */
  function Whitespace(opts: Options, s: GenState, depth: nat): seq<byte> {
    if opts.beautify && !s.GenMapVal? then Indent(opts, depth) else []
  }

  /** APPENDED_ATOM */
  function After(s: GenState): GenState {
    match s
    case GenStart => GenComplete
    case GenMapStart => GenMapVal
    case GenMapKey => GenMapVal
    case GenArrayStart => GenInArray
    case GenMapVal => GenMapKey
    case _ => s
  }

  function Break(opts: Options): seq<byte> { if opts.beautify then NEWLINE else [] }

  /** FINAL_NEWLINE */
  function FinalNewline(opts: Options, s: GenState): seq<byte> { if s.GenComplete? then Break(opts) else [] }

  /** ENSURE_VALID_STATE */
  function Refusal(s: GenState): GenStatus {
    if s.GenError? then InErrorState else if s.GenComplete? then GenerationComplete else GenOk
  }

  // ---------------------------------------------------------------- the emitters

  function Lead(opts: Options, g: Printed): seq<byte>
    requires g.states != []
  {
    Separator(opts, g.Top()) + Whitespace(opts, g.Top(), |g.states| - 1)
  }

  function Atom(opts: Options, g: Printed, body: seq<byte>): Printed
    requires g.states != []
  {
    Printed(g.Below() + [After(g.Top())], g.out + (Lead(opts, g) + body + FinalNewline(opts, After(g.Top()))))
  }

  function OpenLevel(opts: Options, g: Printed, bracket: byte, inner: GenState): Printed
    requires g.states != []
  {
    Printed(g.states + [inner], g.out + (Lead(opts, g) + [bracket] + Break(opts)))
  }

  function CloseLevel(opts: Options, g: Printed, bracket: byte): Printed
    requires |g.states| > 1
  {
    var outer := After(g.states[|g.states| - 2]);
    Printed(g.states[..|g.states| - 2] + [outer],
            g.out + (Break(opts) + Whitespace(opts, outer, |g.states| - 2) + [bracket] + FinalNewline(opts, outer)))
  }

  function Quoted(opts: Options, text: seq<byte>): seq<byte> {
    [QUOTE] + JsonString.Encode(text, 0, opts.escapeSolidus) + [QUOTE]
  }

  /** The caller closes only what is open, never between a key and its value, and says which strings are keys. */
  predicate Legal(g: Printed, e: Event)
    requires g.states != []
  {
    match e
    case EndMap => |g.states| > 1 && (g.Top().GenMapStart? || g.Top().GenMapKey?)
    case EndArray => |g.states| > 1 && (g.Top().GenArrayStart? || g.Top().GenInArray?)
    case MapKey(_) => g.Top().GenMapStart? || g.Top().GenMapKey?
    case String(_) => !g.Top().GenMapStart? && !g.Top().GenMapKey?
    case _ => true
  }

  /** The status of a call. */
  function StatusOf(opts: Options, g: Printed, e: Event): GenStatus
    requires g.states != []
  {
    if (e.String? || e.MapKey?) && opts.validateUtf8 && !JsonString.ValidFrom(0, e.text, 0) then InvalidString
    else if Refusal(g.Top()) != GenOk then Refusal(g.Top())
    else if !e.String? && !e.MapKey? && !e.EndMap? && !e.EndArray? && (g.Top().GenMapKey? || g.Top().GenMapStart?)
        then KeysMustBeStrings
    else if (e.StartMap? || e.StartArray?) && |g.states| >= MAX_DEPTH then MaxDepthExceeded
    else GenOk
  }

  /** A call that prints a whole value or a key. */
  predicate IsAtom(e: Event) { !e.StartMap? && !e.StartArray? && !e.EndMap? && !e.EndArray? }

  function Body(opts: Options, e: Event): seq<byte>
    requires IsAtom(e)
  {
    match e
    case Null => JsonLex.NULL_TEXT
    case Boolean(b) => if b then JsonLex.TRUE_TEXT else JsonLex.FALSE_TEXT
    case Number(text) => text
    case String(text) => Quoted(opts, text)
    case MapKey(text) => Quoted(opts, text)
  }

  /** The effect of a call that succeeds. */
  function Emit(opts: Options, g: Printed, e: Event): (r: Printed)
    requires g.states != [] && Legal(g, e)
    ensures r.states != []
  {
    match e
    case StartMap => OpenLevel(opts, g, LBRACE, GenMapStart)
    case StartArray => OpenLevel(opts, g, LBRACKET, GenArrayStart)
    case EndMap => CloseLevel(opts, g, RBRACE)
    case EndArray => CloseLevel(opts, g, RBRACKET)
    case _ => Atom(opts, g, Body(opts, e))
  }

  lemma Join(out: seq<byte>, a: seq<byte>, b: seq<byte>, c: seq<byte>, d: seq<byte>)
    ensures out + a + b + c + d == out + (a + b + c + d)
    ensures out + a + b + c + d + [] == out + a + b + c + d
  {
  }

  /** What an opening call prints, piece by piece. */
  lemma OpenIs(opts: Options, g: Printed, isMap: bool)
    requires g.states != [] && Refusal(g.Top()) == GenOk && !g.Top().GenMapKey? && !g.Top().GenMapStart?
    ensures var e, inner, bracket := if isMap then StartMap
              else StartArray, if isMap then GenMapStart else GenArrayStart,
                                     if isMap then LBRACE else LBRACKET;
            && StatusOf(opts, g, e) == (if |g.states| >= MAX_DEPTH then MaxDepthExceeded else GenOk)
            && Emit(opts, g, e) ==
               Printed(g.states + [inner], g.out + Separator(opts, g.Top()) + Whitespace(opts, g.Top(), |g.states| - 1)
                                           + [bracket] + Break(opts))
  {
    hide Whitespace, Separator, Break;
    Join(g.out, Separator(opts, g.Top()), Whitespace(opts, g.Top(), |g.states| - 1),
         [if isMap then LBRACE else LBRACKET], Break(opts));
  }

  // ---------------------------------------------------------------- the object

  /** What an unsigned depth of zero is counted down to. */
  const WRAPPED: nat := 0xFFFF_FFFF

  class Gen {
    const opts: Options
    const state: array<GenState>
    var depth: nat
    var out: seq<byte>

    constructor (opts: Options)
      ensures this.opts == opts && Valid() && View() == BLANK && fresh(state)
    {
      this.opts, depth, out := opts, 0, [];
      state := new GenState[MAX_DEPTH](_ => GenStart);
    }

    ghost predicate Valid()
      reads this
    {
      state.Length == MAX_DEPTH && depth < MAX_DEPTH
    }

    ghost function View(): (g: Printed)
      requires Valid()
      reads this, state
      ensures |g.states| == depth + 1 && g.Top() == state[depth]
    {
      Printed(state[..depth + 1], out)
    }

    method Print(text: seq<byte>)
      requires Valid()
      modifies this`out
      ensures View() == old(View()).Print(text)
    {
      out := out + text;
    }

    method InsertSep()
      requires Valid()
      modifies this`out
      ensures View() == old(View()).Print(Separator(opts, old(View()).Top()))
    {
      if state[depth] == GenMapKey || state[depth] == GenInArray {
        Print([COMMA]);
        if opts.beautify { Print([LF]); }
      } else if state[depth] == GenMapVal {
        Print([COLON]);
        if opts.beautify { Print([SPACE]); }
      }
    }

    method InsertWhitespace()
      requires Valid()
      modifies this`out
      ensures View() == old(View()).Print(Whitespace(opts, old(View()).Top(), depth))
    {
      ghost var before := View();
      NoIndent(opts, before.out);
      if opts.beautify && state[depth] != GenMapVal {
        for i := 0 to depth
          invariant View() == Printed(before.states, before.out + Indent(opts, i))
        {
          MoreIndent(opts, before.out, i);
          hide Indent, View;
          Print(opts.indent);
        }
      }
    }

    method AppendedAtom()
      requires Valid()
      modifies state
      ensures View() == Printed(old(View()).Below() + [After(old(View()).Top())], old(View()).out)
    {
      match state[depth]
      case GenStart => state[depth] := GenComplete;
      case GenMapStart => state[depth] := GenMapVal;
      case GenMapKey => state[depth] := GenMapVal;
      case GenArrayStart => state[depth] := GenInArray;
      case GenMapVal => state[depth] := GenMapKey;
      case _ =>
      assert state[..depth + 1] == old(state[..depth]) + [state[depth]];
    }

    method FinalNewLine()
      requires Valid()
      modifies this`out
      ensures View() == old(View()).Print(FinalNewline(opts, old(View()).Top()))
    {
      if opts.beautify && state[depth] == GenComplete { Print([LF]); }
    }

    function Check(isKey: bool): GenStatus
      requires Valid()
      reads this, state
    {
      if state[depth] == GenError then InErrorState
      else if state[depth] == GenComplete then GenerationComplete
      else if !isKey && (state[depth] == GenMapKey || state[depth] == GenMapStart) then KeysMustBeStrings
      else GenOk
    }

    /** The common body of the emitters of whole values. */
    method EmitAtom(body: seq<byte>)
      requires Valid()
      modifies this`out, state
      ensures View() == Atom(opts, old(View()), body)
    {
      hide Whitespace, Separator, After, FinalNewline, View;
      ghost var before := View();
      Join(before.out, Separator(opts, before.Top()), Whitespace(opts, before.Top(), depth), body,
          FinalNewline(opts, After(before.Top())));
      InsertSep();
      InsertWhitespace();
      Print(body);
      AppendedAtom();
      assert View().Top() == After(before.Top());
      FinalNewLine();
    }

    method Number(s: seq<byte>) returns (status: GenStatus)
      requires Valid()
      modifies this`out, state
      ensures status == StatusOf(opts, old(View()), JsonParse.Number(s))
      ensures View() == if status == GenOk then Emit(opts, old(View()), JsonParse.Number(s)) else old(View())
    {
      status := Check(false);
      if status == GenOk { EmitAtom(s); }
    }

    method Null() returns (status: GenStatus)
      requires Valid()
      modifies this`out, state
      ensures status == StatusOf(opts, old(View()), JsonParse.Null)
      ensures View() == if status == GenOk then Emit(opts, old(View()), JsonParse.Null) else old(View())
    {
      status := Check(false);
      if status == GenOk { EmitAtom(JsonLex.NULL_TEXT); }
    }

    method Bool(b: bool) returns (status: GenStatus)
      requires Valid()
      modifies this`out, state
      ensures status == StatusOf(opts, old(View()), JsonParse.Boolean(b))
      ensures View() == if status == GenOk then Emit(opts, old(View()), JsonParse.Boolean(b)) else old(View())
    {
      status := Check(false);
      if status == GenOk { EmitAtom(if b then JsonLex.TRUE_TEXT else JsonLex.FALSE_TEXT); }
    }

    /** yajl_gen_string, for keys and values alike. */
    method String(text: seq<byte>) returns (status: GenStatus)
      requires Valid()
      modifies this`out, state
      ensures status == StatusOf(opts, old(View()), JsonParse.String(text))
      ensures status == GenOk ==> View() == Atom(opts, old(View()), Quoted(opts, text))
      ensures status != GenOk ==> View() == old(View())
    {
      if opts.validateUtf8 {
        var ok := JsonString.ValidateUtf8(text);
        if !ok { return InvalidString; }
      }
      status := Check(true);
      if status == GenOk {
        var encoded := JsonString.StringEncode(text, opts.escapeSolidus);
        EmitAtom([QUOTE] + encoded + [QUOTE]);
      }
    }

    /** INCREMENT_DEPTH, within the limit, and the state of the new level. */
    method EnterLevel(inner: GenState)
      requires Valid() && depth + 1 < MAX_DEPTH
      modifies this`depth, state
      ensures Valid() && View() == Printed(old(View()).states + [inner], old(View()).out)
    {
      depth := depth + 1;
      state[depth] := inner;
      assert state[..depth] == old(View()).states;
    }

    /** DECREMENT_DEPTH, above the outermost level. */
    method LeaveLevel()
      requires Valid() && depth > 0
      modifies this`depth
      ensures Valid() && depth == old(depth) - 1 && View() == Printed(old(View()).Below(), old(View()).out)
    {
      depth := depth - 1;
    }

    /** yajl_gen_map_open and yajl_gen_array_open; past the depth limit the object must not be used again. */
    method Open(isMap: bool) returns (status: GenStatus)
      requires Valid()
      modifies this`out, this`depth, state
      ensures status == StatusOf(opts, old(View()), if isMap then StartMap else StartArray)
      ensures status == GenOk ==> Valid() && View() == Emit(opts, old(View()), if isMap then StartMap else StartArray)
      ensures status == MaxDepthExceeded ==> depth == MAX_DEPTH
      ensures status != GenOk && status != MaxDepthExceeded ==> Valid() && View() == old(View())
    {
      status := Check(false);
      if status != GenOk { return; }
      ghost var before := View();
      OpenIs(opts, before, isMap);
      hide Whitespace, Separator, Break, View, Emit, StatusOf;
      InsertSep();
      InsertWhitespace();
      if depth + 1 >= MAX_DEPTH {
        depth := depth + 1;
        return MaxDepthExceeded;
      }
      EnterLevel(if isMap then GenMapStart else GenArrayStart);
      Print([if isMap then LBRACE else LBRACKET]);
      Print(Break(opts));
      FinalNewLine();
    }

    /** yajl_gen_map_close and yajl_gen_array_close. When nothing is open the unsigned depth wraps around, which is
        taken for a complete value, and the object must not be used again. */
    method Close(isMap: bool) returns (status: GenStatus)
      requires Valid()
      modifies this`out, this`depth, state
      ensures var refusal := Refusal(old(View()).Top());
              if refusal != GenOk then status == refusal && Valid() && View() == old(View())
              else if old(depth) > 0 then
                status == GenOk && Valid()
                    && View() == CloseLevel(opts, old(View()), if isMap then RBRACE else RBRACKET)
              else
                && status == GenerationComplete && depth == 0xFFFF_FFFF
                && out == old(out) && state[..] == old(state[..])
    {
      if state[depth] == GenError {
        return InErrorState;
      } else if state[depth] == GenComplete {
        return GenerationComplete;
      }
      if depth == 0 {
        depth := WRAPPED;
        return GenerationComplete;
      }
      hide Whitespace, After, Break, View;
      ghost var before := View();
      ghost var outer := After(before.states[depth - 1]);
      Join(before.out, Break(opts), Whitespace(opts, outer, depth - 1), [if isMap then RBRACE else RBRACKET],
          FinalNewline(opts, outer));
      LeaveLevel();
      Print(Break(opts));
      assert View().Below() == before.states[..depth];
      AppendedAtom();
      assert View().Top() == outer;
      InsertWhitespace();
      Print([if isMap then RBRACE else RBRACKET]);
      FinalNewLine();
      return GenOk;
    }
  }
}
