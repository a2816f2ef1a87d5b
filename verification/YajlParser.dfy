/** The parser handle of deps/yajl/src/yajl_parser.c. Callbacks are recorded in trace. */
module YajlParser {
  import opened Bytes
  import opened Optional
  import opened JsonLex
  import opened JsonParse
  import JsonString
  import opened YajlLexer

  class Parser {
    const flags: Flags
    const lexer: Lexer
    var stateStack: seq<State>
    var trace: seq<Event>
    var bytesConsumed: nat

    constructor (flags: Flags)
      ensures this.flags == flags && Valid() && fresh(lexer)
      ensures State() == FRESH
    {
      this.flags := flags;
      lexer := new Lexer(flags.allowComments, !flags.dontValidateStrings);
      stateStack, trace, bytesConsumed := [StartState], [], 0;
    }

    /** The byte stack with its top apart. */
    ghost function View(): Core
      requires stateStack != []
      reads this`stateStack, this`trace
    {
      Core(stateStack[..|stateStack| - 1], stateStack[|stateStack| - 1], trace)
    }

    ghost function State(): Handle
      requires stateStack != []
      reads this, lexer
    {
      Handle(View(), lexer.Pending())
    }

    ghost predicate Valid()
      reads this, lexer
    {
      && stateStack != [] && lexer.cfg == LexConfig(flags) && lexer.Idle() && Stacked(View())
      && (Deaf(flags, Current()) ==> lexer.Pending() == [])
    }

    /** yajl_bs_current */
    function Current(): State
      requires stateStack != []
      reads this
    {
      stateStack[|stateStack| - 1]
    }

    /** yajl_bs_set */
    method Set(s: State)
      requires stateStack != []
      modifies this`stateStack
      ensures stateStack != [] && View() == old(View()).Set(s)
    {
      stateStack := stateStack[..|stateStack| - 1] + [s];
    }

    /** yajl_bs_push */
    method Push(s: State)
      requires stateStack != []
      modifies this`stateStack
      ensures stateStack != [] && View() == old(View()).Push(s)
    {
      stateStack := stateStack + [s];
      assert stateStack[..|stateStack| - 1] == old(stateStack)[..|old(stateStack)| - 1] + [old(Current())];
    }

    /** yajl_bs_pop */
    method Pop()
      requires |stateStack| > 1
      modifies this`stateStack
      ensures stateStack != [] && View() == old(View()).Pop()
    {
      stateStack := stateStack[..|stateStack| - 1];
    }

    method Fail(off: nat)
      requires stateStack != []
      modifies this`stateStack, this`bytesConsumed
      ensures stateStack != [] && View() == old(View()).Set(ParseError)
    {
      Set(ParseError);
      bytesConsumed := off;
    }

    /** The callback for a token that is a whole value, a string with escapes apart. */
    method ScalarEvent(kind: Kind, buf: seq<byte>) returns (e: Event)
      requires kind.Text? || kind.BoolTok? || kind.NullTok? || kind.Integer? || kind.Double?
      ensures e == match kind
                   case Text => String(buf)
                   case BoolTok => Boolean(buf != [] && buf[0] == 0x74)
                   case NullTok => Null
                   case _ => Number(buf)
    {
      if kind == Text {
        return String(buf);
      } else if kind == BoolTok {
        return Boolean(buf != [] && buf[0] == 0x74);
      } else if kind == NullTok {
        return Null;
      }
      return Number(buf);
    }

    /** A token where a value may stand. */
    method TakeValue(kind: Kind, buf: seq<byte>, off: nat)
      requires stateStack != [] && Stacked(View()) && WantsValue(Current())
      modifies this`stateStack, this`trace, this`bytesConsumed
      ensures stateStack != [] && View() == OnValue(old(View()), kind, buf)
    {
      hide LowOk, JsonString.Decode, Fits;
      NextStacks(View());
      var push := StartState;
      if kind == CloseArray && Current().ArrayStart? {
        trace := trace + [EndArray];
        Pop();
        return;
      } else if kind == OpenMap {
        trace, push := trace + [StartMap], MapStart;
      } else if kind == OpenArray {
        trace, push := trace + [StartArray], ArrayStart;
      } else if kind == Kind.Colon || kind == Kind.Comma || kind == CloseMap || kind == CloseArray {
        Fail(off);
        return;
      } else if kind == EscapedText {
        var decoded := JsonString.StringDecode(buf);
        if decoded.None? {
          Set(Halted);
          return;
        }
        trace := trace + [String(decoded.value)];
      } else {
        var e := ScalarEvent(kind, buf);
        trace := trace + [e];
      }
      ValueDone();
      if push != StartState {
        Push(push);
      }
    }

    /** A value at this level is complete, or has been opened. */
    method ValueDone()
      requires stateStack != [] && WantsValue(Current())
      modifies this`stateStack
      ensures stateStack != [] && View() == old(View()).Set(AfterValue(old(View()).top))
    {
      if Current().StartState? || Current().GotValue? {
        Set(ParseComplete);
      } else if Current().MapNeedVal? {
        Set(MapGotVal);
      } else {
        Set(ArrayGotVal);
      }
    }

    /** A token where a key may stand. */
    method TakeKey(kind: Kind, buf: seq<byte>, off: nat)
      requires stateStack != [] && Stacked(View()) && (Current().MapStart? || Current().MapNeedKey?)
      modifies this`stateStack, this`trace, this`bytesConsumed
      ensures stateStack != [] && View() == OnKey(old(View()), kind, buf)
    {
      if kind == Text || kind == EscapedText {
        var key := buf;
        if kind == EscapedText {
          var decoded := JsonString.StringDecode(buf);
          if decoded.None? {
            Set(Halted);
            return;
          }
          key := decoded.value;
        }
        trace := trace + [MapKey(key)];
        Set(MapSep);
      } else if kind == CloseMap && Current().MapStart? {
        trace := trace + [EndMap];
        Pop();
      } else {
        Fail(off);
      }
    }

    /** One pass of the switch of yajl_do_parse, for a token that was found. */
    method Take(kind: Kind, buf: seq<byte>, off: nat)
      requires stateStack != [] && Stacked(View()) && !Failed(Current())
      modifies this`stateStack, this`trace, this`bytesConsumed
      ensures stateStack != [] && View() == Advance(old(View()), kind, buf)
    {
      if Current().ParseComplete? {
        Fail(off);
      } else if Current().MapStart? || Current().MapNeedKey? {
        TakeKey(kind, buf, off);
      } else if Current().MapSep? {
        if kind == Kind.Colon { Set(MapNeedVal); } else { Fail(off); }
      } else if Current().MapGotVal? {
        if kind == CloseMap {
          trace := trace + [EndMap];
          Pop();
        } else if kind == Kind.Comma {
          Set(MapNeedKey);
        } else {
          Fail(if off >= |buf| then off - |buf| else 0);
        }
      } else if Current().ArrayGotVal? {
        if kind == CloseArray {
          trace := trace + [EndArray];
          Pop();
        } else if kind == Kind.Comma {
          Set(ArrayNeedVal);
        } else {
          Fail(off);
        }
      } else {
        TakeValue(kind, buf, off);
      }
    }

    /** Offset off of the chunk is place i of the bytes kept from earlier chunks (base) followed by the chunk. */
    ghost predicate Placed(text: seq<byte>, off: nat, base: seq<byte>, i: nat)
      reads lexer
    {
      && lexer.Idle() && off <= |text|
      && if lexer.Pending() == [] then i == |base| + off else lexer.Pending() == base && off == 0 && i == 0
    }

    static lemma SuffixInPlace(cfg: Config, whole: seq<byte>, d: nat, text: seq<byte>, off: nat)
      requires d <= |whole| && whole[d..] == text && off <= |text|
      ensures var r, q := Scan(cfg, whole, d + off), Scan(cfg, text, off);
              && r == Shift(q, d)
              && (r.More? ==> text[q.from..] == whole[r.from..])
              && (r.Found? ==> text[q.from..q.to] == whole[r.from..r.to])
    {
      hide Scan;
      ScanShift(cfg, whole, d, d + off);
    }

    /** Scanning what the lexer sees is scanning base and chunk. */
    static lemma ScanInPlace(cfg: Config, kept: seq<byte>, text: seq<byte>, off: nat, base: seq<byte>, i: nat)
      requires off <= |text| && if kept == [] then i == |base| + off else kept == base && off == i == 0
      ensures i <= |base + text|
      ensures var r, q, d := Scan(cfg, base + text, i), Scan(cfg, kept + text, off), |base| - |kept|;
              && d >= 0 && r == Shift(q, d)
              && (r.More? ==> (kept + text)[q.from..] == (base + text)[r.from..])
              && (r.Found? ==> (kept + text)[q.from..q.to] == (base + text)[r.from..r.to])
    {
      hide Scan;
      if kept == [] {
        assert kept + text == text;
        SuffixInPlace(cfg, base + text, |base|, text, off);
      }
    }

    method NextToken(text: seq<byte>, off: nat, ghost base: seq<byte>, ghost i: nat)
      returns (tok: Token, off': nat, buf: seq<byte>)
      requires Placed(text, off, base, i)
      modifies lexer
      ensures lexer.Idle() && off' <= |text| && i <= |base + text|
      ensures var r := Scan(lexer.cfg, base + text, i);
              if r.More? then tok == Eof && lexer.Pending() == (base + text)[r.from..]
              else if r.Found? then
                && tok == Tok(r.kind) && lexer.Pending() == [] && r.to == |base| + off'
                && buf == Lexeme(r.kind, (base + text)[r.from..r.to])
              else tok == Error && lexer.Pending() == []
    {
      ScanInPlace(lexer.cfg, lexer.Pending(), text, off, base, i);
      hide Scan, Lexeme, Walk;
      tok, off', buf := lexer.Lex(text, off);
    }

    /** yajl_do_parse */
    method DoParse(text: seq<byte>) returns (status: Status)
      requires Valid()
      modifies this, lexer
      ensures Valid() && State() == Feed(flags, old(State()), text)
      ensures status == StatusIn(Current())
    {
      hide Scan, Lexeme, Parse, Advance, LowOk, TopOk, Fits;
      ghost var base := lexer.Pending();
      ghost var all, i: nat := base + text, 0;
      ghost var goal := Parse(flags, View(), all, 0);
      var off: nat := 0;
      while true
        invariant Valid() && Placed(text, off, base, i) && i <= |all|
        invariant Parse(flags, View(), all, i) == goal
        decreases |all| - i, if Current().ParseComplete? then 1 else 0
      {
        ghost var c := View();
        ParseDeaf(flags, c, all, i);
        if Current().ParseComplete? && flags.multipleValues {
          Set(GotValue);
        } else if Failed(Current()) {
          return StatusIn(Current());
        } else if Current().ParseComplete? && flags.trailingGarbage {
          return Ok;
        } else {
          var tok: Token, buf: seq<byte>;
          tok, off, buf := NextToken(text, off, base, i);
          bytesConsumed := off;
          ParseOne(flags, c, all, i);
          if tok == Eof {
            return Ok;
          } else if tok == Error {
            Set(if Current().ParseComplete? then ParseError else LexicalError);
            return Failure;
          } else {
            Take(tok.kind, buf, off);
            i := |base| + off;
          }
        }
      }
    }

    /** yajl_do_finish */
    method DoFinish() returns (status: Status)
      requires Valid()
      modifies this, lexer
      ensures status == Verdict(flags, Feed(flags, old(State()), [SPACE]).core.top)
      ensures status == Ok ==> Valid()
      ensures trace == Feed(flags, old(State()), [SPACE]).core.trace
    {
      status := DoParse([SPACE]);
      if status != Ok {
        return;
      }
      if Failed(Current()) {
        return StatusIn(Current());
      } else if Current().GotValue? || Current().ParseComplete? {
        return Ok;
      } else if !flags.partialValues {
        Set(ParseError);
        return Failure;
      }
      return Ok;
    }
  }
}
