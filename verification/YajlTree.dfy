/** The builder context of deps/yajl/src/yajl_tree.c, whose stack and partial values change on every callback. */
module YajlTree {
  import opened Bytes
  import opened Optional
  import opened JsonTree
  import opened TreeStrings
  import JsonParse

  class Context {
    var stack: Stack
    var root: Option<Json>

    constructor ()
      ensures Valid() && State() == EMPTY
    {
      stack, root := Bottom, None;
    }

    ghost function State(): Ctx
      reads this
    {
      Ctx(stack, root)
    }

    /** Texts are C strings: none has a NUL inside. */
    ghost predicate Valid()
      reads this
    {
      Readable(State())
    }

    method ContextPush(v: Tree)
      requires Valid()
      modifies this
      ensures Valid() && State() == Push(old(State()), v)
    {
      PushStaysReadable(State(), v);
      stack := Level(None, v, stack);
    }

    method ContextPop() returns (v: Option<Tree>)
      requires Valid()
      modifies this
      ensures Valid()
      ensures if old(stack).Bottom? then v.None? && State() == old(State())
              else v == Some(old(stack).value) && State() == Ctx(old(stack).next, old(root))
    {
      if stack.Bottom? {
        return None;
      }
      PopStaysReadable(State());
      v := Some(stack.value);
      stack := stack.next;
    }

    method ObjectAddKeyval(key: seq<byte>, value: Tree)
      requires stack.Level? && stack.value.JObject?
      modifies this`stack
      ensures stack == Level(old(stack).key, JObject(old(stack).value.members + [Member(key, value)]), old(stack).next)
    {
      stack := stack.(value := JObject(stack.value.members + [Member(key, value)]));
    }

    method ArrayAddValue(value: Tree)
      requires stack.Level? && stack.value.JArray?
      modifies this`stack
      ensures stack == Level(old(stack).key, JArray(old(stack).value.items + [value]), old(stack).next)
    {
      stack := stack.(value := JArray(stack.value.items + [value]));
    }

    /** context_add_value; at the bottom of the stack the C code asserts that there is no root yet. */
    method ContextAddValue(v: Tree) returns (ok: bool)
      requires Valid() && (stack.Bottom? ==> root.None?)
      modifies this
      ensures Valid() && ok == Add(old(State()), v).Some?
      ensures State() == if ok then Add(old(State()), v).value else old(State())
    {
      AddStaysReadable(State(), v);
      hide Readable;
      if stack.Bottom? {
        root := Some(v);
        return true;
      } else if stack.value.JObject? {
        if stack.key.None? {
          if !v.JString? {
            return false;
          }
          stack := stack.(key := Some(v.text));
          return true;
        } else {
          var key := stack.key.value;
          stack := stack.(key := None);
          ObjectAddKeyval(key, v);
          return true;
        }
      } else if stack.value.JArray? {
        ArrayAddValue(v);
        return true;
      }
      return false;
    }

    method HandleEnd() returns (go: bool)
      requires Valid() && (stack.Level? && stack.next.Bottom? ==> root.None?)
      modifies this
      ensures Valid() && go == Close(old(State())).Some?
      ensures go ==> State() == Close(old(State())).value
    {
      hide Readable;
      var v := ContextPop();
      if v.None? {
        return false;
      }
      go := ContextAddValue(v.value);
    }

    /** handle_string, for strings and keys: the octets are copied with a NUL behind them, and their number is
        dropped. */
    method HandleString(text: seq<byte>) returns (go: bool)
      requires Valid() && (stack.Bottom? ==> root.None?)
      modifies this
      ensures Valid() && go == Add(old(State()), JString(CString(text))).Some?
      ensures State() == if go then Add(old(State()), JString(CString(text))).value else old(State())
    {
      hide Readable;
      var copy := text + [NUL];
      CopyReads(text);
      go := ContextAddValue(JString(CString(copy)));
    }

    /** handle_number; the spelling is kept the same way. */
    method HandleNumber(text: seq<byte>) returns (go: bool)
      requires Valid() && (stack.Bottom? ==> root.None?)
      modifies this
      ensures Valid() && go == Add(old(State()), JNumber(CString(text))).Some?
      ensures State() == if go then Add(old(State()), JNumber(CString(text))).value else old(State())
    {
      hide Readable;
      var copy := text + [NUL];
      CopyReads(text);
      go := ContextAddValue(JNumber(CString(copy)));
    }

    /** The handle_* callbacks: the builder's step for what is heard of the event, and false where it has none. */
    method Handle(e: JsonParse.Event) returns (go: bool)
      requires Valid() && (stack.Bottom? || stack.next.Bottom? ==> root.None?)
      modifies this
      ensures Valid() && go == BuildStep(old(State()), Heard(e)).Some?
      ensures go ==> State() == BuildStep(old(State()), Heard(e)).value
    {
      hide Readable;
      match e
      case Null => go := ContextAddValue(JNull);
      case Boolean(b) => go := ContextAddValue(JBool(b));
      case Number(text) => go := HandleNumber(text);
      case String(text) => go := HandleString(text);
      case MapKey(text) => go := HandleString(text);
      case StartMap => ContextPush(JObject([])); go := true;
      case StartArray => ContextPush(JArray([])); go := true;
      case EndMap => go := HandleEnd();
      case EndArray => go := HandleEnd();
    }
  }
}
