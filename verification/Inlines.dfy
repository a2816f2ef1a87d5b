/** The delimiter list of deps/cmark/src/inlines.c, and process_emphasis on it. */
module Inlines {
  import opened Bytes
  import opened Optional
  import opened Emphasis

  class Delimiter {
    var previous: Delimiter?
    var next: Delimiter?
    const inlText: nat
    const delimChar: byte
    const canOpen: bool
    const canClose: bool

    constructor (inlText: nat, delimChar: byte, canOpen: bool, canClose: bool, previous: Delimiter?)
      ensures View() == Delim(inlText, delimChar, canOpen, canClose) && this.previous == previous && next == null
    {
      this.inlText, this.delimChar, this.canOpen, this.canClose, this.previous, next :=
        inlText, delimChar, canOpen, canClose, previous, null;
    }

    function View(): Delim { Delim(inlText, delimChar, canOpen, canClose) }
  }

  function Views(list: seq<Delimiter>): (ds: seq<Delim>)
    ensures |ds| == |list| && forall k :: 0 <= k < |list| ==> ds[k] == list[k].View()
  {
    seq(|list|, k requires 0 <= k < |list| => list[k].View())
  }

  predicate AllDifferent(list: seq<Delimiter>) { forall j, k :: 0 <= j < k < |list| ==> list[j] != list[k] }

  /** Element k of the list, or what stands for no element. */
  function Nth(list: seq<Delimiter>, k: int): Delimiter? { if 0 <= k < |list| then list[k] else null }

  ghost predicate LinkedAt(list: seq<Delimiter>, k: int)
    requires 0 <= k < |list|
    reads list[k]
  {
    list[k].previous == Nth(list, k - 1) && list[k].next == Nth(list, k + 1)
  }

  function Drop(list: seq<Delimiter>, k: nat): (r: seq<Delimiter>)
    requires k < |list|
    ensures |r| == |list| - 1 && forall j :: 0 <= j < |r| ==> r[j] == list[if j < k then j else j + 1]
  {
    list[..k] + list[k + 1..]
  }

  class Subject {
    var lastDelim: Delimiter?
    var inlines: seq<Inline>

    constructor (inlines: seq<Inline>)
      ensures Valid([]) && this.inlines == inlines
    {
      this.inlines, lastDelim := inlines, null;
    }

    /** The delimiter list, from the first to the last. */
    ghost predicate Valid(list: seq<Delimiter>)
      reads this`lastDelim, list
    {
      && AllDifferent(list) && lastDelim == Nth(list, |list| - 1)
      && forall k :: 0 <= k < |list| ==> LinkedAt(list, k)
    }

    /** push_delimiter */
    method PushDelimiter(c: byte, canOpen: bool, canClose: bool, inlText: nat,
                         ghost list: seq<Delimiter>) returns (delim: Delimiter)
      requires Valid(list)
      modifies this`lastDelim, list
      ensures fresh(delim) && delim.View() == Delim(inlText, c, canOpen, canClose) && Valid(list + [delim])
    {
      delim := new Delimiter(inlText, c, canOpen, canClose, lastDelim);
      if delim.previous != null {
        delim.previous.next := delim;
      }
      lastDelim := delim;
      ghost var longer := list + [delim];
      forall k | 0 <= k < |longer| ensures LinkedAt(longer, k) {
        if k < |list| {
          assert old(LinkedAt(list, k));
        }
      }
    }

    /** remove_delimiter; what is removed keeps its own pointers. */
    method RemoveDelimiter(delim: Delimiter, ghost list: seq<Delimiter>, ghost k: nat)
      requires Valid(list) && k < |list| && list[k] == delim
      modifies this`lastDelim, list
      ensures Valid(Drop(list, k))
      ensures delim.previous == old(delim.previous) && delim.next == old(delim.next)
    {
      assert LinkedAt(list, k);
      if delim.next == null {
        lastDelim := delim.previous;
      } else {
        delim.next.previous := delim.previous;
      }
      if delim.previous != null {
        delim.previous.next := delim.next;
      }
      ghost var rest := Drop(list, k);
      forall j | 0 <= j < |rest| ensures LinkedAt(rest, j) {
        ghost var j0 := if j < k then j else j + 1;
        assert old(LinkedAt(list, j0)) && rest[j] == list[j0];
      }
    }

    // -------------------------------------------------------------- one emphasis

    /** What S_insert_emph does to the siblings: shorten two texts, move what is between them into a new node, put
        that behind the opener, and free a text that is empty. */
    method WrapBetween(openerInl: nat, closerInl: nat) returns (openerLeft: nat, closerLeft: nat)
      requires Distinct(inlines)
      requires var po, pc := Place(inlines, openerInl), Place(inlines, closerInl);
               po < pc < |inlines| && inlines[po].literal != [] && inlines[pc].literal != []
      modifies this`inlines
      ensures var po, pc := old(Place(inlines, openerInl)), old(Place(inlines, closerInl));
              var ol, cl := old(|inlines[po].literal|), old(|inlines[pc].literal|);
              var use := UseDelims(ol, cl);
              && use <= ol && use <= cl && openerLeft == ol - use && closerLeft == cl - use
              && inlines == Wrapped(old(inlines), po, pc, use)
    {
      var po, pc := Place(inlines, openerInl), Place(inlines, closerInl);
      ghost var a, kids, b := inlines[..po], inlines[po + 1..pc], inlines[pc + 1..];
      var openerNumChars, closerNumChars := |inlines[po].literal|, |inlines[pc].literal|;
      var useDelims;
      if closerNumChars < 3 || openerNumChars < 3 {
        useDelims := if closerNumChars <= openerNumChars then closerNumChars else openerNumChars;
      } else {
        useDelims := if closerNumChars % 2 == 0 then 2 else 1;
      }
      openerLeft, closerLeft := openerNumChars - useDelims, closerNumChars - useDelims;
      var opener, closer := Text(openerInl, inlines[po].literal[..openerLeft]),
          Text(closerInl, inlines[pc].literal[..closerLeft]);
      ghost var done := Wrapped(inlines, po, pc, useDelims);
      WrappedParts(inlines, po, pc, useDelims);
      Between(inlines, po, pc, opener, closer);
      inlines := inlines[po := opener];
      inlines := inlines[pc := closer];
      hide *;
      MoveBetween(po, closerInl, useDelims, openerLeft, closerLeft, pc, a, opener, kids, closer, b);
    }

    /** What is between opener and closer goes into a new node behind the opener, and an empty text is freed. */
    method MoveBetween(po: nat, closerInl: nat, useDelims: nat, openerLeft: nat, closerLeft: nat, ghost pc: nat,
                       ghost a: seq<Inline>, ghost opener: Inline, ghost kids: seq<Inline>, ghost closer: Inline,
                           ghost b: seq<Inline>)
      requires po == |a| < pc < |inlines| && Distinct(inlines) && IsAt(inlines, pc, closerInl)
      requires inlines[po + 1..pc] == kids
      requires inlines[..po + 1] + inlines[pc..] == a + [opener] + ([closer] + b)
      modifies this`inlines
      ensures inlines == a + (if openerLeft == 0 then [] else [opener])
                + [if useDelims == 1 then Emph(kids) else Strong(kids)]
                         + (if closerLeft == 0 then [] else [closer]) + b
    {
      hide Distinct, IsAt;
      var emph := TakeBetween(po, closerInl, pc);
      var node := if useDelims == 1 then Emph(emph) else Strong(emph);
      PutBehind(po, node, a, opener, [closer] + b);
      if openerLeft == 0 {
        TakeAway(po, a, opener, [node] + ([closer] + b));
      }
      Regroup(a, opener, node, closer, b);
      if closerLeft == 0 {
        if openerLeft == 0 {
          TakeAway(po + 1, a + [node], closer, b);
        } else {
          TakeAway(po + 2, a + [opener] + [node], closer, b);
        }
      }
    }

    /** cmark_node_insert_after */
    method PutBehind(p: nat, x: Inline, ghost a: seq<Inline>, ghost y: Inline, ghost b: seq<Inline>)
      requires p == |a| && inlines == a + [y] + b
      modifies this`inlines
      ensures inlines == a + [y] + ([x] + b)
    {
      inlines := inlines[..p + 1] + [x] + inlines[p + 1..];
    }

    /** cmark_node_free */
    method TakeAway(p: nat, ghost a: seq<Inline>, ghost x: Inline, ghost b: seq<Inline>)
      requires p == |a| && inlines == a + [x] + b
      modifies this`inlines
      ensures inlines == a + b
    {
      inlines := inlines[..p] + inlines[p + 1..];
    }

    /** The siblings between two texts are taken out, one by one. */
    method TakeBetween(po: nat, closerInl: nat, ghost pc: nat) returns (taken: seq<Inline>)
      requires po < pc < |inlines| && Distinct(inlines) && IsAt(inlines, pc, closerInl)
      modifies this`inlines
      ensures taken == old(inlines)[po + 1..pc] && inlines == old(inlines)[..po + 1] + old(inlines)[pc..]
    {
      ghost var all := inlines;
      taken := [];
      TakesNone(all, po, pc, closerInl);
      while po + 1 < |inlines| && !IsAt(inlines, po + 1, closerInl)
        invariant Taking(all, po, pc, taken, inlines)
        decreases |inlines|
      {
        TakesNext(all, po, pc, taken, inlines, closerInl);
        hide *;
        taken := taken + [inlines[po + 1]];
        inlines := inlines[..po + 1] + inlines[po + 2..];
      }
      TakesAll(all, po, pc, taken, inlines, closerInl);
      hide *;
    }

    lemma Known(list: seq<Delimiter>, k: nat)
      requires Valid(list) && k < |list|
      ensures LinkedAt(list, k) && list[k].previous == Nth(list, k - 1) && list[k].next == Nth(list, k + 1)
      ensures AllDifferent(list) && forall j :: 0 <= j < |list| && list[j] == list[k] ==> j == k
    {
    }

    /** The delimiters between two are freed. */
    method FreeBetween(opener: Delimiter, closer: Delimiter, ghost list: seq<Delimiter>, ghost o: nat, ghost i: nat)
      requires Valid(list) && o < i < |list| && list[o] == opener && list[i] == closer
      modifies this`lastDelim, list
      ensures Valid(list[..o + 1] + list[i..])
    {
      hide Valid, LinkedAt;
      Known(list, i);
      var delim := closer.previous;
      ghost var ls, m := list, i - 1;
      assert ls == list[..m + 1] + list[i..];
      while delim != null && delim != opener
        invariant o <= m < i && ls == list[..m + 1] + list[i..] && Valid(ls) && delim == ls[m]
        decreases m
      {
        Fewer(list, m + 1, i);
        ghost var shorter := Drop(ls, m);
        assert shorter == list[..m] + list[i..];
        Known(ls, m);
        var tmpDelim := delim.previous;
        RemoveDelimiter(delim, ls, m);
        ls, m := shorter, m - 1;
        delim := tmpDelim;
      }
      assert ls[o] == list[o];
      Known(ls, m);
    }

    /** The end of S_insert_emph: a delimiter whose text is empty is freed. */
    method DropUsed(opener: Delimiter, closer: Delimiter, openerLeft: nat, closerLeft: nat,
                    ghost list: seq<Delimiter>, ghost o: nat)
      returns (next: Delimiter?, ghost list': seq<Delimiter>)
      requires Valid(list) && o + 1 < |list| && list[o] == opener && list[o + 1] == closer
      modifies this`lastDelim, list
      ensures Valid(list')
      ensures var f, g := if openerLeft == 0 then o else o + 1, if closerLeft == 0 then o + 2 else o + 1;
              list' == list[..f] + list[g..] && next == Nth(list', f)
    {
      hide Valid, LinkedAt;
      list', next := list, closer;
      ghost var at := o + 1;
      if openerLeft == 0 {
        RemoveDelimiter(opener, list, o);
        list', at := Drop(list, o), o;
        assert list' == list[..o] + list[o + 1..];
        Fewer(list, o, o + 1);
      }
      if closerLeft == 0 {
        Known(list', at);
        next := closer.next;
        RemoveDelimiter(closer, list', at);
        list' := Drop(list', at);
        assert list' == list[..at] + list[o + 2..];
      }
      assert openerLeft != 0 && closerLeft != 0 ==> list == list[..o + 1] + list[o + 1..];
    }

    /** S_insert_emph; next is the delimiter to go on with. */
    method SInsertEmph(opener: Delimiter, closer: Delimiter, ghost list: seq<Delimiter>, ghost o: nat, ghost i: nat)
      returns (next: Delimiter?, ghost list': seq<Delimiter>)
      requires Valid(list) && o < i < |list| && list[o] == opener && list[i] == closer && Distinct(inlines)
      requires var po, pc := Place(inlines, opener.inlText), Place(inlines, closer.inlText);
               po < pc < |inlines| && inlines[po].literal != [] && inlines[pc].literal != []
      modifies this`lastDelim, this`inlines, list
      ensures Valid(list')
      ensures var po, pc := old(Place(inlines, opener.inlText)), old(Place(inlines, closer.inlText));
              var ol, cl := old(|inlines[po].literal|), old(|inlines[pc].literal|);
              var use := UseDelims(ol, cl);
              var f, g := if ol == use then o else o + 1, if cl == use then i + 1 else i;
              && use <= ol && use <= cl && inlines == Wrapped(old(inlines), po, pc, use)
              && list' == list[..f] + list[g..] && next == Nth(list', f)
    {
      hide Wrapped, Distinct, Place, UseDelims, LinkedAt;
      Fewer(list, o + 1, i);
      FreeBetween(opener, closer, list, o, i);
      var openerLeft, closerLeft := WrapBetween(opener.inlText, closer.inlText);
      Cuts(list, o, i);
      next, list' := DropUsed(opener, closer, openerLeft, closerLeft, list[..o + 1] + list[i..], o);
    }

    // -------------------------------------------------------------- looking for an opener

    /** The inner loop of process_emphasis. It stops at the bottom for this kind of delimiter, and still finds what
        a search down to the bottom of the stack finds. */
    method LookBack(closer: Delimiter, stackBottom: Delimiter?, openersBottom: Delimiter?,
                    ghost list: seq<Delimiter>, ghost b: nat, ghost i: nat)
      returns (opener: Delimiter?, found: bool, ghost o: nat)
      requires Valid(list) && b <= i < |list| && list[i] == closer && stackBottom == Nth(list, b - 1)
      requires Barren(openersBottom, closer.delimChar, list, b)
      ensures found ==>
                && b <= o < i && opener == list[o]
                && FindOpener(Views(list[b..]), i - b, closer.delimChar) == Some(o - b)
      ensures !found ==> FindOpener(Views(list[b..]), i - b, closer.delimChar) == None
    {
      assert LinkedAt(list, i);
      opener := closer.previous;
      ghost var k := i - 1;
      while opener != null && opener != stackBottom && opener != openersBottom
        invariant b - 1 <= k < i && opener == Nth(list, k)
        invariant forall m :: k < m < i ==> !Opens(list[m].View(), closer.delimChar)
        decreases k
      {
        assert k >= b;
        if opener.delimChar == closer.delimChar && opener.canOpen {
          Nearest(list, b, i, closer.delimChar, k);
          return opener, true, k;
        }
        assert LinkedAt(list, k);
        opener := opener.previous;
        k := k - 1;
      }
      NoneLeft(openersBottom, list, b, i, closer.delimChar, k);
      found, o := false, 0;
    }

    // -------------------------------------------------------------- process_emphasis

    /** The state that the list above b, the siblings and the delimiter at i make up. */
    ghost function At(list: seq<Delimiter>, b: nat, i: nat, choices: seq<Choice>): State
      requires b <= i <= |list|
      reads this`inlines
    {
      State(Views(list[b..]), inlines, i - b, choices)
    }

    /** The literal of a text is set; what was there is freed. */
    method Replace(inlText: nat, literal: seq<byte>)
      modifies this`inlines
      ensures inlines == SetText(old(inlines), inlText, literal)
    {
      var p := Place(inlines, inlText);
      if p < |inlines| {
        inlines := inlines[p := Text(inlText, literal)];
      }
    }

    /** A closer with an opener, both for emphasis. */
    method CloseEmphasis(opener: Delimiter, closer: Delimiter, ghost bottoms: seq<Delimiter?>,
                         ghost list: seq<Delimiter>, ghost b: nat, ghost o: nat, ghost i: nat,
                             ghost choices: seq<Choice>)
      returns (next: Delimiter?, ghost list': seq<Delimiter>, ghost i': nat)
      requires Valid(list) && b <= o < i < |list| && list[o] == opener && list[i] == closer
      requires Ready(At(list, b, i, choices)) && Closes(closer.View()) && IsStar(closer.delimChar)
      requires AllBarren(bottoms, list, b)
      requires FindOpener(Views(list[b..]), i - b, closer.delimChar) == Some(o - b)
      modifies this`lastDelim, this`inlines, list
      ensures Valid(list') && b <= i' <= |list'| && next == Nth(list', i') && list'[..b] == list[..b]
      ensures At(list', b, i', choices + [Choice(closer.inlText, Some(opener.inlText))]) ==
                Step(old(At(list, b, i, choices)))
      ensures AllBarren(bottoms, list', b) && forall k :: 0 <= k < |list'| ==> list'[k] in list
    {
      hide Valid, LinkedAt, Ready, Step, Views, AllBarren, Wrapped, Place, UseDelims, FindOpener;
      ghost var st := At(list, b, i, choices);
      TextsOf(list, b, o, i, inlines, choices);
      ghost var po, pc := Place(inlines, opener.inlText), Place(inlines, closer.inlText);
      ghost var ol, cl := |inlines[po].literal|, |inlines[pc].literal|;
      ghost var use := UseDelims(ol, cl);
      next, list' := SInsertEmph(opener, closer, list, o, i);
      i' := if ol == use then o else o + 1;
      StepInserts(list, b, o, i, st, bottoms, po, pc, use, i', if cl == use then i + 1 else i);
    }

    /** A closer for which no emphasis is made: quotes are turned, and the search is cut short from now on when
        nothing was found. */
    method PassOver(opener: Delimiter?, closer: Delimiter, found: bool, openersBottom: array<Delimiter?>,
                    ghost list: seq<Delimiter>, ghost b: nat, ghost o: nat, ghost i: nat, ghost choices: seq<Choice>)
      returns (next: Delimiter?, ghost list': seq<Delimiter>, ghost i': nat)
      requires Valid(list) && b <= i < |list| && list[i] == closer && (found ==> b <= o < i && opener == list[o])
      requires Ready(At(list, b, i, choices)) && Closes(closer.View()) && AllBarren(openersBottom[..], list, b)
      requires !(IsStar(closer.delimChar) && found)
      requires FindOpener(Views(list[b..]), i - b, closer.delimChar) == if found then Some(o - b) else None
      modifies this`lastDelim, this`inlines, list, openersBottom
      ensures Valid(list') && b <= i' <= |list'| && next == Nth(list', i') && list'[..b] == list[..b]
      ensures At(list', b, i', choices + [Choice(closer.inlText, if found then Some(opener.inlText) else None)]) ==
                Step(old(At(list, b, i, choices)))
      ensures AllBarren(openersBottom[..], list', b) && forall k :: 0 <= k < |list'| ==> list'[k] in list
    {
      hide Valid, LinkedAt, Ready, Step, Views, AllBarren, SetText, FindOpener;
      ghost var st := At(list, b, i, choices);
      var c := closer.delimChar;
      KnownChar(closer.View(), openersBottom[..], list, b);
      Known(list, i);
      next := closer.next;
      list', i' := list, i + 1;
      if IsQuote(c) {
        Replace(closer.inlText, RightQuote(c));
        if found {
          Replace(opener.inlText, LeftQuote(c));
        }
      }
      if !found {
        NewBottom(openersBottom[..], c, list, b, i);
        ghost var bottoms := openersBottom[..][c := Nth(list, i - 1)];
        openersBottom[c] := closer.previous;
        assert openersBottom[..] == bottoms;
        if !closer.canOpen {
          StillBarren(openersBottom[..], list, b, i, i + 1);
          RemoveDelimiter(closer, list, i);
          list', i' := Drop(list, i), i;
        }
      }
      StepGoesOn(list, b, o, i, found, st, list', i', inlines);
    }

    /** One closer, from the search for its opener on: one step of the algorithm that searches all the way down. */
    method HandleCloser(closer: Delimiter, stackBottom: Delimiter?, openersBottom: array<Delimiter?>,
                        ghost list: seq<Delimiter>, ghost b: nat, ghost i: nat, ghost choices: seq<Choice>)
      returns (next: Delimiter?, ghost list': seq<Delimiter>, ghost i': nat, ghost choices': seq<Choice>)
      requires Valid(list) && b <= i < |list| && list[i] == closer && stackBottom == Nth(list, b - 1)
      requires Ready(At(list, b, i, choices)) && Closes(closer.View()) && AllBarren(openersBottom[..], list, b)
      modifies this`lastDelim, this`inlines, list, openersBottom
      ensures Valid(list') && b <= i' <= |list'| && next == Nth(list', i') && list'[..b] == list[..b]
      ensures At(list', b, i', choices') == Step(old(At(list, b, i, choices)))
      ensures AllBarren(openersBottom[..], list', b) && forall k :: 0 <= k < |list'| ==> list'[k] in list
    {
      hide Valid, LinkedAt, Ready, Step, Views, AllBarren, FindOpener, At;
      KnownChar(closer.View(), openersBottom[..], list, b);
      var opener, found;
      ghost var o;
      opener, found, o := LookBack(closer, stackBottom, openersBottom[closer.delimChar], list, b, i);
      choices' := choices + [Choice(closer.inlText, if found then Some(opener.inlText) else None)];
      if IsStar(closer.delimChar) && found {
        next, list', i' := CloseEmphasis(opener, closer, openersBottom[..], list, b, o, i, choices);
      } else {
        next, list', i' := PassOver(opener, closer, found, openersBottom, list, b, o, i, choices);
      }
    }

    /** The loop that moves forward from the first delimiter above the bottom. */
    method HandleClosers(first: Delimiter?, stackBottom: Delimiter?, openersBottom: array<Delimiter?>,
                         ghost list: seq<Delimiter>, ghost b: nat)
      returns (ghost list': seq<Delimiter>, ghost choices: seq<Choice>)
      requires Valid(list) && b <= |list| && first == Nth(list, b) && stackBottom == Nth(list, b - 1)
      requires Ready(At(list, b, b, [])) && AllBarren(openersBottom[..], list, b)
      modifies this`lastDelim, this`inlines, list, openersBottom
      ensures Valid(list') && b <= |list'| && list'[..b] == list[..b]
      ensures forall k :: 0 <= k < |list'| ==> list'[k] in list
      ensures At(list', b, |list'|, choices) == Result(old(At(list, b, b, [])))
    {
      hide Valid, LinkedAt, AllBarren, Views, Laid, Step, Drop, Result, Ready, CloserLen;
      ghost var i := b;
      ghost var goal := Result(At(list, b, b, []));
      list', choices := list, [];
      var closer := first;
      while closer != null
        invariant Valid(list') && b <= i <= |list'| && closer == Nth(list', i) && list'[..b] == list[..b]
        invariant forall k :: 0 <= k < |list'| ==> list'[k] in list
        invariant AllBarren(openersBottom[..], list', b)
        invariant Ready(At(list', b, i, choices)) && Result(At(list', b, i, choices)) == goal
        decreases |list'| - i, CloserLen(At(list', b, i, choices))
      {
        ghost var st := At(list', b, i, choices);
        OneStep(st);
        assert st.ds[i - b] == closer.View();
        if closer.canClose && (closer.delimChar == STAR || closer.delimChar == UNDERSCORE
            || closer.delimChar == QUOTE || closer.delimChar == APOSTROPHE) {
          closer, list', i, choices := HandleCloser(closer, stackBottom, openersBottom, list', b, i, choices);
        } else {
          JustMoves(st);
          Known(list', i);
          closer := closer.next;
          i := i + 1;
        }
      }
      AtTheEnd(At(list', b, i, choices));
    }

    /** The first delimiter above the bottom. */
    method FirstAbove(stackBottom: Delimiter?, ghost list: seq<Delimiter>, ghost b: nat) returns (closer: Delimiter?)
      requires Valid(list) && b <= |list| && stackBottom == Nth(list, b - 1)
      ensures closer == Nth(list, b)
    {
      closer := lastDelim;
      ghost var k := |list| - 1;
      while closer != null && closer.previous != stackBottom
        invariant -1 <= k < |list| && closer == Nth(list, k) && (b < |list| ==> k >= b)
        decreases k
      {
        assert LinkedAt(list, k);
        closer := closer.previous;
        k := k - 1;
      }
      if closer != null {
        assert LinkedAt(list, k);
      }
    }

    /** The list ends at the bottom of the stack exactly when nothing is above it. */
    lemma Tops(ls: seq<Delimiter>, stackBottom: Delimiter?, list: seq<Delimiter>, b: nat)
      requires Valid(ls) && b <= |ls| && b <= |list| && ls[..b] == list[..b] && stackBottom == Nth(list, b - 1)
      ensures lastDelim == stackBottom ==> ls == list[..b]
      ensures lastDelim != stackBottom ==> |ls| > b && lastDelim == ls[|ls| - 1] && Drop(ls, |ls| - 1)[..b] == list[..b]
    {
      if b > 0 {
        assert ls[b - 1] == ls[..b][b - 1] == list[..b][b - 1] == list[b - 1];
      }
    }

    /** All delimiters above the bottom are freed. */
    method FreeAbove(stackBottom: Delimiter?, ghost list: seq<Delimiter>, ghost b: nat)
      requires Valid(list) && b <= |list| && stackBottom == Nth(list, b - 1)
      modifies this`lastDelim, list
      ensures Valid(list[..b]) && lastDelim == stackBottom
    {
      hide LinkedAt, Valid;
      ghost var ls := list;
      while lastDelim != stackBottom
        invariant b <= |ls| <= |list| && ls == list[..|ls|] && Valid(ls)
        decreases |ls|
      {
        Tops(ls, stackBottom, list, b);
        ghost var shorter := Drop(ls, |ls| - 1);
        assert shorter == list[..|ls| - 1];
        RemoveDelimiter(lastDelim, ls, |ls| - 1);
        ls := shorter;
      }
      Tops(ls, stackBottom, list, b);
    }

    /** process_emphasis: the short cut of openers_bottom changes nothing, for the outcome, and every opener that is
        chosen for a closer, are those of the algorithm that searches down to stack_bottom. The delimiters up to
        stack_bottom are left as they were, and none remains above it. */
    method ProcessEmphasis(stackBottom: Delimiter?, ghost list: seq<Delimiter>,
                           ghost b: nat) returns (ghost choices: seq<Choice>)
      requires Valid(list) && b <= |list| && stackBottom == Nth(list, b - 1) && Ready(At(list, b, b, []))
      modifies this`lastDelim, this`inlines, list
      ensures Valid(list[..b]) && lastDelim == stackBottom
      ensures var r := Result(old(At(list, b, b, []))); inlines == r.inls && choices == r.choices
    {
      hide LinkedAt, Result, Views, AllBarren, Ready, Valid;
      var openersBottom := NewBottoms(stackBottom, list, b);
      var closer := FirstAbove(stackBottom, list, b);
      ghost var ls;
      ls, choices := HandleClosers(closer, stackBottom, openersBottom, list, b);
      FreeAbove(stackBottom, ls, b);
    }

    method NewBottoms(stackBottom: Delimiter?, ghost list: seq<Delimiter>,
                      ghost b: nat) returns (openersBottom: array<Delimiter?>)
      requires Valid(list) && b <= |list| && stackBottom == Nth(list, b - 1)
      ensures fresh(openersBottom) && AllBarren(openersBottom[..], list, b)
    {
      openersBottom := new Delimiter?[128](_ => null);
      openersBottom[STAR] := stackBottom;
      openersBottom[UNDERSCORE] := stackBottom;
      openersBottom[APOSTROPHE] := stackBottom;
      openersBottom[QUOTE] := stackBottom;
      StartsBarren(openersBottom[..], stackBottom, list, b);
    }
  }

  lemma StartsBarren(bottoms: seq<Delimiter?>, stackBottom: Delimiter?, list: seq<Delimiter>, b: nat)
    requires |bottoms| == 128 && AllDifferent(list) && b <= |list| && stackBottom == Nth(list, b - 1)
    requires bottoms[STAR] == bottoms[UNDERSCORE] == bottoms[APOSTROPHE] == bottoms[QUOTE] == stackBottom
    ensures AllBarren(bottoms, list, b)
  {
  }

  lemma AtTheEnd(st: State)
    requires Ready(st) && st.i == |st.ds|
    ensures Result(st) == st
  {
  }

  lemma OneStep(st: State)
    requires Ready(st)
    ensures st.i < |st.ds| ==> Ready(Step(st)) && Result(st) == Result(Step(st))
    ensures st.i < |st.ds| ==>
              |Step(st).ds| - Step(st).i < |st.ds| - st.i
                  || (|Step(st).ds| - Step(st).i == |st.ds| - st.i && CloserLen(Step(st)) < CloserLen(st))
  {
    if st.i < |st.ds| {
      StepReady(st);
      StepProgresses(st);
      hide Step, Laid;
    }
  }

  lemma JustMoves(st: State)
    requires Ready(st) && st.i < |st.ds| && !Closes(st.ds[st.i])
    ensures Step(st) == st.(i := st.i + 1)
  {
  }

  lemma KnownChar(d: Delim, bottoms: seq<Delimiter?>, list: seq<Delimiter>, b: nat)
    requires Closes(d) && AllBarren(bottoms, list, b)
    ensures d.c < 128 && |bottoms| == 128 && (IsStar(d.c) <==> !IsQuote(d.c)) && Barren(bottoms[d.c], d.c, list, b)
  {
  }

  lemma TextsOf(list: seq<Delimiter>, b: nat, o: nat, i: nat, inls: seq<Inline>, choices: seq<Choice>)
    requires b <= o < i < |list| && Ready(State(Views(list[b..]), inls, i - b, choices))
    requires IsStar(list[o].delimChar) && IsStar(list[i].delimChar)
    ensures Distinct(inls)
    ensures var po, pc := Place(inls, list[o].inlText), Place(inls, list[i].inlText);
            po < pc < |inls| && inls[po].literal != [] && inls[pc].literal != []
  {
    var ds := Views(list[b..]);
    assert ds[o - b] == list[o].View() && ds[i - b] == list[i].View();
    assert HasText(inls, ds[o - b]) && HasText(inls, ds[i - b]);
  }

  lemma ViewsCut(list: seq<Delimiter>, b: nat, f: nat, g: nat)
    requires b <= f <= g <= |list|
    ensures (list[..f] + list[g..])[..b] == list[..b]
    ensures Views((list[..f] + list[g..])[b..]) == Views(list[b..])[..f - b] + Views(list[b..])[g - b..]
    ensures var l := list[..f] + list[g..]; forall k :: 0 <= k < |l| ==> l[k] in list
  {
  }

  lemma StillBarren(bottoms: seq<Delimiter?>, list: seq<Delimiter>, b: nat, f: nat, g: nat)
    requires AllBarren(bottoms, list, b) && b <= f <= g <= |list|
    ensures AllBarren(bottoms, list[..f] + list[g..], b)
  {
    var l := list[..f] + list[g..];
    assert forall k :: 0 <= k < |l| ==> l[k] == list[if k < f then k else k - f + g];
    forall c: byte, m, k | KnownC(c) && b <= m <= k < |l| && l[k] == bottoms[c] ensures !Opens(l[m].View(), c) {
      var m0, k0 := if m < f then m else m - f + g, if k < f then k else k - f + g;
      assert l[m] == list[m0] && l[k] == list[k0] && b <= m0 <= k0;
    }
  }

  predicate KnownC(c: byte) { IsStar(c) || IsQuote(c) }

  ghost predicate AllBarren(bottoms: seq<Delimiter?>, list: seq<Delimiter>, b: nat) {
    |bottoms| == 128 && forall c: byte :: KnownC(c) ==> Barren(bottoms[c], c, list, b)
  }

  lemma NewBottom(bottoms: seq<Delimiter?>, c: byte, list: seq<Delimiter>, b: nat, i: nat)
    requires AllBarren(bottoms, list, b) && AllDifferent(list) && b <= i < |list| && c < 128
    requires FindOpener(Views(list[b..]), i - b, c) == None
    ensures |bottoms| == 128 && AllBarren(bottoms[c := Nth(list, i - 1)], list, b)
  {
    var ds := Views(list[b..]);
    forall m, k | b <= m <= k < |list| && list[k] == Nth(list, i - 1) ensures !Opens(list[m].View(), c) {
      assert k == i - 1;
      assert ds[m - b] == list[m].View();
    }
  }

  /** At or below this delimiter there is no opener for c, if it is still on the list. */
  ghost predicate Barren(bottom: Delimiter?, c: byte, list: seq<Delimiter>, b: nat) {
    forall m, k :: b <= m <= k < |list| && list[k] == bottom ==> !Opens(list[m].View(), c)
  }

  lemma Nearest(list: seq<Delimiter>, b: nat, i: nat, c: byte, o: nat)
    requires b <= o < i < |list| && Opens(list[o].View(), c) && forall m :: o < m < i ==> !Opens(list[m].View(), c)
    ensures FindOpener(Views(list[b..]), i - b, c) == Some(o - b)
  {
    var ds := Views(list[b..]);
    var r := FindOpener(ds, i - b, c);
    assert ds[o - b] == list[o].View();
    if r.Some? {
      assert ds[r.value] == list[b + r.value].View();
    }
  }

  lemma NoneLeft(bottom: Delimiter?, list: seq<Delimiter>, b: nat, i: nat, c: byte, k: int)
    requires b <= i < |list| && b - 1 <= k < i && Barren(bottom, c, list, b)
    requires k < b || list[k] == bottom
    requires forall m :: k < m < i ==> !Opens(list[m].View(), c)
    ensures FindOpener(Views(list[b..]), i - b, c) == None
  {
    var ds := Views(list[b..]);
    forall j | 0 <= j < i - b ensures !Opens(ds[j], c) {
      assert ds[j] == list[b + j].View();
    }
    var r := FindOpener(ds, i - b, c);
  }

  lemma Cuts(list: seq<Delimiter>, o: nat, i: nat)
    requires o < i < |list|
    ensures var l := list[..o + 1] + list[i..];
            && l[o] == list[o] && l[o + 1] == list[i] && |l| == o + 1 + |list| - i
            && l[..o] == list[..o] && l[..o + 1] == list[..o + 1] && l[o + 1..] == list[i..]
                && l[o + 2..] == list[i + 1..]
  {
  }

  /** Some siblings behind po have been taken, and none from pc on. */
  predicate Taking(all: seq<Inline>, po: nat, pc: nat, taken: seq<Inline>, inls: seq<Inline>) {
    && po + 1 + |taken| <= pc < |all| && taken == all[po + 1..po + 1 + |taken|]
    && inls == all[..po + 1] + all[po + 1 + |taken|..]
  }

  lemma TakesNone(all: seq<Inline>, po: nat, pc: nat, closer: nat)
    requires po < pc < |all|
    ensures Taking(all, po, pc, [], all)
  {
  }

  lemma TakesNext(all: seq<Inline>, po: nat, pc: nat, taken: seq<Inline>, inls: seq<Inline>, closer: nat)
    requires Taking(all, po, pc, taken, inls) && IsAt(all, pc, closer) && !IsAt(inls, po + 1, closer)
    ensures po + 1 < |inls| && Taking(all, po, pc, taken + [inls[po + 1]], inls[..po + 1] + inls[po + 2..])
  {
    var b := po + 1 + |taken|;
    assert inls[po + 1] == all[b];
    assert inls[..po + 1] + inls[po + 2..] == all[..po + 1] + all[b + 1..];
  }

  lemma TakesAll(all: seq<Inline>, po: nat, pc: nat, taken: seq<Inline>, inls: seq<Inline>, closer: nat)
    requires Taking(all, po, pc, taken, inls) && Distinct(all) && IsAt(all, pc, closer)
    requires po + 1 < |inls| ==> IsAt(inls, po + 1, closer)
    ensures taken == all[po + 1..pc] && inls == all[..po + 1] + all[pc..]
  {
    assert inls[po + 1] == all[po + 1 + |taken|];
  }

  lemma Fewer(list: seq<Delimiter>, f: nat, i: nat)
    requires f <= i <= |list|
    ensures forall d :: d in list[..f] + list[i..] ==> d in list
  {
  }

  lemma Between(inls: seq<Inline>, po: nat, pc: nat, opener: Inline, closer: Inline)
    requires po < pc < |inls| && Distinct(inls)
    requires inls[po].Text? && inls[pc].Text? && opener.Text? && closer.Text? && opener.id == inls[po].id
    requires closer.id == inls[pc].id
    ensures var l := inls[po := opener][pc := closer];
            && Distinct(l) && IsAt(l, pc, closer.id) && l[po + 1..pc] == inls[po + 1..pc]
            && l[..po + 1] + l[pc..] == inls[..po] + [opener] + ([closer] + inls[pc + 1..])
  {
    var l := inls[po := opener][pc := closer];
    forall p, q | 0 <= p < q < |l| && l[p].Text? && l[q].Text? ensures l[p].id != l[q].id {
      assert inls[p].Text? && inls[p].id == l[p].id && inls[q].Text? && inls[q].id == l[q].id;
    }
  }

  lemma WrappedParts(inls: seq<Inline>, po: nat, pc: nat, use: nat)
    requires po < pc < |inls| && inls[po].Text? && inls[pc].Text? && use <= |inls[po].literal|
    requires use <= |inls[pc].literal|
    ensures var a, kids, b := inls[..po], inls[po + 1..pc], inls[pc + 1..];
            var o, c := Text(inls[po].id, inls[po].literal[..|inls[po].literal| - use]),
                Text(inls[pc].id, inls[pc].literal[..|inls[pc].literal| - use]);
            var node := if use == 1 then Emph(kids) else Strong(kids);
            Wrapped(inls, po, pc, use) ==
            a + (if |inls[po].literal| == use then [] else [o]) + [node]
                + (if |inls[pc].literal| == use then [] else [c]) + b
  {
  }

  lemma Regroup(a: seq<Inline>, x: Inline, y: Inline, z: Inline, b: seq<Inline>)
    ensures a + [x] + ([y] + ([z] + b)) == a + [x] + [y] + [z] + b
    ensures a + ([y] + ([z] + b)) == a + [y] + [z] + b == a + [] + [y] + [z] + b
    ensures a + [x] + [y] + b == a + [x] + [y] + [] + b && a + [y] + b == a + [] + [y] + [] + b
  {
  }

  /** The step when an opener for emphasis was found; what is used up goes from list and siblings. */
  lemma StepInserts(list: seq<Delimiter>, b: nat, o: nat, i: nat, st: State, bottoms: seq<Delimiter?>,
                    po: nat, pc: nat, use: nat, f: nat, g: nat)
    requires b <= o < i < |list| && st.ds == Views(list[b..]) && st.i == i - b && Ready(st)
    requires Closes(list[i].View()) && IsStar(list[i].delimChar) && AllBarren(bottoms, list, b)
    requires FindOpener(st.ds, st.i, list[i].delimChar) == Some(o - b)
    requires po == Place(st.inls, list[o].inlText) && pc == Place(st.inls, list[i].inlText) && po < pc < |st.inls|
    requires use == UseDelims(|st.inls[po].literal|, |st.inls[pc].literal|)
    requires use <= |st.inls[po].literal| && use <= |st.inls[pc].literal|
    requires f == (if |st.inls[po].literal| == use then o else o + 1)
    requires g == (if |st.inls[pc].literal| == use then i + 1 else i)
    ensures var l := list[..f] + list[g..];
            && b <= f <= |l| && l[..b] == list[..b] && (forall k :: 0 <= k < |l| ==> l[k] in list)
                && AllBarren(bottoms, l, b)
            && Step(st) == State(Views(l[b..]), Wrapped(st.inls, po, pc, use), f - b,
                                 st.choices + [Choice(list[i].inlText, Some(list[o].inlText))])
  {
    hide Wrapped, Views, Laid, Place, UseDelims, AllBarren, HasText;
    assert st.ds[o - b] == list[o].View() && st.ds[i - b] == list[i].View();
    var st1 := st.(choices := st.choices + [Choice(list[i].inlText, Some(list[o].inlText))]);
    assert Step(st) == InsertEmph(st1, o - b);
    hide Step, FindOpener, Opens, Closes, Ready;
    assert InsertEmph(st1, o - b) ==
        State(st.ds[..f - b] + st.ds[g - b..], Wrapped(st.inls, po, pc, use), f - b, st1.choices);
    hide *;
    ViewsCut(list, b, f, g);
    StillBarren(bottoms, list, b, f, g);
  }

  /** The step when no emphasis is made. */
  lemma StepGoesOn(list: seq<Delimiter>, b: nat, o: nat, i: nat, found: bool, st: State, list': seq<Delimiter>,
                   i': nat, inls: seq<Inline>)
    requires b <= i < |list| && st.ds == Views(list[b..]) && st.i == i - b && Ready(st) && Closes(list[i].View())
    requires (found ==> b <= o < i) && FindOpener(st.ds, st.i, list[i].delimChar) == if found then Some(o - b) else None
    requires !(IsStar(list[i].delimChar) && found)
    requires var quoted := SetText(st.inls, list[i].inlText, RightQuote(list[i].delimChar));
             inls == if !IsQuote(list[i].delimChar) then st.inls
                 else if found then SetText(quoted, list[o].inlText, LeftQuote(list[i].delimChar)) else quoted
    requires if !found && !list[i].canOpen then list' == Drop(list, i) && i' == i else list' == list && i' == i + 1
    ensures b <= i' <= |list'| && list'[..b] == list[..b] && (forall k :: 0 <= k < |list'| ==> list'[k] in list)
    ensures var choice := Choice(list[i].inlText, if found then Some(list[o].inlText) else None);
            Step(st) == State(Views(list'[b..]), inls, i' - b, st.choices + [choice])
  {
    hide SetText, Views, Laid, HasText, Place;
    ViewsCut(list, b, i, i + 1);
    assert st.ds[i - b] == list[i].View() && (found ==> st.ds[o - b] == list[o].View());
  }
}
