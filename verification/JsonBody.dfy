/** The bodies of strings as the lexer accepts them, and what becomes of them when they are decoded. The decoder of
    deps/yajl/src/yajl_encode.c loses step with the lexer behind a high surrogate that has no partner. */
module JsonBody {
  import opened Bytes
  import opened Optional
  import opened Rfc8259
  import opened JsonString

  predicate FourDigits(s: seq<byte>, i: nat) { i + 4 <= |s| && forall k :: i <= k < i + 4 ==> HexValue(s[k]).Some? }

  /** What may stand between two quotes: octets that are neither quotes nor controls, and escapes. When strings are
      validated, n continuation octets are due. */
  predicate BodyAt(utf8: bool, n: nat, s: seq<byte>, i: nat)
    requires i <= |s|
    decreases |s| - i
  {
    if i == |s| then n == 0
    else if n > 0 then IsTrail(s[i]) && BodyAt(utf8, n - 1, s, i + 1)
    else if s[i] == 0x5C then
      if i + 1 < |s| && s[i + 1] == 0x75 then FourDigits(s, i + 2) && BodyAt(utf8, 0, s, i + 6)
      else i + 1 < |s| && ShortEscape(s[i + 1]).Some? && BodyAt(utf8, 0, s, i + 2)
    else
      && s[i] >= 0x20 && s[i] != 0x22
      && if utf8 then Leads(s[i]).Some? && BodyAt(utf8, Leads(s[i]).value, s, i + 1)
         else BodyAt(utf8, 0, s, i + 1)
  }

  // ---------------------------------------------------------------- a scan of the body

  /** At a place where the lexer starts a new octet or escape: the decoder is there too; or it has just read a high
      surrogate; or it has taken the octet before, the second of an escaped backslash, for the start of an escape. */
  datatype Mode = Calm | High | Loose

  datatype Hop = Go(next: nat, mode: Mode, torn: bool) | Stop

  function AfterHex(s: seq<byte>, i: nat): Mode {
    if FourNibbles(s, i) && IsHighSurrogate(Hex4(s, i)) then High else Calm
  }

  /** From one place to the next. An octet behind a lone surrogate is swallowed: when it is the first of a longer
      UTF-8 sequence that is torn. */
  function HopFrom(s: seq<byte>, i: nat, mode: Mode): (h: Hop)
    requires i < |s|
    ensures h.Go? ==> h.next > i
  {
    var c, d := s[i], Peek(s, i + 1);
    match mode
    case Calm =>
      if c != BACKSLASH then Go(i + 1, Calm, false)
      else if d == LETTER_U then Go(i + 6, AfterHex(s, i + 2), false)
      else Go(i + 2, Calm, false)
    case High =>
      if c != BACKSLASH then Go(i + 1, Calm, Continuations(c) > 0)
      else if d == LETTER_U then Go(i + 6, Calm, false)
      else Go(i + 2, if d == BACKSLASH then Loose else Calm, false)
    case Loose =>
      if c == BACKSLASH then
        if d == LETTER_U then Go(i + 6, Calm, false) else Go(i + 2, if d == BACKSLASH then Loose else Calm, false)
      else if c == LETTER_U then
        if FourNibbles(s, i + 1) then Go(i + 5, AfterHex(s, i + 1), false) else Stop
      else if Simple(c).Some? then Go(i + 1, Calm, false)
      else Stop
  }

  /** The scan meets nothing that stops the program. */
  predicate Steady(s: seq<byte>, i: nat, mode: Mode)
    decreases |s| - i
  {
    i >= |s| || (HopFrom(s, i, mode).Go? && Steady(s, HopFrom(s, i, mode).next, HopFrom(s, i, mode).mode))
  }

  /** The scan meets a sequence that is torn. */
  predicate Tears(s: seq<byte>, i: nat, mode: Mode)
    decreases |s| - i
  {
    i < |s| && HopFrom(s, i, mode).Go?
    && (HopFrom(s, i, mode).torn || Tears(s, HopFrom(s, i, mode).next, HopFrom(s, i, mode).mode))
  }

  /** Where the decoder was before it read what the mode tells about. */
  function Behind(i: nat, mode: Mode): int { match mode case Calm => i case High => i - 6 case Loose => i - 1 }

  predicate IsThere(s: seq<byte>, i: nat, mode: Mode) {
    match mode
    case Calm => true
    case High =>
      && 6 <= i <= |s| && s[i - 6] == BACKSLASH && s[i - 5] == LETTER_U
      && FourNibbles(s, i - 4) && IsHighSurrogate(Hex4(s, i - 4))
    case Loose => 0 < i <= |s| && s[i - 1] == BACKSLASH
  }


  /** What the decoder adds on the way to the next place. */
  function Added(s: seq<byte>, i: nat, mode: Mode): seq<byte>
    requires i < |s| && HopFrom(s, i, mode).Go? && IsThere(s, i, mode)
  {
    var c, d := s[i], Peek(s, i + 1);
    match mode
    case Calm =>
      if c != BACKSLASH then [c]
      else if d == LETTER_U then HexAdds(s, i + 2)
      else if Simple(d).Some? then [Simple(d).value] else []
    case High =>
      if c != BACKSLASH || d == BACKSLASH then [QUESTION]
      else if d != LETTER_U then [QUESTION, d]
      else if FourNibbles(s, i + 2) then Utf8(PairValue(Hex4(s, i - 4), Hex4(s, i + 2))) else []
    case Loose =>
      if c == BACKSLASH then
        if d == LETTER_U && i + 6 <= |s| then [BACKSLASH] + s[i + 1..i + 6]
        else if d == BACKSLASH then [BACKSLASH] else [BACKSLASH, d]
      else if c == LETTER_U then HexAdds(s, i + 1)
      else [Simple(c).value]
  }

  function HexAdds(s: seq<byte>, i: nat): seq<byte> {
    if FourNibbles(s, i) && !IsHighSurrogate(Hex4(s, i)) then Utf8(Hex4(s, i)) else []
  }

  /** The continuation octets that are due at the next place. */
  function Due(utf8: bool, n: nat, s: seq<byte>, i: nat): nat
    requires i < |s|
  {
    if n > 0 then n - 1 else if utf8 && Continuations(s[i]) < 4 then Continuations(s[i]) else 0
  }

  lemma DigitsAreNibbles(s: seq<byte>, i: nat)
    requires FourDigits(s, i)
    ensures FourNibbles(s, i) && i + 4 <= |s| && forall k :: i <= k < i + 4 ==> s[k] != BACKSLASH
  {
  }

  lemma NibblesAreInside(s: seq<byte>, i: nat)
    requires FourNibbles(s, i)
    ensures i + 4 <= |s| && forall k :: i <= k < i + 4 ==> s[k] != BACKSLASH && s[k] != QUOTE && 0x20 <= s[k] < 0x80
  {
    assert Nibble(Peek(s, i + 3)).Some?;
    forall k | i <= k < i + 4 ensures s[k] != BACKSLASH && s[k] != QUOTE && 0x20 <= s[k] < 0x80 {
      assert Nibble(Peek(s, k)).Some?;
    }
  }

  lemma PlainOctet(s: seq<byte>, i: nat)
    requires i < |s| && s[i] != BACKSLASH
    ensures Decode(s, i) == Prepend([s[i]], Decode(s, i + 1))
  {
  }

  lemma {:induction false} PlainOctets(s: seq<byte>, i: nat, j: nat)
    requires i <= j <= |s| && forall k :: i <= k < j ==> s[k] != BACKSLASH
    ensures Decode(s, i) == Prepend(s[i..j], Decode(s, j))
    decreases j - i
  {
    if i < j {
      PlainOctets(s, i + 1, j);
      PrependTwice([s[i]], s[i + 1..j], Decode(s, j));
      assert [s[i]] + s[i + 1..j] == s[i..j];
      PlainOctet(s, i);
    } else {
      assert s[i..j] == [] == [] + [];
      PrependNothing(Decode(s, j));
    }
    hide Decode, Prepend;
  }

  /** The body goes on at the next place. */
  lemma HopStays(utf8: bool, n: nat, s: seq<byte>, i: nat, mode: Mode)
    requires i < |s| && BodyAt(utf8, n, s, i) && IsThere(s, i, mode) && (n > 0 ==> mode.Calm?)
    ensures var h := HopFrom(s, i, mode);
            h.Go? ==> h.next <= |s| && BodyAt(utf8, Due(utf8, n, s, i), s, h.next) && IsThere(s, h.next, h.mode)
                      && (Due(utf8, n, s, i) > 0 ==> h.mode.Calm?)
  {
    if s[i] == BACKSLASH && n == 0 && s[i + 1] == LETTER_U {
      DigitsAreNibbles(s, i + 2);
    } else if mode.Loose? && s[i] == LETTER_U && FourNibbles(s, i + 1) {
      NibblesAreInside(s, i + 1);
      BodyGoesOn(utf8, s, i, i + 5);
    }
  }

  lemma {:induction false} BodyGoesOn(utf8: bool, s: seq<byte>, i: nat, j: nat)
    requires i <= j <= |s| && BodyAt(utf8, 0, s, i) && forall k :: i <= k < j ==> s[k] != BACKSLASH && s[k] < 0x80
    ensures BodyAt(utf8, 0, s, j)
    decreases j - i
  {
    if i < j {
      BodyGoesOn(utf8, s, i + 1, j);
    }
  }

  lemma HopDecodes(utf8: bool, n: nat, s: seq<byte>, i: nat, mode: Mode)
    requires i < |s| && BodyAt(utf8, n, s, i) && IsThere(s, i, mode) && (n > 0 ==> mode.Calm?)
    ensures var h := HopFrom(s, i, mode);
            if h.Stop? then Decode(s, Behind(i, mode)) == None
            else IsThere(s, h.next, h.mode)
                 && Decode(s, Behind(i, mode)) == Prepend(Added(s, i, mode), Decode(s, Behind(h.next, h.mode)))
  {
    HopStays(utf8, n, s, i, mode);
    match mode
    case Calm => CalmDecodes(utf8, n, s, i);
    case High => HighDecodes(utf8, s, i);
    case Loose => LooseDecodes(utf8, s, i);
  }

  lemma CalmDecodes(utf8: bool, n: nat, s: seq<byte>, i: nat)
    requires i < |s| && BodyAt(utf8, n, s, i)
    ensures var h := HopFrom(s, i, Calm);
            IsThere(s, h.next, h.mode) ==> Decode(s, i) == Prepend(Added(s, i, Calm), Decode(s, Behind(h.next, h.mode)))
  {
    hide Utf8, PairValue;
    if s[i] == BACKSLASH && s[i + 1] == LETTER_U {
      DigitsAreNibbles(s, i + 2);
      PrependEmpty(Decode(s, i));
    }
  }

  lemma PrependEmpty(rest: Option<seq<byte>>)
    ensures Prepend([], rest) == rest
  {
    assert rest.Some? ==> [] + rest.value == rest.value;
  }

  lemma HighDecodes(utf8: bool, s: seq<byte>, i: nat)
    requires i < |s| && BodyAt(utf8, 0, s, i) && IsThere(s, i, High)
    ensures var h := HopFrom(s, i, High);
            Decode(s, i - 6) == Prepend(Added(s, i, High), Decode(s, Behind(h.next, h.mode)))
  {
    hide Utf8, PairValue;
    if s[i] == BACKSLASH && s[i + 1] == LETTER_U {
      DigitsAreNibbles(s, i + 2);
    } else if s[i] == BACKSLASH && s[i + 1] != BACKSLASH {
      PlainOctet(s, i + 1);
      PrependTwice([QUESTION], [s[i + 1]], Decode(s, i + 2));
      assert [QUESTION] + [s[i + 1]] == [QUESTION, s[i + 1]];
    }
  }

  lemma LooseDecodes(utf8: bool, s: seq<byte>, i: nat)
    requires i < |s| && BodyAt(utf8, 0, s, i) && IsThere(s, i, Loose)
    ensures var h := HopFrom(s, i, Loose);
            if h.Stop? then Decode(s, i - 1) == None
            else IsThere(s, h.next, h.mode) ==>
                 Decode(s, i - 1) == Prepend(Added(s, i, Loose), Decode(s, Behind(h.next, h.mode)))
  {
    hide Utf8, PairValue, Decode, Hex4, IsHighSurrogate;
    EscapeOctets(s, i - 1);
    if s[i] == BACKSLASH {
      assert Unescape(s, i) == Gives([BACKSLASH], i + 1);
      LooseBackslash(utf8, s, i);
    } else if s[i] == LETTER_U {
      assert Unescape(s, i) == UnescapeHex(s, i + 1);
      PrependEmpty(Decode(s, i - 1));
    }
  }

  /** The second backslash of an escape begins another one, and the decoder takes the first for a whole escape. */
  lemma LooseBackslash(utf8: bool, s: seq<byte>, i: nat)
    requires i < |s| && BodyAt(utf8, 0, s, i) && IsThere(s, i, Loose) && s[i] == BACKSLASH
    ensures var h := HopFrom(s, i, Loose);
            Prepend([BACKSLASH], Decode(s, i + 1)) == Prepend(Added(s, i, Loose), Decode(s, Behind(h.next, h.mode)))
  {
    hide Decode, Unescape, Utf8;
    if s[i + 1] == LETTER_U {
      DigitsAreNibbles(s, i + 2);
      PlainOctets(s, i + 1, i + 6);
      PrependTwice([BACKSLASH], s[i + 1..i + 6], Decode(s, i + 6));
    } else if s[i + 1] != BACKSLASH {
      PlainOctet(s, i + 1);
      PrependTwice([BACKSLASH], [s[i + 1]], Decode(s, i + 2));
      assert [BACKSLASH] + [s[i + 1]] == [BACKSLASH, s[i + 1]];
    }
  }

  /** At the end the closing quote is looked at, and perhaps taken for a part of the body. */
  lemma EndDecodes(s: seq<byte>, mode: Mode)
    requires IsThere(s, |s|, mode)
    ensures Decode(s, Behind(|s|, mode)) ==
            Some(match mode case Calm => [] case High => [QUESTION] case Loose => [QUOTE])
  {
    match mode
    case Calm =>
    case High => EndHigh(s);
    case Loose => EndLoose(s);
  }

  lemma EndHigh(s: seq<byte>)
    requires IsThere(s, |s|, High)
    ensures Decode(s, |s| - 6) == Some([QUESTION])
  {
    hide Utf8, PairValue, Hex4, FourNibbles, IsHighSurrogate, Decode;
    var i := |s| - 6;
    assert Unescape(s, i + 1) == UnescapeHex(s, i + 2);
    assert UnescapeHex(s, i + 2) == Gives([QUESTION], i + 7);
    hide Unescape, UnescapeHex;
    EscapeOctets(s, i);
    assert Decode(s, i + 7) == Some([]) && [QUESTION] + [] == [QUESTION];
  }

  /** One escape. */
  lemma EscapeOctets(s: seq<byte>, i: nat)
    requires i < |s| && s[i] == BACKSLASH
    ensures var u := Unescape(s, i + 1);
            Decode(s, i) == if u.Halts? then None else Prepend(u.text, Decode(s, u.next))
    ensures forall j: nat :: j >= |s| ==> Decode(s, j) == Some([])
  {
    hide Unescape;
  }

  lemma EndLoose(s: seq<byte>)
    requires IsThere(s, |s|, Loose)
    ensures Decode(s, |s| - 1) == Some([QUOTE])
  {
    hide Decode;
    var i := |s|;
    assert Unescape(s, i) == Gives([QUOTE], i + 1);
    hide Unescape;
    EscapeOctets(s, i - 1);
    assert Decode(s, i + 1) == Some([]) && [QUOTE] + [] == [QUOTE];
  }

  lemma {:induction false} SteadyFrom(utf8: bool, n: nat, s: seq<byte>, i: nat, mode: Mode)
    requires i <= |s| && BodyAt(utf8, n, s, i) && IsThere(s, i, mode) && (n > 0 ==> mode.Calm?)
    ensures Decode(s, Behind(i, mode)).Some? <==> Steady(s, i, mode)
    decreases |s| - i
  {
    if i == |s| {
      EndDecodes(s, mode);
    } else {
      var h := HopFrom(s, i, mode);
      HopStays(utf8, n, s, i, mode);
      HopDecodes(utf8, n, s, i, mode);
      hide HopFrom, Decode, Due, BodyAt;
      if h.Go? {
        SteadyFrom(utf8, Due(utf8, n, s, i), s, h.next, h.mode);
      }
    }
  }

  /** A body that the lexer accepts is decoded without meeting an assertion if and only if the scan is steady. */
  lemma SteadyIs(utf8: bool, s: seq<byte>)
    requires BodyAt(utf8, 0, s, 0)
    ensures Decode(s, 0).Some? <==> Steady(s, 0, Calm)
  {
    SteadyFrom(utf8, 0, s, 0, Calm);
  }

  /** A high surrogate directly before an escaped backslash. */
  predicate LoneAt(s: seq<byte>, i: nat) {
    && i + 8 <= |s| && s[i] == BACKSLASH && s[i + 1] == LETTER_U && FourNibbles(s, i + 2)
    && IsHighSurrogate(Hex4(s, i + 2)) && s[i + 6] == BACKSLASH && s[i + 7] == BACKSLASH
  }

  lemma {:induction false} SteadyWithout(utf8: bool, n: nat, s: seq<byte>, i: nat, mode: Mode)
    requires i <= |s| && BodyAt(utf8, n, s, i) && IsThere(s, i, mode) && !mode.Loose? && (n > 0 ==> mode.Calm?)
    requires forall k :: !LoneAt(s, k)
    ensures Steady(s, i, mode)
    decreases |s| - i
  {
    if i < |s| {
      var h := HopFrom(s, i, mode);
      HopStays(utf8, n, s, i, mode);
      assert mode.High? ==> !LoneAt(s, i - 6);
      hide BodyAt, Due, IsThere;
      SteadyWithout(utf8, Due(utf8, n, s, i), s, h.next, h.mode);
    }
  }

  /** Decoding stops the program only behind a high surrogate that stands directly before an escaped backslash. */
  lemma StopsOnlyBehindLone(utf8: bool, s: seq<byte>)
    requires BodyAt(utf8, 0, s, 0) && Decode(s, 0).None?
    ensures exists k :: LoneAt(s, k)
  {
    SteadyIs(utf8, s);
    if forall k :: !LoneAt(s, k) {
      SteadyWithout(utf8, 0, s, 0, Calm);
    }
    hide BodyAt, Steady;
  }

  // ---------------------------------------------------------------- what the decoded text is worth

  /** The continuation octets that are due behind a; None when a breaks a sequence. */
  function DueAfter(n: nat, a: seq<byte>): Option<nat>
    decreases |a|
  {
    if a == [] then Some(n)
    else if n > 0 then if IsContinuation(a[0]) then DueAfter(n - 1, a[1..]) else None
    else if Continuations(a[0]) < 4 then DueAfter(Continuations(a[0]), a[1..]) else None
  }

  lemma {:induction false} ValidShift(n: nat, s: seq<byte>, i: nat)
    requires i < |s|
    ensures ValidFrom(n, s, i + 1) == ValidFrom(n, s[1..], i)
    decreases |s| - i
  {
    if i + 1 < |s| {
      assert s[1..][i] == s[i + 1];
      if n > 0 {
        ValidShift(n - 1, s, i + 1);
      } else {
        ValidShift(Continuations(s[i + 1]), s, i + 1);
      }
    }
  }

  lemma {:induction false} ValidPrepend(n: nat, a: seq<byte>, rest: seq<byte>)
    ensures ValidFrom(n, a + rest, 0) <==> DueAfter(n, a).Some? && ValidFrom(DueAfter(n, a).value, rest, 0)
    decreases |a|
  {
    if a == [] {
      assert a + rest == rest;
    } else {
      assert (a + rest)[1..] == a[1..] + rest;
      if n > 0 {
        ValidShift(n - 1, a + rest, 0);
        ValidPrepend(n - 1, a[1..], rest);
      } else {
        ValidShift(Continuations(a[0]), a + rest, 0);
        ValidPrepend(Continuations(a[0]), a[1..], rest);
      }
    }
  }

  lemma Utf8IsWhole(v: nat)
    requires v < 0x200000
    ensures DueAfter(0, Utf8(v)) == Some(0)
  {
    var a := Utf8(v);
    assert Continuations(a[0]) == |a| - 1;
    TrailIsWhole(a[1..]);
  }

  lemma {:induction false} TrailIsWhole(a: seq<byte>)
    requires forall k :: 0 <= k < |a| ==> IsContinuation(a[k])
    ensures DueAfter(|a|, a) == Some(0)
  {
    if a != [] {
      TrailIsWhole(a[1..]);
    }
  }

  lemma {:induction false} AsciiIsWhole(a: seq<byte>)
    requires forall k :: 0 <= k < |a| ==> a[k] < 0x80
    ensures DueAfter(0, a) == Some(0)
  {
    if a != [] {
      AsciiIsWhole(a[1..]);
    }
  }

  lemma HexAddsIsWhole(s: seq<byte>, i: nat)
    ensures DueAfter(0, HexAdds(s, i)) == Some(0)
  {
    if FourNibbles(s, i) {
      Utf8IsWhole(Hex4(s, i));
    }
    hide Utf8, Hex4;
  }

  lemma AddedIsAscii(utf8: bool, n: nat, s: seq<byte>, i: nat, mode: Mode)
    requires i < |s| && BodyAt(utf8, n, s, i) && IsThere(s, i, mode) && (n > 0 ==> mode.Calm?)
    requires HopFrom(s, i, mode).Go?
    requires match mode
             case Calm => s[i] == BACKSLASH && s[i + 1] != LETTER_U
             case High => s[i] != BACKSLASH || s[i + 1] != LETTER_U
             case Loose => s[i] != LETTER_U
    ensures forall k :: 0 <= k < |Added(s, i, mode)| ==> Added(s, i, mode)[k] < 0x80
  {
    hide Utf8, PairValue, Hex4, HexAdds;
    if s[i] == BACKSLASH && n == 0 && s[i + 1] == LETTER_U {
      NibblesAreInside(s, i + 2) by { DigitsAreNibbles(s, i + 2); }
      hide FourNibbles;
    }
  }

  /** What is added keeps UTF-8 in order, whether or not a sequence is torn. */
  lemma AddedIsWhole(n: nat, s: seq<byte>, i: nat, mode: Mode)
    requires i < |s| && BodyAt(true, n, s, i) && IsThere(s, i, mode) && (n > 0 ==> mode.Calm?)
    requires HopFrom(s, i, mode).Go?
    ensures DueAfter(n, Added(s, i, mode)) == Some(if mode.Calm? then Due(true, n, s, i) else 0)
  {
    var a := Added(s, i, mode);
    hide PairValue, Hex4, HexAdds, Utf8;
    if mode.Calm? && s[i] != BACKSLASH {
      assert a[1..] == [];
    } else if mode.Calm? && s[i + 1] == LETTER_U {
      HexAddsIsWhole(s, i + 2);
    } else if mode.Loose? && s[i] == LETTER_U {
      HexAddsIsWhole(s, i + 1);
    } else if mode.High? && s[i] == BACKSLASH && s[i + 1] == LETTER_U {
      DigitsAreNibbles(s, i + 2);
      Utf8IsWhole(PairValue(Hex4(s, i - 4), Hex4(s, i + 2)));
    } else {
      AddedIsAscii(true, n, s, i, mode);
      hide Added;
      AsciiIsWhole(a);
    }
  }

  lemma TearIsInvalid(s: seq<byte>, i: nat, n: nat)
    requires i <= |s| && BodyAt(true, n, s, i) && n > 0 && Decode(s, i).Some?
    ensures !ValidFrom(0, Decode(s, i).value, 0)
  {
    PlainOctet(s, i);
  }

  lemma {:induction false} TearsFrom(n: nat, s: seq<byte>, i: nat, mode: Mode)
    requires i <= |s| && BodyAt(true, n, s, i) && IsThere(s, i, mode) && (n > 0 ==> mode.Calm?)
    requires Decode(s, Behind(i, mode)).Some?
    ensures ValidFrom(n, Decode(s, Behind(i, mode)).value, 0) <==> !Tears(s, i, mode)
    decreases |s| - i
  {
    if i == |s| {
      EndDecodes(s, mode);
      AsciiIsWhole([QUESTION]);
      AsciiIsWhole([QUOTE]);
    } else {
      var h, due := HopFrom(s, i, mode), Due(true, n, s, i);
      HopStays(true, n, s, i, mode);
      HopDecodes(true, n, s, i, mode);
      var rest := Decode(s, Behind(h.next, h.mode)).value;
      ValidPrepend(n, Added(s, i, mode), rest);
      AddedIsWhole(n, s, i, mode);
      TearsFrom(due, s, h.next, h.mode);
      TornIsDue(n, s, i, mode);
      if h.torn {
        TearIsInvalid(s, h.next, due);
      }
      hide HopFrom, Decode, Due, BodyAt, Added, DueAfter, ValidFrom, IsThere;
    }
  }

  lemma TornIsDue(n: nat, s: seq<byte>, i: nat, mode: Mode)
    requires i < |s| && BodyAt(true, n, s, i) && (n > 0 ==> mode.Calm?) && HopFrom(s, i, mode).Go?
    ensures HopFrom(s, i, mode).torn <==> mode.High? && Due(true, n, s, i) > 0
    ensures Due(true, n, s, i) > 0 ==>
              HopFrom(s, i, mode).next == i + 1 && HopFrom(s, i, mode).mode.Calm? && !mode.Loose?
  {
  }

  /** The text of a body in valid UTF-8 is valid UTF-8 if and only if no lone surrogate tears a sequence. */
  lemma TearsIs(s: seq<byte>)
    requires BodyAt(true, 0, s, 0) && Decode(s, 0).Some?
    ensures ValidFrom(0, Decode(s, 0).value, 0) <==> !Tears(s, 0, Calm)
  {
    TearsFrom(0, s, 0, Calm);
  }

  // ---------------------------------------------------------------- NULs in the decoded text

  predicate ZeroAt(s: seq<byte>, i: nat) { FourNibbles(s, i) && Hex4(s, i) == 0 }

  /** On the way to the next place the decoder reads an escape of four zeros. */
  predicate NulAt(s: seq<byte>, i: nat, mode: Mode)
    requires i < |s|
  {
    match mode
    case Calm => s[i] == BACKSLASH && Peek(s, i + 1) == LETTER_U && ZeroAt(s, i + 2)
    case High => false
    case Loose => s[i] == LETTER_U && ZeroAt(s, i + 1)
  }

  /** The scan meets such an escape. */
  predicate NamesNul(s: seq<byte>, i: nat, mode: Mode)
    decreases |s| - i
  {
    i < |s| && HopFrom(s, i, mode).Go?
    && (NulAt(s, i, mode) || NamesNul(s, HopFrom(s, i, mode).next, HopFrom(s, i, mode).mode))
  }

  lemma Utf8Nul(v: nat)
    requires v < 0x200000
    ensures NUL in Utf8(v) <==> v == 0
  {
  }

  lemma HexAddsNul(s: seq<byte>, i: nat)
    ensures NUL in HexAdds(s, i) <==> ZeroAt(s, i)
  {
    if FourNibbles(s, i) {
      Utf8Nul(Hex4(s, i));
    }
    hide Utf8;
  }

  lemma PairIsNoNul(high: nat, low: nat)
    requires high < 0x10000
    ensures NUL !in Utf8(PairValue(high, low))
  {
    Utf8Nul(PairValue(high, low));
    hide Utf8;
  }

  lemma NoNulIn(s: seq<byte>, i: nat, j: nat)
    requires i <= j <= |s| && forall k :: i <= k < j ==> s[k] != NUL
    ensures NUL !in [BACKSLASH] + s[i..j]
  {
  }

  lemma AddedNul(utf8: bool, n: nat, s: seq<byte>, i: nat, mode: Mode)
    requires i < |s| && BodyAt(utf8, n, s, i) && IsThere(s, i, mode) && (n > 0 ==> mode.Calm?)
    requires HopFrom(s, i, mode).Go?
    ensures NUL in Added(s, i, mode) <==> NulAt(s, i, mode)
  {
    hide Utf8, PairValue, HexAdds, ZeroAt, Hex4;
    if s[i] == BACKSLASH && n == 0 && s[i + 1] == LETTER_U {
      DigitsAreNibbles(s, i + 2);
    }
    match mode
    case Calm => HexAddsNul(s, i + 2);
    case High =>
      if FourNibbles(s, i + 2) {
        PairIsNoNul(Hex4(s, i - 4), Hex4(s, i + 2));
      }
    case Loose =>
      HexAddsNul(s, i + 1);
      if s[i] == BACKSLASH && s[i + 1] == LETTER_U {
        NoNulIn(s, i + 1, i + 6);
      }
  }

  lemma {:induction false} NamesNulFrom(utf8: bool, n: nat, s: seq<byte>, i: nat, mode: Mode)
    requires i <= |s| && BodyAt(utf8, n, s, i) && IsThere(s, i, mode) && (n > 0 ==> mode.Calm?)
    requires Decode(s, Behind(i, mode)).Some?
    ensures NUL in Decode(s, Behind(i, mode)).value <==> NamesNul(s, i, mode)
    decreases |s| - i
  {
    if i == |s| {
      EndDecodes(s, mode);
    } else {
      var h := HopFrom(s, i, mode);
      HopStays(utf8, n, s, i, mode);
      HopDecodes(utf8, n, s, i, mode);
      AddedNul(utf8, n, s, i, mode);
      hide HopFrom, Decode, Due, BodyAt, Added, NulAt, IsThere;
      NamesNulFrom(utf8, Due(utf8, n, s, i), s, h.next, h.mode);
    }
  }

  /** The text of a body has a NUL if and only if the scan meets an escape that names it. */
  lemma NamesNulIs(utf8: bool, s: seq<byte>)
    requires BodyAt(utf8, 0, s, 0) && Decode(s, 0).Some?
    ensures NUL in Decode(s, 0).value <==> NamesNul(s, 0, Calm)
  {
    NamesNulFrom(utf8, 0, s, 0, Calm);
  }

  /** A body without a backslash has none. */
  lemma {:induction false} PlainHasNoNul(utf8: bool, n: nat, s: seq<byte>, i: nat)
    requires i <= |s| && BodyAt(utf8, n, s, i) && forall k :: i <= k < |s| ==> s[k] != BACKSLASH
    ensures forall k :: i <= k < |s| ==> s[k] != NUL
    decreases |s| - i
  {
    if i < |s| {
      PlainHasNoNul(utf8, Due(utf8, n, s, i), s, i + 1);
    }
  }
}
