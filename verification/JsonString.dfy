/** String bodies: deps/yajl/src/yajl_encode.c. */
module JsonString {
  import opened Bytes
  import opened Optional

  const QUESTION: byte := 0x3F
  const LETTER_U: byte := 0x75

  // ---------------------------------------------------------------- encoding

  function HexChar(v: nat): byte
    requires v < 16
  {
    if v < 10 then 0x30 + v else 0x37 + v
  }

  /** The escape for one byte, or the byte itself. */
  function EncodeByte(c: byte, solidus: bool): (r: seq<byte>)
    ensures 1 <= |r| <= 6
    ensures if |r| == 1 then r == [c] && c != BACKSLASH else r[0] == BACKSLASH && c < 0x80
  {
    if c == CR then [BACKSLASH, 0x72]
    else if c == LF then [BACKSLASH, 0x6E]
    else if c == BACKSLASH then [BACKSLASH, BACKSLASH]
    else if c == SLASH && solidus then [BACKSLASH, SLASH]
    else if c == QUOTE then [BACKSLASH, QUOTE]
    else if c == FF then [BACKSLASH, 0x66]
    else if c == 0x08 then [BACKSLASH, 0x62]
    else if c == TAB then [BACKSLASH, 0x74]
    else if c < 32 then [BACKSLASH, LETTER_U, ZERO, ZERO, HexChar(c / 16), HexChar(c % 16)]
    else [c]
  }

  predicate Escapes(c: byte, solidus: bool) { |EncodeByte(c, solidus)| > 1 }

  function Encode(s: seq<byte>, i: nat, solidus: bool): seq<byte>
    requires i <= |s|
    decreases |s| - i
  {
    if i == |s| then [] else EncodeByte(s[i], solidus) + Encode(s, i + 1, solidus)
  }

  /** yajl_string_encode: runs of bytes that need no escape are printed as they are. */
  method StringEncode(str: seq<byte>, solidus: bool) returns (out: seq<byte>)
    ensures out == Encode(str, 0, solidus)
  {
    hide EncodeByte;
    var beg, end := 0, 0;
    out := [];
    while end < |str|
      invariant 0 <= beg <= end <= |str|
      invariant out + str[beg..end] + Encode(str, end, solidus) == Encode(str, 0, solidus)
    {
      var escaped := EncodeByte(str[end], solidus);
      ghost var before := out + str[beg..end];
      if |escaped| > 1 {
        out := out + str[beg..end] + escaped;
        end := end + 1;
        beg := end;
      } else {
        end := end + 1;
        assert str[beg..end] == str[beg..end - 1] + escaped;
      }
      assert out + str[beg..end] == before + escaped;
    }
    out := out + str[beg..end];
  }

  // ---------------------------------------------------------------- decoding

  /** What hexToDigit makes of one octet: the value of a hexadecimal digit, and of seven octets that are none. For
      every other octet it stops at its assertion. */
  function Nibble(c: byte): (v: Option<nat>)
    ensures v.Some? ==> v.value < 16
  {
    if 0x30 <= c <= 0x3F then Some(c - 0x30)
    else if 0x41 <= c <= 0x46 then Some(c - 0x37)
    else if c == 0x60 then Some(9)
    else if 0x61 <= c <= 0x66 then Some(c - 0x57)
    else None
  }

  /** Octets beyond the body: the closing quote. */
  function Peek(s: seq<byte>, i: nat): byte { if i < |s| then s[i] else QUOTE }

  predicate FourNibbles(s: seq<byte>, i: nat) { forall k :: i <= k < i + 4 ==> Nibble(Peek(s, k)).Some? }

  function Hex4(s: seq<byte>, i: nat): (v: nat)
    requires FourNibbles(s, i)
    ensures v < 0x10000
  {
    Nibble(Peek(s, i)).value * 4096 + Nibble(Peek(s, i + 1)).value * 256
    + Nibble(Peek(s, i + 2)).value * 16 + Nibble(Peek(s, i + 3)).value
  }

  predicate IsHighSurrogate(v: nat) { v / 0x400 == 0x36 }

  /** The code point of a surrogate pair, put together the way the C code does it. */
  function PairValue(high: nat, low: nat): (v: nat)
    requires high < 0x10000
    ensures v < 0x200000
  {
    (high % 64) * 1024 + (high / 64 % 16 + 1) * 65536 + low % 1024
  }

  /** The formula is the one of Unicode (RFC 8259 section 7), for every pair of surrogates. */
  lemma PairValueIsCodePoint(high: nat, low: nat)
    requires 0xD800 <= high < 0xDC00 && 0xDC00 <= low < 0xE000
    ensures PairValue(high, low) == 0x10000 + (high - 0xD800) * 0x400 + (low - 0xDC00)
    ensures 0x10000 <= PairValue(high, low) <= 0x10FFFF
  {
    var a, b := high / 64, high % 64;
    assert high == a * 64 + b && 0x360 <= a < 0x370 && a % 16 == a - 0x360;
    assert low % 1024 == low - 0xDC00;
  }

  function Utf8(v: nat): (r: seq<byte>)
    requires v < 0x200000
    ensures 1 <= |r| <= 4
  {
    if v < 0x80 then [v]
    else if v < 0x800 then [0xC0 + v / 64, 0x80 + v % 64]
    else if v < 0x10000 then [0xE0 + v / 4096, 0x80 + v / 64 % 64, 0x80 + v % 64]
    else [0xF0 + v / 262144, 0x80 + v / 4096 % 64, 0x80 + v / 64 % 64, 0x80 + v % 64]
  }

  /** The letters of the escapes that stand for one octet. */
  function Simple(c: byte): Option<byte> {
    if c == 0x72 then Some(CR)
    else if c == 0x6E then Some(LF)
    else if c == BACKSLASH then Some(BACKSLASH)
    else if c == SLASH then Some(SLASH)
    else if c == QUOTE then Some(QUOTE)
    else if c == 0x66 then Some(FF)
    else if c == 0x62 then Some(0x08)
    else if c == 0x74 then Some(TAB)
    else None
  }

  /** What an escape stands for, and where decoding goes on; or the program stops at an assertion. */
  datatype Unescaped = Gives(text: seq<byte>, next: nat) | Halts

  /** The escape whose four digits start at i. */
  function UnescapeHex(s: seq<byte>, i: nat): (r: Unescaped)
    ensures r.Gives? ==> r.next > i
  {
    if !FourNibbles(s, i) then Halts
    else if !IsHighSurrogate(Hex4(s, i)) then Gives(Utf8(Hex4(s, i)), i + 4)
    else if !(Peek(s, i + 4) == BACKSLASH && Peek(s, i + 5) == LETTER_U) then Gives([QUESTION], i + 5)
    else if !FourNibbles(s, i + 6) then Halts
    else Gives(Utf8(PairValue(Hex4(s, i), Hex4(s, i + 6))), i + 10)
  }

  /** The escape whose letter is at i. */
  function Unescape(s: seq<byte>, i: nat): (r: Unescaped)
    ensures r.Gives? ==> r.next > i
  {
    var c := Peek(s, i);
    if Simple(c).Some? then Gives([Simple(c).value], i + 1)
    else if c == LETTER_U then UnescapeHex(s, i + 1)
    else Halts
  }

  function Prepend(a: seq<byte>, rest: Option<seq<byte>>): Option<seq<byte>> {
    if rest.None? then None else Some(a + rest.value)
  }

  /** The body from i on; None when the program stops at an assertion. */
  function Decode(s: seq<byte>, i: nat): Option<seq<byte>>
    decreases |s| - i
  {
    if i >= |s| then Some([])
    else if s[i] != BACKSLASH then Prepend([s[i]], Decode(s, i + 1))
    else if Unescape(s, i + 1).Halts? then None
    else Prepend(Unescape(s, i + 1).text, Decode(s, Unescape(s, i + 1).next))
  }

  lemma PrependTwice(a: seq<byte>, b: seq<byte>, rest: Option<seq<byte>>)
    ensures Prepend(a, Prepend(b, rest)) == Prepend(a + b, rest)
  {
    assert rest.Some? ==> a + (b + rest.value) == a + b + rest.value;
  }

  /** yajl_string_decode; None when it stops at an assertion. */
  method StringDecode(str: seq<byte>) returns (r: Option<seq<byte>>)
    ensures r == Decode(str, 0)
  {
    hide Unescape, Prepend;
    var beg, end := 0, 0;
    var buf := [];
    PrependNothing(Decode(str, 0));
    while end < |str|
      invariant 0 <= beg <= end && (end > |str| ==> beg == end)
      invariant Prepend(if end <= |str| then buf + str[beg..end] else buf, Decode(str, end)) == Decode(str, 0)
      decreases |str| - end
    {
      ghost var before := buf + str[beg..end];
      if str[end] == BACKSLASH {
        buf := buf + str[beg..end];
        var unescaped := DecodeEscape(str, end + 1);
        if unescaped.Halts? {
          PrependNone(before);
          return None;
        }
        PrependTwice(before, unescaped.text, Decode(str, unescaped.next));
        buf := buf + unescaped.text;
        beg, end := unescaped.next, unescaped.next;
        assert end <= |str| ==> buf + str[beg..end] == buf;
      } else {
        PrependTwice(before, [str[end]], Decode(str, end + 1));
        end := end + 1;
        assert buf + str[beg..end] == before + [str[end - 1]];
      }
    }
    assert end <= |str| ==> beg < |str| || buf + str[beg..end] == buf;
    if beg < |str| {
      buf := buf + str[beg..end];
    }
    AppendNothing(buf);
    return Some(buf);
  }

  lemma PrependNothing(rest: Option<seq<byte>>)
    ensures Prepend([] + [], rest) == rest
  {
    assert rest.Some? ==> [] + [] + rest.value == rest.value;
  }

  lemma PrependNone(a: seq<byte>)
    ensures Prepend(a, None) == None
  {
  }

  lemma AppendNothing(a: seq<byte>)
    ensures Prepend(a, Some([])) == Some(a)
  {
    assert a + [] == a;
  }

  /** The switch of yajl_string_decode on the octet after a backslash. */
  method DecodeEscape(str: seq<byte>, letter: nat) returns (r: Unescaped)
    ensures r == Unescape(str, letter)
  {
    var end := letter;
    var c := Peek(str, end);
    var unescaped := [QUESTION];
    if c == 0x72 { unescaped := [CR]; }
    else if c == 0x6E { unescaped := [LF]; }
    else if c == BACKSLASH { unescaped := [BACKSLASH]; }
    else if c == SLASH { unescaped := [SLASH]; }
    else if c == QUOTE { unescaped := [QUOTE]; }
    else if c == 0x66 { unescaped := [FF]; }
    else if c == 0x62 { unescaped := [0x08]; }
    else if c == 0x74 { unescaped := [TAB]; }
    else if c == LETTER_U {
      end := end + 1;
      var digits := HexToDigit(str, end);
      if digits.None? { return Halts; }
      var codepoint: nat := digits.value;
      end := end + 3;
      if IsHighSurrogate(codepoint) {
        end := end + 1;
        if Peek(str, end) == BACKSLASH && Peek(str, end + 1) == LETTER_U {
          var surrogate := HexToDigit(str, end + 2);
          if surrogate.None? { return Halts; }
          codepoint := PairValue(codepoint, surrogate.value);
          end := end + 5;
          unescaped := Utf8(codepoint);
        }
      } else {
        unescaped := Utf8(codepoint);
      }
    } else {
      return Halts;
    }
    return Gives(unescaped, end + 1);
  }

  /** hexToDigit; None when it stops at its assertion. */
  method HexToDigit(str: seq<byte>, i: nat) returns (val: Option<nat>)
    ensures val == if FourNibbles(str, i) then Some(Hex4(str, i)) else None
  {
    var v := 0;
    for k := 0 to 4
      invariant forall j :: i <= j < i + k ==> Nibble(Peek(str, j)).Some?
      invariant k == 0 ==> v == 0
      invariant k == 1 ==> v == Nibble(Peek(str, i)).value
      invariant k == 2 ==> v == Nibble(Peek(str, i)).value * 16 + Nibble(Peek(str, i + 1)).value
      invariant k == 3 ==> v == Nibble(Peek(str, i)).value * 256 + Nibble(Peek(str, i + 1)).value * 16
                                + Nibble(Peek(str, i + 2)).value
      invariant k == 4 ==> FourNibbles(str, i) && v == Hex4(str, i)
    {
      var digit := Nibble(Peek(str, i + k));
      if digit.None? { return None; }
      v := v * 16 + digit.value;
    }
    return Some(v);
  }

  lemma UnescapeOne(c: byte, solidus: bool, t: seq<byte>, k: nat)
    requires Escapes(c, solidus) && k + |EncodeByte(c, solidus)| <= |t|
    requires t[k..k + |EncodeByte(c, solidus)|] == EncodeByte(c, solidus)
    ensures Unescape(t, k + 1) == Gives([c], k + |EncodeByte(c, solidus)|)
  {
    var e := EncodeByte(c, solidus);
    var u := t[k..k + |e|];
    assert t[k + 1] == u[1];
    if |e| == 6 {
      assert t[k + 2] == u[2] && t[k + 3] == u[3] && t[k + 4] == u[4] && t[k + 5] == u[5];
      EscapedControl(t, k + 1, c);
    }
  }

  lemma DecodeOne(c: byte, solidus: bool, t: seq<byte>, k: nat)
    requires k + |EncodeByte(c, solidus)| <= |t|
    requires t[k..k + |EncodeByte(c, solidus)|] == EncodeByte(c, solidus)
    ensures Decode(t, k) == Prepend([c], Decode(t, k + |EncodeByte(c, solidus)|))
  {
    if Escapes(c, solidus) {
      UnescapeOne(c, solidus, t, k);
    }
    hide EncodeByte, Unescape;
    assert t[k] == t[k..k + |EncodeByte(c, solidus)|][0];
  }

  lemma SplitTail(t: seq<byte>, k: nat, e: seq<byte>, rest: seq<byte>)
    requires k <= |t| && t[k..] == e + rest
    ensures k + |e| <= |t| && t[k..k + |e|] == e && t[k + |e|..] == rest
  {
    assert t[k..k + |e|] == t[k..][..|e|] && t[k + |e|..] == t[k..][|e|..];
  }

  /** Decoding undoes encoding: wherever the encoding of s from i on ends a text, it decodes to s[i..]. */
  lemma {:induction false} DecodeUndoesEncode(s: seq<byte>, i: nat, solidus: bool, t: seq<byte>, k: nat)
    requires i <= |s| && k <= |t| && t[k..] == Encode(s, i, solidus)
    ensures Decode(t, k) == Some(s[i..])
    decreases |s| - i
  {
    hide EncodeByte, Unescape;
    if i < |s| {
      var e := EncodeByte(s[i], solidus);
      SplitTail(t, k, e, Encode(s, i + 1, solidus));
      DecodeOne(s[i], solidus, t, k);
      DecodeUndoesEncode(s, i + 1, solidus, t, k + |e|);
      assert s[i..] == [s[i]] + s[i + 1..];
      hide Decode, Encode;
    } else {
      assert |t[k..]| == 0 && s[i..] == [];
    }
  }

  lemma EscapedControl(t: seq<byte>, k: nat, c: byte)
    requires c < 32 && k + 5 <= |t|
    requires t[k] == LETTER_U && t[k + 1] == t[k + 2] == ZERO && t[k + 3] == HexChar(c / 16)
    requires t[k + 4] == HexChar(c % 16)
    ensures Unescape(t, k) == Gives([c], k + 5)
  {
    assert Nibble(HexChar(c / 16)) == Some(c / 16) && Nibble(HexChar(c % 16)) == Some(c % 16)
        && Nibble(ZERO) == Some(0);
    assert FourNibbles(t, k + 1);
    assert Hex4(t, k + 1) == c;
  }

  // ---------------------------------------------------------------- validation

  /** Lead bytes and continuation bytes alternate as they should; n continuation bytes are still due. */
  predicate ValidFrom(n: nat, s: seq<byte>, i: nat)
    requires i <= |s|
    decreases |s| - i
  {
    if i == |s| then n == 0
    else if n > 0 then IsContinuation(s[i]) && ValidFrom(n - 1, s, i + 1)
    else Continuations(s[i]) < 4 && ValidFrom(Continuations(s[i]), s, i + 1)
  }

  /** yajl_string_validate_utf8. */
  method ValidateUtf8(s: seq<byte>) returns (ok: bool)
    ensures ok == ValidFrom(0, s, 0)
  {
    var i := 0;
    while i < |s|
      invariant i <= |s| && ValidFrom(0, s, 0) == ValidFrom(0, s, i)
    {
      var c := s[i];
      if c <= 0x7F {
      } else if c / 32 == 0x06 {
        i := i + 1;
        if i == |s| || s[i] / 64 != 2 { return false; }
      } else if c / 16 == 0x0E {
        i := i + 1;
        if i == |s| || s[i] / 64 != 2 { return false; }
        assert ValidFrom(0, s, 0) == ValidFrom(1, s, i + 1);
        i := i + 1;
        if i == |s| || s[i] / 64 != 2 { return false; }
      } else if c / 8 == 0x1E {
        i := i + 1;
        if i == |s| || s[i] / 64 != 2 { return false; }
        assert ValidFrom(0, s, 0) == ValidFrom(2, s, i + 1);
        i := i + 1;
        if i == |s| || s[i] / 64 != 2 { return false; }
        assert ValidFrom(0, s, 0) == ValidFrom(1, s, i + 1);
        i := i + 1;
        if i == |s| || s[i] / 64 != 2 { return false; }
      } else {
        return false;
      }
      i := i + 1;
    }
    return true;
  }
}
