/** What the escapes of a string stand for, by RFC 8259 section 7 and RFC 3629, and that deps/yajl/src/yajl_encode.c
    writes and reads them so. Nothing of the codec is used to say it. */
module JsonEscapes {
  import opened Bytes
  import opened Optional
  import Radix
  import opened Rfc8259
  import opened JsonString

  // ---------------------------------------------------------------- RFC 3629

  /** How a lead octet is marked when n octets follow it. */
  function LeadMark(n: nat): nat { match n case 0 => 0 case 1 => 0xC0 case 2 => 0xE0 case _ => 0xF0 }

  /** Its payload; None when it does not lead as many. */
  function LeadBits(c: byte, n: nat): Option<nat> {
    if Leads(c) == Some(n) then Some(c - LeadMark(n)) else None
  }

  function TrailBits(c: byte): (bits: nat)
    ensures IsTrail(c) ==> bits + 0x80 == c
  {
    c % 64
  }

  /** The least value that takes a lead octet and n more. */
  function LeastOf(n: nat): nat { match n case 0 => 0 case 1 => 0x80 case 2 => 0x800 case _ => 0x10000 }

  /** The bits of each octet that are not taken up by its marker. */
  function Payload(s: seq<byte>): (bits: seq<nat>)
    requires s != [] && LeadBits(s[0], |s| - 1).Some? && forall k :: 0 < k < |s| ==> IsTrail(s[k])
    ensures |bits| == |s| && bits[0] == LeadBits(s[0], |s| - 1).value
    ensures forall k :: 0 < k < |s| ==> bits[k] + 0x80 == s[k]
  {
    [LeadBits(s[0], |s| - 1).value]
    + seq(|s| - 1, k requires 0 <= k < |s| - 1 => TrailBits(s[k + 1]))
  }

  /** The value that the octets spell, six bits in each octet but the first, in the shortest form there is. */
  function ReadUtf8(s: seq<byte>): Option<nat> {
    if s == [] || LeadBits(s[0], |s| - 1).None? || exists k :: 0 < k < |s| && !IsTrail(s[k]) then None
    else
      var v := Radix.Value(Payload(s), 64);
      if v < LeastOf(|s| - 1) then None else Some(v)
  }

  lemma Value1(a: nat, base: nat)
    ensures Radix.Value([a], base) == a
  {
    assert [a][..0] == [];
  }

  lemma Value2(a: nat, b: nat, base: nat)
    ensures Radix.Value([a, b], base) == a * base + b
  {
    assert [a, b][..1] == [a];
    Value1(a, base);
  }

  lemma Value3(a: nat, b: nat, c: nat, base: nat)
    ensures Radix.Value([a, b, c], base) == (a * base + b) * base + c
  {
    assert [a, b, c][..2] == [a, b];
    Value2(a, b, base);
  }

  lemma Value4(a: nat, b: nat, c: nat, d: nat, base: nat)
    ensures Radix.Value([a, b, c, d], base) == ((a * base + b) * base + c) * base + d
  {
    assert [a, b, c, d][..3] == [a, b, c];
    Value3(a, b, c, base);
  }

  /** One to four octets, in numbers. */
  lemma PayloadWorth(bits: seq<nat>)
    requires 1 <= |bits| <= 4
    ensures Radix.Value(bits, 64) ==
            if |bits| == 1 then bits[0]
            else if |bits| == 2 then bits[0] * 64 + bits[1]
            else if |bits| == 3 then bits[0] * 4096 + bits[1] * 64 + bits[2]
            else bits[0] * 262144 + bits[1] * 4096 + bits[2] * 64 + bits[3]
  {
    if |bits| == 1 {
      assert bits == [bits[0]];
      Value1(bits[0], 64);
    } else if |bits| == 2 {
      assert bits == [bits[0], bits[1]];
      Value2(bits[0], bits[1], 64);
    } else if |bits| == 3 {
      assert bits == [bits[0], bits[1], bits[2]];
      Value3(bits[0], bits[1], bits[2], 64);
    } else {
      assert bits == [bits[0], bits[1], bits[2], bits[3]];
      Value4(bits[0], bits[1], bits[2], bits[3], 64);
    }
  }

  /** The octets that the decoder makes of a value are those that spell it. */
  lemma Utf8IsRead(v: nat)
    requires v < 0x200000
    ensures ReadUtf8(Utf8(v)) == Some(v)
  {
    hide Radix.Value, Payload;
    SixBits(v);
    PayloadWorth(Payload(Utf8(v)));
  }

  lemma SixBits(v: nat)
    ensures v / 4096 * 4096 + v / 64 % 64 * 64 + v % 64 == v
    ensures v / 262144 * 262144 + v / 4096 % 64 * 4096 + v / 64 % 64 * 64 + v % 64 == v
  {
    assert v / 64 * 64 + v % 64 == v;
    assert v / 64 / 64 == v / 4096 && v / 4096 * 64 + v / 64 % 64 == v / 64;
    assert v / 4096 / 64 == v / 262144 && v / 262144 * 64 + v / 4096 % 64 == v / 4096;
  }

  lemma BitsBack(a: nat, b: nat, c: nat, d: nat)
    requires b < 64 && c < 64 && d < 64
    ensures var v := a * 262144 + b * 4096 + c * 64 + d;
            v % 64 == d && v / 64 % 64 == c && v / 4096 % 64 == b && v / 262144 == a
  {
    var v := a * 262144 + b * 4096 + c * 64 + d;
    assert v == (a * 4096 + b * 64 + c) * 64 + d && v / 64 == a * 4096 + b * 64 + c;
    assert v / 64 == (a * 64 + b) * 64 + c && v / 64 / 64 == a * 64 + b && v / 64 / 64 == v / 4096;
    assert v / 4096 / 64 == a && v / 4096 / 64 == v / 262144;
  }

  lemma Utf8Of2(b: nat, c: nat)
    requires b < 32 && c < 64 && b * 64 + c >= 0x80
    ensures Utf8(b * 64 + c) == [0xC0 + b, 0x80 + c]
  {
    BitsBack(0, 0, b, c);
  }

  lemma Utf8Of3(a: nat, b: nat, c: nat)
    requires a < 16 && b < 64 && c < 64 && a * 4096 + b * 64 + c >= 0x800
    ensures Utf8(a * 4096 + b * 64 + c) == [0xE0 + a, 0x80 + b, 0x80 + c]
  {
    BitsBack(0, a, b, c);
  }

  lemma Utf8Of4(a: nat, b: nat, c: nat, d: nat)
    requires a < 8 && b < 64 && c < 64 && d < 64 && a * 262144 + b * 4096 + c * 64 + d >= 0x10000
    ensures a * 262144 + b * 4096 + c * 64 + d < 0x200000
    ensures Utf8(a * 262144 + b * 4096 + c * 64 + d) == [0xF0 + a, 0x80 + b, 0x80 + c, 0x80 + d]
  {
    BitsBack(a, b, c, d);
  }

  /** How many values a lead octet has room for when n octets follow it. */
  function LeadRoom(n: nat): nat { match n case 0 => 128 case 1 => 32 case 2 => 16 case _ => 8 }

  lemma ReadParts(s: seq<byte>, v: nat) returns (bits: seq<nat>)
    requires ReadUtf8(s) == Some(v)
    ensures 1 <= |s| == |bits| <= 4 && v == Radix.Value(bits, 64) && v >= LeastOf(|s| - 1)
    ensures bits[0] < LeadRoom(|s| - 1) && s[0] == LeadMark(|s| - 1) + bits[0]
    ensures forall k :: 0 < k < |s| ==> bits[k] < 64 && s[k] == 0x80 + bits[k]
  {
    bits := Payload(s);
    hide Radix.Value, Payload;
  }

  /** No other octets spell it. */
  lemma SpeltOnce(s: seq<byte>, v: nat)
    requires ReadUtf8(s) == Some(v)
    ensures v < 0x200000 && s == Utf8(v)
  {
    hide Radix.Value, Utf8, ReadUtf8;
    var bits := ReadParts(s, v);
    PayloadWorth(bits);
    if |s| == 1 {
      assert s == [s[0]];
      OneOctet(v);
    } else if |s| == 2 {
      Utf8Of2(bits[0], bits[1]);
      assert s == [0xC0 + bits[0], 0x80 + bits[1]];
    } else if |s| == 3 {
      Utf8Of3(bits[0], bits[1], bits[2]);
      assert s == [0xE0 + bits[0], 0x80 + bits[1], 0x80 + bits[2]];
    } else {
      Utf8Of4(bits[0], bits[1], bits[2], bits[3]);
      assert s == [0xF0 + bits[0], 0x80 + bits[1], 0x80 + bits[2], 0x80 + bits[3]];
    }
  }

  lemma OneOctet(v: nat)
    requires v < 0x80
    ensures Utf8(v) == [v]
  {
  }

  // ---------------------------------------------------------------- RFC 8259 section 7

  /** The number that stands behind a backslash and a u at i. */
  function CodeAt(s: seq<byte>, i: nat): Option<nat> {
    if !(i + 6 <= |s| && s[i] == 0x5C && s[i + 1] == 0x75) then None
    else
      var a, b, c, d := HexValue(s[i + 2]), HexValue(s[i + 3]), HexValue(s[i + 4]), HexValue(s[i + 5]);
      if a.None? || b.None? || c.None? || d.None? then None
      else Some(Radix.Value([a.value, b.value, c.value, d.value], 16))
  }

  predicate IsHigh(v: nat) { 0xD800 <= v <= 0xDBFF }

  predicate IsLow(v: nat) { 0xDC00 <= v <= 0xDFFF }

  /** The code point that begins at i and the place behind it: one number, or a high surrogate and a low one. */
  function PointAt(s: seq<byte>, i: nat): Option<(nat, nat)> {
    var a, b := CodeAt(s, i), CodeAt(s, i + 6);
    if a.None? then None
    else if !IsHigh(a.value) then Some((a.value, i + 6))
    else if b.Some? && IsLow(b.value) then Some((0x10000 + (a.value - 0xD800) * 0x400 + (b.value - 0xDC00), i + 12))
    else None
  }

  /** From i on the body stands for the text: octets for themselves, letters for what RFC 8259 lists, and numbers for
      the UTF-8 of their code points. */
  ghost predicate Means(s: seq<byte>, i: nat, text: seq<byte>)
    decreases |s| - i
  {
    if i >= |s| then text == []
    else if s[i] != 0x5C then text != [] && text[0] == s[i] && Means(s, i + 1, text[1..])
    else if i + 1 < |s| && ShortEscape(s[i + 1]).Some? then
      text != [] && text[0] == ShortEscape(s[i + 1]).value && Means(s, i + 2, text[1..])
    else
      PointAt(s, i).Some? &&
      exists n :: 0 < n <= |text| && ReadUtf8(text[..n]) == Some(PointAt(s, i).value.0)
                  && Means(s, PointAt(s, i).value.1, text[n..])
  }

  lemma LettersAgree(c: byte)
    ensures Simple(c) == ShortEscape(c)
  {
  }

  lemma CodeIs(s: seq<byte>, i: nat)
    requires CodeAt(s, i).Some?
    ensures FourNibbles(s, i + 2) && Hex4(s, i + 2) == CodeAt(s, i).value < 0x10000
  {
    hide Nibble, HexValue, Peek;
    NibbleIs(s, i + 2);
    NibbleIs(s, i + 3);
    NibbleIs(s, i + 4);
    NibbleIs(s, i + 5);
    Value4(HexValue(s[i + 2]).value, HexValue(s[i + 3]).value, HexValue(s[i + 4]).value, HexValue(s[i + 5]).value, 16);
  }

  lemma NibbleIs(s: seq<byte>, k: nat)
    requires k < |s| && HexValue(s[k]).Some?
    ensures Nibble(Peek(s, k)) == HexValue(s[k])
  {
  }

  /** What the decoder gives for a code point. */
  lemma PointIsDecoded(s: seq<byte>, i: nat)
    requires PointAt(s, i).Some?
    ensures var p := PointAt(s, i).value;
            p.0 < 0x200000 && i < p.1 <= |s| && Decode(s, i) == Prepend(Utf8(p.0), Decode(s, p.1))
  {
    var a := CodeAt(s, i).value;
    CodeIs(s, i);
    hide Utf8, PairValue, Hex4, FourNibbles, CodeAt;
    assert Peek(s, i + 1) == 0x75 && Simple(0x75).None?;
    if IsHigh(a) {
      var b := CodeAt(s, i + 6).value;
      CodeIs(s, i + 6);
      CodeStands(s, i + 6);
      PairValueIsCodePoint(a, b);
    }
    CodeStands(s, i);
  }

  lemma CodeStands(s: seq<byte>, i: nat)
    requires CodeAt(s, i).Some?
    ensures i + 6 <= |s| && s[i] == 0x5C && s[i + 1] == 0x75
  {
  }

  /** Every body for which RFC 8259 has a meaning is decoded into it, and into nothing else. */
  lemma {:induction false} MeaningIsDecoded(s: seq<byte>, i: nat, text: seq<byte>)
    requires Means(s, i, text)
    ensures Decode(s, i) == Some(text)
    decreases |s| - i
  {
    hide Utf8, Unescape, PointAt, ReadUtf8, Decode;
    if i >= |s| {
      NothingIsDecoded(s, i);
    } else if s[i] != 0x5C {
      MeaningIsDecoded(s, i + 1, text[1..]);
      PlainIsDecoded(s, i);
      assert [text[0]] + text[1..] == text;
    } else if i + 1 < |s| && ShortEscape(s[i + 1]).Some? {
      MeaningIsDecoded(s, i + 2, text[1..]);
      LetterIsDecoded(s, i);
      assert [text[0]] + text[1..] == text;
    } else {
      var p := PointAt(s, i).value;
      var n :| 0 < n <= |text| && ReadUtf8(text[..n]) == Some(p.0) && Means(s, p.1, text[n..]);
      PointIsDecoded(s, i);
      SpeltOnce(text[..n], p.0);
      MeaningIsDecoded(s, p.1, text[n..]);
      assert text[..n] + text[n..] == text;
    }
  }

  lemma NothingIsDecoded(s: seq<byte>, i: nat)
    requires i >= |s|
    ensures Decode(s, i) == Some([])
  {
  }

  lemma PlainIsDecoded(s: seq<byte>, i: nat)
    requires i < |s| && s[i] != 0x5C
    ensures Decode(s, i) == Prepend([s[i]], Decode(s, i + 1))
  {
  }

  lemma LetterIsDecoded(s: seq<byte>, i: nat)
    requires i + 1 < |s| && s[i] == 0x5C && ShortEscape(s[i + 1]).Some?
    ensures Decode(s, i) == Prepend([ShortEscape(s[i + 1]).value], Decode(s, i + 2))
  {
    LettersAgree(s[i + 1]);
  }

  /** The body is one that RFC 8259 has a meaning for: a backslash begins an escape, and a high surrogate a pair. */
  predicate WellEscaped(s: seq<byte>, i: nat)
    decreases |s| - i
  {
    if i >= |s| then true
    else if s[i] != 0x5C then WellEscaped(s, i + 1)
    else if i + 1 < |s| && ShortEscape(s[i + 1]).Some? then WellEscaped(s, i + 2)
    else PointAt(s, i).Some? && i < PointAt(s, i).value.1 && WellEscaped(s, PointAt(s, i).value.1)
  }

  /** And every such body has one. */
  lemma {:induction false} HasMeaning(s: seq<byte>, i: nat) returns (text: seq<byte>)
    requires WellEscaped(s, i)
    ensures Means(s, i, text) && Decode(s, i) == Some(text)
    decreases |s| - i
  {
    hide Utf8, PointAt, ReadUtf8;
    if i >= |s| {
      text := [];
    } else if s[i] != 0x5C {
      var rest := HasMeaning(s, i + 1);
      text := [s[i]] + rest;
      assert text[1..] == rest;
    } else if i + 1 < |s| && ShortEscape(s[i + 1]).Some? {
      var rest := HasMeaning(s, i + 2);
      text := [ShortEscape(s[i + 1]).value] + rest;
      assert text[1..] == rest;
    } else {
      var p := PointAt(s, i).value;
      PointIsDecoded(s, i);
      Utf8IsRead(p.0);
      var rest := HasMeaning(s, p.1);
      text := Utf8(p.0) + rest;
      assert text[..|Utf8(p.0)|] == Utf8(p.0) && text[|Utf8(p.0)|..] == rest;
    }
    MeaningIsDecoded(s, i, text);
  }

  /** A high surrogate is put together with any number that is escaped behind it, by the last ten bits of that
      number. */
  lemma HighTakesAny(s: seq<byte>, i: nat)
    requires CodeAt(s, i).Some? && IsHigh(CodeAt(s, i).value) && CodeAt(s, i + 6).Some?
    ensures var a, b := CodeAt(s, i).value, CodeAt(s, i + 6).value;
            var v := 0x10000 + (a - 0xD800) * 0x400 + b % 0x400;
            v < 0x200000 && Decode(s, i) == Prepend(Utf8(v), Decode(s, i + 12))
  {
    var a, b := CodeAt(s, i).value, CodeAt(s, i + 6).value;
    CodeIs(s, i);
    CodeIs(s, i + 6);
    CodeStands(s, i);
    CodeStands(s, i + 6);
    PairValueIsCodePoint(a, 0xDC00 + b % 0x400);
    SameLow(a, b);
    hide Utf8, PairValue, Hex4, FourNibbles, CodeAt;
    assert Peek(s, i + 1) == 0x75 && Simple(0x75).None?;
  }

  lemma SameLow(a: nat, b: nat)
    requires a < 0x10000
    ensures PairValue(a, b) == PairValue(a, 0xDC00 + b % 0x400)
  {
    assert (0xDC00 + b % 0x400) % 1024 == b % 1024;
  }

  /** Where RFC 8259 has none, a high surrogate without a number behind it is a question mark, and the octet behind it
      is lost. */
  lemma LoneIsQuestion(s: seq<byte>, i: nat)
    requires CodeAt(s, i).Some? && IsHigh(CodeAt(s, i).value)
    requires !(i + 7 < |s| && s[i + 6] == 0x5C && s[i + 7] == 0x75)
    ensures Decode(s, i) == Prepend([0x3F], Decode(s, i + 7))
  {
    CodeIs(s, i);
    CodeStands(s, i);
    hide Utf8, PairValue, Hex4, FourNibbles, CodeAt;
    assert Peek(s, i + 1) == 0x75 && Simple(0x75).None?;
  }

  // ---------------------------------------------------------------- what is written

  predicate IsUpperHex(c: byte) { 0x30 <= c <= 0x39 || 0x41 <= c <= 0x46 }

  /** How one octet is written: as itself; as a backslash and its letter, when it has one; or with its number. */
  lemma EncodedOctet(c: byte, solidus: bool)
    ensures var e := EncodeByte(c, solidus);
            if c >= 0x20 && c != 0x22 && c != 0x5C && (c == 0x2F ==> !solidus) then e == [c]
            else if exists x :: ShortEscape(x) == Some(c) then |e| == 2 && e[0] == 0x5C && ShortEscape(e[1]) == Some(c)
            else
              && |e| == 6 && e[..4] == [0x5C, 0x75, 0x30, 0x30] && IsUpperHex(e[4]) && IsUpperHex(e[5])
              && CodeAt(e, 0) == Some(c)
  {
    var e := EncodeByte(c, solidus);
    if x :| ShortEscape(x) == Some(c) {
      assert c == 0x22 || c == 0x5C || c == 0x2F || c == 0x08 || c == 0x0C || c == 0x0A || c == 0x0D || c == 0x09;
    }
    assert ShortEscape(0x22) == Some(0x22) && ShortEscape(0x5C) == Some(0x5C) && ShortEscape(0x2F) == Some(0x2F);
    assert ShortEscape(0x62) == Some(0x08) && ShortEscape(0x66) == Some(0x0C) && ShortEscape(0x6E) == Some(0x0A);
    assert ShortEscape(0x72) == Some(0x0D) && ShortEscape(0x74) == Some(0x09);
    if |e| == 6 {
      Value4(0, 0, c / 16, c % 16, 16);
    }
    hide ShortEscape, Radix.Value;
  }

  predicate NeedsNone(s: seq<byte>, i: nat, solidus: bool) {
    forall k :: i <= k < |s| ==> s[k] >= 0x20 && s[k] != 0x22 && s[k] != 0x5C && (s[k] == 0x2F ==> !solidus)
  }

  /** A string without controls, quotes and backslashes is written as it is, and with slashes too, unless they are to
      be escaped. */
  lemma {:induction false} WrittenAsItIs(s: seq<byte>, i: nat, solidus: bool)
    requires i <= |s| && NeedsNone(s, i, solidus)
    ensures Encode(s, i, solidus) == s[i..]
    decreases |s| - i
  {
    if i < |s| {
      EncodedOctet(s[i], solidus);
      hide EncodeByte;
      WrittenAsItIs(s, i + 1, solidus);
    }
  }

  /** With the option on no slash stands without a backslash before it. */
  lemma {:induction false} SlashIsEscaped(s: seq<byte>, i: nat, k: nat)
    requires i <= |s| && k < |Encode(s, i, true)| && Encode(s, i, true)[k] == 0x2F
    ensures k > 0 && Encode(s, i, true)[k - 1] == 0x5C
    decreases |s| - i
  {
    var e := EncodeByte(s[i], true);
    EncodedOctet(s[i], true);
    assert Encode(s, i, true) == e + Encode(s, i + 1, true);
    if k >= |e| {
      SlashIsEscaped(s, i + 1, k - |e|);
    }
    hide Encode;
  }
}
