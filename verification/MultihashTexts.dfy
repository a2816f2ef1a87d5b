/** Which texts src/util/hash.c takes for multihashes, told in octets and not in the steps of the parser. */
module MultihashTexts {
  import opened Bytes
  import opened Radix
  import opened Base58
  import opened Multihash

  // ---------------------------------------------------------------- parsing

  /** Octets in front that are not zero make the value too great. */
  lemma FitsIs(d: seq<byte>, n: nat)
    requires n <= |d|
    ensures Value(d, 256) < Pow(256, n) <==> forall i :: 0 <= i < |d| - n ==> d[i] == 0
    ensures Value(d, 256) < Pow(256, n) ==> Value(d, 256) == Value(d[|d| - n..], 256)
  {
    if forall i :: 0 <= i < |d| - n ==> d[i] == 0 {
      ZerosDrop(d, n);
    } else {
      var i :| 0 <= i < |d| - n && d[i] != 0;
      hide *;
      TooGreat(d, n, i);
    }
  }

  lemma ZerosDrop(d: seq<byte>, n: nat)
    requires n <= |d| && forall i :: 0 <= i < |d| - n ==> d[i] == 0
    ensures Value(d, 256) == Value(d[|d| - n..], 256) < Pow(256, n)
  {
    hide Value, Pow;
    ZerosInFront(d, |d| - n, 256);
    ValueBound(d[|d| - n..], 256);
  }

  lemma TooGreat(d: seq<byte>, n: nat, i: nat)
    requires n <= |d| && i < |d| - n && d[i] != 0
    ensures Value(d, 256) >= Pow(256, n)
  {
    hide *;
    var m := |d| - n;
    NotZero(d[..m], i);
    ValueConcat(d[..m], d[m..], 256);
    assert d[..m] + d[m..] == d;
    Times(1, Value(d[..m], 256), Pow(256, n), Pow(256, n));
  }

  lemma NotZero(d: seq<byte>, i: nat)
    requires i < |d| && d[i] != 0
    ensures Value(d, 256) > 0
  {
    NextDigit(d, i, 256);
    ValueOfPrefix(d, i + 1, 256);
    hide Value;
  }

  lemma LongEnough(d: seq<byte>)
    requires |Encoded(d)| >= 8
    ensures |d| >= 6
  {
    hide Encoded;
    EncodedLength(d);
  }

  /** How wide a buffer the text is decoded into. */
  function Width(len: nat): nat { if len * 6 / 8 < 66 then len * 6 / 8 else 66 }

  function AlgoNamed(code: byte): Algo
    requires 0x11 <= code <= 0x13
  {
    if code == 0x11 then SHA1 else if code == 0x12 then SHA256 else SHA512
  }

  /** What a text that spells the octets is taken for. */
  function Taken(d: seq<byte>, n: nat): Parsed
    requires n >= 2
  {
    if |d| < n || exists i :: 0 <= i < |d| - n && d[i] != 0 then EParse
    else if !(0x11 <= d[|d| - n] <= 0x13) then EParse
    else if |d| == n then Ok(AlgoNamed(d[0]), d[2..])
    else Beyond
  }

  lemma TooWide(d: seq<byte>, text: string, n: nat)
    requires text == Encoded(d) && |text| >= 8 && n == Guess(|text|) > |d|
    ensures Parse(text) == EParse
  {
    hide Encoded, Decode, Decodes, InAlphabet;
    RoundTripInto(d, n);
  }

  lemma JustRight(d: seq<byte>, text: string, n: nat)
    requires text == Encoded(d) && |text| >= 8 && n == Guess(|text|) == |d|
    ensures Parse(text) == if 0x11 <= d[0] <= 0x13 then Ok(AlgoNamed(d[0]), d[2..]) else EParse
  {
    LongEnough(d);
    hide Encoded, Decode, Decodes, InAlphabet;
    EncodedWorth(d);
    Base58.RoundTrip(d);
  }

  lemma TooNarrow(d: seq<byte>, text: string, n: nat)
    requires text == Encoded(d) && |text| >= 8 && n == Guess(|text|) < |d|
    ensures Parse(text) == Taken(d, n)
  {
    hide Encoded, Value, InAlphabet, Decode;
    EncodedWorth(d);
    FitsIs(d, n);
    if Decodes(text, n) {
      Narrow(d, text, n);
    }
  }

  lemma Narrow(d: seq<byte>, text: string, n: nat)
    requires text == Encoded(d) && |text| >= 8 && 0 < n < |d| && Decodes(text, n)
    ensures var r := Decode(text, n);
            && r.bytes == d[|d| - n..] && r.size >= 2
            && (d[|d| - n] != 0 ==> r.size > n)
  {
    hide Encoded, Value, InAlphabet, Pow, Padded;
    var m := |d| - n;
    LongEnough(d);
    EncodedWorth(d);
    FitsIs(d, n);
    PaddedIs(d[m..], 256);
    LeadingSplit(d, m, d[m..]);
  }

  lemma LeadingSplit(d: seq<byte>, m: nat, bytes: seq<nat>)
    requires m < |d| && bytes == d[m..] && forall i :: 0 <= i < m ==> d[i] == 0
    ensures Leading(d, 0) == m + Leading(bytes, 0) && (d[m] != 0 ==> Leading(bytes, 0) == 0)
  {
    var k := Leading(bytes, 0);
    hide *;
    assert forall i :: 0 <= i < |bytes| ==> bytes[i] == d[m + i];
    assert forall i :: m <= i < m + k ==> d[i] == bytes[i - m];
    LeadingIs(d, 0, m + k);
  }

  /** Every text: one outside the alphabet, or of fewer than eight characters, is refused; any other spells octets, and
      they decide. They must be just as many as the length of the text leads to expect. */
  lemma ParseIs(text: string) returns (d: seq<byte>)
    ensures (forall i :: 0 <= i < |text| ==> DigitOf(text[i]) != -1) ==> Encoded(d) == text
    ensures Parse(text) ==
            if |text| < 8 || exists i :: 0 <= i < |text| && DigitOf(text[i]) == -1 then EParse
            else Taken(d, Width(|text|))
  {
    d := [];
    if InAlphabet(text) {
      d := Base58.EveryText(text);
      hide Encoded;
      if |text| >= 8 {
        var n := Guess(|text|);
        assert n == Width(|text|) > 0;
        if n > |d| {
          TooWide(d, text, n);
        } else if n == |d| {
          JustRight(d, text, n);
        } else {
          TooNarrow(d, text, n);
        }
      }
    }
  }

  // ---------------------------------------------------------------- formatting

  /** The octets in front of a digest, by the multicodec table: a code and the length of the digest. */
  lemma FormattedIs(digest: seq<byte>)
    ensures Formatted(SHA1, digest) == Encoded([0x11, 20] + digest)
    ensures Formatted(SHA256, digest) == Encoded([0x12, 32] + digest)
    ensures Formatted(SHA512, digest) == Encoded([0x13, 64] + digest)
    ensures !HasCode(MD5) && !HasCode(SHA384)
  {
    hide Encoded;
  }

  lemma TopTwo(s: seq<nat>, c: nat)
    requires |s| >= 2 && AllBelow(s, 58)
    requires c * Pow(58, |s| - 2) <= Value(s, 58) < (c + 1) * Pow(58, |s| - 2)
    ensures s[0] * 58 + s[1] == c
  {
    hide Value, Pow;
    ValueConcat(s[..2], s[2..], 58);
    assert s[..2] + s[2..] == s;
    ValueBound(s[2..], 58);
    TwoDigits(s);
    Between(s[0] * 58 + s[1], Value(s[2..], 58), c, Pow(58, |s| - 2));
  }

  lemma Between(a: nat, r: nat, c: nat, p: nat)
    requires r < p && c * p <= a * p + r < (c + 1) * p
    ensures a == c
  {
    assert (a + 1) * p == a * p + p && (c + 1) * p == c * p + p;
    if a < c {
      Times(a + 1, c, p, p);
    } else if c < a {
      Times(c + 1, a, p, p);
    }
  }

  lemma TwoDigits(s: seq<nat>)
    requires |s| >= 2
    ensures Value(s[..2], 58) == s[0] * 58 + s[1]
  {
    assert s[..2] == [s[0]] + [s[1]];
    ValueOne(s[0], 58);
    AppendDigit([s[0]], s[1], 58);
  }

  lemma PowersOfQm()
    ensures 1378 * Pow(58, 44) <= 0x1220 * Pow(256, 32) && 0x1221 * Pow(256, 32) <= 1379 * Pow(58, 44)
  {
    Tens();
    PowAdd(58, 10, 10);
    PowAdd(58, 20, 20);
    PowAdd(58, 40, 4);
    assert Pow(58, 4) == 11316496;
    PowAdd(256, 8, 8);
    PowAdd(256, 16, 16);
  }

  /** Two octets in front bound the value on both sides. */
  lemma FirstTwo(d: seq<byte>)
    requires |d| >= 2
    ensures var top, p := (d[0] as nat) * 256 + d[1], Pow(256, |d| - 2);
            top * p <= Value(d, 256) < (top + 1) * p
  {
    hide Value, Pow;
    var p := Pow(256, |d| - 2);
    ValueConcat(d[..2], d[2..], 256);
    assert d[..2] + d[2..] == d && d[..2] == [d[0]] + [d[1]];
    ValueBound(d[2..], 256);
    ValueOne(d[0], 256);
    AppendDigit([d[0]], d[1], 256);
    var top := (d[0] as nat) * 256 + d[1];
    assert (top + 1) * p == top * p + p;
  }

  /** The text of every full SHA-256 digest has 46 characters, of which the first are Qm. */
  lemma Qm(digest: seq<byte>)
    requires |digest| == 32
    ensures |Formatted(SHA256, digest)| == 46 && Formatted(SHA256, digest)[..2] == "Qm"
  {
    hide Value, Pow, Shortest, Encoded;
    var d := Prefixed(SHA256, digest);
    TextLength(SHA256, digest);
    FirstTwo(d);
    PowersOfQm();
    SpeltFirst(d, 1378);
  }

  lemma SpeltFirst(d: seq<byte>, c: nat)
    requires d != [] && d[0] > 0 && |Encoded(d)| == 46 && c < 3364
    requires c * Pow(58, 44) <= Value(d, 256) < (c + 1) * Pow(58, 44)
    ensures Encoded(d)[..2] == [CharOf(c / 58), CharOf(c % 58)]
  {
    hide Value, Pow, Shortest, CharOf;
    ShortestDigits(Value(d, 256), 58);
    var s := Shortest(Value(d, 256), 58);
    assert Encoded(d) == Spell(s);
    TopTwo(s, c);
  }
}
