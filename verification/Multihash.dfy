/** The multihash form of a hash URI, src/util/hash.c: an algorithm code, a length and a digest, in base 58. */
module Multihash {
  import opened Bytes
  import opened Radix
  import opened Base58

  datatype Algo = MD5 | SHA1 | SHA256 | SHA384 | SHA512

  const DIGEST_MAX: nat := 64

  function DigestLen(algo: Algo): nat {
    match algo
    case MD5 => 16
    case SHA1 => 20
    case SHA256 => 32
    case SHA384 => 48
    case SHA512 => 64
  }

  /** multihash_algo_encode; 0 for the algorithms that have no code. */
  function CodeOf(algo: Algo): byte {
    match algo
    case SHA1 => 0x11
    case SHA256 => 0x12
    case SHA512 => 0x13
    case _ => 0
  }

  function Prefixed(algo: Algo, digest: seq<byte>): seq<byte> { [CodeOf(algo), DigestLen(algo)] + digest }

  /** What the formatter prints, when the caller's buffer is large enough. */
  function Formatted(algo: Algo, digest: seq<byte>): string { Encoded(Prefixed(algo, digest)) }

  /** The outcome of parsing. Beyond: the size that b58tobin returns counts octets that it did not decode, since
      it adds the leading ones even to a buffer that is full. */
  datatype Parsed = Ok(algo: Algo, digest: seq<nat>) | EParse | Beyond

  /** The size of the output that b58_decode guesses from the length of the text. */
  function Guess(len: nat): nat { if len * 6 / 8 < 2 + DIGEST_MAX then len * 6 / 8 else 2 + DIGEST_MAX }

  function AlgoOf(code: nat): Algo { if code == 0x11 then SHA1 else if code == 0x12 then SHA256 else SHA512 }

  function Parse(uri: string): Parsed {
    if |uri| < 8 || !InAlphabet(uri) || !Decodes(uri, Guess(|uri|)) then EParse
    else
      var d := Decode(uri, Guess(|uri|));
      DecodeIs(uri, Guess(|uri|));
      if d.size < 2 || !(0x11 <= d.bytes[0] <= 0x13) then EParse
      else if d.size > |d.bytes| then Beyond
      else Ok(AlgoOf(d.bytes[0]), d.bytes[2..d.size])
  }

  // ---------------------------------------------------------------- lengths

  lemma NoLonger(s: seq<nat>, size: nat)
    requires (s != [] ==> s[0] > 0) && Value(s, 58) < Pow(58, size)
    ensures |s| <= size
  {
    hide Value, Pow;
    if |s| > size {
      ValueFront(s, 58);
      PowGrows(58, size, |s| - 1);
      Times(1, s[0], Pow(58, |s| - 1), Pow(58, |s| - 1));
    }
  }

  lemma DigitCount(v: nat, k: nat)
    requires k > 0 && Pow(58, k - 1) <= v < Pow(58, k)
    ensures |Shortest(v, 58)| == k
  {
    hide Value, Pow, Shortest;
    var s := Shortest(v, 58);
    ShortestDigits(v, 58);
    ValueBound(s, 58);
    NoLonger(s, k);
    if |s| < k {
      PowGrows(58, |s|, k - 1);
    }
  }

  /** The spelling is no longer than the estimate that b58enc makes for its buffer. */
  lemma EncodedLength(d: seq<byte>)
    ensures |Encoded(d)| <= |d| * 138 / 100 + 1
  {
    hide Value, Pow, Shortest;
    var z := Leading(d, 0);
    ShortestDigits(Value(d, 256), 58);
    ZerosInFront(d, z, 256);
    ValueBound(d[z..], 256);
    Capacity(|d| - z);
    NoLonger(Shortest(Value(d, 256), 58), (|d| - z) * 138 / 100 + 1);
  }

  /** A first octet that is not zero bounds the value on both sides. */
  lemma FirstOctet(d: seq<byte>)
    requires d != []
    ensures (d[0] as nat) * Pow(256, |d| - 1) <= Value(d, 256) < ((d[0] as nat) + 1) * Pow(256, |d| - 1)
  {
    ValueFront(d, 256);
    ValueBound(d[1..], 256);
    var p := Pow(256, |d| - 1);
    assert ((d[0] as nat) + 1) * p == (d[0] as nat) * p + p;
    hide Value;
  }

  predicate HasCode(algo: Algo) { algo.SHA1? || algo.SHA256? || algo.SHA512? }

  /** How long the text of a full-length digest is. */
  function TextLen(algo: Algo): nat { if algo.SHA1? then 30 else if algo.SHA256? then 46 else 90 }

  lemma Tens()
    ensures Pow(58, 10) == 430804206899405824 && Pow(58, 5) == 656356768
    ensures Pow(256, 8) == 18446744073709551616
  {
  }

  lemma PowersSha1()
    ensures Pow(58, 29) <= 0x11 * Pow(256, 21) && 0x12 * Pow(256, 21) <= Pow(58, 30)
  {
    Tens();
    PowAdd(58, 10, 10);
    PowAdd(58, 20, 10);
    assert Pow(58, 30) == 58 * Pow(58, 29);
    PowAdd(256, 8, 8);
    PowAdd(256, 16, 5);
    assert Pow(256, 5) == 0x100_0000_0000;
  }

  lemma PowersSha256()
    ensures Pow(58, 45) <= 0x12 * Pow(256, 33) && 0x13 * Pow(256, 33) <= Pow(58, 46)
  {
    Tens();
    PowAdd(58, 10, 10);
    PowAdd(58, 20, 20);
    PowAdd(58, 40, 5);
    assert Pow(58, 46) == 58 * Pow(58, 45);
    PowAdd(256, 8, 8);
    PowAdd(256, 16, 16);
    assert Pow(256, 33) == 256 * Pow(256, 32);
  }

  lemma Eighty()
    ensures Pow(58, 80) == Pow(58, 40) * Pow(58, 40) && Pow(58, 40) == Pow(58, 20) * Pow(58, 20)
    ensures Pow(58, 20) == Pow(58, 10) * Pow(58, 10)
    ensures Pow(58, 90) == Pow(58, 80) * Pow(58, 10) && Pow(58, 90) == 58 * Pow(58, 89)
  {
    PowAdd(58, 10, 10);
    PowAdd(58, 20, 20);
    PowAdd(58, 40, 40);
    PowAdd(58, 80, 10);
  }

  lemma SixtyFive()
    ensures Pow(256, 65) == 256 * (Pow(256, 32) * Pow(256, 32))
    ensures Pow(256, 32) == Pow(256, 16) * Pow(256, 16) && Pow(256, 16) == Pow(256, 8) * Pow(256, 8)
  {
    PowAdd(256, 8, 8);
    PowAdd(256, 16, 16);
    PowAdd(256, 32, 32);
    assert Pow(256, 65) == 256 * Pow(256, 64);
  }

  lemma PowersSha512()
    ensures Pow(58, 89) <= 0x13 * Pow(256, 65) && 0x14 * Pow(256, 65) <= Pow(58, 90)
  {
    hide Pow;
    Tens();
    Eighty();
    SixtyFive();
  }

  lemma LengthFrom(d: seq<byte>, k: nat)
    requires d != [] && d[0] > 0 && k > 0
    requires Pow(58, k - 1) <= (d[0] as nat) * Pow(256, |d| - 1)
    requires ((d[0] as nat) + 1) * Pow(256, |d| - 1) <= Pow(58, k)
    ensures |Encoded(d)| == k
  {
    hide Pow, Value;
    FirstOctet(d);
    DigitCount(Value(d, 256), k);
  }

  lemma TextLength(algo: Algo, digest: seq<byte>)
    requires HasCode(algo) && |digest| == DigestLen(algo)
    ensures |Formatted(algo, digest)| == TextLen(algo)
  {
    hide Pow, Encoded;
    PowersSha1();
    PowersSha256();
    PowersSha512();
    LengthFrom(Prefixed(algo, digest), TextLen(algo));
  }

  /** Every full-length digest of an algorithm that has a code survives formatting and parsing. */
  lemma RoundTrip(algo: Algo, digest: seq<byte>)
    requires HasCode(algo) && |digest| == DigestLen(algo)
    ensures Guess(|Formatted(algo, digest)|) == 2 + |digest|
    ensures Parse(Formatted(algo, digest)) == Ok(algo, digest)
  {
    TextLength(algo, digest);
    var d := Prefixed(algo, digest);
    assert Guess(TextLen(algo)) == |d|;
    Base58.RoundTrip(d);
    EncodedWorth(d);
    assert d[2..] == digest;
    hide Encoded, Decode, Decodes, InAlphabet, DigitsOf;
  }

  /** When the size that b58tobin returns cannot be trusted: a text that starts with '1' and decodes to a code. */
  lemma BeyondIs(uri: string)
    requires |uri| >= 8 && Decodes(uri, Guess(|uri|))
    ensures var first := Decode(uri, Guess(|uri|)).bytes[0];
            Parse(uri) == Beyond <==> uri[0] == '1' && 0x11 <= first <= 0x13
  {
    DecodeIs(uri, Guess(|uri|));
    hide Decodes;
  }

  /** The octets that [a] and five zeros are, after one '1' too many. */
  lemma BeyondHappens() returns (uri: string)
    ensures Parse(uri) == Beyond
  {
    var v := 0x11_00_00_00_00_00;
    assert Pow(58, 8) == 128063081718016 && Pow(256, 6) == 0x1_0000_0000_0000;
    PaddedDigits(v, 58, 8);
    OnesInFront(['1'], Padded(v, 58, 8));
    uri := ['1'] + Spell(Padded(v, 58, 8));
    var bytes: seq<byte> := [0x11, 0, 0, 0, 0, 0];
    FirstOctet(bytes);
    ZerosAfter(bytes);
    PaddedIs(bytes, 256);
    BeyondIs(uri);
  }

  lemma ZerosAfter(bytes: seq<byte>)
    requires bytes == [0x11, 0, 0, 0, 0, 0]
    ensures Value(bytes, 256) == 0x11_00_00_00_00_00
  {
    ValueFront(bytes, 256);
    ValueOfZeros(bytes[1..], 256);
    assert Pow(256, 5) == 0x100_0000_0000;
  }

  // ---------------------------------------------------------------- the functions

  /** b58_encode never meets its assertion when the buffer holds the estimate. */
  method B58Encode(buf: seq<byte>, out: array<char>) returns (size: nat)
    requires out.Length > |buf| * 138 / 100 + 1
    modifies out
    ensures size == |Encoded(buf)| + 1 && size <= out.Length && out[..size] == Encoded(buf) + ['\0']
  {
    EncodedLength(buf);
    var success;
    success, size := B58Enc(out, out.Length, buf);
    assert success;
  }

  /** b58_decode, into a buffer of 2 + DIGEST_MAX octets. */
  method B58Decode(str: string, out: array<byte>) returns (ok: bool, size: nat)
    requires out.Length == 2 + DIGEST_MAX
    modifies out
    ensures ok == Decodes(str, Guess(|str|))
    ensures ok ==> out[..Guess(|str|)] == Decode(str, Guess(|str|)).bytes && size == Decode(str, Guess(|str|)).size
  {
    hide Decodes, Decode;
    ok, size := B58ToBin(out, if |str| * 6 / 8 < out.Length then |str| * 6 / 8 else out.Length, str);
  }

  /** The status of hash_uri_format: what snprintf returns, or that the algorithm has no code. */
  datatype Status = Printed(length: nat) | NotSupported

  /** hash_uri_format for LINK_MULTIHASH; out is the string that the caller finds in a buffer of max characters. */
  method HashUriFormat(algo: Algo, buf: seq<byte>, max: nat) returns (status: Status, out: string)
    requires max > 0 && |buf| <= DIGEST_MAX
    ensures !HasCode(algo) ==> status == NotSupported && out == ""
    ensures HasCode(algo) ==> status == Printed(|Formatted(algo, buf)|)
    ensures HasCode(algo) ==>
              out == if |Formatted(algo, buf)| < max then Formatted(algo, buf) else Formatted(algo, buf)[..max - 1]
  {
    if CodeOf(algo) == 0 {
      return NotSupported, "";
    }
    hide Encoded;
    var tmp := [CodeOf(algo), DigestLen(algo)] + buf;
    var b58 := new char[(2 + DIGEST_MAX) * 8 / 5 + 1 + 1](_ => '\0');
    var size := B58Encode(tmp, b58);
    var text := b58[..size - 1];
    assert text == Encoded(tmp);
    return Printed(size - 1), if size - 1 < max then text else text[..max - 1];
  }

  predicate InClass(c: char) { DigitOf(c) != -1 }

  /** hash_uri_parse_multihash. The pattern asks for eight or more characters of the alphabet. */
  method HashUriParseMultihash(uri: string) returns (r: Parsed)
    ensures r == Parse(uri)
  {
    hide DigitOf, Decodes, Decode;
    var i := 0;
    while i < |uri| && InClass(uri[i])
      invariant i <= |uri| && InAlphabet(uri[..i])
    {
      i := i + 1;
    }
    if i < |uri| || |uri| < 8 {
      return EParse;
    }
    assert uri[..i] == uri;
    var tmp := new byte[2 + DIGEST_MAX](_ => 0);
    var ok, len := B58Decode(uri, tmp);
    if !ok || len < 2 {
      return EParse;
    }
    ghost var bytes := tmp[..Guess(|uri|)];
    DecodeIs(uri, Guess(|uri|));
    assert tmp[0] == bytes[0];
    if !(0x11 <= tmp[0] <= 0x13) {
      return EParse;
    }
    if len > Guess(|uri|) {
      return Beyond;
    }
    assert tmp[2..len] == bytes[2..len];
    return Ok(AlgoOf(tmp[0]), tmp[2..len]);
  }
}
