/** deps/libbase58/base58.c: octets to base 58 digits and back, in place. */
module Base58 {
  import opened Bytes
  import opened Radix

  // ---------------------------------------------------------------- the alphabet

  /** b58digits_ordered: no 0, O, I or l. */
  function CharOf(d: nat): char
    requires d < 58
  {
    if d < 9 then '1' + d as char
    else if d < 17 then 'A' + (d - 9) as char
    else if d < 22 then 'J' + (d - 17) as char
    else if d < 33 then 'P' + (d - 22) as char
    else if d < 44 then 'a' + (d - 33) as char
    else 'm' + (d - 44) as char
  }

  /** b58digits_map, with -1 also for a byte that has its high bit set. */
  function DigitOf(c: char): int {
    if '1' <= c <= '9' then c as int - '1' as int
    else if 'A' <= c <= 'H' then c as int - 'A' as int + 9
    else if 'J' <= c <= 'N' then c as int - 'J' as int + 17
    else if 'P' <= c <= 'Z' then c as int - 'P' as int + 22
    else if 'a' <= c <= 'k' then c as int - 'a' as int + 33
    else if 'm' <= c <= 'z' then c as int - 'm' as int + 44
    else -1
  }

  /** The two tables are inverse to each other. */
  lemma TablesAgree(d: nat, c: char)
    ensures d < 58 ==> DigitOf(CharOf(d)) == d
    ensures DigitOf(c) != -1 ==> 0 <= DigitOf(c) < 58 && CharOf(DigitOf(c)) == c
  {
  }

  /** The digits are the ASCII digits and letters in the order of their codes, without four that look alike. */
  lemma AlphabetIs(c: char, d: char)
    ensures DigitOf(c) != -1 <==> ('0' <= c <= '9' || 'A' <= c <= 'Z' || 'a' <= c <= 'z') && c !in "0OIl"
    ensures DigitOf(c) != -1 && DigitOf(d) != -1 ==> (DigitOf(c) < DigitOf(d) <==> c < d)
  {
  }

  predicate InAlphabet(text: string) { forall i :: 0 <= i < |text| ==> DigitOf(text[i]) != -1 }

  function DigitsOf(text: string): (s: seq<nat>)
    requires InAlphabet(text)
    ensures |s| == |text| && AllBelow(s, 58)
  {
    seq(|text|, i requires 0 <= i < |text| => TablesAgree(0, text[i]); DigitOf(text[i]))
  }

  function Spell(s: seq<nat>): (text: string)
    requires AllBelow(s, 58)
    ensures |text| == |s|
  {
    seq(|s|, i requires 0 <= i < |s| => CharOf(s[i]))
  }

  /** How many of the first elements are zero. */
  function Leading<T(==)>(s: seq<T>, zero: T): (n: nat)
    ensures n <= |s| && (forall i :: 0 <= i < n ==> s[i] == zero) && (n < |s| ==> s[n] != zero)
  {
    if s == [] || s[0] != zero then 0 else 1 + Leading(s[1..], zero)
  }

  lemma {:induction false} LeadingIs<T>(s: seq<T>, zero: T, n: nat)
    requires n <= |s| && (forall i :: 0 <= i < n ==> s[i] == zero) && (n < |s| ==> s[n] != zero)
    ensures Leading(s, zero) == n
  {
    if n > 0 {
      LeadingIs(s[1..], zero, n - 1);
    }
  }

  // ---------------------------------------------------------------- what the two functions compute

  const BASE32: nat := 0x1_0000_0000

  /** A '1' for each zero octet in front, and then the shortest spelling of the value. */
  function Encoded(d: seq<byte>): string {
    var v := Value(d, 256);
    ShortestDigits(v, 58);
    seq(Leading(d, 0), _ => '1') + Spell(Shortest(v, 58))
  }

  /** What b58tobin leaves in its buffer, and the count it returns. */
  datatype Decoded = Decoded(bytes: seq<nat>, size: nat)

  predicate Decodes(text: string, size: nat) {
    InAlphabet(text) && Value(DigitsOf(text), 58) < Pow(256, size)
  }

  function Decode(text: string, size: nat): (r: Decoded)
    requires Decodes(text, size)
  {
    var bytes := Padded(Value(DigitsOf(text), 58), 256, size);
    PaddedDigits(Value(DigitsOf(text), 58), 256, size);
    Decoded(bytes, size - Leading(bytes, 0) + Leading(text, '1'))
  }

  // ---------------------------------------------------------------- capacity

  /** 138/100 is more than log 256 / log 58: the digits of n octets fit. */
  lemma Capacity(n: nat)
    ensures Pow(256, n) < Pow(58, n * 138 / 100 + 1)
  {
    var size := n * 138 / 100 + 1;
    assert 8 * size > 11 * n;
    if Pow(58, size) <= Pow(256, n) {
      PowBaseMonotone(Pow(58, size), Pow(256, n), 8);
      PowPow(58, size, 8);
      PowPow(256, n, 8);
      PowPow(256, 8, n);
      assert n * 8 == 8 * n && size * 8 == 8 * size;
      Eleven();
      PowBaseMonotone(Pow(256, 8), Pow(58, 11), n);
      PowPow(58, 11, n);
      PowGrows(58, 11 * n, 8 * size);
    }
  }

  lemma Eleven()
    ensures Pow(256, 8) <= Pow(58, 11)
  {
    assert Pow(256, 4) == 0x1_0000_0000;
    PowAdd(256, 4, 4);
    assert Pow(58, 4) == 11316496;
    PowAdd(58, 4, 4);
    PowAdd(58, 8, 3);
    assert Pow(58, 3) == 195112;
  }

  // ---------------------------------------------------------------- b58enc

  lemma ZerosInFront(s: seq<nat>, k: nat, base: nat)
    requires k <= |s| && forall i :: 0 <= i < k ==> s[i] == 0
    ensures Value(s, base) == Value(s[k..], base)
  {
    ValueOfZeros(s[..k], base);
    ValueConcat(s[..k], s[k..], base);
    assert s[..k] + s[k..] == s;
  }

  lemma CarryStep(p: nat, carry: nat, d: nat, low: nat, low': nat, c: nat)
    requires low' + carry * p == 256 * low + c
    ensures var t := carry + 256 * d;
            ((t % 58) * p + low') + (t / 58) * (58 * p) == 256 * (d * p + low) + c
  {
    var t := carry + 256 * d;
    assert (t % 58) * p + (t / 58) * (58 * p) == t * p by {
      assert t == 58 * (t / 58) + t % 58;
      assert (58 * (t / 58)) * p == (t / 58) * (58 * p);
    }
    assert t * p == carry * p + 256 * (d * p);
  }

  /** Half way through: from j + 1 on the number o has been multiplied by 256 and c added, up to a carry. */
  predicate Carried(s: seq<byte>, o: seq<byte>, j: int, carry: nat, c: byte) {
    && |s| == |o| && -1 <= j < |s| && carry <= 255 && AllBelow(s, 58) && s[..j + 1] == o[..j + 1]
    && Value(s[j + 1..], 58) + carry * Pow(58, |s| - 1 - j) == 256 * Value(o[j + 1..], 58) + c
  }

  lemma CarriedStep(s: seq<byte>, o: seq<byte>, j: nat, carry: nat, c: byte)
    requires Carried(s, o, j, carry, c)
    ensures var t := carry + 256 * (s[j] as nat);
            var d: byte := t % 58; 0 <= t / 58 <= 255 && Carried(s[j := d], o, j - 1, t / 58, c)
  {
    var t := carry + 256 * (s[j] as nat);
    var d: byte := t % 58;
    var s' := s[j := d];
    assert s[j] == s[..j + 1][j] == o[j] && s'[..j] == o[..j];
    CarryStep(Pow(58, |s| - 1 - j), carry, o[j], Value(o[j + 1..], 58), Value(s[j + 1..], 58), c);
    ValueFront(s'[j..], 58);
    ValueFront(o[j..], 58);
    assert s'[j..][1..] == s[j + 1..] && o[j..][1..] == o[j + 1..];
    hide Value;
  }

  lemma CarriedAll(s: seq<byte>, o: seq<byte>, j: int, high: int, c: byte)
    requires Carried(s, o, j, 0, c) && j <= high < |o| && forall k :: 0 <= k <= high ==> o[k] == 0
    ensures Value(s, 58) == 256 * Value(o, 58) + c && forall k :: 0 <= k <= j ==> s[k] == 0
  {
    assert forall k :: 0 <= k <= j ==> s[k] == s[..j + 1][k] == o[k];
    ZerosInFront(s, j + 1, 58);
    ZerosInFront(o, j + 1, 58);
    hide Value;
  }

  /** There is no digit in front of the first: the carry is spent before j can fall below zero. */
  lemma CarriedFits(s: seq<byte>, o: seq<byte>, j: int, carry: nat, c: byte)
    requires Carried(s, o, j, carry, c) && 256 * Value(o, 58) + c < Pow(58, |o|)
    ensures carry != 0 ==> j >= 0
  {
    if j == -1 {
      assert o[0..] == o;
      NoRoomLeft(carry, Pow(58, |o|), Value(s[0..], 58), 256 * Value(o, 58) + c);
    }
  }

  /** The inner loop: the number in buf is multiplied by 256 and c is added. Its digits up to high are zero, and
      those up to the result are zero afterwards. */
  method CarryIn(buf: array<byte>, high: int, c: byte) returns (j: int)
    requires -1 <= high < buf.Length && AllBelow(buf[..], 58) && forall k :: 0 <= k <= high ==> buf[k] == 0
    requires 256 * Value(buf[..], 58) + c < Pow(58, buf.Length)
    modifies buf
    ensures -1 <= j <= high && AllBelow(buf[..], 58) && forall k :: 0 <= k <= j ==> buf[k] == 0
    ensures Value(buf[..], 58) == 256 * Value(old(buf[..]), 58) + c
  {
    ghost var o := buf[..];
    var carry: nat := c;
    j := buf.Length - 1;
    while j > high || carry != 0
      invariant -1 <= j < buf.Length && Carried(buf[..], o, j, carry, c)
      decreases j + 1
    {
      ghost var s := buf[..];
      CarriedFits(s, o, j, carry, c);
      CarriedStep(s, o, j, carry, c);
      hide Carried;
      carry := carry + 256 * (buf[j] as nat);
      buf[j] := carry % 58;
      assert buf[..] == s[j := buf[j]];
      carry := carry / 58;
      j := j - 1;
    }
    CarriedAll(buf[..], o, j, high, c);
  }

  lemma NoRoomLeft(carry: nat, p: nat, v: nat, total: nat)
    requires v + carry * p == total < p
    ensures carry == 0
  {
    if carry > 0 {
      Times(1, carry, p, p);
    }
  }

  lemma ValueOfNext(data: seq<byte>, z: nat, i: nat)
    requires z <= i < |data|
    ensures Value(data[z..i + 1], 256) == 256 * Value(data[z..i], 256) + data[i]
    ensures Value(data[z..i + 1], 256) < Pow(58, (|data| - z) * 138 / 100 + 1)
  {
    assert data[z..i + 1] == data[z..i] + [data[i]];
    AppendDigit(data[z..i], data[i], 256);
    ValueBound(data[z..i + 1], 256);
    PowGrows(256, i + 1 - z, |data| - z);
    Capacity(|data| - z);
    hide Value, Pow;
  }

  /** The outer loop: data[z..] in base 58, in a buffer that is wide enough. */
  method Convert(data: seq<byte>, z: nat) returns (buf: array<byte>)
    requires z <= |data|
    ensures fresh(buf) && buf.Length == (|data| - z) * 138 / 100 + 1
    ensures AllBelow(buf[..], 58) && Value(buf[..], 58) == Value(data[z..], 256)
  {
    hide Value, Pow;
    var size := (|data| - z) * 138 / 100 + 1;
    buf := new byte[size](_ => 0);
    var high := size - 1;
    ValueOfZeros(buf[..], 58);
    ValueOfZeros(data[z..z], 256);
    for i := z to |data|
      invariant -1 <= high < size && AllBelow(buf[..], 58) && forall k :: 0 <= k <= high ==> buf[k] == 0
      invariant Value(buf[..], 58) == Value(data[z..i], 256)
    {
      ValueOfNext(data, z, i);
      high := CarryIn(buf, high, data[i]);
    }
    assert data[z..|data|] == data[z..];
  }

  lemma SpellsShortest(d: seq<byte>, z: nat, s: seq<nat>, j: nat)
    requires z == Leading(d, 0) && AllBelow(s, 58) && j == Leading(s, 0) && Value(s, 58) == Value(d[z..], 256)
    ensures Encoded(d) == seq(z, _ => '1') + Spell(s[j..])
  {
    ZerosInFront(d, z, 256);
    ZerosInFront(s, j, 58);
    ShortestIs(s[j..], 58);
  }

  method WriteOut(b58: array<char>, z: nat, buf: array<byte>, first: nat)
    requires first <= buf.Length && AllBelow(buf[..], 58) && z + buf.Length - first < b58.Length
    modifies b58
    ensures var n := z + buf.Length - first;
            && b58[..n + 1] == seq(z, _ => '1') + Spell(buf[first..]) + ['\0']
            && b58[n + 1..] == old(b58[n + 1..])
  {
    for k := 0 to z
      invariant forall i :: 0 <= i < k ==> b58[i] == '1'
      invariant b58[k..] == old(b58[..])[k..]
    {
      b58[k] := '1';
    }
    var i, j := z, first;
    while j < buf.Length
      invariant first <= j <= buf.Length && i == z + j - first
      invariant forall k :: 0 <= k < z ==> b58[k] == '1'
      invariant forall k :: z <= k < i ==> b58[k] == CharOf(buf[k - z + first])
      invariant b58[i..] == old(b58[..])[i..]
    {
      b58[i] := CharOf(buf[j]);
      i, j := i + 1, j + 1;
    }
    b58[i] := '\0';
  }

  /** b58enc: b58sz is the room in b58. When it is not enough nothing is written; in both cases size is what the
      spelling and its NUL take. */
  method B58Enc(b58: array<char>, b58sz: nat, data: seq<byte>) returns (ok: bool, size: nat)
    requires b58sz <= b58.Length
    modifies b58
    ensures size == |Encoded(data)| + 1 && ok == (size <= b58sz)
    ensures ok ==> b58[..size] == Encoded(data) + ['\0'] && b58[size..] == old(b58[size..])
    ensures !ok ==> b58[..] == old(b58[..])
  {
    hide Value, Pow;
    var zcount := 0;
    while zcount < |data| && data[zcount] == 0
      invariant zcount <= |data| && forall k :: 0 <= k < zcount ==> data[k] == 0
    {
      zcount := zcount + 1;
    }
    LeadingIs(data, 0, zcount);
    var buf := Convert(data, zcount);
    var j := 0;
    while j < buf.Length && buf[j] == 0
      invariant j <= buf.Length && forall k :: 0 <= k < j ==> buf[k] == 0
    {
      j := j + 1;
    }
    ghost var s: seq<nat> := buf[..];
    LeadingIs(s, 0, j);
    SpellsShortest(data, zcount, s, j);
    if b58sz <= zcount + buf.Length - j {
      return false, zcount + buf.Length - j + 1;
    }
    WriteOut(b58, zcount, buf, j);
    return true, zcount + buf.Length - j + 1;
  }

  // ---------------------------------------------------------------- b58tobin

  type word = w: int | 0 <= w < 0x1_0000_0000

  /** Half way through: from j on the number o has been multiplied by 58 and c added, up to a carry. */
  predicate Shifted(s: seq<word>, o: seq<word>, j: nat, carry: nat, c: nat) {
    && |s| == |o| && j <= |s| && carry < 58 && s[..j] == o[..j]
    && Value(s[j..], BASE32) + carry * Pow(BASE32, |s| - j) == 58 * Value(o[j..], BASE32) + c
  }

  lemma LimbStep(p: nat, carry: nat, d: nat, low: nat, low': nat, c: nat)
    requires low' + carry * p == 58 * low + c
    ensures var t := d * 58 + carry;
            ((t % BASE32) * p + low') + (t / BASE32) * (BASE32 * p) == 58 * (d * p + low) + c
  {
    var t := d * 58 + carry;
    assert (t % BASE32) * p + (t / BASE32) * (BASE32 * p) == t * p by {
      assert t == BASE32 * (t / BASE32) + t % BASE32;
      assert (BASE32 * (t / BASE32)) * p == (t / BASE32) * (BASE32 * p);
    }
    assert t * p == carry * p + 58 * (d * p);
  }

  lemma ShiftedStep(s: seq<word>, o: seq<word>, j: nat, carry: nat, c: nat)
    requires Shifted(s, o, j, carry, c) && j > 0
    ensures var t := (s[j - 1] as nat) * 58 + carry;
            var d: word := t % BASE32;
            t / BASE32 < 58 && Shifted(s[j - 1 := d], o, j - 1, t / BASE32, c)
  {
    var k := j - 1;
    var t := (s[k] as nat) * 58 + carry;
    var d: word := t % BASE32;
    var s' := s[k := d];
    assert s[k] == s[..j][k] == o[k] && s'[..k] == o[..k];
    LimbStep(Pow(BASE32, |s| - j), carry, o[k], Value(o[j..], BASE32), Value(s[j..], BASE32), c);
    ValueFront(s'[k..], BASE32);
    ValueFront(o[k..], BASE32);
    assert s'[k..][1..] == s[j..] && o[k..][1..] == o[j..];
    hide Value;
  }

  /** The inner loop: the number in outi is multiplied by 58 and digit is added; what does not fit is returned. */
  method MulAdd(outi: array<word>, digit: nat) returns (c: nat)
    requires digit < 58
    modifies outi
    ensures Value(outi[..], BASE32) + c * Pow(BASE32, outi.Length) == 58 * Value(old(outi[..]), BASE32) + digit
  {
    hide Value, Pow;
    ghost var o := outi[..];
    c := digit;
    var j := outi.Length;
    ValueOfZeros(outi[j..], BASE32);
    assert Shifted(outi[..], o, j, c, digit) by {
      assert outi[j..] == o[j..] == [];
      assert Pow(BASE32, 0) == 1 by { PowZero(BASE32); }
    }
    while j > 0
      invariant j <= outi.Length && Shifted(outi[..], o, j, c, digit)
    {
      j := j - 1;
      ghost var s := outi[..];
      ShiftedStep(s, o, j + 1, c, digit);
      assert c < 58;
      hide Shifted;
      var t := (outi[j] as nat) * 58 + c;
      c := (t / BASE32) % 64;
      outi[j] := t % BASE32;
      assert outi[..] == s[j := outi[j]];
    }
    assert outi[0..] == outi[..] && o[0..] == o;
  }

  lemma PowZero(b: nat)
    ensures Pow(b, 0) == 1
  {
  }

  function Worth(text: string): nat
    requires InAlphabet(text)
  {
    Value(DigitsOf(text), 58)
  }

  lemma WorthNext(text: string, i: nat)
    requires i < |text| && InAlphabet(text[..i]) && DigitOf(text[i]) != -1
    ensures 0 <= DigitOf(text[i]) < 58 && InAlphabet(text[..i + 1])
    ensures Worth(text[..i + 1]) == 58 * Worth(text[..i]) + DigitOf(text[i])
  {
    TablesAgree(0, text[i]);
    assert text[..i + 1] == text[..i] + [text[i]];
    DigitsConcat(text[..i], [text[i]]);
    AppendDigit(DigitsOf(text[..i]), DigitOf(text[i]), 58);
    hide Value, DigitOf;
  }

  lemma WorthOfPrefix(text: string, i: nat)
    requires i <= |text| && InAlphabet(text)
    ensures InAlphabet(text[..i]) && Worth(text[..i]) <= Worth(text)
  {
    assert DigitsOf(text[..i]) == DigitsOf(text)[..i];
    ValueOfPrefix(DigitsOf(text), i, 58);
    hide Value, DigitOf;
  }

  lemma WorthOfOnes(text: string)
    requires forall i :: 0 <= i < |text| ==> text[i] == '1'
    ensures InAlphabet(text) && Worth(text) == 0
  {
    ValueOfZeros(DigitsOf(text), 58);
  }

  /** The first limb holds the octets that are left over: what it may be worth. */
  function FirstLimb(size: nat): nat {
    if size % 4 == 0 then BASE32 else if size % 4 == 1 then 0x100 else if size % 4 == 2 then 0x1_0000 else 0x100_0000
  }

  lemma LimbsAreOctets(k: nat)
    ensures Pow(256, 4 * k) == Pow(BASE32, k)
  {
    assert Pow(256, 4) == BASE32;
    PowPow(256, 4, k);
  }

  lemma FirstLimbIs(size: nat)
    requires size > 0
    ensures FirstLimb(size) * Pow(BASE32, (size + 3) / 4 - 1) == Pow(256, size)
  {
    var n := (size + 3) / 4 - 1;
    LimbsAreOctets(n);
    PowAdd(256, size - 4 * n, 4 * n);
    assert FirstLimb(size) == Pow(256, size - 4 * n) by {
      assert Pow(256, 1) == 0x100 && Pow(256, 2) == 0x1_0000 && Pow(256, 3) == 0x100_0000 && Pow(256, 4) == BASE32;
    }
  }

  lemma TopDigit(d: nat, top: nat, p: nat, rest: nat)
    requires rest < p
    ensures d * p + rest < top * p <==> d < top
  {
    if d < top {
      Times(d + 1, top, p, p);
      assert (d + 1) * p == d * p + p;
    } else {
      Times(top, d, p, p);
    }
  }

  lemma Room(s: seq<word>, size: nat)
    requires |s| == (size + 3) / 4
    ensures Value(s, BASE32) < Pow(256, size) <==> (s == [] || s[0] < FirstLimb(size))
  {
    if s != [] {
      var p, top := Pow(BASE32, |s| - 1), FirstLimb(size);
      FirstLimbIs(size);
      ValueFront(s, BASE32);
      ValueBound(s[1..], BASE32);
      TopDigit(s[0], top, p, Value(s[1..], BASE32));
      hide Value, Pow, FirstLimb;
    }
  }

  lemma TooBig(v: nat, c: nat, n: nat, total: nat, size: nat)
    requires v + c * Pow(BASE32, n) == total && c > 0 && n == (size + 3) / 4
    ensures total >= Pow(256, size)
  {
    Times(1, c, Pow(BASE32, n), Pow(BASE32, n));
    LimbsAreOctets(n);
    PowGrows(256, size, 4 * n);
  }

  /** The digits of b58, as limbs; not ok if one is no digit, or if they are worth too much for size octets. */
  method Accumulate(b58: string, ones: nat, size: nat) returns (ok: bool, outi: array<word>)
    requires ones <= |b58| && forall i :: 0 <= i < ones ==> b58[i] == '1'
    ensures fresh(outi) && outi.Length == (size + 3) / 4 && ok == Decodes(b58, size)
    ensures ok ==> Value(outi[..], BASE32) == Worth(b58)
  {
    hide Value, Pow, DigitOf;
    outi := new word[(size + 3) / 4](_ => 0);
    var i := ones;
    WorthOfOnes(b58[..i]);
    ValueOfZeros(outi[..], BASE32);
    assert outi.Length > 0 ==> 0 < FirstLimb(size);
    Room(outi[..], size);
    while i < |b58|
      invariant ones <= i <= |b58| && InAlphabet(b58[..i])
      invariant Value(outi[..], BASE32) == Worth(b58[..i]) < Pow(256, size)
    {
      if DigitOf(b58[i]) == -1 {
        return false, outi;
      }
      WorthNext(b58, i);
      var c := MulAdd(outi, DigitOf(b58[i]));
      if InAlphabet(b58) {
        WorthOfPrefix(b58, i + 1);
      }
      if c != 0 {
        TooBig(Value(outi[..], BASE32), c, outi.Length, Worth(b58[..i + 1]), size);
        return false, outi;
      }
      assert Value(outi[..], BASE32) == Worth(b58[..i + 1]) by { assert 0 * Pow(BASE32, outi.Length) == 0; }
      Room(outi[..], size);
      if outi.Length > 0 && outi[0] >= FirstLimb(size) {
        return false, outi;
      }
      i := i + 1;
    }
    assert b58[..i] == b58;
    return true, outi;
  }

  lemma FourOctets(w: word)
    ensures var a, b, c, d := w / 0x100_0000 % 0x100, w / 0x1_0000 % 0x100, w / 0x100 % 0x100, w % 0x100;
            ((a * 256 + b) * 256 + c) * 256 + d == w
  {
  }

  twostate predicate KeptFrom(bin: array<byte>, k: nat)
    reads bin
  {
    forall i :: k <= i < bin.Length ==> bin[i] == old(bin[i])
  }

  /** The octets up to k are worth v; b goes after them. */
  method PutOctet(bin: array<byte>, k: nat, b: byte, ghost v: nat)
    requires k < bin.Length && Value(bin[..k], 256) == v
    modifies bin
    ensures Value(bin[..k + 1], 256) == v * 256 + b && KeptFrom(bin, k + 1)
  {
    bin[k] := b;
    assert bin[..k + 1] == old(bin[..k]) + [b];
    AppendDigit(old(bin[..k]), b, 256);
  }

  method PutLimb(bin: array<byte>, k: nat, w: word, ghost v: nat)
    requires k + 4 <= bin.Length && Value(bin[..k], 256) == v
    modifies bin
    ensures Value(bin[..k + 4], 256) == v * BASE32 + w && KeptFrom(bin, k + 4)
  {
    hide Value;
    FourOctets(w);
    var a: byte, b: byte, c: byte, d: byte := w / 0x100_0000 % 0x100, w / 0x1_0000 % 0x100, w / 0x100 % 0x100,
        w % 0x100;
    PutOctet(bin, k, a, v);
    PutOctet(bin, k + 1, b, v * 256 + a);
    PutOctet(bin, k + 2, c, (v * 256 + a) * 256 + b);
    PutOctet(bin, k + 3, d, ((v * 256 + a) * 256 + b) * 256 + c);
    Weigh(v, a, b, c, d);
  }

  lemma Weigh(v: nat, a: nat, b: nat, c: nat, d: nat)
    ensures (((v * 256 + a) * 256 + b) * 256 + c) * 256 + d == v * BASE32 + (((a * 256 + b) * 256 + c) * 256 + d)
  {
  }

  /** The octets that do not fill a limb. */
  method UnpackFirst(bin: array<byte>, w: word, left: nat)
    requires left < 4 && left <= bin.Length && (left > 0 ==> w < FirstLimb(left))
    modifies bin
    ensures KeptFrom(bin, left)
    ensures Value(bin[..left], 256) == if left == 0 then 0 else w
  {
    FourOctets(w);
    ValueOfZeros(bin[..0], 256);
    hide Value;
    var b: byte, c: byte, d: byte := w / 0x1_0000 % 0x100, w / 0x100 % 0x100, w % 0x100;
    if left == 3 {
      PutOctet(bin, 0, b, 0);
      PutOctet(bin, 1, c, b);
      PutOctet(bin, 2, d, (b as nat) * 256 + c);
    } else if left == 2 {
      PutOctet(bin, 0, c, 0);
      PutOctet(bin, 1, d, c);
    } else if left == 1 {
      PutOctet(bin, 0, d, 0);
    }
  }

  lemma NextDigit(s: seq<nat>, j: nat, base: nat)
    requires j < |s|
    ensures Value(s[..j + 1], base) == Value(s[..j], base) * base + s[j]
  {
    assert s[..j + 1] == s[..j] + [s[j]];
    AppendDigit(s[..j], s[j], base);
    hide Value;
  }

  /** The number in outi, as octets. */
  method Unpack(bin: array<byte>, outi: array<word>, size: nat)
    requires size <= bin.Length && outi.Length == (size + 3) / 4 && Value(outi[..], BASE32) < Pow(256, size)
    modifies bin
    ensures bin[..size] == Padded(Value(outi[..], BASE32), 256, size) && KeptFrom(bin, size)
  {
    hide Value, Pow, Padded, BASE32;
    Room(outi[..], size);
    var left, n := size % 4, outi.Length;
    var j := if left > 0 then 1 else 0;
    UnpackFirst(bin, if n > 0 then outi[0] else 0, left);
    if left > 0 {
      ValueOne(outi[0], BASE32);
      assert outi[..1] == [outi[0]];
    } else {
      ValueOfZeros(outi[..0], BASE32);
    }
    var k := left;
    while j < n
      invariant j <= n && k + 4 * (n - j) == size && KeptFrom(bin, size)
      invariant Value(bin[..k], 256) == Value(outi[..j], BASE32)
    {
      NextDigit(outi[..], j, BASE32);
      PutLimb(bin, k, outi[j], Value(outi[..j], BASE32));
      j, k := j + 1, k + 4;
    }
    assert outi[..n] == outi[..];
    PaddedIs(bin[..size], 256);
  }

  /** b58tobin: size is what *binszp holds, before and after. */
  method B58ToBin(bin: array<byte>, size: nat, b58: string) returns (ok: bool, size': nat)
    requires size <= bin.Length
    modifies bin
    ensures ok == Decodes(b58, size)
    ensures ok ==> bin[..size] == Decode(b58, size).bytes && size' == Decode(b58, size).size && KeptFrom(bin, size)
    ensures !ok ==> bin[..] == old(bin[..]) && size' == size
  {
    hide Value, Pow, DigitOf, Padded;
    var zerocount := 0;
    while zerocount < |b58| && b58[zerocount] == '1'
      invariant zerocount <= |b58| && forall i :: 0 <= i < zerocount ==> b58[i] == '1'
    {
      zerocount := zerocount + 1;
    }
    LeadingIs(b58, '1', zerocount);
    var outi: array<word>;
    ok, outi := Accumulate(b58, zerocount, size);
    size' := size;
    if !ok {
      return;
    }
    Unpack(bin, outi, size);
    var i := 0;
    while i < size && bin[i] == 0
      invariant i <= size && size' == size - i && forall k :: 0 <= k < i ==> bin[k] == 0
    {
      i, size' := i + 1, size' - 1;
    }
    ghost var bytes: seq<nat> := bin[..size];
    LeadingIs(bytes, 0, i);
    size' := size' + zerocount;
  }

  // ---------------------------------------------------------------- round trip

  lemma SpellsDigits(s: seq<nat>)
    requires AllBelow(s, 58)
    ensures InAlphabet(Spell(s)) && DigitsOf(Spell(s)) == s
  {
    forall i | 0 <= i < |s| ensures DigitOf(Spell(s)[i]) == s[i] {
      TablesAgree(s[i], '1');
    }
    hide DigitOf, CharOf;
  }

  lemma DigitsConcat(a: string, b: string)
    requires InAlphabet(a) && InAlphabet(b)
    ensures InAlphabet(a + b) && DigitsOf(a + b) == DigitsOf(a) + DigitsOf(b)
  {
    hide DigitOf;
  }

  lemma OnesInFront(ones: string, s: seq<nat>)
    requires AllBelow(s, 58) && forall i :: 0 <= i < |ones| ==> ones[i] == '1'
    ensures InAlphabet(ones + Spell(s)) && Worth(ones + Spell(s)) == Value(s, 58)
  {
    SpellsDigits(s);
    WorthOfOnes(ones);
    hide Value, Pow, DigitOf, CharOf, Spell, DigitsOf, InAlphabet, AllBelow;
    DigitsConcat(ones, Spell(s));
    ValueConcat(DigitsOf(ones), s, 58);
    assert 0 * Pow(58, |s|) == 0;
  }

  /** What Encoded spells is worth what the octets are. */
  lemma EncodedWorth(d: seq<byte>)
    ensures InAlphabet(Encoded(d)) && Worth(Encoded(d)) == Value(d, 256)
    ensures Leading(Encoded(d), '1') == Leading(d, 0)
  {
    hide Value, Shortest, DigitOf, InAlphabet, Worth, AllBelow;
    var z, v := Leading(d, 0), Value(d, 256);
    ShortestDigits(v, 58);
    var s := Shortest(v, 58);
    OnesInFront(seq(z, _ => '1'), s);
    LeadingOnes(z, s);
  }

  lemma LeadingOnes(z: nat, s: seq<nat>)
    requires AllBelow(s, 58) && (s != [] ==> s[0] > 0)
    ensures Leading(seq(z, _ => '1') + Spell(s), '1') == z
  {
    if s != [] {
      TablesAgree(s[0], '1');
    }
    LeadingIs(seq(z, _ => '1') + Spell(s), '1', z);
    hide Leading;
  }

  /** Decoding what was encoded, into a buffer of the same size, gives back every octet, zeros in front included. */
  lemma RoundTrip(d: seq<byte>)
    ensures Decodes(Encoded(d), |d|) && Decode(Encoded(d), |d|) == Decoded(d, |d|)
  {
    EncodedWorth(d);
    ValueBound(d, 256);
    PaddedIs(d, 256);
    var bytes: seq<nat> := d;
    LeadingIs(bytes, 0, Leading(d, 0));
    hide Value, Pow, DigitsOf, Encoded, InAlphabet;
  }

  /** In a wider buffer the octets stand at the end, and the size says how many they are. */
  lemma RoundTripInto(d: seq<byte>, size: nat)
    requires |d| <= size
    ensures Decodes(Encoded(d), size)
    ensures Decode(Encoded(d), size) == Decoded(seq(size - |d|, _ => 0) + d, |d|)
  {
    hide Value, Pow, DigitsOf, Encoded, InAlphabet, Leading;
    EncodedWorth(d);
    Widened(d, size, seq(size - |d|, _ => 0) + d);
  }

  lemma Widened(d: seq<byte>, size: nat, bytes: seq<nat>)
    requires |d| <= size && bytes == seq(size - |d|, _ => 0) + d
    ensures Value(d, 256) < Pow(256, size) && Padded(Value(d, 256), 256, size) == bytes
    ensures Leading(bytes, 0) == size - |d| + Leading(d, 0)
  {
    hide Value, Pow, Padded;
    ValueBound(bytes, 256);
    ZerosInFront(bytes, size - |d|, 256);
    assert bytes[size - |d|..] == d;
    PaddedIs(bytes, 256);
    LeadingIs(bytes, 0, size - |d| + Leading(d, 0));
  }

  /** Every text in the alphabet spells some octets. */
  lemma EveryText(text: string) returns (d: seq<byte>)
    requires InAlphabet(text)
    ensures Encoded(d) == text
  {
    var z, v := Leading(text, '1'), Worth(text);
    var s := Shortest(v, 256);
    ShortestDigits(v, 256);
    d := seq(z, _ => 0) + s;
    var bytes: seq<nat> := d;
    ZerosInFront(bytes, z, 256);
    assert bytes[z..] == s;
    ValueBound(bytes, 256);
    PaddedIs(bytes, 256);
    LeadingIs(d, 0, z);
    hide Value, Pow, DigitsOf, Encoded, InAlphabet, Shortest;
    EncodeUndoesDecode(text, |d|, d);
  }

  /** Decoding fails exactly on a character outside the alphabet or on a value that does not fit, and what it
      leaves in the buffer is the value in base 256. */
  lemma DecodeIs(text: string, size: nat)
    requires Decodes(text, size)
    ensures var r := Decode(text, size);
            && |r.bytes| == size && AllBelow(r.bytes, 256) && Value(r.bytes, 256) == Worth(text)
            && forall bytes: seq<nat> ::
                 |bytes| == size && AllBelow(bytes, 256) && Value(bytes, 256) == Worth(text) ==> bytes == r.bytes
  {
    PaddedDigits(Worth(text), 256, size);
    forall bytes: seq<nat> | |bytes| == size && AllBelow(bytes, 256) && Value(bytes, 256) == Worth(text)
      ensures bytes == Decode(text, size).bytes
    {
      ValueInjective(bytes, Decode(text, size).bytes, 256);
    }
  }

  /** Encoding what was decoded gives the text back exactly when the buffer was as wide as the text says: one zero
      octet in front for each '1'. */
  lemma EncodeUndoesDecode(text: string, size: nat, bytes: seq<byte>)
    requires Decodes(text, size) && bytes == Decode(text, size).bytes
    ensures Encoded(bytes) == text <==> Leading(bytes, 0) == Leading(text, '1')
  {
    EncodedWorth(bytes);
    DecodeIs(text, size);
    if Leading(bytes, 0) == Leading(text, '1') {
      var z, s := Leading(text, '1'), DigitsOf(text[Leading(text, '1')..]);
      TextSplits(text, z, s);
      ShortestIs(s, 58);
    }
  }

  lemma TextSplits(text: string, z: nat, s: seq<nat>)
    requires InAlphabet(text) && z == Leading(text, '1') && InAlphabet(text[z..]) && s == DigitsOf(text[z..])
    ensures text == seq(z, _ => '1') + Spell(s) && Worth(text) == Value(s, 58) && (s != [] ==> s[0] > 0)
  {
    var ones := text[..z];
    assert ones == seq(z, _ => '1');
    forall i | 0 <= i < |s| ensures Spell(s)[i] == text[z..][i] {
      TablesAgree(0, text[z..][i]);
    }
    assert Spell(s) == text[z..];
    assert text == ones + Spell(s);
    OnesInFront(ones, s);
    if s != [] {
      TablesAgree(0, text[z]);
    }
    hide DigitOf, Value;
  }
}
