/** Base 64 as RFC 4648 tells it: the bits of the octets taken six at a time. A string of bits is the number it is, the
    first bit the most significant, so six bits are a digit in base 64 and an octet is one in base 256. */
module Base64Bits {
  import opened Bytes
  import opened Optional
  import opened Radix
  import opened Base64

  const UPPER: string := "ABCDEFGHIJKLMNOPQRSTUVWXYZ"
  const LOWER: string := "abcdefghijklmnopqrstuvwxyz"
  const DIGITS: string := "0123456789"

  /** Table 1 of RFC 4648, section 4, and table 2, section 5. */
  function Table(std: bool): (t: string)
    ensures |t| == 64
  {
    UPPER + LOWER + DIGITS + if std then "+/" else "-_"
  }

  lemma Letters(v: nat)
    requires v < 26
    ensures UPPER[v] == 'A' + v as char && LOWER[v] == 'a' + v as char
  {
  }

  lemma Numerals(v: nat)
    requires v < 10
    ensures DIGITS[v] == '0' + v as char
  {
  }

  lemma AlphabetsAre(std: bool, v: nat)
    requires v < 64
    ensures CharOf(std, v) == Table(std)[v]
  {
    hide *;
    TableAt(std, v);
    CharAt(std, v);
    if v < 26 {
      Letters(v);
    } else if v < 52 {
      Letters(v - 26);
    } else if v < 62 {
      Numerals(v - 52);
    }
  }

  lemma TableAt(std: bool, v: nat)
    requires v < 64
    ensures Table(std)[v] == if v < 26 then UPPER[v] else if v < 52 then LOWER[v - 26]
                             else if v < 62 then DIGITS[v - 52]
                             else if v == 62 then (if std then '+' else '-') else (if std then '/' else '_')
  {
  }

  lemma CharAt(std: bool, v: nat)
    requires v < 64
    ensures CharOf(std, v) == if v < 26 then 'A' + v as char else if v < 52 then 'a' + (v - 26) as char
                              else if v < 62 then '0' + (v - 52) as char
                              else if v == 62 then (if std then '+' else '-') else (if std then '/' else '_')
  {
  }

  /** Nothing else is read. */
  lemma OnlyThose(c: char)
    ensures var v := ValueOf(c); v >= 0 ==> c == Table(true)[v] || c == Table(false)[v]
  {
    var v := ValueOf(c);
    if v >= 0 {
      AlphabetsAre(true, v);
      AlphabetsAre(false, v);
      hide Table;
    }
  }

  predicate AreDigits(s: string) { forall i :: 0 <= i < |s| ==> ValueOf(s[i]) >= 0 }

  function DigitsOf(s: string): (r: seq<nat>)
    requires AreDigits(s)
    ensures |r| == |s| && forall i :: 0 <= i < |s| ==> r[i] == ValueOf(s[i])
  {
    seq(|s|, i requires 0 <= i < |s| => ValueOf(s[i]) as nat)
  }

  /** The number that the bits of a text are. */
  function Bits(s: string): nat
    requires AreDigits(s)
  {
    Value(DigitsOf(s), 64)
  }

  lemma BitsConcat(a: string, b: string)
    requires AreDigits(a) && AreDigits(b)
    ensures AreDigits(a + b) && Bits(a + b) == Bits(a) * Pow(64, |b|) + Bits(b)
  {
    assert DigitsOf(a + b) == DigitsOf(a) + DigitsOf(b);
    ValueConcat(DigitsOf(a), DigitsOf(b), 64);
    hide Value, Pow, ValueOf;
  }

  lemma ValueTwo(a: nat, b: nat, base: nat)
    ensures Value([a, b], base) == a * base + b
  {
    ValueOne(a, base);
    AppendDigit([a], b, base);
    assert [a] + [b] == [a, b];
  }

  lemma ValueThree(a: nat, b: nat, c: nat, base: nat)
    ensures Value([a, b, c], base) == (a * base + b) * base + c
  {
    ValueTwo(a, b, base);
    AppendDigit([a, b], c, base);
    assert [a, b] + [c] == [a, b, c];
    hide Value;
  }

  lemma ValueFour(a: nat, b: nat, c: nat, d: nat, base: nat)
    ensures Value([a, b, c, d], base) == ((a * base + b) * base + c) * base + d
  {
    ValueThree(a, b, c, base);
    AppendDigit([a, b, c], d, base);
    assert [a, b, c] + [d] == [a, b, c, d];
    hide Value;
  }

  /** As many bits one way as the other. */
  lemma SameBits(n: nat, m: nat, p: nat)
    requires 6 * n == 8 * m + p
    ensures Pow(64, n) == Pow(256, m) * Pow(2, p)
  {
    PowPow(2, 6, n);
    PowPow(2, 8, m);
    PowAdd(2, 8 * m, p);
    assert Pow(2, 6) == 64 && Pow(2, 8) == 256;
  }

  // ---------------------------------------------------------------- encoding

  /** How many characters carry the bits. */
  function Carriers(len: nat): nat { (8 * len + 5) / 6 }

  /** As many characters of the alphabet as carry the bits of so many octets, and padding. */
  predicate Carries(std: bool, len: nat, text: string) {
    var n := Carriers(len);
    && n <= |text| && (std ==> |text| % 4 == 0 && |text| - n < 4) && (!std ==> |text| == n)
    && (forall i :: 0 <= i < n ==> text[i] in Table(std))
    && (forall i :: n <= i < |text| ==> text[i] == '=')
  }

  /** The text is the bits of d and zero bits up to a multiple of six, in the alphabet, and padding. */
  predicate SpellsBits(std: bool, d: seq<byte>, text: string) {
    && Carries(std, |d|, text)
    && var n := Carriers(|d|);
       AreDigits(text[..n]) && Bits(text[..n]) == Value(d, 256) * Pow(2, 6 * n - 8 * |d|)
  }

  lemma InTable(std: bool, v: nat)
    requires v < 64
    ensures CharOf(std, v) in Table(std) && ValueOf(CharOf(std, v)) == v
  {
    hide Table, CharOf, ValueOf;
    AlphabetsAre(std, v);
    AlphabetsAgree(std, v);
    assert Table(std)[v] in Table(std);
  }

  /** Characters of the table, by their values. */
  lemma Digits(std: bool, t: string, vs: seq<nat>)
    requires |t| == |vs| && forall i :: 0 <= i < |t| ==> vs[i] < 64 && t[i] == CharOf(std, vs[i])
    ensures AreDigits(t) && DigitsOf(t) == vs && forall i :: 0 <= i < |t| ==> t[i] in Table(std)
  {
    hide CharOf, ValueOf, Table;
    forall i | 0 <= i < |t| ensures ValueOf(t[i]) == vs[i] && t[i] in Table(std) {
      InTable(std, vs[i]);
    }
  }

  /** The six-bit pieces of up to three octets. */
  function Pieces(d: seq<byte>): (vs: seq<nat>)
    requires 1 <= |d| <= 3
    ensures |vs| == |d| + 1 && AllBelow(vs, 64)
  {
    if |d| == 1 then [d[0] / 4, d[0] % 4 * 16]
    else if |d| == 2 then [d[0] / 4, d[0] % 4 * 16 + d[1] / 16, d[1] % 16 * 4]
    else [d[0] / 4, d[0] % 4 * 16 + d[1] / 16, d[1] % 16 * 4 + d[2] / 64, d[2] % 64]
  }

  lemma PiecesAre(d: seq<byte>)
    requires 1 <= |d| <= 3
    ensures Value(Pieces(d), 64) == Value(d, 256) * (if |d| == 1 then 16 else if |d| == 2 then 4 else 1)
  {
    hide Value;
    if |d| == 1 {
      OneIs(d);
    } else if |d| == 2 {
      TwoIs(d);
    } else {
      ThreeIs(d);
    }
  }

  lemma Halves(c: byte, m: nat, q: nat, r: nat)
    requires m > 0 && q == c / m && r == c % m
    ensures q * m + r == c
  {
    DivMod(c, m);
  }

  lemma OneIs(d: seq<byte>)
    requires |d| == 1
    ensures Value([d[0] / 4, d[0] % 4 * 16], 64) == Value(d, 256) * 16
  {
    hide *;
    var a: nat, a': nat := d[0] / 4, d[0] % 4;
    Halves(d[0], 4, a, a');
    One(a, a');
    assert d == [a * 4 + a'];
  }

  lemma TwoIs(d: seq<byte>)
    requires |d| == 2
    ensures Value([d[0] / 4, d[0] % 4 * 16 + d[1] / 16, d[1] % 16 * 4], 64) == Value(d, 256) * 4
  {
    hide *;
    var a: nat, a': nat, b: nat, b': nat := d[0] / 4, d[0] % 4, d[1] / 16, d[1] % 16;
    Halves(d[0], 4, a, a');
    Halves(d[1], 16, b, b');
    Two(a, a', b, b');
    assert d == [a * 4 + a', b * 16 + b'];
  }

  lemma ThreeIs(d: seq<byte>)
    requires |d| == 3
    ensures Value([d[0] / 4, d[0] % 4 * 16 + d[1] / 16, d[1] % 16 * 4 + d[2] / 64, d[2] % 64], 64) == Value(d, 256)
  {
    hide *;
    var a: nat, a': nat, b: nat, b': nat := d[0] / 4, d[0] % 4, d[1] / 16, d[1] % 16;
    var c: nat, c': nat := d[2] / 64, d[2] % 64;
    Halves(d[0], 4, a, a');
    Halves(d[1], 16, b, b');
    Halves(d[2], 64, c, c');
    Three(a, a', b, b', c, c');
    assert d == [a * 4 + a', b * 16 + b', c * 64 + c'];
  }

  lemma One(a: nat, a': nat)
    ensures Value([a, a' * 16], 64) == Value([a * 4 + a'], 256) * 16
  {
    hide Value;
    ValueTwo(a, a' * 16, 64);
    ValueOne(a * 4 + a', 256);
  }

  lemma Two(a: nat, a': nat, b: nat, b': nat)
    ensures Value([a, a' * 16 + b, b' * 4], 64) == Value([a * 4 + a', b * 16 + b'], 256) * 4
  {
    hide Value;
    ValueThree(a, a' * 16 + b, b' * 4, 64);
    ValueTwo(a * 4 + a', b * 16 + b', 256);
    SixBits(a, a', b, b', 0, 0);
  }

  lemma Three(a: nat, a': nat, b: nat, b': nat, c: nat, c': nat)
    ensures Value([a, a' * 16 + b, b' * 4 + c, c'], 64) == Value([a * 4 + a', b * 16 + b', c * 64 + c'], 256)
  {
    hide Value;
    ValueFour(a, a' * 16 + b, b' * 4 + c, c', 64);
    ValueThree(a * 4 + a', b * 16 + b', c * 64 + c', 256);
    SixBits(a, a', b, b', c, c');
  }

  lemma SixBits(a: nat, a': nat, b: nat, b': nat, c: nat, c': nat)
    ensures ((a * 64 + (a' * 16 + b)) * 64 + (b' * 4 + c)) * 64 + c' ==
            ((a * 4 + a') * 256 + (b * 16 + b')) * 256 + (c * 64 + c')
    ensures ((a * 64 + (a' * 16 + b)) * 64 + b' * 4) == ((a * 4 + a') * 256 + (b * 16 + b')) * 4
  {
  }

  lemma GroupPieces(std: bool, d: seq<byte>)
    requires 1 <= |d| <= 3
    ensures var n, g := |d| + 1, Group(std, d);
            && |g| == (if std then 4 else n) && (forall i :: n <= i < |g| ==> g[i] == '=')
            && forall i :: 0 <= i < n ==> g[i] == CharOf(std, Pieces(d)[i])
  {
    hide CharOf;
  }

  /** The last group. */
  lemma LastGroup(std: bool, d: seq<byte>)
    requires 1 <= |d| <= 3
    ensures SpellsBits(std, d, Group(std, d))
  {
    hide CharOf, ValueOf, Group, Pieces, Table, Value, Pow;
    var n, g := |d| + 1, Group(std, d);
    GroupPieces(std, d);
    Digits(std, g[..n], Pieces(d));
    PiecesAre(d);
    FewBits();
  }

  lemma FewBits()
    ensures Pow(2, 0) == 1 && Pow(2, 2) == 4 && Pow(2, 4) == 16
  {
  }

  lemma FirstGroup(std: bool, d: seq<byte>)
    requires |d| > 3
    ensures Group(std, d) == Group(std, d[..3])
  {
    hide CharOf;
  }

  /** A group of three octets in front of what is spelled. */
  lemma GroupInFront(std: bool, d: seq<byte>, head: string, tail: string)
    requires |d| >= 3 && SpellsBits(std, d[3..], tail) && SpellsBits(std, d[..3], head)
    ensures SpellsBits(std, d, head + tail)
  {
    hide Value, Pow, ValueOf, Bits, AreDigits, Carries, Carriers;
    var n := Carriers(|d| - 3);
    CharactersInFront(std, |d|, head, tail);
    CarriersMore(|d| - 3);
    assert head[..4] == head;
    BitsInFront(d, head, tail[..n]);
  }

  lemma CharactersInFront(std: bool, len: nat, head: string, tail: string)
    requires len >= 3 && Carries(std, len - 3, tail) && Carries(std, 3, head)
    ensures Carries(std, len, head + tail) && |head| == 4 == Carriers(3)
    ensures var n := Carriers(len - 3);
            n <= |tail| && Carriers(len) == n + 4 && (head + tail)[..n + 4] == head + tail[..n]
  {
    hide Table, Carriers;
    CarriersMore(len - 3);
    FourMore(|tail|);
    Joined(Table(std), Carriers(len - 3), head, tail);
  }

  lemma FourMore(n: nat)
    ensures (4 + n) % 4 == n % 4
  {
  }

  lemma Joined(table: string, n: nat, head: string, tail: string)
    requires |head| == 4 && n <= |tail| && forall i :: 0 <= i < 4 ==> head[i] in table
    requires (forall i :: 0 <= i < n ==> tail[i] in table) && forall i :: n <= i < |tail| ==> tail[i] == '='
    ensures var t := head + tail;
            && |t| == 4 + |tail| && t[..n + 4] == head + tail[..n] && (forall i :: 0 <= i < n + 4 ==> t[i] in table)
            && (forall i :: n + 4 <= i < |t| ==> t[i] == '=')
  {
  }

  lemma CarriersMore(m: nat)
    ensures var n := Carriers(m); Carriers(m + 3) == n + 4 && 8 * m <= 6 * n < 8 * m + 6 && Carriers(3) == 4
  {
  }

  lemma BitsInFront(d: seq<byte>, head: string, tail: string)
    requires |d| >= 3 && AreDigits(head) && AreDigits(tail) && |head| == 4
    requires |tail| == Carriers(|d| - 3)
    requires Bits(head) == Value(d[..3], 256) * Pow(2, 0)
    requires 6 * |tail| >= 8 * |d[3..]|
    requires Bits(tail) == Value(d[3..], 256) * Pow(2, 6 * |tail| - 8 * |d[3..]|)
    ensures AreDigits(head + tail) && 6 * |head + tail| >= 8 * |d|
    ensures Bits(head + tail) == Value(d, 256) * Pow(2, 6 * |head + tail| - 8 * |d|)
  {
    hide Value, Pow, ValueOf, Bits, AreDigits;
    var m, p := |d| - 3, 6 * |tail| - 8 * (|d| - 3);
    assert 6 * |head + tail| - 8 * |d| == p;
    FewBits();
    BitsConcat(head, tail);
    ValueConcat(d[..3], d[3..], 256);
    assert d[..3] + d[3..] == d;
    SameBits(|tail|, m, p);
    Shift(Value(d[..3], 256), Pow(256, m), Value(d[3..], 256), Pow(2, p));
  }

  lemma Shift(a: nat, p: nat, b: nat, q: nat)
    ensures a * (p * q) + b * q == (a * p + b) * q
  {
    assert (a * p + b) * q == a * p * q + b * q;
    assert a * (p * q) == a * p * q;
  }

  lemma NoOctets(std: bool)
    ensures SpellsBits(std, [], "")
  {
    assert DigitsOf("") == [];
  }

  /** What is spelled are the bits. */
  lemma {:induction false} SpelledIs(std: bool, d: seq<byte>)
    ensures SpellsBits(std, d, Spelled(std, d))
    decreases |d|
  {
    hide SpellsBits, Group;
    if d == [] {
      NoOctets(std);
    } else if |d| <= 3 {
      LastGroup(std, d);
    } else {
      SpelledIs(std, d[3..]);
      LastGroup(std, d[..3]);
      FirstGroup(std, d);
      GroupInFront(std, d, Group(std, d), Spelled(std, d[3..]));
    }
  }

  // ---------------------------------------------------------------- decoding

  /** Some character of the first n is in neither alphabet. */
  predicate HasOther(s: string, n: nat)
    requires n <= |s|
  {
    exists i :: 0 <= i < n && ValueOf(s[i]) < 0
  }

  lemma NoOther(s: string, n: nat)
    requires n <= |s|
    ensures AreDigits(s[..n]) <==> !HasOther(s, n)
  {
    hide ValueOf;
    if AreDigits(s[..n]) {
      assert forall i :: 0 <= i < n ==> s[i] == s[..n][i];
    }
  }

  /** d is as many whole octets as the bits have, the first ones. */
  predicate FirstBits(s: string, d: seq<byte>)
    requires AreDigits(s)
  {
    && |d| == 6 * |s| / 8
    && var p := Pow(2, 6 * |s| - 8 * |d|); Value(d, 256) * p <= Bits(s) < (Value(d, 256) + 1) * p
  }

  /** The first n characters, no more, make the result. */
  predicate IsRead(s: string, n: nat, r: Option<seq<byte>>) {
    && n <= |s|
    && if HasOther(s, n) then r.None? else r.Some? && (NoOther(s, n); FirstBits(s[..n], r.value))
  }

  lemma NoBits(s: string)
    requires s == ""
    ensures AreDigits(s) && FirstBits(s, [])
  {
    assert DigitsOf(s) == [];
    FewBits();
  }

  lemma OneDigit(s: string)
    requires |s| == 1 && AreDigits(s)
    ensures FirstBits(s, [])
  {
    hide ValueOf, Value, Pow;
    assert DigitsOf(s) == [ValueOf(s[0])];
    ValueOne(ValueOf(s[0]), 64);
    NoValue();
    MoreBits();
  }

  lemma NoValue()
    ensures Value([], 256) == 0
  {
  }

  lemma MoreBits()
    ensures Pow(2, 6) == 64 && Pow(2, 4) == 16 && Pow(2, 2) == 4 && Pow(2, 0) == 1
  {
  }

  lemma TwoDigitsRead(s: string, a: byte)
    requires |s| == 2 && AreDigits(s) && a == ValueOf(s[0]) * 4 + ValueOf(s[1]) / 16
    ensures FirstBits(s, [a])
  {
    hide ValueOf, Value, Pow;
    assert DigitsOf(s) == [ValueOf(s[0]), ValueOf(s[1])];
    ValueTwo(ValueOf(s[0]), ValueOf(s[1]), 64);
    ValueOne(a, 256);
    DivMod(ValueOf(s[1]), 16);
    MoreBits();
  }

  lemma ThreeDigitsRead(s: string, a: byte, b: byte)
    requires |s| == 3 && AreDigits(s) && a == ValueOf(s[0]) * 4 + ValueOf(s[1]) / 16
    requires b == ValueOf(s[1]) % 16 * 16 + ValueOf(s[2]) / 4
    ensures FirstBits(s, [a, b])
  {
    hide ValueOf, Value, Pow;
    assert DigitsOf(s) == [ValueOf(s[0]), ValueOf(s[1]), ValueOf(s[2])];
    ValueThree(ValueOf(s[0]), ValueOf(s[1]), ValueOf(s[2]), 64);
    ValueTwo(a, b, 256);
    DivMod(ValueOf(s[1]), 16);
    DivMod(ValueOf(s[2]), 4);
    MoreBits();
  }

  lemma FourDigitsRead(s: string, a: byte, b: byte, c: byte)
    requires |s| == 4 && AreDigits(s) && a == ValueOf(s[0]) * 4 + ValueOf(s[1]) / 16
    requires b == ValueOf(s[1]) % 16 * 16 + ValueOf(s[2]) / 4 && c == ValueOf(s[2]) % 4 * 64 + ValueOf(s[3])
    ensures Bits(s) == Value([a, b, c], 256)
  {
    hide ValueOf, Value, Pow;
    assert DigitsOf(s) == [ValueOf(s[0]), ValueOf(s[1]), ValueOf(s[2]), ValueOf(s[3])];
    ValueFour(ValueOf(s[0]), ValueOf(s[1]), ValueOf(s[2]), ValueOf(s[3]), 64);
    ValueThree(a, b, c, 256);
    DivMod(ValueOf(s[1]), 16);
    DivMod(ValueOf(s[2]), 4);
  }

  /** How many characters are looked at: up to the first terminator, and no more than there is room for. */
  function Looked(e: nat, room: nat): nat { Base64.Min(e, (8 * room + 5) / 6) }

  predicate IsEnd(s: string, e: nat) {
    && e <= |s| && (forall i :: 0 <= i < e ==> s[i] != '=' && s[i] != '\0')
    && (e < |s| ==> s[e] == '=' || s[e] == '\0')
  }

  /** The last group. */
  lemma LastRead(s: string, room: nat, e: nat)
    requires IsEnd(s, e) && Looked(e, room) < 4
    ensures IsRead(s, Looked(e, room), Read(s, room))
  {
    var n := Looked(e, room);
    NoOther(s, n);
    LastIs(s, room, e);
    hide FirstBits, ValueOf, Read, AreDigits, Looked, HasOther;
    if !HasOther(s, n) {
      if n == 0 {
        NoBits(s[..0]);
      } else if n == 1 {
        OneDigit(s[..1]);
      } else if n == 2 {
        TwoDigitsRead(s[..2], ValueOf(s[0]) * 4 + ValueOf(s[1]) / 16);
      } else {
        ThreeDigitsRead(s[..3], ValueOf(s[0]) * 4 + ValueOf(s[1]) / 16, ValueOf(s[1]) % 16 * 16 + ValueOf(s[2]) / 4);
      }
    }
  }

  lemma LastIs(s: string, room: nat, e: nat)
    requires IsEnd(s, e) && Looked(e, room) < 4
    ensures var n := Looked(e, room);
            Read(s, room) ==
            if HasOther(s, n) then None
            else if n < 2 then Some([])
            else if n == 2 then Some([ValueOf(s[0]) * 4 + ValueOf(s[1]) / 16])
            else Some([ValueOf(s[0]) * 4 + ValueOf(s[1]) / 16, ValueOf(s[1]) % 16 * 16 + ValueOf(s[2]) / 4])
  {
    hide ValueOf, HasOther;
    FewOthers(s, Looked(e, room));
  }

  lemma FewOthers(s: string, n: nat)
    requires n <= 4 && n <= |s|
    ensures HasOther(s, n) <==> (n > 0 && ValueOf(s[0]) < 0) || (n > 1 && ValueOf(s[1]) < 0)
                                || (n > 2 && ValueOf(s[2]) < 0) || (n > 3 && ValueOf(s[3]) < 0)
  {
    hide ValueOf;
  }

  lemma GroupRead(s: string, room: nat, e: nat)
    requires IsEnd(s, e) && Looked(e, room) >= 4
    ensures var p := ReadGroup(s, room);
            && p == (if HasOther(s, 4) then Bad
                     else Full(ValueOf(s[0]) * 4 + ValueOf(s[1]) / 16, ValueOf(s[1]) % 16 * 16 + ValueOf(s[2]) / 4,
                         ValueOf(s[2]) % 4 * 64 + ValueOf(s[3])))
            && room >= 3 && e >= 4 && IsEnd(s[4..], e - 4) && Looked(e - 4, room - 3) == Looked(e, room) - 4
  {
    hide ValueOf, HasOther;
    FewOthers(s, 4);
  }

  /** A group that is read, and what is read behind it. */
  lemma ReadBehind(s: string, n: nat, three: seq<byte>, r: Option<seq<byte>>)
    requires 4 <= n <= |s| && !HasOther(s, 4) && AreDigits(s[..4]) && |three| == 3
    requires Bits(s[..4]) == Value(three, 256) && IsRead(s[4..], n - 4, r)
    ensures IsRead(s, n, if r.None? then None else Some(three + r.value))
  {
    hide ValueOf, FirstBits, AreDigits;
    NoOther(s, n);
    OthersBehind(s, n);
    if r.Some? {
      NoOther(s[4..], n - 4);
      assert s[4..][..n - 4] == s[4..n] && s[..4] + s[4..n] == s[..n];
      FirstBehind(s[..4], s[4..n], three, r.value);
    }
  }

  lemma OthersBehind(s: string, n: nat)
    requires 4 <= n <= |s| && !HasOther(s, 4)
    ensures HasOther(s, n) <==> HasOther(s[4..], n - 4)
  {
    hide ValueOf;
    if i :| 0 <= i < n && ValueOf(s[i]) < 0 {
      assert s[4..][i - 4] == s[i];
    }
  }

  lemma FirstBehind(head: string, tail: string, three: seq<byte>, d: seq<byte>)
    requires |head| == 4 && AreDigits(head) && AreDigits(tail) && |three| == 3
    requires Bits(head) == Value(three, 256) && FirstBits(tail, d)
    ensures AreDigits(head + tail) && FirstBits(head + tail, three + d)
  {
    hide Value, Pow, ValueOf, Bits, AreDigits;
    var p := 6 * |tail| - 8 * |d|;
    BitsConcat(head, tail);
    ValueConcat(three, d, 256);
    SameBits(|tail|, |d|, p);
    Shift(Value(three, 256), Pow(256, |d|), Value(d, 256), Pow(2, p));
    Shift(Value(three, 256), Pow(256, |d|), Value(d, 256) + 1, Pow(2, p));
    assert 6 * |head + tail| - 8 * |three + d| == p;
  }

  /** Decoding looks at the characters up to the first NUL or sign of equality, and at no more than there is room for.
      It fails if and only if one of these is in neither alphabet; otherwise it gives the whole octets that the bits of
      these characters begin with. */
  lemma {:induction false} ReadIs(s: string, room: nat, e: nat)
    requires IsEnd(s, e)
    ensures IsRead(s, Looked(e, room), Read(s, room))
    decreases |s|
  {
    hide IsRead, HasOther, ReadGroup, ValueOf, IsEnd, Bits;
    if Looked(e, room) < 4 {
      LastRead(s, room, e);
    } else {
      var n := Looked(e, room);
      GroupRead(s, room, e);
      LookedThere(s, room, e);
      NoOther(s, 4);
      if HasOther(s, 4) {
        OtherStops(s, n);
      } else {
        var p := ReadGroup(s, room);
        FourDigitsRead(s[..4], p.a, p.b, p.c);
        ReadIs(s[4..], room - 3, e - 4);
        ReadBehind(s, n, [p.a, p.b, p.c], Read(s[4..], room - 3));
      }
    }
  }

  lemma LookedThere(s: string, room: nat, e: nat)
    requires IsEnd(s, e)
    ensures Looked(e, room) <= e <= |s|
  {
  }

  lemma OtherStops(s: string, n: nat)
    requires 4 <= n <= |s| && HasOther(s, 4)
    ensures IsRead(s, n, None)
  {
    hide ValueOf;
  }
}
