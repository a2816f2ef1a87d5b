/** The base64 codec of src/util/hash.c, RFC 4648 sections 4 and 5. Bit operations are written as arithmetic. */
module Base64 {
  import opened Bytes
  import opened Optional

  // ---------------------------------------------------------------- the alphabets

  predicate IsTerm(c: char) { c == '\0' || c == '=' }

  /** b64_char: both alphabets are read; -1 for anything else. */
  function ValueOf(c: char): (v: int)
    ensures -1 <= v < 64
  {
    if 'A' <= c <= 'Z' then c as int - 'A' as int
    else if 'a' <= c <= 'z' then c as int - 'a' as int + 26
    else if '0' <= c <= '9' then c as int - '0' as int + 52
    else if c == '+' || c == '-' then 62
    else if c == '/' || c == '_' then 63
    else -1
  }

  /** The character of a value, in the standard alphabet or in the one for URLs. */
  function CharOf(std: bool, v: int): char
    requires 0 <= v < 64
  {
    if v < 26 then 'A' + v as char
    else if v < 52 then 'a' + (v - 26) as char
    else if v < 62 then '0' + (v - 52) as char
    else if v == 62 then if std then '+' else '-'
    else if std then '/' else '_'
  }

  lemma AlphabetsAgree(std: bool, v: int)
    requires 0 <= v < 64
    ensures ValueOf(CharOf(std, v)) == v && !IsTerm(CharOf(std, v))
  {
  }

  // ---------------------------------------------------------------- the two texts

  /** The first three octets, or what there is of them, as four characters; only the standard form is padded. */
  function Group(std: bool, d: seq<byte>): string
    requires d != []
  {
    var first := CharOf(std, d[0] / 4);
    if |d| == 1 then [first, CharOf(std, d[0] % 4 * 16)] + if std then ['=', '='] else []
    else
      var second := CharOf(std, d[0] % 4 * 16 + d[1] / 16);
      if |d| == 2 then [first, second, CharOf(std, d[1] % 16 * 4)] + if std then ['='] else []
      else [first, second, CharOf(std, d[1] % 16 * 4 + d[2] / 64), CharOf(std, d[2] % 64)]
  }

  function Spelled(std: bool, d: seq<byte>): string {
    if d == [] then [] else if |d| <= 3 then Group(std, d) else Group(std, d) + Spelled(std, d[3..])
  }

  predicate Ends(s: string, i: nat) { i >= |s| || IsTerm(s[i]) }

  /** What four characters give: the last octets, a character that is in neither alphabet, or three octets. */
  datatype Portion = Stop(last: seq<byte>) | Bad | Full(a: byte, b: byte, c: byte)

  function ReadGroup(s: string, room: nat): (p: Portion)
    ensures p.Full? ==> |s| >= 4 && room >= 3
    ensures p.Stop? ==> |p.last| <= 2 && |p.last| <= room
  {
    if room == 0 || Ends(s, 0) then Stop([])
    else if ValueOf(s[0]) < 0 then Bad
    else if Ends(s, 1) then Stop([])
    else if ValueOf(s[1]) < 0 then Bad
    else
      var a: byte := ValueOf(s[0]) * 4 + ValueOf(s[1]) / 16;
      if room == 1 || Ends(s, 2) then Stop([a])
      else if ValueOf(s[2]) < 0 then Bad
      else
        var b: byte := ValueOf(s[1]) % 16 * 16 + ValueOf(s[2]) / 4;
        if room == 2 || Ends(s, 3) then Stop([a, b])
        else if ValueOf(s[3]) < 0 then Bad
        else Full(a, b, ValueOf(s[2]) % 4 * 64 + ValueOf(s[3]))
  }

  /** What is read from s, up to room octets. */
  function Read(s: string, room: nat): Option<seq<byte>> {
    match ReadGroup(s, room)
    case Stop(last) => Some(last)
    case Bad => None
    case Full(a, b, c) =>
      var rest := Read(s[4..], room - 3);
      if rest.None? then None else Some([a, b, c] + rest.value)
  }

  function Min(a: nat, b: nat): nat { if a < b then a else b }

  /** Reading undoes spelling, in both alphabets, up to the room there is. What follows the text does not matter
      when it is a NUL or padding. */
  lemma {:induction false} ReadUndoesSpelled(std: bool, d: seq<byte>, rest: string, room: nat)
    requires Ends(rest, 0)
    ensures Read(Spelled(std, d) + rest, room) == Some(d[..Min(room, |d|)])
    decreases |d|
  {
    hide Spelled, ReadGroup, Ends;
    GroupReads(std, d, rest, room);
    if |d| > 2 && room > 2 {
      RestOf(std, d, rest);
      ReadUndoesSpelled(std, d[3..], rest, room - 3);
      assert d[..Min(room, |d|)] == [d[0], d[1], d[2]] + d[3..][..Min(room - 3, |d| - 3)];
    }
  }

  lemma GroupReads(std: bool, d: seq<byte>, rest: string, room: nat)
    requires Ends(rest, 0)
    ensures ReadGroup(Spelled(std, d) + rest, room) ==
            if |d| > 2 && room > 2 then Full(d[0], d[1], d[2]) else Stop(d[..Min(room, |d|)])
  {
    var s := Spelled(std, d) + rest;
    if d == [] {
      assert s == rest;
    } else {
      SpelledValues(std, d, rest);
      Octets(s, d);
      hide Spelled, ValueOf, Ends;
      if |d| <= 2 || room <= 2 {
        assert d[..Min(room, |d|)] == if room == 0 then [] else if room == 1 || |d| == 1 then [d[0]] else [d[0], d[1]];
      }
    }
  }

  lemma RestOf(std: bool, d: seq<byte>, rest: string)
    requires |d| > 2
    ensures (Spelled(std, d) + rest)[4..] == Spelled(std, d[3..]) + rest
  {
  }

  /** The octets come back from their sextets. */
  lemma Octets(s: string, d: seq<byte>)
    requires d != [] && |s| >= 2 && ValueOf(s[0]) == d[0] / 4
    requires ValueOf(s[1]) == d[0] % 4 * 16 + (if |d| > 1 then d[1] / 16 else 0)
    requires |d| > 1 ==> |s| > 2 && ValueOf(s[2]) == d[1] % 16 * 4 + (if |d| > 2 then d[2] / 64 else 0)
    requires |d| > 2 ==> |s| > 3 && ValueOf(s[3]) == d[2] % 64
    ensures ValueOf(s[0]) * 4 + ValueOf(s[1]) / 16 == d[0]
    ensures |d| > 1 ==> ValueOf(s[1]) % 16 * 16 + ValueOf(s[2]) / 4 == d[1]
    ensures |d| > 2 ==> ValueOf(s[2]) % 4 * 64 + ValueOf(s[3]) == d[2]
  {
  }

  lemma SpelledValues(std: bool, d: seq<byte>, rest: string)
    requires d != [] && Ends(rest, 0)
    ensures var s := Spelled(std, d) + rest;
            && |s| >= 2 && !Ends(s, 0) && !Ends(s, 1) && ValueOf(s[0]) == d[0] / 4
            && ValueOf(s[1]) == d[0] % 4 * 16 + (if |d| > 1 then d[1] / 16 else 0)
            && (if |d| > 1 then !Ends(s, 2) && ValueOf(s[2]) == d[1] % 16 * 4 + (if |d| > 2 then d[2] / 64 else 0)
                else Ends(s, 2))
            && (|d| > 1 ==> if |d| > 2 then !Ends(s, 3) && ValueOf(s[3]) == d[2] % 64 else Ends(s, 3))
  {
    AlphabetsAgree(std, d[0] / 4);
    AlphabetsAgree(std, d[0] % 4 * 16 + if |d| > 1 then d[1] / 16 else 0);
    if |d| > 1 {
      AlphabetsAgree(std, d[1] % 16 * 4 + if |d| > 2 then d[2] / 64 else 0);
    }
    if |d| > 2 {
      AlphabetsAgree(std, d[2] % 64);
      assert |Spelled(std, d)| >= 4;
    }
    hide ValueOf, CharOf, IsTerm;
  }

  /** How many octets fit when there is room for max characters, the NUL among them. */
  function Fits(len: nat, max: nat): nat
    requires max > 0
  {
    Min(len, 3 * ((max - 1) / 4))
  }

  // ---------------------------------------------------------------- the functions

  /** The text written so far, and the spelling of what is left, are the spelling of everything. */
  predicate Written(std: bool, d: seq<byte>, done: string, k: nat) {
    k <= |d| && done + Spelled(std, d[k..]) == Spelled(std, d)
  }

  lemma WrittenStart(std: bool, d: seq<byte>)
    ensures Written(std, d, [], 0)
  {
    assert d[0..] == d;
    assert [] + Spelled(std, d) == Spelled(std, d);
    hide Spelled;
  }

  lemma WrittenStep(std: bool, d: seq<byte>, done: string, k: nat)
    requires Written(std, d, done, k)
    ensures if k == |d| then done == Spelled(std, d)
              else if k + 3 <= |d| then Written(std, d, done + Group(std, d[k..]), k + 3)
            else done + Group(std, d[k..]) == Spelled(std, d)
  {
    hide Group;
    assert k == |d| ==> done + [] == done;
    if k + 3 <= |d| {
      assert d[k..][3..] == d[k + 3..];
      assert done + (Group(std, d[k..]) + Spelled(std, d[k + 3..])) == done + Group(std, d[k..])
          + Spelled(std, d[k + 3..]);
      if k + 3 == |d| {
        assert Spelled(std, d[k + 3..]) == [];
      }
    }
  }

  lemma GroupOfPrefix(std: bool, buf: seq<byte>, n: nat, k: nat)
    requires k < n <= |buf| && (n == |buf| || k + 3 <= n)
    ensures Group(std, buf[..n][k..]) == Group(std, buf[k..])
  {
    var u, v := buf[..n][k..], buf[k..];
    assert u[0] == v[0] && (|u| > 1 ==> u[1] == v[1]) && (|u| > 2 ==> u[2] == v[2]);
    hide CharOf;
  }

  /** The characters of a group, one by one. */
  lemma GroupIs(std: bool, d: seq<byte>, g: string)
    requires d != [] && |g| == if |d| >= 3 || std then 4 else |d| + 1
    requires g[0] == CharOf(std, d[0] / 4)
    requires g[1] == CharOf(std, d[0] % 4 * 16 + if |d| > 1 then d[1] / 16 else 0)
    requires |g| > 2 ==> g[2] == if |d| == 1 then '=' else CharOf(std, d[1] % 16 * 4 + if |d| > 2 then d[2] / 64 else 0)
    requires |g| > 3 ==> g[3] == if |d| <= 2 then '=' else CharOf(std, d[2] % 64)
    ensures g == Group(std, d)
  {
    hide CharOf;
  }

  /** One round of the loop of b64_encode that finds an octet; last when there were fewer than three. */
  method EncodeGroup(std: bool, buf: seq<byte>, k: nat, out: array<char>, o: nat) returns (last: bool, size: nat)
    requires k < |buf| && o + 4 < out.Length
    modifies out
    ensures last == (k + 2 >= |buf|) && size == |Group(std, buf[k..])| <= 4 && (!last ==> size == 4)
    ensures out[o..o + size] == Group(std, buf[k..]) && (last ==> out[o + size] == '\0')
    ensures forall i :: 0 <= i < o || o + 4 < i < out.Length ==> out[i] == old(out[i])
  {
    hide CharOf, Group;
    var d := buf[k..];
    out[o] := CharOf(std, d[0] / 4);
    var b: nat := d[0] % 4 * 16;
    out[o + 1] := CharOf(std, b);
    out[o + 2] := if std then '=' else '\0';
    out[o + 3] := if std then '=' else '\0';
    out[o + 3 + 1] := '\0';
    if k + 1 >= |buf| {
      last, size := true, if std then 3 + 1 else 1 + 1;
      GroupIs(std, d, out[o..o + size]);
      return;
    }
    b := b + d[1] / 16;
    out[o + 1] := CharOf(std, b);
    b := d[1] % 16 * 4;
    out[o + 2] := CharOf(std, b);
    if k + 2 >= |buf| {
      last, size := true, if std then 3 + 1 else 2 + 1;
      GroupIs(std, d, out[o..o + size]);
      return;
    }
    b := b + d[2] / 64;
    out[o + 2] := CharOf(std, b);
    b := d[2] % 64;
    out[o + 3] := CharOf(std, b);
    last, size := false, 4;
    GroupIs(std, d, out[o..o + size]);
  }

  /** b64_encode: max is the room in out. What does not fit is left out, in whole groups. */
  method B64Encode(std: bool, buf: seq<byte>, out: array<char>, max: nat) returns (size: nat)
    requires 0 < max <= out.Length
    modifies out
    ensures size < max && out[..size] == Spelled(std, buf[..Fits(|buf|, max)]) && out[size] == '\0'
    ensures forall i :: max <= i < out.Length ==> out[i] == old(out[i])
  {
    hide Group, CharOf, Spelled, Written;
    ghost var d := buf[..Fits(|buf|, max)];
    var i := 0;
    WrittenStart(std, d);
    assert out[..0] == [];
    while true
      invariant 4 * i < max && 3 * i <= |d| && Written(std, d, out[..4 * i], 3 * i)
      invariant forall k :: max <= k < out.Length ==> out[k] == old(out[k])
      decreases max - 4 * i
    {
      ghost var done := out[..4 * i];
      WrittenStep(std, d, done, 3 * i);
      out[4 * i] := '\0';
      assert out[..4 * i] == done;
      if 4 * i + 3 + 1 >= max {
        return 4 * i;
      }
      if 3 * i >= |buf| {
        return 4 * i;
      }
      GroupOfPrefix(std, buf, |d|, 3 * i);
      var last;
      last, size := EncodeGroup(std, buf, 3 * i, out, 4 * i);
      assert out[..4 * i + size] == done + out[4 * i..4 * i + size];
      if last {
        return 4 * i + size;
      }
      i := i + 1;
    }
  }

  /** What was read so far, followed by what will be read, is the whole. */
  predicate SoFar(s: string, room: nat, done: seq<byte>, i: nat) {
    && 4 * i <= |s| && 3 * i <= room
    && var rest := Read(s[4 * i..], room - 3 * i);
       Read(s, room) == if rest.None? then None else Some(done + rest.value)
  }

  lemma SoFarStart(s: string, room: nat)
    ensures SoFar(s, room, [], 0)
  {
    assert s[0..] == s;
    var rest := Read(s, room);
    assert rest.Some? ==> [] + rest.value == rest.value;
  }

  lemma SoFarStep(s: string, room: nat, done: seq<byte>, i: nat)
    requires SoFar(s, room, done, i)
    ensures var p := ReadGroup(s[4 * i..], room - 3 * i);
            && (p.Stop? ==> Read(s, room) == Some(done + p.last))
            && (p.Bad? ==> Read(s, room) == None)
            && (p.Full? ==> 4 * (i + 1) <= |s| && 3 * (i + 1) <= room && SoFar(s, room, done + [p.a, p.b, p.c], i + 1))
  {
    hide ReadGroup;
    var t := s[4 * i..];
    var p := ReadGroup(t, room - 3 * i);
    if p.Full? {
      assert t[4..] == s[4 * (i + 1)..];
      var rest := Read(t[4..], room - 3 * i - 3);
      assert rest.Some? ==> done + ([p.a, p.b, p.c] + rest.value) == done + [p.a, p.b, p.c] + rest.value;
    }
  }

  /** How a round of the loop of b64_decode ends. */
  datatype Round = Returns | Fails | Goes

  /** One round: the characters from k on give octets at o; size is how many. */
  method DecodeGroup(str: string, k: nat, out: array<byte>, o: nat, max: nat) returns (round: Round, size: nat)
    requires k <= |str| && o <= max <= out.Length
    modifies out
    ensures var p := ReadGroup(str[k..], max - o);
            && round == (if p.Stop? then Returns else if p.Bad? then Fails else Goes)
            && (p.Stop? ==> size == |p.last| && out[o..o + size] == p.last)
            && (p.Full? ==> size == 3 && out[o..o + size] == [p.a, p.b, p.c])
    ensures forall i :: 0 <= i < o || max <= i < out.Length ==> out[i] == old(out[i])
  {
    hide ValueOf, IsTerm;
    var s := str[k..];
    if o >= max { return Returns, 0; }
    if |s| <= 0 || IsTerm(s[0]) { return Returns, 0; }
    var lo := ValueOf(s[0]);
    if lo < 0 { return Fails, 0; }
    if |s| <= 1 || IsTerm(s[1]) { return Returns, 0; }
    var hi := lo;
    lo := ValueOf(s[1]);
    if lo < 0 { return Fails, 0; }
    out[o] := hi * 4 + lo / 16;
    if o + 1 >= max { return Returns, 1; }
    if |s| <= 2 || IsTerm(s[2]) { return Returns, 1; }
    hi := lo;
    lo := ValueOf(s[2]);
    if lo < 0 { return Fails, 0; }
    out[o + 1] := hi % 16 * 16 + lo / 4;
    if o + 2 >= max { return Returns, 2; }
    if |s| <= 3 || IsTerm(s[3]) { return Returns, 2; }
    hi := lo;
    lo := ValueOf(s[3]);
    if lo < 0 { return Fails, 0; }
    out[o + 2] := hi % 4 * 64 + lo;
    return Goes, 3;
  }

  lemma Extends(s: seq<byte>, done: seq<byte>, k: nat, n: nat)
    requires k + n <= |s| && s[..k] == done
    ensures s[..k + n] == done + s[k..k + n]
  {
  }

  /** b64_decode, into room for max octets. */
  method B64Decode(str: string, out: array<byte>, max: nat) returns (ok: bool, size: nat)
    requires max <= out.Length
    modifies out
    ensures ok == Read(str, max).Some?
    ensures ok ==> size <= max && out[..size] == Read(str, max).value
    ensures forall i :: max <= i < out.Length ==> out[i] == old(out[i])
  {
    hide *;
    var i := 0;
    ghost var done: seq<byte> := [];
    SoFarStart(str, max);
    assert out[..0] == [];
    while true
      invariant 4 * i <= |str| && 3 * i <= max && done == out[..3 * i] && SoFar(str, max, done, i)
      invariant forall k :: max <= k < out.Length ==> out[k] == old(out[k])
      decreases |str| - 4 * i
    {
      SoFarStep(str, max, done, i);
      var round, n := DecodeGroup(str, 4 * i, out, 3 * i, max);
      if round == Fails {
        return false, 0;
      }
      Extends(out[..], done, 3 * i, n);
      if round == Returns {
        return true, 3 * i + n;
      }
      done, i := out[..3 * i + n], i + 1;
    }
  }

  // ---------------------------------------------------------------- round trip

  /** Encoding into room for max characters and decoding the text, with or without its NUL, gives the octets that
      fit: all of them, or as many whole groups as there is room for. */
  lemma RoundTrip(std: bool, buf: seq<byte>, max: nat, rest: string, room: nat)
    requires max > 0 && Ends(rest, 0) && room >= Fits(|buf|, max)
    ensures Read(Spelled(std, buf[..Fits(|buf|, max)]) + rest, room) == Some(buf[..Fits(|buf|, max)])
  {
    var d := buf[..Fits(|buf|, max)];
    ReadUndoesSpelled(std, d, rest, room);
    assert d[..|d|] == d;
  }

  /** The buffers of hash_uri_format hold 63 octets of a digest, so one of 64 octets loses its last. */
  lemma FormatterKeeps(len: nat)
    ensures Fits(len, 64 * 8 / 6 + 1 + 1) == Min(len, 63)
  {
  }
}
