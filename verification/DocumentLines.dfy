/** The lines of a document as section 2.1 of CommonMark 0.24 has them, told by how they make up the text: what the
    reading of deps/cmark/src/blocks.c passes on is these lines. */
module DocumentLines {
  import opened Bytes
  import opened LineFeed

  /** A line and its ending. */
  datatype Line = Line(body: seq<byte>, end: seq<byte>)

  predicate IsEnding(e: seq<byte>) { e == [0x0A] || e == [0x0D] || e == [0x0D, 0x0A] }

  /** No LF and no CR. */
  predicate IsBody(b: seq<byte>) { forall c :: c in b ==> c != 0x0A && c != 0x0D }

  /** From i on the text is the lines. Only the last may lack an ending, and is not empty then; a CR is an ending of its
      own where no LF follows. */
  predicate MadeOf(s: seq<byte>, i: nat, lines: seq<Line>)
    decreases |lines|
  {
    if lines == [] then i == |s|
    else
      var l := lines[0];
      var e := i + |l.body|;
      var k := e + |l.end|;
      && k <= |s| && s[i..e] == l.body && s[e..k] == l.end && IsBody(l.body)
      && MadeOf(s, k, lines[1..])
      && (if k == |s| && l.end == [] then l.body != [] else IsEnding(l.end))
      && (l.end == [0x0D] && k < |s| ==> s[k] != 0x0A)
  }

  /** U+FFFD in the place of each NUL. */
  function Shown(b: seq<byte>): seq<byte> {
    if b == [] then [] else (if b[0] == 0 then [0xEF, 0xBF, 0xBD] else [b[0]]) + Shown(b[1..])
  }

  function AllShown(lines: seq<Line>): (r: seq<seq<byte>>)
    ensures |r| == |lines|
  {
    if lines == [] then [] else [Shown(lines[0].body)] + AllShown(lines[1..])
  }

  lemma {:induction false} ReplacedFront(a: seq<byte>, b: seq<byte>)
    ensures Replace(a + b) == Replace(a) + Replace(b)
  {
    if b == [] {
      assert a + b == a;
    } else {
      var init := b[..|b| - 1];
      assert (a + b)[..|a + b| - 1] == a + init;
      ReplacedFront(a, init);
      hide Replaced;
    }
  }

  lemma {:induction false} ReplaceIs(b: seq<byte>)
    ensures Replace(b) == Shown(b)
  {
    if b != [] {
      ReplacedFront([b[0]], b[1..]);
      assert [b[0]] + b[1..] == b && [b[0]][..0] == [];
      ReplaceIs(b[1..]);
    }
  }

  lemma {:induction false} LineEndIs(s: seq<byte>, i: nat, e: nat)
    requires i <= e <= |s| && (e < |s| ==> s[e] == 0x0A || s[e] == 0x0D)
    requires forall k :: i <= k < e ==> s[k] != 0x0A && s[k] != 0x0D
    ensures LineEnd(s, i) == e
    decreases e - i
  {
    if i < e {
      LineEndIs(s, i + 1, e);
    }
  }

  lemma FirstLine(s: seq<byte>, i: nat, lines: seq<Line>)
    requires lines != [] && MadeOf(s, i, lines)
    ensures var l := lines[0]; var e := i + |l.body|;
            && e <= |s| && i < |s| && LineEnd(s, i) == e && s[i..e] == l.body
            && (e == |s| ==> lines[1..] == [])
            && (e < |s| ==> Behind(s, e) == e + |l.end| && MadeOf(s, Behind(s, e), lines[1..]))
  {
    var l := lines[0];
    var e := i + |l.body|;
    var k := e + |l.end|;
    forall j | i <= j < e ensures s[j] != 0x0A && s[j] != 0x0D {
      assert s[i..e][j - i] in l.body;
    }
    if l.end != [] {
      assert s[e] == s[e..k][0];
      if |l.end| == 2 {
        assert s[e + 1] == s[e..k][1];
      }
    }
    LineEndIs(s, i, e);
    hide LineEnd;
  }

  /** However a text is made up of lines, what is passed on is these lines, with NULs replaced. */
  lemma {:induction false} MadeOfGives(s: seq<byte>, i: nat, lines: seq<Line>)
    requires i <= |s| && MadeOf(s, i, lines)
    ensures Lines(s, i) == AllShown(lines)
    decreases |lines|
  {
    if lines != [] {
      hide *;
      FirstLine(s, i, lines);
      var l, e := lines[0], i + |lines[0].body|;
      ReplaceIs(l.body);
      LinesFrom(s, i);
      ShownFrom(lines);
      if e < |s| {
        MadeOfGives(s, Behind(s, e), lines[1..]);
      } else {
        NoneShown();
      }
    } else {
      hide *;
      NoLines(s, i);
    }
  }

  lemma NoLines(s: seq<byte>, i: nat)
    requires i <= |s| && MadeOf(s, i, [])
    ensures Lines(s, i) == AllShown([])
  {
  }

  lemma LinesFrom(s: seq<byte>, i: nat)
    requires i < |s|
    ensures var e := LineEnd(s, i);
            Lines(s, i) == [Replace(s[i..e])] + if e == |s| then [] else Lines(s, Behind(s, e))
  {
    hide LineEnd, Behind, Replace;
  }

  lemma ShownFrom(lines: seq<Line>)
    requires lines != []
    ensures AllShown(lines) == [Shown(lines[0].body)] + AllShown(lines[1..])
  {
  }

  lemma NoneShown()
    ensures AllShown([]) == []
  {
  }

  /** Every text is made up of lines. */
  lemma {:induction false} EveryText(s: seq<byte>, i: nat) returns (lines: seq<Line>)
    requires i <= |s|
    ensures MadeOf(s, i, lines)
    decreases |s| - i
  {
    if i == |s| {
      return [];
    }
    var e := LineEnd(s, i);
    var k := if e == |s| then e else Behind(s, e);
    var rest := EveryText(s, k);
    hide *;
    lines := [Line(s[i..e], s[e..k])] + rest;
    OneMore(s, i, lines);
  }

  lemma OneMore(s: seq<byte>, i: nat, lines: seq<Line>)
    requires i < |s| && lines != []
    requires var e := LineEnd(s, i);
             var k := if e == |s| then e else Behind(s, e);
             lines[0] == Line(s[i..e], s[e..k]) && MadeOf(s, k, lines[1..])
    ensures MadeOf(s, i, lines)
  {
    var e := LineEnd(s, i);
    BodyIs(s, i, e);
    EndingIs(s, e);
    hide LineEnd, Behind, IsBody;
  }

  lemma BodyIs(s: seq<byte>, i: nat, e: nat)
    requires i <= e <= |s| && forall k :: i <= k < e ==> !IsEnd(s[k])
    ensures IsBody(s[i..e])
  {
  }

  lemma EndingIs(s: seq<byte>, e: nat)
    requires e < |s| ==> IsEnd(s[e])
    ensures e < |s| ==> var k := Behind(s, e); IsEnding(s[e..k]) && (s[e..k] == [0x0D] && k < |s| ==> s[k] != 0x0A)
  {
  }

  /** Feeding chunks and finishing passes on the lines the text is made up of, unless a NUL stands before a line ending
      with text behind it. */
  lemma FeedingGives(chunks: seq<seq<byte>>, s: seq<byte>, lines: seq<Line>)
    requires Cut(chunks, s) && MadeOf(s, 0, lines)
    requires forall i :: 0 < i < |s| - 1 && s[i - 1] == 0 && (s[i] == 0x0A || s[i] == 0x0D) ==>
               i + 2 == |s| && s[i] == 0x0D && s[i + 1] == 0x0A
    ensures Finish(FeedAll(chunks)) == AllShown(lines)
  {
    ChunkingDoesNotMatter(chunks, s);
    MadeOfGives(s, 0, lines);
    hide MadeOf, Lines, Finish, FeedAll;
  }
}
