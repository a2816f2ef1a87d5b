/** What process_emphasis of deps/cmark/src/inlines.c makes of a run that opens and a run that closes, in numbers of
    nodes: which are plain, which are strong, and how they nest. */
module EmphasisRuns {
  import opened Bytes
  import opened Optional
  import opened Emphasis

  /** n strong nodes, one in the other, around the siblings. */
  function Strongs(n: nat, inls: seq<Inline>): seq<Inline> {
    if n == 0 then inls else [Strong(Strongs(n - 1, inls))]
  }

  /** Perhaps a plain node around them. */
  function EmphIf(plain: bool, inls: seq<Inline>): seq<Inline> { if plain then [Emph(inls)] else inls }

  function Lesser(a: nat, b: nat): nat { if a < b then a else b }

  /** A plain node stands innermost: the closing run is odd, and both have three characters or more. */
  predicate PlainInside(o: nat, c: nat) { o >= 3 && c >= 3 && c % 2 == 1 }

  /** The characters that the nodes outside of that one stand for. */
  function Outer(o: nat, c: nat): nat { if PlainInside(o, c) then Lesser(o, c) - 1 else Lesser(o, c) }

  /** What o opening and c closing characters make of what is between them: as many characters of both as the
      shorter run has, two for each strong node, one for a plain one that stands innermost or outermost. */
  function Tower(o: nat, c: nat, inls: seq<Inline>): seq<Inline> {
    EmphIf(Outer(o, c) % 2 == 1, Strongs(Outer(o, c) / 2, EmphIf(PlainInside(o, c), inls)))
  }

  /** A run without its last n characters. */
  function AllBut(s: seq<byte>, n: nat): (r: seq<byte>)
    requires n <= |s|
    ensures |r| == |s| - n
  {
    s[..|s| - n]
  }

  /** What is left of a run. */
  function LeftOver(id: nat, literal: seq<byte>): seq<Inline> {
    if literal == [] then [] else [Text(id, literal)]
  }

  /** Siblings with two runs among them. */
  function Row(a: seq<Inline>, x: nat, lo: seq<byte>, mid: seq<Inline>, y: nat, lc: seq<byte>,
               b: seq<Inline>): seq<Inline>
  {
    a + LeftOver(x, lo) + mid + LeftOver(y, lc) + b
  }

  // ---------------------------------------------------------------- numbers

  lemma {:induction false} StrongsInside(n: nat, inls: seq<Inline>)
    ensures Strongs(n + 1, inls) == Strongs(n, [Strong(inls)])
  {
    if n > 0 {
      StrongsInside(n - 1, inls);
    } else {
      assert Strongs(0, inls) == inls;
    }
  }

  /** The characters that one round uses. */
  function Used(o: nat, c: nat): nat {
    if PlainInside(o, c) || Lesser(o, c) == 1 then 1 else 2
  }

  function Node(used: nat, inls: seq<Inline>): Inline { if used == 1 then Emph(inls) else Strong(inls) }

  /** The innermost node comes first. */
  lemma TowerStarts(o: nat, c: nat, inls: seq<Inline>)
    requires o > 0 && c > 0
    ensures var used := Used(o, c);
            && 0 < used <= o && used <= c
            && Tower(o, c, inls) ==
               if used == Lesser(o, c) then [Node(used, inls)] else Tower(o - used, c - used, [Node(used, inls)])
  {
    var used := Used(o, c);
    var n := Outer(o, c);
    if PlainInside(o, c) {
      assert !PlainInside(o - 1, c - 1) && Outer(o - 1, c - 1) == n;
    } else if Lesser(o, c) > 2 {
      assert !PlainInside(o - 2, c - 2) && Outer(o - 2, c - 2) == n - 2;
      StrongsInside(n / 2 - 1, inls);
      assert (n - 2) / 2 == n / 2 - 1 && (n - 2) % 2 == n % 2;
    } else if Lesser(o, c) == 2 {
      assert Strongs(1, inls) == [Strong(Strongs(0, inls))];
    }
  }

  lemma UsesThat(o: nat, c: nat)
    requires o > 0 && c > 0
    ensures UseDelims(o, c) == Used(o, c)
  {
  }

  // ---------------------------------------------------------------- the algorithm on two runs

  /** Two runs of one character, the first opening and the second closing. */
  predicate TwoRuns(ds: seq<Delim>, x: nat, y: nat) {
    && |ds| == 2 && ds[0].inl == x && ds[1].inl == y && ds[0].c == ds[1].c && (ds[0].c == 0x2A || ds[0].c == 0x5F)
    && ds[0].canOpen && ds[1].canClose
  }

  lemma RowParts(a: seq<Inline>, x: nat, lo: seq<byte>, mid: seq<Inline>, y: nat, lc: seq<byte>, b: seq<Inline>)
    requires lo != [] && lc != []
    ensures var inls, pc := Row(a, x, lo, mid, y, lc, b), |a| + 1 + |mid|;
            && pc < |inls| && inls[|a|] == Text(x, lo) && inls[pc] == Text(y, lc)
            && inls[..|a|] == a && inls[|a| + 1..pc] == mid && inls[pc + 1..] == b
  {
    var inls := Row(a, x, lo, mid, y, lc, b);
    assert inls == a + ([Text(x, lo)] + mid + [Text(y, lc)] + b);
    assert inls == (a + [Text(x, lo)]) + (mid + [Text(y, lc)] + b);
    assert inls == (a + [Text(x, lo)] + mid + [Text(y, lc)]) + b;
  }

  lemma RowWrapped(a: seq<Inline>, x: nat, lo: seq<byte>, mid: seq<Inline>, y: nat, lc: seq<byte>, b: seq<Inline>)
    requires lo != [] && lc != []
    ensures var inls, used, pc := Row(a, x, lo, mid, y, lc, b), Used(|lo|, |lc|), |a| + 1 + |mid|;
            && used <= |lo| && used <= |lc| && pc < |inls| && inls[|a|] == Text(x, lo) && inls[pc] == Text(y, lc)
            && Wrapped(inls, |a|, pc, used) ==
               Row(a, x, AllBut(lo, used), [Node(used, mid)], y, AllBut(lc, used), b)
  {
    RowParts(a, x, lo, mid, y, lc, b);
    TowerStarts(|lo|, |lc|, []);
    hide Row, Used;
    var used := Used(|lo|, |lc|);
    assert Shortened(Text(x, lo), used) == LeftOver(x, AllBut(lo, used));
    assert Shortened(Text(y, lc), used) == LeftOver(y, AllBut(lc, used));
    hide Shortened, LeftOver;
    RowIs(a, x, AllBut(lo, used), [Node(used, mid)], y, AllBut(lc, used), b);
  }

  lemma RowIs(a: seq<Inline>, x: nat, lo: seq<byte>, mid: seq<Inline>, y: nat, lc: seq<byte>, b: seq<Inline>)
    ensures Row(a, x, lo, mid, y, lc, b) == a + LeftOver(x, lo) + mid + LeftOver(y, lc) + b
  {
  }

  lemma ResultIs(st: State)
    requires Ready(st)
    ensures if st.i == |st.ds| then Result(st) == st else Ready(Step(st)) && Result(st) == Result(Step(st))
  {
    if st.i < |st.ds| {
      StepReady(st);
    }
    hide Step, Laid;
  }

  /** A closing run that finds no opener stays text. */
  lemma CloserAlone(st: State)
    requires Ready(st) && |st.ds| == 1 && st.i == 0 && IsStar(st.ds[0].c)
    ensures Result(st).inls == st.inls
  {
    var st' := Step(st);
    assert FindOpener(st.ds, 0, st.ds[0].c) == None;
    assert st'.inls == st.inls && st'.i == |st'.ds|;
    hide Step, Laid, Result;
    ResultIs(st);
    ResultIs(st');
  }

  /** One round: the closer takes characters of the opener before it. */
  lemma RoundOfTwo(st: State, x: nat, y: nat, a: seq<Inline>, lo: seq<byte>, mid: seq<Inline>, lc: seq<byte>,
                   b: seq<Inline>)
    requires Ready(st) && TwoRuns(st.ds, x, y) && st.i == 1 && lo != [] && lc != []
    requires st.inls == Row(a, x, lo, mid, y, lc, b)
    ensures var used, st' := Used(|lo|, |lc|), Step(st);
            && used <= |lo| && used <= |lc|
            && st'.inls == Row(a, x, AllBut(lo, used), [Node(used, mid)], y, AllBut(lc, used), b)
            && if used < |lo| && used < |lc| then TwoRuns(st'.ds, x, y) && st'.i == 1 < |st'.ds|
               else if used < |lc| then |st'.ds| == 1 && st'.i == 0 && IsStar(st'.ds[0].c)
               else st'.i == |st'.ds|
  {
    hide Row, Used, UseDelims, Wrapped, Place, Node;
    var used, pc := Used(|lo|, |lc|), |a| + 1 + |mid|;
    UsesThat(|lo|, |lc|);
    RowWrapped(a, x, lo, mid, y, lc, b);
    PlaceIs(st.inls, |a|, x);
    PlaceIs(st.inls, pc, y);
    assert FindOpener(st.ds, 1, st.ds[1].c) == Some(0);
    hide Laid, FindOpener;
    var st1 := st.(choices := st.choices + [Choice(st.ds[1].inl, Some(st.ds[0].inl))]);
    assert Step(st) == InsertEmph(st1, 0);
    assert st.ds[..0] == [] && st.ds[..1] == [st.ds[0]] && st.ds[1..] == [st.ds[1]] && st.ds[2..] == [];
  }

  lemma LeftAgain(s: seq<byte>, used: nat, k: nat)
    requires used <= k <= |s|
    ensures AllBut(AllBut(s, used), k - used) == AllBut(s, k)
  {
  }

  lemma LesserIs(o: nat, c: nat, used: nat)
    requires used <= o && used <= c
    ensures if used < o && used < c then Lesser(o - used, c - used) == Lesser(o, c) - used && used < Lesser(o, c)
            else Lesser(o, c) == used
    ensures Lesser(o, c) <= o && Lesser(o, c) <= c
  {
  }

  /** The two runs together make the tower, and what the longer one has left stays text beside it. */
  lemma {:induction false} RunsMeet(st: State, x: nat, y: nat, a: seq<Inline>, lo: seq<byte>, mid: seq<Inline>,
                                    lc: seq<byte>, b: seq<Inline>)
    requires Ready(st) && TwoRuns(st.ds, x, y) && st.i == 1 < |st.ds| && lo != [] && lc != []
    requires st.inls == Row(a, x, lo, mid, y, lc, b)
    ensures var k := Lesser(|lo|, |lc|);
            Result(st).inls == Row(a, x, AllBut(lo, k), Tower(|lo|, |lc|, mid), y, AllBut(lc, k), b)
    decreases |lc|
  {
    hide *;
    var used, k, st' := Used(|lo|, |lc|), Lesser(|lo|, |lc|), Step(st);
    RoundOfTwo(st, x, y, a, lo, mid, lc, b);
    TowerStarts(|lo|, |lc|, mid);
    ResultIs(st);
    LesserIs(|lo|, |lc|, used);
    if used < |lo| && used < |lc| {
      var lo', lc' := AllBut(lo, used), AllBut(lc, used);
      RunsMeet(st', x, y, a, lo', [Node(used, mid)], lc', b);
      LeftAgain(lo, used, k);
      LeftAgain(lc, used, k);
    } else if used < |lc| {
      CloserAlone(st');
    } else {
      ResultIs(st');
    }
  }

  /** A run of characters that opens and one of the same character that closes, with no delimiter between them, in front
      or behind: as many characters of both as the shorter one has become nodes around what is between them. */
  lemma TwoRunsEmphasize(st: State, x: nat, y: nat, a: seq<Inline>, lo: seq<byte>, mid: seq<Inline>, lc: seq<byte>,
                         b: seq<Inline>)
    requires TwoRuns(st.ds, x, y) && st.i == 0 && lo != [] && lc != []
    requires st.inls == Row(a, x, lo, mid, y, lc, b) && Distinct(st.inls)
    ensures var k := Lesser(|lo|, |lc|);
            && Ready(st)
            && Result(st).inls == Row(a, x, AllBut(lo, k), Tower(|lo|, |lc|, mid), y, AllBut(lc, k), b)
  {
    RowParts(a, x, lo, mid, y, lc, b);
    LaidAt(st.ds, st.inls, [|a|, |a| + 1 + |mid|]);
    var st' := Step(st);
    assert FindOpener(st.ds, 0, st.ds[0].c) == None;
    assert st'.ds == st.ds && st'.inls == st.inls && st'.i == 1;
    hide Step, Result, Laid, Row, Tower;
    ResultIs(st);
    RunsMeet(st', x, y, a, lo, mid, lc, b);
  }

  /** n characters on both sides leave none: a plain node innermost exactly when n is odd, and n / 2 strong ones. */
  lemma EqualRunsEmphasize(st: State, x: nat, y: nat, a: seq<Inline>, lo: seq<byte>, mid: seq<Inline>, lc: seq<byte>,
                           b: seq<Inline>)
    requires TwoRuns(st.ds, x, y) && st.i == 0 && lo != [] && |lc| == |lo|
    requires st.inls == a + [Text(x, lo)] + mid + [Text(y, lc)] + b && Distinct(st.inls)
    ensures Ready(st)
    ensures Result(st).inls == a + Strongs(|lo| / 2, EmphIf(|lo| % 2 == 1, mid)) + b
  {
    hide Result, Laid;
    TwoRunsEmphasize(st, x, y, a, lo, mid, lc, b);
    var n := |lo|;
    assert Tower(n, n, mid) == Strongs(n / 2, EmphIf(n % 2 == 1, mid)) by {
      if n == 1 {
        assert Strongs(0, mid) == mid && Strongs(0, [Emph(mid)]) == [Emph(mid)];
      }
    }
    assert lo[..0] == [] && lc[..0] == [];
    assert a + [] + Tower(n, n, mid) + [] + b == a + Tower(n, n, mid) + b;
  }

  // ---------------------------------------------------------------- runs that do not match

  /** No run that closes has one of its own character before it that opens. */
  predicate NoneMatch(ds: seq<Delim>) {
    && (forall k :: 0 <= k < |ds| ==> ds[k].c == 0x2A || ds[k].c == 0x5F)
    && (forall j, k :: 0 <= j < k < |ds| ==> !(ds[j].c == ds[k].c && ds[j].canOpen && ds[k].canClose))
  }

  /** Then nothing is emphasized. */
  lemma {:induction false} NoneMatchNothing(st: State)
    requires Ready(st) && NoneMatch(st.ds)
    ensures Result(st).inls == st.inls
    decreases |st.ds| - st.i
  {
    if st.i < |st.ds| {
      var d := st.ds[st.i];
      assert Closes(d) ==> FindOpener(st.ds, st.i, d.c) == None;
      assert Step(st).inls == st.inls && NoneMatch(Step(st).ds) && Step(st).i <= |Step(st).ds|;
      assert |Step(st).ds| - Step(st).i < |st.ds| - st.i;
      hide Step, Ready, Result, NoneMatch;
      ResultIs(st);
      NoneMatchNothing(Step(st));
    }
  }

  // ---------------------------------------------------------------- quotes

  /** U+2018 and U+2019, or U+201C and U+201D, in UTF-8. */
  function Curled(c: byte, opens: bool): seq<byte> {
    [0xE2, 0x80, if c == 0x22 then (if opens then 0x9C else 0x9D) else if opens then 0x98 else 0x99]
  }

  lemma SetTextAt(inls: seq<Inline>, p: nat, id: nat, literal: seq<byte>)
    requires Distinct(inls) && IsAt(inls, p, id)
    ensures SetText(inls, id, literal) == inls[p := Text(id, literal)] && Distinct(SetText(inls, id, literal))
  {
    PlaceIs(inls, p, id);
    hide Place;
  }

  /** Two quotes of one kind, the first of which opens. */
  predicate TwoQuotes(ds: seq<Delim>, x: nat, y: nat) {
    && |ds| == 2 && ds[0].inl == x && ds[1].inl == y && ds[0].c == ds[1].c && (ds[0].c == 0x27 || ds[0].c == 0x22)
    && ds[0].canOpen && ds[1].canClose
  }

  lemma FirstQuote(st: State, x: nat, y: nat, p: nat, q: nat)
    requires Ready(st) && TwoQuotes(st.ds, x, y) && st.i == 0 && IsAt(st.inls, p, x) && IsAt(st.inls, q, y) && p != q
    ensures var st' := Step(st);
            && Ready(st') && st'.ds == st.ds && st'.i == 1 && |st'.inls| == |st.inls|
            && IsAt(st'.inls, p, x) && IsAt(st'.inls, q, y)
            && forall k :: 0 <= k < |st.inls| && k != p ==> st'.inls[k] == st.inls[k]
  {
    StepReady(st);
    assert FindOpener(st.ds, 0, st.ds[0].c) == None;
    SetTextAt(st.inls, p, x, RightQuote(st.ds[0].c));
    hide Laid, SetText, Place, Distinct;
  }

  lemma SecondQuote(st: State, x: nat, y: nat, p: nat, q: nat)
    requires Ready(st) && TwoQuotes(st.ds, x, y) && st.i == 1 && IsAt(st.inls, p, x) && IsAt(st.inls, q, y) && p != q
    ensures var st', c := Step(st), st.ds[0].c;
            && Ready(st') && st'.i == |st'.ds|
            && st'.inls == st.inls[q := Text(y, RightQuote(c))][p := Text(x, LeftQuote(c))]
  {
    var c := st.ds[0].c;
    StepReady(st);
    assert FindOpener(st.ds, 1, c) == Some(0);
    SetTextAt(st.inls, q, y, RightQuote(c));
    SetTextAt(st.inls[q := Text(y, RightQuote(c))], p, x, LeftQuote(c));
    hide Laid, SetText, Place, Distinct;
  }

  lemma CurledIs(c: byte)
    requires IsQuote(c)
    ensures RightQuote(c) == Curled(c, false) && LeftQuote(c) == Curled(c, true)
  {
  }

  /** A quote that closes becomes a right one; when there is an opening one of its kind before it, and nothing between
      them, that one becomes a left one. */
  lemma QuotesCurl(st: State, x: nat, y: nat, p: nat, q: nat)
    requires Ready(st) && TwoQuotes(st.ds, x, y) && st.i == 0 < |st.ds|
    requires IsAt(st.inls, p, x) && IsAt(st.inls, q, y) && p != q
    ensures var c := st.ds[0].c;
            Result(st).inls == st.inls[p := Text(x, Curled(c, true))][q := Text(y, Curled(c, false))]
  {
    var c, st1 := st.ds[0].c, Step(st);
    CurledIs(c);
    FirstQuote(st, x, y, p, q);
    hide Step, Result, Ready, RightQuote, LeftQuote, Curled, TwoQuotes;
    SecondQuote(st1, x, y, p, q);
    SetBoth(st.inls, st1.inls, p, q, Text(x, Curled(c, true)), Text(y, Curled(c, false)));
    ResultIs(st);
    ResultIs(st1);
    ResultIs(Step(st1));
  }

  lemma SetBoth(s: seq<Inline>, t: seq<Inline>, p: nat, q: nat, u: Inline, v: Inline)
    requires p < |s| == |t| && q < |s| && p != q && forall k :: 0 <= k < |s| && k != p ==> t[k] == s[k]
    ensures t[q := v][p := u] == s[p := u][q := v]
  {
  }

  /** A closing quote by itself, as in an apostrophe, becomes a right one. */
  lemma ApostropheCurls(st: State, x: nat, p: nat)
    requires Ready(st) && |st.ds| == 1 && st.ds[0].inl == x && st.i == 0 && IsAt(st.inls, p, x)
    requires st.ds[0].c == 0x27 || st.ds[0].c == 0x22
    ensures Result(st).inls ==
            if st.ds[0].canClose then st.inls[p := Text(x, Curled(st.ds[0].c, false))] else st.inls
  {
    var c, st1 := st.ds[0].c, Step(st);
    assert FindOpener(st.ds, 0, c) == None;
    SetTextAt(st.inls, p, x, RightQuote(c));
    assert st1.i == |st1.ds|;
    assert st1.inls == if st.ds[0].canClose then st.inls[p := Text(x, Curled(c, false))] else st.inls;
    hide Step, Result, Laid, SetText;
    ResultIs(st);
    ResultIs(st1);
  }
}
