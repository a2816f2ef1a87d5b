/** The pointers behind Emphasis.Wrapped: what S_insert_emph of deps/cmark/src/inlines.c does to the nodes that the
    delimiters point to. */
module EmphasisNodes {
  import opened NodeForest
  import opened Freeing
  import opened NodeIterator
  import Consolidate
  import Emphasis

  // ---------------------------------------------------------------- the forest, move by move

  /** The children of p between i and m have moved into emph. */
  ghost predicate MovedInto(kids: Kids, k: Kids, p: Node, emph: Node, i: nat, m: nat) {
    && p in kids && emph in kids && p != emph && i < m <= |kids[p]| && k.Keys == kids.Keys
    && k[p] == kids[p][..i + 1] + kids[p][m..] && k[emph] == kids[p][i + 1..m]
    && forall n :: n in kids && n != p && n != emph ==> k[n] == kids[n]
  }

  /** The children of p between i and j hang on emph, which stands in their place. */
  ghost predicate SplicedIn(kids: Kids, k: Kids, p: Node, emph: Node, i: nat, j: nat) {
    && p in kids && emph in kids && p != emph && i < j <= |kids[p]| && k.Keys == kids.Keys
    && k[p] == kids[p][..i + 1] + [emph] + kids[p][j..] && k[emph] == kids[p][i + 1..j]
    && forall n :: n in kids && n != p && n != emph ==> k[n] == kids[n]
  }

  predicate IsEmph(n: Node) { n.kind.Emph? || n.kind.Strong? }

  /** Inlines of one allocator. */
  predicate Movable(s: seq<Node>, mem: nat) { forall i :: 0 <= i < |s| ==> s[i].mem == mem && IsInline(s[i].kind) }

  lemma RootStays(kids: Kids, k: Kids, p: Node, emph: Node, i: nat, m: nat)
    requires MovedInto(kids, k, p, emph, i, m) && IsRoot(kids, emph)
    ensures IsRoot(k, emph)
  {
    assert emph !in kids[p];
    forall n | n in k ensures emph !in k[n] {
      assert n != p && n != emph ==> emph !in kids[n];
    }
  }

  lemma MayMove(k: Kids, x: Node, p: Node, emph: Node)
    requires Lists(k) && p in k && x in k[p] && emph in k && IsRoot(k, emph)
    requires IsEmph(emph) && x.mem == emph.mem && IsInline(x.kind)
    ensures x != emph && CanHang(k, x, emph)
  {
    if IsAbove(k, x, emph) {
      RootIsAlone(k, x, emph);
    }
    hide IsAbove, Lists;
  }

  lemma Appended(k: Kids, x: Node, p: Node, emph: Node, i: nat)
    requires Lists(k) && At(k, x, p, i) && x in k && emph in k && p != emph && IsRoot(k, emph) && CanHang(k, x, emph)
    ensures Target(k, AppendChild(emph, x)).Some?
    ensures Apply(k, AppendChild(emph, x)) == k[p := k[p][..i] + k[p][i + 1..]][emph := k[emph] + [x]]
  {
    DetachedIs(k, x, p, i);
    PlacedLast(k[p := k[p][..i] + k[p][i + 1..]], x, emph);
    hide CanHang, Lists, Detached, Placed;
  }

  lemma PlacedLast(k: Kids, x: Node, m: Node)
    requires m in k
    ensures Placed(k, x, m, |k[m]|) == k[m := k[m] + [x]]
  {
    var s := k[m];
    assert s[..|s|] + [x] + s[|s|..] == s + [x];
  }

  /** One more child moves. */
  lemma AppendStep(kids: Kids, k: Kids, p: Node, emph: Node, i: nat, m: nat)
    requires Lists(k) && MovedInto(kids, k, p, emph, i, m) && m < |kids[p]| && IsRoot(kids, emph) && IsEmph(emph)
    requires Movable(kids[p], emph.mem)
    ensures var x := kids[p][m];
            x in k && x != emph && Target(k, AppendChild(emph, x)).Some?
            && MovedInto(kids, Apply(k, AppendChild(emph, x)), p, emph, i, m + 1)
            && emph in k && Apply(k, AppendChild(emph, x)).Keys == kids.Keys
  {
    var x := kids[p][m];
    assert k[p][i + 1] == x && x in k[p] && At(k, x, p, i + 1) && x in k;
    hide CanHang, Lists, IsRoot, Apply, Target, At;
    RootStays(kids, k, p, emph, i, m);
    MayMove(k, x, p, emph);
    MovedOne(kids, k, p, emph, i, m);
    hide MovedInto;
    Appended(k, x, p, emph, i + 1);
  }

  lemma CutOne<T>(s: seq<T>, u: seq<T>, i: nat, m: nat)
    requires i < m < |s| && u == s[..i + 1] + s[m..]
    ensures u[..i + 1] + u[i + 2..] == s[..i + 1] + s[m + 1..] && s[i + 1..m] + [s[m]] == s[i + 1..m + 1]
  {
    var a, b := u[..i + 1] + u[i + 2..], s[..i + 1] + s[m + 1..];
    forall q | 0 <= q < |a| ensures |a| == |b| && a[q] == b[q] {
    }
  }

  lemma MovedOne(kids: Kids, k: Kids, p: Node, emph: Node, i: nat, m: nat)
    requires MovedInto(kids, k, p, emph, i, m) && m < |kids[p]|
    ensures var k' := k[p := k[p][..i + 1] + k[p][i + 2..]][emph := k[emph] + [kids[p][m]]];
            MovedInto(kids, k', p, emph, i, m + 1)
  {
    CutOne(kids[p], k[p], i, m);
  }

  lemma SplicedOne(kids: Kids, k: Kids, p: Node, emph: Node, i: nat, j: nat)
    requires MovedInto(kids, k, p, emph, i, j)
    ensures SplicedIn(kids, k[p := k[p][..i + 1] + [emph] + k[p][i + 1..]], p, emph, i, j)
  {
    assert k[p][..i + 1] == kids[p][..i + 1] && k[p][i + 1..] == kids[p][j..];
  }

  /** emph may hang on p: it is above none of its ancestors, since it has got nothing but children of p. */
  lemma NotAboveParent(kids: Kids, k: Kids, p: Node, emph: Node, i: nat, m: nat)
    requires Sound(kids) && MovedInto(kids, k, p, emph, i, m) && kids[emph] == []
    ensures !IsAbove(k, emph, p)
  {
    var rank := RankOf(kids, kids.Keys);
    hide Acyclic;
    var up := set n | n in kids && rank[n] >= rank[p] && n != emph;
    forall q | 0 <= q < |k[emph]| ensures k[emph][q] !in up {
      assert k[emph][q] == kids[p][i + 1 + q];
    }
    forall n, q | n in k && 0 <= q < |k[n]| && k[n][q] in up ensures n in up {
      if n != p && n != emph {
        assert k[n][q] == kids[n][q];
      }
    }
    assert UpClosed(k, up) && p in up;
  }

  lemma InsertStep(kids: Kids, k: Kids, p: Node, emph: Node, i: nat, j: nat)
    requires Sound(kids) && Lists(k) && MovedInto(kids, k, p, emph, i, j) && IsRoot(kids, emph) && kids[emph] == []
    requires p.mem == emph.mem && IsEmph(emph) && Holds(p.kind, emph.kind)
    ensures var opener := kids[p][i];
            opener in k && opener != emph && Target(k, InsertAfter(opener, emph)).Some?
            && SplicedIn(kids, Apply(k, InsertAfter(opener, emph)), p, emph, i, j)
            && Apply(k, InsertAfter(opener, emph)).Keys == kids.Keys
  {
    var opener := kids[p][i];
    assert k[p][i] == opener && At(k, opener, p, i) && opener in k[p];
    KnowsLists(k, p, i);
    hide Lists, IsRoot, Acyclic, IsAbove, Apply, Target, At;
    NotAboveParent(kids, k, p, emph, i, j);
    RootStays(kids, k, p, emph, i, j);
    RootApart(k, emph, p);
    Inserts(k, opener, emph, p, i);
    SplicedOne(kids, k, p, emph, i, j);
  }

  lemma KnowsLists(k: Kids, p: Node, i: nat)
    requires Lists(k) && p in k && i < |k[p]|
    ensures k[p][i] in k
  {
  }

  lemma Inserts(k: Kids, opener: Node, emph: Node, p: Node, i: nat)
    requires Lists(k) && At(k, opener, p, i) && opener in k && emph in k && opener != emph && IsRoot(k, emph)
    requires CanHang(k, emph, p)
    ensures Target(k, InsertAfter(opener, emph)).Some?
    ensures Apply(k, InsertAfter(opener, emph)) == k[p := k[p][..i + 1] + [emph] + k[p][i + 1..]]
  {
    hide Lists, IsRoot, CanHang, Apply, Target, ParentOf, IndexOf, Detached, At, Placed;
    DetachedRoot(k, emph);
    ParentIs(k, opener, p, i);
    ApplyInsertAfter(k, opener, emph);
    PlacedBehind(k, opener, emph, p, i);
  }

  lemma PlacedBehind(k: Kids, opener: Node, emph: Node, p: Node, i: nat)
    requires At(k, opener, p, i)
    ensures p in k && i < |k[p]| && Placed(k, emph, p, i + 1) == k[p := k[p][..i + 1] + [emph] + k[p][i + 1..]]
  {
  }

  // ---------------------------------------------------------------- the nodes

  /** One round of the loop. */
  method MoveOne(tmp: Node, emph: Node, ghost kids: Kids, ghost k: Kids, ghost p: Node, ghost i: nat, ghost m: nat)
    returns (tmpnext: Node?, ghost k': Kids)
    requires Shows(k) && MovedInto(kids, k, p, emph, i, m) && m < |kids[p]| && tmp == kids[p][m]
    requires IsRoot(kids, emph) && IsEmph(emph) && Movable(kids[p], emph.mem)
    modifies k.Keys`next, k.Keys`prev, k.Keys`parent, k.Keys`firstChild, k.Keys`lastChild
    ensures Shows(k') && MovedInto(kids, k', p, emph, i, m + 1) && k'.Keys == kids.Keys
    ensures tmpnext == if m + 1 < |kids[p]| then kids[p][m + 1] else null
  {
    hide Shows, Sound, Lists, IsRoot, Apply, Target, Movable;
    KnowsSound(k);
    AppendStep(kids, k, p, emph, i, m);
    AfterIs(kids, k, tmp, p, emph, i, m);
    hide MovedInto;
    tmpnext := tmp.next;
    var ok := NodeAppendChild(emph, tmp, k);
    k' := Apply(k, AppendChild(emph, tmp));
  }

  /** The loop of S_insert_emph that moves what is between opener and closer into emph. */
  method MoveLoop(first: Node?, closer: Node, emph: Node, ghost kids: Kids, ghost p: Node, ghost i: nat, ghost j: nat)
    returns (ghost k: Kids)
    requires Shows(kids) && MovedInto(kids, kids, p, emph, i, i + 1) && p in kids && i < j < |kids[p]|
    requires first == kids[p][i + 1] && closer == kids[p][j] && forall q :: 0 <= q < j ==> kids[p][q] != closer
    requires IsRoot(kids, emph) && IsEmph(emph) && Movable(kids[p], emph.mem)
    modifies kids.Keys`next, kids.Keys`prev, kids.Keys`parent, kids.Keys`firstChild, kids.Keys`lastChild
    ensures Shows(k) && MovedInto(kids, k, p, emph, i, j) && k.Keys == kids.Keys
  {
    hide Shows, IsRoot, MovedInto, Movable;
    k := kids;
    ghost var m := i + 1;
    var tmp := first;
    while tmp != null && tmp != closer
      invariant i < m <= j && k.Keys == kids.Keys && tmp == kids[p][m]
      invariant Shows(k) && MovedInto(kids, k, p, emph, i, m)
      decreases j - m
    {
      tmp, k := MoveOne(tmp, emph, kids, k, p, i, m);
      m := m + 1;
    }
    OnlyThere(kids[p], closer, m, j);
  }

  /** The loop, and the splicing of emph. */
  method MoveBetween(opener: Node, closer: Node, emph: Node, ghost kids: Kids, ghost p: Node, ghost i: nat,
                     ghost j: nat)
    returns (ghost k: Kids)
    requires Shows(kids) && At(kids, opener, p, i) && At(kids, closer, p, j) && i < j
    requires emph in kids && IsRoot(kids, emph) && kids[emph] == [] && p != emph
    requires IsEmph(emph) && p.mem == emph.mem && Holds(p.kind, emph.kind) && Movable(kids[p], emph.mem)
    modifies kids.Keys`next, kids.Keys`prev, kids.Keys`parent, kids.Keys`firstChild, kids.Keys`lastChild
    ensures Shows(k) && SplicedIn(kids, k, p, emph, i, j) && k.Keys == kids.Keys
  {
    KnowsSound(kids);
    hide Shows, Sound, IsRoot, Holds, MovedInto, SplicedIn, Movable;
    StartsMoving(kids, p, emph, i);
    NextIs(kids, kids, opener, p, emph, i, i + 1);
    OnceThere(kids, p, j);
    hide Lists;
    k := MoveLoop(opener.next, closer, emph, kids, p, i, j);
    k := SpliceOne(opener, emph, kids, k, p, i, j);
  }

  lemma OnceThere(kids: Kids, p: Node, j: nat)
    requires Lists(kids) && p in kids && j < |kids[p]|
    ensures forall q :: 0 <= q < j ==> kids[p][q] != kids[p][j]
  {
  }

  /** emph takes its place behind the opener. */
  method SpliceOne(opener: Node, emph: Node, ghost kids: Kids, ghost k: Kids, ghost p: Node, ghost i: nat, ghost j: nat)
    returns (ghost k': Kids)
    requires Sound(kids) && Shows(k) && MovedInto(kids, k, p, emph, i, j) && opener == kids[p][i]
    requires IsRoot(kids, emph) && kids[emph] == [] && p.mem == emph.mem && IsEmph(emph) && Holds(p.kind, emph.kind)
    modifies k.Keys`next, k.Keys`prev, k.Keys`parent, k.Keys`firstChild, k.Keys`lastChild
    ensures Shows(k') && SplicedIn(kids, k', p, emph, i, j) && k'.Keys == kids.Keys
  {
    hide Shows, Sound, Lists, IsRoot, Apply, Target, Holds, SplicedIn;
    KnowsSound(k);
    InsertStep(kids, k, p, emph, i, j);
    var ok := NodeInsertAfter(opener, emph, k);
    k' := Apply(k, InsertAfter(opener, emph));
  }

  lemma KnowsSound(kids: Kids)
    requires Shows(kids)
    ensures Sound(kids) && Lists(kids)
  {
  }

  lemma StartsMoving(kids: Kids, p: Node, emph: Node, i: nat)
    requires p in kids && emph in kids && p != emph && i < |kids[p]| && kids[emph] == []
    ensures MovedInto(kids, kids, p, emph, i, i + 1)
  {
  }

  lemma NextIs(kids: Kids, k: Kids, opener: Node, p: Node, emph: Node, i: nat, m: nat)
    requires Shows(k) && MovedInto(kids, k, p, emph, i, m) && opener == kids[p][i]
    ensures opener.next == if m < |kids[p]| then kids[p][m] else null
  {
    assert At(k, opener, p, i);
    hide Shows;
    Consolidate.NextPictured(k, opener, p, i);
  }

  lemma AfterIs(kids: Kids, k: Kids, x: Node, p: Node, emph: Node, i: nat, m: nat)
    requires Shows(k) && MovedInto(kids, k, p, emph, i, m) && m < |kids[p]| && x == kids[p][m]
    ensures x.next == if m + 1 < |kids[p]| then kids[p][m + 1] else null
  {
    assert At(k, x, p, i + 1);
    hide Shows;
    Consolidate.NextPictured(k, x, p, i + 1);
  }

  lemma OnlyThere(s: seq<Node>, x: Node, m: nat, j: nat)
    requires m <= j < |s| && s[m] == x && forall q :: 0 <= q < j ==> s[q] != x
    ensures m == j
  {
  }

  // ---------------------------------------------------------------- a new node

  lemma NewSound(kids: Kids, n: Node)
    requires Sound(kids) && n !in kids
    ensures Sound(kids[n := []]) && IsRoot(kids[n := []], n)
  {
    var rank := RankOf(kids, kids.Keys);
    hide Acyclic;
    RankedIsAcyclic(kids[n := []], rank[n := 0]);
  }

  lemma ListKept(f: Links, g: Links, m: Node, s: seq<Node>)
    requires ListShown(f, m, s) && forall n :: n in f ==> n in g && g[n] == f[n]
    ensures ListShown(g, m, s)
  {
    forall i | 0 <= i < |s| ensures ChildShown(g, m, s, i) {
      assert ChildShown(f, m, s, i);
    }
  }

  lemma NewShown(f: Links, g: Links, kids: Kids, n: Node)
    requires Lists(kids) && ShownBut(f, kids, null) && n !in kids && g.Keys == f.Keys + {n}
    requires (forall m :: m in f ==> g[m] == f[m]) && g[n] == Cell(null, null, null, null, null)
    ensures ShownBut(g, kids[n := []], null)
  {
    var k := kids[n := []];
    forall m | m in k ensures ListShown(g, m, k[m]) {
      if m != n {
        ListKept(f, g, m, kids[m]);
      }
    }
    hide ListShown;
    forall x | x in k && IsRoot(k, x) ensures Loose(g[x]) {
      if x != n {
        forall m | m in kids ensures x !in kids[m] {
          assert x !in k[m];
        }
        assert IsRoot(kids, x);
      }
    }
  }

  /** A node that was made just now is a tree of its own. */
  lemma NewShows(kids: Kids, n: Node)
    requires Shows(kids) && n !in kids && n.next == n.prev == n.parent == n.firstChild == n.lastChild == null
    ensures Shows(kids[n := []]) && IsRoot(kids[n := []], n)
  {
    KnowsSound(kids);
    NewSound(kids, n);
    ReadCells(kids.Keys + {n});
    ReadCells(kids.Keys);
    assert kids[n := []].Keys == kids.Keys + {n};
    hide Sound, Lists, IsRoot, Pointers;
    NewShown(Pointers(kids.Keys), Pointers(kids.Keys + {n}), kids, n);
  }

  // ---------------------------------------------------------------- freeing a text

  lemma RemovedAt(k: Kids, x: Node, p: Node, q: nat)
    requires Lists(k) && At(k, x, p, q) && x in k && k[x] == [] && x != p
    ensures Removed(k, x).Keys == k.Keys - {x} && Removed(k, x)[p] == k[p][..q] + k[p][q + 1..]
    ensures forall m :: m in k && m != p && m != x ==> Removed(k, x)[m] == k[m]
  {
    DetachedIs(k, x, p, q);
    RemovedLists(k, x, p, q);
    assert Removed(k, x)[p] == Detached(k, x)[p];
  }

  method FreeText(x: Node, ghost k: Kids, ghost p: Node, ghost q: nat) returns (ghost k': Kids)
    requires Shows(k) && At(k, x, p, q) && x in k && k[x] == [] && x != p
    modifies k.Keys`next, k.Keys`prev, k.Keys`parent, k.Keys`firstChild, k.Keys`lastChild
    ensures Shows(k') && k'.Keys == k.Keys - {x} && k'[p] == k[p][..q] + k[p][q + 1..]
    ensures forall m :: m in k && m != p && m != x ==> k'[m] == k[m]
  {
    hide Shows, Sound, Lists, At, Below, Pruned, Removed;
    KnowsSound(k);
    RemovedAt(k, x, p, q);
    Consolidate.JustItself(k, x);
    k' := Removed(k, x);
    ghost var freed := NodeFree(x, k);
  }

  // ---------------------------------------------------------------- S_insert_emph

  /** What the wrapping leaves of the forest. */
  ghost predicate WrappedIn(kids: Kids, k: Kids, p: Node, emph: Node, i: nat, j: nat, keepOpener: bool,
                            keepCloser: bool)
  {
    && p in kids && i < j < |kids[p]| && p in k && emph in k && p != emph
    && k[p] == kids[p][..if keepOpener then i + 1 else i] + [emph] + kids[p][if keepCloser then j else j + 1..]
    && k[emph] == kids[p][i + 1..j]
    && (forall n :: n in k ==> n in kids || n == emph)
    && (forall n :: n in kids && (n != kids[p][i] || keepOpener) && (n != kids[p][j] || keepCloser) ==> n in k)
    && (forall n :: n in k && n != p && n != emph ==> k[n] == kids[n])
  }

  lemma WrapParts<T>(s: seq<T>, u: seq<T>, x: T, i: nat, j: nat)
    requires i < j < |s| && u == s[..i + 1] + [x] + s[j..]
    ensures u[i] == s[i] && u[i + 2] == s[j] && |u| > i + 2
    ensures u[..i] + u[i + 1..] == s[..i] + [x] + s[j..]
    ensures u[..i + 2] + u[i + 3..] == s[..i + 1] + [x] + s[j + 1..]
  {
  }

  lemma WrapRest<T>(s: seq<T>, u: seq<T>, x: T, i: nat, j: nat)
    requires i < j < |s| && u == s[..i] + [x] + s[j..]
    ensures u[i + 1] == s[j] && |u| > i + 1 && u[..i + 1] + u[i + 2..] == s[..i] + [x] + s[j + 1..]
  {
  }

  lemma KeepsBoth(kids: Kids, kids1: Kids, k: Kids, p: Node, emph: Node, i: nat, j: nat)
    requires emph !in kids && kids1 == kids[emph := []] && SplicedIn(kids1, k, p, emph, i, j) && p in kids
    requires j < |kids[p]|
    ensures WrappedIn(kids, k, p, emph, i, j, true, true) && k[p][i] == kids[p][i]
  {
  }

  lemma DropsOpener(kids: Kids, k: Kids, k': Kids, p: Node, emph: Node, i: nat, j: nat)
    requires WrappedIn(kids, k, p, emph, i, j, true, true) && p in k' && emph in k' && kids[p][i] != emph
    requires kids[p][i] != p
    requires k'.Keys == k.Keys - {kids[p][i]} && k'[p] == k[p][..i] + k[p][i + 1..]
    requires forall m :: m in k && m != p && m != kids[p][i] ==> k'[m] == k[m]
    ensures WrappedIn(kids, k', p, emph, i, j, false, true)
  {
    WrapParts(kids[p], k[p], emph, i, j);
  }

  lemma DropsCloser(kids: Kids, k: Kids, k': Kids, p: Node, emph: Node, i: nat, j: nat, keep: bool)
    requires WrappedIn(kids, k, p, emph, i, j, keep, true) && p in k' && emph in k' && kids[p][j] != emph
    requires kids[p][j] != p
    requires var q := if keep then i + 2 else i + 1;
             q < |k[p]| && k'.Keys == k.Keys - {kids[p][j]} && k'[p] == k[p][..q] + k[p][q + 1..]
    requires forall m :: m in k && m != p && m != kids[p][j] ==> k'[m] == k[m]
    ensures WrappedIn(kids, k', p, emph, i, j, keep, false)
  {
    if keep {
      WrapParts(kids[p], k[p], emph, i, j);
    } else {
      WrapRest(kids[p], k[p], emph, i, j);
    }
  }

  /** Texts to wrap between: both have characters left, and a new node may stand between them. */
  ghost predicate MayWrap(kids: Kids, opener: Node, closer: Node, mem: nat, p: Node, i: nat, j: nat) {
    && At(kids, opener, p, i) && At(kids, closer, p, j) && i < j && opener.kind.Text? && closer.kind.Text?
    && opener in kids && closer in kids && kids[opener] == [] && kids[closer] == []
    && p.mem == mem && Holds(p.kind, Emph) && Movable(kids[p], mem)
  }

  lemma StillMay(kids: Kids, opener: Node, closer: Node, mem: nat, p: Node, i: nat, j: nat, emph: Node)
    requires Lists(kids) && MayWrap(kids, opener, closer, mem, p, i, j) && emph !in kids && IsEmph(emph)
    requires emph.mem == mem
    ensures var k := kids[emph := []];
            && At(k, opener, p, i) && At(k, closer, p, j) && k[emph] == [] && p != emph && k[p] == kids[p]
            && Holds(p.kind, emph.kind) && Movable(k[p], emph.mem)
    ensures opener != p && closer != p && opener != closer && opener != emph && closer != emph
    ensures p in kids && i < j < |kids[p]| && kids[p][i] == opener && kids[p][j] == closer
    ensures opener in kids && closer in kids && kids[opener] == [] && kids[closer] == [] && p.mem == mem
  {
  }

  /** S_insert_emph, but for the delimiters: the texts of opener and closer lose the characters used, what is between
      them moves into a new node, and a text that is empty is freed. */
  method WrapNodes(opener: Node, closer: Node, mem: nat, ghost kids: Kids, ghost p: Node, ghost i: nat, ghost j: nat)
    returns (emph: Node, openerLeft: nat, closerLeft: nat, ghost k: Kids)
    requires Shows(kids) && MayWrap(kids, opener, closer, mem, p, i, j)
    requires opener.literal != [] && closer.literal != []
    modifies kids.Keys`next, kids.Keys`prev, kids.Keys`parent, kids.Keys`firstChild, kids.Keys`lastChild
    modifies opener`literal, closer`literal
    ensures fresh(emph) && Shows(k)
    ensures WrappedIn(kids, k, p, emph, i, j, openerLeft > 0, closerLeft > 0)
    ensures var use := Emphasis.UseDelims(old(|opener.literal|), old(|closer.literal|));
            && emph.kind == (if use == 1 then Emph else Strong)
            && use + openerLeft == old(|opener.literal|) && use + closerLeft == old(|closer.literal|)
    ensures opener.literal == old(opener.literal)[..openerLeft] && closer.literal == old(closer.literal)[..closerLeft]
  {
    hide Shows, Sound, Lists, IsRoot, MayWrap, WrappedIn, SplicedIn, Movable, Holds;
    KnowsSound(kids);
    var openerNumChars, closerNumChars := |opener.literal|, |closer.literal|;
    var useDelims;
    if closerNumChars < 3 || openerNumChars < 3 {
      useDelims := if closerNumChars <= openerNumChars then closerNumChars else openerNumChars;
    } else {
      useDelims := if closerNumChars % 2 == 0 then 2 else 1;
    }
    openerLeft, closerLeft := openerNumChars - useDelims, closerNumChars - useDelims;
    emph := new Node(if useDelims == 1 then Emph else Strong, mem, []);
    NewShows(kids, emph);
    StillMay(kids, opener, closer, mem, p, i, j, emph);
    opener.literal, closer.literal := opener.literal[..openerLeft], closer.literal[..closerLeft];
    k := MoveBetween(opener, closer, emph, kids[emph := []], p, i, j);
    k := DropEmpty(opener, closer, openerLeft, closerLeft, kids, k, p, emph, i, j);
  }

  lemma WrappedTexts(kids: Kids, k: Kids, p: Node, emph: Node, i: nat, j: nat, keep: bool)
    requires WrappedIn(kids, k, p, emph, i, j, keep, true) && kids[p][j] != emph && kids[p][j] != p
    requires kids[p][i] != kids[p][j] && kids[p][i] in kids && kids[p][j] in kids
    requires kids[kids[p][i]] == [] && kids[kids[p][j]] == [] && kids[p][i] != emph && kids[p][i] != p
    ensures keep ==> At(k, kids[p][i], p, i) && kids[p][i] in k && k[kids[p][i]] == []
    ensures At(k, kids[p][j], p, if keep then i + 2 else i + 1) && kids[p][j] in k && k[kids[p][j]] == []
  {
    if keep {
      WrapParts(kids[p], k[p], emph, i, j);
    } else {
      WrapRest(kids[p], k[p], emph, i, j);
    }
  }

  lemma WrappedKeys(kids: Kids, k: Kids, p: Node, emph: Node, i: nat, j: nat, o: bool, c: bool)
    requires WrappedIn(kids, k, p, emph, i, j, o, c)
    ensures p in k && emph in k && k.Keys <= kids.Keys + {emph}
  {
  }

  /** The last part: texts without characters are freed. */
  method DropEmpty(opener: Node, closer: Node, openerLeft: nat, closerLeft: nat, ghost kids: Kids, ghost k: Kids,
                   ghost p: Node, ghost emph: Node, ghost i: nat, ghost j: nat) returns (ghost k': Kids)
    requires Shows(k) && emph !in kids && SplicedIn(kids[emph := []], k, p, emph, i, j) && p in kids && j < |kids[p]|
    requires opener == kids[p][i] && closer == kids[p][j] && opener in kids && closer in kids && kids[opener] == []
    requires kids[closer] == [] && opener != closer && p != opener && p != closer && emph != opener && emph != closer
    requires i < j && k.Keys == kids.Keys + {emph}
    modifies k.Keys`next, k.Keys`prev, k.Keys`parent, k.Keys`firstChild, k.Keys`lastChild
    ensures Shows(k') && WrappedIn(kids, k', p, emph, i, j, openerLeft > 0, closerLeft > 0)
  {
    hide Shows, At, SplicedIn, WrappedIn;
    k' := k;
    KeepsBoth(kids, kids[emph := []], k', p, emph, i, j);
    WrappedTexts(kids, k', p, emph, i, j, true);
    if openerLeft == 0 {
      ghost var before := k';
      WrappedKeys(kids, k', p, emph, i, j, true, true);
      k' := FreeText(opener, k', p, i);
      DropsOpener(kids, before, k', p, emph, i, j);
    }
    WrappedTexts(kids, k', p, emph, i, j, openerLeft > 0);
    if closerLeft == 0 {
      ghost var before := k';
      WrappedKeys(kids, k', p, emph, i, j, openerLeft > 0, true);
      k' := FreeText(closer, k', p, if openerLeft > 0 then i + 2 else i + 1);
      DropsCloser(kids, before, k', p, emph, i, j, openerLeft > 0);
    }
  }

  // ---------------------------------------------------------------- what the nodes picture

  type Texts = Consolidate.Texts

  /** The node is the inline; the texts that delimiters point to are known by their ids. */
  ghost predicate IsPicture(kids: Kids, texts: Texts, ids: map<Node, nat>, n: Node, x: Emphasis.Inline)
    decreases x, 0
  {
    match x
    case Text(id, literal) => n.kind.Text? && n in ids && ids[n] == id && n in texts && texts[n] == literal
    case Emph(xs) => n.kind.Emph? && n in kids && Pictures(kids, texts, ids, kids[n], xs)
    case Strong(xs) => n.kind.Strong? && n in kids && Pictures(kids, texts, ids, kids[n], xs)
    case Other(_) => n !in ids
  }

  ghost predicate Pictures(kids: Kids, texts: Texts, ids: map<Node, nat>, s: seq<Node>, inls: seq<Emphasis.Inline>)
    decreases inls, 1
  {
    |s| == |inls| && forall q :: 0 <= q < |s| ==> IsPicture(kids, texts, ids, s[q], inls[q])
  }

  /** A part of the forest, with all that hangs on it, that nothing happens to. */
  ghost predicate Calm(kids: Kids, k: Kids, t: Texts, u: Texts, calm: set<Node>) {
    && (forall m :: m in calm ==> m in kids && m in k && k[m] == kids[m])
    && (forall m, q :: m in calm && 0 <= q < |kids[m]| ==> kids[m][q] in calm)
    && (forall m :: m in calm && m in t ==> m in u && u[m] == t[m])
  }

  lemma {:induction false} PictureStays(kids: Kids, k: Kids, t: Texts, u: Texts, ids: map<Node, nat>, calm: set<Node>,
                                        n: Node, x: Emphasis.Inline)
    requires Calm(kids, k, t, u, calm) && n in calm && IsPicture(kids, t, ids, n, x)
    ensures IsPicture(k, u, ids, n, x)
    decreases x, 0
  {
    match x
    case Emph(xs) => PicturesStay(kids, k, t, u, ids, calm, kids[n], xs);
    case Strong(xs) => PicturesStay(kids, k, t, u, ids, calm, kids[n], xs);
    case _ =>
  }

  lemma {:induction false} PicturesStay(kids: Kids, k: Kids, t: Texts, u: Texts, ids: map<Node, nat>, calm: set<Node>,
                                        s: seq<Node>, inls: seq<Emphasis.Inline>)
    requires Calm(kids, k, t, u, calm) && Pictures(kids, t, ids, s, inls) && forall q :: 0 <= q < |s| ==> s[q] in calm
    ensures Pictures(k, u, ids, s, inls)
    decreases inls, 1
  {
    forall q | 0 <= q < |s| ensures IsPicture(k, u, ids, s[q], inls[q]) {
      PictureStays(kids, k, t, u, ids, calm, s[q], inls[q]);
    }
  }

  lemma PicturesPart(kids: Kids, t: Texts, ids: map<Node, nat>, s: seq<Node>, inls: seq<Emphasis.Inline>, a: nat,
                     b: nat)
    requires Pictures(kids, t, ids, s, inls) && a <= b <= |s|
    ensures Pictures(kids, t, ids, s[a..b], inls[a..b])
  {
    hide IsPicture;
  }

  lemma PicturesConcat(kids: Kids, t: Texts, ids: map<Node, nat>, a: seq<Node>, xs: seq<Emphasis.Inline>, b: seq<Node>,
                       ys: seq<Emphasis.Inline>)
    requires Pictures(kids, t, ids, a, xs) && Pictures(kids, t, ids, b, ys)
    ensures Pictures(kids, t, ids, a + b, xs + ys)
  {
    hide IsPicture;
  }

  /** Below p, and neither opener nor closer. */
  lemma CalmBelow(kids: Kids, k: Kids, t: Texts, u: Texts, p: Node, emph: Node, i: nat, j: nat, o: bool, c: bool)
    returns (calm: set<Node>)
    requires Sound(kids) && WrappedIn(kids, k, p, emph, i, j, o, c) && emph !in kids
    requires forall n :: n in k && n in t && n != kids[p][i] && n != kids[p][j] ==> n in u && u[n] == t[n]
    ensures Calm(kids, k, t, u, calm) && forall q :: 0 <= q < |kids[p]| && q != i && q != j ==> kids[p][q] in calm
  {
    var opener, closer := kids[p][i], kids[p][j];
    var rank := RankOf(kids, kids.Keys);
    hide Acyclic;
    calm := set n | n in kids && rank[n] < rank[p] && n != opener && n != closer;
    forall m, q | m in calm && 0 <= q < |kids[m]| ensures kids[m][q] in calm {
      OnlyUnder(kids, p, i, m, q);
      OnlyUnder(kids, p, j, m, q);
    }
    forall q | 0 <= q < |kids[p]| && q != i && q != j ensures kids[p][q] in calm {
      assert kids[p][q] != opener && kids[p][q] != closer;
    }
  }

  lemma OnlyUnder(kids: Kids, p: Node, i: nat, m: Node, q: nat)
    requires Lists(kids) && p in kids && m in kids && m != p && i < |kids[p]| && q < |kids[m]|
    ensures kids[m][q] != kids[p][i]
  {
  }

  /** One text, shortened, or nothing when it is empty. */
  function KeptText(n: Node, keep: bool): seq<Node> { if keep then [n] else [] }

  lemma ShortenedPicture(k: Kids, u: Texts, ids: map<Node, nat>, n: Node, x: Emphasis.Inline, use: nat, left: nat)
    requires x.Text? && n.kind.Text? && n in ids && ids[n] == x.id && use + left == |x.literal|
    requires left > 0 ==> n in u && u[n] == x.literal[..left]
    ensures Pictures(k, u, ids, KeptText(n, left > 0), Emphasis.Shortened(x, use))
  {
    if left > 0 {
      var y := Emphasis.Text(x.id, x.literal[..left]);
      assert Emphasis.Shortened(x, use) == [y] && IsPicture(k, u, ids, n, y);
    }
  }

  /** The texts after: opener and closer are shortened, and nothing else changes. */
  ghost predicate Shortens(k: Kids, t: Texts, u: Texts, opener: Node, closer: Node, openerLeft: nat, closerLeft: nat) {
    && u.Keys == k.Keys && opener in t && closer in t && opener != closer
    && openerLeft < |t[opener]| && closerLeft < |t[closer]|
    && (opener in k ==> u[opener] == t[opener][..openerLeft])
    && (closer in k ==> u[closer] == t[closer][..closerLeft])
    && forall n :: n in k && n in t && n != opener && n != closer ==> u[n] == t[n]
  }

  lemma TextShortened(k: Kids, t: Texts, u: Texts, ids: map<Node, nat>, opener: Node, closer: Node, openerLeft: nat,
                      closerLeft: nat, use: nat)
    requires Shortens(k, t, u, opener, closer, openerLeft, closerLeft) && opener in ids && closer in ids
    requires opener.kind.Text? && closer.kind.Text?
    requires (openerLeft > 0 ==> opener in k) && (closerLeft > 0 ==> closer in k)
    requires use + openerLeft == |t[opener]| && use + closerLeft == |t[closer]|
    ensures Pictures(k, u, ids, KeptText(opener, openerLeft > 0),
                     Emphasis.Shortened(Emphasis.Text(ids[opener], t[opener]), use))
    ensures Pictures(k, u, ids, KeptText(closer, closerLeft > 0),
                     Emphasis.Shortened(Emphasis.Text(ids[closer], t[closer]), use))
  {
    hide Pictures, KeptText, Emphasis.Shortened;
    ShortenedPicture(k, u, ids, opener, Emphasis.Text(ids[opener], t[opener]), use, openerLeft);
    ShortenedPicture(k, u, ids, closer, Emphasis.Text(ids[closer], t[closer]), use, closerLeft);
  }

  /** The nodes before picture the inlines before, and the nodes after picture the wrapped ones. */
  lemma WrapPictured(kids: Kids, k: Kids, t: Texts, u: Texts, ids: map<Node, nat>, p: Node, emph: Node, i: nat, j: nat,
                     openerLeft: nat, closerLeft: nat, inls: seq<Emphasis.Inline>, use: nat)
    requires Sound(kids) && WrappedIn(kids, k, p, emph, i, j, openerLeft > 0, closerLeft > 0) && emph !in kids
    requires Pictures(kids, t, ids, kids[p], inls) && kids[p][i] in ids && kids[p][j] in ids
    requires kids[p][i].kind.Text? && kids[p][j].kind.Text?
    requires Shortens(k, t, u, kids[p][i], kids[p][j], openerLeft, closerLeft)
    requires use + openerLeft == |t[kids[p][i]]| && use + closerLeft == |t[kids[p][j]]|
    requires emph.kind == if use == 1 then Emph else Strong
    ensures i < j < |inls| && inls[i].Text? && inls[j].Text? && use <= |inls[i].literal| && use <= |inls[j].literal|
    ensures Pictures(k, u, ids, k[p], Emphasis.Wrapped(inls, i, j, use))
  {
    hide Sound, Emphasis.Shortened, KeptText, Pictures, Lists, WrappedIn;
    KnowLists(kids);
    WrappedFacts(kids, k, p, emph, i, j, openerLeft > 0, closerLeft > 0);
    var s := kids[p];
    OpenAndClose(kids, t, ids, s, inls, i, j);
    hide Shortens;
    OthersPicture(kids, k, t, u, ids, p, emph, i, j, openerLeft, closerLeft, inls);
    TextShortened(k, t, u, ids, s[i], s[j], openerLeft, closerLeft, use);
    Assembled(k, u, ids, s, emph, i, j, inls, use, KeptText(s[i], openerLeft > 0), KeptText(s[j], closerLeft > 0));
  }

  lemma Assembled(k: Kids, u: Texts, ids: map<Node, nat>, s: seq<Node>, emph: Node, i: nat, j: nat,
                  inls: seq<Emphasis.Inline>, use: nat, o: seq<Node>, c: seq<Node>)
    requires i < j < |s| == |inls| && emph in k && k[emph] == s[i + 1..j]
    requires emph.kind == if use == 1 then Emph else Strong
    requires inls[i].Text? && inls[j].Text? && use <= |inls[i].literal| && use <= |inls[j].literal|
    requires Pictures(k, u, ids, s[..i], inls[..i]) && Pictures(k, u, ids, s[i + 1..j], inls[i + 1..j])
    requires Pictures(k, u, ids, s[j + 1..], inls[j + 1..])
    requires Pictures(k, u, ids, o, Emphasis.Shortened(inls[i], use))
    requires Pictures(k, u, ids, c, Emphasis.Shortened(inls[j], use))
    ensures Pictures(k, u, ids, s[..i] + o + [emph] + c + s[j + 1..], Emphasis.Wrapped(inls, i, j, use))
  {
    hide Pictures, Emphasis.Shortened;
    var mid := if use == 1 then Emphasis.Emph(inls[i + 1..j]) else Emphasis.Strong(inls[i + 1..j]);
    OnePicture(k, u, ids, emph, mid);
    FiveParts(k, u, ids, s[..i], inls[..i], o, Emphasis.Shortened(inls[i], use), [emph], [mid], c,
              Emphasis.Shortened(inls[j], use), s[j + 1..], inls[j + 1..]);
  }

  lemma OthersPicture(kids: Kids, k: Kids, t: Texts, u: Texts, ids: map<Node, nat>, p: Node, emph: Node, i: nat, j: nat,
                      openerLeft: nat, closerLeft: nat, inls: seq<Emphasis.Inline>)
    requires Sound(kids) && WrappedIn(kids, k, p, emph, i, j, openerLeft > 0, closerLeft > 0) && emph !in kids
    requires Pictures(kids, t, ids, kids[p], inls)
    requires Shortens(k, t, u, kids[p][i], kids[p][j], openerLeft, closerLeft)
    ensures var s := kids[p];
            && |inls| == |s| && Pictures(k, u, ids, s[..i], inls[..i])
            && Pictures(k, u, ids, s[i + 1..j], inls[i + 1..j]) && Pictures(k, u, ids, s[j + 1..], inls[j + 1..])
  {
    hide Sound, Calm, Pictures;
    var calm := CalmBelow(kids, k, t, u, p, emph, i, j, openerLeft > 0, closerLeft > 0);
    ThreeStay(kids, k, t, u, ids, calm, kids[p], inls, i, j);
  }

  /** What stands before, between and behind. */
  lemma ThreeStay(kids: Kids, k: Kids, t: Texts, u: Texts, ids: map<Node, nat>, calm: set<Node>, s: seq<Node>,
                  inls: seq<Emphasis.Inline>, i: nat, j: nat)
    requires Calm(kids, k, t, u, calm) && Pictures(kids, t, ids, s, inls) && i < j < |s|
    requires forall q :: 0 <= q < |s| && q != i && q != j ==> s[q] in calm
    ensures |inls| == |s| && Pictures(k, u, ids, s[..i], inls[..i]) && Pictures(k, u, ids, s[i + 1..j], inls[i + 1..j])
    ensures Pictures(k, u, ids, s[j + 1..], inls[j + 1..])
  {
    hide Pictures, Calm;
    StayPart(kids, k, t, u, ids, calm, s, inls, 0, i);
    StayPart(kids, k, t, u, ids, calm, s, inls, i + 1, j);
    StayPart(kids, k, t, u, ids, calm, s, inls, j + 1, |s|);
    assert s[0..i] == s[..i] && inls[0..i] == inls[..i];
    assert s[j + 1..|s|] == s[j + 1..] && inls[j + 1..|s|] == inls[j + 1..];
  }

  lemma OnePicture(k: Kids, u: Texts, ids: map<Node, nat>, n: Node, x: Emphasis.Inline)
    requires n in k && if x.Emph? then n.kind.Emph? else x.Strong? && n.kind.Strong?
    requires Pictures(k, u, ids, k[n], x.kids)
    ensures Pictures(k, u, ids, [n], [x])
  {
    assert IsPicture(k, u, ids, n, x);
  }

  lemma FiveParts(k: Kids, u: Texts, ids: map<Node, nat>, a: seq<Node>, xa: seq<Emphasis.Inline>, b: seq<Node>,
                  xb: seq<Emphasis.Inline>, c: seq<Node>, xc: seq<Emphasis.Inline>, d: seq<Node>,
                  xd: seq<Emphasis.Inline>, e: seq<Node>, xe: seq<Emphasis.Inline>)
    requires Pictures(k, u, ids, a, xa) && Pictures(k, u, ids, b, xb) && Pictures(k, u, ids, c, xc)
    requires Pictures(k, u, ids, d, xd) && Pictures(k, u, ids, e, xe)
    ensures Pictures(k, u, ids, a + b + c + d + e, xa + xb + xc + xd + xe)
  {
    hide Pictures;
    PicturesConcat(k, u, ids, a, xa, b, xb);
    PicturesConcat(k, u, ids, a + b, xa + xb, c, xc);
    PicturesConcat(k, u, ids, a + b + c, xa + xb + xc, d, xd);
    PicturesConcat(k, u, ids, a + b + c + d, xa + xb + xc + xd, e, xe);
  }

  lemma OpenAndClose(kids: Kids, t: Texts, ids: map<Node, nat>, s: seq<Node>, inls: seq<Emphasis.Inline>, i: nat,
                     j: nat)
    requires Pictures(kids, t, ids, s, inls) && i < j < |s| && s[i] in ids && s[j] in ids
    requires s[i].kind.Text? && s[j].kind.Text? && s[i] in t && s[j] in t
    ensures |inls| == |s| && inls[i] == Emphasis.Text(ids[s[i]], t[s[i]])
    ensures inls[j] == Emphasis.Text(ids[s[j]], t[s[j]])
  {
    assert IsPicture(kids, t, ids, s[i], inls[i]) && IsPicture(kids, t, ids, s[j], inls[j]);
  }

  lemma WrappedFacts(kids: Kids, k: Kids, p: Node, emph: Node, i: nat, j: nat, o: bool, c: bool)
    requires Lists(kids) && WrappedIn(kids, k, p, emph, i, j, o, c)
    ensures p in kids && p in k && i < j < |kids[p]|
    ensures kids[p][i] != kids[p][j] && (o ==> kids[p][i] in k) && (c ==> kids[p][j] in k)
    ensures emph in k && k[emph] == kids[p][i + 1..j]
    ensures k[p] == kids[p][..i] + KeptText(kids[p][i], o) + [emph] + KeptText(kids[p][j], c) + kids[p][j + 1..]
  {
    assert kids[p][i] in kids && kids[p][j] in kids && kids[p][i] != kids[p][j];
    KeptParts(kids[p], emph, i, j, o, c);
    hide KeptText, Lists;
  }

  lemma KeptParts(s: seq<Node>, x: Node, i: nat, j: nat, o: bool, c: bool)
    requires i < j < |s|
    ensures s[..if o then i + 1 else i] + [x] + s[if c then j else j + 1..] ==
            s[..i] + KeptText(s[i], o) + [x] + KeptText(s[j], c) + s[j + 1..]
  {
    assert s[..i + 1] == s[..i] + [s[i]] && s[j..] == [s[j]] + s[j + 1..];
  }

  lemma StayPart(kids: Kids, k: Kids, t: Texts, u: Texts, ids: map<Node, nat>, calm: set<Node>, s: seq<Node>,
                 inls: seq<Emphasis.Inline>, a: nat, b: nat)
    requires Calm(kids, k, t, u, calm) && Pictures(kids, t, ids, s, inls) && a <= b <= |s|
    requires forall q :: a <= q < b ==> s[q] in calm
    ensures |inls| == |s| && Pictures(k, u, ids, s[a..b], inls[a..b])
  {
    PicturesPart(kids, t, ids, s, inls, a, b);
    PicturesStay(kids, k, t, u, ids, calm, s[a..b], inls[a..b]);
  }

  /** So the nodes that S_insert_emph leaves picture what Emphasis.Wrapped makes of the inlines that they pictured. */
  method InsertEmph(opener: Node, closer: Node, mem: nat, ghost kids: Kids, ghost p: Node, ghost i: nat, ghost j: nat,
                    ghost ids: map<Node, nat>, ghost inls: seq<Emphasis.Inline>) returns (emph: Node, ghost k: Kids)
    requires Shows(kids) && MayWrap(kids, opener, closer, mem, p, i, j)
    requires opener.literal != [] && closer.literal != [] && opener in ids && closer in ids
    requires Pictures(kids, Consolidate.Literals(kids.Keys), ids, kids[p], inls)
    modifies kids.Keys`next, kids.Keys`prev, kids.Keys`parent, kids.Keys`firstChild, kids.Keys`lastChild
    modifies opener`literal, closer`literal
    ensures fresh(emph) && Shows(k) && p in k
    ensures i < j < |inls| && inls[i] == Emphasis.Text(ids[opener], old(opener.literal))
    ensures inls[j] == Emphasis.Text(ids[closer], old(closer.literal))
    ensures var use := Emphasis.UseDelims(old(|opener.literal|), old(|closer.literal|));
            && use <= |inls[i].literal| && use <= |inls[j].literal|
            && Pictures(k, Consolidate.Literals(k.Keys), ids, k[p], Emphasis.Wrapped(inls, i, j, use))
  {
    hide Shows, Pictures, Sound, Lists, WrappedIn, Emphasis.Wrapped, Emphasis.UseDelims;
    ghost var t := Consolidate.Literals(kids.Keys);
    ghost var use := Emphasis.UseDelims(|opener.literal|, |closer.literal|);
    Emphasis.UsesOneOrTwo(|opener.literal|, |closer.literal|);
    KnowsSound(kids);
    KnowsPlaces(kids, opener, closer, mem, p, i, j);
    OpenAndClose(kids, t, ids, kids[p], inls, i, j);
    var openerLeft, closerLeft;
    emph, openerLeft, closerLeft, k := WrapNodes(opener, closer, mem, kids, p, i, j);
    WrappedKeys(kids, k, p, emph, i, j, openerLeft > 0, closerLeft > 0);
    WrapPictured(kids, k, t, Consolidate.Literals(k.Keys), ids, p, emph, i, j, openerLeft, closerLeft, inls, use);
  }

  lemma KnowsPlaces(kids: Kids, opener: Node, closer: Node, mem: nat, p: Node, i: nat, j: nat)
    requires MayWrap(kids, opener, closer, mem, p, i, j)
    ensures p in kids && i < j < |kids[p]| && kids[p][i] == opener && kids[p][j] == closer
    ensures opener in kids && closer in kids && opener.kind.Text? && closer.kind.Text?
  {
  }
}
