/** The mutable tree of deps/cmark/src/node.c: five pointers a node, and the operations that relink them. */
module NodeForest {
  import opened Bytes
  import opened Optional

  datatype Kind =
    | Document | BlockQuote | List | Item | CodeBlock | HtmlBlock | CustomBlock | Paragraph | Heading | ThematicBreak
    | Text | Softbreak | Linebreak | Code | HtmlInline | CustomInline | Emph | Strong | Link | Image

  predicate IsBlock(k: Kind) {
    k.Document? || k.BlockQuote? || k.List? || k.Item? || k.CodeBlock? || k.HtmlBlock? || k.CustomBlock? || k.Paragraph?
    || k.Heading? || k.ThematicBreak?
  }

  predicate IsInline(k: Kind) { !IsBlock(k) }

  class Node {
    const kind: Kind
    const mem: nat
    var next: Node?
    var prev: Node?
    var parent: Node?
    var firstChild: Node?
    var lastChild: Node?
    var literal: seq<byte>

    constructor (kind: Kind, mem: nat, literal: seq<byte>)
      ensures this.kind == kind && this.mem == mem && this.literal == literal
      ensures next == prev == parent == firstChild == lastChild == null
    {
      this.kind, this.mem, this.literal := kind, mem, literal;
      next, prev, parent, firstChild, lastChild := null, null, null, null, null;
    }
  }

  // ---------------------------------------------------------------- forests as values

  /** The children of each node, in order. */
  type Kids = map<Node, seq<Node>>

  predicate IsRoot(kids: Kids, n: Node) { forall m :: m in kids ==> n !in kids[m] }

  /** A node lies on at most one list, and there once; children are nodes of the forest. */
  predicate Lists(kids: Kids) {
    && (forall m, i :: m in kids && 0 <= i < |kids[m]| ==> kids[m][i] in kids)
    && (forall m, i, j :: m in kids && 0 <= i < j < |kids[m]| ==> kids[m][i] != kids[m][j])
    && (forall m, m', i, j ::
          m in kids && m' in kids && 0 <= i < |kids[m]| && 0 <= j < |kids[m']| && kids[m][i] == kids[m'][j] ==> m == m')
  }

  predicate NoChildIn(kids: Kids, n: Node, ns: set<Node>) {
    n in kids ==> forall i :: 0 <= i < |kids[n]| ==> kids[n][i] !in ns
  }

  /** In every set of nodes there is one that has no child in it. */
  ghost predicate Acyclic(kids: Kids) {
    forall ns: set<Node> :: ns <= kids.Keys && ns != {} ==> exists n :: n in ns && NoChildIn(kids, n, ns)
  }

  ghost predicate Sound(kids: Kids) { Lists(kids) && Acyclic(kids) }

  /** Acyclic forests are those whose nodes can be ranked with each parent above its children. */
  ghost predicate Ranks(kids: Kids, ns: set<Node>, rank: map<Node, nat>) {
    && ns <= rank.Keys
    && (forall m, i :: m in ns && m in kids && 0 <= i < |kids[m]| && kids[m][i] in ns ==> rank[kids[m][i]] < rank[m])
  }

  lemma RankedIsAcyclic(kids: Kids, rank: map<Node, nat>)
    requires Ranks(kids, kids.Keys, rank)
    ensures Acyclic(kids)
  {
    forall ns: set<Node> | ns <= kids.Keys && ns != {} ensures exists n :: n in ns && NoChildIn(kids, n, ns) {
      var n := Lowest(ns, rank);
      assert NoChildIn(kids, n, ns);
    }
  }

  lemma Lowest(ns: set<Node>, rank: map<Node, nat>) returns (n: Node)
    requires ns != {} && ns <= rank.Keys
    ensures n in ns && forall m :: m in ns ==> rank[n] <= rank[m]
  {
    n :| n in ns;
    if ns != {n} {
      var m := Lowest(ns - {n}, rank);
      n := if rank[m] < rank[n] then m else n;
    }
  }

  lemma RankOf(kids: Kids, ns: set<Node>) returns (rank: map<Node, nat>)
    requires Acyclic(kids) && ns <= kids.Keys
    ensures Ranks(kids, ns, rank)
  {
    if ns == {} {
      rank := map[];
    } else {
      var n :| n in ns && NoChildIn(kids, n, ns);
      var upper := RankOf(kids, ns - {n});
      rank := map m | m in ns :: if m == n then 0 else upper[m] + 1;
    }
  }

  /** A set that holds the parent of each of its nodes. */
  ghost predicate UpClosed(kids: Kids, up: set<Node>) {
    forall m, i :: m in kids && 0 <= i < |kids[m]| && kids[m][i] in up ==> m in up
  }

  /** a is n or one of its ancestors. */
  ghost predicate IsAbove(kids: Kids, a: Node, n: Node) {
    forall up: set<Node> :: up <= kids.Keys && UpClosed(kids, up) && n in up ==> a in up
  }

  function Without(s: seq<Node>, x: Node): (r: seq<Node>)
    ensures x !in s ==> r == s
  {
    if s == [] then [] else if s[0] == x then s[1..] else [s[0]] + Without(s[1..], x)
  }

  function Detached(kids: Kids, x: Node): Kids { map m | m in kids :: Without(kids[m], x) }

  function Inserted(s: seq<Node>, i: nat, x: Node): seq<Node>
    requires i <= |s|
  {
    s[..i] + [x] + s[i..]
  }

  /** x, with all that hangs on it, becomes child i of p. */
  function Placed(kids: Kids, x: Node, p: Node, i: nat): Kids
    requires p in kids && i <= |kids[p]|
  {
    kids[p := Inserted(kids[p], i, x)]
  }

  lemma {:induction false} WithoutIsPart(s: seq<Node>, x: Node, i: nat)
    requires i < |Without(s, x)|
    ensures Without(s, x)[i] in s
  {
    if s != [] && s[0] != x && i > 0 {
      WithoutIsPart(s[1..], x, i - 1);
    }
  }

  lemma {:induction false} WithoutAt(s: seq<Node>, x: Node, i: nat)
    requires i < |s| && s[i] == x && forall j :: 0 <= j < i ==> s[j] != x
    ensures Without(s, x) == s[..i] + s[i + 1..]
  {
    if i > 0 {
      WithoutAt(s[1..], x, i - 1);
      assert s[1..][..i - 1] == s[1..i] && s[1..][i..] == s[i + 1..];
      assert [s[0]] + s[1..i] == s[..i];
    }
  }

  /** Where x hangs. */
  ghost predicate At(kids: Kids, x: Node, p: Node, i: int) { p in kids && 0 <= i < |kids[p]| && kids[p][i] == x }

  lemma DetachedIs(kids: Kids, x: Node, p: Node, i: nat)
    requires Lists(kids) && At(kids, x, p, i)
    ensures Detached(kids, x) == kids[p := kids[p][..i] + kids[p][i + 1..]]
  {
    WithoutAt(kids[p], x, i);
    forall m | m in kids && m != p ensures Without(kids[m], x) == kids[m] {
    }
  }

  lemma DetachedRoot(kids: Kids, x: Node)
    requires IsRoot(kids, x)
    ensures Detached(kids, x) == kids
  {
  }

  lemma Dropped(s: seq<Node>, i: nat)
    requires i < |s|
    ensures var t := s[..i] + s[i + 1..];
            |t| == |s| - 1 && forall j :: 0 <= j < |t| ==> t[j] == if j < i then s[j] else s[j + 1]
  {
  }

  /** Dropping an element of one list. */
  lemma DropLists(kids: Kids, p: Node, i: nat, t: seq<Node>)
    requires Lists(kids) && p in kids && i < |kids[p]| && |t| == |kids[p]| - 1
    requires forall j :: 0 <= j < |t| ==> t[j] == kids[p][if j < i then j else j + 1]
    ensures Lists(kids[p := t]) && IsRoot(kids[p := t], kids[p][i])
  {
    var kids', x := kids[p := t], kids[p][i];
    forall m, j | m in kids' && 0 <= j < |kids'[m]| ensures kids'[m][j] != x {
      if m == p {
        assert kids'[m][j] == kids[p][if j < i then j else j + 1];
      }
    }
  }

  lemma DropRanks(kids: Kids, p: Node, i: nat, t: seq<Node>)
    requires Acyclic(kids) && p in kids && i < |kids[p]| && |t| == |kids[p]| - 1
    requires forall j :: 0 <= j < |t| ==> t[j] == kids[p][if j < i then j else j + 1]
    ensures Acyclic(kids[p := t])
  {
    var rank := RankOf(kids, kids.Keys);
    var kids' := kids[p := t];
    forall m, j | m in kids' && 0 <= j < |kids'[m]| && kids'[m][j] in kids'.Keys ensures rank[kids'[m][j]] < rank[m] {
      if m == p {
        assert kids'[m][j] == kids[p][if j < i then j else j + 1];
      }
    }
    RankedIsAcyclic(kids', rank);
  }

  lemma DetachSound(kids: Kids, x: Node)
    requires Sound(kids)
    ensures Sound(Detached(kids, x)) && IsRoot(Detached(kids, x), x) && Detached(kids, x).Keys == kids.Keys
  {
    if p, i :| At(kids, x, p, i) {
      hide Acyclic, Lists;
      DetachedIs(kids, x, p, i);
      Dropped(kids[p], i);
      var t := kids[p][..i] + kids[p][i + 1..];
      DropLists(kids, p, i, t);
      DropRanks(kids, p, i, t);
    } else {
      assert IsRoot(kids, x) by {
        forall m, i | m in kids && 0 <= i < |kids[m]| ensures kids[m][i] != x {
          assert !At(kids, x, m, i);
        }
      }
      DetachedRoot(kids, x);
    }
  }

  /** Hanging a root under a node that is not below it keeps the forest sound. */
  lemma PlaceSound(kids: Kids, x: Node, p: Node, i: nat, up: set<Node>)
    requires Sound(kids) && x in kids && p in kids && i <= |kids[p]| && IsRoot(kids, x)
    requires up <= kids.Keys && UpClosed(kids, up) && p in up && x !in up
    ensures Sound(Placed(kids, x, p, i))
  {
    var kids', s := Placed(kids, x, p, i), kids[p];
    var t := Inserted(s, i, x);
    assert |t| == |s| + 1 && forall j :: 0 <= j < |t| ==>
        t[j] == if j < i then s[j] else if j == i then x else s[j - 1];
    var rank := RankOf(kids, kids.Keys);
    var rank' := map n | n in kids :: if n in up then rank[n] + rank[x] + 1 else rank[n];
    assert Ranks(kids', kids'.Keys, rank') by {
      forall m, j | m in kids' && 0 <= j < |kids'[m]| ensures kids'[m][j] in kids && rank'[kids'[m][j]] < rank'[m] {
        var c := kids'[m][j];
        if m == p && j == i {
        } else {
          assert c in kids[m] by {
            if m == p { assert c == s[if j < i then j else j - 1]; }
          }
        }
      }
    }
    RankedIsAcyclic(kids', rank');
    PlaceLists(kids, x, p, i);
  }

  lemma PlaceLists(kids: Kids, x: Node, p: Node, i: nat)
    requires Lists(kids) && x in kids && p in kids && i <= |kids[p]| && IsRoot(kids, x)
    ensures Lists(Placed(kids, x, p, i))
  {
    var kids', s := Placed(kids, x, p, i), kids[p];
    var t := Inserted(s, i, x);
    assert |t| == |s| + 1 && forall j :: 0 <= j < |t| ==>
        t[j] == if j < i then s[j] else if j == i then x else s[j - 1];
  }

  // ---------------------------------------------------------------- the pointers show a forest

  /** The five pointers of a node. */
  datatype Cell = Cell(next: Node?, prev: Node?, parent: Node?, firstChild: Node?, lastChild: Node?)

  type Links = map<Node, Cell>

  ghost function Pointers(ns: set<Node>): (f: Links)
    reads ns`next, ns`prev, ns`parent, ns`firstChild, ns`lastChild
    ensures f.Keys == ns
  {
    map n | n in ns :: Cell(n.next, n.prev, n.parent, n.firstChild, n.lastChild)
  }

  /** Child i of m points to its neighbours and to m. */
  predicate ChildShown(f: Links, m: Node, s: seq<Node>, i: nat)
    requires i < |s|
  {
    && s[i] in f && f[s[i]].parent == m
    && f[s[i]].prev == (if i == 0 then null else s[i - 1])
    && f[s[i]].next == (if i == |s| - 1 then null else s[i + 1])
  }

  /** The list of the children of m. */
  predicate ListShown(f: Links, m: Node, s: seq<Node>) {
    && m in f
    && f[m].firstChild == (if s == [] then null else s[0])
    && f[m].lastChild == (if s == [] then null else s[|s| - 1])
    && forall i :: 0 <= i < |s| ==> ChildShown(f, m, s, i)
  }

  predicate Loose(c: Cell) { c.parent == c.prev == c.next == null }

  /** The forest is what the pointers say, except that those of loose to its neighbours are not looked at. */
  predicate ShownBut(f: Links, kids: Kids, loose: Node?) {
    && f.Keys == kids.Keys
    && (forall m :: m in kids ==> ListShown(f, m, kids[m]))
    && (forall n :: n in kids && n != loose && IsRoot(kids, n) ==> Loose(f[n]))
  }

  /** A sound forest, and the pointers say it. */
  ghost predicate Shows(kids: Kids)
    reads kids.Keys`next, kids.Keys`prev, kids.Keys`parent, kids.Keys`firstChild, kids.Keys`lastChild
  {
    Sound(kids) && ShownBut(Pointers(kids.Keys), kids, null)
  }

  // ---------------------------------------------------------------- unlinking

  /** A node hangs where its parent pointer says. */
  lemma Hangs(f: Links, kids: Kids, x: Node) returns (i: int)
    requires ShownBut(f, kids, null) && x in kids && f[x].parent != null
    ensures At(kids, x, f[x].parent, i)
  {
    hide ListShown;
    assert !IsRoot(kids, x);
    var m :| m in kids && x in kids[m];
    i :| 0 <= i < |kids[m]| && kids[m][i] == x;
    ListAt(f, m, kids[m], i);
  }

  lemma ListAt(f: Links, m: Node, s: seq<Node>, i: nat)
    requires ListShown(f, m, s) && i < |s|
    ensures s[i] in f && f[s[i]].parent == m
    ensures f[s[i]].prev == (if i == 0 then null else s[i - 1])
    ensures f[s[i]].next == (if i == |s| - 1 then null else s[i + 1])
  {
    assert ChildShown(f, m, s, i);
  }

  /** What S_node_unlink writes. */
  predicate Unlinked(f: Links, g: Links, x: Node)
    requires x in f
  {
    && g.Keys == f.Keys
    && forall n :: n in f ==>
         && g[n].parent == f[n].parent
         && g[n].next == (if f[x].prev == n then f[x].next else f[n].next)
         && g[n].prev == (if f[x].next == n then f[x].prev else f[n].prev)
         && g[n].firstChild == (if f[x].parent == n && f[n].firstChild == x then f[x].next else f[n].firstChild)
         && g[n].lastChild == (if f[x].parent == n && f[n].lastChild == x then f[x].prev else f[n].lastChild)
  }

  /** S_node_unlink. A node that is its own neighbour on one side is so on both; then nothing changes. */
  method SNodeUnlink(node: Node, ghost ns: set<Node>)
    requires node in ns && (node.prev == node <==> node.next == node)
    requires (node.prev != null ==> node.prev in ns) && (node.next != null ==> node.next in ns)
    requires node.parent != null ==> node.parent in ns
    modifies ns`next, ns`prev, ns`firstChild, ns`lastChild
    ensures Unlinked(old(Pointers(ns)), Pointers(ns), node)
    ensures old(node.prev) == node ==> Pointers(ns) == old(Pointers(ns))
  {
    CloseGap(node, ns);
    FixEnds(node, ns);
  }

  /** The list of the parent may start or end with another child now. */
  method FixEnds(node: Node, ghost ns: set<Node>)
    requires node in ns && (node.parent != null ==> node.parent in ns)
    modifies ns`firstChild, ns`lastChild
    ensures forall n :: n in ns ==>
              n.firstChild == if node.parent == n && old(n.firstChild) == node then node.next else old(n.firstChild)
    ensures forall n :: n in ns ==>
              n.lastChild == if node.parent == n && old(n.lastChild) == node then node.prev else old(n.lastChild)
  {
    var parent := node.parent;
    if parent != null {
      if parent.firstChild == node {
        parent.firstChild := node.next;
      }
      if parent.lastChild == node {
        parent.lastChild := node.prev;
      }
    }
  }

  /** The neighbours of a node become neighbours of each other. */
  method CloseGap(node: Node, ghost ns: set<Node>)
    requires node in ns && (node.prev == node <==> node.next == node)
    requires (node.prev != null ==> node.prev in ns) && (node.next != null ==> node.next in ns)
    modifies ns`next, ns`prev
    ensures node.next == old(node.next) && node.prev == old(node.prev)
    ensures forall n :: n in ns ==> n.next == if old(node.prev) == n then old(node.next) else old(n.next)
    ensures forall n :: n in ns ==> n.prev == if old(node.next) == n then old(node.prev) else old(n.prev)
  {
    if node.prev != null {
      node.prev.next := node.next;
    }
    if node.next != null {
      node.next.prev := node.prev;
    }
  }

  lemma OthersShown(f: Links, g: Links, kids: Kids, x: Node, p: Node, i: nat, m: Node)
    requires Lists(kids) && At(kids, x, p, i) && m in kids && m != p
    requires ListShown(f, p, kids[p]) && ListShown(f, m, kids[m]) && x in f && Unlinked(f, g, x)
    ensures ListShown(g, m, kids[m])
  {
    ListAt(f, p, kids[p], i);
    forall j | 0 <= j < |kids[m]| ensures ChildShown(g, m, kids[m], j) {
      ListAt(f, m, kids[m], j);
      assert kids[m][j] != f[x].prev && kids[m][j] != f[x].next;
    }
  }

  lemma ListUnlinked(f: Links, g: Links, kids: Kids, x: Node, p: Node, i: nat, t: seq<Node>)
    requires Lists(kids) && At(kids, x, p, i) && |t| == |kids[p]| - 1
    requires forall j :: 0 <= j < |t| ==> t[j] == kids[p][if j < i then j else j + 1]
    requires ListShown(f, p, kids[p]) && x in f && Unlinked(f, g, x)
    ensures ListShown(g, p, t)
  {
    var s := kids[p];
    ListAt(f, p, s, i);
    assert forall k :: 0 <= k < |s| ==>
        (f[x].prev == s[k] <==> k == i - 1) && (f[x].next == s[k] <==> k == i + 1) && (x == s[k] <==> k == i);
    assert s[0] == x <==> i == 0;
    assert s[|s| - 1] == x <==> i == |s| - 1;
    forall j | 0 <= j < |t| ensures ChildShown(g, p, t, j) {
      var k := if j < i then j else j + 1;
      assert t[j] == s[k];
      ListAt(f, p, s, k);
      assert j > 0 ==> t[j - 1] == s[if j - 1 < i then j - 1 else j];
      assert j + 1 < |t| ==> t[j + 1] == s[if j + 1 < i then j + 1 else j + 2];
    }
  }

  lemma OnlyRoots(f: Links, kids: Kids, n: Node)
    requires ShownBut(f, kids, null) && n in kids
    ensures IsRoot(kids, n) <==> f[n].parent == null
  {
    hide ListShown;
    if f[n].parent != null {
      var i := Hangs(f, kids, n);
    } else {
      forall m, i | m in kids && 0 <= i < |kids[m]| ensures kids[m][i] != n {
        ListAt(f, m, kids[m], i);
      }
    }
  }

  lemma RootsLoose(f: Links, g: Links, kids: Kids, x: Node, p: Node, i: nat, t: seq<Node>)
    requires ShownBut(f, kids, null) && x in kids && Unlinked(f, g, x) && At(kids, x, p, i)
    requires t == kids[p][..i] + kids[p][i + 1..]
    ensures forall n :: n in kids && n != x && IsRoot(kids[p := t], n) ==> Loose(g[n])
  {
    hide ListShown;
    ListAt(f, p, kids[p], i);
    forall n | n in kids && n != x && IsRoot(kids[p := t], n) ensures Loose(g[n]) {
      RootsStay(kids, p, i, t, n);
      NotBeside(kids, n, p);
    }
  }

  lemma NotBeside(kids: Kids, n: Node, p: Node)
    requires IsRoot(kids, n) && p in kids
    ensures forall i :: 0 <= i < |kids[p]| ==> kids[p][i] != n
  {
  }

  /** Unlinking a node leaves the forest without it. */
  lemma UnlinkShows(f: Links, g: Links, kids: Kids, x: Node)
    requires Lists(kids) && ShownBut(f, kids, null) && x in kids && Unlinked(f, g, x)
    ensures ShownBut(g, Detached(kids, x), x)
  {
    hide ListShown, Lists;
    OnlyRoots(f, kids, x);
    if f[x].parent == null {
      DetachedRoot(kids, x);
      assert g == f;
    } else {
      assert g.Keys == f.Keys;
      var p := f[x].parent;
      var i := Hangs(f, kids, x);
      var t := kids[p][..i] + kids[p][i + 1..];
      Dropped(kids[p], i);
      DetachedIs(kids, x, p, i);
      var kids' := Detached(kids, x);
      ListUnlinked(f, g, kids, x, p, i, t);
      forall m | m in kids' ensures ListShown(g, m, kids'[m]) {
        if m != p {
          OthersShown(f, g, kids, x, p, i, m);
        }
      }
      RootsLoose(f, g, kids, x, p, i, t);
      hide Unlinked, At, Detached, Without;
    }
  }

  lemma RootsStay(kids: Kids, p: Node, i: nat, t: seq<Node>, n: Node)
    requires p in kids && i < |kids[p]| && t == kids[p][..i] + kids[p][i + 1..] && n != kids[p][i]
    requires IsRoot(kids[p := t], n)
    ensures IsRoot(kids, n)
  {
    forall m, j | m in kids && 0 <= j < |kids[m]| ensures kids[m][j] != n {
      assert n !in kids[p := t][m];
      assert m == p && j != i ==> kids[p][j] == t[if j < i then j else j - 1];
    }
  }

  // ---------------------------------------------------------------- what may hang where

  /** The table of S_can_contain. */
  predicate Holds(kind: Kind, child: Kind) {
    match kind
    case Document => IsBlock(child) && !child.Item?
    case BlockQuote => IsBlock(child) && !child.Item?
    case Item => IsBlock(child) && !child.Item?
    case List => child.Item?
    case CustomBlock => true
    case Paragraph => IsInline(child)
    case Heading => IsInline(child)
    case Emph => IsInline(child)
    case Strong => IsInline(child)
    case Link => IsInline(child)
    case Image => IsInline(child)
    case CustomInline => IsInline(child)
    case _ => false
  }

  /** The same allocator, no cycle, and kinds that go together. */
  ghost predicate CanHang(kids: Kids, child: Node, node: Node) {
    node.mem == child.mem && !IsAbove(kids, child, node) && !child.kind.Document? && Holds(node.kind, child.kind)
  }

  /** On the way up from node: what lies below cur has been passed, and child was not met. */
  ghost predicate Climbing(f: Links, kids: Kids, rank: map<Node, nat>, up: set<Node>, cur: Node?, node: Node,
                           child: Node) {
    && Ranks(kids, kids.Keys, rank) && up <= kids.Keys <= rank.Keys && child !in up
    && (forall n :: n in up ==> n in f && (f[n].parent == cur || f[n].parent in up))
    && (cur != null ==> cur in kids && IsAbove(kids, cur, node) && forall n :: n in up ==> rank[n] < rank[cur])
    && (node in up || cur == node)
  }

  lemma ClimbStep(f: Links, kids: Kids, rank: map<Node, nat>, up: set<Node>, cur: Node, node: Node, child: Node)
    requires Lists(kids) && ShownBut(f, kids, null) && Climbing(f, kids, rank, up, cur, node, child) && cur != child
    ensures cur !in up && Climbing(f, kids, rank, up + {cur}, f[cur].parent, node, child)
  {
    var q := f[cur].parent;
    if q != null {
      hide ListShown, Climbing;
      var i := Hangs(f, kids, cur);
      ParentAbove(f, kids, rank, up, cur, node, child, q, i);
    }
    ClimbUp(f, kids, rank, up, cur, node, child, q);
  }

  lemma ClimbUp(f: Links, kids: Kids, rank: map<Node, nat>, up: set<Node>, cur: Node, node: Node, child: Node, q: Node?)
    requires Climbing(f, kids, rank, up, cur, node, child) && cur != child && cur in f && f[cur].parent == q
    requires q != null ==> q in kids && IsAbove(kids, q, node) && rank[cur] < rank[q]
    ensures cur !in up && Climbing(f, kids, rank, up + {cur}, q, node, child)
  {
    hide Ranks, IsAbove;
  }

  lemma ParentAbove(f: Links, kids: Kids, rank: map<Node, nat>, up: set<Node>, cur: Node, node: Node, child: Node,
                    q: Node, i: int)
    requires Climbing(f, kids, rank, up, cur, node, child) && At(kids, cur, q, i)
    ensures q in kids && IsAbove(kids, q, node) && q in rank && cur in rank && rank[cur] < rank[q]
  {
    AboveParent(kids, q, cur, i, node);
    assert rank[kids[q][i]] < rank[q];
    hide IsAbove;
  }

  /** Above a node that is above another stands its parent. */
  lemma AboveParent(kids: Kids, p: Node, n: Node, i: int, node: Node)
    requires At(kids, n, p, i) && IsAbove(kids, n, node)
    ensures IsAbove(kids, p, node)
  {
  }

  /** At the top: what was passed is closed upwards, so child is not above node. */
  lemma ClimbDone(f: Links, kids: Kids, rank: map<Node, nat>, up: set<Node>, node: Node, child: Node)
    requires Lists(kids) && ShownBut(f, kids, null) && Climbing(f, kids, rank, up, null, node, child)
    ensures up <= kids.Keys && UpClosed(kids, up) && node in up && child !in up && !IsAbove(kids, child, node)
  {
    hide ListShown, Ranks;
    forall m, i | m in kids && 0 <= i < |kids[m]| && kids[m][i] in up ensures m in up {
      ListAt(f, m, kids[m], i);
    }
    assert UpClosed(kids, up);
  }

  /** S_can_contain: the loop climbs from node to its root and meets child exactly when child is above it. */
  method SCanContain(node: Node?, child: Node?, ghost kids: Kids) returns (ok: bool)
    requires Shows(kids) && (node != null ==> node in kids) && (child != null ==> child in kids)
    ensures ok <==> node != null && child != null && CanHang(kids, child, node)
  {
    if node == null || child == null {
      return false;
    }
    if node.mem != child.mem {
      return false;
    }
    ghost var f, up: set<Node> := Pointers(kids.Keys), {};
    ghost var rank := RankOf(kids, kids.Keys);
    hide Acyclic, Lists, ShownBut, IsAbove;
    var cur: Node? := node;
    assert Climbing(f, kids, rank, up, cur, node, child) by { Itself(kids, node); }
    while cur != null
      invariant up <= kids.Keys && (cur != null ==> cur in kids) && Climbing(f, kids, rank, up, cur, node, child)
      decreases kids.Keys - up
    {
      if cur == child {
        return false;
      }
      ClimbStep(f, kids, rank, up, cur, node, child);
      up := up + {cur};
      cur := cur.parent;
    }
    ClimbDone(f, kids, rank, up, node, child);
    return !child.kind.Document? && Holds(node.kind, child.kind);
  }

  lemma Itself(kids: Kids, n: Node)
    ensures IsAbove(kids, n, n)
  {
  }

  /** A node that is not above another can be told apart from it by a set that is closed upwards. */
  lemma NotAbove(kids: Kids, child: Node, node: Node) returns (up: set<Node>)
    requires !IsAbove(kids, child, node)
    ensures up <= kids.Keys && UpClosed(kids, up) && node in up && child !in up
  {
    up :| up <= kids.Keys && UpClosed(kids, up) && node in up && child !in up;
  }

  // ---------------------------------------------------------------- the operations on forests

  datatype Op =
    | Unlink(node: Node) | InsertBefore(node: Node, sibling: Node) | InsertAfter(node: Node, sibling: Node)
    | PrependChild(node: Node, child: Node) | AppendChild(node: Node, child: Node) | Replace(oldnode: Node,
        newnode: Node)

  /** Nodes of the forest; and a node is not asked to be its own sibling. */
  predicate Asks(kids: Kids, op: Op) {
    match op
    case Unlink(n) => n in kids
    case InsertBefore(n, x) => n in kids && x in kids && n != x
    case InsertAfter(n, x) => n in kids && x in kids && n != x
    case PrependChild(n, x) => n in kids && x in kids
    case AppendChild(n, x) => n in kids && x in kids
    case Replace(n, x) => n in kids && x in kids && n != x
  }

  ghost function ParentOf(kids: Kids, n: Node): (p: Option<Node>)
    ensures p.Some? ==> p.value in kids && n in kids[p.value]
    ensures p.None? ==> IsRoot(kids, n)
  {
    if p :| p in kids && n in kids[p] then Some(p) else None
  }

  /** Where the node that is moved goes; None when the operation is refused. */
  ghost function Target(kids: Kids, op: Op): (t: Option<Node>)
    requires Asks(kids, op) && !op.Unlink?
    ensures t.Some? ==> t.value in kids
  {
    var (p, x) := match op
      case InsertBefore(n, x) => (ParentOf(kids, n), x)
      case InsertAfter(n, x) => (ParentOf(kids, n), x)
      case PrependChild(n, x) => (Some(n), x)
      case AppendChild(n, x) => (Some(n), x)
      case Replace(n, x) => (ParentOf(kids, n), x);
    if p.Some? && CanHang(kids, x, p.value) then p else None
  }

  function IndexOf(s: seq<Node>, x: Node): (i: nat)
    requires x in s
    ensures i < |s| && s[i] == x
  {
    if s[0] == x then 0 else 1 + IndexOf(s[1..], x)
  }

  lemma StillThere(kids: Kids, n: Node, x: Node, p: Node)
    requires p in kids && n in kids[p] && n != x
    ensures n in Detached(kids, x)[p]
  {
    WithoutOther(kids[p], n, x);
  }

  lemma {:induction false} WithoutOther(s: seq<Node>, n: Node, x: Node)
    requires n in s && n != x
    ensures n in Without(s, x)
  {
    if s[0] != x && s[0] != n {
      WithoutOther(s[1..], n, x);
    }
  }

  /** The forest after an operation; one that is refused changes nothing. */
  ghost function Apply(kids: Kids, op: Op): Kids
    requires Asks(kids, op)
  {
    if op.Unlink? then Detached(kids, op.node)
    else if Target(kids, op).None? then kids
    else
      var p := Target(kids, op).value;
      match op
      case InsertBefore(n, x) =>
        StillThere(kids, n, x, p);
        var k := Detached(kids, x);
        Placed(k, x, p, IndexOf(k[p], n))
      case InsertAfter(n, x) =>
        StillThere(kids, n, x, p);
        var k := Detached(kids, x);
        Placed(k, x, p, IndexOf(k[p], n) + 1)
      case PrependChild(n, x) => Placed(Detached(kids, x), x, p, 0)
      case AppendChild(n, x) =>
        var k := Detached(kids, x);
        Placed(k, x, p, |k[p]|)
      case Replace(n, x) =>
        StillThere(kids, n, x, p);
        var k := Detached(kids, x);
        k[p := k[p][IndexOf(k[p], n) := x]]
  }

  // ---------------------------------------------------------------- inserting

  /** What an insertion of x under p between two neighbours writes. */
  predicate Joined(f: Links, g: Links, x: Node, p: Node, before: Node?, after: Node?)
    requires x in f
  {
    && g.Keys == f.Keys
    && forall n :: n in f ==>
         && g[n].parent == (if n == x then p else f[n].parent)
         && g[n].next == (if n == x then after else if n == before then x else f[n].next)
         && g[n].prev == (if n == x then before else if n == after then x else f[n].prev)
         && g[n].firstChild == (if n == p && before == null then x else f[n].firstChild)
         && g[n].lastChild == (if n == p && after == null then x else f[n].lastChild)
  }

  function Before(s: seq<Node>, i: nat): Node?
    requires i <= |s|
  {
    if i == 0 then null else s[i - 1]
  }

  function Behind(s: seq<Node>, i: nat): Node?
    requires i <= |s|
  {
    if i == |s| then null else s[i]
  }

  lemma InsertedAt(s: seq<Node>, i: nat, x: Node)
    requires i <= |s|
    ensures var t := Inserted(s, i, x);
            |t| == |s| + 1 && forall j :: 0 <= j < |t| ==>
                t[j] == if j < i then s[j] else if j == i then x else s[j - 1]
  {
  }

  lemma ListJoined(f: Links, g: Links, s: seq<Node>, x: Node, p: Node, i: nat)
    requires ListShown(f, p, s) && i <= |s| && x in f && x !in s && x != p
    requires forall j, k :: 0 <= j < k < |s| ==> s[j] != s[k]
    requires Joined(f, g, x, p, Before(s, i), Behind(s, i))
    ensures ListShown(g, p, Inserted(s, i, x))
  {
    var t := Inserted(s, i, x);
    InsertedAt(s, i, x);
    hide Inserted;
    assert forall k :: 0 <= k < |s| ==> (Before(s, i) == s[k] <==> k == i - 1) && (Behind(s, i) == s[k] <==> k == i);
    assert t != [] && g[p].firstChild == t[0];
    assert g[p].lastChild == t[|t| - 1];
    forall j | 0 <= j < |t| ensures ChildShown(g, p, t, j) {
      if j != i {
        ListAt(f, p, s, if j < i then j else j - 1);
      }
    }
  }

  lemma OthersJoined(f: Links, g: Links, kids: Kids, x: Node, p: Node, i: nat, m: Node)
    requires Lists(kids) && p in kids && m in kids && m != p && i <= |kids[p]| && x in f && IsRoot(kids, x)
    requires ListShown(f, m, kids[m]) && Joined(f, g, x, p, Before(kids[p], i), Behind(kids[p], i))
    ensures ListShown(g, m, kids[m])
  {
    forall j | 0 <= j < |kids[m]| ensures ChildShown(g, m, kids[m], j) {
      ListAt(f, m, kids[m], j);
      assert kids[m][j] != x && kids[m][j] != Before(kids[p], i) && kids[m][j] != Behind(kids[p], i);
    }
  }

  lemma ListsJoined(f: Links, g: Links, kids: Kids, x: Node, p: Node, i: nat, m: Node)
    requires Lists(kids) && ShownBut(f, kids, x) && x in kids && p in kids && x != p && IsRoot(kids, x)
    requires i <= |kids[p]| && Joined(f, g, x, p, Before(kids[p], i), Behind(kids[p], i)) && m in kids
    ensures ListShown(g, m, if m == p then Inserted(kids[p], i, x) else kids[m])
  {
    assert x in f && ListShown(f, m, kids[m]);
    if m == p {
      RootApart(kids, x, p);
      hide ListShown, Joined, Lists, Before, Behind, Inserted, IsRoot, ShownBut;
      ListJoined(f, g, kids[p], x, p, i);
    } else {
      hide ListShown, Joined, Lists, Before, Behind, Inserted, IsRoot, ShownBut;
      OthersJoined(f, g, kids, x, p, i, m);
    }
  }

  lemma JoinShows(f: Links, g: Links, kids: Kids, x: Node, p: Node, i: nat)
    requires Lists(kids) && ShownBut(f, kids, x) && x in kids && p in kids && x != p && IsRoot(kids, x)
    requires i <= |kids[p]|
    requires Joined(f, g, x, p, Before(kids[p], i), Behind(kids[p], i))
    ensures ShownBut(g, Placed(kids, x, p, i), null)
  {
    hide Joined, Lists, Before, Behind, Inserted, IsRoot, ListShown, Placed, Loose;
    JoinedKeys(f, g, x, p, Before(kids[p], i), Behind(kids[p], i));
    PlacedLists(kids, x, p, i);
    RootsJoined(f, g, kids, x, p, i);
    forall m | m in kids ensures ListShown(g, m, Placed(kids, x, p, i)[m]) {
      ListsJoined(f, g, kids, x, p, i, m);
    }
  }

  lemma PlacedLists(kids: Kids, x: Node, p: Node, i: nat)
    requires p in kids && i <= |kids[p]|
    ensures var kids' := Placed(kids, x, p, i);
            kids'.Keys == kids.Keys
            && forall m :: m in kids ==> kids'[m] == if m == p then Inserted(kids[p], i, x) else kids[m]
  {
    hide Inserted;
  }

  lemma JoinedKeys(f: Links, g: Links, x: Node, p: Node, before: Node?, after: Node?)
    requires x in f && Joined(f, g, x, p, before, after)
    ensures g.Keys == f.Keys
  {
  }

  lemma RootApart(kids: Kids, x: Node, p: Node)
    requires Lists(kids) && p in kids && IsRoot(kids, x)
    ensures x !in kids[p] && forall j, k :: 0 <= j < k < |kids[p]| ==> kids[p][j] != kids[p][k]
  {
  }

  lemma RootsJoined(f: Links, g: Links, kids: Kids, x: Node, p: Node, i: nat)
    requires ShownBut(f, kids, x) && x in kids && p in kids && i <= |kids[p]|
    requires Joined(f, g, x, p, Before(kids[p], i), Behind(kids[p], i))
    ensures forall n :: n in kids && IsRoot(Placed(kids, x, p, i), n) ==> Loose(g[n])
  {
    hide ListShown;
    InsertedAt(kids[p], i, x);
    var t := Inserted(kids[p], i, x);
    assert t[i] == x;
    forall n | n in kids && IsRoot(Placed(kids, x, p, i), n) ensures Loose(g[n]) {
      assert n !in Placed(kids, x, p, i)[p];
      forall m, j | m in kids && 0 <= j < |kids[m]| ensures kids[m][j] != n {
        assert n !in Placed(kids, x, p, i)[m];
        assert m == p ==> kids[p][j] == t[if j < i then j else j + 1];
      }
      assert IsRoot(kids, n);
      assert n !in kids[p] && n != x && n != Before(kids[p], i) && n != Behind(kids[p], i);
    }
  }

  // ---------------------------------------------------------------- every operation keeps the forest sound

  lemma KnowLists(kids: Kids)
    requires Sound(kids)
    ensures Lists(kids)
  {
  }

  /** A node that may hang somewhere can be told apart from what is above it. */
  lemma PlaceKeepsSound(kids: Kids, x: Node, p: Node, i: nat)
    requires Sound(kids) && x in kids && p in kids && CanHang(kids, x, p) && i <= |Detached(kids, x)[p]|
    ensures Sound(Placed(Detached(kids, x), x, p, i))
  {
    hide Acyclic;
    var up := NotAbove(kids, x, p);
    DetachSound(kids, x);
    DetachedUpClosed(kids, x, up);
    PlaceSound(Detached(kids, x), x, p, i, up);
  }

  lemma DetachedUpClosed(kids: Kids, x: Node, up: set<Node>)
    requires UpClosed(kids, up)
    ensures UpClosed(Detached(kids, x), up)
  {
    var k := Detached(kids, x);
    forall m, i | m in k && 0 <= i < |k[m]| && k[m][i] in up ensures m in up {
      WithoutIn(kids[m], x, i);
    }
  }

  lemma {:induction false} WithoutIn(s: seq<Node>, x: Node, i: nat)
    requires i < |Without(s, x)|
    ensures exists j :: 0 <= j < |s| && s[j] == Without(s, x)[i]
  {
    if s[0] == x {
      assert s[1..][i] == s[i + 1];
    } else if i > 0 {
      WithoutIn(s[1..], x, i - 1);
      var j :| 0 <= j < |s[1..]| && s[1..][j] == Without(s[1..], x)[i - 1];
      assert s[j + 1] == Without(s, x)[i];
    }
  }

  /** Putting x in the place of the root that n becomes. */
  lemma ReplacedIs(kids: Kids, x: Node, n: Node, p: Node, i: nat)
    requires Lists(kids) && At(kids, n, p, i) && IsRoot(kids, x) && x != n && Lists(Placed(kids, x, p, i))
    ensures Detached(Placed(kids, x, p, i), n) == kids[p := kids[p][i := x]]
  {
    InsertedAt(kids[p], i, x);
    var k := Placed(kids, x, p, i);
    assert At(k, n, p, i + 1);
    DetachedIs(k, n, p, i + 1);
    var t := Inserted(kids[p], i, x);
    assert t[..i + 1] + t[i + 2..] == kids[p][i := x];
  }

  lemma ApplySound(kids: Kids, op: Op)
    requires Sound(kids) && Asks(kids, op)
    ensures Sound(Apply(kids, op)) && Apply(kids, op).Keys == kids.Keys
  {
    hide Acyclic, CanHang, Lists, IsAbove, IsRoot;
    if op.Unlink? {
      DetachSound(kids, op.node);
    } else if Target(kids, op).Some? {
      var p := Target(kids, op).value;
      match op
      case InsertBefore(n, x) =>
        StillThere(kids, n, x, p);
        PlaceKeepsSound(kids, x, p, IndexOf(Detached(kids, x)[p], n));
      case InsertAfter(n, x) =>
        StillThere(kids, n, x, p);
        PlaceKeepsSound(kids, x, p, IndexOf(Detached(kids, x)[p], n) + 1);
      case PrependChild(n, x) => PlaceKeepsSound(kids, x, p, 0);
      case AppendChild(n, x) => PlaceKeepsSound(kids, x, p, |Detached(kids, x)[p]|);
      case Replace(n, x) =>
        var k := Detached(kids, x);
        StillThere(kids, n, x, p);
        var i := IndexOf(k[p], n);
        PlaceKeepsSound(kids, x, p, i);
        DetachSound(kids, x);
        DetachSound(Placed(k, x, p, i), n);
        ReplacedIs(k, x, n, p, i);
    }
  }

  /** A whole sequence of operations. */
  ghost predicate AsksAll(kids: Kids, ops: seq<Op>)
    decreases |ops|
  {
    ops == [] || (Asks(kids, ops[0]) && AsksAll(Apply(kids, ops[0]), ops[1..]))
  }

  ghost function ApplyAll(kids: Kids, ops: seq<Op>): Kids
    requires AsksAll(kids, ops)
    decreases |ops|
  {
    if ops == [] then kids else ApplyAll(Apply(kids, ops[0]), ops[1..])
  }

  lemma {:induction false} RunsStaySound(kids: Kids, ops: seq<Op>)
    requires Sound(kids) && AsksAll(kids, ops)
    ensures Sound(ApplyAll(kids, ops)) && ApplyAll(kids, ops).Keys == kids.Keys
    decreases |ops|
  {
    if ops != [] {
      ApplySound(kids, ops[0]);
      RunsStaySound(Apply(kids, ops[0]), ops[1..]);
    }
  }

  // ---------------------------------------------------------------- the operations on nodes

  lemma ParentShown(f: Links, kids: Kids, n: Node)
    requires Lists(kids) && ShownBut(f, kids, null) && n in kids
    ensures ParentOf(kids, n) == if f[n].parent == null then None else Some(f[n].parent)
  {
    hide ListShown;
    OnlyRoots(f, kids, n);
    if f[n].parent != null {
      var i := Hangs(f, kids, n);
      var p := ParentOf(kids, n).value;
      var j :| 0 <= j < |kids[p]| && kids[p][j] == n;
      ListAt(f, p, kids[p], j);
    }
  }

  /** A node is not its own neighbour, and its neighbours are in the forest. */
  lemma NeighboursAreNodes(f: Links, kids: Kids, x: Node)
    requires Lists(kids) && ShownBut(f, kids, null) && x in kids
    ensures f[x].prev != x && f[x].next != x
    ensures (f[x].prev != null ==> f[x].prev in kids) && (f[x].next != null ==> f[x].next in kids)
    ensures (f[x].parent != null ==> f[x].parent in kids)
  {
    hide ListShown;
    OnlyRoots(f, kids, x);
    if f[x].parent != null {
      var i := Hangs(f, kids, x);
      ListAt(f, f[x].parent, kids[f[x].parent], i);
    }
  }

  lemma NodePlace(kids: Kids, n: Node)
    requires Shows(kids) && n in kids
    ensures (n.parent != null ==> n.parent in kids)
    ensures ParentOf(kids, n) == if n.parent == null then None else Some(n.parent)
  {
    hide Acyclic, ListShown;
    NeighboursAreNodes(Pointers(kids.Keys), kids, n);
    ParentShown(Pointers(kids.Keys), kids, n);
  }

  /** The first half of every move: x leaves its place. */
  method TakeOut(x: Node, ghost kids: Kids)
    requires Shows(kids) && x in kids
    modifies kids.Keys`next, kids.Keys`prev, kids.Keys`parent, kids.Keys`firstChild, kids.Keys`lastChild
    ensures Detached(kids, x).Keys == kids.Keys && Sound(Detached(kids, x)) && IsRoot(Detached(kids, x), x)
    ensures ShownBut(Pointers(kids.Keys), Detached(kids, x), x)
    ensures forall n :: n in kids ==> n.parent == old(n.parent)
    ensures x.prev == old(x.prev) && x.next == old(x.next)
  {
    hide Acyclic, ListShown;
    ghost var f := Pointers(kids.Keys);
    NeighboursAreNodes(f, kids, x);
    DetachSound(kids, x);
    SNodeUnlink(x, kids.Keys);
    UnlinkShows(f, Pointers(kids.Keys), kids, x);
    assert forall n :: n in kids ==> Pointers(kids.Keys)[n].parent == f[n].parent;
    assert Pointers(kids.Keys)[x].prev == f[x].prev && Pointers(kids.Keys)[x].next == f[x].next;
  }

  /** The second half of cmark_node_unlink. */
  method ForgetPlace(node: Node, ghost ns: set<Node>)
    requires node in ns
    modifies node`next, node`prev, node`parent
    ensures Pointers(ns) == old(Pointers(ns))[node := old(Pointers(ns)[node]).(next := null, prev := null,
              parent := null)]
  {
    node.next := null;
    node.prev := null;
    node.parent := null;
  }

  lemma Loosened(f: Links, g: Links, kids: Kids, x: Node)
    requires ShownBut(f, kids, x) && x in kids && IsRoot(kids, x)
    requires g == f[x := f[x].(next := null, prev := null, parent := null)]
    ensures ShownBut(g, kids, null)
  {
    forall m | m in kids ensures ListShown(g, m, kids[m]) {
      forall i | 0 <= i < |kids[m]| ensures ChildShown(g, m, kids[m], i) {
        ListAt(f, m, kids[m], i);
      }
    }
  }

  /** cmark_node_unlink */
  method NodeUnlink(node: Node, ghost kids: Kids)
    requires Shows(kids) && node in kids
    modifies kids.Keys`next, kids.Keys`prev, kids.Keys`parent, kids.Keys`firstChild, kids.Keys`lastChild
    ensures Shows(Apply(kids, Unlink(node)))
  {
    hide Acyclic, ShownBut, Lists, Sound, Pointers;
    TakeOut(node, kids);
    ghost var g := Pointers(kids.Keys);
    ForgetPlace(node, kids.Keys);
    Loosened(g, Pointers(kids.Keys), Detached(kids, node), node);
  }

  lemma PutShows(kids: Kids, f: Links, g: Links, x: Node, p: Node, i: nat)
    requires x in kids && p in kids && Sound(kids) && CanHang(kids, x, p)
    requires var k := Detached(kids, x); Sound(k) && k.Keys == kids.Keys && IsRoot(k, x) && ShownBut(f, k, x)
    requires i <= |Detached(kids, x)[p]| && x in f
    requires Joined(f, g, x, p, Before(Detached(kids, x)[p], i), Behind(Detached(kids, x)[p], i))
    ensures Placed(Detached(kids, x), x, p, i).Keys == kids.Keys
    ensures Sound(Placed(Detached(kids, x), x, p, i)) && ShownBut(g, Placed(Detached(kids, x), x, p, i), null)
  {
    hide Acyclic, ListShown;
    NotItself(kids, x, p);
    JoinShows(f, g, Detached(kids, x), x, p, i);
    PlaceKeepsSound(kids, x, p, i);
  }

  lemma NotItself(kids: Kids, x: Node, p: Node)
    requires CanHang(kids, x, p)
    ensures x != p
  {
    Itself(kids, p);
  }

  lemma ReadCell(ns: set<Node>, n: Node)
    requires n in ns
    ensures n in Pointers(ns) && Pointers(ns)[n] == Cell(n.next, n.prev, n.parent, n.firstChild, n.lastChild)
  {
  }

  lemma FirstAndLast(f: Links, kids: Kids, loose: Node, m: Node)
    requires ShownBut(f, kids, loose) && m in kids && IsRoot(kids, loose)
    ensures m in f && f[m].firstChild == Behind(kids[m], 0) && f[m].lastChild == Before(kids[m], |kids[m]|)
    ensures f[m].firstChild != null ==> f[m].firstChild in kids
    ensures f[m].lastChild != null ==> f[m].lastChild in kids
    ensures f[m].firstChild != loose && f[m].lastChild != loose
  {
    assert ListShown(f, m, kids[m]);
    if kids[m] != [] {
      ListAt(f, m, kids[m], 0);
      ListAt(f, m, kids[m], |kids[m]| - 1);
    }
  }

  /** The second half of cmark_node_prepend_child. */
  method LinkFirst(node: Node, child: Node, ghost ns: set<Node>)
    requires node in ns && child in ns && node != child && node.firstChild != child
    requires node.firstChild != null ==> node.firstChild in ns
    modifies ns`next, ns`prev, ns`parent, ns`firstChild, ns`lastChild
    ensures Joined(old(Pointers(ns)), Pointers(ns), child, node, null, old(node.firstChild))
  {
    var oldFirstChild := node.firstChild;
    child.next := oldFirstChild;
    child.prev := null;
    child.parent := node;
    node.firstChild := child;
    if oldFirstChild != null {
      oldFirstChild.prev := child;
    } else {
      node.lastChild := child;
    }
  }

  /** The second half of cmark_node_append_child. */
  method LinkLast(node: Node, child: Node, ghost ns: set<Node>)
    requires node in ns && child in ns && node != child && node.lastChild != child
    requires node.lastChild != null ==> node.lastChild in ns
    modifies ns`next, ns`prev, ns`parent, ns`firstChild, ns`lastChild
    ensures Joined(old(Pointers(ns)), Pointers(ns), child, node, old(node.lastChild), null)
  {
    var oldLastChild := node.lastChild;
    child.next := null;
    child.prev := oldLastChild;
    child.parent := node;
    node.lastChild := child;
    if oldLastChild != null {
      oldLastChild.next := child;
    } else {
      node.firstChild := child;
    }
  }

  /** cmark_node_prepend_child */
  method NodePrependChild(node: Node?, child: Node?, ghost kids: Kids) returns (ok: bool)
    requires Shows(kids) && (node != null ==> node in kids) && (child != null ==> child in kids)
    modifies kids.Keys`next, kids.Keys`prev, kids.Keys`parent, kids.Keys`firstChild, kids.Keys`lastChild
    ensures node == null || child == null ==> !ok
    ensures node != null && child != null ==>
              (ok <==> Target(kids, PrependChild(node, child)).Some?) && Shows(Apply(kids, PrependChild(node, child)))
    ensures !ok ==> Pointers(kids.Keys) == old(Pointers(kids.Keys))
  {
    hide Acyclic, ShownBut, CanHang, Lists, IsRoot, Pointers;
    ok := SCanContain(node, child, kids);
    if !ok {
      return;
    }
    TakeOut(child, kids);
    ghost var f := Pointers(kids.Keys);
    NotItself(kids, child, node);
    FirstAndLast(f, Detached(kids, child), child, node);
    ReadCell(kids.Keys, node);
    LinkFirst(node, child, kids.Keys);
    PutShows(kids, f, Pointers(kids.Keys), child, node, 0);
  }

  /** cmark_node_append_child */
  method NodeAppendChild(node: Node?, child: Node?, ghost kids: Kids) returns (ok: bool)
    requires Shows(kids) && (node != null ==> node in kids) && (child != null ==> child in kids)
    modifies kids.Keys`next, kids.Keys`prev, kids.Keys`parent, kids.Keys`firstChild, kids.Keys`lastChild
    ensures node == null || child == null ==> !ok
    ensures node != null && child != null ==>
              (ok <==> Target(kids, AppendChild(node, child)).Some?) && Shows(Apply(kids, AppendChild(node, child)))
    ensures !ok ==> Pointers(kids.Keys) == old(Pointers(kids.Keys))
  {
    hide Acyclic, ShownBut, CanHang, Lists, IsRoot, Pointers;
    ok := SCanContain(node, child, kids);
    if !ok {
      return;
    }
    TakeOut(child, kids);
    ghost var f := Pointers(kids.Keys);
    NotItself(kids, child, node);
    FirstAndLast(f, Detached(kids, child), child, node);
    ReadCell(kids.Keys, node);
    LinkLast(node, child, kids.Keys);
    PutShows(kids, f, Pointers(kids.Keys), child, node, |Detached(kids, child)[node]|);
  }

  // ---------------------------------------------------------------- beside a node

  /** What inserting a node beside itself leaves: it is its own neighbour, and the list still leads to it. */
  ghost predicate SelfLinked(node: Node, before: Node?, after: Node?)
    reads node, before, after
  {
    && node.next == node && node.prev == node
    && (before != null ==> before.next == node) && (after != null ==> after.prev == node)
  }

  /** What inserting a node before itself leaves. */
  ghost predicate SelfInserted(node: Node, before: Node?, parent: Node?)
    reads node, before, parent
  {
    && SelfLinked(node, before, null) && node.parent == parent && parent != null
    && (before == null ==> parent.firstChild == node)
  }

  /** The second half of cmark_node_insert_before. */
  method LinkBefore(node: Node, sibling: Node, ghost ns: set<Node>)
    requires node in ns && sibling in ns && node.prev != node && (node.prev == sibling ==> node == sibling)
    requires (node.prev != null ==> node.prev in ns) && node.parent != null && node.parent in ns
    modifies ns`next, ns`prev, ns`parent, ns`firstChild, ns`lastChild
    ensures node != sibling ==> Joined(old(Pointers(ns)), Pointers(ns), sibling, old(node.parent), old(node.prev), node)
    ensures node == sibling ==> SelfInserted(node, old(node.prev), old(node.parent))
  {
    var oldPrev := node.prev;
    if oldPrev != null {
      oldPrev.next := sibling;
    }
    sibling.prev := oldPrev;
    sibling.next := node;
    node.prev := sibling;
    var parent := node.parent;
    sibling.parent := parent;
    if parent != null && oldPrev == null {
      parent.firstChild := sibling;
    }
  }

  /** The second half of cmark_node_insert_after. */
  method LinkAfter(node: Node, sibling: Node, ghost ns: set<Node>)
    requires node in ns && sibling in ns && node.next != node && (node.next == sibling ==> node == sibling)
    requires (node.next != null ==> node.next in ns) && node.parent != null && node.parent in ns
    modifies ns`next, ns`prev, ns`parent, ns`firstChild, ns`lastChild
    ensures node != sibling ==> Joined(old(Pointers(ns)), Pointers(ns), sibling, old(node.parent), node, old(node.next))
    ensures node == sibling ==> SelfLinked(node, null, old(node.next))
  {
    var oldNext := node.next;
    if oldNext != null {
      oldNext.prev := sibling;
    }
    sibling.next := oldNext;
    sibling.prev := node;
    node.next := sibling;
    var parent := node.parent;
    sibling.parent := parent;
    if parent != null && oldNext == null {
      parent.lastChild := sibling;
    }
  }

  /** No forest has a node that is its own neighbour. */
  lemma NotShownSelf(kids: Kids, node: Node)
    requires node in kids && (node.next == node || node.prev == node)
    ensures !Shows(kids)
  {
    if Shows(kids) {
      NeighboursAreNodes(Pointers(kids.Keys), kids, node);
      ReadCell(kids.Keys, node);
    }
  }

  /** No forest has a list that leads to a node without a parent. */
  lemma NotShownLoose(kids: Kids, node: Node, m: Node)
    requires node in kids && m in kids && node.parent == null && (m.next == node || m.firstChild == node)
    ensures !Shows(kids)
  {
    if Shows(kids) {
      ReadCell(kids.Keys, node);
      ReadCell(kids.Keys, m);
      LedTo(Pointers(kids.Keys), kids, m, node);
    }
  }

  lemma LedTo(f: Links, kids: Kids, m: Node, n: Node)
    requires ShownBut(f, kids, null) && m in kids && (f[m].next == n || f[m].firstChild == n)
    ensures n in f && f[n].parent != null
  {
    hide ListShown;
    if f[m].firstChild == n {
      FirstOf(f, kids, m);
      ListAt(f, m, kids[m], 0);
    } else {
      OnlyRoots(f, kids, m);
      var i := Hangs(f, kids, m);
      ListAt(f, f[m].parent, kids[f[m].parent], i);
      ListAt(f, f[m].parent, kids[f[m].parent], i + 1);
    }
  }

  lemma FirstOf(f: Links, kids: Kids, m: Node)
    requires ShownBut(f, kids, null) && m in kids && f[m].firstChild != null
    ensures kids[m] != [] && f[m].firstChild == kids[m][0] && ListShown(f, m, kids[m])
  {
  }

  /** Where node stands once sibling has left. */
  lemma Stands(kids: Kids, f: Links, g: Links, node: Node, sibling: Node, p: Node) returns (i: nat)
    requires Lists(kids) && ShownBut(f, kids, null) && node in kids && sibling in kids && node != sibling
    requires f[node].parent == p
    requires var k := Detached(kids, sibling); Lists(k) && IsRoot(k, sibling) && ShownBut(g, k, sibling)
    ensures ParentOf(kids, node) == Some(p) && p in kids && node in kids[p] && node in Detached(kids, sibling)[p]
    ensures var s := Detached(kids, sibling)[p];
            && i == IndexOf(s, node) && i < |s| && node in g && g[node].parent == p
            && g[node].prev == Before(s, i) && g[node].next == Behind(s, i + 1)
            && Behind(s, i) == node && Before(s, i + 1) == node
            && g[node].prev != node && g[node].next != node && g[node].prev != sibling && g[node].next != sibling
            && (g[node].prev != null ==> g[node].prev in kids) && (g[node].next != null ==> g[node].next in kids)
  {
    hide ListShown;
    ParentShown(f, kids, node);
    StillThere(kids, node, sibling, p);
    var k := Detached(kids, sibling);
    i := IndexOf(k[p], node);
    var s := k[p];
    assert ListShown(g, p, s);
    OneOf(k, p);
    hide ShownBut, ParentOf;
    StandsAt(g, p, s, i);
    hide Lists, IsRoot, IndexOf;
  }

  lemma OneOf(kids: Kids, p: Node)
    requires Lists(kids) && p in kids
    ensures AllOnce(kids[p])
  {
  }

  /** A child of one node is no child of another. */
  lemma Elsewhere(kids: Kids, p: Node, i: nat, q: Node)
    requires Lists(kids) && p in kids && q in kids && i < |kids[p]| && q != p
    ensures forall k :: 0 <= k < |kids[q]| ==> kids[q][k] != kids[p][i]
  {
  }

  predicate AllOnce(s: seq<Node>) { forall i, j :: 0 <= i < j < |s| ==> s[i] != s[j] }

  lemma StandsAt(g: Links, p: Node, s: seq<Node>, i: nat)
    requires ListShown(g, p, s) && i < |s| && AllOnce(s)
    ensures s[i] in g && g[s[i]].parent == p && g[s[i]].prev == Before(s, i) && g[s[i]].next == Behind(s, i + 1)
    ensures Behind(s, i) == s[i] && Before(s, i + 1) == s[i] && g[s[i]].prev != s[i] && g[s[i]].next != s[i]
  {
    ListAt(g, p, s, i);
  }

  /** cmark_node_insert_before, once it is clear that sibling may hang there. */
  method PutBefore(node: Node, sibling: Node, ghost kids: Kids, ghost p: Node)
    requires Shows(kids) && node in kids && sibling in kids && node.parent == p && p in kids
    requires CanHang(kids, sibling, p)
    modifies kids.Keys`next, kids.Keys`prev, kids.Keys`parent, kids.Keys`firstChild, kids.Keys`lastChild
    ensures node != sibling ==>
              && p in Detached(kids, sibling) && node in Detached(kids, sibling)[p]
              && Shows(Placed(Detached(kids, sibling), sibling, p, IndexOf(Detached(kids, sibling)[p], node)))
    ensures node == sibling ==> SelfInserted(node, old(node.prev), p)
  {
    hide *;
    ghost var f := Pointers(kids.Keys);
    ReadCell(kids.Keys, node);
    ShowsIs(kids);
    KnowLists(kids);
    NeighboursAreNodes(f, kids, node);
    TakeOut(sibling, kids);
    KnowLists(Detached(kids, sibling));
    ghost var g := Pointers(kids.Keys);
    ghost var i := 0;
    if node != sibling {
      i := Stands(kids, f, g, node, sibling, p);
    }
    ReadCell(kids.Keys, node);
    LinkBefore(node, sibling, kids.Keys);
    if node != sibling {
      PutShows(kids, g, Pointers(kids.Keys), sibling, p, i);
      IsShown(Placed(Detached(kids, sibling), sibling, p, i), kids.Keys);
    }
  }

  lemma ApplyInsertBefore(kids: Kids, n: Node, x: Node)
    requires Asks(kids, InsertBefore(n, x))
    ensures var (op, p) := (InsertBefore(n, x), ParentOf(kids, n));
            && Target(kids, op) == (if p.Some? && CanHang(kids, x, p.value) then p else None)
            && (Target(kids, op).None? ==> Apply(kids, op) == kids)
            && (Target(kids, op).Some? ==>
                 && p.value in Detached(kids, x) && n in Detached(kids, x)[p.value]
                 && Apply(kids, op) == Placed(Detached(kids, x), x, p.value, IndexOf(Detached(kids, x)[p.value], n)))
  {
    hide CanHang, Placed;
    var p := ParentOf(kids, n);
    if p.Some? {
      StillThere(kids, n, x, p.value);
    }
  }

  /** How an operation ends that is asked to put a node beside another one or in its place. */
  ghost predicate Ended(kids: Kids, op: Op, ok: bool)
    requires Asks(kids, op) && !op.Unlink?
    reads Apply(kids, op).Keys`next, Apply(kids, op).Keys`prev, Apply(kids, op).Keys`parent
    reads Apply(kids, op).Keys`firstChild, Apply(kids, op).Keys`lastChild
  {
    (ok <==> Target(kids, op).Some?) && Shows(Apply(kids, op))
  }

  /** What replacing a node by itself leaves: it has no parent, and the list still leads to it. */
  ghost predicate SelfReplaced(node: Node, before: Node?, parent: Node?)
    reads node, before, parent
  {
    && node.parent == null && parent != null
    && if before != null then before.next == node else parent.firstChild == node
  }

  /** A node may hang, with the one it is asked to stand beside, under its parent. */
  ghost predicate Accepted(kids: Kids, node: Node, sibling: Node) {
    ParentOf(kids, node).Some? && CanHang(kids, sibling, ParentOf(kids, node).value)
  }

  /** cmark_node_insert_before. A node that is asked to stand before itself becomes its own neighbour. */
  method NodeInsertBefore(node: Node?, sibling: Node?, ghost kids: Kids) returns (ok: bool)
    requires Shows(kids) && (node != null ==> node in kids) && (sibling != null ==> sibling in kids)
    modifies kids.Keys`next, kids.Keys`prev, kids.Keys`parent, kids.Keys`firstChild, kids.Keys`lastChild
    ensures ok <==> node != null && sibling != null && Accepted(kids, node, sibling)
    ensures node != null && sibling != null && node != sibling ==> Ended(kids, InsertBefore(node, sibling), ok)
    ensures ok && node == sibling ==> SelfInserted(node, old(node.prev), old(node.parent))
    ensures !ok ==> Pointers(kids.Keys) == old(Pointers(kids.Keys))
  {
    hide Acyclic, ShownBut, CanHang, Lists, IsRoot, Pointers, Detached, Sound, Apply, Target, Placed, IndexOf, ParentOf;
    if node == null || sibling == null {
      return false;
    }
    NodePlace(kids, node);
    if node != sibling {
      ApplyInsertBefore(kids, node, sibling);
    }
    if node.parent == null {
      return false;
    }
    ok := SCanContain(node.parent, sibling, kids);
    if ok {
      PutBefore(node, sibling, kids, node.parent);
    }
  }

  lemma ShowsIs(kids: Kids)
    requires Shows(kids)
    ensures Sound(kids) && ShownBut(Pointers(kids.Keys), kids, null)
  {
  }

  lemma IsShown(kids: Kids, ns: set<Node>)
    requires kids.Keys == ns && Sound(kids) && ShownBut(Pointers(ns), kids, null)
    ensures Shows(kids)
  {
  }

  /** cmark_node_insert_after, once it is clear that sibling may hang there. */
  method PutAfter(node: Node, sibling: Node, ghost kids: Kids, ghost p: Node)
    requires Shows(kids) && node in kids && sibling in kids && node.parent == p && p in kids
    requires CanHang(kids, sibling, p)
    modifies kids.Keys`next, kids.Keys`prev, kids.Keys`parent, kids.Keys`firstChild, kids.Keys`lastChild
    ensures node != sibling ==>
              && p in Detached(kids, sibling) && node in Detached(kids, sibling)[p]
              && Shows(Placed(Detached(kids, sibling), sibling, p, IndexOf(Detached(kids, sibling)[p], node) + 1))
    ensures node == sibling ==> SelfLinked(node, null, old(node.next))
  {
    hide *;
    ghost var f := Pointers(kids.Keys);
    ReadCell(kids.Keys, node);
    ShowsIs(kids);
    KnowLists(kids);
    NeighboursAreNodes(f, kids, node);
    TakeOut(sibling, kids);
    KnowLists(Detached(kids, sibling));
    ghost var g := Pointers(kids.Keys);
    ghost var i := 0;
    if node != sibling {
      i := Stands(kids, f, g, node, sibling, p);
    }
    ReadCell(kids.Keys, node);
    LinkAfter(node, sibling, kids.Keys);
    if node != sibling {
      AfterShows(kids, g, Pointers(kids.Keys), node, sibling, p, i);
      IsShown(Placed(Detached(kids, sibling), sibling, p, i + 1), kids.Keys);
    }
  }

  lemma AfterShows(kids: Kids, f: Links, g: Links, node: Node, x: Node, p: Node, i: nat)
    requires x in kids && p in kids && Sound(kids) && CanHang(kids, x, p)
    requires var k := Detached(kids, x); Sound(k) && k.Keys == kids.Keys && IsRoot(k, x) && ShownBut(f, k, x)
    requires i < |Detached(kids, x)[p]| && Before(Detached(kids, x)[p], i + 1) == node && x in f && node in f
    requires Joined(f, g, x, p, node, f[node].next) && f[node].next == Behind(Detached(kids, x)[p], i + 1)
    ensures Placed(Detached(kids, x), x, p, i + 1).Keys == kids.Keys
    ensures Sound(Placed(Detached(kids, x), x, p, i + 1))
    ensures ShownBut(g, Placed(Detached(kids, x), x, p, i + 1), null)
  {
    hide *;
    PutShows(kids, f, g, x, p, i + 1);
  }

  lemma ApplyInsertAfter(kids: Kids, n: Node, x: Node)
    requires Asks(kids, InsertAfter(n, x))
    ensures var (op, p) := (InsertAfter(n, x), ParentOf(kids, n));
            && Target(kids, op) == (if p.Some? && CanHang(kids, x, p.value) then p else None)
            && (Target(kids, op).None? ==> Apply(kids, op) == kids)
            && (Target(kids, op).Some? ==>
                 && p.value in Detached(kids, x) && n in Detached(kids, x)[p.value]
                 && Apply(kids, op) == Placed(Detached(kids, x), x, p.value,
                     IndexOf(Detached(kids, x)[p.value], n) + 1))
  {
    hide CanHang, Placed;
    var p := ParentOf(kids, n);
    if p.Some? {
      StillThere(kids, n, x, p.value);
    }
  }

  /** cmark_node_insert_after. A node that is asked to stand after itself becomes its own neighbour. */
  method NodeInsertAfter(node: Node?, sibling: Node?, ghost kids: Kids) returns (ok: bool)
    requires Shows(kids) && (node != null ==> node in kids) && (sibling != null ==> sibling in kids)
    modifies kids.Keys`next, kids.Keys`prev, kids.Keys`parent, kids.Keys`firstChild, kids.Keys`lastChild
    ensures ok <==> node != null && sibling != null && Accepted(kids, node, sibling)
    ensures ok && node == sibling ==> SelfLinked(node, null, old(node.next))
    ensures node != null && sibling != null && node != sibling ==> Ended(kids, InsertAfter(node, sibling), ok)
    ensures !ok ==> Pointers(kids.Keys) == old(Pointers(kids.Keys))
  {
    hide Acyclic, ShownBut, CanHang, Lists, IsRoot, Pointers, Detached, Sound, Apply, Target, Placed, IndexOf, ParentOf;
    if node == null || sibling == null {
      return false;
    }
    NodePlace(kids, node);
    if node != sibling {
      ApplyInsertAfter(kids, node, sibling);
    }
    if node.parent == null {
      return false;
    }
    ok := SCanContain(node.parent, sibling, kids);
    if ok {
      PutAfter(node, sibling, kids, node.parent);
    }
  }

  /** Replacing is inserting before and unlinking. */
  lemma ReplaceIs(kids: Kids, oldnode: Node, newnode: Node)
    requires Sound(kids) && Asks(kids, Op.Replace(oldnode, newnode))
    requires Target(kids, InsertBefore(oldnode, newnode)).Some?
    ensures Target(kids, Op.Replace(oldnode, newnode)) == Target(kids, InsertBefore(oldnode, newnode))
    ensures Apply(kids, Op.Replace(oldnode, newnode)) == Detached(Apply(kids, InsertBefore(oldnode, newnode)), oldnode)
  {
    hide Acyclic, CanHang;
    var p := Target(kids, InsertBefore(oldnode, newnode)).value;
    StillThere(kids, oldnode, newnode, p);
    DetachSound(kids, newnode);
    ApplySound(kids, InsertBefore(oldnode, newnode));
    var k := Detached(kids, newnode);
    ReplacedIs(k, newnode, oldnode, p, IndexOf(k[p], oldnode));
  }

  /** cmark_node_replace. A node that is asked to replace itself loses its parent, and the list still leads to it. */
  method NodeReplace(oldnode: Node?, newnode: Node?, ghost kids: Kids) returns (ok: bool)
    requires Shows(kids) && (oldnode != null ==> oldnode in kids) && (newnode != null ==> newnode in kids)
    modifies kids.Keys`next, kids.Keys`prev, kids.Keys`parent, kids.Keys`firstChild, kids.Keys`lastChild
    ensures ok <==> oldnode != null && newnode != null && Accepted(kids, oldnode, newnode)
    ensures oldnode != null && newnode != null && oldnode != newnode ==>
              Asks(kids, Op.Replace(oldnode, newnode)) && Ended(kids, Op.Replace(oldnode, newnode), ok)
    ensures ok && oldnode == newnode ==> SelfReplaced(oldnode, old(oldnode.prev), old(oldnode.parent))
    ensures !ok ==> Pointers(kids.Keys) == old(Pointers(kids.Keys))
  {
    hide Acyclic, CanHang, ShownBut, Lists, IsRoot, Pointers, Detached;
    if oldnode != null {
      NodePlace(kids, oldnode);
      ReadCell(kids.Keys, oldnode);
      NeighboursAreNodes(Pointers(kids.Keys), kids, oldnode);
    }
    ok := NodeInsertBefore(oldnode, newnode, kids);
    if !ok {
      return false;
    }
    if oldnode == newnode {
      UnlinkSelf(oldnode, kids.Keys);
    } else {
      ReplaceIs(kids, oldnode, newnode);
      ApplySound(kids, InsertBefore(oldnode, newnode));
      NodeUnlink(oldnode, Apply(kids, InsertBefore(oldnode, newnode)));
    }
    return true;
  }

  /** cmark_node_unlink, for a node that is its own neighbour. */
  method UnlinkSelf(node: Node, ghost ns: set<Node>)
    requires node in ns && node.prev == node && node.next == node && (node.parent != null ==> node.parent in ns)
    modifies ns`next, ns`prev, ns`parent, ns`firstChild, ns`lastChild
    ensures node.parent == null
    ensures forall n :: n in ns ==> n.firstChild == old(n.firstChild) && (n != node ==> n.next == old(n.next))
  {
    ghost var f := Pointers(ns);
    SNodeUnlink(node, ns);
    assert forall n :: n in ns ==> Pointers(ns)[n] == f[n];
    ForgetPlace(node, ns);
  }
}
