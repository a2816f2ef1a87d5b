/** Freeing a subtree, deps/cmark/src/node.c. */
module Freeing {
  import opened NodeForest

  /** n and all that hangs on it. */
  ghost function Below(kids: Kids, n: Node): set<Node> { set x | x in kids && IsAbove(kids, n, x) }

  /** What is left of a forest without n and all that hangs on it. */
  ghost function Pruned(kids: Kids, n: Node): Kids { map m | m in kids && m !in Below(kids, n) :: Without(kids[m], n) }

  lemma BelowGoesDown(kids: Kids, n: Node, m: Node, i: nat)
    requires Lists(kids) && m in Below(kids, n) && i < |kids[m]|
    ensures kids[m][i] in Below(kids, n)
  {
  }

  lemma RootIsAlone(kids: Kids, n: Node, x: Node)
    requires x in kids && IsRoot(kids, x) && IsAbove(kids, n, x)
    ensures n == x
  {
    assert UpClosed(kids, {x});
  }

  lemma ParentIsBelow(kids: Kids, n: Node, x: Node, p: Node)
    requires Lists(kids) && x in Below(kids, n) && x != n && p in kids && x in kids[p]
    ensures p in Below(kids, n)
  {
    forall up: set<Node> | up <= kids.Keys && UpClosed(kids, up) && p in up ensures n in up {
      assert UpClosed(kids, up + {x});
    }
  }

  lemma BelowComesFrom(kids: Kids, n: Node, x: Node) returns (p: Node)
    requires Lists(kids) && x in Below(kids, n) && x != n
    ensures p in Below(kids, n) && x in kids[p]
  {
    var parent := ParentOf(kids, x);
    if parent.None? {
      RootIsAlone(kids, n, x);
    } else {
      p := parent.value;
      ParentIsBelow(kids, n, x, p);
    }
  }

  predicate NextOn(f: Links, s: seq<Node>, i: nat)
    requires i < |s|
  {
    s[i] in f && f[s[i]].next == (if i == |s| - 1 then null else s[i + 1])
  }

  /** The nodes of todo are linked one after the other. */
  predicate TodoLinked(f: Links, todo: seq<Node>) {
    && (forall i :: 0 <= i < |todo| ==> NextOn(f, todo, i))
    && (forall i, j :: 0 <= i < j < |todo| ==> todo[i] != todo[j])
  }

  /** The nodes that are not freed yet: those on the list, and what hangs on nodes that are not freed yet. */
  predicate Waiting(kids: Kids, live: set<Node>, todo: seq<Node>) {
    && live <= kids.Keys
    && (forall i :: 0 <= i < |todo| ==> todo[i] in live)
    && (forall m, i :: m in live && 0 <= i < |kids[m]| ==> kids[m][i] in live && kids[m][i] !in todo)
    && (forall x :: x in live && x !in todo ==> exists m :: m in live && x in kids[m])
  }

  ghost predicate Splicing(f: Links, kids: Kids, live: set<Node>, todo: seq<Node>) {
    f.Keys == kids.Keys && Waiting(kids, live, todo) && TodoLinked(f, todo)
        && forall m :: m in live ==> ChildrenLinked(f, m, kids[m])
  }

  predicate ChildrenLinked(f: Links, m: Node, s: seq<Node>) {
    && m in f && f[m].firstChild == Behind(s, 0) && f[m].lastChild == Before(s, |s|)
    && forall i :: 0 <= i < |s| ==> NextOn(f, s, i)
  }

  /** What one round writes: the children of e take its place on the list. */
  predicate Spliced(f: Links, g: Links, e: Node) {
    && e in f && g.Keys == f.Keys
    && forall n :: n in f ==>
         g[n] == if f[e].lastChild == null then f[n]
                 else if n == e then f[n].(next := f[e].firstChild)
                 else if n == f[e].lastChild then f[n].(next := f[e].next)
                 else f[n]
  }

  lemma TodoSpliced(f: Links, g: Links, todo: seq<Node>, s: seq<Node>)
    requires todo != [] && TodoLinked(f, todo) && ChildrenLinked(f, todo[0], s) && Spliced(f, g, todo[0])
    requires (forall i, j :: 0 <= i < j < |s| ==> s[i] != s[j]) && (forall i :: 0 <= i < |s| ==> s[i] !in todo)
    ensures TodoLinked(g, s + todo[1..]) && g[todo[0]].next == Behind(s + todo[1..], 0)
  {
    var t := s + todo[1..];
    assert NextOn(f, todo, 0);
    forall i | 0 <= i < |t| ensures NextOn(g, t, i) {
      if i < |s| {
        assert NextOn(f, s, i) && s[i] != todo[0];
        assert i < |s| - 1 ==> s[i] != s[|s| - 1];
      } else {
        var k := i - |s| + 1;
        assert t[i] == todo[k] && NextOn(f, todo, k) && todo[k] != todo[0];
        assert s != [] ==> s[|s| - 1] !in todo;
      }
    }
    forall i, j | 0 <= i < j < |t| ensures t[i] != t[j] {
      if i >= |s| {
        assert todo[i - |s| + 1] != todo[j - |s| + 1];
      } else if j >= |s| {
        assert s[i] !in todo;
      }
    }
  }

  lemma WaitingSpliced(kids: Kids, live: set<Node>, todo: seq<Node>)
    requires Lists(kids) && Waiting(kids, live, todo) && todo != [] && forall i :: 0 < i < |todo| ==> todo[i] != todo[0]
    ensures Waiting(kids, live - {todo[0]}, kids[todo[0]] + todo[1..])
  {
    var e := todo[0];
    var s, t, live' := kids[e], kids[e] + todo[1..], live - {e};
    forall m, i | m in live' && 0 <= i < |kids[m]| ensures kids[m][i] in live' && kids[m][i] !in t {
      assert kids[m][i] !in todo && kids[m][i] != e;
    }
    forall i | 0 <= i < |t| ensures t[i] in live' {
      if i < |s| {
        assert s[i] !in todo;
      } else {
        assert t[i] == todo[i - |s| + 1];
      }
    }
    forall x | x in live' && x !in t ensures exists m :: m in live' && x in kids[m] {
      assert x !in todo by {
        forall i | 0 <= i < |todo| ensures todo[i] != x {
          assert i > 0 ==> todo[i] == t[|s| + i - 1];
        }
      }
      var m :| m in live && x in kids[m];
      assert x !in s;
    }
  }

  lemma ChildrenSpliced(f: Links, g: Links, kids: Kids, e: Node, m: Node)
    requires Lists(kids) && e in kids && m in kids && m != e && ChildrenLinked(f, e, kids[e])
    requires ChildrenLinked(f, m, kids[m])
    requires Spliced(f, g, e) && e !in kids[m]
    ensures ChildrenLinked(g, m, kids[m])
  {
    var s := kids[e];
    forall i | 0 <= i < |kids[m]| ensures NextOn(g, kids[m], i) {
      assert NextOn(f, kids[m], i) && kids[m][i] != e;
      assert s != [] ==> kids[m][i] != s[|s| - 1];
    }
  }

  lemma SpliceStep(f: Links, g: Links, kids: Kids, live: set<Node>, todo: seq<Node>)
    requires Lists(kids) && Splicing(f, kids, live, todo) && todo != [] && Spliced(f, g, todo[0])
    ensures Splicing(g, kids, live - {todo[0]}, kids[todo[0]] + todo[1..])
    ensures g[todo[0]].next == Behind(kids[todo[0]] + todo[1..], 0)
  {
    var e := todo[0];
    assert e in live && ChildrenLinked(f, e, kids[e]);
    assert forall i :: 0 <= i < |kids[e]| ==> kids[e][i] !in todo;
    TodoSpliced(f, g, todo, kids[e]);
    WaitingSpliced(kids, live, todo);
    hide TodoLinked, ChildrenLinked, Spliced;
    forall m | m in live - {e} ensures ChildrenLinked(g, m, kids[m]) {
      assert e !in kids[m];
      ChildrenSpliced(f, g, kids, e, m);
    }
  }

  lemma AboveRank(kids: Kids, rank: map<Node, nat>, a: Node, n: Node)
    requires Lists(kids) && Ranks(kids, kids.Keys, rank) && n in kids && IsAbove(kids, a, n)
    ensures a in kids && rank[a] >= rank[n]
  {
    var up := set x | x in kids && rank[x] >= rank[n];
    assert UpClosed(kids, up);
  }

  lemma StartsWaiting(kids: Kids, n: Node)
    requires Sound(kids) && n in kids
    ensures Waiting(kids, Below(kids, n), [n])
  {
    var live := Below(kids, n);
    var rank := RankOf(kids, kids.Keys);
    hide Acyclic;
    Itself(kids, n);
    forall m, i | m in live && 0 <= i < |kids[m]| ensures kids[m][i] in live && kids[m][i] != n {
      BelowGoesDown(kids, n, m, i);
      AboveRank(kids, rank, n, m);
    }
    forall x | x in live && x !in [n] ensures exists m :: m in live && x in kids[m] {
      assert x != n by { assert n in [n]; }
      var p := BelowComesFrom(kids, n, x);
    }
  }

  lemma Highest(ns: set<Node>, rank: map<Node, nat>) returns (n: Node)
    requires ns != {} && ns <= rank.Keys
    ensures n in ns && forall m :: m in ns ==> rank[m] <= rank[n]
  {
    n :| n in ns;
    if ns != {n} {
      var m := Highest(ns - {n}, rank);
      n := if rank[n] < rank[m] then m else n;
    }
  }

  lemma HigherUp(kids: Kids, rank: map<Node, nat>, live: set<Node>, x: Node)
    requires Ranks(kids, kids.Keys, rank) && Waiting(kids, live, []) && x in live
    ensures exists m :: m in live && rank[m] > rank[x]
  {
    var m :| m in live && x in kids[m];
    var i :| 0 <= i < |kids[m]| && kids[m][i] == x;
  }

  /** When nothing is left to do nothing is left. */
  lemma NothingWaits(kids: Kids, live: set<Node>)
    requires Acyclic(kids) && Waiting(kids, live, [])
    ensures live == {}
  {
    var rank := RankOf(kids, kids.Keys);
    if live != {} {
      var x := Highest(live, rank);
      HigherUp(kids, rank, live, x);
    }
  }

  /** One round of the loop of S_free_nodes, but for the freeing. */
  method Splice(e: Node, ghost ns: set<Node>) returns (next: Node?)
    requires e in ns && e.lastChild != e && (e.lastChild != null ==> e.lastChild in ns)
    modifies e`next, (if e.lastChild == null then {} else {e.lastChild})`next
    ensures Spliced(old(Pointers(ns)), Pointers(ns), e) && next == e.next
  {
    if e.lastChild != null {
      e.lastChild.next := e.next;
      e.next := e.firstChild;
    }
    next := e.next;
  }

  lemma SpliceReady(f: Links, kids: Kids, live: set<Node>, todo: seq<Node>)
    requires Lists(kids) && Splicing(f, kids, live, todo) && todo != []
    ensures live <= kids.Keys
    ensures var e := todo[0];
            e in live && e in f && f[e].lastChild != e && (f[e].lastChild != null ==> f[e].lastChild in live)
  {
    var e := todo[0];
    assert e in live && ChildrenLinked(f, e, kids[e]);
    if kids[e] != [] {
      assert kids[e][|kids[e]| - 1] in live && kids[e][|kids[e]| - 1] !in todo;
    }
  }

  method Round(e: Node, ghost kids: Kids, ghost live: set<Node>, ghost todo: seq<Node>) returns (next: Node?)
    requires Lists(kids) && Splicing(Pointers(kids.Keys), kids, live, todo) && todo != [] && todo[0] == e
    modifies live`next
    ensures e in live && e in kids && Splicing(Pointers(kids.Keys), kids, live - {e}, kids[e] + todo[1..])
    ensures next == Behind(kids[e] + todo[1..], 0)
  {
    hide Splicing, Lists, Pointers;
    ghost var f := Pointers(kids.Keys);
    SpliceReady(f, kids, live, todo);
    ReadCell(kids.Keys, e);
    next := Splice(e, kids.Keys);
    ReadCell(kids.Keys, e);
    SpliceStep(f, Pointers(kids.Keys), kids, live, todo);
  }

  /** What S_free_nodes does with nodes, in order: it reads or writes a field of one, or it frees one. */
  datatype Touch = Looks(node: Node) | Frees(node: Node)

  /** A node that was freed is not touched again. */
  predicate Careful(log: seq<Touch>) {
    forall i, j :: 0 <= i < j < |log| && log[i].Frees? ==> log[j].node != log[i].node
  }

  /** The nodes of one round, which are all still there. */
  function Touches(e: Node, lastChild: Node?): seq<Touch> {
    if lastChild == null then [Looks(e), Frees(e)] else [Looks(e), Looks(lastChild), Frees(e)]
  }

  ghost predicate FreedSoFar(log: seq<Touch>, all: set<Node>, live: set<Node>) {
    && Careful(log) && live <= all
    && (forall n :: n in all && n !in live ==> Frees(n) in log)
    && (forall t :: t in log && t.Frees? ==> t.node in all && t.node !in live)
  }

  lemma OneMoreRound(log: seq<Touch>, all: set<Node>, live: set<Node>, e: Node, lastChild: Node?)
    requires FreedSoFar(log, all, live) && e in live && (lastChild != null ==> lastChild in live)
    ensures FreedSoFar(log + Touches(e, lastChild), all, live - {e})
  {
    var more := log + Touches(e, lastChild);
    forall i, j | 0 <= i < j < |more| && more[i].Frees? ensures more[j].node != more[i].node {
      if i < |log| {
        assert Frees(more[i].node) in log;
      }
    }
    assert more[|more| - 1] == Frees(e);
    forall n | n in all && n !in live - {e} ensures Frees(n) in more {
      assert n == e || Frees(n) in log;
    }
  }

  /** S_free_nodes, for one node and what hangs on it: every node of the subtree is freed and no other, and none is
      touched after it was freed, so that none is freed twice. */
  method SFreeNodes(node: Node, ghost kids: Kids) returns (ghost log: seq<Touch>)
    requires Sound(kids) && node in kids && node.next == null
    requires forall m :: m in Below(kids, node) ==> ChildrenLinked(Pointers(kids.Keys), m, kids[m])
    modifies Below(kids, node)`next
    ensures Careful(log) && forall n :: Frees(n) in log <==> n in Below(kids, node)
  {
    hide Acyclic, Splicing, Below, Lists, Pointers, ChildrenLinked, FreedSoFar, Touches;
    ghost var live, todo := Below(kids, node), [node];
    ReadCell(kids.Keys, node);
    StartsSplicing(Pointers(kids.Keys), kids, node);
    log := [];
    NothingFreed(live);
    var e: Node? := node;
    while e != null
      invariant live <= Below(kids, node) && FreedSoFar(log, Below(kids, node), live) && e == Behind(todo, 0)
      invariant Splicing(Pointers(kids.Keys), kids, live, todo)
      decreases live
    {
      SpliceReady(Pointers(kids.Keys), kids, live, todo);
      ReadCell(kids.Keys, e);
      OneMoreRound(log, Below(kids, node), live, e, e.lastChild);
      log := log + Touches(e, e.lastChild);
      var next := Round(e, kids, live, todo);
      live, todo := live - {e}, kids[e] + todo[1..];
      e := next;
    }
    Drained(Pointers(kids.Keys), kids, live, todo);
    AllFreed(log, Below(kids, node));
  }

  lemma NothingFreed(all: set<Node>)
    ensures FreedSoFar([], all, all)
  {
  }

  lemma AllFreed(log: seq<Touch>, all: set<Node>)
    requires FreedSoFar(log, all, {})
    ensures Careful(log) && forall n :: Frees(n) in log <==> n in all
  {
  }

  lemma StartsSplicing(f: Links, kids: Kids, node: Node)
    requires Sound(kids) && node in kids && f.Keys == kids.Keys && f[node].next == null
    requires forall m :: m in Below(kids, node) ==> ChildrenLinked(f, m, kids[m])
    ensures Splicing(f, kids, Below(kids, node), [node])
  {
    hide Sound, Waiting, Below, ChildrenLinked;
    StartsWaiting(kids, node);
    assert NextOn(f, [node], 0);
  }

  lemma Drained(f: Links, kids: Kids, live: set<Node>, todo: seq<Node>)
    requires Acyclic(kids) && Splicing(f, kids, live, todo) && Behind(todo, 0) == null
    ensures live == {}
  {
    NothingWaits(kids, live);
  }

  // ---------------------------------------------------------------- cmark_node_free

  lemma BelowDetached(kids: Kids, n: Node)
    requires Lists(kids) && n in kids
    ensures Below(Detached(kids, n), n) == Below(kids, n)
  {
    var k := Detached(kids, n);
    forall x | x in kids ensures IsAbove(k, n, x) <==> IsAbove(kids, n, x) {
      forall up: set<Node> | up <= kids.Keys && n !in up ensures UpClosed(kids, up) <==> UpClosed(k, up) {
        SameUpClosed(kids, n, up);
      }
    }
  }

  lemma SameUpClosed(kids: Kids, n: Node, up: set<Node>)
    requires n !in up
    ensures UpClosed(kids, up) <==> UpClosed(Detached(kids, n), up)
  {
    if UpClosed(kids, up) {
      DetachedUpClosed(kids, n, up);
    }
    if UpClosed(Detached(kids, n), up) {
      forall m, i | m in kids && 0 <= i < |kids[m]| && kids[m][i] in up ensures m in up {
        WithoutOther(kids[m], kids[m][i], n);
        var j :| 0 <= j < |Without(kids[m], n)| && Without(kids[m], n)[j] == kids[m][i];
        assert Detached(kids, n)[m][j] in up;
      }
    }
  }

  ghost function Cut(kids: Kids, n: Node): Kids { map m | m in kids && m !in Below(kids, n) :: kids[m] }

  /** Taking away a whole subtree whose root hangs nowhere. */
  lemma PruneSound(kids: Kids, n: Node)
    requires Sound(kids) && n in kids && IsRoot(kids, n)
    ensures Sound(Cut(kids, n))
    ensures forall m, i :: m in kids && m !in Below(kids, n) && 0 <= i < |kids[m]| ==> kids[m][i] !in Below(kids, n)
  {
    var k := Cut(kids, n);
    forall m, i | m in kids && m !in Below(kids, n) && 0 <= i < |kids[m]| ensures kids[m][i] !in Below(kids, n) {
      assert kids[m][i] in kids[m];
      if kids[m][i] in Below(kids, n) {
        ParentIsBelow(kids, n, kids[m][i], m);
      }
    }
    var rank := RankOf(kids, kids.Keys);
    hide Acyclic;
    RankedIsAcyclic(k, rank);
  }

  lemma PruneShows(f: Links, g: Links, kids: Kids, n: Node)
    requires Sound(kids) && n in kids && IsRoot(kids, n) && ShownBut(f, kids, n)
    requires g.Keys == f.Keys - Below(kids, n) && forall m :: m in g ==> g[m] == f[m]
    ensures ShownBut(g, Cut(kids, n), null)
  {
    hide Acyclic, ListShown;
    PruneSound(kids, n);
    Itself(kids, n);
    var k := Cut(kids, n);
    forall m | m in k ensures ListShown(g, m, k[m]) {
      SameList(f, g, m, kids[m]);
    }
    forall x | x in k && IsRoot(k, x) ensures Loose(g[x]) {
      forall m, i | m in kids && 0 <= i < |kids[m]| ensures kids[m][i] != x {
        if m in Below(kids, n) {
          BelowGoesDown(kids, n, m, i);
        } else {
          assert x !in k[m];
        }
      }
      assert IsRoot(kids, x);
    }
  }

  lemma SameList(f: Links, g: Links, m: Node, s: seq<Node>)
    requires ListShown(f, m, s) && m in g && (forall i :: 0 <= i < |s| ==> s[i] in g)
    requires forall n :: n in g ==> n in f && g[n] == f[n]
    ensures ListShown(g, m, s)
  {
    forall i | 0 <= i < |s| ensures ChildShown(g, m, s, i) {
      assert ChildShown(f, m, s, i);
    }
  }

  lemma ShownIsLinked(f: Links, m: Node, s: seq<Node>)
    requires ListShown(f, m, s)
    ensures ChildrenLinked(f, m, s)
  {
    forall i | 0 <= i < |s| ensures NextOn(f, s, i) {
      assert ChildShown(f, m, s, i);
    }
  }

  lemma NextForgotten(f: Links, g: Links, kids: Kids, x: Node)
    requires Lists(kids) && ShownBut(f, kids, x) && x in kids && IsRoot(kids, x) && g == f[x := f[x].(next := null)]
    ensures ShownBut(g, kids, x)
  {
    hide ListShown;
    forall m | m in kids ensures ListShown(g, m, kids[m]) {
      NotBeside(kids, x, m);
      ChangedElsewhere(f, g, x, m, kids[m]);
    }
  }

  lemma ChangedElsewhere(f: Links, g: Links, x: Node, m: Node, s: seq<Node>)
    requires ListShown(f, m, s) && x in f && g == f[x := f[x].(next := null)] && forall i :: 0 <= i < |s| ==> s[i] != x
    ensures ListShown(g, m, s)
  {
    forall i | 0 <= i < |s| ensures ChildShown(g, m, s, i) {
      assert ChildShown(f, m, s, i);
    }
  }

  lemma PrunedIs(kids: Kids, n: Node)
    requires Lists(kids) && n in kids
    ensures Pruned(kids, n) == Cut(Detached(kids, n), n)
  {
    BelowDetached(kids, n);
  }

  lemma AllLinked(f: Links, kids: Kids, x: Node)
    requires ShownBut(f, kids, x)
    ensures forall m :: m in kids ==> ChildrenLinked(f, m, kids[m])
  {
    hide ListShown, ChildrenLinked;
    forall m | m in kids ensures ChildrenLinked(f, m, kids[m]) {
      ShownIsLinked(f, m, kids[m]);
    }
  }

  /** cmark_node_free: the node leaves its place, and it and all that hangs on it are freed. */
  method NodeFree(node: Node, ghost kids: Kids) returns (ghost freed: set<Node>)
    requires Shows(kids) && node in kids
    modifies kids.Keys`next, kids.Keys`prev, kids.Keys`parent, kids.Keys`firstChild, kids.Keys`lastChild
    ensures freed == Below(kids, node) && Shows(Pruned(kids, node)) && Pruned(kids, node).Keys == kids.Keys - freed
  {
    hide Sound, ShownBut, Pointers, Below, Pruned, Cut, Detached, Lists, IsRoot, ChildrenLinked;
    ghost var k := Detached(kids, node);
    KnowSound(kids);
    TakeOut(node, kids);
    ghost var f := Pointers(kids.Keys);
    ForgetNext(node, kids.Keys);
    ghost var g := Pointers(kids.Keys);
    KnowLists(k);
    NextForgotten(f, g, k, node);
    AllLinked(g, k, node);
    ReadCell(kids.Keys, node);
    BelowIsIn(k, node);
    ReadCells(kids.Keys);
    ghost var log := SFreeNodes(node, k);
    freed := Below(k, node);
    BelowDetached(kids, node);
    PrunedIs(kids, node);
    Kept(g, kids.Keys, freed);
    PruneShows(g, Pointers(kids.Keys - freed), k, node);
    PruneSound(k, node);
    KeysOfPruned(kids, node);
  }

  method ForgetNext(node: Node, ghost ns: set<Node>)
    requires node in ns
    modifies node`next
    ensures Pointers(ns) == old(Pointers(ns))[node := old(Pointers(ns)[node]).(next := null)] && node.next == null
  {
    node.next := null;
  }

  lemma ReadCells(ns: set<Node>)
    ensures forall n :: n in ns ==> Pointers(ns)[n] == Cell(n.next, n.prev, n.parent, n.firstChild, n.lastChild)
  {
  }

  lemma KnowSound(kids: Kids)
    requires Shows(kids)
    ensures Lists(kids)
  {
  }

  lemma BelowIsIn(kids: Kids, n: Node)
    ensures Below(kids, n) <= kids.Keys
  {
  }

  lemma KeysOfPruned(kids: Kids, n: Node)
    ensures Pruned(kids, n).Keys == kids.Keys - Below(kids, n)
  {
  }

  /** Pointers of nodes that were not freed are what they were. */
  lemma Kept(f: Links, ns: set<Node>, freed: set<Node>)
    requires f.Keys == ns
    requires forall n :: n in ns && n !in freed ==> f[n] == Cell(n.next, n.prev, n.parent, n.firstChild, n.lastChild)
    ensures Pointers(ns - freed).Keys == f.Keys - freed
    ensures forall m :: m in Pointers(ns - freed) ==> Pointers(ns - freed)[m] == f[m]
  {
  }
}
