/** Walking a tree, deps/cmark/src/iterator.c. */
module NodeIterator {
  import opened Optional
  import opened NodeForest

  /** S_is_leaf */
  predicate IsLeaf(k: Kind) {
    k.HtmlBlock? || k.ThematicBreak? || k.CodeBlock? || k.Text? || k.Softbreak? || k.Linebreak? || k.Code?
        || k.HtmlInline?
  }

  datatype Event = Enter(node: Node) | Exit(node: Node) | Done

  // ---------------------------------------------------------------- the walk, recursively

  /** A forest with ranks to recurse on. */
  ghost predicate Ranked(kids: Kids, rank: map<Node, nat>) { Lists(kids) && Ranks(kids, kids.Keys, rank) }

  ghost function Walk(kids: Kids, rank: map<Node, nat>, n: Node): seq<Event>
    requires Ranked(kids, rank) && n in kids
    decreases rank[n], 1, 0
  {
    if IsLeaf(n.kind) then [Enter(n)] else [Enter(n)] + WalkFrom(kids, rank, n, 0) + [Exit(n)]
  }

  /** The children from i on. */
  ghost function WalkFrom(kids: Kids, rank: map<Node, nat>, m: Node, i: nat): seq<Event>
    requires Ranked(kids, rank) && m in kids && i <= |kids[m]|
    decreases rank[m], 0, |kids[m]| - i
  {
    if i == |kids[m]| then [] else Walk(kids, rank, kids[m][i]) + WalkFrom(kids, rank, m, i + 1)
  }

  // ---------------------------------------------------------------- the walk, step by step

  /** Where a walk goes after the children of n, or after n when it is a leaf. */
  ghost function After(kids: Kids, root: Node, n: Node): Event {
    if n == root then Done
    else
      var p := ParentOf(kids, n);
      if p.None? then Done
      else
        NextOf(p.value, kids[p.value], IndexOf(kids[p.value], n))
  }

  /** What follows child i of p. */
  function NextOf(p: Node, s: seq<Node>, i: nat): Event {
    if i + 1 < |s| then Enter(s[i + 1]) else Exit(p)
  }

  ghost function Succ(kids: Kids, root: Node, e: Event): Event
    requires e.Done? || e.node in kids
  {
    match e
    case Done => Done
    case Enter(n) =>
      if IsLeaf(n.kind) then After(kids, root, n)
      else if kids[n] == [] then Exit(n) else Enter(kids[n][0])
    case Exit(n) => After(kids, root, n)
  }

  /** Events of the forest, each followed by its successor. */
  ghost predicate Chain(kids: Kids, root: Node, es: seq<Event>) {
    && (forall i :: 0 <= i < |es| ==> !es[i].Done? && es[i].node in kids)
    && (forall i {:trigger Follows(kids, root, es, i)} :: 0 <= i < |es| - 1 ==> Follows(kids, root, es, i))
  }

  ghost predicate Follows(kids: Kids, root: Node, es: seq<Event>, i: int) {
    0 <= i < |es| - 1 && (es[i].Done? || es[i].node in kids) && Succ(kids, root, es[i]) == es[i + 1]
  }

  lemma ChainConcat(kids: Kids, root: Node, a: seq<Event>, b: seq<Event>)
    requires Chain(kids, root, a) && Chain(kids, root, b)
    requires a != [] && b != [] ==> Succ(kids, root, a[|a| - 1]) == b[0]
    ensures Chain(kids, root, a + b)
  {
    forall i | 0 <= i < |a + b| - 1 ensures Follows(kids, root, a + b, i) {
      if i < |a| - 1 {
        assert Follows(kids, root, a, i);
      } else if i >= |a| {
        assert Follows(kids, root, b, i - |a|);
      }
    }
  }

  ghost function LastOf(n: Node): Event { if IsLeaf(n.kind) then Enter(n) else Exit(n) }

  lemma AfterChild(kids: Kids, root: Node, m: Node, i: nat)
    requires Lists(kids) && m in kids && i < |kids[m]| && kids[m][i] != root
    ensures After(kids, root, kids[m][i]) == if i + 1 < |kids[m]| then Enter(kids[m][i + 1]) else Exit(m)
  {
    var c := kids[m][i];
    var p := ParentOf(kids, c);
    assert c in kids[m];
    var j := IndexOf(kids[p.value], c);
  }

  /** Inside a tree the recursive walk goes from successor to successor. */
  lemma {:induction false} WalkIsChain(kids: Kids, rank: map<Node, nat>, root: Node, n: Node)
    requires Ranked(kids, rank) && n in kids && root in kids && (n == root || rank[n] < rank[root])
    ensures var es := Walk(kids, rank, n);
            es != [] && es[0] == Enter(n) && es[|es| - 1] == LastOf(n) && Chain(kids, root, es)
    decreases rank[n], 1, 0
  {
    if IsLeaf(n.kind) {
      assert Chain(kids, root, [Enter(n)]);
    } else {
      var inner := WalkFrom(kids, rank, n, 0);
      WalkFromIsChain(kids, rank, root, n, 0);
      assert Chain(kids, root, [Enter(n)]) && Chain(kids, root, [Exit(n)]);
      ChainConcat(kids, root, [Enter(n)], inner);
      ChainConcat(kids, root, [Enter(n)] + inner, [Exit(n)]);
    }
  }

  lemma {:induction false} WalkFromIsChain(kids: Kids, rank: map<Node, nat>, root: Node, m: Node, i: nat)
    requires Ranked(kids, rank) && m in kids && i <= |kids[m]| && root in kids && rank[m] <= rank[root]
    ensures var es := WalkFrom(kids, rank, m, i);
            && Chain(kids, root, es)
            && (i == |kids[m]| ==> es == [])
            && (i < |kids[m]| ==> es != [] && es[0] == Enter(kids[m][i]) && Succ(kids, root, es[|es| - 1]) == Exit(m))
    decreases rank[m], 0, |kids[m]| - i
  {
    if i < |kids[m]| {
      var c := kids[m][i];
      var first, rest := Walk(kids, rank, c), WalkFrom(kids, rank, m, i + 1);
      WalkIsChain(kids, rank, root, c);
      WalkFromIsChain(kids, rank, root, m, i + 1);
      AfterChild(kids, root, m, i);
      ChainConcat(kids, root, first, rest);
    }
  }

  /** A whole walk: it starts by entering the root and ends where there is no successor. */
  ghost predicate WholeWalk(kids: Kids, root: Node, es: seq<Event>) {
    && root in kids && Chain(kids, root, es) && es != [] && es[0] == Enter(root)
    && Succ(kids, root, es[|es| - 1]).Done?
  }

  lemma WalkIsWhole(kids: Kids, rank: map<Node, nat>, root: Node)
    requires Ranked(kids, rank) && root in kids
    ensures WholeWalk(kids, root, Walk(kids, rank, root))
  {
    WalkIsChain(kids, rank, root, root);
  }

  /** There is only one whole walk. */
  lemma {:induction false} SamePrefix(kids: Kids, root: Node, a: seq<Event>, b: seq<Event>, k: nat)
    requires WholeWalk(kids, root, a) && WholeWalk(kids, root, b) && k < |a| && k < |b|
    ensures a[k] == b[k]
  {
    if k > 0 {
      SamePrefix(kids, root, a, b, k - 1);
      assert Follows(kids, root, a, k - 1) && Follows(kids, root, b, k - 1);
    }
  }

  lemma NotShorter(kids: Kids, root: Node, a: seq<Event>, b: seq<Event>)
    requires WholeWalk(kids, root, a) && WholeWalk(kids, root, b)
    ensures |a| >= |b|
  {
    if |b| > 0 {
      SamePrefix(kids, root, a, b, if |a| < |b| then |a| - 1 else 0);
    }
    assert |a| < |b| ==> Follows(kids, root, b, |a| - 1);
  }

  lemma WalkIsUnique(kids: Kids, root: Node, a: seq<Event>, b: seq<Event>)
    requires WholeWalk(kids, root, a) && WholeWalk(kids, root, b)
    ensures a == b
  {
    NotShorter(kids, root, a, b);
    NotShorter(kids, root, b, a);
    forall k | 0 <= k < |a| && k < |b| ensures a[k] == b[k] {
      SamePrefix(kids, root, a, b, k);
    }
  }

  /** No event comes twice: it would come again and again, and the walk would not end. */
  lemma {:induction false} NotTwice(kids: Kids, root: Node, es: seq<Event>, i: nat, j: nat)
    requires WholeWalk(kids, root, es) && i < j < |es|
    ensures es[i] != es[j]
    decreases |es| - j
  {
    assert Follows(kids, root, es, i);
    if j + 1 < |es| {
      assert Follows(kids, root, es, j);
      NotTwice(kids, root, es, i + 1, j + 1);
    }
  }

  // ---------------------------------------------------------------- the iterator

  /** cmark_iter: the event that was returned last, and the next one. */
  class Iter {
    const root: Node
    var cur: Event
    var next: Event

    constructor (root: Node)
      ensures this.root == root && next == Enter(root)
    {
      this.root, cur, next := root, Done, Enter(root);
    }

    /** cmark_iter_next; what it looks at must be a node of the forest. */
    method Next(ghost kids: Kids) returns (e: Event)
      requires Shows(kids) && root in kids && (next.Done? || next.node in kids)
      requires next.Done? || next.node == root || next.node.parent != null
      modifies this`cur, this`next
      ensures e == cur == old(next) && next == Succ(kids, root, old(next))
    {
      hide Shows, Succ;
      if !next.Done? {
        SuccPictured(kids, root, next);
      }
      e := next;
      cur := next;
      if e.Done? {
        SuccDone(kids, root);
        return;
      }
      var node := e.node;
      if e.Enter? && !IsLeaf(node.kind) {
        if node.firstChild == null {
          next := Exit(node);
        } else {
          next := Enter(node.firstChild);
        }
      } else if node == root {
        next := Done;
      } else if node.next != null {
        next := Enter(node.next);
      } else {
        assert node.parent != null;
        next := Exit(node.parent);
      }
    }

    /** cmark_iter_reset */
    method Reset(current: Event, ghost kids: Kids)
      requires Shows(kids) && root in kids && (current.Done? || current.node in kids)
      requires current.Done? || current.node == root || current.node.parent != null
      modifies this`cur, this`next
      ensures cur == current && next == Succ(kids, root, current)
    {
      hide Shows, Succ;
      next := current;
      var e := Next(kids);
    }
  }

  /** What the pointers of a node say about the walk. */
  lemma Pictured(kids: Kids, root: Node, n: Node)
    requires Shows(kids) && n in kids
    ensures n.firstChild == if kids[n] == [] then null else kids[n][0]
    ensures n.parent != null ==> n != root ==>
              After(kids, root, n) == if n.next != null then Enter(n.next) else Exit(n.parent)
  {
    hide Acyclic;
    var f := Pointers(kids.Keys);
    assert ListShown(f, n, kids[n]);
    NodePlace(kids, n);
    if n.parent != null {
      var p := n.parent;
      var i := IndexOf(kids[p], n);
      assert ListShown(f, p, kids[p]);
      ListAt(f, p, kids[p], i);
      hide ListShown;
      if n != root {
        AfterChild(kids, root, p, i);
      }
    }
  }

  lemma SuccPictured(kids: Kids, root: Node, e: Event)
    requires Shows(kids) && !e.Done? && e.node in kids && (e.node == root || e.node.parent != null)
    ensures var n := e.node;
            Succ(kids, root, e) ==
            if e.Enter? && !IsLeaf(n.kind) then if n.firstChild == null then Exit(n) else Enter(n.firstChild)
            else if n == root then Done
            else if n.next != null then Enter(n.next) else Exit(n.parent)
  {
    Pictured(kids, root, e.node);
    AfterRoot(kids, root);
    hide Shows, After;
  }

  lemma SuccDone(kids: Kids, root: Node)
    ensures Succ(kids, root, Done) == Done
  {
  }

  lemma AfterRoot(kids: Kids, root: Node)
    ensures After(kids, root, root) == Done
  {
  }

  lemma WalkStep(kids: Kids, root: Node, es: seq<Event>, k: nat)
    requires WholeWalk(kids, root, es) && Hung(kids, root, es) && k < |es|
    ensures es[0] == Enter(root) && !es[k].Done? && es[k].node in kids
    ensures es[k].node == root || ParentOf(kids, es[k].node).Some?
    ensures Succ(kids, root, es[k]) == if k + 1 < |es| then es[k + 1] else Done
  {
    hide Succ, ParentOf;
    if k + 1 < |es| {
      assert Follows(kids, root, es, k);
    } else {
      assert k == |es| - 1 && Succ(kids, root, es[k]).Done?;
    }
  }

  /** The loop of every caller: on a tree that does not change the events are exactly those of the walk. */
  method Events(root: Node, ghost kids: Kids, ghost rank: map<Node, nat>) returns (es: seq<Event>)
    requires Shows(kids) && root in kids && Ranked(kids, rank)
    ensures es == Walk(kids, rank, root)
  {
    hide Shows, Walk, Ranked, Succ, ParentOf, WholeWalk, Hung, Chain;
    ghost var whole := Walk(kids, rank, root);
    WalkIsWhole(kids, rank, root);
    WalkHangs(kids, rank, root, root);
    var iter := new Iter(root);
    es := [];
    assert whole != [] && whole[0] == Enter(root) by { NotEmpty(kids, root, whole); }
    while !iter.next.Done?
      invariant |es| <= |whole| && es == whole[..|es|] && iter.root == root
      invariant iter.next == if |es| == |whole| then Done else whole[|es|]
      decreases |whole| - |es|
    {
      ghost var k := |es|;
      WalkStep(kids, root, whole, k);
      if whole[k].node != root {
        HasParent(kids, whole[k].node);
      }
      var e := iter.Next(kids);
      es := es + [e];
    }
    if |es| < |whole| {
      WalkStep(kids, root, whole, |es|);
    }
  }

  lemma NotEmpty(kids: Kids, root: Node, es: seq<Event>)
    requires WholeWalk(kids, root, es)
    ensures es != [] && es[0] == Enter(root)
  {
  }

  /** Every node but the root hangs somewhere. */
  ghost predicate Hung(kids: Kids, root: Node, es: seq<Event>) {
    forall i :: 0 <= i < |es| ==>
        !es[i].Done? && es[i].node in kids && (es[i].node == root || ParentOf(kids, es[i].node).Some?)
  }

  lemma {:induction false} WalkHangs(kids: Kids, rank: map<Node, nat>, root: Node, n: Node)
    requires Ranked(kids, rank) && n in kids && (n == root || ParentOf(kids, n).Some?)
    ensures Hung(kids, root, Walk(kids, rank, n))
    decreases rank[n], 1, 0
  {
    if !IsLeaf(n.kind) {
      WalkFromHangs(kids, rank, root, n, 0);
    }
    hide WalkFrom, ParentOf, Ranked;
  }

  lemma {:induction false} WalkFromHangs(kids: Kids, rank: map<Node, nat>, root: Node, m: Node, i: nat)
    requires Ranked(kids, rank) && m in kids && i <= |kids[m]|
    ensures Hung(kids, root, WalkFrom(kids, rank, m, i))
    decreases rank[m], 0, |kids[m]| - i
  {
    if i < |kids[m]| {
      assert kids[m][i] in kids[m] && ParentOf(kids, kids[m][i]).Some?;
      WalkHangs(kids, rank, root, kids[m][i]);
      WalkFromHangs(kids, rank, root, m, i + 1);
    }
    hide Walk, ParentOf, Ranked;
  }

  lemma HasParent(kids: Kids, n: Node)
    requires Shows(kids) && n in kids && ParentOf(kids, n).Some?
    ensures n.parent != null
  {
    NodePlace(kids, n);
  }

  // ---------------------------------------------------------------- taking a leaf away

  /** The forest without a node that has no children. */
  function Removed(kids: Kids, x: Node): Kids { map m | m in kids && m != x :: Without(kids[m], x) }

  lemma ParentIs(kids: Kids, n: Node, p: Node, i: nat)
    requires Lists(kids) && At(kids, n, p, i)
    ensures ParentOf(kids, n) == Some(p) && n in kids[p] && IndexOf(kids[p], n) == i
  {
    assert n in kids[p];
    var q := ParentOf(kids, n).value;
    var j := IndexOf(kids[q], n);
  }

  lemma RemovedLists(kids: Kids, x: Node, p: Node, i: nat)
    requires Lists(kids) && At(kids, x, p, i) && x in kids && kids[x] == [] && x != p
    ensures Lists(Removed(kids, x)) && p in Removed(kids, x)
    ensures var s, t := kids[p], Removed(kids, x)[p];
            |t| == |s| - 1 && forall j :: 0 <= j < |t| ==> t[j] == s[if j < i then j else j + 1]
    ensures forall m :: m in kids && m != p && m != x ==> Removed(kids, x)[m] == kids[m]
  {
    DetachedIs(kids, x, p, i);
    Dropped(kids[p], i);
    DropLists(kids, p, i, Detached(kids, x)[p]);
    assert forall m :: m in Removed(kids, x) ==> Removed(kids, x)[m] == Detached(kids, x)[m];
  }

  /** What follows an element of a list that loses another. */
  lemma NextKept(s: seq<Node>, t: seq<Node>, i: nat, j: nat)
    requires i < |s| && j < |s| && i != j && |t| == |s| - 1
    requires forall k :: 0 <= k < |t| ==> t[k] == s[if k < i then k else k + 1]
    ensures var j' := if i < j then j - 1 else j;
            && j' < |t| && t[j'] == s[j]
            && (j' + 1 < |t| <==> (j + 1 < |s| && j + 1 != i) || (j + 1 == i && j + 2 < |s|))
            && (j' + 1 < |t| ==> t[j' + 1] == if j + 1 == i then s[j + 2] else s[j + 1])
  {
  }

  /** Where a node stands that is not the one taken away. */
  lemma StandsStill(kids: Kids, x: Node, p: Node, i: nat, n: Node, q: Node, j: nat)
    requires Lists(kids) && At(kids, x, p, i) && x in kids && kids[x] == [] && x != p && n != x && At(kids, n, q, j)
    ensures var kids', j' := Removed(kids, x), if q == p && i < j then j - 1 else j;
            && Lists(kids') && ParentOf(kids', n) == Some(q) && n in kids'[q] && IndexOf(kids'[q], n) == j'
            && (j' + 1 < |kids'[q]| <==>
                (j + 1 < |kids[q]| && !(q == p && j + 1 == i)) || (q == p && j + 1 == i && j + 2 < |kids[q]|))
            && (j' + 1 < |kids'[q]| ==>
                kids'[q][j' + 1] == if q == p && j + 1 == i then kids[q][j + 2] else kids[q][j + 1])
  {
    hide Lists, Removed, ParentOf, IndexOf;
    RemovedLists(kids, x, p, i);
    var kids', j' := Removed(kids, x), if q == p && i < j then j - 1 else j;
    InRemoved(kids, x, q);
    if q == p {
      NextKept(kids[p], kids'[p], i, j);
    }
    ParentIs(kids', n, q, j');
  }

  lemma AfterRemoved(kids: Kids, root: Node, x: Node, p: Node, i: nat, n: Node)
    requires Lists(kids) && At(kids, x, p, i) && x in kids && kids[x] == [] && x != p && x != root
    requires n in kids && n != x && (n == root || ParentOf(kids, n).Some?)
    ensures n == root || ParentOf(Removed(kids, x), n) == ParentOf(kids, n)
    ensures After(Removed(kids, x), root, n) ==
            if After(kids, root, n) == Enter(x) then After(kids, root, x) else After(kids, root, n)
  {
    if n != root {
      var q := ParentOf(kids, n).value;
      var j := IndexOf(kids[q], n);
      AfterAt(kids, root, x, p, i);
      OnlyThere(kids, p, i, q, j);
      StandsStill(kids, x, p, i, n, q, j);
      hide After, ParentOf, IndexOf, Lists, Removed;
      AfterAt(Removed(kids, x), root, n, q, if q == p && i < j then j - 1 else j);
      AfterAt(kids, root, n, q, j);
    }
  }

  lemma AfterAt(kids: Kids, root: Node, n: Node, p: Node, i: nat)
    requires Lists(kids) && At(kids, n, p, i) && n != root
    ensures After(kids, root, n) == NextOf(p, kids[p], i)
  {
    ParentIs(kids, n, p, i);
    hide ParentOf, IndexOf, Lists;
  }

  lemma OnlyThere(kids: Kids, p: Node, i: nat, q: Node, j: nat)
    requires Lists(kids) && p in kids && q in kids && i < |kids[p]| && j < |kids[q]|
    ensures j + 1 < |kids[q]| && !(q == p && j + 1 == i) ==> kids[q][j + 1] != kids[p][i]
  {
    if q != p {
      Elsewhere(kids, p, i, q);
    } else {
      Once(kids, p, i);
    }
  }

  lemma Once(kids: Kids, p: Node, i: nat)
    requires Lists(kids) && p in kids && i < |kids[p]|
    ensures forall k :: 0 <= k < |kids[p]| && k != i ==> kids[p][k] != kids[p][i]
  {
  }

  /** A successor changes only where it was the entry of the leaf, and then it is what came after the leaf. */
  lemma SuccRemoved(kids: Kids, root: Node, x: Node, p: Node, i: nat, e: Event)
    requires Lists(kids) && At(kids, x, p, i) && x in kids && kids[x] == [] && x != p && x != root && IsLeaf(x.kind)
    requires !e.Done? && e.node in kids && e.node != x && (e.node == root || ParentOf(kids, e.node).Some?)
    ensures Succ(Removed(kids, x), root, e) ==
            if Succ(kids, root, e) == Enter(x) then Succ(kids, root, Enter(x)) else Succ(kids, root, e)
  {
    AfterRemoved(kids, root, x, p, i, e.node);
    RemovedLists(kids, x, p, i);
    if e.Enter? && !IsLeaf(e.node.kind) {
      ParentIs(kids, x, p, i);
      assert Succ(kids, root, Enter(x)) == if i + 1 < |kids[p]| then Enter(kids[p][i + 1]) else Exit(p);
      if e.node == p {
        Once(kids, p, i);
      } else {
        Elsewhere(kids, p, i, e.node);
      }
    }
  }

  /** A node without children that is a leaf is never left. */
  lemma NeverLeft(kids: Kids, root: Node, es: seq<Event>, j: nat, x: Node)
    requires Lists(kids) && WholeWalk(kids, root, es) && Hung(kids, root, es) && j < |es| && x in kids
    requires IsLeaf(x.kind) && kids[x] == []
    ensures es[j] != Exit(x)
  {
    if j > 0 {
      WalkStep(kids, root, es, j - 1);
      hide Lists;
    }
  }

  /** The walk of the tree without the leaf is the walk without its entry. */
  lemma RemoveFromWalk(kids: Kids, root: Node, es: seq<Event>, k: nat, x: Node)
    requires Lists(kids) && WholeWalk(kids, root, es) && Hung(kids, root, es) && k < |es| && es[k] == Enter(x)
    requires x != root && IsLeaf(x.kind) && x in kids && kids[x] == []
    ensures var rest := es[..k] + es[k + 1..];
            Lists(Removed(kids, x)) && WholeWalk(Removed(kids, x), root, rest) && Hung(Removed(kids, x), root, rest)
  {
    var p := ParentOf(kids, x).value;
    var i := IndexOf(kids[p], x);
    RemovedLists(kids, x, p, i);
    var kids', rest := Removed(kids, x), es[..k] + es[k + 1..];
    hide Lists, ParentOf, Removed, Without, IndexOf, WholeWalk, Hung, Succ, After;
    WalkStep(kids, root, es, 0);
    WalkStep(kids, root, es, k);
    assert rest[0] == es[0] == Enter(root);
    forall j | 0 <= j < |rest| ensures Right(kids', root, rest, j) {
      RestIsRight(kids, root, es, k, x, p, i, j);
    }
    hide Right;
    InRemoved(kids, x, root);
    WholeFrom(kids', root, rest);
  }

  lemma RestIsRight(kids: Kids, root: Node, es: seq<Event>, k: nat, x: Node, p: Node, i: nat, j: nat)
    requires Lists(kids) && WholeWalk(kids, root, es) && Hung(kids, root, es) && k < |es| && es[k] == Enter(x)
    requires x != root && IsLeaf(x.kind) && x in kids && kids[x] == [] && At(kids, x, p, i) && x != p && j + 1 < |es|
    ensures Right(Removed(kids, x), root, es[..k] + es[k + 1..], j)
  {
    hide Lists, ParentOf, Removed, Without, IndexOf, WholeWalk, Hung, Succ, After, At;
    var rest := es[..k] + es[k + 1..];
    var j0 := if j < k then j else j + 1;
    assert rest[j] == es[j0] && (j + 1 < |rest| ==> rest[j + 1] == if j + 1 < k then es[j + 1] else es[j + 2]);
    WalkStep(kids, root, es, k);
    WalkStep(kids, root, es, j0);
    NotLeft(kids, root, es, k, j0, x);
    NeverLeft(kids, root, es, j0, x);
    InRemoved(kids, x, es[j0].node);
    AfterRemoved(kids, root, x, p, i, es[j0].node);
    SuccRemoved(kids, root, x, p, i, es[j0]);
  }

  lemma InRemoved(kids: Kids, x: Node, n: Node)
    requires n in kids && n != x
    ensures n in Removed(kids, x)
  {
  }

  /** A leaf occurs once in a walk, and nothing else leads to it than what comes before. */
  lemma NotLeft(kids: Kids, root: Node, es: seq<Event>, k: nat, j: nat, x: Node)
    requires WholeWalk(kids, root, es) && k < |es| && es[k] == Enter(x) && IsLeaf(x.kind) && j < |es| && j != k
    ensures es[j] != Enter(x)
    ensures j + 1 < |es| && j + 1 != k ==> es[j + 1] != Enter(x)
  {
    NotTwice(kids, root, es, if j < k then j else k, if j < k then k else j);
    if j + 1 < |es| && j + 1 != k {
      NotTwice(kids, root, es, if j + 1 < k then j + 1 else k, if j + 1 < k then k else j + 1);
    }
  }

  /** All there is to say about one event of a walk. */
  ghost predicate Right(kids: Kids, root: Node, es: seq<Event>, j: int) {
    && 0 <= j < |es| && !es[j].Done? && es[j].node in kids && (es[j].node == root || ParentOf(kids, es[j].node).Some?)
    && Succ(kids, root, es[j]) == if j + 1 < |es| then es[j + 1] else Done
  }

  lemma WholeFrom(kids: Kids, root: Node, es: seq<Event>)
    requires forall j :: 0 <= j < |es| ==> Right(kids, root, es, j)
    requires root in kids && es != [] && es[0] == Enter(root)
    ensures WholeWalk(kids, root, es) && Hung(kids, root, es)
  {
    hide Succ, ParentOf;
    assert Right(kids, root, es, |es| - 1);
    forall i | 0 <= i < |es| - 1 ensures Follows(kids, root, es, i) {
      assert Right(kids, root, es, i);
    }
    forall i | 0 <= i < |es|
      ensures !es[i].Done? && es[i].node in kids && (es[i].node == root || ParentOf(kids, es[i].node).Some?)
    {
      assert Right(kids, root, es, i);
    }
  }
}
