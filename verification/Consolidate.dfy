/** Merging neighbouring text nodes while walking the tree, cmark_consolidate_text_nodes of
    deps/cmark/src/iterator.c. */
module Consolidate {
  import opened Bytes
  import opened NodeForest
  import opened Freeing
  import opened NodeIterator

  // ---------------------------------------------------------------- what a tree says

  /** Texts octet by octet, and every other event as it is. */
  datatype Item = Octet(b: byte) | Other(e: Event)

  predicate IsText(e: Event) { e.Enter? && e.node.kind.Text? }

  type Texts = map<Node, seq<byte>>

  ghost function Literals(ns: set<Node>): (t: Texts)
    reads ns`literal
    ensures t.Keys == ns
  {
    map n | n in ns :: n.literal
  }

  function Octets(s: seq<byte>): seq<Item> { seq(|s|, i requires 0 <= i < |s| => Octet(s[i])) }

  function ItemsOf(e: Event, texts: Texts): seq<Item> {
    if IsText(e) && e.node in texts then Octets(texts[e.node]) else [Other(e)]
  }

  function Content(es: seq<Event>, texts: Texts): seq<Item> {
    if es == [] then [] else Content(es[..|es| - 1], texts) + ItemsOf(es[|es| - 1], texts)
  }

  /** Two texts side by side: neighbours in the walk, since a text has nothing below it. */
  predicate Pair(es: seq<Event>, i: int) { 0 <= i < |es| - 1 && IsText(es[i]) && IsText(es[i + 1]) }

  lemma {:induction false} ContentConcat(a: seq<Event>, b: seq<Event>, texts: Texts)
    ensures Content(a + b, texts) == Content(a, texts) + Content(b, texts)
  {
    hide ItemsOf;
    if b == [] {
      assert a + b == a;
      assert Content(a, texts) + [] == Content(a, texts);
    } else {
      var init, last := b[..|b| - 1], b[|b| - 1];
      assert (a + b)[..|a + b| - 1] == a + init;
      ContentConcat(a, init, texts);
      Assoc(Content(a, texts), Content(init, texts), ItemsOf(last, texts));
    }
  }

  lemma ContentOne(e: Event, texts: Texts)
    ensures Content([e], texts) == ItemsOf(e, texts)
  {
    assert [e][..0] == [];
  }

  /** Content looks at no text but those of the events. */
  lemma {:induction false} ContentSame(es: seq<Event>, t: Texts, u: Texts)
    requires forall i :: 0 <= i < |es| && IsText(es[i]) ==>
              es[i].node in t && es[i].node in u && t[es[i].node] == u[es[i].node]
    ensures Content(es, t) == Content(es, u)
  {
    if es != [] {
      ContentSame(es[..|es| - 1], t, u);
      assert es[|es| - 1] == es[|es| - 1];
    }
  }

  lemma OctetsConcat(a: seq<byte>, b: seq<byte>)
    ensures Octets(a + b) == Octets(a) + Octets(b)
  {
  }

  lemma ContentOf(a: seq<Event>, x: Event, b: seq<Event>, t: Texts)
    ensures Content(a + [x] + b, t) == Content(a, t) + ItemsOf(x, t) + Content(b, t)
  {
    ContentConcat(a, [x], t);
    ContentConcat(a + [x], b, t);
    ContentOne(x, t);
  }

  lemma Regroup<T>(a: seq<T>, x: seq<T>, y: seq<T>, b: seq<T>)
    ensures a + (x + y) + b == a + x + (y + b)
  {
  }

  /** The text of the second of two neighbours moves into the first. */
  lemma ContentMerged(a: seq<Event>, cur: Node, tmp: Node, b: seq<Event>, t: Texts, u: Texts)
    requires cur.kind.Text? && tmp.kind.Text? && cur in t && tmp in t && cur in u && u[cur] == t[cur] + t[tmp]
    requires Content(a, t) == Content(a, u) && Content(b, t) == Content(b, u)
    ensures Content(a + [Enter(cur)] + b, u) == Content(a + [Enter(cur)] + ([Enter(tmp)] + b), t)
  {
    hide Content, Octets;
    ContentOf(a, Enter(cur), b, u);
    ContentOf(a, Enter(cur), [Enter(tmp)] + b, t);
    ContentOf([], Enter(tmp), b, t);
    assert [] + [Enter(tmp)] + b == [Enter(tmp)] + b;
    EmptyContent(t);
    assert [] + Octets(t[tmp]) + Content(b, t) == Octets(t[tmp]) + Content(b, t);
    OctetsConcat(t[cur], t[tmp]);
    Regroup(Content(a, t), Octets(t[cur]), Octets(t[tmp]), Content(b, t));
  }

  lemma EmptyContent(t: Texts)
    ensures Content([], t) == []
  {
  }

  /** Leaving out event k of a walk on which the text before it takes over its text. */
  lemma MergeKeepsContent(es: seq<Event>, k: nat, t: Texts, u: Texts, cur: Node, tmp: Node)
    requires 0 < k < |es| && es[k - 1] == Enter(cur) && es[k] == Enter(tmp) && cur.kind.Text? && tmp.kind.Text?
    requires cur in t && tmp in t && u.Keys == t.Keys - {tmp} && cur in u && u[cur] == t[cur] + t[tmp]
    requires forall n :: n in u && n != cur ==> u[n] == t[n]
    requires forall i :: 0 <= i < |es| ==>
              (IsText(es[i]) ==> es[i].node in t) && (es[i] == Enter(cur) ==> i == k - 1)
                  && (es[i] == Enter(tmp) ==> i == k)
    ensures Content(es[..k] + es[k + 1..], u) == Content(es, t)
  {
    hide Content;
    var a, b := es[..k - 1], es[k + 1..];
    assert es == a + [Enter(cur)] + ([Enter(tmp)] + b);
    assert es[..k] + es[k + 1..] == a + [Enter(cur)] + b;
    forall i | 0 <= i < |a| && IsText(a[i]) ensures a[i].node in t && a[i].node in u && t[a[i].node] == u[a[i].node] {
      assert a[i] == es[i] && a[i] == Enter(a[i].node);
    }
    forall i | 0 <= i < |b| && IsText(b[i]) ensures b[i].node in t && b[i].node in u && t[b[i].node] == u[b[i].node] {
      assert b[i] == es[k + 1 + i] && b[i] == Enter(b[i].node);
    }
    ContentSame(a, t, u);
    ContentSame(b, t, u);
    ContentMerged(a, cur, tmp, b, t, u);
  }

  // ---------------------------------------------------------------- one step of the walk

  /** Nothing hangs on a text. */
  predicate TextsAreLeaves(kids: Kids) { forall n :: n in kids && n.kind.Text? ==> kids[n] == [] }

  /** k events of the walk have been returned, and the iterator holds the next one. */
  ghost predicate OnWalk(kids: Kids, root: Node, es: seq<Event>, k: nat, next: Event) {
    && Lists(kids) && TextsAreLeaves(kids) && WholeWalk(kids, root, es) && Hung(kids, root, es) && k <= |es|
    && next == if k == |es| then Done else es[k]
  }

  lemma MayGoOn(kids: Kids, root: Node, es: seq<Event>, k: nat, next: Event)
    requires Shows(kids) && OnWalk(kids, root, es, k, next)
    ensures root in kids && (next.Done? || (next.node in kids && (next.node == root || next.node.parent != null)))
    ensures k < |es| ==> OnWalk(kids, root, es, k + 1, Succ(kids, root, next))
  {
    hide Shows;
    if k < |es| {
      WalkStep(kids, root, es, k);
      if es[k].node != root {
        HasParent(kids, es[k].node);
      }
    }
  }

  /** The text after a text of the walk is its next node. */
  lemma NextText(kids: Kids, root: Node, es: seq<Event>, k: nat, next: Event)
    requires Shows(kids) && OnWalk(kids, root, es, k, next) && k > 0 && IsText(es[k - 1]) && es[k - 1].node != root
    ensures var n := es[k - 1].node;
            && n in kids && (n.next != null ==> n.next in kids && next == Enter(n.next))
            && (n.next == null ==> next.Exit?)
  {
    hide Shows;
    var n := es[k - 1].node;
    WalkStep(kids, root, es, k - 1);
    HasParent(kids, n);
    Pictured(kids, root, n);
    if k < |es| {
      WalkStep(kids, root, es, k);
    }
  }

  lemma JustItself(kids: Kids, x: Node)
    requires Lists(kids) && x in kids && kids[x] == []
    ensures Below(kids, x) == {x} && Pruned(kids, x) == Removed(kids, x)
  {
    Itself(kids, x);
    var others := kids.Keys - {x};
    assert UpClosed(kids, others);
    forall y | y in kids && y != x ensures !IsAbove(kids, x, y) {
      assert y in others && x !in others;
    }
  }

  lemma RemovedStays(kids: Kids, root: Node, es: seq<Event>, k: nat, x: Node)
    requires k < |es| && es[k] == Enter(x) && OnWalk(kids, root, es, k, Enter(x))
    requires x.kind.Text? && x != root
    ensures var rest := es[..k] + es[k + 1..];
            OnWalk(Removed(kids, x), root, rest, k, if k + 1 == |es| then Done else es[k + 1])
  {
    WalkStep(kids, root, es, k);
    RemoveFromWalk(kids, root, es, k, x);
    hide WholeWalk, Hung, Lists;
    forall n | n in Removed(kids, x) && n.kind.Text? ensures Removed(kids, x)[n] == [] {
    }
  }

  // ---------------------------------------------------------------- the loops

  lemma TakeContent(kids: Kids, root: Node, es: seq<Event>, k: nat, cur: Node, tmp: Node, t: Texts, u: Texts)
    requires OnWalk(kids, root, es, k, Enter(tmp)) && 0 < k < |es| && es[k - 1] == Enter(cur) && es[k] == Enter(tmp)
    requires cur.kind.Text? && tmp.kind.Text? && t.Keys == kids.Keys && u.Keys == kids.Keys - {tmp}
    requires cur in t && tmp in t && cur in u && u[cur] == t[cur] + t[tmp]
    requires forall n :: n in u && n != cur ==> u[n] == t[n]
    ensures Content(es[..k] + es[k + 1..], u) == Content(es, t)
  {
    hide Content, WholeWalk, Hung, Lists, TextsAreLeaves, Succ, ParentOf;
    forall i | 0 <= i < |es|
      ensures (IsText(es[i]) ==> es[i].node in t) && (es[i] == Enter(cur) ==> i == k - 1)
      ensures (es[i] == Enter(tmp) ==> i == k)
    {
      WalkStep(kids, root, es, i);
      if es[i] == es[k - 1] {
        OnlyOnce(kids, root, es, i, k - 1);
      }
      if es[i] == es[k] {
        OnlyOnce(kids, root, es, i, k);
      }
    }
    MergeKeepsContent(es, k, t, u, cur, tmp);
  }

  lemma OnlyOnce(kids: Kids, root: Node, es: seq<Event>, i: nat, j: nat)
    requires WholeWalk(kids, root, es) && i < |es| && j < |es| && es[i] == es[j]
    ensures i == j
  {
    if i < j {
      NotTwice(kids, root, es, i, j);
    } else if j < i {
      NotTwice(kids, root, es, j, i);
    }
  }

  /** After tmp is gone cur is followed by what followed tmp. */
  lemma FollowsNow(kids: Kids, root: Node, es: seq<Event>, k: nat, next: Event, cur: Node, after: Node?)
    requires Shows(kids) && OnWalk(kids, root, es, k, next) && k > 0 && es[k - 1] == Enter(cur) && cur.kind.Text?
    requires cur != root
    requires if after == null then next.Exit? else next == Enter(after)
    ensures cur.next == after
  {
    NextText(kids, root, es, k, next);
  }

  /** What is known about the text that is taken up. */
  lemma Taken(kids: Kids, root: Node, es: seq<Event>, k: nat, next: Event, cur: Node, tmp: Node)
    requires Shows(kids) && OnWalk(kids, root, es, k, next) && 0 < k <= |es| && es[k - 1] == Enter(cur)
    requires cur.kind.Text? && cur != root && cur.next == tmp && tmp.kind.Text?
    ensures k < |es| && es[k] == next == Enter(tmp) && cur in kids && tmp in kids && kids[tmp] == [] && Lists(kids)
    ensures cur != tmp
    ensures tmp != root && tmp.parent != null && root in kids
    ensures Succ(kids, root, Enter(tmp)) == if k + 1 == |es| then Done else es[k + 1]
    ensures Succ(kids, root, Enter(tmp)) == if tmp.next == null then Exit(tmp.parent) else Enter(tmp.next)
  {
    assert IsText(es[k - 1]);
    NextText(kids, root, es, k, next);
    WalkStep(kids, root, es, k);
    if tmp == root {
      OnlyOnce(kids, root, es, k, 0);
    }
    HasParent(kids, tmp);
    Pictured(kids, root, tmp);
    OnlyOnceIf(kids, root, es, k - 1, k);
  }

  lemma OnlyOnceIf(kids: Kids, root: Node, es: seq<Event>, i: nat, j: nat)
    requires WholeWalk(kids, root, es) && i < j < |es|
    ensures es[i] != es[j]
  {
    NotTwice(kids, root, es, i, j);
  }

  // ---------------------------------------------------------------- a text as root

  lemma NextPictured(kids: Kids, n: Node, p: Node, i: nat)
    requires Shows(kids) && At(kids, n, p, i)
    ensures n.next == if i + 1 < |kids[p]| then kids[p][i + 1] else null
  {
    var f := Pointers(kids.Keys);
    assert ListShown(f, p, kids[p]);
    ListAt(f, p, kids[p], i);
  }

  lemma RootHasNoNext(kids: Kids, n: Node)
    requires Shows(kids) && n in kids && IsRoot(kids, n)
    ensures n.next == null
  {
    ReadCell(kids.Keys, n);
    hide Sound, ListShown, IsRoot, Pointers;
  }

  lemma HasPlace(kids: Kids, n: Node) returns (p: Node, i: nat)
    requires Shows(kids) && n in kids && n.next != null
    ensures At(kids, n, p, i) && i + 1 < |kids[p]| && kids[p][i + 1] == n.next
  {
    hide Shows, IsRoot;
    NodePlace(kids, n);
    if n.parent == null {
      RootHasNoNext(kids, n);
    }
    p := n.parent;
    i := IndexOf(kids[p], n);
    NextPictured(kids, n, p, i);
  }

  /** A text is all there is to the walk that begins with it. */
  lemma TextWalk(kids: Kids, root: Node, es: seq<Event>, k: nat, next: Event)
    requires OnWalk(kids, root, es, k, next) && root.kind.Text?
    ensures root in kids && es == [Enter(root)] && k <= 1 && (k == 1 ==> next.Done?)
  {
    WalkStep(kids, root, es, 0);
    AfterRoot(kids, root);
    hide After, ParentOf;
  }

  lemma TextWalkStays(kids: Kids, root: Node)
    requires Lists(kids) && TextsAreLeaves(kids) && root in kids && root.kind.Text?
    ensures OnWalk(kids, root, [Enter(root)], 1, Done)
  {
    AfterRoot(kids, root);
  }

  lemma RemovedLeaves(kids: Kids, x: Node)
    requires TextsAreLeaves(kids)
    ensures TextsAreLeaves(Removed(kids, x))
  {
  }

  /** A text next to the root is no node of its tree, and goes. */
  lemma RemovedBehind(kids: Kids, root: Node, es: seq<Event>, k: nat, next: Event, x: Node, p: Node, i: nat)
    requires OnWalk(kids, root, es, k, next) && 0 < k <= |es| && es[k - 1] == Enter(root) && root.kind.Text?
    requires At(kids, root, p, i) && i + 1 < |kids[p]| && kids[p][i + 1] == x && x.kind.Text?
    ensures x in kids && kids[x] == [] && Lists(kids) && x != root && next.Done?
    ensures OnWalk(Removed(kids, x), root, es, k, next) && At(Removed(kids, x), root, p, i)
    ensures var s, t := kids[p], Removed(kids, x)[p];
            |t| == |s| - 1 && forall j :: 0 <= j < |t| ==> t[j] == s[if j <= i then j else j + 1]
    ensures forall m :: m in kids && m != p && m != x ==> Removed(kids, x)[m] == kids[m]
  {
    TextWalk(kids, root, es, k, next);
    RemovedLists(kids, x, p, i + 1);
    RemovedLeaves(kids, x);
    TextWalkStays(Removed(kids, x), root);
  }

  // ---------------------------------------------------------------- the inner loop

  /** The events without the text that was taken up, which is in the walk unless cur is its root. */
  function Taking(es: seq<Event>, k: nat, isRoot: bool): seq<Event>
    requires k < |es| || isRoot
  {
    if isRoot then es else es[..k] + es[k + 1..]
  }

  lemma TakenReady(kids: Kids, root: Node, es: seq<Event>, k: nat, next: Event, cur: Node, tmp: Node)
    requires Shows(kids) && OnWalk(kids, root, es, k, next) && 0 < k <= |es| && es[k - 1] == Enter(cur)
    requires cur.kind.Text? && tmp == cur.next && tmp.kind.Text?
    ensures cur in kids && tmp in kids && root in kids && kids[tmp] == [] && Lists(kids) && cur != tmp
    ensures next.Done? || (next.node in kids && (next.node == root || next.node.parent != null))
    ensures cur != root ==> k < |es|
    ensures OnWalk(Removed(kids, tmp), root, Taking(es, k, cur == root), k, Succ(kids, root, next))
  {
    NodeOf(kids, root, es, k, next, cur);
    if cur == root {
      var p, i := HasPlace(kids, cur);
      hide Shows, OnWalk, At;
      TextWalk(kids, root, es, k, next);
      RemovedBehind(kids, root, es, k, next, tmp, p, i);
      SuccDone(kids, root);
    } else {
      hide Shows;
      Taken(kids, root, es, k, next, cur, tmp);
      hide OnWalk, Succ, Removed;
      RemovedStays(kids, root, es, k, tmp);
    }
  }

  /** After tmp is gone cur is followed by what followed tmp. */
  lemma FollowsRoot(kids: Kids, tmp: Node, cur: Node, p: Node, i: nat, after: Node?)
    requires Shows(Removed(kids, tmp)) && At(Removed(kids, tmp), cur, p, i) && Lists(kids) && At(kids, cur, p, i)
    requires i + 1 < |kids[p]| && kids[p][i + 1] == tmp
    requires after == if i + 2 < |kids[p]| then kids[p][i + 2] else null
    requires var s, t := kids[p], Removed(kids, tmp)[p];
             |t| == |s| - 1 && forall j :: 0 <= j < |t| ==> t[j] == s[if j <= i then j else j + 1]
    ensures cur.next == after
  {
    NextPictured(Removed(kids, tmp), cur, p, i);
  }

  /** One round of the inner loop: the text tmp behind cur is taken up and freed. */
  method TakeOne(iter: Iter, cur: Node, tmp: Node, buf: seq<byte>, ghost kids: Kids, ghost es: seq<Event>, ghost k: nat)
    returns (buf': seq<byte>, next: Node?)
    requires Shows(kids) && OnWalk(kids, iter.root, es, k, iter.next) && 0 < k <= |es| && es[k - 1] == Enter(cur)
    requires cur.kind.Text? && tmp == cur.next && tmp.kind.Text?
    modifies iter`cur, iter`next, kids.Keys`next, kids.Keys`prev, kids.Keys`parent, kids.Keys`firstChild,
        kids.Keys`lastChild
    ensures cur in kids && tmp in kids && cur in Removed(kids, tmp) && (cur != iter.root ==> k < |es|)
    ensures Removed(kids, tmp).Keys == kids.Keys - {tmp} && Shows(Removed(kids, tmp))
    ensures OnWalk(Removed(kids, tmp), iter.root, Taking(es, k, cur == iter.root), k, iter.next)
    ensures buf' == buf + tmp.literal && next == cur.next
    ensures cur != iter.root ==>
              Content(Taking(es, k, false), Literals(kids.Keys - {tmp})[cur := buf']) ==
              Content(es, old(Literals(kids.Keys))[cur := buf])
  {
    hide Shows, OnWalk, Removed, Content, Below, Pruned, Succ, Lists, At;
    ghost var root := iter.root;
    TakenReady(kids, root, es, k, iter.next, cur, tmp);
    ghost var rest := Taking(es, k, cur == root);
    ghost var p, i;
    if cur == root {
      p, i := HasPlace(kids, cur);
      RemovedBehind(kids, root, es, k, iter.next, tmp, p, i);
      AtNext(kids, cur, tmp, p, i);
      NextPictured(kids, tmp, p, i + 1);
    } else {
      Taken(kids, root, es, k, iter.next, cur, tmp);
    }
    var e := iter.Next(kids);
    buf' := buf + tmp.literal;
    next := tmp.next;
    JustItself(kids, tmp);
    if cur != root {
      TakeContent(kids, root, es, k, cur, tmp, Literals(kids.Keys)[cur := buf],
                  Literals(kids.Keys - {tmp})[cur := buf']);
    }
    ghost var freed := NodeFree(tmp, kids);
    if cur == root {
      FollowsRoot(kids, tmp, cur, p, i, next);
    } else {
      FollowsNow(Removed(kids, tmp), root, rest, k, iter.next, cur, next);
    }
    InRemoved(kids, tmp, cur);
  }

  lemma AtNext(kids: Kids, cur: Node, tmp: Node, p: Node, i: nat)
    requires At(kids, cur, p, i) && i + 1 < |kids[p]| && kids[p][i + 1] == tmp
    ensures At(kids, tmp, p, i + 1)
  {
  }

  /** The texts of some nodes, one behind the other. */
  function Joined(ns: seq<Node>, texts: Texts): seq<byte>
    requires forall n :: n in ns ==> n in texts
  {
    if ns == [] then [] else Joined(ns[..|ns| - 1], texts) + texts[ns[|ns| - 1]]
  }

  /** Of the children of p the texts from i + 1 to j are gone, and nothing else. */
  ghost predicate RunGone(kids: Kids, kids': Kids, p: Node, i: nat, j: nat) {
    && p in kids && i < j <= |kids[p]| && (forall q :: i < q < j ==> kids[p][q].kind.Text?)
    && (forall m :: m in kids && m !in kids[p][i + 1..j] ==> m in kids')
    && forall m :: m in kids' ==>
         m in kids && m !in kids[p][i + 1..j] && kids'[m] == if m == p then kids[p][..i + 1] + kids[p][j..] else kids[m]
  }

  lemma NoneGone(kids: Kids, n: Node, p: Node, i: nat)
    requires At(kids, n, p, i)
    ensures RunGone(kids, kids, p, i, i + 1)
  {
    assert kids[p][..i + 1] + kids[p][i + 1..] == kids[p];
  }

  /** Dropping the element behind a run that is already gone. */
  lemma RunGrows<T>(s: seq<T>, u: seq<T>, t: seq<T>, i: nat, j: nat)
    requires i < j <= |s| && u == s[..i + 1] + s[j..] && i + 1 < |u| && |t| == |u| - 1
    requires forall q :: 0 <= q < |t| ==> t[q] == u[if q <= i then q else q + 1]
    ensures j < |s| && u[i + 1] == s[j] && t == s[..i + 1] + s[j + 1..] && s[i + 1..j + 1] == s[i + 1..j] + [s[j]]
  {
  }

  lemma OneMoreGone(kids: Kids, kids': Kids, n: Node, p: Node, i: nat, j: nat, x: Node)
    requires RunGone(kids, kids', p, i, j) && At(kids', n, p, i) && i + 1 < |kids'[p]|
    requires x == kids'[p][i + 1] && x.kind.Text? && Removed(kids', x).Keys == kids'.Keys - {x} && x != p
    requires var s, t := kids'[p], Removed(kids', x)[p];
             |t| == |s| - 1 && forall q :: 0 <= q < |t| ==> t[q] == s[if q <= i then q else q + 1]
    requires forall m :: m in kids' && m != p && m != x ==> Removed(kids', x)[m] == kids'[m]
    ensures j < |kids[p]| && x == kids[p][j] && RunGone(kids, Removed(kids', x), p, i, j + 1)
  {
    hide Removed;
    RunGrows(kids[p], kids'[p], Removed(kids', x)[p], i, j);
  }

  lemma JoinedNext(s: seq<Node>, i: nat, j: nat, texts: Texts)
    requires i <= j < |s| && forall n :: n in s ==> n in texts
    ensures Joined(s[i..j + 1], texts) == Joined(s[i..j], texts) + texts[s[j]]
  {
    assert s[i..j + 1][..j - i] == s[i..j];
  }

  /** Only the nodes of ns are in the walk, and what hangs on other nodes is not among them, but for the root. */
  ghost predicate Inside(kids: Kids, root: Node, es: seq<Event>, ns: set<Node>) {
    && (forall e :: e in es && !e.Done? ==> e.node in ns)
    && (forall m, i :: m in kids && 0 <= i < |kids[m]| && kids[m][i] in ns && kids[m][i] != root ==> m in ns)
  }

  /** The other nodes are still there, with the same children. */
  ghost predicate OthersStay(kids: Kids, kids': Kids, ns: set<Node>) {
    forall m :: m in kids && m !in ns ==> m in kids' && kids'[m] == kids[m]
  }

  lemma RemovedInside(kids: Kids, root: Node, es: seq<Event>, k: nat, ns: set<Node>, x: Node)
    requires Inside(kids, root, es, ns) && k < |es| && es[k] == Enter(x) && x != root
    ensures Inside(Removed(kids, x), root, Taking(es, k, false), ns) && OthersStay(kids, Removed(kids, x), ns)
  {
    assert es[k] in es;
    forall m, i | m in Removed(kids, x) && 0 <= i < |Removed(kids, x)[m]|
      ensures Removed(kids, x)[m][i] in kids[m]
    {
      WithoutIsPart(kids[m], x, i);
    }
  }

  /** What became of the list of p, and of the text that stands there at i. */
  ghost predicate TookUp(kids: Kids, kids': Kids, p: Node, i: nat, j: nat, texts: Texts, was: seq<byte>,
                         text: seq<byte>)
  {
    && RunGone(kids, kids', p, i, j) && (forall n :: n in kids[p] ==> n in texts)
    && text == was + Joined(kids[p][i + 1..j], texts)
  }

  lemma NothingTaken(kids: Kids, n: Node, p: Node, i: nat, texts: Texts, text: seq<byte>)
    requires Lists(kids) && At(kids, n, p, i) && texts.Keys == kids.Keys
    ensures TookUp(kids, kids, p, i, i + 1, texts, text, text)
  {
    NoneGone(kids, n, p, i);
    assert text + [] == text;
    hide RunGone;
  }

  /** The root, a text, takes up the text next to it. */
  lemma RootTakes(kids: Kids, kids': Kids, root: Node, es: seq<Event>, k: nat, next: Event, p: Node, i: nat, j: nat,
                  tmp: Node, texts: Texts, was: seq<byte>, text: seq<byte>)
    requires Lists(kids) && Shows(kids') && OnWalk(kids', root, es, k, next) && 0 < k <= |es|
    requires es[k - 1] == Enter(root)
    requires root.kind.Text? && tmp == root.next && tmp.kind.Text?
    requires At(kids', root, p, i) && TookUp(kids, kids', p, i, j, texts, was, text)
    ensures tmp in texts && At(Removed(kids', tmp), root, p, i)
    ensures TookUp(kids, Removed(kids', tmp), p, i, j + 1, texts, was, text + texts[tmp])
  {
    hide Shows, OnWalk, Removed, RunGone, Lists, Joined, TextsAreLeaves;
    NextPictured(kids', root, p, i);
    RemovedBehind(kids', root, es, k, next, tmp, p, i);
    RemovedKeys(kids', tmp);
    hide At;
    OneMoreGone(kids, kids', root, p, i, j, tmp);
    RunBounds(kids, kids', p, i, j);
    JoinedNext(kids[p], i + 1, j, texts);
    Assoc(was, Joined(kids[p][i + 1..j], texts), texts[tmp]);
  }

  lemma RunBounds(kids: Kids, kids': Kids, p: Node, i: nat, j: nat)
    requires RunGone(kids, kids', p, i, j)
    ensures p in kids && i < j <= |kids[p]|
  {
  }

  lemma RemovedKeys(kids: Kids, x: Node)
    ensures Removed(kids, x).Keys == kids.Keys - {x}
  {
  }

  lemma RunEnds(kids: Kids, kids': Kids, n: Node, p: Node, i: nat, j: nat)
    requires Shows(kids') && At(kids', n, p, i) && RunGone(kids, kids', p, i, j)
    requires n.next == null || !n.next.kind.Text?
    ensures j == |kids[p]| || !kids[p][j].kind.Text?
  {
    NextPictured(kids', n, p, i);
    assert kids'[p] == kids[p][..i + 1] + kids[p][j..];
  }

  /** The inner loop: the texts behind cur are taken up into it. */
  method TakeUp(iter: Iter, cur: Node, ghost kids: Kids, ghost es: seq<Event>, ghost k: nat, ghost ns: set<Node>)
    returns (ghost kids': Kids, ghost es': seq<Event>, ghost p: Node, ghost i: nat, ghost j: nat)
    requires Shows(kids) && OnWalk(kids, iter.root, es, k, iter.next) && 0 < k <= |es| && es[k - 1] == Enter(cur)
    requires cur.kind.Text? && cur.next != null && cur.next.kind.Text?
    requires cur != iter.root ==> Inside(kids, iter.root, es, ns)
    modifies iter`cur, iter`next, kids.Keys
    ensures Shows(kids') && OnWalk(kids', iter.root, es', k, iter.next) && kids'.Keys <= kids.Keys && cur in kids'
    ensures k <= |es'| <= |es| && es'[..k] == es[..k]
    ensures forall n :: n in kids && n !in kids' ==> n.kind.Text?
    ensures forall n :: n in kids && n != cur ==> n.literal == old(n.literal)
    ensures cur != iter.root ==> !Pair(es', k - 1) && Inside(kids', iter.root, es', ns) && OthersStay(kids, kids', ns)
    ensures cur != iter.root ==> Content(es', Literals(kids'.Keys)) == Content(es, old(Literals(kids.Keys)))
    ensures cur == iter.root ==> At(kids, cur, p, i)
    ensures cur == iter.root ==> TookUp(kids, kids', p, i, j, old(Literals(kids.Keys)), old(cur.literal), cur.literal)
    ensures cur == iter.root ==> j == |kids[p]| || !kids[p][j].kind.Text?
  {
    hide Shows, OnWalk, Removed, Content, At, TookUp, Inside, OthersStay;
    kids', es' := kids, es;
    ghost var texts := Literals(kids.Keys);
    var buf := cur.literal;
    ghost var was := buf;
    NodeOf(kids, iter.root, es, k, iter.next, cur);
    assert texts[cur := buf] == texts;
    p, i := HasPlace(kids, cur);
    j := i + 1;
    KnowsLists(kids, iter.root, es, k, iter.next);
    NothingTaken(kids, cur, p, i, texts, buf);
    SameOthers(kids, ns);
    var tmp := cur.next;
    while tmp != null && tmp.kind.Text?
      invariant Shows(kids') && OnWalk(kids', iter.root, es', k, iter.next) && kids'.Keys <= kids.Keys
      invariant k <= |es'| <= |es| && es'[..k] == es[..k] && cur in kids' && tmp == cur.next
      invariant forall n :: n in kids ==> n.literal == old(n.literal) && (n !in kids' ==> n.kind.Text?)
      invariant cur != iter.root ==> Inside(kids', iter.root, es', ns) && OthersStay(kids, kids', ns)
      invariant cur != iter.root ==> Content(es', Literals(kids'.Keys)[cur := buf]) == Content(es, texts)
      invariant cur == iter.root ==> At(kids', cur, p, i) && TookUp(kids, kids', p, i, j, texts, was, buf)
      decreases kids'.Keys
    {
      assert es'[k - 1] == es'[..k][k - 1] == Enter(cur);
      var taken := tmp;
      if cur == iter.root {
        RootTakes(kids, kids', iter.root, es', k, iter.next, p, i, j, taken, texts, was, buf);
        j := j + 1;
      } else {
        Taken(kids', iter.root, es', k, iter.next, cur, taken);
        RemovedInside(kids', iter.root, es', k, ns, taken);
        StayTwice(kids, kids', Removed(kids', taken), ns);
      }
      buf, tmp := TakeOne(iter, cur, taken, buf, kids', es', k);
      kids', es' := Removed(kids', taken), Taking(es', k, cur == iter.root);
    }
    assert es'[k - 1] == es'[..k][k - 1] == Enter(cur);
    if cur == iter.root {
      RunIsOver(kids, kids', cur, p, i, j, texts, was, buf);
    } else {
      NoTextFollows(kids', iter.root, es', k, iter.next, cur);
    }
    ghost var last := Literals(kids'.Keys);
    cur.literal := buf;
    assert Literals(kids'.Keys) == last[cur := buf];
  }

  lemma KnowsLists(kids: Kids, root: Node, es: seq<Event>, k: nat, next: Event)
    requires OnWalk(kids, root, es, k, next)
    ensures Lists(kids)
  {
  }

  lemma SameOthers(kids: Kids, ns: set<Node>)
    ensures OthersStay(kids, kids, ns)
  {
  }

  lemma StayTwice(k: Kids, k': Kids, k'': Kids, ns: set<Node>)
    requires OthersStay(k, k', ns) && OthersStay(k', k'', ns)
    ensures OthersStay(k, k'', ns)
  {
  }

  lemma RunIsOver(kids: Kids, kids': Kids, n: Node, p: Node, i: nat, j: nat, texts: Texts, was: seq<byte>,
                  text: seq<byte>)
    requires Shows(kids') && At(kids', n, p, i) && TookUp(kids, kids', p, i, j, texts, was, text)
    requires n.next == null || !n.next.kind.Text?
    ensures p in kids && (j == |kids[p]| || !kids[p][j].kind.Text?)
  {
    hide Shows;
    RunEnds(kids, kids', n, p, i, j);
  }

  lemma NodeOf(kids: Kids, root: Node, es: seq<Event>, k: nat, next: Event, cur: Node)
    requires OnWalk(kids, root, es, k, next) && 0 < k <= |es| && es[k - 1] == Enter(cur)
    ensures cur in kids
  {
    WalkStep(kids, root, es, k - 1);
  }

  lemma NoTextFollows(kids: Kids, root: Node, es: seq<Event>, k: nat, next: Event, cur: Node)
    requires Shows(kids) && OnWalk(kids, root, es, k, next) && 0 < k <= |es| && es[k - 1] == Enter(cur)
    requires cur.kind.Text? && cur != root && (cur.next != null ==> !cur.next.kind.Text?)
    ensures !Pair(es, k - 1)
  {
    assert IsText(es[k - 1]);
    NextText(kids, root, es, k, next);
  }

  lemma ComesNext(kids: Kids, root: Node, es: seq<Event>, k: nat, next: Event)
    requires OnWalk(kids, root, es, k, next) && k < |es|
    ensures next == es[k] && !next.Done? && next.node in kids
  {
    WalkStep(kids, root, es, k);
  }

  lemma PairsStay(es: seq<Event>, es': seq<Event>, k: nat)
    requires k + 1 <= |es| && k + 1 <= |es'| && es[..k + 1] == es'[..k + 1] && forall i :: i < k ==> !Pair(es, i)
    ensures forall i :: i < k ==> !Pair(es', i)
  {
    forall i | i < k ensures !Pair(es', i) {
      if i >= 0 {
        assert es[i] == es[..k + 1][i] == es'[i] && es[i + 1] == es[..k + 1][i + 1] == es'[i + 1];
        assert !Pair(es, i);
      }
    }
  }

  // ---------------------------------------------------------------- the outer loop

  /** What becomes of the texts behind a root that is a text itself: those of its list up to j are freed, and their
      texts stand behind the one of the root. */
  ghost predicate RootTook(kids: Kids, kids': Kids, root: Node, j: nat, texts: Texts, text: seq<byte>)
    requires root in texts
  {
    && (IsRoot(kids, root) ==> kids' == kids && text == texts[root])
    && forall p, i :: p in kids && 0 <= i < |kids[p]| && kids[p][i] == root ==>
         TookUp(kids, kids', p, i, j, texts, texts[root], text) && (j == |kids[p]| || !kids[p][j].kind.Text?)
  }

  lemma RootTookAt(kids: Kids, kids': Kids, root: Node, p: Node, i: nat, j: nat, texts: Texts, text: seq<byte>)
    requires root in texts && Lists(kids) && At(kids, root, p, i)
    requires TookUp(kids, kids', p, i, j, texts, texts[root], text) && (j == |kids[p]| || !kids[p][j].kind.Text?)
    ensures RootTook(kids, kids', root, j, texts, text)
  {
    OnlyPlace(kids, root, p, i);
    hide TookUp, Lists;
  }

  lemma OnlyPlace(kids: Kids, n: Node, p: Node, i: nat)
    requires Lists(kids) && At(kids, n, p, i)
    ensures !IsRoot(kids, n)
    ensures forall q, h :: q in kids && 0 <= h < |kids[q]| && kids[q][h] == n ==> q == p && h == i
  {
    forall q, h | q in kids && 0 <= h < |kids[q]| && kids[q][h] == n ensures q == p && h == i {
    }
  }

  lemma RootTookNone(kids: Kids, root: Node, texts: Texts) returns (j: nat)
    requires Shows(kids) && root in kids && texts.Keys == kids.Keys
    requires root.next == null || !root.next.kind.Text?
    ensures RootTook(kids, kids, root, j, texts, texts[root])
  {
    hide Shows, TookUp, RootTook, Lists, IsRoot;
    j := 0;
    KnowSound(kids);
    if IsRoot(kids, root) {
      NothingToTake(kids, root, texts);
    } else {
      var p := ParentOf(kids, root).value;
      var i := IndexOf(kids[p], root);
      hide ParentOf, IndexOf;
      NextPictured(kids, root, p, i);
      NothingTaken(kids, root, p, i, texts, texts[root]);
      j := i + 1;
      RootTookAt(kids, kids, root, p, i, j, texts, texts[root]);
    }
  }

  lemma NothingToTake(kids: Kids, root: Node, texts: Texts)
    requires IsRoot(kids, root) && root in texts
    ensures RootTook(kids, kids, root, 0, texts, texts[root])
  {
    hide TookUp;
  }

  /** What every round keeps while the root is no text: what the walk says, and all that is not in the tree. */
  ghost predicate Keeping(kids: Kids, kids': Kids, root: Node, es': seq<Event>, k: nat, ns: set<Node>) {
    (forall i :: i < k ==> !Pair(es', i)) && Inside(kids', root, es', ns) && OthersStay(kids, kids', ns)
  }

  /** One round of the outer loop, when the walk is not over. */
  method Round(iter: Iter, ghost kids: Kids, ghost es: seq<Event>, ghost k: nat, ghost ns: set<Node>)
    returns (e: Event, ghost kids': Kids, ghost es': seq<Event>, ghost j: nat)
    requires Shows(kids) && OnWalk(kids, iter.root, es, k, iter.next) && k < |es|
    requires !iter.root.kind.Text? ==> Keeping(kids, kids, iter.root, es, k, ns)
    modifies iter`cur, iter`next, kids.Keys
    ensures Shows(kids') && OnWalk(kids', iter.root, es', k + 1, iter.next) && kids'.Keys <= kids.Keys
    ensures k < |es'| <= |es| && es'[..k] == es[..k] && e == es'[k]
    ensures forall n :: n in kids && n !in kids' ==> n.kind.Text?
    ensures !e.Done? && forall n :: n in kids && (n != e.node || !n.kind.Text?) ==> n.literal == old(n.literal)
    ensures !iter.root.kind.Text? ==> Content(es', Literals(kids'.Keys)) == Content(es, old(Literals(kids.Keys)))
    ensures !iter.root.kind.Text? ==> Keeping(kids, kids', iter.root, es', k + 1, ns)
    ensures iter.root.kind.Text? && k == 0 ==>
              RootTook(kids, kids', iter.root, j, old(Literals(kids.Keys)), iter.root.literal)
  {
    hide Shows, OnWalk, Removed, Content, RootTook, TookUp, At, Inside, OthersStay, Pair;
    if iter.root.kind.Text? {
      TextWalk(kids, iter.root, es, k, iter.next);
    }
    MayGoOn(kids, iter.root, es, k, iter.next);
    ComesNext(kids, iter.root, es, k, iter.next);
    StartsAtRoot(kids, iter.root, es, k, iter.next);
    KnowsLists(kids, iter.root, es, k, iter.next);
    e := iter.Next(kids);
    kids', es', j := kids, es, 0;
    SameOthers(kids, ns);
    var cur := e.node;
    if e.Enter? && cur.kind.Text? && cur.next != null && cur.next.kind.Text? {
      ghost var p, i;
      kids', es', p, i, j := TakeUp(iter, cur, kids, es, k + 1, ns);
      assert es'[..k + 1][..k] == es'[..k] && es[..k + 1][..k] == es[..k] && es'[..k + 1][k] == es'[k];
      if cur != iter.root {
        PairsStay(es, es', k);
      } else {
        RootTookAt(kids, kids', cur, p, i, j, old(Literals(kids.Keys)), cur.literal);
      }
    } else if iter.root.kind.Text? {
      if k == 0 {
        j := RootTookNone(kids, iter.root, Literals(kids.Keys));
      }
    } else {
      NoPairHere(kids, iter.root, es, k, iter.next);
    }
  }

  lemma StartsAtRoot(kids: Kids, root: Node, es: seq<Event>, k: nat, next: Event)
    requires OnWalk(kids, root, es, k, next)
    ensures es != [] && es[0] == Enter(root)
  {
  }

  lemma NoPairHere(kids: Kids, root: Node, es: seq<Event>, k: nat, next: Event)
    requires Shows(kids) && OnWalk(kids, root, es, k + 1, next) && k < |es| && !root.kind.Text?
    requires IsText(es[k]) ==> es[k].node.next == null || !es[k].node.next.kind.Text?
    ensures !Pair(es, k)
  {
    hide Shows, OnWalk;
    if IsText(es[k]) {
      NoTextFollows(kids, root, es, k + 1, next, es[k].node);
    }
  }

  /** cmark_consolidate_text_nodes. When the root is no text, what the tree says stays the same, no two texts are
      neighbours any more, and nothing is freed or changed but texts of the tree. When it is one, it takes up the
      texts that stand behind it on its list, which are not of its tree. In both cases the events that the loop sees
      are those of a walk of the tree that is left, so that none of them is about a node that was freed. */
  method ConsolidateTextNodes(root: Node, ghost kids: Kids, ghost rank: map<Node, nat>)
    returns (ghost kids': Kids, ghost es': seq<Event>, ghost seen: seq<Event>, ghost j: nat)
    requires Shows(kids) && Ranked(kids, rank) && TextsAreLeaves(kids) && root in kids
    modifies kids.Keys
    ensures Shows(kids') && WholeWalk(kids', root, es') && kids'.Keys <= kids.Keys
    ensures seen == es' && forall e :: e in seen ==> !e.Done? && e.node in kids'
    ensures forall n :: n in kids && n !in kids' ==> n.kind.Text?
    ensures forall n :: n in kids && (n !in Below(kids, root) || !n.kind.Text?) ==> n.literal == old(n.literal)
    ensures !root.kind.Text? ==>
              Content(es', Literals(kids'.Keys)) == Content(Walk(kids, rank, root), old(Literals(kids.Keys)))
    ensures !root.kind.Text? ==>
              forall e :: e in es' && IsText(e) && e.node.next != null ==> !e.node.next.kind.Text?
    ensures !root.kind.Text? ==>
              forall m :: m in kids && m !in Below(kids, root) ==> m in kids' && kids'[m] == kids[m]
    ensures root.kind.Text? ==> RootTook(kids, kids', root, j, old(Literals(kids.Keys)), root.literal)
  {
    hide Shows, OnWalk, Content, Walk, Below, Inside, OthersStay, RootTook, Ranked, TextsAreLeaves, WholeWalk, Removed;
    ghost var ns := Below(kids, root);
    kids', es', j := kids, Walk(kids, rank, root), 0;
    var iter := new Iter(root);
    WalkStarts(kids, rank, root);
    WalkIsInside(kids, rank, root);
    SameOthers(kids, ns);
    ghost var k := 0;
    seen := [];
    while !iter.next.Done?
      invariant iter.root == root && kids'.Keys <= kids.Keys && k <= |es'|
      invariant Shows(kids') && OnWalk(kids', root, es', k, iter.next)
      invariant seen == es'[..k] && (forall e :: e in seen ==> !e.Done? && e.node in ns)
      invariant forall n :: n in kids && n !in kids' ==> n.kind.Text?
      invariant forall n :: n in kids && (n !in ns || !n.kind.Text?) ==> n.literal == old(n.literal)
      invariant !root.kind.Text? ==>
                  Content(es', Literals(kids'.Keys)) == Content(Walk(kids, rank, root), old(Literals(kids.Keys)))
      invariant !root.kind.Text? ==> Keeping(kids, kids', root, es', k, ns)
      invariant root.kind.Text? && k == 0 ==> kids' == kids && Literals(kids.Keys) == old(Literals(kids.Keys))
      invariant root.kind.Text? && k > 0 ==>
                  iter.next.Done? && RootTook(kids, kids', root, j, old(Literals(kids.Keys)), root.literal)
      decreases |es'| - k
    {
      WalkGoesOn(kids', root, es', k, iter.next);
      SameOthers(kids', ns);
      ghost var was := kids';
      var e: Event;
      e, kids', es', j := Round(iter, kids', es', k, ns);
      if root.kind.Text? {
        TextWalk(kids', root, es', k + 1, iter.next);
      } else {
        StayTwice(kids, was, kids', ns);
        SeenIsInside(kids', root, es', ns, k);
      }
      seen, k := seen + [e], k + 1;
    }
    StartsAtRoot(kids', root, es', k, iter.next);
    WalkIsOver(kids', root, es', k, iter.next);
    EventsAreThere(kids', root, es', k, iter.next);
    OthersAre(kids, kids', ns);
  }

  lemma SeenIsInside(kids: Kids, root: Node, es: seq<Event>, ns: set<Node>, k: nat)
    requires k < |es| && !es[k].Done? && Inside(kids, root, es, ns)
    ensures es[k].node in ns
  {
    assert es[k] in es;
  }

  lemma OthersAre(kids: Kids, kids': Kids, ns: set<Node>)
    ensures OthersStay(kids, kids', ns) ==> forall m :: m in kids && m !in ns ==> m in kids' && kids'[m] == kids[m]
  {
  }

  lemma {:induction false} WalkIsBelow(kids: Kids, rank: map<Node, nat>, root: Node, n: Node)
    requires Ranked(kids, rank) && n in Below(kids, root)
    ensures forall e :: e in Walk(kids, rank, n) ==> e.Done? || e.node in Below(kids, root)
    decreases rank[n], 1, 0
  {
    if !IsLeaf(n.kind) {
      WalkFromIsBelow(kids, rank, root, n, 0);
    }
    hide Below, WalkFrom, Ranked;
  }

  lemma {:induction false} WalkFromIsBelow(kids: Kids, rank: map<Node, nat>, root: Node, m: Node, i: nat)
    requires Ranked(kids, rank) && m in Below(kids, root) && i <= |kids[m]|
    ensures forall e :: e in WalkFrom(kids, rank, m, i) ==> e.Done? || e.node in Below(kids, root)
    decreases rank[m], 0, |kids[m]| - i
  {
    if i < |kids[m]| {
      BelowGoesDown(kids, root, m, i);
      WalkIsBelow(kids, rank, root, kids[m][i]);
      WalkFromIsBelow(kids, rank, root, m, i + 1);
    }
    hide Below, Walk, Ranked;
  }

  lemma WalkIsInside(kids: Kids, rank: map<Node, nat>, root: Node)
    requires Ranked(kids, rank) && root in kids
    ensures root in Below(kids, root) && Inside(kids, root, Walk(kids, rank, root), Below(kids, root))
  {
    Itself(kids, root);
    WalkIsBelow(kids, rank, root, root);
    forall m, i | m in kids && 0 <= i < |kids[m]| && kids[m][i] in Below(kids, root) && kids[m][i] != root
      ensures m in Below(kids, root)
    {
      ParentIsBelow(kids, root, kids[m][i], m);
    }
    hide Walk, Below;
  }

  lemma EventsAreThere(kids: Kids, root: Node, es: seq<Event>, k: nat, next: Event)
    requires OnWalk(kids, root, es, k, next) && next.Done?
    ensures k == |es| && es[..k] == es && forall e :: e in es ==> !e.Done? && e.node in kids
  {
  }

  lemma WalkStarts(kids: Kids, rank: map<Node, nat>, root: Node)
    requires Ranked(kids, rank) && TextsAreLeaves(kids) && root in kids
    ensures OnWalk(kids, root, Walk(kids, rank, root), 0, Enter(root))
  {
    WalkIsWhole(kids, rank, root);
    WalkHangs(kids, rank, root, root);
    hide Walk, Hung, TextsAreLeaves, Succ;
  }

  lemma WalkGoesOn(kids: Kids, root: Node, es: seq<Event>, k: nat, next: Event)
    requires OnWalk(kids, root, es, k, next) && !next.Done?
    ensures k < |es|
  {
  }

  lemma WalkIsOver(kids: Kids, root: Node, es: seq<Event>, k: nat, next: Event)
    requires OnWalk(kids, root, es, k, next) && next.Done? && Shows(kids)
    requires !root.kind.Text? ==> forall i :: i < k ==> !Pair(es, i)
    ensures WholeWalk(kids, root, es)
    ensures !root.kind.Text? ==> forall e :: e in es && IsText(e) && e.node.next != null ==> !e.node.next.kind.Text?
  {
    hide Shows;
    if k < |es| {
      ComesNext(kids, root, es, k, next);
    }
    hide WholeWalk, Hung, Lists, TextsAreLeaves;
    forall e | !root.kind.Text? && e in es && IsText(e) && e.node.next != null ensures !e.node.next.kind.Text? {
      var i :| 0 <= i < |es| && es[i] == e;
      NextText(kids, root, es, i + 1, if i + 1 == |es| then Done else es[i + 1]);
      assert !Pair(es, i);
    }
  }
}
