/** What an operation on the tree does, said without saying how: deps/cmark/src/node.c. */
module Moves {
  import opened Optional
  import opened NodeForest

  /** The node that an operation takes from its place. */
  function Moved(op: Op): Node {
    match op
    case Unlink(n) => n
    case InsertBefore(_, x) => x
    case InsertAfter(_, x) => x
    case PrependChild(_, x) => x
    case AppendChild(_, x) => x
    case Replace(_, x) => x
  }

  /** The siblings that an operation does not name. */
  function Unmoved(s: seq<Node>, op: Op): seq<Node> {
    if op.Replace? then Without(Without(s, op.newnode), op.oldnode) else Without(s, Moved(op))
  }

  lemma {:induction false} WithoutGone(s: seq<Node>, x: Node, i: nat)
    requires i <= |s| && x !in s
    ensures Without(Inserted(s, i, x), x) == s
  {
    var t := Inserted(s, i, x);
    assert t[i] == x;
    forall j | 0 <= j < i ensures t[j] != x {
      assert t[j] == s[j];
    }
    WithoutAt(t, x, i);
    assert t[..i] + t[i + 1..] == s;
  }

  /** Taking two nodes away, in either order. */
  lemma {:induction false} WithoutBoth(s: seq<Node>, x: Node, y: Node)
    requires x != y
    ensures Without(Without(s, x), y) == Without(Without(s, y), x)
  {
    if s != [] {
      WithoutBoth(s[1..], x, y);
    }
  }

  lemma {:induction false} WithoutSwapped(s: seq<Node>, i: nat, x: Node)
    requires i < |s| && x !in s && AllOnce(s)
    ensures s[i] !in Without(s, s[i]) && Without(Without(s[i := x], x), s[i]) == Without(s, s[i])
  {
    var t := s[i := x];
    WithoutAt(s, s[i], i);
    WithoutAt(t, x, i);
    assert t[..i] + t[i + 1..] == s[..i] + s[i + 1..];
  }

  lemma GoneEverywhere(kids: Kids, x: Node, m: Node)
    requires Sound(kids) && m in kids
    ensures x !in Detached(kids, x)[m] && AllOnce(Detached(kids, x)[m])
    ensures Without(Detached(kids, x)[m], x) == Detached(kids, x)[m] == Without(kids[m], x)
  {
    DetachSound(kids, x);
    OneOf(Detached(kids, x), m);
  }

  /** No operation changes the order of the siblings it does not name, on any list. */
  lemma OthersKeepTheirOrder(kids: Kids, op: Op, m: Node)
    requires Sound(kids) && Asks(kids, op) && m in kids
    ensures m in Apply(kids, op) && Unmoved(Apply(kids, op)[m], op) == Unmoved(kids[m], op)
  {
    var x := Moved(op);
    GoneEverywhere(kids, x, m);
    hide Acyclic, CanHang, Lists;
    if !op.Unlink? && Target(kids, op) == Some(m) {
      var s := Detached(kids, x)[m];
      match op
      case InsertBefore(n, _) =>
        StillThere(kids, n, x, m);
        WithoutGone(s, x, IndexOf(s, n));
      case InsertAfter(n, _) =>
        StillThere(kids, n, x, m);
        WithoutGone(s, x, IndexOf(s, n) + 1);
      case PrependChild(_, _) => WithoutGone(s, x, 0);
      case AppendChild(_, _) => WithoutGone(s, x, |s|);
      case Replace(n, _) =>
        StillThere(kids, n, x, m);
        WithoutSwapped(s, IndexOf(s, n), x);
    }
  }

  /** x is where the operation asks for it. */
  predicate Stands(s: seq<Node>, was: seq<Node>, op: Op) {
    match op
    case Unlink(n) => n !in s
    case InsertBefore(n, x) => exists i :: 0 <= i < |s| - 1 && s[i] == x && s[i + 1] == n
    case InsertAfter(n, x) => exists i :: 0 <= i < |s| - 1 && s[i] == n && s[i + 1] == x
    case PrependChild(_, x) => s != [] && s[0] == x
    case AppendChild(_, x) => s != [] && s[|s| - 1] == x
    case Replace(n, x) =>
      n !in s && |s| == |Without(was, x)| && exists i :: 0 <= i < |s| && s[i] == x && Without(was, x)[i] == n
  }

  lemma MovedOnlyThere(kids: Kids, op: Op, p: Node, m: Node)
    requires Sound(kids) && Asks(kids, op) && !op.Unlink? && Target(kids, op) == Some(p) && m in kids && m != p
    ensures m in Apply(kids, op) && Moved(op) !in Apply(kids, op)[m]
  {
    GoneEverywhere(kids, Moved(op), m);
    hide Acyclic, CanHang, Lists;
    if op.InsertBefore? || op.InsertAfter? || op.Replace? {
      StillThere(kids, if op.Replace? then op.oldnode else op.node, Moved(op), p);
    }
  }

  lemma StandsBeside(s: seq<Node>, n: Node, x: Node)
    requires n in s && x !in s && AllOnce(s)
    ensures var i, t := IndexOf(s, n), Inserted(s, IndexOf(s, n), x); i + 1 < |t| && t[i] == x && t[i + 1] == n
    ensures var i, t := IndexOf(s, n), Inserted(s, IndexOf(s, n) + 1, x); i + 1 < |t| && t[i] == n && t[i + 1] == x
    ensures var i, t := IndexOf(s, n), s[IndexOf(s, n) := x]; |t| == |s| && t[i] == x && s[i] == n && n !in t
  {
    var i, t := IndexOf(s, n), s[IndexOf(s, n) := x];
    assert forall j :: 0 <= j < |t| ==> t[j] != n;
  }

  lemma StandsAtEnds(s: seq<Node>, x: Node)
    ensures var t := Inserted(s, 0, x); t[0] == x
    ensures var t := Inserted(s, |s|, x); t[|t| - 1] == x
  {
  }

  /** What is moved hangs where it was asked to, and nowhere else; what is replaced hangs nowhere. */
  lemma StandsWhereAsked(kids: Kids, op: Op, p: Node)
    requires Sound(kids) && Asks(kids, op) && !op.Unlink? && Target(kids, op) == Some(p)
    ensures var after := Apply(kids, op);
            && p in kids && p in after && Stands(after[p], kids[p], op)
            && (forall m :: m in after && m != p ==> Moved(op) !in after[m])
            && (op.Replace? ==> IsRoot(after, op.oldnode))
  {
    var x, after := Moved(op), Apply(kids, op);
    ApplySound(kids, op);
    forall m | m in kids && m != p ensures x !in after[m] {
      MovedOnlyThere(kids, op, p, m);
    }
    if op.Replace? {
      forall m | m in kids && m != p ensures op.oldnode !in after[m] {
        ReplacedNotThere(kids, op.oldnode, x, p, m);
      }
    }
    hide Sound, CanHang, Lists, Target, Apply;
    StandsThere(kids, op, p);
  }

  lemma StandsThere(kids: Kids, op: Op, p: Node)
    requires Sound(kids) && Asks(kids, op) && !op.Unlink? && Target(kids, op) == Some(p)
    ensures p in kids && p in Apply(kids, op) && Stands(Apply(kids, op)[p], kids[p], op)
  {
    GoneEverywhere(kids, Moved(op), p);
    hide Acyclic, CanHang, Lists;
    var s := Detached(kids, Moved(op))[p];
    if op.PrependChild? || op.AppendChild? {
      StandsAtEnds(s, op.child);
    } else {
      var n := if op.Replace? then op.oldnode else op.node;
      StillThere(kids, n, Moved(op), p);
      StandsBeside(s, n, Moved(op));
    }
    hide Inserted, Without, IndexOf;
  }

  lemma ReplacedNotThere(kids: Kids, n: Node, x: Node, p: Node, m: Node)
    requires Sound(kids) && Asks(kids, Op.Replace(n, x)) && Target(kids, Op.Replace(n, x)) == Some(p) && m in kids
    requires m != p
    ensures m in Apply(kids, Op.Replace(n, x)) && n !in Apply(kids, Op.Replace(n, x))[m]
  {
    StillThere(kids, n, x, p);
    DetachSound(kids, x);
    var k := Detached(kids, x);
    Elsewhere(k, p, IndexOf(k[p], n), m);
  }
}
