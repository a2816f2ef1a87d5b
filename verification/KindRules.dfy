/** Which kind of node may hang where, S_can_contain of deps/cmark/src/node.c seen from the child's side, and what that
    keeps out of every tree. */
module KindRules {
  import opened NodeForest
  import opened Freeing
  import NodeIterator

  /** What holds a text, or nothing at all. */
  predicate HoldsNothing(k: Kind) {
    || k.CodeBlock? || k.HtmlBlock? || k.ThematicBreak?
    || k.Text? || k.Softbreak? || k.Linebreak? || k.Code? || k.HtmlInline?
  }

  /** Inlines: the leaves among them, and those that hold others. */
  predicate InlineHolder(k: Kind) { k.Emph? || k.Strong? || k.Link? || k.Image? || k.CustomInline? }

  predicate IsInlineKind(k: Kind) {
    InlineHolder(k) || k.Text? || k.Softbreak? || k.Linebreak? || k.Code? || k.HtmlInline?
  }

  /** The blocks that hold text in the form of inlines. */
  predicate TextBlock(k: Kind) { k.Paragraph? || k.Heading? }

  /** The blocks that hold blocks. */
  predicate BlockHolder(k: Kind) { k.Document? || k.BlockQuote? || k.Item? }

  /** Inlines hang under blocks of text and under inlines that hold any; items under lists; other blocks under
      documents, quotes and items; and everything under custom blocks. */
  lemma HoldsFor(c: Kind)
    ensures forall k :: Holds(k, c) <==>
              k.CustomBlock?
              || if IsInlineKind(c) then TextBlock(k) || InlineHolder(k)
                 else if c.Item? then k.List? else BlockHolder(k)
  {
  }

  /** The kinds that hold nothing are those that the iterator takes for leaves. */
  lemma LeavesHoldNothing(k: Kind)
    ensures NodeIterator.IsLeaf(k) <==> forall c :: !Holds(k, c)
    ensures NodeIterator.IsLeaf(k) <==> HoldsNothing(k)
  {
    if !HoldsNothing(k) {
      assert Holds(k, Text) || Holds(k, Paragraph) || Holds(k, Item);
    }
  }

  // ---------------------------------------------------------------- every tree

  /** Each child may be where it is. */
  ghost predicate WellPlaced(kids: Kids) {
    forall m, x :: m in kids && x in kids[m] ==> Holds(m.kind, x.kind) && !x.kind.Document? && x.mem == m.mem
  }

  lemma DetachedPlaced(kids: Kids, x: Node)
    requires WellPlaced(kids)
    ensures WellPlaced(Detached(kids, x))
  {
    forall m, y | m in kids && y in Without(kids[m], x) ensures y in kids[m] {
      var i :| 0 <= i < |Without(kids[m], x)| && Without(kids[m], x)[i] == y;
      WithoutIsPart(kids[m], x, i);
    }
  }

  lemma PlacedPlaced(kids: Kids, x: Node, p: Node, i: nat)
    requires WellPlaced(kids) && p in kids && i <= |kids[p]|
    requires Holds(p.kind, x.kind) && !x.kind.Document? && x.mem == p.mem
    ensures WellPlaced(Placed(kids, x, p, i))
  {
    forall y | y in Inserted(kids[p], i, x) ensures y == x || y in kids[p] {
    }
  }

  /** No operation puts a node where its kind does not belong. */
  lemma ApplyPlaces(kids: Kids, op: Op)
    requires WellPlaced(kids) && Asks(kids, op)
    ensures WellPlaced(Apply(kids, op))
  {
    if op.Unlink? {
      DetachedPlaced(kids, op.node);
    } else if Target(kids, op).Some? {
      var p := Target(kids, op).value;
      hide IsAbove, WellPlaced, Holds;
      match op
      case InsertBefore(n, x) =>
        DetachedPlaced(kids, x);
        StillThere(kids, n, x, p);
        PlacedPlaced(Detached(kids, x), x, p, IndexOf(Detached(kids, x)[p], n));
      case InsertAfter(n, x) =>
        DetachedPlaced(kids, x);
        StillThere(kids, n, x, p);
        PlacedPlaced(Detached(kids, x), x, p, IndexOf(Detached(kids, x)[p], n) + 1);
      case PrependChild(n, x) =>
        DetachedPlaced(kids, x);
        PlacedPlaced(Detached(kids, x), x, p, 0);
      case AppendChild(n, x) =>
        DetachedPlaced(kids, x);
        PlacedPlaced(Detached(kids, x), x, p, |Detached(kids, x)[p]|);
      case Replace(n, x) =>
        DetachedPlaced(kids, x);
        StillThere(kids, n, x, p);
        var k := Detached(kids, x);
        ReplacedPlaced(k, x, p, IndexOf(k[p], n));
    }
  }

  lemma ReplacedPlaced(kids: Kids, x: Node, p: Node, i: nat)
    requires WellPlaced(kids) && p in kids && i < |kids[p]|
    requires Holds(p.kind, x.kind) && !x.kind.Document? && x.mem == p.mem
    ensures WellPlaced(kids[p := kids[p][i := x]])
  {
    forall y | y in kids[p][i := x] ensures y == x || y in kids[p] {
    }
  }

  lemma {:induction false} RunsPlace(kids: Kids, ops: seq<Op>)
    requires WellPlaced(kids) && AsksAll(kids, ops)
    ensures WellPlaced(ApplyAll(kids, ops))
    decreases |ops|
  {
    if ops != [] {
      ApplyPlaces(kids, ops[0]);
      hide Apply, WellPlaced;
      RunsPlace(Apply(kids, ops[0]), ops[1..]);
    }
  }

  /** Nodes, none of which hangs anywhere. */
  predicate AllAlone(kids: Kids) { forall m :: m in kids ==> kids[m] == [] }

  predicate ChildFits(m: Kind, x: Kind) {
    && (m.List? ==> x.Item?) && (x.Item? ==> m.List? || m.CustomBlock?) && !x.Document?
    && (IsInlineKind(x) ==> InlineHolder(m) || TextBlock(m) || m.CustomBlock?)
  }

  /** Whatever is done with them: below an inline, a paragraph or a heading there are only inlines; lists hold only
      items; an item stands on a list or in a custom block; an inline under another, a paragraph, a heading or a custom
      block; a document is a root; and parent and child have one allocator. */
  lemma NothingMisplaced(kids: Kids, ops: seq<Op>)
    requires AllAlone(kids) && AsksAll(kids, ops)
    ensures var k := ApplyAll(kids, ops);
            && (forall m, x :: m in k && (IsInlineKind(m.kind) || TextBlock(m.kind)) && x in Below(k, m) && x != m ==>
                  IsInlineKind(x.kind))
            && (forall m, x :: m in k && x in k[m] ==> ChildFits(m.kind, x.kind) && x.mem == m.mem)
  {
    hide *;
    AlonePlaced(kids);
    RunsPlace(kids, ops);
    var k := ApplyAll(kids, ops);
    forall m, x: Node | m in k && x in k[m] ensures ChildFits(m.kind, x.kind) && x.mem == m.mem {
      ChildrenFit(k, m, x);
    }
    forall m, x | m in k && (IsInlineKind(m.kind) || TextBlock(m.kind)) && x in Below(k, m) && x != m
      ensures IsInlineKind(x.kind)
    {
      OnlyInlinesBelow(k, m, x);
    }
  }

  lemma AlonePlaced(kids: Kids)
    requires AllAlone(kids)
    ensures WellPlaced(kids)
  {
  }

  lemma ChildrenFit(kids: Kids, m: Node, x: Node)
    requires WellPlaced(kids) && m in kids && x in kids[m]
    ensures ChildFits(m.kind, x.kind) && x.mem == m.mem
  {
    assert Holds(m.kind, x.kind);
    HoldsFor(x.kind);
    hide Holds;
  }

  lemma OnlyInlinesBelow(kids: Kids, m: Node, x: Node)
    requires WellPlaced(kids) && m in kids && (IsInlineKind(m.kind) || TextBlock(m.kind))
    requires x in Below(kids, m) && x != m
    ensures IsInlineKind(x.kind)
  {
    if !IsInlineKind(x.kind) {
      BlocksStandAbove(kids, m, x);
    }
    hide IsAbove;
  }

  /** Above a block there are only blocks that hold blocks. */
  lemma BlocksStandAbove(kids: Kids, m: Node, x: Node)
    requires WellPlaced(kids) && m in kids && x in kids && x != m && !IsInlineKind(x.kind)
    requires IsInlineKind(m.kind) || TextBlock(m.kind)
    ensures !IsAbove(kids, m, x)
  {
    var up := set n | n in kids && (n == x || BlockHolder(n.kind) || n.kind.List? || n.kind.CustomBlock?);
    forall n, i | n in kids && 0 <= i < |kids[n]| && kids[n][i] in up ensures n in up {
      assert Holds(n.kind, kids[n][i].kind);
      HoldsFor(kids[n][i].kind);
    }
    assert UpClosed(kids, up) && x in up && m !in up;
  }
}
