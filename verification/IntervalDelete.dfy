/** Deleting one item of the interval tree: the bounds above it are repaired upwards,
    and the repair may stop early. */
module IntervalDelete {
  import opened HeapIndex
  import opened Items
  import opened Cells
  import opened Memory
  import opened BulkSpec
  import opened BulkSteps
  import opened RangeLoop
  import opened SingleDelete
  import opened Traversal
  import BulkOverlap
  import BulkRanges

  lemma {:induction false} MaxbAttained(c: seq<Cell>, i: nat)
    requires Exact(c, i) && Tidy(c, i) && Live(c, i)
    ensures exists x :: x in Inorder(c, i) && x.key.b == c[i].node.maxb
    decreases |c| - i
  {
    assert c[i].node.item in At(c, i);
    assert c[i].node.item in Inorder(c, i);
    if c[i].node.maxb != c[i].node.item.key.b {
      var k := if Live(c, LeftOf(i)) && c[LeftOf(i)].node.maxb == c[i].node.maxb then LeftOf(i) else RightOf(i);
      MaxbAttained(c, k);
      var x :| x in Inorder(c, k) && x.key.b == c[k].node.maxb;
      assert x in Inorder(c, i);
    }
  }

  /** The greatest end of the listed intervals. */
  ghost predicate GreatestEnd(m: int, s: seq<Item>) {
    && (exists x :: x in s && x.key.b == m)
    && (forall x :: x in s ==> x.key.b <= m)
  }

  /** Bounds that are right node by node are right for whole subtrees, and the other way
      round. */
  lemma {:induction false} ExactIsGreatest(c: seq<Cell>, i: nat)
    requires Tidy(c, i)
    ensures Exact(c, i) <==> forall j: nat :: Below(i, j) && Live(c, j) ==> GreatestEnd(c[j].node.maxb, Inorder(c, j))
    decreases |c| - i
  {
    if i < |c| {
      ExactIsGreatest(c, LeftOf(i));
      ExactIsGreatest(c, RightOf(i));
      BelowKids(i);
      if Live(c, i) && Exact(c, LeftOf(i)) && Exact(c, RightOf(i)) {
        GreatestOfNode(c, i);
      }
    }
  }

  lemma {:induction false} GreatestOfNode(c: seq<Cell>, i: nat)
    requires Tidy(c, i) && Live(c, i) && Exact(c, LeftOf(i)) && Exact(c, RightOf(i))
    ensures c[i].node.maxb == LocalMax(c, i) <==> GreatestEnd(c[i].node.maxb, Inorder(c, i))
  {
    var c' := c[i := Cell(Node(c[i].node.item, LocalMax(c, i)), true)];
    KidsUntouched(c, c', i);
    assert SameItems(c, c');
    SameItemsInorder(c, c', i);
    assert Exact(c', i);
    BulkOverlap.MaxbBounds(c', i);
    MaxbAttained(c', i);
  }

  /** The bound of `i` after an item that ends at `b` left its subtree: it has not grown,
      and it has changed only if `b` was the bound. */
  ghost predicate Dropped(c0: seq<Cell>, c: seq<Cell>, i: nat, b: int) {
    && Live(c0, i) && b <= c0[i].node.maxb
    && (Live(c, i) ==> c[i].node.maxb <= c0[i].node.maxb)
    && (c0[i].node.maxb == b || (Live(c, i) && c[i].node.maxb == c0[i].node.maxb))
  }

  lemma {:induction false} DroppedByRemoval(c0: seq<Cell>, c: seq<Cell>, i: nat, x: Item)
    requires Exact(c0, i) && Tidy(c0, i) && Live(c0, i) && Exact(c, i) && Tidy(c, i)
    requires RemovedOne(Inorder(c0, i), x, Inorder(c, i))
    ensures Dropped(c0, c, i, x.key.b)
  {
    RemovedMembers(Inorder(c0, i), x, Inorder(c, i));
    hide Inorder, Tidy, Exact, RemovedOne;
    BulkOverlap.MaxbBounds(c0, i);
    MaxbAttained(c0, i);
    if Live(c, i) {
      MaxbAttained(c, i);
      BulkOverlap.MaxbBounds(c, i);
    } else {
      NilIsEmpty(c, i);
    }
  }

  /** Only bounds differ. */
  ghost predicate SameItems(c0: seq<Cell>, c: seq<Cell>) {
    |c| == |c0| && forall j :: 0 <= j < |c0| ==> c[j].live == c0[j].live && c[j].node.item == c0[j].node.item
  }

  lemma {:induction false} SameItemsInorder(c0: seq<Cell>, c: seq<Cell>, i: nat)
    requires SameItems(c0, c)
    ensures Inorder(c, i) == Inorder(c0, i) && Tidy(c, i) == Tidy(c0, i)
    decreases |c0| - i
  {
    if i < |c0| {
      SameItemsInorder(c0, c, LeftOf(i));
      SameItemsInorder(c0, c, RightOf(i));
    }
  }

  /** The repair stands at `i`: that subtree is exact again, nothing else has changed since
      `c0`, when the whole subtree at `to` was exact. */
  ghost predicate Repairing(c0: seq<Cell>, c: seq<Cell>, to: nat, i: nat, b: int) {
    && |c| == |c0| && Below(to, i)
    && Exact(c0, to) && Tidy(c0, to)
    && Exact(c, i) && Dropped(c0, c, i, b)
    && (forall j :: !Below(i, j) ==> Same(c0, c, j))
  }

  lemma {:induction false} ExactBelow(c: seq<Cell>, r: nat, i: nat)
    requires Exact(c, r) && Below(r, i)
    ensures Exact(c, i)
    decreases i
  {
    if i != r {
      ExactBelow(c, r, ParentOf(i));
      assert i == LeftOf(ParentOf(i)) || i == RightOf(ParentOf(i));
    }
  }

  /** The parent of the node where the repair stands. */
  lemma {:induction false} ParentFacts(c0: seq<Cell>, c: seq<Cell>, to: nat, i: nat, b: int)
    requires Repairing(c0, c, to, i, b) && i != to
    ensures var p := ParentOf(i);
            && p < i && Below(to, p) && Live(c0, p) && Exact(c0, p) && c[p] == c0[p] && Live(c, p)
            && Exact(c, LeftOf(p)) && Exact(c, RightOf(p))
            && (i == LeftOf(p) || i == RightOf(p))
            && (var s := if i == LeftOf(p) then RightOf(p) else LeftOf(p);
                Live(c, s) == Live(c0, s) && (Live(c, s) ==> c[s] == c0[s]))
            && (forall j :: !Below(p, j) ==> Same(c0, c, j))
  {
    var p := ParentOf(i);
    assert i == LeftOf(p) || i == RightOf(p);
    var s := if i == LeftOf(p) then RightOf(p) else LeftOf(p);
    BelowKids(p);
    ParentLive(c0, to, i);
    ExactBelow(c0, to, p);
    forall j | Below(s, j)
      ensures Same(c0, c, j)
    {
      assert !Below(i, j);
    }
    Frame(c0, c, s);
    assert Below(s, s) && Same(c0, c, s);
    assert !Below(i, p) && Same(c0, c, p);
  }

  /** If the removed bound was the bound of the parent, the parent is recomputed. */
  lemma {:induction false} RepairParent(c0: seq<Cell>, c: seq<Cell>, to: nat, i: nat, b: int)
    requires Repairing(c0, c, to, i, b) && i != to
    requires c[ParentOf(i)].node.maxb == b
    ensures var p := ParentOf(i);
            && Live(c, p)
            && var c' := c[p := Cell(Node(c[p].node.item, LocalMax(c, p)), c[p].live)];
               Repairing(c0, c', to, p, b) && SameItems(c, c')
  {
    hide Inorder, Tidy;
    var p := ParentOf(i);
    ParentFacts(c0, c, to, i, b);
    var c' := c[p := Cell(Node(c[p].node.item, LocalMax(c, p)), c[p].live)];
    BelowKids(p);
    KidsUntouched(c, c', p);
    forall j | !Below(p, j)
      ensures Same(c0, c', j)
    {
      assert Same(c0, c, j);
    }
  }

  /** If it was not, the parent is exact as it is, and so is everything above it. */
  lemma {:induction false} RepairStops(c0: seq<Cell>, c: seq<Cell>, to: nat, i: nat, b: int)
    requires Repairing(c0, c, to, i, b) && i != to
    requires c[ParentOf(i)].node.maxb != b
    ensures Exact(c, to) && Dropped(c0, c, to, b)
  {
    hide Inorder, Tidy;
    var p := ParentOf(i);
    ParentFacts(c0, c, to, i, b);
    assert LocalMax(c, p) == c[p].node.maxb;
    ExactLift(c0, c, to, p, b);
  }

  /** A subtree whose root keeps its bound does not disturb the nodes above it. */
  lemma {:induction false} ExactLift(c0: seq<Cell>, c: seq<Cell>, to: nat, i: nat, b: int)
    requires |c| == |c0| && Below(to, i) && Exact(c0, to) && Tidy(c0, to)
    requires Exact(c, i) && Live(c0, i) && c[i] == c0[i] && b <= c0[i].node.maxb
    requires forall j :: !Below(i, j) ==> Same(c0, c, j)
    ensures Exact(c, to) && Dropped(c0, c, to, b)
    decreases i
  {
    if i != to {
      var p := ParentOf(i);
      assert Repairing(c0, c, to, i, b);
      ParentFacts(c0, c, to, i, b);
      assert LocalMax(c, p) == LocalMax(c0, p);
      ExactLift(c0, c, to, p, b);
    }
  }

  lemma {:induction false} RepairDone(c0: seq<Cell>, c: seq<Cell>, to: nat, b: int)
    requires Repairing(c0, c, to, to, b)
    ensures Exact(c, to) && Dropped(c0, c, to, b)
  {
  }

  /** What the repair has changed so far: bounds, and only inside the subtree at `to`. */
  ghost predicate RepairedSoFar(c0: seq<Cell>, c: seq<Cell>, to: nat) {
    SameItems(c0, c) && forall j :: !Below(to, j) ==> Same(c0, c, j)
  }

  lemma {:induction false} RepairStart(c0: seq<Cell>, c: seq<Cell>, to: nat, i: nat, b: int)
    requires Repairing(c0, c, to, i, b)
    ensures RepairedSoFar(c, c, to)
  {
  }

  lemma {:induction false} RepairFacts(c0: seq<Cell>, c: seq<Cell>, to: nat, i: nat, b: int)
    requires Repairing(c0, c, to, i, b) && i != to
    ensures i > 0 && Below(to, i) && ParentOf(i) < i
    ensures Live(c, ParentOf(i)) && ParentOf(i) < |c| && Below(to, ParentOf(i))
  {
    ParentFacts(c0, c, to, i, b);
  }

  lemma {:induction false} RepairedFurther(c0: seq<Cell>, c: seq<Cell>, to: nat, i: nat)
    requires RepairedSoFar(c0, c, to) && i > 0 && Below(to, ParentOf(i)) && ParentOf(i) < |c|
    ensures RepairedSoFar(c0, Recomputed(c, ParentOf(i)), to)
    ensures Recomputed(c, ParentOf(i))
         == c[ParentOf(i) := Cell(Node(c[ParentOf(i)].node.item, LocalMax(c, ParentOf(i))), c[ParentOf(i)].live)]
  {
  }

  lemma {:induction false} RepairedMeans(c0: seq<Cell>, c: seq<Cell>, to: nat)
    requires RepairedSoFar(c0, c, to)
    ensures SameItems(c0, c) && forall j :: !Below(to, j) ==> Same(c0, c, j)
  {
  }

  //---- cutting items off ------------------------------------------------------------------

  lemma {:induction false} NothingAfterRightmost(c: seq<Cell>, j: nat)
    ensures Below(j, Rightmost(c, j)) && Inorder(c, j) == Before(c, j, Rightmost(c, j)) + Inorder(c, Rightmost(c, j))
    ensures After(c, j, Rightmost(c, j)) == []
    decreases |c| - j
  {
    RightSpine(c, j, j);
    Around(c, j, Rightmost(c, j));
    assert Before(c, j, Rightmost(c, j)) + Inorder(c, Rightmost(c, j)) + []
        == Before(c, j, Rightmost(c, j)) + Inorder(c, Rightmost(c, j));
  }

  lemma {:induction false} RightSpine(c: seq<Cell>, j: nat, i: nat)
    requires Below(j, i) && After(c, j, i) == []
    ensures Below(j, Rightmost(c, i)) && After(c, j, Rightmost(c, i)) == []
    decreases |c| - i
  {
    if Live(c, RightOf(i)) {
      assert ParentOf(RightOf(i)) == i;
      RightSpine(c, j, RightOf(i));
    }
  }

  lemma {:induction false} LeftSpine(c: seq<Cell>, j: nat, i: nat)
    requires Below(j, i) && Before(c, j, i) == []
    ensures Below(j, Leftmost(c, i)) && Before(c, j, Leftmost(c, i)) == []
    decreases |c| - i
  {
    if Live(c, LeftOf(i)) {
      assert ParentOf(LeftOf(i)) == i;
      LeftSpine(c, j, LeftOf(i));
    }
  }

  lemma {:induction false} NothingBeforeLeftmost(c: seq<Cell>, j: nat)
    ensures Below(j, Leftmost(c, j)) && Inorder(c, j) == Inorder(c, Leftmost(c, j)) + After(c, j, Leftmost(c, j))
    ensures Before(c, j, Leftmost(c, j)) == []
  {
    LeftSpine(c, j, j);
    Around(c, j, Leftmost(c, j));
    assert [] + Inorder(c, Leftmost(c, j)) == Inorder(c, Leftmost(c, j));
  }

  /** The subtree at `i` lost its item `x`; it is tidy and exact, and nothing else changed. */
  ghost predicate Cut(c: seq<Cell>, c': seq<Cell>, i: nat, x: Item) {
    && |c'| == |c|
    && RemovedOne(Inorder(c, i), x, Inorder(c', i))
    && Tidy(c', i) && Exact(c', i)
    && (forall j :: !Below(i, j) ==> Same(c, c', j))
    && (forall j: nat :: Live(c', j) ==> Live(c, j))
  }

  ghost predicate CutLast(c: seq<Cell>, c': seq<Cell>, i: nat, x: Item) {
    Cut(c, c', i, x) && Inorder(c, i) == Inorder(c', i) + [x]
  }

  ghost predicate CutFirst(c: seq<Cell>, c': seq<Cell>, i: nat, x: Item) {
    Cut(c, c', i, x) && Inorder(c, i) == [x] + Inorder(c', i)
  }

  lemma {:induction false} LastRemoved(s: seq<Item>, x: Item)
    ensures RemovedOne(s + [x], x, s) && RemovedOne([x] + s, x, s)
  {
    var t, u := s + [x], [x] + s;
    assert t[|s|] == x && s == t[..|s|] + t[|s| + 1..];
    assert u[0] == x && s == u[..0] + u[1..];
  }

  /** A leaf is taken. */
  lemma {:induction false} CutLeaf(c: seq<Cell>, i: nat)
    requires Live(c, i) && Tidy(c, i) && !Live(c, LeftOf(i)) && !Live(c, RightOf(i))
    ensures CutLast(c, Cleared(c, i), i, c[i].node.item) && CutFirst(c, Cleared(c, i), i, c[i].node.item)
    ensures Inorder(Cleared(c, i), i) == Inorder(c, LeftOf(i)) + Inorder(c, RightOf(i))
    ensures GapClosed(c, Cleared(c, i), i)
  {
    hide Inorder, Tidy, Exact, RemovedOne;
    var c', x := Cleared(c, i), c[i].node.item;
    BelowKids(i);
    LeafFacts(c, i);
    KidsUntouched(c, c', i);
    AroundStep(c, i);
    AroundStep(c', i);
    EmptyIsTidy(c', i);
    LastRemoved([], x);
    assert [] + [x] + [] == [x] == [] + [x] == [x] + [];
  }

  lemma {:induction false} LeafFacts(c: seq<Cell>, i: nat)
    requires Tidy(c, i) && !Live(c, LeftOf(i)) && !Live(c, RightOf(i)) && i < |c|
    ensures Inorder(c, LeftOf(i)) == [] == Inorder(c, RightOf(i))
  {
    NilIsEmpty(c, LeftOf(i));
    NilIsEmpty(c, RightOf(i));
  }

  ghost function Replaced(c: seq<Cell>, i: nat, x: Item): seq<Cell>
    requires i < |c|
  {
    c[i := Cell(Node(x, c[i].node.maxb), c[i].live)]
  }

  ghost function Recomputed(c: seq<Cell>, i: nat): seq<Cell>
    requires i < |c|
  {
    c[i := Cell(Node(c[i].node.item, LocalMax(c, i)), c[i].live)]
  }

  /** The root of a subtree takes over the item cut off from one side. */
  lemma {:induction false} ReplacedRoot(c: seq<Cell>, c': seq<Cell>, i: nat, child: nat, repl: Item)
    requires Live(c, i) && Tidy(c, i) && Exact(c, i)
    requires child == LeftOf(i) || child == RightOf(i)
    requires Cut(c, c', child, repl)
    ensures Live(c', i) && c'[i] == c[i]
    ensures var c1 := Recomputed(Replaced(c', i, repl), i);
            && |c1| == |c| && Tidy(c1, i) && Exact(c1, i)
            && (forall j :: !Below(i, j) ==> Same(c, c1, j))
            && Inorder(c1, i) == Inorder(c1, LeftOf(i)) + [repl] + Inorder(c1, RightOf(i))
            && Inorder(c1, child) == Inorder(c', child)
            && (var s := if child == LeftOf(i) then RightOf(i) else LeftOf(i);
                Inorder(c1, s) == Inorder(c, s) && (!Live(c, s) ==> Inorder(c, s) == []))
  {
    hide Inorder, RemovedOne;
    var s := if child == LeftOf(i) then RightOf(i) else LeftOf(i);
    BelowKids(i);
    assert Same(c, c', i);
    Frame(c, c', s);
    var c1 := Recomputed(Replaced(c', i, repl), i);
    Frame(c', c1, child);
    Frame(c', c1, s);
    AroundStep(c1, i);
    if !Live(c, s) {
      NilIsEmpty(c, s);
    }
  }

  /** The last node of a subtree passes on the last item of its own left subtree. */
  lemma {:induction false} PassedUp(c: seq<Cell>, c': seq<Cell>, i: nat, repl: Item)
    requires Live(c, i) && Tidy(c, i) && Exact(c, i) && !Live(c, RightOf(i))
    requires CutLast(c, c', LeftOf(i), repl)
    ensures Live(c', i) && c'[i] == c[i]
    ensures CutLast(c, Recomputed(Replaced(c', i, repl), i), i, c[i].node.item)
  {
    hide Inorder, RemovedOne, Tidy, Exact;
    var c1 := Recomputed(Replaced(c', i, repl), i);
    ReplacedRoot(c, c', i, LeftOf(i), repl);
    AroundStep(c, i);
    PassedSeq(Inorder(c', LeftOf(i)), [repl], [c[i].node.item]);
    LastRemoved(Inorder(c1, i), c[i].node.item);
  }

  lemma {:induction false} PassedSeq(l: seq<Item>, y: seq<Item>, x: seq<Item>)
    ensures (l + y) + x + [] == (l + y + []) + x
    ensures [] + x + (y + l) == x + ([] + y + l)
  {
    assert (l + y) + x + [] == (l + y) + x && l + y + [] == l + y;
    assert [] + x + (y + l) == x + (y + l) && [] + y + l == y + l;
  }

  lemma {:induction false} PassedUpFirst(c: seq<Cell>, c': seq<Cell>, i: nat, repl: Item)
    requires Live(c, i) && Tidy(c, i) && Exact(c, i) && !Live(c, LeftOf(i))
    requires CutFirst(c, c', RightOf(i), repl)
    ensures Live(c', i) && c'[i] == c[i]
    ensures CutFirst(c, Recomputed(Replaced(c', i, repl), i), i, c[i].node.item)
  {
    hide Inorder, RemovedOne, Tidy, Exact;
    var c1 := Recomputed(Replaced(c', i, repl), i);
    ReplacedRoot(c, c', i, RightOf(i), repl);
    AroundStep(c, i);
    PassedSeq(Inorder(c', RightOf(i)), [repl], [c[i].node.item]);
    LastRemoved(Inorder(c1, i), c[i].node.item);
  }

  /** An inner node is replaced by the item next to it. */
  lemma {:induction false} CutRoot(c: seq<Cell>, c': seq<Cell>, i: nat, child: nat, repl: Item)
    requires Live(c, i) && Tidy(c, i) && Exact(c, i)
    requires (child == LeftOf(i) && CutLast(c, c', child, repl)) || (child == RightOf(i) && CutFirst(c, c', child, repl))
    requires Live(c, child) && (child == RightOf(i) ==> !Live(c, LeftOf(i)))
    ensures Live(c', i) && c'[i] == c[i]
    ensures Cut(c, Recomputed(Replaced(c', i, repl), i), i, c[i].node.item)
    ensures Inorder(Recomputed(Replaced(c', i, repl), i), i) == Inorder(c, LeftOf(i)) + Inorder(c, RightOf(i))
    ensures GapClosed(c, Recomputed(Replaced(c', i, repl), i), i)
  {
    hide Inorder, Tidy, Exact, RemovedOne;
    var x := c[i].node.item;
    ReplacedRoot(c, c', i, child, repl);
    AroundStep(c, i);
    var l, r := Inorder(c, LeftOf(i)), Inorder(c, RightOf(i));
    if child == LeftOf(i) {
      CutRootSeq(Inorder(c', child), repl, x, r);
    } else {
      PassedSeq(Inorder(c', child), [repl], [x]);
      LastRemoved([] + [repl] + Inorder(c', child), x);
      Assoc([], [repl], Inorder(c', child));
    }
  }

  lemma {:induction false} CutRootSeq(l: seq<Item>, y: Item, x: Item, r: seq<Item>)
    ensures RemovedOne((l + [y]) + [x] + r, x, l + [y] + r)
  {
    var s, k := (l + [y]) + [x] + r, |l| + 1;
    assert s[k] == x;
    assert s[..k] == l + [y];
    assert s[k + 1..] == r;
  }

  //---- from the cut to the whole subtree ------------------------------------------------------

  lemma {:induction false} StartRepair(c: seq<Cell>, c1: seq<Cell>, to: nat, i: nat, x: Item)
    requires Below(to, i) && Exact(c, to) && Tidy(c, to) && Live(c, i) && Cut(c, c1, i, x)
    ensures Repairing(c, c1, to, i, x.key.b)
    ensures Tidy(c1, to)
    ensures Inorder(c, to) == Before(c, to, i) + Inorder(c, i) + After(c, to, i)
    ensures Inorder(c1, to) == Before(c, to, i) + Inorder(c1, i) + After(c, to, i)
    ensures RemovedOne(Inorder(c, to), x, Inorder(c1, to))
  {
    ExactBelow(c, to, i);
    TidyBelow(c, to, i);
    DroppedByRemoval(c, c1, i, x);
    TidyLift(c, c1, to, i);
    Around(c, to, i);
    Around(c1, to, i);
    AroundFrame(c, c1, to, i);
    RemovedWithin(Before(c, to, i), Inorder(c, i), x, Inorder(c1, i), After(c, to, i));
  }

  /** The repair of the bounds above the cut completes it. */
  lemma {:induction false} RepairedCut(c: seq<Cell>, c1: seq<Cell>, c2: seq<Cell>, to: nat, i: nat, x: Item)
    requires Below(to, i) && Exact(c, to) && Tidy(c, to) && Live(c, i) && Cut(c, c1, i, x)
    requires SameItems(c1, c2) && Exact(c2, to) && forall j :: !Below(to, j) ==> Same(c1, c2, j)
    ensures Cut(c, c2, to, x)
    ensures Inorder(c2, to) == Inorder(c1, to)
  {
    hide Inorder, Tidy, Exact, RemovedOne, Repairing;
    StartRepair(c, c1, to, i, x);
    SameItemsInorder(c1, c2, to);
    forall j | !Below(to, j)
      ensures Same(c, c2, j)
    {
      OutsideOfBelow(to, i, j);
      assert Same(c, c1, j) && Same(c1, c2, j);
    }
  }

  lemma {:induction false} OutsideOfBelow(to: nat, i: nat, j: nat)
    requires Below(to, i) && !Below(to, j)
    ensures !Below(i, j)
  {
    if Below(i, j) {
      BulkRanges.BelowIsTransitive(to, i, j);
    }
  }

  lemma {:induction false} RepairedLast(c: seq<Cell>, c1: seq<Cell>, c2: seq<Cell>, to: nat, x: Item)
    requires var i := Rightmost(c, to);
             Below(to, i) && Exact(c, to) && Tidy(c, to) && Live(c, i) && CutLast(c, c1, i, x)
    requires SameItems(c1, c2) && Exact(c2, to) && forall j :: !Below(to, j) ==> Same(c1, c2, j)
    ensures CutLast(c, c2, to, x)
  {
    hide Inorder, Tidy, Exact, RemovedOne, Repairing, Before, After, Rightmost;
    var i := Rightmost(c, to);
    RepairedCut(c, c1, c2, to, i, x);
    StartRepair(c, c1, to, i, x);
    NothingAfterRightmost(c, to);
    RepairedSeq(Before(c, to, i), Inorder(c1, i), [x]);
  }

  lemma {:induction false} RepairedSeq(b: seq<Item>, s: seq<Item>, x: seq<Item>)
    ensures b + (s + x) + [] == (b + s + []) + x
    ensures [] + (x + s) + b == x + ([] + s + b)
  {
    Assoc(b, s, x);
    assert b + (s + x) + [] == b + (s + x) && b + s + [] == b + s;
    Assoc(x, s, b);
    assert [] + (x + s) == x + s && [] + s == s;
  }

  lemma {:induction false} RepairedFirst(c: seq<Cell>, c1: seq<Cell>, c2: seq<Cell>, to: nat, x: Item)
    requires var i := Leftmost(c, to);
             Below(to, i) && Exact(c, to) && Tidy(c, to) && Live(c, i) && CutFirst(c, c1, i, x)
    requires SameItems(c1, c2) && Exact(c2, to) && forall j :: !Below(to, j) ==> Same(c1, c2, j)
    ensures CutFirst(c, c2, to, x)
  {
    hide Inorder, Tidy, Exact, RemovedOne, Repairing, Before, After, Leftmost;
    var i := Leftmost(c, to);
    RepairedCut(c, c1, c2, to, i, x);
    StartRepair(c, c1, to, i, x);
    NothingBeforeLeftmost(c, to);
    RepairedSeq(After(c, to, i), Inorder(c1, i), [x]);
  }

  //---- facts that the methods need --------------------------------------------------------------

  lemma {:induction false} KidFacts(c: seq<Cell>, i: nat)
    requires Live(c, i) && Tidy(c, i) && Exact(c, i)
    ensures LeftOf(i) > i && RightOf(i) > i && LeftOf(i) != RightOf(i) && i < |c|
    ensures Tidy(c, LeftOf(i)) && Exact(c, LeftOf(i)) && Tidy(c, RightOf(i)) && Exact(c, RightOf(i))
  {
  }

  lemma {:induction false} LastFacts(c: seq<Cell>, i: nat)
    requires Live(c, i) && Tidy(c, i) && Exact(c, i)
    ensures var m := Rightmost(c, i);
            Below(i, m) && m >= i && Live(c, m) && !Live(c, RightOf(m)) && Tidy(c, m) && Exact(c, m)
  {
    LastOf(c, i);
    ExactBelow(c, i, Rightmost(c, i));
  }

  lemma {:induction false} FirstFacts(c: seq<Cell>, i: nat)
    requires Live(c, i) && Tidy(c, i) && Exact(c, i)
    ensures var m := Leftmost(c, i);
            Below(i, m) && m >= i && Live(c, m) && !Live(c, LeftOf(m)) && Tidy(c, m) && Exact(c, m)
  {
    FirstOf(c, i);
    ExactBelow(c, i, Leftmost(c, i));
  }

  lemma {:induction false} ReplacedLive(c: seq<Cell>, i: nat, x: Item)
    requires Live(c, i)
    ensures i < |c| && Live(Replaced(c, i, x), i)
  {
  }

  lemma {:induction false} TakeMeans(m: Mem, i: nat)
    ensures Take(m, i) == m.(c := Cleared(m.c, i))
  {
  }

  lemma {:induction false} LastIsCut(c: seq<Cell>, c': seq<Cell>, i: nat, x: Item)
    ensures CutLast(c, c', i, x) ==> Cut(c, c', i, x)
    ensures CutFirst(c, c', i, x) ==> Cut(c, c', i, x)
  {
  }

  /** The whole tree after one item was deleted and the bounds were repaired. */
  lemma {:induction false} DeletedOne(c: seq<Cell>, c1: seq<Cell>, c2: seq<Cell>, i: nat, x: Item)
    requires Below(0, i) && Exact(c, 0) && Tidy(c, 0) && Live(c, i) && Cut(c, c1, i, x)
    requires Sorted(Inorder(c, 0)) && forall y :: y in Inorder(c, 0) ==> WellFormed(y.key)
    requires Inorder(c1, i) == Inorder(c, LeftOf(i)) + Inorder(c, RightOf(i)) && GapClosed(c, c1, i)
    requires SameItems(c1, c2) && Exact(c2, 0) && forall j :: !Below(0, j) ==> Same(c1, c2, j)
    ensures Inorder(c2, 0) == Without(c, i) && GapClosed(c, c2, i)
    ensures Tidy(c2, 0) && Sorted(Inorder(c2, 0))
    ensures forall y :: y in Inorder(c2, 0) ==> WellFormed(y.key)
    ensures RemovedOne(Inorder(c, 0), x, Inorder(c2, 0))
    ensures forall j: nat :: Live(c2, j) ==> Live(c, j)
  {
    RepairedCut(c, c1, c2, 0, i, x);
    StartRepair(c, c1, 0, i, x);
    SameItemsInorder(c1, c2, LeftOf(i));
    SameItemsInorder(c1, c2, RightOf(i));
    RemovedSorted(Inorder(c, 0), x, Inorder(c2, 0));
    RemovedMembers(Inorder(c, 0), x, Inorder(c2, 0));
  }

  //---- initial bounds -------------------------------------------------------------------------

  /** The bound of node `j` when only the children from `n` on have been looked at. */
  ghost function PartialMax(c: seq<Cell>, j: nat, n: nat): int
    requires j < |c|
  {
    var m := c[j].node.item.key.b;
    var l := if LeftOf(j) >= n && Live(c, LeftOf(j)) then Max(m, c[LeftOf(j)].node.maxb) else m;
    if RightOf(j) >= n && Live(c, RightOf(j)) then Max(l, c[RightOf(j)].node.maxb) else l
  }

  /** The reverse sweep has handed the nodes from `n` on up to their parents. */
  ghost predicate Swept(c: seq<Cell>, n: nat) {
    forall j :: 0 <= j < |c| && Live(c, j) ==> c[j].node.maxb == PartialMax(c, j, n)
  }

  ghost predicate FreshBounds(c: seq<Cell>) {
    forall j :: 0 <= j < |c| && Live(c, j) ==> c[j].node.maxb == c[j].node.item.key.b
  }

  lemma {:induction false} SweepStarts(c: seq<Cell>)
    requires FreshBounds(c)
    ensures Swept(c, |c|)
  {
  }

  ghost function HandedUp(c: seq<Cell>, i: nat): seq<Cell>
    requires 0 < i < |c|
  {
    var p := ParentOf(i);
    c[p := Cell(Node(c[p].node.item, Max(c[p].node.maxb, c[i].node.maxb)), c[p].live)]
  }

  /** Handing up node `i`: its own bound is final by now, as its children come later. */
  lemma {:induction false} SweepStep(c: seq<Cell>, i: nat)
    requires 0 < i < |c| && Live(c, i) && Swept(c, i + 1)
    ensures Swept(HandedUp(c, i), i) && SameItems(c, HandedUp(c, i))
  {
    var p, c' := ParentOf(i), HandedUp(c, i);
    forall j: nat | j < |c'| && Live(c', j)
      ensures c'[j].node.maxb == PartialMax(c', j, i)
    {
      assert c[j].node.maxb == PartialMax(c, j, i + 1);
      if j != p {
        assert LeftOf(j) != i && RightOf(j) != i;
        assert LeftOf(j) >= i ==> LeftOf(j) != p;
        assert RightOf(j) >= i ==> RightOf(j) != p;
      }
    }
  }

  /** A nil cell has nothing to hand up. */
  lemma {:induction false} SweepSkip(c: seq<Cell>, i: nat)
    requires 0 < i < |c| && !Live(c, i) && Swept(c, i + 1)
    ensures Swept(c, i)
  {
    forall j: nat | j < |c| && Live(c, j)
      ensures c[j].node.maxb == PartialMax(c, j, i)
    {
      assert c[j].node.maxb == PartialMax(c, j, i + 1);
    }
  }

  lemma {:induction false} SweepEnds(c: seq<Cell>, i: nat)
    requires Swept(c, 1)
    ensures Exact(c, i)
    decreases |c| - i
  {
    if i < |c| {
      SweepEnds(c, LeftOf(i));
      SweepEnds(c, RightOf(i));
      if Live(c, i) {
        assert c[i].node.maxb == PartialMax(c, i, 1);
      }
    }
  }
}
