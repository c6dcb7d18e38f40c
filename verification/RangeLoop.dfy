/** From a subtree back to the whole tree: the search for the topmost node in range. */
module RangeLoop {
  import opened HeapIndex
  import opened Items
  import opened Cells
  import opened Memory
  import opened BulkSpec
  import opened BulkSteps
  import opened BulkJoins
  import opened BulkRoutines
  import opened BulkRanges
  import opened Traversal

  //---- paths to the root ----------------------------------------------------------------

  lemma {:induction false} ParentLive(c: seq<Cell>, r: nat, i: nat)
    requires Tidy(c, r) && Below(r, i) && i != r && Live(c, i)
    ensures Live(c, ParentOf(i))
  {
    TidyBelow(c, r, ParentOf(i));
    assert i == LeftOf(ParentOf(i)) || i == RightOf(ParentOf(i));
  }

  /** A change inside a tidy subtree keeps the whole tidy. */
  lemma {:induction false} TidyLift(c0: seq<Cell>, c1: seq<Cell>, r: nat, i: nat)
    requires Tidy(c0, r) && Below(r, i) && Live(c0, i) && Tidy(c1, i) && |c0| == |c1|
    requires forall j :: !Below(i, j) ==> Same(c0, c1, j)
    ensures Tidy(c1, r)
    decreases i
  {
    if i != r {
      var p := ParentOf(i);
      BelowKids(p);
      ParentLive(c0, r, i);
      assert i == LeftOf(p) || i == RightOf(p);
      assert !Below(i, p) && Same(c0, c1, p);
      TidyBelow(c0, r, p);
      Frame(c0, c1, if i == LeftOf(p) then RightOf(p) else LeftOf(p));
      forall j | !Below(p, j)
        ensures Same(c0, c1, j)
      {
        assert !Below(i, j);
      }
      TidyLift(c0, c1, r, p);
    }
  }

  lemma {:induction false} TidyAhead(c: seq<Cell>, r: nat, i: nat)
    requires Tidy(c, r) && Below(r, i) && (i > r ==> Live(c, ParentOf(i)))
    ensures Ahead(c, r, i)
    decreases i
  {
    if i != r {
      var p := ParentOf(i);
      TidyBelow(c, r, p);
      if p != r {
        ParentLive(c, r, p);
      }
      TidyAhead(c, r, p);
    }
  }

  /** With empty stacks in a tidy tree, the slots are in order at every live node. */
  lemma {:induction false} NoSlotsOk(m: Mem, i: nat)
    requires Tidy(m.c, 0) && Live(m.c, i)
    requires Quiet(m)
    ensures SlotsOk(m, i)
  {
    forall a: nat | ProperAncestor(a, i)
      ensures Live(m.c, a)
    {
      BelowRoot(a);
      TidyBelow(m.c, 0, a);
      TidyBelow(m.c, a, i);
    }
  }

  lemma {:induction false} NoSlotsFilled(m0: Mem, m1: Mem, i: nat)
    requires Outside(m0, m1, i) && Quiet(m0)
    ensures Quiet(m1)
    ensures NewMin(m0, m1) == [] && NewMax(m0, m1) == []
    ensures forall j :: !Below(i, j) ==> Same(m0.c, m1.c, j)
  {
  }

  //---- the topmost node in range --------------------------------------------------------

  /** The search stands at `i`: everything to the left and right of that subtree is out
      of range. */
  ghost predicate Searching(g: Config, c: seq<Cell>, i: nat) {
    && Below(0, i) && Tidy(c, 0) && Sorted(Inorder(c, 0))
    && (i > 0 ==> Live(c, ParentOf(i)))
    && (forall x :: x in Before(c, 0, i) ==> !Hit(g, DeleteMin, x.key))
    && (forall x :: x in After(c, 0, i) ==> !Hit(g, DeleteMin, x.key))
  }

  lemma {:induction false} SearchStart(g: Config, c: seq<Cell>)
    requires Tidy(c, 0) && Sorted(Inorder(c, 0))
    ensures Searching(g, c, 0)
  {
  }

  lemma {:induction false} SearchSorted(g: Config, c: seq<Cell>, i: nat)
    requires Searching(g, c, i)
    ensures Sorted(Inorder(c, i)) && Tidy(c, i)
  {
    TidyBelow(c, 0, i);
    Around(c, 0, i);
    SortedSplit(Before(c, 0, i) + Inorder(c, i), After(c, 0, i));
    SortedSplit(Before(c, 0, i), Inorder(c, i));
  }

  lemma {:induction false} SearchLeft(g: Config, c: seq<Cell>, i: nat)
    requires GoodConfig(g) && Searching(g, c, i) && Live(c, i) && !g.driver.right(c[i].node.item.key)
    ensures Searching(g, c, LeftOf(i)) && LeftOf(i) > i
  {
    hide Inorder, Tidy, Sorted;
    SearchSorted(g, c, i);
    SortedAround(c, i);
    assert ParentOf(LeftOf(i)) == i;
  }

  lemma {:induction false} SearchRight(g: Config, c: seq<Cell>, i: nat)
    requires GoodConfig(g) && Searching(g, c, i) && Live(c, i) && !g.driver.left(c[i].node.item.key)
    ensures Searching(g, c, RightOf(i)) && RightOf(i) > i
  {
    hide Inorder, Tidy, Sorted;
    SearchSorted(g, c, i);
    SortedAround(c, i);
    assert ParentOf(RightOf(i)) == i;
  }

  /** What the search may skip is kept and not taken. */
  lemma {:induction false} SearchedKept(g: Config, c: seq<Cell>, i: nat)
    requires Searching(g, c, i)
    ensures Kept(g, DeleteMin, Inorder(c, 0))
         == Before(c, 0, i) + Kept(g, DeleteMin, Inorder(c, i)) + After(c, 0, i)
    ensures Taken(g, DeleteMin, Inorder(c, 0)) == Taken(g, DeleteMin, Inorder(c, i))
  {
    Around(c, 0, i);
    var b, s, a := Before(c, 0, i), Inorder(c, i), After(c, 0, i);
    TakenConcat(g, DeleteMin, b + s, a);
    TakenConcat(g, DeleteMin, b, s);
    NoneTaken(g, DeleteMin, b);
    NoneTaken(g, DeleteMin, a);
  }

  lemma {:induction false} SearchMissed(g: Config, c: seq<Cell>, i: nat)
    requires Searching(g, c, i) && !Live(c, i)
    ensures Kept(g, DeleteMin, Inorder(c, 0)) == Inorder(c, 0)
    ensures Taken(g, DeleteMin, Inorder(c, 0)) == []
  {
    SearchSorted(g, c, i);
    NilIsEmpty(c, i);
    SearchedKept(g, c, i);
    Around(c, 0, i);
  }

  /** If nothing survives, the search has not gone past the root. */
  lemma {:induction false} SearchWiped(g: Config, m0: Mem, m1: Mem, i: nat)
    requires Searching(g, m0.c, i) && Live(m0.c, i)
    requires Visited(g, DeleteMin, m0, m1, i)
    ensures Wiped(g, m0, m1, 0, 0, Kept(g, DeleteMin, Inorder(m0.c, 0)))
  {
    hide Inorder, Kept, Outside, Hit;
    SearchedKept(g, m0.c, i);
    PassedNode(g, m0.c, i);
  }

  lemma {:induction false} PassedNode(g: Config, c: seq<Cell>, i: nat)
    requires Searching(g, c, i)
    ensures i > 0 ==> Before(c, 0, i) != [] || After(c, 0, i) != []
  {
    hide Inorder;
    assert i > 0 ==> At(c, ParentOf(i)) != [];
  }

  /** An empty tree has nothing to climb to. */
  lemma {:induction false} NothingToClimb(g: Config, op: Op, m: Mem)
    requires Tidy(m.c, 0) && (Inorder(m.c, 0) == [] || Kept(g, op, Inorder(m.c, 0)) == Inorder(m.c, 0))
    ensures Wiped(g, m, m, 0, 0, Kept(g, op, Inorder(m.c, 0)))
  {
    if Inorder(m.c, 0) == [] {
      EmptyIsNil(m.c, 0);
      NoneBelowNil(m.c, 0);
    }
  }

  /** The whole tree after the subtree at `i` was dealt with. */
  lemma {:induction false} SearchDone(g: Config, m0: Mem, m1: Mem, i: nat)
    requires Searching(g, m0.c, i) && Live(m0.c, i) && Quiet(m0)
    requires Visited(g, DeleteMin, m0, m1, i)
    ensures Inorder(m1.c, 0) == Kept(g, DeleteMin, Inorder(m0.c, 0))
    ensures Tidy(m1.c, 0)
    ensures Quiet(m1) && StaysWithin(m0, m1)
    ensures Wiped(g, m0, m1, 0, 0, Kept(g, DeleteMin, Inorder(m0.c, 0)))
  {
    NoSlotsFilled(m0, m1, i);
    SearchWiped(g, m0, m1, i);
    TidyLift(m0.c, m1.c, 0, i);
    SearchedKept(g, m0.c, i);
    Around(m1.c, 0, i);
    AroundFrame(m0.c, m1.c, 0, i);
    assert [] + Inorder(m1.c, i) + [] == Inorder(m1.c, i);
  }

  //---- the topmost node in range is where both ends are served --------------------------

  lemma {:induction false} TopFacts(g: Config, m0: Mem, i: nat)
    requires !g.augmented
    requires Searching(g, m0.c, i) && Live(m0.c, i) && Quiet(m0)
    ensures Ready(g, Consume, m0, i) && Sorted(Inorder(m0.c, i))
  {
    SearchSorted(g, m0.c, i);
    NoSlotsOk(m0, i);
  }

  ghost predicate AtTop(g: Config, m0: Mem, i: nat) {
    && GoodConfig(g) && !g.augmented
    && Ready(g, Consume, m0, i) && Sorted(Inorder(m0.c, i))
    && Quiet(m0)
    && g.driver.left(m0.c[i].node.item.key) && g.driver.right(m0.c[i].node.item.key)
  }

  lemma {:induction false} TopHits(g: Config, m0: Mem, i: nat)
    requires AtTop(g, m0, i)
    ensures Hit(g, DeleteMin, m0.c[i].node.item.key) == g.accept(m0.c[i].node.item.key)
    ensures forall x :: x in Inorder(m0.c, LeftOf(i)) ==>
              g.driver.right(x.key) && Hit(g, DeleteMin, x.key) == Hit(g, DeleteMax, x.key)
    ensures forall x :: x in Inorder(m0.c, RightOf(i)) ==> g.driver.left(x.key)
    ensures Sorted(Inorder(m0.c, LeftOf(i))) && Sorted(Inorder(m0.c, RightOf(i)))
  {
    SortedAround(m0.c, i);
  }

  lemma {:induction false} TopStart(g: Config, m0: Mem, i: nat)
    requires AtTop(g, m0, i)
    ensures GoodConfig(g) && Live(m0.c, i) && i < |m0.c|
    ensures var taken := g.accept(m0.c[i].node.item.key);
            var m1 := MaybeTaken(m0, i, taken);
            && LeftReady(g, DeleteMax, taken, Hide(m1), i) && LeftReady(g, DeleteMax, taken, m1, i)
            && SlotsOk(m1, i)
            && Inorder(m1.c, LeftOf(i)) == Inorder(m0.c, LeftOf(i))
            && m1 == (if taken then Take(m0, i) else m0)
  {
    TopHits(g, m0, i);
    LeftStart(g, Consume, DeleteMax, g.accept(m0.c[i].node.item.key), m0, i);
  }

  /** With no outer max slot open, hiding them makes no difference. */
  lemma {:induction false} HiddenAnyway(g: Config, op: Op, slot: bool, m: Mem, m1: Mem, i: nat, hidden: bool)
    requires WentLeft(g, op, slot, hidden, m, m1, i) && Open(m.smax) == 0
    ensures WentLeft(g, op, slot, true, m, m1, i)
  {
  }

  lemma {:induction false} TopMiddle(g: Config, m0: Mem, m2: Mem, i: nat)
    requires AtTop(g, m0, i)
    requires var taken := g.accept(m0.c[i].node.item.key);
             WentLeft(g, DeleteMax, taken, !g.noop, MaybeTaken(m0, i, taken), m2, i)
    ensures RightReady(g, DeleteMin, !Live(m2.c, i), m2, i)
    ensures Inorder(m2.c, RightOf(i)) == Inorder(m0.c, RightOf(i))
    ensures SlotsOk(m2, i)
  {
    var taken := g.accept(m0.c[i].node.item.key);
    var part := PartKept(g, DeleteMax, taken, m0, i);
    HiddenAnyway(g, DeleteMax, taken, MaybeTaken(m0, i, taken), m2, i, !g.noop);
    LeftEnd(g, Consume, DeleteMax, taken, m0, m2, i);
    TopHits(g, m0, i);
    SettledFacts(g, true, m0, m2, i, part);
    RightStart(g, DeleteMin, true, m0, m2, i, part);
  }

  lemma {:induction false} TopEnd(g: Config, m0: Mem, m2: Mem, m4: Mem, i: nat)
    requires AtTop(g, m0, i)
    requires var taken := g.accept(m0.c[i].node.item.key);
             WentLeft(g, DeleteMax, taken, !g.noop, MaybeTaken(m0, i, taken), m2, i)
    requires WentRight(g, DeleteMin, !Live(m2.c, i), m2, m4, i)
    ensures Visited(g, DeleteMin, m0, m4, i)
  {
    var taken := g.accept(m0.c[i].node.item.key);
    HiddenAnyway(g, DeleteMax, taken, MaybeTaken(m0, i, taken), m2, i, !g.noop);
    LeftEnd(g, Consume, DeleteMax, taken, m0, m2, i);
    TopHits(g, m0, i);
    SettledFacts(g, true, m0, m2, i, PartKept(g, DeleteMax, taken, m0, i));
    RightEnd(g, DeleteMin, DeleteMax, DeleteMin, taken, m0, m2, m4, i);
    FinishedAsIs(g, DeleteMin, m0, m4, i);
  }

  lemma {:induction false} TopOut(g: Config, m0: Mem, i: nat, o0: seq<Item>, o: seq<Item>)
    requires AtTop(g, m0, i)
    requires o == o0 + Taken(g, DeleteMax, Inorder(m0.c, LeftOf(i)))
                  + (if g.accept(m0.c[i].node.item.key) then [m0.c[i].node.item] else [])
                  + Taken(g, DeleteMin, Inorder(m0.c, RightOf(i)))
    ensures o == o0 + Taken(g, DeleteMin, Inorder(m0.c, i))
  {
    TopHits(g, m0, i);
    OutEnd(g, DeleteMin, DeleteMax, DeleteMin, g.accept(m0.c[i].node.item.key), m0, i, o0, o);
  }

  //---- overlaps start at the root ---------------------------------------------------------

  lemma {:induction false} OverlapTop(g: Config, m0: Mem)
    requires GoodConfig(g) && g.augmented && Exact(m0.c, 0) && Tidy(m0.c, 0) && Inorder(m0.c, 0) != []
    requires Quiet(m0) && Sorted(Inorder(m0.c, 0))
    requires forall x :: x in Inorder(m0.c, 0) ==> WellFormed(x.key)
    ensures Ready(g, Overlap(false), m0, 0)
  {
    if !Live(m0.c, 0) {
      NilIsEmpty(m0.c, 0);
    }
    NoSlotsOk(m0, 0);
  }

  lemma {:induction false} OverlapTopDone(g: Config, m0: Mem, m1: Mem)
    requires Quiet(m0)
    requires Visited(g, Overlap(false), m0, m1, 0)
    ensures Inorder(m1.c, 0) == Kept(g, Overlap(false), Inorder(m0.c, 0))
    ensures Quiet(m1) && StaysWithin(m0, m1)
    ensures Wiped(g, m0, m1, 0, 0, Kept(g, Overlap(false), Inorder(m0.c, 0)))
  {
    NoSlotsFilled(m0, m1, 0);
    assert [] + Inorder(m1.c, 0) + [] == Inorder(m1.c, 0);
  }
}
