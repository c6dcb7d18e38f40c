/** The bulk-delete workers.  The closures that the routines pass to the descents are
    the constructors of `Op`; `Visit` runs the routine that an `Op` names. */
module Workers {
  import opened HeapIndex
  import opened Items
  import opened Cells
  import opened Memory
  import opened BulkSpec
  import opened BulkSteps
  import opened BulkJoins
  import opened BulkRoutines
  import opened BulkFill
  import opened BulkRanges
  import opened BulkOverlap
  import opened RangeLoop
  import opened Traversal
  import opened TreeReprs

  class Worker {
    const repr: TreeRepr
    const g: Config
    /** What the sink has received. */
    var out: seq<Item>

    constructor (repr: TreeRepr, g: Config)
      ensures this.repr == repr && this.g == g && out == []
    {
      this.repr := repr;
      this.g := g;
      out := [];
    }

    //---- single steps ------------------------------------------------------------------

    method FilterTake(idx: nat) returns (taken: Option<Node>)
      requires repr.Valid() && Live(repr.Mem().c, idx)
      modifies repr.Footprint
      ensures repr.Valid()
      ensures taken.Some? == g.accept(old(repr.Mem()).c[idx].node.item.key)
      ensures repr.Mem() == if taken.Some? then Take(old(repr.Mem()), idx) else old(repr.Mem())
      ensures taken.Some? ==> taken.value == old(repr.Mem()).c[idx].node
    {
      if g.accept(repr.GetNode(idx).item.key) {
        var node := repr.Take(idx);
        taken := Some(node);
      } else {
        taken := None;
      }
    }

    method Emit(item: Item)
      modifies this`out
      ensures out == old(out) + [item]
    {
      out := out + [item];
    }

    method FillSlotMin(idx: nat)
      requires repr.Valid() && Live(repr.Mem().c, idx) && SlotsOk(repr.Mem(), idx) && Open(repr.Mem().smin) > 0
      modifies repr.Footprint
      ensures repr.Valid() && repr.Mem() == ToMin(old(repr.Mem()), idx)
    {
      ghost var m := repr.Mem();
      assert m.smin.idx[m.smin.nfilled] in m.smin.idx;
      ProperAncestorIsSmaller(m.smin.idx[m.smin.nfilled], idx);
      var dst := repr.FillMin();
      repr.MoveFromTo(idx, dst);
    }

    method FillSlotMax(idx: nat)
      requires repr.Valid() && Live(repr.Mem().c, idx) && SlotsOk(repr.Mem(), idx) && Open(repr.Mem().smax) > 0
      modifies repr.Footprint
      ensures repr.Valid() && repr.Mem() == ToMax(old(repr.Mem()), idx)
    {
      ghost var m := repr.Mem();
      assert m.smax.idx[m.smax.nfilled] in m.smax.idx;
      ProperAncestorIsSmaller(m.smax.idx[m.smax.nfilled], idx);
      var dst := repr.FillMax();
      repr.MoveFromTo(idx, dst);
    }

    /** The visitor of the interval tree: restores `maxb` of a live node. */
    method UpdateMax(idx: nat)
      requires repr.Valid()
      modifies repr.Footprint
      ensures repr.Valid()
      ensures repr.Mem() ==
                var m := old(repr.Mem());
                if Live(m.c, idx) then WithMaxb(m, idx, LocalMax(m.c, idx)) else m
    {
      if repr.IsNil(idx) {
        return;
      }
      var b := repr.GetNode(idx).item.key.b;
      if repr.HasLeft(idx) {
        b := Max(b, repr.GetNode(LeftOf(idx)).maxb);
      }
      if repr.HasRight(idx) {
        b := Max(b, repr.GetNode(RightOf(idx)).maxb);
      }
      repr.SetMaxb(idx, b);
    }

    //---- visits and descents -----------------------------------------------------------

    /** Runs the routine; the visitor of the interval tree then restores `maxb`. */
    method Visit(idx: nat, op: Op)
      requires repr.Valid() && this !in repr.Footprint && GoodConfig(g) && Ready(g, op, repr.Mem(), idx)
      requires g.augmented ==> Exact(repr.Mem().c, idx)
      modifies this`out, repr.Footprint
      ensures repr.Valid()
      ensures Visited(g, op, old(repr.Mem()), repr.Mem(), idx)
      ensures g.augmented ==> Exact(repr.Mem().c, idx)
      ensures out == old(out) + Taken(g, op, Inorder(old(repr.Mem()).c, idx))
      decreases repr.data.Length - idx, 6
    {
      hide *;
      ghost var m0 := repr.Mem();
      ReadyFacts(g, op, m0, idx);
      match op {
        case FillMin => var _ := FillSlotsMin(idx);
        case FillMax => var _ := FillSlotsMax(idx);
        case Consume => ConsumeSubtreeFiltered(idx);
        case DeleteMin => DeleteRangeMin(idx);
        case DeleteMax => DeleteRangeMax(idx);
        case Overlap(minIncluded) => FilterOverlapIvlRec(idx, minIncluded);
      }
      if g.augmented {
        ghost var m := repr.Mem();
        UpdateMax(idx);
        VisitedExact(g, op, m0, m, repr.Mem(), idx);
      }
    }

    /** The subtree left of `idx` is visited, if there is one; with a slot, `idx` is
        nil and waits on the max stack. */
    method DescendLeft(idx: nat, withSlot: bool, op: Op) returns (removed: bool)
      requires repr.Valid() && this !in repr.Footprint && GoodConfig(g) && LeftReady(g, op, withSlot, repr.Mem(), idx)
      modifies this`out, repr.Footprint
      ensures repr.Valid()
      ensures WentLeft(g, op, withSlot, false, old(repr.Mem()), repr.Mem(), idx)
      ensures removed == !Live(repr.Mem().c, idx)
      ensures out == old(out) + Taken(g, op, Inorder(old(repr.Mem()).c, LeftOf(idx)))
      ensures !Live(old(repr.Mem()).c, LeftOf(idx)) ==> repr.Mem() == old(repr.Mem())
      decreases repr.data.Length - idx, 0
    {
      hide *;
      ghost var m0 := repr.Mem();
      LeftVisit(g, op, withSlot, m0, idx);
      var child := LeftOf(idx);
      if repr.IsNil(child) {
        return withSlot;
      }
      if withSlot {
        repr.MemoryFor(idx, child);
        repr.PushMax(idx);
        Visit(child, op);
        LeftVisited(g, op, true, m0, repr.Mem(), idx);
        var _ := repr.PopMax();
        removed := repr.IsNil(idx);
      } else {
        Visit(child, op);
        LeftVisited(g, op, false, m0, repr.Mem(), idx);
        removed := false;
      }
    }

    /** The mirror image: with a slot, `idx` waits on the min stack. */
    method DescendRight(idx: nat, withSlot: bool, op: Op) returns (removed: bool)
      requires repr.Valid() && this !in repr.Footprint && GoodConfig(g) && RightReady(g, op, withSlot, repr.Mem(), idx)
      modifies this`out, repr.Footprint
      ensures repr.Valid()
      ensures WentRight(g, op, withSlot, old(repr.Mem()), repr.Mem(), idx)
      ensures removed == !Live(repr.Mem().c, idx)
      ensures out == old(out) + Taken(g, op, Inorder(old(repr.Mem()).c, RightOf(idx)))
      decreases repr.data.Length - idx, 0
    {
      hide *;
      ghost var m0 := repr.Mem();
      RightVisit(g, op, withSlot, m0, idx);
      var child := RightOf(idx);
      if repr.IsNil(child) {
        return withSlot;
      }
      if withSlot {
        repr.MemoryFor(idx, child);
        repr.PushMin(idx);
        Visit(child, op);
        RightVisited(g, op, true, m0, repr.Mem(), idx);
        var _ := repr.PopMin();
        removed := repr.IsNil(idx);
      } else {
        Visit(child, op);
        RightVisited(g, op, false, m0, repr.Mem(), idx);
        removed := false;
      }
    }

    /** A left descent during which the outer max slots look filled. */
    method DescendLeftFreshSlots(idx: nat, withSlot: bool, op: Op) returns (removed: bool)
      requires repr.Valid() && this !in repr.Footprint && GoodConfig(g) && LeftReady(g, op, withSlot, Hide(repr.Mem()), idx)
      requires SlotsOk(repr.Mem(), idx)
      modifies this`out, repr.Footprint
      ensures repr.Valid()
      ensures WentLeft(g, op, withSlot, true, old(repr.Mem()), repr.Mem(), idx)
      ensures removed == !Live(repr.Mem().c, idx)
      ensures out == old(out) + Taken(g, op, Inorder(old(repr.Mem()).c, LeftOf(idx)))
      decreases repr.data.Length - idx, 1
    {
      hide *;
      ghost var m0 := repr.Mem();
      HideOk(m0, idx);
      var nfilled := repr.HideMax();
      removed := DescendLeft(idx, withSlot, op);
      WentLeftHidden(g, op, withSlot, m0, repr.Mem(), idx);
      assert !repr.MaxOpen();
      repr.ShowMax(nfilled, m0.hidden);
    }

    //---- filling slots -----------------------------------------------------------------

    /** Fills open min slots with the smallest items of the subtree; says whether all
        are filled. */
    method FillSlotsMin(idx: nat) returns (done: bool)
      requires repr.Valid() && this !in repr.Footprint && GoodConfig(g) && Ready(g, FillMin, repr.Mem(), idx)
      modifies this`out, repr.Footprint
      ensures repr.Valid()
      ensures Visited(g, FillMin, old(repr.Mem()), repr.Mem(), idx)
      ensures g.augmented ==> KidsExact(repr.Mem().c, idx)
      ensures out == old(out) + Taken(g, FillMin, Inorder(old(repr.Mem()).c, idx))
      ensures done == (Open(repr.Mem().smin) == 0)
      decreases repr.data.Length - idx, 3
    {
      hide *;
      ghost var m0 := repr.Mem();
      ReadyFacts(g, FillMin, m0, idx);
      FillMinStart(g, m0, idx);
      ghost var m1 := m0;
      if repr.HasLeft(idx) {
        var _ := DescendLeft(idx, false, FillMin);
        m1 := repr.Mem();
        FillMinMiddle(g, m0, m1, idx);
        if !repr.MinOpen() {
          return true;
        }
      }
      FillMinMiddle(g, m0, m1, idx);
      FillSlotMin(idx);
      var removed := DescendRight(idx, true, FillMin);
      FillMinEnd(g, m0, m1, repr.Mem(), idx);
      done := !removed || !repr.MinOpen();
    }

    /** Fills open max slots with the largest items of the subtree. */
    method FillSlotsMax(idx: nat) returns (done: bool)
      requires repr.Valid() && this !in repr.Footprint && GoodConfig(g) && Ready(g, FillMax, repr.Mem(), idx)
      modifies this`out, repr.Footprint
      ensures repr.Valid()
      ensures Visited(g, FillMax, old(repr.Mem()), repr.Mem(), idx)
      ensures g.augmented ==> KidsExact(repr.Mem().c, idx)
      ensures out == old(out) + Taken(g, FillMax, Inorder(old(repr.Mem()).c, idx))
      ensures done == (Open(repr.Mem().smax) == 0)
      decreases repr.data.Length - idx, 3
    {
      hide *;
      ghost var m0 := repr.Mem();
      ReadyFacts(g, FillMax, m0, idx);
      FillMaxStart(g, m0, idx);
      ghost var m1 := m0;
      if repr.HasRight(idx) {
        var _ := DescendRight(idx, false, FillMax);
        m1 := repr.Mem();
        FillMaxMiddle(g, m0, m1, idx);
        if !repr.MaxOpen() {
          return true;
        }
      }
      FillMaxMiddle(g, m0, m1, idx);
      FillSlotMax(idx);
      var removed := DescendLeft(idx, true, FillMax);
      FillMaxEnd(g, m0, m1, repr.Mem(), idx);
      done := !removed || !repr.MaxOpen();
    }

    //---- consuming subtrees ------------------------------------------------------------

    /** Walks the subtree in order, taking every node behind itself. */
    method ConsumeSubtreeUnfiltered(root: nat)
      requires repr.Valid() && this !in repr.Footprint && Tidy(repr.Mem().c, root)
      modifies this`out, repr.Footprint
      ensures repr.Valid() && Swept(old(repr.Mem()), repr.Mem(), root)
      ensures out == old(out) + Inorder(old(repr.Mem()).c, root)
    {
      hide *;
      ghost var m0 := repr.Mem();
      StartSweep(m0, root);
      var next := repr.FindMin(root);
      if repr.IsNil(root) {
        EndSweep(m0, m0, root);
        return;
      }
      var done := false;
      while !done
        invariant repr.Valid() && Sweeping(m0, repr.Mem(), root)
        invariant out + Inorder(repr.Mem().c, root) == old(out) + Inorder(m0.c, root)
        invariant if done then Inorder(repr.Mem().c, root) == [] else AtWalk(repr.Mem().c, root, next)
        decreases !done, |Inorder(repr.Mem().c, root)|
      {
        done, next := ConsumeNext(root, next, m0);
      }
      EndSweep(m0, repr.Mem(), root);
    }

    /** One turn of the walk. */
    method ConsumeNext(root: nat, curr: nat, ghost m0: Memory.Mem) returns (done: bool, next: nat)
      requires repr.Valid() && this !in repr.Footprint && Sweeping(m0, repr.Mem(), root)
      requires AtWalk(repr.Mem().c, root, curr)
      modifies this`out, repr.Footprint
      ensures repr.Valid() && Sweeping(m0, repr.Mem(), root)
      ensures curr < |old(repr.Mem()).c|
      ensures Inorder(old(repr.Mem()).c, root) == [old(repr.Mem()).c[curr].node.item] + Inorder(repr.Mem().c, root)
      ensures out == old(out) + [old(repr.Mem()).c[curr].node.item]
      ensures if done then Inorder(repr.Mem().c, root) == [] else AtWalk(repr.Mem().c, root, next)
    {
      hide *;
      ghost var c := repr.Mem().c;
      WalkedFacts(repr.Mem(), root, curr);
      var node := repr.Take(curr);
      Emit(node.item);
      ghost var c' := repr.Mem().c;
      SweepStep(m0, old(repr.Mem()), root, curr);
      next := curr;
      if repr.HasRight(curr) {
        WalkRight(c', root, curr);
        next := repr.FindMin(RightOf(curr));
        done := false;
      } else {
        SweepUp(c', root, curr);
        var enclosing := LeftEnclosing(curr + 1);
        done := enclosing <= root + 1;
        if !done {
          next := ParentOf(enclosing - 1);
        }
      }
    }

    /** Takes what the filter accepts; survivors fill the open slots. */
    method ConsumeSubtreeFiltered(idx: nat)
      requires repr.Valid() && this !in repr.Footprint && GoodConfig(g)
      requires Live(repr.Mem().c, idx) ==> Ready(g, Consume, repr.Mem(), idx)
      modifies this`out, repr.Footprint
      ensures repr.Valid()
      ensures !Live(old(repr.Mem()).c, idx) ==> repr.Mem() == old(repr.Mem()) && out == old(out)
      ensures Live(old(repr.Mem()).c, idx) ==>
                && Visited(g, Consume, old(repr.Mem()), repr.Mem(), idx)
                && (g.augmented ==> KidsExact(repr.Mem().c, idx))
                && out == old(out) + Taken(g, Consume, Inorder(old(repr.Mem()).c, idx))
      decreases repr.data.Length - idx, 3
    {
      hide *;
      ghost var m0 := repr.Mem();
      if repr.IsNil(idx) {
        return;
      }
      ReadyFacts(g, Consume, m0, idx);
      ConsumeStart(g, m0, idx);
      var consumed := FilterTake(idx);
      var removed := DescendConsumeLeft(idx, consumed.Some?);
      ghost var m2 := repr.Mem();
      if consumed.Some? {
        Emit(consumed.value.item);
      }
      assert out == old(out) + Taken(g, Consume, Inorder(m0.c, LeftOf(idx)))
                    + if consumed.Some? then [consumed.value.item] else [];
      ConsumeMiddle(g, m0, m2, idx);
      if !removed && repr.MinOpen() {
        removed := true;
        FillSlotMin(idx);
      }
      removed := DescendConsumeRight(idx, removed);
      ghost var m4 := repr.Mem();
      ConsumeTurn(g, m0, m2, m4, idx);
      ConsumeOut(g, m0, idx, old(out), out);
      FillMaxRest(idx, removed, Consume, m0);
    }

    /** The end that the routines share: if a max slot is open, the root goes there;
        if the root is gone, the left subtree fills the slots that remain. */
    method FillMaxRest(idx: nat, removed: bool, ghost op: Op, ghost m0: Mem)
      requires repr.Valid() && this !in repr.Footprint && GoodConfig(g) && UsesMax(op)
      requires Turned(g, UsesMin(op), m0, repr.Mem(), idx, Kept(g, op, Inorder(m0.c, idx)))
      requires removed == !Live(repr.Mem().c, idx)
      modifies this`out, repr.Footprint
      ensures repr.Valid()
      ensures Visited(g, op, m0, repr.Mem(), idx)
      ensures g.augmented ==> KidsExact(repr.Mem().c, idx)
      ensures out == old(out)
      decreases repr.data.Length - idx, 1
    {
      hide *;
      ghost var m4 := repr.Mem();
      MaxStep(g, UsesMin(op), m0, m4, idx, Kept(g, op, Inorder(m0.c, idx)));
      var gone := removed;
      if !gone && repr.MaxOpen() {
        gone := true;
        FillSlotMax(idx);
      }
      if gone {
        var _ := DescendLeft(idx, true, FillMax);
      }
      MaxEnd(g, op, m0, m4, repr.Mem(), idx);
    }

    method DescendConsumeLeft(idx: nat, withSlot: bool) returns (removed: bool)
      requires repr.Valid() && this !in repr.Footprint && GoodConfig(g) && LeftReady(g, Consume, withSlot, Hide(repr.Mem()), idx)
      requires SlotsOk(repr.Mem(), idx)
      modifies this`out, repr.Footprint
      ensures repr.Valid()
      ensures WentLeft(g, Consume, withSlot, true, old(repr.Mem()), repr.Mem(), idx)
      ensures removed == !Live(repr.Mem().c, idx)
      ensures out == old(out) + Taken(g, Consume, Inorder(old(repr.Mem()).c, LeftOf(idx)))
      decreases repr.data.Length - idx, 2
    {
      if g.noop {
        hide Visited, WentLeft, WentRight, SlotsOk, OpReady, TreeReprs.TreeRepr.Valid;
        ghost var m0 := repr.Mem();
        ConsumeSubtreeUnfiltered(LeftOf(idx));
        SweptLeft(g, withSlot, m0, repr.Mem(), idx);
        removed := withSlot;
      } else {
        removed := DescendLeftFreshSlots(idx, withSlot, Consume);
      }
    }

    method DescendConsumeRight(idx: nat, withSlot: bool) returns (removed: bool)
      requires repr.Valid() && this !in repr.Footprint && GoodConfig(g) && RightReady(g, Consume, withSlot, repr.Mem(), idx)
      modifies this`out, repr.Footprint
      ensures repr.Valid()
      ensures WentRight(g, Consume, withSlot, old(repr.Mem()), repr.Mem(), idx)
      ensures removed == !Live(repr.Mem().c, idx)
      ensures out == old(out) + Taken(g, Consume, Inorder(old(repr.Mem()).c, RightOf(idx)))
      ensures g.noop ==>
                && idx < |old(repr.Mem()).c| == |repr.Mem().c|
                && repr.Mem().smin == old(repr.Mem()).smin && repr.Mem().smax == old(repr.Mem()).smax
                && repr.Mem().c[idx] == old(repr.Mem()).c[idx]
      decreases repr.data.Length - idx, 2
    {
      if g.noop {
        hide Visited, WentLeft, WentRight, SlotsOk, OpReady, TreeReprs.TreeRepr.Valid;
        ghost var m0 := repr.Mem();
        ConsumeSubtreeUnfiltered(RightOf(idx));
        SweptRight(g, withSlot, m0, repr.Mem(), idx);
        removed := withSlot;
      } else {
        removed := DescendRight(idx, withSlot, Consume);
      }
    }

    //---- range ends --------------------------------------------------------------------

    /** All keys of the subtree are past the left end of the range. */
    method DeleteRangeMin(idx: nat)
      requires repr.Valid() && this !in repr.Footprint && GoodConfig(g) && Ready(g, DeleteMin, repr.Mem(), idx)
      modifies this`out, repr.Footprint
      ensures repr.Valid()
      ensures Visited(g, DeleteMin, old(repr.Mem()), repr.Mem(), idx)
      ensures g.augmented ==> KidsExact(repr.Mem().c, idx)
      ensures out == old(out) + Taken(g, DeleteMin, Inorder(old(repr.Mem()).c, idx))
      decreases repr.data.Length - idx, 4
    {
      hide *;
      ghost var m0 := repr.Mem();
      ReadyFacts(g, DeleteMin, m0, idx);
      if g.driver.right(repr.GetNode(idx).item.key) {
        DeleteRangeMinInside(idx);
      } else {
        MinOutside(g, m0, idx);
        var _ := DescendLeft(idx, false, DeleteMin);
        ghost var m1 := repr.Mem();
        OutsideMiddle(g, DeleteMin, false, m0, m1, idx);
        OutsideOut(g, DeleteMin, m0, idx);
        if repr.MinOpen() {
          FillSlotMin(idx);
          var _ := DescendRight(idx, true, FillMin);
        }
        OutsideEnd(g, DeleteMin, false, m0, m1, repr.Mem(), idx);
      }
    }

    /** The root and the whole left subtree are inside the range. */
    method DeleteRangeMinInside(idx: nat)
      requires repr.Valid() && this !in repr.Footprint && GoodConfig(g) && Ready(g, DeleteMin, repr.Mem(), idx)
      requires g.driver.right(repr.Mem().c[idx].node.item.key)
      modifies this`out, repr.Footprint
      ensures repr.Valid()
      ensures Visited(g, DeleteMin, old(repr.Mem()), repr.Mem(), idx)
      ensures g.augmented ==> KidsExact(repr.Mem().c, idx)
      ensures out == old(out) + Taken(g, DeleteMin, Inorder(old(repr.Mem()).c, idx))
      decreases repr.data.Length - idx, 3
    {
      hide *;
      ghost var m0 := repr.Mem();
      ReadyFacts(g, DeleteMin, m0, idx);
      MinInsideStart(g, m0, idx);
      var item := FilterTake(idx);
      var removed := DescendConsumeLeft(idx, item.Some?);
      ghost var m2 := repr.Mem();
      if item.Some? {
        Emit(item.value.item);
      }
      assert out == old(out) + Taken(g, Consume, Inorder(m0.c, LeftOf(idx)))
                    + if item.Some? then [item.value.item] else [];
      ghost var o2 := out;
      MinInsideMiddle(g, m0, m2, idx);
      if !g.noop {
        if removed {
          removed := DescendLeft(idx, true, FillMax);
        }
        if !removed && repr.MinOpen() {
          var _ := DescendLeft(idx, false, FillMin);
          assert repr.MinOpen();
          FillSlotMin(idx);
          removed := true;
        }
      }
      assert repr.Mem() == MaybeToMin(m2, idx) && removed == !Live(repr.Mem().c, idx) && out == o2;
      MinInsideRight(g, m0, m2, idx);
      var _ := DescendRight(idx, removed, DeleteMin);
      MinInsideEnd(g, m0, m2, repr.Mem(), idx);
      MinInsideOut(g, m0, idx, old(out), out);
    }

    /** All keys of the subtree are before the right end of the range. */
    method DeleteRangeMax(idx: nat)
      requires repr.Valid() && this !in repr.Footprint && GoodConfig(g) && Ready(g, DeleteMax, repr.Mem(), idx)
      modifies this`out, repr.Footprint
      ensures repr.Valid()
      ensures Visited(g, DeleteMax, old(repr.Mem()), repr.Mem(), idx)
      ensures g.augmented ==> KidsExact(repr.Mem().c, idx)
      ensures out == old(out) + Taken(g, DeleteMax, Inorder(old(repr.Mem()).c, idx))
      decreases repr.data.Length - idx, 4
    {
      hide *;
      ghost var m0 := repr.Mem();
      ReadyFacts(g, DeleteMax, m0, idx);
      if g.driver.left(repr.GetNode(idx).item.key) {
        DeleteRangeMaxInside(idx);
      } else {
        MaxOutside(g, m0, idx);
        var removed := DescendRight(idx, false, DeleteMax);
        MaxOutsideTurn(g, m0, repr.Mem(), idx);
        FillMaxRest(idx, removed, DeleteMax, m0);
      }
    }

    /** The root and the whole right subtree are inside the range. */
    method DeleteRangeMaxInside(idx: nat)
      requires repr.Valid() && this !in repr.Footprint && GoodConfig(g) && Ready(g, DeleteMax, repr.Mem(), idx)
      requires g.driver.left(repr.Mem().c[idx].node.item.key)
      modifies this`out, repr.Footprint
      ensures repr.Valid()
      ensures Visited(g, DeleteMax, old(repr.Mem()), repr.Mem(), idx)
      ensures g.augmented ==> KidsExact(repr.Mem().c, idx)
      ensures out == old(out) + Taken(g, DeleteMax, Inorder(old(repr.Mem()).c, idx))
      decreases repr.data.Length - idx, 3
    {
      hide *;
      ghost var m0 := repr.Mem();
      ReadyFacts(g, DeleteMax, m0, idx);
      MaxInsideStart(g, m0, idx);
      var item := FilterTake(idx);
      var removed := DescendDeleteMaxLeft(idx, item.Some?);
      ghost var m2 := repr.Mem();
      if item.Some? {
        Emit(item.value.item);
      }
      assert out == old(out) + Taken(g, DeleteMax, Inorder(m0.c, LeftOf(idx)))
                    + if item.Some? then [item.value.item] else [];
      MaxInsideMiddle(g, m0, m2, idx);
      removed := DescendConsumeRight(idx, removed);
      MaxInsideOut(g, m0, idx, old(out), out);
      if g.noop {
        MaxInsideNoop(g, m0, m2, repr.Mem(), idx);
      } else {
        MaxInsideTurn(g, m0, m2, repr.Mem(), idx);
        FillMaxRest(idx, removed, DeleteMax, m0);
      }
    }

    method DescendDeleteMaxLeft(idx: nat, withSlot: bool) returns (removed: bool)
      requires repr.Valid() && this !in repr.Footprint && GoodConfig(g) && SlotsOk(repr.Mem(), idx)
      requires LeftReady(g, DeleteMax, withSlot, if g.noop then repr.Mem() else Hide(repr.Mem()), idx)
      modifies this`out, repr.Footprint
      ensures repr.Valid()
      ensures WentLeft(g, DeleteMax, withSlot, !g.noop, old(repr.Mem()), repr.Mem(), idx)
      ensures removed == !Live(repr.Mem().c, idx)
      ensures out == old(out) + Taken(g, DeleteMax, Inorder(old(repr.Mem()).c, LeftOf(idx)))
      decreases repr.data.Length - idx, 2
    {
      hide *;
      if g.noop {
        removed := DescendLeft(idx, withSlot, DeleteMax);
      } else {
        removed := DescendLeftFreshSlots(idx, withSlot, DeleteMax);
      }
    }

    //---- overlaps ----------------------------------------------------------------------

    /** Takes the items of the subtree that overlap the query.  `minIncluded` says that
        all of them start at or after the start of the query. */
    method FilterOverlapIvlRec(idx: nat, minIncluded: bool)
      requires repr.Valid() && this !in repr.Footprint && GoodConfig(g) && Ready(g, Overlap(minIncluded), repr.Mem(), idx)
      modifies this`out, repr.Footprint
      ensures repr.Valid()
      ensures Visited(g, Overlap(minIncluded), old(repr.Mem()), repr.Mem(), idx)
      ensures g.augmented ==> KidsExact(repr.Mem().c, idx)
      ensures out == old(out) + Taken(g, Overlap(minIncluded), Inorder(old(repr.Mem()).c, idx))
      decreases repr.data.Length - idx, 5
    {
      hide *;
      ghost var m0 := repr.Mem();
      ReadyFacts(g, Overlap(minIncluded), m0, idx);
      var node := repr.GetNode(idx);
      var k := node.item.key;
      if node.maxb < g.query.a {
        PassStart(g, minIncluded, m0, idx);
        if repr.MinOpen() {
          var _ := FillSlotsMin(idx);
        }
        ghost var m1 := repr.Mem();
        PassMiddle(g, minIncluded, m0, m1, idx);
        if repr.MaxOpen() && !repr.IsNil(idx) {
          var _ := FillSlotsMax(idx);
        }
        PassEnd(g, minIncluded, m0, m1, repr.Mem(), idx);
      } else if g.query.b <= k.a && k.a != g.query.a {
        BeyondMeans(g.query, k);
        FilterOverlapBeyond(idx, minIncluded);
      } else {
        var removed := FilterOverlapLeft(idx, minIncluded);
        ghost var m3 := repr.Mem();
        OverlapRightStart(g, minIncluded, m0, m3, idx);
        // the cell is read again: it may hold a survivor from the left by now
        var rightMinIncluded := minIncluded || g.query.a <= repr.GetNode(idx).item.key.a;
        if rightMinIncluded {
          var rightMaxIncluded := repr.GetNode(idx).maxb < g.query.b;
          if rightMaxIncluded {
            removed := DescendConsumeRight(idx, removed);
          } else {
            removed := DescendRight(idx, removed, Overlap(true));
          }
        } else {
          removed := DescendRight(idx, removed, Overlap(false));
        }
        OverlapOut(g, minIncluded, m0, m3, idx, old(out), out);
        OverlapTurn(g, minIncluded, m0, m3, repr.Mem(), idx);
        FillMaxRest(idx, removed, Overlap(minIncluded), m0);
      }
    }

    /** The root and the right subtree are outside the query. */
    method FilterOverlapBeyond(idx: nat, minIncluded: bool)
      requires repr.Valid() && this !in repr.Footprint && GoodConfig(g) && Ready(g, Overlap(minIncluded), repr.Mem(), idx)
      requires Beyond(g.query, repr.Mem().c[idx].node.item.key)
      modifies this`out, repr.Footprint
      ensures repr.Valid()
      ensures Visited(g, Overlap(minIncluded), old(repr.Mem()), repr.Mem(), idx)
      ensures g.augmented ==> KidsExact(repr.Mem().c, idx)
      ensures out == old(out) + Taken(g, Overlap(minIncluded), Inorder(old(repr.Mem()).c, idx))
      decreases repr.data.Length - idx, 4
    {
      hide *;
      ghost var m0 := repr.Mem();
      ReadyFacts(g, Overlap(minIncluded), m0, idx);
      OverlapOutside(g, minIncluded, m0, idx);
      var _ := DescendLeftFreshSlots(idx, false, Overlap(minIncluded));
      ghost var m1 := repr.Mem();
      OutsideMiddle(g, Overlap(minIncluded), true, m0, m1, idx);
      OutsideOut(g, Overlap(minIncluded), m0, idx);
      if repr.MinOpen() {
        FillSlotMin(idx);
        var _ := DescendRight(idx, true, FillMin);
      }
      OutsideEnd(g, Overlap(minIncluded), true, m0, m1, repr.Mem(), idx);
      if repr.MaxOpen() {
        // the source fills max slots from the left subtree here, but no max slot is
        // ever open
        assert false;
      }
    }

    /** The root is taken if it overlaps and passes the filter; then the left subtree. */
    method FilterOverlapLeft(idx: nat, minIncluded: bool) returns (removed: bool)
      requires repr.Valid() && this !in repr.Footprint && GoodConfig(g)
      requires Ready(g, Overlap(minIncluded), repr.Mem(), idx)
      modifies this`out, repr.Footprint
      ensures repr.Valid()
      ensures RightNext(g, minIncluded, old(repr.Mem()), repr.Mem(), idx)
      ensures removed == !Live(repr.Mem().c, idx)
      ensures var m0 := old(repr.Mem());
              var taken := Hit(g, Overlap(minIncluded), m0.c[idx].node.item.key);
              out == old(out) + Taken(g, LeftOp(minIncluded, taken), Inorder(m0.c, LeftOf(idx)))
                     + if taken then [m0.c[idx].node.item] else []
      decreases repr.data.Length - idx, 4
    {
      hide *;
      ghost var m0 := repr.Mem();
      ReadyFacts(g, Overlap(minIncluded), m0, idx);
      OverlapLeftStart(g, minIncluded, m0, idx);
      var k := repr.GetNode(idx).item.key;
      var consumed := None;
      if Overlaps(g.query, k) {
        consumed := FilterTake(idx);
      }
      if consumed.Some? {
        if minIncluded {
          removed := DescendConsumeLeft(idx, true);
        } else {
          removed := DescendLeftFreshSlots(idx, true, Overlap(false));
        }
        TakenNext(g, minIncluded, m0, repr.Mem(), idx);
        repr.SetMaxb(idx, consumed.value.maxb);
        Emit(consumed.value.item);
      } else {
        var _ := DescendLeftFreshSlots(idx, false, Overlap(minIncluded));
        NotTakenNext(g, minIncluded, m0, repr.Mem(), idx);
        if repr.MinOpen() {
          removed := true;
          FillSlotMin(idx);
        } else {
          removed := false;
        }
      }
    }

    //---- whole trees -------------------------------------------------------------------

    /** Nothing is going on: no slots, no dangling nodes. */
    ghost predicate Idle()
      reads this, repr, repr.Footprint, repr.data, repr.mask, repr.slotsMin, repr.slotsMax,
            repr.slotsMin.slots, repr.slotsMax.slots
    {
      && repr.Valid() && this !in repr.Footprint && GoodConfig(g)
      && Tidy(repr.Mem().c, 0)
      && Quiet(repr.Mem())
    }

    /** Takes all items in range that the filter accepts. */
    method Filter()
      requires Idle() && !g.augmented && Sorted(Inorder(repr.Mem().c, 0))
      modifies this`out, repr.Footprint
      ensures Idle()
      ensures Inorder(repr.Mem().c, 0) == Kept(g, DeleteMin, Inorder(old(repr.Mem()).c, 0))
      ensures out == old(out) + Taken(g, DeleteMin, Inorder(old(repr.Mem()).c, 0))
      ensures StaysWithin(old(repr.Mem()), repr.Mem())
      ensures Wiped(g, old(repr.Mem()), repr.Mem(), 0, 0, Kept(g, DeleteMin, Inorder(old(repr.Mem()).c, 0)))
    {
      DeleteRangeLoop(0);
      assert repr.slotsMin.IsEmpty();
      assert repr.slotsMax.IsEmpty();
    }

    /** Looks for the topmost node in range. */
    method DeleteRangeLoop(start: nat)
      requires Idle() && !g.augmented && start == 0 && Sorted(Inorder(repr.Mem().c, 0))
      modifies this`out, repr.Footprint
      ensures Idle()
      ensures Inorder(repr.Mem().c, 0) == Kept(g, DeleteMin, Inorder(old(repr.Mem()).c, 0))
      ensures out == old(out) + Taken(g, DeleteMin, Inorder(old(repr.Mem()).c, 0))
      ensures StaysWithin(old(repr.Mem()), repr.Mem())
      ensures Wiped(g, old(repr.Mem()), repr.Mem(), 0, 0, Kept(g, DeleteMin, Inorder(old(repr.Mem()).c, 0)))
    {
      ghost var m0 := repr.Mem();
      var idx := start;
      SearchStart(g, m0.c);
      while true
        invariant Idle() && repr.Mem() == m0 && out == old(out)
        invariant Searching(g, m0.c, idx)
        decreases repr.data.Length - idx
      {
        if repr.IsNil(idx) {
          SearchMissed(g, m0.c, idx);
          StaysItself(m0);
          NothingToClimb(g, DeleteMin, m0);
          return;
        }
        var k := repr.GetNode(idx).item.key;
        var left, right := g.driver.left(k), g.driver.right(k);
        if left && right {
          TopFacts(g, m0, idx);
          DeleteAtTop(idx);
          SearchDone(g, m0, repr.Mem(), idx);
          SearchedKept(g, m0.c, idx);
          return;
        } else if left {
          SearchLeft(g, m0.c, idx);
          idx := LeftOf(idx);
        } else {
          assert right;
          SearchRight(g, m0.c, idx);
          idx := RightOf(idx);
        }
      }
    }

    /** The topmost node in range: the right end lies to its left, the left end to its
        right. */
    method DeleteAtTop(idx: nat)
      requires repr.Valid() && this !in repr.Footprint && AtTop(g, repr.Mem(), idx)
      modifies this`out, repr.Footprint
      ensures repr.Valid()
      ensures Visited(g, DeleteMin, old(repr.Mem()), repr.Mem(), idx)
      ensures out == old(out) + Taken(g, DeleteMin, Inorder(old(repr.Mem()).c, idx))
    {
      hide *;
      ghost var m0 := repr.Mem();
      TopStart(g, m0, idx);
      var item := FilterTake(idx);
      var removed := DescendDeleteMaxLeft(idx, item.Some?);
      ghost var m2 := repr.Mem();
      if item.Some? {
        Emit(item.value.item);
      }
      assert out == old(out) + Taken(g, DeleteMax, Inorder(m0.c, LeftOf(idx)))
                    + if item.Some? then [item.value.item] else [];
      TopMiddle(g, m0, m2, idx);
      var _ := DescendRight(idx, removed, DeleteMin);
      TopEnd(g, m0, m2, repr.Mem(), idx);
      TopOut(g, m0, idx, old(out), out);
    }

    /** Takes all items that overlap the query and pass the filter. */
    method FilterOverlap()
      requires Idle() && g.augmented && Exact(repr.Mem().c, 0)
      requires Sorted(Inorder(repr.Mem().c, 0))
      requires forall x :: x in Inorder(repr.Mem().c, 0) ==> WellFormed(x.key)
      modifies this`out, repr.Footprint
      ensures Idle() && Exact(repr.Mem().c, 0)
      ensures Inorder(repr.Mem().c, 0) == Kept(g, Overlap(false), Inorder(old(repr.Mem()).c, 0))
      ensures out == old(out) + Taken(g, Overlap(false), Inorder(old(repr.Mem()).c, 0))
      ensures StaysWithin(old(repr.Mem()), repr.Mem())
      ensures Wiped(g, old(repr.Mem()), repr.Mem(), 0, 0, Kept(g, Overlap(false), Inorder(old(repr.Mem()).c, 0)))
    {
      ghost var m0 := repr.Mem();
      if repr.size != 0 {
        OverlapTop(g, m0);
        Visit(0, Overlap(false));
        OverlapTopDone(g, m0, repr.Mem());
      } else {
        StaysItself(m0);
        NothingToClimb(g, Overlap(false), m0);
      }
    }
  }
}
