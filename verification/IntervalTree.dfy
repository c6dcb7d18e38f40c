/** The interval tree. */
module IntervalTrees {
  import opened HeapIndex
  import opened Items
  import opened Cells
  import opened Memory
  import opened BulkSpec
  import opened BulkSteps
  import opened Traversal
  import opened RangeLoop
  import opened SingleDelete
  import opened IntervalDelete
  import opened Selections
  import opened OverlapQuery
  import opened TreeReprs
  import opened Workers
  import BulkOverlap
  import Layout

  class IvTree {
    const repr: TreeRepr

    constructor (repr: TreeRepr)
      ensures this.repr == repr
    {
      this.repr := repr;
    }

    constructor WithSorted(sorted: seq<Item>)
      requires Sorted(sorted) && forall x :: x in sorted ==> WellFormed(x.key)
      ensures Valid() && Contents() == sorted && fresh(repr) && fresh(repr.Footprint)
      ensures |repr.Mem().c| == |sorted| && forall i :: 0 <= i < |sorted| ==> Live(repr.Mem().c, i)
      ensures repr.Roomy() && Layout.HeightOf(|sorted|, repr.Capacity())
    {
      hide Inorder, Tidy, Exact, Sorted;
      repr := new TreeRepr.WithSorted(sorted);
      new;
      ghost var m0 := repr.Mem();
      InitMaxb();
      SameItemsInorder(m0.c, repr.Mem().c, 0);
      FewerLive(m0, repr.Mem());
    }

    /** A tree whose cells are given one by one: a valid one if every cell has its parent
        and the items are in order and well formed. */
    constructor WithShape(shape: seq<Option<Item>>)
      ensures fresh(repr) && fresh(repr.Footprint) && repr.Valid()
      ensures Valid() <==>
                && Layout.TidyItems(shape) && Sorted(Layout.ShapeItems(shape, 0))
                && forall x :: x in Layout.ShapeItems(shape, 0) ==> WellFormed(x.key)
      ensures Inorder(repr.Mem().c, 0) == Layout.ShapeItems(shape, 0) && Exact(repr.Mem().c, 0)
      ensures |repr.Mem().c| == |shape|
      ensures forall i: nat :: Live(repr.Mem().c, i) <==> Layout.Given(shape, i)
      ensures forall i: nat :: Layout.Given(shape, i) ==> repr.Mem().c[i].node.item == shape[i].value
      ensures repr.Capacity() == CalcHeight(Layout.ShapeNodes(shape), 0)
      ensures Layout.TidyItems(shape) ==> repr.Roomy()
    {
      hide Inorder, Tidy, Exact, Sorted, Layout.ShapeItems;
      repr := new TreeRepr.WithNodes(Layout.ShapeNodes(shape));
      new;
      repr.FollowsShape(shape);
      if Layout.TidyItems(shape) {
        Layout.TidyNodes(shape);
      }
      ghost var m0 := repr.Mem();
      InitMaxbOfShape();
      SameItemsInorder(m0.c, repr.Mem().c, 0);
      FewerLive(m0, repr.Mem());
    }

    /** A search tree of well-formed intervals, without dangling nodes, in which every
        node carries the right bound. */
    ghost predicate Valid()
      reads repr, repr.Footprint, repr.data, repr.mask, repr.slotsMin, repr.slotsMax,
            repr.slotsMin.slots, repr.slotsMax.slots
    {
      && repr.Valid()
      && Tidy(repr.Mem().c, 0)
      && Sorted(Inorder(repr.Mem().c, 0))
      && (forall x :: x in Inorder(repr.Mem().c, 0) ==> WellFormed(x.key))
      && Exact(repr.Mem().c, 0)
      && Quiet(repr.Mem())
    }

    ghost function Contents(): seq<Item>
      reads repr, repr.Footprint, repr.data, repr.mask, repr.slotsMin, repr.slotsMax,
            repr.slotsMin.slots, repr.slotsMax.slots
      requires Valid()
      ensures |Contents()| == repr.size
    {
      Inorder(repr.Mem().c, 0)
    }

    //---- bounds ------------------------------------------------------------------------

    method UpdateParentMaxb(child: nat)
      requires repr.Valid() && 0 < child < |repr.Mem().c|
      modifies repr.Footprint
      ensures repr.Valid() && repr.Mem() == old(repr.Mem()).(c := HandedUp(old(repr.Mem()).c, child))
    {
      var p := ParentOf(child);
      var node := repr.GetNode(child);
      var parent := repr.GetNode(p);
      if node.maxb > parent.maxb {
        repr.SetMaxb(p, node.maxb);
      } else {
        assert HandedUp(repr.Mem().c, child) == repr.Mem().c;
      }
    }

    /** In a layout without gaps, one sweep over the nodes from the last to the first
        makes all bounds exact. */
    method InitMaxb()
      requires repr.Valid() && FreshBounds(repr.Mem().c)
      requires repr.size == repr.data.Length && forall i :: 0 <= i < |repr.Mem().c| ==> Live(repr.Mem().c, i)
      modifies repr.Footprint
      ensures repr.Valid() && SameItems(old(repr.Mem()).c, repr.Mem().c)
      ensures repr.Mem() == old(repr.Mem()).(c := repr.Mem().c)
      ensures Exact(repr.Mem().c, 0)
    {
      ghost var m0 := repr.Mem();
      SweepStarts(m0.c);
      var i: nat := repr.size;
      while i > 1
        invariant repr.Valid() && repr.Mem() == m0.(c := repr.Mem().c) && SameItems(m0.c, repr.Mem().c)
        invariant i <= |m0.c| && (i == 0 ==> repr.data.Length == 0)
        invariant Swept(repr.Mem().c, i)
      {
        i := i - 1;
        SweepStep(repr.Mem().c, i);
        UpdateParentMaxb(i);
      }
      SweepEnds(repr.Mem().c, 0);
    }

    /** The same for a layout with gaps, over all cells. */
    method InitMaxbOfShape()
      requires repr.Valid() && FreshBounds(repr.Mem().c)
      modifies repr.Footprint
      ensures repr.Valid() && SameItems(old(repr.Mem()).c, repr.Mem().c)
      ensures repr.Mem() == old(repr.Mem()).(c := repr.Mem().c)
      ensures Exact(repr.Mem().c, 0)
    {
      ghost var m0 := repr.Mem();
      SweepStarts(m0.c);
      var i: nat := repr.data.Length;
      while i > 1
        invariant repr.Valid() && repr.Mem() == m0.(c := repr.Mem().c) && SameItems(m0.c, repr.Mem().c)
        invariant i <= |m0.c| && (i == 0 ==> repr.data.Length == 0)
        invariant Swept(repr.Mem().c, i)
      {
        i := i - 1;
        if !repr.IsNil(i) {
          SweepStep(repr.Mem().c, i);
          UpdateParentMaxb(i);
        } else {
          SweepSkip(repr.Mem().c, i);
        }
      }
      SweepEnds(repr.Mem().c, 0);
    }

    method UpdateMaxb(idx: nat)
      requires repr.Valid() && Live(repr.Mem().c, idx)
      modifies repr.Footprint
      ensures repr.Valid() && repr.Mem() == old(repr.Mem()).(c := Recomputed(old(repr.Mem()).c, idx))
    {
      var b := repr.GetNode(idx).item.key.b;
      var leftSelf := if repr.HasLeft(idx) then Max(repr.GetNode(LeftOf(idx)).maxb, b) else b;
      repr.SetMaxb(idx, if repr.HasRight(idx) then Max(repr.GetNode(RightOf(idx)).maxb, leftSelf) else leftSelf);
    }

    /** Repairs the bounds from the parent of `start` up to `to`; stops as soon as a bound
        is not the removed one. */
    method UpdateAncestorsAfterDelete(start: nat, to: nat, removedB: int, ghost c0: seq<Cell>)
      requires repr.Valid() && Repairing(c0, repr.Mem().c, to, start, removedB)
      modifies repr.Footprint
      ensures repr.Valid() && repr.Mem() == old(repr.Mem()).(c := repr.Mem().c)
      ensures SameItems(old(repr.Mem()).c, repr.Mem().c)
      ensures forall j :: !Below(to, j) ==> Same(old(repr.Mem()).c, repr.Mem().c, j)
      ensures Exact(repr.Mem().c, to)
    {
      hide *;
      var idx := start;
      ghost var m := repr.Mem();
      RepairStart(c0, m.c, to, idx, removedB);
      while idx != to
        invariant repr.Valid() && repr.Mem() == m.(c := repr.Mem().c)
        invariant Repairing(c0, repr.Mem().c, to, idx, removedB) && RepairedSoFar(m.c, repr.Mem().c, to)
        decreases idx
      {
        ghost var c := repr.Mem().c;
        RepairFacts(c0, c, to, idx, removedB);
        var p := ParentOf(idx);
        if removedB == repr.GetNode(p).maxb {
          RepairParent(c0, c, to, idx, removedB);
          RepairedFurther(m.c, c, to, idx);
          UpdateMaxb(p);
          idx := p;
        } else {
          RepairStops(c0, c, to, idx, removedB);
          RepairedMeans(m.c, c, to);
          return;
        }
      }
      RepairDone(c0, repr.Mem().c, to, removedB);
      RepairedMeans(m.c, repr.Mem().c, to);
    }

    /** A tree that holds anything has a root. */
    lemma {:induction false} RootIsLive()
      requires Valid() && repr.size > 0
      ensures Live(repr.Mem().c, 0)
    {
      if !Live(repr.Mem().c, 0) {
        NilIsEmpty(repr.Mem().c, 0);
      }
    }

    //---- single items ------------------------------------------------------------------

    /** Deletes one item with the given key, if there is one: of several the topmost. */
    method Delete(query: Interval) returns (val: Option<Value>)
      requires Valid() && (repr.data.Length > 0 ==> Live(repr.Mem().c, 0))
      modifies repr.Footprint
      ensures Valid()
      ensures val == None ==>
                Contents() == old(Contents()) && forall x :: x in old(Contents()) ==> x.key != query
      ensures val.Some? ==> RemovedOne(old(Contents()), Item(query, val.value), Contents())
      ensures val.Some? ==>
                var c, i := old(repr.Mem()).c, Locate(old(repr.Mem()).c, query, 0);
                && Live(c, i) && c[i].node.item == Item(query, val.value) && Contents() == Without(c, i)
                && GapClosed(c, repr.Mem().c, i)
      ensures StaysWithin(old(repr.Mem()), repr.Mem())
    {
      hide GapClosed, Inorder, Tidy, Exact, Sorted, Cut, SameItems, StaysWithin, RemovedOne, Sought, Same;
      ghost var m := repr.Mem();
      var idx := repr.IndexOf(query);
      if repr.IsNil(idx) {
        NotFound(m.c, query, idx);
        StaysItself(m);
        val := None;
      } else {
        BelowRoot(idx);
        TidyBelow(m.c, 0, idx);
        ExactBelow(m.c, 0, idx);
        var item := DeleteIdx(idx);
        ghost var c1 := repr.Mem().c;
        StartRepair(m.c, c1, 0, idx, item);
        UpdateAncestorsAfterDelete(idx, 0, item.key.b, m.c);
        DeletedOne(m.c, c1, repr.Mem().c, idx, item);
        FewerLive(m, repr.Mem());
        val := Some(item.val);
      }
    }

    method DeleteIdx(idx: nat) returns (item: Item)
      requires repr.Valid() && Live(repr.Mem().c, idx) && Tidy(repr.Mem().c, idx) && Exact(repr.Mem().c, idx)
      modifies repr.Footprint
      ensures repr.Valid() && repr.Mem() == old(repr.Mem()).(c := repr.Mem().c)
      ensures item == old(repr.Mem()).c[idx].node.item
      ensures Cut(old(repr.Mem()).c, repr.Mem().c, idx, item)
      ensures Inorder(repr.Mem().c, idx)
           == Inorder(old(repr.Mem()).c, LeftOf(idx)) + Inorder(old(repr.Mem()).c, RightOf(idx))
      ensures GapClosed(old(repr.Mem()).c, repr.Mem().c, idx)
    {
      hide *;
      ghost var m := repr.Mem();
      KidFacts(m.c, idx);
      if repr.HasLeft(idx) {
        var repl := DeleteMax(LeftOf(idx));
        CutRoot(m.c, repr.Mem().c, idx, LeftOf(idx), repl);
        ReplacedLive(repr.Mem().c, idx, repl);
        item := repr.ReplaceItem(idx, repl);
        UpdateMaxb(idx);
      } else if repr.HasRight(idx) {
        var repl := DeleteMin(RightOf(idx));
        CutRoot(m.c, repr.Mem().c, idx, RightOf(idx), repl);
        ReplacedLive(repr.Mem().c, idx, repl);
        item := repr.ReplaceItem(idx, repl);
        UpdateMaxb(idx);
      } else {
        CutLeaf(m.c, idx);
        TakeMeans(m, idx);
        LastIsCut(m.c, Cleared(m.c, idx), idx, m.c[idx].node.item);
        var node := repr.Take(idx);
        item := node.item;
      }
    }

    /** Removes and returns the last item of the subtree. */
    method DeleteMax(idx: nat) returns (item: Item)
      requires repr.Valid() && Live(repr.Mem().c, idx) && Tidy(repr.Mem().c, idx) && Exact(repr.Mem().c, idx)
      modifies repr.Footprint
      ensures repr.Valid() && repr.Mem() == old(repr.Mem()).(c := repr.Mem().c)
      ensures CutLast(old(repr.Mem()).c, repr.Mem().c, idx, item)
      decreases repr.data.Length - idx
    {
      hide *;
      ghost var m := repr.Mem();
      LastFacts(m.c, idx);
      var max := repr.FindMax(idx);
      KidFacts(m.c, max);
      if repr.HasLeft(max) {
        var repl := DeleteMax(LeftOf(max));
        PassedUp(m.c, repr.Mem().c, max, repl);
        ReplacedLive(repr.Mem().c, max, repl);
        item := repr.ReplaceItem(max, repl);
        UpdateMaxb(max);
      } else {
        CutLeaf(m.c, max);
        TakeMeans(m, max);
        var node := repr.Take(max);
        item := node.item;
      }
      ghost var c1 := repr.Mem().c;
      LastIsCut(m.c, c1, max, item);
      StartRepair(m.c, c1, idx, max, item);
      UpdateAncestorsAfterDelete(max, idx, item.key.b, m.c);
      RepairedLast(m.c, c1, repr.Mem().c, idx, item);
    }

    /** Removes and returns the first item of the subtree. */
    method DeleteMin(idx: nat) returns (item: Item)
      requires repr.Valid() && Live(repr.Mem().c, idx) && Tidy(repr.Mem().c, idx) && Exact(repr.Mem().c, idx)
      modifies repr.Footprint
      ensures repr.Valid() && repr.Mem() == old(repr.Mem()).(c := repr.Mem().c)
      ensures CutFirst(old(repr.Mem()).c, repr.Mem().c, idx, item)
      decreases repr.data.Length - idx
    {
      hide *;
      ghost var m := repr.Mem();
      FirstFacts(m.c, idx);
      var min := repr.FindMin(idx);
      KidFacts(m.c, min);
      if repr.HasRight(min) {
        var repl := DeleteMin(RightOf(min));
        PassedUpFirst(m.c, repr.Mem().c, min, repl);
        ReplacedLive(repr.Mem().c, min, repl);
        item := repr.ReplaceItem(min, repl);
        UpdateMaxb(min);
      } else {
        CutLeaf(m.c, min);
        TakeMeans(m, min);
        var node := repr.Take(min);
        item := node.item;
      }
      ghost var c1 := repr.Mem().c;
      LastIsCut(m.c, c1, min, item);
      StartRepair(m.c, c1, idx, min, item);
      UpdateAncestorsAfterDelete(min, idx, item.key.b, m.c);
      RepairedFirst(m.c, c1, repr.Mem().c, idx, item);
    }

    //---- overlaps ----------------------------------------------------------------------

    /** Deletes the items that overlap the query and pass the filter, and returns them in
        order. */
    method FilterOverlap(query: Interval, accept: Interval -> bool, noop: bool) returns (out: seq<Item>)
      requires Valid() && WellFormed(query) && (noop ==> forall k :: accept(k))
      modifies repr.Footprint
      ensures Valid()
      ensures var p := OverlapFilter(query, accept);
              out == Select(p, old(Contents())) && Contents() == Reject(p, old(Contents()))
      ensures StaysWithin(old(repr.Mem()), repr.Mem())
      ensures !noop && Contents() == [] ==> Climbed(old(repr.Mem()).c, repr.Mem(), 0)
    {
      hide Inorder, Tidy, Exact, Sorted, TreeReprs.TreeRepr.Valid, Select, Reject, Taken, Kept;
      var g := Config(NoDriver(), query, accept, noop, true);
      var worker := new Worker(repr, g);
      OverlapKept(g, query, accept, Contents());
      worker.FilterOverlap();
      out := worker.out;
      assert out == [] + Taken(g, Overlap(false), old(Contents()));
    }

    /** The items below `idx` that overlap the query, in order; the tree stays as it is. */
    method QueryOverlap(idx: nat, query: Interval) returns (out: seq<Item>)
      requires Valid() && WellFormed(query)
      ensures out == Select(OverlapKeys(query), Inorder(repr.Mem().c, idx))
      ensures idx == 0 ==> out == Select(OverlapKeys(query), Contents())
    {
      QueryAnywhere(repr.Mem().c, query, idx);
      out := QueryOverlapRec(idx, query);
    }

    method QueryOverlapRec(idx: nat, query: Interval) returns (out: seq<Item>)
      requires repr.Valid() && Queryable(repr.Mem().c, query, idx)
      ensures out == Select(OverlapKeys(query), Inorder(repr.Mem().c, idx))
      decreases repr.data.Length - idx
    {
      hide *;
      ghost var c := repr.Mem().c;
      if repr.IsNil(idx) {
        QueryNil(c, query, idx);
        return [];
      }
      QueryKids(c, query, idx);
      QuerySplit(c, query, idx);
      var node := repr.GetNode(idx);
      var k := node.item.key;
      if node.maxb < query.a {
        PrunedByMaxb(c, query, idx);
        out := [];
      } else if query.b <= k.a && k.a != query.a {
        BulkOverlap.BeyondMeans(query, k);
        PrunedByRoot(c, query, idx);
        out := QueryOverlapRec(LeftOf(idx), query);
      } else {
        var left := QueryOverlapRec(LeftOf(idx), query);
        var right := QueryOverlapRec(RightOf(idx), query);
        out := left + (if Overlaps(query, k) then [node.item] else []) + right;
      }
    }
  }

  lemma {:induction false} OverlapKept(g: Config, query: Interval, accept: Interval -> bool, s: seq<Item>)
    requires g.query == query && g.accept == accept
    requires Sorted(s) && forall x :: x in s ==> WellFormed(x.key)
    ensures var p := OverlapFilter(query, accept);
            && Taken(g, Overlap(false), s) == Select(p, s)
            && Kept(g, Overlap(false), s) == Reject(p, s)
            && Sorted(Reject(p, s)) && (forall x :: x in Reject(p, s) ==> WellFormed(x.key))
  {
    var p := OverlapFilter(query, accept);
    forall k: Interval
      ensures Hit(g, Overlap(false), k) == p(k)
    {
      assert p(k) == (Overlaps(query, k) && accept(k));
    }
    TakenIsSelect(g, Overlap(false), p, s);
    RejectSorted(p, s);
    forall x | x in Reject(p, s)
      ensures WellFormed(x.key)
    {
      InReject(p, s, x);
    }
  }
}
