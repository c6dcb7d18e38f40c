/** The plain tree. */
module PlainTrees {
  import opened HeapIndex
  import opened Items
  import opened Cells
  import opened Memory
  import opened BulkSpec
  import opened BulkSteps
  import opened Traversal
  import opened RangeLoop
  import opened SingleDelete
  import opened Selections
  import opened RangeQuery
  import opened TreeReprs
  import opened Workers
  import Layout

  class PlTree {
    const repr: TreeRepr

    constructor (repr: TreeRepr)
      ensures this.repr == repr
    {
      this.repr := repr;
    }

    constructor WithSorted(sorted: seq<Item>)
      requires Sorted(sorted)
      ensures Valid() && Contents() == sorted && fresh(repr) && fresh(repr.Footprint)
      ensures |repr.Mem().c| == |sorted| && forall i :: 0 <= i < |sorted| ==> Live(repr.Mem().c, i)
      ensures repr.Roomy() && Layout.HeightOf(|sorted|, repr.Capacity())
    {
      repr := new TreeRepr.WithSorted(sorted);
    }

    /** A tree whose cells are given one by one: a valid one if every cell has its parent
        and the items are in order. */
    constructor WithShape(shape: seq<Option<Item>>)
      ensures fresh(repr) && fresh(repr.Footprint) && repr.Valid()
      ensures Valid() <==> Layout.TidyItems(shape) && Sorted(Layout.ShapeItems(shape, 0))
      ensures Inorder(repr.Mem().c, 0) == Layout.ShapeItems(shape, 0) && Layout.LaidOut(repr.Mem().c, shape)
      ensures repr.Capacity() == CalcHeight(Layout.ShapeNodes(shape), 0)
      ensures Layout.TidyItems(shape) ==> repr.Roomy()
    {
      hide Inorder, Tidy, Sorted, Layout.ShapeItems;
      repr := new TreeRepr.WithNodes(Layout.ShapeNodes(shape));
      new;
      repr.FollowsShape(shape);
      if Layout.TidyItems(shape) {
        Layout.TidyNodes(shape);
      }
    }

    /** A search tree without dangling nodes, between operations. */
    ghost predicate Valid()
      reads repr, repr.Footprint, repr.data, repr.mask, repr.slotsMin, repr.slotsMax,
            repr.slotsMin.slots, repr.slotsMax.slots
    {
      && repr.Valid()
      && Tidy(repr.Mem().c, 0)
      && Sorted(Inorder(repr.Mem().c, 0))
      && Quiet(repr.Mem())
    }

    /** The items in order. */
    ghost function Contents(): seq<Item>
      reads repr, repr.Footprint, repr.data, repr.mask, repr.slotsMin, repr.slotsMax,
            repr.slotsMin.slots, repr.slotsMax.slots
      requires Valid()
      ensures |Contents()| == repr.size
    {
      Inorder(repr.Mem().c, 0)
    }

    /** A tree that holds anything has a root. */
    lemma {:induction false} RootIsLive()
      requires Valid() && repr.size > 0
      ensures Live(repr.Mem().c, 0)
    {
      if !Live(repr.Mem().c, 0) {
        NilIsEmpty(repr.Mem().c, 0);
      }
    }

    //---- single items ------------------------------------------------------------------

    /** Deletes one item with the given key, if there is one: of several the topmost. */
    method Delete(query: Interval) returns (val: Option<Value>)
      requires Valid() && (repr.data.Length > 0 ==> Live(repr.Mem().c, 0))
      modifies repr.Footprint
      ensures Valid()
      ensures val == None ==>
                Contents() == old(Contents()) && forall x :: x in old(Contents()) ==> x.key != query
      ensures val.Some? ==> RemovedOne(old(Contents()), Item(query, val.value), Contents())
      ensures val.Some? ==>
                var c, i := old(repr.Mem()).c, Locate(old(repr.Mem()).c, query, 0);
                && Live(c, i) && c[i].node.item == Item(query, val.value) && Contents() == Without(c, i)
                && GapClosed(c, repr.Mem().c, i)
      ensures StaysWithin(old(repr.Mem()), repr.Mem())
    {
      ghost var c := repr.Mem().c;
      var idx := repr.IndexOf(query);
      if repr.IsNil(idx) {
        NotFound(c, query, idx);
        StaysItself(repr.Mem());
        val := None;
      } else {
        var v := DeleteIdx(idx);
        val := Some(v);
      }
    }

    method DeleteIdx(idx: nat) returns (val: Value)
      requires Valid() && Live(repr.Mem().c, idx)
      modifies repr.Footprint
      ensures Valid()
      ensures RemovedOne(old(Contents()), old(repr.Mem()).c[idx].node.item, Contents())
      ensures val == old(repr.Mem()).c[idx].node.item.val && Contents() == Without(old(repr.Mem()).c, idx)
      ensures GapClosed(old(repr.Mem()).c, repr.Mem().c, idx)
      ensures StaysWithin(old(repr.Mem()), repr.Mem())
    {
      hide GapClosed, HoleWent;
      ghost var m0 := repr.Mem();
      BelowRoot(idx);
      TidyBelow(m0.c, 0, idx);
      TakeOne(m0.c, idx);
      var node := repr.Take(idx);
      ghost var m1 := repr.Mem();
      ghost var c1 := m1.c;
      FewerLive(m0, m1);
      RemovedSorted(Inorder(m0.c, 0), node.item, Inorder(c1, 0));
      if repr.HasLeft(idx) {
        DeleteMax(idx, LeftOf(idx));
        ghost var hole :| hole != idx && HoleWent(c1, repr.Mem().c, idx, LeftOf(idx), hole);
        GapCloses(m0.c, repr.Mem().c, idx, LeftOf(idx), hole);
      } else if repr.HasRight(idx) {
        DeleteMin(idx, RightOf(idx));
        ghost var hole :| hole != idx && HoleWent(c1, repr.Mem().c, idx, RightOf(idx), hole);
        GapCloses(m0.c, repr.Mem().c, idx, RightOf(idx), hole);
      } else {
        Unplug(c1, 0, idx);
        GapStays(m0.c, idx);
        StaysItself(m1);
      }
      StaysWithinTrans(m0, m1, repr.Mem());
      val := node.item.val;
    }

    /** Moves the hole down along left subtrees until it has no children. */
    method DeleteMax(start: nat, first: nat)
      requires repr.Valid() && first == LeftOf(start) && start < |repr.Mem().c|
      requires !Live(repr.Mem().c, start) && Live(repr.Mem().c, first)
      requires Tidy(Plugged(repr.Mem().c, start), 0)
      modifies repr.Footprint
      ensures repr.Valid() && Tidy(repr.Mem().c, 0)
      ensures Inorder(repr.Mem().c, 0) == Inorder(old(repr.Mem()).c, 0)
      ensures repr.Mem() == old(repr.Mem()).(c := repr.Mem().c) && StaysWithin(old(repr.Mem()), repr.Mem())
      ensures exists hole :: hole != start && HoleWent(old(repr.Mem()).c, repr.Mem().c, start, first, hole)
    {
      hide HoleWent, Inorder, Tidy, StaysWithin, Plugged, Below, Leftmost, Rightmost;
      ghost var m0 := repr.Mem();
      StaysItself(m0);
      var hole, idx := start, first;
      HoleStarts(m0.c, start, first);
      while true
        invariant repr.Valid() && idx == LeftOf(hole) && hole < |repr.Mem().c|
        invariant HoleWent(m0.c, repr.Mem().c, start, first, hole) && start <= hole
        invariant !Live(repr.Mem().c, hole) && Live(repr.Mem().c, idx)
        invariant Tidy(Plugged(repr.Mem().c, hole), 0)
        invariant Inorder(repr.Mem().c, 0) == Inorder(m0.c, 0)
        invariant repr.Mem() == m0.(c := repr.Mem().c) && StaysWithin(m0, repr.Mem())
        decreases repr.data.Length - hole
      {
        ghost var m := repr.Mem();
        MoveLastUp(m.c, hole);
        HoleGoes(m0.c, m.c, start, first, hole, idx, Rightmost(m.c, idx));
        idx := repr.FindMax(idx);
        repr.MoveFromTo(idx, hole);
        MovedUp(m, repr.Mem(), idx, hole);
        StaysWithinTrans(m0, m, repr.Mem());
        hole := idx;
        idx := LeftOf(idx);
        if repr.IsNil(idx) {
          Unplug(repr.Mem().c, 0, hole);
          break;
        }
      }
    }

    method DeleteMin(start: nat, first: nat)
      requires repr.Valid() && first == RightOf(start) && start < |repr.Mem().c|
      requires !Live(repr.Mem().c, start) && Live(repr.Mem().c, first)
      requires Tidy(Plugged(repr.Mem().c, start), 0)
      modifies repr.Footprint
      ensures repr.Valid() && Tidy(repr.Mem().c, 0)
      ensures Inorder(repr.Mem().c, 0) == Inorder(old(repr.Mem()).c, 0)
      ensures repr.Mem() == old(repr.Mem()).(c := repr.Mem().c) && StaysWithin(old(repr.Mem()), repr.Mem())
      ensures exists hole :: hole != start && HoleWent(old(repr.Mem()).c, repr.Mem().c, start, first, hole)
    {
      hide HoleWent, Inorder, Tidy, StaysWithin, Plugged, Below, Leftmost, Rightmost;
      ghost var m0 := repr.Mem();
      StaysItself(m0);
      var hole, idx := start, first;
      HoleStarts(m0.c, start, first);
      while true
        invariant repr.Valid() && idx == RightOf(hole) && hole < |repr.Mem().c|
        invariant HoleWent(m0.c, repr.Mem().c, start, first, hole) && start <= hole
        invariant !Live(repr.Mem().c, hole) && Live(repr.Mem().c, idx)
        invariant Tidy(Plugged(repr.Mem().c, hole), 0)
        invariant Inorder(repr.Mem().c, 0) == Inorder(m0.c, 0)
        invariant repr.Mem() == m0.(c := repr.Mem().c) && StaysWithin(m0, repr.Mem())
        decreases repr.data.Length - hole
      {
        ghost var m := repr.Mem();
        MoveFirstUp(m.c, hole);
        HoleGoes(m0.c, m.c, start, first, hole, idx, Leftmost(m.c, idx));
        idx := repr.FindMin(idx);
        repr.MoveFromTo(idx, hole);
        MovedUp(m, repr.Mem(), idx, hole);
        StaysWithinTrans(m0, m, repr.Mem());
        hole := idx;
        idx := RightOf(idx);
        if repr.IsNil(idx) {
          Unplug(repr.Mem().c, 0, hole);
          break;
        }
      }
    }

    //---- ranges ------------------------------------------------------------------------

    /** Deletes the items that the driver selects and the filter accepts, and returns
        them in order. */
    method FilterWithDriver(driver: Driver, accept: Interval -> bool, noop: bool) returns (out: seq<Item>)
      requires Valid() && Monotone(driver) && (noop ==> forall k :: accept(k))
      modifies repr.Footprint
      ensures Valid()
      ensures var p := DriverFilter(driver, accept);
              out == Select(p, old(Contents())) && Contents() == Reject(p, old(Contents()))
      ensures StaysWithin(old(repr.Mem()), repr.Mem())
      ensures !noop && Contents() == [] ==> Climbed(old(repr.Mem()).c, repr.Mem(), 0)
    {
      var g := Config(driver, Interval(0, 0), accept, noop, false);
      var worker := new Worker(repr, g);
      TakenIsSelect(g, Op.DeleteMin, DriverFilter(driver, accept), Contents());
      RejectSorted(DriverFilter(driver, accept), Contents());
      worker.Filter();
      out := worker.out;
    }

    method FilterRange(from: Interval, to: Interval, accept: Interval -> bool) returns (out: seq<Item>)
      requires Valid() && AtMost(from, to)
      modifies repr.Footprint
      ensures Valid()
      ensures var p := RangeFilter(from, to, accept);
              out == Select(p, old(Contents())) && Contents() == Reject(p, old(Contents()))
      ensures StaysWithin(old(repr.Mem()), repr.Mem())
      ensures Contents() == [] ==> Climbed(old(repr.Mem()).c, repr.Mem(), 0)
    {
      RangeDriversMonotone(from, to);
      DriversSelect(from, to, accept);
      SelectAgree(DriverFilter(RangeDriver(from, to), accept), RangeFilter(from, to, accept), Contents());
      out := FilterWithDriver(RangeDriver(from, to), accept, false);
    }

    /** The same with the filter that accepts everything, on the fast path. */
    method DeleteRange(from: Interval, to: Interval) returns (out: seq<Item>)
      requires Valid() && AtMost(from, to)
      modifies repr.Footprint
      ensures Valid()
      ensures var p := KeyRange(from, to);
              out == Select(p, old(Contents())) && Contents() == Reject(p, old(Contents()))
      ensures StaysWithin(old(repr.Mem()), repr.Mem())
    {
      RangeDriversMonotone(from, to);
      DriversSelect(from, to, AcceptAll());
      SelectAgree(DriverFilter(RangeDriver(from, to), AcceptAll()), KeyRange(from, to), Contents());
      out := FilterWithDriver(RangeDriver(from, to), AcceptAll(), true);
    }

    method FilterRangeRef(from: Interval, to: Interval, accept: Interval -> bool) returns (out: seq<Item>)
      requires Valid() && AtMost(from, to)
      modifies repr.Footprint
      ensures Valid()
      ensures var p := RefRangeFilter(from, to, accept);
              out == Select(p, old(Contents())) && Contents() == Reject(p, old(Contents()))
      ensures StaysWithin(old(repr.Mem()), repr.Mem())
      ensures Contents() == [] ==> Climbed(old(repr.Mem()).c, repr.Mem(), 0)
    {
      RangeDriversMonotone(from, to);
      DriversSelect(from, to, accept);
      SelectAgree(DriverFilter(RangeRefDriver(from, to), accept), RefRangeFilter(from, to, accept), Contents());
      out := FilterWithDriver(RangeRefDriver(from, to), accept, false);
    }

    /** Yields, without changing the tree, the items in range from the topmost node keyed
        `from` on.  These are all items in range exactly if no equal node lies to the left
        of that one. */
    method QueryRange(from: Interval, to: Interval) returns (out: seq<Item>)
      requires Valid() && AtMost(from, to) && (repr.data.Length > 0 ==> Live(repr.Mem().c, 0))
      ensures var i := Locate(repr.Mem().c, from, 0);
              Below(0, i) && out == Select(KeyRange(from, to), Tail(repr.Mem().c, i))
      ensures out == Select(KeyRange(from, to), Contents())
              <==> !Duplicated(repr.Mem().c, from, Locate(repr.Mem().c, from, 0))
    {
      hide *;
      ValidFacts();
      ghost var c := repr.Mem().c;
      var idx := repr.IndexOf(from);
      BelowRoot(idx);
      QueryExact(c, from, to, idx);
      ghost var tail := Tail(c, idx);
      var next := idx;
      if repr.IsNil(next) {
        GapFacts(c, next);
        next := repr.Succ(next);
      }
      QueryStart(c, from, to, idx, next);
      out := [];
      if repr.IsNil(next) || repr.IsNil(0) {
        NothingSelected(from, to);
        return;
      }
      while true
        invariant Querying(c, from, to, tail, out, next)
        decreases |tail| - |out|
      {
        WalkFacts(c, from, to, tail, out, next);
        var item := repr.GetNode(next).item;
        if AtMost(to, item.key) && from != item.key {
          QueryStop(c, from, to, tail, out, next);
          return;
        }
        var succ := repr.NextIdx(0, next);
        QueryStep(c, from, to, tail, out, next, succ);
        out := out + [item];
        if succ == None {
          return;
        }
        next := succ.value;
      }
    }

    lemma {:induction false} ValidFacts()
      requires Valid()
      ensures repr.Valid() && Tidy(repr.Mem().c, 0) && Sorted(Inorder(repr.Mem().c, 0))
      ensures Contents() == Inorder(repr.Mem().c, 0)
      ensures repr.Footprint == {repr, repr.data, repr.mask, repr.slotsMin, repr.slotsMax,
                                 repr.slotsMin.slots, repr.slotsMax.slots}
    {
    }
  }

  lemma {:induction false} NothingSelected(from: Interval, to: Interval)
    ensures Select(KeyRange(from, to), []) == []
  {
  }

  lemma {:induction false} WalkFacts(c: seq<Cell>, from: Interval, to: Interval, tail: seq<Item>, seen: seq<Item>, i: nat)
    requires Querying(c, from, to, tail, seen, i)
    ensures Live(c, i) && i < |c| && Below(0, i) && Ahead(c, 0, i) && Tidy(c, RightOf(i))
    ensures |seen| < |tail|
  {
  }

  lemma {:induction false} GapFacts(c: seq<Cell>, i: nat)
    requires Tidy(c, 0) && !Live(c, i) && (i > 0 ==> Live(c, ParentOf(i)))
    ensures Below(0, i) && Ahead(c, 0, i) && Tidy(c, RightOf(i)) && !Live(c, RightOf(i))
  {
    BelowRoot(i);
    BelowRoot(RightOf(i));
    TidyAhead(c, 0, i);
    TidyBelow(c, 0, i);
    TidyBelow(c, 0, RightOf(i));
    NoneBelowNil(c, i);
    BelowKids(i);
  }

  lemma {:induction false} QueryStart(c: seq<Cell>, from: Interval, to: Interval, i: nat, next: nat)
    requires Tidy(c, 0) && Sorted(Inorder(c, 0)) && Sought(c, from, i)
    requires Live(c, i) ==> c[i].node.item.key == from
    requires i > 0 ==> Live(c, ParentOf(i))
    requires if Live(c, i) then next == i else GoesOnAt(c, i, next)
    ensures Sorted(Tail(c, i)) && forall x :: x in Tail(c, i) ==> AtMost(from, x.key)
    ensures Live(c, next) ==> Live(c, 0) && Querying(c, from, to, Tail(c, i), [], next)
    ensures !Live(c, next) ==> Tail(c, i) == []
  {
    hide Inorder, Before, Tidy, Sorted;
    TailBounds(c, from, i);
    TidyAhead(c, 0, i);
    TidyBelow(c, 0, i);
    if !Live(c, i) {
      GapFacts(c, i);
      NilIsEmpty(c, RightOf(i));
      assert [] + After(c, 0, i) == After(c, 0, i);
    }
    if Live(c, next) {
      TidyBelow(c, 0, next);
      assert [] + Rest(c, 0, next) == Rest(c, 0, next);
    }
  }
}
