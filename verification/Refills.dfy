/** How much room the slot stacks need: exactly as much as the paths to the nodes have
    turns of one kind.  A refill keeps the capacity of the stacks, so it can leave a tree
    that needs more. */
module Refills {
  import opened HeapIndex
  import opened Items
  import opened Cells
  import opened Memory
  import opened BulkSpec
  import opened BulkSteps
  import opened Traversal
  import opened SingleDelete
  import opened Selections
  import opened TreeReprs
  import opened PlainTrees
  import opened IntervalTrees
  import opened Runs
  import Layout
  import BulkOverlap

  /** Room that was enough stays enough; and stacks that climbed to every node have
      passed any capacity that is less than the turns to some node. */
  lemma {:induction false} ExactRoom(m0: Mem, m1: Mem, capacity: nat)
    requires StaysWithin(m0, m1) && Climbed(m0.c, m1, 0)
    ensures (m1.peaks.min > capacity || m1.peaks.max > capacity) <==>
            (m0.peaks.min > capacity || m0.peaks.max > capacity || !TurnsWithin(m0.c, capacity))
  {
    if Within(m0, capacity) {
      assert Within(m1, capacity);
    } else if m1.peaks.min <= capacity && m1.peaks.max <= capacity {
      forall j: nat | Live(m0.c, j)
        ensures LeftTurns(j) <= capacity && RightTurns(j) <= capacity
      {
        BelowRoot(j);
      }
    }
  }

  lemma {:induction false} NothingLive(m: Mem)
    requires Tidy(m.c, 0) && !Live(m.c, 0)
    ensures forall b :: TurnsWithin(m.c, b)
    ensures Inorder(m.c, 0) == []
  {
    NilIsEmpty(m.c, 0);
    NoneBelowNil(m.c, 0);
    forall j: nat
      ensures !Live(m.c, j)
    {
      BelowRoot(j);
    }
  }

  //---- deleting everything through a filter --------------------------------------------------

  lemma {:induction false} EverythingInRange(s: seq<Item>, first: Item, last: Item, a: seq<Item>, b: seq<Item>)
    requires Sorted(s) && s == [first] + a && s == b + [last]
    ensures var to := Interval(last.key.a + 1, 0);
            && AtMost(first.key, to)
            && forall x :: x in s ==> RangeFilter(first.key, to, AcceptAll())(x.key)
  {
    assert s[0] == first && s[|s| - 1] == last;
    var to := Interval(last.key.a + 1, 0);
    forall x | x in s
      ensures RangeFilter(first.key, to, AcceptAll())(x.key) && AtMost(first.key, to)
    {
      var i :| 0 <= i < |s| && s[i] == x;
      assert AtMost(first.key, x.key) && AtMost(x.key, last.key);
      assert InRange(first.key, to, x.key);
    }
    assert first in s;
  }

  /** Deletes everything with a range and a filter that is not the no-op filter.  This
      passes the capacity of the stacks exactly if they have too little room for the
      nodes. */
  method DeleteAll(tree: PlTree) returns (out: seq<Item>)
    requires tree.Valid()
    modifies tree.repr.Footprint
    ensures tree.Valid() && tree.Contents() == [] && out == old(tree.Contents())
    ensures tree.repr.Overrun() <==>
            old(tree.repr.Overrun()) || !TurnsWithin(old(tree.repr.Mem()).c, tree.repr.Capacity())
  {
    hide Inorder, Tidy, Exact, Sorted, Select, Reject, StaysWithin, Climbed, TreeReprs.TreeRepr.Valid;
    ghost var m0 := tree.repr.Mem();
    if tree.repr.IsNil(0) {
      NothingLive(m0);
      return [];
    }
    FirstOf(m0.c, 0);
    LastOf(m0.c, 0);
    var min := tree.repr.FindMin(0);
    var max := tree.repr.FindMax(0);
    var from := tree.repr.GetNode(min).item.key;
    var last := tree.repr.GetNode(max).item;
    var to := Interval(last.key.a + 1, 0);
    EverythingInRange(tree.Contents(), m0.c[min].node.item, last,
                      Inorder(Cleared(m0.c, min), 0), Inorder(Cleared(m0.c, max), 0));
    SelectAll(RangeFilter(from, to, AcceptAll()), tree.Contents());
    out := tree.FilterRange(from, to, AcceptAll());
    ExactRoom(m0, tree.repr.Mem(), tree.repr.Capacity());
  }

  lemma {:induction false} EverythingOverlaps(s: seq<Item>, first: Item, a: seq<Item>, maxb: int)
    requires Sorted(s) && s == [first] + a && forall x :: x in s ==> WellFormed(x.key) && x.key.b <= maxb
    ensures var query := Interval(first.key.a, maxb + 1);
            && WellFormed(query)
            && forall x :: x in s ==> OverlapFilter(query, AcceptAll())(x.key)
  {
    assert s[0] == first;
    assert first in s;
    var query := Interval(first.key.a, maxb + 1);
    forall x | x in s
      ensures OverlapFilter(query, AcceptAll())(x.key)
    {
      var i :| 0 <= i < |s| && s[i] == x;
      assert AtMost(first.key, x.key) && WellFormed(x.key);
      assert Overlaps(query, x.key);
    }
    assert AtMost(first.key, first.key) && WellFormed(first.key);
  }

  /** The same for the interval tree and a query that overlaps everything. */
  method DeleteAllIntervals(tree: IvTree) returns (out: seq<Item>)
    requires tree.Valid()
    modifies tree.repr.Footprint
    ensures tree.Valid() && tree.Contents() == [] && out == old(tree.Contents())
    ensures tree.repr.Overrun() <==>
            old(tree.repr.Overrun()) || !TurnsWithin(old(tree.repr.Mem()).c, tree.repr.Capacity())
  {
    hide Inorder, Tidy, Exact, Sorted, Select, Reject, StaysWithin, Climbed, TreeReprs.TreeRepr.Valid;
    ghost var m0 := tree.repr.Mem();
    if tree.repr.IsNil(0) {
      NothingLive(m0);
      return [];
    }
    FirstOf(m0.c, 0);
    BulkOverlap.MaxbBounds(m0.c, 0);
    var min := tree.repr.FindMin(0);
    var query := Interval(tree.repr.GetNode(min).item.key.a, tree.repr.GetNode(0).maxb + 1);
    EverythingOverlaps(tree.Contents(), m0.c[min].node.item, Inorder(Cleared(m0.c, min), 0), m0.c[0].node.maxb);
    SelectAll(OverlapFilter(query, AcceptAll()), tree.Contents());
    out := tree.FilterOverlap(query, AcceptAll(), false);
    ExactRoom(m0, tree.repr.Mem(), tree.repr.Capacity());
  }

  //---- after a refill ---------------------------------------------------------------------------

  /** If the capacity covers the turns to the master's nodes, no commands whatever pass it
      after the refill. */
  method RunAfterRefill(tree: PlTree, master: PlTree, cmds: seq<Command>) returns (removed: seq<Item>)
    requires tree.Valid() && master.Valid() && tree.repr.Footprint !! master.repr.Footprint
    requires tree.repr.data.Length == master.repr.data.Length
    requires forall cmd :: cmd in cmds ==> ForPlain(cmd)
    modifies tree.repr.Footprint
    ensures tree.Valid() && master.Valid()
    ensures !old(tree.repr.Overrun()) && TurnsWithin(old(master.repr.Mem()).c, tree.repr.Capacity()) ==>
              tree.repr.Roomy()
  {
    hide Inorder, Tidy, Sorted, Run, Subsequence;
    tree.repr.Refill(master.repr);
    removed := RunPlain(tree, cmds);
  }

  /** If it does not, deleting everything passes it. */
  method DeleteAllAfterRefill(tree: PlTree, master: PlTree) returns (out: seq<Item>)
    requires tree.Valid() && master.Valid() && tree.repr.Footprint !! master.repr.Footprint
    requires tree.repr.data.Length == master.repr.data.Length
    modifies tree.repr.Footprint
    ensures tree.Valid() && master.Valid() && out == old(master.Contents())
    ensures tree.repr.Overrun() <==>
            old(tree.repr.Overrun()) || !TurnsWithin(old(master.repr.Mem()).c, tree.repr.Capacity())
  {
    hide Inorder, Tidy, Sorted;
    tree.repr.Refill(master.repr);
    out := DeleteAll(tree);
  }

  /** Paths that zigzag need less room than their depth: for the nodes 0, 1 and 4 one slot
      on each stack is enough. */
  lemma {:induction false} ZigzagNeedsLess(c: seq<Cell>)
    requires forall j :: Live(c, j) <==> j == 0 || j == 1 || j == 4
    ensures TurnsWithin(c, 1) && !TurnsWithin(c, 0) && Depth(4) == 2
  {
    assert LeftTurns(1) == 1 && RightTurns(1) == 0;
    assert LeftTurns(4) == 1 && RightTurns(4) == 1;
    assert Depth(1) == 1;
    assert Live(c, 1);
  }

  /** A tree with a single node, refilled from a master with two nodes to the left in a
      row: the push of node 1 meets a full stack. */
  method RefillOverruns(v: Value) returns (tree: PlTree)
    ensures tree.Valid() && tree.repr.Capacity() == 1 && tree.repr.Overrun()
  {
    hide Inorder, Tidy, Layout.ShapeItems, Layout.TidyItems;
    var one, two, three := Item(Interval(1, 1), v), Item(Interval(2, 2), v), Item(Interval(3, 3), v);
    var single := [Some(one), None, None, None];
    var chain := [Some(three), Some(two), None, Some(one)];
    Laid(single, chain, one, two, three);
    tree := new PlTree.WithShape(single);
    var master := new PlTree.WithShape(chain);
    assert Live(master.repr.Mem().c, 3) by {
      assert Layout.Given(chain, 3);
    }
    assert LeftTurns(1) == 1 && LeftTurns(3) == 2;
    var _ := DeleteAllAfterRefill(tree, master);
  }

  lemma {:induction false} InOrder(one: Item, two: Item, three: Item)
    requires Less(one.key, two.key) && Less(two.key, three.key)
    ensures Sorted([one]) && Sorted([one, two, three])
  {
  }

  lemma {:induction false} Laid(
      single: seq<Option<Item>>, chain: seq<Option<Item>>, one: Item, two: Item, three: Item)
    requires single == [Some(one), None, None, None]
    requires chain == [Some(three), Some(two), None, Some(one)]
    requires Less(one.key, two.key) && Less(two.key, three.key)
    ensures Layout.TidyItems(single) && Sorted(Layout.ShapeItems(single, 0))
    ensures Layout.TidyItems(chain) && Sorted(Layout.ShapeItems(chain, 0))
    ensures CalcHeight(Layout.ShapeNodes(single), 0) == 1
  {
    hide Sorted;
    assert forall i :: i >= 4 ==> Layout.ShapeItems(single, i) == [] == Layout.ShapeItems(chain, i);
    assert Layout.ShapeItems(single, 3) == [];
    assert Layout.ShapeItems(single, 1) == [] && Layout.ShapeItems(single, 2) == [];
    assert Layout.ShapeItems(single, 0) == [one];
    assert Layout.ShapeItems(chain, 3) == [one] && Layout.ShapeItems(chain, 2) == [];
    assert Layout.ShapeItems(chain, 1) == [one, two];
    assert Layout.ShapeItems(chain, 0) == [one, two, three];
    InOrder(one, two, three);
    var nodes := Layout.ShapeNodes(single);
    assert CalcHeight(nodes, 1) == 0 && CalcHeight(nodes, 2) == 0;
  }
}
