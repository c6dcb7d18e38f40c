/** The iterators over a tree of any shape. */
module Iterators {
  import opened HeapIndex
  import opened Items
  import opened Cells
  import opened Memory
  import opened Traversal
  import opened RangeLoop
  import opened TreeReprs

  /** The items still to come when the iteration stands at `i`. */
  ghost function PendingAt(c: seq<Cell>, i: nat): seq<Item> {
    BelowRoot(i);
    if Live(c, i) then Rest(c, 0, i) else []
  }

  ghost predicate IterAt(c: seq<Cell>, i: nat, remaining: nat) {
    && (Live(c, i) ==> Walking(c, 0, i))
    && remaining == |PendingAt(c, i)|
  }

  /** One step of the iteration. */
  lemma {:induction false} IterStep(c: seq<Cell>, i: nat, remaining: nat, next: Option<nat>)
    requires IterAt(c, i, remaining) && Live(c, i)
    requires next == None ==> Inorder(c, RightOf(i)) + AfterIn(c, i) == []
    requires next.Some? ==>
               Walking(c, 0, next.value) && PendingAt(c, next.value) == Inorder(c, RightOf(i)) + AfterIn(c, i)
    ensures var j := if next.Some? then next.value else |c|;
            && remaining > 0 && IterAt(c, j, remaining - 1)
            && PendingAt(c, i) == [c[i].node.item] + PendingAt(c, j)
  {
    hide Inorder, After;
    BelowRoot(i);
    RestStep(c, i);
  }

  ghost function AfterIn(c: seq<Cell>, i: nat): seq<Item> {
    BelowRoot(i);
    After(c, 0, i)
  }

  lemma {:induction false} IterFacts(c: seq<Cell>, i: nat, remaining: nat)
    requires IterAt(c, i, remaining)
    ensures Live(c, i) ==> Below(0, i) && i < |c| && Ahead(c, 0, i) && Tidy(c, RightOf(i))
    ensures Live(c, i) ==> PendingAt(c, i) != [] && AfterIn(c, i) == After(c, 0, i)
    ensures !Live(c, i) ==> PendingAt(c, i) == []
  {
    BelowRoot(i);
  }

  lemma {:induction false} PendingMeans(c: seq<Cell>, i: nat)
    requires Walking(c, 0, i)
    ensures Below(0, i) && PendingAt(c, i) == Rest(c, 0, i)
  {
  }

  /** Iterates without changing the tree. */
  class Iter {
    const tree: TreeRepr
    var nextIdx: nat
    var remaining: nat

    /** The items still to come. */
    ghost function Pending(): seq<Item>
      reads this, tree, tree.Footprint, tree.data, tree.mask, tree.slotsMin, tree.slotsMax,
            tree.slotsMin.slots, tree.slotsMax.slots
      requires tree.Valid()
    {
      PendingAt(tree.Mem().c, nextIdx)
    }

    ghost predicate Valid()
      reads this, tree, tree.Footprint, tree.data, tree.mask, tree.slotsMin, tree.slotsMax,
            tree.slotsMin.slots, tree.slotsMax.slots
    {
      tree.Valid() && this !in tree.Footprint && IterAt(tree.Mem().c, nextIdx, remaining)
    }

    constructor (tree: TreeRepr)
      requires tree.Valid() && Tidy(tree.Mem().c, 0)
      ensures Valid() && this.tree == tree && Pending() == Inorder(tree.Mem().c, 0)
    {
      this.tree := tree;
      var first := tree.FindMin(0);
      nextIdx := first;
      remaining := tree.size;
      new;
      StartIter(tree.Mem().c);
      BelowRoot(nextIdx);
    }

    /** Yields the items one by one; afterwards only `None`. */
    method Next() returns (item: Option<Item>)
      requires Valid()
      modifies this
      ensures Valid() && tree.Mem() == old(tree.Mem())
      ensures item == None <==> old(Pending()) == []
      ensures item == None ==> Pending() == []
      ensures item.Some? ==> old(Pending()) == [item.value] + Pending()
      ensures item.Some? ==> remaining == old(remaining) - 1
    {
      hide Rest, Walking, Inorder, Tidy, Ahead, After, IterAt, PendingAt, AfterIn;
      var curr := nextIdx;
      ghost var c := tree.Mem().c;
      IterFacts(c, curr, remaining);
      if tree.IsNil(curr) {
        return None;
      }
      var next := tree.NextIdx(0, curr);
      if next.Some? {
        PendingMeans(c, next.value);
      }
      IterStep(c, curr, remaining, next);
      nextIdx := if next.Some? then next.value else tree.data.Length;
      remaining := remaining - 1;
      item := Some(tree.GetNode(curr).item);
    }
  }

  lemma {:induction false} StartIter(c: seq<Cell>)
    requires Tidy(c, 0)
    ensures var m := Leftmost(c, 0);
            && (Live(c, m) <==> Inorder(c, 0) != [])
            && (Live(c, m) ==> Walking(c, 0, m) && Rest(c, 0, m) == Inorder(c, 0))
  {
    if Live(c, 0) {
      StartWalk(c, 0, 0);
      assert Inorder(c, 0) + [] == Inorder(c, 0);
      EmptyIsNilOr(c);
    } else {
      NilIsEmpty(c, 0);
    }
  }

  lemma {:induction false} EmptyIsNilOr(c: seq<Cell>)
    requires Live(c, 0)
    ensures Inorder(c, 0) != []
  {
    if Inorder(c, 0) == [] {
      EmptyIsNil(c, 0);
    }
  }

  lemma {:induction false} RestStep(c: seq<Cell>, i: nat)
    requires Walking(c, 0, i)
    ensures Rest(c, 0, i) == [c[i].node.item] + (Inorder(c, RightOf(i)) + After(c, 0, i))
  {
    Assoc([c[i].node.item], Inorder(c, RightOf(i)), After(c, 0, i));
  }

  /** Runs an iterator to its end. */
  method Collect(tree: TreeRepr) returns (items: seq<Item>)
    requires tree.Valid() && Tidy(tree.Mem().c, 0)
    ensures tree.Valid() && tree.Mem() == old(tree.Mem())
    ensures items == Recursive(tree.Mem().c, 0)
  {
    hide *;
    var iter := new Iter(tree);
    ghost var all := iter.Pending();
    RecursiveIsInorder(tree.Mem().c, 0);
    items := [];
    while true
      invariant iter.Valid() && fresh(iter) && iter.tree == tree && tree.Mem() == old(tree.Mem())
      invariant items + iter.Pending() == all
      decreases |iter.Pending()|
    {
      var item := iter.Next();
      if item == None {
        return;
      }
      items := items + [item.value];
    }
  }

  /** Iterates and empties the tree on the way. */
  class IntoIter {
    const tree: TreeRepr
    var nextIdx: nat

    /** Only what is still to come is left in the tree. */
    ghost predicate Valid()
      reads this, tree, tree.Footprint, tree.data, tree.mask, tree.slotsMin, tree.slotsMax,
            tree.slotsMin.slots, tree.slotsMax.slots
    {
      && tree.Valid() && this !in tree.Footprint
      && var c := tree.Mem().c;
      && nextIdx <= |c|
      && (nextIdx == |c| ==> Inorder(c, 0) == [])
      && (nextIdx < |c| ==> Walking(c, 0, nextIdx) && Inorder(c, 0) == Rest(c, 0, nextIdx))
    }

    constructor (tree: TreeRepr)
      requires tree.Valid() && Tidy(tree.Mem().c, 0)
      requires tree.data.Length > 0 ==> Live(tree.Mem().c, 0)
      ensures Valid() && this.tree == tree
    {
      this.tree := tree;
      var first := tree.FindMin(0);
      nextIdx := first;
      new;
      StartIter(tree.Mem().c);
      if Live(tree.Mem().c, 0) {
        StartWalk(tree.Mem().c, 0, 0);
      }
    }

    lemma {:induction false} Counts()
      requires Valid()
      ensures tree.Valid() && tree.size == |Inorder(tree.Mem().c, 0)| && this !in tree.Footprint
    {
    }

    /** `tree.size` is the number of items still to come. */
    method Next() returns (item: Option<Item>)
      requires Valid()
      modifies this, tree.Footprint
      ensures Valid()
      ensures item == None <==> Inorder(old(tree.Mem()).c, 0) == []
      ensures item == None ==> Inorder(tree.Mem().c, 0) == []
      ensures item.Some? ==> Inorder(old(tree.Mem()).c, 0) == [item.value] + Inorder(tree.Mem().c, 0)
      ensures item.Some? ==> tree.size == old(tree.size) - 1
    {
      hide Rest, Walking, Inorder, Tidy, Ahead, After, TreeReprs.TreeRepr.Valid;
      var curr := nextIdx;
      ghost var m := tree.Mem();
      if curr == tree.data.Length {
        return None;
      }
      WalkedLive(m.c, curr);
      assert !tree.IsNil(curr);
      var next := tree.NextIdx(0, curr);
      var node := tree.Take(curr);
      TakeWalked(m.c, tree.Mem().c, 0, curr);
      StillNext(m.c, tree.Mem().c, curr);
      if next.Some? {
        WalkedLive(tree.Mem().c, next.value);
      }
      nextIdx := if next.Some? then next.value else tree.data.Length;
      item := Some(node.item);
    }
  }

  /** Runs the consuming iterator to its end: every item once, in order, and an empty
      tree is left. */
  method Drain(tree: TreeRepr) returns (items: seq<Item>)
    requires tree.Valid() && Tidy(tree.Mem().c, 0)
    requires tree.data.Length > 0 ==> Live(tree.Mem().c, 0)
    modifies tree.Footprint
    ensures tree.Valid() && tree.size == 0 && forall j: nat :: !Live(tree.Mem().c, j)
    ensures items == Recursive(old(tree.Mem()).c, 0)
  {
    hide *;
    RecursiveIsInorder(tree.Mem().c, 0);
    ghost var all := Inorder(tree.Mem().c, 0);
    var iter := new IntoIter(tree);
    items := [];
    iter.Counts();
    while true
      modifies iter, tree.Footprint
      invariant iter.Valid() && fresh(iter) && iter.tree == tree && tree.Valid()
      invariant items + Inorder(tree.Mem().c, 0) == all
      decreases |Inorder(tree.Mem().c, 0)|
    {
      var item := iter.Next();
      iter.Counts();
      if item == None {
        NothingLeft(tree.Mem().c);
        return;
      }
      items := items + [item.value];
    }
  }

  lemma {:induction false} NothingLeft(c: seq<Cell>)
    requires Inorder(c, 0) == []
    ensures forall j: nat :: !Live(c, j)
  {
    forall j: nat
      ensures !Live(c, j)
    {
      BelowRoot(j);
      Around(c, 0, j);
      EmptyIsNil(c, j);
    }
  }

  lemma {:induction false} WalkedLive(c: seq<Cell>, i: nat)
    requires Walking(c, 0, i)
    ensures Live(c, i) && Below(0, i) && Ahead(c, 0, i) && Tidy(c, RightOf(i)) && i < |c|
  {
  }

  lemma {:induction false} LeftmostFrame(c0: seq<Cell>, c1: seq<Cell>, i: nat)
    requires |c0| == |c1| && forall j :: j >= i ==> Same(c0, c1, j)
    ensures Leftmost(c0, i) == Leftmost(c1, i)
    decreases |c0| - i
  {
    assert Same(c0, c1, LeftOf(i));
    if Live(c0, LeftOf(i)) {
      LeftmostFrame(c0, c1, LeftOf(i));
    }
  }

  /** Taking the current node does not change which one is next. */
  lemma {:induction false} StillNext(c: seq<Cell>, c': seq<Cell>, i: nat)
    requires |c'| == |c| && forall j :: j != i ==> Same(c, c', j)
    requires Below(0, i) && Ahead(c', 0, i) && Tidy(c', RightOf(i))
    requires Inorder(c', 0) == Inorder(c', RightOf(i)) + After(c', 0, i)
    ensures var next := Successor(c, 0, i);
            if next == None then Inorder(c', 0) == []
            else Walking(c', 0, next.value) && Rest(c', 0, next.value) == Inorder(c', 0)
  {
    assert Same(c, c', RightOf(i));
    if Live(c, RightOf(i)) {
      LeftmostFrame(c, c', RightOf(i));
      GoRight(c', 0, i);
    } else {
      NilIsEmpty(c', RightOf(i));
      Climb(c', 0, i);
      assert [] + After(c', 0, i) == After(c', 0, i);
    }
  }
}
