/** The cell array of the tree and what a subtree of it holds. */
module Cells {
  import opened HeapIndex
  import opened Items

  /** `live` is the presence mask.  A cell that is not live keeps its old node. */
  datatype Cell = Cell(node: Node, live: bool)

  predicate Live(c: seq<Cell>, i: nat) {
    i < |c| && c[i].live
  }

  ghost function At(c: seq<Cell>, i: nat): seq<Item> {
    if Live(c, i) then [c[i].node.item] else []
  }

  /** The items of the subtree at `i`, left to right.  A cell that is not live
      contributes nothing but does not hide its subtrees, so the sequence keeps its
      meaning while ancestors are holes. */
  ghost function Inorder(c: seq<Cell>, i: nat): seq<Item>
    decreases |c| - i
  {
    if i >= |c| then [] else Inorder(c, LeftOf(i)) + At(c, i) + Inorder(c, RightOf(i))
  }

  /** No node of the subtree at `i` dangles below a nil cell. */
  ghost predicate Tidy(c: seq<Cell>, i: nat)
    decreases |c| - i
  {
    i < |c| ==>
      && Tidy(c, LeftOf(i))
      && Tidy(c, RightOf(i))
      && (!Live(c, i) ==> !Live(c, LeftOf(i)) && !Live(c, RightOf(i)))
  }

  ghost function LocalMax(c: seq<Cell>, i: nat): int
    requires i < |c|
  {
    var m := c[i].node.item.key.b;
    var l := if Live(c, LeftOf(i)) then Max(m, c[LeftOf(i)].node.maxb) else m;
    if Live(c, RightOf(i)) then Max(l, c[RightOf(i)].node.maxb) else l
  }

  /** Every live node of the subtree at `i` carries the right bound. */
  ghost predicate Exact(c: seq<Cell>, i: nat)
    decreases |c| - i
  {
    i < |c| ==>
      && Exact(c, LeftOf(i))
      && Exact(c, RightOf(i))
      && (Live(c, i) ==> c[i].node.maxb == LocalMax(c, i))
  }

  ghost predicate Same(c0: seq<Cell>, c1: seq<Cell>, i: nat) {
    i < |c0| && i < |c1| ==> c0[i] == c1[i]
  }

  /** What a subtree holds depends on its own cells only. */
  lemma {:induction false} Frame(c0: seq<Cell>, c1: seq<Cell>, r: nat)
    requires |c0| == |c1|
    requires forall j :: Below(r, j) ==> Same(c0, c1, j)
    ensures Inorder(c0, r) == Inorder(c1, r)
    ensures Tidy(c0, r) == Tidy(c1, r)
    ensures Exact(c0, r) == Exact(c1, r)
    decreases |c0| - r
  {
    if r < |c0| {
      BelowKids(r);
      Frame(c0, c1, LeftOf(r));
      Frame(c0, c1, RightOf(r));
      assert Same(c0, c1, r);
      assert Below(r, LeftOf(r)) && Below(r, RightOf(r));
      assert Same(c0, c1, LeftOf(r)) && Same(c0, c1, RightOf(r));
    }
  }

  lemma {:induction false} TidyBelow(c: seq<Cell>, r: nat, i: nat)
    requires Tidy(c, r) && Below(r, i)
    ensures Tidy(c, i)
    ensures Live(c, i) ==> Live(c, r)
    decreases i
  {
    if i != r {
      TidyBelow(c, r, ParentOf(i));
      assert i == LeftOf(ParentOf(i)) || i == RightOf(ParentOf(i));
    }
  }

  /** Nothing dangles exactly if every node has its parent. */
  lemma {:induction false} TidyIffParentsLive(c: seq<Cell>, r: nat)
    ensures Tidy(c, r) <==> forall i :: Below(r, i) && i != r && Live(c, i) ==> Live(c, ParentOf(i))
    decreases |c| - r
  {
    if r < |c| {
      var l, k := LeftOf(r), RightOf(r);
      TidyIffParentsLive(c, l);
      TidyIffParentsLive(c, k);
      BelowKids(r);
      assert Below(r, l) && Below(r, k) && ParentOf(l) == r && ParentOf(k) == r;
    }
  }

  /** Below a nil cell of a tidy subtree there is no node. */
  lemma {:induction false} NoneBelowNil(c: seq<Cell>, r: nat)
    requires Tidy(c, r) && !Live(c, r)
    ensures forall i :: Below(r, i) ==> !Live(c, i)
  {
    forall i: nat | Below(r, i)
      ensures !Live(c, i)
    {
      TidyBelow(c, r, i);
    }
  }

  /** An empty subtree has a nil root. */
  lemma {:induction false} EmptyIsNil(c: seq<Cell>, i: nat)
    requires Inorder(c, i) == []
    ensures !Live(c, i)
  {
  }

  /** A nil root means an empty subtree, when nothing dangles. */
  lemma {:induction false} NilIsEmpty(c: seq<Cell>, i: nat)
    requires Tidy(c, i) && !Live(c, i)
    ensures Inorder(c, i) == []
    decreases |c| - i
  {
    if i < |c| {
      NilIsEmpty(c, LeftOf(i));
      NilIsEmpty(c, RightOf(i));
    }
  }

  lemma {:induction false} EmptyIsTidy(c: seq<Cell>, i: nat)
    requires Inorder(c, i) == []
    ensures Tidy(c, i) && Exact(c, i)
    decreases |c| - i
  {
    EmptyIsNil(c, i);
    if i < |c| {
      EmptyIsTidy(c, LeftOf(i));
      EmptyIsTidy(c, RightOf(i));
      EmptyIsNil(c, LeftOf(i));
      EmptyIsNil(c, RightOf(i));
    }
  }

  /** Overwriting one cell changes the number of items by what that cell holds. */
  lemma {:induction false} UpdateCount(c0: seq<Cell>, c1: seq<Cell>, r: nat, i: nat)
    requires |c0| == |c1| && Below(r, i) && i < |c0|
    requires forall j :: j != i ==> Same(c0, c1, j)
    ensures |Inorder(c1, r)| + |At(c0, i)| == |Inorder(c0, r)| + |At(c1, i)|
    ensures |Inorder(c0, r)| >= |At(c0, i)|
    decreases |c0| - r
  {
    BelowSplit(r, i);
    BelowKids(r);
    if i == r {
      Frame(c0, c1, LeftOf(r));
      Frame(c0, c1, RightOf(r));
    } else if Below(LeftOf(r), i) {
      assert Same(c0, c1, r);
      UpdateCount(c0, c1, LeftOf(r), i);
      Frame(c0, c1, RightOf(r));
    } else {
      assert Same(c0, c1, r);
      UpdateCount(c0, c1, RightOf(r), i);
      Frame(c0, c1, LeftOf(r));
    }
  }
}
