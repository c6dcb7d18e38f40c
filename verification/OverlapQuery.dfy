/** The overlap query: what the two prunings leave out does not overlap. */
module OverlapQuery {
  import opened HeapIndex
  import opened Items
  import opened Cells
  import opened BulkSpec
  import opened Selections
  import opened Traversal
  import BulkOverlap
  import IntervalDelete
  import BulkRanges

  ghost predicate Queryable(c: seq<Cell>, query: Interval, i: nat) {
    && Exact(c, i) && Tidy(c, i) && Sorted(Inorder(c, i)) && WellFormed(query)
    && forall x :: x in Inorder(c, i) ==> WellFormed(x.key)
  }

  function OverlapKeys(query: Interval): Interval -> bool {
    k => Overlaps(query, k)
  }

  /** Every subtree of a valid tree can be queried. */
  lemma {:induction false} QueryAnywhere(c: seq<Cell>, query: Interval, i: nat)
    requires Queryable(c, query, 0)
    ensures Queryable(c, query, i)
  {
    BelowRoot(i);
    TidyBelow(c, 0, i);
    IntervalDelete.ExactBelow(c, 0, i);
    Around(c, 0, i);
    SortedSplit(Before(c, 0, i) + Inorder(c, i), After(c, 0, i));
    SortedSplit(Before(c, 0, i), Inorder(c, i));
  }

  lemma {:induction false} QueryNil(c: seq<Cell>, query: Interval, i: nat)
    requires Queryable(c, query, i) && !Live(c, i)
    ensures Select(OverlapKeys(query), Inorder(c, i)) == []
  {
    NilIsEmpty(c, i);
  }

  lemma {:induction false} QueryKids(c: seq<Cell>, query: Interval, i: nat)
    requires Queryable(c, query, i) && Live(c, i)
    ensures Queryable(c, query, LeftOf(i)) && Queryable(c, query, RightOf(i))
    ensures i < |c| && i < LeftOf(i) && i < RightOf(i)
  {
    BulkRanges.SortedAround(c, i);
  }

  lemma {:induction false} QuerySplit(c: seq<Cell>, query: Interval, i: nat)
    requires Live(c, i)
    ensures Select(OverlapKeys(query), Inorder(c, i))
         == Select(OverlapKeys(query), Inorder(c, LeftOf(i)))
            + (if Overlaps(query, c[i].node.item.key) then [c[i].node.item] else [])
            + Select(OverlapKeys(query), Inorder(c, RightOf(i)))
  {
    hide Inorder;
    var p, x := OverlapKeys(query), At(c, i);
    AroundStep(c, i);
    SelectConcat(p, Inorder(c, LeftOf(i)) + x, Inorder(c, RightOf(i)));
    SelectConcat(p, Inorder(c, LeftOf(i)), x);
    assert x[1..] == [];
  }

  /** The bound of the subtree is before the query. */
  lemma {:induction false} PrunedByMaxb(c: seq<Cell>, query: Interval, i: nat)
    requires Queryable(c, query, i) && Live(c, i) && c[i].node.maxb < query.a
    ensures Select(OverlapKeys(query), Inorder(c, i)) == []
  {
    BulkOverlap.MaxbBounds(c, i);
    SelectNone(OverlapKeys(query), Inorder(c, i));
  }

  /** The root starts after the query. */
  lemma {:induction false} PrunedByRoot(c: seq<Cell>, query: Interval, i: nat)
    requires Queryable(c, query, i) && Live(c, i) && Beyond(query, c[i].node.item.key)
    ensures Select(OverlapKeys(query), Inorder(c, i)) == Select(OverlapKeys(query), Inorder(c, LeftOf(i)))
  {
    BulkRanges.SortedAround(c, i);
    AllBeyond(query, c[i].node.item.key, Inorder(c, RightOf(i)));
    hide Inorder, Tidy, Exact, Sorted;
    QuerySplit(c, query, i);
  }

  lemma {:induction false} AllBeyond(query: Interval, k: Interval, s: seq<Item>)
    requires WellFormed(query) && Beyond(query, k) && forall x :: x in s ==> AtMost(k, x.key)
    ensures Select(OverlapKeys(query), s) == []
    ensures !Overlaps(query, k)
  {
    SelectNone(OverlapKeys(query), s);
  }
}
