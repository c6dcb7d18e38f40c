/** Deleting one item: finding it, and moving the hole down. */
module SingleDelete {
  import opened HeapIndex
  import opened Items
  import opened Cells
  import opened Memory
  import opened BulkSpec
  import opened Traversal
  import opened RangeLoop
  import BulkRanges

  //---- finding ----------------------------------------------------------------------------

  /** The search for `query` stands at `i`: everything before that subtree is smaller
      and everything after it larger. */
  ghost predicate Sought(c: seq<Cell>, query: Interval, i: nat) {
    && Below(0, i)
    && (forall x :: x in Before(c, 0, i) ==> Less(x.key, query))
    && (forall x :: x in After(c, 0, i) ==> Less(query, x.key))
  }

  /** Where a search from `i` ends. */
  ghost function Locate(c: seq<Cell>, query: Interval, i: nat): nat
    decreases |c| - i
  {
    if !Live(c, i) || c[i].node.item.key == query then i
    else Locate(c, query, if Less(query, c[i].node.item.key) then LeftOf(i) else RightOf(i))
  }

  lemma {:induction false} SoughtSorted(c: seq<Cell>, i: nat)
    requires Sorted(Inorder(c, 0)) && Below(0, i)
    ensures Sorted(Inorder(c, i))
  {
    Around(c, 0, i);
    SortedSplit(Before(c, 0, i) + Inorder(c, i), After(c, 0, i));
    SortedSplit(Before(c, 0, i), Inorder(c, i));
  }

  lemma {:induction false} SoughtLeft(c: seq<Cell>, query: Interval, i: nat)
    requires Sorted(Inorder(c, 0)) && Sought(c, query, i) && Live(c, i) && Less(query, c[i].node.item.key)
    ensures Sought(c, query, LeftOf(i))
  {
    hide Inorder, Sorted;
    SoughtSorted(c, i);
    BulkRanges.SortedAround(c, i);
    assert ParentOf(LeftOf(i)) == i;
  }

  lemma {:induction false} SoughtRight(c: seq<Cell>, query: Interval, i: nat)
    requires Sorted(Inorder(c, 0)) && Sought(c, query, i) && Live(c, i) && Less(c[i].node.item.key, query)
    ensures Sought(c, query, RightOf(i))
  {
    hide Inorder, Sorted;
    SoughtSorted(c, i);
    BulkRanges.SortedAround(c, i);
    assert ParentOf(RightOf(i)) == i;
  }

  ghost function SearchNext(c: seq<Cell>, query: Interval, i: nat): nat
    requires i < |c|
  {
    if Less(query, c[i].node.item.key) then LeftOf(i) else RightOf(i)
  }

  lemma {:induction false} SearchOn(c: seq<Cell>, query: Interval, i: nat)
    requires Sorted(Inorder(c, 0)) && Sought(c, query, i) && Live(c, i) && query != c[i].node.item.key
    ensures var n := SearchNext(c, query, i);
            && Sought(c, query, n) && n > i && ParentOf(n) == i
            && Locate(c, query, n) == Locate(c, query, i)
            && n == if Less(query, c[i].node.item.key) then LeftOf(i) else RightOf(i)
  {
    if Less(query, c[i].node.item.key) {
      SoughtLeft(c, query, i);
    } else {
      SoughtRight(c, query, i);
    }
  }

  lemma {:induction false} SearchEnds(c: seq<Cell>, query: Interval, i: nat)
    requires !Live(c, i) || c[i].node.item.key == query
    ensures Locate(c, query, i) == i
  {
  }

  lemma {:induction false} SearchStarts(c: seq<Cell>, query: Interval)
    ensures Sought(c, query, 0)
  {
  }

  /** A search that ends at a nil cell proves that the key is absent. */
  lemma {:induction false} NotFound(c: seq<Cell>, query: Interval, i: nat)
    requires Tidy(c, 0) && Sought(c, query, i) && !Live(c, i)
    ensures forall x :: x in Inorder(c, 0) ==> x.key != query
  {
    TidyBelow(c, 0, i);
    NilIsEmpty(c, i);
    Around(c, 0, i);
  }

  //---- the hole -----------------------------------------------------------------------------

  /** The last node of a subtree, cut off. */
  lemma {:induction false} LastOf(c: seq<Cell>, j: nat)
    requires Live(c, j) && Tidy(c, j)
    ensures var m := Rightmost(c, j);
            && Live(c, m) && Below(j, m) && !Live(c, RightOf(m)) && Tidy(c, m)
            && Inorder(c, j) == Inorder(Cleared(c, m), j) + [c[m].node.item]
    decreases |c| - j
  {
    var m := Rightmost(c, j);
    var c' := Cleared(c, m);
    BelowKids(j);
    if Live(c, RightOf(j)) {
      LastOf(c, RightOf(j));
      BulkRanges.BelowIsTransitive(j, RightOf(j), m);
      assert !Below(LeftOf(j), m) && m != j;
      Frame(c, c', LeftOf(j));
      assert Same(c, c', j);
      Assoc(Inorder(c, LeftOf(j)) + At(c, j), Inorder(c', RightOf(j)), [c[m].node.item]);
    } else {
      NilIsEmpty(c, RightOf(j));
      Frame(c, c', LeftOf(j));
      Frame(c, c', RightOf(j));
      LastSeq(Inorder(c, LeftOf(j)), At(c, j));
    }
  }

  lemma {:induction false} LastSeq(l: seq<Item>, x: seq<Item>)
    ensures l + x + [] == (l + [] + []) + x
  {
  }

  /** The first node of a subtree, cut off. */
  lemma {:induction false} FirstOf(c: seq<Cell>, j: nat)
    requires Live(c, j) && Tidy(c, j)
    ensures var m := Leftmost(c, j);
            && Live(c, m) && Below(j, m) && !Live(c, LeftOf(m)) && Tidy(c, m)
            && Inorder(c, j) == [c[m].node.item] + Inorder(Cleared(c, m), j)
    decreases |c| - j
  {
    var m := Leftmost(c, j);
    var c' := Cleared(c, m);
    BelowKids(j);
    if Live(c, LeftOf(j)) {
      FirstOf(c, LeftOf(j));
      BulkRanges.BelowIsTransitive(j, LeftOf(j), m);
      assert !Below(RightOf(j), m) && m != j;
      Frame(c, c', RightOf(j));
      assert Same(c, c', j);
      FirstSeq([c[m].node.item], Inorder(c', LeftOf(j)), At(c, j), Inorder(c, RightOf(j)));
    } else {
      NilIsEmpty(c, LeftOf(j));
      Frame(c, c', LeftOf(j));
      Frame(c, c', RightOf(j));
      FirstSeq(At(c, j), [], [], Inorder(c, RightOf(j)));
    }
  }

  lemma {:induction false} FirstSeq(m: seq<Item>, l: seq<Item>, x: seq<Item>, r: seq<Item>)
    ensures (m + l) + x + r == m + (l + x + r)
    ensures [] + m + r == m + ([] + [] + r)
  {
    Assoc(m, l, x);
    Assoc(m, l + x, r);
    assert [] + m == m && [] + [] + r == r;
  }

  /** A tree that is tidy but for a hole at `h`: filling the hole would make it tidy. */
  ghost function Plugged(c: seq<Cell>, h: nat): seq<Cell> {
    if h < |c| then c[h := Cell(c[h].node, true)] else c
  }

  /** Tidiness is a matter of the mask alone. */
  lemma {:induction false} TidyMask(c0: seq<Cell>, c1: seq<Cell>, r: nat)
    requires |c0| == |c1| && forall j :: Live(c0, j) == Live(c1, j)
    ensures Tidy(c0, r) == Tidy(c1, r)
    decreases |c0| - r
  {
    if r < |c0| {
      TidyMask(c0, c1, LeftOf(r));
      TidyMask(c0, c1, RightOf(r));
    }
  }

  /** A hole without children does no harm. */
  lemma {:induction false} Unplug(c: seq<Cell>, r: nat, h: nat)
    requires Tidy(Plugged(c, h), r) && !Live(c, LeftOf(h)) && !Live(c, RightOf(h))
    ensures Tidy(c, r)
    decreases |c| - r
  {
    if r < |c| {
      Unplug(c, LeftOf(r), h);
      Unplug(c, RightOf(r), h);
    }
  }

  lemma {:induction false} HoleKids(c: seq<Cell>, h: nat)
    requires h < |c| && Tidy(Plugged(c, h), 0)
    ensures Tidy(c, LeftOf(h)) && Tidy(c, RightOf(h))
  {
    BelowRoot(LeftOf(h));
    BelowRoot(RightOf(h));
    TidyBelow(Plugged(c, h), 0, LeftOf(h));
    TidyBelow(Plugged(c, h), 0, RightOf(h));
    BelowKids(h);
    Frame(c, Plugged(c, h), LeftOf(h));
    Frame(c, Plugged(c, h), RightOf(h));
  }

  /** The whole sequence when only the subtree at `i` changed. */
  lemma {:induction false} Replaced(c: seq<Cell>, c': seq<Cell>, i: nat)
    requires Below(0, i) && |c'| == |c| && forall j :: !Below(i, j) ==> Same(c, c', j)
    ensures Inorder(c, 0) == Before(c, 0, i) + Inorder(c, i) + After(c, 0, i)
    ensures Inorder(c', 0) == Before(c, 0, i) + Inorder(c', i) + After(c, 0, i)
  {
    Around(c, 0, i);
    Around(c', 0, i);
    AroundFrame(c, c', 0, i);
  }

  /** Moving the last node of the left subtree into the hole above it: the order is
      kept, and the hole is now where that node was. */
  lemma {:induction false} LastOfMoves(c: seq<Cell>, h: nat)
    requires h < |c| && !Live(c, h) && Live(c, LeftOf(h)) && Tidy(c, LeftOf(h))
    ensures var m := Rightmost(c, LeftOf(h)); var c' := MovedCell(c, m, h);
            && h < m < |c| && Below(h, m) && Below(LeftOf(h), m) && Live(c, m) && Live(c', h) && !Live(c', m)
            && Inorder(c', h) == Inorder(c, h)
            && !Live(c', RightOf(m))
            && forall j :: !Below(h, j) ==> Same(c, c', j)
  {
    hide Inorder, Tidy, Exact;
    BelowKids(h);
    LastOf(c, LeftOf(h));
    var m := Rightmost(c, LeftOf(h));
    var c' := MovedCell(c, m, h);
    Frame(Cleared(c, m), c', LeftOf(h));
    Frame(c, c', RightOf(h));
    AroundStep(c, h);
    AroundStep(c', h);
    MoveLastSeq(Inorder(c', LeftOf(h)), [c[m].node.item], Inorder(c, RightOf(h)));
  }

  lemma {:induction false} MoveLastUp(c: seq<Cell>, h: nat)
    requires h < |c| && !Live(c, h) && Live(c, LeftOf(h)) && Tidy(Plugged(c, h), 0)
    ensures var m := Rightmost(c, LeftOf(h)); var c' := MovedCell(c, m, h);
            && h < m < |c| && Below(h, m) && Below(LeftOf(h), m) && Live(c, m) && Live(c', h) && !Live(c', m)
            && Inorder(c', 0) == Inorder(c, 0)
            && Tidy(Plugged(c', m), 0) && !Live(c', RightOf(m))
  {
    hide Inorder, Tidy, Exact, Below;
    HoleKids(c, h);
    LastOfMoves(c, h);
    var m := Rightmost(c, LeftOf(h));
    var c' := MovedCell(c, m, h);
    BelowRoot(h);
    Replaced(c, c', h);
    TidyMask(Plugged(c, h), Plugged(c', m), 0);
  }

  lemma {:induction false} MoveLastSeq(l: seq<Item>, x: seq<Item>, r: seq<Item>)
    ensures (l + x) + [] + r == l + x + r
  {
    assert (l + x) + [] == l + x;
  }

  lemma {:induction false} FirstOfMoves(c: seq<Cell>, h: nat)
    requires h < |c| && !Live(c, h) && Live(c, RightOf(h)) && Tidy(c, RightOf(h))
    ensures var m := Leftmost(c, RightOf(h)); var c' := MovedCell(c, m, h);
            && h < m < |c| && Below(h, m) && Below(RightOf(h), m) && Live(c, m) && Live(c', h) && !Live(c', m)
            && Inorder(c', h) == Inorder(c, h)
            && !Live(c', LeftOf(m))
            && forall j :: !Below(h, j) ==> Same(c, c', j)
  {
    hide Inorder, Tidy, Exact;
    BelowKids(h);
    FirstOf(c, RightOf(h));
    var m := Leftmost(c, RightOf(h));
    var c' := MovedCell(c, m, h);
    Frame(Cleared(c, m), c', RightOf(h));
    Frame(c, c', LeftOf(h));
    AroundStep(c, h);
    AroundStep(c', h);
    MoveFirstSeq(Inorder(c, LeftOf(h)), [c[m].node.item], Inorder(c', RightOf(h)));
  }

  lemma {:induction false} MoveFirstUp(c: seq<Cell>, h: nat)
    requires h < |c| && !Live(c, h) && Live(c, RightOf(h)) && Tidy(Plugged(c, h), 0)
    ensures var m := Leftmost(c, RightOf(h)); var c' := MovedCell(c, m, h);
            && h < m < |c| && Below(h, m) && Below(RightOf(h), m) && Live(c, m) && Live(c', h) && !Live(c', m)
            && Inorder(c', 0) == Inorder(c, 0)
            && Tidy(Plugged(c', m), 0) && !Live(c', LeftOf(m))
  {
    hide Inorder, Tidy, Exact, Below;
    HoleKids(c, h);
    FirstOfMoves(c, h);
    var m := Leftmost(c, RightOf(h));
    var c' := MovedCell(c, m, h);
    BelowRoot(h);
    Replaced(c, c', h);
    TidyMask(Plugged(c, h), Plugged(c', m), 0);
  }

  lemma {:induction false} MoveFirstSeq(l: seq<Item>, x: seq<Item>, r: seq<Item>)
    ensures l + [] + (x + r) == l + x + r
  {
    assert l + [] == l;
    Assoc(l, x, r);
  }

  /** `s1` is `s0` without the item `x`, which stood at one place of it. */
  ghost predicate RemovedOne(s0: seq<Item>, x: Item, s1: seq<Item>) {
    exists k :: 0 <= k < |s0| && s0[k] == x && s1 == s0[..k] + s0[k + 1..]
  }

  lemma {:induction false} RemovedSorted(s0: seq<Item>, x: Item, s1: seq<Item>)
    requires Sorted(s0) && RemovedOne(s0, x, s1)
    ensures Sorted(s1)
  {
    var k :| 0 <= k < |s0| && s0[k] == x && s1 == s0[..k] + s0[k + 1..];
    forall i, j | 0 <= i < j < |s1|
      ensures AtMost(s1[i].key, s1[j].key)
    {
      assert s1[i] == s0[if i < k then i else i + 1];
      assert s1[j] == s0[if j < k then j else j + 1];
    }
  }

  lemma {:induction false} RemovedMembers(s0: seq<Item>, x: Item, s1: seq<Item>)
    requires RemovedOne(s0, x, s1)
    ensures x in s0
    ensures forall y :: y in s1 ==> y in s0
    ensures forall y :: y in s0 ==> y == x || y in s1
    ensures multiset(s0) == multiset(s1) + multiset{x}
  {
    var k :| 0 <= k < |s0| && s0[k] == x && s1 == s0[..k] + s0[k + 1..];
    assert s0 == s0[..k] + [x] + s0[k + 1..];
  }

  lemma {:induction false} RemovedAt(s0: seq<Item>, x: Item, s1: seq<Item>) returns (u: seq<Item>, v: seq<Item>)
    requires RemovedOne(s0, x, s1)
    ensures s0 == u + [x] + v && s1 == u + [] + v
  {
    var k :| 0 <= k < |s0| && s0[k] == x && s1 == s0[..k] + s0[k + 1..];
    u, v := s0[..k], s0[k + 1..];
  }

  lemma {:induction false} RemovedWithin(b: seq<Item>, s0: seq<Item>, x: Item, s1: seq<Item>, a: seq<Item>)
    requires RemovedOne(s0, x, s1)
    ensures RemovedOne(b + s0 + a, x, b + s1 + a)
  {
    hide RemovedOne;
    var u, v := RemovedAt(s0, x, s1);
    TakeOneSeq(b, u, x, v, a);
  }

  /** The hole that started at `start` is at `hole` now, down the subtree at `first`; the cell
      where it started is filled, and nothing else has changed. */
  ghost predicate HoleWent(c0: seq<Cell>, c: seq<Cell>, start: nat, first: nat, hole: nat) {
    && |c| == |c0| && (forall j :: !Below(first, j) && j != start ==> Same(c0, c, j))
    && (hole == start || (Below(first, hole) && Live(c, start)))
  }

  lemma {:induction false} HoleStarts(c: seq<Cell>, start: nat, first: nat)
    ensures HoleWent(c, c, start, first, start)
  {
  }

  lemma {:induction false} GapStays(c: seq<Cell>, i: nat)
    requires i < |c| && !Live(c, LeftOf(i)) && !Live(c, RightOf(i))
    ensures GapClosed(c, Cleared(c, i), i)
  {
  }

  lemma {:induction false} HoleGoes(c0: seq<Cell>, c: seq<Cell>, start: nat, first: nat, hole: nat, child: nat, m: nat)
    requires HoleWent(c0, c, start, first, hole) && start < first && hole < m < |c|
    requires child == LeftOf(hole) || child == RightOf(hole)
    requires (hole == start ==> child == first) && Below(child, m)
    ensures HoleWent(c0, MovedCell(c, m, hole), start, first, m)
  {
    var c' := MovedCell(c, m, hole);
    if hole != start {
      assert ParentOf(child) == hole;
      assert Below(hole, child);
      BulkRanges.BelowIsTransitive(first, hole, child);
      BulkRanges.BelowIsTransitive(first, child, m);
    }
    forall j | !Below(first, j) && j != start
      ensures Same(c0, c', j)
    {
      assert Same(c0, c, j);
    }
  }

  /** How the gap that node `i` left was closed: by the item before it, from its left
      subtree; or if that was empty, by the item after it; or not at all. */
  ghost predicate GapClosed(c: seq<Cell>, c': seq<Cell>, i: nat) {
    && |c'| == |c| && i < |c|
    && if Live(c, LeftOf(i)) then
         && Live(c', i) && Inorder(c, LeftOf(i)) == Inorder(c', LeftOf(i)) + [c'[i].node.item]
         && Inorder(c', RightOf(i)) == Inorder(c, RightOf(i))
       else if Live(c, RightOf(i)) then
         && Live(c', i) && Inorder(c, RightOf(i)) == [c'[i].node.item] + Inorder(c', RightOf(i))
         && Inorder(c', LeftOf(i)) == []
       else
         !Live(c', i)
  }

  /** The hole left node `i` for its left or right subtree. */
  lemma {:induction false} GapCloses(c: seq<Cell>, c': seq<Cell>, i: nat, child: nat, hole: nat)
    requires Live(c, i) && Tidy(c, i) && hole != i && Live(c, child)
    requires child == LeftOf(i) || (child == RightOf(i) && !Live(c, LeftOf(i)))
    requires HoleWent(Cleared(c, i), c', i, child, hole) && Inorder(c', 0) == Inorder(Cleared(c, i), 0)
    ensures GapClosed(c, c', i)
  {
    hide Inorder, Tidy;
    var c1 := Cleared(c, i);
    var s := if child == LeftOf(i) then RightOf(i) else LeftOf(i);
    BelowRoot(i);
    BelowKids(i);
    Frame(c, c1, LeftOf(i));
    Frame(c, c1, RightOf(i));
    Frame(c1, c', s);
    Replaced(c1, c', i);
    AroundStep(c1, i);
    AroundStep(c', i);
    Cancelled(Before(c1, 0, i), Inorder(c1, i), Inorder(c', i), After(c1, 0, i));
    if child == LeftOf(i) {
      LeftCancelled(Inorder(c1, LeftOf(i)), Inorder(c', LeftOf(i)), At(c', i), Inorder(c, RightOf(i)));
    } else {
      LeftNil(c, i);
      assert [] + [] + Inorder(c1, RightOf(i)) == Inorder(c1, RightOf(i));
      assert [] + At(c', i) == At(c', i);
    }
  }

  lemma {:induction false} LeftNil(c: seq<Cell>, i: nat)
    requires Tidy(c, i) && i < |c| && !Live(c, LeftOf(i))
    ensures Inorder(c, LeftOf(i)) == []
  {
    NilIsEmpty(c, LeftOf(i));
  }

  lemma {:induction false} Cancelled(b: seq<Item>, s: seq<Item>, t: seq<Item>, a: seq<Item>)
    requires b + s + a == b + t + a
    ensures s == t
  {
    assert |b + s + a| == |b + t + a|;
    assert s == (b + s + a)[|b|..|b| + |s|] == (b + t + a)[|b|..|b| + |t|] == t;
  }

  lemma {:induction false} LeftCancelled(l: seq<Item>, l': seq<Item>, x: seq<Item>, r: seq<Item>)
    requires l + [] + r == l' + x + r
    ensures l == l' + x
  {
    assert |l + [] + r| == |l' + x + r|;
    assert l == (l + [] + r)[..|l|] == (l' + x + r)[..|l' + x|] == l' + x;
  }

  /** What is in the tree besides node `i`. */
  ghost function Without(c: seq<Cell>, i: nat): seq<Item> {
    BelowRoot(i);
    Before(c, 0, i) + (Inorder(c, LeftOf(i)) + Inorder(c, RightOf(i))) + After(c, 0, i)
  }

  /** Taking node `i` out of a tidy tree removes its item from the order. */
  lemma {:induction false} TakeOne(c: seq<Cell>, i: nat)
    requires Tidy(c, 0) && Live(c, i)
    ensures var c' := Cleared(c, i);
            && RemovedOne(Inorder(c, 0), c[i].node.item, Inorder(c', 0)) && Inorder(c', 0) == Without(c, i)
            && Tidy(Plugged(c', i), 0) && !Live(c', i)
            && Live(c', LeftOf(i)) == Live(c, LeftOf(i)) && Live(c', RightOf(i)) == Live(c, RightOf(i))
  {
    hide Inorder, Tidy, Exact, Before, After, RemovedOne;
    var c' := Cleared(c, i);
    BelowRoot(i);
    BelowKids(i);
    Replaced(c, c', i);
    Frame(c, c', LeftOf(i));
    Frame(c, c', RightOf(i));
    AroundStep(c, i);
    AroundStep(c', i);
    TakeOneSeq(Before(c, 0, i), Inorder(c, LeftOf(i)), c[i].node.item, Inorder(c, RightOf(i)), After(c, 0, i));
    NoMiddle(Inorder(c, LeftOf(i)), Inorder(c, RightOf(i)));
    assert Plugged(c', i) == c;
  }

  lemma {:induction false} NoMiddle(l: seq<Item>, r: seq<Item>)
    ensures l + [] + r == l + r
  {
  }

  lemma {:induction false} TakeOneSeq(b: seq<Item>, l: seq<Item>, x: Item, r: seq<Item>, a: seq<Item>)
    ensures RemovedOne(b + (l + [x] + r) + a, x, b + (l + [] + r) + a)
  {
    var s0, s1, k := b + (l + [x] + r) + a, b + (l + [] + r) + a, |b| + |l|;
    assert s0[k] == x;
    assert s0 == (b + l) + [x] + (r + a);
    assert s0[..k] == b + l;
    assert s0[k + 1..] == r + a;
    assert s1 == (b + l) + (r + a);
  }
}
