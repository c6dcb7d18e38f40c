/** The routines that take items: whole subtrees, range ends. */
module BulkRanges {
  import opened HeapIndex
  import opened Items
  import opened Cells
  import opened Memory
  import opened BulkSpec
  import opened BulkSteps
  import opened BulkJoins
  import opened BulkRoutines
  import opened Traversal

  /** The subtree at `r` was emptied and nothing else touched. */
  ghost predicate Swept(m0: Mem, m1: Mem, r: nat) {
    && |m1.c| == |m0.c| && m1 == m0.(c := m1.c)
    && (forall j: nat :: Live(m1.c, j) ==> Live(m0.c, j))
    && Inorder(m1.c, r) == []
    && (forall j :: !Below(r, j) ==> Same(m0.c, m1.c, j))
  }

  /** Part of the subtree was swept. */
  ghost predicate Sweeping(m0: Mem, m1: Mem, r: nat) {
    && |m1.c| == |m0.c| && m1 == m0.(c := m1.c)
    && (forall j: nat :: Live(m1.c, j) ==> Live(m0.c, j))
    && (forall j :: !Below(r, j) ==> Same(m0.c, m1.c, j))
  }

  /** The walk has come to `i`, and only what is still to come is left. */
  ghost predicate AtWalk(c: seq<Cell>, r: nat, i: nat) {
    Walking(c, r, i) && Inorder(c, r) == Rest(c, r, i)
  }

  lemma {:induction false} StartSweep(m: Mem, r: nat)
    requires Tidy(m.c, r)
    ensures Sweeping(m, m, r)
    ensures Live(m.c, r) ==> AtWalk(m.c, r, Leftmost(m.c, r))
    ensures !Live(m.c, r) ==> Inorder(m.c, r) == []
  {
    if !Live(m.c, r) {
      NilIsEmpty(m.c, r);
      return;
    }
    StartWalk(m.c, r, r);
    assert Inorder(m.c, r) + [] == Inorder(m.c, r);
  }

  lemma {:induction false} BelowIsTransitive(r: nat, i: nat, j: nat)
    requires Below(r, i) && Below(i, j)
    ensures Below(r, j)
    decreases j
  {
    if j != i {
      BelowIsTransitive(r, i, ParentOf(j));
    }
  }

  lemma {:induction false} EndSweep(m0: Mem, m: Mem, r: nat)
    requires Sweeping(m0, m, r) && Inorder(m.c, r) == []
    ensures Swept(m0, m, r)
  {
  }

  lemma {:induction false} WalkedFacts(m: Mem, r: nat, i: nat)
    requires AtWalk(m.c, r, i)
    ensures Live(m.c, i) && i < |m.c| && Below(r, i)
  {
  }

  lemma {:induction false} SweepStep(m0: Mem, m: Mem, r: nat, i: nat)
    requires Sweeping(m0, m, r) && AtWalk(m.c, r, i)
    ensures var m' := Take(m, i);
            && Sweeping(m0, m', r)
            && Ahead(m'.c, r, i) && Tidy(m'.c, RightOf(i))
            && Inorder(m'.c, r) == Inorder(m'.c, RightOf(i)) + After(m'.c, r, i)
            && Inorder(m.c, r) == [m.c[i].node.item] + Inorder(m'.c, r)
  {
    TakeWalked(m.c, Take(m, i).c, r, i);
    forall j | !Below(r, j)
      ensures Same(m0.c, Take(m, i).c, j)
    {
      assert Same(m0.c, m.c, j);
    }
  }

  lemma {:induction false} WalkRight(c: seq<Cell>, r: nat, i: nat)
    requires Below(r, i) && Ahead(c, r, i) && Tidy(c, RightOf(i)) && Live(c, RightOf(i))
    requires Inorder(c, r) == Inorder(c, RightOf(i)) + After(c, r, i)
    ensures AtWalk(c, r, Leftmost(c, RightOf(i)))
  {
    GoRight(c, r, i);
  }

  lemma {:induction false} SweepUp(c: seq<Cell>, r: nat, i: nat)
    requires Below(r, i) && Ahead(c, r, i) && Tidy(c, RightOf(i)) && !Live(c, RightOf(i))
    requires Inorder(c, r) == Inorder(c, RightOf(i)) + After(c, r, i)
    ensures var l := LeftEnclosing(i + 1);
            if l <= r + 1 then
              Inorder(c, r) == []
            else
              AtWalk(c, r, ParentOf(l - 1))
  {
    NilIsEmpty(c, RightOf(i));
    Climb(c, r, i);
  }

  /** Sweeping the left subtree is a descent that takes everything. */
  lemma {:induction false} SweptLeft(g: Config, slot: bool, m0: Mem, m1: Mem, i: nat)
    requires g.noop && GoodConfig(g) && SlotsOk(m0, i) && slot == !Live(m0.c, i)
    requires Swept(m0, m1, LeftOf(i))
    ensures WentLeft(g, Consume, slot, true, m0, m1, i)
    ensures Taken(g, Consume, Inorder(m0.c, LeftOf(i))) == Inorder(m0.c, LeftOf(i))
    ensures Live(m1.c, i) == Live(m0.c, i)
  {
    AllTaken(g, Consume, Inorder(m0.c, LeftOf(i)));
    EmptyIsTidy(m1.c, LeftOf(i));
    NoNewSlots(m0, m1);
    BelowKids(i);
    SiblingUntouched(m0, m1, i, LeftOf(i), RightOf(i));
    assert Same(m0.c, m1.c, i);
  }

  lemma {:induction false} SweptRight(g: Config, slot: bool, m0: Mem, m1: Mem, i: nat)
    requires g.noop && GoodConfig(g) && SlotsOk(m0, i) && slot == !Live(m0.c, i)
    requires Swept(m0, m1, RightOf(i))
    ensures WentRight(g, Consume, slot, m0, m1, i)
    ensures Taken(g, Consume, Inorder(m0.c, RightOf(i))) == Inorder(m0.c, RightOf(i))
    ensures Live(m1.c, i) == Live(m0.c, i)
  {
    AllTaken(g, Consume, Inorder(m0.c, RightOf(i)));
    EmptyIsTidy(m1.c, RightOf(i));
    NoNewSlots(m0, m1);
    BelowKids(i);
    SiblingUntouched(m0, m1, i, RightOf(i), LeftOf(i));
    assert Same(m0.c, m1.c, i);
  }

  //---- consuming a subtree through the filter ---------------------------------------------

  lemma {:induction false} ConsumeStart(g: Config, m0: Mem, i: nat)
    requires Ready(g, Consume, m0, i)
    ensures var taken := g.accept(m0.c[i].node.item.key);
            var m1 := MaybeTaken(m0, i, taken);
            && LeftReady(g, Consume, taken, Hide(m1), i) && SlotsOk(m1, i)
            && Inorder(m1.c, LeftOf(i)) == Inorder(m0.c, LeftOf(i))
            && m1 == if taken then Take(m0, i) else m0
  {
    LeftStart(g, Consume, Consume, g.accept(m0.c[i].node.item.key), m0, i);
  }

  /** The part of a node and its left subtree that survives. */
  ghost function PartKept(g: Config, opL: Op, taken: bool, m0: Mem, i: nat): seq<Item> {
    Kept(g, opL, Inorder(m0.c, LeftOf(i))) + if taken then [] else At(m0.c, i)
  }

  lemma {:induction false} ConsumeMiddle(g: Config, m0: Mem, m2: Mem, i: nat)
    requires Ready(g, Consume, m0, i)
    requires var taken := g.accept(m0.c[i].node.item.key);
             WentLeft(g, Consume, taken, true, MaybeTaken(m0, i, taken), m2, i)
    ensures var m3 := MaybeToMin(m2, i);
            && (Live(m2.c, i) && Open(m2.smin) > 0 ==> !Live(m3.c, i) && m3 == ToMin(m2, i))
            && (!(Live(m2.c, i) && Open(m2.smin) > 0) ==> m3 == m2)
            && RightReady(g, Consume, !Live(m3.c, i), m3, i)
            && Inorder(m3.c, RightOf(i)) == Inorder(m0.c, RightOf(i))
            && SlotsOk(m2, i)
  {
    var taken := g.accept(m0.c[i].node.item.key);
    LeftEnd(g, Consume, Consume, taken, m0, m2, i);
    MinStep(g, m0, m2, i, PartKept(g, Consume, taken, m0, i));
    RightStart(g, Consume, true, m0, MaybeToMin(m2, i), i, PartKept(g, Consume, taken, m0, i));
  }

  lemma {:induction false} ConsumeTurn(g: Config, m0: Mem, m2: Mem, m4: Mem, i: nat)
    requires Ready(g, Consume, m0, i)
    requires var taken := g.accept(m0.c[i].node.item.key);
             WentLeft(g, Consume, taken, true, MaybeTaken(m0, i, taken), m2, i)
    requires var m3 := MaybeToMin(m2, i); WentRight(g, Consume, !Live(m3.c, i), m3, m4, i)
    ensures Turned(g, UsesMin(Consume), m0, m4, i, Kept(g, Consume, Inorder(m0.c, i)))
    ensures UsesMax(Consume)
  {
    var taken := g.accept(m0.c[i].node.item.key);
    LeftEnd(g, Consume, Consume, taken, m0, m2, i);
    MinStep(g, m0, m2, i, PartKept(g, Consume, taken, m0, i));
    RightEnd(g, Consume, Consume, Consume, taken, m0, MaybeToMin(m2, i), m4, i);
  }

  /** What the sink received, part by part. */
  lemma {:induction false} OutEnd(g: Config, op: Op, opL: Op, opR: Op, taken: bool, m0: Mem, i: nat, o0: seq<Item>, o: seq<Item>)
    requires Live(m0.c, i) && taken == Hit(g, op, m0.c[i].node.item.key)
    requires forall x :: x in Inorder(m0.c, LeftOf(i)) ==> Hit(g, op, x.key) == Hit(g, opL, x.key)
    requires forall x :: x in Inorder(m0.c, RightOf(i)) ==> Hit(g, op, x.key) == Hit(g, opR, x.key)
    requires o == o0 + Taken(g, opL, Inorder(m0.c, LeftOf(i))) + (if taken then [m0.c[i].node.item] else [])
                  + Taken(g, opR, Inorder(m0.c, RightOf(i)))
    ensures o == o0 + Taken(g, op, Inorder(m0.c, i))
  {
    KeptAll(g, op, opL, opR, taken, m0, i);
    var l, x := Taken(g, opL, Inorder(m0.c, LeftOf(i))), if taken then [m0.c[i].node.item] else [];
    Assoc(o0, l, x);
    Assoc(o0, l + x, Taken(g, opR, Inorder(m0.c, RightOf(i))));
  }

  lemma {:induction false} ConsumeOut(g: Config, m0: Mem, i: nat, o0: seq<Item>, o: seq<Item>)
    requires Ready(g, Consume, m0, i)
    requires o == o0 + Taken(g, Consume, Inorder(m0.c, LeftOf(i)))
                  + (if g.accept(m0.c[i].node.item.key) then [m0.c[i].node.item] else [])
                  + Taken(g, Consume, Inorder(m0.c, RightOf(i)))
    ensures o == o0 + Taken(g, Consume, Inorder(m0.c, i))
  {
    OutEnd(g, Consume, Consume, Consume, g.accept(m0.c[i].node.item.key), m0, i, o0, o);
  }

  //---- the left end of a range ------------------------------------------------------------

  /** The keys of a subtree are ordered around its root. */
  lemma {:induction false} SortedAround(c: seq<Cell>, i: nat)
    requires Live(c, i) && Sorted(Inorder(c, i))
    ensures Sorted(Inorder(c, LeftOf(i))) && Sorted(Inorder(c, RightOf(i)))
    ensures forall x :: x in Inorder(c, LeftOf(i)) ==> x in Inorder(c, i) && AtMost(x.key, c[i].node.item.key)
    ensures forall x :: x in Inorder(c, RightOf(i)) ==> x in Inorder(c, i) && AtMost(c[i].node.item.key, x.key)
    ensures c[i].node.item in Inorder(c, i)
    ensures forall x, y :: x in Inorder(c, LeftOf(i)) && y in Inorder(c, RightOf(i)) ==> AtMost(x.key, y.key)
  {
    var l, r := Inorder(c, LeftOf(i)), Inorder(c, RightOf(i));
    SortedSplit(l + At(c, i), r);
    SortedSplit(l, At(c, i));
    assert c[i].node.item in At(c, i);
    assert c[i].node.item in l + At(c, i);
  }

  /** Root and left subtree of a subtree of `DeleteMin` are inside the range. */
  lemma {:induction false} MinInside(g: Config, m0: Mem, i: nat)
    requires GoodConfig(g) && Ready(g, DeleteMin, m0, i) && g.driver.right(m0.c[i].node.item.key)
    ensures Hit(g, DeleteMin, m0.c[i].node.item.key) == g.accept(m0.c[i].node.item.key)
    ensures forall x :: x in Inorder(m0.c, LeftOf(i)) ==> Hit(g, DeleteMin, x.key) == Hit(g, Consume, x.key)
  {
    SortedAround(m0.c, i);
  }

  lemma {:induction false} MinInsideStart(g: Config, m0: Mem, i: nat)
    requires GoodConfig(g) && Ready(g, DeleteMin, m0, i) && g.driver.right(m0.c[i].node.item.key)
    ensures var taken := g.accept(m0.c[i].node.item.key);
            var m1 := MaybeTaken(m0, i, taken);
            && LeftReady(g, Consume, taken, Hide(m1), i) && SlotsOk(m1, i)
            && Inorder(m1.c, LeftOf(i)) == Inorder(m0.c, LeftOf(i))
            && m1 == if taken then Take(m0, i) else m0
  {
    LeftStart(g, DeleteMin, Consume, g.accept(m0.c[i].node.item.key), m0, i);
  }

  /** Between the two descents: if the root is gone nothing is left of it, and if a min
      slot is open nothing is left of the root. */
  lemma {:induction false} MinInsideMiddle(g: Config, m0: Mem, m2: Mem, i: nat)
    requires GoodConfig(g) && Ready(g, DeleteMin, m0, i)
    requires var taken := g.accept(m0.c[i].node.item.key);
             WentLeft(g, Consume, taken, true, MaybeTaken(m0, i, taken), m2, i)
    ensures SlotsOk(m2, i)
    ensures !Live(m2.c, i) ==>
              LeftReady(g, FillMax, true, m2, i) && !Live(m2.c, LeftOf(i))
              && Taken(g, FillMax, Inorder(m2.c, LeftOf(i))) == []
    ensures Live(m2.c, i) && Open(m2.smin) > 0 ==>
              LeftReady(g, FillMin, false, m2, i) && !Live(m2.c, LeftOf(i))
              && Taken(g, FillMin, Inorder(m2.c, LeftOf(i))) == []
    ensures g.noop ==> !(Live(m2.c, i) && Open(m2.smin) > 0)
    ensures var m3 := MaybeToMin(m2, i);
            && (Live(m2.c, i) && Open(m2.smin) > 0 ==> !Live(m3.c, i) && m3 == ToMin(m2, i))
            && (!(Live(m2.c, i) && Open(m2.smin) > 0) ==> m3 == m2)
  {
    var taken := g.accept(m0.c[i].node.item.key);
    LeftEnd(g, DeleteMin, Consume, taken, m0, m2, i);
    MinStep(g, m0, m2, i, PartKept(g, Consume, taken, m0, i));
    if !Live(m2.c, i) || Open(m2.smin) > 0 {
      EmptyIsNil(m2.c, LeftOf(i));
    }
    NoneTaken(g, FillMax, Inorder(m2.c, LeftOf(i)));
    NoneTaken(g, FillMin, Inorder(m2.c, LeftOf(i)));
  }

  lemma {:induction false} MinInsideRight(g: Config, m0: Mem, m2: Mem, i: nat)
    requires GoodConfig(g) && Ready(g, DeleteMin, m0, i)
    requires var taken := g.accept(m0.c[i].node.item.key);
             WentLeft(g, Consume, taken, true, MaybeTaken(m0, i, taken), m2, i)
    ensures var m3 := MaybeToMin(m2, i);
            && RightReady(g, DeleteMin, !Live(m3.c, i), m3, i)
            && Inorder(m3.c, RightOf(i)) == Inorder(m0.c, RightOf(i))
  {
    var taken := g.accept(m0.c[i].node.item.key);
    var part := PartKept(g, Consume, taken, m0, i);
    var m3 := MaybeToMin(m2, i);
    LeftEnd(g, DeleteMin, Consume, taken, m0, m2, i);
    MinStep(g, m0, m2, i, part);
    SortedAround(m0.c, i);
    SettledFacts(g, true, m0, m3, i, part);
    RightStart(g, DeleteMin, true, m0, m3, i, part);
  }

  lemma {:induction false} MinInsideTurn(g: Config, m0: Mem, m2: Mem, m4: Mem, i: nat)
    requires GoodConfig(g) && Ready(g, DeleteMin, m0, i) && g.driver.right(m0.c[i].node.item.key)
    requires var taken := g.accept(m0.c[i].node.item.key);
             WentLeft(g, Consume, taken, true, MaybeTaken(m0, i, taken), m2, i)
    requires var m3 := MaybeToMin(m2, i); WentRight(g, DeleteMin, !Live(m3.c, i), m3, m4, i)
    ensures Turned(g, UsesMin(DeleteMin), m0, m4, i, Kept(g, DeleteMin, Inorder(m0.c, i)))
    ensures Open(m4.smax) <= Open(m0.smax)
  {
    hide SlotsOk, Outside;
    var taken := g.accept(m0.c[i].node.item.key);
    MinInside(g, m0, i);
    LeftEnd(g, DeleteMin, Consume, taken, m0, m2, i);
    MinStep(g, m0, m2, i, PartKept(g, Consume, taken, m0, i));
    RightEnd(g, DeleteMin, Consume, DeleteMin, taken, m0, MaybeToMin(m2, i), m4, i);
  }

  lemma {:induction false} MinInsideEnd(g: Config, m0: Mem, m2: Mem, m4: Mem, i: nat)
    requires GoodConfig(g) && Ready(g, DeleteMin, m0, i) && g.driver.right(m0.c[i].node.item.key)
    requires var taken := g.accept(m0.c[i].node.item.key);
             WentLeft(g, Consume, taken, true, MaybeTaken(m0, i, taken), m2, i)
    requires var m3 := MaybeToMin(m2, i); WentRight(g, DeleteMin, !Live(m3.c, i), m3, m4, i)
    ensures Visited(g, DeleteMin, m0, m4, i)
    ensures g.augmented ==> KidsExact(m4.c, i)
  {
    hide Inorder, Kept, Taken, Outside, WentLeft, WentRight, Visited, KidsExact;
    MinInsideTurn(g, m0, m2, m4, i);
    FinishedAsIs(g, DeleteMin, m0, m4, i);
  }

  lemma {:induction false} MinInsideOut(g: Config, m0: Mem, i: nat, o0: seq<Item>, o: seq<Item>)
    requires GoodConfig(g) && Ready(g, DeleteMin, m0, i) && g.driver.right(m0.c[i].node.item.key)
    requires o == o0 + Taken(g, Consume, Inorder(m0.c, LeftOf(i)))
                  + (if g.accept(m0.c[i].node.item.key) then [m0.c[i].node.item] else [])
                  + Taken(g, DeleteMin, Inorder(m0.c, RightOf(i)))
    ensures o == o0 + Taken(g, DeleteMin, Inorder(m0.c, i))
  {
    MinInside(g, m0, i);
    OutEnd(g, DeleteMin, Consume, DeleteMin, g.accept(m0.c[i].node.item.key), m0, i, o0, o);
  }

  /** A routine whose root and right subtree are outside: it descends to the left, and
      what is left over fills min slots. */
  ghost predicate RestOutside(g: Config, op: Op, m0: Mem, i: nat) {
    && Live(m0.c, i)
    && !Hit(g, op, m0.c[i].node.item.key)
    && (forall x :: x in Inorder(m0.c, RightOf(i)) ==> !Hit(g, op, x.key))
    && Open(m0.smax) == 0 && UsesMin(op) && UsesMax(op)
  }

  lemma {:induction false} OutsideMiddle(g: Config, op: Op, hidden: bool, m0: Mem, m1: Mem, i: nat)
    requires Ready(g, op, m0, i) && RestOutside(g, op, m0, i)
    requires WentLeft(g, op, false, hidden, m0, m1, i)
    ensures Reached(g, m0, m1, i) && SlotsOk(m1, i) && Live(m1.c, i) && m1.smax == m0.smax
    ensures Total(m0, m1, i) == Kept(g, op, Inorder(m0.c, i))
    ensures Open(m1.smin) > 0 ==> Inorder(m1.c, LeftOf(i)) == []
    ensures Open(m1.smin) > 0 ==>
              RightReady(g, FillMin, true, ToMin(m1, i), i)
              && Taken(g, FillMin, Inorder(ToMin(m1, i).c, RightOf(i))) == []
  {
    NothingDone(g, op, m0, i);
    AfterLeft(g, op, hidden, m0, m1, i);
    NoNewSlots(m0, m1);
    LeftPartTotal(m0, m1, i);
    KeptSplit(g, op, m0.c, i);
    NoneTaken(g, op, Inorder(m0.c, RightOf(i)));
    if Open(m1.smin) > 0 {
      ToMinStep(m1, i);
      SlotsKept(m1, ToMin(m1, i), i);
      NoneTaken(g, FillMin, Inorder(ToMin(m1, i).c, RightOf(i)));
    }
  }

  lemma {:induction false} OutsideEnd(g: Config, op: Op, hidden: bool, m0: Mem, m1: Mem, m3: Mem, i: nat)
    requires Ready(g, op, m0, i) && RestOutside(g, op, m0, i)
    requires WentLeft(g, op, false, hidden, m0, m1, i)
    requires if Open(m1.smin) > 0 then WentRight(g, FillMin, true, ToMin(m1, i), m3, i) else m3 == m1
    ensures Visited(g, op, m0, m3, i)
    ensures g.augmented ==> KidsExact(m3.c, i)
    ensures Open(m3.smax) == 0
  {
    OutsideMiddle(g, op, hidden, m0, m1, i);
    var m2 := if Open(m1.smin) > 0 then ToMin(m1, i) else m1;
    MinTail(g, m0, m1, m2, m3, i);
  }

  lemma {:induction false} OutsideOut(g: Config, op: Op, m0: Mem, i: nat)
    requires RestOutside(g, op, m0, i)
    ensures Taken(g, op, Inorder(m0.c, i)) == Taken(g, op, Inorder(m0.c, LeftOf(i)))
  {
    KeptSplit(g, op, m0.c, i);
    NoneTaken(g, op, Inorder(m0.c, RightOf(i)));
  }

  lemma {:induction false} MinOutside(g: Config, m0: Mem, i: nat)
    requires GoodConfig(g) && Ready(g, DeleteMin, m0, i) && !g.driver.right(m0.c[i].node.item.key)
    ensures RestOutside(g, DeleteMin, m0, i)
    ensures LeftReady(g, DeleteMin, false, m0, i)
  {
    SortedAround(m0.c, i);
  }

  //---- the right end of a range -----------------------------------------------------------

  lemma {:induction false} MaxInside(g: Config, m0: Mem, i: nat)
    requires GoodConfig(g) && Ready(g, DeleteMax, m0, i) && g.driver.left(m0.c[i].node.item.key)
    ensures Hit(g, DeleteMax, m0.c[i].node.item.key) == g.accept(m0.c[i].node.item.key)
    ensures forall x :: x in Inorder(m0.c, RightOf(i)) ==> Hit(g, DeleteMax, x.key) == Hit(g, Consume, x.key)
  {
    SortedAround(m0.c, i);
  }

  /** With the no-op filter, outer max slots stay visible. */
  lemma {:induction false} MaxInsideStart(g: Config, m0: Mem, i: nat)
    requires GoodConfig(g) && Ready(g, DeleteMax, m0, i) && g.driver.left(m0.c[i].node.item.key)
    ensures var taken := g.accept(m0.c[i].node.item.key);
            var m1 := MaybeTaken(m0, i, taken);
            && LeftReady(g, DeleteMax, taken, Hide(m1), i) && LeftReady(g, DeleteMax, taken, m1, i)
            && SlotsOk(m1, i)
            && Inorder(m1.c, LeftOf(i)) == Inorder(m0.c, LeftOf(i))
            && m1 == (if taken then Take(m0, i) else m0)
            && (g.noop ==> taken)
  {
    SortedAround(m0.c, i);
    LeftStart(g, DeleteMax, DeleteMax, g.accept(m0.c[i].node.item.key), m0, i);
  }

  lemma {:induction false} MaxInsideMiddle(g: Config, m0: Mem, m2: Mem, i: nat)
    requires GoodConfig(g) && Ready(g, DeleteMax, m0, i)
    requires var taken := g.accept(m0.c[i].node.item.key);
             WentLeft(g, DeleteMax, taken, !g.noop, MaybeTaken(m0, i, taken), m2, i)
    ensures RightReady(g, Consume, !Live(m2.c, i), m2, i)
    ensures Inorder(m2.c, RightOf(i)) == Inorder(m0.c, RightOf(i))
  {
    var taken := g.accept(m0.c[i].node.item.key);
    NothingDone(g, DeleteMax, m0, i);
    var m1 := MaybeTaken(m0, i, taken);
    if taken {
      TakeStep(m0, i);
      SlotsKept(m0, m1, i);
    }
    SlotsKept(m1, m2, i);
  }

  lemma {:induction false} MaxInsideTurn(g: Config, m0: Mem, m2: Mem, m4: Mem, i: nat)
    requires GoodConfig(g) && Ready(g, DeleteMax, m0, i) && g.driver.left(m0.c[i].node.item.key) && !g.noop
    requires var taken := g.accept(m0.c[i].node.item.key);
             WentLeft(g, DeleteMax, taken, true, MaybeTaken(m0, i, taken), m2, i)
    requires WentRight(g, Consume, !Live(m2.c, i), m2, m4, i)
    ensures Turned(g, UsesMin(DeleteMax), m0, m4, i, Kept(g, DeleteMax, Inorder(m0.c, i)))
    ensures UsesMax(DeleteMax)
  {
    var taken := g.accept(m0.c[i].node.item.key);
    MaxInside(g, m0, i);
    LeftEnd(g, DeleteMax, DeleteMax, taken, m0, m2, i);
    SettledFacts(g, true, m0, m2, i, PartKept(g, DeleteMax, taken, m0, i));
    RightEnd(g, DeleteMax, DeleteMax, Consume, taken, m0, m2, m4, i);
  }

  /** With the no-op filter everything from the root on is gone, and the max slots are
      filled from the left alone. */
  lemma {:induction false} MaxInsideNoop(g: Config, m0: Mem, m2: Mem, m4: Mem, i: nat)
    requires GoodConfig(g) && Ready(g, DeleteMax, m0, i) && g.driver.left(m0.c[i].node.item.key) && g.noop
    requires WentLeft(g, DeleteMax, true, false, Take(m0, i), m2, i)
    requires WentRight(g, Consume, !Live(m2.c, i), m2, m4, i) && m4.smin == m2.smin && m4.smax == m2.smax
    requires m4.c[i] == m2.c[i]
    ensures Visited(g, DeleteMax, m0, m4, i)
    ensures g.augmented ==> KidsExact(m4.c, i)
  {
    NothingDone(g, DeleteMax, m0, i);
    MaxInside(g, m0, i);
    KeptAll(g, DeleteMax, DeleteMax, Consume, true, m0, i);
    var m1 := Take(m0, i);
    TakeStep(m0, i);
    NoNewSlots(m0, m0);
    LeftJoin(g, DeleteMax, true, false, m0, m1, m2, i);
    OutsideTrans(m0, m2, m4, i);
    NoNewSlots(m2, m4);
    var r0 := Inorder(m0.c, RightOf(i));
    forall x | x in r0
      ensures Hit(g, Consume, x.key)
    {
    }
    AllTaken(g, Consume, r0);
    var r := Inorder(m4.c, RightOf(i));
    assert r == [] by {
      NoopRightEmpty(NewMin(m2, m4), if !Live(m2.c, i) then At(m4.c, i) else [], r, NewMax(m2, m4));
    }
    EmptyIsNil(m4.c, RightOf(i));
    if !Live(m4.c, i) {
      EmptyIsNil(m4.c, LeftOf(i));
    }
    NoopSeq(NewMin(m0, m2), Inorder(m4.c, LeftOf(i)), At(m4.c, i), NewMax(m0, m2));
  }

  lemma {:induction false} NoopRightEmpty(a: seq<Item>, x: seq<Item>, r: seq<Item>, b: seq<Item>)
    requires a + x + r + b == []
    ensures r == []
  {
    assert |a + x + r + b| == |a| + |x| + |r| + |b|;
  }

  lemma {:induction false} NoopSeq(a: seq<Item>, l: seq<Item>, x: seq<Item>, b: seq<Item>)
    ensures (a + []) + (l + x + []) + ([] + b) == a + l + x + b + [] + []
  {
    assert a + [] == a && l + x + [] == l + x && [] + b == b;
    Assoc(a, l, x);
    assert a + l + x + b + [] + [] == a + l + x + b;
  }

  lemma {:induction false} MaxInsideOut(g: Config, m0: Mem, i: nat, o0: seq<Item>, o: seq<Item>)
    requires GoodConfig(g) && Ready(g, DeleteMax, m0, i) && g.driver.left(m0.c[i].node.item.key)
    requires o == o0 + Taken(g, DeleteMax, Inorder(m0.c, LeftOf(i)))
                  + (if g.accept(m0.c[i].node.item.key) then [m0.c[i].node.item] else [])
                  + Taken(g, Consume, Inorder(m0.c, RightOf(i)))
    ensures o == o0 + Taken(g, DeleteMax, Inorder(m0.c, i))
  {
    MaxInside(g, m0, i);
    OutEnd(g, DeleteMax, DeleteMax, Consume, g.accept(m0.c[i].node.item.key), m0, i, o0, o);
  }

  lemma {:induction false} MaxOutside(g: Config, m0: Mem, i: nat)
    requires GoodConfig(g) && Ready(g, DeleteMax, m0, i) && !g.driver.left(m0.c[i].node.item.key)
    ensures RightReady(g, DeleteMax, false, m0, i)
    ensures Taken(g, DeleteMax, Inorder(m0.c, i)) == Taken(g, DeleteMax, Inorder(m0.c, RightOf(i)))
    ensures Kept(g, DeleteMax, Inorder(m0.c, i))
         == Inorder(m0.c, LeftOf(i)) + At(m0.c, i) + Kept(g, DeleteMax, Inorder(m0.c, RightOf(i)))
  {
    SortedAround(m0.c, i);
    KeptSplit(g, DeleteMax, m0.c, i);
    NoneTaken(g, DeleteMax, Inorder(m0.c, LeftOf(i)));
  }

  lemma {:induction false} MaxOutsideTurn(g: Config, m0: Mem, m4: Mem, i: nat)
    requires GoodConfig(g) && Ready(g, DeleteMax, m0, i) && !g.driver.left(m0.c[i].node.item.key)
    requires WentRight(g, DeleteMax, false, m0, m4, i)
    ensures Turned(g, UsesMin(DeleteMax), m0, m4, i, Kept(g, DeleteMax, Inorder(m0.c, i)))
    ensures UsesMax(DeleteMax) && Live(m4.c, i)
  {
    hide Inorder, SlotsOk, Outside, Tidy, Kept;
    NothingDone(g, DeleteMax, m0, i);
    MaxOutside(g, m0, i);
    AfterRight(g, DeleteMax, false, m0, m0, m4, i, Inorder(m0.c, LeftOf(i)) + At(m0.c, i));
  }
}
