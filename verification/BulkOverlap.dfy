/** The overlap deletion of the interval tree: which subtrees may be skipped or
    consumed unseen. */
module BulkOverlap {
  import opened HeapIndex
  import opened Items
  import opened Cells
  import opened Memory
  import opened BulkSpec
  import opened BulkSteps
  import opened BulkJoins
  import opened BulkRoutines
  import opened BulkRanges

  /** The bound of a node bounds every item below it. */
  lemma {:induction false} MaxbBounds(c: seq<Cell>, i: nat)
    requires Exact(c, i) && Tidy(c, i) && Live(c, i)
    ensures forall x :: x in Inorder(c, i) ==> x.key.b <= c[i].node.maxb
    decreases |c| - i
  {
    var l, r := LeftOf(i), RightOf(i);
    if Live(c, l) {
      MaxbBounds(c, l);
    } else {
      NilIsEmpty(c, l);
    }
    if Live(c, r) {
      MaxbBounds(c, r);
    } else {
      NilIsEmpty(c, r);
    }
  }

  //---- the whole subtree is outside ---------------------------------------------------------

  lemma {:induction false} PassStart(g: Config, mi: bool, m0: Mem, i: nat)
    requires Ready(g, Overlap(mi), m0, i) && m0.c[i].node.maxb < g.query.a
    ensures forall x :: x in Inorder(m0.c, i) ==> !Hit(g, Overlap(mi), x.key)
    ensures Taken(g, Overlap(mi), Inorder(m0.c, i)) == [] == Taken(g, FillMin, Inorder(m0.c, i))
    ensures Kept(g, Overlap(mi), Inorder(m0.c, i)) == Inorder(m0.c, i)
    ensures Open(m0.smin) > 0 ==> Ready(g, FillMin, m0, i)
    ensures Open(m0.smin) >= 0
  {
    MaxbBounds(m0.c, i);
    NoneTaken(g, Overlap(mi), Inorder(m0.c, i));
    NoneTaken(g, FillMin, Inorder(m0.c, i));
  }

  /** First the min slots are served. */
  ghost predicate MinServed(g: Config, m0: Mem, m1: Mem, i: nat) {
    if Open(m0.smin) > 0 then
      Visited(g, FillMin, m0, m1, i) && (g.augmented ==> KidsExact(m1.c, i))
    else
      m1 == m0
  }

  lemma {:induction false} PassMiddle(g: Config, mi: bool, m0: Mem, m1: Mem, i: nat)
    requires Ready(g, Overlap(mi), m0, i) && MinServed(g, m0, m1, i)
    ensures SlotsOk(m1, i) && Open(m1.smax) >= 0
    ensures Live(m1.c, i) && Open(m1.smax) > 0 ==>
              Ready(g, FillMax, m1, i) && Taken(g, FillMax, Inorder(m1.c, i)) == []
  {
    NothingDone(g, Overlap(mi), m0, i);
    SlotsKept(m0, m1, i);
    NoneTaken(g, FillMax, Inorder(m1.c, i));
  }

  lemma {:induction false} MinServedTotal(g: Config, mi: bool, m0: Mem, m1: Mem, i: nat)
    requires Ready(g, Overlap(mi), m0, i) && MinServed(g, m0, m1, i)
    ensures Outside(m0, m1, i) && Tidy(m1.c, i) && (g.augmented ==> KidsExact(m1.c, i))
    ensures m1.smax == m0.smax && NewMax(m0, m1) == []
    ensures NewMin(m0, m1) + Inorder(m1.c, i) == Inorder(m0.c, i)
    ensures Open(m1.smin) > 0 ==> Inorder(m1.c, i) == []
  {
    NothingDone(g, Overlap(mi), m0, i);
    NoneTaken(g, FillMin, Inorder(m0.c, i));
    NoNewSlots(m0, m1);
    assert [] + Inorder(m0.c, i) == Inorder(m0.c, i);
    assert NewMin(m0, m1) + Inorder(m1.c, i) + [] == NewMin(m0, m1) + Inorder(m1.c, i);
  }

  lemma {:induction false} PassEnd(g: Config, mi: bool, m0: Mem, m1: Mem, m2: Mem, i: nat)
    requires Ready(g, Overlap(mi), m0, i) && MinServed(g, m0, m1, i)
    requires Kept(g, Overlap(mi), Inorder(m0.c, i)) == Inorder(m0.c, i)
    requires if Live(m1.c, i) && Open(m1.smax) > 0 then
               Visited(g, FillMax, m1, m2, i) && (g.augmented ==> KidsExact(m2.c, i))
             else m2 == m1
    ensures Visited(g, Overlap(mi), m0, m2, i)
    ensures g.augmented ==> KidsExact(m2.c, i)
  {
    MinServedTotal(g, mi, m0, m1, i);
    if Live(m1.c, i) && Open(m1.smax) > 0 {
      PassBoth(g, mi, m0, m1, m2, i);
    } else {
      assert NewMin(m0, m1) + Inorder(m1.c, i) + [] == NewMin(m0, m1) + Inorder(m1.c, i);
      if !Live(m1.c, i) {
        NilIsEmpty(m1.c, i);
      }
    }
  }

  lemma {:induction false} PassBoth(g: Config, mi: bool, m0: Mem, m1: Mem, m2: Mem, i: nat)
    requires SlotsOk(m0, i) && Outside(m0, m1, i)
    requires Kept(g, Overlap(mi), Inorder(m0.c, i)) == Inorder(m0.c, i)
    requires m1.smax == m0.smax && NewMax(m0, m1) == []
    requires NewMin(m0, m1) + Inorder(m1.c, i) == Inorder(m0.c, i)
    requires Open(m1.smin) > 0 ==> Inorder(m1.c, i) == []
    requires Live(m1.c, i) && Visited(g, FillMax, m1, m2, i)
    ensures Visited(g, Overlap(mi), m0, m2, i)
  {
    OutsideTrans(m0, m1, m2, i);
    NoneTaken(g, FillMax, Inorder(m1.c, i));
    NoNewSlots(m1, m2);
    var a, s, b := NewMin(m0, m1), Inorder(m2.c, i), NewMax(m1, m2);
    PassSeq(a, s, b);
    if Open(m1.smin) > 0 {
      EmptyIsNil(m1.c, i);
      assert false;
    }
  }

  lemma {:induction false} PassSeq(a: seq<Item>, s: seq<Item>, b: seq<Item>)
    ensures (a + []) + s + (b + []) == a + ([] + s + b)
  {
    assert a + [] == a && b + [] == b && [] + s == s;
    Assoc(a, s, b);
  }

  lemma {:induction false} BeyondMeans(q: Interval, k: Interval)
    ensures Beyond(q, k) <==> q.b <= k.a && k.a != q.a
  {
  }

  //---- root and right subtree are outside ---------------------------------------------------

  lemma {:induction false} OverlapOutside(g: Config, mi: bool, m0: Mem, i: nat)
    requires GoodConfig(g) && Ready(g, Overlap(mi), m0, i) && Beyond(g.query, m0.c[i].node.item.key)
    ensures RestOutside(g, Overlap(mi), m0, i)
    ensures LeftReady(g, Overlap(mi), false, Hide(m0), i)
  {
    SortedAround(m0.c, i);
    HideOk(m0, i);
    assert m0.c[i].node.item in Inorder(m0.c, i);
    assert Open(m0.smax) <= 0;
  }

  //---- the root may overlap -----------------------------------------------------------------

  /** How the left subtree is treated. */
  ghost function LeftOp(mi: bool, taken: bool): Op {
    if taken && mi then Consume else Overlap(mi)
  }

  lemma {:induction false} LeftHits(g: Config, mi: bool, m0: Mem, i: nat)
    requires GoodConfig(g) && Ready(g, Overlap(mi), m0, i)
    ensures var taken := Hit(g, Overlap(mi), m0.c[i].node.item.key);
            forall x :: x in Inorder(m0.c, LeftOf(i)) ==>
              Hit(g, Overlap(mi), x.key) == Hit(g, LeftOp(mi, taken), x.key)
  {
    SortedAround(m0.c, i);
  }

  lemma {:induction false} OverlapLeftStart(g: Config, mi: bool, m0: Mem, i: nat)
    requires GoodConfig(g) && Ready(g, Overlap(mi), m0, i)
    ensures var taken := Hit(g, Overlap(mi), m0.c[i].node.item.key);
            var m1 := MaybeTaken(m0, i, taken);
            && LeftReady(g, LeftOp(mi, taken), taken, Hide(m1), i) && SlotsOk(m1, i)
            && Inorder(m1.c, LeftOf(i)) == Inorder(m0.c, LeftOf(i))
            && m1 == if taken then Take(m0, i) else m0
    ensures Hit(g, Overlap(mi), m0.c[i].node.item.key)
            <==> Overlaps(g.query, m0.c[i].node.item.key) && g.accept(m0.c[i].node.item.key)
    ensures LeftOp(mi, true) == (if mi then Consume else Overlap(false)) && LeftOp(mi, false) == Overlap(mi)
  {
    SortedAround(m0.c, i);
    var taken := Hit(g, Overlap(mi), m0.c[i].node.item.key);
    var m1 := MaybeTaken(m0, i, taken);
    if taken && !mi {
      forall x | x in Inorder(m0.c, LeftOf(i))
        ensures !Beyond(g.query, x.key)
      {
        assert AtMost(x.key, m0.c[i].node.item.key);
      }
    }
    LeftStart(g, Overlap(mi), LeftOp(mi, taken), taken, m0, i);
  }

  /** Left part and root are settled, the right subtree is next.  Cell `i` may hold
      the root, a stale copy of it or a survivor from the left; its key is at most any
      key on the right, and its bound is still the bound of the whole subtree. */
  ghost predicate RightNext(g: Config, mi: bool, m0: Mem, m3: Mem, i: nat) {
    && i < |m0.c| && i < |m3.c|
    && (var taken := Hit(g, Overlap(mi), m0.c[i].node.item.key);
        Settled(g, true, m0, m3, i, PartKept(g, LeftOp(mi, taken), taken, m0, i)))
    && (Open(m3.smin) > 0 ==> !Live(m3.c, i))
    && m3.c[i].node.maxb == m0.c[i].node.maxb
    && (forall y :: y in Inorder(m0.c, RightOf(i)) ==> AtMost(m3.c[i].node.item.key, y.key))
  }

  lemma {:induction false} KeptSubset(g: Config, op: Op, s: seq<Item>, x: Item)
    requires x in Kept(g, op, s)
    ensures x in s
  {
    if x != s[0] {
      KeptSubset(g, op, s[1..], x);
    }
  }

  lemma {:induction false} NotTakenNext(g: Config, mi: bool, m0: Mem, m2: Mem, i: nat)
    requires GoodConfig(g) && Ready(g, Overlap(mi), m0, i)
    requires !Hit(g, Overlap(mi), m0.c[i].node.item.key)
    requires WentLeft(g, Overlap(mi), false, true, m0, m2, i)
    ensures var m3 := MaybeToMin(m2, i);
            && RightNext(g, mi, m0, m3, i)
            && (Open(m2.smin) > 0 ==> !Live(m3.c, i) && m3 == ToMin(m2, i))
            && (Open(m2.smin) <= 0 ==> m3 == m2)
    ensures SlotsOk(m2, i) && Live(m2.c, i)
  {
    LeftEnd(g, Overlap(mi), Overlap(mi), false, m0, m2, i);
    MinStep(g, m0, m2, i, PartKept(g, Overlap(mi), false, m0, i));
    SortedAround(m0.c, i);
  }

  lemma {:induction false} SettledMaxb(g: Config, m0: Mem, m2: Mem, i: nat, part: seq<Item>, b: int)
    requires Settled(g, true, m0, m2, i, part) && i < |m2.c|
    ensures Settled(g, true, m0, WithMaxb(m2, i, b), i, part)
  {
    WithMaxbKids(m2, i, b);
    WithMaxbSlots(m0, m2, i, b);
    SlotsKept(m0, WithMaxb(m2, i, b), i);
  }

  lemma {:induction false} TakenKey(g: Config, mi: bool, m0: Mem, m2: Mem, i: nat)
    requires GoodConfig(g) && Ready(g, Overlap(mi), m0, i) && i < |m2.c|
    requires WentLeft(g, LeftOp(mi, true), true, true, Take(m0, i), m2, i)
    requires Settled(g, true, m0, m2, i, PartKept(g, LeftOp(mi, true), true, m0, i))
    requires !Live(m2.c, i) ==> m2.c[i].node == m0.c[i].node
    ensures forall y :: y in Inorder(m0.c, RightOf(i)) ==> AtMost(m2.c[i].node.item.key, y.key)
  {
    hide Inorder, Tidy, Exact, Sorted, SlotsOk, Outside, Kept, WentLeft, Wiped, Reached;
    SortedAround(m0.c, i);
    if Live(m2.c, i) {
      var x := m2.c[i].node.item;
      var kept := Kept(g, LeftOp(mi, true), Inorder(m0.c, LeftOf(i)));
      assert x in At(m2.c, i);
      assert x in LeftPart(m0, m2, i);
      assert kept + [] == kept;
      KeptSubset(g, LeftOp(mi, true), Inorder(m0.c, LeftOf(i)), x);
    }
  }

  lemma {:induction false} TakenNext(g: Config, mi: bool, m0: Mem, m2: Mem, i: nat)
    requires GoodConfig(g) && Ready(g, Overlap(mi), m0, i)
    requires Hit(g, Overlap(mi), m0.c[i].node.item.key)
    requires WentLeft(g, LeftOp(mi, true), true, true, Take(m0, i), m2, i)
    ensures i < |m2.c| && SlotsOk(m2, i)
    ensures var m3 := WithMaxb(m2, i, m0.c[i].node.maxb);
            RightNext(g, mi, m0, m3, i) && Live(m3.c, i) == Live(m2.c, i)
  {
    LeftEnd(g, Overlap(mi), LeftOp(mi, true), true, m0, m2, i);
    TakenKey(g, mi, m0, m2, i);
    SettledMaxb(g, m0, m2, i, PartKept(g, LeftOp(mi, true), true, m0, i), m0.c[i].node.maxb);
  }

  /** How the right subtree is treated, judged by what cell `i` holds by then. */
  ghost function RightOp(g: Config, mi: bool, m3: Mem, i: nat): Op
    requires i < |m3.c|
  {
    if mi || g.query.a <= m3.c[i].node.item.key.a then
      if m3.c[i].node.maxb < g.query.b then Consume else Overlap(true)
    else
      Overlap(false)
  }

  /** Consuming items unseen is right when they start within the query and end before
      its end. */
  lemma {:induction false} AllOverlap(g: Config, s: seq<Item>)
    requires WellFormed(g.query)
    requires forall x :: x in s ==> WellFormed(x.key) && g.query.a <= x.key.a && x.key.b < g.query.b
    ensures forall x :: x in s ==> Hit(g, Overlap(true), x.key) == Hit(g, Consume, x.key)
  {
  }

  /** Consuming the right subtree unseen takes only items that overlap. */
  lemma {:induction false} RightHits(g: Config, mi: bool, m0: Mem, m3: Mem, i: nat)
    requires GoodConfig(g) && Ready(g, Overlap(mi), m0, i) && RightNext(g, mi, m0, m3, i)
    ensures forall x :: x in Inorder(m0.c, RightOf(i)) ==>
              Hit(g, Overlap(mi), x.key) == Hit(g, RightOp(g, mi, m3, i), x.key)
    ensures RightOp(g, mi, m3, i) == Overlap(true) ==>
              forall x :: x in Inorder(m0.c, RightOf(i)) ==> g.query.a <= x.key.a
  {
    hide SlotsOk, Settled, Reached, Outside, Inorder, Sorted, Exact, Tidy, Monotone;
    SortedAround(m0.c, i);
    MaxbBounds(m0.c, i);
    if RightOp(g, mi, m3, i) == Consume {
      AllOverlap(g, Inorder(m0.c, RightOf(i)));
    }
  }

  lemma {:induction false} OverlapRightStart(g: Config, mi: bool, m0: Mem, m3: Mem, i: nat)
    requires GoodConfig(g) && Ready(g, Overlap(mi), m0, i) && RightNext(g, mi, m0, m3, i)
    ensures i < |m3.c| && RightReady(g, RightOp(g, mi, m3, i), !Live(m3.c, i), m3, i)
    ensures Inorder(m3.c, RightOf(i)) == Inorder(m0.c, RightOf(i))
    ensures RightOp(g, mi, m3, i) ==
              if mi || g.query.a <= m3.c[i].node.item.key.a then
                if m3.c[i].node.maxb < g.query.b then Consume else Overlap(true)
              else
                Overlap(false)
  {
    hide Inorder, SlotsOk, Outside, Tidy, Exact, Kept;
    var taken := Hit(g, Overlap(mi), m0.c[i].node.item.key);
    var part := PartKept(g, LeftOp(mi, taken), taken, m0, i);
    SettledFacts(g, true, m0, m3, i, part);
    RightHits(g, mi, m0, m3, i);
    SortedAround(m0.c, i);
    RightStart(g, RightOp(g, mi, m3, i), true, m0, m3, i, part);
  }

  lemma {:induction false} OverlapTurn(g: Config, mi: bool, m0: Mem, m3: Mem, m4: Mem, i: nat)
    requires GoodConfig(g) && Ready(g, Overlap(mi), m0, i) && RightNext(g, mi, m0, m3, i) && i < |m3.c|
    requires WentRight(g, RightOp(g, mi, m3, i), !Live(m3.c, i), m3, m4, i)
    ensures Turned(g, UsesMin(Overlap(mi)), m0, m4, i, Kept(g, Overlap(mi), Inorder(m0.c, i)))
    ensures UsesMax(Overlap(mi))
  {
    hide SlotsOk, Outside, OpReady, PartKept;
    var taken := Hit(g, Overlap(mi), m0.c[i].node.item.key);
    LeftHits(g, mi, m0, i);
    RightHits(g, mi, m0, m3, i);
    RightEndAs(g, mi, taken, m0, m3, m4, i);
  }

  lemma {:induction false} RightEndAs(g: Config, mi: bool, taken: bool, m0: Mem, m3: Mem, m4: Mem, i: nat)
    requires Live(m0.c, i) && i < |m3.c|
    requires Settled(g, true, m0, m3, i, PartKept(g, LeftOp(mi, taken), taken, m0, i))
    requires Open(m3.smin) > 0 ==> !Live(m3.c, i)
    requires taken == Hit(g, Overlap(mi), m0.c[i].node.item.key)
    requires forall x :: x in Inorder(m0.c, LeftOf(i)) ==>
               Hit(g, Overlap(mi), x.key) == Hit(g, LeftOp(mi, taken), x.key)
    requires forall x :: x in Inorder(m0.c, RightOf(i)) ==>
               Hit(g, Overlap(mi), x.key) == Hit(g, RightOp(g, mi, m3, i), x.key)
    requires WentRight(g, RightOp(g, mi, m3, i), !Live(m3.c, i), m3, m4, i)
    ensures Turned(g, UsesMin(Overlap(mi)), m0, m4, i, Kept(g, Overlap(mi), Inorder(m0.c, i)))
  {
    hide SlotsOk, Outside, Settled, Turned, WentRight, Kept;
    RightEnd(g, Overlap(mi), LeftOp(mi, taken), RightOp(g, mi, m3, i), taken, m0, m3, m4, i);
  }

  lemma {:induction false} OverlapOut(g: Config, mi: bool, m0: Mem, m3: Mem, i: nat, o0: seq<Item>, o: seq<Item>)
    requires GoodConfig(g) && Ready(g, Overlap(mi), m0, i) && RightNext(g, mi, m0, m3, i) && i < |m3.c|
    requires var taken := Hit(g, Overlap(mi), m0.c[i].node.item.key);
             o == o0 + Taken(g, LeftOp(mi, taken), Inorder(m0.c, LeftOf(i)))
                  + (if taken then [m0.c[i].node.item] else [])
                  + Taken(g, RightOp(g, mi, m3, i), Inorder(m0.c, RightOf(i)))
    ensures o == o0 + Taken(g, Overlap(mi), Inorder(m0.c, i))
  {
    var taken := Hit(g, Overlap(mi), m0.c[i].node.item.key);
    LeftHits(g, mi, m0, i);
    RightHits(g, mi, m0, m3, i);
    OutEnd(g, Overlap(mi), LeftOp(mi, taken), RightOp(g, mi, m3, i), taken, m0, i, o0, o);
  }
}
