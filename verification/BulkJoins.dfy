/** How the steps of a routine add up.  `Total` reads the tree through the slots: what
    went into min slots, the subtree, what went into max slots.  Filling slots never
    changes it. */
module BulkJoins {
  import opened HeapIndex
  import opened Items
  import opened Cells
  import opened Memory
  import opened BulkSpec
  import opened BulkSteps

  ghost function Total(m0: Mem, m: Mem, i: nat): seq<Item> {
    NewMin(m0, m) + Inorder(m.c, i) + NewMax(m0, m)
  }

  /** The state reached from `m0` while the routine works on the subtree at `i`. */
  ghost predicate Reached(g: Config, m0: Mem, m: Mem, i: nat) {
    && SlotsOk(m0, i) && Outside(m0, m, i)
    && Tidy(m.c, LeftOf(i)) && Tidy(m.c, RightOf(i))
    && (g.augmented ==> KidsExact(m.c, i))
  }

  lemma {:induction false} TotalUnfold(m0: Mem, m: Mem, i: nat)
    requires i < |m.c|
    ensures Total(m0, m, i)
         == NewMin(m0, m) + (Inorder(m.c, LeftOf(i)) + At(m.c, i) + Inorder(m.c, RightOf(i))) + NewMax(m0, m)
  {
  }

  /** The start of a routine. */
  lemma {:induction false} Start(g: Config, m: Mem, i: nat)
    requires SlotsOk(m, i) && Tidy(m.c, LeftOf(i)) && Tidy(m.c, RightOf(i))
    requires g.augmented ==> KidsExact(m.c, i)
    ensures Reached(g, m, m, i) && NewMin(m, m) == [] && NewMax(m, m) == []
    ensures Total(m, m, i) == Inorder(m.c, i)
  {
    NoNewSlots(m, m);
  }

  lemma {:induction false} MinSeq(a: seq<Item>, x: seq<Item>, r: seq<Item>, b: seq<Item>)
    ensures a + ([] + x + r) + b == (a + x) + ([] + [] + r) + b
  {
    assert [] + x + r == x + r;
    assert [] + [] + r == r;
    Assoc(a, x, r);
  }

  lemma {:induction false} MaxSeq(a: seq<Item>, l: seq<Item>, x: seq<Item>, b: seq<Item>)
    ensures a + (l + x + []) + b == a + (l + [] + []) + (x + b)
  {
    assert l + x + [] == l + x;
    assert l + [] + [] == l;
    Assoc(a, l, x);
    Assoc(a + l, x, b);
  }

  /** Moving node `i` to a min slot when nothing is left of it. */
  lemma {:induction false} FillMinJoin(g: Config, m0: Mem, m: Mem, i: nat)
    requires Reached(g, m0, m, i) && Live(m.c, i) && Open(m.smin) > 0
    requires Inorder(m.c, LeftOf(i)) == []
    ensures Reached(g, m0, ToMin(m, i), i)
    ensures Total(m0, ToMin(m, i), i) == Total(m0, m, i)
  {
    SlotsKept(m0, m, i);
    var m' := ToMin(m, i);
    ToMinStep(m, i);
    OutsideTrans(m0, m, m', i);
    TotalUnfold(m0, m, i);
    TotalUnfold(m0, m', i);
    MinSeq(NewMin(m0, m), At(m.c, i), Inorder(m.c, RightOf(i)), NewMax(m0, m));
    assert [] + NewMax(m0, m) == NewMax(m0, m);
  }

  /** Moving node `i` to a max slot when nothing is right of it. */
  lemma {:induction false} FillMaxJoin(g: Config, m0: Mem, m: Mem, i: nat)
    requires Reached(g, m0, m, i) && Live(m.c, i) && Open(m.smax) > 0
    requires Inorder(m.c, RightOf(i)) == []
    ensures Reached(g, m0, ToMax(m, i), i)
    ensures Total(m0, ToMax(m, i), i) == Total(m0, m, i)
  {
    SlotsKept(m0, m, i);
    var m' := ToMax(m, i);
    ToMaxStep(m, i);
    OutsideTrans(m0, m, m', i);
    TotalUnfold(m0, m, i);
    TotalUnfold(m0, m', i);
    MaxSeq(NewMin(m0, m), Inorder(m.c, LeftOf(i)), At(m.c, i), NewMax(m0, m));
    assert NewMin(m0, m) + [] == NewMin(m0, m);
  }

  /** A first descent to the left. */
  lemma {:induction false} LeftJoin(g: Config, op: Op, slot: bool, hidden: bool, m0: Mem, m: Mem, m1: Mem, i: nat)
    requires Reached(g, m0, m, i) && NewMin(m0, m) == [] && NewMax(m0, m) == []
    requires WentLeft(g, op, slot, hidden, m, m1, i)
    ensures Reached(g, m0, m1, i)
    ensures NewMin(m0, m1) == NewMin(m, m1) && NewMax(m0, m1) == NewMax(m, m1)
  {
    OutsideTrans(m0, m, m1, i);
    assert [] + NewMin(m, m1) == NewMin(m, m1);
    assert NewMax(m, m1) + [] == NewMax(m, m1);
  }

  /** A descent to the right after the left part is settled. */
  lemma {:induction false} RightJoin(g: Config, op: Op, slot: bool, m0: Mem, m: Mem, m1: Mem, i: nat)
    requires Reached(g, m0, m, i) && slot == !Live(m.c, i) && i < |m.c|
    requires WentRight(g, op, slot, m, m1, i)
    requires NewMax(m0, m) == []
    requires slot ==> Inorder(m.c, LeftOf(i)) == []
    requires UsesMin(op) && Open(m.smin) > 0 ==> slot
    ensures Reached(g, m0, m1, i)
    ensures Total(m0, m1, i) == NewMin(m0, m) + Inorder(m.c, LeftOf(i)) + At(m.c, i)
                              + Kept(g, op, Inorder(m.c, RightOf(i)))
  {
    OutsideTrans(m0, m, m1, i);
    TotalUnfold(m0, m1, i);
    var a, a', b := NewMin(m0, m), NewMin(m, m1), NewMax(m, m1);
    var l, x, r := Inorder(m1.c, LeftOf(i)), At(m1.c, i), Inorder(m1.c, RightOf(i));
    assert NewMax(m0, m1) == b;
    if slot {
      RightSeqSlot(a, a', x, r, b);
    } else {
      assert m1.smin == m.smin;
      NoNewSlots(m, m1);
      RightSeq(a, l, x, r, b);
    }
  }

  lemma {:induction false} RightSeqSlot(a: seq<Item>, a': seq<Item>, x: seq<Item>, r: seq<Item>, b: seq<Item>)
    ensures (a + a') + ([] + x + r) + b == a + [] + [] + (a' + x + r + b)
  {
    assert a + [] + [] == a;
    assert [] + x + r == x + r;
    Assoc(a', x, r);
    Assoc(a, a', x + r);
    Assoc(a, a' + (x + r), b);
  }

  lemma {:induction false} RightSeq(a: seq<Item>, l: seq<Item>, x: seq<Item>, r: seq<Item>, b: seq<Item>)
    ensures (a + []) + (l + x + r) + b == a + l + x + ([] + [] + r + b)
  {
    assert a + [] == a;
    assert [] + [] + r + b == r + b;
    Assoc(a, l, x);
    Assoc(a, l + x, r);
    Assoc(a + (l + x), r, b);
  }

  /** Filling min slots from the right subtree when nothing else is left. */
  lemma {:induction false} RightAgain(g: Config, m0: Mem, m: Mem, m1: Mem, i: nat)
    requires Reached(g, m0, m, i) && !Live(m.c, i) && i < |m.c|
    requires WentRight(g, FillMin, true, m, m1, i)
    requires Inorder(m.c, LeftOf(i)) == []
    ensures Reached(g, m0, m1, i)
    ensures Total(m0, m1, i) == Total(m0, m, i)
  {
    var r0 := Inorder(m.c, RightOf(i));
    NoneTaken(g, FillMin, r0);
    OutsideTrans(m0, m, m1, i);
    TotalUnfold(m0, m, i);
    TotalUnfold(m0, m1, i);
    NoNewSlots(m, m1);
    var a, a', b := NewMin(m0, m), NewMin(m, m1), NewMax(m0, m);
    var x, r := At(m1.c, i), Inorder(m1.c, RightOf(i));
    RightAgainSeq(a, a', x, r, b);
  }

  lemma {:induction false} RightAgainSeq(a: seq<Item>, a': seq<Item>, x: seq<Item>, r: seq<Item>, b: seq<Item>)
    ensures (a + a') + ([] + x + r) + ([] + b) == a + ([] + [] + (a' + x + r + [])) + b
  {
    assert [] + x + r == x + r && [] + b == b;
    assert [] + [] + (a' + x + r + []) == a' + x + r;
    Assoc(a', x, r);
    Assoc(a, a', x + r);
  }

  /** Filling max slots from the left subtree when nothing else is left. */
  lemma {:induction false} LeftAgain(g: Config, m0: Mem, m: Mem, m1: Mem, i: nat)
    requires Reached(g, m0, m, i) && !Live(m.c, i) && i < |m.c|
    requires WentLeft(g, FillMax, true, false, m, m1, i)
    requires Inorder(m.c, RightOf(i)) == []
    ensures Reached(g, m0, m1, i)
    ensures Total(m0, m1, i) == Total(m0, m, i)
  {
    var l0 := Inorder(m.c, LeftOf(i));
    NoneTaken(g, FillMax, l0);
    OutsideTrans(m0, m, m1, i);
    TotalUnfold(m0, m, i);
    TotalUnfold(m0, m1, i);
    NoNewSlots(m, m1);
    LeftAgainSeq(NewMin(m0, m), Inorder(m1.c, LeftOf(i)), At(m1.c, i), NewMax(m, m1), NewMax(m0, m));
  }

  lemma {:induction false} LeftAgainSeq(a: seq<Item>, l: seq<Item>, x: seq<Item>, b': seq<Item>, b: seq<Item>)
    ensures (a + []) + (l + x + []) + (b' + b) == a + (([] + l + x + b') + [] + []) + b
  {
    assert a + [] == a && l + x + [] == l + x;
    assert ([] + l + x + b') + [] + [] == l + x + b';
    Assoc(a, l + x, b');
    Assoc(a + (l + x), b', b);
  }

  /** The end of every routine that fills max slots: node `i`, then the left subtree. */
  lemma {:induction false} MaxTail(g: Config, m0: Mem, m4: Mem, m5: Mem, m6: Mem, i: nat)
    requires Reached(g, m0, m4, i) && i < |m4.c|
    requires Open(m4.smax) > 0 || !Live(m4.c, i) ==> Inorder(m4.c, RightOf(i)) == []
    requires m5 == if Live(m4.c, i) && Open(m4.smax) > 0 then ToMax(m4, i) else m4
    requires if Live(m5.c, i) then m6 == m5 else WentLeft(g, FillMax, true, false, m5, m6, i)
    ensures Reached(g, m0, m6, i)
    ensures Total(m0, m6, i) == Total(m0, m4, i)
    ensures Tidy(m6.c, i)
    ensures m6.smin == m4.smin
    ensures Open(m6.smax) > 0 ==> Inorder(m6.c, i) == []
    ensures Inorder(m4.c, i) == [] ==> Inorder(m6.c, i) == [] && m6.smax == m4.smax
    ensures StaysWithin(m4, m6)
  {
    hide SlotsOk, Outside, StaysWithin, Newly, Inorder;
    StaysItself(m4);
    if m5 != m4 {
      MaxTailRoot(g, m0, m4, i);
    }
    if !Live(m5.c, i) {
      MaxTailLeft(g, m0, m5, m6, i);
      StaysWithinTrans(m4, m5, m6);
    }
  }

  lemma {:induction false} MaxTailRoot(g: Config, m0: Mem, m4: Mem, i: nat)
    requires Reached(g, m0, m4, i) && Live(m4.c, i) && Open(m4.smax) > 0
    requires Inorder(m4.c, RightOf(i)) == []
    ensures var m5 := ToMax(m4, i);
            && Reached(g, m0, m5, i) && Total(m0, m5, i) == Total(m0, m4, i)
            && !Live(m5.c, i) && Inorder(m5.c, RightOf(i)) == [] && Inorder(m4.c, i) != []
            && StaysWithin(m4, m5)
  {
    hide SlotsOk, StaysWithin, Newly;
    FillMaxJoin(g, m0, m4, i);
    SlotsKept(m0, m4, i);
    ToMaxStep(m4, i);
    assert At(m4.c, i) != [];
  }

  lemma {:induction false} MaxTailLeft(g: Config, m0: Mem, m5: Mem, m6: Mem, i: nat)
    requires Reached(g, m0, m5, i) && !Live(m5.c, i) && i < |m5.c|
    requires Inorder(m5.c, RightOf(i)) == []
    requires WentLeft(g, FillMax, true, false, m5, m6, i)
    ensures Reached(g, m0, m6, i) && Total(m0, m6, i) == Total(m0, m5, i)
    ensures Tidy(m6.c, i) && m6.smin == m5.smin && StaysWithin(m5, m6)
    ensures Open(m6.smax) > 0 ==> Inorder(m6.c, i) == []
    ensures Inorder(m5.c, i) == [] ==> Inorder(m6.c, i) == [] && m6.smax == m5.smax
  {
    hide SlotsOk, StaysWithin, Newly;
    LeftAgain(g, m0, m5, m6, i);
    MaxTailEnd(g, m5, m6, i);
    NothingNew(m5, m6, i);
  }

  lemma {:induction false} MaxTailEnd(g: Config, m5: Mem, m6: Mem, i: nat)
    requires !Live(m5.c, i) && i < |m5.c|
    requires WentLeft(g, FillMax, true, false, m5, m6, i)
    requires Inorder(m5.c, RightOf(i)) == [] && Tidy(m5.c, RightOf(i))
    ensures Tidy(m6.c, i)
    ensures Open(m6.smax) > 0 ==> Inorder(m6.c, i) == []
    ensures Inorder(m5.c, LeftOf(i)) == [] ==> Inorder(m6.c, i) == [] && NewMax(m5, m6) == []
  {
    NoneTaken(g, FillMax, Inorder(m5.c, LeftOf(i)));
    EmptyIsNil(m6.c, RightOf(i));
    if !Live(m6.c, i) {
      EmptyIsNil(m6.c, LeftOf(i));
    }
  }

  /** The part of the total up to node `i`. */
  ghost function LeftPart(m0: Mem, m: Mem, i: nat): seq<Item> {
    NewMin(m0, m) + Inorder(m.c, LeftOf(i)) + At(m.c, i)
  }

  lemma {:induction false} LeftPartTotal(m0: Mem, m: Mem, i: nat)
    requires i < |m.c| && NewMax(m0, m) == []
    ensures Total(m0, m, i) == LeftPart(m0, m, i) + Inorder(m.c, RightOf(i))
  {
    var a, l, x, r := NewMin(m0, m), Inorder(m.c, LeftOf(i)), At(m.c, i), Inorder(m.c, RightOf(i));
    assert a + (l + x + r) + [] == a + (l + x + r);
    Assoc(a, l, x);
    Assoc(a, l + x, r);
  }

  /** A descent to the left from a live node, at the start of a routine. */
  lemma {:induction false} LeftWithoutSlot(g: Config, op: Op, hidden: bool, m0: Mem, m1: Mem, i: nat)
    requires Reached(g, m0, m0, i) && Live(m0.c, i)
    requires WentLeft(g, op, false, hidden, m0, m1, i) && m1.smax == m0.smax
    ensures Reached(g, m0, m1, i) && m1.c[i] == m0.c[i] && NewMax(m0, m1) == []
    ensures LeftPart(m0, m1, i) == Kept(g, op, Inorder(m0.c, LeftOf(i))) + At(m0.c, i)
    ensures Inorder(m1.c, RightOf(i)) == Inorder(m0.c, RightOf(i))
  {
    NoNewSlots(m0, m0);
    NoNewSlots(m0, m1);
    LeftJoin(g, op, false, hidden, m0, m0, m1, i);
    assert NewMin(m0, m1) + Inorder(m1.c, LeftOf(i)) + [] + [] == NewMin(m0, m1) + Inorder(m1.c, LeftOf(i));
  }

  /** The end of every routine that fills min slots: node `i`, then the right subtree. */
  lemma {:induction false} MinTail(g: Config, m0: Mem, m1: Mem, m2: Mem, m3: Mem, i: nat)
    requires Reached(g, m0, m1, i) && Live(m1.c, i)
    requires Open(m1.smin) > 0 ==> Inorder(m1.c, LeftOf(i)) == []
    requires m2 == if Open(m1.smin) > 0 then ToMin(m1, i) else m1
    requires if Open(m1.smin) > 0 then WentRight(g, FillMin, true, m2, m3, i) else m3 == m2
    ensures Reached(g, m0, m3, i)
    ensures Total(m0, m3, i) == Total(m0, m1, i)
    ensures Tidy(m3.c, i)
    ensures m3.smax == m1.smax
    ensures Open(m3.smin) > 0 ==> Inorder(m3.c, i) == []
  {
    if Open(m1.smin) > 0 {
      FillMinJoin(g, m0, m1, i);
      SlotsKept(m0, m1, i);
      ToMinStep(m1, i);
      RightAgain(g, m0, m2, m3, i);
      EmptyIsNil(m3.c, LeftOf(i));
      if !Live(m3.c, i) {
        EmptyIsNil(m3.c, RightOf(i));
      }
    }
  }

  /** The visitor after a routine: the bound of a live node is restored, a nil node
      has nothing below it. */
  lemma {:induction false} VisitedExact(g: Config, op: Op, m0: Mem, m: Mem, m': Mem, i: nat)
    requires SlotsOk(m0, i) && Visited(g, op, m0, m, i) && KidsExact(m.c, i)
    requires m' == if Live(m.c, i) then WithMaxb(m, i, LocalMax(m.c, i)) else m
    ensures Visited(g, op, m0, m', i) && Exact(m'.c, i)
  {
    if Live(m.c, i) {
      UpdateMaxStep(g, op, m0, m, i);
    }
  }
}
