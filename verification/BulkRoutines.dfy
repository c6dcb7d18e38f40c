/** The shape that the routines share: the left part of a subtree is settled first,
    then the right part, then what is left over fills max slots. */
module BulkRoutines {
  import opened HeapIndex
  import opened Items
  import opened Cells
  import opened Memory
  import opened BulkSpec
  import opened BulkSteps
  import opened BulkJoins

  /** What every routine needs of the subtree it is run on. */
  ghost predicate Ready(g: Config, op: Op, m: Mem, i: nat) {
    && Live(m.c, i)
    && SlotsOk(m, i)
    && Tidy(m.c, i)
    && (g.augmented ==> KidsExact(m.c, i))
    && OpReady(g, op, m, i)
  }

  /** What a descent from `i` to the left needs. */
  ghost predicate LeftReady(g: Config, op: Op, slot: bool, m: Mem, i: nat) {
    && SlotsOk(m, i) && slot == !Live(m.c, i)
    && Tidy(m.c, LeftOf(i))
    && (g.augmented ==> Exact(m.c, LeftOf(i)))
    && (slot ==> UsesMax(op))
    && (Live(m.c, LeftOf(i)) ==> OpReady(g, op, PushLeft(m, i, slot), LeftOf(i)))
  }

  ghost predicate RightReady(g: Config, op: Op, slot: bool, m: Mem, i: nat) {
    && SlotsOk(m, i) && slot == !Live(m.c, i)
    && Tidy(m.c, RightOf(i))
    && (g.augmented ==> Exact(m.c, RightOf(i)))
    && (slot ==> UsesMin(op))
    && (Live(m.c, RightOf(i)) ==> OpReady(g, op, PushRight(m, i, slot), RightOf(i)))
  }

  lemma {:induction false} ReadyFacts(g: Config, op: Op, m: Mem, i: nat)
    requires Ready(g, op, m, i)
    ensures Live(m.c, i) && SlotsOk(m, i) && i < |m.c|
    ensures op.FillMin? ==> Open(m.smin) > 0 && Taken(g, op, Inorder(m.c, i)) == []
    ensures op.FillMax? ==> Open(m.smax) > 0 && Taken(g, op, Inorder(m.c, i)) == []
  {
    if op.FillMin? || op.FillMax? {
      NoneTaken(g, op, Inorder(m.c, i));
    }
  }

  lemma {:induction false} LeftVisit(g: Config, op: Op, slot: bool, m: Mem, i: nat)
    requires LeftReady(g, op, slot, m, i)
    ensures SlotsOk(m, i) && LeftOf(i) > i && slot == !Live(m.c, i)
    ensures !Live(m.c, LeftOf(i)) ==>
              WentLeft(g, op, slot, false, m, m, i) && Taken(g, op, Inorder(m.c, LeftOf(i))) == []
    ensures Live(m.c, LeftOf(i)) ==>
              && Ready(g, op, PushLeft(m, i, slot), LeftOf(i))
              && (g.augmented ==> Exact(PushLeft(m, i, slot).c, LeftOf(i)))
              && LeftOf(i) < |m.c|
    ensures PushLeft(m, i, slot).c == m.c
    ensures PushLeft(m, i, slot) == if slot then PushMax(m, i) else m
  {
    if Live(m.c, LeftOf(i)) {
      PushLeftOk(m, i, slot);
    } else {
      NilIsEmpty(m.c, LeftOf(i));
      WentLeftNowhere(g, op, slot, m, i);
    }
  }

  lemma {:induction false} RightVisit(g: Config, op: Op, slot: bool, m: Mem, i: nat)
    requires RightReady(g, op, slot, m, i)
    ensures SlotsOk(m, i) && RightOf(i) > i && slot == !Live(m.c, i)
    ensures !Live(m.c, RightOf(i)) ==>
              WentRight(g, op, slot, m, m, i) && Taken(g, op, Inorder(m.c, RightOf(i))) == []
    ensures Live(m.c, RightOf(i)) ==>
              && Ready(g, op, PushRight(m, i, slot), RightOf(i))
              && (g.augmented ==> Exact(PushRight(m, i, slot).c, RightOf(i)))
              && RightOf(i) < |m.c|
    ensures PushRight(m, i, slot).c == m.c
    ensures PushRight(m, i, slot) == if slot then PushMin(m, i) else m
  {
    if Live(m.c, RightOf(i)) {
      PushRightOk(m, i, slot);
    } else {
      NilIsEmpty(m.c, RightOf(i));
      WentRightNowhere(g, op, slot, m, i);
    }
  }

  /** The visit to the left child is over and the slot of `i` is popped. */
  lemma {:induction false} LeftVisited(g: Config, op: Op, slot: bool, m: Mem, v: Mem, i: nat)
    requires LeftReady(g, op, slot, m, i) && Live(m.c, LeftOf(i))
    requires Visited(g, op, PushLeft(m, i, slot), v, LeftOf(i))
    requires g.augmented ==> Exact(v.c, LeftOf(i))
    ensures WentLeft(g, op, slot, false, m, PopLeft(v, slot), i)
    ensures PopLeft(v, slot) == if slot then v.(smax := PopSlot(v.smax)) else v
    ensures slot ==> v.smax.idx != []
    ensures !slot ==> Live(v.c, i)
  {
    WentLeftDone(g, op, slot, m, v, i);
  }

  lemma {:induction false} RightVisited(g: Config, op: Op, slot: bool, m: Mem, v: Mem, i: nat)
    requires RightReady(g, op, slot, m, i) && Live(m.c, RightOf(i))
    requires Visited(g, op, PushRight(m, i, slot), v, RightOf(i))
    requires g.augmented ==> Exact(v.c, RightOf(i))
    ensures WentRight(g, op, slot, m, PopRight(v, slot), i)
    ensures PopRight(v, slot) == if slot then v.(smin := PopSlot(v.smin)) else v
    ensures slot ==> v.smin.idx != []
    ensures !slot ==> Live(v.c, i)
  {
    WentRightDone(g, op, slot, m, v, i);
  }

  lemma {:induction false} KeptSplit(g: Config, op: Op, c: seq<Cell>, i: nat)
    requires i < |c|
    ensures Kept(g, op, Inorder(c, i))
         == Kept(g, op, Inorder(c, LeftOf(i))) + Kept(g, op, At(c, i)) + Kept(g, op, Inorder(c, RightOf(i)))
    ensures Taken(g, op, Inorder(c, i))
         == Taken(g, op, Inorder(c, LeftOf(i))) + Taken(g, op, At(c, i)) + Taken(g, op, Inorder(c, RightOf(i)))
    ensures Live(c, i) && Hit(g, op, c[i].node.item.key) ==>
              Kept(g, op, At(c, i)) == [] && Taken(g, op, At(c, i)) == [c[i].node.item]
    ensures Live(c, i) && !Hit(g, op, c[i].node.item.key) ==>
              Kept(g, op, At(c, i)) == At(c, i) && Taken(g, op, At(c, i)) == []
  {
    var l, x, r := Inorder(c, LeftOf(i)), At(c, i), Inorder(c, RightOf(i));
    TakenConcat(g, op, l + x, r);
    TakenConcat(g, op, l, x);
    assert x != [] ==> x[1..] == [];
  }

  //---- the left part -------------------------------------------------------------------

  /** The part up to and including node `i` is settled: its survivors are `part`.
      With `min`, min slots are in use. */
  ghost predicate Settled(g: Config, min: bool, m0: Mem, m: Mem, i: nat, part: seq<Item>) {
    && Reached(g, m0, m, i) && SlotsOk(m, i)
    && m.smax == m0.smax
    && LeftPart(m0, m, i) == part
    && (!Live(m.c, i) ==> Inorder(m.c, LeftOf(i)) == [])
    && (min && Open(m.smin) > 0 ==> Inorder(m.c, LeftOf(i)) == [])
    && Untouched(m0.c, m.c, RightOf(i))
    && Wiped(g, m0, m, i, LeftOf(i), part)
  }

  lemma {:induction false} NothingDone(g: Config, op: Op, m: Mem, i: nat)
    requires Ready(g, op, m, i)
    ensures Reached(g, m, m, i) && i < |m.c|
    ensures LeftPart(m, m, i) == Inorder(m.c, LeftOf(i)) + At(m.c, i)
  {
    Start(g, m, i);
    assert [] + Inorder(m.c, LeftOf(i)) == Inorder(m.c, LeftOf(i));
  }

  lemma {:induction false} AfterTakenLeft(g: Config, op: Op, m0: Mem, m2: Mem, i: nat)
    requires Reached(g, m0, m0, i) && Live(m0.c, i) && UsesMin(op) && UsesMax(op)
    requires WentLeft(g, op, true, true, Take(m0, i), m2, i)
    ensures Settled(g, true, m0, m2, i, Kept(g, op, Inorder(m0.c, LeftOf(i))))
    ensures Open(m2.smin) > 0 ==> !Live(m2.c, i)
    ensures !Live(m2.c, i) ==> m2.c[i].node == m0.c[i].node
  {
    hide SlotsOk, Newly, Inorder, Tidy, Exact;
    var m1 := Take(m0, i);
    TakeStep(m0, i);
    LeftJoin(g, op, true, true, m0, m1, m2, i);
    SlotsKept(m0, m2, i);
    NoNewSlots(m1, m2);
    AfterTakenLeftPart(NewMin(m0, m2), Inorder(m2.c, LeftOf(i)), At(m2.c, i));
  }

  lemma {:induction false} AfterTakenLeftPart(a: seq<Item>, l: seq<Item>, x: seq<Item>)
    ensures a + l + x + [] == a + l + x
  {
  }

  lemma {:induction false} AfterLeft(g: Config, op: Op, hidden: bool, m0: Mem, m2: Mem, i: nat)
    requires Reached(g, m0, m0, i) && Live(m0.c, i) && UsesMin(op)
    requires WentLeft(g, op, false, hidden, m0, m2, i)
    requires hidden || !UsesMax(op) || Open(m0.smax) == 0
    ensures Settled(g, true, m0, m2, i, Kept(g, op, Inorder(m0.c, LeftOf(i))) + At(m0.c, i))
    ensures m2.c[i] == m0.c[i]
  {
    LeftWithoutSlot(g, op, hidden, m0, m2, i);
    SlotsKept(m0, m2, i);
  }

  lemma {:induction false} MinFilledPart(m0: Mem, m2: Mem, i: nat)
    requires SlotsOk(m0, i) && SlotsOk(m2, i) && Outside(m0, m2, i) && Live(m2.c, i) && Open(m2.smin) > 0
    requires Inorder(m2.c, LeftOf(i)) == []
    ensures LeftPart(m0, ToMin(m2, i), i) == LeftPart(m0, m2, i)
  {
    hide Outside, SlotsOk;
    var m3 := ToMin(m2, i);
    ToMinStep(m2, i);
    OutsideTrans(m0, m2, m3, i);
    MinFilledSeq(NewMin(m0, m2), At(m2.c, i));
  }

  lemma {:induction false} MinFilledSeq(a: seq<Item>, x: seq<Item>)
    ensures (a + x) + [] + [] == a + [] + x
  {
  }

  /** Node `i` is the smallest survivor left and goes to a min slot. */
  lemma {:induction false} MinFilled(g: Config, m0: Mem, m2: Mem, i: nat, part: seq<Item>)
    requires Settled(g, true, m0, m2, i, part) && Live(m2.c, i) && Open(m2.smin) > 0
    ensures Settled(g, true, m0, ToMin(m2, i), i, part)
    ensures !Live(ToMin(m2, i).c, i) && ToMin(m2, i).c[i].node == m2.c[i].node
  {
    hide LeftPart, Total, Outside, SlotsOk, Newly, StaysWithin, Tidy, Exact;
    FillMinJoin(g, m0, m2, i);
    ToMinStep(m2, i);
    SlotsKept(m2, ToMin(m2, i), i);
    MinFilledPart(m0, m2, i);
  }

  //---- the right part ------------------------------------------------------------------

  /** Both parts are settled: `keep` is what survives.  With `min`, min slots were in
      use. */
  ghost predicate Turned(g: Config, min: bool, m0: Mem, m: Mem, i: nat, keep: seq<Item>) {
    && Reached(g, m0, m, i) && SlotsOk(m, i)
    && Total(m0, m, i) == keep
    && (min && Open(m.smin) > 0 ==> Inorder(m.c, i) == [] && m.smax == m0.smax)
    && (!min ==> m.smin == m0.smin)
    && (!Live(m.c, i) ==> Inorder(m.c, i) == [])
    && (Open(m.smax) > 0 ==> Inorder(m.c, RightOf(i)) == [])
    && Wiped(g, m0, m, i, i, keep)
  }

  lemma {:induction false} AfterRight(g: Config, op: Op, slot: bool, m0: Mem, m3: Mem, m4: Mem, i: nat, part: seq<Item>)
    requires Settled(g, UsesMin(op), m0, m3, i, part) && slot == !Live(m3.c, i) && UsesMax(op)
    requires UsesMin(op) && Open(m3.smin) > 0 ==> slot
    requires slot ==> UsesMin(op)
    requires UsesMin(op) || m3.smin == m0.smin
    requires WentRight(g, op, slot, m3, m4, i)
    ensures Turned(g, UsesMin(op), m0, m4, i, part + Kept(g, op, Inorder(m0.c, RightOf(i))))
  {
    hide SlotsOk, Wiped, StaysWithin;
    NoNewSlots(m0, m3);
    RightJoin(g, op, slot, m0, m3, m4, i);
    SlotsKept(m0, m4, i);
    RightWiped(g, op, slot, m0, m3, m4, i, part);
  }

  /** If nothing survives on either side, the stacks have climbed to every node. */
  lemma {:induction false} RightWiped(g: Config, op: Op, slot: bool, m0: Mem, m3: Mem, m4: Mem, i: nat, part: seq<Item>)
    requires Settled(g, UsesMin(op), m0, m3, i, part) && slot == !Live(m3.c, i)
    requires WentRight(g, op, slot, m3, m4, i)
    ensures Wiped(g, m0, m4, i, i, part + Kept(g, op, Inorder(m0.c, RightOf(i))))
  {
    hide SlotsOk, Newly, Inorder, Kept, Tidy, Exact;
    if !g.noop && AllWait(m0, i) && part + Kept(g, op, Inorder(m0.c, RightOf(i))) == [] {
      SettledWaits(g, UsesMin(op), m0, m3, i, part);
      assert part == [] && Kept(g, op, Inorder(m3.c, RightOf(i))) == [];
      forall j: nat | Below(i, j) && Live(m0.c, j)
        ensures LeftTurns(j) <= m4.peaks.max && RightTurns(j) <= m4.peaks.min
      {
        BelowSplit(i, j);
        if Below(RightOf(i), j) {
          assert Same(m0.c, m3.c, j);
        }
      }
    }
  }

  lemma {:induction false} SettledWaits(g: Config, min: bool, m0: Mem, m3: Mem, i: nat, part: seq<Item>)
    requires Settled(g, min, m0, m3, i, part) && AllWait(m0, i)
    ensures AllWait(m3, i) && LeftTurns(i) <= m3.peaks.max && RightTurns(i) <= m3.peaks.min
    ensures part == [] ==> !Live(m3.c, i)
  {
    hide Newly, Inorder;
  }

  /** A max slot is still open and node `i` is the largest survivor left, or node `i`
      is gone: the left subtree is next. */
  lemma {:induction false} MaxFilled(g: Config, min: bool, m0: Mem, m4: Mem, m5: Mem, i: nat, keep: seq<Item>)
    requires Turned(g, min, m0, m4, i, keep)
    requires m5 == if Live(m4.c, i) && Open(m4.smax) > 0 then ToMax(m4, i) else m4
    ensures Live(m4.c, i) && Open(m4.smax) > 0 ==> !Live(m5.c, i)
    ensures !Live(m5.c, i) ==> LeftReady(g, FillMax, true, m5, i)
    ensures Taken(g, FillMax, Inorder(m5.c, LeftOf(i))) == []
  {
    NoneTaken(g, FillMax, Inorder(m5.c, LeftOf(i)));
    if Live(m4.c, i) && Open(m4.smax) > 0 {
      ToMaxStep(m4, i);
      SlotsKept(m4, m5, i);
    }
  }

  lemma {:induction false} Finished(g: Config, op: Op, m0: Mem, m4: Mem, m5: Mem, m6: Mem, i: nat)
    requires Turned(g, UsesMin(op), m0, m4, i, Kept(g, op, Inorder(m0.c, i))) && UsesMax(op)
    requires m5 == if Live(m4.c, i) && Open(m4.smax) > 0 then ToMax(m4, i) else m4
    requires if Live(m5.c, i) then m6 == m5 else WentLeft(g, FillMax, true, false, m5, m6, i)
    ensures Visited(g, op, m0, m6, i)
    ensures g.augmented ==> KidsExact(m6.c, i)
  {
    hide SlotsOk, Outside, Newly;
    if !Live(m4.c, i) {
      EmptyRight(m4.c, i);
    }
    MaxTail(g, m0, m4, m5, m6, i);
  }

  lemma {:induction false} EmptyRight(c: seq<Cell>, i: nat)
    requires Inorder(c, i) == []
    ensures Inorder(c, LeftOf(i)) == [] && Inorder(c, RightOf(i)) == []
  {
  }

  lemma {:induction false} FinishedAsIs(g: Config, op: Op, m0: Mem, m4: Mem, i: nat)
    requires Turned(g, UsesMin(op), m0, m4, i, Kept(g, op, Inorder(m0.c, i)))
    requires Open(m4.smax) == 0 && UsesMin(op) && UsesMax(op)
    ensures Visited(g, op, m0, m4, i)
    ensures g.augmented ==> KidsExact(m4.c, i)
  {
    if !Live(m4.c, i) {
      EmptyRight(m4.c, i);
      EmptyIsNil(m4.c, LeftOf(i));
      EmptyIsNil(m4.c, RightOf(i));
    }
  }

  //---- the steps of the routines, in the order in which they happen -----------------------

  ghost function MaybeTaken(m: Mem, i: nat, taken: bool): Mem {
    if taken then Take(m, i) else m
  }

  /** The root is taken or not; the left subtree is still as it was. */
  lemma {:induction false} LeftStart(g: Config, op: Op, opL: Op, taken: bool, m0: Mem, i: nat)
    requires Ready(g, op, m0, i) && UsesMax(opL)
    requires var m1 := MaybeTaken(m0, i, taken);
             Live(m0.c, LeftOf(i)) && |m1.c| == |m0.c| && Inorder(m1.c, LeftOf(i)) == Inorder(m0.c, LeftOf(i))
             && (g.augmented ==> Exact(m1.c, LeftOf(i)))
             ==> OpReady(g, opL, PushLeft(Hide(m1), i, taken), LeftOf(i))
    ensures var m1 := MaybeTaken(m0, i, taken);
            && LeftReady(g, opL, taken, Hide(m1), i) && SlotsOk(m1, i)
            && Inorder(m1.c, LeftOf(i)) == Inorder(m0.c, LeftOf(i))
  {
    var m1 := MaybeTaken(m0, i, taken);
    if taken {
      TakeStep(m0, i);
      SlotsKept(m0, m1, i);
    }
    HideOk(m1, i);
  }

  lemma {:induction false} LeftEnd(g: Config, op: Op, opL: Op, taken: bool, m0: Mem, m2: Mem, i: nat)
    requires Ready(g, op, m0, i) && UsesMin(opL) && UsesMax(opL)
    requires WentLeft(g, opL, taken, true, MaybeTaken(m0, i, taken), m2, i)
    ensures Settled(g, true, m0, m2, i,
                    Kept(g, opL, Inorder(m0.c, LeftOf(i))) + if taken then [] else At(m0.c, i))
    ensures taken && Open(m2.smin) > 0 ==> !Live(m2.c, i)
    ensures !taken ==> Live(m2.c, i) && m2.c[i] == m0.c[i]
    ensures i < |m2.c| && (!Live(m2.c, i) ==> m2.c[i].node == m0.c[i].node)
    ensures SlotsOk(m2, i)
  {
    NothingDone(g, op, m0, i);
    if taken {
      AfterTakenLeft(g, opL, m0, m2, i);
      assert Kept(g, opL, Inorder(m0.c, LeftOf(i))) + [] == Kept(g, opL, Inorder(m0.c, LeftOf(i)));
    } else {
      AfterLeft(g, opL, true, m0, m2, i);
    }
  }

  ghost function MaybeToMin(m: Mem, i: nat): Mem {
    if Live(m.c, i) && 0 <= m.smin.nfilled < |m.smin.idx| then ToMin(m, i) else m
  }

  ghost function MaybeToMax(m: Mem, i: nat): Mem {
    if Live(m.c, i) && 0 <= m.smax.nfilled < |m.smax.idx| then ToMax(m, i) else m
  }

  /** If a min slot is open, node `i` goes there. */
  lemma {:induction false} MinStep(g: Config, m0: Mem, m2: Mem, i: nat, part: seq<Item>)
    requires Settled(g, true, m0, m2, i, part)
    ensures var m3 := MaybeToMin(m2, i);
            && Settled(g, true, m0, m3, i, part)
            && (Open(m3.smin) > 0 ==> !Live(m3.c, i))
            && i < |m3.c| && m3.c[i].node == m2.c[i].node
    ensures Live(m2.c, i) && Open(m2.smin) > 0 ==>
              !Live(MaybeToMin(m2, i).c, i) && MaybeToMin(m2, i) == ToMin(m2, i)
    ensures !(Live(m2.c, i) && Open(m2.smin) > 0) ==> MaybeToMin(m2, i) == m2
  {
    if Live(m2.c, i) && Open(m2.smin) > 0 {
      MinFilled(g, m0, m2, i, part);
    }
  }

  lemma {:induction false} SettledFacts(g: Config, min: bool, m0: Mem, m: Mem, i: nat, part: seq<Item>)
    requires Settled(g, min, m0, m, i, part)
    ensures SlotsOk(m, i) && i < |m.c| && Open(m.smin) >= 0
    ensures Open(m.smin) <= Open(m0.smin) && Open(m.smax) == Open(m0.smax)
    ensures Inorder(m.c, RightOf(i)) == Inorder(m0.c, RightOf(i))
  {
  }

  /** The right subtree is still as it was. */
  lemma {:induction false} RightStart(g: Config, opR: Op, min: bool, m0: Mem, m3: Mem, i: nat, part: seq<Item>)
    requires Settled(g, min, m0, m3, i, part) && (!Live(m3.c, i) ==> UsesMin(opR))
    requires Live(m3.c, RightOf(i)) && (g.augmented ==> Exact(m3.c, RightOf(i)))
             ==> OpReady(g, opR, PushRight(m3, i, !Live(m3.c, i)), RightOf(i))
    ensures RightReady(g, opR, !Live(m3.c, i), m3, i)
    ensures Inorder(m3.c, RightOf(i)) == Inorder(m0.c, RightOf(i))
  {
  }

  /** What `op` keeps and takes, from what was kept and taken on both sides. */
  lemma {:induction false} KeptAll(g: Config, op: Op, opL: Op, opR: Op, taken: bool, m0: Mem, i: nat)
    requires Live(m0.c, i) && taken == Hit(g, op, m0.c[i].node.item.key)
    requires forall x :: x in Inorder(m0.c, LeftOf(i)) ==> Hit(g, op, x.key) == Hit(g, opL, x.key)
    requires forall x :: x in Inorder(m0.c, RightOf(i)) ==> Hit(g, op, x.key) == Hit(g, opR, x.key)
    ensures Kept(g, op, Inorder(m0.c, i))
         == Kept(g, opL, Inorder(m0.c, LeftOf(i))) + (if taken then [] else At(m0.c, i))
            + Kept(g, opR, Inorder(m0.c, RightOf(i)))
    ensures Taken(g, op, Inorder(m0.c, i))
         == Taken(g, opL, Inorder(m0.c, LeftOf(i))) + (if taken then [m0.c[i].node.item] else [])
            + Taken(g, opR, Inorder(m0.c, RightOf(i)))
  {
    KeptSplit(g, op, m0.c, i);
    TakenAgree(g, op, opL, Inorder(m0.c, LeftOf(i)));
    TakenAgree(g, op, opR, Inorder(m0.c, RightOf(i)));
  }

  lemma {:induction false} RightEnd(g: Config, op: Op, opL: Op, opR: Op, taken: bool, m0: Mem, m3: Mem, m4: Mem, i: nat)
    requires Live(m0.c, i) && UsesMin(op) && UsesMin(opR) && UsesMax(opR)
    requires Settled(g, true, m0, m3, i,
                     Kept(g, opL, Inorder(m0.c, LeftOf(i))) + if taken then [] else At(m0.c, i))
    requires Open(m3.smin) > 0 ==> !Live(m3.c, i)
    requires taken == Hit(g, op, m0.c[i].node.item.key)
    requires forall x :: x in Inorder(m0.c, LeftOf(i)) ==> Hit(g, op, x.key) == Hit(g, opL, x.key)
    requires forall x :: x in Inorder(m0.c, RightOf(i)) ==> Hit(g, op, x.key) == Hit(g, opR, x.key)
    requires WentRight(g, opR, !Live(m3.c, i), m3, m4, i)
    ensures Turned(g, true, m0, m4, i, Kept(g, op, Inorder(m0.c, i)))
    ensures SlotsOk(m4, i) && Open(m4.smax) <= Open(m0.smax)
  {
    KeptAll(g, op, opL, opR, taken, m0, i);
    AfterRight(g, opR, !Live(m3.c, i), m0, m3, m4, i,
               Kept(g, opL, Inorder(m0.c, LeftOf(i))) + if taken then [] else At(m0.c, i));
  }

  /** If a max slot is open, node `i` goes there, and the left subtree is next. */
  lemma {:induction false} MaxStep(g: Config, min: bool, m0: Mem, m4: Mem, i: nat, keep: seq<Item>)
    requires Turned(g, min, m0, m4, i, keep)
    ensures var m5 := MaybeToMax(m4, i);
            && (!Live(m5.c, i) ==> LeftReady(g, FillMax, true, m5, i))
            && Taken(g, FillMax, Inorder(m5.c, LeftOf(i))) == []
    ensures Live(m4.c, i) && Open(m4.smax) > 0 ==>
              !Live(MaybeToMax(m4, i).c, i) && MaybeToMax(m4, i) == ToMax(m4, i)
    ensures !(Live(m4.c, i) && Open(m4.smax) > 0) ==> MaybeToMax(m4, i) == m4
    ensures SlotsOk(m4, i)
  {
    MaxFilled(g, min, m0, m4, MaybeToMax(m4, i), i, keep);
  }

  lemma {:induction false} MaxEnd(g: Config, op: Op, m0: Mem, m4: Mem, m6: Mem, i: nat)
    requires Turned(g, UsesMin(op), m0, m4, i, Kept(g, op, Inorder(m0.c, i))) && UsesMax(op)
    requires var m5 := MaybeToMax(m4, i);
             if Live(m5.c, i) then m6 == m5 else WentLeft(g, FillMax, true, false, m5, m6, i)
    ensures Visited(g, op, m0, m6, i)
    ensures g.augmented ==> KidsExact(m6.c, i)
    ensures Open(m6.smax) >= 0
    ensures Live(MaybeToMax(m4, i).c, i) || !Live(m6.c, i) || Open(m6.smax) == 0
  {
    Finished(g, op, m0, m4, MaybeToMax(m4, i), m6, i);
  }
}
