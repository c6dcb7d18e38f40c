/** The two routines that only fill slots. */
module BulkFill {
  import opened HeapIndex
  import opened Items
  import opened Cells
  import opened Memory
  import opened BulkSpec
  import opened BulkSteps
  import opened BulkJoins
  import opened BulkRoutines

  lemma {:induction false} FillMinStart(g: Config, m0: Mem, i: nat)
    requires Ready(g, FillMin, m0, i)
    ensures LeftReady(g, FillMin, false, m0, i)
    ensures Taken(g, FillMin, Inorder(m0.c, LeftOf(i))) == []
    ensures !Live(m0.c, LeftOf(i)) ==> WentLeft(g, FillMin, false, false, m0, m0, i)
  {
    NoneTaken(g, FillMin, Inorder(m0.c, LeftOf(i)));
    if !Live(m0.c, LeftOf(i)) {
      WentLeftNowhere(g, FillMin, false, m0, i);
    }
  }

  lemma {:induction false} FillMinLeft(g: Config, m0: Mem, m1: Mem, i: nat)
    requires Ready(g, FillMin, m0, i)
    requires WentLeft(g, FillMin, false, false, m0, m1, i)
    ensures Reached(g, m0, m1, i) && Live(m1.c, i) && SlotsOk(m1, i) && m1.smax == m0.smax
    ensures Total(m0, m1, i) == Inorder(m0.c, i)
    ensures Open(m1.smin) > 0 ==> Inorder(m1.c, LeftOf(i)) == []
  {
    NothingDone(g, FillMin, m0, i);
    NoneTaken(g, FillMin, Inorder(m0.c, LeftOf(i)));
    AfterLeft(g, FillMin, false, m0, m1, i);
    NoNewSlots(m0, m1);
    LeftPartTotal(m0, m1, i);
  }

  lemma {:induction false} FillMinMiddle(g: Config, m0: Mem, m1: Mem, i: nat)
    requires Ready(g, FillMin, m0, i)
    requires WentLeft(g, FillMin, false, false, m0, m1, i)
    ensures SlotsOk(m1, i) && Live(m1.c, i) && Open(m1.smin) >= 0
    ensures Open(m1.smin) == 0 ==> Visited(g, FillMin, m0, m1, i) && (g.augmented ==> KidsExact(m1.c, i))
    ensures Open(m1.smin) > 0 ==>
              RightReady(g, FillMin, true, ToMin(m1, i), i)
              && Taken(g, FillMin, Inorder(ToMin(m1, i).c, RightOf(i))) == []
  {
    FillMinLeft(g, m0, m1, i);
    if Open(m1.smin) > 0 {
      ToMinStep(m1, i);
      SlotsKept(m1, ToMin(m1, i), i);
      NoneTaken(g, FillMin, Inorder(ToMin(m1, i).c, RightOf(i)));
    } else {
      NoneTaken(g, FillMin, Inorder(m0.c, i));
    }
  }

  lemma {:induction false} FillMinEnd(g: Config, m0: Mem, m1: Mem, m3: Mem, i: nat)
    requires Ready(g, FillMin, m0, i)
    requires WentLeft(g, FillMin, false, false, m0, m1, i) && Open(m1.smin) > 0
    requires WentRight(g, FillMin, true, ToMin(m1, i), m3, i)
    ensures Visited(g, FillMin, m0, m3, i)
    ensures g.augmented ==> KidsExact(m3.c, i)
    ensures Open(m3.smin) >= 0 && (Live(m3.c, i) ==> Open(m3.smin) == 0)
  {
    FillMinLeft(g, m0, m1, i);
    NoneTaken(g, FillMin, Inorder(m0.c, i));
    MinTail(g, m0, m1, ToMin(m1, i), m3, i);
  }

  lemma {:induction false} FillMaxStart(g: Config, m0: Mem, i: nat)
    requires Ready(g, FillMax, m0, i)
    ensures RightReady(g, FillMax, false, m0, i)
    ensures Taken(g, FillMax, Inorder(m0.c, RightOf(i))) == []
    ensures !Live(m0.c, RightOf(i)) ==> WentRight(g, FillMax, false, m0, m0, i)
  {
    NoneTaken(g, FillMax, Inorder(m0.c, RightOf(i)));
    if !Live(m0.c, RightOf(i)) {
      WentRightNowhere(g, FillMax, false, m0, i);
    }
  }

  lemma {:induction false} FillMaxTurned(g: Config, m0: Mem, m1: Mem, i: nat)
    requires Ready(g, FillMax, m0, i)
    requires WentRight(g, FillMax, false, m0, m1, i)
    ensures Turned(g, false, m0, m1, i, Kept(g, FillMax, Inorder(m0.c, i)))
    ensures Live(m1.c, i)
  {
    hide SlotsOk, Outside, Newly, Tidy, Exact, Kept;
    NothingDone(g, FillMax, m0, i);
    NoneTaken(g, FillMax, Inorder(m0.c, i));
    NoneTaken(g, FillMax, Inorder(m0.c, RightOf(i)));
    AfterRight(g, FillMax, false, m0, m0, m1, i, Inorder(m0.c, LeftOf(i)) + At(m0.c, i));
  }

  lemma {:induction false} FillMaxMiddle(g: Config, m0: Mem, m1: Mem, i: nat)
    requires Ready(g, FillMax, m0, i)
    requires WentRight(g, FillMax, false, m0, m1, i)
    ensures SlotsOk(m1, i) && Live(m1.c, i) && Open(m1.smax) >= 0
    ensures Open(m1.smax) == 0 ==> Visited(g, FillMax, m0, m1, i) && (g.augmented ==> KidsExact(m1.c, i))
    ensures Open(m1.smax) > 0 ==>
              LeftReady(g, FillMax, true, ToMax(m1, i), i)
              && Taken(g, FillMax, Inorder(ToMax(m1, i).c, LeftOf(i))) == []
  {
    FillMaxTurned(g, m0, m1, i);
    MaxStep(g, false, m0, m1, i, Kept(g, FillMax, Inorder(m0.c, i)));
    if Open(m1.smax) == 0 {
      MaxEnd(g, FillMax, m0, m1, m1, i);
    }
  }

  lemma {:induction false} FillMaxEnd(g: Config, m0: Mem, m1: Mem, m3: Mem, i: nat)
    requires Ready(g, FillMax, m0, i)
    requires WentRight(g, FillMax, false, m0, m1, i) && Open(m1.smax) > 0
    requires WentLeft(g, FillMax, true, false, ToMax(m1, i), m3, i)
    ensures Visited(g, FillMax, m0, m3, i)
    ensures g.augmented ==> KidsExact(m3.c, i)
    ensures Open(m3.smax) >= 0 && (Live(m3.c, i) ==> Open(m3.smax) == 0)
  {
    FillMaxTurned(g, m0, m1, i);
    MaxStep(g, false, m0, m1, i, Kept(g, FillMax, Inorder(m0.c, i)));
    MaxEnd(g, FillMax, m0, m1, m3, i);
  }
}
