/** The steps of a bulk delete, one at a time: what taking a node, filling a slot and
    descending into a child do to the state seen from node `i`. */
module BulkSteps {
  import opened HeapIndex
  import opened Items
  import opened Cells
  import opened Memory
  import opened BulkSpec

  lemma {:induction false} NoNewSlots(m0: Mem, m1: Mem)
    ensures m1.smin == m0.smin ==> NewMin(m0, m1) == []
    ensures m1.smax == m0.smax ==> NewMax(m0, m1) == []
  {
  }

  /** Every slot that was filled shows up with an item. */
  lemma {:induction false} NothingNew(m0: Mem, m1: Mem, i: nat)
    requires Outside(m0, m1, i)
    ensures NewMin(m0, m1) == [] ==> m1.smin == m0.smin
    ensures NewMax(m0, m1) == [] ==> m1.smax == m0.smax
  {
    var s, t := Newly(m0.smin, m1.smin), Newly(m0.smax, m1.smax);
    if s != [] {
      assert s[0] in s;
    }
    if t != [] {
      assert t[0] in t;
    }
  }

  lemma {:induction false} KidsUntouched(c0: seq<Cell>, c1: seq<Cell>, i: nat)
    requires |c0| == |c1|
    requires forall j :: Below(LeftOf(i), j) || Below(RightOf(i), j) ==> Same(c0, c1, j)
    ensures Untouched(c0, c1, LeftOf(i)) && Untouched(c0, c1, RightOf(i))
  {
    Frame(c0, c1, LeftOf(i));
    Frame(c0, c1, RightOf(i));
  }

  //---- how high the stacks grow -----------------------------------------------------------

  lemma {:induction false} FewerLive(m0: Mem, m1: Mem)
    requires m1.peaks == m0.peaks && forall j: nat :: Live(m1.c, j) ==> Live(m0.c, j)
    ensures StaysWithin(m0, m1)
  {
    forall b | Within(m0, b)
      ensures Within(m1, b)
    {
    }
  }

  /** A node that moves up has no more turns than before. */
  lemma {:induction false} MovedUp(m0: Mem, m1: Mem, src: nat, dst: nat)
    requires m1.peaks == m0.peaks && m1.c == MovedCell(m0.c, src, dst)
    requires Live(m0.c, src) && Below(dst, src)
    ensures StaysWithin(m0, m1)
  {
    TurnsBelow(dst, src);
    forall b | Within(m0, b)
      ensures Within(m1, b)
    {
      forall j: nat | Live(m1.c, j)
        ensures LeftTurns(j) <= b && RightTurns(j) <= b
      {
        if j != dst {
          assert Live(m0.c, j);
        }
      }
    }
  }

  /** A push on the way to a live child stays within what is enough for the child. */
  lemma {:induction false} PushWithin(m: Mem, i: nat)
    requires SlotsOk(m, i)
    ensures Live(m.c, LeftOf(i)) ==> StaysWithin(m, PushMax(m, i))
    ensures Live(m.c, RightOf(i)) ==> StaysWithin(m, PushMin(m, i))
  {
    TurnsOfKids(i);
    forall b | Within(m, b)
      ensures Live(m.c, LeftOf(i)) ==> Within(PushMax(m, i), b)
      ensures Live(m.c, RightOf(i)) ==> Within(PushMin(m, i), b)
    {
    }
  }

  lemma {:induction false} StaysItself(m: Mem)
    ensures StaysWithin(m, m)
  {
  }

  lemma {:induction false} StaysWithinTrans(m0: Mem, m1: Mem, m2: Mem)
    requires StaysWithin(m0, m1) && StaysWithin(m1, m2)
    ensures StaysWithin(m0, m2)
  {
  }

  lemma {:induction false} TakeStep(m: Mem, i: nat)
    requires SlotsOk(m, i) && Live(m.c, i)
    ensures var m' := Take(m, i);
            && Outside(m, m', i) && NewMin(m, m') == [] && NewMax(m, m') == []
            && Untouched(m.c, m'.c, LeftOf(i)) && Untouched(m.c, m'.c, RightOf(i))
            && !Live(m'.c, i)
  {
    BelowKids(i);
    KidsUntouched(m.c, Take(m, i).c, i);
    FewerLive(m, Take(m, i));
  }

  lemma {:induction false} ToMinStep(m: Mem, i: nat)
    requires SlotsOk(m, i) && Live(m.c, i) && Open(m.smin) > 0
    ensures var m' := ToMin(m, i);
            && Outside(m, m', i) && NewMin(m, m') == At(m.c, i) && NewMax(m, m') == []
            && Untouched(m.c, m'.c, LeftOf(i)) && Untouched(m.c, m'.c, RightOf(i))
            && !Live(m'.c, i) && m'.c[i].node == m.c[i].node
  {
    var m' := ToMin(m, i);
    var d := m.smin.idx[m.smin.nfilled];
    assert d in m.smin.idx;
    ProperAncestorIsSmaller(d, i);
    assert Newly(m.smin, m'.smin) == [d];
    assert Gather(m'.c, [d]) == At(m'.c, d) + Gather(m'.c, []);
    MovedUp(m, m', i, d);
    BelowKids(i);
    KidsUntouched(m.c, m'.c, i);
  }

  lemma {:induction false} ToMaxStep(m: Mem, i: nat)
    requires SlotsOk(m, i) && Live(m.c, i) && Open(m.smax) > 0
    ensures var m' := ToMax(m, i);
            && Outside(m, m', i) && NewMin(m, m') == [] && NewMax(m, m') == At(m.c, i)
            && Untouched(m.c, m'.c, LeftOf(i)) && Untouched(m.c, m'.c, RightOf(i))
            && !Live(m'.c, i) && m'.c[i].node == m.c[i].node
  {
    var m' := ToMax(m, i);
    var d := m.smax.idx[m.smax.nfilled];
    assert d in m.smax.idx;
    ProperAncestorIsSmaller(d, i);
    assert Newly(m.smax, m'.smax) == [d];
    assert GatherRev(m'.c, [d]) == GatherRev(m'.c, []) + At(m'.c, d);
    MovedUp(m, m', i, d);
    BelowKids(i);
    KidsUntouched(m.c, m'.c, i);
  }

  lemma {:induction false} AncestorsOfChild(i: nat, child: nat)
    requires child == LeftOf(i) || child == RightOf(i)
    ensures Depth(child) == Depth(i) + 1
    ensures forall a :: ProperAncestor(a, child) <==> a == i || ProperAncestor(a, i)
  {
    assert ParentOf(child) == i;
    forall a: nat
      ensures ProperAncestor(a, child) <==> a == i || ProperAncestor(a, i)
    {
      assert Below(a, child) <==> child == a || (child > a && Below(a, i));
    }
  }

  lemma {:induction false} PushedDistinct(s: seq<nat>, i: nat)
    requires i !in s && forall t, u :: 0 <= t < u < |s| ==> s[t] != s[u]
    ensures forall t, u :: 0 <= t < u < |s + [i]| ==> (s + [i])[t] != (s + [i])[u]
  {
    forall t, u | 0 <= t < u < |s + [i]|
      ensures (s + [i])[t] != (s + [i])[u]
    {
      assert s[t] in s;
    }
  }

  lemma {:induction false} NewlyAreSlots(s0: Slots, s1: Slots)
    ensures forall s :: s in Newly(s0, s1) ==> s in s0.idx
  {
  }

  lemma {:induction false} PushLeftOk(m: Mem, i: nat, slot: bool)
    requires SlotsOk(m, i) && slot == !Live(m.c, i) && LeftOf(i) < |m.c|
    ensures SlotsOk(PushLeft(m, i, slot), LeftOf(i))
  {
    AncestorsOfChild(i, LeftOf(i));
    TurnsOfKids(i);
    assert forall s: nat :: Below(s, i) ==> Below(s, LeftOf(i));
    AboveOnly(m, i);
    if slot {
      PushedDistinct(m.smax.idx, i);
      assert (m.smax.idx + [i])[..m.smax.nfilled] == m.smax.idx[..m.smax.nfilled];
    }
  }

  lemma {:induction false} PushRightOk(m: Mem, i: nat, slot: bool)
    requires SlotsOk(m, i) && slot == !Live(m.c, i) && RightOf(i) < |m.c|
    ensures SlotsOk(PushRight(m, i, slot), RightOf(i))
  {
    AncestorsOfChild(i, RightOf(i));
    TurnsOfKids(i);
    assert forall s: nat :: Below(s, i) ==> Below(s, RightOf(i));
    AboveOnly(m, i);
    if slot {
      PushedDistinct(m.smin.idx, i);
    }
  }

  lemma {:induction false} AboveOnly(m: Mem, i: nat)
    requires SlotsOk(m, i)
    ensures forall j :: j >= i ==> j !in m.smin.idx && j !in m.smax.idx
  {
    forall j: nat | j >= i
      ensures j !in m.smin.idx && j !in m.smax.idx
    {
      assert !ProperAncestor(j, i);
    }
  }

  /** Pushing a slot, filling some and popping it again: the slot that was pushed is
      the last one to be filled. */
  lemma {:induction false} PushAndPop(s0: Slots, v: Slots, i: nat)
    requires WfSlots(s0) && Advanced(PushSlot(s0, i), v)
    ensures Advanced(s0, PopSlot(v))
    ensures Newly(PushSlot(s0, i), v) == Newly(s0, PopSlot(v)) + (if Open(v) == 0 then [i] else [])
    ensures Open(v) == 0 ==> Open(PopSlot(v)) == 0
    ensures Open(v) > 0 ==> Open(PopSlot(v)) == Open(v) - 1
  {
    assert PopSlot(v).idx == s0.idx;
  }

  /** The slot of `i` seen as part of the subtree at `i`. */
  lemma {:induction false} OutsideOfChild(p: Mem, v: Mem, m0: Mem, m1: Mem, i: nat, child: nat)
    requires child == LeftOf(i) || child == RightOf(i)
    requires Outside(p, v, child) && p.c == m0.c && v.c == m1.c
    requires p.hidden == m0.hidden && v.hidden == m1.hidden && v.peaks == m1.peaks && StaysWithin(m0, p)
    requires Advanced(m0.smin, m1.smin) && Advanced(m0.smax, m1.smax)
    requires forall j :: j in Newly(m0.smin, m1.smin) ==> j in Newly(p.smin, v.smin)
    requires forall j :: j in Newly(m0.smax, m1.smax) ==> j in Newly(p.smax, v.smax)
    requires forall j :: j in Newly(p.smin, v.smin) ==> j == i || j in Newly(m0.smin, m1.smin)
    requires forall j :: j in Newly(p.smax, v.smax) ==> j == i || j in Newly(m0.smax, m1.smax)
    ensures Outside(m0, m1, i)
  {
    BelowKids(i);
  }

  /** The slot of `i` on the max stack, pushed for the left subtree and popped. */
  lemma {:induction false} PopMax(p: Mem, v: Mem, m0: Mem, m1: Mem, i: nat)
    requires SlotsOk(m0, i) && !Live(m0.c, i) && Live(m0.c, LeftOf(i))
    requires p == PushLeft(m0, i, true) && Outside(p, v, LeftOf(i)) && m1 == PopLeft(v, true)
    ensures Outside(m0, m1, i)
    ensures NewMin(p, v) == NewMin(m0, m1)
    ensures NewMax(p, v) == At(m1.c, i) + NewMax(m0, m1)
    ensures m1.c[i] == m0.c[i] || Live(m1.c, i)
    ensures Live(m1.c, i) ==> Open(m1.smax) == Open(v.smax) == 0
    ensures !Live(m1.c, i) ==> Open(m1.smax) == Open(v.smax) - 1 >= 0
  {
    PushAndPop(m0.smax, v.smax, i);
    PushWithin(m0, i);
    var outer := Newly(m0.smax, m1.smax);
    OutsideOfChild(p, v, m0, m1, i, LeftOf(i));
    AboveOnly(m0, i);
    if Open(v.smax) == 0 {
      assert i in Newly(p.smax, v.smax);
      GatherSnoc(v.c, outer, i);
    } else {
      assert Newly(p.smax, v.smax) == outer;
      assert Same(p.c, v.c, i);
    }
  }

  lemma {:induction false} PopMin(p: Mem, v: Mem, m0: Mem, m1: Mem, i: nat)
    requires SlotsOk(m0, i) && !Live(m0.c, i) && Live(m0.c, RightOf(i))
    requires p == PushRight(m0, i, true) && Outside(p, v, RightOf(i)) && m1 == PopRight(v, true)
    ensures Outside(m0, m1, i)
    ensures NewMin(p, v) == NewMin(m0, m1) + At(m1.c, i)
    ensures NewMax(p, v) == NewMax(m0, m1)
    ensures m1.c[i] == m0.c[i] || Live(m1.c, i)
    ensures Live(m1.c, i) ==> Open(m1.smin) == Open(v.smin) == 0
    ensures !Live(m1.c, i) ==> Open(m1.smin) == Open(v.smin) - 1 >= 0
  {
    PushAndPop(m0.smin, v.smin, i);
    PushWithin(m0, i);
    var outer := Newly(m0.smin, m1.smin);
    OutsideOfChild(p, v, m0, m1, i, RightOf(i));
    AboveOnly(m0, i);
    if Open(v.smin) == 0 {
      assert i in Newly(p.smin, v.smin);
      GatherSnoc(v.c, outer, i);
    } else {
      assert Newly(p.smin, v.smin) == outer;
      assert Same(p.c, v.c, i);
    }
  }

  /** A visit to one child leaves the other alone. */
  lemma {:induction false} SiblingUntouched(m0: Mem, m1: Mem, i: nat, child: nat, sibling: nat)
    requires SlotsOk(m0, i)
    requires (child == LeftOf(i) && sibling == RightOf(i)) || (child == RightOf(i) && sibling == LeftOf(i))
    requires |m1.c| == |m0.c|
    requires forall j :: j > i && !Below(child, j) ==> Same(m0.c, m1.c, j)
    ensures Untouched(m0.c, m1.c, sibling)
  {
    BelowKids(i);
    Frame(m0.c, m1.c, sibling);
  }

  lemma {:induction false} SlotsAreAbove(p: Mem, v: Mem, i: nat, child: nat)
    requires child == LeftOf(i) || child == RightOf(i)
    requires SlotsOk(p, child) && Outside(p, v, child)
    ensures forall j :: j > i && !Below(child, j) ==> Same(p.c, v.c, j)
  {
    AncestorsOfChild(i, child);
    forall j | j > i && !Below(child, j)
      ensures Same(p.c, v.c, j)
    {
      assert !ProperAncestor(j, child);
      assert j !in p.smin.idx && j !in p.smax.idx;
      assert j !in Newly(p.smin, v.smin) && j !in Newly(p.smax, v.smax);
    }
  }

  lemma {:induction false} WentLeftSibling(g: Config, op: Op, slot: bool, m0: Mem, v: Mem, i: nat)
    requires SlotsOk(m0, i) && slot == !Live(m0.c, i) && LeftOf(i) < |m0.c|
    requires Outside(PushLeft(m0, i, slot), v, LeftOf(i))
    ensures Untouched(m0.c, v.c, RightOf(i))
  {
    PushLeftOk(m0, i, slot);
    SlotsAreAbove(PushLeft(m0, i, slot), v, i, LeftOf(i));
    SiblingUntouched(m0, v, i, LeftOf(i), RightOf(i));
  }

  lemma {:induction false} WentRightSibling(g: Config, op: Op, slot: bool, m0: Mem, v: Mem, i: nat)
    requires SlotsOk(m0, i) && slot == !Live(m0.c, i) && RightOf(i) < |m0.c|
    requires Outside(PushRight(m0, i, slot), v, RightOf(i))
    ensures Untouched(m0.c, v.c, LeftOf(i))
  {
    PushRightOk(m0, i, slot);
    SlotsAreAbove(PushRight(m0, i, slot), v, i, RightOf(i));
    SiblingUntouched(m0, v, i, RightOf(i), LeftOf(i));
  }

  /** With no slot for `i`, what the child's visit did is what the descent did. */
  lemma {:induction false} NoSlot(m0: Mem, v: Mem, i: nat, child: nat)
    requires child == LeftOf(i) || child == RightOf(i)
    requires SlotsOk(m0, i) && Outside(m0, v, child)
    ensures Outside(m0, v, i) && v.c[i] == m0.c[i]
  {
    NotNew(m0, v, i);
    OutsideOfChild(m0, v, m0, v, i, child);
    assert Same(m0.c, v.c, i);
  }

  lemma {:induction false} WentLeftDone(g: Config, op: Op, slot: bool, m0: Mem, v: Mem, i: nat)
    requires SlotsOk(m0, i) && slot == !Live(m0.c, i) && Live(m0.c, LeftOf(i))
    requires slot ==> UsesMax(op)
    requires Visited(g, op, PushLeft(m0, i, slot), v, LeftOf(i))
    requires g.augmented ==> Exact(v.c, LeftOf(i))
    ensures WentLeft(g, op, slot, false, m0, PopLeft(v, slot), i)
  {
    var m1 := PopLeft(v, slot);
    hide Inorder, Tidy, Exact, Kept;
    WentLeftSibling(g, op, slot, m0, v, i);
    TurnsOfKids(i);
    if slot {
      PopMax(PushLeft(m0, i, slot), v, m0, m1, i);
      Assoc(NewMin(m0, m1) + Inorder(m1.c, LeftOf(i)), At(m1.c, i), NewMax(m0, m1));
    } else {
      NoSlot(m0, v, i, LeftOf(i));
      assert NewMin(m0, m1) + Inorder(m1.c, LeftOf(i)) + [] == NewMin(m0, m1) + Inorder(m1.c, LeftOf(i));
    }
  }

  lemma {:induction false} WentRightDone(g: Config, op: Op, slot: bool, m0: Mem, v: Mem, i: nat)
    requires SlotsOk(m0, i) && slot == !Live(m0.c, i) && Live(m0.c, RightOf(i))
    requires slot ==> UsesMin(op)
    requires Visited(g, op, PushRight(m0, i, slot), v, RightOf(i))
    requires g.augmented ==> Exact(v.c, RightOf(i))
    ensures WentRight(g, op, slot, m0, PopRight(v, slot), i)
  {
    var m1 := PopRight(v, slot);
    hide Inorder, Tidy, Exact, Kept;
    WentRightSibling(g, op, slot, m0, v, i);
    TurnsOfKids(i);
    if slot {
      PopMin(PushRight(m0, i, slot), v, m0, m1, i);
    } else {
      NoSlot(m0, v, i, RightOf(i));
      assert NewMin(m0, m1) + [] == NewMin(m0, m1);
    }
  }

  /** A nil child: nothing to do. */
  lemma {:induction false} WentLeftNowhere(g: Config, op: Op, slot: bool, m: Mem, i: nat)
    requires SlotsOk(m, i) && slot == !Live(m.c, i)
    requires Tidy(m.c, LeftOf(i)) && !Live(m.c, LeftOf(i))
    ensures WentLeft(g, op, slot, false, m, m, i)
  {
    NilIsEmpty(m.c, LeftOf(i));
    NoneBelowNil(m.c, LeftOf(i));
    EmptyIsTidy(m.c, LeftOf(i));
    NoNewSlots(m, m);
  }

  lemma {:induction false} WentRightNowhere(g: Config, op: Op, slot: bool, m: Mem, i: nat)
    requires SlotsOk(m, i) && slot == !Live(m.c, i)
    requires Tidy(m.c, RightOf(i)) && !Live(m.c, RightOf(i))
    ensures WentRight(g, op, slot, m, m, i)
  {
    NilIsEmpty(m.c, RightOf(i));
    NoneBelowNil(m.c, RightOf(i));
    EmptyIsTidy(m.c, RightOf(i));
    NoNewSlots(m, m);
  }

  lemma {:induction false} HideOk(m: Mem, i: nat)
    requires SlotsOk(m, i)
    ensures SlotsOk(Hide(m), i) && Hide(m).c == m.c
  {
  }

  /** The max slots are again as they were in `m0`. */
  ghost function Shown(v: Mem, m0: Mem): Mem {
    v.(smax := m0.smax, hidden := m0.hidden)
  }

  /** Hiding the outer max slots for the time of a left descent, and showing them again. */
  lemma {:induction false} WentLeftHidden(g: Config, op: Op, slot: bool, m0: Mem, v: Mem, i: nat)
    requires SlotsOk(m0, i)
    requires WentLeft(g, op, slot, false, Hide(m0), v, i)
    ensures Open(v.smax) == 0 && m0.smax.nfilled <= |v.smax.idx|
    ensures v.(smax := Slots(v.smax.idx, m0.smax.nfilled), hidden := m0.hidden) == Shown(v, m0)
    ensures WentLeft(g, op, slot, true, m0, Shown(v, m0), i)
  {
    hide Inorder, Tidy, Exact, Kept;
    var m1 := Shown(v, m0);
    forall b | Within(m0, b)
      ensures Within(m1, b)
    {
      assert Within(Hide(m0), b);
    }
    assert Newly(m0.smax, m1.smax) == [] && Newly(Hide(m0).smax, v.smax) == [];
    assert NewMin(m0, m1) == NewMin(Hide(m0), v);
    assert NewMax(m0, m1) == NewMax(Hide(m0), v) == [];
    assert Untouched(m0.c, v.c, RightOf(i));
  }

  ghost function WithMaxb(m: Mem, i: nat, b: int): Mem
    requires i < |m.c|
  {
    m.(c := m.c[i := Cell(Node(m.c[i].node.item, b), m.c[i].live)])
  }

  /** Setting the bound of node `i` changes nothing but that bound. */
  lemma {:induction false} WithMaxbKids(m: Mem, i: nat, b: int)
    requires i < |m.c|
    ensures var m' := WithMaxb(m, i, b);
            && Untouched(m.c, m'.c, LeftOf(i)) && Untouched(m.c, m'.c, RightOf(i))
            && At(m'.c, i) == At(m.c, i) && Inorder(m'.c, i) == Inorder(m.c, i)
  {
    BelowKids(i);
    KidsUntouched(m.c, WithMaxb(m, i, b).c, i);
  }

  lemma {:induction false} WithMaxbSlots(m0: Mem, m: Mem, i: nat, b: int)
    requires SlotsOk(m0, i) && Outside(m0, m, i) && i < |m.c|
    ensures var m' := WithMaxb(m, i, b);
            && Outside(m0, m', i) && NewMin(m0, m') == NewMin(m0, m) && NewMax(m0, m') == NewMax(m0, m)
  {
    var m' := WithMaxb(m, i, b);
    NotNew(m0, m, i);
    FewerLive(m, m');
    GatherFrame(m.c, m'.c, Newly(m0.smin, m.smin));
    GatherFrame(m.c, m'.c, Newly(m0.smax, m.smax));
  }

  lemma {:induction false} NotNew(m0: Mem, m: Mem, i: nat)
    requires SlotsOk(m0, i)
    ensures i !in Newly(m0.smin, m.smin) && i !in Newly(m0.smax, m.smax)
  {
    AboveOnly(m0, i);
    NewlyAreSlots(m0.smin, m.smin);
    NewlyAreSlots(m0.smax, m.smax);
  }

  lemma {:induction false} UpdateMaxStep(g: Config, op: Op, m0: Mem, m: Mem, i: nat)
    requires SlotsOk(m0, i) && Visited(g, op, m0, m, i) && KidsExact(m.c, i) && Live(m.c, i)
    ensures var m' := WithMaxb(m, i, LocalMax(m.c, i));
            Visited(g, op, m0, m', i) && Exact(m'.c, i)
  {
    hide SlotsOk, Outside, NewMin, NewMax;
    WithMaxbKids(m, i, LocalMax(m.c, i));
    WithMaxbSlots(m0, m, i, LocalMax(m.c, i));
  }
}
