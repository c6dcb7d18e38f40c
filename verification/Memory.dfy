/** The part of the state that a bulk delete works on: the cells and the two
    stacks of slots.  A slot names an ancestor cell waiting for a replacement. */
module Memory {
  import opened HeapIndex
  import opened Items
  import opened Cells

  /** The slots pushed so far, of which the first `nfilled` count as filled. */
  datatype Slots = Slots(idx: seq<nat>, nfilled: nat)

  /** The greatest number of slots that each stack has ever held. */
  datatype Peaks = Peaks(min: nat, max: nat)

  /** `hidden` names the open max slots that count as filled for the time of a left
      descent. */
  datatype Mem = Mem(c: seq<Cell>, smin: Slots, smax: Slots, hidden: set<nat>, peaks: Peaks)

  ghost predicate WfSlots(s: Slots) {
    s.nfilled <= |s.idx|
  }

  ghost predicate WfMem(m: Mem) {
    && WfSlots(m.smin) && WfSlots(m.smax)
    && |m.smin.idx| <= m.peaks.min && |m.smax.idx| <= m.peaks.max
  }

  /** No slots, and none hidden. */
  ghost predicate Quiet(m: Mem) {
    m.smin == m.smax == Slots([], 0) && m.hidden == {}
  }

  ghost function Open(s: Slots): int {
    |s.idx| - s.nfilled
  }

  /** One after the other, the items in the cells named by `s`. */
  ghost function Gather(c: seq<Cell>, s: seq<nat>): seq<Item> {
    if s == [] then [] else At(c, s[0]) + Gather(c, s[1..])
  }

  /** The same, last cell first. */
  ghost function GatherRev(c: seq<Cell>, s: seq<nat>): seq<Item> {
    if s == [] then [] else GatherRev(c, s[1..]) + At(c, s[0])
  }

  lemma {:induction false} GatherConcat(c: seq<Cell>, s: seq<nat>, t: seq<nat>)
    ensures Gather(c, s + t) == Gather(c, s) + Gather(c, t)
  {
    if s == [] {
      assert s + t == t;
    } else {
      assert (s + t)[0] == s[0] && (s + t)[1..] == s[1..] + t;
      GatherConcat(c, s[1..], t);
    }
  }

  lemma {:induction false} GatherRevConcat(c: seq<Cell>, s: seq<nat>, t: seq<nat>)
    ensures GatherRev(c, s + t) == GatherRev(c, t) + GatherRev(c, s)
  {
    if s == [] {
      assert s + t == t;
    } else {
      assert (s + t)[0] == s[0] && (s + t)[1..] == s[1..] + t;
      GatherRevConcat(c, s[1..], t);
    }
  }

  lemma {:induction false} GatherSnoc(c: seq<Cell>, s: seq<nat>, i: nat)
    ensures Gather(c, s + [i]) == Gather(c, s) + At(c, i)
    ensures GatherRev(c, s + [i]) == At(c, i) + GatherRev(c, s)
  {
    GatherConcat(c, s, [i]);
    GatherRevConcat(c, s, [i]);
    assert [i][1..] == [];
  }

  lemma {:induction false} GatherFrame(c0: seq<Cell>, c1: seq<Cell>, s: seq<nat>)
    requires |c0| == |c1|
    requires forall j :: j in s ==> Same(c0, c1, j)
    ensures Gather(c0, s) == Gather(c1, s)
    ensures GatherRev(c0, s) == GatherRev(c1, s)
  {
    if s != [] {
      assert Same(c0, c1, s[0]);
      GatherFrame(c0, c1, s[1..]);
    }
  }

  /** The slots filled on the way from `s0` to `s1`. */
  ghost function Newly(s0: Slots, s1: Slots): seq<nat> {
    if s0.nfilled <= s1.nfilled <= |s0.idx| then s0.idx[s0.nfilled..s1.nfilled] else []
  }

  /** The items that went into min slots between two states, in order: the
      deepest open slot takes the smallest. */
  ghost function NewMin(m0: Mem, m1: Mem): seq<Item> {
    Gather(m1.c, Newly(m0.smin, m1.smin))
  }

  /** The items that went into max slots, in order: the deepest open slot takes
      the largest, so the slots are read from the top. */
  ghost function NewMax(m0: Mem, m1: Mem): seq<Item> {
    GatherRev(m1.c, Newly(m0.smax, m1.smax))
  }

  /** The path from `s` to `i` starts to the left, or to the right. */
  ghost predicate ToTheLeft(s: nat, i: nat) {
    ProperAncestor(s, i) && Below(LeftOf(s), i)
  }

  ghost predicate ToTheRight(s: nat, i: nat) {
    ProperAncestor(s, i) && Below(RightOf(s), i)
  }

  /** Max slots wait while the work is on their left, min slots while it is on their
      right.  The slots are distinct; of each stack a prefix counts as filled.  A slot
      that counts as filled holds a node, unless it is hidden; the others are nil; and
      every nil cell above `i` has a slot. */
  ghost predicate SlotsOk(m: Mem, i: nat) {
    && WfMem(m)
    && (forall s :: s in m.smin.idx ==> ToTheRight(s, i))
    && (forall s :: s in m.smax.idx ==> ToTheLeft(s, i))
    && (forall s :: s in m.smin.idx ==> s !in m.smax.idx)
    && (forall t, u :: 0 <= t < u < |m.smin.idx| ==> m.smin.idx[t] != m.smin.idx[u])
    && (forall t, u :: 0 <= t < u < |m.smax.idx| ==> m.smax.idx[t] != m.smax.idx[u])
    && (forall t :: 0 <= t < |m.smin.idx| ==> (Live(m.c, m.smin.idx[t]) <==> t < m.smin.nfilled))
    && (forall t :: 0 <= t < |m.smax.idx| ==>
          (Live(m.c, m.smax.idx[t]) <==> t < m.smax.nfilled && m.smax.idx[t] !in m.hidden))
    && (forall s :: s in m.hidden ==> s in m.smax.idx[..m.smax.nfilled])
    && (forall a :: ProperAncestor(a, i) && !Live(m.c, a) ==> a in m.smin.idx || a in m.smax.idx)
    && |m.smin.idx| <= RightTurns(i) && |m.smax.idx| <= LeftTurns(i)
    && i < |m.c|
  }

  /** A slot that waits for a node: not yet filled, whether it counts as filled or not. */
  ghost predicate Waiting(m: Mem, s: nat) {
    || (exists t :: m.smin.nfilled <= t < |m.smin.idx| && m.smin.idx[t] == s)
    || (exists t :: m.smax.nfilled <= t < |m.smax.idx| && m.smax.idx[t] == s)
    || s in m.hidden
  }

  /** The waiting slots are exactly the nil cells above `i`, no others. */
  lemma {:induction false} WaitingIsNil(m: Mem, i: nat, s: nat)
    requires SlotsOk(m, i)
    ensures Waiting(m, s) <==> ProperAncestor(s, i) && !Live(m.c, s)
  {
    if Waiting(m, s) {
      if s in m.hidden {
        var t :| 0 <= t < m.smax.nfilled && m.smax.idx[t] == s;
        assert s in m.smax.idx;
      } else if t :| m.smin.nfilled <= t < |m.smin.idx| && m.smin.idx[t] == s {
        assert s in m.smin.idx;
      } else {
        assert s in m.smax.idx;
      }
    }
    if ProperAncestor(s, i) && !Live(m.c, s) {
      if s in m.smin.idx {
        var t :| 0 <= t < |m.smin.idx| && m.smin.idx[t] == s;
        assert m.smin.nfilled <= t;
      } else {
        var t :| 0 <= t < |m.smax.idx| && m.smax.idx[t] == s;
        assert m.smax.nfilled <= t || s in m.hidden;
      }
    }
  }

  /** There are never more slots than levels above `i`. */
  lemma {:induction false} SlotsWithinDepth(m: Mem, i: nat)
    requires SlotsOk(m, i)
    ensures |m.smin.idx| + |m.smax.idx| <= Depth(i)
  {
    TurnsAreDepth(i);
  }

  //---- how high the stacks grow -----------------------------------------------------------

  ghost predicate TurnsWithin(c: seq<Cell>, b: nat) {
    forall j: nat :: Live(c, j) ==> LeftTurns(j) <= b && RightTurns(j) <= b
  }

  /** Stacks of capacity `b` were enough so far, and are enough to enter any live node. */
  ghost predicate Within(m: Mem, b: nat) {
    m.peaks.min <= b && m.peaks.max <= b && TurnsWithin(m.c, b)
  }

  /** Nothing that happens between the two states outgrows stacks that were enough. */
  ghost predicate StaysWithin(m0: Mem, m1: Mem) {
    && m0.peaks.min <= m1.peaks.min && m0.peaks.max <= m1.peaks.max
    && forall b :: Within(m0, b) ==> Within(m1, b)
  }

  /** Every node above `i` waits on its stack. */
  ghost predicate AllWait(m: Mem, i: nat) {
    |m.smin.idx| == RightTurns(i) && |m.smax.idx| == LeftTurns(i)
  }

  /** The stacks have been as high as the turns to any node that was live below `i`. */
  ghost predicate Climbed(c: seq<Cell>, m: Mem, i: nat) {
    forall j: nat :: Below(i, j) && Live(c, j) ==> LeftTurns(j) <= m.peaks.max && RightTurns(j) <= m.peaks.min
  }

  ghost predicate Advanced(s0: Slots, s1: Slots) {
    s1.idx == s0.idx && s0.nfilled <= s1.nfilled <= |s0.idx|
  }

  /** Outside the subtree at `i`, all that happened between the two states is that
      some open slots were filled. */
  ghost predicate Outside(m0: Mem, m1: Mem, i: nat) {
    && |m1.c| == |m0.c|
    && Advanced(m0.smin, m1.smin)
    && Advanced(m0.smax, m1.smax)
    && m1.hidden == m0.hidden && StaysWithin(m0, m1)
    && (forall s :: s in Newly(m0.smin, m1.smin) ==> Live(m1.c, s))
    && (forall s :: s in Newly(m0.smax, m1.smax) ==> Live(m1.c, s))
    && (forall j :: !Below(i, j) && j !in Newly(m0.smin, m1.smin) && j !in Newly(m0.smax, m1.smax)
          ==> Same(m0.c, m1.c, j))
  }

  lemma {:induction false} ProperAncestorIsSmaller(a: nat, i: nat)
    requires ProperAncestor(a, i)
    ensures a < i && !Below(i, a)
  {
  }

  lemma {:induction false} NewlySplit(s0: Slots, s1: Slots, s2: Slots)
    requires Advanced(s0, s1) && Advanced(s1, s2)
    ensures Newly(s0, s2) == Newly(s0, s1) + Newly(s1, s2)
  {
  }

  /** Nothing done after a slot is filled touches it again. */
  lemma {:induction false} NewlyKept(m0: Mem, m1: Mem, m2: Mem, i: nat)
    requires SlotsOk(m0, i) && Outside(m0, m1, i) && Outside(m1, m2, i)
    ensures forall s :: s in Newly(m0.smin, m1.smin) ==> Same(m1.c, m2.c, s)
    ensures forall s :: s in Newly(m0.smax, m1.smax) ==> Same(m1.c, m2.c, s)
  {
    forall s | s in Newly(m0.smin, m1.smin)
      ensures Same(m1.c, m2.c, s)
    {
      assert s in m0.smin.idx;
      assert s !in Newly(m1.smin, m2.smin);
      ProperAncestorIsSmaller(s, i);
    }
    forall s | s in Newly(m0.smax, m1.smax)
      ensures Same(m1.c, m2.c, s)
    {
      assert s in m0.smax.idx;
      assert s !in Newly(m1.smax, m2.smax);
      ProperAncestorIsSmaller(s, i);
    }
  }

  /** Two steps in a row, seen from outside, are one step, and the items that went
      into slots add up. */
  lemma {:induction false} OutsideTrans(m0: Mem, m1: Mem, m2: Mem, i: nat)
    requires SlotsOk(m0, i) && Outside(m0, m1, i) && Outside(m1, m2, i)
    ensures Outside(m0, m2, i)
    ensures NewMin(m0, m2) == NewMin(m0, m1) + NewMin(m1, m2)
    ensures NewMax(m0, m2) == NewMax(m1, m2) + NewMax(m0, m1)
  {
    NewlySplit(m0.smin, m1.smin, m2.smin);
    NewlySplit(m0.smax, m1.smax, m2.smax);
    NewlyKept(m0, m1, m2, i);
    GatherConcat(m2.c, Newly(m0.smin, m1.smin), Newly(m1.smin, m2.smin));
    GatherRevConcat(m2.c, Newly(m0.smax, m1.smax), Newly(m1.smax, m2.smax));
    GatherFrame(m1.c, m2.c, Newly(m0.smin, m1.smin));
    GatherFrame(m1.c, m2.c, Newly(m0.smax, m1.smax));
    forall s | s in Newly(m0.smin, m1.smin) + Newly(m0.smax, m1.smax)
      ensures Live(m2.c, s)
    {
      assert Same(m1.c, m2.c, s);
    }
    forall j | !Below(i, j) && j !in Newly(m0.smin, m2.smin) && j !in Newly(m0.smax, m2.smax)
      ensures Same(m0.c, m2.c, j)
    {
      assert Same(m0.c, m1.c, j) && Same(m1.c, m2.c, j);
    }
  }

  /** A slot that was not filled on the way is as it was. */
  lemma {:induction false} SlotSame(m0: Mem, m1: Mem, i: nat, s: nat)
    requires SlotsOk(m0, i) && Outside(m0, m1, i)
    requires ProperAncestor(s, i) && s !in Newly(m0.smin, m1.smin) && s !in Newly(m0.smax, m1.smax)
    ensures Live(m1.c, s) == Live(m0.c, s)
  {
    ProperAncestorIsSmaller(s, i);
    assert Same(m0.c, m1.c, s);
  }

  lemma {:induction false} MinSlotsKept(m0: Mem, m1: Mem, i: nat, t: nat)
    requires SlotsOk(m0, i) && Outside(m0, m1, i) && t < |m1.smin.idx|
    ensures Live(m1.c, m1.smin.idx[t]) <==> t < m1.smin.nfilled
  {
    var s := m0.smin.idx[t];
    assert s in m0.smin.idx && s !in Newly(m0.smax, m1.smax);
    if m0.smin.nfilled <= t < m1.smin.nfilled {
      assert s == Newly(m0.smin, m1.smin)[t - m0.smin.nfilled];
    } else {
      assert s !in Newly(m0.smin, m1.smin);
      SlotSame(m0, m1, i, s);
    }
  }

  lemma {:induction false} MaxSlotsKept(m0: Mem, m1: Mem, i: nat, t: nat)
    requires SlotsOk(m0, i) && Outside(m0, m1, i) && t < |m1.smax.idx|
    ensures Live(m1.c, m1.smax.idx[t]) <==> t < m1.smax.nfilled && m1.smax.idx[t] !in m1.hidden
  {
    var s := m0.smax.idx[t];
    assert s in m0.smax.idx && s !in Newly(m0.smin, m1.smin);
    if m0.smax.nfilled <= t < m1.smax.nfilled {
      assert s == Newly(m0.smax, m1.smax)[t - m0.smax.nfilled];
      assert s !in m0.smax.idx[..m0.smax.nfilled];
    } else {
      assert s !in Newly(m0.smax, m1.smax);
      SlotSame(m0, m1, i, s);
    }
  }

  /** The slots stay in order whatever happens in the subtree at `i`. */
  lemma {:induction false} SlotsKept(m0: Mem, m1: Mem, i: nat)
    requires SlotsOk(m0, i) && Outside(m0, m1, i)
    ensures SlotsOk(m1, i)
  {
    forall t | 0 <= t < |m1.smin.idx|
      ensures Live(m1.c, m1.smin.idx[t]) <==> t < m1.smin.nfilled
    {
      MinSlotsKept(m0, m1, i, t);
    }
    forall t | 0 <= t < |m1.smax.idx|
      ensures Live(m1.c, m1.smax.idx[t]) <==> t < m1.smax.nfilled && m1.smax.idx[t] !in m1.hidden
    {
      MaxSlotsKept(m0, m1, i, t);
    }
    forall a | ProperAncestor(a, i) && !Live(m1.c, a)
      ensures a in m1.smin.idx || a in m1.smax.idx
    {
      if a !in Newly(m0.smin, m1.smin) && a !in Newly(m0.smax, m1.smax) {
        SlotSame(m0, m1, i, a);
      }
    }
    forall s | s in m1.hidden
      ensures s in m1.smax.idx[..m1.smax.nfilled]
    {
      var t :| 0 <= t < m0.smax.nfilled && m0.smax.idx[..m0.smax.nfilled][t] == s;
      assert m1.smax.idx[..m1.smax.nfilled][t] == s;
    }
  }
}
