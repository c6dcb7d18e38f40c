/** The shared contract of the bulk routines, read slot by slot. */
module BulkResults {
  import opened HeapIndex
  import opened Items
  import opened Cells
  import opened Memory
  import opened BulkSpec

  ghost function Reversed(s: seq<Item>): (r: seq<Item>)
    ensures |r| == |s|
  {
    seq(|s|, i requires 0 <= i < |s| => s[|s| - 1 - i])
  }

  ghost predicate AllLive(c: seq<Cell>, s: seq<nat>) {
    forall t :: 0 <= t < |s| ==> s[t] < |c| && c[s[t]].live
  }

  lemma {:induction false} GatherAt(c: seq<Cell>, s: seq<nat>)
    requires AllLive(c, s)
    ensures |Gather(c, s)| == |s|
    ensures forall t :: 0 <= t < |s| ==> Gather(c, s)[t] == c[s[t]].node.item
  {
    if s != [] {
      GatherAt(c, s[1..]);
      assert Gather(c, s) == [c[s[0]].node.item] + Gather(c, s[1..]);
    }
  }

  lemma {:induction false} GatherRevAt(c: seq<Cell>, s: seq<nat>)
    requires AllLive(c, s)
    ensures GatherRev(c, s) == Reversed(Gather(c, s))
  {
    if s != [] {
      GatherRevAt(c, s[1..]);
      var x, k := c[s[0]].node.item, Gather(c, s[1..]);
      assert Gather(c, s) == [x] + k;
      assert Reversed([x] + k) == Reversed(k) + [x];
    }
  }

  /** How many of `n` items the open slots of a stack take, if the routine fills them. */
  ghost function Served(fills: bool, s: Slots, n: nat): nat
    requires WfSlots(s)
  {
    if !fills then 0 else if Open(s) <= n then Open(s) else n
  }

  /** The slots filled hold the items of `k`, the bottommost open one the first. */
  ghost predicate FilledWith(c: seq<Cell>, s: Slots, k: seq<Item>) {
    && s.nfilled + |k| <= |s.idx|
    && forall t :: 0 <= t < |k| ==> At(c, s.idx[s.nfilled + t]) == [k[t]]
  }

  lemma {:induction false} ReversedTwice(s: seq<Item>)
    ensures Reversed(Reversed(s)) == s
  {
  }

  lemma {:induction false} NewlyAt(c: seq<Cell>, s0: Slots, s1: Slots)
    requires Advanced(s0, s1) && forall i :: i in Newly(s0, s1) ==> Live(c, i)
    ensures var s := Newly(s0, s1);
            && |s| == s1.nfilled - s0.nfilled && AllLive(c, s)
            && (forall t :: 0 <= t < |s| ==> s[t] == s0.idx[s0.nfilled + t])
  {
    var s := Newly(s0, s1);
    assert forall t :: 0 <= t < |s| ==> s[t] in s;
  }

  lemma {:induction false} FilledWithNew(c: seq<Cell>, s0: Slots, s: seq<nat>, k: seq<Item>)
    requires WfSlots(s0) && s0.nfilled + |s| <= |s0.idx| && AllLive(c, s) && |k| == |s|
    requires forall t :: 0 <= t < |s| ==> s[t] == s0.idx[s0.nfilled + t]
    requires forall t :: 0 <= t < |s| ==> k[t] == c[s[t]].node.item
    ensures FilledWith(c, s0, k)
  {
    forall t | 0 <= t < |k|
      ensures At(c, s0.idx[s0.nfilled + t]) == [k[t]]
    {
      assert s[t] == s0.idx[s0.nfilled + t] && c[s[t]].live;
      assert k[t] == c[s[t]].node.item;
    }
  }

  lemma {:induction false} NewlyFilledWith(c: seq<Cell>, s0: Slots, s1: Slots)
    requires Advanced(s0, s1) && forall i :: i in Newly(s0, s1) ==> Live(c, i)
    ensures var n := s1.nfilled - s0.nfilled;
            |Gather(c, Newly(s0, s1))| == n == |GatherRev(c, Newly(s0, s1))|
    ensures FilledWith(c, s0, Gather(c, Newly(s0, s1)))
    ensures FilledWith(c, s0, Reversed(GatherRev(c, Newly(s0, s1))))
  {
    hide Gather, GatherRev, Newly, FilledWith, Reversed, AllLive;
    var s := Newly(s0, s1);
    NewlyAt(c, s0, s1);
    GatherAt(c, s);
    GatherRevAt(c, s);
    ReversedTwice(Gather(c, s));
    FilledWithNew(c, s0, s, Gather(c, s));
  }

  lemma {:induction false} ThreeParts(k: seq<Item>, x: seq<Item>, s: seq<Item>, y: seq<Item>)
    requires x + s + y == k
    ensures |k| == |x| + |s| + |y|
    ensures k[..|x|] == x && k[|x|..|k| - |y|] == s && k[|k| - |y|..] == y
  {
  }

  /** The survivors of a subtree are divided: the first go to the open min slots, the last
      of the others to the open max slots, and the rest stays in order. */
  lemma {:induction false} Divided(g: Config, op: Op, m0: Mem, m1: Mem, i: nat)
    requires WfMem(m0) && Visited(g, op, m0, m1, i)
    ensures var k := Kept(g, op, Inorder(m0.c, i));
            var a := Served(UsesMin(op), m0.smin, |k|);
            var b := Served(UsesMax(op), m0.smax, |k| - a);
            && m1.smin == Slots(m0.smin.idx, m0.smin.nfilled + a)
            && m1.smax == Slots(m0.smax.idx, m0.smax.nfilled + b)
            && FilledWith(m1.c, m0.smin, k[..a])
            && Inorder(m1.c, i) == k[a..|k| - b]
            && FilledWith(m1.c, m0.smax, Reversed(k[|k| - b..]))
  {
    hide Inorder, Kept, Tidy, FilledWith, Gather, GatherRev, Reversed, Newly;
    NewlyFilledWith(m1.c, m0.smin, m1.smin);
    NewlyFilledWith(m1.c, m0.smax, m1.smax);
    ThreeParts(Kept(g, op, Inorder(m0.c, i)), NewMin(m0, m1), Inorder(m1.c, i), NewMax(m0, m1));
  }

  /** Routines that only fill slots keep every item, and leave a slot open only if the
      subtree has run empty. */
  lemma {:induction false} FillersKeepAll(g: Config, op: Op, m0: Mem, m1: Mem, i: nat)
    requires WfMem(m0) && Visited(g, op, m0, m1, i) && (op == FillMin || op == FillMax)
    ensures Kept(g, op, Inorder(m0.c, i)) == Inorder(m0.c, i)
    ensures var left := if op == FillMin then m1.smin else m1.smax;
            Open(left) > 0 ==> Inorder(m1.c, i) == [] && !Live(m1.c, i)
  {
    NoneTaken(g, op, Inorder(m0.c, i));
    if Inorder(m1.c, i) == [] {
      EmptyIsNil(m1.c, i);
    }
  }
}
