/** Index arithmetic of the pointer-free tree: the node at index `i` has its
    children at `2i+1` and `2i+2`. */
module HeapIndex {

  function LeftOf(i: nat): nat { 2 * i + 1 }

  function RightOf(i: nat): nat { 2 * i + 2 }

  function ParentOf(i: nat): nat
    requires i > 0
  {
    (i - 1) / 2
  }

  /** `i` lies in the subtree rooted at `r` (which includes `r` itself). */
  ghost predicate Below(r: nat, i: nat)
    decreases i
  {
    i == r || (i > r && Below(r, ParentOf(i)))
  }

  ghost predicate ProperAncestor(a: nat, i: nat) {
    a != i && Below(a, i)
  }

  function Depth(i: nat): nat {
    if i == 0 then 0 else 1 + Depth(ParentOf(i))
  }

  /** How often the path from the root to `i` turns left, and right. */
  function LeftTurns(i: nat): nat {
    if i == 0 then 0
    else LeftTurns(ParentOf(i)) + if i == LeftOf(ParentOf(i)) then 1 else 0
  }

  function RightTurns(i: nat): nat {
    if i == 0 then 0
    else RightTurns(ParentOf(i)) + if i == LeftOf(ParentOf(i)) then 0 else 1
  }

  lemma {:induction false} TurnsOfKids(i: nat)
    ensures LeftTurns(LeftOf(i)) == LeftTurns(i) + 1 && RightTurns(LeftOf(i)) == RightTurns(i)
    ensures LeftTurns(RightOf(i)) == LeftTurns(i) && RightTurns(RightOf(i)) == RightTurns(i) + 1
  {
    assert ParentOf(LeftOf(i)) == i && ParentOf(RightOf(i)) == i;
  }

  lemma {:induction false} TurnsAreDepth(i: nat)
    ensures LeftTurns(i) + RightTurns(i) == Depth(i) <= i
  {
    if i > 0 {
      TurnsAreDepth(ParentOf(i));
    }
  }

  lemma {:induction false} TurnsBelow(a: nat, i: nat)
    requires Below(a, i)
    ensures LeftTurns(a) <= LeftTurns(i) && RightTurns(a) <= RightTurns(i)
    decreases i
  {
    if i != a {
      TurnsBelow(a, ParentOf(i));
    }
  }

  /** A subtree is its root and two disjoint child subtrees. */
  lemma {:induction false} BelowSplit(r: nat, i: nat)
    ensures Below(r, i) <==> i == r || Below(LeftOf(r), i) || Below(RightOf(r), i)
    ensures !(Below(LeftOf(r), i) && Below(RightOf(r), i))
    ensures Below(LeftOf(r), i) || Below(RightOf(r), i) ==> i > r
    decreases i
  {
    if i > r && i != LeftOf(r) && i != RightOf(r) {
      BelowSplit(r, ParentOf(i));
    }
  }

  lemma {:induction false} BelowKids(r: nat)
    ensures forall i: nat :: Below(r, i) <==> i == r || Below(LeftOf(r), i) || Below(RightOf(r), i)
    ensures forall i: nat :: !(Below(LeftOf(r), i) && Below(RightOf(r), i))
    ensures forall i: nat :: Below(LeftOf(r), i) || Below(RightOf(r), i) ==> i > r
  {
    forall i: nat {
      BelowSplit(r, i);
    }
  }

  lemma {:induction false} BelowRoot(i: nat)
    ensures Below(0, i)
  {
    if i > 0 {
      BelowRoot(ParentOf(i));
    }
  }
}
