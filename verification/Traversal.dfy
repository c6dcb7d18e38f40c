/** Stepping through a subtree in order with index arithmetic alone. */
module Traversal {
  import opened HeapIndex
  import opened Items
  import opened Cells

  //---- the enclosing left child ---------------------------------------------------------

  function TrailingZeros(n: nat): nat
    requires n > 0
  {
    if n % 2 == 1 then 0 else 1 + TrailingZeros(n / 2)
  }

  function ShiftRight(n: nat, k: nat): nat {
    if k == 0 then n else ShiftRight(n / 2, k - 1)
  }

  /** The nearest node at or above `idx` that is a left child, or 0.  Argument and
      result are 1-based, so that the children of `n` are `2n` and `2n+1`. */
  function LeftEnclosing(idx: nat): nat {
    if idx % 2 == 0 then idx
    else if (idx / 2) % 2 == 0 then idx / 2
    else ShiftRight(idx, TrailingZeros(idx + 1))
  }

  /** The same, climbing one level at a time. */
  ghost function Enclosing(idx: nat): nat {
    if idx % 2 == 0 then idx else Enclosing(idx / 2)
  }

  lemma {:induction false} ShiftIsClimb(idx: nat)
    ensures ShiftRight(idx, TrailingZeros(idx + 1)) == Enclosing(idx)
  {
    if idx % 2 == 1 {
      assert (idx + 1) / 2 == idx / 2 + 1;
      ShiftIsClimb(idx / 2);
    }
  }

  /** The bit tricks compute the structural notion. */
  lemma {:induction false} LeftEnclosingIsEnclosing(idx: nat)
    ensures LeftEnclosing(idx) == Enclosing(idx)
  {
    ShiftIsClimb(idx);
  }

  lemma {:induction false} EnclosingIsAbove(idx: nat)
    ensures Enclosing(idx) <= idx && Enclosing(idx) % 2 == 0
  {
    if idx % 2 == 1 {
      EnclosingIsAbove(idx / 2);
    }
  }

  lemma {:induction false} EnclosingOfChild(i: nat)
    requires i > 0
    ensures var p := ParentOf(i);
            if i == LeftOf(p) then Enclosing(i + 1) == i + 1
            else i == RightOf(p) && Enclosing(i + 1) == Enclosing(p + 1)
  {
    if i % 2 == 0 {
      assert (i + 1) / 2 == ParentOf(i) + 1;
    }
  }

  //---- a subtree seen from one of its nodes ---------------------------------------------

  /** The items of the subtree at `root` that come before the subtree at `i`. */
  ghost function Before(c: seq<Cell>, root: nat, i: nat): seq<Item>
    requires Below(root, i)
    decreases i
  {
    if i == root then []
    else
      var p := ParentOf(i);
      if i == LeftOf(p) then Before(c, root, p)
      else Before(c, root, p) + (Inorder(c, LeftOf(p)) + At(c, p))
  }

  /** The items that come after it. */
  ghost function After(c: seq<Cell>, root: nat, i: nat): seq<Item>
    requires Below(root, i)
    decreases i
  {
    if i == root then []
    else
      var p := ParentOf(i);
      if i == LeftOf(p) then (At(c, p) + Inorder(c, RightOf(p))) + After(c, root, p)
      else After(c, root, p)
  }

  lemma {:induction false} Around(c: seq<Cell>, root: nat, i: nat)
    requires Below(root, i)
    ensures Inorder(c, root) == Before(c, root, i) + Inorder(c, i) + After(c, root, i)
    decreases i
  {
    if i != root {
      var p := ParentOf(i);
      Around(c, root, p);
      AroundStep(c, p);
      var b, a := Before(c, root, p), After(c, root, p);
      var l, x, r := Inorder(c, LeftOf(p)), At(c, p), Inorder(c, RightOf(p));
      AroundSeq(b, l, x, r, a);
      assert i == LeftOf(p) || i == RightOf(p);
    } else {
      assert [] + Inorder(c, root) + [] == Inorder(c, root);
    }
  }

  lemma {:induction false} AroundSeq(b: seq<Item>, l: seq<Item>, x: seq<Item>, r: seq<Item>, a: seq<Item>)
    ensures b + (l + x + r) + a == b + l + ((x + r) + a)
    ensures b + (l + x + r) + a == (b + (l + x)) + r + a
  {
    Assoc(b, l + x, r);
    Assoc(l, x, r);
    Assoc(b, l, x + r);
    Assoc(b + l, x + r, a);
  }

  lemma {:induction false} AroundStep(c: seq<Cell>, p: nat)
    ensures Inorder(c, p) == Inorder(c, LeftOf(p)) + At(c, p) + Inorder(c, RightOf(p))
  {
  }

  /** What lies around a subtree does not depend on the subtree. */
  lemma {:induction false} AroundFrame(c0: seq<Cell>, c1: seq<Cell>, root: nat, i: nat)
    requires Below(root, i) && |c0| == |c1|
    requires forall j :: !Below(i, j) ==> Same(c0, c1, j)
    ensures Before(c0, root, i) == Before(c1, root, i)
    ensures After(c0, root, i) == After(c1, root, i)
    ensures Ahead(c0, root, i) == Ahead(c1, root, i)
    decreases i
  {
    if i != root {
      var p := ParentOf(i);
      BelowKids(p);
      forall j | !Below(p, j)
        ensures Same(c0, c1, j)
      {
        assert !Below(i, j);
      }
      AroundFrame(c0, c1, root, p);
      assert !Below(i, p);
      assert Same(c0, c1, p);
      if i == LeftOf(p) {
        Frame(c0, c1, RightOf(p));
      } else {
        Frame(c0, c1, LeftOf(p));
      }
    }
  }

  //---- walking --------------------------------------------------------------------------

  /** Every node that is still to come above `i` is live, and its right subtree tidy. */
  ghost predicate Ahead(c: seq<Cell>, root: nat, i: nat)
    requires Below(root, i)
    decreases i
  {
    i == root ||
    var p := ParentOf(i);
    (i == LeftOf(p) ==> Live(c, p) && Tidy(c, RightOf(p))) && Ahead(c, root, p)
  }

  ghost predicate Walking(c: seq<Cell>, root: nat, i: nat) {
    Live(c, i) && Below(root, i) && Tidy(c, RightOf(i)) && Ahead(c, root, i)
  }

  /** Node `i` and everything that comes after it in the subtree at `root`. */
  ghost function Rest(c: seq<Cell>, root: nat, i: nat): seq<Item>
    requires Below(root, i)
  {
    At(c, i) + Inorder(c, RightOf(i)) + After(c, root, i)
  }

  ghost function Leftmost(c: seq<Cell>, i: nat): nat
    decreases |c| - i
  {
    if Live(c, LeftOf(i)) then Leftmost(c, LeftOf(i)) else i
  }

  ghost function Rightmost(c: seq<Cell>, i: nat): nat
    decreases |c| - i
  {
    if Live(c, RightOf(i)) then Rightmost(c, RightOf(i)) else i
  }

  /** The walk through the subtree at `j` starts at its leftmost node. */
  lemma {:induction false} StartWalk(c: seq<Cell>, root: nat, j: nat)
    requires Below(root, j) && Live(c, j) && Tidy(c, j) && Ahead(c, root, j)
    ensures var m := Leftmost(c, j);
            Walking(c, root, m) && Rest(c, root, m) == Inorder(c, j) + After(c, root, j)
    decreases |c| - j
  {
    var l, x, r, a := Inorder(c, LeftOf(j)), At(c, j), Inorder(c, RightOf(j)), After(c, root, j);
    if Live(c, LeftOf(j)) {
      assert ParentOf(LeftOf(j)) == j;
      StartWalk(c, root, LeftOf(j));
      Assoc(l, x, r);
      Assoc(l, x + r, a);
    } else {
      NilIsEmpty(c, LeftOf(j));
      assert [] + x + r == x + r;
    }
  }

  /** Climbing out of a subtree that is done: the walk is over, or goes on at the
      parent of the enclosing left child. */
  lemma {:induction false} ClimbStructural(c: seq<Cell>, root: nat, i: nat)
    requires Below(root, i) && Ahead(c, root, i)
    ensures var l := Enclosing(i + 1);
            if l <= root + 1 then
              After(c, root, i) == []
            else
              && Below(root, ParentOf(l - 1)) && Walking(c, root, ParentOf(l - 1))
              && After(c, root, i) == Rest(c, root, ParentOf(l - 1))
    decreases i
  {
    hide Inorder, Tidy, Enclosing, Before;
    if i == root {
      EnclosingIsAbove(i + 1);
    } else {
      var p := ParentOf(i);
      EnclosingOfChild(i);
      if i == RightOf(p) {
        ClimbStructural(c, root, p);
      }
    }
  }

  lemma {:induction false} Climb(c: seq<Cell>, root: nat, i: nat)
    requires Below(root, i) && Ahead(c, root, i)
    ensures var l := LeftEnclosing(i + 1);
            if l <= root + 1 then
              After(c, root, i) == []
            else
              && Below(root, ParentOf(l - 1)) && Walking(c, root, ParentOf(l - 1))
              && After(c, root, i) == Rest(c, root, ParentOf(l - 1))
  {
    LeftEnclosingIsEnclosing(i + 1);
    ClimbStructural(c, root, i);
  }

  lemma {:induction false} GoRight(c: seq<Cell>, root: nat, i: nat)
    requires Below(root, i) && Ahead(c, root, i) && Tidy(c, RightOf(i)) && Live(c, RightOf(i))
    ensures var m := Leftmost(c, RightOf(i));
            Walking(c, root, m) && Rest(c, root, m) == Inorder(c, RightOf(i)) + After(c, root, i)
  {
    assert ParentOf(RightOf(i)) == i;
    StartWalk(c, root, RightOf(i));
  }

  /** Taking the node where the walk stands, when nothing is left before it. */
  lemma {:induction false} TakeWalked(c: seq<Cell>, c': seq<Cell>, root: nat, i: nat)
    requires Walking(c, root, i) && Inorder(c, root) == Rest(c, root, i)
    requires |c'| == |c| && !Live(c', i) && forall j :: j != i ==> Same(c, c', j)
    ensures Ahead(c', root, i) && Tidy(c', RightOf(i))
    ensures Inorder(c', root) == Inorder(c', RightOf(i)) + After(c', root, i)
    ensures Inorder(c, root) == [c[i].node.item] + Inorder(c', root)
  {
    BelowKids(i);
    Around(c, root, i);
    Around(c', root, i);
    AroundFrame(c, c', root, i);
    Frame(c, c', LeftOf(i));
    Frame(c, c', RightOf(i));
    NothingBefore(Before(c, root, i), Inorder(c, LeftOf(i)), At(c, i), Inorder(c, RightOf(i)), After(c, root, i));
    assert At(c', i) == [];
    NoRoot(Inorder(c', RightOf(i)), After(c', root, i));
    Assoc([c[i].node.item], Inorder(c, RightOf(i)), After(c, root, i));
  }

  lemma {:induction false} NothingBefore(b: seq<Item>, l: seq<Item>, x: seq<Item>, r: seq<Item>, a: seq<Item>)
    requires b + (l + x + r) + a == x + r + a
    ensures b == [] && l == []
  {
    assert |b + (l + x + r) + a| == |b| + |l| + |x + r + a|;
  }

  lemma {:induction false} NoRoot(r: seq<Item>, a: seq<Item>)
    ensures [] + ([] + [] + r) + a == r + a
  {
    assert [] + [] + r == r;
  }

  //---- successors -----------------------------------------------------------------------

  /** The node where the walk goes after `i`. */
  ghost function Successor(c: seq<Cell>, root: nat, i: nat): Option<nat> {
    if Live(c, RightOf(i)) then Some(Leftmost(c, RightOf(i)))
    else
      var l := LeftEnclosing(i + 1);
      if l <= root + 1 then None else Some(ParentOf(l - 1))
  }

  /** What comes after node or gap `i`. */
  ghost function Following(c: seq<Cell>, i: nat): seq<Item> {
    BelowRoot(i);
    Inorder(c, RightOf(i)) + After(c, 0, i)
  }

  /** The walk goes on at `s`, or is over if there is no cell `s`. */
  ghost predicate GoesOnAt(c: seq<Cell>, i: nat, s: nat) {
    BelowRoot(s);
    if s < |c| then Walking(c, 0, s) && Rest(c, 0, s) == Following(c, i) else Following(c, i) == []
  }

  /** The right child is where the walk goes on exactly if it has no left child. */
  lemma {:induction false} RightChildFollows(c: seq<Cell>, i: nat)
    requires Below(0, i) && Ahead(c, 0, i) && Live(c, RightOf(i)) && Tidy(c, RightOf(i))
    ensures GoesOnAt(c, i, RightOf(i)) <==> !Live(c, LeftOf(RightOf(i)))
  {
    hide Inorder, Tidy;
    var r := RightOf(i);
    BelowRoot(r);
    assert ParentOf(r) == i;
    AroundStep(c, r);
    TidyBelow(c, r, r);
    RightTidy(c, r);
    var l, x, k, a := Inorder(c, LeftOf(r)), At(c, r), Inorder(c, RightOf(r)), After(c, 0, i);
    Assoc(l, x, k);
    Assoc(l, x + k, a);
    if Live(c, LeftOf(r)) {
      if l == [] {
        EmptyIsNil(c, LeftOf(r));
      }
      assert |l + (x + k + a)| > |x + k + a|;
    } else {
      NilIsEmpty(c, LeftOf(r));
      assert [] + (x + k + a) == x + k + a;
    }
  }

  lemma {:induction false} RightTidy(c: seq<Cell>, r: nat)
    requires Tidy(c, r)
    ensures Tidy(c, LeftOf(r)) && Tidy(c, RightOf(r))
  {
  }

  /** Two lefts below a right: the walk from the root goes on at node 5, not at the root's
      right child. */
  lemma {:induction false} RightChildSkips(c: seq<Cell>)
    requires forall j :: Live(c, j) <==> j == 0 || j == 2 || j == 5
    ensures Tidy(c, 0) && !GoesOnAt(c, 0, 2) && GoesOnAt(c, 0, 5)
  {
    assert Live(c, 5) && Live(c, 2) && RightOf(0) == 2 && LeftOf(2) == 5;
    TidyIffParentsLive(c, 0);
    RightTidy(c, 0);
    RightChildFollows(c, 0);
    RightTidy(c, 2);
    RightTidy(c, 5);
    BelowRoot(5);
    assert Leftmost(c, 2) == 5;
    GoRight(c, 0, 0);
  }

  /** Without a right child, the parent of the enclosing left child is where the walk goes
      on, and if there is none the walk is over. */
  lemma {:induction false} GapFollows(c: seq<Cell>, i: nat)
    requires Below(0, i) && Ahead(c, 0, i) && !Live(c, RightOf(i)) && Tidy(c, RightOf(i))
    ensures var l := LeftEnclosing(i + 1);
            GoesOnAt(c, i, if l < 2 then |c| else ParentOf(l - 1))
  {
    NilIsEmpty(c, RightOf(i));
    Climb(c, 0, i);
    LeftEnclosingIsEnclosing(i + 1);
    EnclosingIsAbove(i + 1);
  }

  //---- the sequence that a recursive traversal yields --------------------------------------

  /** A traversal that stops at nil cells. */
  ghost function Recursive(c: seq<Cell>, i: nat): seq<Item>
    decreases |c| - i
  {
    if !Live(c, i) then []
    else Recursive(c, LeftOf(i)) + [c[i].node.item] + Recursive(c, RightOf(i))
  }

  lemma {:induction false} RecursiveIsInorder(c: seq<Cell>, i: nat)
    requires Tidy(c, i)
    ensures Recursive(c, i) == Inorder(c, i)
    decreases |c| - i
  {
    if Live(c, i) {
      RecursiveIsInorder(c, LeftOf(i));
      RecursiveIsInorder(c, RightOf(i));
    } else {
      NilIsEmpty(c, i);
    }
  }
}
