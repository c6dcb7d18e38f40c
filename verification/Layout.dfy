/** Laying out a sorted list as a tree without gaps. */
module Layout {
  import opened HeapIndex
  import opened Items
  import opened Cells
  import opened Memory
  import opened Traversal
  import opened SlotStacks

  //---- powers of two --------------------------------------------------------------------

  ghost function Pow2(k: nat): nat {
    if k == 0 then 1 else 2 * Pow2(k - 1)
  }

  lemma {:induction false} Pow2Monotone(j: nat, k: nat)
    requires j <= k
    ensures 1 <= Pow2(j) <= Pow2(k)
    decreases k
  {
    if j < k {
      Pow2Monotone(j, k - 1);
    } else if k > 0 {
      Pow2Monotone(k - 1, k - 1);
    }
  }

  predicate IsPowerOfTwo(n: nat) {
    n == 1 || (n > 1 && n % 2 == 0 && IsPowerOfTwo(n / 2))
  }

  /** The smallest power of two that is at least `n`. */
  function NextPowerOfTwo(n: nat): nat {
    if n <= 1 then 1 else 2 * NextPowerOfTwo((n + 1) / 2)
  }

  function HighestPower(n: nat): nat {
    if IsPowerOfTwo(n) then n else NextPowerOfTwo(n) / 2
  }

  lemma {:induction false} IsPowerExactly(n: nat, k: nat)
    requires Pow2(k) <= n < Pow2(k + 1)
    ensures IsPowerOfTwo(n) <==> n == Pow2(k)
    decreases k
  {
    if k > 0 {
      IsPowerExactly(n / 2, k - 1);
    }
  }

  lemma {:induction false} NextPowerExactly(n: nat, k: nat)
    requires Pow2(k) < n <= Pow2(k + 1)
    ensures NextPowerOfTwo(n) == Pow2(k + 1)
    decreases k
  {
    if k > 0 {
      NextPowerExactly((n + 1) / 2, k - 1);
    } else {
      assert n == 2 && NextPowerOfTwo(1) == 1;
    }
  }

  lemma {:induction false} HighestPowerExactly(n: nat, k: nat)
    requires Pow2(k) <= n < Pow2(k + 1)
    ensures HighestPower(n) == Pow2(k)
  {
    IsPowerExactly(n, k);
    if n != Pow2(k) {
      NextPowerExactly(n, k);
    }
  }

  //---- where the root goes --------------------------------------------------------------

  /** The number of items that go to the left of the root. */
  function BuildSelectRoot(n: nat): nat
    requires n > 0
    ensures BuildSelectRoot(n) < n
  {
    SelectRootDefined(n);
    var x := HighestPower(n);
    if x / 2 <= (n - x) + 1 then x - 1 else n - x / 2
  }

  lemma {:induction false} SomePower(n: nat) returns (k: nat)
    requires n > 0
    ensures Pow2(k) <= n < Pow2(k + 1)
  {
    if n == 1 {
      k := 0;
      assert Pow2(1) == 2 * Pow2(0);
    } else {
      var j := SomePower(n / 2);
      k := j + 1;
    }
  }

  lemma {:induction false} SelectRootDefined(n: nat)
    requires n > 0
    ensures 1 <= HighestPower(n) <= n < 2 * HighestPower(n)
  {
    var k := SomePower(n);
    HighestPowerExactly(n, k);
    Pow2Monotone(0, k);
  }

  function Min(x: int, y: int): int {
    if x <= y then x else y
  }

  /** With `k` full levels and `z` items on the next one, the left subtree has `k - 1`
      full levels and as much of the next as fits. */
  lemma {:induction false} SelectRootOf(k: nat, z: nat)
    requires 1 <= z <= Pow2(k)
    ensures var n := Pow2(k) - 1 + z;
            if k == 0 then BuildSelectRoot(n) == 0
            else BuildSelectRoot(n) == Pow2(k - 1) - 1 + Min(Pow2(k - 1), z)
  {
    HighestPowerExactly(Pow2(k) - 1 + z, k);
  }

  //---- the shape without gaps -------------------------------------------------------------

  /** How many of the indices below `n` lie in the subtree at `i`. */
  ghost function Count(n: nat, i: nat): nat
    decreases n - i
  {
    if i >= n then 0 else 1 + Count(n, LeftOf(i)) + Count(n, RightOf(i))
  }

  lemma {:induction false} CountPositive(n: nat, i: nat)
    ensures Count(n, i) > 0 ==> i < n
  {
  }

  /** All levels of the subtree at `i` are full but for the last, which starts at
      `(i + 1) * 2^k` when counted from one. */
  lemma {:induction false} CountForm(n: nat, i: nat, k: nat)
    requires (i + 1) * Pow2(k) <= n < (i + 1) * Pow2(k + 1)
    ensures Count(n, i) == Pow2(k) - 1 + Min(Pow2(k), n - (i + 1) * Pow2(k) + 1)
    decreases k
  {
    Pow2Monotone(0, k);
    StartsBelow(n, i, Pow2(k));
    if k == 0 {
      assert Count(n, LeftOf(i)) == 0 && Count(n, RightOf(i)) == 0;
    } else {
      var p := Pow2(k - 1);
      ChildStarts(i, p);
      CountForm(n, LeftOf(i), k - 1);
      CountRight(n, i, k);
    }
  }

  lemma {:induction false} StartsBelow(n: nat, i: nat, p: nat)
    requires p >= 1 && (i + 1) * p <= n
    ensures i < n
  {
    assert (i + 1) * p >= (i + 1) * 1;
  }

  lemma {:induction false} ChildStarts(i: nat, p: nat)
    ensures (LeftOf(i) + 1) * p == (i + 1) * (2 * p)
    ensures (RightOf(i) + 1) * p == (i + 1) * (2 * p) + p
    ensures (LeftOf(i) + 1) * (2 * p) == (i + 1) * (4 * p)
    ensures (RightOf(i) + 1) * (2 * p) == (i + 1) * (4 * p) + 2 * p
    ensures (i + 1) * p >= p
  {
  }

  /** The right subtree: its last level may be the one before. */
  lemma {:induction false} CountRight(n: nat, i: nat, k: nat)
    requires k > 0 && (i + 1) * Pow2(k) <= n < (i + 1) * Pow2(k + 1)
    ensures var p := Pow2(k - 1); var y := n - (i + 1) * Pow2(k) + 1;
            Count(n, RightOf(i)) == p - 1 + if y > p then Min(p, y - p) else 0
    decreases k, 1
  {
    var p, r := Pow2(k - 1), RightOf(i);
    Pow2Monotone(0, k - 1);
    RightProducts(i, p);
    if (r + 1) * p <= n {
      CountForm(n, r, k - 1);
    } else if k == 1 {
      assert Count(n, r) == 0;
    } else {
      CountRightShort(n, i, k);
    }
  }

  lemma {:induction false} RightProducts(i: nat, p: nat)
    requires p >= 1
    ensures (RightOf(i) + 1) * p == (i + 1) * (2 * p) + p
    ensures (i + 1) * (4 * p) < (RightOf(i) + 1) * (2 * p)
    ensures (i + 1) * (4 * p) == 2 * ((i + 1) * (2 * p))
    ensures (i + 1) * (2 * p) >= 2 * p
  {
    ChildStarts(i, p);
    assert (i + 1) * (2 * p) == 2 * ((i + 1) * p);
  }

  lemma {:induction false} CountRightShort(n: nat, i: nat, k: nat)
    requires k > 1 && (i + 1) * Pow2(k) <= n < (RightOf(i) + 1) * Pow2(k - 1)
    ensures Count(n, RightOf(i)) == Pow2(k - 1) - 1
    ensures n - (i + 1) * Pow2(k) + 1 <= Pow2(k - 1)
    decreases k, 0
  {
    var q := Pow2(k - 2);
    Pow2Monotone(0, k - 2);
    RightProducts(i, q);
    RightProducts(i, 2 * q);
    CountForm(n, RightOf(i), k - 2);
  }

  lemma {:induction false} LastLevel(n: nat, i: nat) returns (k: nat)
    requires i < n
    ensures (i + 1) * Pow2(k) <= n < (i + 1) * Pow2(k + 1)
    decreases n - i
  {
    assert Pow2(0) == 1 && Pow2(1) == 2;
    if n < (i + 1) * 2 {
      k := 0;
    } else {
      var j := LastLevel(n, LeftOf(i));
      k := j + 1;
      ChildStarts(i, Pow2(j));
    }
  }

  /** The root of each part is chosen so that no gaps arise. */
  lemma {:induction false} LeftCount(n: nat, i: nat)
    requires i < n
    ensures Count(n, i) > 0 && i < LeftOf(i) && Count(n, LeftOf(i)) == BuildSelectRoot(Count(n, i))
    ensures Count(n, RightOf(i)) == Count(n, i) - 1 - BuildSelectRoot(Count(n, i))
  {
    var k := LastLevel(n, i);
    CountForm(n, i, k);
    Pow2Monotone(0, k);
    SelectRootOf(k, Min(Pow2(k), n - (i + 1) * Pow2(k) + 1));
    if k == 0 {
      assert Count(n, LeftOf(i)) == 0;
    } else {
      ChildStarts(i, Pow2(k - 1));
      CountForm(n, LeftOf(i), k - 1);
    }
  }

  lemma {:induction false} CountAll(n: nat)
    ensures Count(n, 0) == n
  {
    if n > 0 {
      var k := LastLevel(n, 0);
      assert (0 + 1) * Pow2(k) == Pow2(k) && (0 + 1) * Pow2(k + 1) == Pow2(k + 1);
      CountForm(n, 0, k);
    }
  }

  //---- heights ------------------------------------------------------------------------------

  /** `h` is the number of levels that `n` items need. */
  ghost predicate HeightOf(n: nat, h: nat) {
    if n == 0 then h == 0 else h > 0 && Pow2(h - 1) <= n < Pow2(h)
  }

  lemma {:induction false} HeightMonotone(m: nat, g: nat, n: nat, h: nat)
    requires HeightOf(m, g) && HeightOf(n, h) && m <= n
    ensures g <= h
  {
    if m > 0 && g > h {
      Pow2Monotone(h, g - 1);
    }
  }

  /** The left part is at least as high as the right one and gives the height. */
  lemma {:induction false} HeightStep(n: nat, lh: nat, rh: nat)
    requires n > 0
    requires HeightOf(BuildSelectRoot(n), lh) && HeightOf(n - 1 - BuildSelectRoot(n), rh)
    ensures rh <= lh && HeightOf(n, 1 + lh)
  {
    var k := SomePower(n);
    Pow2Monotone(0, k);
    SelectRootOf(k, n - Pow2(k) + 1);
    var mid := BuildSelectRoot(n);
    if k == 0 {
      assert mid == 0;
    } else {
      Pow2Monotone(0, k - 1);
      assert Pow2(k) == 2 * Pow2(k - 1);
      assert Pow2(k - 1) <= mid < Pow2(k);
      SameHeight(mid, lh, k);
    }
    HeightMonotone(n - 1 - mid, rh, mid, lh);
  }

  lemma {:induction false} SameHeight(n: nat, h: nat, k: nat)
    requires HeightOf(n, h) && n > 0 && k > 0 && Pow2(k - 1) <= n < Pow2(k)
    ensures h == k
  {
    HeightMonotone(n, h, n, k);
    HeightMonotone(n, k, n, h);
  }

  lemma {:induction false} DepthBound(i: nat, h: nat)
    requires i + 1 < Pow2(h)
    ensures Depth(i) < h
    decreases i
  {
    if i > 0 {
      DepthBound(ParentOf(i), h - 1);
    }
  }

  //---- building ---------------------------------------------------------------------------------

  /** The cells of an array without gaps. */
  ghost function Full(data: array<Node>): seq<Cell>
    reads data
  {
    seq(data.Length, i requires 0 <= i < data.Length reads data => Cell(data[i], true))
  }

  /** A new node: its bound is its own end. */
  function NewNode(item: Item): Node {
    Node(item, item.key.b)
  }

  /** The subtree at `i` holds the list `s` in fresh nodes. */
  ghost predicate Holds(c: seq<Cell>, i: nat, s: seq<Item>) {
    && Inorder(c, i) == s
    && (forall j: nat :: Below(i, j) && j < |c| ==> c[j].node == NewNode(c[j].node.item))
  }

  ghost predicate OnlyBelow(c0: seq<Cell>, c1: seq<Cell>, i: nat) {
    |c1| == |c0| && forall j :: !Below(i, j) ==> Same(c0, c1, j)
  }

  lemma {:induction false} HoldsNothing(c: seq<Cell>, i: nat, s: seq<Item>)
    requires |s| == Count(|c|, i) && s == []
    ensures Holds(c, i, s) && OnlyBelow(c, c, i) && HeightOf(|s|, 0)
    ensures OnceEach(|c|, i, multiset{})
  {
    forall j: nat | Below(i, j)
      ensures j >= |c|
    {
    }
  }

  /** Left part, right part and root together. */
  lemma {:induction false} HoldsAll(
      c0: seq<Cell>, c1: seq<Cell>, c2: seq<Cell>, c3: seq<Cell>, i: nat, l: seq<Item>, x: Item, r: seq<Item>)
    requires OnlyBelow(c0, c1, LeftOf(i)) && Holds(c1, LeftOf(i), l)
    requires OnlyBelow(c1, c2, RightOf(i)) && Holds(c2, RightOf(i), r)
    requires i < |c2| && c3 == c2[i := Cell(NewNode(x), true)]
    ensures OnlyBelow(c0, c3, i) && Holds(c3, i, l + [x] + r)
  {
    hide Inorder;
    BelowKids(i);
    Frame(c1, c3, LeftOf(i));
    Frame(c2, c3, RightOf(i));
    AroundStep(c3, i);
    forall j: nat | Below(i, j) && j < |c3|
      ensures c3[j].node == NewNode(c3[j].node.item)
    {
      if Below(LeftOf(i), j) {
        assert Same(c1, c3, j);
      } else if Below(RightOf(i), j) {
        assert Same(c2, c3, j);
      }
    }
    forall j | !Below(i, j)
      ensures Same(c0, c3, j)
    {
      assert Same(c0, c1, j) && Same(c1, c2, j);
    }
  }

  /** Every cell of the subtree at `i` was written once, and no other cell. */
  ghost predicate OnceEach(n: nat, i: nat, written: multiset<nat>) {
    forall j: nat :: written[j] == if Below(i, j) && j < n then 1 else 0
  }

  lemma {:induction false} OnceInAll(n: nat, i: nat, wl: multiset<nat>, wr: multiset<nat>)
    requires i < n && OnceEach(n, LeftOf(i), wl) && OnceEach(n, RightOf(i), wr)
    ensures OnceEach(n, i, wl + wr + multiset{i})
  {
    BelowKids(i);
  }

  /** Writes the items of a sorted list to the cells of the subtree at `idx`, and returns
      its height. */
  method Build(sorted: seq<Item>, idx: nat, data: array<Node>) returns (height: nat, ghost written: multiset<nat>)
    requires |sorted| == Count(data.Length, idx)
    modifies data
    ensures OnlyBelow(old(Full(data)), Full(data), idx)
    ensures Holds(Full(data), idx, sorted)
    ensures HeightOf(|sorted|, height)
    ensures OnceEach(data.Length, idx, written)
    decreases |sorted|
  {
    hide OnceEach, Holds, OnlyBelow, HeightOf, Count, BuildSelectRoot;
    if |sorted| == 0 {
      HoldsNothing(Full(data), idx, sorted);
      return 0, multiset{};
    }
    CountPositive(data.Length, idx);
    LeftCount(data.Length, idx);
    var mid := BuildSelectRoot(|sorted|);
    ghost var c0 := Full(data);
    var lh, wl := Build(sorted[..mid], LeftOf(idx), data);
    ghost var c1 := Full(data);
    var rh, wr := Build(sorted[mid + 1..], RightOf(idx), data);
    ghost var c2 := Full(data);
    data[idx] := NewNode(sorted[mid]);
    written := wl + wr + multiset{idx};
    OnceInAll(data.Length, idx, wl, wr);
    assert Full(data) == c2[idx := Cell(NewNode(sorted[mid]), true)];
    HoldsAll(c0, c1, c2, Full(data), idx, sorted[..mid], sorted[mid], sorted[mid + 1..]);
    assert sorted == sorted[..mid] + [sorted[mid]] + sorted[mid + 1..];
    HeightStep(|sorted|, lh, rh);
    assert rh <= lh;
    height := 1 + lh;
  }

  lemma {:induction false} AllLiveIsTidy(c: seq<Cell>, i: nat)
    requires forall j :: 0 <= j < |c| ==> c[j].live
    ensures Tidy(c, i)
    decreases |c| - i
  {
    if i < |c| {
      AllLiveIsTidy(c, LeftOf(i));
      AllLiveIsTidy(c, RightOf(i));
    }
  }

  /** What a freshly built tree is like. */
  lemma {:induction false} Built(c: seq<Cell>, sorted: seq<Item>, h: nat)
    requires Holds(c, 0, sorted) && |c| == |sorted| && HeightOf(|sorted|, h)
    requires forall j :: 0 <= j < |c| ==> c[j].live
    ensures Inorder(c, 0) == sorted && Tidy(c, 0)
    ensures forall j :: Live(c, j) ==> Depth(j) < h
    ensures forall j :: 0 <= j < |c| ==> c[j].node.maxb == c[j].node.item.key.b
  {
    AllLiveIsTidy(c, 0);
    forall j: nat | j < |c|
      ensures Depth(j) < h && c[j].node.maxb == c[j].node.item.key.b
    {
      BelowRoot(j);
      assert |sorted| < Pow2(h) && j + 1 <= |sorted|;
      DepthBound(j, h);
    }
  }

  //---- a given shape ------------------------------------------------------------------------

  /** The nodes of a tree whose cells are given one by one. */
  function ShapeNodes(shape: seq<Option<Item>>): seq<Option<Node>> {
    seq(|shape|, i requires 0 <= i < |shape| => if shape[i].Some? then Some(NewNode(shape[i].value)) else None)
  }

  ghost predicate Given(shape: seq<Option<Item>>, i: nat) {
    i < |shape| && shape[i].Some?
  }

  /** Every given cell has its parent given. */
  ghost predicate TidyItems(shape: seq<Option<Item>>) {
    forall i :: i > 0 && Given(shape, i) ==> Given(shape, ParentOf(i))
  }

  /** The given items from left to right. */
  ghost function ShapeItems(shape: seq<Option<Item>>, i: nat): seq<Item>
    decreases |shape| - i
  {
    if i >= |shape| then []
    else
      ShapeItems(shape, LeftOf(i))
      + (if shape[i].Some? then [shape[i].value] else [])
      + ShapeItems(shape, RightOf(i))
  }

  ghost predicate LaidOut(c: seq<Cell>, shape: seq<Option<Item>>) {
    && |c| == |shape|
    && (forall i: nat :: Live(c, i) <==> Given(shape, i))
    && (forall i: nat :: Live(c, i) ==> c[i].node == NewNode(shape[i].value))
  }

  lemma {:induction false} TidyNodes(shape: seq<Option<Item>>)
    requires TidyItems(shape)
    ensures var nodes := ShapeNodes(shape);
            forall i :: i > 0 && i < |nodes| && nodes[i].Some? ==>
                          ParentOf(i) < |nodes| && nodes[ParentOf(i)].Some?
  {
    var nodes := ShapeNodes(shape);
    forall i: nat | i > 0 && i < |nodes| && nodes[i].Some?
      ensures ParentOf(i) < |nodes| && nodes[ParentOf(i)].Some?
    {
      assert Given(shape, i);
      assert Given(shape, ParentOf(i));
    }
  }

  lemma {:induction false} ShapeLaid(c: seq<Cell>, shape: seq<Option<Item>>, i: nat)
    requires LaidOut(c, shape)
    ensures Inorder(c, i) == ShapeItems(shape, i)
    decreases |shape| - i
  {
    if i < |shape| {
      ShapeLaid(c, shape, LeftOf(i));
      ShapeLaid(c, shape, RightOf(i));
      assert At(c, i) == if shape[i].Some? then [shape[i].value] else [];
      assert Live(c, i) <==> Given(shape, i);
    }
  }

  /** The tree is tidy exactly if every given cell has its parent given. */
  lemma {:induction false} ShapeTidy(c: seq<Cell>, shape: seq<Option<Item>>)
    requires LaidOut(c, shape)
    ensures Tidy(c, 0) <==> TidyItems(shape)
  {
    TidyIffParentsLive(c, 0);
    forall i: nat
      ensures Below(0, i) && (Live(c, i) <==> Given(shape, i))
    {
      BelowRoot(i);
    }
  }
}
