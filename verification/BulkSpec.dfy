/** What a bulk delete is asked to do, and the contract that all its routines share. */
module BulkSpec {
  import opened HeapIndex
  import opened Items
  import opened Cells
  import opened Memory

  /** A traversal driver: `left(k)` says the range does not end before `k` on the
      left, `right(k)` that it does not end before `k` on the right. */
  datatype Driver = Driver(left: Interval -> bool, right: Interval -> bool)

  /** The parameters of one bulk operation.  `noop` is the static flag of the filter
      type; `augmented` tells the interval tree, whose visitor maintains `maxb`. */
  datatype Config = Config(
    driver: Driver, query: Interval, accept: Interval -> bool, noop: bool, augmented: bool)

  /** The decisions of a driver are monotone in the key and never both negative. */
  ghost predicate Monotone(d: Driver) {
    && (forall k :: d.left(k) || d.right(k))
    && (forall k, l :: d.left(k) && AtMost(k, l) ==> d.left(l))
    && (forall k, l :: d.right(l) && AtMost(k, l) ==> d.right(k))
  }

  ghost predicate GoodConfig(g: Config) {
    && (g.noop ==> forall k :: g.accept(k))
    && Monotone(g.driver)
    && WellFormed(g.query)
  }

  /** The routines that a descent can run on a child. */
  datatype Op = FillMin | FillMax | Consume | DeleteMin | DeleteMax | Overlap(minIncluded: bool)

  predicate UsesMin(op: Op) { !op.FillMax? }

  predicate UsesMax(op: Op) { !op.FillMin? }

  /** The keys that `op` takes out of the tree. */
  ghost predicate Hit(g: Config, op: Op, k: Interval) {
    match op
    case FillMin => false
    case FillMax => false
    case Consume => g.accept(k)
    case DeleteMin => g.driver.left(k) && g.driver.right(k) && g.accept(k)
    case DeleteMax => g.driver.left(k) && g.driver.right(k) && g.accept(k)
    case Overlap(_) => Overlaps(g.query, k) && g.accept(k)
  }

  /** The items of `s` taken by `op`, in order. */
  ghost function Taken(g: Config, op: Op, s: seq<Item>): seq<Item> {
    if s == [] then [] else (if Hit(g, op, s[0].key) then [s[0]] else []) + Taken(g, op, s[1..])
  }

  /** The items of `s` that survive `op`, in order. */
  ghost function Kept(g: Config, op: Op, s: seq<Item>): seq<Item> {
    if s == [] then [] else (if Hit(g, op, s[0].key) then [] else [s[0]]) + Kept(g, op, s[1..])
  }

  lemma {:induction false} TakenConcat(g: Config, op: Op, s: seq<Item>, t: seq<Item>)
    ensures Taken(g, op, s + t) == Taken(g, op, s) + Taken(g, op, t)
    ensures Kept(g, op, s + t) == Kept(g, op, s) + Kept(g, op, t)
  {
    if s == [] {
      assert s + t == t;
    } else {
      assert (s + t)[0] == s[0] && (s + t)[1..] == s[1..] + t;
      TakenConcat(g, op, s[1..], t);
      Assoc(if Hit(g, op, s[0].key) then [s[0]] else [], Taken(g, op, s[1..]), Taken(g, op, t));
      Assoc(if Hit(g, op, s[0].key) then [] else [s[0]], Kept(g, op, s[1..]), Kept(g, op, t));
    }
  }

  /** Two routines that agree on the keys of `s` take and keep the same items. */
  lemma {:induction false} TakenAgree(g: Config, op: Op, op': Op, s: seq<Item>)
    requires forall x :: x in s ==> Hit(g, op, x.key) == Hit(g, op', x.key)
    ensures Taken(g, op, s) == Taken(g, op', s)
    ensures Kept(g, op, s) == Kept(g, op', s)
  {
    if s != [] {
      assert s[0] in s;
      TakenAgree(g, op, op', s[1..]);
    }
  }

  lemma {:induction false} NoneTaken(g: Config, op: Op, s: seq<Item>)
    requires forall x :: x in s ==> !Hit(g, op, x.key)
    ensures Taken(g, op, s) == [] && Kept(g, op, s) == s
  {
    if s != [] {
      assert s[0] in s;
      NoneTaken(g, op, s[1..]);
    }
  }

  lemma {:induction false} AllTaken(g: Config, op: Op, s: seq<Item>)
    requires forall x :: x in s ==> Hit(g, op, x.key)
    ensures Taken(g, op, s) == s && Kept(g, op, s) == []
  {
    if s != [] {
      assert s[0] in s;
      AllTaken(g, op, s[1..]);
    }
  }

  /** An item at or beyond the end of the query, so that nothing after it overlaps. */
  ghost predicate Beyond(q: Interval, k: Interval) {
    q.b <= k.a && k.a != q.a
  }

  /** What `op` expects of the subtree it is run on. */
  ghost predicate OpReady(g: Config, op: Op, m: Mem, i: nat) {
    var s := Inorder(m.c, i);
    match op
    case FillMin => Open(m.smin) > 0
    case FillMax => Open(m.smax) > 0
    case Consume => true
    case DeleteMin => Sorted(s) && Open(m.smax) == 0 && forall x :: x in s ==> g.driver.left(x.key)
    case DeleteMax => Sorted(s) && Open(m.smin) == 0 && forall x :: x in s ==> g.driver.right(x.key)
    case Overlap(minIncluded) =>
      && Sorted(s)
      && (forall x :: x in s ==> WellFormed(x.key))
      && (minIncluded ==> forall x :: x in s ==> g.query.a <= x.key.a)
      && (Open(m.smax) > 0 ==> forall x :: x in s ==> !Beyond(g.query, x.key))
      && g.augmented && Exact(m.c, i)
  }

  /** The contract shared by all routines, for the subtree at `i`: the survivors, in
      order, are what went into min slots, what stays, and what went into max slots;
      a slot stays open only if nothing is left to fill it with. */
  ghost predicate Visited(g: Config, op: Op, m0: Mem, m1: Mem, i: nat) {
    && Outside(m0, m1, i)
    && NewMin(m0, m1) + Inorder(m1.c, i) + NewMax(m0, m1) == Kept(g, op, Inorder(m0.c, i))
    && Tidy(m1.c, i)
    && (!UsesMin(op) ==> m1.smin == m0.smin)
    && (!UsesMax(op) ==> m1.smax == m0.smax)
    && (UsesMin(op) && Open(m1.smin) > 0 ==> Inorder(m1.c, i) == [] && m1.smax == m0.smax)
    && (UsesMax(op) && Open(m1.smax) > 0 ==> Inorder(m1.c, i) == [])
    && Wiped(g, m0, m1, i, i, Kept(g, op, Inorder(m0.c, i)))
  }

  /** If every node above `i` waits and nothing survives in the subtree at `r`, each of its
      nodes was entered with all nodes above it waiting.  (The no-op filter sweeps whole
      subtrees without slots.) */
  ghost predicate Wiped(g: Config, m0: Mem, m1: Mem, i: nat, r: nat, keep: seq<Item>) {
    !g.noop && AllWait(m0, i) && keep == [] ==> Climbed(m0.c, m1, r)
  }

  ghost predicate KidsExact(c: seq<Cell>, i: nat) {
    Exact(c, LeftOf(i)) && Exact(c, RightOf(i))
  }

  /** A subtree that a step left as it was. */
  ghost predicate Untouched(c0: seq<Cell>, c1: seq<Cell>, r: nat) {
    && |c0| == |c1| && (forall j :: Below(r, j) ==> Same(c0, c1, j))
    && Inorder(c0, r) == Inorder(c1, r) && Tidy(c0, r) == Tidy(c1, r) && Exact(c0, r) == Exact(c1, r)
  }

  /** The effect of a descent from `i` into its left subtree.  With `slot`, cell `i`
      is nil and takes part as the last max slot to be filled. */
  ghost predicate WentLeft(g: Config, op: Op, slot: bool, hidden: bool, m0: Mem, m1: Mem, i: nat) {
    var l := LeftOf(i);
    && Outside(m0, m1, i)
    && Untouched(m0.c, m1.c, RightOf(i))
    && i < |m1.c| == |m0.c|
    && (m1.c[i] == m0.c[i] || (slot && Live(m1.c, i)))
    && Tidy(m1.c, l)
    && (g.augmented ==> Exact(m1.c, l))
    && NewMin(m0, m1) + Inorder(m1.c, l) + (if slot then At(m1.c, i) else []) + NewMax(m0, m1)
       == Kept(g, op, Inorder(m0.c, l))
    && (!UsesMin(op) ==> m1.smin == m0.smin)
    && ((!UsesMax(op) || hidden) ==> m1.smax == m0.smax)
    && (UsesMin(op) && Open(m1.smin) > 0 ==>
          Inorder(m1.c, l) == [] && (slot ==> !Live(m1.c, i)) && m1.smax == m0.smax)
    && (UsesMax(op) && slot && !Live(m1.c, i) ==> Inorder(m1.c, l) == [])
    && (UsesMax(op) && !hidden && Open(m1.smax) > 0 ==>
          Inorder(m1.c, l) == [] && (slot ==> !Live(m1.c, i)))
    && (slot ==> Wiped(g, m0, m1, i, l, Kept(g, op, Inorder(m0.c, l))))
  }

  /** The effect of a descent from `i` into its right subtree.  With `slot`, cell `i`
      is nil and takes part as the last min slot to be filled. */
  ghost predicate WentRight(g: Config, op: Op, slot: bool, m0: Mem, m1: Mem, i: nat) {
    var r := RightOf(i);
    && Outside(m0, m1, i)
    && Untouched(m0.c, m1.c, LeftOf(i))
    && i < |m1.c| == |m0.c|
    && (m1.c[i] == m0.c[i] || (slot && Live(m1.c, i)))
    && Tidy(m1.c, r)
    && (g.augmented ==> Exact(m1.c, r))
    && NewMin(m0, m1) + (if slot then At(m1.c, i) else []) + Inorder(m1.c, r) + NewMax(m0, m1)
       == Kept(g, op, Inorder(m0.c, r))
    && (!UsesMin(op) ==> m1.smin == m0.smin)
    && (!UsesMax(op) ==> m1.smax == m0.smax)
    && (UsesMin(op) && Open(m1.smin) > 0 ==>
          Inorder(m1.c, r) == [] && (slot ==> !Live(m1.c, i)) && m1.smax == m0.smax)
    && (UsesMin(op) && slot && !Live(m1.c, i) ==> Inorder(m1.c, r) == [] && m1.smax == m0.smax)
    && (UsesMax(op) && Open(m1.smax) > 0 ==> Inorder(m1.c, r) == [])
    && (slot ==> Wiped(g, m0, m1, i, r, Kept(g, op, Inorder(m0.c, r))))
  }

  ghost function PushSlot(s: Slots, i: nat): Slots {
    Slots(s.idx + [i], s.nfilled)
  }

  ghost function PopSlot(s: Slots): Slots {
    if s.idx == [] then s
    else Slots(s.idx[..|s.idx| - 1], if s.nfilled == |s.idx| then s.nfilled - 1 else s.nfilled)
  }

  ghost function FilledSlot(s: Slots): Slots {
    Slots(s.idx, s.nfilled + 1)
  }

  /** All open slots made to look filled. */
  ghost function HiddenSlots(s: Slots): Slots {
    Slots(s.idx, |s.idx|)
  }

  /** Cell `i` waits on the max stack. */
  ghost function PushMax(m: Mem, i: nat): Mem {
    m.(smax := PushSlot(m.smax, i), peaks := m.peaks.(max := Higher(m.peaks.max, |m.smax.idx| + 1)))
  }

  ghost function PushMin(m: Mem, i: nat): Mem {
    m.(smin := PushSlot(m.smin, i), peaks := m.peaks.(min := Higher(m.peaks.min, |m.smin.idx| + 1)))
  }

  function Higher(x: nat, y: nat): nat {
    if x >= y then x else y
  }

  ghost function PushLeft(m: Mem, i: nat, slot: bool): Mem {
    if slot then PushMax(m, i) else m
  }

  ghost function PopLeft(m: Mem, slot: bool): Mem {
    if slot then m.(smax := PopSlot(m.smax)) else m
  }

  ghost function PushRight(m: Mem, i: nat, slot: bool): Mem {
    if slot then PushMin(m, i) else m
  }

  ghost function PopRight(m: Mem, slot: bool): Mem {
    if slot then m.(smin := PopSlot(m.smin)) else m
  }

  ghost function Hide(m: Mem): Mem {
    m.(smax := HiddenSlots(m.smax), hidden := m.hidden + OpenSlots(m.smax))
  }

  ghost function OpenSlots(s: Slots): set<nat> {
    set t: nat | s.nfilled <= t < |s.idx| :: s.idx[t]
  }

  ghost function Cleared(c: seq<Cell>, i: nat): seq<Cell> {
    if i < |c| then c[i := Cell(c[i].node, false)] else c
  }

  ghost function MovedCell(c: seq<Cell>, src: nat, dst: nat): seq<Cell> {
    if src < |c| && dst < |c| then Cleared(c, src)[dst := Cell(c[src].node, true)] else c
  }

  ghost function Take(m: Mem, i: nat): Mem {
    m.(c := Cleared(m.c, i))
  }

  /** Cell `i` moved to the deepest open min slot. */
  ghost function ToMin(m: Mem, i: nat): Mem
    requires 0 <= m.smin.nfilled < |m.smin.idx|
  {
    m.(c := MovedCell(m.c, i, m.smin.idx[m.smin.nfilled]), smin := FilledSlot(m.smin))
  }

  ghost function ToMax(m: Mem, i: nat): Mem
    requires 0 <= m.smax.nfilled < |m.smax.idx|
  {
    m.(c := MovedCell(m.c, i, m.smax.idx[m.smax.nfilled]), smax := FilledSlot(m.smax))
  }
}
