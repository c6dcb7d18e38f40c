/** The unbalanced tree of boxed nodes that the benchmarks compare against.  Boxes are
    owned, so a tree is a value; a pointer into it is the path that leads there. */
module PointerBst {
  import opened Items
  import opened Selections
  import opened HeapIndex
  import opened Cells
  import Layout

  datatype Tree = Leaf | Branch(item: Item, left: Tree, right: Tree)

  ghost function Flat(t: Tree): seq<Item> {
    match t
    case Leaf => []
    case Branch(x, l, r) => Flat(l) + [x] + Flat(r)
  }

  lemma {:induction false} FlatSorted(t: Tree)
    requires t.Branch? && Sorted(Flat(t))
    ensures Sorted(Flat(t.left)) && Sorted(Flat(t.right))
    ensures forall y :: y in Flat(t.left) ==> AtMost(y.key, t.item.key)
    ensures forall y :: y in Flat(t.right) ==> AtMost(t.item.key, y.key)
  {
    SortedSplit(Flat(t.left) + [t.item], Flat(t.right));
    SortedSplit(Flat(t.left), [t.item]);
    assert t.item in Flat(t.left) + [t.item];
  }

  lemma {:induction false} SelectOne(p: Interval -> bool, x: Item)
    ensures Select(p, [x]) == (if p(x.key) then [x] else []) && Reject(p, [x]) == (if p(x.key) then [] else [x])
  {
    assert [x][1..] == [];
  }

  /** What a range takes from a tree, part by part. */
  lemma {:induction false} SelectFlat(p: Interval -> bool, t: Tree)
    requires t.Branch?
    ensures Select(p, Flat(t)) ==
              Select(p, Flat(t.left)) + (if p(t.item.key) then [t.item] else []) + Select(p, Flat(t.right))
    ensures Reject(p, Flat(t)) ==
              Reject(p, Flat(t.left)) + (if p(t.item.key) then [] else [t.item]) + Reject(p, Flat(t.right))
  {
    hide Select, Reject;
    SelectConcat(p, Flat(t.left) + [t.item], Flat(t.right));
    SelectConcat(p, Flat(t.left), [t.item]);
    SelectOne(p, t.item);
  }

  //---- building -------------------------------------------------------------------------

  function Build(sorted: seq<Item>): Tree {
    if sorted == [] then Leaf
    else
      var mid := Layout.BuildSelectRoot(|sorted|);
      Branch(sorted[mid], Build(sorted[..mid]), Build(sorted[mid + 1..]))
  }

  lemma {:induction false} BuildFlat(sorted: seq<Item>)
    ensures Flat(Build(sorted)) == sorted
  {
    hide Layout.BuildSelectRoot;
    if sorted != [] {
      var mid := Layout.BuildSelectRoot(|sorted|);
      BuildFlat(sorted[..mid]);
      BuildFlat(sorted[mid + 1..]);
      assert sorted == sorted[..mid] + [sorted[mid]] + sorted[mid + 1..];
    }
  }

  function Height(t: Tree): nat {
    match t
    case Leaf => 0
    case Branch(_, l, r) => 1 + if Height(l) >= Height(r) then Height(l) else Height(r)
  }

  /** The left side is at least as high as the right one at every branch. */
  ghost predicate LeansLeft(t: Tree) {
    t.Branch? ==> Height(t.left) >= Height(t.right) && LeansLeft(t.left) && LeansLeft(t.right)
  }

  lemma {:induction false} BuildHeight(sorted: seq<Item>)
    ensures Layout.HeightOf(|sorted|, Height(Build(sorted))) && LeansLeft(Build(sorted))
  {
    hide Layout.HeightOf, Layout.BuildSelectRoot;
    if sorted == [] {
      NoHeight();
    } else {
      var mid := Layout.BuildSelectRoot(|sorted|);
      BuildHeight(sorted[..mid]);
      BuildHeight(sorted[mid + 1..]);
      Layout.HeightStep(|sorted|, Height(Build(sorted[..mid])), Height(Build(sorted[mid + 1..])));
    }
  }

  lemma {:induction false} NoHeight()
    ensures Layout.HeightOf(0, 0)
  {
  }

  /** The boxes that correspond to the cells of an array without gaps. */
  ghost function FromCells(c: seq<Cell>, i: nat): Tree
    decreases |c| - i
  {
    if i >= |c| then Leaf else Branch(c[i].node.item, FromCells(c, LeftOf(i)), FromCells(c, RightOf(i)))
  }

  lemma {:induction false} FullCount(c: seq<Cell>, i: nat)
    requires forall j :: 0 <= j < |c| ==> c[j].live
    ensures |Inorder(c, i)| == Layout.Count(|c|, i)
    decreases |c| - i
  {
    if i < |c| {
      FullCount(c, LeftOf(i));
      FullCount(c, RightOf(i));
    }
  }

  /** Both trees are built alike: the same items in the same places. */
  lemma {:induction false} BuiltAlike(c: seq<Cell>, i: nat)
    requires forall j :: 0 <= j < |c| ==> c[j].live
    ensures Build(Inorder(c, i)) == FromCells(c, i)
    decreases |c| - i
  {
    hide Layout.BuildSelectRoot;
    if i < |c| {
      FullCount(c, i);
      FullCount(c, LeftOf(i));
      Layout.LeftCount(|c|, i);
      BuiltAlike(c, LeftOf(i));
      BuiltAlike(c, RightOf(i));
      var l, x, r := Inorder(c, LeftOf(i)), c[i].node.item, Inorder(c, RightOf(i));
      var s := Inorder(c, i);
      assert s == l + [x] + r;
      assert s[..|l|] == l && s[|l|] == x && s[|l| + 1..] == r;
    }
  }

  //---- deleting a range -------------------------------------------------------------------

  method ConsumeTree(t: Tree) returns (out: seq<Item>)
    ensures out == Flat(t)
  {
    match t {
      case Leaf => out := [];
      case Branch(x, l, r) =>
        var left := ConsumeTree(l);
        var right := ConsumeTree(r);
        out := left + [x] + right;
    }
  }

  /** All keys are before the right end of the range. */
  ghost predicate BeforeEnd(from: Interval, to: Interval, s: seq<Item>) {
    forall x :: x in s ==> Less(x.key, to) || x.key == from
  }

  /** All keys are at or after the left end of the range. */
  ghost predicate AfterStart(from: Interval, s: seq<Item>) {
    forall x :: x in s ==> AtMost(from, x.key)
  }

  /** From the start of the range on, everything is taken. */
  lemma {:induction false} LeftCut(from: Interval, to: Interval, t: Tree)
    requires t.Branch? && Sorted(Flat(t)) && BeforeEnd(from, to, Flat(t))
    ensures Sorted(Flat(t.left)) && Sorted(Flat(t.right))
    ensures BeforeEnd(from, to, Flat(t.left)) && BeforeEnd(from, to, Flat(t.right))
    ensures AtMost(from, t.item.key) ==>
              Select(KeyRange(from, to), Flat(t)) == Select(KeyRange(from, to), Flat(t.left)) + [t.item] + Flat(t.right)
    ensures AtMost(from, t.item.key) ==>
              Reject(KeyRange(from, to), Flat(t)) == Reject(KeyRange(from, to), Flat(t.left))
    ensures Less(t.item.key, from) ==>
              Select(KeyRange(from, to), Flat(t)) == Select(KeyRange(from, to), Flat(t.right))
    ensures Less(t.item.key, from) ==>
              Reject(KeyRange(from, to), Flat(t)) == Flat(t.left) + [t.item] + Reject(KeyRange(from, to), Flat(t.right))
  {
    hide Select, Reject;
    var p := KeyRange(from, to);
    FlatSorted(t);
    SelectFlat(p, t);
    assert t.item in Flat(t);
    if AtMost(from, t.item.key) {
      SelectAll(p, Flat(t.right));
    } else {
      SelectNone(p, Flat(t.left));
    }
  }

  /** Up to the end of the range, everything is taken. */
  lemma {:induction false} RightCut(from: Interval, to: Interval, t: Tree)
    requires AtMost(from, to) && t.Branch? && Sorted(Flat(t)) && AfterStart(from, Flat(t))
    ensures Sorted(Flat(t.left)) && Sorted(Flat(t.right))
    ensures AfterStart(from, Flat(t.left)) && AfterStart(from, Flat(t.right))
    ensures Less(t.item.key, to) || t.item.key == from ==>
              Select(KeyRange(from, to), Flat(t)) == Flat(t.left) + [t.item] + Select(KeyRange(from, to), Flat(t.right))
    ensures Less(t.item.key, to) || t.item.key == from ==>
              Reject(KeyRange(from, to), Flat(t)) == Reject(KeyRange(from, to), Flat(t.right))
    ensures !(Less(t.item.key, to) || t.item.key == from) ==>
              Select(KeyRange(from, to), Flat(t)) == Select(KeyRange(from, to), Flat(t.left))
    ensures !(Less(t.item.key, to) || t.item.key == from) ==>
              Reject(KeyRange(from, to), Flat(t)) == Reject(KeyRange(from, to), Flat(t.left)) + [t.item] + Flat(t.right)
  {
    hide Select, Reject;
    var p := KeyRange(from, to);
    FlatSorted(t);
    SelectFlat(p, t);
    assert t.item in Flat(t);
    if Less(t.item.key, to) || t.item.key == from {
      SelectAll(p, Flat(t.left));
    } else {
      SelectNone(p, Flat(t.right));
    }
  }

  lemma {:induction false} NothingInLeaf(p: Interval -> bool)
    ensures Select(p, Flat(Leaf)) == [] && Reject(p, Flat(Leaf)) == [] && Flat(Leaf) == []
  {
  }

  method DeleteRangeLeft(from: Interval, to: Interval, t: Tree) returns (rest: Tree, out: seq<Item>)
    requires Sorted(Flat(t)) && BeforeEnd(from, to, Flat(t))
    ensures out == Select(KeyRange(from, to), Flat(t)) && Flat(rest) == Reject(KeyRange(from, to), Flat(t))
  {
    hide Select, Reject, Sorted, BeforeEnd;
    match t {
      case Leaf =>
        NothingInLeaf(KeyRange(from, to));
        return Leaf, [];
      case Branch(x, l, r) =>
        LeftCut(from, to, t);
        if AtMost(from, x.key) {
          var taken;
          rest, taken := DeleteRangeLeft(from, to, l);
          var right := ConsumeTree(r);
          out := taken + [x] + right;
        } else {
          var right;
          right, out := DeleteRangeLeft(from, to, r);
          rest := Branch(x, l, right);
        }
    }
  }

  method DeleteRangeRight(from: Interval, to: Interval, t: Tree) returns (rest: Tree, out: seq<Item>)
    requires AtMost(from, to) && Sorted(Flat(t)) && AfterStart(from, Flat(t))
    ensures out == Select(KeyRange(from, to), Flat(t)) && Flat(rest) == Reject(KeyRange(from, to), Flat(t))
  {
    hide Select, Reject, Sorted, AfterStart;
    match t {
      case Leaf =>
        NothingInLeaf(KeyRange(from, to));
        return Leaf, [];
      case Branch(x, l, r) =>
        RightCut(from, to, t);
        if Less(x.key, to) || x.key == from {
          var left := ConsumeTree(l);
          var taken;
          rest, taken := DeleteRangeRight(from, to, r);
          out := left + [x] + taken;
        } else {
          var left;
          left, out := DeleteRangeRight(from, to, l);
          rest := Branch(x, left, r);
        }
    }
  }

  /** One step of a path: the node that was passed, without the child that was entered. */
  datatype Step = ToLeft(item: Item, right: Tree) | ToRight(item: Item, left: Tree)

  /** The whole tree when `t` stands at the end of the path. */
  function Plug(path: seq<Step>, t: Tree): Tree {
    if path == [] then t
    else
      var s := path[|path| - 1];
      Plug(path[..|path| - 1], if s.ToLeft? then Branch(s.item, t, s.right) else Branch(s.item, s.left, t))
  }

  ghost function FlatBefore(path: seq<Step>): seq<Item> {
    if path == [] then []
    else
      var s := path[|path| - 1];
      FlatBefore(path[..|path| - 1]) + if s.ToLeft? then [] else Flat(s.left) + [s.item]
  }

  ghost function FlatAfter(path: seq<Step>): seq<Item> {
    if path == [] then []
    else
      var s := path[|path| - 1];
      (if s.ToLeft? then [s.item] + Flat(s.right) else []) + FlatAfter(path[..|path| - 1])
  }

  lemma {:induction false} PlugFlat(path: seq<Step>, t: Tree)
    ensures Flat(Plug(path, t)) == FlatBefore(path) + Flat(t) + FlatAfter(path)
  {
    if path == [] {
      assert [] + Flat(t) + [] == Flat(t);
    } else {
      var s, up := path[|path| - 1], path[..|path| - 1];
      var b, a := FlatBefore(up), FlatAfter(up);
      if s.ToLeft? {
        PlugFlat(up, Branch(s.item, t, s.right));
        PlugSeq(b, Flat(t), [s.item], Flat(s.right), a);
      } else {
        PlugFlat(up, Branch(s.item, s.left, t));
        PlugSeq(b, Flat(s.left), [s.item], Flat(t), a);
      }
    }
  }

  lemma {:induction false} PlugSeq(b: seq<Item>, l: seq<Item>, x: seq<Item>, r: seq<Item>, a: seq<Item>)
    ensures b + (l + x + r) + a == (b + []) + l + ((x + r) + a)
    ensures b + (l + x + r) + a == (b + (l + x)) + r + ([] + a)
  {
    assert b + [] == b && [] + a == a;
    Assoc(b, l + x, r);
    Assoc(l, x, r);
    Assoc(b, l, x + r);
    Assoc(b + l, x + r, a);
  }

  /** Takes the last node off a tree: down the right spine, then the node's left subtree
      takes its place. */
  method DeleteMax(root: Tree) returns (rest: Tree, max: Item)
    requires root.Branch?
    ensures Flat(root) == Flat(rest) + [max]
  {
    var path := [];
    var node := root;
    while node.right.Branch?
      invariant node.Branch? && Plug(path, node) == root
      invariant forall i :: 0 <= i < |path| ==> path[i].ToRight?
      decreases node
    {
      ghost var up := path;
      path := path + [ToRight(node.item, node.left)];
      assert path[..|path| - 1] == up;
      node := node.right;
    }
    max := node.item;
    rest := Plug(path, node.left);
    PlugFlat(path, node);
    PlugFlat(path, node.left);
    OnlyRight(path);
    assert Flat(node) == Flat(node.left) + [node.item] + [];
    assert FlatBefore(path) + (Flat(node.left) + [max]) + [] == (FlatBefore(path) + Flat(node.left) + []) + [max];
  }

  lemma {:induction false} OnlyRight(path: seq<Step>)
    requires forall i :: 0 <= i < |path| ==> path[i].ToRight?
    ensures FlatAfter(path) == []
  {
    if path != [] {
      OnlyRight(path[..|path| - 1]);
    }
  }

  /** The search stands at the end of the path: what was passed is out of range. */
  ghost predicate PassedBy(from: Interval, to: Interval, path: seq<Step>) {
    && (forall x :: x in FlatBefore(path) ==> !InRange(from, to, x.key))
    && (forall x :: x in FlatAfter(path) ==> !InRange(from, to, x.key))
  }

  /** Joins what is left of both sides of a deleted root. */
  method Join(left: Tree, right: Tree) returns (joined: Tree)
    ensures Flat(joined) == Flat(left) + Flat(right)
  {
    if left.Branch? {
      if right.Branch? {
        var rest, max := DeleteMax(left);
        joined := Branch(max, rest, right);
      } else {
        joined := left;
        assert Flat(left) + [] == Flat(left);
      }
    } else {
      joined := right;
      assert [] + Flat(right) == Flat(right);
    }
  }

  /** Both ends of the range below its topmost node. */
  method DeleteAtTop(from: Interval, to: Interval, t: Tree) returns (rest: Tree, out: seq<Item>)
    requires AtMost(from, to) && t.Branch? && Sorted(Flat(t)) && InRange(from, to, t.item.key)
    ensures out == Select(KeyRange(from, to), Flat(t)) && Flat(rest) == Reject(KeyRange(from, to), Flat(t))
  {
    hide Select, Reject;
    FlatSorted(t);
    SelectFlat(KeyRange(from, to), t);
    var left, takenLeft := DeleteRangeLeft(from, to, t.left);
    var right, takenRight := DeleteRangeRight(from, to, t.right);
    out := takenLeft + [t.item] + takenRight;
    rest := Join(left, right);
    assert Flat(left) + [] + Flat(right) == Flat(left) + Flat(right);
  }

  lemma {:induction false} PassStart(from: Interval, to: Interval, root: Tree)
    ensures PassedBy(from, to, []) && Plug([], root) == root
  {
  }

  lemma {:induction false} PassRight(from: Interval, to: Interval, path: seq<Step>, t: Tree)
    requires PassedBy(from, to, path) && t.Branch? && Sorted(Flat(t)) && Less(t.item.key, from)
    ensures var p := path + [ToRight(t.item, t.left)];
            PassedBy(from, to, p) && Plug(p, t.right) == Plug(path, t) && Sorted(Flat(t.right))
  {
    hide Sorted;
    FlatSorted(t);
    assert (path + [ToRight(t.item, t.left)])[..|path|] == path;
  }

  lemma {:induction false} PassLeft(from: Interval, to: Interval, path: seq<Step>, t: Tree)
    requires PassedBy(from, to, path) && t.Branch? && Sorted(Flat(t))
    requires Less(from, t.item.key) && AtMost(to, t.item.key)
    ensures var p := path + [ToLeft(t.item, t.right)];
            PassedBy(from, to, p) && Plug(p, t.left) == Plug(path, t) && Sorted(Flat(t.left))
  {
    hide Sorted;
    FlatSorted(t);
    assert (path + [ToLeft(t.item, t.right)])[..|path|] == path;
  }

  method DeleteRangeLoop(from: Interval, to: Interval, root: Tree) returns (rest: Tree, out: seq<Item>)
    requires AtMost(from, to) && Sorted(Flat(root))
    ensures out == Select(KeyRange(from, to), Flat(root)) && Flat(rest) == Reject(KeyRange(from, to), Flat(root))
  {
    hide Sorted, Select, Reject, PassedBy, Flat, Plug;
    var path := [];
    var node := root;
    PassStart(from, to, root);
    while node.Branch?
      invariant Plug(path, node) == root && PassedBy(from, to, path) && Sorted(Flat(node))
      decreases node
    {
      if (AtMost(from, node.item.key) && Less(node.item.key, to)) || node.item.key == from {
        rest, out := DeleteAtTop(from, to, node);
        Spliced(from, to, path, node, rest, out);
        rest := Plug(path, rest);
        return;
      } else if Less(node.item.key, from) {
        PassRight(from, to, path, node);
        path := path + [ToRight(node.item, node.left)];
        node := node.right;
      } else {
        PassLeft(from, to, path, node);
        path := path + [ToLeft(node.item, node.right)];
        node := node.left;
      }
    }
    NothingInLeaf(KeyRange(from, to));
    Spliced(from, to, path, Leaf, Leaf, []);
    return root, [];
  }

  lemma {:induction false} Spliced(from: Interval, to: Interval, path: seq<Step>, t: Tree, rest: Tree, out: seq<Item>)
    requires PassedBy(from, to, path)
    requires out == Select(KeyRange(from, to), Flat(t)) && Flat(rest) == Reject(KeyRange(from, to), Flat(t))
    ensures out == Select(KeyRange(from, to), Flat(Plug(path, t)))
    ensures Flat(Plug(path, rest)) == Reject(KeyRange(from, to), Flat(Plug(path, t)))
  {
    hide *;
    PlugFlat(path, t);
    PlugFlat(path, rest);
    PassedSelect(from, to, path);
    SelectMiddle(KeyRange(from, to), FlatBefore(path), Flat(t), FlatAfter(path));
  }

  lemma {:induction false} PassedSelect(from: Interval, to: Interval, path: seq<Step>)
    requires PassedBy(from, to, path)
    ensures forall x :: x in FlatBefore(path) || x in FlatAfter(path) ==> !KeyRange(from, to)(x.key)
  {
  }

  /** What surrounds the selected part stays around it. */
  lemma {:induction false} SelectMiddle(p: Interval -> bool, b: seq<Item>, m: seq<Item>, a: seq<Item>)
    requires forall x :: x in b || x in a ==> !p(x.key)
    ensures Select(p, b + m + a) == Select(p, m) && Reject(p, b + m + a) == b + Reject(p, m) + a
  {
    hide *;
    SelectConcat(p, b + m, a);
    SelectConcat(p, b, m);
    SelectNone(p, b);
    SelectNone(p, a);
    assert [] + Select(p, m) + [] == Select(p, m);
  }

  //---- the tree as an object ----------------------------------------------------------------

  class BST {
    var root: Tree
    var size: nat

    ghost predicate Valid()
      reads this
    {
      Sorted(Flat(root)) && size == |Flat(root)|
    }

    constructor WithSorted(sorted: seq<Item>)
      requires Sorted(sorted)
      ensures Valid() && Flat(root) == sorted && root == Build(sorted)
    {
      BuildFlat(sorted);
      root, size := Build(sorted), |sorted|;
    }

    method DeleteRange(from: Interval, to: Interval) returns (out: seq<Item>)
      requires Valid() && AtMost(from, to)
      modifies this
      ensures Valid()
      ensures out == Select(KeyRange(from, to), old(Flat(root)))
      ensures Flat(root) == Reject(KeyRange(from, to), old(Flat(root)))
    {
      RejectSorted(KeyRange(from, to), Flat(root));
      SelectConserves(KeyRange(from, to), Flat(root));
      ghost var before := Flat(root);
      var rest;
      rest, out := DeleteRangeLoop(from, to, root);
      assert |multiset(before)| == |out| + |Flat(rest)|;
      root := rest;
      size := size - |out|;
    }
  }

  //---- iteration that rotates ---------------------------------------------------------------

  class ConsumeIter {
    var cur: Tree

    constructor (t: Tree)
      ensures cur == t
    {
      cur := t;
    }

    /** Rotates the left spine away until the root has no left child, and takes the root. */
    method Next() returns (item: Option<Item>)
      modifies this
      ensures item == None <==> old(cur) == Leaf
      ensures item == None ==> cur == Leaf
      ensures item.Some? ==> Flat(old(cur)) == [item.value] + Flat(cur)
    {
      if cur.Leaf? {
        return None;
      }
      var node := cur;
      while node.left.Branch?
        invariant node.Branch? && Flat(node) == Flat(old(cur))
        decreases node.left
      {
        var l := node.left;
        Rotated(node);
        node := Branch(l.item, l.left, Branch(node.item, l.right, node.right));
      }
      cur := node.right;
      assert Flat(node) == [] + [node.item] + Flat(node.right);
      item := Some(node.item);
    }
  }

  lemma {:induction false} Rotated(t: Tree)
    requires t.Branch? && t.left.Branch?
    ensures Flat(Branch(t.left.item, t.left.left, Branch(t.item, t.left.right, t.right))) == Flat(t)
  {
    var a, x, b, y, c := Flat(t.left.left), [t.left.item], Flat(t.left.right), [t.item], Flat(t.right);
    Assoc(a + x, b, y);
    Assoc(a + x, b + y, c);
  }

  class IntoIter {
    const inner: ConsumeIter
    var remaining: nat

    ghost predicate Valid()
      reads this, inner
    {
      remaining == |Flat(inner.cur)|
    }

    constructor (t: Tree, size: nat)
      requires size == |Flat(t)|
      ensures Valid() && inner.cur == t && fresh(inner)
    {
      inner := new ConsumeIter(t);
      remaining := size;
    }

    method Next() returns (item: Option<Item>)
      requires Valid()
      modifies this, inner
      ensures Valid()
      ensures item == None <==> old(inner.cur) == Leaf
      ensures item == None ==> inner.cur == Leaf
      ensures item.Some? ==>
                Flat(old(inner.cur)) == [item.value] + Flat(inner.cur) && remaining == old(remaining) - 1
    {
      item := inner.Next();
      if item.Some? {
        remaining := remaining - 1;
      }
    }
  }

  /** Runs the consuming iterator to its end: every item once, in order; the count of
      those still to come ends at 0. */
  method Drain(t: Tree, size: nat) returns (items: seq<Item>, remaining: nat)
    requires size == |Flat(t)|
    ensures items == Flat(t) && remaining == 0
  {
    var iter := new IntoIter(t, size);
    items := [];
    while true
      invariant iter.Valid() && fresh(iter) && fresh(iter.inner)
      invariant items + Flat(iter.inner.cur) == Flat(t)
      decreases iter.remaining
    {
      var item := iter.Next();
      if item == None {
        return items, iter.remaining;
      }
      items := items + [item.value];
    }
  }
}
