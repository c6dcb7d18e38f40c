/** The array representation of the tree, with the primitive steps on its cells. */
module TreeReprs {
  import opened HeapIndex
  import opened Items
  import opened Cells
  import opened Memory
  import opened BulkSpec
  import opened BulkSteps
  import opened SlotStacks
  import opened Traversal
  import opened SingleDelete
  import IntervalDelete
  import Layout

  /** Height of the part of a raw node vector that hangs together with `idx`. */
  function CalcHeight(nodes: seq<Option<Node>>, idx: nat): nat
    decreases |nodes| - idx
  {
    if idx < |nodes| && nodes[idx].Some? then
      var l, r := CalcHeight(nodes, LeftOf(idx)), CalcHeight(nodes, RightOf(idx));
      1 + if l >= r then l else r
    else
      0
  }

  ghost predicate IsSome(nodes: seq<Option<Node>>, idx: nat) {
    idx < |nodes| && nodes[idx].Some?
  }

  /** A raw node vector in which every node's parent is present. */
  ghost predicate TidyShape(nodes: seq<Option<Node>>) {
    forall i :: i > 0 && IsSome(nodes, i) ==> IsSome(nodes, ParentOf(i))
  }

  function CountSome(nodes: seq<Option<Node>>): nat {
    if nodes == [] then 0
    else CountSome(nodes[..|nodes| - 1]) + if nodes[|nodes| - 1].Some? then 1 else 0
  }

  lemma {:induction false} NothingBelowNone(nodes: seq<Option<Node>>, r: nat, i: nat)
    requires TidyShape(nodes) && Below(r, i) && IsSome(nodes, i)
    ensures IsSome(nodes, r)
    decreases i
  {
    if i != r {
      NothingBelowNone(nodes, r, ParentOf(i));
    }
  }

  lemma {:induction false} HeightBoundsDepth(nodes: seq<Option<Node>>, r: nat, i: nat)
    requires TidyShape(nodes) && Below(r, i) && IsSome(nodes, i)
    ensures Depth(i) < Depth(r) + CalcHeight(nodes, r)
    decreases |nodes| - r
  {
    NothingBelowNone(nodes, r, i);
    BelowSplit(r, i);
    if i != r {
      HeightBoundsDepth(nodes, if Below(LeftOf(r), i) then LeftOf(r) else RightOf(r), i);
    }
  }

  /** Some node is as deep as the height says. */
  lemma {:induction false} HeightAttained(nodes: seq<Option<Node>>, r: nat) returns (i: nat)
    requires IsSome(nodes, r)
    ensures Below(r, i) && IsSome(nodes, i) && Depth(i) + 1 == Depth(r) + CalcHeight(nodes, r)
    decreases |nodes| - r
  {
    var l, k := LeftOf(r), RightOf(r);
    if !IsSome(nodes, l) && !IsSome(nodes, k) {
      return r;
    }
    i := HeightAttained(nodes, if CalcHeight(nodes, l) >= CalcHeight(nodes, k) then l else k);
    BelowSplit(r, i);
    assert ParentOf(l) == r && ParentOf(k) == r;
  }

  ghost function Prefix(c: seq<Cell>, n: nat): seq<Cell> {
    seq(|c|, i requires 0 <= i < |c| => Cell(c[i].node, c[i].live && i < n))
  }

  lemma {:induction false} NoneLive(c: seq<Cell>, r: nat)
    requires forall i :: !Live(c, i)
    ensures Inorder(c, r) == []
    decreases |c| - r
  {
    if r < |c| {
      NoneLive(c, LeftOf(r));
      NoneLive(c, RightOf(r));
    }
  }

  /** The in-order sequence has one item for every live cell. */
  lemma {:induction false} InorderCounts(c: seq<Cell>, nodes: seq<Option<Node>>, n: nat)
    requires |c| == |nodes| && n <= |c|
    requires forall i :: Live(c, i) <==> IsSome(nodes, i)
    ensures |Inorder(Prefix(c, n), 0)| == CountSome(nodes[..n])
  {
    if n == 0 {
      NoneLive(Prefix(c, 0), 0);
    } else {
      InorderCounts(c, nodes, n - 1);
      assert nodes[..n][..n - 1] == nodes[..n - 1];
      var c0, c1 := Prefix(c, n - 1), Prefix(c, n);
      BelowRoot(n - 1);
      UpdateCount(c0, c1, 0, n - 1);
      assert Live(c, n - 1) <==> IsSome(nodes, n - 1);
    }
  }

  lemma {:induction false} ShapeFacts(c: seq<Cell>, nodes: seq<Option<Node>>)
    requires |c| == |nodes|
    requires forall i :: Live(c, i) <==> IsSome(nodes, i)
    ensures |Inorder(c, 0)| == CountSome(nodes)
    ensures TidyShape(nodes) ==> forall i :: Live(c, i) ==> Depth(i) < CalcHeight(nodes, 0)
  {
    InorderCounts(c, nodes, |nodes|);
    assert Prefix(c, |nodes|) == c;
    assert nodes[..|nodes|] == nodes;
    forall i: nat | TidyShape(nodes) && Live(c, i)
      ensures Depth(i) < CalcHeight(nodes, 0)
    {
      assert IsSome(nodes, i);
      BelowRoot(i);
      HeightBoundsDepth(nodes, 0, i);
    }
  }

  lemma {:induction false} DepthFits(m: Mem, b: nat)
    requires m.peaks == Peaks(0, 0) && forall i :: Live(m.c, i) ==> Depth(i) < b
    ensures Within(m, b)
  {
    forall j: nat | Live(m.c, j)
      ensures LeftTurns(j) <= b && RightTurns(j) <= b
    {
      TurnsAreDepth(j);
    }
  }

  /** The node and mask arrays of a raw node vector. */
  method CopyNodes(nodes: seq<Option<Node>>) returns (data: array<Node>, mask: array<bool>)
    ensures fresh(data) && fresh(mask)
    ensures data.Length == mask.Length == |nodes|
    ensures forall j :: 0 <= j < |nodes| ==> mask[j] == nodes[j].Some?
    ensures forall j :: 0 <= j < |nodes| && nodes[j].Some? ==> data[j] == nodes[j].value
  {
    data := new Node[|nodes|];
    mask := new bool[|nodes|];
    for i := 0 to |nodes|
      invariant forall j :: 0 <= j < i ==> mask[j] == nodes[j].Some?
      invariant forall j :: 0 <= j < i && nodes[j].Some? ==> data[j] == nodes[j].value
    {
      mask[i] := nodes[i].Some?;
      if nodes[i].Some? {
        data[i] := nodes[i].value;
      }
    }
  }

  /** The node and mask arrays of a tree without gaps. */
  method BuildNodes(sorted: seq<Item>) returns (data: array<Node>, mask: array<bool>, height: nat)
    ensures fresh(data) && fresh(mask)
    ensures data.Length == mask.Length == |sorted| && forall i :: 0 <= i < mask.Length ==> mask[i]
    ensures var c := Layout.Full(data);
            && |c| == |sorted| && (forall i :: 0 <= i < |c| ==> c[i].live)
            && Inorder(c, 0) == sorted && Tidy(c, 0) && IntervalDelete.FreshBounds(c)
            && forall i :: Live(c, i) ==> Depth(i) < height
    ensures Layout.HeightOf(|sorted|, height)
  {
    hide Inorder, Tidy, Depth, Layout.Holds, Layout.HeightOf, Layout.Count, Layout.OnlyBelow;
    data := new Node[|sorted|];
    mask := new bool[|sorted|](_ => true);
    Layout.CountAll(|sorted|);
    ghost var written;
    height, written := Layout.Build(sorted, 0, data);
    Layout.Built(Layout.Full(data), sorted, height);
  }

  class TreeRepr {
    const data: array<Node>
    const mask: array<bool>
    var size: nat
    const slotsMin: SlotStack
    const slotsMax: SlotStack
    ghost var hidden: set<nat>

    ghost const Footprint: set<object>

    /** A tree of the given shape.  The capacity of the slot stacks is the height of what
        hangs together with the root. */
    constructor WithNodes(nodes: seq<Option<Node>>)
      ensures Valid() && fresh(Footprint)
      ensures |View()| == |nodes|
      ensures forall i :: Live(View(), i) <==> IsSome(nodes, i)
      ensures forall i: nat :: IsSome(nodes, i) ==> View()[i].node == nodes[i].value
      ensures Quiet(Mem()) && Mem().peaks == Peaks(0, 0)
      ensures Capacity() == CalcHeight(nodes, 0)
      ensures TidyShape(nodes) ==> Roomy()
    {
      var height := CalcHeight(nodes, 0);
      var d, m := CopyNodes(nodes);
      var smin := new SlotStack(height, |nodes|);
      var smax := new SlotStack(height, |nodes|);
      data, mask, slotsMin, slotsMax := d, m, smin, smax;
      size := CountSome(nodes);
      hidden := {};
      Footprint := {this, d, m, smin, smax, smin.slots, smax.slots};
      new;
      assert forall i :: Live(View(), i) <==> IsSome(nodes, i);
      ShapeFacts(View(), nodes);
      if TidyShape(nodes) {
        DepthsFit();
      }
    }

    lemma {:induction false} FollowsShape(shape: seq<Option<Item>>)
      requires Valid()
      requires var nodes := Layout.ShapeNodes(shape);
               && |View()| == |nodes|
               && (forall i :: Live(View(), i) <==> IsSome(nodes, i))
               && (forall i: nat :: IsSome(nodes, i) ==> View()[i].node == nodes[i].value)
      ensures Inorder(Mem().c, 0) == Layout.ShapeItems(shape, 0)
      ensures Tidy(Mem().c, 0) <==> Layout.TidyItems(shape)
      ensures IntervalDelete.FreshBounds(Mem().c)
    {
      hide Inorder, Tidy;
      var nodes := Layout.ShapeNodes(shape);
      forall i: nat
        ensures Live(View(), i) <==> Layout.Given(shape, i)
        ensures Live(View(), i) ==> View()[i].node == Layout.NewNode(shape[i].value)
      {
        assert Live(View(), i) <==> IsSome(nodes, i);
      }
      Layout.ShapeLaid(View(), shape, 0);
      Layout.ShapeTidy(View(), shape);
    }

    lemma {:induction false} FullView()
      requires data.Length == mask.Length && forall i :: 0 <= i < mask.Length ==> mask[i]
      ensures View() == Layout.Full(data)
    {
    }

    /** A tree without gaps that holds the list. */
    constructor WithSorted(sorted: seq<Item>)
      ensures Valid() && fresh(Footprint)
      ensures Inorder(Mem().c, 0) == sorted && |Mem().c| == |sorted| && size == |sorted|
      ensures Tidy(Mem().c, 0)
      ensures forall i :: 0 <= i < |sorted| ==> Live(Mem().c, i)
      ensures IntervalDelete.FreshBounds(Mem().c)
      ensures Quiet(Mem()) && Mem().peaks == Peaks(0, 0)
      ensures Layout.HeightOf(|sorted|, Capacity()) && Roomy()
    {
      hide Inorder, Tidy, Depth, Layout.HeightOf, Layout.Full;
      var d, m, height := BuildNodes(sorted);
      var smin := new SlotStack(height, |sorted|);
      var smax := new SlotStack(height, |sorted|);
      data, mask, slotsMin, slotsMax, size, hidden := d, m, smin, smax, |sorted|, {};
      Footprint := {this, d, m, smin, smax, smin.slots, smax.slots};
      new;
      FullView();
      DepthsFit();
    }

    lemma {:induction false} DepthsFit()
      requires Valid() && Mem().peaks == Peaks(0, 0)
      requires forall i :: Live(Mem().c, i) ==> Depth(i) < Capacity()
      ensures Roomy()
    {
      DepthFits(Mem(), Capacity());
    }

    /** Copies the cells of a tree of the same length.  The slot stacks are left as they
        are, with the capacity they were built with. */
    method Refill(master: TreeRepr)
      requires Valid() && master.Valid() && Footprint !! master.Footprint
      requires data.Length == master.data.Length
      modifies this`size, data, mask
      ensures Valid() && master.Valid() && master.Mem() == old(master.Mem())
      ensures Mem() == old(Mem()).(c := master.Mem().c) && size == master.size
    {
      for i := 0 to data.Length
        modifies data, mask
        invariant master.data[..] == old(master.data[..]) && master.mask[..] == old(master.mask[..])
        invariant data[..i] == master.data[..i] && mask[..i] == master.mask[..i]
      {
        data[i] := master.data[i];
        mask[i] := master.mask[i];
      }
      size := master.size;
      assert data[..] == data[..data.Length] && mask[..] == mask[..data.Length];
      assert forall i :: 0 <= i < data.Length ==> data[i] == data[..][i] && mask[i] == mask[..][i];
      assert forall i :: 0 <= i < data.Length ==> master.data[i] == master.data[..][i] && master.mask[i] == master.mask[..][i];
      assert View() == master.View();
    }

    /** The cells as a value. */
    ghost function View(): seq<Cell>
      reads data, mask
      requires data.Length == mask.Length
    {
      seq(data.Length, i requires 0 <= i < data.Length reads data, mask => Cell(data[i], mask[i]))
    }

    /** `size` counts the live cells, and each stack has memory for every cell. */
    ghost predicate Valid()
      reads this, Footprint, data, mask, slotsMin, slotsMax, slotsMin.slots, slotsMax.slots
    {
      && Footprint == {this, data, mask, slotsMin, slotsMax, slotsMin.slots, slotsMax.slots}
      && data.Length == mask.Length
      && slotsMin != slotsMax && slotsMin.slots != slotsMax.slots
      && slotsMin.Valid() && slotsMax.Valid()
      && slotsMin.slots.Length == slotsMax.slots.Length == data.Length
      && slotsMin.capacity == slotsMax.capacity
      && size == |Inorder(View(), 0)|
    }

    ghost function Mem(): Mem
      reads this, Footprint, data, mask, slotsMin, slotsMax, slotsMin.slots, slotsMax.slots
      requires Valid()
    {
      Memory.Mem(View(), slotsMin.View(), slotsMax.View(), hidden, Peaks(slotsMin.peak, slotsMax.peak))
    }

    ghost function Capacity(): nat {
      slotsMin.capacity
    }

    /** A push has passed the capacity of its stack. */
    ghost predicate Overrun()
      reads this, Footprint, data, mask, slotsMin, slotsMax, slotsMin.slots, slotsMax.slots
      requires Valid()
    {
      Mem().peaks.min > Capacity() || Mem().peaks.max > Capacity()
    }

    /** No push has passed the capacity, and no path to a node turns left, or right, more
        often than the stacks can follow. */
    ghost predicate Roomy()
      reads this, Footprint, data, mask, slotsMin, slotsMax, slotsMin.slots, slotsMax.slots
      requires Valid()
      ensures Roomy() <==> !Overrun() && TurnsWithin(Mem().c, Capacity())
    {
      Within(Mem(), Capacity())
    }

    predicate IsNil(idx: nat)
      reads this, Footprint, data, mask, slotsMin, slotsMax, slotsMin.slots, slotsMax.slots
      requires Valid()
      ensures IsNil(idx) <==> !Live(Mem().c, idx)
      ensures !IsNil(idx) ==> idx < data.Length
    {
      idx >= data.Length || !mask[idx]
    }

    predicate HasLeft(idx: nat)
      reads this, Footprint, data, mask, slotsMin, slotsMax, slotsMin.slots, slotsMax.slots
      requires Valid()
      ensures HasLeft(idx) <==> Live(Mem().c, LeftOf(idx))
      ensures HasLeft(idx) ==> LeftOf(idx) < data.Length
    {
      !IsNil(LeftOf(idx))
    }

    predicate HasRight(idx: nat)
      reads this, Footprint, data, mask, slotsMin, slotsMax, slotsMin.slots, slotsMax.slots
      requires Valid()
      ensures HasRight(idx) <==> Live(Mem().c, RightOf(idx))
      ensures HasRight(idx) ==> RightOf(idx) < data.Length
    {
      !IsNil(RightOf(idx))
    }

    function GetNode(idx: nat): (node: Node)
      reads this, Footprint, data, mask, slotsMin, slotsMax, slotsMin.slots, slotsMax.slots
      requires Valid() && idx < |Mem().c|
      ensures node == Mem().c[idx].node
    {
      data[idx]
    }

    /** The topmost node with the given key, or the nil cell where it would go. */
    method IndexOf(query: Interval) returns (idx: nat)
      requires Valid() && Tidy(Mem().c, 0) && Sorted(Inorder(Mem().c, 0))
      requires data.Length > 0 ==> Live(Mem().c, 0)
      ensures Sought(Mem().c, query, idx)
      ensures Live(Mem().c, idx) ==> Mem().c[idx].node.item.key == query
      ensures idx > 0 ==> Live(Mem().c, ParentOf(idx))
      ensures idx == Locate(Mem().c, query, 0)
    {
      hide *;
      ghost var c := Mem().c;
      SearchStarts(c, query);
      idx := 0;
      if data.Length == 0 {
        OutOfRange(0);
        SearchEnds(c, query, 0);
        return;
      }
      while true
        invariant Sought(c, query, idx) && Live(c, idx)
        invariant idx > 0 ==> Live(c, ParentOf(idx))
        invariant Locate(c, query, idx) == Locate(c, query, 0)
        decreases data.Length - idx
      {
        InRange(idx);
        var k := GetNode(idx).item.key;
        if query == k {
          SearchEnds(c, query, idx);
          return;
        }
        SearchOn(c, query, idx);
        if Less(query, k) {
          idx := LeftOf(idx);
        } else {
          idx := RightOf(idx);
        }
        if IsNil(idx) {
          SearchEnds(c, query, idx);
          return;
        }
      }
    }

    lemma {:induction false} InRange(idx: nat)
      requires Valid() && Live(Mem().c, idx)
      ensures idx < |Mem().c| == data.Length
    {
    }

    lemma {:induction false} OutOfRange(idx: nat)
      requires Valid() && idx >= data.Length
      ensures !Live(Mem().c, idx)
    {
    }

    /** The node after `curr` within the subtree at `root`, if there is one. */
    method NextIdx(root: nat, curr: nat) returns (next: Option<nat>)
      requires Valid() && Below(root, curr)
      requires Ahead(Mem().c, root, curr) && Tidy(Mem().c, RightOf(curr))
      ensures next == None ==> Inorder(Mem().c, RightOf(curr)) + After(Mem().c, root, curr) == []
      ensures next.Some? ==>
                && Walking(Mem().c, root, next.value)
                && Rest(Mem().c, root, next.value) == Inorder(Mem().c, RightOf(curr)) + After(Mem().c, root, curr)
      ensures next == Successor(Mem().c, root, curr)
    {
      hide Valid, Inorder, Tidy, Ahead, Walking, After, Rest;
      if HasRight(curr) {
        GoRight(Mem().c, root, curr);
        var min := FindMin(RightOf(curr));
        next := Some(min);
      } else {
        NilIsEmpty(Mem().c, RightOf(curr));
        Climb(Mem().c, root, curr);
        assert [] + After(Mem().c, root, curr) == After(Mem().c, root, curr);
        var enclosing := LeftEnclosing(curr + 1);
        if enclosing <= root + 1 {
          next := None;
        } else {
          next := Some(ParentOf(enclosing - 1));
        }
      }
    }

    /** The index that the source calls the successor.  Without a right child it is where
        the walk goes on; otherwise it is the right child, and that is where the walk goes on
        exactly if it has no left child. */
    method Succ(idx: nat) returns (succ: nat)
      requires Valid()
      ensures Below(0, idx)
      ensures Ahead(Mem().c, 0, idx) && Tidy(Mem().c, RightOf(idx)) ==>
                (GoesOnAt(Mem().c, idx, succ)
                 <==> !Live(Mem().c, RightOf(idx)) || !Live(Mem().c, LeftOf(RightOf(idx))))
      ensures Live(Mem().c, RightOf(idx)) ==> succ == RightOf(idx)
    {
      hide Inorder, Tidy, Ahead, GoesOnAt;
      ghost var c := Mem().c;
      BelowRoot(idx);
      if HasRight(idx) {
        succ := RightOf(idx);
        if Ahead(c, 0, idx) && Tidy(c, RightOf(idx)) {
          RightChildFollows(c, idx);
        }
      } else {
        LeftEnclosingIsEnclosing(idx + 1);
        EnclosingIsAbove(idx + 1);
        var left := LeftEnclosing(idx + 1);
        succ := if left == 0 then data.Length else ParentOf(left - 1);
        if Ahead(c, 0, idx) && Tidy(c, RightOf(idx)) {
          GapFollows(c, idx);
        }
      }
    }

    /** Down the left spine of a subtree. */
    method FindMin(idx: nat) returns (min: nat)
      requires Valid()
      ensures min == Leftmost(Mem().c, idx)
    {
      min := idx;
      while HasLeft(min)
        invariant Leftmost(Mem().c, min) == Leftmost(Mem().c, idx)
        decreases data.Length - min
      {
        min := LeftOf(min);
      }
    }

    method FindMax(idx: nat) returns (max: nat)
      requires Valid()
      ensures max == Rightmost(Mem().c, idx)
    {
      max := idx;
      while HasRight(max)
        invariant Rightmost(Mem().c, max) == Rightmost(Mem().c, idx)
        decreases data.Length - max
      {
        max := RightOf(max);
      }
    }

    /** Takes a node out; the cell keeps a stale copy. */
    method Take(idx: nat) returns (node: Node)
      requires Valid() && Live(Mem().c, idx)
      modifies Footprint
      ensures Valid() && Mem() == BulkSpec.Take(old(Mem()), idx)
      ensures node == old(Mem()).c[idx].node
      ensures size == old(size) - 1
    {
      node := data[idx];
      BelowRoot(idx);
      ghost var c0 := View();
      mask[idx] := false;
      assert View() == Cleared(c0, idx);
      UpdateCount(c0, View(), 0, idx);
      size := size - 1;
    }

    /** Moves a node to a nil cell. */
    method MoveFromTo(src: nat, dst: nat)
      requires Valid() && Live(Mem().c, src) && !Live(Mem().c, dst) && dst < |Mem().c|
      modifies Footprint
      ensures Valid() && Mem() == old(Mem()).(c := MovedCell(old(Mem()).c, src, dst))
    {
      ghost var c0 := View();
      var node := data[src];
      mask[src] := false;
      ghost var c1 := View();
      assert c1 == Cleared(c0, src);
      mask[dst] := true;
      data[dst] := node;
      assert View() == MovedCell(c0, src, dst);
      BelowRoot(src);
      BelowRoot(dst);
      UpdateCount(c0, c1, 0, src);
      UpdateCount(c1, View(), 0, dst);
    }

    method SetMaxb(idx: nat, maxb: int)
      requires Valid() && idx < |Mem().c|
      modifies Footprint
      ensures Valid() && Mem() == WithMaxb(old(Mem()), idx, maxb)
    {
      ghost var c0 := View();
      data[idx] := Node(data[idx].item, maxb);
      assert View() == c0[idx := Cell(Node(c0[idx].node.item, maxb), c0[idx].live)];
      BelowRoot(idx);
      UpdateCount(c0, View(), 0, idx);
    }

    /** Puts another item into a live cell and returns the old one. */
    method ReplaceItem(idx: nat, item: Item) returns (replaced: Item)
      requires Valid() && Live(Mem().c, idx)
      modifies Footprint
      ensures Valid() && replaced == old(Mem()).c[idx].node.item
      ensures Mem() == old(Mem()).(c := IntervalDelete.Replaced(old(Mem()).c, idx, item))
    {
      ghost var c0 := View();
      replaced := data[idx].item;
      data[idx] := Node(item, data[idx].maxb);
      assert View() == c0[idx := Cell(Node(item, c0[idx].node.maxb), c0[idx].live)];
      BelowRoot(idx);
      UpdateCount(c0, View(), 0, idx);
    }

    //---- the slot stacks ---------------------------------------------------------------

    method PushMin(idx: nat)
      requires Valid() && slotsMin.nslots < slotsMin.slots.Length
      modifies Footprint
      ensures Valid() && Mem() == BulkSpec.PushMin(old(Mem()), idx)
    {
      slotsMin.Push(idx);
    }

    method PushMax(idx: nat)
      requires Valid() && slotsMax.nslots < slotsMax.slots.Length
      modifies Footprint
      ensures Valid() && Mem() == BulkSpec.PushMax(old(Mem()), idx)
    {
      slotsMax.Push(idx);
    }

    method PopMin() returns (idx: nat)
      requires Valid() && Mem().smin.idx != []
      modifies Footprint
      ensures Valid() && Mem() == old(Mem()).(smin := PopSlot(old(Mem()).smin))
      ensures idx == old(Mem()).smin.idx[|old(Mem()).smin.idx| - 1]
    {
      idx := slotsMin.Pop();
    }

    method PopMax() returns (idx: nat)
      requires Valid() && Mem().smax.idx != []
      modifies Footprint
      ensures Valid() && Mem() == old(Mem()).(smax := PopSlot(old(Mem()).smax))
      ensures idx == old(Mem()).smax.idx[|old(Mem()).smax.idx| - 1]
    {
      idx := slotsMax.Pop();
    }

    method FillMin() returns (dst: nat)
      requires Valid() && Open(Mem().smin) > 0
      modifies Footprint
      ensures Valid() && Mem() == old(Mem()).(smin := FilledSlot(old(Mem()).smin))
      ensures dst == old(Mem()).smin.idx[old(Mem()).smin.nfilled]
    {
      dst := slotsMin.Fill();
    }

    method FillMax() returns (dst: nat)
      requires Valid() && Open(Mem().smax) > 0
      modifies Footprint
      ensures Valid() && Mem() == old(Mem()).(smax := FilledSlot(old(Mem()).smax))
      ensures dst == old(Mem()).smax.idx[old(Mem()).smax.nfilled]
    {
      dst := slotsMax.Fill();
    }

    /** Makes all open max slots look filled; returns the true count. */
    method HideMax() returns (nfilled: nat)
      requires Valid()
      modifies Footprint
      ensures Valid() && Mem() == Hide(old(Mem())) && nfilled == old(Mem()).smax.nfilled
    {
      nfilled := slotsMax.nfilled;
      hidden := hidden + OpenSlots(slotsMax.View());
      slotsMax.nfilled := slotsMax.nslots;
    }

    method ShowMax(nfilled: nat, ghost before: set<nat>)
      requires Valid() && nfilled <= |Mem().smax.idx|
      modifies Footprint
      ensures Valid()
      ensures Mem() == old(Mem()).(smax := Slots(old(Mem()).smax.idx, nfilled), hidden := before)
    {
      slotsMax.nfilled := nfilled;
      hidden := before;
    }

    predicate MinOpen()
      reads this, Footprint, data, mask, slotsMin, slotsMax, slotsMin.slots, slotsMax.slots
      requires Valid()
      ensures MinOpen() <==> Open(Mem().smin) > 0
    {
      slotsMin.HasOpen()
    }

    predicate MaxOpen()
      reads this, Footprint, data, mask, slotsMin, slotsMax, slotsMin.slots, slotsMax.slots
      requires Valid()
      ensures MaxOpen() <==> Open(Mem().smax) > 0
    {
      slotsMax.HasOpen()
    }

    /** There is memory for the slot of a node that is about to lead down to a child. */
    lemma {:induction false} MemoryFor(idx: nat, child: nat)
      requires Valid() && SlotsOk(Mem(), idx)
      requires (child == LeftOf(idx) || child == RightOf(idx)) && Live(Mem().c, child)
      ensures slotsMin.nslots < slotsMin.slots.Length && slotsMax.nslots < slotsMax.slots.Length
    {
      TurnsAreDepth(idx);
    }
  }
}
