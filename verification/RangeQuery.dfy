/** The range query of the plain tree: what it yields, and when that is exact. */
module RangeQuery {
  import opened HeapIndex
  import opened Items
  import opened Cells
  import opened Traversal
  import opened RangeLoop
  import opened SingleDelete
  import opened Selections
  import BulkRanges

  /** What comes at or after the place where the search for a key ends. */
  ghost function Tail(c: seq<Cell>, i: nat): seq<Item>
    requires Below(0, i)
  {
    if Live(c, i) then Rest(c, 0, i) else After(c, 0, i)
  }

  ghost function Skipped(c: seq<Cell>, i: nat): seq<Item>
    requires Below(0, i)
  {
    Before(c, 0, i) + if Live(c, i) then Inorder(c, LeftOf(i)) else []
  }

  lemma {:induction false} TailSplit(c: seq<Cell>, i: nat)
    requires Below(0, i) && Tidy(c, 0)
    ensures Inorder(c, 0) == Skipped(c, i) + Tail(c, i)
  {
    Around(c, 0, i);
    var b, a := Before(c, 0, i), After(c, 0, i);
    if Live(c, i) {
      AroundStep(c, i);
      AroundSeq(b, Inorder(c, LeftOf(i)), At(c, i), Inorder(c, RightOf(i)), a);
      Assoc(At(c, i), Inorder(c, RightOf(i)), a);
    } else {
      TidyBelow(c, 0, i);
      NilIsEmpty(c, i);
      assert b + [] + a == b + [] + a;
    }
  }

  /** A node keyed `from` to the left of the topmost one. */
  ghost predicate Duplicated(c: seq<Cell>, from: Interval, i: nat) {
    Live(c, i) && exists x :: x in Inorder(c, LeftOf(i)) && x.key == from
  }

  /** The items of the tail are at or after the start; those skipped are before it, but
      for items equal to the start in the left subtree of the topmost such node. */
  lemma {:induction false} TailBounds(c: seq<Cell>, from: Interval, i: nat)
    requires Tidy(c, 0) && Sorted(Inorder(c, 0)) && Sought(c, from, i)
    requires Live(c, i) ==> c[i].node.item.key == from
    ensures Sorted(Tail(c, i))
    ensures forall x :: x in Tail(c, i) ==> AtMost(from, x.key)
    ensures forall x :: x in Before(c, 0, i) ==> Less(x.key, from)
    ensures Live(c, i) ==> forall x :: x in Inorder(c, LeftOf(i)) ==> AtMost(x.key, from)
  {
    TailSplit(c, i);
    SortedSplit(Skipped(c, i), Tail(c, i));
    if Live(c, i) {
      SoughtSorted(c, i);
      BulkRanges.SortedAround(c, i);
    }
  }

  /** The query yields all items in range exactly if the topmost node keyed `from` has
      no equal one to its left. */
  lemma {:induction false} QueryExact(c: seq<Cell>, from: Interval, to: Interval, i: nat)
    requires AtMost(from, to)
    requires Tidy(c, 0) && Sorted(Inorder(c, 0)) && Sought(c, from, i)
    requires Live(c, i) ==> c[i].node.item.key == from
    ensures Select(KeyRange(from, to), Tail(c, i)) == Select(KeyRange(from, to), Inorder(c, 0))
            <==> !Duplicated(c, from, i)
  {
    hide Inorder, Before, After, Tidy, Select, Sorted;
    var p := KeyRange(from, to);
    TailBounds(c, from, i);
    TailSplit(c, i);
    SelectConcat(p, Skipped(c, i), Tail(c, i));
    var l := if Live(c, i) then Inorder(c, LeftOf(i)) else [];
    SelectConcat(p, Before(c, 0, i), l);
    SelectNone(p, Before(c, 0, i));
    assert Select(p, Skipped(c, i)) == Select(p, l);
    if Duplicated(c, from, i) {
      var x :| x in Inorder(c, LeftOf(i)) && x.key == from;
      InReject(p, l, x);
      assert |Select(p, Inorder(c, 0))| > |Select(p, Tail(c, i))|;
    } else {
      SelectNone(p, l);
      assert [] + Select(p, Tail(c, i)) == Select(p, Tail(c, i));
    }
  }

  lemma {:induction false} TwoPlaces(c: seq<Cell>, from: Interval, i: nat)
    requires Tidy(c, 0) && Below(0, i) && (Live(c, i) ==> c[i].node.item.key == from)
    requires Duplicated(c, from, i)
    ensures exists j, k :: 0 <= j < k < |Inorder(c, 0)|
              && Inorder(c, 0)[j].key == from && Inorder(c, 0)[k].key == from
  {
    hide Inorder, Tidy, Before, After;
    TailSplit(c, i);
    assert Tail(c, i)[0] == c[i].node.item;
    TwoPlacesSeq(Before(c, 0, i), Inorder(c, LeftOf(i)), Tail(c, i), from);
  }

  lemma {:induction false} TwoPlacesSeq(b: seq<Item>, l: seq<Item>, t: seq<Item>, from: Interval)
    requires t != [] && t[0].key == from && exists x :: x in l && x.key == from
    ensures var s := (b + l) + t;
            exists j, k :: 0 <= j < k < |s| && s[j].key == from && s[k].key == from
  {
    var s := (b + l) + t;
    var j :| 0 <= j < |l| && l[j].key == from;
    assert s[|b| + j] == l[j];
    assert s[|b + l|] == t[0];
  }

  /** If the start occurs at most once, the query is exact. */
  lemma {:induction false} QueryExactIfUnique(c: seq<Cell>, from: Interval, i: nat)
    requires Tidy(c, 0) && Below(0, i) && (Live(c, i) ==> c[i].node.item.key == from)
    requires forall j, k :: 0 <= j < k < |Inorder(c, 0)| ==>
               !(Inorder(c, 0)[j].key == from && Inorder(c, 0)[k].key == from)
    ensures !Duplicated(c, from, i)
  {
    if Duplicated(c, from, i) {
      TwoPlaces(c, from, i);
    }
  }

  /** Two equal items, the one to the left below the other: the query for that key
      misses one of them. */
  lemma {:induction false} DuplicateMissed(k: Interval, v: Value, w: Value)
    ensures var c := [Cell(Node(Item(k, v), k.b), true), Cell(Node(Item(k, w), k.b), true)];
            && Tidy(c, 0) && Sorted(Inorder(c, 0)) && Sought(c, k, 0) && Locate(c, k, 0) == 0
            && Select(KeyRange(k, k), Tail(c, 0)) != Select(KeyRange(k, k), Inorder(c, 0))
  {
    var c := [Cell(Node(Item(k, v), k.b), true), Cell(Node(Item(k, w), k.b), true)];
    assert Inorder(c, 3) == [] && Inorder(c, 4) == [] && Inorder(c, 2) == [];
    assert Inorder(c, 1) == [Item(k, w)];
    assert Inorder(c, 0) == [Item(k, w), Item(k, v)];
    assert LeftOf(0) == 1 && Item(k, w) in Inorder(c, LeftOf(0));
    assert Tidy(c, 3) && Tidy(c, 4) && Tidy(c, 2);
    assert Tidy(c, 1);
    QueryExact(c, k, k, 0);
  }

  /** Past the first item out of range there is none in range. */
  lemma {:induction false} NothingAfter(from: Interval, to: Interval, s: seq<Item>)
    requires AtMost(from, to) && Sorted(s) && s != [] && AtMost(to, s[0].key) && from != s[0].key
    requires AtMost(from, s[0].key)
    ensures Select(KeyRange(from, to), s) == []
  {
    forall x | x in s
      ensures !InRange(from, to, x.key)
    {
      assert AtMost(s[0].key, x.key);
    }
    SelectNone(KeyRange(from, to), s);
  }

  /** The walk of the query stands at `i`: what it has seen is in range and sent. */
  ghost predicate Querying(c: seq<Cell>, from: Interval, to: Interval, tail: seq<Item>, seen: seq<Item>, i: nat) {
    && Walking(c, 0, i) && seen + Rest(c, 0, i) == tail
    && (forall x :: x in seen ==> InRange(from, to, x.key))
  }

  lemma {:induction false} QueryStop(c: seq<Cell>, from: Interval, to: Interval, tail: seq<Item>, seen: seq<Item>, i: nat)
    requires Querying(c, from, to, tail, seen, i) && AtMost(from, to)
    requires Sorted(tail) && forall x :: x in tail ==> AtMost(from, x.key)
    requires AtMost(to, c[i].node.item.key) && from != c[i].node.item.key
    ensures seen == Select(KeyRange(from, to), tail)
  {
    var r := Rest(c, 0, i);
    SortedSplit(seen, r);
    assert r[0] == c[i].node.item;
    assert r[0] in tail;
    NothingAfter(from, to, r);
    SelectConcat(KeyRange(from, to), seen, r);
    SelectAll(KeyRange(from, to), seen);
  }

  lemma {:induction false} QueryStep(c: seq<Cell>, from: Interval, to: Interval, tail: seq<Item>, seen: seq<Item>, i: nat, next: Option<nat>)
    requires Querying(c, from, to, tail, seen, i) && AtMost(from, to)
    requires forall x :: x in tail ==> AtMost(from, x.key)
    requires !(AtMost(to, c[i].node.item.key) && from != c[i].node.item.key)
    requires next == None ==> Inorder(c, RightOf(i)) + After(c, 0, i) == []
    requires next.Some? ==>
               Walking(c, 0, next.value) && Rest(c, 0, next.value) == Inorder(c, RightOf(i)) + After(c, 0, i)
    ensures var seen' := seen + [c[i].node.item];
            && (next.Some? ==> Querying(c, from, to, tail, seen', next.value))
            && (next == None ==> seen' == Select(KeyRange(from, to), tail))
  {
    var x, r := c[i].node.item, Inorder(c, RightOf(i)) + After(c, 0, i);
    Assoc([x], Inorder(c, RightOf(i)), After(c, 0, i));
    Assoc(seen, [x], r);
    assert x in seen + [x];
    assert x in tail;
    if next == None {
      assert seen + [x] + [] == seen + [x];
      SelectAll(KeyRange(from, to), seen + [x]);
    }
  }
}
