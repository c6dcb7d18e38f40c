/** Keys, items and nodes, and the order on keys. */
module Items {

  datatype Option<+T> = None | Some(value: T)

  /** The value type of the map: nothing in the tree depends on what it is. */
  type Value(==, 0, !new)

  /** A key is an interval ordered lexicographically.  The plain tree uses only
      the order; the interval tree also uses the end points. */
  datatype Interval = Interval(a: int, b: int)

  datatype Item = Item(key: Interval, val: Value)

  /** `maxb` is maintained by the interval tree only. */
  datatype Node = Node(item: Item, maxb: int)

  predicate Less(x: Interval, y: Interval) {
    x.a < y.a || (x.a == y.a && x.b < y.b)
  }

  predicate AtMost(x: Interval, y: Interval) {
    x == y || Less(x, y)
  }

  /** Empty intervals are points. */
  predicate Overlaps(x: Interval, y: Interval) {
    (x.a < y.b && y.a < x.b) || x.a == y.a
  }

  predicate WellFormed(x: Interval) {
    x.a <= x.b
  }

  /** The order looks at the start first and at the end second, and it is total. */
  lemma {:induction false} OrderOfKeys(x: Interval, y: Interval)
    ensures x.a < y.a ==> Less(x, y)
    ensures x.a == y.a ==> (Less(x, y) <==> x.b < y.b)
    ensures x.a <= y.a && x.b <= y.b ==> AtMost(x, y)
    ensures !(Less(x, y) && AtMost(y, x))
    ensures AtMost(x, y) || Less(y, x)
  {
  }

  lemma {:induction false} OrderIsTransitive(x: Interval, y: Interval, z: Interval)
    ensures AtMost(x, y) && AtMost(y, z) ==> AtMost(x, z)
    ensures Less(x, y) && AtMost(y, z) ==> Less(x, z)
    ensures AtMost(x, y) && Less(y, z) ==> Less(x, z)
  {
  }

  /** The points of a half-open interval; an empty one is the point where it starts. */
  ghost predicate HasPoint(x: Interval, p: int) {
    x.a <= p && (p < x.b || p == x.a)
  }

  /** An interval is well formed exactly if it is at or after the point where it starts:
      empty ones are. */
  lemma {:induction false} WellFormedIsAfterStart(x: Interval)
    ensures WellFormed(x) <==> AtMost(Interval(x.a, x.a), x)
  {
  }

  /** Two intervals overlap exactly if they have a point in common. */
  lemma {:induction false} OverlapIsCommonPoint(x: Interval, y: Interval)
    requires WellFormed(x) && WellFormed(y)
    ensures Overlaps(x, y) <==> exists p :: HasPoint(x, p) && HasPoint(y, p)
  {
    if Overlaps(x, y) {
      var p := Max(x.a, y.a);
      assert HasPoint(x, p) && HasPoint(y, p);
    }
  }

  function Max(x: int, y: int): int {
    if x >= y then x else y
  }

  ghost predicate Sorted(s: seq<Item>) {
    forall i, j :: 0 <= i < j < |s| ==> AtMost(s[i].key, s[j].key)
  }

  lemma {:induction false} SortedSplit(s: seq<Item>, t: seq<Item>)
    requires Sorted(s + t)
    ensures Sorted(s) && Sorted(t)
    ensures forall x, y :: x in s && y in t ==> AtMost(x.key, y.key)
  {
    forall i, j | 0 <= i < j < |s|
      ensures AtMost(s[i].key, s[j].key)
    {
      assert s[i] == (s + t)[i] && s[j] == (s + t)[j];
    }
    forall i, j | 0 <= i < j < |t|
      ensures AtMost(t[i].key, t[j].key)
    {
      assert t[i] == (s + t)[|s| + i] && t[j] == (s + t)[|s| + j];
    }
    forall x, y | x in s && y in t
      ensures AtMost(x.key, y.key)
    {
      var i :| 0 <= i < |s| && s[i] == x;
      var j :| 0 <= j < |t| && t[j] == y;
      assert x == (s + t)[i] && y == (s + t)[|s| + j];
    }
  }

  lemma {:induction false} Assoc(r: seq<Item>, s: seq<Item>, t: seq<Item>)
    ensures (r + s) + t == r + (s + t)
  {
  }
}
