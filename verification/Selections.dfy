/** Selecting items by a predicate on their keys: the plain meaning of the bulk
    operations. */
module Selections {
  import opened Items
  import opened BulkSpec

  ghost function Select(p: Interval -> bool, s: seq<Item>): seq<Item> {
    if s == [] then [] else (if p(s[0].key) then [s[0]] else []) + Select(p, s[1..])
  }

  ghost function Reject(p: Interval -> bool, s: seq<Item>): seq<Item> {
    if s == [] then [] else (if p(s[0].key) then [] else [s[0]]) + Reject(p, s[1..])
  }

  lemma {:induction false} TakenIsSelect(g: Config, op: Op, p: Interval -> bool, s: seq<Item>)
    requires forall k :: Hit(g, op, k) == p(k)
    ensures Taken(g, op, s) == Select(p, s) && Kept(g, op, s) == Reject(p, s)
  {
    if s != [] {
      TakenIsSelect(g, op, p, s[1..]);
    }
  }

  lemma {:induction false} SelectConcat(p: Interval -> bool, s: seq<Item>, t: seq<Item>)
    ensures Select(p, s + t) == Select(p, s) + Select(p, t)
    ensures Reject(p, s + t) == Reject(p, s) + Reject(p, t)
  {
    if s == [] {
      assert s + t == t;
    } else {
      assert (s + t)[0] == s[0] && (s + t)[1..] == s[1..] + t;
      SelectConcat(p, s[1..], t);
      Assoc(if p(s[0].key) then [s[0]] else [], Select(p, s[1..]), Select(p, t));
      Assoc(if p(s[0].key) then [] else [s[0]], Reject(p, s[1..]), Reject(p, t));
    }
  }

  lemma {:induction false} SelectAll(p: Interval -> bool, s: seq<Item>)
    requires forall x :: x in s ==> p(x.key)
    ensures Select(p, s) == s && Reject(p, s) == []
  {
    if s != [] {
      assert s[0] in s;
      SelectAll(p, s[1..]);
    }
  }

  lemma {:induction false} SelectNone(p: Interval -> bool, s: seq<Item>)
    requires forall x :: x in s ==> !p(x.key)
    ensures Select(p, s) == [] && Reject(p, s) == s
  {
    if s != [] {
      assert s[0] in s;
      SelectNone(p, s[1..]);
    }
  }

  lemma {:induction false} SelectAgree(p: Interval -> bool, q: Interval -> bool, s: seq<Item>)
    requires forall k :: p(k) == q(k)
    ensures Select(p, s) == Select(q, s) && Reject(p, s) == Reject(q, s)
  {
    if s != [] {
      SelectAgree(p, q, s[1..]);
    }
  }

  /** Nothing is lost and nothing is invented. */
  lemma {:induction false} SelectConserves(p: Interval -> bool, s: seq<Item>)
    ensures multiset(Select(p, s)) + multiset(Reject(p, s)) == multiset(s)
  {
    if s != [] {
      SelectConserves(p, s[1..]);
      assert s == [s[0]] + s[1..];
    }
  }

  lemma {:induction false} InReject(p: Interval -> bool, s: seq<Item>, x: Item)
    ensures x in Reject(p, s) <==> x in s && !p(x.key)
    ensures x in Select(p, s) <==> x in s && p(x.key)
  {
    if s != [] {
      InReject(p, s[1..], x);
      assert s == [s[0]] + s[1..];
    }
  }

  lemma {:induction false} SortedTail(s: seq<Item>)
    requires s != [] && Sorted(s)
    ensures Sorted(s[1..]) && forall x :: x in s[1..] ==> AtMost(s[0].key, x.key)
  {
  }

  lemma {:induction false} SortedCons(x: Item, s: seq<Item>)
    requires Sorted(s) && forall y :: y in s ==> AtMost(x.key, y.key)
    ensures Sorted([x] + s)
  {
  }

  lemma {:induction false} RejectSorted(p: Interval -> bool, s: seq<Item>)
    requires Sorted(s)
    ensures Sorted(Reject(p, s))
  {
    if s != [] {
      SortedTail(s);
      RejectSorted(p, s[1..]);
      forall y | y in Reject(p, s[1..])
        ensures AtMost(s[0].key, y.key)
      {
        InReject(p, s[1..], y);
      }
      SortedCons(s[0], Reject(p, s[1..]));
    }
  }

  //---- ranges and overlaps --------------------------------------------------------------

  /** The keys from `from` to before `to`; an empty range is a point. */
  predicate InRange(from: Interval, to: Interval, k: Interval) {
    AtMost(from, k) && (Less(k, to) || from == k)
  }

  /** The same for a range of references, which has no such exception. */
  predicate InRefRange(from: Interval, to: Interval, k: Interval) {
    AtMost(from, k) && Less(k, to)
  }

  function RangeFilter(from: Interval, to: Interval, accept: Interval -> bool): Interval -> bool {
    k => InRange(from, to, k) && accept(k)
  }

  function RefRangeFilter(from: Interval, to: Interval, accept: Interval -> bool): Interval -> bool {
    k => InRefRange(from, to, k) && accept(k)
  }

  function DriverFilter(driver: Driver, accept: Interval -> bool): Interval -> bool {
    k => driver.left(k) && driver.right(k) && accept(k)
  }

  function KeyRange(from: Interval, to: Interval): Interval -> bool {
    k => InRange(from, to, k)
  }

  function AcceptAll(): Interval -> bool {
    _ => true
  }

  /** What the drivers select is what the ranges say. */
  lemma {:induction false} DriversSelect(from: Interval, to: Interval, accept: Interval -> bool)
    ensures forall k :: DriverFilter(RangeDriver(from, to), accept)(k) == RangeFilter(from, to, accept)(k)
    ensures forall k :: DriverFilter(RangeRefDriver(from, to), accept)(k) == RefRangeFilter(from, to, accept)(k)
    ensures forall k :: DriverFilter(RangeDriver(from, to), AcceptAll())(k) == KeyRange(from, to)(k)
  {
    forall k: Interval
      ensures DriverFilter(RangeDriver(from, to), accept)(k) == RangeFilter(from, to, accept)(k)
      ensures DriverFilter(RangeRefDriver(from, to), accept)(k) == RefRangeFilter(from, to, accept)(k)
    {
      assert RangeFilter(from, to, accept)(k) == (InRange(from, to, k) && accept(k));
      assert RefRangeFilter(from, to, accept)(k) == (InRefRange(from, to, k) && accept(k));
    }
  }

  function OverlapFilter(query: Interval, accept: Interval -> bool): Interval -> bool {
    k => Overlaps(query, k) && accept(k)
  }

  function RangeDriver(from: Interval, to: Interval): Driver {
    Driver(k => AtMost(from, k), k => Less(k, to) || from == k)
  }

  function RangeRefDriver(from: Interval, to: Interval): Driver {
    Driver(k => AtMost(from, k), k => Less(k, to))
  }

  function NoDriver(): Driver {
    Driver(_ => true, _ => true)
  }

  /** A range whose ends are in order gives monotone decisions. */
  lemma {:induction false} RangeDriversMonotone(from: Interval, to: Interval)
    requires AtMost(from, to)
    ensures Monotone(RangeDriver(from, to)) && Monotone(RangeRefDriver(from, to))
  {
  }

  /** The two range drivers differ exactly on the start of an empty range. */
  lemma {:induction false} DriversDiffer(from: Interval, to: Interval, k: Interval)
    requires AtMost(from, to)
    ensures InRange(from, to, k) != InRefRange(from, to, k) <==> from == to && k == from
  {
  }
}
