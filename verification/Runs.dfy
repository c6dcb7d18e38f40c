/** Whole runs of commands: what they remove, what they leave, and that the result does
    not depend on the shape of the tree. */
module Runs {
  import opened Items
  import opened Cells
  import opened Memory
  import opened BulkSpec
  import opened BulkSteps
  import opened SingleDelete
  import opened Selections
  import opened OverlapQuery
  import opened PlainTrees
  import opened IntervalTrees
  import opened PointerBst

  datatype Command =
    | Delete(key: Interval)
    | DeleteRange(from: Interval, to: Interval)
    | FilterRange(from: Interval, to: Interval, accept: Interval -> bool)
    | FilterRangeRef(from: Interval, to: Interval, accept: Interval -> bool)
    | DeleteOverlap(query: Interval)
    | FilterOverlap(query: Interval, accept: Interval -> bool)

  predicate ForPlain(cmd: Command) {
    match cmd
    case Delete(_) => true
    case DeleteRange(from, to) => AtMost(from, to)
    case FilterRange(from, to, _) => AtMost(from, to)
    case FilterRangeRef(from, to, _) => AtMost(from, to)
    case _ => false
  }

  predicate ForIntervals(cmd: Command) {
    match cmd
    case Delete(_) => true
    case DeleteOverlap(query) => WellFormed(query)
    case FilterOverlap(query, _) => WellFormed(query)
    case _ => false
  }

  function Chosen(cmd: Command): Interval -> bool
    requires !cmd.Delete?
  {
    match cmd
    case DeleteRange(from, to) => KeyRange(from, to)
    case FilterRange(from, to, accept) => RangeFilter(from, to, accept)
    case FilterRangeRef(from, to, accept) => RefRangeFilter(from, to, accept)
    case DeleteOverlap(query) => OverlapFilter(query, AcceptAll())
    case FilterOverlap(query, accept) => OverlapFilter(query, accept)
  }

  /** One command may turn `s` into `t` and return `out`. */
  ghost predicate Step(cmd: Command, s: seq<Item>, out: seq<Item>, t: seq<Item>) {
    if cmd.Delete? then
      || (out == [] && t == s && forall x :: x in s ==> x.key != cmd.key)
      || (|out| == 1 && out[0].key == cmd.key && RemovedOne(s, out[0], t))
    else
      out == Select(Chosen(cmd), s) && t == Reject(Chosen(cmd), s)
  }

  function Front(cmds: seq<Command>): seq<Command>
    requires cmds != []
  {
    cmds[..|cmds| - 1]
  }

  ghost predicate Run(cmds: seq<Command>, s: seq<Item>, out: seq<Item>, t: seq<Item>) {
    if cmds == [] then out == [] && t == s
    else
      exists o: seq<Item>, mid: seq<Item> ::
        && Run(Front(cmds), s, o, mid)
        && o <= out && Step(cmds[|cmds| - 1], mid, out[|o|..], t)
  }

  lemma {:induction false} RunExtends(
      cmds: seq<Command>, n: nat, s: seq<Item>, o: seq<Item>, mid: seq<Item>, last: seq<Item>, t: seq<Item>)
    requires n < |cmds| && Run(cmds[..n], s, o, mid) && Step(cmds[n], mid, last, t)
    ensures Run(cmds[..n + 1], s, o + last, t)
  {
    hide Step;
    var c, out := cmds[..n + 1], o + last;
    assert Front(c) == cmds[..n];
    assert out[|o|..] == last;
  }

  /** The run up to the last command, and the last command. */
  lemma {:induction false} LastStep(cmds: seq<Command>, s: seq<Item>, out: seq<Item>, t: seq<Item>)
    returns (o: seq<Item>, mid: seq<Item>, last: seq<Item>)
    requires cmds != [] && Run(cmds, s, out, t)
    ensures var n := |cmds| - 1;
            Run(cmds[..n], s, o, mid) && Step(cmds[n], mid, last, t) && out == o + last
  {
    hide Step;
    o, mid :| && Run(Front(cmds), s, o, mid)
              && o <= out && Step(cmds[|cmds| - 1], mid, out[|o|..], t);
    last := out[|o|..];
  }

  //---- conservation ------------------------------------------------------------------------

  /** `s` is `t` with some items left out. */
  ghost predicate Subsequence(s: seq<Item>, t: seq<Item>) {
    || s == []
    || (t != [] && Subsequence(s, t[1..]))
    || (t != [] && s[0] == t[0] && Subsequence(s[1..], t[1..]))
  }

  /** The places in `t` where the items of `s` are found, from left to right. */
  ghost predicate Places(f: seq<nat>, s: seq<Item>, t: seq<Item>) {
    && |f| == |s|
    && (forall i :: 0 <= i < |s| ==> f[i] < |t| && t[f[i]] == s[i])
    && (forall i, j :: 0 <= i < j < |s| ==> f[i] < f[j])
  }

  lemma {:induction false} SubsequencePlaces(s: seq<Item>, t: seq<Item>) returns (f: seq<nat>)
    requires Subsequence(s, t)
    ensures Places(f, s, t)
    decreases t
  {
    if s == [] {
      return [];
    }
    var skip := Subsequence(s, t[1..]);
    var g := SubsequencePlaces(if skip then s else s[1..], t[1..]);
    f := (if skip then [] else [0]) + seq(|g|, i requires 0 <= i < |g| => g[i] + 1);
  }

  ghost function Lowered(f: seq<nat>): seq<nat> {
    seq(|f|, i requires 0 <= i < |f| => if f[i] > 0 then f[i] - 1 else 0)
  }

  lemma {:induction false} PlacesLowered(f: seq<nat>, s: seq<Item>, t: seq<Item>)
    requires t != [] && Places(f, s, t) && forall i :: 0 <= i < |f| ==> f[i] > 0
    ensures Places(Lowered(f), s, t[1..])
  {
  }

  lemma {:induction false} PlacesSubsequence(f: seq<nat>, s: seq<Item>, t: seq<Item>)
    requires Places(f, s, t)
    ensures Subsequence(s, t)
    decreases t
  {
    hide Lowered;
    if s != [] {
      if f[0] == 0 {
        assert forall i :: 0 <= i < |f[1..]| ==> f[1..][i] > f[0];
        PlacesLowered(f[1..], s[1..], t);
        PlacesSubsequence(Lowered(f[1..]), s[1..], t[1..]);
      } else {
        PlacesLowered(f, s, t);
        PlacesSubsequence(Lowered(f), s, t[1..]);
      }
    }
  }

  lemma {:induction false} SubsequenceItself(s: seq<Item>)
    ensures Subsequence(s, s)
  {
    if s != [] {
      SubsequenceItself(s[1..]);
    }
  }

  lemma {:induction false} SubsequenceTrans(r: seq<Item>, s: seq<Item>, t: seq<Item>)
    requires Subsequence(r, s) && Subsequence(s, t)
    ensures Subsequence(r, t)
    decreases |s| + |t|
  {
    if r != [] {
      if Subsequence(s, t[1..]) {
        SubsequenceTrans(r, s, t[1..]);
      } else if Subsequence(r, s[1..]) {
        SubsequenceTrans(r, s[1..], t[1..]);
      } else {
        SubsequenceTrans(r[1..], s[1..], t[1..]);
      }
    }
  }

  lemma {:induction false} RejectSubsequence(p: Interval -> bool, s: seq<Item>)
    ensures Subsequence(Reject(p, s), s)
  {
    if s != [] {
      RejectSubsequence(p, s[1..]);
      if p(s[0].key) {
        assert Reject(p, s) == Reject(p, s[1..]);
      } else {
        assert Reject(p, s)[1..] == Reject(p, s[1..]);
      }
    }
  }

  lemma {:induction false} LeaveOneOut(s: seq<Item>, k: nat)
    requires k < |s|
    ensures Subsequence(s[..k] + s[k + 1..], s)
  {
    var t := s[..k] + s[k + 1..];
    if k == 0 {
      SubsequenceItself(s[1..]);
      assert t == s[1..];
    } else {
      LeaveOneOut(s[1..], k - 1);
      assert t[1..] == s[1..][..k - 1] + s[1..][k..];
    }
  }

  lemma {:induction false} StepConserves(cmd: Command, s: seq<Item>, out: seq<Item>, t: seq<Item>)
    requires Step(cmd, s, out, t)
    ensures multiset(out) + multiset(t) == multiset(s) && Subsequence(t, s)
    ensures Sorted(s) ==> Sorted(t)
  {
    if !cmd.Delete? {
      SelectConserves(Chosen(cmd), s);
      RejectSubsequence(Chosen(cmd), s);
      if Sorted(s) {
        RejectSorted(Chosen(cmd), s);
      }
    } else if out == [] {
      SubsequenceItself(s);
    } else {
      RemovedMembers(s, out[0], t);
      assert out == [out[0]];
      var k :| 0 <= k < |s| && s[k] == out[0] && t == s[..k] + s[k + 1..];
      LeaveOneOut(s, k);
      if Sorted(s) {
        RemovedSorted(s, out[0], t);
      }
    }
  }

  /** Nothing is lost or invented by any run, and what is left keeps its order. */
  lemma {:induction false} RunConserves(cmds: seq<Command>, s: seq<Item>, out: seq<Item>, t: seq<Item>)
    requires Run(cmds, s, out, t)
    ensures multiset(out) + multiset(t) == multiset(s) && Subsequence(t, s)
    ensures Sorted(s) ==> Sorted(t)
  {
    hide Subsequence, Step, Sorted;
    if cmds == [] {
      SubsequenceItself(s);
    } else {
      var n := |cmds| - 1;
      var o, mid, last := LastStep(cmds, s, out, t);
      RunConserves(cmds[..n], s, o, mid);
      StepConserves(cmds[n], mid, last, t);
      SubsequenceTrans(t, mid, s);
    }
  }

  //---- the result of a run ------------------------------------------------------------------

  ghost predicate SameKeys(s: seq<Item>, s': seq<Item>) {
    |s| == |s'| && forall i :: 0 <= i < |s| ==> s[i].key == s'[i].key
  }

  lemma {:induction false} SameKeysConcat(s: seq<Item>, s': seq<Item>, t: seq<Item>, t': seq<Item>)
    requires SameKeys(s, s') && SameKeys(t, t')
    ensures SameKeys(s + t, s' + t')
  {
  }

  lemma {:induction false} SameKeysItself(s: seq<Item>)
    ensures SameKeys(s, s)
  {
  }

  lemma {:induction false} SelectKeys(p: Interval -> bool, s: seq<Item>, s': seq<Item>)
    requires SameKeys(s, s')
    ensures SameKeys(Select(p, s), Select(p, s')) && SameKeys(Reject(p, s), Reject(p, s'))
  {
    if s != [] {
      SelectKeys(p, s[1..], s'[1..]);
      SameKeysConcat([s[0]], [s'[0]], Select(p, s[1..]), Select(p, s'[1..]));
      SameKeysConcat([s[0]], [s'[0]], Reject(p, s[1..]), Reject(p, s'[1..]));
      assert forall u: seq<Item> :: [] + u == u;
    }
  }

  /** Which of several equal keys is removed makes no difference to the keys. */
  lemma {:induction false} RemovedKeys(s: seq<Item>, k: nat, s': seq<Item>, k': nat)
    requires SameKeys(s, s') && Sorted(s) && k <= k' < |s| && s[k].key == s'[k'].key
    ensures |s'| == |s| && SameKeys(s[..k] + s[k + 1..], s'[..k'] + s'[k' + 1..])
  {
    var t, t' := s[..k] + s[k + 1..], s'[..k'] + s'[k' + 1..];
    forall i | 0 <= i < |s|
      ensures s[i].key == s'[i].key && (k <= i <= k' ==> s[i].key == s[k].key)
    {
    }
    forall i | 0 <= i < |t|
      ensures t[i].key == t'[i].key
    {
      assert t[i] == s[if i < k then i else i + 1];
      assert t'[i] == s'[if i < k' then i else i + 1];
    }
  }

  ghost predicate Absent(s: seq<Item>, key: Interval) {
    forall i :: 0 <= i < |s| ==> s[i].key != key
  }

  lemma {:induction false} DeleteFinds(cmd: Command, s: seq<Item>, out: seq<Item>, t: seq<Item>)
    requires cmd.Delete? && Step(cmd, s, out, t)
    ensures out == [] <==> Absent(s, cmd.key)
  {
    if out == [] {
      forall i | 0 <= i < |s|
        ensures s[i].key != cmd.key
      {
        assert s[i] in s;
      }
    }
  }

  lemma {:induction false} StepAgrees(
      cmd: Command, s: seq<Item>, out: seq<Item>, t: seq<Item>, s': seq<Item>, out': seq<Item>, t': seq<Item>)
    requires Sorted(s) && Sorted(s') && SameKeys(s, s')
    requires Step(cmd, s, out, t) && Step(cmd, s', out', t')
    ensures SameKeys(out, out') && SameKeys(t, t')
  {
    hide Sorted;
    if !cmd.Delete? {
      SelectKeys(Chosen(cmd), s, s');
      return;
    }
    DeleteFinds(cmd, s, out, t);
    DeleteFinds(cmd, s', out', t');
    assert Absent(s, cmd.key) <==> Absent(s', cmd.key);
    if out != [] {
      var k :| 0 <= k < |s| && s[k] == out[0] && t == s[..k] + s[k + 1..];
      var k' :| 0 <= k' < |s'| && s'[k'] == out'[0] && t' == s'[..k'] + s'[k' + 1..];
      if k <= k' {
        RemovedKeys(s, k, s', k');
      } else {
        RemovedKeys(s', k', s, k);
      }
    }
  }

  /** Any two runs of the same commands on trees with the same keys remove the same keys in
      the same order and leave the same keys, duplicates or not. */
  lemma {:induction false} RunsAgree(
      cmds: seq<Command>, s: seq<Item>, out: seq<Item>, t: seq<Item>, s': seq<Item>, out': seq<Item>, t': seq<Item>)
    requires Sorted(s) && Sorted(s') && SameKeys(s, s')
    requires Run(cmds, s, out, t) && Run(cmds, s', out', t')
    ensures SameKeys(out, out') && SameKeys(t, t')
  {
    hide Step, Sorted, SameKeys;
    if cmds != [] {
      var n := |cmds| - 1;
      var o, mid, last := LastStep(cmds, s, out, t);
      var o', mid', last' := LastStep(cmds, s', out', t');
      RunsAgree(cmds[..n], s, o, mid, s', o', mid');
      RunConserves(cmds[..n], s, o, mid);
      RunConserves(cmds[..n], s', o', mid');
      StepAgrees(cmds[n], mid, last, t, mid', last', t');
      SameKeysConcat(o, o', last, last');
    } else {
      SameKeysItself([]);
    }
  }

  ghost predicate UniqueKeys(s: seq<Item>) {
    forall i, j :: 0 <= i < j < |s| ==> s[i].key != s[j].key
  }

  /** With unique keys an item of a part is known by its key. */
  lemma {:induction false} KeysTell(s: seq<Item>, t: seq<Item>, t': seq<Item>)
    requires UniqueKeys(s) && SameKeys(t, t')
    requires forall x :: x in t || x in t' ==> x in s
    ensures t == t'
  {
    forall i | 0 <= i < |t|
      ensures t[i] == t'[i]
    {
      assert t[i] in s && t'[i] in s;
    }
  }

  /** With unique keys the items agree as well. */
  lemma {:induction false} RunDetermined(
      cmds: seq<Command>, s: seq<Item>, out: seq<Item>, t: seq<Item>, out': seq<Item>, t': seq<Item>)
    requires Sorted(s) && UniqueKeys(s)
    requires Run(cmds, s, out, t) && Run(cmds, s, out', t')
    ensures out == out' && t == t'
  {
    hide *;
    SameKeysItself(s);
    RunsAgree(cmds, s, out, t, s, out', t');
    RunConserves(cmds, s, out, t);
    RunConserves(cmds, s, out', t');
    PartOf(s, out, t);
    PartOf(s, out', t');
    KeysTell(s, out, out');
    KeysTell(s, t, t');
  }

  lemma {:induction false} PartOf(s: seq<Item>, out: seq<Item>, t: seq<Item>)
    requires multiset(out) + multiset(t) == multiset(s)
    ensures forall x :: x in out || x in t ==> x in s
  {
    forall x | x in out || x in t
      ensures x in s
    {
      assert x in multiset(out) + multiset(t);
    }
  }

  //---- running -------------------------------------------------------------------------------

  method StepPlain(tree: PlTree, cmd: Command) returns (out: seq<Item>)
    requires tree.Valid() && ForPlain(cmd)
    modifies tree.repr.Footprint
    ensures tree.Valid() && Step(cmd, old(tree.Contents()), out, tree.Contents())
    ensures StaysWithin(old(tree.repr.Mem()), tree.repr.Mem())
  {
    hide StaysWithin;
    match cmd {
      case Delete(key) =>
        out := [];
        StaysItself(tree.repr.Mem());
        if tree.repr.size > 0 {
          tree.RootIsLive();
          var val := tree.Delete(key);
          if val.Some? {
            out := [Item(key, val.value)];
          }
        }
      case DeleteRange(from, to) =>
        out := tree.DeleteRange(from, to);
      case FilterRange(from, to, accept) =>
        out := tree.FilterRange(from, to, accept);
      case FilterRangeRef(from, to, accept) =>
        out := tree.FilterRangeRef(from, to, accept);
    }
  }

  method RunPlain(tree: PlTree, cmds: seq<Command>) returns (removed: seq<Item>)
    requires tree.Valid() && forall cmd :: cmd in cmds ==> ForPlain(cmd)
    modifies tree.repr.Footprint
    ensures tree.Valid() && Run(cmds, old(tree.Contents()), removed, tree.Contents())
    ensures multiset(removed) + multiset(tree.Contents()) == multiset(old(tree.Contents()))
    ensures Subsequence(tree.Contents(), old(tree.Contents()))
    ensures StaysWithin(old(tree.repr.Mem()), tree.repr.Mem())
  {
    hide Step, Subsequence, StaysWithin;
    ghost var initial := tree.Contents();
    ghost var m0 := tree.repr.Mem();
    StaysItself(m0);
    removed := [];
    for n := 0 to |cmds|
      modifies tree.repr.Footprint
      invariant tree.Valid() && Run(cmds[..n], initial, removed, tree.Contents())
      invariant StaysWithin(m0, tree.repr.Mem())
    {
      ghost var mid := tree.Contents();
      ghost var m := tree.repr.Mem();
      var out := StepPlain(tree, cmds[n]);
      RunExtends(cmds, n, initial, removed, mid, out, tree.Contents());
      StaysWithinTrans(m0, m, tree.repr.Mem());
      removed := removed + out;
    }
    assert cmds[..|cmds|] == cmds;
    RunConserves(cmds, initial, removed, tree.Contents());
  }

  method StepIntervals(tree: IvTree, cmd: Command) returns (out: seq<Item>)
    requires tree.Valid() && ForIntervals(cmd)
    modifies tree.repr.Footprint
    ensures tree.Valid() && Step(cmd, old(tree.Contents()), out, tree.Contents())
    ensures StaysWithin(old(tree.repr.Mem()), tree.repr.Mem())
  {
    hide StaysWithin;
    match cmd {
      case Delete(key) =>
        out := [];
        StaysItself(tree.repr.Mem());
        if tree.repr.size > 0 {
          tree.RootIsLive();
          var val := tree.Delete(key);
          if val.Some? {
            out := [Item(key, val.value)];
          }
        }
      case DeleteOverlap(query) =>
        out := tree.FilterOverlap(query, AcceptAll(), true);
      case FilterOverlap(query, accept) =>
        out := tree.FilterOverlap(query, accept, false);
    }
  }

  method RunIntervals(tree: IvTree, cmds: seq<Command>) returns (removed: seq<Item>)
    requires tree.Valid() && forall cmd :: cmd in cmds ==> ForIntervals(cmd)
    modifies tree.repr.Footprint
    ensures tree.Valid() && Run(cmds, old(tree.Contents()), removed, tree.Contents())
    ensures multiset(removed) + multiset(tree.Contents()) == multiset(old(tree.Contents()))
    ensures Subsequence(tree.Contents(), old(tree.Contents()))
    ensures StaysWithin(old(tree.repr.Mem()), tree.repr.Mem())
  {
    hide Step, Subsequence, StaysWithin;
    ghost var initial := tree.Contents();
    ghost var m0 := tree.repr.Mem();
    StaysItself(m0);
    removed := [];
    for n := 0 to |cmds|
      modifies tree.repr.Footprint
      invariant tree.Valid() && Run(cmds[..n], initial, removed, tree.Contents())
      invariant StaysWithin(m0, tree.repr.Mem())
    {
      ghost var mid := tree.Contents();
      ghost var m := tree.repr.Mem();
      var out := StepIntervals(tree, cmds[n]);
      RunExtends(cmds, n, initial, removed, mid, out, tree.Contents());
      StaysWithinTrans(m0, m, tree.repr.Mem());
      removed := removed + out;
    }
    assert cmds[..|cmds|] == cmds;
    RunConserves(cmds, initial, removed, tree.Contents());
  }

  //---- comparing -----------------------------------------------------------------------------

  /** Two trees of any shapes with the same items do the same. */
  method SameRuns(tree: PlTree, other: PlTree, cmds: seq<Command>) returns (removed: seq<Item>, removed': seq<Item>)
    requires tree.Valid() && other.Valid() && tree.repr.Footprint !! other.repr.Footprint
    requires tree.Contents() == other.Contents() && forall cmd :: cmd in cmds ==> ForPlain(cmd)
    modifies tree.repr.Footprint, other.repr.Footprint
    ensures tree.Valid() && other.Valid()
    ensures SameKeys(removed, removed') && SameKeys(tree.Contents(), other.Contents())
    ensures UniqueKeys(old(tree.Contents())) ==> removed == removed' && tree.Contents() == other.Contents()
  {
    hide *;
    tree.ValidFacts();
    other.ValidFacts();
    ghost var initial := tree.Contents();
    removed := RunPlain(tree, cmds);
    ghost var left := tree.Contents();
    removed' := RunPlain(other, cmds);
    SameKeysItself(initial);
    RunsAgree(cmds, initial, removed, left, initial, removed', other.Contents());
    if UniqueKeys(initial) {
      RunDetermined(cmds, initial, removed, left, removed', other.Contents());
    }
  }

  /** The fast path for filters that accept everything does what the filtered path does. */
  method FastAndFiltered(fast: PlTree, slow: PlTree, driver: Driver, accept: Interval -> bool)
    returns (out: seq<Item>, out': seq<Item>)
    requires fast.Valid() && slow.Valid() && fast.repr.Footprint !! slow.repr.Footprint
    requires fast.Contents() == slow.Contents()
    requires Monotone(driver) && forall k :: accept(k)
    modifies fast.repr.Footprint, slow.repr.Footprint
    ensures fast.Valid() && slow.Valid()
    ensures out == out' && fast.Contents() == slow.Contents()
  {
    out := fast.FilterWithDriver(driver, accept, true);
    out' := slow.FilterWithDriver(driver, accept, false);
  }

  method FastAndFilteredOverlap(fast: IvTree, slow: IvTree, query: Interval, accept: Interval -> bool)
    returns (out: seq<Item>, out': seq<Item>)
    requires fast.Valid() && slow.Valid() && fast.repr.Footprint !! slow.repr.Footprint
    requires fast.Contents() == slow.Contents()
    requires WellFormed(query) && forall k :: accept(k)
    modifies fast.repr.Footprint, slow.repr.Footprint
    ensures fast.Valid() && slow.Valid()
    ensures out == out' && fast.Contents() == slow.Contents()
  {
    hide Inorder, Tidy, Sorted, Exact, Select, Reject;
    out := fast.FilterOverlap(query, accept, true);
    out' := slow.FilterOverlap(query, accept, false);
  }

  /** The query finds what the deletion then removes. */
  method QueryThenDelete(tree: IvTree, query: Interval) returns (found: seq<Item>, out: seq<Item>)
    requires tree.Valid() && WellFormed(query)
    modifies tree.repr.Footprint
    ensures tree.Valid() && found == out
  {
    found := tree.QueryOverlap(0, query);
    SelectAgree(OverlapKeys(query), OverlapFilter(query, AcceptAll()), tree.Contents());
    out := tree.FilterOverlap(query, AcceptAll(), true);
  }

  /** The array tree and the tree of boxes agree. */
  method ArrayAndBoxes(tree: PlTree, bst: BST, from: Interval, to: Interval)
    returns (out: seq<Item>, out': seq<Item>)
    requires tree.Valid() && bst.Valid() && bst !in tree.repr.Footprint
    requires tree.Contents() == Flat(bst.root) && AtMost(from, to)
    modifies tree.repr.Footprint, bst
    ensures tree.Valid() && bst.Valid()
    ensures out == out' && tree.Contents() == Flat(bst.root) && tree.repr.size == bst.size
  {
    out := tree.DeleteRange(from, to);
    out' := bst.DeleteRange(from, to);
  }

  /** Whatever a run did, refilling from a master brings the master's cells back. */
  method RunThenRefill(tree: PlTree, master: PlTree, cmds: seq<Command>) returns (removed: seq<Item>)
    requires tree.Valid() && master.Valid() && tree.repr.Footprint !! master.repr.Footprint
    requires tree.repr.data.Length == master.repr.data.Length
    requires forall cmd :: cmd in cmds ==> ForPlain(cmd)
    modifies tree.repr.Footprint
    ensures tree.Valid() && master.Valid()
    ensures tree.repr.Mem().c == master.repr.Mem().c == old(master.repr.Mem()).c
    ensures tree.repr.size == master.repr.size && tree.Contents() == master.Contents() == old(master.Contents())
  {
    hide Inorder, Tidy, Sorted, Run, Subsequence, StaysWithin;
    removed := RunPlain(tree, cmds);
    tree.repr.Refill(master.repr);
  }
}
