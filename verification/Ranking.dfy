/**
 Which children the selecting reduction keeps: where the values it sorts by are numbers, no child that is folded
 away has a larger value than one that is kept, at every node with no "Other" on its path.
 */
module Ranking {
  import opened Trees
  import opened Merge
  import opened Reduce
  import opened Conservation
  import opened Selection
  import opened Replay

  // ----- sorting by value -----

  ghost predicate Numeric(vm: ValueMap, ids: seq<Path>) {
    forall i :: 0 <= i < |ids| ==> Get(vm, ids[i]).Of?
  }

  ghost predicate Descending(vm: ValueMap, ids: seq<Path>)
    requires Numeric(vm, ids)
  {
    forall i, j :: 0 <= i < j < |ids| ==> Get(vm, ids[i]).v >= Get(vm, ids[j]).v
  }

  ghost predicate SortsIds(sort: Sorter, vm: ValueMap, ids: seq<Path>) {
    forall i, j :: 0 <= i < j < |ids| && Numeric(vm, ids) ==>
      var p := sort(vm, ids);
      |p| == |ids| && p[i] < |ids| && p[j] < |ids| && Get(vm, ids[p[i]]).v >= Get(vm, ids[p[j]]).v
  }

  /** Where all values are numbers, the comparison is consistent and the larger ones come first. */
  ghost predicate SortsDown(sort: Sorter) {
    forall vm, ids :: SortsIds(sort, vm, ids)
  }

  lemma {:induction false} SortedDown(cs: seq<Node>, vm: ValueMap, sort: Sorter)
    requires SortsDown(sort) && forall c :: c in cs ==> Get(vm, c.fullKey).Of?
    ensures var r := SortChildren(cs, vm, sort);
      Numeric(vm, Ids(r)) && Descending(vm, Ids(r))
  {
    var r := SortChildren(cs, vm, sort);
    SortFacts(cs, vm, sort);
    forall i | 0 <= i < |r| ensures Get(vm, Ids(r)[i]).Of? {
      assert r[i] in cs;
    }
    assert Numeric(vm, Ids(cs));
    assert SortsIds(sort, vm, Ids(cs));
    var p := SortOrder(cs, vm, sort);
    assert forall i :: 0 <= i < |r| ==> Ids(r)[i] == Ids(cs)[p[i]];
  }

  /** At one node: what is kept comes before what is dropped. */
  lemma {:induction false} KeptBeforeDropped(n: Node, m: Metric, vm: ValueMap, sort: Sorter, kept: Node, dropped: Node)
    requires SortsDown(sort) && forall c :: c in n.children ==> Get(vm, c.fullKey).Of?
    requires kept in PlanOf(n, m, vm, sort).keep && dropped in PlanOf(n, m, vm, sort).drop
    requires kept in n.children && dropped in n.children
    ensures Get(vm, kept.fullKey).v >= Get(vm, dropped.fullKey).v
  {
    hide PlanOf, SortChildren, SortsDown, Get, Numeric, Descending, Ids;
    SortedDown(n.children, vm, sort);
    var i, j := PlanOrder(n, m, vm, sort, kept, dropped);
    DescendingAt(PlanOf(n, m, vm, sort).cs, vm, i, j);
  }

  /** In the sorted children a kept one comes before a dropped one. */
  lemma {:induction false} PlanOrder(n: Node, m: Metric, vm: ValueMap, sort: Sorter, kept: Node, dropped: Node)
    returns (i: nat, j: nat)
    requires kept in PlanOf(n, m, vm, sort).keep && dropped in PlanOf(n, m, vm, sort).drop
    ensures var cs := PlanOf(n, m, vm, sort).cs;
      cs == SortChildren(n.children, vm, sort) && i < j < |cs| && cs[i] == kept && cs[j] == dropped
  {
    var t := PlanOf(n, m, vm, sort);
    var k := CutIndex(t.cs, m, n.Value(m), 0, 0, 0);
    hide SortChildren, CutIndex, Filter;
    FilterFacts(t.cs[..k], Plain);
    FilterFacts(t.cs[k..], Plain);
    assert kept in t.cs[..k] && dropped in t.cs[k..];
    i :| 0 <= i < k && t.cs[i] == kept;
    j :| k <= j < |t.cs| && t.cs[j] == dropped;
  }

  lemma {:induction false} DescendingAt(cs: seq<Node>, vm: ValueMap, i: nat, j: nat)
    requires Numeric(vm, Ids(cs)) && Descending(vm, Ids(cs)) && i < j < |cs|
    ensures Get(vm, cs[i].fullKey).Of? && Get(vm, cs[j].fullKey).Of?
    ensures Get(vm, cs[i].fullKey).v >= Get(vm, cs[j].fullKey).v
  {
    hide Get;
    assert Ids(cs)[i] == cs[i].fullKey && Ids(cs)[j] == cs[j].fullKey;
  }

  // ----- folding leaves the values of plain paths alone -----

  /** The path of a node whose ancestors are not "Other". */
  ghost predicate PlainParent(id: Path) {
    id != [] && OTHER !in id[..|id| - 1]
  }

  ghost predicate SameValue(vm: ValueMap, vm': ValueMap, id: Path) {
    PlainParent(id) ==> Get(vm', id) == Get(vm, id) && (id in vm' <==> id in vm)
  }

  ghost predicate SameValues(vm: ValueMap, vm': ValueMap) {
    forall id :: SameValue(vm, vm', id)
  }

  lemma {:induction false} SameValuesTransitive(a: ValueMap, b: ValueMap, c: ValueMap)
    requires SameValues(a, b) && SameValues(b, c)
    ensures SameValues(a, c)
  {
    forall id ensures SameValue(a, c, id) {
      assert SameValue(a, b, id) && SameValue(b, c, id);
    }
  }

  lemma {:induction false} MergeValuePlain(vm: ValueMap, from: Path, to: Path)
    requires !PlainParent(to)
    ensures SameValues(vm, MergeValue(vm, from, to))
  {
  }

  lemma {:induction false} UnderOther(p: Path, s: Path, k: Key)
    ensures !PlainParent(p + [OTHER] + s + [k])
  {
    var id := p + [OTHER] + s + [k];
    assert id[..|id| - 1] == p + [OTHER] + s;
    assert (p + [OTHER] + s)[|p|] == OTHER;
  }

  lemma {:induction false} MergeValuesPlain(froms: seq<Node>, tos: seq<Node>, vm: ValueMap, p: Path, k: Key, s: Path)
    requires KeyedUnder(froms, p + [k] + s) && KeyedUnder(tos, p + [OTHER] + s)
    ensures SameValues(vm, MergeValues(froms, tos, vm, |s|))
    decreases froms, 0
  {
    hide SameValues, KeyedUnder, WellKeyed;
    if froms == [] {
      SameAsBefore(vm);
    } else {
      var n := |froms| - 1;
      KeyedFirst(froms, p + [k] + s);
      var before := MergeValues(froms[..n], tos, vm, |s|);
      MergeValuesPlain(froms[..n], tos, vm, p, k, s);
      MergeKeyed(froms[..n], tos, p, k, s);
      MergeOnePlain(froms[n], MergeChildren(froms[..n], tos, |s|), before, p, k, s);
      SameValuesTransitive(vm, before, MergeValues(froms, tos, vm, |s|));
    }
  }

  lemma {:induction false} SameAsBefore(vm: ValueMap)
    ensures SameValues(vm, vm)
  {
  }

  lemma {:induction false} KeyedFirst(cs: seq<Node>, p: Path)
    requires KeyedUnder(cs, p) && cs != []
    ensures KeyedUnder(cs[..|cs| - 1], p) && KeyedChild(cs[|cs| - 1], p)
  {
  }

  lemma {:induction false} MergeOnePlain(from: Node, tos: seq<Node>, vm: ValueMap, p: Path, k: Key, s: Path)
    requires KeyedChild(from, p + [k] + s) && KeyedUnder(tos, p + [OTHER] + s)
    ensures SameValues(vm, MergeOneValue(from, tos, vm, |s|))
    decreases from, 1
  {
    hide SameValues;
    var s' := s + [from.key];
    assert p + [k] + s' == from.fullKey;
    assert p + [OTHER] + s' == p + [OTHER] + s + [from.key];
    UnderOther(p, s, from.key);
    var i := FindKey(tos, from.key);
    var to := if i < |tos| then tos[i].fullKey else RewriteKey(from.fullKey, |s|);
    assert to == p + [OTHER] + s';
    var vm' := MergeValue(vm, from.fullKey, to);
    MergeValuePlain(vm, from.fullKey, to);
    MergeValuesPlain(from.children, if i < |tos| then tos[i].children else [], vm', p, k, s');
    SameValuesTransitive(vm, vm', MergeOneValue(from, tos, vm, |s|));
  }

  lemma {:induction false} AbsorbAllPlain(dropped: seq<Node>, other: Node, vm: ValueMap, p: Path)
    requires forall d :: d in dropped ==> KeyedChild(d, p)
    requires KeyedChild(other, p) && other.key == OTHER
    ensures SameValues(vm, AbsorbAllValues(dropped, other, vm))
  {
    hide SameValues;
    if dropped == [] {
      SameAsBefore(vm);
    } else {
      var n := |dropped| - 1;
      var d := dropped[n];
      assert KeyedChild(d, p);
      var before := AbsorbAllValues(dropped[..n], other, vm);
      AbsorbAllPlain(dropped[..n], other, vm, p);
      AbsorbAllKeyed(dropped[..n], other, p);
      assert p + [d.key] + [] == p + [d.key] && p + [OTHER] + [] == p + [OTHER];
      MergeValuesPlain(d.children, AbsorbAll(dropped[..n], other).children, before, p, d.key, []);
      SameValuesTransitive(vm, before, AbsorbAllValues(dropped, other, vm));
    }
  }

  /** Folding the dropped children of a node. */
  lemma {:induction false} FoldPlain(n: Node, m: Metric, vm: ValueMap, sort: Sorter, vm1: ValueMap)
    requires WellKeyed(n)
    ensures var t := PlanOf(n, m, vm, sort);
      SameValues(vm1, AbsorbAllValues(t.drop, GetOrCreateOther(n.fullKey, t.cs), vm1))
  {
    var t := PlanOf(n, m, vm, sort);
    PlanKeeps(n, m, vm, sort);
    var base := GetOrCreateOther(n.fullKey, t.cs);
    assert KeyedChild(base, n.fullKey) by {
      if FindKey(t.cs, OTHER) < |t.cs| {
        assert base in n.children;
      }
    }
    AbsorbAllPlain(t.drop, base, vm1, n.fullKey);
  }

  /** The selecting reduction leaves the values of all nodes whose ancestors are not "Other". */
  lemma {:induction false} ReduceTreePlain(n: Node, m: Metric, vm: ValueMap, sort: Sorter)
    requires WellKeyed(n)
    ensures SameValues(vm, ReduceTree(n, m, vm, sort).vm)
    decreases Height(n), 1, 0
  {
    hide SameValues, PlanOf, BuildOther, AbsorbAllValues;
    if n.children == [] {
      SameAsBefore(vm);
    } else {
      var t := PlanOf(n, m, vm, sort);
      PlanKeeps(n, m, vm, sort);
      PlanLowers(n, m, vm, sort);
      var kept := ReduceEach(t.keep, m, vm, sort);
      ReduceEachPlain(t.keep, m, vm, sort, n.fullKey);
      if |t.keep| != |t.cs| {
        var other := BuildOther(n.fullKey, t.cs, t.drop, {m});
        OtherKeyed(n, t.cs, t.drop, {m});
        var vm' := AbsorbAllValues(t.drop, GetOrCreateOther(n.fullKey, t.cs), kept.vm);
        FoldPlain(n, m, vm, sort, kept.vm);
        SameValuesTransitive(vm, kept.vm, vm');
        ReduceTreePlain(other, m, vm', sort);
        SameValuesTransitive(vm, vm', ReduceTree(other, m, vm', sort).vm);
      }
    }
  }

  lemma {:induction false} ReduceEachPlain(cs: seq<Node>, m: Metric, vm: ValueMap, sort: Sorter, p: Path)
    requires PlainSiblings(cs, p)
    ensures SameValues(vm, ReduceEach(cs, m, vm, sort).vm)
    decreases ForestHeight(cs), 0, |cs|
  {
    hide SameValues;
    if cs == [] {
      SameAsBefore(vm);
    } else {
      var n := |cs| - 1;
      TallerThanChild(cs, n);
      PlainSiblingsSplit(cs, p);
      var before := ReduceEach(cs[..n], m, vm, sort).vm;
      ReduceEachPlain(cs[..n], m, vm, sort, p);
      ReduceTreePlain(cs[n], m, before, sort);
      SameValuesTransitive(vm, before, ReduceTree(cs[n], m, before, sort).vm);
    }
  }

  // ----- the whole tree -----

  /** Every node of the forest has a number. */
  ghost predicate AllNumbered(vm: ValueMap, cs: seq<Node>, p: Path) {
    forall q :: Present(cs, q) ==> Get(vm, p + q).Of?
  }

  lemma {:induction false} NumberedChild(vm: ValueMap, cs: seq<Node>, p: Path, c: Node)
    requires KeyedUnder(cs, p) && AllNumbered(vm, cs, p) && c in cs
    ensures Get(vm, c.fullKey).Of? && AllNumbered(vm, c.children, c.fullKey)
  {
    var i :| 0 <= i < |cs| && cs[i] == c;
    FindKeyUnique(cs, i);
    assert Present(cs, [c.key]);
    forall q | Present(c.children, q) ensures Get(vm, c.fullKey + q).Of? {
      assert ([c.key] + q)[1..] == q && p + ([c.key] + q) == c.fullKey + q;
      assert Present(cs, [c.key] + q);
    }
  }

  /** The `i`-th reduced sibling, and the values it was reduced with. */
  lemma {:induction false} NthReduced(cs: seq<Node>, m: Metric, vm: ValueMap, sort: Sorter, i: nat)
    requires i < |cs|
    ensures |ReduceEach(cs, m, vm, sort).nodes| == |cs|
    ensures ReduceEach(cs, m, vm, sort).nodes[i] == ReduceTree(cs[i], m, ReduceEach(cs[..i], m, vm, sort).vm, sort).node
  {
    hide ReduceTree;
    var n := |cs| - 1;
    var before := ReduceEach(cs[..n], m, vm, sort);
    if i < n {
      NthReduced(cs[..n], m, vm, sort, i);
      assert cs[..n][..i] == cs[..i];
    } else if n > 0 {
      NthReduced(cs[..n], m, vm, sort, 0);
    }
  }

  /** The child of the reduction with a plain key is the reduction of the kept child with that key. */
  lemma {:induction false} PlainChild(n: Node, m: Metric, vm: ValueMap, sort: Sorter, k: Key) returns (i: nat)
    requires WellKeyed(n) && n.children != [] && k != OTHER
    requires var rs := ReduceTree(n, m, vm, sort).node.children; FindKey(rs, k) < |rs|
    ensures var keep := PlanOf(n, m, vm, sort).keep;
      var rs := ReduceTree(n, m, vm, sort).node.children;
      && i < |keep| && keep[i].key == k && keep[i] in n.children && PlainSiblings(keep, n.fullKey)
      && rs[FindKey(rs, k)] == ReduceTree(keep[i], m, ReduceEach(keep[..i], m, vm, sort).vm, sort).node
  {
    var t := PlanOf(n, m, vm, sort);
    var kept := ReduceEach(t.keep, m, vm, sort).nodes;
    var rs := ReduceTree(n, m, vm, sort).node.children;
    PlanKeeps(n, m, vm, sort);
    ReduceTreeParts(n, m, vm, sort);
    var r := rs[FindKey(rs, k)];
    assert r in rs && r.key == k;
    i :| 0 <= i < |kept| && kept[i] == r;
    NthReduced(t.keep, m, vm, sort, i);
    assert t.keep[i] in t.keep;
  }

  /** Every plain child is kept or dropped. */
  lemma {:induction false} KeptOrDropped(n: Node, m: Metric, vm: ValueMap, sort: Sorter, c: Node)
    requires c in n.children && c.key != OTHER
    ensures var t := PlanOf(n, m, vm, sort); c in t.keep || c in t.drop
  {
    var t := PlanOf(n, m, vm, sort);
    SortFacts(n.children, vm, sort);
    var k := CutIndex(t.cs, m, n.Value(m), 0, 0, 0);
    hide SortChildren, CutIndex, Filter, ForestHeight, Sum, DistinctKeys;
    FilterFacts(t.cs[..k], Plain);
    FilterFacts(t.cs[k..], Plain);
    BeforeOrAfter(t.cs, k, c);
  }

  lemma {:induction false} BeforeOrAfter(cs: seq<Node>, k: nat, c: Node)
    requires k <= |cs| && c in cs
    ensures c in cs[..k] || c in cs[k..]
  {
    assert cs == cs[..k] + cs[k..];
  }

  lemma {:induction false} KeptIsFound(cs: seq<Node>, keep: seq<Node>, kept: seq<Node>, rs: seq<Node>, c: Node)
    requires KeptOrOther(cs, keep, kept, rs) && c in keep
    ensures FindKey(rs, c.key) < |rs|
  {
    var i :| 0 <= i < |keep| && keep[i] == c;
    assert kept[i] in rs && kept[i].key == c.key;
  }

  /** A plain child that the reduction no longer has was dropped. */
  lemma {:induction false} DroppedChild(n: Node, m: Metric, vm: ValueMap, sort: Sorter, c: Node)
    requires WellKeyed(n) && c in n.children && c.key != OTHER
    requires var rs := ReduceTree(n, m, vm, sort).node.children; FindKey(rs, c.key) == |rs|
    ensures c in PlanOf(n, m, vm, sort).drop
  {
    hide ReduceTree, ReduceEach, PlanOf, KeptOrOther;
    var t := PlanOf(n, m, vm, sort);
    var rs := ReduceTree(n, m, vm, sort).node.children;
    ReduceTreeParts(n, m, vm, sort);
    KeptOrDropped(n, m, vm, sort, c);
    if c in t.keep {
      KeptIsFound(n.children, t.keep, ReduceEach(t.keep, m, vm, sort).nodes, rs, c);
      assert false;
    }
  }

  /** `a` is kept and `b` is folded away, below the path `q` of the reduction `rs` of `cs`. */
  ghost predicate KeptOverOther(cs: seq<Node>, rs: seq<Node>, q: Path, a: Key, b: Key) {
    && OTHER !in q && a != OTHER && b != OTHER
    && Present(rs, q + [a]) && Present(cs, q + [b]) && !Present(rs, q + [b])
  }

  /** The larger values are kept, at every node without "Other" on its path. */
  lemma {:induction false} LargestKept(n: Node, m: Metric, vm: ValueMap, sort: Sorter, vm0: ValueMap, q: Path, a: Key,
                                       b: Key)
    requires WellKeyed(n) && OTHER !in n.fullKey && SortsDown(sort) && SameValues(vm0, vm)
    requires AllNumbered(vm0, n.children, n.fullKey)
    requires KeptOverOther(n.children, ReduceTree(n, m, vm, sort).node.children, q, a, b)
    ensures Get(vm0, n.fullKey + q + [a]).Of? && Get(vm0, n.fullKey + q + [b]).Of?
    ensures Get(vm0, n.fullKey + q + [a]).v >= Get(vm0, n.fullKey + q + [b]).v
    decreases q
  {
    hide ReduceTree, ReduceEach, PlanOf, SameValues, AllNumbered, KeptOverOther, WellKeyed, SortsDown;
    var rs := ReduceTree(n, m, vm, sort).node.children;
    if q == [] {
      assert n.fullKey + q == n.fullKey;
      LargestHere(n, m, vm, sort, vm0, a, b);
    } else {
      var i := PlainChildOnPath(n, m, vm, sort, q, a, b);
      var keep := PlanOf(n, m, vm, sort).keep;
      var c := keep[i];
      var vm' := ReduceEach(keep[..i], m, vm, sort).vm;
      PlainPrefix(keep, i, n.fullKey);
      PlainChildren(n);
      ReduceEachPlain(keep[..i], m, vm, sort, n.fullKey);
      SameValuesTransitive(vm0, vm, vm');
      NumberedChild(vm0, n.children, n.fullKey, c);
      StepDown(n.children, c, rs, ReduceTree(c, m, vm', sort).node, q, a, b);
      LargestKept(c, m, vm', sort, vm0, q[1..], a, b);
      PathBelow(n.fullKey, c.key, q);
    }
  }

  lemma {:induction false} PlainPrefix(cs: seq<Node>, i: nat, p: Path)
    requires PlainSiblings(cs, p) && i < |cs|
    ensures PlainSiblings(cs[..i], p) && cs[i].fullKey == p + [cs[i].key] && WellKeyed(cs[i])
  {
  }

  lemma {:induction false} PlainChildren(n: Node)
    requires WellKeyed(n)
    ensures KeyedUnder(n.children, n.fullKey) && DistinctKeys(n.children)
  {
  }

  lemma {:induction false} PlainChildOnPath(n: Node, m: Metric, vm: ValueMap, sort: Sorter, q: Path, a: Key, b: Key)
    returns (i: nat)
    requires WellKeyed(n) && q != []
    requires KeptOverOther(n.children, ReduceTree(n, m, vm, sort).node.children, q, a, b)
    ensures var keep := PlanOf(n, m, vm, sort).keep;
      var rs := ReduceTree(n, m, vm, sort).node.children;
      && i < |keep| && keep[i].key == q[0] != OTHER && keep[i] in n.children && PlainSiblings(keep, n.fullKey)
      && FindKey(rs, q[0]) < |rs|
      && rs[FindKey(rs, q[0])] == ReduceTree(keep[i], m, ReduceEach(keep[..i], m, vm, sort).vm, sort).node
  {
    assert (q + [a])[0] == q[0] && q[0] in q;
    i := PlainChild(n, m, vm, sort, q[0]);
  }

  lemma {:induction false} StepDown(cs: seq<Node>, c: Node, rs: seq<Node>, r: Node, q: Path, a: Key, b: Key)
    requires DistinctKeys(cs) && c in cs && q != [] && c.key == q[0]
    requires FindKey(rs, q[0]) < |rs| && rs[FindKey(rs, q[0])] == r
    requires KeptOverOther(cs, rs, q, a, b)
    ensures KeptOverOther(c.children, r.children, q[1..], a, b)
  {
    var i :| 0 <= i < |cs| && cs[i] == c;
    FindKeyUnique(cs, i);
    assert (q + [a])[1..] == q[1..] + [a] && (q + [b])[1..] == q[1..] + [b];
  }

  lemma {:induction false} LargestHere(n: Node, m: Metric, vm: ValueMap, sort: Sorter, vm0: ValueMap, a: Key, b: Key)
    requires WellKeyed(n) && OTHER !in n.fullKey && SortsDown(sort) && SameValues(vm0, vm)
    requires AllNumbered(vm0, n.children, n.fullKey)
    requires KeptOverOther(n.children, ReduceTree(n, m, vm, sort).node.children, [], a, b)
    ensures Get(vm0, n.fullKey + [a]).Of? && Get(vm0, n.fullKey + [b]).Of?
    ensures Get(vm0, n.fullKey + [a]).v >= Get(vm0, n.fullKey + [b]).v
  {
    assert [] + [a] == [a] && [] + [b] == [b];
    var i := PlainChild(n, m, vm, sort, a);
    var kept := PlanOf(n, m, vm, sort).keep[i];
    var dropped := n.children[FindKey(n.children, b)];
    DroppedChild(n, m, vm, sort, dropped);
    forall c | c in n.children ensures Get(vm, c.fullKey) == Get(vm0, c.fullKey) && Get(vm0, c.fullKey).Of? {
      NumberedChild(vm0, n.children, n.fullKey, c);
      assert c.fullKey[..|c.fullKey| - 1] == n.fullKey;
      assert SameValue(vm0, vm, c.fullKey);
    }
    KeptBeforeDropped(n, m, vm, sort, kept, dropped);
  }

  lemma {:induction false} KeptWasThere(n: Node, m: Metric, vm: ValueMap, sort: Sorter, q: Path, a: Key, b: Key)
    requires WellKeyed(n) && KeptOverOther(n.children, ReduceTree(n, m, vm, sort).node.children, q, a, b)
    ensures Present(n.children, q + [a])
  {
    ReduceTreeUntouched(n, m, vm, sort);
    assert PlainPath(q + [a]);
    assert SameAt(n.children, ReduceTree(n, m, vm, sort).node.children, q + [a]);
  }
}
