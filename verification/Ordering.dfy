/**
 In which order a reduced node shows its children: by the values they are sorted by, the largest first, with "Other"
 at the end of the tree nodes are selected on, and where its value -1 puts it in the others.
 */
module Ordering {
  import opened Trees
  import opened Merge
  import opened Reduce
  import opened Conservation
  import opened Selection
  import opened Replay
  import opened Ranking
  import Lookup

  // ----- what the replay does to the values -----

  /** Values of nodes with plain ancestors are as at first, except that "Other" nodes without one have got -1. */
  ghost predicate Marked(vm0: ValueMap, vm: ValueMap) {
    forall id :: PlainParent(id) ==> MarkedAt(vm0, vm, id)
  }

  ghost predicate MarkedAt(vm0: ValueMap, vm: ValueMap, id: Path)
    requires id != []
  {
    && (id in vm0 ==> id in vm && vm[id] == vm0[id])
    && (id !in vm0 && id in vm ==> vm[id] == Of(-1) && id[|id| - 1] == OTHER)
  }

  lemma {:induction false} SameIsMarked(vm0: ValueMap, vm: ValueMap)
    requires SameValues(vm0, vm)
    ensures Marked(vm0, vm)
  {
    forall id | PlainParent(id) ensures MarkedAt(vm0, vm, id) {
      assert SameValue(vm0, vm, id);
    }
  }

  lemma {:induction false} MarkOne(vm0: ValueMap, vm: ValueMap, p: Path)
    requires Marked(vm0, vm)
    ensures Marked(vm0, MarkOther(vm, p + [OTHER])) && p + [OTHER] in MarkOther(vm, p + [OTHER])
  {
    var vm' := MarkOther(vm, p + [OTHER]);
    forall id | PlainParent(id) ensures MarkedAt(vm0, vm', id) {
      assert MarkedAt(vm0, vm, id);
    }
  }

  lemma {:induction false} ReplayMarks(n: Node, sel: set<Path>, vm: ValueMap, sort: Sorter, vm0: ValueMap)
    requires WellKeyed(n) && Marked(vm0, vm)
    ensures Marked(vm0, ReduceBySet(n, sel, vm, sort).vm)
    decreases Height(n), 1, 0
  {
    hide Marked, BuildOther, Filter, SortChildren, MarkOther;
    if n.children != [] {
      var keep, drop := Filter(n.children, Selected(sel)), Filter(n.children, Unselected(sel));
      FilterFacts(n.children, Selected(sel));
      FilterFacts(n.children, Unselected(sel));
      SubforestHeight(keep, n.children);
      var kept := ReduceEachBySet(keep, sel, vm, sort);
      ReplayEachMarks(keep, sel, vm, sort, vm0);
      if |keep| != |n.children| {
        OtherIsLower(n.fullKey, n.children, drop, BOTH);
        OtherKeyed(n, n.children, drop, BOTH);
        var other := BuildOther(n.fullKey, n.children, drop, BOTH);
        ReplayMarks(other, sel, kept.vm, sort, vm0);
        ReduceBySetHead(other, sel, kept.vm, sort);
        MarkOne(vm0, ReduceBySet(other, sel, kept.vm, sort).vm, n.fullKey);
      }
    }
  }

  lemma {:induction false} ReplayEachMarks(cs: seq<Node>, sel: set<Path>, vm: ValueMap, sort: Sorter, vm0: ValueMap)
    requires (forall c :: c in cs ==> WellKeyed(c)) && Marked(vm0, vm)
    ensures Marked(vm0, ReduceEachBySet(cs, sel, vm, sort).vm)
    decreases ForestHeight(cs), 0, |cs|
  {
    hide Marked, WellKeyed, ReduceBySet;
    if cs != [] {
      var n := |cs| - 1;
      TallerThanChild(cs, n);
      assert cs[n] in cs;
      ReplayEachMarks(cs[..n], sel, vm, sort, vm0);
      ReplayMarks(cs[n], sel, ReduceEachBySet(cs[..n], sel, vm, sort).vm, sort, vm0);
    }
  }

  // ----- children in order -----

  /** What a child is placed by: its value, or -1. */
  function Weight(vm0: ValueMap, id: Path): int {
    if id in vm0 && vm0[id].Of? then vm0[id].v else -1
  }

  ghost predicate InOrder(vm0: ValueMap, cs: seq<Node>) {
    forall i, j :: 0 <= i < j < |cs| ==> Weight(vm0, cs[i].fullKey) >= Weight(vm0, cs[j].fullKey)
  }

  ghost predicate Weighed(vm0: ValueMap, vm: ValueMap, cs: seq<Node>) {
    forall c :: c in cs ==> Get(vm, c.fullKey) == Of(Weight(vm0, c.fullKey))
  }

  lemma {:induction false} SortedInOrder(vm0: ValueMap, vm: ValueMap, cs: seq<Node>, sort: Sorter)
    requires SortsDown(sort) && Weighed(vm0, vm, cs)
    ensures InOrder(vm0, SortChildren(cs, vm, sort))
  {
    SortedDown(cs, vm, sort);
    SortFacts(cs, vm, sort);
    hide SortChildren, SortsDown, Get, Weight, Numeric, Descending;
    var r := SortChildren(cs, vm, sort);
    forall i, j | 0 <= i < j < |r| ensures Weight(vm0, r[i].fullKey) >= Weight(vm0, r[j].fullKey) {
      DescendingAt(r, vm, i, j);
      assert r[i] in cs && r[j] in cs;
    }
  }

  /** The values are numbers, and every selected id with plain ancestors has one. */
  ghost predicate Numbered(vm0: ValueMap, sel: set<Path>) {
    (forall id :: id in vm0 ==> vm0[id].Of?) && forall id :: id in sel && OTHER !in id ==> id in vm0
  }

  lemma {:induction false} PlainId(p: Path, k: Key)
    requires OTHER !in p
    ensures PlainParent(p + [k]) && (k != OTHER ==> OTHER !in p + [k])
  {
    assert (p + [k])[..|p|] == p;
  }

  lemma {:induction false} KeptWeighed(n: Node, sel: set<Path>, vm0: ValueMap, vm: ValueMap, keep: seq<Node>,
                                       kept: seq<Node>)
    requires WellKeyed(n) && NoOther(sel) && OTHER !in n.fullKey && Numbered(vm0, sel) && Marked(vm0, vm)
    requires keep == Filter(n.children, Selected(sel)) && SameHeads(keep, kept)
    ensures Weighed(vm0, vm, kept)
  {
    FilterFacts(n.children, Selected(sel));
    forall c | c in kept ensures Get(vm, c.fullKey) == Of(Weight(vm0, c.fullKey)) {
      var i :| 0 <= i < |kept| && kept[i] == c;
      assert keep[i] in keep && keep[i] in n.children;
      assert c.fullKey == n.fullKey + [c.key] && c.fullKey in sel;
      assert c.fullKey[|c.fullKey| - 1] == c.key;
      PlainId(n.fullKey, c.key);
      assert MarkedAt(vm0, vm, c.fullKey);
    }
  }

  lemma {:induction false} OtherWeighed(vm0: ValueMap, vm: ValueMap, p: Path)
    requires OTHER !in p && Marked(vm0, vm) && p + [OTHER] in vm && forall id :: id in vm0 ==> vm0[id].Of?
    ensures Get(vm, p + [OTHER]) == Of(Weight(vm0, p + [OTHER]))
  {
    PlainId(p, OTHER);
    assert MarkedAt(vm0, vm, p + [OTHER]);
  }

  /** The children of a replayed node with plain ancestors come in order. */
  lemma {:induction false} ReplayedHere(n: Node, sel: set<Path>, vm: ValueMap, sort: Sorter, vm0: ValueMap)
    requires WellKeyed(n) && NoOther(sel) && OTHER !in n.fullKey && SortsDown(sort)
    requires Numbered(vm0, sel) && Marked(vm0, vm)
    ensures InOrder(vm0, ReduceBySet(n, sel, vm, sort).node.children)
  {
    hide Marked, BuildOther, Filter, SortChildren, MarkOther, InOrder, Weighed, SortsDown, Numbered, WellKeyed, NoOther;
    if n.children == [] {
      NothingInOrder(vm0);
    } else {
      var keep, drop := Filter(n.children, Selected(sel)), Filter(n.children, Unselected(sel));
      var kept := ReduceEachBySet(keep, sel, vm, sort);
      ChildrenKeyed(n, sel);
      ReplayEachMarks(keep, sel, vm, sort, vm0);
      ReduceEachBySetHeads(keep, sel, vm, sort);
      if |keep| == |n.children| {
        KeptWeighed(n, sel, vm0, kept.vm, keep, kept.nodes);
        SortedInOrder(vm0, kept.vm, kept.nodes, sort);
      } else {
        FilterFacts(n.children, Unselected(sel));
        OtherKeyed(n, n.children, drop, BOTH);
        var other := BuildOther(n.fullKey, n.children, drop, BOTH);
        var r := ReduceBySet(other, sel, kept.vm, sort);
        ReplayMarks(other, sel, kept.vm, sort, vm0);
        ReduceBySetHead(other, sel, kept.vm, sort);
        MarkOne(vm0, r.vm, n.fullKey);
        var vm' := MarkOther(r.vm, r.node.fullKey);
        KeptWeighed(n, sel, vm0, vm', keep, kept.nodes);
        NumberedAll(vm0, sel);
        OtherWeighed(vm0, vm', n.fullKey);
        AllWeighed(vm0, vm', kept.nodes, r.node);
        SortedInOrder(vm0, vm', WithOther(kept.nodes, r.node), sort);
      }
    }
  }

  lemma {:induction false} NothingInOrder(vm0: ValueMap)
    ensures InOrder(vm0, [])
  {
  }

  lemma {:induction false} NumberedAll(vm0: ValueMap, sel: set<Path>)
    requires Numbered(vm0, sel)
    ensures forall id :: id in vm0 ==> vm0[id].Of?
  {
  }

  lemma {:induction false} AllWeighed(vm0: ValueMap, vm: ValueMap, kept: seq<Node>, other: Node)
    requires Weighed(vm0, vm, kept) && Get(vm, other.fullKey) == Of(Weight(vm0, other.fullKey))
    ensures Weighed(vm0, vm, WithOther(kept, other))
  {
  }

  lemma {:induction false} ChildrenKeyed(n: Node, sel: set<Path>)
    requires WellKeyed(n)
    ensures forall c :: c in Filter(n.children, Selected(sel)) ==>
      c in n.children && WellKeyed(c) && c.fullKey == n.fullKey + [c.key]
  {
    FilterFacts(n.children, Selected(sel));
  }

  lemma {:induction false} NthReplayed(cs: seq<Node>, sel: set<Path>, vm: ValueMap, sort: Sorter, i: nat)
    requires i < |cs|
    ensures |ReduceEachBySet(cs, sel, vm, sort).nodes| == |cs|
    ensures ReduceEachBySet(cs, sel, vm, sort).nodes[i] ==
      ReduceBySet(cs[i], sel, ReduceEachBySet(cs[..i], sel, vm, sort).vm, sort).node
  {
    hide ReduceBySet;
    var n := |cs| - 1;
    var before := ReduceEachBySet(cs[..n], sel, vm, sort);
    if i < n {
      NthReplayed(cs[..n], sel, vm, sort, i);
      assert cs[..n][..i] == cs[..i];
    } else if n > 0 {
      NthReplayed(cs[..n], sel, vm, sort, 0);
    }
  }

  /** The child of a replayed node with a plain key is the replay of the kept child with that key. */
  lemma {:induction false} ReplayedChild(n: Node, sel: set<Path>, vm: ValueMap, sort: Sorter, k: Key) returns (i: nat)
    requires WellKeyed(n) && NoOther(sel) && n.children != [] && k != OTHER
    requires var rs := ReduceBySet(n, sel, vm, sort).node.children; FindKey(rs, k) < |rs|
    ensures var keep, rs := Filter(n.children, Selected(sel)), ReduceBySet(n, sel, vm, sort).node.children;
      && i < |keep| && keep[i].key == k
      && rs[FindKey(rs, k)] == ReduceBySet(keep[i], sel, ReduceEachBySet(keep[..i], sel, vm, sort).vm, sort).node
  {
    var keep := Filter(n.children, Selected(sel));
    var kept, rs := ReduceEachBySet(keep, sel, vm, sort).nodes, ReduceBySet(n, sel, vm, sort).node.children;
    ReduceBySetParts(n, sel, vm, sort);
    hide ReduceBySet, ReduceEachBySet, Filter, DistinctKeys;
    var r := rs[FindKey(rs, k)];
    assert r in rs && r.key == k;
    i :| 0 <= i < |kept| && kept[i] == r;
    NthReplayed(keep, sel, vm, sort, i);
  }

  /** So do those of every node with plain ancestors further down. */
  lemma {:induction false} ReplayOrdered(n: Node, sel: set<Path>, vm: ValueMap, sort: Sorter, vm0: ValueMap, q: Path)
    requires WellKeyed(n) && NoOther(sel) && OTHER !in n.fullKey && OTHER !in q && SortsDown(sort)
    requires Numbered(vm0, sel) && Marked(vm0, vm)
    requires Lookup.Find(ReduceBySet(n, sel, vm, sort).node, q).Some?
    ensures InOrder(vm0, Lookup.Find(ReduceBySet(n, sel, vm, sort).node, q).value.children)
    decreases q
  {
    hide Marked, SortsDown, Numbered, WellKeyed, NoOther, InOrder, Filter, ReduceBySet, ReduceEachBySet;
    if q == [] {
      ReplayedHere(n, sel, vm, sort, vm0);
    } else {
      var keep := Filter(n.children, Selected(sel));
      ReplayLeaf(n, sel, vm, sort);
      assert q[0] in q;
      var i := ReplayedChild(n, sel, vm, sort, q[0]);
      ChildrenKeyed(n, sel);
      assert keep[i] in keep;
      PlainId(n.fullKey, keep[i].key);
      ReplayEachMarks(keep[..i], sel, vm, sort, vm0);
      ReplayOrdered(keep[i], sel, ReduceEachBySet(keep[..i], sel, vm, sort).vm, sort, vm0, q[1..]);
    }
  }

  lemma {:induction false} ReplayLeaf(n: Node, sel: set<Path>, vm: ValueMap, sort: Sorter)
    ensures n.children == [] ==> ReduceBySet(n, sel, vm, sort).node == n
  {
  }

  // ----- the tree nodes are selected on -----

  /** The children other than "Other" come in order, and "Other" is the last one. */
  ghost predicate InOrderOtherLast(vm0: ValueMap, cs: seq<Node>) {
    && (forall i, j :: 0 <= i < j < |cs| && cs[j].key != OTHER ==>
          Weight(vm0, cs[i].fullKey) >= Weight(vm0, cs[j].fullKey))
    && forall i :: 0 <= i < |cs| - 1 ==> cs[i].key != OTHER
  }

  lemma {:induction false} FilterInOrder(vm0: ValueMap, cs: seq<Node>, f: Node -> bool)
    requires InOrder(vm0, cs)
    ensures InOrder(vm0, Filter(cs, f))
  {
    if cs != [] {
      var n := |cs| - 1;
      FilterInOrder(vm0, cs[..n], f);
      FilterFacts(cs[..n], f);
      var r := Filter(cs[..n], f);
      forall i | 0 <= i < |r| ensures Weight(vm0, r[i].fullKey) >= Weight(vm0, cs[n].fullKey) {
        assert r[i] in cs[..n];
        var j :| 0 <= j < n && cs[j] == r[i];
      }
    }
  }

  lemma {:induction false} PlanInOrder(n: Node, m: Metric, vm: ValueMap, sort: Sorter, vm0: ValueMap)
    requires SortsDown(sort) && Weighed(vm0, vm, n.children)
    ensures InOrder(vm0, PlanOf(n, m, vm, sort).keep)
  {
    var t := PlanOf(n, m, vm, sort);
    SortedInOrder(vm0, vm, n.children, sort);
    var k := CutIndex(t.cs, m, n.Value(m), 0, 0, 0);
    hide SortChildren, CutIndex, Filter, Weight;
    FilterInOrder(vm0, t.cs[..k], Plain);
  }

  lemma {:induction false} SelectedWeighed(n: Node, vm: ValueMap, vm0: ValueMap)
    requires WellKeyed(n) && OTHER !in n.fullKey && SameValues(vm0, vm) && AllNumbered(vm0, n.children, n.fullKey)
    ensures Weighed(vm0, vm, n.children)
  {
    hide AllNumbered, SameValues;
    forall c | c in n.children ensures Get(vm, c.fullKey) == Of(Weight(vm0, c.fullKey)) {
      NumberedChild(vm0, n.children, n.fullKey, c);
      PlainId(n.fullKey, c.key);
      SameValueAt(vm0, vm, c.fullKey);
    }
  }

  lemma {:induction false} SameValueAt(vm0: ValueMap, vm: ValueMap, id: Path)
    requires SameValues(vm0, vm) && PlainParent(id)
    ensures Get(vm, id) == Get(vm0, id)
  {
    assert SameValue(vm0, vm, id);
  }

  lemma {:induction false} SelectedHere(n: Node, m: Metric, vm: ValueMap, sort: Sorter, vm0: ValueMap)
    requires WellKeyed(n) && OTHER !in n.fullKey && SortsDown(sort) && SameValues(vm0, vm)
    requires AllNumbered(vm0, n.children, n.fullKey)
    ensures InOrderOtherLast(vm0, ReduceTree(n, m, vm, sort).node.children)
  {
    hide AllNumbered, SameValues, SortsDown, PlanOf, BuildOther, AbsorbAllValues, ReduceEach, Weighed, Weight;
    if n.children != [] {
      var t := PlanOf(n, m, vm, sort);
      SelectedWeighed(n, vm, vm0);
      PlanInOrder(n, m, vm, sort, vm0);
      PlanKeeps(n, m, vm, sort);
      ReduceEachHeads(t.keep, m, vm, sort);
      KeyStaysAbsent(t.keep, ReduceEach(t.keep, m, vm, sort).nodes, OTHER);
      OtherKeyed(n, t.cs, t.drop, {m});
      var vm' := AbsorbAllValues(t.drop, GetOrCreateOther(n.fullKey, t.cs), ReduceEach(t.keep, m, vm, sort).vm);
      ReduceTreeHead(BuildOther(n.fullKey, t.cs, t.drop, {m}), m, vm', sort);
    }
  }

  lemma {:induction false} SelectOrdered(n: Node, m: Metric, vm: ValueMap, sort: Sorter, vm0: ValueMap, q: Path)
    requires WellKeyed(n) && OTHER !in n.fullKey && OTHER !in q && SortsDown(sort) && SameValues(vm0, vm)
    requires AllNumbered(vm0, n.children, n.fullKey)
    requires Lookup.Find(ReduceTree(n, m, vm, sort).node, q).Some?
    ensures InOrderOtherLast(vm0, Lookup.Find(ReduceTree(n, m, vm, sort).node, q).value.children)
    decreases q
  {
    hide AllNumbered, SameValues, SortsDown, PlanOf, ReduceEach, InOrderOtherLast, ReduceTree, WellKeyed;
    if q == [] {
      SelectedHere(n, m, vm, sort, vm0);
    } else {
      SelectLeaf(n, m, vm, sort);
      assert q[0] in q;
      var i := PlainChild(n, m, vm, sort, q[0]);
      var c, keep := PlanOf(n, m, vm, sort).keep[i], PlanOf(n, m, vm, sort).keep;
      PlainPrefix(keep, i, n.fullKey);
      PlainId(n.fullKey, c.key);
      PlainChildren(n);
      NumberedChild(vm0, n.children, n.fullKey, c);
      var before := ReduceEach(keep[..i], m, vm, sort).vm;
      ReduceEachPlain(keep[..i], m, vm, sort, n.fullKey);
      SameValuesTransitive(vm0, vm, before);
      SelectOrdered(c, m, before, sort, vm0, q[1..]);
    }
  }

  lemma {:induction false} SelectLeaf(n: Node, m: Metric, vm: ValueMap, sort: Sorter)
    ensures n.children == [] ==> ReduceTree(n, m, vm, sort).node == n
  {
  }
}
