/**
 Both reductions keep full keys and sibling keys right on every well-keyed tree, whatever its values.
 */
module PathInvariant {
  import opened Trees
  import opened Merge
  import opened Reduce
  import opened Conservation
  import opened Selection
  import opened Replay

  ghost predicate AllKeyed(cs: seq<Node>, p: Path) {
    forall c :: c in cs ==> KeyedChild(c, p)
  }

  lemma {:induction false} SiblingsKeyed(cs: seq<Node>, p: Path)
    requires PlainSiblings(cs, p)
    ensures AllKeyed(cs, p)
  {
  }

  lemma {:induction false} AllKeyedSub(n: Node, cs: seq<Node>)
    requires WellKeyed(n) && forall c :: c in cs ==> c in n.children
    ensures AllKeyed(cs, n.fullKey)
  {
  }

  lemma {:induction false} ReduceTreeLeaf(n: Node, m: Metric, vm: ValueMap, sort: Sorter)
    requires n.children == []
    ensures ReduceTree(n, m, vm, sort).node == n
  {
  }

  lemma {:induction false} ReduceBySetLeaf(n: Node, sel: set<Path>, vm: ValueMap, sort: Sorter)
    requires n.children == []
    ensures ReduceBySet(n, sel, vm, sort).node == n
  {
  }

  lemma {:induction false} KeyedParent(n: Node, kept: seq<Node>, other: Node, rs: seq<Node>)
    requires DistinctKeys(rs) && AllKeyed(kept, n.fullKey) && KeyedChild(other, n.fullKey)
    requires forall r :: r in rs ==> r in kept || r == other
    ensures WellKeyed(n.(children := rs))
  {
  }

  /** Where the children of a reduced node come from. */
  lemma {:induction false} ReduceTreeChildren(n: Node, m: Metric, vm: ValueMap, sort: Sorter)
    requires n.children != []
    ensures var t := PlanOf(n, m, vm, sort);
      var kept := ReduceEach(t.keep, m, vm, sort);
      var vm' := AbsorbAllValues(t.drop, GetOrCreateOther(n.fullKey, t.cs), kept.vm);
      var other := ReduceTree(BuildOther(n.fullKey, t.cs, t.drop, {m}), m, vm', sort).node;
      var r := ReduceTree(n, m, vm, sort).node;
      && r == n.(children := r.children)
      && forall c :: c in r.children ==> c in kept.nodes || c == other
  {
  }

  lemma {:induction false} ReduceBySetChildren(n: Node, sel: set<Path>, vm: ValueMap, sort: Sorter)
    requires n.children != []
    ensures var kept := ReduceEachBySet(Filter(n.children, Selected(sel)), sel, vm, sort);
      var folded := BuildOther(n.fullKey, n.children, Filter(n.children, Unselected(sel)), BOTH);
      var other := ReduceBySet(folded, sel, kept.vm, sort);
      var r := ReduceBySet(n, sel, vm, sort).node;
      && r == n.(children := r.children)
      && forall c :: c in r.children ==> c in kept.nodes || c == other.node
  {
    var kept := ReduceEachBySet(Filter(n.children, Selected(sel)), sel, vm, sort);
    var folded := BuildOther(n.fullKey, n.children, Filter(n.children, Unselected(sel)), BOTH);
    var r := ReduceBySet(folded, sel, kept.vm, sort);
    SortFacts(kept.nodes, kept.vm, sort);
    SortFacts(WithOther(kept.nodes, r.node), MarkOther(r.vm, r.node.fullKey), sort);
  }

  lemma {:induction false} ReduceTreeKeyed(n: Node, m: Metric, vm: ValueMap, sort: Sorter)
    requires WellKeyed(n)
    ensures var r := ReduceTree(n, m, vm, sort).node;
      WellKeyed(r) && r.SameHead(n)
    decreases Height(n), 1, 0
  {
    hide ReduceTree, ReduceEach, PlanOf, BuildOther, AllKeyed;
    if n.children == [] {
      ReduceTreeLeaf(n, m, vm, sort);
    } else {
      var t := PlanOf(n, m, vm, sort);
      ReduceTreeChildren(n, m, vm, sort);
      PlanKeeps(n, m, vm, sort);
      PlanLowers(n, m, vm, sort);
      ReduceTreeParts(n, m, vm, sort);
      var kept := ReduceEach(t.keep, m, vm, sort);
      SiblingsKeyed(t.keep, n.fullKey);
      ReduceEachKeyed(t.keep, m, vm, sort, n.fullKey);
      var other := BuildOther(n.fullKey, t.cs, t.drop, {m});
      OtherKeyed(n, t.cs, t.drop, {m});
      var vm' := AbsorbAllValues(t.drop, GetOrCreateOther(n.fullKey, t.cs), kept.vm);
      ReduceTreeKeyed(other, m, vm', sort);
      KeyedParent(n, kept.nodes, ReduceTree(other, m, vm', sort).node, ReduceTree(n, m, vm, sort).node.children);
    }
  }

  lemma {:induction false} ReduceEachKeyed(cs: seq<Node>, m: Metric, vm: ValueMap, sort: Sorter, p: Path)
    requires AllKeyed(cs, p)
    ensures AllKeyed(ReduceEach(cs, m, vm, sort).nodes, p)
    decreases ForestHeight(cs), 0, |cs|
  {
    if cs != [] {
      var n := |cs| - 1;
      TallerThanChild(cs, n);
      assert cs[n] in cs;
      ReduceEachKeyed(cs[..n], m, vm, sort, p);
      ReduceTreeKeyed(cs[n], m, ReduceEach(cs[..n], m, vm, sort).vm, sort);
    }
  }

  lemma {:induction false} ReduceBySetKeyed(n: Node, sel: set<Path>, vm: ValueMap, sort: Sorter)
    requires WellKeyed(n) && NoOther(sel)
    ensures var r := ReduceBySet(n, sel, vm, sort).node;
      WellKeyed(r) && r.SameHead(n)
    decreases Height(n), 1, 0
  {
    hide ReduceBySet, ReduceEachBySet, BuildOther, AllKeyed, Filter;
    if n.children == [] {
      ReduceBySetLeaf(n, sel, vm, sort);
    } else {
      ReduceBySetChildren(n, sel, vm, sort);
      var keep, drop := Filter(n.children, Selected(sel)), Filter(n.children, Unselected(sel));
      FilterFacts(n.children, Selected(sel));
      FilterFacts(n.children, Unselected(sel));
      SubforestHeight(keep, n.children);
      ReduceBySetParts(n, sel, vm, sort);
      var kept := ReduceEachBySet(keep, sel, vm, sort);
      AllKeyedSub(n, keep);
      ReduceEachBySetKeyed(keep, sel, vm, sort, n.fullKey);
      var other := BuildOther(n.fullKey, n.children, drop, BOTH);
      OtherIsLower(n.fullKey, n.children, drop, BOTH);
      OtherKeyed(n, n.children, drop, BOTH);
      ReduceBySetKeyed(other, sel, kept.vm, sort);
      var r := ReduceBySet(other, sel, kept.vm, sort);
      KeyedParent(n, kept.nodes, r.node, ReduceBySet(n, sel, vm, sort).node.children);
    }
  }

  lemma {:induction false} ReduceEachBySetKeyed(cs: seq<Node>, sel: set<Path>, vm: ValueMap, sort: Sorter, p: Path)
    requires AllKeyed(cs, p) && NoOther(sel)
    ensures AllKeyed(ReduceEachBySet(cs, sel, vm, sort).nodes, p)
    decreases ForestHeight(cs), 0, |cs|
  {
    if cs != [] {
      var n := |cs| - 1;
      TallerThanChild(cs, n);
      assert cs[n] in cs;
      ReduceEachBySetKeyed(cs[..n], sel, vm, sort, p);
      ReduceBySetKeyed(cs[n], sel, ReduceEachBySet(cs[..n], sel, vm, sort).vm, sort);
    }
  }
}
