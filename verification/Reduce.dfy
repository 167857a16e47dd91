/**
 Reducing a classification tree: every node keeps its most important children and folds the
 others into an "Other" child, which is reduced in turn (Helpers.reduceTree), and replaying the
 selection made on one tree on another (Helpers.reduceTreeBasedOnSelectedNodeSetRecursively).
 */
module Reduce {
  import opened Permutations
  import opened Trees
  import opened Merge

  const MAX_CHILDREN: nat := 9

  // ----- sorting -----

  /**
   The order Array.sort produces: the comparison only looks at the value map and at the ids, and
   missing values make it inconsistent, so all that is known is that elements are rearranged.
   */
  type Sorter = s: (ValueMap, seq<Path>) -> seq<nat> | IsSorter(s) witness KeepOrder

  ghost predicate IsSorter(s: (ValueMap, seq<Path>) -> seq<nat>) {
    forall vm, ids :: IsPermutation(s(vm, ids), |ids|)
  }

  function KeepOrder(vm: ValueMap, ids: seq<Path>): seq<nat> {
    seq(|ids|, i requires 0 <= i => i)
  }

  function Ids(cs: seq<Node>): (r: seq<Path>)
    ensures |r| == |cs|
  {
    seq(|cs|, i requires 0 <= i < |cs| => cs[i].fullKey)
  }

  function SortChildren(cs: seq<Node>, vm: ValueMap, sort: Sorter): seq<Node> {
    var p := SortOrder(cs, vm, sort);
    Permute(cs, p)
  }

  function SortOrder(cs: seq<Node>, vm: ValueMap, sort: Sorter): (p: seq<nat>)
    ensures IsPermutation(p, |cs|)
  {
    assert IsSorter(sort);
    sort(vm, Ids(cs))
  }

  lemma {:induction false} SortFacts(cs: seq<Node>, vm: ValueMap, sort: Sorter)
    ensures var r := SortChildren(cs, vm, sort);
      && |r| == |cs|
      && (forall c :: c in r <==> c in cs)
      && (forall m: Metric :: Sum(r, m) == Sum(cs, m))
      && ForestHeight(r) == ForestHeight(cs)
      && (DistinctKeys(cs) ==> DistinctKeys(r))
  {
    PermutedChildren(cs, SortOrder(cs, vm, sort));
  }

  // ----- choosing children -----

  function Filter(cs: seq<Node>, f: Node -> bool): seq<Node> {
    if cs == [] then []
    else
      var n := |cs| - 1;
      if f(cs[n]) then Filter(cs[..n], f) + [cs[n]] else Filter(cs[..n], f)
  }

  lemma {:induction false} FilterFacts(cs: seq<Node>, f: Node -> bool)
    ensures |Filter(cs, f)| <= |cs|
    ensures forall c :: c in Filter(cs, f) <==> c in cs && f(c)
    ensures DistinctKeys(cs) ==> DistinctKeys(Filter(cs, f))
  {
    if cs != [] {
      var n := |cs| - 1;
      FilterFacts(cs[..n], f);
      assert cs == cs[..n] + [cs[n]];
      var r := Filter(cs[..n], f);
      assert DistinctKeys(cs) ==> forall i :: 0 <= i < |r| ==> r[i] in cs[..n] && r[i].key != cs[n].key;
    }
  }

  const Plain: Node -> bool := (c: Node) => c.key != OTHER

  function Selected(sel: set<Path>): Node -> bool {
    (c: Node) => c.fullKey in sel
  }

  function Unselected(sel: set<Path>): Node -> bool {
    (c: Node) => c.fullKey !in sel && c.key != OTHER
  }

  /**
   Where the selection loop stops: after more than 90% of the node, after nine children, or at the
   end. An "Other" child is skipped and counts for nothing.
   */
  function CutIndex(cs: seq<Node>, m: Metric, overall: int, k: nat, count: nat, selected: int): (r: nat)
    requires k <= |cs|
    ensures k <= r <= |cs|
    decreases |cs| - k
  {
    if 10 * selected <= 9 * overall && count < MAX_CHILDREN && k < |cs| then
      if cs[k].key == OTHER then CutIndex(cs, m, overall, k + 1, count, selected)
      else CutIndex(cs, m, overall, k + 1, count + 1, selected + cs[k].Value(m))
    else k
  }

  // ----- the "Other" child -----

  function EmptyOther(parent: Path): Node {
    Node(parent + [OTHER], OTHER, 0, 0, [])
  }

  function GetOrCreateOther(parent: Path, cs: seq<Node>): Node {
    var i := FindKey(cs, OTHER);
    if i < |cs| then cs[i] else EmptyOther(parent)
  }

  function AbsorbAll(dropped: seq<Node>, other: Node): Node {
    if dropped == [] then other
    else
      var n := |dropped| - 1;
      Absorb(dropped[n], AbsorbAll(dropped[..n], other), 0)
  }

  function AbsorbAllValues(dropped: seq<Node>, other: Node, vm: ValueMap): ValueMap {
    if dropped == [] then vm
    else
      var n := |dropped| - 1;
      MergeValues(dropped[n].children, AbsorbAll(dropped[..n], other).children,
                  AbsorbAllValues(dropped[..n], other, vm), 0)
  }

  /** A node whose "Other" child, created if need be, has taken in the given amounts. */
  function AddToOther(n: Node, objects: int, bytes: int): Node {
    var i := FindKey(n.children, OTHER);
    if i < |n.children| then n.(children := n.children[i := n.children[i].Plus(objects, bytes)])
    else n.(children := n.children + [EmptyOther(n.fullKey).Plus(objects, bytes)])
  }

  /** Metrics of dropped leaves are not covered by the merged children: put them in an "Other" child. */
  function FixOther(other: Node, ms: set<Metric>): Node {
    if other.children == [] then other
    else
      var dObjects := other.objects - Sum(other.children, Objects);
      var dBytes := other.bytes - Sum(other.children, Bytes);
      if dObjects == 0 && dBytes == 0 then other
      else AddToOther(other, if Objects in ms then dObjects else 0, if Bytes in ms then dBytes else 0)
  }

  /** The "Other" node that stands for the dropped children, before it is reduced itself. */
  function BuildOther(parent: Path, cs: seq<Node>, drop: seq<Node>, ms: set<Metric>): Node {
    FixOther(AbsorbAll(drop, GetOrCreateOther(parent, cs)), ms)
  }

  lemma {:induction false} AbsorbAllHeight(dropped: seq<Node>, other: Node, h: nat)
    requires Height(other) <= h && forall d :: d in dropped ==> Height(d) <= h
    ensures Height(AbsorbAll(dropped, other)) <= h
  {
    if dropped != [] {
      var n := |dropped| - 1;
      AbsorbAllHeight(dropped[..n], other, h);
      assert dropped[n] in dropped;
      MergeHeight(dropped[n].children, AbsorbAll(dropped[..n], other).children, 0, h);
    }
  }

  lemma {:induction false} FixOtherHeight(other: Node, ms: set<Metric>)
    ensures Height(FixOther(other, ms)) <= Height(other)
  {
    var fixed := FixOther(other, ms);
    if fixed != other {
      var i := FindKey(other.children, OTHER);
      TallerThanChild(other.children, 0);
      forall c | c in fixed.children ensures Height(c) < Height(other) {
        if c in other.children {
          var j :| 0 <= j < |other.children| && other.children[j] == c;
          TallerThanChild(other.children, j);
        } else if i < |other.children| {
          TallerThanChild(other.children, i);
        }
      }
      ForestHeightBound(fixed.children, Height(other));
    }
  }

  /** The "Other" subtree built from a node's children is strictly lower than the node. */
  lemma {:induction false} OtherIsLower(parent: Path, cs: seq<Node>, dropped: seq<Node>, ms: set<Metric>)
    requires cs != [] && forall d :: d in dropped ==> d in cs
    ensures Height(BuildOther(parent, cs, dropped, ms)) < ForestHeight(cs)
  {
    var h := ForestHeight(cs) - 1;
    TallerThanChild(cs, 0);
    forall c | c in cs ensures Height(c) <= h {
      var i :| 0 <= i < |cs| && cs[i] == c;
      TallerThanChild(cs, i);
    }
    AbsorbAllHeight(dropped, GetOrCreateOther(parent, cs), h);
    FixOtherHeight(AbsorbAll(dropped, GetOrCreateOther(parent, cs)), ms);
  }

  // ----- the selecting reduction -----

  /** The reduced tree, the value map it leaves behind and the ids of the nodes it kept. */
  datatype Reduced = Reduced(node: Node, vm: ValueMap, ids: set<Path>)
  datatype ReducedForest = ReducedForest(nodes: seq<Node>, vm: ValueMap, ids: set<Path>)

  /** The children a node is left with: "Other" goes last, unless it is there already. */
  function WithOther(kept: seq<Node>, other: Node): seq<Node> {
    if FindKey(kept, OTHER) == |kept| then kept + [other] else kept
  }

  /** What happens to the sorted children of a node: kept, or merged into "Other". */
  datatype Plan = Plan(cs: seq<Node>, keep: seq<Node>, drop: seq<Node>)

  function PlanOf(n: Node, m: Metric, vm: ValueMap, sort: Sorter): Plan {
    var cs := SortChildren(n.children, vm, sort);
    var k := CutIndex(cs, m, n.Value(m), 0, 0, 0);
    Plan(cs, Filter(cs[..k], Plain), Filter(cs[k..], Plain))
  }

  lemma {:induction false} PlanLowers(n: Node, m: Metric, vm: ValueMap, sort: Sorter)
    requires n.children != []
    ensures var t := PlanOf(n, m, vm, sort);
      && ForestHeight(t.keep) <= Height(n)
      && Height(BuildOther(n.fullKey, t.cs, t.drop, {m})) < Height(n)
  {
    var t := PlanOf(n, m, vm, sort);
    var k := CutIndex(t.cs, m, n.Value(m), 0, 0, 0);
    SortFacts(n.children, vm, sort);
    FilterFacts(t.cs[..k], Plain);
    FilterFacts(t.cs[k..], Plain);
    SubforestHeight(t.keep, t.cs);
    assert n.children[0] in t.cs;
    OtherIsLower(n.fullKey, t.cs, t.drop, {m});
  }

  function ReduceTree(n: Node, m: Metric, vm: ValueMap, sort: Sorter): Reduced
    decreases Height(n), 1, 0
  {
    if n.children == [] then Reduced(n, vm, {})
    else
      var t := PlanOf(n, m, vm, sort);
      PlanLowers(n, m, vm, sort);
      var kept := ReduceEach(t.keep, m, vm, sort);
      if |t.keep| == |t.cs| then
        Reduced(n.(children := kept.nodes), kept.vm, kept.ids)
      else
        var vm' := AbsorbAllValues(t.drop, GetOrCreateOther(n.fullKey, t.cs), kept.vm);
        var r := ReduceTree(BuildOther(n.fullKey, t.cs, t.drop, {m}), m, vm', sort);
        Reduced(n.(children := WithOther(kept.nodes, r.node)), r.vm, kept.ids + r.ids)
  }

  function ReduceEach(cs: seq<Node>, m: Metric, vm: ValueMap, sort: Sorter): ReducedForest
    decreases ForestHeight(cs), 0, |cs|
  {
    if cs == [] then ReducedForest([], vm, {})
    else
      var n := |cs| - 1;
      TallerThanChild(cs, n);
      var before := ReduceEach(cs[..n], m, vm, sort);
      var r := ReduceTree(cs[n], m, before.vm, sort);
      ReducedForest(before.nodes + [r.node], r.vm, before.ids + r.ids + {r.node.fullKey})
  }

  lemma {:induction false} ReduceTreeHead(n: Node, m: Metric, vm: ValueMap, sort: Sorter)
    ensures ReduceTree(n, m, vm, sort).node.SameHead(n)
  {
  }

  lemma {:induction false} ReduceBySetHead(n: Node, sel: set<Path>, vm: ValueMap, sort: Sorter)
    ensures ReduceBySet(n, sel, vm, sort).node.SameHead(n)
  {
  }

  // ----- replaying a selection -----

  datatype Replayed = Replayed(node: Node, vm: ValueMap)
  datatype ReplayedForest = ReplayedForest(nodes: seq<Node>, vm: ValueMap)

  const BOTH: set<Metric> := {Objects, Bytes}

  /** The "Other" node gets the value -1 unless it has one, so that it is sorted to the end. */
  function MarkOther(vm: ValueMap, id: Path): ValueMap {
    if id in vm then vm else vm[id := Of(-1)]
  }

  function ReduceBySet(n: Node, sel: set<Path>, vm: ValueMap, sort: Sorter): Replayed
    decreases Height(n), 1, 0
  {
    if n.children == [] then Replayed(n, vm)
    else
      var keep := Filter(n.children, Selected(sel));
      FilterFacts(n.children, Selected(sel));
      SubforestHeight(keep, n.children);
      var kept := ReduceEachBySet(keep, sel, vm, sort);
      if |keep| == |n.children| then
        Replayed(n.(children := SortChildren(kept.nodes, kept.vm, sort)), kept.vm)
      else
        var drop := Filter(n.children, Unselected(sel));
        FilterFacts(n.children, Unselected(sel));
        OtherIsLower(n.fullKey, n.children, drop, BOTH);
        var r := ReduceBySet(BuildOther(n.fullKey, n.children, drop, BOTH), sel, kept.vm, sort);
        var vm' := MarkOther(r.vm, r.node.fullKey);
        Replayed(n.(children := SortChildren(WithOther(kept.nodes, r.node), vm', sort)), vm')
  }

  function ReduceEachBySet(cs: seq<Node>, sel: set<Path>, vm: ValueMap, sort: Sorter): ReplayedForest
    decreases ForestHeight(cs), 0, |cs|
  {
    if cs == [] then ReplayedForest([], vm)
    else
      var n := |cs| - 1;
      TallerThanChild(cs, n);
      var before := ReduceEachBySet(cs[..n], sel, vm, sort);
      var r := ReduceBySet(cs[n], sel, before.vm, sort);
      ReplayedForest(before.nodes + [r.node], r.vm)
  }
}
