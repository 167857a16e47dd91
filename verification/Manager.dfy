/** VisualizationManager: the object that holds the trees and reacts to the user. */
module Manager {
  import opened Trees
  import opened Merge
  import opened Reduce
  import opened Conservation
  import opened TreeHeap
  import opened Sizes
  import opened Lookup
  import opened Growth
  import opened Session

  /** `trees` are, one by one, the given values. */
  ghost predicate Holds(trees: seq<TreeNode>, vals: seq<Node>, region: set<TreeNode>)
    reads region
  {
    && |trees| == |vals|
    && forall i :: 0 <= i < |trees| ==>
         trees[i] in region && trees[i].Repr <= region && trees[i].Valid() && trees[i].val == vals[i]
  }

  ghost function Roots(snaps: seq<Snapshot>): (r: seq<Node>)
    ensures |r| == |snaps| && forall i :: 0 <= i < |r| ==> r[i] == snaps[i].root
  {
    seq(|snaps|, i requires 0 <= i < |snaps| => snaps[i].root)
  }

  ghost predicate HasTimes(snaps: seq<Snapshot>, times: seq<int>) {
    |times| == |snaps| && forall i :: 0 <= i < |snaps| ==> times[i] == snaps[i].time
  }

  /** Helpers.cloneTrees. */
  method CloneTrees(trees: seq<TreeNode>, ghost vals: seq<Node>, ghost region: set<TreeNode>)
    returns (clones: seq<TreeNode>, ghost region': set<TreeNode>)
    requires Holds(trees, vals, region)
    ensures Holds(clones, vals, region') && Forest(clones, region') && fresh(region')
  {
    clones, region' := [], {};
    for i := 0 to |trees|
      invariant Holds(clones, vals[..i], region') && Forest(clones, region') && fresh(region')
    {
      hide Holds, Forest;
      HoldsAt(trees, vals, region, i);
      var c := ConvertNodeRecursively(trees[i]);
      MoreClones(clones, vals[..i], region', c);
      assert vals[..i] + [vals[i]] == vals[..i + 1];
      clones, region' := clones + [c], region' + c.Repr;
    }
    assert vals[..|trees|] == vals;
  }

  lemma {:induction false} HoldsAt(trees: seq<TreeNode>, vals: seq<Node>, region: set<TreeNode>, i: nat)
    requires Holds(trees, vals, region) && i < |trees|
    ensures |vals| == |trees| && trees[i] in region && trees[i].Repr <= region
    ensures trees[i].Valid() && trees[i].val == vals[i]
  {
  }

  lemma {:induction false} MoreClones(clones: seq<TreeNode>, vals: seq<Node>, region: set<TreeNode>, c: TreeNode)
    requires Holds(clones, vals, region) && Forest(clones, region) && c.Valid() && c.Repr !! region
    ensures Holds(clones + [c], vals + [c.val], region + c.Repr) && Forest(clones + [c], region + c.Repr)
  {
  }

  /** The state of the clones while they are reduced: the selecting tree first, then the others in order. */
  ghost predicate InProgress(clones: seq<TreeNode>, region: set<TreeNode>, inp: Input, m: Metric, mode: Mode, i: nat)
    requires inp.snaps != [] && i <= |inp.snaps|
    reads region
  {
    && |clones| == |inp.snaps| && Forest(clones, region)
    && (var k := SelectionIndex(|clones|, mode);
        && clones[k].val == Selecting(inp, m, mode).node
        && (forall j :: i <= j < |clones| && j != k ==> clones[j].val == inp.snaps[j].root))
  }

  /** Reduces the tree on which nodes are selected. */
  method SelectOn(clones: seq<TreeNode>, k: nat, m: Metric, vm: ValueMap, sort: Sorter, ghost region: set<TreeNode>)
    returns (vm': ValueMap, ids: set<Path>, ghost region': set<TreeNode>)
    requires Forest(clones, region) && k < |clones| && WellKeyed(clones[k].val)
    modifies clones[k].Repr
    ensures Forest(clones, region') && region <= region' && fresh(region' - region)
    ensures var r := ReduceTree(old(clones[k].val), m, vm, sort);
      clones[k].val == r.node && vm' == r.vm && ids == r.ids
    ensures forall j :: 0 <= j < |clones| && j != k ==> clones[j].val == old(clones[j].val)
  {
    Separate(clones, k, region);
    vm', ids := ReduceTreeRec(clones[k], m, vm, {}, sort);
    forall j | 0 <= j < |clones| && j != k
      ensures clones[j].Valid() && clones[j].val == old(clones[j].val) && clones[j].Repr == old(clones[j].Repr)
    {
    }
    region' := region + clones[k].Repr;
  }

  lemma {:induction false} Separate(cs: seq<TreeNode>, k: nat, region: set<TreeNode>)
    requires Forest(cs, region) && k < |cs|
    ensures forall j :: 0 <= j < |cs| && j != k ==> cs[j].Repr !! cs[k].Repr
  {
    forall j | 0 <= j < |cs| && j != k ensures cs[j].Repr !! cs[k].Repr {
      if j < k {} else {}
    }
  }

  /** Replays the selection on one of the other trees. */
  method ReplayOn(clones: seq<TreeNode>, k: nat, ids: set<Path>, vm: ValueMap, sort: Sorter,
                  ghost region: set<TreeNode>)
    returns (vm': ValueMap, ghost region': set<TreeNode>)
    requires Forest(clones, region) && k < |clones| && WellKeyed(clones[k].val) && NoOther(ids)
    modifies clones[k].Repr
    ensures Forest(clones, region') && region <= region' && fresh(region' - region)
    ensures var r := ReduceBySet(old(clones[k].val), ids, vm, sort);
      clones[k].val == r.node && vm' == r.vm
    ensures forall j :: 0 <= j < |clones| && j != k ==> clones[j].val == old(clones[j].val)
  {
    Separate(clones, k, region);
    vm' := ReduceBySetRec(clones[k], ids, vm, sort);
    forall j | 0 <= j < |clones| && j != k
      ensures clones[j].Valid() && clones[j].val == old(clones[j].val) && clones[j].Repr == old(clones[j].Repr)
    {
    }
    region' := region + clones[k].Repr;
  }

  /** Which tree object is shown at position `j`. */
  function SlotOf(times: seq<int>, k: nat, j: nat): (i: nat)
    requires k < |times| && j < |times|
    ensures i < |times|
  {
    if times[j] == times[k] then k else j
  }

  /** The first `i` slots are filled with the right objects, and those hold the right trees. */
  ghost predicate Filled(clones: seq<TreeNode>, result: seq<TreeNode>, region: set<TreeNode>, times: seq<int>,
                         vals: seq<Node>, k: nat, i: nat)
    reads region
  {
    && |clones| == |times| && Forest(clones, region) && k < |clones|
    && |result| == |vals| == i <= |clones|
    && (forall j :: 0 <= j < i ==> result[j] == clones[SlotOf(times, k, j)])
    && (forall j :: 0 <= j < i ==> clones[SlotOf(times, k, j)].val == vals[j])
  }

  lemma {:induction false} FillNext(clones: seq<TreeNode>, result: seq<TreeNode>, region: set<TreeNode>,
                                    times: seq<int>, vals: seq<Node>, k: nat, i: nat)
    requires Filled(clones, result, region, times, vals, k, i) && i < |clones|
    ensures Filled(clones, result + [clones[SlotOf(times, k, i)]], region, times,
                   vals + [clones[SlotOf(times, k, i)].val], k, i + 1)
  {
  }

  lemma {:induction false} FilledHolds(clones: seq<TreeNode>, result: seq<TreeNode>, region: set<TreeNode>,
                                       times: seq<int>, vals: seq<Node>, k: nat)
    requires Filled(clones, result, region, times, vals, k, |clones|)
    ensures Holds(result, vals, region)
  {
  }

  /** VisualizationManager.selectNodesAndReduceTrees. */
  method SelectNodesAndReduceTrees(clones: seq<TreeNode>, times: seq<int>, k: nat, m: Metric, vm: ValueMap,
                                   sort: Sorter, resort: Sorter, ghost region: set<TreeNode>, ghost inp: Input,
                                   ghost mode: Mode)
    returns (result: seq<TreeNode>, vm': ValueMap, ghost region': set<TreeNode>)
    requires GoodInput(inp) && HasTimes(inp.snaps, times) && sort == inp.sort && resort == inp.resort
    requires Holds(clones, Roots(inp.snaps), region) && Forest(clones, region)
    requires k == SelectionIndex(|clones|, mode) && vm == InitialValues(inp, m, mode)
    modifies region
    ensures Holds(result, Build(inp, m, mode), region') && region <= region' && fresh(region' - region)
    ensures vm' == BuildUpTo(inp, m, mode, |inp.snaps|).vm
  {
    var ids;
    vm', ids, region' := SelectOn(clones, k, m, vm, sort, region);
    result, vm', region' := ReplaySelection(clones, times, k, m, ids, vm', resort, region', inp, mode);
  }

  method ReplaySelection(clones: seq<TreeNode>, times: seq<int>, k: nat, m: Metric, ids: set<Path>, vm: ValueMap,
                         sort: Sorter, ghost region: set<TreeNode>, ghost inp: Input, ghost mode: Mode)
    returns (result: seq<TreeNode>, vm': ValueMap, ghost region': set<TreeNode>)
    requires GoodInput(inp) && HasTimes(inp.snaps, times) && sort == inp.resort
    requires |clones| == |inp.snaps|
    requires InProgress(clones, region, inp, m, mode, 0) && k == SelectionIndex(|clones|, mode)
    requires ids == Selecting(inp, m, mode).ids && vm == Selecting(inp, m, mode).vm
    modifies region
    ensures Holds(result, Build(inp, m, mode), region') && region <= region' && fresh(region' - region)
    ensures vm' == BuildUpTo(inp, m, mode, |inp.snaps|).vm
  {
    hide *;
    SelectingNoOther(inp, m, mode);
    FilledNone(clones, vm, region, times, inp, m, mode);
    result, vm', region' := [], vm, region;
    for i := 0 to |clones|
      invariant FilledUpTo(clones, result, vm', region', times, inp, m, mode, i)
      invariant region <= region' && fresh(region' - region)
    {
      result, vm', region' := FillSlot(clones, times, k, i, ids, vm', sort, region', inp, m, mode, result);
    }
    FilledAll(clones, result, vm', region', times, inp, m, mode);
  }

  /** The first `i` slots have been dealt with. */
  ghost predicate FilledUpTo(clones: seq<TreeNode>, result: seq<TreeNode>, vm: ValueMap, region: set<TreeNode>,
                             times: seq<int>, inp: Input, m: Metric, mode: Mode, i: nat)
    reads region
  {
    && inp.snaps != [] && |clones| == |inp.snaps| && i <= |inp.snaps|
    && InProgress(clones, region, inp, m, mode, i)
    && Filled(clones, result, region, times, BuildUpTo(inp, m, mode, i).nodes, SelectionIndex(|clones|, mode), i)
    && vm == BuildUpTo(inp, m, mode, i).vm
  }

  lemma {:induction false} FilledNone(clones: seq<TreeNode>, vm: ValueMap, region: set<TreeNode>, times: seq<int>,
                                      inp: Input, m: Metric, mode: Mode)
    requires inp.snaps != [] && HasTimes(inp.snaps, times)
    requires InProgress(clones, region, inp, m, mode, 0) && vm == Selecting(inp, m, mode).vm
    ensures FilledUpTo(clones, [], vm, region, times, inp, m, mode, 0)
  {
  }

  lemma {:induction false} FilledAll(clones: seq<TreeNode>, result: seq<TreeNode>, vm: ValueMap,
                                     region: set<TreeNode>, times: seq<int>, inp: Input, m: Metric, mode: Mode)
    requires FilledUpTo(clones, result, vm, region, times, inp, m, mode, |clones|)
    ensures Holds(result, Build(inp, m, mode), region) && vm == BuildUpTo(inp, m, mode, |inp.snaps|).vm
  {
    FilledHolds(clones, result, region, times, Build(inp, m, mode), SelectionIndex(|clones|, mode));
  }

  method FillSlot(clones: seq<TreeNode>, times: seq<int>, k: nat, i: nat, ids: set<Path>, vm: ValueMap, sort: Sorter,
                  ghost region: set<TreeNode>, ghost inp: Input, ghost m: Metric, ghost mode: Mode,
                  result: seq<TreeNode>)
    returns (result': seq<TreeNode>, vm': ValueMap, ghost region': set<TreeNode>)
    requires GoodInput(inp) && HasTimes(inp.snaps, times) && sort == inp.resort && i < |inp.snaps|
    requires FilledUpTo(clones, result, vm, region, times, inp, m, mode, i)
    requires k == SelectionIndex(|clones|, mode)
    requires ids == Selecting(inp, m, mode).ids && NoOther(ids)
    modifies region
    ensures region <= region' && fresh(region' - region)
    ensures FilledUpTo(clones, result', vm', region', times, inp, m, mode, i + 1)
  {
    ghost var before := BuildUpTo(inp, m, mode, i);
    BuildNext(inp, m, mode, i);
    vm', region' := vm, region;
    if times[i] != times[k] {
      vm', region' := ReplaySlot(clones, times, k, i, ids, vm', sort, region', inp, m, mode, result, before.nodes);
    }
    FillNext(clones, result, region', times, before.nodes, k, i);
    result' := result + [clones[if times[i] == times[k] then k else i]];
  }

  method ReplaySlot(clones: seq<TreeNode>, times: seq<int>, k: nat, i: nat, ids: set<Path>, vm: ValueMap,
                    sort: Sorter, ghost region: set<TreeNode>, ghost inp: Input, ghost m: Metric, ghost mode: Mode,
                    ghost result: seq<TreeNode>, ghost vals: seq<Node>)
    returns (vm': ValueMap, ghost region': set<TreeNode>)
    requires GoodInput(inp) && NoOther(ids) && i < |inp.snaps|
    requires InProgress(clones, region, inp, m, mode, i) && k == SelectionIndex(|clones|, mode)
    requires Filled(clones, result, region, times, vals, k, i) && times[i] != times[k]
    modifies region
    ensures InProgress(clones, region', inp, m, mode, i + 1) && region <= region' && fresh(region' - region)
    ensures Filled(clones, result, region', times, vals, k, i)
    ensures var r := ReduceBySet(inp.snaps[i].root, ids, vm, sort);
      clones[i].val == r.node && vm' == r.vm
  {
    forall j | 0 <= j < i ensures SlotOf(times, k, j) != i {
    }
    vm', region' := ReplayOn(clones, i, ids, vm, sort, region);
  }

  /** VisualizationManager.createGlobalTrees: reduces clones, so the original trees stay as they are. */
  method CreateGlobalTrees(originals: seq<TreeNode>, times: seq<int>, growthBytes: Change, growthObjects: Change,
                           m: Metric, mode: Mode, sort: Sorter, resort: Sorter, ghost region: set<TreeNode>,
                           ghost inp: Input)
    returns (trees: seq<TreeNode>, vm: ValueMap, ghost region': set<TreeNode>)
    requires GoodInput(inp) && HasTimes(inp.snaps, times) && Holds(originals, Roots(inp.snaps), region)
    requires inp.growthBytes == growthBytes && inp.growthObjects == growthObjects
    requires inp.sort == sort && inp.resort == resort
    ensures Holds(trees, Build(inp, m, mode), region') && fresh(region') && |trees| == |originals|
    ensures vm == BuildUpTo(inp, m, mode, |inp.snaps|).vm
  {
    var clones;
    clones, region' := CloneTrees(originals, Roots(inp.snaps), region);
    var k := SelectionIndex(|clones|, mode);
    if mode.AbsoluteGrowth? {
      vm := AsValues(if m.Bytes? then growthBytes else growthObjects);
    } else {
      vm := CalculateSizeAtSpecificTree(clones[k], m);
    }
    trees, vm, region' := SelectNodesAndReduceTrees(clones, times, k, m, vm, sort, resort, region', inp, mode);
  }

  method CalculateGrowth(originals: seq<TreeNode>, ghost region: set<TreeNode>, ghost snaps: seq<Snapshot>)
    returns (growthBytes: Change, growthObjects: Change)
    requires Holds(originals, Roots(snaps), region) && snaps != []
    requires forall i :: 0 <= i < |snaps| ==> WellKeyed(snaps[i].root) && snaps[i].root.fullKey == snaps[0].root.fullKey
    ensures GrowthFrom(snaps, growthBytes, Bytes) && GrowthFrom(snaps, growthObjects, Objects)
  {
    var first, last := originals[0], originals[|originals| - 1];
    growthBytes := GrowthBetween(first, last, Bytes);
    growthObjects := GrowthBetween(first, last, Objects);
  }

  /** `node` is a node of the displayed tree. */
  ghost predicate Displayed(trees: seq<TreeNode>, idx: nat, node: TreeNode, region: set<TreeNode>)
    requires forall i :: 0 <= i < |trees| ==> trees[i] in region && trees[i].Repr <= region && trees[i].Valid()
    reads region
  {
    idx < |trees| && node in region && Reaches(trees[idx], Lookup.Below(node.fullKey), node)
  }

  lemma {:induction false} RootIsCurrent(trees: seq<TreeNode>, inp: Input, region: set<TreeNode>, m: Metric,
                                         mode: Mode, idx: nat)
    requires GoodInput(inp) && Holds(trees, Build(inp, m, mode), region) && idx < |trees|
    ensures Displayed(trees, idx, trees[idx], region) && trees[idx].fullKey == Build(inp, m, mode)[idx].fullKey
  {
    BuiltKeyed(inp, m, mode, idx);
    assert Lookup.Below(trees[idx].fullKey) == [];
  }

  /** `node` is the last one on the path `ids` up to which every node below the root has children. */
  ghost predicate DeepestOn(root: TreeNode, ids: Path, node: TreeNode)
    requires root.Valid()
    reads root, root.Repr
  {
    var q := Lookup.Below(ids);
    exists k :: 0 <= k <= |q| && Reaches(root, q[..k], node) && IsDeepest(root.val, q, k)
  }

  ghost predicate IsDeepest(n: Node, q: Path, k: nat)
    requires k <= |q|
  {
    && (forall j :: 1 <= j <= k ==> HasChildren(n, q[..j]))
    && (k < |q| ==> !HasChildren(n, q[..k + 1]))
  }

  predicate HasChildren(n: Node, q: Path) {
    Find(n, q).Some? && Find(n, q).value.children != []
  }

  lemma {:induction false} ClosestReached(root: TreeNode, ids: Path, node: TreeNode, k: nat)
    requires root.Valid() && k <= |Lookup.Below(ids)| && Reaches(root, Lookup.Below(ids)[..k], node)
    requires WellKeyed(root.val) && node.Valid() && node.val == Closest(root.val, Lookup.Below(ids))
    ensures DeepestOn(root, ids, node)
  {
    var q := Lookup.Below(ids);
    var i := ClosestIsDeepest(root.val, q);
    ReachedIsFound(root, q[..k], node);
    FoundHasPath(root.val, q[..k]);
    FoundHasPath(root.val, q[..i]);
    assert |root.val.fullKey + q[..k]| == |root.val.fullKey + q[..i]|;
    assert i == k;
    hide Find, Closest, Reaches;
    assert IsDeepest(root.val, q, k) by {
      DeepestAt(root.val, q, k);
    }
  }

  lemma {:induction false} DeepestAt(n: Node, q: Path, k: nat)
    requires k <= |q| && Displayable(n, q, k) && (k < |q| ==> !Displayable(n, q, k + 1))
    ensures IsDeepest(n, q, k)
  {
    hide Find;
    forall j | 1 <= j <= k ensures HasChildren(n, q[..j]) {
      assert Find(n, q[..j]).Some?;
    }
  }

  /** The closest displayable node in the displayed tree. */
  method ClosestNode(trees: seq<TreeNode>, idx: nat, ids: Path, ghost region: set<TreeNode>, ghost inp: Input,
                     ghost m: Metric, ghost mode: Mode)
    returns (node: TreeNode)
    requires GoodInput(inp) && Holds(trees, Build(inp, m, mode), region) && idx < |trees|
    ensures Displayed(trees, idx, node, region) && DeepestOn(trees[idx], ids, node)
    ensures node.fullKey == Closest(Build(inp, m, mode)[idx], Lookup.Below(ids)).fullKey
  {
    node := GetClosestDisplayableNode(ids, trees[idx]);
    ghost var q := Lookup.Below(ids);
    ghost var k :| 0 <= k <= |q| && Reaches(trees[idx], q[..k], node);
    BuiltKeyed(inp, m, mode, idx);
    ReachedKey(trees[idx], q[..k], node);
    ClosestReached(trees[idx], ids, node, k);
  }

  /** An object reached from a root with a single key carries its path in its full key. */
  lemma {:induction false} ReachedKey(root: TreeNode, q: Path, node: TreeNode)
    requires root.Valid() && WellKeyed(root.val) && |root.val.fullKey| == 1 && Reaches(root, q, node)
    ensures node in root.Repr && Lookup.Below(node.fullKey) == q && |node.fullKey| == |q| + 1
  {
    ReachedIsFound(root, q, node);
    FoundHasPath(root.val, q);
    assert (root.val.fullKey + q)[1..] == q;
  }

  method Ancestors(root: TreeNode, node: TreeNode, nulls: set<TreeNode>) returns (nodes: seq<TreeNode>)
    requires root.Valid() && Childless(nulls) && Reaches(root, Lookup.Below(node.fullKey), node)
    ensures |nodes| == |Lookup.Below(node.fullKey)| + 1 && nodes[0] == root && nodes[|nodes| - 1] == node
    ensures forall j :: 0 <= j < |nodes| ==> Reaches(root, Lookup.Below(node.fullKey)[..j], nodes[j])
  {
    ghost var q := Lookup.Below(node.fullKey);
    ReachedIsFound(root, q, node);
    var r := FindAncestorsOfNodeByIds(root, node.fullKey, nulls);
    nodes := r.value;
    assert q[..0] == [] && q[..|q|] == q;
    ReachedOnce(root, q, node, nodes[|q|]);
  }

  lemma {:induction false} SameSnapshots(a: Input, b: Input)
    requires GoodInput(a) && a.snaps == b.snaps
    ensures GoodInput(b)
  {
  }

  /** What init computes before anything is shown: the growth maps and the trees for the default options. */
  method Prepare(originals: seq<TreeNode>, times: seq<int>, sort: Sorter, resort: Sorter, ghost region: set<TreeNode>,
                 ghost snaps: seq<Snapshot>)
    returns (growthBytes: Change, growthObjects: Change, trees: seq<TreeNode>, vm: ValueMap,
             ghost region': set<TreeNode>,
             ghost given: Input)
    requires HasTimes(snaps, times) && Holds(originals, Roots(snaps), region) && |originals| == |snaps|
    requires GoodInput(Input(snaps, map[], map[], sort, resort))
    ensures given == Input(snaps, growthBytes, growthObjects, sort, resort) && GoodInput(given) && snaps != []
    ensures GrowthFrom(snaps, growthBytes, Bytes) && GrowthFrom(snaps, growthObjects, Objects)
    ensures Holds(trees, Build(given, Bytes, AbsoluteGrowth), region') && fresh(region') && |trees| == |originals|
  {
    hide HasTimes, Roots, Holds, Build, GrowthFrom;
    growthBytes, growthObjects := CalculateGrowth(originals, region, snaps);
    given := Input(snaps, growthBytes, growthObjects, sort, resort);
    SameSnapshots(Input(snaps, map[], map[], sort, resort), given);
    trees, vm, region' := CreateGlobalTrees(originals, times, growthBytes, growthObjects, Bytes, AbsoluteGrowth,
                                               sort, resort, region, given);
  }

  class VisualizationManager {
    const originalTrees: seq<TreeNode>
    const times: seq<int>
    const absGrowthBytes: Change
    const absGrowthObjects: Change
    const sort: Sorter
    const resort: Sorter
    var displayBytes: bool
    var selectedSortingMode: Mode
    var curTrees: seq<TreeNode>
    var valueMap: ValueMap
    var curDisplayedTreeIdx: nat
    var curNode: TreeNode

    /** What the session was started with. */
    ghost const inp: Input
    ghost const originalRegion: set<TreeNode>
    ghost var region: set<TreeNode>

    function Shows(): Metric
      reads this
    {
      if displayBytes then Bytes else Objects
    }

    ghost function Abs(): State
      reads this, curNode
    {
      State(Shows(), selectedSortingMode, curDisplayedTreeIdx, curNode.fullKey)
    }

    /** The original trees still are what the session was started with. */
    ghost predicate OriginalsKept()
      reads originalRegion
    {
      && GoodInput(inp) && HasTimes(inp.snaps, times)
      && Holds(originalTrees, Roots(inp.snaps), originalRegion)
      && inp.growthBytes == absGrowthBytes && inp.growthObjects == absGrowthObjects
      && inp.sort == sort && inp.resort == resort
    }

    /** The growth maps say how much every node grew from the first tree to the last. */
    ghost predicate GrowthRight()
      requires inp.snaps != []
    {
      GrowthFrom(inp.snaps, absGrowthBytes, Bytes) && GrowthFrom(inp.snaps, absGrowthObjects, Objects)
    }

    /** The trees shown are those for the options chosen, and the current node is in the displayed one. */
    ghost predicate Valid()
      reads this, originalRegion, region
    {
      && OriginalsKept() && GrowthRight() && originalRegion !! region
      && curDisplayedTreeIdx < |curTrees| == |originalTrees|
      && Holds(curTrees, Build(inp, Shows(), selectedSortingMode), region)
      && Displayed(curTrees, curDisplayedTreeIdx, curNode, region)
    }

    /** VisualizationManager.init. */
    constructor (originalTrees: seq<TreeNode>, times: seq<int>, sort: Sorter, resort: Sorter,
                 ghost originalRegion: set<TreeNode>, ghost snaps: seq<Snapshot>)
      requires HasTimes(snaps, times) && Holds(originalTrees, Roots(snaps), originalRegion)
      requires |originalTrees| == |snaps|
      requires GoodInput(Input(snaps, map[], map[], sort, resort)) && snaps != []
      ensures Valid() && inp.snaps == snaps && this.originalTrees == originalTrees
      ensures displayBytes && selectedSortingMode == AbsoluteGrowth
      ensures curDisplayedTreeIdx == 0 && curNode == curTrees[0]
      ensures Abs() == Initial(inp)
    {
      hide HasTimes, Roots, Holds, Displayed, Build, GrowthFrom, GoodInput;
      var growthBytes, growthObjects, trees, vm;
      ghost var fresh', given;
      growthBytes, growthObjects, trees, vm, fresh', given :=
        Prepare(originalTrees, times, sort, resort, originalRegion, snaps);
      this.originalTrees, this.times, this.sort, this.resort := originalTrees, times, sort, resort;
      absGrowthBytes, absGrowthObjects := growthBytes, growthObjects;
      displayBytes, selectedSortingMode := true, AbsoluteGrowth;
      curTrees, valueMap, curDisplayedTreeIdx, curNode := trees, vm, 0, trees[0];
      this.originalRegion, this.region, this.inp := originalRegion, fresh', given;
      new;
      RootIsCurrent(trees, given, fresh', Bytes, AbsoluteGrowth, 0);
    }

    /** updateDisplayedNodeToClosestExistingOne. */
    method UpdateDisplayedNodeToClosestExistingOne()
      requires OriginalsKept() && GrowthRight() && originalRegion !! region
      requires Holds(curTrees, Build(inp, Shows(), selectedSortingMode), region)
      requires curDisplayedTreeIdx < |curTrees| == |originalTrees|
      modifies `curNode
      ensures Valid() && DeepestOn(curTrees[curDisplayedTreeIdx], old(curNode.fullKey), curNode)
      ensures Abs() == ToClosest(inp, old(Abs()))
    {
      hide GoodInput, HasTimes, GrowthRight, Displayed, Build, Closest, DeepestOn;
      curNode := ClosestNode(curTrees, curDisplayedTreeIdx, curNode.fullKey, region, inp, Shows(), selectedSortingMode);
    }

    /** updateTrees, followed by the search for the current node in the new trees. */
    method PerformUpdateAfterChangingOption()
      requires OriginalsKept() && GrowthRight() && curDisplayedTreeIdx < |originalTrees|
      modifies `curTrees, `valueMap, `curNode, `region
      ensures Valid() && DeepestOn(curTrees[curDisplayedTreeIdx], old(curNode.fullKey), curNode)
      ensures Abs() == ToClosest(inp, old(Abs()))
    {
      hide GoodInput, GrowthRight, HasTimes, Roots, Displayed, Build, Closest, DeepestOn, Holds;
      curTrees, valueMap, region := CreateGlobalTrees(originalTrees, times, absGrowthBytes, absGrowthObjects,
                                                      Shows(), selectedSortingMode, sort, resort, originalRegion, inp);
      UpdateDisplayedNodeToClosestExistingOne();
    }

    method SwitchMetric(useBytes: bool)
      requires Valid()
      modifies this
      ensures Valid() && displayBytes == useBytes && unchanged(`selectedSortingMode, `curDisplayedTreeIdx)
      ensures useBytes == old(displayBytes) ==> unchanged(this)
      ensures useBytes != old(displayBytes) ==>
        DeepestOn(curTrees[curDisplayedTreeIdx], old(curNode.fullKey), curNode)
      ensures Abs() == Step(inp, old(Abs()), Action.SwitchMetric(if useBytes then Bytes else Objects))
    {
      hide OriginalsKept, GrowthRight, Holds, Displayed, Build, Closest;
      if useBytes != displayBytes {
        displayBytes := useBytes;
        PerformUpdateAfterChangingOption();
      }
    }

    method ChangeSortingMode(mode: Mode)
      requires Valid()
      modifies this
      ensures Valid() && selectedSortingMode == mode && unchanged(`displayBytes, `curDisplayedTreeIdx)
      ensures mode == old(selectedSortingMode) ==> unchanged(this)
      ensures mode != old(selectedSortingMode) ==>
        DeepestOn(curTrees[curDisplayedTreeIdx], old(curNode.fullKey), curNode)
      ensures Abs() == Step(inp, old(Abs()), Action.ChangeSortingMode(mode))
    {
      hide OriginalsKept, GrowthRight, Holds, Displayed, Build, Closest;
      if mode != selectedSortingMode {
        selectedSortingMode := mode;
        PerformUpdateAfterChangingOption();
      }
    }

    method DisplayTree(newIdx: nat)
      requires Valid() && newIdx < |curTrees|
      modifies `curDisplayedTreeIdx, `curNode
      ensures Valid() && curDisplayedTreeIdx == newIdx
      ensures DeepestOn(curTrees[newIdx], old(curNode.fullKey), curNode)
      ensures Abs() == Step(inp, old(Abs()), Action.DisplayTree(newIdx))
    {
      hide OriginalsKept, GrowthRight, Displayed, Build, Closest, DeepestOn;
      curDisplayedTreeIdx := newIdx;
      UpdateDisplayedNodeToClosestExistingOne();
    }

    method DisplayNextTree()
      requires Valid()
      modifies `curDisplayedTreeIdx, `curNode
      ensures Valid()
      ensures if old(curDisplayedTreeIdx) + 1 < |originalTrees| then
                && curDisplayedTreeIdx == old(curDisplayedTreeIdx) + 1
                && DeepestOn(curTrees[curDisplayedTreeIdx], old(curNode.fullKey), curNode)
              else unchanged(this)
      ensures Abs() == Step(inp, old(Abs()), DisplayNext)
    {
      hide OriginalsKept, GrowthRight, Displayed, Build, Closest, DeepestOn;
      if curDisplayedTreeIdx < |curTrees| - 1 {
        DisplayTree(curDisplayedTreeIdx + 1);
      }
    }

    method DisplayPreviousTree()
      requires Valid()
      modifies `curDisplayedTreeIdx, `curNode
      ensures Valid()
      ensures if old(curDisplayedTreeIdx) > 0 then
                && curDisplayedTreeIdx == old(curDisplayedTreeIdx) - 1
                && DeepestOn(curTrees[curDisplayedTreeIdx], old(curNode.fullKey), curNode)
              else unchanged(this)
      ensures Abs() == Step(inp, old(Abs()), DisplayPrevious)
    {
      hide OriginalsKept, GrowthRight, Displayed, Build, Closest, DeepestOn;
      if curDisplayedTreeIdx > 0 {
        DisplayTree(curDisplayedTreeIdx - 1);
      }
    }

    /** The user clicks a node of the displayed tree. */
    method DisplayNode(node: TreeNode)
      requires Valid() && Displayed(curTrees, curDisplayedTreeIdx, node, region)
      modifies `curNode
      ensures Valid() && curNode == node
      ensures Abs() == Step(inp, old(Abs()), Action.DisplayNode(node.fullKey))
    {
      hide OriginalsKept, GrowthRight, Holds, Displayed, Build, Closest;
      curNode := node;
    }

    /** The nodes on the way to the current node: the lookup succeeds in every state, whichever lists are null. */
    method Breadcrumbs(nulls: set<TreeNode>) returns (nodes: seq<TreeNode>)
      requires Valid() && Childless(nulls)
      ensures |nodes| == |Lookup.Below(curNode.fullKey)| + 1
      ensures nodes[0] == curTrees[curDisplayedTreeIdx] && nodes[|nodes| - 1] == curNode
      ensures forall j :: 0 <= j < |nodes| ==>
        Reaches(curTrees[curDisplayedTreeIdx], Lookup.Below(curNode.fullKey)[..j], nodes[j])
    {
      hide GoodInput, GrowthRight, HasTimes, Roots, Build;
      nodes := Ancestors(curTrees[curDisplayedTreeIdx], curNode, nulls);
    }
  }
}
