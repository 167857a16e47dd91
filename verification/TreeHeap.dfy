/**
 Classification trees as objects that are changed in place (ClassificationTreeNode and the
 static helpers of Helpers that mutate them). Every method is tied to the function on tree
 values that it computes; `Repr` holds the objects of a subtree and `val` its value.
 */
module TreeHeap {
  import opened Permutations
  import opened Trees
  import opened Merge
  import opened Reduce
  import opened Conservation

  class TreeNode {
    var fullKey: Path
    var key: Key
    var objects: int
    var bytes: int
    var children: seq<TreeNode>

    ghost var Repr: set<TreeNode>
    ghost var val: Node

    ghost predicate Valid()
      reads this, Repr
      ensures Valid() ==> this in Repr
      decreases Repr
    {
      && this in Repr
      && |val.children| == |children|
      && val == Node(fullKey, key, objects, bytes, val.children)
      && (forall i {:trigger children[i]} :: 0 <= i < |children| ==>
            && children[i] in Repr && children[i].Repr <= Repr && this !in children[i].Repr
            && children[i].Valid() && children[i].val == val.children[i])
      && (forall i, j :: 0 <= i < j < |children| ==> children[i].Repr !! children[j].Repr)
    }

    constructor (fullKey: Path, key: Key, objects: int, bytes: int)
      ensures Valid() && fresh(Repr) && Repr == {this}
      ensures val == Node(fullKey, key, objects, bytes, []) && children == []
    {
      this.fullKey, this.key, this.objects, this.bytes, this.children := fullKey, key, objects, bytes, [];
      Repr := {this};
      val := Node(fullKey, key, objects, bytes, []);
    }

    function Value(m: Metric): int
      reads this
    {
      if m.Bytes? then bytes else objects
    }

    method AddMetrics(dObjects: int, dBytes: int)
      requires Valid()
      modifies this
      ensures Valid() && Repr == old(Repr) && children == old(children)
      ensures val == old(val).Plus(dObjects, dBytes)
    {
      objects, bytes := objects + dObjects, bytes + dBytes;
      val := val.Plus(dObjects, dBytes);
    }

    method Push(c: TreeNode)
      requires Valid() && c.Valid() && Repr !! c.Repr
      modifies this
      ensures Valid() && Repr == old(Repr) + c.Repr && children == old(children) + [c]
      ensures val == old(val).(children := old(val).children + [c.val])
      ensures c.Valid() && c.val == old(c.val) && c.Repr == old(c.Repr)
    {
      children := children + [c];
      Repr := Repr + c.Repr;
      val := val.(children := val.children + [c.val]);
    }

    /** Valid, except that the subtree of child `j` may have changed. */
    ghost predicate ValidBut(j: nat)
      reads this, Repr, children, set i, o | 0 <= i < |children| && o in children[i].Repr :: o
    {
      && this in Repr && j < |children|
      && |val.children| == |children|
      && val == Node(fullKey, key, objects, bytes, val.children)
      && (forall i :: 0 <= i < |children| ==>
            && children[i] in Repr && this !in children[i].Repr && children[i].Valid()
            && (i != j ==> children[i].Repr <= Repr && children[i].val == val.children[i]))
      && (forall i, k :: 0 <= i < k < |children| ==> children[i].Repr !! children[k].Repr)
    }

    /** Brings the ghost state up to date after child `j` has been changed. */
    ghost method Refresh(j: nat)
      requires ValidBut(j)
      modifies this
      ensures Valid() && Repr == old(Repr) + children[j].Repr && children == old(children)
      ensures val == old(val).(children := old(val).children[j := children[j].val])
      ensures children[j].val == old(children[j].val) && children[j].Repr == old(children[j].Repr)
    {
      Repr := Repr + children[j].Repr;
      val := val.(children := val.children[j := children[j].val]);
    }

    /** Replaces the children by a forest that lies in `region`. */
    method SetChildren(cs: seq<TreeNode>, ghost region: set<TreeNode>)
      requires Forest(cs, region) && this !in region
      requires val == Node(fullKey, key, objects, bytes, val.children)
      modifies this
      ensures Valid() && children == cs && Repr == {this} + region
      ensures val == old(val).(children := old(Vals(cs, region)))
    {
      ghost var vs := Vals(cs, region);
      children := cs;
      Repr := {this} + region;
      val := val.(children := vs);
    }
  }

  // ----- forests -----

  /** Valid trees that share no object and lie in `region`. */
  ghost predicate Forest(cs: seq<TreeNode>, region: set<TreeNode>)
    reads region
  {
    && (forall i :: 0 <= i < |cs| ==> cs[i] in region && cs[i].Repr <= region && cs[i].Valid())
    && (forall i, j :: 0 <= i < j < |cs| ==> cs[i].Repr !! cs[j].Repr)
  }

  ghost function Vals(cs: seq<TreeNode>, region: set<TreeNode>): (r: seq<Node>)
    requires forall i :: 0 <= i < |cs| ==> cs[i] in region
    reads region
    ensures |r| == |cs| && forall i :: 0 <= i < |cs| ==> r[i] == cs[i].val
  {
    if cs == [] then [] else Vals(cs[..|cs| - 1], region) + [cs[|cs| - 1].val]
  }

  /** A forest, one tree at a time: the form in which it is carried through loops. */
  ghost predicate Grove(cs: seq<TreeNode>, region: set<TreeNode>)
    reads region
  {
    cs == [] ||
    var n := |cs| - 1;
    && Grove(cs[..n], region)
    && cs[n] in region && cs[n].Repr <= region && cs[n].Valid()
    && forall i :: 0 <= i < n ==> cs[i] in region && cs[i].Repr !! cs[n].Repr
  }

  lemma {:induction false} GroveIsForest(cs: seq<TreeNode>, region: set<TreeNode>)
    ensures Grove(cs, region) <==> Forest(cs, region)
  {
    if cs != [] {
      var n := |cs| - 1;
      GroveIsForest(cs[..n], region);
      if Grove(cs, region) {
        forall i | 0 <= i < |cs| ensures cs[i] in region && cs[i].Repr <= region && cs[i].Valid() {
          assert i < n ==> cs[..n][i] == cs[i];
        }
        forall i, j | 0 <= i < j < |cs| ensures cs[i].Repr !! cs[j].Repr {
          assert j < n ==> cs[..n][i] == cs[i] && cs[..n][j] == cs[j];
        }
      }
      if Forest(cs, region) {
        assert Forest(cs[..n], region);
      }
    }
  }

  lemma {:induction false} GroveAt(cs: seq<TreeNode>, region: set<TreeNode>, k: nat)
    requires Grove(cs, region) && k < |cs|
    ensures cs[k] in region && cs[k].Repr <= region && cs[k].Valid()
  {
    GroveIsForest(cs, region);
  }

  lemma {:induction false} ChildrenForest(n: TreeNode)
    requires n.Valid()
    ensures Forest(n.children, n.Repr - {n}) && Vals(n.children, n.Repr - {n}) == n.val.children
  {
  }

  // ----- cloning -----

  lemma {:induction false} ForestMore(cs: seq<TreeNode>, region: set<TreeNode>, c: TreeNode)
    requires Forest(cs, region) && c.Valid() && c.Repr !! region
    ensures Forest(cs + [c], region + c.Repr)
  {
  }

  /** Helpers.convertNodeRecursively: a copy that shares no object with the original. */
  method ConvertNodeRecursively(n: TreeNode) returns (c: TreeNode)
    requires n.Valid()
    ensures c.Valid() && fresh(c.Repr) && c.val == n.val
    decreases n.val
  {
    var cloned: seq<TreeNode> := [];
    ghost var region: set<TreeNode> := {};
    var i := 0;
    while i < |n.children|
      invariant 0 <= i <= |n.children| && |cloned| == i
      invariant Forest(cloned, region) && fresh(region)
      invariant forall k :: 0 <= k < i ==> cloned[k].val == n.val.children[k]
    {
      hide Forest;
      var child := ConvertNodeRecursively(n.children[i]);
      ForestMore(cloned, region, child);
      cloned, region := cloned + [child], region + child.Repr;
      i := i + 1;
    }
    c := new TreeNode(n.fullKey, n.key, n.objects, n.bytes);
    c.SetChildren(cloned, region);
    assert c.val.children == n.val.children;
  }

  // ----- searching -----

  method FindChild(cs: seq<TreeNode>, k: Key, ghost vals: seq<Node>) returns (i: nat)
    requires |vals| == |cs| && forall j :: 0 <= j < |cs| ==> cs[j].key == vals[j].key
    ensures i == FindKey(vals, k)
  {
    i := 0;
    while i < |cs| && cs[i].key != k
      invariant 0 <= i <= |cs|
      invariant forall j :: 0 <= j < i ==> cs[j].key != k
    {
      i := i + 1;
    }
  }

  // ----- merging -----

  /** Helpers.mergeTreeIntoOtherNode; `tracked` tells whether a value map was passed. */
  method MergeTreeIntoOtherNode(from: TreeNode, to: TreeNode, vm: ValueMap, tracked: bool, level: int)
    returns (vm': ValueMap)
    requires from.Valid() && to.Valid() && from.Repr !! to.Repr
    modifies to.Repr
    ensures to.Valid() && fresh(to.Repr - old(to.Repr))
    ensures to.val == old(to.val).(children := MergeChildren(old(from.val.children), old(to.val.children), level))
    ensures vm' == if tracked then MergeValues(old(from.val.children), old(to.val.children), vm, level) else vm
    decreases from.val, 0
  {
    hide MergeChild, MergeOneValue;
    vm' := vm;
    ghost var froms, t0 := from.val.children, to.val;
    var i := 0;
    while i < |from.children|
      invariant 0 <= i <= |from.children| && from.children == old(from.children)
      invariant from.Valid() && from.val == old(from.val) && from.Repr == old(from.Repr)
      invariant to.Valid() && fresh(to.Repr - old(to.Repr)) && from.Repr !! to.Repr
      invariant to.val == t0.(children := MergeChildren(froms[..i], t0.children, level))
      invariant vm' == if tracked then MergeValues(froms[..i], t0.children, vm, level) else vm
    {
      assert froms[..i + 1][..i] == froms[..i];
      vm' := MergeOne(from.children[i], to, vm', tracked, level);
      i := i + 1;
    }
    assert froms[..i] == froms;
  }

  /** One turn of the loop of mergeTreeIntoOtherNode. */
  method MergeOne(fromChild: TreeNode, to: TreeNode, vm: ValueMap, tracked: bool, level: int)
    returns (vm': ValueMap)
    requires fromChild.Valid() && to.Valid() && fromChild.Repr !! to.Repr
    modifies to.Repr
    ensures to.Valid() && fresh(to.Repr - old(to.Repr))
    ensures to.val == old(to.val).(children := MergeChild(old(fromChild.val), old(to.val.children), level))
    ensures vm' == if tracked then MergeOneValue(old(fromChild.val), old(to.val.children), vm, level) else vm
    decreases fromChild.val, 2
  {
    hide MergeChildren, MergeValues, RewriteKey;
    var j := FindChild(to.children, fromChild.key, to.val.children);
    if j == |to.children| {
      var n := new TreeNode(RewriteKey(fromChild.fullKey, level), fromChild.key, 0, 0);
      to.Push(n);
    }
    vm' := AbsorbInto(fromChild, to, j, vm, tracked, level + 1);
  }

  method AbsorbInto(fromChild: TreeNode, to: TreeNode, j: nat, vm: ValueMap, tracked: bool, level: int)
    returns (vm': ValueMap)
    requires fromChild.Valid() && to.Valid() && fromChild.Repr !! to.Repr && j < |to.children|
    modifies to.Repr
    ensures to.Valid() && fresh(to.Repr - old(to.Repr)) && to.children == old(to.children)
    ensures to.val == old(to.val).(children :=
              old(to.val.children)[j := Absorb(old(fromChild.val), old(to.val.children[j]), level)])
    ensures vm' == if tracked then
                     MergeValues(old(fromChild.val.children), old(to.val.children[j].children),
                                 MergeValue(vm, old(fromChild.fullKey), old(to.val.children[j].fullKey)), level)
                   else vm
    decreases fromChild.val, 1
  {
    var toChild := to.children[j];
    toChild.AddMetrics(fromChild.objects, fromChild.bytes);
    vm' := if tracked then MergeValue(vm, fromChild.fullKey, toChild.fullKey) else vm;
    vm' := MergeTreeIntoOtherNode(fromChild, toChild, vm', tracked, level);
    to.Refresh(j);
  }

  // ----- the "Other" child -----

  /** The "Other" node among `refs`, or a new one below `parent`. */
  method FindOrNewOther(parent: Path, refs: seq<TreeNode>, ghost cs: seq<Node>) returns (other: TreeNode, created: bool)
    requires |refs| == |cs| && forall i :: 0 <= i < |refs| ==> refs[i].key == cs[i].key
    ensures created <==> FindKey(cs, OTHER) == |refs|
    ensures !created ==> other == refs[FindKey(cs, OTHER)]
    ensures created ==> other.Valid() && other.val == EmptyOther(parent) && other.Repr == {other} && fresh(other)
  {
    var i := FindChild(refs, OTHER, cs);
    if i == |refs| {
      other := new TreeNode(parent + [OTHER], OTHER, 0, 0);
      return other, true;
    }
    return refs[i], false;
  }

  /** Helpers.getOrCreateOtherNodeWithInfo with addToParent; only called for nodes with children. */
  method GetOrCreateOtherNode(node: TreeNode) returns (other: TreeNode, created: bool)
    requires node.Valid() && node.children != []
    modifies node
    ensures created <==> FindKey(old(node.val.children), OTHER) == |old(node.children)|
    ensures node.Valid() && other.Valid()
    ensures !created ==> node.children == old(node.children) && node.val == old(node.val) && node.Repr == old(node.Repr)
                         && other == node.children[FindKey(node.val.children, OTHER)]
    ensures created ==> other.val == EmptyOther(node.fullKey) && other.Repr == {other} && fresh(other)
                        && node.children == old(node.children) + [other]
                        && node.Repr == old(node.Repr) + {other}
                        && node.val == old(node.val).(children := old(node.val.children) + [other.val])
  {
    other, created := FindOrNewOther(node.fullKey, node.children, node.val.children);
    if created {
      node.Push(other);
    }
  }

  /** Helpers.sum over the children's metric. */
  method SumOfChildren(node: TreeNode, m: Metric) returns (sum: int)
    requires node.Valid()
    ensures sum == Sum(node.val.children, m)
  {
    sum := 0;
    ghost var cs := node.val.children;
    var i := 0;
    while i < |node.children|
      invariant 0 <= i <= |cs| && sum == Sum(cs[..i], m)
    {
      assert cs[..i + 1][..i] == cs[..i];
      sum := sum + node.children[i].Value(m);
      i := i + 1;
    }
    assert cs[..i] == cs;
  }

  method AddToOtherChild(node: TreeNode, dObjects: int, dBytes: int)
    requires node.Valid() && node.children != []
    modifies node.Repr
    ensures node.Valid() && fresh(node.Repr - old(node.Repr))
    ensures node.val == AddToOther(old(node.val), dObjects, dBytes)
  {
    ghost var i := FindKey(node.val.children, OTHER);
    var child, created := GetOrCreateOtherNode(node);
    assert child == node.children[i];
    child.AddMetrics(dObjects, dBytes);
    node.Refresh(i);
  }

  /** Helpers.fixMissingDataOfNewlyCreatedOtherNode for the metrics in `ms`. */
  method FixMissingDataOfOtherNode(other: TreeNode, ms: set<Metric>)
    requires other.Valid()
    modifies other.Repr
    ensures other.Valid() && fresh(other.Repr - old(other.Repr))
    ensures other.val == FixOther(old(other.val), ms)
  {
    if other.children != [] {
      var bytes := SumOfChildren(other, Bytes);
      var objects := SumOfChildren(other, Objects);
      var dBytes, dObjects := other.bytes - bytes, other.objects - objects;
      if dBytes != 0 || dObjects != 0 {
        AddToOtherChild(other, if Objects in ms then dObjects else 0, if Bytes in ms then dBytes else 0);
      }
    }
  }

  /** Merges a dropped child into "Other" and adds its metrics, as both reductions do. */
  method AbsorbNode(dropped: TreeNode, other: TreeNode, vm: ValueMap, tracked: bool) returns (vm': ValueMap)
    requires dropped.Valid() && other.Valid() && dropped.Repr !! other.Repr
    modifies other.Repr
    ensures other.Valid() && fresh(other.Repr - old(other.Repr))
    ensures other.val == Absorb(old(dropped.val), old(other.val), 0)
    ensures vm' == if tracked then MergeValues(old(dropped.val.children), old(other.val.children), vm, 0) else vm
  {
    vm' := MergeTreeIntoOtherNode(dropped, other, vm, tracked, 0);
    other.AddMetrics(dropped.objects, dropped.bytes);
  }

  // ----- the selecting reduction -----

  /** Sorts the children of a node in place. */
  method SortInPlace(node: TreeNode, vm: ValueMap, sort: Sorter)
    requires node.Valid()
    modifies node
    ensures node.Valid() && node.Repr == old(node.Repr)
    ensures node.val == old(node.val).(children := SortChildren(old(node.val.children), vm, sort))
  {
    var cs := node.children;
    var ids := seq(|cs|, i requires 0 <= i < |cs| reads cs => cs[i].fullKey);
    assert ids == Ids(node.val.children);
    assert IsSorter(sort);
    var p := sort(vm, ids);
    assert IsPermutation(p, |ids|);
    node.children := Permute(cs, p);
    node.val := node.val.(children := Permute(node.val.children, p));
  }

  /**
   The state of the first loop of reduceTree before index `k`: the children up to there have been
   reduced, except for "Other", and collected in order; `at` tells where each of them was.
   */
  ghost predicate KeptSoFar(refs: seq<TreeNode>, cs: seq<Node>, region: set<TreeNode>, k: nat,
                            converted: seq<TreeNode>, at: seq<nat>, reduced: seq<Node>)
    reads region
  {
    && Grove(refs, region) && |refs| == |cs| && k <= |cs|
    && |at| == |converted| == |reduced|
    && (forall j :: 0 <= j < |at| ==> at[j] < k && cs[at[j]].key != OTHER)
    && (forall i :: 0 <= i < |refs| ==> refs[i] in region && refs[i].val.key == cs[i].key)
    && (forall j :: 0 <= j < |at| ==> converted[j] == refs[at[j]] && refs[at[j]].val == reduced[j])
    && (forall a, b :: 0 <= a < b < |at| ==> at[a] < at[b])
    && (forall i :: 0 <= i < |refs| && (k <= i || cs[i].key == OTHER) ==> refs[i].val == cs[i])
  }

  lemma {:induction false} KeptForest(refs: seq<TreeNode>, cs: seq<Node>, region: set<TreeNode>, k: nat,
                                      converted: seq<TreeNode>, at: seq<nat>, reduced: seq<Node>)
    requires KeptSoFar(refs, cs, region, k, converted, at, reduced)
    ensures Forest(converted, region) && Vals(converted, region) == reduced
  {
    GroveIsForest(refs, region);
    forall a, b | 0 <= a < b < |converted| ensures converted[a].Repr !! converted[b].Repr {
      assert at[a] < at[b];
    }
  }

  /** Reduces one tree of a grove; the others stay as they are. */
  method ReduceInGrove(refs: seq<TreeNode>, ghost region: set<TreeNode>, k: nat, m: Metric, vm: ValueMap,
                       sel: set<Path>, sort: Sorter, ghost c: Node)
    returns (vm': ValueMap, sel': set<Path>, ghost region': set<TreeNode>)
    requires Grove(refs, region) && k < |refs| && (forall i :: 0 <= i < |refs| ==> refs[i] in region)
    requires refs[k].val == c && WellKeyed(c)
    modifies region
    ensures Grove(refs, region') && region <= region' && fresh(region' - region)
    ensures var r := ReduceTree(c, m, vm, sort);
      vm' == r.vm && sel' == sel + r.ids && refs[k].val == r.node && refs[k].fullKey == r.node.fullKey
    ensures refs[k].Value(m) == c.Value(m)
    ensures forall i :: 0 <= i < |refs| && i != k ==> refs[i].val == old(refs[i].val)
    decreases Height(c), 7
  {
    hide WellKeyed;
    GroveIsForest(refs, region);
    forall i | 0 <= i < |refs| && i != k ensures refs[i].Repr !! refs[k].Repr {
      if i < k {} else {}
    }
    label before: vm', sel' := ReduceTreeRec(refs[k], m, vm, sel, sort);
    forall i | 0 <= i < |refs| && i != k
      ensures refs[i].Valid() && refs[i].val == old@before(refs[i].val) && refs[i].Repr == old@before(refs[i].Repr)
    {
    }
    region' := region + refs[k].Repr;
    assert Forest(refs, region');
    GroveIsForest(refs, region');
    ReduceTreeHead(c, m, vm, sort);
  }

  method KeepOne(refs: seq<TreeNode>, ghost cs: seq<Node>, ghost region: set<TreeNode>, k: nat,
                 ghost converted: seq<TreeNode>, ghost at: seq<nat>, ghost reduced: seq<Node>, m: Metric,
                 vm: ValueMap, sel: set<Path>, sort: Sorter)
    returns (vm': ValueMap, sel': set<Path>, ghost region': set<TreeNode>)
    requires KeptSoFar(refs, cs, region, k, converted, at, reduced) && k < |refs|
    requires cs[k].key != OTHER && WellKeyed(cs[k])
    modifies region
    ensures var r := ReduceTree(cs[k], m, vm, sort);
      && vm' == r.vm && sel' == sel + r.ids + {r.node.fullKey}
      && region <= region' && fresh(region' - region)
      && KeptSoFar(refs, cs, region', k + 1, converted + [refs[k]], at + [k], reduced + [r.node])
    ensures refs[k].Value(m) == cs[k].Value(m)
    decreases Height(cs[k]), 8
  {
    hide Grove, WellKeyed, ReduceTree, ForestHeight;
    vm', sel', region' := ReduceInGrove(refs, region, k, m, vm, sel, sort, cs[k]);
    ReduceTreeHead(cs[k], m, vm, sort);
    sel' := sel' + {refs[k].fullKey};
  }

  lemma {:induction false} ReduceEachSnoc(keep: seq<Node>, c: Node, m: Metric, vm: ValueMap, sort: Sorter)
    ensures var before := ReduceEach(keep, m, vm, sort);
      var r := ReduceTree(c, m, before.vm, sort);
      ReduceEach(keep + [c], m, vm, sort) ==
        ReducedForest(before.nodes + [r.node], r.vm, before.ids + r.ids + {r.node.fullKey})
  {
    assert (keep + [c])[..|keep|] == keep;
  }

  lemma {:induction false} FilterSnoc(cs: seq<Node>, k: nat)
    requires k < |cs|
    ensures Filter(cs[..k + 1], Plain) ==
            if cs[k].key == OTHER then Filter(cs[..k], Plain) else Filter(cs[..k], Plain) + [cs[k]]
  {
    assert cs[..k + 1][..k] == cs[..k];
  }

  /** What the first loop of reduceTree has computed before index `k`. */
  ghost predicate KeepLoop(refs: seq<TreeNode>, cs: seq<Node>, region: set<TreeNode>, k: nat, m: Metric, vm: ValueMap,
                           sel: set<Path>, sort: Sorter, converted: seq<TreeNode>, at: seq<nat>, vm': ValueMap,
                           sel': set<Path>)
    reads region
  {
    && k <= |cs|
    && var keep := Filter(cs[..k], Plain);
    && var r := ReduceEach(keep, m, vm, sort);
    && KeptSoFar(refs, cs, region, k, converted, at, r.nodes)
    && |converted| == |keep| && vm' == r.vm && sel' == sel + r.ids
  }

  method KeepStep(refs: seq<TreeNode>, ghost cs: seq<Node>, ghost region: set<TreeNode>, k: nat, m: Metric,
                  ghost vm: ValueMap, ghost sel: set<Path>, sort: Sorter, ghost converted: seq<TreeNode>,
                  ghost at: seq<nat>, vm1: ValueMap, sel1: set<Path>)
    returns (vm2: ValueMap, sel2: set<Path>, ghost region': set<TreeNode>)
    requires KeepLoop(refs, cs, region, k, m, vm, sel, sort, converted, at, vm1, sel1)
    requires k < |refs| && cs[k].key != OTHER && WellKeyed(cs[k])
    modifies region
    ensures region <= region' && fresh(region' - region)
    ensures KeepLoop(refs, cs, region', k + 1, m, vm, sel, sort, converted + [refs[k]], at + [k], vm2, sel2)
    ensures refs[k].Value(m) == cs[k].Value(m)
    decreases Height(cs[k]), 9
  {
    hide KeptSoFar, WellKeyed, ReduceTree, Filter, Plain;
    KeepLoopAt(refs, cs, region, k, m, vm, sel, sort, converted, at, vm1, sel1);
    FilterSnoc(cs, k);
    ReduceEachSnoc(Filter(cs[..k], Plain), cs[k], m, vm, sort);
    ghost var reduced := ReduceEach(Filter(cs[..k], Plain), m, vm, sort).nodes;
    vm2, sel2, region' := KeepOne(refs, cs, region, k, converted, at, reduced, m, vm1, sel1, sort);
  }

  lemma {:induction false} SkipStep(refs: seq<TreeNode>, cs: seq<Node>, region: set<TreeNode>, k: nat, m: Metric,
                                    vm: ValueMap, sel: set<Path>, sort: Sorter, converted: seq<TreeNode>,
                                    at: seq<nat>, vm': ValueMap, sel': set<Path>)
    requires KeepLoop(refs, cs, region, k, m, vm, sel, sort, converted, at, vm', sel')
    requires k < |cs| && cs[k].key == OTHER
    ensures KeepLoop(refs, cs, region, k + 1, m, vm, sel, sort, converted, at, vm', sel')
  {
    FilterSnoc(cs, k);
  }

  /** The loop variables of the first loop of reduceTree agree with what has been kept. */
  ghost predicate KeepInv(refs: seq<TreeNode>, cs: seq<Node>, region: set<TreeNode>, m: Metric, overall: int,
                          vm: ValueMap, sel: set<Path>, sort: Sorter, converted: seq<TreeNode>, at: seq<nat>,
                          vm': ValueMap, sel': set<Path>, nodeCount: nat, otherOffset: nat, selectedValue: int)
    reads region
  {
    && KeepLoop(refs, cs, region, nodeCount + otherOffset, m, vm, sel, sort, converted, at, vm', sel')
    && |converted| == nodeCount
    && KeepCounts(cs, m, overall, nodeCount, otherOffset, selectedValue)
  }

  ghost predicate KeepCounts(cs: seq<Node>, m: Metric, overall: int, nodeCount: nat, otherOffset: nat,
                             selectedValue: int) {
    && nodeCount + otherOffset <= |cs|
    && otherOffset == (if FindKey(cs, OTHER) < nodeCount + otherOffset then 1 else 0)
    && CutIndex(cs, m, overall, 0, 0, 0) == CutIndex(cs, m, overall, nodeCount + otherOffset, nodeCount, selectedValue)
  }

  lemma {:induction false} KeepCountsStep(cs: seq<Node>, m: Metric, overall: int, nodeCount: nat, otherOffset: nat,
                                          selectedValue: int)
    requires KeepCounts(cs, m, overall, nodeCount, otherOffset, selectedValue) && DistinctKeys(cs)
    requires 10 * selectedValue <= 9 * overall && nodeCount < MAX_CHILDREN && nodeCount + otherOffset < |cs|
    ensures var c := cs[nodeCount + otherOffset];
      if c.key == OTHER then otherOffset == 0 && KeepCounts(cs, m, overall, nodeCount, 1, selectedValue)
      else KeepCounts(cs, m, overall, nodeCount + 1, otherOffset, selectedValue + c.Value(m))
  {
    var k := nodeCount + otherOffset;
    if cs[k].key == OTHER {
      FindKeyUnique(cs, k);
    }
  }

  lemma {:induction false} KeepLoopAt(refs: seq<TreeNode>, cs: seq<Node>, region: set<TreeNode>, k: nat, m: Metric,
                                      vm: ValueMap, sel: set<Path>, sort: Sorter, converted: seq<TreeNode>,
                                      at: seq<nat>, vm': ValueMap, sel': set<Path>)
    requires KeepLoop(refs, cs, region, k, m, vm, sel, sort, converted, at, vm', sel')
    ensures |refs| == |cs| && (k < |refs| ==> refs[k].key == cs[k].key)
  {
    if k < |refs| {
      GroveAt(refs, region, k);
    }
  }

  /** One turn of the first loop of reduceTree. */
  method KeepTurn(refs: seq<TreeNode>, ghost cs: seq<Node>, ghost region: set<TreeNode>, m: Metric, overall: int,
                  ghost vm: ValueMap, ghost sel: set<Path>, sort: Sorter, converted: seq<TreeNode>,
                  ghost at: seq<nat>, vm1: ValueMap, sel1: set<Path>, nodeCount: nat, otherOffset: nat,
                  selectedValue: int, ghost h: nat)
    returns (converted': seq<TreeNode>, ghost at': seq<nat>, vm2: ValueMap, sel2: set<Path>,
             nodeCount': nat, otherOffset': nat, selectedValue': int, ghost region': set<TreeNode>)
    requires KeepInv(refs, cs, region, m, overall, vm, sel, sort, converted, at, vm1, sel1, nodeCount, otherOffset,
                     selectedValue)
    requires 10 * selectedValue <= 9 * overall && nodeCount < MAX_CHILDREN && nodeCount + otherOffset < |refs|
    requires DistinctKeys(cs) && WellKeyed(cs[nodeCount + otherOffset]) && Height(cs[nodeCount + otherOffset]) < h
    modifies region
    ensures region <= region' && fresh(region' - region)
    ensures nodeCount' + otherOffset' == nodeCount + otherOffset + 1
    ensures KeepInv(refs, cs, region', m, overall, vm, sel, sort, converted', at', vm2, sel2, nodeCount', otherOffset',
                    selectedValue')
    decreases h, 0
  {
    hide KeepLoop, KeepCounts, WellKeyed;
    converted', at', vm2, sel2, nodeCount', otherOffset', selectedValue', region' :=
      converted, at, vm1, sel1, nodeCount, otherOffset, selectedValue, region;
    var k := nodeCount + otherOffset;
    var cur := refs[k];
    KeepLoopAt(refs, cs, region, k, m, vm, sel, sort, converted, at, vm1, sel1);
    KeepCountsStep(cs, m, overall, nodeCount, otherOffset, selectedValue);
    if cur.key == OTHER {
      SkipStep(refs, cs, region, k, m, vm, sel, sort, converted, at, vm1, sel1);
      otherOffset' := 1;
    } else {
      vm2, sel2, region' := KeepStep(refs, cs, region, k, m, vm, sel, sort, converted, at, vm1, sel1);
      converted', at' := converted + [cur], at + [k];
      selectedValue' := selectedValue + cur.Value(m);
      nodeCount' := nodeCount + 1;
    }
  }

  lemma {:induction false} KeepInvStart(refs: seq<TreeNode>, cs: seq<Node>, region: set<TreeNode>, m: Metric,
                                        overall: int, vm: ValueMap, sel: set<Path>, sort: Sorter)
    requires KeptSoFar(refs, cs, region, 0, [], [], [])
    ensures |refs| == |cs| && KeepInv(refs, cs, region, m, overall, vm, sel, sort, [], [], vm, sel, 0, 0, 0)
  {
  }

  lemma {:induction false} KeepInvEnd(refs: seq<TreeNode>, cs: seq<Node>, region: set<TreeNode>, m: Metric,
                                      overall: int, vm: ValueMap, sel: set<Path>, sort: Sorter,
                                      converted: seq<TreeNode>, at: seq<nat>, vm': ValueMap, sel': set<Path>,
                                      nodeCount: nat, otherOffset: nat, selectedValue: int)
    requires KeepInv(refs, cs, region, m, overall, vm, sel, sort, converted, at, vm', sel', nodeCount, otherOffset,
                     selectedValue)
    requires |refs| == |cs|
    requires !(10 * selectedValue <= 9 * overall && nodeCount < MAX_CHILDREN && nodeCount + otherOffset < |refs|)
    ensures nodeCount + otherOffset == CutIndex(cs, m, overall, 0, 0, 0) && |converted| == nodeCount
    ensures KeepLoop(refs, cs, region, nodeCount + otherOffset, m, vm, sel, sort, converted, at, vm', sel')
  {
  }

  /** The first loop of reduceTree: reduces and collects the children that are kept. */
  method KeepChildren(refs: seq<TreeNode>, ghost cs: seq<Node>, ghost region: set<TreeNode>, m: Metric, overall: int,
                      vm: ValueMap, sel: set<Path>, sort: Sorter, ghost h: nat)
    returns (converted: seq<TreeNode>, nodeCount: nat, otherOffset: nat, vm': ValueMap, sel': set<Path>,
             ghost region': set<TreeNode>, ghost at: seq<nat>)
    requires KeptSoFar(refs, cs, region, 0, [], [], [])
    requires DistinctKeys(cs) && forall c :: c in cs ==> WellKeyed(c) && Height(c) < h
    modifies region
    ensures region <= region' && fresh(region' - region)
    ensures nodeCount + otherOffset == CutIndex(cs, m, overall, 0, 0, 0) && |converted| == nodeCount
    ensures KeepLoop(refs, cs, region', nodeCount + otherOffset, m, vm, sel, sort, converted, at, vm', sel')
    decreases h, 1
  {
    hide KeepInv, KeptSoFar, WellKeyed;
    converted, nodeCount, otherOffset, vm', sel', region', at := [], 0, 0, vm, sel, region, [];
    var selectedValue := 0;
    KeepInvStart(refs, cs, region, m, overall, vm, sel, sort);
    while 10 * selectedValue <= 9 * overall && nodeCount < MAX_CHILDREN && nodeCount + otherOffset < |refs|
      invariant nodeCount + otherOffset <= |refs| == |cs|
      invariant region <= region' && fresh(region' - region)
      invariant KeepInv(refs, cs, region', m, overall, vm, sel, sort, converted, at, vm', sel', nodeCount, otherOffset,
                        selectedValue)
      decreases |refs| - (nodeCount + otherOffset)
    {
      assert cs[nodeCount + otherOffset] in cs;
      converted, at, vm', sel', nodeCount, otherOffset, selectedValue, region' :=
        KeepTurn(refs, cs, region', m, overall, vm, sel, sort, converted, at, vm', sel', nodeCount, otherOffset,
                 selectedValue, h);
    }
    KeepInvEnd(refs, cs, region', m, overall, vm, sel, sort, converted, at, vm', sel', nodeCount, otherOffset,
               selectedValue);
  }

  /** From index `k` on, the children other than "Other" are unchanged and share nothing with `other`. */
  ghost predicate Droppable(refs: seq<TreeNode>, cs: seq<Node>, k: nat, other: TreeNode, region: set<TreeNode>)
    reads region, other
  {
    && |refs| == |cs| && k <= |cs| && other.key == OTHER
    && (forall i :: k <= i < |refs| ==> refs[i] in region)
    && (forall i :: k <= i < |refs| && cs[i].key == OTHER ==> refs[i] == other)
    && (forall i :: k <= i < |refs| && cs[i].key != OTHER ==>
          refs[i].Repr <= region && refs[i].Valid() && refs[i].val == cs[i] && refs[i].Repr !! other.Repr)
  }

  /** What the second loop of reduceTree has merged into `other` before index `i`. */
  ghost predicate DropInv(refs: seq<TreeNode>, cs: seq<Node>, k: nat, i: nat, other: TreeNode, region: set<TreeNode>,
                          start: Node, vm: ValueMap, vm': ValueMap)
    reads region, other
  {
    && k <= i && Droppable(refs, cs, i, other, region)
    && other.val == AbsorbAll(Filter(cs[k..i], Plain), start)
    && vm' == AbsorbAllValues(Filter(cs[k..i], Plain), start, vm)
  }

  method DropOne(refs: seq<TreeNode>, ghost cs: seq<Node>, ghost k: nat, i: nat, other: TreeNode,
                 ghost region: set<TreeNode>, ghost start: Node, ghost vm: ValueMap, vm1: ValueMap)
    returns (vm2: ValueMap)
    requires DropInv(refs, cs, k, i, other, region, start, vm, vm1) && other.Valid() && i < |refs|
    modifies other.Repr
    ensures other.Valid() && fresh(other.Repr - old(other.Repr))
    ensures DropInv(refs, cs, k, i + 1, other, region, start, vm, vm2)
  {
    AbsorbAllStep(cs, k, i, start, vm);
    vm2 := vm1;
    if refs[i].key != OTHER {
      vm2 := AbsorbNode(refs[i], other, vm1, true);
    }
  }

  /** The second loop of reduceTree: merges the remaining children into "Other". */
  method DropChildren(refs: seq<TreeNode>, ghost cs: seq<Node>, k: nat, other: TreeNode, vm: ValueMap,
                      ghost region: set<TreeNode>)
    returns (vm': ValueMap)
    requires Droppable(refs, cs, k, other, region) && other.Valid()
    modifies other.Repr
    ensures other.Valid() && fresh(other.Repr - old(other.Repr))
    ensures other.val == AbsorbAll(Filter(cs[k..], Plain), old(other.val))
    ensures vm' == AbsorbAllValues(Filter(cs[k..], Plain), old(other.val), vm)
  {
    vm' := vm;
    ghost var start := other.val;
    var i := k;
    assert cs[k..k] == [];
    while i < |refs|
      invariant k <= i <= |refs| && other.Valid() && fresh(other.Repr - old(other.Repr))
      invariant DropInv(refs, cs, k, i, other, region, start, vm, vm')
    {
      vm' := DropOne(refs, cs, k, i, other, region, start, vm, vm');
      i := i + 1;
    }
    assert cs[k..i] == cs[k..];
  }

  lemma {:induction false} AbsorbAllStep(cs: seq<Node>, k: nat, i: nat, other: Node, vm: ValueMap)
    requires k <= i < |cs|
    ensures var before, after := Filter(cs[k..i], Plain), Filter(cs[k..i + 1], Plain);
      if cs[i].key == OTHER then after == before
      else
        && AbsorbAll(after, other) == Absorb(cs[i], AbsorbAll(before, other), 0)
        && AbsorbAllValues(after, other, vm) ==
           MergeValues(cs[i].children, AbsorbAll(before, other).children, AbsorbAllValues(before, other, vm), 0)
  {
    assert cs[k..i + 1][..i - k] == cs[k..i] && cs[k..i + 1][i - k] == cs[i];
    var before := Filter(cs[k..i], Plain);
    assert (before + [cs[i]])[..|before|] == before;
  }

  /** Merges the dropped children into `other`, completes it and reduces it. */
  method MakeOther(refs: seq<TreeNode>, ghost cs: seq<Node>, k: nat, other: TreeNode, ghost n: Node,
                   ghost drop: seq<Node>, m: Metric, vm: ValueMap, sel: set<Path>, sort: Sorter,
                   ghost region: set<TreeNode>, ghost h: nat)
    returns (vm': ValueMap, sel': set<Path>)
    requires Droppable(refs, cs, k, other, region) && other.Valid()
    requires other.val == GetOrCreateOther(n.fullKey, cs) && WellKeyed(n) && (forall c :: c in cs ==> c in n.children)
    requires drop == Filter(cs[k..], Plain) && Height(BuildOther(n.fullKey, cs, drop, {m})) < h
    modifies other.Repr
    ensures other.Valid() && fresh(other.Repr - old(other.Repr))
    ensures var r := ReduceTree(BuildOther(n.fullKey, cs, drop, {m}), m,
                          AbsorbAllValues(drop, GetOrCreateOther(n.fullKey, cs), vm), sort);
      other.val == r.node && vm' == r.vm && sel' == sel + r.ids
    decreases h, 0
  {
    hide WellKeyed, AbsorbAll, AbsorbAllValues, FixOther, Filter, ReduceTree;
    ghost var r0 := other.Repr;
    vm' := DropChildren(refs, cs, k, other, vm, region);
    FixMissingDataOfOtherNode(other, {m});
    ghost var r1 := other.Repr;
    assert fresh(r1 - r0);
    FilterFacts(cs[k..], Plain);
    OtherKeyed(n, cs, drop, {m});
    vm', sel' := ReduceTreeRec(other, m, vm', sel, sort);
    assert other.Repr - r0 <= (other.Repr - r1) + (r1 - r0);
  }

  /** `other` shares no object with the trees in `cs`. */
  ghost predicate Apart(cs: seq<TreeNode>, other: TreeNode)
    reads cs, other
  {
    forall i :: 0 <= i < |cs| ==> cs[i].Repr !! other.Repr
  }

  /** Finds or creates the "Other" child while some children have been reduced already. */
  method PickOther(refs: seq<TreeNode>, ghost cs: seq<Node>, ghost k: nat, parent: Path,
                   ghost converted: seq<TreeNode>, ghost at: seq<nat>, ghost reduced: seq<Node>,
                   ghost region: set<TreeNode>)
    returns (other: TreeNode)
    requires KeptSoFar(refs, cs, region, k, converted, at, reduced) && DistinctKeys(cs)
    ensures other.Valid() && other.val == GetOrCreateOther(parent, cs)
    ensures other.Repr <= region || fresh(other.Repr)
    ensures Droppable(refs, cs, k, other, region) && Apart(converted, other)
  {
    GroveIsForest(refs, region);
    var created;
    other, created := FindOrNewOther(parent, refs, cs);
    ghost var x := FindKey(cs, OTHER);
    forall i | 0 <= i < |refs| && cs[i].key != OTHER ensures refs[i].Repr !! other.Repr {
      if !created {
        if i < x {} else {}
      }
    }
    forall i | 0 <= i < |refs| && cs[i].key == OTHER ensures refs[i] == other {
      FindKeyUnique(cs, i);
    }
  }

  /** The end of reduceTree: everything that was not kept goes into "Other". */
  method FoldRest(refs: seq<TreeNode>, ghost cs: seq<Node>, k: nat, parent: Path, ghost n: Node,
                  ghost drop: seq<Node>, m: Metric, vm: ValueMap, sel: set<Path>, sort: Sorter,
                  ghost converted: seq<TreeNode>, ghost at: seq<nat>, ghost reduced: seq<Node>,
                  ghost region: set<TreeNode>, ghost h: nat)
    returns (other: TreeNode, vm': ValueMap, sel': set<Path>, ghost region': set<TreeNode>)
    requires KeptSoFar(refs, cs, region, k, converted, at, reduced) && DistinctKeys(cs)
    requires parent == n.fullKey && WellKeyed(n) && (forall c :: c in cs ==> c in n.children)
    requires drop == Filter(cs[k..], Plain) && Height(BuildOther(n.fullKey, cs, drop, {m})) < h
    modifies region
    ensures region <= region' && fresh(region' - region)
    ensures var r := ReduceTree(BuildOther(n.fullKey, cs, drop, {m}), m,
                          AbsorbAllValues(drop, GetOrCreateOther(n.fullKey, cs), vm), sort);
      vm' == r.vm && sel' == sel + r.ids && Planted(converted, reduced, other, r.node, region')
    decreases h, 2
  {
    hide WellKeyed, BuildOther, AbsorbAllValues, Filter, ReduceTree, ForestHeight;
    KeptForest(refs, cs, region, k, converted, at, reduced);
    other := PickOther(refs, cs, k, parent, converted, at, reduced, region);
    vm', sel', region' := PlantOther(refs, cs, k, other, n, drop, m, vm, sel, sort, converted, reduced, region, h);
  }

  /** The kept children and "Other" form a forest with the given values. */
  ghost predicate Planted(converted: seq<TreeNode>, reduced: seq<Node>, other: TreeNode, val: Node,
                          region: set<TreeNode>)
    reads region
  {
    && Forest(converted + [other], region) && |reduced| == |converted|
    && (forall j :: 0 <= j < |converted| ==> converted[j] in region && converted[j].val == reduced[j])
    && other in region && other.val == val
  }

  lemma {:induction false} PlantedBeside(converted: seq<TreeNode>, reduced: seq<Node>, other: TreeNode,
                                         region: set<TreeNode>)
    requires |reduced| == |converted| && other.Valid()
    requires forall j :: 0 <= j < |converted| ==> converted[j] in region && converted[j].Repr <= region
    requires forall j :: 0 <= j < |converted| ==> converted[j].Valid() && converted[j].val == reduced[j]
    requires forall j :: 0 <= j < |converted| ==> converted[j].Repr !! other.Repr
    requires forall a, b :: 0 <= a < b < |converted| ==> converted[a].Repr !! converted[b].Repr
    ensures Planted(converted, reduced, other, other.val, region + other.Repr)
  {
  }

  method PlantOther(refs: seq<TreeNode>, ghost cs: seq<Node>, k: nat, other: TreeNode, ghost n: Node,
                    ghost drop: seq<Node>, m: Metric, vm: ValueMap, sel: set<Path>, sort: Sorter,
                    ghost converted: seq<TreeNode>, ghost reduced: seq<Node>, ghost region: set<TreeNode>,
                    ghost h: nat)
    returns (vm': ValueMap, sel': set<Path>, ghost region': set<TreeNode>)
    requires Droppable(refs, cs, k, other, region) && other.Valid()
    requires other.val == GetOrCreateOther(n.fullKey, cs) && WellKeyed(n) && (forall c :: c in cs ==> c in n.children)
    requires drop == Filter(cs[k..], Plain) && Height(BuildOther(n.fullKey, cs, drop, {m})) < h
    requires Forest(converted, region) && Vals(converted, region) == reduced && Apart(converted, other)
    modifies other.Repr
    ensures region <= region' && fresh(region' - region - old(other.Repr)) && region' == region + other.Repr
    ensures var r := ReduceTree(BuildOther(n.fullKey, cs, drop, {m}), m,
                          AbsorbAllValues(drop, GetOrCreateOther(n.fullKey, cs), vm), sort);
      vm' == r.vm && sel' == sel + r.ids && Planted(converted, reduced, other, r.node, region')
    decreases h, 1
  {
    hide WellKeyed, BuildOther, AbsorbAllValues, Filter, Droppable, ReduceTree;
    vm', sel' := MakeOther(refs, cs, k, other, n, drop, m, vm, sel, sort, region, h);
    region' := region + other.Repr;
    forall j | 0 <= j < |converted|
      ensures converted[j].Valid() && converted[j].val == reduced[j] && converted[j].Repr == old(converted[j].Repr)
      ensures converted[j].Repr !! other.Repr
    {
    }
    forall a, b | 0 <= a < b < |converted| ensures converted[a].Repr !! converted[b].Repr {
      assert old(converted[a].Repr) !! old(converted[b].Repr);
    }
    PlantedBeside(converted, reduced, other, region);
  }

  lemma {:induction false} PlannedChildren(n: Node, m: Metric, vm: ValueMap, sort: Sorter)
    requires WellKeyed(n) && n.children != []
    ensures var t := PlanOf(n, m, vm, sort);
      && DistinctKeys(t.cs) && (forall c :: c in t.cs ==> c in n.children)
      && (forall c :: c in t.cs ==> WellKeyed(c) && Height(c) < Height(n))
      && Height(BuildOther(n.fullKey, t.cs, t.drop, {m})) < Height(n)
      && (forall c :: c in t.keep ==> c.key != OTHER)
  {
    PlanLowers(n, m, vm, sort);
    PlanSplits(n, m, vm, sort);
    forall c | c in n.children ensures Height(c) < Height(n) {
      var i :| 0 <= i < |n.children| && n.children[i] == c;
      TallerThanChild(n.children, i);
    }
  }

  lemma {:induction false} KeptKeys(cs: seq<Node>, m: Metric, vm: ValueMap, sort: Sorter)
    requires forall c :: c in cs ==> c.key != OTHER
    ensures FindKey(ReduceEach(cs, m, vm, sort).nodes, OTHER) == |ReduceEach(cs, m, vm, sort).nodes|
  {
    if cs != [] {
      var n := |cs| - 1;
      KeptKeys(cs[..n], m, vm, sort);
      var before := ReduceEach(cs[..n], m, vm, sort);
      ReduceTreeHead(cs[n], m, before.vm, sort);
      var r := ReduceTree(cs[n], m, before.vm, sort).node;
      assert (before.nodes + [r])[..|before.nodes|] == before.nodes;
      assert cs[n] in cs;
    }
  }

  /** Reducing a node all of whose children are kept. */
  lemma {:induction false} ReduceAllKept(n: Node, m: Metric, vm: ValueMap, sort: Sorter)
    requires n.children != [] && var t := PlanOf(n, m, vm, sort); |t.keep| == |t.cs|
    ensures var kept := ReduceEach(PlanOf(n, m, vm, sort).keep, m, vm, sort);
      ReduceTree(n, m, vm, sort) == Reduced(n.(children := kept.nodes), kept.vm, kept.ids)
  {
  }

  /** Reducing a node some of whose children are not kept. */
  lemma {:induction false} ReduceSomeKept(n: Node, m: Metric, vm: ValueMap, sort: Sorter)
    requires n.children != [] && var t := PlanOf(n, m, vm, sort); |t.keep| != |t.cs|
    requires forall c :: c in PlanOf(n, m, vm, sort).keep ==> c.key != OTHER
    ensures var t := PlanOf(n, m, vm, sort);
      var kept := ReduceEach(t.keep, m, vm, sort);
      var r := ReduceTree(BuildOther(n.fullKey, t.cs, t.drop, {m}), m,
                          AbsorbAllValues(t.drop, GetOrCreateOther(n.fullKey, t.cs), kept.vm), sort);
      ReduceTree(n, m, vm, sort) == Reduced(n.(children := kept.nodes + [r.node]), r.vm, kept.ids + r.ids)
  {
    KeptKeys(PlanOf(n, m, vm, sort).keep, m, vm, sort);
  }

  /** `converted.push(otherNode)`, unless an "Other" node is there already, and the new children. */
  method FinishWithOther(node: TreeNode, converted: seq<TreeNode>, ghost reduced: seq<Node>, other: TreeNode,
                         ghost val: Node, ghost region: set<TreeNode>)
    requires Planted(converted, reduced, other, val, region) && FindKey(reduced, OTHER) == |reduced|
    requires node !in region && node.val == Node(node.fullKey, node.key, node.objects, node.bytes, node.val.children)
    modifies node
    ensures node.Valid() && node.Repr == {node} + region
    ensures node.val == old(node.val).(children := reduced + [val])
  {
    assert forall i :: 0 <= i < |converted| ==> (converted + [other])[i] == converted[i] && converted[i].Valid();
    var i := FindChild(converted, OTHER, reduced);
    assert i == |converted|;
    var all := if i == |converted| then converted + [other] else converted;
    assert Vals(all, region) == reduced + [val];
    node.SetChildren(all, region);
  }

  /** What is known between the two loops of reduceTree. */
  ghost predicate Between(node: TreeNode, n: Node, t: Plan, m: Metric, vm: ValueMap, sel: set<Path>, sort: Sorter,
                          converted: seq<TreeNode>, at: seq<nat>, nodeCount: nat, otherOffset: nat, vm': ValueMap,
                          sel': set<Path>, region: set<TreeNode>)
    reads node, region
  {
    && node !in region && node.val == Node(node.fullKey, node.key, node.objects, node.bytes, node.val.children)
    && node.val == n.(children := t.cs) && |node.children| == |t.cs|
    && nodeCount + otherOffset <= |t.cs| && |converted| == nodeCount == |t.keep|
    && t.keep == Filter(t.cs[..nodeCount + otherOffset], Plain)
    && t.drop == Filter(t.cs[nodeCount + otherOffset..], Plain)
    && KeepLoop(node.children, t.cs, region, nodeCount + otherOffset, m, vm, sel, sort, converted, at, vm', sel')
  }

  lemma {:induction false} UnionAssociates(a: set<Path>, b: set<Path>, c: set<Path>)
    ensures a + b + c == a + (b + c)
  {
  }

  /** The part of reduceTree after its first loop. */
  method FinishReduce(node: TreeNode, ghost n: Node, m: Metric, ghost vm: ValueMap, ghost sel: set<Path>,
                      sort: Sorter, converted: seq<TreeNode>, ghost at: seq<nat>, nodeCount: nat, otherOffset: nat,
                      vm1: ValueMap, sel1: set<Path>, ghost region: set<TreeNode>)
    returns (vm': ValueMap, sel': set<Path>)
    requires n.children != [] && WellKeyed(n)
    requires Between(node, n, PlanOf(n, m, vm, sort), m, vm, sel, sort, converted, at, nodeCount, otherOffset, vm1,
                     sel1, region)
    modifies node, region
    ensures node.Valid() && fresh(node.Repr - {node} - region)
    ensures var r := ReduceTree(n, m, vm, sort);
      node.val == r.node && vm' == r.vm && sel' == sel + r.ids
    decreases Height(n), 4
  {
    hide KeepLoop, WellKeyed, ReduceEach, ReduceTree;
    ghost var t := PlanOf(n, m, vm, sort);
    PlannedChildren(n, m, vm, sort);
    if nodeCount < |node.children| {
      vm', sel' := FinishSome(node, n, t, m, vm, sel, sort, converted, at, nodeCount, otherOffset, vm1, sel1, region);
      ReduceSomeKept(n, m, vm, sort);
    } else {
      vm', sel' := vm1, sel1;
      FinishAll(node, n, t, m, vm, sel, sort, converted, at, nodeCount, otherOffset, vm1, sel1, region);
      ReduceAllKept(n, m, vm, sort);
    }
  }

  method FinishAll(node: TreeNode, ghost n: Node, ghost t: Plan, ghost m: Metric, ghost vm: ValueMap,
                   ghost sel: set<Path>, ghost sort: Sorter, converted: seq<TreeNode>, ghost at: seq<nat>,
                   ghost nodeCount: nat, ghost otherOffset: nat, ghost vm1: ValueMap, ghost sel1: set<Path>,
                   ghost region: set<TreeNode>)
    requires Between(node, n, t, m, vm, sel, sort, converted, at, nodeCount, otherOffset, vm1, sel1, region)
    modifies node
    ensures node.Valid() && node.Repr == {node} + region
    ensures node.val == n.(children := ReduceEach(t.keep, m, vm, sort).nodes)
    ensures vm1 == ReduceEach(t.keep, m, vm, sort).vm && sel1 == sel + ReduceEach(t.keep, m, vm, sort).ids
  {
    KeptForest(node.children, t.cs, region, nodeCount + otherOffset, converted, at,
               ReduceEach(t.keep, m, vm, sort).nodes);
    node.SetChildren(converted, region);
  }

  method FinishSome(node: TreeNode, ghost n: Node, ghost t: Plan, m: Metric, ghost vm: ValueMap, ghost sel: set<Path>,
                    sort: Sorter, converted: seq<TreeNode>, ghost at: seq<nat>, nodeCount: nat, otherOffset: nat,
                    vm1: ValueMap, sel1: set<Path>, ghost region: set<TreeNode>)
    returns (vm': ValueMap, sel': set<Path>)
    requires WellKeyed(n) && DistinctKeys(t.cs)
    requires Between(node, n, t, m, vm, sel, sort, converted, at, nodeCount, otherOffset, vm1, sel1, region)
    requires forall c :: c in t.cs ==> c in n.children
    requires forall c :: c in t.keep ==> c.key != OTHER
    requires Height(BuildOther(n.fullKey, t.cs, t.drop, {m})) < Height(n)
    modifies node, region
    ensures node.Valid() && fresh(node.Repr - {node} - region)
    ensures vm1 == ReduceEach(t.keep, m, vm, sort).vm
    ensures var kept := ReduceEach(t.keep, m, vm, sort);
      var r := ReduceTree(BuildOther(n.fullKey, t.cs, t.drop, {m}), m,
                          AbsorbAllValues(t.drop, GetOrCreateOther(n.fullKey, t.cs), vm1), sort);
      node.val == n.(children := kept.nodes + [r.node]) && vm' == r.vm && sel' == sel + (kept.ids + r.ids)
    decreases Height(n), 3
  {
    hide BuildOther, ReduceTree, ReduceEach, AbsorbAllValues, WellKeyed, DistinctKeys, Filter, Planted, ForestHeight,
         KeptSoFar;
    ghost var kept := ReduceEach(t.keep, m, vm, sort);
    KeptKeys(t.keep, m, vm, sort);
    ghost var region';
    var other;
    other, vm', sel', region' := FoldRest(node.children, t.cs, nodeCount + otherOffset, node.fullKey, n, t.drop, m,
                                          vm1, sel1, sort, converted, at, kept.nodes, region, Height(n));
    ghost var r := ReduceTree(BuildOther(n.fullKey, t.cs, t.drop, {m}), m,
                              AbsorbAllValues(t.drop, GetOrCreateOther(n.fullKey, t.cs), vm1), sort);
    UnionAssociates(sel, kept.ids, r.ids);
    FinishWithOther(node, converted, kept.nodes, other, r.node, region');
  }

  /** reduceTree on a node with children, up to the end of its first loop. */
  method KeepPhase(node: TreeNode, ghost n: Node, ghost t: Plan, m: Metric, vm: ValueMap, sel: set<Path>, sort: Sorter)
    returns (converted: seq<TreeNode>, ghost at: seq<nat>, nodeCount: nat, otherOffset: nat,
             vm': ValueMap, sel': set<Path>, ghost region: set<TreeNode>)
    requires n.children != [] && WellKeyed(n) && t == PlanOf(n, m, vm, sort)
    requires node.Valid() && node.val == n.(children := t.cs)
    modifies node.Repr - {node}
    ensures Between(node, n, t, m, vm, sel, sort, converted, at, nodeCount, otherOffset, vm', sel', region)
    ensures fresh(region - old(node.Repr))
    decreases Height(n), 3
  {
    hide WellKeyed, ReduceEach, ReduceTree, Grove, KeptSoFar, KeepLoop, PlanOf, CutIndex, DistinctKeys, Between;
    ghost var start := node.Repr - {node};
    PlannedChildren(n, m, vm, sort);
    NothingKeptYet(node);
    converted, nodeCount, otherOffset, vm', sel', region, at :=
      KeepChildren(node.children, t.cs, start, m, node.Value(m), vm, sel, sort, Height(n));
    PlanIsKept(node, n, t, m, vm, sel, sort, converted, at, nodeCount, otherOffset, vm', sel', region);
  }

  lemma {:induction false} NothingKeptYet(node: TreeNode)
    requires node.Valid()
    ensures KeptSoFar(node.children, node.val.children, node.Repr - {node}, 0, [], [], [])
    ensures |node.children| == |node.val.children|
    ensures node.val == Node(node.fullKey, node.key, node.objects, node.bytes, node.val.children)
  {
    hide Grove;
    ChildrenForest(node);
    GroveIsForest(node.children, node.Repr - {node});
  }

  /** The first loop keeps what was planned. */
  lemma {:induction false} PlanIsKept(node: TreeNode, n: Node, t: Plan, m: Metric, vm: ValueMap, sel: set<Path>,
                                      sort: Sorter, converted: seq<TreeNode>, at: seq<nat>, nodeCount: nat,
                                      otherOffset: nat, vm': ValueMap, sel': set<Path>, region: set<TreeNode>)
    requires node !in region && node.val == Node(node.fullKey, node.key, node.objects, node.bytes, node.val.children)
    requires t == PlanOf(n, m, vm, sort) && node.val == n.(children := t.cs) && |node.children| == |t.cs|
    requires nodeCount + otherOffset == CutIndex(t.cs, m, n.Value(m), 0, 0, 0) && |converted| == nodeCount
    requires KeepLoop(node.children, t.cs, region, nodeCount + otherOffset, m, vm, sel, sort, converted, at, vm', sel')
    ensures Between(node, n, t, m, vm, sel, sort, converted, at, nodeCount, otherOffset, vm', sel', region)
  {
    hide KeptSoFar, ReduceEach, SortChildren, CutIndex, Filter;
  }

  /** reduceTree on a node with children, after these have been sorted. */
  method ReduceSorted(node: TreeNode, ghost n: Node, m: Metric, vm: ValueMap, sel: set<Path>, sort: Sorter)
    returns (vm': ValueMap, sel': set<Path>)
    requires n.children != [] && WellKeyed(n)
    requires node.Valid() && node.val == n.(children := PlanOf(n, m, vm, sort).cs)
    modifies node.Repr
    ensures node.Valid() && fresh(node.Repr - old(node.Repr))
    ensures var r := ReduceTree(n, m, vm, sort);
      node.val == r.node && vm' == r.vm && sel' == sel + r.ids
    decreases Height(n), 5
  {
    ghost var at, region;
    var converted, nodeCount, otherOffset;
    converted, at, nodeCount, otherOffset, vm', sel', region :=
      KeepPhase(node, n, PlanOf(n, m, vm, sort), m, vm, sel, sort);
    vm', sel' := FinishReduce(node, n, m, vm, sel, sort, converted, at, nodeCount, otherOffset, vm', sel', region);
  }

  /** The recursive part of Helpers.reduceTree. */
  method ReduceTreeRec(node: TreeNode, m: Metric, vm: ValueMap, sel: set<Path>, sort: Sorter)
    returns (vm': ValueMap, sel': set<Path>)
    requires node.Valid() && WellKeyed(node.val)
    modifies node.Repr
    ensures node.Valid() && fresh(node.Repr - old(node.Repr))
    ensures var r := ReduceTree(old(node.val), m, vm, sort);
      node.val == r.node && vm' == r.vm && sel' == sel + r.ids
    decreases Height(node.val), 6
  {
    vm', sel' := vm, sel;
    if node.children != [] {
      ghost var n := node.val;
      SortInPlace(node, vm, sort);
      vm', sel' := ReduceSorted(node, n, m, vm, sel, sort);
    }
  }

  // ----- replaying a selection -----

  /** The children other than "Other" form a forest apart from `other`; an "Other" child is `other`. */
  ghost predicate PlainForest(refs: seq<TreeNode>, cs: seq<Node>, other: TreeNode, region: set<TreeNode>)
    reads region, other
  {
    && |refs| == |cs|
    && (forall i :: 0 <= i < |refs| && cs[i].key == OTHER ==> refs[i] == other)
    && (forall i :: 0 <= i < |refs| && cs[i].key != OTHER ==>
          refs[i] in region && refs[i].Repr <= region && refs[i].Valid() && refs[i].Repr !! other.Repr)
    && (forall i, j :: 0 <= i < j < |refs| && cs[i].key != OTHER && cs[j].key != OTHER ==> refs[i].Repr !! refs[j].Repr)
  }

  /** The state of the loop before index `k`, on the side of the kept children. */
  ghost predicate SelectedSoFar(refs: seq<TreeNode>, cs: seq<Node>, other: TreeNode, region: set<TreeNode>, k: nat,
                                converted: seq<TreeNode>, at: seq<nat>, reduced: seq<Node>)
    reads region, other
  {
    && PlainForest(refs, cs, other, region) && k <= |cs|
    && |at| == |converted| == |reduced|
    && (forall j :: 0 <= j < |at| ==> at[j] < k && cs[at[j]].key != OTHER)
    && (forall j :: 0 <= j < |at| ==> converted[j] == refs[at[j]] && refs[at[j]].val == reduced[j])
    && (forall a, b :: 0 <= a < b < |at| ==> at[a] < at[b])
    && (forall i :: k <= i < |refs| && cs[i].key != OTHER ==> refs[i].val == cs[i])
  }

  /** Reduces one child; the others and `other` stay as they are. */
  method ReduceAt(refs: seq<TreeNode>, ghost cs: seq<Node>, ghost other: TreeNode, ghost region: set<TreeNode>,
                  k: nat, sel: set<Path>, vm: ValueMap, sort: Sorter)
    returns (vm': ValueMap, ghost region': set<TreeNode>)
    requires PlainForest(refs, cs, other, region) && k < |refs| && other.Valid()
    requires cs[k].key != OTHER && refs[k].val == cs[k] && WellKeyed(cs[k]) && NoOther(sel)
    modifies refs[k].Repr
    ensures PlainForest(refs, cs, other, region') && region <= region' && fresh(region' - region)
    ensures var r := ReduceBySet(cs[k], sel, vm, sort);
      vm' == r.vm && refs[k].val == r.node
    ensures forall i :: 0 <= i < |refs| && i != k && cs[i].key != OTHER ==> refs[i].val == old(refs[i].val)
    ensures other.Valid() && other.val == old(other.val) && other.Repr == old(other.Repr)
    decreases Height(cs[k]), 7
  {
    hide ReduceBySet, WellKeyed, NoOther, ForestHeight;
    forall i | 0 <= i < |refs| && i != k && cs[i].key != OTHER ensures refs[i].Repr !! refs[k].Repr {
      if i < k {} else {}
    }
    vm' := ReduceBySetRec(refs[k], sel, vm, sort);
    forall i | 0 <= i < |refs| && i != k && cs[i].key != OTHER
      ensures refs[i].Valid() && refs[i].val == old(refs[i].val) && refs[i].Repr == old(refs[i].Repr)
    {
    }
    region' := region + refs[k].Repr;
  }

  lemma {:induction false} PlainForestSize(refs: seq<TreeNode>, cs: seq<Node>, other: TreeNode, region: set<TreeNode>)
    requires PlainForest(refs, cs, other, region)
    ensures |refs| == |cs|
  {
  }

  /** The child at `k` has been reduced; the other children are as they were. */
  lemma {:induction false} SelectedNext(refs: seq<TreeNode>, cs: seq<Node>, other: TreeNode, region: set<TreeNode>,
                                        k: nat, converted: seq<TreeNode>, at: seq<nat>, reduced: seq<Node>)
    requires PlainForest(refs, cs, other, region) && k < |refs| == |cs| && cs[k].key != OTHER
    requires |at| == |converted| == |reduced|
    requires forall j :: 0 <= j < |at| ==> at[j] < k && cs[at[j]].key != OTHER
    requires forall j :: 0 <= j < |at| ==> converted[j] == refs[at[j]] && refs[at[j]].val == reduced[j]
    requires forall a, b :: 0 <= a < b < |at| ==> at[a] < at[b]
    requires forall i :: k < i < |refs| && cs[i].key != OTHER ==> refs[i].val == cs[i]
    ensures SelectedSoFar(refs, cs, other, region, k + 1, converted + [refs[k]], at + [k], reduced + [refs[k].val])
  {
    hide PlainForest;
  }

  method KeepSelected(refs: seq<TreeNode>, ghost cs: seq<Node>, ghost other: TreeNode, ghost region: set<TreeNode>,
                      k: nat, ghost converted: seq<TreeNode>, ghost at: seq<nat>, ghost reduced: seq<Node>,
                      sel: set<Path>, vm: ValueMap, sort: Sorter)
    returns (vm': ValueMap, ghost region': set<TreeNode>)
    requires SelectedSoFar(refs, cs, other, region, k, converted, at, reduced) && k < |refs|
    requires cs[k].key != OTHER && WellKeyed(cs[k]) && NoOther(sel) && other.Valid()
    modifies refs[k].Repr
    ensures var r := ReduceBySet(cs[k], sel, vm, sort);
      && vm' == r.vm && region <= region' && fresh(region' - region)
      && SelectedSoFar(refs, cs, other, region', k + 1, converted + [refs[k]], at + [k], reduced + [r.node])
    ensures other.Valid() && other.val == old(other.val) && other.Repr == old(other.Repr)
    decreases Height(cs[k]), 8
  {
    hide PlainForest, WellKeyed, NoOther, ReduceBySet, ForestHeight;
    PlainForestSize(refs, cs, other, region);
    vm', region' := ReduceAt(refs, cs, other, region, k, sel, vm, sort);
    SelectedNext(refs, cs, other, region', k, converted, at, reduced);
  }

  method DropUnselected(refs: seq<TreeNode>, ghost cs: seq<Node>, other: TreeNode, ghost region: set<TreeNode>,
                        k: nat, ghost converted: seq<TreeNode>, ghost at: seq<nat>, ghost reduced: seq<Node>)
    requires SelectedSoFar(refs, cs, other, region, k, converted, at, reduced) && k < |refs|
    requires cs[k].key != OTHER && other.Valid()
    modifies other.Repr
    ensures other.Valid() && fresh(other.Repr - old(other.Repr)) && other.val == Absorb(cs[k], old(other.val), 0)
    ensures SelectedSoFar(refs, cs, other, region, k + 1, converted, at, reduced)
  {
    var vm := AbsorbNode(refs[k], other, map[], false);
  }

  /** What the loop has computed before index `k`. */
  ghost predicate SetLoop(refs: seq<TreeNode>, cs: seq<Node>, other: TreeNode, region: set<TreeNode>, k: nat,
                          sel: set<Path>, vm: ValueMap, sort: Sorter, start: Node, converted: seq<TreeNode>,
                          at: seq<nat>, vm': ValueMap)
    reads region, other
  {
    && k <= |cs|
    && var keep := Filter(cs[..k], Selected(sel));
    && var r := ReduceEachBySet(keep, sel, vm, sort);
    && SelectedSoFar(refs, cs, other, region, k, converted, at, r.nodes)
    && |converted| == |keep| <= k && vm' == r.vm
    && other.val == AbsorbAll(Filter(cs[..k], Unselected(sel)), start)
  }

  lemma {:induction false} SetStep(cs: seq<Node>, k: nat, sel: set<Path>, vm: ValueMap, sort: Sorter, start: Node)
    requires k < |cs|
    ensures var keep, keep' := Filter(cs[..k], Selected(sel)), Filter(cs[..k + 1], Selected(sel));
      var drop, drop' := Filter(cs[..k], Unselected(sel)), Filter(cs[..k + 1], Unselected(sel));
      var before := ReduceEachBySet(keep, sel, vm, sort);
      var r := ReduceBySet(cs[k], sel, before.vm, sort);
      && (cs[k].fullKey in sel ==>
            && keep' == keep + [cs[k]] && drop' == drop
            && ReduceEachBySet(keep', sel, vm, sort) == ReplayedForest(before.nodes + [r.node], r.vm))
      && (cs[k].fullKey !in sel ==> keep' == keep)
      && (cs[k].fullKey !in sel && cs[k].key == OTHER ==> drop' == drop)
      && (cs[k].fullKey !in sel && cs[k].key != OTHER ==>
          AbsorbAll(drop', start) == Absorb(cs[k], AbsorbAll(drop, start), 0))
  {
    assert cs[..k + 1][..k] == cs[..k];
    var keep, drop := Filter(cs[..k], Selected(sel)), Filter(cs[..k], Unselected(sel));
    assert (keep + [cs[k]])[..|keep|] == keep;
    assert (drop + [cs[k]])[..|drop|] == drop;
  }

  /** One turn of the loop: a selected child is reduced, any other one is merged into "Other". */
  method SetTurn(refs: seq<TreeNode>, ghost cs: seq<Node>, other: TreeNode, ghost region: set<TreeNode>, k: nat,
                 sel: set<Path>, ghost vm: ValueMap, sort: Sorter, ghost start: Node, converted: seq<TreeNode>,
                 ghost at: seq<nat>, vm1: ValueMap)
    returns (converted': seq<TreeNode>, ghost at': seq<nat>, vm2: ValueMap, ghost region': set<TreeNode>)
    requires SetLoop(refs, cs, other, region, k, sel, vm, sort, start, converted, at, vm1)
    requires k < |refs| && other.Valid() && other.key == OTHER && WellKeyed(cs[k]) && NoOther(sel)
    requires cs[k].fullKey in sel ==> cs[k].key != OTHER
    requires cs[k].key == OTHER ==> refs[k].fullKey == cs[k].fullKey
    modifies region, other.Repr
    ensures other.Valid() && fresh(other.Repr - old(other.Repr)) && region <= region' && fresh(region' - region)
    ensures other.key == OTHER && other.fullKey == old(other.fullKey)
    ensures |converted'| < k + 1 <==> |converted| < k || cs[k].fullKey !in sel
    ensures SetLoop(refs, cs, other, region', k + 1, sel, vm, sort, start, converted', at', vm2)
    decreases Height(cs[k]), 9
  {
    hide SelectedSoFar, WellKeyed, NoOther;
    converted', at', vm2, region' := converted, at, vm1, region;
    SetLoopOther(refs, cs, other, region, k, sel, vm, sort, start, converted, at, vm1);
    SetStep(cs, k, sel, vm, sort, start);
    ghost var reduced := ReduceEachBySet(Filter(cs[..k], Selected(sel)), sel, vm, sort).nodes;
    SetLoopChild(refs, cs, other, region, k, converted, at, reduced);
    if refs[k].fullKey in sel {
      vm2, region' := KeepSelected(refs, cs, other, region, k, converted, at, reduced, sel, vm1, sort);
      converted', at' := converted + [refs[k]], at + [k];
    } else if refs[k].key != OTHER {
      DropUnselected(refs, cs, other, region, k, converted, at, reduced);
    }
  }

  lemma {:induction false} SetLoopChild(refs: seq<TreeNode>, cs: seq<Node>, other: TreeNode, region: set<TreeNode>,
                                        k: nat, converted: seq<TreeNode>, at: seq<nat>, reduced: seq<Node>)
    requires SelectedSoFar(refs, cs, other, region, k, converted, at, reduced) && k < |cs| && other.Valid()
    ensures |refs| == |cs| && (cs[k].key == OTHER ==> refs[k] == other)
    ensures cs[k].key != OTHER ==>
      && refs[k].Repr <= region && refs[k].Repr !! other.Repr
      && refs[k].fullKey == cs[k].fullKey && refs[k].key == cs[k].key
    ensures cs[k].key == OTHER ==> SelectedSoFar(refs, cs, other, region, k + 1, converted, at, reduced)
  {
  }

  lemma {:induction false} SetLoopStart(refs: seq<TreeNode>, cs: seq<Node>, other: TreeNode, region: set<TreeNode>,
                                        sel: set<Path>, vm: ValueMap, sort: Sorter)
    requires SelectedSoFar(refs, cs, other, region, 0, [], [], [])
    ensures SetLoop(refs, cs, other, region, 0, sel, vm, sort, other.val, [], [], vm)
  {
  }

  lemma {:induction false} SetLoopOther(refs: seq<TreeNode>, cs: seq<Node>, other: TreeNode, region: set<TreeNode>,
                                        k: nat, sel: set<Path>, vm: ValueMap, sort: Sorter, start: Node,
                                        converted: seq<TreeNode>, at: seq<nat>, vm': ValueMap)
    requires SetLoop(refs, cs, other, region, k, sel, vm, sort, start, converted, at, vm')
    ensures |refs| == |cs| && (k < |cs| && cs[k].key == OTHER ==> refs[k] == other)
  {
  }

  /** The loop over all children; `other` stands for the source's lazily created "Other" node. */
  method SelectChildren(refs: seq<TreeNode>, ghost cs: seq<Node>, other: TreeNode, ghost region: set<TreeNode>,
                        sel: set<Path>, vm: ValueMap, sort: Sorter, ghost h: nat)
    returns (converted: seq<TreeNode>, ghost at: seq<nat>, vm': ValueMap, ghost region': set<TreeNode>)
    requires SelectedSoFar(refs, cs, other, region, 0, [], [], [])
    requires other.Valid() && other.key == OTHER && NoOther(sel)
    requires forall c :: c in cs ==> WellKeyed(c) && Height(c) < h && (c.fullKey in sel ==> c.key != OTHER)
    requires forall i :: 0 <= i < |cs| && cs[i].key == OTHER ==> other.fullKey == cs[i].fullKey
    modifies region, other.Repr
    ensures other.Valid() && fresh(other.Repr - old(other.Repr)) && region <= region' && fresh(region' - region)
    ensures SetLoop(refs, cs, other, region', |cs|, sel, vm, sort, old(other.val), converted, at, vm')
    decreases h, 0
  {
    hide *;
    converted, at, vm', region' := [], [], vm, region;
    ghost var start := other.val;
    SetLoopStart(refs, cs, other, region, sel, vm, sort);
    SetLoopOther(refs, cs, other, region, 0, sel, vm, sort, start, [], [], vm);
    var k := 0;
    while k < |refs|
      invariant k <= |refs| == |cs| && other.Valid() && fresh(other.Repr - old(other.Repr))
      invariant other.key == OTHER && other.fullKey == old(other.fullKey)
      invariant region <= region' && fresh(region' - region)
      invariant SetLoop(refs, cs, other, region', k, sel, vm, sort, start, converted, at, vm')
    {
      assert cs[k] in cs;
      SetLoopOther(refs, cs, other, region', k, sel, vm, sort, start, converted, at, vm');
      converted, at, vm', region' := SetTurn(refs, cs, other, region', k, sel, vm, sort, start, converted, at, vm');
      k := k + 1;
    }
  }

  /** Sorts the converted children. */
  method SortRefs(refs: seq<TreeNode>, ghost rs: seq<Node>, ghost region: set<TreeNode>, vm: ValueMap, sort: Sorter)
    returns (sorted: seq<TreeNode>)
    requires Forest(refs, region) && Vals(refs, region) == rs
    ensures Forest(sorted, region) && Vals(sorted, region) == SortChildren(rs, vm, sort)
  {
    var ids := seq(|refs|, i requires 0 <= i < |refs| reads refs => refs[i].fullKey);
    assert ids == Ids(rs);
    assert IsSorter(sort);
    var p := sort(vm, ids);
    assert IsPermutation(p, |ids|);
    sorted := Permute(refs, p);
    forall i, j | 0 <= i < j < |sorted| ensures sorted[i].Repr !! sorted[j].Repr {
      var x, y := p[i], p[j];
      if x < y {} else {}
    }
    assert Vals(sorted, region) == Permute(rs, p);
  }

  /** Sets the sorted children of a replayed node. */
  method SetSorted(node: TreeNode, refs: seq<TreeNode>, ghost rs: seq<Node>, ghost region: set<TreeNode>,
                   vm: ValueMap, sort: Sorter)
    requires Forest(refs, region) && Vals(refs, region) == rs
    requires node !in region && node.val == Node(node.fullKey, node.key, node.objects, node.bytes, node.val.children)
    modifies node
    ensures node.Valid() && node.Repr == {node} + region
    ensures node.val == old(node.val).(children := SortChildren(rs, vm, sort))
  {
    var sorted := SortRefs(refs, rs, region, vm, sort);
    node.SetChildren(sorted, region);
  }

  /** What is known after the loop. */
  ghost predicate AfterSelect(node: TreeNode, n: Node, sel: set<Path>, vm: ValueMap, sort: Sorter, other: TreeNode,
                              converted: seq<TreeNode>, at: seq<nat>, vm': ValueMap, region: set<TreeNode>)
    reads node, other, region
  {
    && node !in region && node !in other.Repr
    && node.val == Node(node.fullKey, node.key, node.objects, node.bytes, node.val.children)
    && node.val == n && |node.children| == |n.children|
    && SetLoop(node.children, n.children, other, region, |n.children|, sel, vm, sort,
               GetOrCreateOther(n.fullKey, n.children), converted, at, vm')
  }

  lemma {:induction false} SelectableChildren(n: Node, sel: set<Path>)
    requires WellKeyed(n) && NoOther(sel)
    ensures forall c :: c in n.children ==>
      WellKeyed(c) && Height(c) < Height(n) && (c.fullKey in sel ==> c.key != OTHER)
  {
    var cs := n.children;
    forall c | c in cs ensures WellKeyed(c) && Height(c) < Height(n) && (c.fullKey in sel ==> c.key != OTHER) {
      var i :| 0 <= i < |cs| && cs[i] == c;
      TallerThanChild(cs, i);
    }
  }

  /** The "Other" child of a node, or a new one, and the node's remaining children. */
  method OtherOf(node: TreeNode) returns (other: TreeNode)
    requires node.Valid() && WellKeyed(node.val)
    ensures other.Valid() && other.key == OTHER && other.val == GetOrCreateOther(node.fullKey, node.val.children)
    ensures other.Repr <= node.Repr - {node} || fresh(other.Repr)
    ensures SelectedSoFar(node.children, node.val.children, other, node.Repr - {node}, 0, [], [], [])
    ensures forall i :: 0 <= i < |node.children| && node.val.children[i].key == OTHER ==>
      other.fullKey == node.val.children[i].fullKey
  {
    var created;
    ghost var cs, x := node.val.children, FindKey(node.val.children, OTHER);
    other, created := FindOrNewOther(node.fullKey, node.children, cs);
    ApartFromOther(node, other, x, created);
  }

  lemma {:induction false} ApartFromOther(node: TreeNode, other: TreeNode, x: nat, created: bool)
    requires node.Valid() && DistinctKeys(node.val.children) && x == FindKey(node.val.children, OTHER)
    requires created <==> x == |node.children|
    requires if created then node.Repr !! other.Repr else x < |node.children| && other == node.children[x]
    ensures SelectedSoFar(node.children, node.val.children, other, node.Repr - {node}, 0, [], [], [])
    ensures forall i :: 0 <= i < |node.children| && node.val.children[i].key == OTHER ==> i == x && !created
  {
    var cs := node.val.children;
    forall i | 0 <= i < |cs| && cs[i].key == OTHER ensures i == x && !created {
      FindKeyUnique(cs, i);
    }
    forall i | 0 <= i < |cs| && cs[i].key != OTHER ensures node.children[i].Repr !! other.Repr {
      if !created {
        if i < x {} else {}
      }
    }
  }

  method SelectPhase(node: TreeNode, ghost n: Node, sel: set<Path>, vm: ValueMap, sort: Sorter)
    returns (other: TreeNode, converted: seq<TreeNode>, ghost at: seq<nat>, vm': ValueMap, ghost region: set<TreeNode>)
    requires node.Valid() && node.val == n && WellKeyed(n) && NoOther(sel)
    modifies node.Repr - {node}
    ensures AfterSelect(node, n, sel, vm, sort, other, converted, at, vm', region)
    ensures other.Valid() && fresh(region - old(node.Repr)) && fresh(other.Repr - old(node.Repr))
    decreases Height(n), 3
  {
    hide SetLoop, SelectedSoFar, WellKeyed, NoOther;
    SelectableChildren(n, sel);
    other := OtherOf(node);
    ghost var start, r0 := node.Repr - {node}, other.Repr;
    converted, at, vm', region := SelectChildren(node.children, n.children, other, start, sel, vm, sort, Height(n));
    assert other.Repr <= r0 + (other.Repr - r0);
  }

  lemma {:induction false} ReduceAllSelected(n: Node, sel: set<Path>, vm: ValueMap, sort: Sorter)
    requires n.children != [] && |Filter(n.children, Selected(sel))| == |n.children|
    ensures var kept := ReduceEachBySet(Filter(n.children, Selected(sel)), sel, vm, sort);
      ReduceBySet(n, sel, vm, sort) == Replayed(n.(children := SortChildren(kept.nodes, kept.vm, sort)), kept.vm)
  {
  }

  lemma {:induction false} ReduceSomeSelected(n: Node, sel: set<Path>, vm: ValueMap, sort: Sorter)
    requires n.children != [] && |Filter(n.children, Selected(sel))| != |n.children|
    requires forall c :: c in n.children && c.fullKey in sel ==> c.key != OTHER
    ensures var kept := ReduceEachBySet(Filter(n.children, Selected(sel)), sel, vm, sort);
      var other := BuildOther(n.fullKey, n.children, Filter(n.children, Unselected(sel)), BOTH);
      var r := ReduceBySet(other, sel, kept.vm, sort);
      var vm' := MarkOther(r.vm, r.node.fullKey);
      ReduceBySet(n, sel, vm, sort) == Replayed(n.(children := SortChildren(kept.nodes + [r.node], vm', sort)), vm')
  {
    FilterFacts(n.children, Selected(sel));
    SelectedKeys(Filter(n.children, Selected(sel)), sel, vm, sort);
  }

  lemma {:induction false} SelectedKeys(cs: seq<Node>, sel: set<Path>, vm: ValueMap, sort: Sorter)
    requires forall c :: c in cs ==> c.key != OTHER
    ensures var nodes := ReduceEachBySet(cs, sel, vm, sort).nodes;
      FindKey(nodes, OTHER) == |nodes|
  {
    if cs != [] {
      var n := |cs| - 1;
      SelectedKeys(cs[..n], sel, vm, sort);
      var before := ReduceEachBySet(cs[..n], sel, vm, sort);
      ReduceBySetHead(cs[n], sel, before.vm, sort);
      var r := ReduceBySet(cs[n], sel, before.vm, sort).node;
      assert (before.nodes + [r])[..|before.nodes|] == before.nodes;
      assert cs[n] in cs;
    }
  }

  lemma {:induction false} SelectedForest(refs: seq<TreeNode>, cs: seq<Node>, other: TreeNode, region: set<TreeNode>,
                                          k: nat, converted: seq<TreeNode>, at: seq<nat>, reduced: seq<Node>)
    requires SelectedSoFar(refs, cs, other, region, k, converted, at, reduced)
    ensures Forest(converted, region) && Vals(converted, region) == reduced && Apart(converted, other)
  {
    forall a, b | 0 <= a < b < |converted| ensures converted[a].Repr !! converted[b].Repr {
      assert at[a] < at[b];
    }
  }

  lemma {:induction false} AfterSelectForest(node: TreeNode, n: Node, sel: set<Path>, vm: ValueMap, sort: Sorter,
                                             other: TreeNode, converted: seq<TreeNode>, at: seq<nat>, vm': ValueMap,
                                             region: set<TreeNode>)
    requires AfterSelect(node, n, sel, vm, sort, other, converted, at, vm', region)
    ensures var keep := Filter(n.children, Selected(sel));
      var kept := ReduceEachBySet(keep, sel, vm, sort);
      && Forest(converted, region) && Vals(converted, region) == kept.nodes && Apart(converted, other)
      && vm' == kept.vm && |converted| == |keep|
      && other.val == AbsorbAll(Filter(n.children, Unselected(sel)), GetOrCreateOther(n.fullKey, n.children))
  {
    assert n.children[..|n.children|] == n.children;
    var kept := ReduceEachBySet(Filter(n.children, Selected(sel)), sel, vm, sort);
    SelectedForest(node.children, n.children, other, region, |n.children|, converted, at, kept.nodes);
  }

  /** Completes and reduces "Other" while the kept children stay as they are. */
  method ReplayOther(other: TreeNode, ghost converted: seq<TreeNode>, ghost reduced: seq<Node>,
                     ghost region: set<TreeNode>, sel: set<Path>, vm: ValueMap, sort: Sorter, ghost h: nat)
    returns (vm': ValueMap, ghost region': set<TreeNode>)
    requires other.Valid() && Forest(converted, region) && Vals(converted, region) == reduced && Apart(converted, other)
    requires NoOther(sel) && WellKeyed(FixOther(other.val, BOTH)) && Height(FixOther(other.val, BOTH)) < h
    modifies other.Repr
    ensures var r := ReduceBySet(FixOther(old(other.val), BOTH), sel, vm, sort);
      vm' == MarkOther(r.vm, r.node.fullKey) && Planted(converted, reduced, other, r.node, region')
    ensures region' == region + other.Repr && fresh(other.Repr - old(other.Repr))
    decreases h, 0
  {
    hide WellKeyed, NoOther, FixOther, ReduceBySet, ForestHeight;
    ghost var r0 := other.Repr;
    FixMissingDataOfOtherNode(other, BOTH);
    ghost var r1 := other.Repr;
    vm' := ReduceBySetRec(other, sel, vm, sort);
    assert other.Repr - r0 <= (other.Repr - r1) + (r1 - r0);
    if other.fullKey !in vm' {
      vm' := vm'[other.fullKey := Of(-1)];
    }
    region' := region + other.Repr;
    forall j | 0 <= j < |converted|
      ensures converted[j].Valid() && converted[j].val == reduced[j] && converted[j].Repr == old(converted[j].Repr)
      ensures converted[j].Repr !! other.Repr
    {
    }
    forall a, b | 0 <= a < b < |converted| ensures converted[a].Repr !! converted[b].Repr {
      assert old(converted[a].Repr) !! old(converted[b].Repr);
    }
    PlantedBeside(converted, reduced, other, region);
  }

  /** The part of the replay after its loop. */
  method FinishBySet(node: TreeNode, ghost n: Node, sel: set<Path>, ghost vm: ValueMap, sort: Sorter, other: TreeNode,
                     converted: seq<TreeNode>, ghost at: seq<nat>, vm1: ValueMap, ghost region: set<TreeNode>)
    returns (vm': ValueMap)
    requires n.children != [] && WellKeyed(n) && NoOther(sel) && other.Valid()
    requires AfterSelect(node, n, sel, vm, sort, other, converted, at, vm1, region)
    modifies node, other.Repr
    ensures node.Valid() && node.Repr <= {node} + region + other.Repr && fresh(other.Repr - old(other.Repr))
    ensures var r := ReduceBySet(n, sel, vm, sort);
      node.val == r.node && vm' == r.vm
    decreases Height(n), 4
  {
    hide SetLoop, WellKeyed, NoOther, ReduceBySet, ReduceEachBySet;
    ghost var kept := ReduceEachBySet(Filter(n.children, Selected(sel)), sel, vm, sort);
    AfterSelectForest(node, n, sel, vm, sort, other, converted, at, vm1, region);
    if |converted| == |node.children| {
      vm' := vm1;
      SetSorted(node, converted, kept.nodes, region, vm1, sort);
      ReduceAllSelected(n, sel, vm, sort);
    } else {
      vm' := FinishSomeSelected(node, n, sel, vm, sort, other, converted, vm1, region);
    }
  }

  method FinishSomeSelected(node: TreeNode, ghost n: Node, sel: set<Path>, ghost vm: ValueMap, sort: Sorter,
                            other: TreeNode, converted: seq<TreeNode>, vm1: ValueMap, ghost region: set<TreeNode>)
    returns (vm': ValueMap)
    requires n.children != [] && WellKeyed(n) && NoOther(sel) && other.Valid()
    requires |Filter(n.children, Selected(sel))| != |n.children|
    requires node !in region && node !in other.Repr && node.val == n
    requires node.val == Node(node.fullKey, node.key, node.objects, node.bytes, node.val.children)
    requires var kept := ReduceEachBySet(Filter(n.children, Selected(sel)), sel, vm, sort);
      && Forest(converted, region) && Vals(converted, region) == kept.nodes && vm1 == kept.vm
    requires Apart(converted, other)
    requires other.val == AbsorbAll(Filter(n.children, Unselected(sel)), GetOrCreateOther(n.fullKey, n.children))
    modifies node, other.Repr
    ensures node.Valid() && node.Repr <= {node} + region + other.Repr && fresh(other.Repr - old(other.Repr))
    ensures var r := ReduceBySet(n, sel, vm, sort);
      node.val == r.node && vm' == r.vm
    decreases Height(n), 3
  {
    hide NoOther, WellKeyed, ReduceEachBySet, ReduceBySet, AbsorbAll, Forest, Apart, Planted;
    ghost var drop := Filter(n.children, Unselected(sel));
    ghost var kept := ReduceEachBySet(Filter(n.children, Selected(sel)), sel, vm, sort);
    FilterFacts(n.children, Unselected(sel));
    OtherKeyed(n, n.children, drop, BOTH);
    OtherIsLower(n.fullKey, n.children, drop, BOTH);
    SelectableChildren(n, sel);
    ReduceSomeSelected(n, sel, vm, sort);
    ghost var region';
    ghost var r := ReduceBySet(FixOther(other.val, BOTH), sel, vm1, sort);
    vm', region' := ReplayOther(other, converted, kept.nodes, region, sel, vm1, sort, Height(n));
    var all := PushOther(converted, kept.nodes, other, r.node, region', n, sel, vm, sort);
    SetSorted(node, all, kept.nodes + [r.node], region', vm', sort);
  }

  /** `convertedChildren.push(otherNode)`, unless an "Other" node is there already. */
  method PushOther(converted: seq<TreeNode>, ghost reduced: seq<Node>, other: TreeNode, ghost val: Node,
                   ghost region: set<TreeNode>, ghost n: Node, ghost sel: set<Path>, ghost vm: ValueMap,
                   ghost sort: Sorter)
    returns (all: seq<TreeNode>)
    requires Planted(converted, reduced, other, val, region)
    requires reduced == ReduceEachBySet(Filter(n.children, Selected(sel)), sel, vm, sort).nodes
    requires forall c :: c in n.children && c.fullKey in sel ==> c.key != OTHER
    ensures Forest(all, region) && Vals(all, region) == reduced + [val]
  {
    hide Filter, ReduceEachBySet;
    FilterFacts(n.children, Selected(sel));
    SelectedKeys(Filter(n.children, Selected(sel)), sel, vm, sort);
    assert forall i :: 0 <= i < |converted| ==> (converted + [other])[i] == converted[i] && converted[i].Valid();
    var i := FindChild(converted, OTHER, reduced);
    all := if i == |converted| then converted + [other] else converted;
  }

  /** Helpers.reduceTreeBasedOnSelectedNodeSetRecursively. */
  method ReduceBySetRec(node: TreeNode, sel: set<Path>, vm: ValueMap, sort: Sorter) returns (vm': ValueMap)
    requires node.Valid() && WellKeyed(node.val) && NoOther(sel)
    modifies node.Repr
    ensures node.Valid() && fresh(node.Repr - old(node.Repr))
    ensures var r := ReduceBySet(old(node.val), sel, vm, sort);
      node.val == r.node && vm' == r.vm
    decreases Height(node.val), 6
  {
    hide AfterSelect, WellKeyed, NoOther;
    vm' := vm;
    if node.children != [] {
      ghost var n := node.val;
      ghost var at, region;
      var other, converted;
      ghost var r0 := node.Repr;
      other, converted, at, vm', region := SelectPhase(node, n, sel, vm, sort);
      ghost var r1 := other.Repr;
      vm' := FinishBySet(node, n, sel, vm, sort, other, converted, at, vm', region);
      assert node.Repr - r0 <= (region - r0) + (other.Repr - r1) + (r1 - r0);
    }
  }
}
