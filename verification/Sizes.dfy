/** Helpers.calculateSizeAtSpecificTree: the value of every node below a root, by full key. */
module Sizes {
  import opened Trees
  import opened Merge
  import opened TreeHeap

  /** Enters the nodes of a forest into a map, in preorder. */
  function SizesOf(cs: seq<Node>, m: Metric, vm: ValueMap): ValueMap
    decreases ForestHeight(cs), |cs|
  {
    if cs == [] then vm
    else
      TallerThanChild(cs, |cs| - 1);
      var c := cs[|cs| - 1];
      var before := SizesOf(cs[..|cs| - 1], m, vm);
      SizesOf(c.children, m, before[c.fullKey := Of(c.Value(m))])
  }

  method CalculateSizes(node: TreeNode, m: Metric, vm: ValueMap) returns (vm': ValueMap)
    requires node.Valid()
    ensures vm' == SizesOf(node.val.children, m, vm)
    decreases node.val
  {
    vm' := vm;
    ghost var cs := node.val.children;
    assert cs[..0] == [];
    for i := 0 to |node.children|
      invariant vm' == SizesOf(cs[..i], m, vm)
    {
      var c := node.children[i];
      assert cs[..i + 1][..i] == cs[..i];
      vm' := vm'[c.fullKey := Of(c.Value(m))];
      if c.children != [] {
        vm' := CalculateSizes(c, m, vm');
      }
    }
    assert cs[..|cs|] == cs;
  }

  method CalculateSizeAtSpecificTree(root: TreeNode, m: Metric) returns (vm: ValueMap)
    requires root.Valid()
    ensures vm == SizesOf(root.val.children, m, map[])
  {
    vm := CalculateSizes(root, m, map[]);
  }

  // ----- what the map says -----

  /** The entry for the path `q` below `p`: the value in the forest, or else what was there. */
  ghost predicate Entered(cs: seq<Node>, m: Metric, vm: ValueMap, vm': ValueMap, p: Path, q: Path) {
    if Present(cs, q) then p + q in vm' && vm'[p + q] == Of(ValueAt(cs, q, m))
    else (p + q in vm' <==> p + q in vm) && (p + q in vm' ==> vm'[p + q] == vm[p + q])
  }

  /** Only entries strictly below `p` are touched. */
  lemma {:induction false} SizesOutside(cs: seq<Node>, m: Metric, vm: ValueMap, p: Path, id: Path)
    requires KeyedUnder(cs, p) && !(p < id)
    ensures id in SizesOf(cs, m, vm) <==> id in vm
    ensures id in vm ==> SizesOf(cs, m, vm)[id] == vm[id]
    decreases ForestHeight(cs), |cs|
  {
    if cs != [] {
      TallerThanChild(cs, |cs| - 1);
      var c := cs[|cs| - 1];
      var init := cs[..|cs| - 1];
      KeyedUnderInit(cs, p);
      SizesOutside(init, m, vm, p, id);
      assert c in cs && p < c.fullKey;
      SizesOutside(c.children, m, SizesOf(init, m, vm)[c.fullKey := Of(c.Value(m))], c.fullKey, id);
    }
  }

  lemma {:induction false} KeyedUnderInit(cs: seq<Node>, p: Path)
    requires KeyedUnder(cs, p) && cs != []
    ensures KeyedUnder(cs[..|cs| - 1], p) && FindKey(cs[..|cs| - 1], cs[|cs| - 1].key) == |cs| - 1
  {
    var init := cs[..|cs| - 1];
    assert forall c :: c in init ==> c in cs;
    assert forall i :: 0 <= i < |init| ==> init[i] == cs[i];
  }

  lemma {:induction false} SizesEntered(cs: seq<Node>, m: Metric, vm: ValueMap, p: Path, q: Path)
    requires KeyedUnder(cs, p) && q != []
    ensures Entered(cs, m, vm, SizesOf(cs, m, vm), p, q)
    decreases ForestHeight(cs), |cs|
  {
    if cs != [] {
      TallerThanChild(cs, |cs| - 1);
      var c := cs[|cs| - 1];
      var init := cs[..|cs| - 1];
      KeyedUnderInit(cs, p);
      var own := SizesOf(init, m, vm)[c.fullKey := Of(c.Value(m))];
      SizesEntered(init, m, vm, p, q);
      assert cs == init + [c] && c in cs;
      LookupAppended(init, c, q, m);
      PathBelow(p, c.key, q);
      if q[0] == c.key && |q| > 1 {
        SizesEntered(c.children, m, own, c.fullKey, q[1..]);
      } else {
        SizesOutside(c.children, m, own, c.fullKey, p + q);
      }
    }
  }

  /** The map has exactly the paths strictly below the root, each with its value. */
  lemma {:induction false} SizesExact(root: Node, m: Metric)
    requires WellKeyed(root)
    ensures var vm := SizesOf(root.children, m, map[]);
      && (forall id :: id in vm ==> root.fullKey < id)
      && (forall q :: q != [] ==> Entered(root.children, m, map[], vm, root.fullKey, q))
  {
    var vm := SizesOf(root.children, m, map[]);
    forall id | id in vm ensures root.fullKey < id {
      if !(root.fullKey < id) {
        SizesOutside(root.children, m, map[], root.fullKey, id);
      }
    }
    forall q: Path | q != [] ensures Entered(root.children, m, map[], vm, root.fullKey, q) {
      SizesEntered(root.children, m, map[], root.fullKey, q);
    }
  }
}
