/** DataInitializer.handleMissingData on tree objects that are changed in place. */
module MissingDataHeap {
  import opened Trees
  import opened Reduce
  import opened MissingData
  import opened TreeHeap

  /** The children when the first `i` of them have been handled. */
  ghost function HandledUpTo(cs: seq<Node>, i: nat): seq<Node>
    requires i <= |cs|
  {
    HandleMissingEach(cs[..i]) + cs[i..]
  }

  lemma {:induction false} HandledStep(cs: seq<Node>, i: nat)
    requires i < |cs|
    ensures |HandledUpTo(cs, i)| == |cs| && HandledUpTo(cs, i)[i] == cs[i]
    ensures HandledUpTo(cs, i)[i := HandleMissing(cs[i])] == HandledUpTo(cs, i + 1)
  {
    assert cs[..i + 1][..i] == cs[..i];
    assert HandleMissingEach(cs[..i + 1]) == HandleMissingEach(cs[..i]) + [HandleMissing(cs[i])];
  }

  lemma {:induction false} HandledEnds(cs: seq<Node>)
    ensures HandledUpTo(cs, 0) == cs && HandledUpTo(cs, |cs|) == HandleMissingEach(cs)
  {
    assert cs[..|cs|] == cs;
  }

  /** Handles child `i` when the children before it have been handled. */
  method HandleChild(node: TreeNode, i: nat, ghost n: Node)
    requires node.Valid() && i < |n.children| && node.val == n.(children := HandledUpTo(n.children, i))
    modifies node.Repr
    ensures node.Valid() && fresh(node.Repr - old(node.Repr)) && node.children == old(node.children)
    ensures node.val == n.(children := HandledUpTo(n.children, i + 1))
    decreases Height(n), 0
  {
    HandledStep(n.children, i);
    TallerThanChild(n.children, i);
    HandleMissingDataRecursively(node.children[i]);
    node.Refresh(i);
  }

  /** The loop of handleMissingDataRecursively over the children. */
  method HandleChildren(node: TreeNode, ghost n: Node)
    requires node.Valid() && node.val == n
    modifies node.Repr
    ensures node.Valid() && fresh(node.Repr - old(node.Repr))
    ensures node.val == n.(children := HandleMissingEach(n.children))
    decreases Height(n), 1
  {
    HandledEnds(n.children);
    hide HandledUpTo, HandleMissingEach;
    var i := 0;
    while i < |node.children|
      invariant 0 <= i <= |n.children| == |node.children|
      invariant node.Valid() && fresh(node.Repr - old(node.Repr))
      invariant node.val == n.(children := HandledUpTo(n.children, i))
    {
      HandleChild(node, i, n);
      i := i + 1;
    }
    assert i == |n.children|;
  }

  /** The inner function of DataInitializer.handleMissingData. */
  method HandleMissingDataRecursively(node: TreeNode)
    requires node.Valid()
    modifies node.Repr
    ensures node.Valid() && fresh(node.Repr - old(node.Repr))
    ensures node.val == HandleMissing(old(node.val))
    decreases Height(node.val), 3
  {
    ghost var n := node.val;
    if node.children == [] {
      return;
    }
    var bytes := SumOfChildren(node, Bytes);
    var objects := SumOfChildren(node, Objects);
    var dBytes, dObjects := node.bytes - bytes, node.objects - objects;
    if dBytes < 0 || dObjects < 0 {
      return;
    }
    CompleteNode(node, n, dObjects, dBytes);
  }

  method CompleteNode(node: TreeNode, ghost n: Node, dObjects: int, dBytes: int)
    requires node.Valid() && node.val == n && n.children != [] && dObjects >= 0 && dBytes >= 0
    requires dBytes == n.bytes - Sum(n.children, Bytes) && dObjects == n.objects - Sum(n.children, Objects)
    modifies node.Repr
    ensures node.Valid() && fresh(node.Repr - old(node.Repr))
    ensures node.val == HandleMissing(n)
    decreases Height(n), 2
  {
    HandleMissingCase(n, dObjects, dBytes);
    hide HandleMissing, HandleMissingEach, OtherRaised, Sum, ForestHeight;
    ghost var r0 := node.Repr;
    HandleChildren(node, n);
    ghost var r1 := node.Repr;
    if dBytes != 0 || dObjects != 0 {
      RaiseOtherChild(node, dObjects, dBytes, Height(n));
      assert node.Repr - r0 <= (node.Repr - r1) + (r1 - r0);
    }
  }

  /** The cases of HandleMissing in which no child sum is too large. */
  lemma {:induction false} HandleMissingCase(n: Node, dObjects: int, dBytes: int)
    requires n.children != [] && dObjects >= 0 && dBytes >= 0
    requires dBytes == n.bytes - Sum(n.children, Bytes) && dObjects == n.objects - Sum(n.children, Objects)
    ensures var handled := n.(children := HandleMissingEach(n.children));
      HandleMissing(n) == if dBytes == 0 && dObjects == 0 then handled else OtherRaised(handled, dObjects, dBytes)
  {
    HandleMissingStep(n);
    hide HandleMissing, HandleMissingEach, Sum;
  }

  /** A node after its "Other" child has taken in what was missing. */
  ghost function OtherRaised(n: Node, dObjects: int, dBytes: int): Node {
    var i := FindKey(n.children, OTHER);
    if i < |n.children| then n.(children := n.children[i := HandleMissing(n.children[i].Plus(dObjects, dBytes))])
    else n.(children := n.children + [EmptyOther(n.fullKey).Plus(dObjects, dBytes)])
  }

  /** Adds what is missing to the "Other" child and revisits it if it was there before. */
  method RaiseOtherChild(node: TreeNode, dObjects: int, dBytes: int, ghost h: nat)
    requires node.Valid() && node.children != [] && Height(node.val) <= h
    modifies node.Repr
    ensures node.Valid() && fresh(node.Repr - old(node.Repr))
    ensures node.val == OtherRaised(old(node.val), dObjects, dBytes)
    decreases h, 1
  {
    ghost var n, i := node.val, FindKey(node.val.children, OTHER);
    var other, created := GetOrCreateOtherNode(node);
    AddToChild(node, i, other, dObjects, dBytes);
    if !created {
      ReplacedHeight(n.children, i, n.children[i].Plus(dObjects, dBytes));
      RevisitOther(node, i, other, h);
    }
  }

  method AddToChild(node: TreeNode, ghost i: nat, child: TreeNode, dObjects: int, dBytes: int)
    requires node.Valid() && i < |node.children| && child == node.children[i]
    modifies node.Repr
    ensures node.Valid() && node.Repr == old(node.Repr) && node.children == old(node.children)
    ensures var n := old(node.val);
      node.val == n.(children := n.children[i := n.children[i].Plus(dObjects, dBytes)])
  {
    child.AddMetrics(dObjects, dBytes);
    node.Refresh(i);
  }

  method RevisitOther(node: TreeNode, ghost i: nat, other: TreeNode, ghost h: nat)
    requires node.Valid() && i < |node.children| && other == node.children[i] && Height(node.val) <= h
    modifies node.Repr
    ensures node.Valid() && fresh(node.Repr - old(node.Repr))
    ensures var n := old(node.val);
      node.val == n.(children := n.children[i := HandleMissing(n.children[i])])
    decreases h, 0
  {
    TallerThanChild(node.val.children, i);
    HandleMissingDataRecursively(other);
    node.Refresh(i);
  }

  /** DataInitializer.handleMissingData: completes every tree in turn. */
  method HandleMissingData(roots: seq<TreeNode>, ghost region: set<TreeNode>) returns (ghost region': set<TreeNode>)
    requires Forest(roots, region)
    modifies region
    ensures Forest(roots, region') && region <= region' && fresh(region' - region)
    ensures forall i :: 0 <= i < |roots| ==> roots[i].val == HandleMissing(old(roots[i].val))
  {
    region' := region;
    var i := 0;
    while i < |roots|
      invariant 0 <= i <= |roots|
      invariant Forest(roots, region') && region <= region' && fresh(region' - region)
      invariant forall j :: 0 <= j < i ==> roots[j].val == HandleMissing(old(roots[j].val))
      invariant forall j :: i <= j < |roots| ==> roots[j].val == old(roots[j].val)
    {
      region' := HandleTree(roots, i, region');
      i := i + 1;
    }
  }

  method HandleTree(roots: seq<TreeNode>, k: nat, ghost region: set<TreeNode>) returns (ghost region': set<TreeNode>)
    requires Forest(roots, region) && k < |roots|
    modifies region
    ensures Forest(roots, region') && region <= region' && fresh(region' - region)
    ensures roots[k].val == HandleMissing(old(roots[k].val))
    ensures forall j :: 0 <= j < |roots| && j != k ==> roots[j].val == old(roots[j].val)
  {
    forall i | 0 <= i < |roots| && i != k ensures roots[i].Repr !! roots[k].Repr {
      if i < k {} else {}
    }
    HandleMissingDataRecursively(roots[k]);
    forall i | 0 <= i < |roots| && i != k
      ensures roots[i].Valid() && roots[i].val == old(roots[i].val) && roots[i].Repr == old(roots[i].Repr)
    {
    }
    region' := region + roots[k].Repr;
  }
}
