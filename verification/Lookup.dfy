/**
 Finding nodes by their full key: Helpers.findDescendentByIds, findAncestorsOfNodeByIds,
 findParentOfNodeById and getClosestDisplayableNode.
 */
module Lookup {
  import opened Basics
  import opened Trees
  import opened TreeHeap

  // ----- on tree values -----

  /** The node reached from `n` by a path of keys. */
  function Find(n: Node, q: Path): Option<Node>
    decreases q
  {
    if q == [] then Some(n)
    else
      var i := FindKey(n.children, q[0]);
      if i < |n.children| then Find(n.children[i], q[1..]) else None
  }

  /** `x` is `n` or one of its descendants. */
  ghost predicate InTree(n: Node, x: Node) {
    x == n || exists c :: c in n.children && InTree(c, x)
  }

  /** What is found under a path carries that path in its full key, and is in the tree. */
  lemma {:induction false} FoundHasPath(n: Node, q: Path)
    requires WellKeyed(n) && Find(n, q).Some?
    ensures Find(n, q).value.fullKey == n.fullKey + q
    ensures WellKeyed(Find(n, q).value) && InTree(n, Find(n, q).value)
    decreases q
  {
    if q == [] {
      assert n.fullKey + q == n.fullKey;
    } else {
      var c := n.children[FindKey(n.children, q[0])];
      assert c in n.children;
      FoundHasPath(c, q[1..]);
      assert n.fullKey + q == n.fullKey + [q[0]] + q[1..];
    }
  }

  lemma {:induction false} DescendantPath(n: Node, x: Node)
    requires WellKeyed(n) && InTree(n, x)
    ensures |n.fullKey| <= |x.fullKey| && x.fullKey[..|n.fullKey|] == n.fullKey
    ensures Find(n, x.fullKey[|n.fullKey|..]) == Some(x)
  {
    if x != n {
      var c :| c in n.children && InTree(c, x);
      DescendantPath(c, x);
      var q := x.fullKey[|n.fullKey|..];
      assert c.fullKey[|n.fullKey|] == c.key;
      assert x.fullKey[..|c.fullKey|][|n.fullKey|] == c.key;
      assert q[0] == c.key && q[1..] == x.fullKey[|c.fullKey|..];
      assert x.fullKey[..|n.fullKey|] == x.fullKey[..|c.fullKey|][..|n.fullKey|];
      var i :| 0 <= i < |n.children| && n.children[i] == c;
      FindKeyUnique(n.children, i);
    }
  }

  /** A node is found by its full key, and only by it. */
  lemma {:induction false} FindByFullKey(root: Node, x: Node, q: Path)
    requires WellKeyed(root) && InTree(root, x)
    ensures Find(root, q) == Some(x) <==> x.fullKey == root.fullKey + q
  {
    DescendantPath(root, x);
    if Find(root, q) == Some(x) {
      FoundHasPath(root, q);
    }
    if x.fullKey == root.fullKey + q {
      assert x.fullKey[|root.fullKey|..] == q;
    }
  }

  /** The deepest node with children on the way along `q`, or the start. */
  function Closest(n: Node, q: Path): Node
    decreases q
  {
    if q == [] then n
    else
      var i := FindKey(n.children, q[0]);
      if i < |n.children| && n.children[i].children != [] then Closest(n.children[i], q[1..]) else n
  }

  /** Every node strictly below `n` on the first `k` steps along `q` exists and has children. */
  ghost predicate Displayable(n: Node, q: Path, k: nat)
    requires k <= |q|
  {
    forall j :: 1 <= j <= k ==> Find(n, q[..j]).Some? && Find(n, q[..j]).value.children != []
  }

  /** Closest goes as far along the path as nodes with children reach, and no further. */
  lemma {:induction false} ClosestIsDeepest(n: Node, q: Path) returns (k: nat)
    ensures k <= |q| && Find(n, q[..k]) == Some(Closest(n, q)) && Displayable(n, q, k)
    ensures k < |q| ==> !Displayable(n, q, k + 1)
    decreases q
  {
    k := 0;
    if q != [] {
      var i := FindKey(n.children, q[0]);
      assert q[..1] == [q[0]] && [q[0]][1..] == [];
      if i < |n.children| && n.children[i].children != [] {
        var c := n.children[i];
        var k' := ClosestIsDeepest(c, q[1..]);
        k := k' + 1;
        forall j | 1 <= j <= |q| ensures Find(n, q[..j]) == Find(c, q[1..][..j - 1]) {
          assert q[..j][1..] == q[1..][..j - 1];
        }
        assert Find(n, q[..k]) == Find(c, q[1..][..k']);
        forall j | 1 <= j <= k ensures Find(n, q[..j]).Some? && Find(n, q[..j]).value.children != [] {
          if j > 1 {
            assert Find(c, q[1..][..j - 1]).Some? && Find(c, q[1..][..j - 1]).value.children != [];
          }
        }
        if k < |q| {
          var j :| 1 <= j <= k' + 1 && !(Find(c, q[1..][..j]).Some? && Find(c, q[1..][..j]).value.children != []);
          assert Find(n, q[..j + 1]) == Find(c, q[1..][..j]);
        }
      } else {
        assert Find(n, q[..1]) == if i < |n.children| then Some(n.children[i]) else None;
      }
    }
  }

  /** How many keys of a path lead to nodes. */
  function Leads(n: Node, q: Path): (k: nat)
    ensures k <= |q|
    decreases q
  {
    if q == [] then 0
    else
      var i := FindKey(n.children, q[0]);
      if i < |n.children| then 1 + Leads(n.children[i], q[1..]) else 0
  }

  lemma {:induction false} LeadsTo(n: Node, q: Path, k: nat)
    requires k <= |q| && Find(n, q[..k]).Some? && (k < |q| ==> Find(n, q[..k + 1]).None?)
    ensures Leads(n, q) == k
    decreases q
  {
    if q != [] {
      var i := FindKey(n.children, q[0]);
      if k == 0 {
        assert q[..1] == [q[0]] && [q[0]][1..] == [];
      } else {
        assert q[..k][0] == q[0] && q[..k][1..] == q[1..][..k - 1];
        if k < |q| {
          assert q[..k + 1][1..] == q[1..][..k];
        }
        LeadsTo(n.children[i], q[1..], k - 1);
      }
    }
  }

  // ----- on tree objects -----

  /** The object `x` is reached from `root` by the path `q`. */
  ghost predicate Reaches(root: TreeNode, q: Path, x: TreeNode)
    requires root.Valid()
    reads root, root.Repr
    decreases q
  {
    if q == [] then x == root
    else
      var i := FindKey(root.val.children, q[0]);
      i < |root.children| && Reaches(root.children[i], q[1..], x)
  }

  lemma {:induction false} ReachedIsFound(root: TreeNode, q: Path, x: TreeNode)
    requires root.Valid() && Reaches(root, q, x)
    ensures x in root.Repr && x.Repr <= root.Repr && x.Valid() && Find(root.val, q) == Some(x.val)
    decreases q
  {
    if q != [] {
      ReachedIsFound(root.children[FindKey(root.val.children, q[0])], q[1..], x);
    }
  }

  lemma {:induction false} ReachStep(root: TreeNode, q: Path, x: TreeNode, k: Key)
    requires root.Valid() && Reaches(root, q, x) && x.Valid()
    ensures var i := FindKey(x.val.children, k);
      && (i < |x.children| ==> Reaches(root, q + [k], x.children[i]))
      && (i == |x.children| ==> Find(root.val, q + [k]).None?)
    decreases q
  {
    ReachedIsFound(root, q, x);
    if q == [] {
      assert (q + [k])[1..] == [];
    } else {
      assert (q + [k])[1..] == q[1..] + [k] && (q + [k])[0] == q[0];
      ReachStep(root.children[FindKey(root.val.children, q[0])], q[1..], x, k);
    }
  }

  lemma {:induction false} NotFoundPrefix(n: Node, q: Path, k: nat)
    requires k <= |q| && Find(n, q[..k]).None?
    ensures Find(n, q).None?
    decreases q
  {
    if q != [] && k > 0 {
      var i := FindKey(n.children, q[0]);
      assert q[..k][0] == q[0] && q[..k][1..] == q[1..][..k - 1];
      if i < |n.children| {
        NotFoundPrefix(n.children[i], q[1..], k - 1);
      }
    }
  }

  /** The path below the root that a full key stands for; the first key is the root's. */
  function Below(ids: Path): Path {
    if ids == [] then [] else ids[1..]
  }

  /** `children.find(x => x.key === q[i])` in the node reached by the first `i` keys of a path. */
  method NextOnPath(root: TreeNode, q: Path, i: nat, cur: TreeNode) returns (child: TreeNode?)
    requires root.Valid() && i < |q| && Reaches(root, q[..i], cur)
    ensures Find(root.val, q[..i]) == Some(cur.val) && cur.Valid()
    ensures child == null <==> FindKey(cur.val.children, q[i]) == |cur.val.children|
    ensures child == null ==> Find(root.val, q[..i + 1]).None?
    ensures child != null ==> child.Valid() && Reaches(root, q[..i + 1], child)
    ensures child != null ==>
      child.val == cur.val.children[FindKey(cur.val.children, q[i])] && Find(root.val, q[..i + 1]) == Some(child.val)
  {
    hide Find;
    ReachedIsFound(root, q[..i], cur);
    ReachStep(root, q[..i], cur, q[i]);
    assert q[..i] + [q[i]] == q[..i + 1];
    var j := FindChild(cur.children, q[i], cur.val.children);
    if j == |cur.children| {
      return null;
    }
    ReachedIsFound(root, q[..i + 1], cur.children[j]);
    return cur.children[j];
  }

  /** Helpers.findDescendentByIds. */
  method FindDescendentByIds(root: TreeNode, ids: Path) returns (r: TreeNode?)
    requires root.Valid()
    ensures r == null <==> Find(root.val, Below(ids)).None?
    ensures r != null ==> Reaches(root, Below(ids), r) && r.Valid() && Some(r.val) == Find(root.val, Below(ids))
  {
    hide Reaches, Find;
    var q := Below(ids);
    StartClosest(root, q);
    assert q[..0] == [];
    var cur: TreeNode := root;
    var i := 0;
    while i < |q|
      invariant 0 <= i <= |q| && cur.Valid() && Reaches(root, q[..i], cur)
    {
      var child := NextOnPath(root, q, i, cur);
      if child == null {
        NotFoundPrefix(root.val, q, i + 1);
        return null;
      }
      cur := child;
      i := i + 1;
    }
    assert q[..i] == q;
    ReachedIsFound(root, q, cur);
    return cur;
  }

  /** Nodes whose child list is null, and not merely empty. */
  ghost predicate Childless(nulls: set<TreeNode>)
    reads nulls
  {
    forall x :: x in nulls ==> x.children == []
  }

  /** The path leads to a node with a null child list, and from there nowhere. */
  ghost predicate EndsAtNull(root: TreeNode, q: Path, nulls: set<TreeNode>)
    requires root.Valid()
    reads root, root.Repr, nulls
  {
    exists x :: x in nulls && Reaches(root, q, x)
  }

  /** The objects from the root down along a path. */
  ghost predicate IsChain(root: TreeNode, q: Path, chain: seq<TreeNode>)
    requires root.Valid()
    reads root, root.Repr
  {
    |chain| == |q| + 1 && forall j :: 0 <= j < |chain| ==> Reaches(root, q[..j], chain[j])
  }

  /**
   Helpers.findAncestorsOfNodeByIds: the nodes from the root down to the one with these ids. Where only the last
   key leads nowhere and the node before it has a null child list, the chain up to that node is returned. In all
   other cases there is no result: the error message is built from an undefined entry, which throws.
   */
  method FindAncestorsOfNodeByIds(root: TreeNode, ids: Path, nulls: set<TreeNode>) returns (r: Option<seq<TreeNode>>)
    requires root.Valid() && Childless(nulls)
    ensures var q := Below(ids);
      if Find(root.val, q).Some? then r.Some? && IsChain(root, q, r.value)
      else if EndsAtNull(root, q[..|q| - 1], nulls) then r.Some? && IsChain(root, q[..|q| - 1], r.value)
      else r.None?
  {
    hide Reaches, Find;
    var q := Below(ids);
    var chain: seq<TreeNode> := [root];
    var i := 0;
    StartClosest(root, q);
    assert q[..0] == [];
    while i < |q|
      invariant 0 <= i <= |q| && |chain| == i + 1 && chain[i].Valid()
      invariant forall j :: 0 <= j <= i ==> Reaches(root, q[..j], chain[j])
    {
      var node := chain[i];
      var child := NextOnPath(root, q, i, node);
      if child == null {
        NotFoundPrefix(root.val, q, i + 1);
        assert forall k :: 0 <= k <= i ==> q[..i][..k] == q[..k];
        if i == |q| - 1 {
          NullHere(root, q[..i], node, nulls);
          return if node in nulls then Some(chain) else None;
        }
        NoNullBeyond(root, q, i + 1, nulls);
        return None;
      }
      chain := chain + [child];
      i := i + 1;
    }
    assert q[..i] == q;
    ReachedIsFound(root, q, chain[i]);
    return Some(chain);
  }

  lemma {:induction false} NullHere(root: TreeNode, q: Path, x: TreeNode, nulls: set<TreeNode>)
    requires root.Valid() && Reaches(root, q, x)
    ensures EndsAtNull(root, q, nulls) <==> x in nulls
  {
    forall y | y in nulls && Reaches(root, q, y) ensures y == x {
      ReachedOnce(root, q, x, y);
    }
  }

  lemma {:induction false} NoNullBeyond(root: TreeNode, q: Path, k: nat, nulls: set<TreeNode>)
    requires root.Valid() && k < |q| && Find(root.val, q[..k]).None?
    ensures !EndsAtNull(root, q[..|q| - 1], nulls)
  {
    var up := q[..|q| - 1];
    assert up[..k] == q[..k];
    NotFoundPrefix(root.val, up, k);
    forall y | y in nulls ensures !Reaches(root, up, y) {
      if Reaches(root, up, y) {
        ReachedIsFound(root, up, y);
      }
    }
  }

  /** A path reaches one object at most. */
  lemma {:induction false} ReachedOnce(root: TreeNode, q: Path, x: TreeNode, y: TreeNode)
    requires root.Valid() && Reaches(root, q, x) && Reaches(root, q, y)
    ensures x == y
    decreases q
  {
    if q != [] {
      ReachedOnce(root.children[FindKey(root.val.children, q[0])], q[1..], x, y);
    }
  }

  /**
   Helpers.findParentOfNodeById: the object one key above. A path that leads through a node with a null child
   list ends there, and that node is returned.
   */
  method FindParentOfNodeById(root: TreeNode, ids: Path, nulls: set<TreeNode>) returns (r: TreeNode?)
    requires root.Valid() && Childless(nulls)
    ensures var q := Below(ids);
      var up := if q == [] then [] else q[..|q| - 1];
      var k := Leads(root.val, up);
      && (r == null <==> k < |up| && !EndsAtNull(root, up[..k], nulls))
      && (r != null ==> r.Valid() && Reaches(root, up[..k], r))
  {
    hide Reaches, Find, Leads, EndsAtNull;
    var q := Below(ids);
    var up := if q == [] then [] else q[..|q| - 1];
    StartClosest(root, up);
    assert up[..0] == [];
    var cur: TreeNode := root;
    ghost var k := 0;
    var i := 0;
    while i < |up|
      invariant 0 <= k <= i <= |up| && cur.Valid() && Reaches(root, up[..k], cur)
      invariant k < i ==> cur in nulls && Find(root.val, up[..k + 1]).None?
    {
      if cur in nulls {
        NowhereBelow(root, up, k, cur);
      } else {
        var child := NextOnPath(root, up, i, cur);
        if child == null {
          ParentAt(root, up, k, cur, nulls);
          return null;
        }
        cur, k := child, k + 1;
      }
      i := i + 1;
    }
    ParentAt(root, up, k, cur, nulls);
    return cur;
  }

  lemma {:induction false} NowhereBelow(root: TreeNode, q: Path, k: nat, x: TreeNode)
    requires root.Valid() && k < |q| && Reaches(root, q[..k], x) && x.children == []
    ensures Find(root.val, q[..k + 1]).None?
  {
    hide Reaches, Find;
    ReachedIsFound(root, q[..k], x);
    ReachStep(root, q[..k], x, q[k]);
    assert q[..k] + [q[k]] == q[..k + 1];
  }

  /** The path leads to `x` and no further. */
  lemma {:induction false} ParentAt(root: TreeNode, q: Path, k: nat, x: TreeNode, nulls: set<TreeNode>)
    requires root.Valid() && k <= |q| && Reaches(root, q[..k], x) && (k < |q| ==> Find(root.val, q[..k + 1]).None?)
    ensures Leads(root.val, q) == k && (EndsAtNull(root, q[..k], nulls) <==> x in nulls)
  {
    hide Reaches, Find, Leads, EndsAtNull;
    ReachedIsFound(root, q[..k], x);
    LeadsTo(root.val, q, k);
    NullHere(root, q[..k], x, nulls);
  }

  /** The parent found for a node of the tree has that node among its children. */
  lemma {:induction false} ParentHasChild(root: Node, x: Node)
    requires WellKeyed(root) && InTree(root, x) && x != root
    ensures |root.fullKey| < |x.fullKey|
    ensures var q := x.fullKey[|root.fullKey|..];
      Find(root, q[..|q| - 1]).Some? && x in Find(root, q[..|q| - 1]).value.children
  {
    DescendantPath(root, x);
    var q := x.fullKey[|root.fullKey|..];
    FindLast(root, q);
  }

  lemma {:induction false} FindLast(n: Node, q: Path)
    requires q != [] && Find(n, q).Some?
    ensures Find(n, q[..|q| - 1]).Some? && Find(n, q).value in Find(n, q[..|q| - 1]).value.children
    decreases q
  {
    var c := n.children[FindKey(n.children, q[0])];
    if |q| == 1 {
      assert q[1..] == [] && q[..0] == [];
    } else {
      FindLast(c, q[1..]);
      assert q[..|q| - 1][1..] == q[1..][..|q[1..]| - 1];
    }
  }

  /** Helpers.getClosestDisplayableNode for a node with full key `ids`. */
  method GetClosestDisplayableNode(ids: Path, root: TreeNode) returns (r: TreeNode)
    requires root.Valid()
    ensures r.Valid() && r.val == Closest(root.val, Below(ids))
    ensures exists k :: 0 <= k <= |Below(ids)| && Reaches(root, Below(ids)[..k], r)
  {
    hide Reaches, Closest;
    var q := Below(ids);
    r := root;
    StartClosest(root, q);
    assert q[..0] == [] && q[0..] == q;
    if root.children == [] {
      return;
    }
    var i := 0;
    while i < |q|
      invariant 0 <= i <= |q| && r.Valid() && Reaches(root, q[..i], r)
      invariant Closest(root.val, q) == Closest(r.val, q[i..])
    {
      ReachStep(root, q[..i], r, q[i]);
      ClosestStep(r.val, q, i);
      assert q[..i] + [q[i]] == q[..i + 1];
      var j := FindChild(r.children, q[i], r.val.children);
      if j == |r.children| || r.children[j].children == [] {
        break;
      }
      r := r.children[j];
      i := i + 1;
    }
    ClosestEnds(r.val);
    assert i == |q| ==> q[i..] == [];
  }

  /** Where every node on the way has children, the closest node is the one at the end. */
  lemma {:induction false} ClosestAll(n: Node, q: Path)
    requires Displayable(n, q, |q|)
    ensures Find(n, q) == Some(Closest(n, q))
  {
    var k := ClosestIsDeepest(n, q);
    if k < |q| {
      assert Displayable(n, q, k + 1);
    }
    assert q[..k] == q;
  }

  lemma {:induction false} ClosestPrefix(n: Node, q: Path, k: nat)
    requires k <= |q| && Displayable(n, q, k)
    ensures Find(n, q[..k]) == Some(Closest(n, q[..k]))
  {
    assert forall j :: 0 <= j <= k ==> q[..k][..j] == q[..j];
    ClosestAll(n, q[..k]);
  }

  lemma {:induction false} DisplayableStart(n: Node, q: Path)
    ensures Displayable(n, q, 0)
  {
  }

  lemma {:induction false} DisplayableNext(n: Node, q: Path, k: nat)
    requires 0 < k <= |q| && Displayable(n, q, k - 1) && Find(n, q[..k]).Some?
    ensures Displayable(n, q, k) <==> Find(n, q[..k]).value.children != []
  {
  }

  /** All of `ids` is found, through nodes with children, but the node found has another full key. */
  ghost predicate OtherNode(root: Node, ids: Path) {
    var q := Below(ids);
    q != [] && Displayable(root, q, |q|) && Find(root, q).Some? && Find(root, q).value.fullKey != ids
  }

  /**
   Helpers.getClosestDisplayableNode2 (and its equal, getClosestDisplayableNodeOld): walks one node too
   far, remembers the parent and compares ids at the end. The result is the closest displayable node, or the
   one above it where the ids do not agree with the path.
   */
  method GetClosestDisplayableNode2(ids: Path, root: TreeNode) returns (r: TreeNode)
    requires root.Valid()
    ensures var q := Below(ids);
      r.Valid() && r.val == Closest(root.val, if OtherNode(root.val, ids) then q[..|q| - 1] else q)
    ensures exists k :: 0 <= k <= |Below(ids)| && Reaches(root, Below(ids)[..k], r)
  {
    hide Reaches, Closest, Find, Displayable;
    var q := Below(ids);
    DisplayableStart(root.val, q);
    var closest: TreeNode, parent: TreeNode := root, root;
    StartClosest(root, q);
    var i := 0;
    ghost var up := 0;
    assert q[..0] == [] && q[0..] == q;
    while i < |q|
      invariant 0 <= up <= i <= |q| && closest.Valid() && Reaches(root, q[..i], closest)
      invariant parent.Valid() && Reaches(root, q[..up], parent) && Displayable(root.val, q, up)
      invariant i == 0 ==> parent == closest
      invariant i > 0 ==> up == i - 1
      invariant closest.children != [] ==> Displayable(root.val, q, i)
      invariant closest.children != [] ==> Closest(root.val, q) == Closest(closest.val, q[i..])
      invariant closest.children == [] ==> Closest(root.val, q) == parent.val
    {
      var found := NextOnPath(root, q, i, closest);
      if closest.children == [] {
        NotDisplayable(root.val, q, i);
        return parent;
      }
      ClosestStep(closest.val, q, i);
      parent, up := closest, i;
      if found == null {
        NotDisplayable(root.val, q, i);
        return parent;
      }
      closest := found;
      i := i + 1;
      DisplayableNext(root.val, q, i);
    }
    assert q[..i] == q && q[i..] == [];
    ReachedIsFound(root, q, closest);
    ClosestEnds(closest.val);
    if closest.fullKey == ids && closest.children != [] {
      return closest;
    }
    if up < i {
      DisplayableNext(root.val, q, i);
      ReachedIsFound(root, q[..up], parent);
      ClosestPrefix(root.val, q, up);
    }
    return parent;
  }

  lemma {:induction false} NotDisplayable(n: Node, q: Path, i: nat)
    requires i < |q|
    requires Find(n, q[..i + 1]).None? || (i > 0 && Find(n, q[..i]).Some? && Find(n, q[..i]).value.children == [])
    ensures !Displayable(n, q, |q|)
  {
    if Find(n, q[..i + 1]).None? {
      assert 1 <= i + 1 <= |q|;
    }
  }

  /** In a well-keyed tree whose root has the first of the ids, both versions agree. */
  lemma {:induction false} NoOtherNode(root: Node, ids: Path)
    requires WellKeyed(root) && ids != [] && root.fullKey == ids[..1]
    ensures !OtherNode(root, ids)
  {
    var q := Below(ids);
    if Find(root, q).Some? {
      FoundHasPath(root, q);
      assert ids == ids[..1] + q;
    }
  }

  lemma {:induction false} StartClosest(root: TreeNode, q: Path)
    requires root.Valid()
    ensures Reaches(root, [], root) && (root.children == [] ==> Closest(root.val, q) == root.val)
  {
  }

  lemma {:induction false} ClosestEnds(n: Node)
    ensures Closest(n, []) == n
  {
  }

  lemma {:induction false} ClosestStep(n: Node, q: Path, i: nat)
    requires i < |q|
    ensures var j := FindKey(n.children, q[i]);
      Closest(n, q[i..]) ==
      if j < |n.children| && n.children[j].children != [] then Closest(n.children[j], q[i + 1..]) else n
  {
    assert q[i..][1..] == q[i + 1..];
  }
}
