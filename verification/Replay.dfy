/**
 The recorded ids are exactly the nodes that were kept, kept nodes are untouched, and replaying
 the selection keeps exactly the selected paths of the other tree, within the same bound.
 */
module Replay {
  import opened Permutations
  import opened Trees
  import opened Merge
  import opened Reduce
  import opened Conservation
  import opened Selection

  // ----- heads of reduced nodes -----

  ghost predicate SameHeads(cs: seq<Node>, rs: seq<Node>) {
    |rs| == |cs| && forall i :: 0 <= i < |cs| ==> rs[i].SameHead(cs[i])
  }

  lemma {:induction false} ReduceEachHeads(cs: seq<Node>, m: Metric, vm: ValueMap, sort: Sorter)
    ensures SameHeads(cs, ReduceEach(cs, m, vm, sort).nodes)
  {
    if cs != [] {
      var n := |cs| - 1;
      ReduceEachHeads(cs[..n], m, vm, sort);
      ReduceTreeHead(cs[n], m, ReduceEach(cs[..n], m, vm, sort).vm, sort);
    }
  }

  lemma {:induction false} ReduceEachBySetHeads(cs: seq<Node>, sel: set<Path>, vm: ValueMap, sort: Sorter)
    ensures SameHeads(cs, ReduceEachBySet(cs, sel, vm, sort).nodes)
  {
    if cs != [] {
      var n := |cs| - 1;
      ReduceEachBySetHeads(cs[..n], sel, vm, sort);
      ReduceBySetHead(cs[n], sel, ReduceEachBySet(cs[..n], sel, vm, sort).vm, sort);
    }
  }

  /** A key that no node has is not found among their reductions either. */
  lemma {:induction false} KeyStaysAbsent(cs: seq<Node>, rs: seq<Node>, k: Key)
    requires SameHeads(cs, rs) && forall c :: c in cs ==> c.key != k
    ensures FindKey(rs, k) == |rs|
  {
    forall i | 0 <= i < |rs| ensures rs[i].key != k {
      assert cs[i] in cs;
    }
  }

  // ----- the recorded ids are the kept nodes -----

  ghost predicate RecordedIffKept(rs: seq<Node>, ids: set<Path>, p: Path, q: Path)
    requires q != []
  {
    p + q in ids <==> Present(rs, q) && q[|q| - 1] != OTHER
  }

  /** `ids` are exactly the nodes below a node with full key `p` and children `rs`, "Other" nodes aside. */
  ghost predicate Records(ids: set<Path>, rs: seq<Node>, p: Path) {
    forall q :: q != [] ==> RecordedIffKept(rs, ids, p, q)
  }

  /** The ids recorded for siblings once `r` and the ids below it have been added. */
  function WithIds(ids: set<Path>, own: set<Path>, r: Node): set<Path> {
    if r.key == OTHER then ids + own else ids + own + {r.fullKey}
  }

  /** The ids recorded below `r`, seen from its parent. */
  lemma {:induction false} RecordedBelow(own: set<Path>, r: Node, p: Path, q: Path)
    requires q != [] && Records(own, r.children, r.fullKey)
    requires InZone(own, r.fullKey) && r.fullKey == p + [r.key]
    ensures p + q in own <==> |q| > 1 && TreePresent(r, q) && q[|q| - 1] != OTHER
  {
    PathBelow(p, r.key, q);
    if |q| > 1 && q[0] == r.key {
      assert RecordedIffKept(r.children, own, r.fullKey, q[1..]);
      assert q[1..][|q[1..]| - 1] == q[|q| - 1];
    } else {
      assert !(r.fullKey < p + q);
    }
  }

  lemma {:induction false} RecordedWith(ids: set<Path>, rs: seq<Node>, own: set<Path>, r: Node, p: Path, q: Path)
    requires q != [] && RecordedIffKept(rs, ids, p, q)
    requires p + q in own <==> |q| > 1 && TreePresent(r, q) && q[|q| - 1] != OTHER
    requires r.fullKey == p + [r.key] && FindKey(rs, r.key) == |rs|
    ensures RecordedIffKept(rs + [r], WithIds(ids, own, r), p, q)
  {
    LookupAppended(rs, r, q, Bytes);
    IsItself(r, p, q);
    WithIdsHas(ids, own, r, p + q);
  }

  lemma {:induction false} IsItself(r: Node, p: Path, q: Path)
    requires q != [] && r.fullKey == p + [r.key]
    ensures p + q == r.fullKey <==> |q| == 1 && TreePresent(r, q)
  {
    PathBelow(p, r.key, q);
  }

  lemma {:induction false} WithIdsHas(ids: set<Path>, own: set<Path>, r: Node, id: Path)
    ensures id in WithIds(ids, own, r) <==> id in ids || id in own || (r.key != OTHER && id == r.fullKey)
  {
  }

  lemma {:induction false} RecordsWith(ids: set<Path>, rs: seq<Node>, own: set<Path>, r: Node, p: Path)
    requires Records(ids, rs, p) && Records(own, r.children, r.fullKey)
    requires InZone(own, r.fullKey) && r.fullKey == p + [r.key] && FindKey(rs, r.key) == |rs|
    ensures Records(WithIds(ids, own, r), rs + [r], p)
  {
    forall q: Path | q != []
      ensures RecordedIffKept(rs + [r], WithIds(ids, own, r), p, q)
    {
      RecordedBelow(own, r, p, q);
      RecordedWith(ids, rs, own, r, p, q);
    }
  }

  /** The recorded ids are exactly the nodes of the reduced tree, apart from the root and "Other" nodes. */
  lemma {:induction false} ReduceTreeRecords(n: Node, m: Metric, vm: ValueMap, sort: Sorter)
    requires WellKeyed(n)
    ensures var r := ReduceTree(n, m, vm, sort);
      Records(r.ids, r.node.children, n.fullKey)
    decreases Height(n), 1, 0
  {
    if n.children != [] {
      var t := PlanOf(n, m, vm, sort);
      PlanKeeps(n, m, vm, sort);
      PlanLowers(n, m, vm, sort);
      var kept := ReduceEach(t.keep, m, vm, sort);
      ReduceEachRecords(t.keep, m, vm, sort, n.fullKey);
      if |t.keep| != |t.cs| {
        var other := BuildOther(n.fullKey, t.cs, t.drop, {m});
        OtherKeyed(n, t.cs, t.drop, {m});
        var vm' := AbsorbAllValues(t.drop, GetOrCreateOther(n.fullKey, t.cs), kept.vm);
        var r := ReduceTree(other, m, vm', sort);
        ReduceTreeRecords(other, m, vm', sort);
        ReduceTreeIds(other, m, vm', sort);
        ReduceTreeHead(other, m, vm', sort);
        ReduceEachHeads(t.keep, m, vm, sort);
        KeyStaysAbsent(t.keep, kept.nodes, OTHER);
        RecordsWith(kept.ids, kept.nodes, r.ids, r.node, n.fullKey);
      }
    }
  }

  lemma {:induction false} ReduceEachRecords(cs: seq<Node>, m: Metric, vm: ValueMap, sort: Sorter, p: Path)
    requires PlainSiblings(cs, p)
    ensures var r := ReduceEach(cs, m, vm, sort);
      Records(r.ids, r.nodes, p)
    decreases ForestHeight(cs), 0, |cs|
  {
    if cs != [] {
      var n := |cs| - 1;
      TallerThanChild(cs, n);
      PlainSiblingsSplit(cs, p);
      var before := ReduceEach(cs[..n], m, vm, sort);
      ReduceEachRecords(cs[..n], m, vm, sort, p);
      var r := ReduceTree(cs[n], m, before.vm, sort);
      ReduceTreeRecords(cs[n], m, before.vm, sort);
      ReduceTreeIds(cs[n], m, before.vm, sort);
      ReduceTreeHead(cs[n], m, before.vm, sort);
      ReduceEachHeads(cs[..n], m, vm, sort);
      assert cs[n] in cs;
      KeyStaysAbsent(cs[..n], before.nodes, cs[n].key);
      RecordsWith(before.ids, before.nodes, r.ids, r.node, p);
    }
  }

  // ----- kept nodes are untouched -----

  lemma {:induction false} FindIn(cs: seq<Node>, c: Node, q: Path)
    requires DistinctKeys(cs) && c in cs && q != [] && q[0] == c.key
    ensures Present(cs, q) <==> TreePresent(c, q)
    ensures forall m: Metric :: ValueAt(cs, q, m) == TreeValueAt(c, q, m)
  {
    var i :| 0 <= i < |cs| && cs[i] == c;
    FindKeyUnique(cs, i);
  }

  /** A path without "Other". */
  ghost predicate PlainPath(q: Path) {
    q != [] && OTHER !in q
  }

  ghost predicate SameAt(before: seq<Node>, after: seq<Node>, q: Path) {
    Present(after, q) ==> Present(before, q) && forall m: Metric :: ValueAt(after, q, m) == ValueAt(before, q, m)
  }

  /** What is still found under a path without "Other" was there before, with the same metrics. */
  ghost predicate Untouched(before: seq<Node>, after: seq<Node>) {
    forall q :: PlainPath(q) ==> SameAt(before, after, q)
  }

  ghost predicate AllUntouched(cs: seq<Node>, rs: seq<Node>) {
    |rs| == |cs| && forall i :: 0 <= i < |cs| ==> Untouched(cs[i].children, rs[i].children)
  }

  lemma {:induction false} AllUntouchedAppend(cs: seq<Node>, rs: seq<Node>, r: Node)
    requires cs != [] && AllUntouched(cs[..|cs| - 1], rs) && Untouched(cs[|cs| - 1].children, r.children)
    ensures AllUntouched(cs, rs + [r])
  {
  }

  /** `rs` consists of the reductions `kept` of `keep`, and perhaps an "Other" node. */
  ghost predicate KeptOrOther(cs: seq<Node>, keep: seq<Node>, kept: seq<Node>, rs: seq<Node>) {
    && DistinctKeys(cs) && DistinctKeys(rs) && SameHeads(keep, kept)
    && (forall c :: c in keep ==> c in cs)
    && (forall r :: r in rs ==> r in kept || r.key == OTHER)
    && (forall r :: r in kept ==> r in rs)
  }

  lemma {:induction false} KeptPlusOther(cs: seq<Node>, keep: seq<Node>, kept: seq<Node>, other: Node)
    requires DistinctKeys(cs) && DistinctKeys(keep) && SameHeads(keep, kept) && other.key == OTHER
    requires forall c :: c in keep ==> c in cs && c.key != OTHER
    ensures KeptOrOther(cs, keep, kept, kept)
    ensures KeptOrOther(cs, keep, kept, WithOther(kept, other))
  {
    KeyStaysAbsent(keep, kept, OTHER);
    assert DistinctKeys(kept);
  }

  lemma {:induction false} KeptOrOtherSorted(cs: seq<Node>, keep: seq<Node>, kept: seq<Node>, rs: seq<Node>,
                                             vm: ValueMap, sort: Sorter)
    requires KeptOrOther(cs, keep, kept, rs)
    ensures KeptOrOther(cs, keep, kept, SortChildren(rs, vm, sort))
  {
    SortFacts(rs, vm, sort);
  }

  lemma {:induction false} UntouchedAt(c: Node, r: Node, q: Path)
    requires PlainPath(q) && r.SameHead(c) && Untouched(c.children, r.children) && TreePresent(r, q)
    ensures TreePresent(c, q) && forall m: Metric :: TreeValueAt(c, q, m) == TreeValueAt(r, q, m)
  {
    if |q| > 1 {
      assert PlainPath(q[1..]) && SameAt(c.children, r.children, q[1..]);
    }
  }

  lemma {:induction false} UntouchedNode(cs: seq<Node>, keep: seq<Node>, kept: seq<Node>, rs: seq<Node>)
    requires KeptOrOther(cs, keep, kept, rs)
    requires AllUntouched(keep, kept)
    ensures Untouched(cs, rs)
  {
    forall q | PlainPath(q) ensures SameAt(cs, rs, q) {
      if Present(rs, q) {
        var r := rs[FindKey(rs, q[0])];
        assert r.key == q[0] && r.key in q;
        var i :| 0 <= i < |kept| && kept[i] == r;
        assert keep[i] in keep;
        FindIn(rs, r, q);
        FindIn(cs, keep[i], q);
        UntouchedAt(keep[i], r, q);
      }
    }
  }

  lemma {:induction false} ReduceTreeParts(n: Node, m: Metric, vm: ValueMap, sort: Sorter)
    requires WellKeyed(n) && n.children != []
    ensures var t := PlanOf(n, m, vm, sort);
      KeptOrOther(n.children, t.keep, ReduceEach(t.keep, m, vm, sort).nodes, ReduceTree(n, m, vm, sort).node.children)
  {
    var t := PlanOf(n, m, vm, sort);
    PlanKeeps(n, m, vm, sort);
    PlanLowers(n, m, vm, sort);
    var kept := ReduceEach(t.keep, m, vm, sort);
    ReduceEachHeads(t.keep, m, vm, sort);
    var other := BuildOther(n.fullKey, t.cs, t.drop, {m});
    OtherKeyed(n, t.cs, t.drop, {m});
    var vm' := AbsorbAllValues(t.drop, GetOrCreateOther(n.fullKey, t.cs), kept.vm);
    ReduceTreeHead(other, m, vm', sort);
    KeptPlusOther(n.children, t.keep, kept.nodes, ReduceTree(other, m, vm', sort).node);
  }

  lemma {:induction false} ReduceTreeUntouched(n: Node, m: Metric, vm: ValueMap, sort: Sorter)
    requires WellKeyed(n)
    ensures Untouched(n.children, ReduceTree(n, m, vm, sort).node.children)
    decreases Height(n), 1, 0
  {
    if n.children != [] {
      var t := PlanOf(n, m, vm, sort);
      PlanKeeps(n, m, vm, sort);
      PlanLowers(n, m, vm, sort);
      ReduceTreeParts(n, m, vm, sort);
      ReduceEachUntouched(t.keep, m, vm, sort, n.fullKey);
      UntouchedNode(n.children, t.keep, ReduceEach(t.keep, m, vm, sort).nodes,
                    ReduceTree(n, m, vm, sort).node.children);
    }
  }

  lemma {:induction false} ReduceEachUntouched(cs: seq<Node>, m: Metric, vm: ValueMap, sort: Sorter, p: Path)
    requires PlainSiblings(cs, p)
    ensures AllUntouched(cs, ReduceEach(cs, m, vm, sort).nodes)
    decreases ForestHeight(cs), 0, |cs|
  {
    if cs != [] {
      var n := |cs| - 1;
      TallerThanChild(cs, n);
      PlainSiblingsSplit(cs, p);
      var before := ReduceEach(cs[..n], m, vm, sort);
      ReduceEachUntouched(cs[..n], m, vm, sort, p);
      ReduceTreeUntouched(cs[n], m, before.vm, sort);
      AllUntouchedAppend(cs, before.nodes, ReduceTree(cs[n], m, before.vm, sort).node);
    }
  }

  // ----- replaying keeps exactly the selected paths -----

  /** Every node on the way down along `q`, starting below `p`, is selected. */
  predicate Chosen(sel: set<Path>, p: Path, q: Path)
    decreases q
  {
    q == [] || (p + [q[0]] in sel && Chosen(sel, p + [q[0]], q[1..]))
  }

  ghost predicate KeptIffChosen(before: seq<Node>, after: seq<Node>, sel: set<Path>, p: Path, q: Path) {
    && (Present(after, q) <==> Present(before, q) && Chosen(sel, p, q))
    && SameAt(before, after, q)
  }

  ghost predicate KeepsExactly(before: seq<Node>, after: seq<Node>, sel: set<Path>, p: Path) {
    forall q :: PlainPath(q) ==> KeptIffChosen(before, after, sel, p, q)
  }

  ghost predicate AllExact(cs: seq<Node>, rs: seq<Node>, sel: set<Path>) {
    |rs| == |cs| && forall i :: 0 <= i < |cs| ==> KeepsExactly(cs[i].children, rs[i].children, sel, cs[i].fullKey)
  }

  lemma {:induction false} AllExactAppend(cs: seq<Node>, rs: seq<Node>, r: Node, sel: set<Path>)
    requires cs != [] && AllExact(cs[..|cs| - 1], rs, sel)
    requires KeepsExactly(cs[|cs| - 1].children, r.children, sel, cs[|cs| - 1].fullKey)
    ensures AllExact(cs, rs + [r], sel)
  {
  }

  lemma {:induction false} ChosenAt(c: Node, r: Node, sel: set<Path>, p: Path, q: Path)
    requires PlainPath(q) && q[0] == c.key && r.SameHead(c)
    requires c.fullKey == p + [c.key] && c.fullKey in sel
    requires KeepsExactly(c.children, r.children, sel, c.fullKey)
    ensures TreePresent(r, q) <==> TreePresent(c, q) && Chosen(sel, p, q)
    ensures TreePresent(r, q) ==> forall m: Metric :: TreeValueAt(r, q, m) == TreeValueAt(c, q, m)
  {
    if |q| > 1 {
      assert PlainPath(q[1..]) && KeptIffChosen(c.children, r.children, sel, c.fullKey, q[1..]);
    }
  }

  lemma {:induction false} ExactAt(n: Node, keep: seq<Node>, kept: seq<Node>, rs: seq<Node>, sel: set<Path>, q: Path)
    requires KeptOrOther(n.children, keep, kept, rs) && WellKeyed(n) && PlainPath(q)
    requires forall c :: c in keep <==> c in n.children && c.fullKey in sel
    requires AllExact(keep, kept, sel)
    ensures KeptIffChosen(n.children, rs, sel, n.fullKey, q)
  {
    var cs := n.children;
    var j := FindKey(cs, q[0]);
    if j < |cs| && cs[j].fullKey in sel {
      assert cs[j] in cs && cs[j] in keep;
      var i :| 0 <= i < |keep| && keep[i] == cs[j];
      assert kept[i] in kept;
      FindIn(rs, kept[i], q);
      FindIn(cs, keep[i], q);
      ChosenAt(keep[i], kept[i], sel, n.fullKey, q);
    } else {
      assert j < |cs| ==> cs[j] in cs && cs[j].fullKey == n.fullKey + [q[0]];
      NotKept(cs, keep, kept, rs, q[0], sel);
    }
  }

  lemma {:induction false} NotKept(cs: seq<Node>, keep: seq<Node>, kept: seq<Node>, rs: seq<Node>, k: Key,
                                   sel: set<Path>)
    requires KeptOrOther(cs, keep, kept, rs) && k != OTHER
    requires forall c :: c in keep ==> c.fullKey in sel
    requires var j := FindKey(cs, k); j < |cs| ==> cs[j].fullKey !in sel
    ensures FindKey(rs, k) == |rs|
  {
    forall x | 0 <= x < |rs| ensures rs[x].key != k {
      assert rs[x] in rs;
      if rs[x].key != OTHER {
        var i :| 0 <= i < |kept| && kept[i] == rs[x];
        assert keep[i] in keep && keep[i] in cs;
        var y :| 0 <= y < |cs| && cs[y] == keep[i];
        FindKeyUnique(cs, y);
      }
    }
  }

  lemma {:induction false} ReduceBySetParts(n: Node, sel: set<Path>, vm: ValueMap, sort: Sorter)
    requires WellKeyed(n) && n.children != [] && NoOther(sel)
    ensures var keep := Filter(n.children, Selected(sel));
      KeptOrOther(n.children, keep, ReduceEachBySet(keep, sel, vm, sort).nodes,
                  ReduceBySet(n, sel, vm, sort).node.children)
  {
    var keep, drop := Filter(n.children, Selected(sel)), Filter(n.children, Unselected(sel));
    FilterFacts(n.children, Selected(sel));
    FilterFacts(n.children, Unselected(sel));
    SubforestHeight(keep, n.children);
    var kept := ReduceEachBySet(keep, sel, vm, sort);
    ReduceEachBySetHeads(keep, sel, vm, sort);
    OtherIsLower(n.fullKey, n.children, drop, BOTH);
    OtherKeyed(n, n.children, drop, BOTH);
    var other := BuildOther(n.fullKey, n.children, drop, BOTH);
    ReduceBySetHead(other, sel, kept.vm, sort);
    var r := ReduceBySet(other, sel, kept.vm, sort);
    KeptPlusOther(n.children, keep, kept.nodes, r.node);
    if |keep| == |n.children| {
      KeptOrOtherSorted(n.children, keep, kept.nodes, kept.nodes, kept.vm, sort);
    } else {
      var vm' := MarkOther(r.vm, r.node.fullKey);
      KeptOrOtherSorted(n.children, keep, kept.nodes, WithOther(kept.nodes, r.node), vm', sort);
    }
  }

  /** Replaying a selection keeps exactly the nodes all of whose ancestors are selected, untouched. */
  lemma {:induction false} ReduceBySetExact(n: Node, sel: set<Path>, vm: ValueMap, sort: Sorter)
    requires WellKeyed(n) && NoOther(sel)
    ensures KeepsExactly(n.children, ReduceBySet(n, sel, vm, sort).node.children, sel, n.fullKey)
    decreases Height(n), 1, 0
  {
    if n.children != [] {
      var keep := Filter(n.children, Selected(sel));
      FilterFacts(n.children, Selected(sel));
      SubforestHeight(keep, n.children);
      ReduceBySetParts(n, sel, vm, sort);
      ReduceEachBySetExact(keep, sel, vm, sort);
      var kept := ReduceEachBySet(keep, sel, vm, sort).nodes;
      var rs := ReduceBySet(n, sel, vm, sort).node.children;
      forall q | PlainPath(q) ensures KeptIffChosen(n.children, rs, sel, n.fullKey, q) {
        ExactAt(n, keep, kept, rs, sel, q);
      }
    }
  }

  lemma {:induction false} ReduceEachBySetExact(cs: seq<Node>, sel: set<Path>, vm: ValueMap, sort: Sorter)
    requires NoOther(sel) && forall c :: c in cs ==> WellKeyed(c)
    ensures AllExact(cs, ReduceEachBySet(cs, sel, vm, sort).nodes, sel)
    decreases ForestHeight(cs), 0, |cs|
  {
    if cs != [] {
      var n := |cs| - 1;
      TallerThanChild(cs, n);
      var before := ReduceEachBySet(cs[..n], sel, vm, sort);
      ReduceEachBySetExact(cs[..n], sel, vm, sort);
      ReduceBySetExact(cs[n], sel, before.vm, sort);
      AllExactAppend(cs, before.nodes, ReduceBySet(cs[n], sel, before.vm, sort).node, sel);
    }
  }

  // ----- how wide the reduced trees are -----

  /** At most nine children besides "Other", at every node. */
  ghost predicate Narrow(n: Node) {
    && |n.children| <= 9 + (if FindKey(n.children, OTHER) < |n.children| then 1 else 0)
    && forall c :: c in n.children ==> Narrow(c)
  }

  ghost predicate AllNarrow(cs: seq<Node>) {
    forall c :: c in cs ==> Narrow(c)
  }

  lemma {:induction false} NarrowNode(n: Node, kept: seq<Node>, other: Node)
    requires AllNarrow(kept) && |kept| <= MAX_CHILDREN
    ensures Narrow(n.(children := kept))
    ensures Narrow(other) && other.key == OTHER ==> Narrow(n.(children := WithOther(kept, other)))
  {
    var all := WithOther(kept, other);
    assert forall c :: c in all ==> c in kept || c == other;
    if FindKey(kept, OTHER) == |kept| && other.key == OTHER {
      assert all[|kept|].key == OTHER;
    }
  }

  lemma {:induction false} NarrowSorted(n: Node, cs: seq<Node>, vm: ValueMap, sort: Sorter)
    requires Narrow(n.(children := cs))
    ensures Narrow(n.(children := SortChildren(cs, vm, sort)))
  {
    var r := SortChildren(cs, vm, sort);
    SortFacts(cs, vm, sort);
    var i := FindKey(cs, OTHER);
    if i < |cs| {
      assert cs[i] in r;
      var j :| 0 <= j < |r| && r[j] == cs[i];
      assert FindKey(r, OTHER) <= j;
    }
    assert forall c :: c in r ==> c in n.(children := cs).children;
  }

  lemma {:induction false} ReduceTreeNarrow(n: Node, m: Metric, vm: ValueMap, sort: Sorter)
    requires WellKeyed(n)
    ensures Narrow(ReduceTree(n, m, vm, sort).node)
    decreases Height(n), 1, 0
  {
    hide BuildOther, PlanOf, AbsorbAllValues, Narrow, ReduceEach, DistinctKeys;
    if n.children == [] {
      NarrowNode(n, [], n);
      assert n.(children := []) == n;
    } else {
      var t := PlanOf(n, m, vm, sort);
      PlanKeeps(n, m, vm, sort);
      PlanLowers(n, m, vm, sort);
      var kept := ReduceEach(t.keep, m, vm, sort);
      ReduceEachNarrow(t.keep, m, vm, sort, n.fullKey);
      ReduceEachHeads(t.keep, m, vm, sort);
      var other := BuildOther(n.fullKey, t.cs, t.drop, {m});
      var vm' := AbsorbAllValues(t.drop, GetOrCreateOther(n.fullKey, t.cs), kept.vm);
      OtherKeyed(n, t.cs, t.drop, {m});
      ReduceTreeHead(other, m, vm', sort);
      ReduceTreeNarrow(other, m, vm', sort);
      NarrowNode(n, kept.nodes, ReduceTree(other, m, vm', sort).node);
    }
  }

  lemma {:induction false} ReduceEachNarrow(cs: seq<Node>, m: Metric, vm: ValueMap, sort: Sorter, p: Path)
    requires PlainSiblings(cs, p)
    ensures AllNarrow(ReduceEach(cs, m, vm, sort).nodes)
    decreases ForestHeight(cs), 0, |cs|
  {
    if cs != [] {
      var n := |cs| - 1;
      TallerThanChild(cs, n);
      PlainSiblingsSplit(cs, p);
      ReduceEachNarrow(cs[..n], m, vm, sort, p);
      ReduceTreeNarrow(cs[n], m, ReduceEach(cs[..n], m, vm, sort).vm, sort);
    }
  }

  lemma {:induction false} SelectedChildrenBound(n: Node, sel: set<Path>)
    requires WellKeyed(n) && FanOut(sel)
    ensures |Filter(n.children, Selected(sel))| <= MAX_CHILDREN
  {
    var keep := Filter(n.children, Selected(sel));
    FilterFacts(n.children, Selected(sel));
    var ids := Ids(keep);
    forall i, j | 0 <= i < j < |ids| ensures ids[i] != ids[j] {
      assert keep[i] in keep && keep[j] in keep;
      assert (n.fullKey + [keep[i].key])[|n.fullKey|] != (n.fullKey + [keep[j].key])[|n.fullKey|];
    }
    DistinctCardinality(ids);
    var all := set id | id in ids;
    forall id | id in all ensures id in Below(sel, n.fullKey) {
      var i :| 0 <= i < |ids| && ids[i] == id;
      assert keep[i] in keep;
    }
    SubsetCardinality(all, Below(sel, n.fullKey));
  }

  /** A selection with at most nine ids below every node keeps every replayed tree narrow. */
  lemma {:induction false} ReduceBySetNarrow(n: Node, sel: set<Path>, vm: ValueMap, sort: Sorter)
    requires WellKeyed(n) && NoOther(sel) && FanOut(sel)
    ensures Narrow(ReduceBySet(n, sel, vm, sort).node)
    decreases Height(n), 1, 0
  {
    if n.children != [] {
      var keep, drop := Filter(n.children, Selected(sel)), Filter(n.children, Unselected(sel));
      FilterFacts(n.children, Selected(sel));
      FilterFacts(n.children, Unselected(sel));
      SubforestHeight(keep, n.children);
      SelectedChildrenBound(n, sel);
      var kept := ReduceEachBySet(keep, sel, vm, sort);
      ReduceEachBySetNarrow(keep, sel, vm, sort);
      ReduceEachBySetHeads(keep, sel, vm, sort);
      var other := BuildOther(n.fullKey, n.children, drop, BOTH);
      OtherIsLower(n.fullKey, n.children, drop, BOTH);
      OtherKeyed(n, n.children, drop, BOTH);
      ReduceBySetHead(other, sel, kept.vm, sort);
      ReduceBySetNarrow(other, sel, kept.vm, sort);
      var r := ReduceBySet(other, sel, kept.vm, sort);
      NarrowNode(n, kept.nodes, r.node);
      if |keep| == |n.children| {
        NarrowSorted(n, kept.nodes, kept.vm, sort);
      } else {
        var vm' := MarkOther(r.vm, r.node.fullKey);
        NarrowSorted(n, WithOther(kept.nodes, r.node), vm', sort);
      }
    }
  }

  lemma {:induction false} ReduceEachBySetNarrow(cs: seq<Node>, sel: set<Path>, vm: ValueMap, sort: Sorter)
    requires (forall c :: c in cs ==> WellKeyed(c)) && NoOther(sel) && FanOut(sel)
    ensures AllNarrow(ReduceEachBySet(cs, sel, vm, sort).nodes)
    decreases ForestHeight(cs), 0, |cs|
  {
    if cs != [] {
      var n := |cs| - 1;
      TallerThanChild(cs, n);
      ReduceEachBySetNarrow(cs[..n], sel, vm, sort);
      ReduceBySetNarrow(cs[n], sel, ReduceEachBySet(cs[..n], sel, vm, sort).vm, sort);
    }
  }
}
