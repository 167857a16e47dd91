/**
 The main results about both reductions, put together from the modules they rest on.
 */
module ReductionTheorems {
  import opened Trees
  import opened Merge
  import opened Reduce
  import opened Conservation
  import opened Selection
  import opened Replay
  import Folding

  // ----- conservation -----

  ghost predicate NonNegative(n: Node) {
    n.objects >= 0 && n.bytes >= 0 && forall c :: c in n.children ==> NonNegative(c)
  }

  lemma {:induction false} BalancedFits(n: Node)
    requires Balanced(n) && NonNegative(n)
    ensures Fits(n)
    decreases n
  {
    forall c | c in n.children ensures Fits(c) {
      BalancedFits(c);
    }
  }

  /** The trees the viewer is meant for: balanced, non-negative, well keyed, and not "Other" itself. */
  ghost predicate Clean(n: Node) {
    Balanced(n) && NonNegative(n) && WellKeyed(n) && n.key != OTHER
  }

  /** The selecting reduction keeps totals and sums: both metrics outside "Other", the chosen one inside. */
  lemma {:induction false} ReduceTreeConserves(n: Node, m: Metric, vm: ValueMap, sort: Sorter)
    requires Clean(n)
    ensures GoodReduction(n, ReduceTree(n, m, vm, sort).node, false, {m})
  {
    BalancedFits(n);
    ReduceTreeGood(n, m, vm, sort, false);
  }

  /** Replaying any selection keeps totals and sums in both metrics, everywhere. */
  lemma {:induction false} ReplayConserves(n: Node, sel: set<Path>, vm: ValueMap, sort: Sorter)
    requires Clean(n) && NoOther(sel)
    ensures GoodReduction(n, ReduceBySet(n, sel, vm, sort).node, false, BOTH)
  {
    BalancedFits(n);
    ReduceBySetGood(n, sel, vm, sort, false);
  }

  lemma {:induction false} ConservedInFewer(n: Node, under: bool, ms: set<Metric>, ms': set<Metric>)
    requires Conserved(n, under, ms) && ms' <= ms
    ensures Conserved(n, under, ms')
    decreases n
  {
    forall c | c in n.children ensures Conserved(c, under || n.key == OTHER, ms') {
      ConservedInFewer(c, under || n.key == OTHER, ms, ms');
    }
  }

  // ----- width and coverage -----

  /**
   The children kept are just enough: they cover more than 90% of the node, or are nine, or are all there were, and
   at no child before the last had 90% been passed.
   */
  ghost predicate JustEnough(n: Node, rs: seq<Node>, m: Metric) {
    var kept := Filter(rs, Plain);
    && |kept| <= 9
    && (|| 10 * Sum(kept, m) > 9 * n.Value(m)
        || |kept| == 9
        || forall c :: c in n.children && c.key != OTHER ==> exists r :: r in rs && r.SameHead(c))
    && forall j :: 0 <= j < |kept| ==> 10 * Sum(kept[..j], m) <= 9 * n.Value(m)
  }

  /** At every node of the reduction `r` of `n`, inside "Other" too, the children kept are just enough. */
  ghost predicate Covered(n: Node, r: Node, m: Metric)
    decreases r, 0
  {
    && r.SameHead(n) && (n.children != [] ==> JustEnough(n, r.children, m))
    && forall c :: c in r.children ==> CoveredChild(n.children, r.children, c, m)
  }

  /** A child of the reduction is the reduction of a child, or of all that was folded away here. */
  ghost predicate CoveredChild(cs: seq<Node>, rs: seq<Node>, c: Node, m: Metric)
    decreases c, 1
  {
    exists b: Node ::
      && Covered(b, c, m)
      && if c.key == OTHER then Folding.Together(b, cs, Folding.Gone(cs, rs), {m}) else b in cs
  }

  lemma {:induction false} PlanCovers(n: Node, m: Metric, vm: ValueMap, sort: Sorter)
    requires WellKeyed(n) && n.children != []
    ensures JustEnough(n, ReduceTree(n, m, vm, sort).node.children, m)
  {
    var t := PlanOf(n, m, vm, sort);
    PlanKeeps(n, m, vm, sort);
    ReduceTreeParts(n, m, vm, sort);
    PlainPart(n, m, vm, sort);
    KeptCover(n, t, m, ReduceEach(t.keep, m, vm, sort).nodes, ReduceTree(n, m, vm, sort).node.children);
  }

  lemma {:induction false} KeptCover(n: Node, t: Plan, m: Metric, kept: seq<Node>, rs: seq<Node>)
    requires t.keep == KeptUpTo(t.cs, CutIndex(t.cs, m, n.Value(m), 0, 0, 0)) && SameHeads(t.keep, kept)
    requires forall c :: c in t.cs <==> c in n.children
    requires Filter(rs, Plain) == kept
    ensures JustEnough(n, rs, m)
  {
    CutIsShortest(t.cs, m, n.Value(m));
    SumOfSameValues(kept, t.keep, m);
    var k := CutIndex(t.cs, m, n.Value(m), 0, 0, 0);
    if k == |t.cs| {
      AllThere(n, t, kept, rs, k);
    }
    forall j | 0 <= j < |kept| ensures 10 * Sum(kept[..j], m) <= 9 * n.Value(m) {
      var i := PositionOf(t.cs, k, j);
      assert GoesOn(t.cs, m, n.Value(m), i);
      SumOfSameValues(kept[..j], t.keep[..j], m);
    }
  }

  lemma {:induction false} AllThere(n: Node, t: Plan, kept: seq<Node>, rs: seq<Node>, k: nat)
    requires k == |t.cs| && t.keep == KeptUpTo(t.cs, k) && SameHeads(t.keep, kept)
    requires forall c :: c in t.cs <==> c in n.children
    requires Filter(rs, Plain) == kept
    ensures forall c :: c in n.children && c.key != OTHER ==> exists r :: r in rs && r.SameHead(c)
  {
    assert t.cs[..k] == t.cs;
    FilterFacts(t.cs, Plain);
    FilterFacts(rs, Plain);
    forall c | c in n.children && c.key != OTHER ensures exists r :: r in rs && r.SameHead(c) {
      assert c in t.keep;
      var i :| 0 <= i < |t.keep| && t.keep[i] == c;
      assert kept[i] in rs && kept[i].SameHead(c);
    }
  }

  /** Where the loop stood when it had kept `j` children. */
  lemma {:induction false} PositionOf(cs: seq<Node>, k: nat, j: nat) returns (i: nat)
    requires k <= |cs| && j < |KeptUpTo(cs, k)|
    ensures i < k && KeptUpTo(cs, i) == KeptUpTo(cs, k)[..j]
  {
    hide KeptUpTo;
    KeptNone(cs);
    KeptNext(cs, k - 1);
    if j == |KeptUpTo(cs, k - 1)| {
      i := k - 1;
    } else {
      i := PositionOf(cs, k - 1, j);
    }
  }

  lemma {:induction false} KeptNone(cs: seq<Node>)
    ensures KeptUpTo(cs, 0) == []
  {
  }

  lemma {:induction false} AllPlain(cs: seq<Node>)
    requires forall c :: c in cs ==> c.key != OTHER
    ensures Filter(cs, Plain) == cs
  {
    if cs != [] {
      AllPlain(cs[..|cs| - 1]);
    }
  }

  /** The children of the reduction other than "Other" are the reductions of the kept ones. */
  lemma {:induction false} PlainPart(n: Node, m: Metric, vm: ValueMap, sort: Sorter)
    requires WellKeyed(n) && n.children != []
    ensures Filter(ReduceTree(n, m, vm, sort).node.children, Plain) ==
      ReduceEach(PlanOf(n, m, vm, sort).keep, m, vm, sort).nodes
  {
    var t := PlanOf(n, m, vm, sort);
    PlanKeeps(n, m, vm, sort);
    PlanLowers(n, m, vm, sort);
    var kept := ReduceEach(t.keep, m, vm, sort);
    ReduceEachHeads(t.keep, m, vm, sort);
    var other := BuildOther(n.fullKey, t.cs, t.drop, {m});
    OtherKeyed(n, t.cs, t.drop, {m});
    var vm' := AbsorbAllValues(t.drop, GetOrCreateOther(n.fullKey, t.cs), kept.vm);
    ReduceTreeHead(other, m, vm', sort);
    PlainWithOther(t.keep, kept.nodes, ReduceTree(other, m, vm', sort).node);
  }

  lemma {:induction false} PlainWithOther(keep: seq<Node>, kept: seq<Node>, other: Node)
    requires SameHeads(keep, kept) && other.key == OTHER && forall c :: c in keep ==> c.key != OTHER
    ensures Filter(kept, Plain) == kept && Filter(WithOther(kept, other), Plain) == kept
  {
    forall c | c in kept ensures c.key != OTHER {
      var i :| 0 <= i < |kept| && kept[i] == c;
      assert keep[i] in keep;
    }
    AllPlain(kept);
    assert (kept + [other])[..|kept|] == kept;
  }

  lemma {:induction false} ReduceTreeCovers(n: Node, m: Metric, vm: ValueMap, sort: Sorter)
    requires WellKeyed(n)
    ensures Covered(n, ReduceTree(n, m, vm, sort).node, m)
    decreases Height(n), 1, 0
  {
    hide JustEnough, PlanOf, BuildOther, AbsorbAllValues, Folding.Together, Folding.Gone, WellKeyed, ReduceEach;
    var rs := ReduceTree(n, m, vm, sort).node.children;
    if n.children != [] {
      var t := PlanOf(n, m, vm, sort);
      PlanKeeps(n, m, vm, sort);
      PlanLowers(n, m, vm, sort);
      PlanCovers(n, m, vm, sort);
      var kept := ReduceEach(t.keep, m, vm, sort);
      ReduceEachCovers(n.children, rs, t.keep, m, vm, sort, n.fullKey);
      if |t.keep| != |t.cs| {
        var other := BuildOther(n.fullKey, t.cs, t.drop, {m});
        OtherKeyed(n, t.cs, t.drop, {m});
        var vm' := AbsorbAllValues(t.drop, GetOrCreateOther(n.fullKey, t.cs), kept.vm);
        ReduceTreeCovers(other, m, vm', sort);
        ReduceTreeHead(other, m, vm', sort);
        Folding.DropIsGone(n, m, vm, sort);
        Folding.PutTogether(n, t.cs, t.drop, rs, {m});
        assert CoveredChild(n.children, rs, ReduceTree(other, m, vm', sort).node, m);
      }
    }
  }

  lemma {:induction false} ReduceEachCovers(cs: seq<Node>, rs: seq<Node>, keep: seq<Node>, m: Metric, vm: ValueMap,
                                            sort: Sorter, p: Path)
    requires PlainSiblings(keep, p) && forall c :: c in keep ==> c in cs
    ensures forall r :: r in ReduceEach(keep, m, vm, sort).nodes ==> CoveredChild(cs, rs, r, m)
    decreases ForestHeight(keep), 0, |keep|
  {
    hide Folding.Together, Folding.Gone, Covered;
    if keep != [] {
      var k := |keep| - 1;
      TallerThanChild(keep, k);
      PlainSiblingsSplit(keep, p);
      ReduceEachCovers(cs, rs, keep[..k], m, vm, sort, p);
      var before := ReduceEach(keep[..k], m, vm, sort);
      ReduceTreeCovers(keep[k], m, before.vm, sort);
      ReduceTreeHead(keep[k], m, before.vm, sort);
      assert keep[k] in keep;
      assert CoveredChild(cs, rs, ReduceTree(keep[k], m, before.vm, sort).node, m);
    }
  }

  /** The ids selected on any tree bound the width of every other tree reduced with them. */
  lemma {:induction false} ReplayIsNarrow(chosen: Node, m: Metric, vm: ValueMap, sort: Sorter, n: Node, vm': ValueMap,
                                          resort: Sorter)
    requires WellKeyed(chosen) && WellKeyed(n)
    ensures Narrow(ReduceTree(chosen, m, vm, sort).node)
    ensures Narrow(ReduceBySet(n, ReduceTree(chosen, m, vm, sort).ids, vm', resort).node)
  {
    ReduceTreeNarrow(chosen, m, vm, sort);
    ReduceTreeIds(chosen, m, vm, sort);
    ReduceBySetNarrow(n, ReduceTree(chosen, m, vm, sort).ids, vm', resort);
  }

  // ----- the selection and its replay agree -----

  lemma {:induction false} ChosenIfPresent(rs: seq<Node>, ids: set<Path>, p: Path, q: Path, done: Path)
    requires PlainPath(q) && PlainPath(done + q) && Present(rs, done + q) && Records(ids, rs, p)
    ensures Chosen(ids, p + done, q)
    decreases q
  {
    var k := done + [q[0]];
    assert done + q == k + q[1..];
    assert q[0] in q;
    PrefixPresent(rs, k, q[1..]);
    assert RecordedIffKept(rs, ids, p, k);
    assert p + k == p + done + [q[0]];
    if |q| > 1 {
      ChosenIfPresent(rs, ids, p, q[1..], k);
    }
  }

  lemma {:induction false} PrefixPresent(rs: seq<Node>, q: Path, rest: Path)
    requires q != [] && Present(rs, q + rest)
    ensures Present(rs, q)
    decreases q
  {
    if |q| > 1 {
      assert (q + rest)[1..] == q[1..] + rest;
      PrefixPresent(rs[FindKey(rs, q[0])].children, q[1..], rest);
    }
  }

  lemma {:induction false} ChosenLast(ids: set<Path>, p: Path, q: Path)
    requires q != [] && Chosen(ids, p, q)
    ensures p + q in ids
    decreases q
  {
    if |q| == 1 {
      assert p + [q[0]] == p + q;
    } else {
      ChosenLast(ids, p + [q[0]], q[1..]);
      assert p + [q[0]] + q[1..] == p + q;
    }
  }

  /**
   Replaying a selection on the very tree it was made on keeps exactly the nodes the selection kept,
   with the same metrics, at every path without "Other".
   */
  lemma {:induction false} ReplayAgrees(n: Node, m: Metric, vm: ValueMap, sort: Sorter, vm': ValueMap, resort: Sorter,
                                        q: Path)
    requires WellKeyed(n) && PlainPath(q)
    ensures var r := ReduceTree(n, m, vm, sort);
      var a, b := r.node.children, ReduceBySet(n, r.ids, vm', resort).node.children;
      && (Present(a, q) <==> Present(b, q))
      && (Present(a, q) ==> forall x: Metric :: ValueAt(a, q, x) == ValueAt(b, q, x))
  {
    hide WellKeyed, ReduceTree, ReduceBySet, Present, ValueAt, Chosen, FanOut, InZone;
    var r := ReduceTree(n, m, vm, sort);
    ReduceTreeRecords(n, m, vm, sort);
    ReduceTreeIds(n, m, vm, sort);
    ReduceTreeUntouched(n, m, vm, sort);
    ReduceBySetExact(n, r.ids, vm', resort);
    assert SameAt(n.children, r.node.children, q);
    assert KeptIffChosen(n.children, ReduceBySet(n, r.ids, vm', resort).node.children, r.ids, n.fullKey, q);
    if Present(r.node.children, q) {
      assert [] + q == q && n.fullKey + [] == n.fullKey;
      ChosenIfPresent(r.node.children, r.ids, n.fullKey, q, []);
    }
    if Chosen(r.ids, n.fullKey, q) {
      ChosenLast(r.ids, n.fullKey, q);
      assert RecordedIffKept(r.node.children, r.ids, n.fullKey, q);
    }
  }
}
