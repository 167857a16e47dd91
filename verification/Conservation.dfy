/**
 What both reductions keep: root totals, exact sums outside "Other" subtrees, exact sums at every
 "Other" node, children never above their parent, and well-formed full keys.
 */
module Conservation {
  import opened Trees
  import opened Merge
  import opened Reduce

  ghost predicate SumsUpIn(n: Node, ms: set<Metric>) {
    n.children != [] ==> forall m :: m in ms ==> Sum(n.children, m) == n.Value(m)
  }

  /**
   Outside "Other" subtrees both metrics add up exactly; at an "Other" node the metrics `ms` do.
   `under` tells whether an ancestor is an "Other" node.
   */
  ghost predicate Conserved(n: Node, under: bool, ms: set<Metric>) {
    && (n.key != OTHER && !under ==> SumsUp(n))
    && (n.key == OTHER ==> SumsUpIn(n, ms))
    && forall c :: c in n.children ==> Conserved(c, under || n.key == OTHER, ms)
  }

  /** What a node must satisfy before it is reduced. */
  ghost predicate Ready(n: Node, under: bool, ms: set<Metric>) {
    && Fits(n) && WellKeyed(n)
    && (n.key != OTHER && !under ==> Balanced(n))
    && (n.key == OTHER ==> SumsUpIn(n, ms))
  }

  /** What a reduction of `n` to `r` guarantees. */
  ghost predicate GoodReduction(n: Node, r: Node, under: bool, ms: set<Metric>) {
    r.SameHead(n) && Fits(r) && WellKeyed(r) && Conserved(r, under, ms)
  }

  ghost predicate GoodReductions(cs: seq<Node>, rs: seq<Node>, under: bool, ms: set<Metric>) {
    |rs| == |cs| && forall i :: 0 <= i < |cs| ==> GoodReduction(cs[i], rs[i], under, ms)
  }

  // ----- splitting the children -----

  function OtherValue(cs: seq<Node>, m: Metric): int {
    var i := FindKey(cs, OTHER);
    if i < |cs| then cs[i].Value(m) else 0
  }

  /** `cs` are the kept children, the dropped ones and the "Other" child, if there is one. */
  ghost predicate Split(cs: seq<Node>, keep: seq<Node>, drop: seq<Node>) {
    && (forall m: Metric :: Sum(cs, m) == Sum(keep, m) + Sum(drop, m) + OtherValue(cs, m))
    && DistinctKeys(keep)
    && (forall c :: c in keep ==> c in cs && c.key != OTHER)
    && (forall c :: c in drop ==> c in cs && c.key != OTHER)
  }

  lemma {:induction false} FilterConcat(a: seq<Node>, b: seq<Node>, f: Node -> bool)
    ensures Filter(a + b, f) == Filter(a, f) + Filter(b, f)
  {
    if b == [] {
      assert a + b == a;
    } else {
      var n := |b| - 1;
      assert (a + b)[..|a| + n] == a + b[..n];
      FilterConcat(a, b[..n], f);
    }
  }

  const IsOther: Node -> bool := (c: Node) => c.key == OTHER

  lemma {:induction false} PartitionSum(cs: seq<Node>, f: Node -> bool, g: Node -> bool, m: Metric)
    requires forall i :: 0 <= i < |cs| ==> if cs[i].key == OTHER then !f(cs[i]) && !g(cs[i]) else f(cs[i]) != g(cs[i])
    ensures Sum(cs, m) == Sum(Filter(cs, f), m) + Sum(Filter(cs, g), m) + Sum(Filter(cs, IsOther), m)
  {
    hide Sum, Filter;
    if cs == [] {
      PartitionNone(f, g, m);
    } else {
      var n := |cs| - 1;
      PartitionSum(cs[..n], f, g, m);
      FilterSum(cs, f, m);
      FilterSum(cs, g, m);
      FilterSum(cs, IsOther, m);
      assert cs[n].key == OTHER <==> IsOther(cs[n]);
      SumAppend(cs[..n], cs[n], m);
      assert cs[..n] + [cs[n]] == cs;
    }
  }

  lemma {:induction false} PartitionNone(f: Node -> bool, g: Node -> bool, m: Metric)
    ensures Sum([], m) == Sum(Filter([], f), m) + Sum(Filter([], g), m) + Sum(Filter([], IsOther), m)
  {
  }

  lemma {:induction false} FilterSum(cs: seq<Node>, f: Node -> bool, m: Metric)
    requires cs != []
    ensures var n := |cs| - 1;
      Sum(Filter(cs, f), m) == Sum(Filter(cs[..n], f), m) + if f(cs[n]) then cs[n].Value(m) else 0
  {
    hide Sum;
    SumAppend(Filter(cs[..|cs| - 1], f), cs[|cs| - 1], m);
  }

  lemma {:induction false} SumAppend(cs: seq<Node>, c: Node, m: Metric)
    ensures Sum(cs + [c], m) == Sum(cs, m) + c.Value(m)
  {
    assert (cs + [c])[..|cs|] == cs;
  }

  /** Among siblings with distinct keys "Other" occurs at most once. */
  lemma {:induction false} OtherOnce(cs: seq<Node>, m: Metric)
    requires DistinctKeys(cs)
    ensures Sum(Filter(cs, IsOther), m) == OtherValue(cs, m)
  {
    if cs != [] {
      var n := |cs| - 1;
      OtherOnce(cs[..n], m);
      SumAppend(Filter(cs[..n], IsOther), cs[n], m);
    }
  }

  lemma {:induction false} SplitBySet(cs: seq<Node>, sel: set<Path>)
    requires DistinctKeys(cs)
    requires forall c :: c in cs && c.key == OTHER ==> c.fullKey !in sel
    ensures Split(cs, Filter(cs, Selected(sel)), Filter(cs, Unselected(sel)))
  {
    forall m: Metric
      ensures Sum(cs, m) == Sum(Filter(cs, Selected(sel)), m) + Sum(Filter(cs, Unselected(sel)), m) + OtherValue(cs, m)
    {
      PartitionSum(cs, Selected(sel), Unselected(sel), m);
      OtherOnce(cs, m);
    }
    FilterFacts(cs, Selected(sel));
    FilterFacts(cs, Unselected(sel));
  }

  const None: Node -> bool := (c: Node) => false

  lemma {:induction false} NothingFiltered(cs: seq<Node>)
    ensures Filter(cs, None) == []
  {
    if cs != [] {
      NothingFiltered(cs[..|cs| - 1]);
    }
  }

  lemma {:induction false} SumAtCut(cs: seq<Node>, k: nat, m: Metric)
    requires DistinctKeys(cs) && k <= |cs|
    ensures Sum(cs, m) == Sum(Filter(cs[..k], Plain), m) + Sum(Filter(cs[k..], Plain), m) + OtherValue(cs, m)
  {
    PartitionSum(cs, Plain, None, m);
    NothingFiltered(cs);
    OtherOnce(cs, m);
    assert cs == cs[..k] + cs[k..];
    FilterConcat(cs[..k], cs[k..], Plain);
    SumConcat(Filter(cs[..k], Plain), Filter(cs[k..], Plain), m);
  }

  lemma {:induction false} SplitAtCut(cs: seq<Node>, k: nat)
    requires DistinctKeys(cs) && k <= |cs|
    ensures Split(cs, Filter(cs[..k], Plain), Filter(cs[k..], Plain))
  {
    forall m: Metric
      ensures Sum(cs, m) == Sum(Filter(cs[..k], Plain), m) + Sum(Filter(cs[k..], Plain), m) + OtherValue(cs, m)
    {
      SumAtCut(cs, k, m);
    }
    FilterFacts(cs[..k], Plain);
    FilterFacts(cs[k..], Plain);
  }

  // ----- the "Other" node -----

  lemma {:induction false} AddToOtherFits(n: Node, objects: nat, bytes: nat)
    requires Fits(n) && n.children != []
    requires forall m: Metric :: Sum(n.children, m) + (if m.Bytes? then bytes else objects) <= n.Value(m)
    ensures var r := AddToOther(n, objects, bytes);
      && Fits(r) && r.SameHead(n)
      && forall m: Metric :: Sum(r.children, m) == Sum(n.children, m) + if m.Bytes? then bytes else objects
  {
    var r := AddToOther(n, objects, bytes);
    var i := FindKey(n.children, OTHER);
    var raised := if i < |n.children| then r.children[i] else r.children[|n.children|];
    forall m: Metric ensures Sum(r.children, m) == Sum(n.children, m) + if m.Bytes? then bytes else objects {
      if i < |n.children| {
        SumUpdate(n.children, i, raised, m);
      } else {
        SumAppend(n.children, raised, m);
      }
    }
    RaisedFits(if i < |n.children| then n.children[i] else EmptyOther(n.fullKey), objects, bytes);
    forall c | c in r.children ensures Fits(c) {
      assert c == raised || c in n.children;
    }
  }

  lemma {:induction false} RaisedFits(n: Node, objects: nat, bytes: nat)
    requires Fits(n)
    ensures Fits(n.Plus(objects, bytes))
  {
    forall m: Metric ensures Sum(n.children, m) <= n.Plus(objects, bytes).Value(m) {
      assert Sum(n.children, m) <= n.Value(m);
    }
  }

  lemma {:induction false} FixOtherFits(other: Node, ms: set<Metric>)
    requires Fits(other)
    ensures Fits(FixOther(other, ms)) && SumsUpIn(FixOther(other, ms), ms) && FixOther(other, ms).SameHead(other)
  {
    hide Sum, AddToOther;
    var dObjects := other.objects - Sum(other.children, Objects);
    var dBytes := other.bytes - Sum(other.children, Bytes);
    assert other.Value(Bytes) >= Sum(other.children, Bytes) && other.Value(Objects) >= Sum(other.children, Objects);
    if other.children != [] && (dObjects != 0 || dBytes != 0) {
      AddToOtherFits(other, if Objects in ms then dObjects else 0, if Bytes in ms then dBytes else 0);
    }
  }

  lemma {:induction false} FixOtherKeyed(other: Node, ms: set<Metric>)
    requires WellKeyed(other)
    ensures WellKeyed(FixOther(other, ms))
  {
    var i := FindKey(other.children, OTHER);
    if FixOther(other, ms) != other {
      var fixed := FixOther(other, ms);
      if i < |other.children| {
        assert WellKeyed(other.children[i]);
        assert WellKeyed(fixed.children[i]);
      }
      forall c | c in fixed.children ensures c.fullKey == other.fullKey + [c.key] && WellKeyed(c) {
        var j :| 0 <= j < |fixed.children| && fixed.children[j] == c;
        if j < |other.children| && j != i {
          assert c in other.children;
        }
      }
    }
  }

  /** `d` can be a child of a node with full key `p`. */
  ghost predicate KeyedChild(d: Node, p: Path) {
    WellKeyed(d) && d.fullKey == p + [d.key]
  }

  lemma {:induction false} AbsorbAllKeyed(dropped: seq<Node>, other: Node, p: Path)
    requires forall d :: d in dropped ==> KeyedChild(d, p)
    requires KeyedChild(other, p) && other.key == OTHER
    ensures KeyedChild(AbsorbAll(dropped, other), p) && AbsorbAll(dropped, other).key == OTHER
  {
    if dropped != [] {
      var n := |dropped| - 1;
      AbsorbAllKeyed(dropped[..n], other, p);
      var d := dropped[n];
      assert KeyedChild(d, p);
      assert p + [d.key] + [] == p + [d.key] && p + [OTHER] + [] == p + [OTHER];
      MergeKeyed(d.children, AbsorbAll(dropped[..n], other).children, p, d.key, []);
    }
  }

  lemma {:induction false} AbsorbAllFits(dropped: seq<Node>, other: Node)
    requires AllFit(dropped) && Fits(other)
    ensures Fits(AbsorbAll(dropped, other))
    ensures forall m: Metric :: AbsorbAll(dropped, other).Value(m) == other.Value(m) + Sum(dropped, m)
  {
    if dropped != [] {
      var n := |dropped| - 1;
      AbsorbAllFits(dropped[..n], other);
      AbsorbFits(dropped[n], AbsorbAll(dropped[..n], other), 0);
    }
  }

  lemma {:induction false} OtherKeyed(n: Node, cs: seq<Node>, drop: seq<Node>, ms: set<Metric>)
    requires WellKeyed(n)
    requires forall c :: c in cs ==> c in n.children
    requires forall c :: c in drop ==> c in cs
    ensures KeyedChild(BuildOther(n.fullKey, cs, drop, ms), n.fullKey)
    ensures BuildOther(n.fullKey, cs, drop, ms).key == OTHER
  {
    var base := GetOrCreateOther(n.fullKey, cs);
    assert KeyedChild(base, n.fullKey) by {
      if FindKey(cs, OTHER) < |cs| {
        assert base in n.children;
      }
    }
    AbsorbAllKeyed(drop, base, n.fullKey);
    FixOtherKeyed(AbsorbAll(drop, base), ms);
  }

  lemma {:induction false} OtherReady(n: Node, cs: seq<Node>, drop: seq<Node>, under: bool, ms: set<Metric>)
    requires Fits(n) && WellKeyed(n)
    requires forall c :: c in cs <==> c in n.children
    requires forall c :: c in drop ==> c in cs
    ensures var other := BuildOther(n.fullKey, cs, drop, ms);
      && Ready(other, under, ms) && other.key == OTHER && other.fullKey == n.fullKey + [OTHER]
      && forall m: Metric :: other.Value(m) == OtherValue(cs, m) + Sum(drop, m)
  {
    OtherKeyed(n, cs, drop, ms);
    var base := GetOrCreateOther(n.fullKey, cs);
    AbsorbAllFits(drop, base);
    FixOtherFits(AbsorbAll(drop, base), ms);
  }

  // ----- one node -----

  /** A node whose children `rs` are reductions of pieces that add up to its old children. */
  lemma {:induction false} GoodNode(n: Node, rs: seq<Node>, under: bool, ms: set<Metric>)
    requires Ready(n, under, ms) && n.children != []
    requires forall m: Metric :: Sum(rs, m) == Sum(n.children, m)
    requires DistinctKeys(rs)
    requires forall r :: r in rs ==> r.fullKey == n.fullKey + [r.key] && WellKeyed(r) && Fits(r)
                                     && Conserved(r, under || n.key == OTHER, ms)
    ensures GoodReduction(n, n.(children := rs), under, ms)
  {
  }

  lemma {:induction false} GoodWithOther(n: Node, cs: seq<Node>, keep: seq<Node>, drop: seq<Node>, kept: seq<Node>,
                                         base: Node, other: Node, under: bool, ms: set<Metric>)
    requires Ready(n, under, ms) && n.children != []
    requires Split(cs, keep, drop) && (forall c :: c in cs <==> c in n.children)
    requires forall m: Metric :: Sum(cs, m) == Sum(n.children, m)
    requires GoodReductions(keep, kept, under || n.key == OTHER, ms)
    requires base.key == OTHER && base.fullKey == n.fullKey + [OTHER]
    requires forall m: Metric :: base.Value(m) == OtherValue(cs, m) + Sum(drop, m)
    requires GoodReduction(base, other, under || n.key == OTHER, ms)
    ensures GoodReduction(n, n.(children := WithOther(kept, other)), under, ms)
  {
    hide Sum, Conserved, Fits;
    assert FindKey(kept, OTHER) == |kept| by {
      assert forall i :: 0 <= i < |kept| ==> kept[i].key == keep[i].key && keep[i] in keep;
    }
    var rs := kept + [other];
    forall m: Metric ensures Sum(rs, m) == Sum(n.children, m) {
      SumOfSameValues(kept, keep, m);
      SumAppend(kept, other, m);
    }
    assert DistinctKeys(rs) by {
      assert forall i :: 0 <= i < |kept| ==> rs[i].key == keep[i].key && keep[i] in keep;
    }
    forall r | r in rs
      ensures r.fullKey == n.fullKey + [r.key] && WellKeyed(r) && Fits(r) && Conserved(r, under || n.key == OTHER, ms)
    {
      if r != other {
        var i :| 0 <= i < |kept| && kept[i] == r;
        assert keep[i] in keep;
      }
    }
    GoodNode(n, rs, under, ms);
  }

  lemma {:induction false} GoodWithoutOther(n: Node, cs: seq<Node>, kept: seq<Node>, under: bool, ms: set<Metric>)
    requires Ready(n, under, ms) && n.children != []
    requires (forall c :: c in cs <==> c in n.children) && DistinctKeys(cs)
    requires forall m: Metric :: Sum(cs, m) == Sum(n.children, m)
    requires GoodReductions(cs, kept, under || n.key == OTHER, ms)
    ensures GoodReduction(n, n.(children := kept), under, ms)
  {
    forall m: Metric ensures Sum(kept, m) == Sum(n.children, m) {
      SumOfSameValues(kept, cs, m);
    }
    forall r | r in kept
      ensures r.fullKey == n.fullKey + [r.key] && WellKeyed(r) && Fits(r) && Conserved(r, under || n.key == OTHER, ms)
    {
      var i :| 0 <= i < |kept| && kept[i] == r;
      assert cs[i] in cs;
    }
    assert DistinctKeys(kept);
    GoodNode(n, kept, under, ms);
  }

  ghost predicate AllReady(cs: seq<Node>, under: bool, ms: set<Metric>) {
    forall c :: c in cs ==> Ready(c, under, ms)
  }

  lemma {:induction false} AllReadySplit(cs: seq<Node>, under: bool, ms: set<Metric>)
    requires AllReady(cs, under, ms) && cs != []
    ensures AllReady(cs[..|cs| - 1], under, ms) && Ready(cs[|cs| - 1], under, ms)
  {
    assert forall c :: c in cs[..|cs| - 1] ==> c in cs;
  }

  lemma {:induction false} GoodReductionsAppend(cs: seq<Node>, rs: seq<Node>, r: Node, under: bool, ms: set<Metric>)
    requires cs != [] && GoodReductions(cs[..|cs| - 1], rs, under, ms)
    requires GoodReduction(cs[|cs| - 1], r, under, ms)
    ensures GoodReductions(cs, rs + [r], under, ms)
  {
  }

  lemma {:induction false} KeptChildrenReady(n: Node, keep: seq<Node>, under: bool, ms: set<Metric>)
    requires Ready(n, under, ms) && forall c :: c in keep ==> c in n.children && c.key != OTHER
    ensures AllReady(keep, under || n.key == OTHER, ms)
  {
  }

  lemma {:induction false} FilterAll(cs: seq<Node>, f: Node -> bool)
    requires |Filter(cs, f)| == |cs|
    ensures Filter(cs, f) == cs
  {
    if cs != [] {
      var n := |cs| - 1;
      FilterFacts(cs[..n], f);
      FilterAll(cs[..n], f);
    }
  }

  lemma {:induction false} KeepsAll(cs: seq<Node>, k: nat)
    requires k <= |cs| && |Filter(cs[..k], Plain)| == |cs|
    ensures Filter(cs[..k], Plain) == cs
  {
    FilterFacts(cs[..k], Plain);
    FilterAll(cs[..k], Plain);
  }

  // ----- the selecting reduction -----

  lemma {:induction false} PlanSplits(n: Node, m: Metric, vm: ValueMap, sort: Sorter)
    requires DistinctKeys(n.children)
    ensures var t := PlanOf(n, m, vm, sort);
      && Split(t.cs, t.keep, t.drop) && DistinctKeys(t.cs) && (forall c :: c in t.cs <==> c in n.children)
      && forall m: Metric :: Sum(t.cs, m) == Sum(n.children, m)
  {
    var t := PlanOf(n, m, vm, sort);
    SortFacts(n.children, vm, sort);
    SplitAtCut(t.cs, CutIndex(t.cs, m, n.Value(m), 0, 0, 0));
  }

  lemma {:induction false} ReduceTreeGood(n: Node, m: Metric, vm: ValueMap, sort: Sorter, under: bool)
    requires Ready(n, under, {m})
    ensures GoodReduction(n, ReduceTree(n, m, vm, sort).node, under, {m})
    decreases Height(n), 1, 0
  {
    if n.children != [] {
      var t := PlanOf(n, m, vm, sort);
      PlanLowers(n, m, vm, sort);
      PlanSplits(n, m, vm, sort);
      KeptChildrenReady(n, t.keep, under, {m});
      ReduceEachGood(t.keep, m, vm, sort, under || n.key == OTHER);
      var kept := ReduceEach(t.keep, m, vm, sort);
      if |t.keep| == |t.cs| {
        KeepsAll(t.cs, CutIndex(t.cs, m, n.Value(m), 0, 0, 0));
        GoodWithoutOther(n, t.cs, kept.nodes, under, {m});
      } else {
        OtherReady(n, t.cs, t.drop, under || n.key == OTHER, {m});
        var other := BuildOther(n.fullKey, t.cs, t.drop, {m});
        var vm' := AbsorbAllValues(t.drop, GetOrCreateOther(n.fullKey, t.cs), kept.vm);
        ReduceTreeGood(other, m, vm', sort, under || n.key == OTHER);
        var r := ReduceTree(other, m, vm', sort);
        GoodWithOther(n, t.cs, t.keep, t.drop, kept.nodes, other, r.node, under, {m});
      }
    }
  }

  lemma {:induction false} ReduceEachGood(cs: seq<Node>, m: Metric, vm: ValueMap, sort: Sorter, under: bool)
    requires AllReady(cs, under, {m})
    ensures GoodReductions(cs, ReduceEach(cs, m, vm, sort).nodes, under, {m})
    decreases ForestHeight(cs), 0, |cs|
  {
    if cs != [] {
      var n := |cs| - 1;
      TallerThanChild(cs, n);
      AllReadySplit(cs, under, {m});
      var before := ReduceEach(cs[..n], m, vm, sort);
      ReduceEachGood(cs[..n], m, vm, sort, under);
      ReduceTreeGood(cs[n], m, before.vm, sort, under);
      GoodReductionsAppend(cs, before.nodes, ReduceTree(cs[n], m, before.vm, sort).node, under, {m});
    }
  }

  // ----- replaying a selection -----

  /** A selection never contains an "Other" node. */
  ghost predicate NoOther(sel: set<Path>) {
    forall p :: p in sel ==> p != [] && p[|p| - 1] != OTHER
  }

  lemma {:induction false} ReduceBySetGood(n: Node, sel: set<Path>, vm: ValueMap, sort: Sorter, under: bool)
    requires Ready(n, under, BOTH) && NoOther(sel)
    ensures GoodReduction(n, ReduceBySet(n, sel, vm, sort).node, under, BOTH)
    decreases Height(n), 1, 0
  {
    if n.children != [] {
      var keep, drop := Filter(n.children, Selected(sel)), Filter(n.children, Unselected(sel));
      SplitBySet(n.children, sel);
      SubforestHeight(keep, n.children);
      KeptChildrenReady(n, keep, under, BOTH);
      ReduceEachBySetGood(keep, sel, vm, sort, under || n.key == OTHER);
      var kept := ReduceEachBySet(keep, sel, vm, sort);
      if |keep| == |n.children| {
        FilterAll(n.children, Selected(sel));
        GoodWithoutOther(n, n.children, kept.nodes, under, BOTH);
        GoodAfterSort(n, kept.nodes, kept.vm, sort, under);
      } else {
        FilterFacts(n.children, Unselected(sel));
        OtherIsLower(n.fullKey, n.children, drop, BOTH);
        OtherReady(n, n.children, drop, under || n.key == OTHER, BOTH);
        var other := BuildOther(n.fullKey, n.children, drop, BOTH);
        ReduceBySetGood(other, sel, kept.vm, sort, under || n.key == OTHER);
        var r := ReduceBySet(other, sel, kept.vm, sort);
        GoodWithOther(n, n.children, keep, drop, kept.nodes, other, r.node, under, BOTH);
        var vm' := MarkOther(r.vm, r.node.fullKey);
        GoodAfterSort(n, WithOther(kept.nodes, r.node), vm', sort, under);
      }
    }
  }

  lemma {:induction false} GoodAfterSort(n: Node, rs: seq<Node>, vm: ValueMap, sort: Sorter, under: bool)
    requires Ready(n, under, BOTH) && n.children != []
    requires GoodReduction(n, n.(children := rs), under, BOTH)
    ensures GoodReduction(n, n.(children := SortChildren(rs, vm, sort)), under, BOTH)
  {
    var sorted := SortChildren(rs, vm, sort);
    SortFacts(rs, vm, sort);
    var r := n.(children := sorted);
    assert sorted == [] <==> rs == [] by {
      if rs != [] { assert rs[0] in sorted; }
      if sorted != [] { assert sorted[0] in rs; }
    }
  }

  lemma {:induction false} ReduceEachBySetGood(cs: seq<Node>, sel: set<Path>, vm: ValueMap, sort: Sorter, under: bool)
    requires NoOther(sel)
    requires AllReady(cs, under, BOTH)
    ensures GoodReductions(cs, ReduceEachBySet(cs, sel, vm, sort).nodes, under, BOTH)
    decreases ForestHeight(cs), 0, |cs|
  {
    if cs != [] {
      var n := |cs| - 1;
      TallerThanChild(cs, n);
      AllReadySplit(cs, under, BOTH);
      var before := ReduceEachBySet(cs[..n], sel, vm, sort);
      ReduceEachBySetGood(cs[..n], sel, vm, sort, under);
      ReduceBySetGood(cs[n], sel, before.vm, sort, under);
      GoodReductionsAppend(cs, before.nodes, ReduceBySet(cs[n], sel, before.vm, sort).node, under, BOTH);
    }
  }
}
