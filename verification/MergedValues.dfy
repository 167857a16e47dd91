/**
 The values that nodes below "Other" are sorted by: folding adds up the values of the nodes that are merged, and of
 those the largest are kept.
 */
module MergedValues {
  import opened Trees
  import opened Merge
  import opened Reduce
  import opened Conservation
  import opened Selection
  import opened Replay
  import opened Ranking
  import opened Folding

  // ----- one merge -----

  /** What a node gets when another one with this value is merged into it. */
  function Joined(a: Num, b: Num): Num {
    if a.Undefined? then b else AddNum(a, b)
  }

  lemma {:induction false} MergeValueAt(vm: ValueMap, from: Path, to: Path, id: Path)
    ensures Get(MergeValue(vm, from, to), id) == if id == to then Joined(Get(vm, to), Get(vm, from)) else Get(vm, id)
  {
  }

  /** Merging below a path changes no value elsewhere. */
  lemma {:induction false} MergeValuesOutside(froms: seq<Node>, tos: seq<Node>, vm: ValueMap, p: Path, k: Key,
                                              s: Path, id: Path)
    requires KeyedUnder(froms, p + [k] + s) && KeyedUnder(tos, p + [OTHER] + s) && !(p + [OTHER] + s < id)
    ensures Get(MergeValues(froms, tos, vm, |s|), id) == Get(vm, id)
    decreases froms, 0
  {
    hide KeyedUnder, WellKeyed, Get;
    if froms != [] {
      var n := |froms| - 1;
      KeyedFirst(froms, p + [k] + s);
      MergeValuesOutside(froms[..n], tos, vm, p, k, s, id);
      MergeKeyed(froms[..n], tos, p, k, s);
      MergeOneOutside(froms[n], MergeChildren(froms[..n], tos, |s|), MergeValues(froms[..n], tos, vm, |s|), p, k, s,
                      id);
    }
  }

  /** The paths of a node and of the one it is merged into. */
  lemma {:induction false} Paths(from: Node, tos: seq<Node>, p: Path, k: Key, s: Path)
    requires KeyedChild(from, p + [k] + s) && KeyedUnder(tos, p + [OTHER] + s)
    ensures var s', i := s + [from.key], FindKey(tos, from.key);
      && from.fullKey == p + [k] + s' && |s'| == |s| + 1 && KeyedUnder(from.children, p + [k] + s')
      && p + [OTHER] + s + [from.key] == p + [OTHER] + s'
      && (i < |tos| ==> tos[i].fullKey == p + [OTHER] + s' && KeyedUnder(tos[i].children, p + [OTHER] + s'))
      && RewriteKey(from.fullKey, |s|) == p + [OTHER] + s' && KeyedUnder([], p + [OTHER] + s')
  {
    var s', i := s + [from.key], FindKey(tos, from.key);
    assert p + [k] + s + [from.key] == p + [k] + s';
    assert (p + [k] + s')[|p| := OTHER] == p + [OTHER] + s';
    if i < |tos| {
      assert tos[i] in tos;
    }
  }

  lemma {:induction false} MergeOneOutside(from: Node, tos: seq<Node>, vm: ValueMap, p: Path, k: Key, s: Path, id: Path)
    requires KeyedChild(from, p + [k] + s) && KeyedUnder(tos, p + [OTHER] + s) && !(p + [OTHER] + s < id)
    ensures Get(MergeOneValue(from, tos, vm, |s|), id) == Get(vm, id)
    decreases from, 1
  {
    Paths(from, tos, p, k, s);
    var s', i := s + [from.key], FindKey(tos, from.key);
    var to := p + [OTHER] + s';
    var vm1 := MergeValue(vm, from.fullKey, to);
    assert p + [OTHER] + s < to;
    assert !(to < id) && id != to;
    MergeValueAt(vm, from.fullKey, to, id);
    hide KeyedUnder, WellKeyed, Get, MergeValue;
    MergeValuesOutside(from.children, if i < |tos| then tos[i].children else [], vm1, p, k, s', id);
  }

  /** Below it, the values of the nodes merged are joined. */
  lemma {:induction false} MergeValuesAt(froms: seq<Node>, tos: seq<Node>, vm: ValueMap, p: Path, k: Key, s: Path,
                                         q: Path)
    requires KeyedUnder(froms, p + [k] + s) && KeyedUnder(tos, p + [OTHER] + s) && k != OTHER && q != []
    ensures var id, from := p + [OTHER] + s + q, p + [k] + s + q;
      Get(MergeValues(froms, tos, vm, |s|), id) ==
      if Present(froms, q) then Joined(Get(vm, id), Get(vm, from)) else Get(vm, id)
    decreases froms, 0
  {
    if froms != [] {
      var n := |froms| - 1;
      var id, from := p + [OTHER] + s + q, p + [k] + s + q;
      KeyedFirst(froms, p + [k] + s);
      MergeKeyed(froms[..n], tos, p, k, s);
      LastLookup(froms, p + [k] + s, q);
      hide KeyedUnder, WellKeyed, Get, Present, MergeOneValue;
      MergeValuesAt(froms[..n], tos, vm, p, k, s, q);
      var before := MergeValues(froms[..n], tos, vm, |s|);
      NotBelowOther(p, k, s, q);
      MergeValuesOutside(froms[..n], tos, vm, p, k, s, from);
      MergeOneAt(froms[n], MergeChildren(froms[..n], tos, |s|), before, p, k, s, q);
    }
  }

  lemma {:induction false} NotBelowOther(p: Path, k: Key, s: Path, q: Path)
    requires k != OTHER
    ensures !(p + [OTHER] + s < p + [k] + s + q) && p + [k] + s + q != p + [OTHER] + s
  {
    assert (p + [k] + s + q)[|p|] == k && (p + [OTHER] + s)[|p|] == OTHER;
  }

  lemma {:induction false} LastLookup(froms: seq<Node>, p: Path, q: Path)
    requires KeyedUnder(froms, p) && froms != [] && q != []
    ensures var n := |froms| - 1;
      && (Present(froms, q) <==> Present(froms[..n], q) || TreePresent(froms[n], q))
      && !(Present(froms[..n], q) && TreePresent(froms[n], q))
  {
    var n := |froms| - 1;
    assert froms == froms[..n] + [froms[n]];
    LookupAppended(froms[..n], froms[n], q, Bytes);
  }

  lemma {:induction false} MergeOneAt(from: Node, tos: seq<Node>, vm: ValueMap, p: Path, k: Key, s: Path, q: Path)
    requires KeyedChild(from, p + [k] + s) && KeyedUnder(tos, p + [OTHER] + s) && k != OTHER && q != []
    ensures var id, src := p + [OTHER] + s + q, p + [k] + s + q;
      Get(MergeOneValue(from, tos, vm, |s|), id) ==
      if TreePresent(from, q) then Joined(Get(vm, id), Get(vm, src)) else Get(vm, id)
    decreases from, 1
  {
    Paths(from, tos, p, k, s);
    var s', i := s + [from.key], FindKey(tos, from.key);
    var to, id, src := p + [OTHER] + s', p + [OTHER] + s + q, p + [k] + s + q;
    var vm1 := MergeValue(vm, from.fullKey, to);
    var below := if i < |tos| then tos[i].children else [];
    var r := MergeOneValue(from, tos, vm, |s|);
    assert r == MergeValues(from.children, below, vm1, |s'|);
    MergeValueAt(vm, from.fullKey, to, id);
    MergeValueAt(vm, from.fullKey, to, src);
    NotBelowOther(p, k, s', q[1..]);
    hide KeyedUnder, WellKeyed, Get, MergeValue, MergeValues, MergeOneValue, Present;
    if q[0] != from.key {
      assert id[|p| + 1 + |s|] == q[0] && to[|p| + 1 + |s|] == from.key;
      MergeValuesOutside(from.children, below, vm1, p, k, s', id);
    } else {
      assert q == [q[0]] + q[1..];
      assert id == to + q[1..] && src == p + [k] + s' + q[1..];
      if |q| == 1 {
        assert id == to && src == from.fullKey;
        MergeValuesOutside(from.children, below, vm1, p, k, s', id);
      } else {
        assert |id| > |to|;
        MergeValuesAt(from.children, below, vm1, p, k, s', q[1..]);
      }
    }
  }

  // ----- all nodes that are folded -----

  /** The value at the path `q` below "Other" after the nodes `ds` below `p` have been merged into it. */
  function FoldedValue(ds: seq<Node>, p: Path, vm: ValueMap, q: Path): Num {
    if ds == [] then Get(vm, p + [OTHER] + q)
    else
      var d := ds[|ds| - 1];
      var before := FoldedValue(ds[..|ds| - 1], p, vm, q);
      if Present(d.children, q) then Joined(before, Get(vm, p + [d.key] + q)) else before
  }

  /** Nodes other than "Other" that are children of a node with full key `p`. */
  ghost predicate PlainBelow(ds: seq<Node>, p: Path) {
    forall d :: d in ds ==> KeyedChild(d, p) && d.key != OTHER
  }

  lemma {:induction false} AbsorbValuesAt(ds: seq<Node>, other: Node, vm: ValueMap, p: Path, q: Path)
    requires PlainBelow(ds, p) && KeyedChild(other, p) && other.key == OTHER && q != []
    ensures Get(AbsorbAllValues(ds, other, vm), p + [OTHER] + q) == FoldedValue(ds, p, vm, q)
  {
    hide Get, MergeValues, MergeChildren, Joined;
    if ds != [] {
      var n := |ds| - 1;
      var d := ds[n];
      assert d in ds && forall x :: x in ds[..n] ==> x in ds;
      AbsorbValuesAt(ds[..n], other, vm, p, q);
      AbsorbAllKeyed(ds[..n], other, p);
      var before := AbsorbAllValues(ds[..n], other, vm);
      NodeUnder(d, p);
      NodeUnder(AbsorbAll(ds[..n], other), p);
      assert p + [d.key] + [] == p + [d.key] && p + [OTHER] + [] == p + [OTHER];
      MergeValuesAt(d.children, AbsorbAll(ds[..n], other).children, before, p, d.key, [], q);
      NotBelowOther(p, d.key, [], q);
      AbsorbValuesOutside(ds[..n], other, vm, p, p + [d.key] + q);
    }
  }

  lemma {:induction false} NodeUnder(d: Node, p: Path)
    requires KeyedChild(d, p)
    ensures KeyedUnder(d.children, p + [d.key])
  {
  }

  lemma {:induction false} AbsorbValuesOutside(ds: seq<Node>, other: Node, vm: ValueMap, p: Path, id: Path)
    requires PlainBelow(ds, p) && KeyedChild(other, p) && other.key == OTHER && !(p + [OTHER] < id)
    ensures Get(AbsorbAllValues(ds, other, vm), id) == Get(vm, id)
  {
    hide WellKeyed, Get, AbsorbAll, KeyedUnder;
    if ds != [] {
      var n := |ds| - 1;
      var d := ds[n];
      assert d in ds && forall x :: x in ds[..n] ==> x in ds;
      AbsorbValuesOutside(ds[..n], other, vm, p, id);
      AbsorbAllKeyed(ds[..n], other, p);
      NodeUnder(d, p);
      NodeUnder(AbsorbAll(ds[..n], other), p);
      assert p + [d.key] + [] == p + [d.key] && p + [OTHER] + [] == p + [OTHER];
      MergeValuesOutside(d.children, AbsorbAll(ds[..n], other).children, AbsorbAllValues(ds[..n], other, vm), p, d.key,
                         [], id);
    }
  }

  // ----- the sum -----

  function Number(x: Num): int {
    if x.Of? then x.v else 0
  }

  function Part(d: Node, vm: ValueMap, q: Path): int {
    if Present(d.children, q) then Number(Get(vm, d.fullKey + q)) else 0
  }

  /** What the nodes `ds` contribute at `q`. */
  function RankSum(ds: seq<Node>, vm: ValueMap, q: Path): int {
    if ds == [] then 0 else RankSum(ds[..|ds| - 1], vm, q) + Part(ds[|ds| - 1], vm, q)
  }

  lemma {:induction false} FoldedIsSum(ds: seq<Node>, p: Path, vm: ValueMap, q: Path)
    requires PlainBelow(ds, p) && !Get(vm, p + [OTHER] + q).NaN?
    requires forall d :: d in ds && Present(d.children, q) ==> Get(vm, d.fullKey + q).Of?
    ensures var start := Get(vm, p + [OTHER] + q);
      FoldedValue(ds, p, vm, q) ==
      if start.Undefined? && !PresentBelow(ds, q) then Undefined else Of(Number(start) + RankSum(ds, vm, q))
  {
    hide Present, Get, WellKeyed;
    if ds == [] {
      Folding.NoneBelow(q);
    } else {
      var n := |ds| - 1;
      var d := ds[n];
      assert d in ds && forall x :: x in ds[..n] ==> x in ds;
      FoldedIsSum(ds[..n], p, vm, q);
      PresentBelowLast(ds, q);
      NothingYet(ds[..n], vm, q);
    }
  }

  lemma {:induction false} NothingYet(ds: seq<Node>, vm: ValueMap, q: Path)
    ensures !PresentBelow(ds, q) ==> RankSum(ds, vm, q) == 0
  {
    hide Present, Get;
    if ds != [] {
      NothingYet(ds[..|ds| - 1], vm, q);
      PresentBelowLast(ds, q);
    }
  }

  lemma {:induction false} RankSumConcat(a: seq<Node>, b: seq<Node>, vm: ValueMap, q: Path)
    ensures RankSum(a + b, vm, q) == RankSum(a, vm, q) + RankSum(b, vm, q)
  {
    hide Part;
    if b == [] {
      assert a + b == a;
    } else {
      assert (a + b)[..|a + b| - 1] == a + b[..|b| - 1];
      RankSumConcat(a, b[..|b| - 1], vm, q);
    }
  }

  lemma {:induction false} RankSumWithout(b: seq<Node>, j: nat, vm: ValueMap, q: Path)
    requires j < |b|
    ensures RankSum(b, vm, q) == RankSum(b[..j] + b[j + 1..], vm, q) + Part(b[j], vm, q)
  {
    hide Part;
    var x := b[j];
    assert b == b[..j] + [x] + b[j + 1..];
    RankSumConcat(b[..j] + [x], b[j + 1..], vm, q);
    RankSumConcat(b[..j], [x], vm, q);
    RankSumConcat(b[..j], b[j + 1..], vm, q);
    assert RankSum([x], vm, q) == Part(x, vm, q);
  }

  lemma {:induction false} RankSumSame(a: seq<Node>, b: seq<Node>, vm: ValueMap, q: Path)
    requires SameNodes(a, b)
    ensures RankSum(a, vm, q) == RankSum(b, vm, q)
    decreases |a|
  {
    hide Part;
    if b != [] {
      assert b[0] in a;
    }
    if a != [] {
      assert a[|a| - 1] in b;
      var j :| 0 <= j < |b| && b[j] == a[|a| - 1];
      WithoutLast(a, b, j);
      RankSumSame(a[..|a| - 1], b[..j] + b[j + 1..], vm, q);
      RankSumWithout(b, j, vm, q);
    }
  }

  lemma {:induction false} RankSumValues(ds: seq<Node>, vm: ValueMap, vm': ValueMap, q: Path)
    requires forall d :: d in ds ==> Get(vm', d.fullKey + q) == Get(vm, d.fullKey + q)
    ensures RankSum(ds, vm', q) == RankSum(ds, vm, q)
  {
    hide Present, Get;
    if ds != [] {
      RankSumValues(ds[..|ds| - 1], vm, vm', q);
      assert ds[|ds| - 1] in ds;
    }
  }

  // ----- where reducing changes values -----

  lemma {:induction false} ReduceTreeZone(n: Node, m: Metric, vm: ValueMap, sort: Sorter, id: Path)
    requires WellKeyed(n) && !(n.fullKey < id)
    ensures Get(ReduceTree(n, m, vm, sort).vm, id) == Get(vm, id)
    decreases Height(n), 1, 0
  {
    hide PlanOf, BuildOther, AbsorbAllValues, Get, WellKeyed, ReduceEach;
    if n.children != [] {
      var t := PlanOf(n, m, vm, sort);
      PlanKeeps(n, m, vm, sort);
      PlanLowers(n, m, vm, sort);
      var kept := ReduceEach(t.keep, m, vm, sort);
      forall c | c in t.keep ensures !(c.fullKey < id) {
        ChildZone(n, c, id);
      }
      ReduceEachZone(t.keep, m, vm, sort, n.fullKey, id);
      if |t.keep| != |t.cs| {
        var old' := GetOrCreateOther(n.fullKey, t.cs);
        var other := BuildOther(n.fullKey, t.cs, t.drop, {m});
        OtherKeyed(n, t.cs, t.drop, {m});
        var vm' := AbsorbAllValues(t.drop, old', kept.vm);
        BelowZone(n.fullKey, id);
        FoldParts(n, m, vm, sort);
        AbsorbValuesOutside(t.drop, old', kept.vm, n.fullKey, id);
        ReduceTreeZone(other, m, vm', sort, id);
      }
    }
  }

  lemma {:induction false} BelowZone(p: Path, id: Path)
    requires !(p < id)
    ensures !(p + [OTHER] < id)
  {
  }

  lemma {:induction false} ChildZone(n: Node, c: Node, id: Path)
    requires WellKeyed(n) && c in n.children && !(n.fullKey < id)
    ensures !(c.fullKey < id)
  {
  }

  lemma {:induction false} FoldParts(n: Node, m: Metric, vm: ValueMap, sort: Sorter)
    requires WellKeyed(n)
    ensures var t := PlanOf(n, m, vm, sort);
      var base := GetOrCreateOther(n.fullKey, t.cs);
      PlainBelow(t.drop, n.fullKey) && KeyedChild(base, n.fullKey) && base.key == OTHER
  {
    PlanKeeps(n, m, vm, sort);
    PlanParts(n, m, vm, sort);
    hide PlanOf;
    var t := PlanOf(n, m, vm, sort);
    if FindKey(t.cs, OTHER) < |t.cs| {
      assert t.cs[FindKey(t.cs, OTHER)] in n.children;
    }
  }

  lemma {:induction false} ReduceEachZone(cs: seq<Node>, m: Metric, vm: ValueMap, sort: Sorter, p: Path, id: Path)
    requires PlainSiblings(cs, p) && forall c :: c in cs ==> !(c.fullKey < id)
    ensures Get(ReduceEach(cs, m, vm, sort).vm, id) == Get(vm, id)
    decreases ForestHeight(cs), 0, |cs|
  {
    hide Get, ReduceTree;
    if cs != [] {
      var n := |cs| - 1;
      TallerThanChild(cs, n);
      PlainSiblingsSplit(cs, p);
      assert cs[n] in cs;
      ReduceEachZone(cs[..n], m, vm, sort, p, id);
      ReduceTreeZone(cs[n], m, ReduceEach(cs[..n], m, vm, sort).vm, sort, id);
    }
  }

  // ----- what is kept below "Other" -----

  /** The value that a node directly below "Other" is sorted by: the sum of the values of all nodes merged into it. */
  function MergedRank(ds: seq<Node>, cs: seq<Node>, vm: ValueMap, p: Path, k: Key): int {
    RankSum(ds, vm, [k]) + if Present(cs, [OTHER, k]) then Number(Get(vm, p + [OTHER, k])) else 0
  }

  /**
   All that meets below "Other" has a number: the children of the nodes folded away and of the old "Other", with no
   "Other" among them and nothing left uncovered, and no value stands there that belongs to no node.
   */
  ghost predicate FoldNumbered(n: Node, gone: seq<Node>, vm: ValueMap) {
    && (forall d, x :: (d in gone || (d in n.children && d.key == OTHER)) && x in d.children ==>
          x.key != OTHER && Get(vm, x.fullKey).Of?)
    && Missing(n.children, gone, Objects) == 0 && Missing(n.children, gone, Bytes) == 0
    && forall k :: !Present(n.children, [OTHER, k]) ==> Get(vm, n.fullKey + [OTHER, k]).Undefined?
  }

  lemma {:induction false} ChildOf(d: Node, k: Key)
    requires WellKeyed(d)
    ensures Present(d.children, [k]) <==> exists x :: x in d.children && x.key == k
    ensures forall x :: x in d.children && x.key == k ==> x.fullKey == d.fullKey + [k]
  {
    var i := FindKey(d.children, k);
    if i < |d.children| {
      assert d.children[i] in d.children;
    }
  }

  lemma {:induction false} OtherChild(cs: seq<Node>, k: Key)
    requires DistinctKeys(cs)
    ensures Present(cs, [OTHER, k]) <==> exists o :: o in cs && o.key == OTHER && Present(o.children, [k])
  {
    var i := FindKey(cs, OTHER);
    assert [OTHER, k][1..] == [k];
    if i < |cs| {
      assert cs[i] in cs;
      forall o | o in cs && o.key == OTHER ensures o == cs[i] {
        SameKeySame(cs, o, cs[i]);
      }
    }
  }

  lemma {:induction false} SumBelow(drop: seq<Node>, gone: seq<Node>, cs: seq<Node>, base: Node, vm: ValueMap,
                                    vm1: ValueMap, p: Path, k: Key)
    requires SameNodes(drop, gone) && PlainBelow(drop, p) && KeyedChild(base, p) && base.key == OTHER
    requires PresentBelow(gone, [k]) || Present(cs, [OTHER, k])
    requires Get(vm1, p + [OTHER] + [k]) == Get(vm, p + [OTHER] + [k])
    requires forall d :: d in drop ==> Get(vm1, d.fullKey + [k]) == Get(vm, d.fullKey + [k])
    requires forall d :: d in gone && Present(d.children, [k]) ==> Get(vm, d.fullKey + [k]).Of?
    requires if Present(cs, [OTHER, k]) then Get(vm, p + [OTHER, k]).Of? else Get(vm, p + [OTHER, k]).Undefined?
    ensures Get(AbsorbAllValues(drop, base, vm1), p + [OTHER] + [k]) == Of(MergedRank(gone, cs, vm, p, k))
  {
    hide AbsorbAllValues, Present, Get, WellKeyed, FoldedValue, RankSum;
    assert p + [OTHER] + [k] == p + [OTHER, k];
    AbsorbValuesAt(drop, base, vm1, p, [k]);
    FoldedIsSum(drop, p, vm1, [k]);
    RankSumValues(drop, vm, vm1, [k]);
    RankSumSame(drop, gone, vm, [k]);
    assert PresentBelow(drop, [k]) <==> PresentBelow(gone, [k]);
  }

  /** The value of a node directly below "Other" when "Other" is reduced. */
  lemma {:induction false} ValueBelow(n: Node, m: Metric, vm: ValueMap, sort: Sorter, k: Key)
    requires WellKeyed(n) && n.children != [] && k != OTHER
    requires var gone := Gone(n.children, ReduceTree(n, m, vm, sort).node.children);
      FoldNumbered(n, gone, vm) && (PresentBelow(gone, [k]) || Present(n.children, [OTHER, k]))
    ensures var t := PlanOf(n, m, vm, sort);
      var gone := Gone(n.children, ReduceTree(n, m, vm, sort).node.children);
      var vm' := AbsorbAllValues(t.drop, GetOrCreateOther(n.fullKey, t.cs), ReduceEach(t.keep, m, vm, sort).vm);
      Get(vm', n.fullKey + [OTHER] + [k]) == Of(MergedRank(gone, n.children, vm, n.fullKey, k))
  {
    hide PlanOf, ReduceTree, ReduceEach, Gone, GetOrCreateOther, AbsorbAllValues, Present, Get, WellKeyed, FoldNumbered,
         PresentBelow, MergedRank, PlainBelow, DistinctKeys;
    var t := PlanOf(n, m, vm, sort);
    var gone := Gone(n.children, ReduceTree(n, m, vm, sort).node.children);
    DropIsGone(n, m, vm, sort);
    FoldParts(n, m, vm, sort);
    KeptApart(n, m, vm, sort, k);
    GoneInside(n, ReduceTree(n, m, vm, sort).node.children);
    FoldSources(n, gone, vm, k);
    SumBelow(t.drop, gone, n.children, GetOrCreateOther(n.fullKey, t.cs), vm, ReduceEach(t.keep, m, vm, sort).vm,
             n.fullKey, k);
  }

  lemma {:induction false} GoneInside(n: Node, rs: seq<Node>)
    requires WellKeyed(n)
    ensures forall d :: d in Gone(n.children, rs) ==> d in n.children
  {
    GoneFacts(n.children, rs);
  }

  /** Reducing the kept children leaves the values that meet below "Other". */
  lemma {:induction false} KeptApart(n: Node, m: Metric, vm: ValueMap, sort: Sorter, k: Key)
    requires WellKeyed(n)
    ensures var t := PlanOf(n, m, vm, sort);
      var vm1 := ReduceEach(t.keep, m, vm, sort).vm;
      && Get(vm1, n.fullKey + [OTHER] + [k]) == Get(vm, n.fullKey + [OTHER] + [k])
      && forall d :: d in t.drop ==> Get(vm1, d.fullKey + [k]) == Get(vm, d.fullKey + [k])
  {
    var t := PlanOf(n, m, vm, sort);
    PlanKeeps(n, m, vm, sort);
    PlanParts(n, m, vm, sort);
    hide PlanOf, ReduceEach, Get;
    forall c | c in t.keep ensures !(c.fullKey < n.fullKey + [OTHER] + [k]) {
      SiblingApart(n.fullKey, c.key, OTHER, k);
    }
    ReduceEachZone(t.keep, m, vm, sort, n.fullKey, n.fullKey + [OTHER] + [k]);
    forall d | d in t.drop
      ensures Get(ReduceEach(t.keep, m, vm, sort).vm, d.fullKey + [k]) == Get(vm, d.fullKey + [k]) {
      forall c | c in t.keep ensures !(c.fullKey < d.fullKey + [k]) {
        assert c != d;
        if c.key == d.key {
          SameKeySame(n.children, c, d);
        }
        SiblingApart(n.fullKey, c.key, d.key, k);
      }
      ReduceEachZone(t.keep, m, vm, sort, n.fullKey, d.fullKey + [k]);
    }
  }

  lemma {:induction false} SiblingApart(p: Path, a: Key, b: Key, k: Key)
    requires a != b
    ensures !(p + [a] < p + [b] + [k])
  {
    assert (p + [a])[|p|] == a && (p + [b] + [k])[|p|] == b;
  }

  /** The values that are added up are numbers. */
  lemma {:induction false} FoldSources(n: Node, gone: seq<Node>, vm: ValueMap, k: Key)
    requires WellKeyed(n) && FoldNumbered(n, gone, vm) && forall d :: d in gone ==> d in n.children
    ensures forall d :: d in gone && Present(d.children, [k]) ==> Get(vm, d.fullKey + [k]).Of?
    ensures if Present(n.children, [OTHER, k]) then Get(vm, n.fullKey + [OTHER, k]).Of?
            else Get(vm, n.fullKey + [OTHER, k]).Undefined?
  {
    hide Get, Present;
    forall d | d in gone && Present(d.children, [k]) ensures Get(vm, d.fullKey + [k]).Of? {
      ChildOf(d, k);
    }
    OtherChild(n.children, k);
    if Present(n.children, [OTHER, k]) {
      var o :| o in n.children && o.key == OTHER && Present(o.children, [k]);
      ChildOf(o, k);
      assert o.fullKey + [k] == n.fullKey + [OTHER, k];
    }
  }

  /** What "Other" is the reduction of, and the values it is reduced with. */
  lemma {:induction false} FoldedAway(n: Node, m: Metric, vm: ValueMap, sort: Sorter) returns (b: Node, vm': ValueMap)
    requires WellKeyed(n)
    requires var rs := ReduceTree(n, m, vm, sort).node.children; FindKey(rs, OTHER) < |rs|
    requires n.children != []
    ensures var t := PlanOf(n, m, vm, sort);
      vm' == AbsorbAllValues(t.drop, GetOrCreateOther(n.fullKey, t.cs), ReduceEach(t.keep, m, vm, sort).vm)
    ensures var rs, o := ReduceTree(n, m, vm, sort).node.children, ReduceTree(b, m, vm', sort).node;
      && DistinctKeys(rs) && o in rs && o.key == OTHER && KeyedChild(b, n.fullKey) && b.key == OTHER
      && Together(b, n.children, Gone(n.children, rs), {m})
  {
    hide PlanOf, BuildOther, AbsorbAllValues, Gone, Together, ReduceEach, ReduceTree, WellKeyed, DistinctKeys;
    var t := PlanOf(n, m, vm, sort);
    var rs := ReduceTree(n, m, vm, sort).node.children;
    b := BuildOther(n.fullKey, t.cs, t.drop, {m});
    vm' := AbsorbAllValues(t.drop, GetOrCreateOther(n.fullKey, t.cs), ReduceEach(t.keep, m, vm, sort).vm);
    EndsWithOther(n, m, vm, sort);
    PlanKeeps(n, m, vm, sort);
    OtherKeyed(n, t.cs, t.drop, {m});
    ReduceTreeHead(b, m, vm', sort);
    DropIsGone(n, m, vm, sort);
    GoneInside(n, rs);
    PutTogether(n, t.cs, t.drop, rs, {m});
    SiblingsDistinct(n, m, vm, sort);
  }

  lemma {:induction false} SiblingsDistinct(n: Node, m: Metric, vm: ValueMap, sort: Sorter)
    requires WellKeyed(n) && n.children != []
    ensures DistinctKeys(ReduceTree(n, m, vm, sort).node.children)
  {
    ReduceTreeParts(n, m, vm, sort);
  }

  lemma {:induction false} EndsWithOther(n: Node, m: Metric, vm: ValueMap, sort: Sorter)
    requires WellKeyed(n) && n.children != []
    requires var rs := ReduceTree(n, m, vm, sort).node.children; FindKey(rs, OTHER) < |rs|
    ensures var t, kept := PlanOf(n, m, vm, sort), ReduceEach(PlanOf(n, m, vm, sort).keep, m, vm, sort);
      var vm' := AbsorbAllValues(t.drop, GetOrCreateOther(n.fullKey, t.cs), kept.vm);
      ReduceTree(n, m, vm, sort).node.children ==
      kept.nodes + [ReduceTree(BuildOther(n.fullKey, t.cs, t.drop, {m}), m, vm', sort).node]
  {
    hide PlanOf, BuildOther, AbsorbAllValues, ReduceEach, GetOrCreateOther;
    var t := PlanOf(n, m, vm, sort);
    PlanKeeps(n, m, vm, sort);
    ReduceEachHeads(t.keep, m, vm, sort);
    KeyStaysAbsent(t.keep, ReduceEach(t.keep, m, vm, sort).nodes, OTHER);
  }

  lemma {:induction false} BelowRoot(rs: seq<Node>, o: Node, k: Key)
    requires DistinctKeys(rs) && o in rs && o.key == OTHER
    ensures Present(rs, [OTHER, k]) <==> FindKey(o.children, k) < |o.children|
  {
    FindIn(rs, o, [OTHER, k]);
    assert [OTHER, k][1..] == [k];
  }

  lemma {:induction false} TogetherKeys(b: Node, cs: seq<Node>, ds: seq<Node>, ms: set<Metric>, k: Key)
    requires Together(b, cs, ds, ms) && k != OTHER
    ensures FindKey(b.children, k) < |b.children| <==> PresentBelow(ds, [k]) || Present(cs, [OTHER, k])
  {
    assert TogetherAt(b, cs, ds, ms, [k]);
    assert [OTHER] + [k] == [OTHER, k] && [k] != [OTHER];
  }

  /** Without nested "Other" nodes and with nothing left uncovered, no nested "Other" comes up. */
  lemma {:induction false} NoNestedOther(n: Node, b: Node, gone: seq<Node>, vm: ValueMap, ms: set<Metric>)
    requires Together(b, n.children, gone, ms) && FoldNumbered(n, gone, vm) && DistinctKeys(n.children)
    requires forall d :: d in gone ==> WellKeyed(d)
    ensures FindKey(b.children, OTHER) == |b.children|
  {
    assert TogetherAt(b, n.children, gone, ms, [OTHER]);
    OtherChild(n.children, OTHER);
    assert [OTHER] + [OTHER] == [OTHER, OTHER];
    hide Missing;
    forall d | d in gone ensures !Present(d.children, [OTHER]) {
      ChildOf(d, OTHER);
    }
    forall o | o in n.children && o.key == OTHER ensures !Present(o.children, [OTHER]) {
      PresentOne(o, OTHER);
    }
  }

  lemma {:induction false} PresentOne(d: Node, k: Key)
    ensures Present(d.children, [k]) <==> exists x :: x in d.children && x.key == k
  {
    var i := FindKey(d.children, k);
    if i < |d.children| {
      assert d.children[i] in d.children;
    }
  }

  /** All children of what "Other" is the reduction of have their merged values. */
  lemma {:induction false} BelowValues(n: Node, m: Metric, vm: ValueMap, sort: Sorter, b: Node, vm': ValueMap)
    requires WellKeyed(n) && n.children != [] && KeyedChild(b, n.fullKey) && b.key == OTHER
    requires var gone := Gone(n.children, ReduceTree(n, m, vm, sort).node.children);
      FoldNumbered(n, gone, vm) && Together(b, n.children, gone, {m})
    requires var t := PlanOf(n, m, vm, sort);
      vm' == AbsorbAllValues(t.drop, GetOrCreateOther(n.fullKey, t.cs), ReduceEach(t.keep, m, vm, sort).vm)
    ensures var gone := Gone(n.children, ReduceTree(n, m, vm, sort).node.children);
      forall x :: x in b.children ==>
        x.key != OTHER && Get(vm', x.fullKey) == Of(MergedRank(gone, n.children, vm, n.fullKey, x.key))
  {
    hide ReduceTree, PlanOf, Gone, AbsorbAllValues, Together, FoldNumbered, MergedRank, Get, Present, ReduceEach;
    var gone := Gone(n.children, ReduceTree(n, m, vm, sort).node.children);
    GoneFacts(n.children, ReduceTree(n, m, vm, sort).node.children);
    NoNestedOther(n, b, gone, vm, {m});
    forall x | x in b.children
      ensures x.key != OTHER && Get(vm', x.fullKey) == Of(MergedRank(gone, n.children, vm, n.fullKey, x.key))
    {
      var i :| 0 <= i < |b.children| && b.children[i] == x;
      assert x.key != OTHER;
      assert FindKey(b.children, x.key) <= i;
      TogetherKeys(b, n.children, gone, {m}, x.key);
      ValueBelow(n, m, vm, sort, x.key);
    }
  }

  /**
   Directly below "Other", too, no node that is folded away has a larger value than one that is kept, where a value is
   the sum of the values of all nodes merged into one.
   */
  lemma {:induction false} LargestBelowOther(n: Node, m: Metric, vm: ValueMap, sort: Sorter, a: Key, c: Key)
    requires WellKeyed(n) && SortsDown(sort) && a != OTHER && c != OTHER
    requires var rs := ReduceTree(n, m, vm, sort).node.children;
      var gone := Gone(n.children, rs);
      && FoldNumbered(n, gone, vm)
      && Present(rs, [OTHER, a]) && !Present(rs, [OTHER, c])
      && FindKey(rs, OTHER) < |rs| && (PresentBelow(gone, [c]) || Present(n.children, [OTHER, c]))
    ensures var gone := Gone(n.children, ReduceTree(n, m, vm, sort).node.children);
      MergedRank(gone, n.children, vm, n.fullKey, a) >= MergedRank(gone, n.children, vm, n.fullKey, c)
  {
    hide ReduceTree, PlanOf, Gone, AbsorbAllValues, Present, SortsDown, WellKeyed, Together, FoldNumbered, MergedRank,
         Get, PresentBelow, ReduceEach, GetOrCreateOther;
    var rs := ReduceTree(n, m, vm, sort).node.children;
    var gone := Gone(n.children, rs);
    LeafHasNone(n, m, vm, sort);
    var b, vm' := FoldedAway(n, m, vm, sort);
    var o := ReduceTree(b, m, vm', sort).node;
    BelowRoot(rs, o, a);
    BelowRoot(rs, o, c);
    TogetherKeys(b, n.children, gone, {m}, c);
    var i := PlainChild(b, m, vm', sort, a);
    var x := PlanOf(b, m, vm', sort).keep[i];
    var y := b.children[FindKey(b.children, c)];
    assert y in b.children;
    DroppedChild(b, m, vm', sort, y);
    BelowValues(n, m, vm, sort, b, vm');
    KeptBeforeDropped(b, m, vm', sort, x, y);
  }

  // ----- the values that are left behind -----

  /** Reducing a node leaves the values of its direct children. */
  lemma {:induction false} DirectKept(n: Node, m: Metric, vm: ValueMap, sort: Sorter, id: Path)
    requires WellKeyed(n) && |id| <= |n.fullKey| + 1
    ensures Get(ReduceTree(n, m, vm, sort).vm, id) == Get(vm, id)
  {
    hide PlanOf, BuildOther, AbsorbAllValues, Get, WellKeyed, ReduceEach, GetOrCreateOther;
    if n.children != [] {
      var t := PlanOf(n, m, vm, sort);
      PlanKeeps(n, m, vm, sort);
      var kept := ReduceEach(t.keep, m, vm, sort);
      ReduceEachZone(t.keep, m, vm, sort, n.fullKey, id);
      if |t.keep| != |t.cs| {
        OtherZone(n, m, vm, sort, id);
      }
    }
  }

  /** Folding and reducing what was folded changes values below "Other" only. */
  lemma {:induction false} OtherZone(n: Node, m: Metric, vm: ValueMap, sort: Sorter, id: Path)
    requires WellKeyed(n) && !(n.fullKey + [OTHER] < id)
    ensures var t, kept := PlanOf(n, m, vm, sort), ReduceEach(PlanOf(n, m, vm, sort).keep, m, vm, sort);
      var vm' := AbsorbAllValues(t.drop, GetOrCreateOther(n.fullKey, t.cs), kept.vm);
      Get(ReduceTree(BuildOther(n.fullKey, t.cs, t.drop, {m}), m, vm', sort).vm, id) == Get(kept.vm, id)
  {
    hide PlanOf, BuildOther, AbsorbAllValues, Get, WellKeyed, ReduceEach, ReduceTree, GetOrCreateOther;
    var t, kept := PlanOf(n, m, vm, sort), ReduceEach(PlanOf(n, m, vm, sort).keep, m, vm, sort);
    var base := GetOrCreateOther(n.fullKey, t.cs);
    PlanKeeps(n, m, vm, sort);
    OtherKeyed(n, t.cs, t.drop, {m});
    FoldParts(n, m, vm, sort);
    AbsorbValuesOutside(t.drop, base, kept.vm, n.fullKey, id);
    ReduceTreeZone(BuildOther(n.fullKey, t.cs, t.drop, {m}), m, AbsorbAllValues(t.drop, base, kept.vm), sort, id);
  }

  /** After a node has been reduced, the nodes directly below its "Other" child have the merged values. */
  lemma {:induction false} MergedValueStays(n: Node, m: Metric, vm: ValueMap, sort: Sorter, k: Key)
    requires WellKeyed(n) && k != OTHER
    requires var rs := ReduceTree(n, m, vm, sort).node.children;
      var gone := Gone(n.children, rs);
      && FoldNumbered(n, gone, vm) && FindKey(rs, OTHER) < |rs|
      && (PresentBelow(gone, [k]) || Present(n.children, [OTHER, k]))
    ensures var r := ReduceTree(n, m, vm, sort);
      Get(r.vm, n.fullKey + [OTHER, k]) ==
        Of(MergedRank(Gone(n.children, r.node.children), n.children, vm, n.fullKey, k))
  {
    hide PlanOf, BuildOther, AbsorbAllValues, Get, WellKeyed, ReduceEach, Gone, FoldNumbered, MergedRank, Together,
         PresentBelow, Present, GetOrCreateOther;
    LeafHasNone(n, m, vm, sort);
    var t := PlanOf(n, m, vm, sort);
    ValueBelow(n, m, vm, sort, k);
    PlanKeeps(n, m, vm, sort);
    OtherKeyed(n, t.cs, t.drop, {m});
    var b := BuildOther(n.fullKey, t.cs, t.drop, {m});
    var vm' := AbsorbAllValues(t.drop, GetOrCreateOther(n.fullKey, t.cs), ReduceEach(t.keep, m, vm, sort).vm);
    assert n.fullKey + [OTHER] + [k] == n.fullKey + [OTHER, k];
    DirectKept(b, m, vm', sort, n.fullKey + [OTHER, k]);
    SomethingFolded(n, m, vm, sort);
  }

  lemma {:induction false} LeafHasNone(n: Node, m: Metric, vm: ValueMap, sort: Sorter)
    ensures n.children == [] ==> ReduceTree(n, m, vm, sort).node.children == []
  {
  }

  lemma {:induction false} SomethingFolded(n: Node, m: Metric, vm: ValueMap, sort: Sorter)
    requires WellKeyed(n) && n.children != []
    requires var rs := ReduceTree(n, m, vm, sort).node.children; FindKey(rs, OTHER) < |rs|
    ensures var t := PlanOf(n, m, vm, sort); |t.keep| != |t.cs|
  {
    hide PlanOf, BuildOther, AbsorbAllValues, ReduceEach, GetOrCreateOther;
    var t := PlanOf(n, m, vm, sort);
    PlanKeeps(n, m, vm, sort);
    ReduceEachHeads(t.keep, m, vm, sort);
    KeyStaysAbsent(t.keep, ReduceEach(t.keep, m, vm, sort).nodes, OTHER);
  }

  /** What reducing a kept child leaves below it is still there when its parent has been reduced. */
  lemma {:induction false} ChildValuesStay(n: Node, m: Metric, vm: ValueMap, sort: Sorter, i: nat, id: Path)
    requires WellKeyed(n) && n.children != []
    requires var keep := PlanOf(n, m, vm, sort).keep; i < |keep| && keep[i].fullKey < id
    ensures var keep := PlanOf(n, m, vm, sort).keep;
      Get(ReduceTree(n, m, vm, sort).vm, id) ==
      Get(ReduceTree(keep[i], m, ReduceEach(keep[..i], m, vm, sort).vm, sort).vm, id)
  {
    hide PlanOf, BuildOther, AbsorbAllValues, Get, WellKeyed, ReduceEach, GetOrCreateOther;
    var t := PlanOf(n, m, vm, sort);
    PlanKeeps(n, m, vm, sort);
    EachValuesStay(t.keep, m, vm, sort, n.fullKey, i, id);
    PlainPrefix(t.keep, i, n.fullKey);
    assert t.keep[i] in t.keep;
    NotUnderOther(n.fullKey, t.keep[i].key, id);
    if |t.keep| != |t.cs| {
      OtherZone(n, m, vm, sort, id);
    }
  }

  lemma {:induction false} NotUnderOther(p: Path, k: Key, id: Path)
    requires k != OTHER && p + [k] < id
    ensures !(p + [OTHER] < id)
  {
    assert id[|p|] == (p + [k])[|p|] == k && (p + [OTHER])[|p|] == OTHER;
  }

  lemma {:induction false} EachValuesStay(cs: seq<Node>, m: Metric, vm: ValueMap, sort: Sorter, p: Path, i: nat,
                                          id: Path)
    requires PlainSiblings(cs, p) && i < |cs| && cs[i].fullKey < id
    ensures Get(ReduceEach(cs, m, vm, sort).vm, id) ==
      Get(ReduceTree(cs[i], m, ReduceEach(cs[..i], m, vm, sort).vm, sort).vm, id)
    decreases |cs|
  {
    hide Get, ReduceTree, WellKeyed;
    var n := |cs| - 1;
    PlainSiblingsSplit(cs, p);
    if i < n {
      EachValuesStay(cs[..n], m, vm, sort, p, i, id);
      assert cs[..n][..i] == cs[..i];
      assert cs[i] in cs && cs[n] in cs;
      assert id[|p|] == cs[i].fullKey[|p|] == cs[i].key && cs[n].fullKey[|p|] == cs[n].key;
      ReduceTreeZone(cs[n], m, ReduceEach(cs[..n], m, vm, sort).vm, sort, id);
    }
  }
}
