/**
 What the "Other" child of a reduced node holds: path by path the sum of the children that were folded away and of
 the "Other" child that was there before, at every node of the result, for both reductions.
 */
module Folding {
  import opened Trees
  import opened Merge
  import opened Reduce
  import opened Conservation
  import opened Selection
  import opened Replay
  import opened Permutations

  // ----- sums over several nodes -----

  /** What a node holds at a path below it, and all its children together where the path is empty. */
  function Inside(d: Node, q: Path, m: Metric): int {
    if q == [] then Sum(d.children, m) else ValueAt(d.children, q, m)
  }

  function SumAt(ds: seq<Node>, q: Path, m: Metric): int {
    if ds == [] then 0 else SumAt(ds[..|ds| - 1], q, m) + Inside(ds[|ds| - 1], q, m)
  }

  ghost predicate PresentBelow(ds: seq<Node>, q: Path) {
    exists d :: d in ds && Present(d.children, q)
  }

  lemma {:induction false} SumAtConcat(a: seq<Node>, b: seq<Node>, q: Path, m: Metric)
    ensures SumAt(a + b, q, m) == SumAt(a, q, m) + SumAt(b, q, m)
  {
    hide Inside;
    if b == [] {
      assert a + b == a;
    } else {
      assert (a + b)[..|a + b| - 1] == a + b[..|b| - 1];
      SumAtConcat(a, b[..|b| - 1], q, m);
    }
  }

  lemma {:induction false} SumAtWithout(b: seq<Node>, j: nat, q: Path, m: Metric)
    requires j < |b|
    ensures SumAt(b, q, m) == SumAt(b[..j] + b[j + 1..], q, m) + Inside(b[j], q, m)
  {
    hide Inside;
    var x := b[j];
    assert b == b[..j] + [x] + b[j + 1..];
    SumAtConcat(b[..j] + [x], b[j + 1..], q, m);
    SumAtConcat(b[..j], [x], q, m);
    SumAtConcat(b[..j], b[j + 1..], q, m);
    assert SumAt([x], q, m) == Inside(x, q, m);
  }

  /** The same nodes, perhaps in another order. */
  ghost predicate SameNodes(a: seq<Node>, b: seq<Node>) {
    DistinctKeys(a) && DistinctKeys(b) && forall c :: c in a <==> c in b
  }

  lemma {:induction false} SumAtSame(a: seq<Node>, b: seq<Node>, q: Path, m: Metric)
    requires SameNodes(a, b)
    ensures SumAt(a, q, m) == SumAt(b, q, m) && Sum(a, m) == Sum(b, m)
    decreases |a|
  {
    if b != [] {
      assert b[0] in a;
    }
    if a != [] {
      var n, x := |a| - 1, a[|a| - 1];
      assert x in b;
      var j :| 0 <= j < |b| && b[j] == x;
      var b' := b[..j] + b[j + 1..];
      WithoutLast(a, b, j);
      SumAtSame(a[..n], b', q, m);
      SumAtWithout(b, j, q, m);
      SumWithout(b, j, m);
    }
  }

  lemma {:induction false} StillDistinct(b: seq<Node>, j: nat)
    requires DistinctKeys(b) && j < |b|
    ensures DistinctKeys(b[..j] + b[j + 1..])
  {
    var rest := b[..j] + b[j + 1..];
    forall x, y | 0 <= x < y < |rest| ensures rest[x].key != rest[y].key {
      assert rest[x] == b[if x < j then x else x + 1] && rest[y] == b[if y < j then y else y + 1];
    }
  }

  /** Taking one node out leaves exactly the nodes with another key. */
  lemma {:induction false} TakenOut(b: seq<Node>, j: nat)
    requires DistinctKeys(b) && j < |b|
    ensures var rest := b[..j] + b[j + 1..];
      DistinctKeys(rest) && forall c :: c in rest <==> c in b && c.key != b[j].key
  {
    var rest := b[..j] + b[j + 1..];
    StillDistinct(b, j);
    forall c | c in rest ensures c in b && c.key != b[j].key {
      var i :| 0 <= i < |rest| && rest[i] == c;
      assert c == b[if i < j then i else i + 1];
    }
    forall c | c in b && c.key != b[j].key ensures c in rest {
      var i :| 0 <= i < |b| && b[i] == c;
      assert c == rest[if i < j then i else i - 1];
    }
  }

  lemma {:induction false} WithoutLast(a: seq<Node>, b: seq<Node>, j: nat)
    requires SameNodes(a, b) && a != [] && j < |b| && b[j] == a[|a| - 1]
    ensures SameNodes(a[..|a| - 1], b[..j] + b[j + 1..])
  {
    var n := |a| - 1;
    assert a[..n] + a[n + 1..] == a[..n];
    TakenOut(a, n);
    TakenOut(b, j);
    hide DistinctKeys;
  }

  // ----- the fix of an "Other" node -----

  /** What the children of a node leave uncovered. */
  function Uncovered(n: Node, m: Metric): int {
    n.Value(m) - Sum(n.children, m)
  }

  /** Nested "Other" children are the only ones to change: raised by what was missing, in the metrics asked for. */
  lemma {:induction false} FixOtherAt(other: Node, ms: set<Metric>, q: Path, m: Metric)
    requires q != []
    ensures var cs, fixed := other.children, FixOther(other, ms).children;
      && ValueAt(fixed, q, m) ==
         ValueAt(cs, q, m) + (if q == [OTHER] && cs != [] && m in ms then Uncovered(other, m) else 0)
      && (Present(fixed, q) <==>
          Present(cs, q) ||
          (q == [OTHER] && cs != [] && (Uncovered(other, Objects) != 0 || Uncovered(other, Bytes) != 0)))
  {
    var cs := other.children;
    var dO, dB := Uncovered(other, Objects), Uncovered(other, Bytes);
    if cs != [] && (dO != 0 || dB != 0) {
      var objects, bytes := if Objects in ms then dO else 0, if Bytes in ms then dB else 0;
      AddToOtherAt(other, objects, bytes, q, m);
    }
  }

  lemma {:induction false} AddToOtherAt(n: Node, objects: int, bytes: int, q: Path, m: Metric)
    requires q != []
    ensures var cs, raised := n.children, AddToOther(n, objects, bytes).children;
      && ValueAt(raised, q, m) ==
         ValueAt(cs, q, m) + (if q == [OTHER] then (if m.Bytes? then bytes else objects) else 0)
      && (Present(raised, q) <==> Present(cs, q) || q == [OTHER])
  {
    var cs := n.children;
    var i := FindKey(cs, OTHER);
    if i < |cs| {
      LookupReplaced(cs, i, cs[i].Plus(objects, bytes), q, m);
    } else {
      LookupAppended(cs, EmptyOther(n.fullKey).Plus(objects, bytes), q, m);
      assert q[0] == OTHER && |q| > 1 ==> !Present([], q[1..]) && ValueAt([], q[1..], m) == 0;
    }
    assert q == [OTHER] <==> |q| == 1 && q[0] == OTHER;
  }

  /** All children but the nested "Other" stay what and where they are; one is added at the end at most. */
  lemma {:induction false} FixOtherKeeps(other: Node, ms: set<Metric>)
    ensures var cs, fixed := other.children, FixOther(other, ms).children;
      && FixOther(other, ms).SameHead(other)
      && |cs| <= |fixed| <= |cs| + 1
      && (forall i :: 0 <= i < |cs| ==>
            fixed[i].key == cs[i].key && fixed[i].children == cs[i].children
            && (cs[i].key != OTHER ==> fixed[i] == cs[i]))
      && (|fixed| == |cs| + 1 ==> fixed[|cs|].key == OTHER && fixed[|cs|].children == [])
      && (cs == [] ==> fixed == [])
  {
  }

  // ----- merging -----

  lemma {:induction false} MergeEmpty(froms: seq<Node>, tos: seq<Node>, level: int)
    ensures MergeChildren(froms, tos, level) == [] <==> froms == [] && tos == []
  {
    if froms != [] {
      var n := |froms| - 1;
      MergeEmpty(froms[..n], tos, level);
    }
  }

  ghost predicate AllLeaves(ds: seq<Node>) {
    forall d :: d in ds ==> d.children == []
  }

  /** The "Other" node holds, path by path, the sum of everything folded into it. */
  lemma {:induction false} FoldedPointwise(drop: seq<Node>, other: Node, q: Path, m: Metric)
    requires q != [] && forall d :: d in drop ==> DistinctDeep(d.children)
    ensures var r := AbsorbAll(drop, other);
      && ValueAt(r.children, q, m) == SumAt(drop, q, m) + ValueAt(other.children, q, m)
      && (Present(r.children, q) <==> PresentBelow(drop, q) || Present(other.children, q))
  {
    hide ValueAt, Present, PresentBelow, DistinctDeep, MergeChildren;
    if drop == [] {
      NoneBelow(q);
    } else {
      var n := |drop| - 1;
      FoldedPointwise(drop[..n], other, q, m);
      assert drop[n] in drop;
      MergePointwise(drop[n].children, AbsorbAll(drop[..n], other).children, 0, q, m);
      PresentBelowLast(drop, q);
    }
  }

  /** Its own metrics and the sum of its children, and when it has none. */
  lemma {:induction false} FoldedTotals(drop: seq<Node>, other: Node, m: Metric)
    ensures var r := AbsorbAll(drop, other);
      && r.Value(m) == Sum(drop, m) + other.Value(m)
      && Sum(r.children, m) == SumAt(drop, [], m) + Sum(other.children, m)
      && (r.children == [] <==> AllLeaves(drop) && other.children == [])
      && r.fullKey == other.fullKey && r.key == other.key
  {
    hide MergeChildren;
    if drop != [] {
      var n := |drop| - 1;
      FoldedTotals(drop[..n], other, m);
      var before := AbsorbAll(drop[..n], other);
      MergeSum(drop[n].children, before.children, 0, m);
      MergeEmpty(drop[n].children, before.children, 0);
      assert drop[n] in drop && forall d :: d in drop <==> d in drop[..n] || d == drop[n];
    }
  }

  lemma {:induction false} NoneBelow(q: Path)
    ensures !PresentBelow([], q)
  {
  }

  lemma {:induction false} PresentBelowLast(ds: seq<Node>, q: Path)
    requires ds != []
    ensures var n := |ds| - 1;
      PresentBelow(ds, q) <==> PresentBelow(ds[..n], q) || Present(ds[n].children, q)
  {
    hide Present;
    var n := |ds| - 1;
    assert ds[n] in ds && forall d :: d in ds <==> d in ds[..n] || d == ds[n];
  }

  // ----- what "Other" stands for -----

  /** The children of a node that are missing among the children of its reduction. */
  ghost function Gone(cs: seq<Node>, rs: seq<Node>): seq<Node> {
    Filter(cs, GoneFrom(rs))
  }

  ghost function GoneFrom(rs: seq<Node>): Node -> bool {
    (c: Node) => c.key != OTHER && FindKey(rs, c.key) == |rs|
  }

  /** What the children of `ds` and of the "Other" child of `cs` do not cover. */
  ghost function Missing(cs: seq<Node>, ds: seq<Node>, m: Metric): int {
    Sum(ds, m) - SumAt(ds, [], m) + ValueAt(cs, [OTHER], m) - OldSum(cs, m)
  }

  function OldSum(cs: seq<Node>, m: Metric): int {
    var i := FindKey(cs, OTHER);
    if i < |cs| then Sum(cs[i].children, m) else 0
  }

  /** None of the nodes that are put together has children. */
  ghost predicate NothingBelow(cs: seq<Node>, ds: seq<Node>) {
    AllLeaves(ds) && forall c :: c in cs && c.key == OTHER ==> c.children == []
  }

  /**
   `b` is all of `ds` and the "Other" child of `cs` put together. At every path it is their sum; only its own nested
   "Other" child is raised, where it has children, by what these do not cover, in the metrics `ms`.
   */
  ghost predicate Together(b: Node, cs: seq<Node>, ds: seq<Node>, ms: set<Metric>) {
    && (forall m: Metric :: b.Value(m) == Sum(ds, m) + ValueAt(cs, [OTHER], m))
    && (b.children == [] <==> NothingBelow(cs, ds))
    && forall q :: q != [] ==> TogetherAt(b, cs, ds, ms, q)
  }

  ghost predicate TogetherAt(b: Node, cs: seq<Node>, ds: seq<Node>, ms: set<Metric>, q: Path)
    requires q != []
  {
    && (forall m: Metric ::
          ValueAt(b.children, q, m) == SumAt(ds, q, m) + ValueAt(cs, [OTHER] + q, m)
            + if q == [OTHER] && b.children != [] && m in ms then Missing(cs, ds, m) else 0)
    && (Present(b.children, q) <==>
        || PresentBelow(ds, q) || Present(cs, [OTHER] + q)
        || (q == [OTHER] && b.children != [] && (Missing(cs, ds, Objects) != 0 || Missing(cs, ds, Bytes) != 0)))
  }

  lemma {:induction false} OldOtherAt(parent: Path, cs: seq<Node>, q: Path, m: Metric)
    requires q != []
    ensures var other := GetOrCreateOther(parent, cs);
      && other.Value(m) == ValueAt(cs, [OTHER], m) && Sum(other.children, m) == OldSum(cs, m)
      && ValueAt(other.children, q, m) == ValueAt(cs, [OTHER] + q, m)
      && (Present(other.children, q) <==> Present(cs, [OTHER] + q))
  {
    assert ([OTHER] + q)[1..] == q;
  }

  lemma {:induction false} OldOtherLeaf(parent: Path, cs: seq<Node>)
    requires DistinctKeys(cs)
    ensures GetOrCreateOther(parent, cs).children == [] <==> forall c :: c in cs && c.key == OTHER ==> c.children == []
  {
    var i := FindKey(cs, OTHER);
    if i < |cs| {
      assert cs[i] in cs;
      forall c | c in cs && c.key == OTHER ensures c == cs[i] {
        var j :| 0 <= j < |cs| && cs[j] == c;
        FindKeyUnique(cs, j);
      }
    }
  }

  lemma {:induction false} BuildTogether(parent: Path, cs: seq<Node>, ds: seq<Node>, ms: set<Metric>)
    requires DistinctKeys(cs) && forall d :: d in ds ==> DistinctDeep(d.children)
    ensures Together(BuildOther(parent, cs, ds, ms), cs, ds, ms)
  {
    hide ValueAt, Present, Sum, SumAt, AbsorbAll, FixOther, GetOrCreateOther, NothingBelow, PresentBelow, AllLeaves,
      OldSum,
         DistinctDeep;
    var was := GetOrCreateOther(parent, cs);
    var all := AbsorbAll(ds, was);
    var b := FixOther(all, ms);
    FixOtherKeeps(all, ms);
    OldOtherLeaf(parent, cs);
    forall m: Metric
      ensures b.Value(m) == Sum(ds, m) + ValueAt(cs, [OTHER], m) && Uncovered(all, m) == Missing(cs, ds, m)
    {
      FoldedTotals(ds, was, m);
      OldOtherAt(parent, cs, [OTHER], m);
    }
    FoldedTotals(ds, was, Bytes);
    NothingBelowIs(cs, ds);
    forall q | q != [] ensures TogetherAt(b, cs, ds, ms, q) {
      forall m: Metric
        ensures ValueAt(b.children, q, m) == SumAt(ds, q, m) + ValueAt(cs, [OTHER] + q, m)
                  + if q == [OTHER] && b.children != [] && m in ms then Missing(cs, ds, m) else 0
      {
        FixOtherAt(all, ms, q, m);
        FoldedPointwise(ds, was, q, m);
        OldOtherAt(parent, cs, q, m);
      }
      FixOtherAt(all, ms, q, Bytes);
      FoldedPointwise(ds, was, q, Bytes);
      OldOtherAt(parent, cs, q, Bytes);
    }
  }

  lemma {:induction false} NothingBelowIs(cs: seq<Node>, ds: seq<Node>)
    ensures NothingBelow(cs, ds) <==> AllLeaves(ds) && forall c :: c in cs && c.key == OTHER ==> c.children == []
  {
  }

  // ----- order does not matter -----

  lemma {:induction false} SameLookup(a: seq<Node>, b: seq<Node>, q: Path, m: Metric)
    requires SameNodes(a, b) && q != []
    ensures ValueAt(a, q, m) == ValueAt(b, q, m) && (Present(a, q) <==> Present(b, q))
  {
    var i, j := FindKey(a, q[0]), FindKey(b, q[0]);
    if j < |b| {
      assert b[j] in a;
    }
    if i < |a| {
      assert a[i] in b;
      FindIn(a, a[i], q);
      FindIn(b, a[i], q);
    }
  }

  lemma {:induction false} SameOldSum(a: seq<Node>, b: seq<Node>, m: Metric)
    requires SameNodes(a, b)
    ensures OldSum(a, m) == OldSum(b, m)
  {
    var i, j := FindKey(a, OTHER), FindKey(b, OTHER);
    if j < |b| {
      assert b[j] in a;
    }
    if i < |a| {
      assert a[i] in b;
      var k :| 0 <= k < |b| && b[k] == a[i];
      FindKeyUnique(b, k);
    }
  }

  lemma {:induction false} TogetherSame(b: Node, cs: seq<Node>, ds: seq<Node>, cs': seq<Node>, ds': seq<Node>,
                                        ms: set<Metric>)
    requires Together(b, cs, ds, ms) && SameNodes(cs, cs') && SameNodes(ds, ds')
    ensures Together(b, cs', ds', ms)
  {
    hide ValueAt, Present, Sum, SumAt, OldSum;
    forall m: Metric
      ensures b.Value(m) == Sum(ds', m) + ValueAt(cs', [OTHER], m) && Missing(cs, ds, m) == Missing(cs', ds', m)
    {
      SumAtSame(ds, ds', [], m);
      SameLookup(cs, cs', [OTHER], m);
      SameOldSum(cs, cs', m);
    }
    forall q | q != [] ensures TogetherAt(b, cs', ds', ms, q) {
      assert TogetherAt(b, cs, ds, ms, q);
      forall m: Metric
        ensures SumAt(ds, q, m) == SumAt(ds', q, m) && ValueAt(cs, [OTHER] + q, m) == ValueAt(cs', [OTHER] + q, m)
      {
        SumAtSame(ds, ds', q, m);
        SameLookup(cs, cs', [OTHER] + q, m);
      }
      SameLookup(cs, cs', [OTHER] + q, Bytes);
      assert PresentBelow(ds, q) <==> PresentBelow(ds', q);
    }
  }

  // ----- every node of a reduction -----

  /** What a plain path below "Other" holds. */
  ghost predicate OtherHolds(cs: seq<Node>, rs: seq<Node>) {
    forall q :: PlainPath(q) ==> OtherHoldsAt(cs, rs, q)
  }

  ghost predicate OtherHoldsAt(cs: seq<Node>, rs: seq<Node>, q: Path) {
    Present(rs, [OTHER] + q) ==>
      && (PresentBelow(Gone(cs, rs), q) || Present(cs, [OTHER] + q))
      && forall m: Metric ::
           ValueAt(rs, [OTHER] + q, m) == SumAt(Gone(cs, rs), q, m) + ValueAt(cs, [OTHER] + q, m)
  }

  /**
   `r` is a reduction of `n` in which nothing gets lost: a child other than "Other" is a reduction of a child; there is
   an "Other" child just where something was folded away or one was there, it is a reduction of all that was folded
   away put together, and what it holds at a path without "Other" is the sum of what these hold there.
   */
  ghost predicate Folds(n: Node, r: Node, ms: set<Metric>)
    decreases r, 0
  {
    && r.SameHead(n) && (r.children == [] <==> n.children == [])
    && (FindKey(r.children, OTHER) < |r.children| <==>
        Gone(n.children, r.children) != [] || FindKey(n.children, OTHER) < |n.children|)
    && OtherHolds(n.children, r.children)
    && forall c :: c in r.children ==> FoldsChild(n.children, r.children, c, ms)
  }

  ghost predicate FoldsChild(cs: seq<Node>, rs: seq<Node>, c: Node, ms: set<Metric>)
    decreases c, 1
  {
    exists b: Node ::
      && Folds(b, c, ms)
      && if c.key == OTHER then Together(b, cs, Gone(cs, rs), ms) else b in cs
  }

  lemma {:induction false} GoneFacts(cs: seq<Node>, rs: seq<Node>)
    requires DistinctKeys(cs)
    ensures DistinctKeys(Gone(cs, rs))
    ensures forall c :: c in Gone(cs, rs) <==> c in cs && c.key != OTHER && FindKey(rs, c.key) == |rs|
  {
    FilterFacts(cs, GoneFrom(rs));
  }

  lemma {:induction false} SameKeySame(cs: seq<Node>, a: Node, b: Node)
    requires DistinctKeys(cs) && a in cs && b in cs && a.key == b.key
    ensures a == b
  {
    var i :| 0 <= i < |cs| && cs[i] == a;
    var j :| 0 <= j < |cs| && cs[j] == b;
    FindKeyUnique(cs, i);
    FindKeyUnique(cs, j);
  }

  /** A child that is not among those kept is gone. */
  lemma {:induction false} NotKeptIsGone(cs: seq<Node>, keep: seq<Node>, kept: seq<Node>, rs: seq<Node>, c: Node)
    requires KeptOrOther(cs, keep, kept, rs) && c in cs && c.key != OTHER
    ensures FindKey(rs, c.key) == |rs| <==> c !in keep
  {
    var i := FindKey(rs, c.key);
    if c in keep {
      var j :| 0 <= j < |keep| && keep[j] == c;
      assert kept[j] in rs;
    }
    if i < |rs| {
      assert rs[i] in rs && rs[i] in kept;
      var j :| 0 <= j < |kept| && kept[j] == rs[i];
      assert keep[j] in keep;
      SameKeySame(cs, c, keep[j]);
    }
  }

  lemma {:induction false} DropIsGone(n: Node, m: Metric, vm: ValueMap, sort: Sorter)
    requires WellKeyed(n) && n.children != []
    ensures var t := PlanOf(n, m, vm, sort);
      var rs := ReduceTree(n, m, vm, sort).node.children;
      SameNodes(t.drop, Gone(n.children, rs)) && SameNodes(t.cs, n.children)
  {
    hide PlanOf, ReduceTree, ReduceEach, KeptOrOther, WellKeyed, PlainSiblings, Gone, DistinctKeys;
    var t := PlanOf(n, m, vm, sort);
    var kept, rs := ReduceEach(t.keep, m, vm, sort).nodes, ReduceTree(n, m, vm, sort).node.children;
    KeyedDistinct(n);
    PlanKeeps(n, m, vm, sort);
    PlanParts(n, m, vm, sort);
    ReduceTreeParts(n, m, vm, sort);
    GoneFacts(n.children, rs);
    forall c | c in n.children && c.key != OTHER ensures c in t.drop <==> FindKey(rs, c.key) == |rs| {
      NotKeptIsGone(n.children, t.keep, kept, rs, c);
    }
  }

  lemma {:induction false} PlanParts(n: Node, m: Metric, vm: ValueMap, sort: Sorter)
    requires WellKeyed(n)
    ensures var t := PlanOf(n, m, vm, sort);
      && DistinctKeys(t.cs) && DistinctKeys(t.drop)
      && (forall c :: c in t.drop ==> c in n.children && c.key != OTHER)
      && (forall c :: c in n.children && c.key != OTHER ==> (c in t.drop <==> c !in t.keep))
  {
    var t := PlanOf(n, m, vm, sort);
    var k := CutIndex(t.cs, m, n.Value(m), 0, 0, 0);
    SortFacts(n.children, vm, sort);
    hide SortChildren, CutIndex, Filter;
    FilterFacts(t.cs[..k], Plain);
    FilterFacts(t.cs[k..], Plain);
    forall c | c in t.cs ensures c in t.cs[k..] <==> c !in t.cs[..k] {
      OneSide(t.cs, k, c);
    }
  }

  lemma {:induction false} OneSide(cs: seq<Node>, k: nat, c: Node)
    requires DistinctKeys(cs) && k <= |cs| && c in cs
    ensures c in cs[k..] <==> c !in cs[..k]
  {
    var i :| 0 <= i < |cs| && cs[i] == c;
    FindKeyUnique(cs, i);
    if i < k {
      assert cs[..k][i] == c;
      forall j | 0 <= j < |cs[k..]| ensures cs[k..][j] != c {
        FindKeyUnique(cs, k + j);
      }
    } else {
      assert cs[k..][i - k] == c;
      forall j | 0 <= j < k ensures cs[..k][j] != c {
        FindKeyUnique(cs, j);
      }
    }
  }

  // ----- both reductions -----

  lemma {:induction false} KeyedIsDistinctDeep(n: Node)
    requires WellKeyed(n)
    ensures DistinctDeep(n.children)
    decreases n
  {
    forall c | c in n.children ensures DistinctDeep(c.children) {
      KeyedIsDistinctDeep(c);
    }
  }

  /** The "Other" child holds what was put together, where nothing at a plain path was changed after that. */
  lemma {:induction false} HoldsTogether(cs: seq<Node>, rs: seq<Node>, b: Node, o: Node, ms: set<Metric>)
    requires DistinctKeys(rs) && o in rs && o.key == OTHER
    requires Together(b, cs, Gone(cs, rs), ms) && Untouched(b.children, o.children)
    ensures OtherHolds(cs, rs)
  {
    hide ValueAt, Present, Gone, SumAt, Missing;
    forall q | PlainPath(q) ensures OtherHoldsAt(cs, rs, q) {
      assert q[0] in q && q != [OTHER];
      assert ([OTHER] + q)[0] == OTHER && ([OTHER] + q)[1..] == q;
      FindIn(rs, o, [OTHER] + q);
      BelowOther(o, q);
      assert SameAt(b.children, o.children, q);
      assert TogetherAt(b, cs, Gone(cs, rs), ms, q);
    }
  }

  lemma {:induction false} BelowOther(o: Node, q: Path)
    requires q != [] && o.key == OTHER
    ensures TreePresent(o, [OTHER] + q) <==> Present(o.children, q)
    ensures forall m: Metric :: TreeValueAt(o, [OTHER] + q, m) == ValueAt(o.children, q, m)
  {
    assert ([OTHER] + q)[1..] == q;
  }

  lemma {:induction false} NoOtherHolds(cs: seq<Node>, rs: seq<Node>)
    requires FindKey(rs, OTHER) == |rs|
    ensures OtherHolds(cs, rs)
  {
    forall q | PlainPath(q) ensures OtherHoldsAt(cs, rs, q) {
      assert ([OTHER] + q)[0] == OTHER;
    }
  }

  /** Selecting loses nothing, at every node of the result. */
  lemma {:induction false} ReduceTreeFolds(n: Node, m: Metric, vm: ValueMap, sort: Sorter)
    requires WellKeyed(n)
    ensures Folds(n, ReduceTree(n, m, vm, sort).node, {m})
    decreases Height(n), 1, 0
  {
    hide PlanOf, BuildOther, AbsorbAllValues, Together, OtherHolds, Gone, Filter, WellKeyed, ReduceEach, Folds,
      FoldsChild,
         Untouched, DistinctKeys;
    var rs := ReduceTree(n, m, vm, sort).node.children;
    if n.children == [] {
      LeafFolds(n);
    } else {
      var t := PlanOf(n, m, vm, sort);
      PlanKeeps(n, m, vm, sort);
      PlanLowers(n, m, vm, sort);
      ReduceTreeParts(n, m, vm, sort);
      DropIsGone(n, m, vm, sort);
      var kept := ReduceEach(t.keep, m, vm, sort);
      ReduceEachFolds(n.children, rs, t.keep, m, vm, sort, n.fullKey);
      ReduceEachHeads(t.keep, m, vm, sort);
      KeyStaysAbsent(t.keep, kept.nodes, OTHER);
      SameNodesLength(t.cs, n.children);
      FoldedIff(n.children, t.keep, kept.nodes, rs);
      if |t.keep| == |t.cs| {
        NoOtherHolds(n.children, rs);
      } else {
        var other := BuildOther(n.fullKey, t.cs, t.drop, {m});
        OtherKeyed(n, t.cs, t.drop, {m});
        var vm' := AbsorbAllValues(t.drop, GetOrCreateOther(n.fullKey, t.cs), kept.vm);
        var o := ReduceTree(other, m, vm', sort).node;
        ReduceTreeFolds(other, m, vm', sort);
        ReduceTreeHead(other, m, vm', sort);
        ReduceTreeUntouched(other, m, vm', sort);
        PutTogether(n, t.cs, t.drop, rs, {m});
        HoldsTogether(n.children, rs, other, o, {m});
        OtherFolds(n.children, rs, other, o, {m});
      }
      NodeFolds(n, rs, {m});
    }
  }

  lemma {:induction false} LeafFolds(n: Node)
    requires n.children == []
    ensures forall ms :: Folds(n, n, ms)
  {
    NoOtherHolds([], []);
  }

  lemma {:induction false} PutTogether(n: Node, cs: seq<Node>, drop: seq<Node>, rs: seq<Node>, ms: set<Metric>)
    requires WellKeyed(n) && SameNodes(drop, Gone(n.children, rs)) && SameNodes(cs, n.children)
    requires forall c :: c in drop ==> c in n.children
    ensures Together(BuildOther(n.fullKey, cs, drop, ms), n.children, Gone(n.children, rs), ms)
  {
    hide Together, BuildOther, Gone;
    forall d | d in drop ensures DistinctDeep(d.children) {
      KeyedIsDistinctDeep(d);
    }
    BuildTogether(n.fullKey, cs, drop, ms);
    TogetherSame(BuildOther(n.fullKey, cs, drop, ms), cs, drop, n.children, Gone(n.children, rs), ms);
  }

  lemma {:induction false} ReduceEachFolds(cs: seq<Node>, rs: seq<Node>, keep: seq<Node>, m: Metric, vm: ValueMap,
                                           sort: Sorter, p: Path)
    requires PlainSiblings(keep, p) && forall c :: c in keep ==> c in cs
    ensures forall r :: r in ReduceEach(keep, m, vm, sort).nodes ==> FoldsChild(cs, rs, r, {m})
    decreases ForestHeight(keep), 0, |keep|
  {
    hide Folds, Together;
    if keep != [] {
      var k := |keep| - 1;
      TallerThanChild(keep, k);
      PlainSiblingsSplit(keep, p);
      ReduceEachFolds(cs, rs, keep[..k], m, vm, sort, p);
      var before := ReduceEach(keep[..k], m, vm, sort);
      ReduceTreeFolds(keep[k], m, before.vm, sort);
      ReduceTreeHead(keep[k], m, before.vm, sort);
      assert keep[k] in keep;
      assert FoldsChild(cs, rs, ReduceTree(keep[k], m, before.vm, sort).node, {m});
    }
  }

  lemma {:induction false} SameNodesLength(a: seq<Node>, b: seq<Node>)
    requires SameNodes(a, b)
    ensures |a| == |b|
    decreases |a|
  {
    if b != [] {
      assert b[0] in a;
    }
    if a != [] {
      assert a[|a| - 1] in b;
      var j :| 0 <= j < |b| && b[j] == a[|a| - 1];
      WithoutLast(a, b, j);
      SameNodesLength(a[..|a| - 1], b[..j] + b[j + 1..]);
    }
  }

  /** Whether something is folded away shows in the number of children kept. */
  lemma {:induction false} FoldedIff(cs: seq<Node>, keep: seq<Node>, kept: seq<Node>, rs: seq<Node>)
    requires KeptOrOther(cs, keep, kept, rs) && DistinctKeys(keep)
    requires forall c :: c in keep ==> c.key != OTHER
    ensures |keep| != |cs| <==> Gone(cs, rs) != [] || FindKey(cs, OTHER) < |cs|
  {
    GoneFacts(cs, rs);
    var gone, i := Gone(cs, rs), FindKey(cs, OTHER);
    hide Gone;
    forall c | c in cs && c.key != OTHER ensures c in gone <==> c !in keep {
      NotKeptIsGone(cs, keep, kept, rs, c);
    }
    if gone == [] && i == |cs| {
      forall c | c in cs ensures c in keep {
        assert c.key != OTHER && c !in gone;
      }
      SameNodesLength(keep, cs);
    } else {
      var x := if gone != [] then gone[0] else cs[i];
      assert x in cs && x !in keep by {
        assert gone != [] ==> gone[0] in gone;
      }
      FewerThan(keep, cs, x);
    }
  }

  lemma {:induction false} FewerThan(a: seq<Node>, b: seq<Node>, x: Node)
    requires DistinctKeys(a) && DistinctKeys(b) && (forall c :: c in a ==> c in b) && x in b && x !in a
    ensures |a| < |b|
  {
    Distinct(a);
    Distinct(b);
    var sa, sb := (set c | c in a), (set c | c in b);
    DistinctCardinality(a);
    DistinctCardinality(b);
    SubsetCardinality(sa, sb);
    assert x in sb && x !in sa;
  }

  lemma {:induction false} Distinct(a: seq<Node>)
    requires DistinctKeys(a)
    ensures forall i, j :: 0 <= i < j < |a| ==> a[i] != a[j]
  {
  }

  // ----- the replay -----

  lemma {:induction false} UnselectedIsGone(n: Node, sel: set<Path>, vm: ValueMap, sort: Sorter)
    requires WellKeyed(n) && NoOther(sel) && n.children != []
    ensures var rs := ReduceBySet(n, sel, vm, sort).node.children;
      SameNodes(Filter(n.children, Unselected(sel)), Gone(n.children, rs))
  {
    var keep := Filter(n.children, Selected(sel));
    var kept, rs := ReduceEachBySet(keep, sel, vm, sort).nodes, ReduceBySet(n, sel, vm, sort).node.children;
    ReduceBySetParts(n, sel, vm, sort);
    FilterFacts(n.children, Selected(sel));
    FilterFacts(n.children, Unselected(sel));
    GoneFacts(n.children, rs);
    hide ReduceBySet, ReduceEachBySet, KeptOrOther, Filter, Gone;
    forall c | c in n.children && c.key != OTHER ensures c.fullKey !in sel <==> FindKey(rs, c.key) == |rs| {
      NotKeptIsGone(n.children, keep, kept, rs, c);
    }
  }

  lemma {:induction false} SelectedPlain(n: Node, sel: set<Path>)
    requires WellKeyed(n) && NoOther(sel)
    ensures var keep := Filter(n.children, Selected(sel));
      DistinctKeys(keep) && forall c :: c in keep ==> c in n.children && c.key != OTHER && WellKeyed(c)
  {
    var keep := Filter(n.children, Selected(sel));
    FilterFacts(n.children, Selected(sel));
    forall c | c in keep ensures c.key != OTHER {
      assert c.fullKey == n.fullKey + [c.key] && c.fullKey[|c.fullKey| - 1] == c.key;
    }
  }

  lemma {:induction false} SameAsItself(cs: seq<Node>)
    requires DistinctKeys(cs)
    ensures SameNodes(cs, cs)
  {
  }

  lemma {:induction false} ReplayUntouched(n: Node, sel: set<Path>, vm: ValueMap, sort: Sorter)
    requires WellKeyed(n) && NoOther(sel)
    ensures Untouched(n.children, ReduceBySet(n, sel, vm, sort).node.children)
  {
    var rs := ReduceBySet(n, sel, vm, sort).node.children;
    ReduceBySetExact(n, sel, vm, sort);
    hide Present, ValueAt, Chosen;
    forall q | PlainPath(q) ensures SameAt(n.children, rs, q) {
      assert KeptIffChosen(n.children, rs, sel, n.fullKey, q);
    }
  }

  /** So does replaying any selection. */
  lemma {:induction false} ReduceBySetFolds(n: Node, sel: set<Path>, vm: ValueMap, sort: Sorter)
    requires WellKeyed(n) && NoOther(sel)
    ensures Folds(n, ReduceBySet(n, sel, vm, sort).node, BOTH)
    decreases Height(n), 1, 0
  {
    hide BuildOther, Together, OtherHolds, Gone, Filter, WellKeyed, ReduceEachBySet, SortChildren, NoOther, KeptOrOther,
         Folds, FoldsChild, Untouched, DistinctKeys, PlainSiblings;
    var rs := ReduceBySet(n, sel, vm, sort).node.children;
    if n.children == [] {
      LeafFolds(n);
    } else {
      var keep, drop := Filter(n.children, Selected(sel)), Filter(n.children, Unselected(sel));
      var kept := ReduceEachBySet(keep, sel, vm, sort);
      FilterFacts(n.children, Selected(sel));
      FilterFacts(n.children, Unselected(sel));
      SubforestHeight(keep, n.children);
      SelectedPlain(n, sel);
      ReduceBySetParts(n, sel, vm, sort);
      UnselectedIsGone(n, sel, vm, sort);
      FoldedIff(n.children, keep, kept.nodes, rs);
      ReduceEachBySetFolds(n.children, rs, keep, sel, vm, sort);
      ReduceEachBySetHeads(keep, sel, vm, sort);
      KeyStaysAbsent(keep, kept.nodes, OTHER);
      if |keep| == |n.children| {
        SortFacts(kept.nodes, kept.vm, sort);
        SortedKey(kept.nodes, kept.vm, sort, OTHER);
        NoOtherHolds(n.children, rs);
      } else {
        OtherIsLower(n.fullKey, n.children, drop, BOTH);
        var other := BuildOther(n.fullKey, n.children, drop, BOTH);
        OtherKeyed(n, n.children, drop, BOTH);
        var r := ReduceBySet(other, sel, kept.vm, sort);
        var vm' := MarkOther(r.vm, r.node.fullKey);
        var all := kept.nodes + [r.node];
        SortFacts(all, vm', sort);
        SortedKey(all, vm', sort, OTHER);
        ReduceBySetFolds(other, sel, kept.vm, sort);
        ReduceBySetHead(other, sel, kept.vm, sort);
        ReplayUntouched(other, sel, kept.vm, sort);
        KeyedDistinct(n);
        SameAsItself(n.children);
        PutTogether(n, n.children, drop, rs, BOTH);
        assert r.node in all;
        ReplayDistinct(n.children, keep, kept.nodes, rs);
        HoldsTogether(n.children, rs, other, r.node, BOTH);
        OtherFolds(n.children, rs, other, r.node, BOTH);
      }
      NodeFolds(n, rs, BOTH);
    }
  }

  lemma {:induction false} OtherFolds(cs: seq<Node>, rs: seq<Node>, b: Node, o: Node, ms: set<Metric>)
    requires Folds(b, o, ms) && o.key == OTHER && Together(b, cs, Gone(cs, rs), ms)
    ensures FoldsChild(cs, rs, o, ms)
  {
  }

  lemma {:induction false} NodeFolds(n: Node, rs: seq<Node>, ms: set<Metric>)
    requires (rs == [] <==> n.children == []) && OtherHolds(n.children, rs)
    requires FindKey(rs, OTHER) < |rs| <==> Gone(n.children, rs) != [] || FindKey(n.children, OTHER) < |n.children|
    requires forall c :: c in rs ==> FoldsChild(n.children, rs, c, ms)
    ensures Folds(n, n.(children := rs), ms)
  {
    hide OtherHolds, Gone, FoldsChild;
  }

  lemma {:induction false} ReplayDistinct(cs: seq<Node>, keep: seq<Node>, kept: seq<Node>, rs: seq<Node>)
    requires KeptOrOther(cs, keep, kept, rs)
    ensures DistinctKeys(rs)
  {
  }

  lemma {:induction false} KeyedDistinct(n: Node)
    requires WellKeyed(n)
    ensures DistinctKeys(n.children)
  {
  }

  lemma {:induction false} SortedKey(cs: seq<Node>, vm: ValueMap, sort: Sorter, k: Key)
    ensures FindKey(SortChildren(cs, vm, sort), k) < |cs| <==> FindKey(cs, k) < |cs|
  {
    SortFacts(cs, vm, sort);
    var r := SortChildren(cs, vm, sort);
    hide SortChildren;
    var i, j := FindKey(cs, k), FindKey(r, k);
    if i < |cs| {
      assert cs[i] in r;
    }
    if j < |r| {
      assert r[j] in cs;
    }
  }

  lemma {:induction false} ReduceEachBySetFolds(cs: seq<Node>, rs: seq<Node>, keep: seq<Node>, sel: set<Path>,
                                                vm: ValueMap, sort: Sorter)
    requires NoOther(sel) && forall c :: c in keep ==> c in cs && c.key != OTHER && WellKeyed(c)
    ensures forall r :: r in ReduceEachBySet(keep, sel, vm, sort).nodes ==> FoldsChild(cs, rs, r, BOTH)
    decreases ForestHeight(keep), 0, |keep|
  {
    hide Folds, Together, NoOther, WellKeyed;
    if keep != [] {
      var k := |keep| - 1;
      TallerThanChild(keep, k);
      ReduceEachBySetFolds(cs, rs, keep[..k], sel, vm, sort);
      var before := ReduceEachBySet(keep[..k], sel, vm, sort);
      assert keep[k] in keep;
      ReduceBySetFolds(keep[k], sel, before.vm, sort);
      ReduceBySetHead(keep[k], sel, before.vm, sort);
      assert FoldsChild(cs, rs, ReduceBySet(keep[k], sel, before.vm, sort).node, BOTH);
    }
  }
}
