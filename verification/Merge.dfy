/**
 Folding a subtree into an "Other" node (Helpers.mergeTreeIntoOtherNode): children with the same
 key are added up, the rest are copied with the merged-away key replaced by "Other" in their path.
 */
module Merge {
  import opened Trees

  // ----- the tree -----

  /** The path of a copied node: the component `level + 2` from the end becomes "Other". */
  function RewriteKey(fullKey: Path, level: int): Path {
    var i := |fullKey| - 2 - level;
    if 0 <= i < |fullKey| then fullKey[i := OTHER] else fullKey
  }

  /** `to` after it has taken in the metrics of `from` and all children of `from`. */
  function Absorb(from: Node, to: Node, level: int): Node
    decreases from, 1
  {
    to.Plus(from.objects, from.bytes).(children := MergeChildren(from.children, to.children, level))
  }

  function MergeChild(from: Node, tos: seq<Node>, level: int): seq<Node>
    decreases from, 2
  {
    var i := FindKey(tos, from.key);
    if i < |tos| then tos[i := Absorb(from, tos[i], level + 1)]
    else tos + [Absorb(from, Node(RewriteKey(from.fullKey, level), from.key, 0, 0, []), level + 1)]
  }

  /** The children of `to` after mergeTreeIntoOtherNode(from, to, level). */
  function MergeChildren(froms: seq<Node>, tos: seq<Node>, level: int): seq<Node>
    decreases froms, 0
  {
    if froms == [] then tos
    else
      var n := |froms| - 1;
      MergeChild(froms[n], MergeChildren(froms[..n], tos, level), level)
  }

  // ----- the sort values kept beside the tree -----

  /** A JavaScript number as the value map can hold it. */
  datatype Num = Undefined | NaN | Of(v: int)

  type ValueMap = map<Path, Num>

  function Get(vm: ValueMap, id: Path): Num {
    if id in vm then vm[id] else Undefined
  }

  function AddNum(a: Num, b: Num): Num {
    if a.Of? && b.Of? then Of(a.v + b.v) else NaN
  }

  function MergeValue(vm: ValueMap, from: Path, to: Path): ValueMap {
    if Get(vm, to).Undefined? then vm[to := Get(vm, from)]
    else vm[to := AddNum(Get(vm, to), Get(vm, from))]
  }

  function MergeOneValue(from: Node, tos: seq<Node>, vm: ValueMap, level: int): ValueMap
    decreases from, 1
  {
    var i := FindKey(tos, from.key);
    if i < |tos| then
      MergeValues(from.children, tos[i].children, MergeValue(vm, from.fullKey, tos[i].fullKey), level + 1)
    else
      MergeValues(from.children, [], MergeValue(vm, from.fullKey, RewriteKey(from.fullKey, level)), level + 1)
  }

  /** The value map after mergeTreeIntoOtherNode(from, to, valueMap, level). */
  function MergeValues(froms: seq<Node>, tos: seq<Node>, vm: ValueMap, level: int): ValueMap
    decreases froms, 0
  {
    if froms == [] then vm
    else
      var n := |froms| - 1;
      MergeOneValue(froms[n], MergeChildren(froms[..n], tos, level), MergeValues(froms[..n], tos, vm, level), level)
  }

  // ----- what merging means: path by path, the two forests are added -----

  /** The metric found by following a path of keys downwards; an absent node counts as 0. */
  function ValueAt(cs: seq<Node>, q: Path, m: Metric): int {
    if q == [] then 0
    else
      var i := FindKey(cs, q[0]);
      if i == |cs| then 0
      else if |q| == 1 then cs[i].Value(m)
      else ValueAt(cs[i].children, q[1..], m)
  }

  predicate Present(cs: seq<Node>, q: Path) {
    q != [] &&
    var i := FindKey(cs, q[0]);
    i < |cs| && (|q| == 1 || Present(cs[i].children, q[1..]))
  }

  /** What a single tree contributes to the lookup of `q` among its siblings. */
  function TreeValueAt(c: Node, q: Path, m: Metric): int
    requires q != []
  {
    if q[0] != c.key then 0 else if |q| == 1 then c.Value(m) else ValueAt(c.children, q[1..], m)
  }

  predicate TreePresent(c: Node, q: Path)
    requires q != []
  {
    q[0] == c.key && (|q| == 1 || Present(c.children, q[1..]))
  }

  lemma {:induction false} LookupReplaced(cs: seq<Node>, i: nat, c: Node, q: Path, m: Metric)
    requires i < |cs| && c.key == cs[i].key && q != [] && i == FindKey(cs, c.key)
    ensures ValueAt(cs[i := c], q, m) == if q[0] == c.key then TreeValueAt(c, q, m) else ValueAt(cs, q, m)
    ensures Present(cs[i := c], q) <==> if q[0] == c.key then TreePresent(c, q) else Present(cs, q)
  {
    assert forall x :: 0 <= x < |cs| ==> cs[i := c][x].key == cs[x].key;
    assert FindKey(cs[i := c], q[0]) == FindKey(cs, q[0]);
  }

  lemma {:induction false} LookupAppended(cs: seq<Node>, c: Node, q: Path, m: Metric)
    requires q != [] && FindKey(cs, c.key) == |cs|
    ensures ValueAt(cs + [c], q, m) == ValueAt(cs, q, m) + TreeValueAt(c, q, m)
    ensures Present(cs + [c], q) <==> Present(cs, q) || TreePresent(c, q)
  {
    assert (cs + [c])[..|cs|] == cs;
  }

  /** Siblings have distinct keys at every depth. */
  ghost predicate DistinctDeep(cs: seq<Node>) {
    DistinctKeys(cs) && forall c :: c in cs ==> DistinctDeep(c.children)
  }

  lemma {:induction false} AbsorbPointwise(from: Node, to: Node, level: int, q: Path, m: Metric)
    requires q != [] && DistinctDeep(from.children) && from.key == to.key
    ensures TreeValueAt(Absorb(from, to, level), q, m) == TreeValueAt(from, q, m) + TreeValueAt(to, q, m)
    ensures TreePresent(Absorb(from, to, level), q) <==> TreePresent(from, q) || TreePresent(to, q)
    decreases from, 1
  {
    if |q| > 1 {
      MergePointwise(from.children, to.children, level, q[1..], m);
    }
  }

  lemma {:induction false} MergeChildPointwise(from: Node, tos: seq<Node>, level: int, q: Path, m: Metric)
    requires q != [] && DistinctDeep(from.children)
    ensures ValueAt(MergeChild(from, tos, level), q, m) == ValueAt(tos, q, m) + TreeValueAt(from, q, m)
    ensures Present(MergeChild(from, tos, level), q) <==> Present(tos, q) || TreePresent(from, q)
    decreases from, 2
  {
    var i := FindKey(tos, from.key);
    if i < |tos| {
      AbsorbPointwise(from, tos[i], level + 1, q, m);
      LookupReplaced(tos, i, Absorb(from, tos[i], level + 1), q, m);
    } else {
      var empty := Node(RewriteKey(from.fullKey, level), from.key, 0, 0, []);
      AbsorbPointwise(from, empty, level + 1, q, m);
      LookupAppended(tos, Absorb(from, empty, level + 1), q, m);
    }
  }

  /** Merging adds the two forests path by path, and invents no path. */
  lemma {:induction false} MergePointwise(froms: seq<Node>, tos: seq<Node>, level: int, q: Path, m: Metric)
    requires q != [] && DistinctDeep(froms)
    ensures ValueAt(MergeChildren(froms, tos, level), q, m) == ValueAt(froms, q, m) + ValueAt(tos, q, m)
    ensures Present(MergeChildren(froms, tos, level), q) <==> Present(froms, q) || Present(tos, q)
    decreases froms, 0
  {
    if froms != [] {
      var n := |froms| - 1;
      MergePointwise(froms[..n], tos, level, q, m);
      MergeChildPointwise(froms[n], MergeChildren(froms[..n], tos, level), level, q, m);
      assert froms == froms[..n] + [froms[n]];
      LookupAppended(froms[..n], froms[n], q, m);
    }
  }

  // ----- what merging keeps -----

  lemma {:induction false} MergeSum(froms: seq<Node>, tos: seq<Node>, level: int, m: Metric)
    ensures Sum(MergeChildren(froms, tos, level), m) == Sum(froms, m) + Sum(tos, m)
  {
    if froms != [] {
      var n := |froms| - 1;
      MergeSum(froms[..n], tos, level, m);
      var before := MergeChildren(froms[..n], tos, level);
      var f := froms[n];
      var i := FindKey(before, f.key);
      if i < |before| {
        SumUpdate(before, i, Absorb(f, before[i], level + 1), m);
      } else {
        var last := Absorb(f, Node(RewriteKey(f.fullKey, level), f.key, 0, 0, []), level + 1);
        assert (before + [last])[..|before|] == before;
      }
    }
  }

  /** Merging never builds anything taller than what went in. */
  lemma {:induction false} MergeHeight(froms: seq<Node>, tos: seq<Node>, level: int, h: nat)
    requires ForestHeight(froms) <= h && ForestHeight(tos) <= h
    ensures ForestHeight(MergeChildren(froms, tos, level)) <= h
    decreases froms, 0
  {
    if froms != [] {
      var n := |froms| - 1;
      var f := froms[n];
      MergeHeight(froms[..n], tos, level, h);
      var before := MergeChildren(froms[..n], tos, level);
      var after := MergeChild(f, before, level);
      var i := FindKey(before, f.key);
      var target := if i < |before| then before[i] else Node(RewriteKey(f.fullKey, level), f.key, 0, 0, []);
      TallerThanChild(froms, n);
      if i < |before| {
        TallerThanChild(before, i);
      }
      MergeHeight(f.children, target.children, level + 1, h - 1);
      forall c | c in after ensures Height(c) < h {
        if c != Absorb(f, target, level + 1) {
          assert c in before;
          var j :| 0 <= j < |before| && before[j] == c;
          TallerThanChild(before, j);
        }
      }
      ForestHeightBound(after, h);
    }
  }

  ghost predicate AllFit(cs: seq<Node>) {
    forall c :: c in cs ==> Fits(c)
  }

  lemma {:induction false} AbsorbFits(from: Node, to: Node, level: int)
    requires Fits(from) && Fits(to)
    ensures Fits(Absorb(from, to, level))
    decreases from, 1
  {
    MergeFits(from.children, to.children, level);
    forall m: Metric ensures Sum(Absorb(from, to, level).children, m) <= Absorb(from, to, level).Value(m) {
      MergeSum(from.children, to.children, level, m);
    }
  }

  lemma {:induction false} MergeFits(froms: seq<Node>, tos: seq<Node>, level: int)
    requires AllFit(froms) && AllFit(tos)
    ensures AllFit(MergeChildren(froms, tos, level))
    decreases froms, 0
  {
    if froms != [] {
      var n := |froms| - 1;
      var f := froms[n];
      MergeFits(froms[..n], tos, level);
      var before := MergeChildren(froms[..n], tos, level);
      var i := FindKey(before, f.key);
      if i < |before| {
        AbsorbFits(f, before[i], level + 1);
      } else {
        AbsorbFits(f, Node(RewriteKey(f.fullKey, level), f.key, 0, 0, []), level + 1);
      }
    }
  }

  /** `cs` can be the children of a node with full key `p`. */
  ghost predicate KeyedUnder(cs: seq<Node>, p: Path) {
    && DistinctKeys(cs)
    && forall c :: c in cs ==> c.fullKey == p + [c.key] && WellKeyed(c)
  }

  /** The path rewrite replaces exactly the key of the subtree that is merged away. */
  lemma {:induction false} MergeKeyed(froms: seq<Node>, tos: seq<Node>, p: Path, k: Key, s: Path)
    requires KeyedUnder(froms, p + [k] + s) && KeyedUnder(tos, p + [OTHER] + s)
    ensures KeyedUnder(MergeChildren(froms, tos, |s|), p + [OTHER] + s)
    decreases froms, 0
  {
    if froms != [] {
      var n := |froms| - 1;
      MergeKeyed(froms[..n], tos, p, k, s);
      MergeChildKeyed(froms[n], MergeChildren(froms[..n], tos, |s|), p, k, s);
    }
  }

  lemma {:induction false} MergeChildKeyed(from: Node, tos: seq<Node>, p: Path, k: Key, s: Path)
    requires from.fullKey == p + [k] + s + [from.key] && WellKeyed(from)
    requires KeyedUnder(tos, p + [OTHER] + s)
    ensures KeyedUnder(MergeChild(from, tos, |s|), p + [OTHER] + s)
    decreases from, 1
  {
    var s' := s + [from.key];
    assert p + [k] + s' == from.fullKey;
    assert p + [OTHER] + s' == p + [OTHER] + s + [from.key];
    var i := FindKey(tos, from.key);
    if i < |tos| {
      MergeKeyed(from.children, tos[i].children, p, k, s');
    } else {
      assert RewriteKey(from.fullKey, |s|) == p + [OTHER] + s';
      MergeKeyed(from.children, [], p, k, s');
    }
  }
}
