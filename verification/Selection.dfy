/**
 Which nodes the selecting reduction keeps: at most nine per node, the recorded ids are exactly
 those nodes, and replaying them on any other tree keeps the same bound.
 */
module Selection {
  import opened Trees
  import opened Merge
  import opened Reduce
  import opened Conservation

  // ----- where the selection loop stops -----

  /** The children kept when the loop stops at index `k`. */
  function KeptUpTo(cs: seq<Node>, k: nat): seq<Node>
    requires k <= |cs|
  {
    Filter(cs[..k], Plain)
  }

  lemma {:induction false} KeptNext(cs: seq<Node>, k: nat)
    requires k < |cs|
    ensures KeptUpTo(cs, k + 1) == if cs[k].key == OTHER then KeptUpTo(cs, k) else KeptUpTo(cs, k) + [cs[k]]
  {
    assert cs[..k + 1][..k] == cs[..k];
  }

  /** The loop goes on past index `k`. */
  ghost predicate GoesOn(cs: seq<Node>, m: Metric, overall: int, k: nat)
    requires k <= |cs|
  {
    10 * Sum(KeptUpTo(cs, k), m) <= 9 * overall && |KeptUpTo(cs, k)| < 9 && k < |cs|
  }

  lemma {:induction false} CutFrom(cs: seq<Node>, m: Metric, overall: int, k: nat, count: nat, selected: int)
    requires k <= |cs| && count == |KeptUpTo(cs, k)| && selected == Sum(KeptUpTo(cs, k), m)
    requires count <= MAX_CHILDREN
    ensures var r := CutIndex(cs, m, overall, k, count, selected);
      && k <= r <= |cs|
      && |KeptUpTo(cs, r)| <= MAX_CHILDREN
      && !GoesOn(cs, m, overall, r)
      && forall j :: k <= j < r ==> GoesOn(cs, m, overall, j)
    decreases |cs| - k
  {
    hide KeptUpTo, Sum;
    if GoesOn(cs, m, overall, k) {
      KeptNext(cs, k);
      if cs[k].key == OTHER {
        CutFrom(cs, m, overall, k + 1, count, selected);
      } else {
        SumAppend(KeptUpTo(cs, k), cs[k], m);
        CutFrom(cs, m, overall, k + 1, count + 1, selected + cs[k].Value(m));
      }
    }
  }

  /** The loop keeps the shortest run of children that covers more than 90%, or nine, or all. */
  lemma {:induction false} CutIsShortest(cs: seq<Node>, m: Metric, overall: int)
    ensures var r := CutIndex(cs, m, overall, 0, 0, 0);
      && |KeptUpTo(cs, r)| <= 9
      && (10 * Sum(KeptUpTo(cs, r), m) > 9 * overall || |KeptUpTo(cs, r)| == 9 || r == |cs|)
      && forall j :: 0 <= j < r ==> GoesOn(cs, m, overall, j)
  {
    CutFrom(cs, m, overall, 0, 0, 0);
  }

  // ----- the ids that are recorded -----

  /** The selected ids directly below `q`. */
  function Below(ids: set<Path>, q: Path): set<Path> {
    set id | id in ids && |id| == |q| + 1 && id[..|q|] == q
  }

  /** No node has more than nine selected children. */
  ghost predicate FanOut(ids: set<Path>) {
    forall q :: |Below(ids, q)| <= 9
  }

  /** Every id lies strictly below `p`. */
  ghost predicate InZone(ids: set<Path>, p: Path) {
    forall id :: id in ids ==> p < id
  }

  ghost predicate InSomeZone(ids: set<Path>, cs: seq<Node>) {
    forall id :: id in ids ==> exists i :: 0 <= i < |cs| && cs[i].fullKey <= id
  }

  lemma {:induction false} BelowUnion(a: set<Path>, b: set<Path>, q: Path)
    ensures Below(a + b, q) == Below(a, q) + Below(b, q)
  {
  }

  /** Two zones below `p` with different first keys share no parent. */
  lemma {:induction false} OneZoneOnly(a: set<Path>, b: set<Path>, p: Path, k: Key, q: Path)
    requires forall id :: id in a ==> !(p + [k] <= id)
    requires InZone(b, p + [k])
    ensures Below(a, q) == {} || Below(b, q) == {}
  {
    if Below(b, q) != {} {
      var id :| id in Below(b, q);
      assert p + [k] <= q by {
        assert id[..|q|] == q && |p| + 1 <= |q|;
      }
      forall x | |x| == |q| + 1 && x[..|q|] == q ensures p + [k] <= x {
      }
    }
  }

  lemma {:induction false} OutsideZone(ids: set<Path>, cs: seq<Node>, c: Node, p: Path)
    requires InSomeZone(ids, cs) && c.fullKey == p + [c.key]
    requires forall x :: x in cs ==> x.fullKey == p + [x.key] && x.key != c.key
    ensures forall id :: id in ids ==> !(p + [c.key] <= id)
  {
    forall id | id in ids ensures !(p + [c.key] <= id) {
      var i :| 0 <= i < |cs| && cs[i].fullKey <= id;
      assert cs[i] in cs;
      assert id[|p|] == cs[i].key;
      assert (p + [c.key])[|p|] == c.key;
    }
  }

  /** What holds of the ids that reducing a tree with full key `p` records. */
  ghost predicate TreeIds(ids: set<Path>, p: Path) {
    InZone(ids, p) && NoOther(ids) && FanOut(ids)
  }

  lemma {:induction false} NoIds(p: Path)
    ensures TreeIds({}, p)
  {
    assert forall q :: Below({}, q) == {};
  }

  /** What holds of the ids that reducing the siblings `cs` below `p` records. */
  ghost predicate ForestIds(ids: set<Path>, cs: seq<Node>, p: Path) {
    && InSomeZone(ids, cs) && NoOther(ids)
    && (forall q :: q != p ==> |Below(ids, q)| <= MAX_CHILDREN)
    && |Below(ids, p)| <= |cs|
  }

  ghost predicate PlainSiblings(cs: seq<Node>, p: Path) {
    KeyedUnder(cs, p) && forall c :: c in cs ==> c.key != OTHER
  }

  lemma {:induction false} ForestIdsStep(ids: set<Path>, cs: seq<Node>, c: Node, own: set<Path>, p: Path)
    requires ForestIds(ids, cs, p)
    requires c.fullKey == p + [c.key] && c.key != OTHER
    requires forall x :: x in cs ==> x.fullKey == p + [x.key] && x.key != c.key
    requires TreeIds(own, c.fullKey)
    ensures ForestIds(ids + own + {c.fullKey}, cs + [c], p)
  {
    hide InSomeZone, Below;
    MoreInSomeZone(ids, cs, c, own);
    forall q ensures q != p ==> |Below(ids + own + {c.fullKey}, q)| <= MAX_CHILDREN
             ensures q == p ==> |Below(ids + own + {c.fullKey}, q)| <= |cs| + 1 {
      FanOutStep(ids, cs, c, own, p, q);
    }
  }

  /** How many ids are directly below `q` once `c` and the ids recorded below it are there. */
  lemma {:induction false} FanOutStep(ids: set<Path>, cs: seq<Node>, c: Node, own: set<Path>, p: Path, q: Path)
    requires InSomeZone(ids, cs) && c.fullKey == p + [c.key]
    requires forall x :: x in cs ==> x.fullKey == p + [x.key] && x.key != c.key
    requires InZone(own, c.fullKey) && |Below(own, q)| <= MAX_CHILDREN
    requires |Below(ids, q)| <= if q == p then |cs| else MAX_CHILDREN
    ensures |Below(ids + own + {c.fullKey}, q)| <= if q == p then |cs| + 1 else MAX_CHILDREN
  {
    OutsideZone(ids, cs, c, p);
    OneZoneOnly(ids, own, p, c.key, q);
    BelowUnion(ids + own, {c.fullKey}, q);
    BelowUnion(ids, own, q);
    BelowOne(c.fullKey, p, q);
    if q == p {
      NoneBelow(own, c.fullKey, p);
    }
    hide *;
    assert Below(ids, q) + {} == Below(ids, q) && {} + Below(own, q) == Below(own, q);
  }

  lemma {:induction false} MoreInSomeZone(ids: set<Path>, cs: seq<Node>, c: Node, own: set<Path>)
    requires InSomeZone(ids, cs) && InZone(own, c.fullKey)
    ensures InSomeZone(ids + own + {c.fullKey}, cs + [c])
  {
    forall id | id in ids + own + {c.fullKey} ensures exists i :: 0 <= i < |cs + [c]| && (cs + [c])[i].fullKey <= id {
      if id in ids {
        var i :| 0 <= i < |cs| && cs[i].fullKey <= id;
        assert (cs + [c])[i].fullKey <= id;
      } else {
        assert (cs + [c])[|cs|].fullKey <= id;
      }
    }
  }

  /** A child of `p` is below `p` only. */
  lemma {:induction false} BelowOne(id: Path, p: Path, q: Path)
    requires |id| == |p| + 1 && id[..|p|] == p
    ensures Below({id}, q) == if q == p then {id} else {}
  {
  }

  lemma {:induction false} NoneBelow(ids: set<Path>, id: Path, p: Path)
    requires InZone(ids, id) && |id| == |p| + 1
    ensures Below(ids, p) == {}
  {
  }

  lemma {:induction false} ForestIdsInZone(ids: set<Path>, cs: seq<Node>, p: Path)
    requires ForestIds(ids, cs, p) && |cs| <= MAX_CHILDREN && PlainSiblings(cs, p)
    ensures TreeIds(ids, p)
  {
    forall id | id in ids ensures p < id {
      var i :| 0 <= i < |cs| && cs[i].fullKey <= id;
      assert cs[i] in cs;
    }
  }

  /** Kept children and the "Other" subtree record ids in separate zones. */
  lemma {:induction false} UnionFanOut(ids: set<Path>, cs: seq<Node>, own: set<Path>, p: Path)
    requires ForestIds(ids, cs, p) && |cs| <= MAX_CHILDREN && PlainSiblings(cs, p)
    requires TreeIds(own, p + [OTHER])
    ensures TreeIds(ids + own, p)
  {
    ForestIdsInZone(ids, cs, p);
    OutsideZone(ids, cs, EmptyOther(p), p);
    forall q ensures |Below(ids + own, q)| <= MAX_CHILDREN {
      BelowUnion(ids, own, q);
      OneZoneOnly(ids, own, p, OTHER, q);
    }
    assert InZone(own, p);
  }

  lemma {:induction false} PlainSiblingsSplit(cs: seq<Node>, p: Path)
    requires cs != [] && PlainSiblings(cs, p)
    ensures PlainSiblings(cs[..|cs| - 1], p) && WellKeyed(cs[|cs| - 1])
  {
    assert forall x :: x in cs[..|cs| - 1] ==> x in cs;
  }

  lemma {:induction false} ForestIdsLast(before: set<Path>, cs: seq<Node>, own: set<Path>, p: Path)
    requires cs != [] && PlainSiblings(cs, p)
    requires ForestIds(before, cs[..|cs| - 1], p)
    requires TreeIds(own, cs[|cs| - 1].fullKey)
    ensures ForestIds(before + own + {cs[|cs| - 1].fullKey}, cs, p)
  {
    var n := |cs| - 1;
    assert cs == cs[..n] + [cs[n]];
    forall x | x in cs[..n] ensures x.fullKey == p + [x.key] && x.key != cs[n].key {
      assert x in cs;
    }
    ForestIdsStep(before, cs[..n], cs[n], own, p);
  }

  lemma {:induction false} PlanKeeps(n: Node, m: Metric, vm: ValueMap, sort: Sorter)
    requires WellKeyed(n)
    ensures var t := PlanOf(n, m, vm, sort);
      && PlainSiblings(t.keep, n.fullKey) && |t.keep| <= MAX_CHILDREN
      && (forall c :: c in t.cs <==> c in n.children)
      && (forall c :: c in t.keep ==> c in t.cs)
      && (forall c :: c in t.drop ==> c in t.cs)
  {
    PlanSplits(n, m, vm, sort);
    var t := PlanOf(n, m, vm, sort);
    CutIsShortest(t.cs, m, n.Value(m));
  }

  lemma {:induction false} ReduceTreeIds(n: Node, m: Metric, vm: ValueMap, sort: Sorter)
    requires WellKeyed(n)
    ensures TreeIds(ReduceTree(n, m, vm, sort).ids, n.fullKey)
    decreases Height(n), 1, 0
  {
    if n.children == [] {
      NoIds(n.fullKey);
    } else {
      var t := PlanOf(n, m, vm, sort);
      PlanKeeps(n, m, vm, sort);
      PlanLowers(n, m, vm, sort);
      var kept := ReduceEach(t.keep, m, vm, sort);
      ReduceEachIds(t.keep, m, vm, sort, n.fullKey);
      if |t.keep| == |t.cs| {
        ForestIdsInZone(kept.ids, t.keep, n.fullKey);
      } else {
        OtherKeyed(n, t.cs, t.drop, {m});
        var vm' := AbsorbAllValues(t.drop, GetOrCreateOther(n.fullKey, t.cs), kept.vm);
        var other := BuildOther(n.fullKey, t.cs, t.drop, {m});
        ReduceTreeIds(other, m, vm', sort);
        UnionFanOut(kept.ids, t.keep, ReduceTree(other, m, vm', sort).ids, n.fullKey);
      }
    }
  }

  lemma {:induction false} ReduceEachIds(cs: seq<Node>, m: Metric, vm: ValueMap, sort: Sorter, p: Path)
    requires PlainSiblings(cs, p)
    ensures ForestIds(ReduceEach(cs, m, vm, sort).ids, cs, p)
    decreases ForestHeight(cs), 0, |cs|
  {
    if cs == [] {
      assert forall q :: Below({}, q) == {};
    } else {
      var n := |cs| - 1;
      TallerThanChild(cs, n);
      PlainSiblingsSplit(cs, p);
      var before := ReduceEach(cs[..n], m, vm, sort);
      ReduceEachIds(cs[..n], m, vm, sort, p);
      ReduceTreeIds(cs[n], m, before.vm, sort);
      ReduceTreeHead(cs[n], m, before.vm, sort);
      ForestIdsLast(before.ids, cs, ReduceTree(cs[n], m, before.vm, sort).ids, p);
    }
  }
}
