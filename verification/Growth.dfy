/** Helpers.calculateAbsGrowthPerNodeRecursive: how much every node grew between two snapshots. */
module Growth {
  import opened Trees
  import opened Merge
  import opened TreeHeap

  type Change = map<Path, int>

  /** The entry for the path `q` below `p` is what a comparison of the two forests says. */
  ghost predicate Right(ch: Change, p: Path, q: Path, ss: seq<Node>, es: seq<Node>, m: Metric) {
    && (p + q in ch <==> Present(ss, q) || Present(es, q))
    && (p + q in ch ==> ch[p + q] == ValueAt(es, q, m) - ValueAt(ss, q, m))
  }

  ghost predicate AllRight(ch: Change, p: Path, ss: seq<Node>, es: seq<Node>, m: Metric) {
    forall q :: q != [] ==> Right(ch, p, q, ss, es, m)
  }

  /** No id lies strictly below `p`. */
  ghost predicate NothingBelow(ids: set<Path>, p: Path) {
    forall id :: id in ids ==> !(p < id)
  }

  /** Entries that do not lie strictly below `p` are kept. */
  ghost predicate KeepsOutside(ch: Change, ch': Change, p: Path) {
    forall id :: !(p < id) ==> (id in ch <==> id in ch') && (id in ch ==> ch'[id] == ch[id])
  }

  /** Only ids strictly below `p` are added. */
  ghost predicate AddsBelow(ids: set<Path>, ids': set<Path>, p: Path) {
    && ids <= ids'
    && forall id :: id in ids' && id !in ids ==> p < id
  }

  ghost function ChildrenOf(n: TreeNode?): seq<Node>
    reads n
  {
    if n == null then [] else n.val.children
  }

  ghost predicate GoodParent(n: TreeNode?, p: Path)
    reads n, if n == null then {} else n.Repr
  {
    n != null ==> n.Valid() && WellKeyed(n.val) && n.val.fullKey == p
  }

  /** `children.find(x => idsEqual(x.fullKey, id))` in a parent that may be missing. */
  method FindByFullKey(parent: TreeNode?, id: Path, ghost p: Path, ghost k: Key) returns (r: TreeNode?)
    requires GoodParent(parent, p) && id == p + [k]
    ensures var cs := ChildrenOf(parent);
      var i := FindKey(cs, k);
      && (r == null <==> i == |cs|)
      && (r != null ==> i < |cs| && r == parent.children[i] && r.val == cs[i])
    ensures GoodParent(r, id)
  {
    if parent == null {
      return null;
    }
    ghost var cs := parent.val.children;
    var i := 0;
    while i < |parent.children| && parent.children[i].fullKey != id
      invariant 0 <= i <= |cs| && forall j :: 0 <= j < i ==> cs[j].key != k
    {
      assert parent.children[i].Valid() && cs[i] in cs;
      i := i + 1;
    }
    if i < |parent.children| {
      assert parent.children[i].Valid() && cs[i] in cs;
      assert p + [cs[i].key] == p + [k];
      assert (p + [cs[i].key])[|p|] == (p + [k])[|p|];
      return parent.children[i];
    }
    return null;
  }

  // ----- the state of the two loops -----

  /** The children below key `k`; none when the key is absent. */
  function Match(cs: seq<Node>, k: Key): seq<Node> {
    var i := FindKey(cs, k);
    if i < |cs| then cs[i].children else []
  }

  lemma {:induction false} RightBelow(ch: Change, p: Path, k: Key, q: Path, ss: seq<Node>, es: seq<Node>, m: Metric)
    requires q != []
    ensures Right(ch, p, [k] + q, ss, es, m) <==> Right(ch, p + [k], q, Match(ss, k), Match(es, k), m)
  {
    assert p + ([k] + q) == p + [k] + q;
    assert ([k] + q)[1..] == q;
  }

  /** The entry for `q` when the start children before index `i` have been entered. */
  ghost predicate StartedAt(ch: Change, p: Path, q: Path, ss: seq<Node>, es: seq<Node>, m: Metric, i: nat)
    requires q != [] && i <= |ss|
  {
    var j := FindKey(ss, q[0]);
    if j >= i then p + q !in ch
    else if |q| == 1 then p + q in ch && ch[p + q] == -ss[j].Value(m)
    else if ss[j].children != [] then Right(ch, p, q, ss, es, m)
    else p + q !in ch
  }

  ghost predicate Started(ch: Change, p: Path, ss: seq<Node>, es: seq<Node>, m: Metric, i: nat)
    requires i <= |ss|
  {
    forall q :: q != [] ==> StartedAt(ch, p, q, ss, es, m, i)
  }

  /** The entry for `q` when the end children before index `i` have been entered as well. */
  ghost predicate EndedAt(ch: Change, p: Path, q: Path, ss: seq<Node>, es: seq<Node>, m: Metric, i: nat)
    requires q != []
  {
    if FindKey(es, q[0]) < i then Right(ch, p, q, ss, es, m) else StartedAt(ch, p, q, ss, es, m, |ss|)
  }

  ghost predicate Ended(ch: Change, p: Path, ss: seq<Node>, es: seq<Node>, m: Metric, i: nat) {
    forall q :: q != [] ==> EndedAt(ch, p, q, ss, es, m, i)
  }

  /** What entering the child with key `k` may change: its own entry and what lies below it. */
  ghost predicate KeepsOthers(ch: Change, ch': Change, p: Path, k: Key) {
    forall q :: q != [] && q[0] != k ==> (p + q in ch <==> p + q in ch') && (p + q in ch ==> ch'[p + q] == ch[p + q])
  }

  /** After a start child has been entered: minus its value, and everything below it if it is inner. */
  ghost predicate EnteredStart(ch: Change, p: Path, c: Node, es: seq<Node>, m: Metric) {
    && p + [c.key] in ch && ch[p + [c.key]] == -c.Value(m)
    && if c.children != [] then AllRight(ch, p + [c.key], c.children, Match(es, c.key), m)
       else NothingBelow(ch.Keys, p + [c.key])
  }

  lemma {:induction false} StartStepAt(ch: Change, ch': Change, p: Path, ss: seq<Node>, es: seq<Node>, m: Metric,
                                       i: nat, q: Path)
    requires i < |ss| && DistinctKeys(ss) && q != [] && StartedAt(ch, p, q, ss, es, m, i)
    requires KeepsOthers(ch, ch', p, ss[i].key) && EnteredStart(ch', p, ss[i], es, m)
    ensures StartedAt(ch', p, q, ss, es, m, i + 1)
  {
    FindKeyUnique(ss, i);
    var k := ss[i].key;
    if q[0] == k {
      assert q == [k] + q[1..];
      if |q| == 1 {
        assert q == [k];
      } else if ss[i].children != [] {
        RightBelow(ch', p, k, q[1..], ss, es, m);
        assert Right(ch', p + [k], q[1..], ss[i].children, Match(es, k), m);
      } else {
        assert p + [k] < p + q by { assert p + q == p + [k] + q[1..]; }
      }
    } else {
      assert FindKey(ss, q[0]) != i;
    }
  }

  lemma {:induction false} StartStep(ch: Change, ch': Change, p: Path, ss: seq<Node>, es: seq<Node>, m: Metric, i: nat)
    requires i < |ss| && DistinctKeys(ss) && Started(ch, p, ss, es, m, i)
    requires KeepsOthers(ch, ch', p, ss[i].key) && EnteredStart(ch', p, ss[i], es, m)
    ensures Started(ch', p, ss, es, m, i + 1)
  {
    var next := i + 1;
    forall q: Path | q != [] ensures StartedAt(ch', p, q, ss, es, m, next) {
      StartStepAt(ch, ch', p, ss, es, m, i, q);
    }
  }

  /** After an end child has been entered: the difference, and everything below it. */
  ghost predicate EnteredEnd(ch: Change, p: Path, c: Node, ss: seq<Node>, m: Metric) {
    && p + [c.key] in ch && ch[p + [c.key]] == c.Value(m) - ValueAt(ss, [c.key], m)
    && AllRight(ch, p + [c.key], Match(ss, c.key), c.children, m)
  }

  lemma {:induction false} EndStepAt(ch: Change, ch': Change, p: Path, ss: seq<Node>, es: seq<Node>, m: Metric,
                                     i: nat, q: Path)
    requires i < |es| && DistinctKeys(es) && q != [] && EndedAt(ch, p, q, ss, es, m, i)
    requires KeepsOthers(ch, ch', p, es[i].key) && EnteredEnd(ch', p, es[i], ss, m)
    ensures EndedAt(ch', p, q, ss, es, m, i + 1)
  {
    FindKeyUnique(es, i);
    var k := es[i].key;
    if q[0] == k {
      assert q == [k] + q[1..];
      if |q| == 1 {
        assert q == [k];
      } else {
        RightBelow(ch', p, k, q[1..], ss, es, m);
        assert Right(ch', p + [k], q[1..], Match(ss, k), es[i].children, m);
      }
    } else {
      assert FindKey(es, q[0]) != i;
    }
  }

  lemma {:induction false} EndStep(ch: Change, ch': Change, p: Path, ss: seq<Node>, es: seq<Node>, m: Metric, i: nat)
    requires i < |es| && DistinctKeys(es) && Ended(ch, p, ss, es, m, i)
    requires KeepsOthers(ch, ch', p, es[i].key) && EnteredEnd(ch', p, es[i], ss, m)
    ensures Ended(ch', p, ss, es, m, i + 1)
  {
    var next := i + 1;
    forall q: Path | q != [] ensures EndedAt(ch', p, q, ss, es, m, next) {
      EndStepAt(ch, ch', p, ss, es, m, i, q);
    }
  }

  lemma {:induction false} StartedIsEnded(ch: Change, p: Path, ss: seq<Node>, es: seq<Node>, m: Metric)
    requires Started(ch, p, ss, es, m, |ss|)
    ensures Ended(ch, p, ss, es, m, 0)
  {
  }

  lemma {:induction false} EndedIsRight(ch: Change, p: Path, ss: seq<Node>, es: seq<Node>, m: Metric)
    requires Ended(ch, p, ss, es, m, |es|)
    ensures AllRight(ch, p, ss, es, m)
  {
    forall q: Path | q != [] ensures Right(ch, p, q, ss, es, m) {
      assert EndedAt(ch, p, q, ss, es, m, |es|);
      if FindKey(es, q[0]) >= |es| {
        assert StartedAt(ch, p, q, ss, es, m, |ss|);
        assert !Present([], q[1..]);
      }
    }
  }

  // ----- which nodes have been processed and visited -----

  /** Below `p`, ids only lie at or below inner start children before index `i`. */
  ghost predicate InnerOnly(ids: set<Path>, p: Path, ss: seq<Node>, i: nat) {
    forall q :: q != [] && p + q in ids ==>
      var j := FindKey(ss, q[0]); j < i && j < |ss| && ss[j].children != []
  }

  /** Below `p`, ids only lie at or below inner start children and end children before index `i`. */
  ghost predicate InnerOrEnded(ids: set<Path>, p: Path, ss: seq<Node>, es: seq<Node>, i: nat) {
    forall q :: q != [] && p + q in ids ==>
      FindKey(es, q[0]) < i || var j := FindKey(ss, q[0]); j < |ss| && ss[j].children != []
  }

  ghost predicate InnerProcessed(processed: set<Path>, p: Path, ss: seq<Node>, i: nat)
    requires i <= |ss|
  {
    forall j :: 0 <= j < i && ss[j].children != [] ==> p + [ss[j].key] in processed
  }

  /** Only ids at or below the child with key `k` are added. */
  ghost predicate AddsAt(ids: set<Path>, ids': set<Path>, p: Path, k: Key) {
    && ids <= ids'
    && forall id :: id in ids' && id !in ids ==> p + [k] <= id
  }

  lemma {:induction false} AddsAtOthers(ids: set<Path>, ids': set<Path>, p: Path, k: Key, q: Path)
    requires AddsAt(ids, ids', p, k) && q != [] && q[0] != k && p + q in ids'
    ensures p + q in ids
  {
    PathBelow(p, k, q);
  }

  lemma {:induction false} InnerOnlyStep(ids: set<Path>, ids': set<Path>, p: Path, ss: seq<Node>, i: nat)
    requires i < |ss| && DistinctKeys(ss) && InnerOnly(ids, p, ss, i) && AddsAt(ids, ids', p, ss[i].key)
    requires ss[i].children == [] ==> ids' == ids
    ensures InnerOnly(ids', p, ss, i + 1)
  {
    FindKeyUnique(ss, i);
    forall q | q != [] && p + q in ids'
      ensures var j := FindKey(ss, q[0]); j < i + 1 && j < |ss| && ss[j].children != []
    {
      if q[0] != ss[i].key {
        AddsAtOthers(ids, ids', p, ss[i].key, q);
      }
    }
  }

  lemma {:induction false} InnerOrEndedStep(ids: set<Path>, ids': set<Path>, p: Path, ss: seq<Node>, es: seq<Node>,
                                            i: nat)
    requires i < |es| && DistinctKeys(es) && InnerOrEnded(ids, p, ss, es, i) && AddsAt(ids, ids', p, es[i].key)
    ensures InnerOrEnded(ids', p, ss, es, i + 1)
  {
    FindKeyUnique(es, i);
    forall q | q != [] && p + q in ids'
      ensures FindKey(es, q[0]) < i + 1 || var j := FindKey(ss, q[0]); j < |ss| && ss[j].children != []
    {
      if q[0] != es[i].key {
        AddsAtOthers(ids, ids', p, es[i].key, q);
      }
    }
  }

  lemma {:induction false} NothingAtOrBelow(ids: set<Path>, p: Path, k: Key)
    requires forall q :: q != [] && p + q in ids ==> q[0] != k
    ensures NothingBelow(ids, p + [k]) && p + [k] !in ids
  {
    forall id | id in ids ensures !(p + [k] <= id) {
      if p < id {
        var q := id[|p|..];
        assert id == p + q;
        assert id[|p|] != (p + [k])[|p|];
      }
    }
  }

  lemma {:induction false} FreshAt(ids: set<Path>, p: Path)
    requires NothingBelow(ids, p)
    ensures forall q :: q != [] ==> p + q !in ids
  {
    forall q: Path | q != [] ensures p + q !in ids {
      assert p < p + q;
    }
  }

  // ----- one child -----

  lemma {:induction false} KeepsOthersBelow(ch: Change, ch': Change, ch'': Change, p: Path, k: Key)
    requires KeepsOthers(ch, ch', p, k) && KeepsOutside(ch', ch'', p + [k])
    ensures KeepsOthers(ch, ch'', p, k)
  {
    forall q | q != [] && q[0] != k
      ensures (p + q in ch <==> p + q in ch'') && (p + q in ch ==> ch''[p + q] == ch[p + q])
    {
      PathBelow(p, k, q);
      assert !(p + [k] < p + q);
    }
  }

  lemma {:induction false} SetEntry(ch: Change, p: Path, k: Key, v: int)
    ensures KeepsOthers(ch, ch[p + [k] := v], p, k)
    ensures NothingBelow(ch.Keys, p + [k]) ==> NothingBelow(ch[p + [k] := v].Keys, p + [k])
  {
    forall q | q != [] && q[0] != k ensures p + q != p + [k] {
      PathBelow(p, k, q);
    }
  }

  method EnterStart(c: TreeNode, end: TreeNode?, m: Metric, change: Change, processed: set<Path>,
                    ghost visited: set<Path>, ghost p: Path, ghost h: nat)
    returns (change': Change, processed': set<Path>, ghost visited': set<Path>)
    requires GoodParent(c, p + [c.val.key]) && GoodParent(end, p)
    requires ForestHeight(c.val.children) + ForestHeight(Match(ChildrenOf(end), c.val.key)) < h
    requires NothingBelow(change.Keys, c.val.fullKey) && NothingBelow(processed, c.val.fullKey)
    requires NothingBelow(visited, c.val.fullKey) && c.val.fullKey !in visited
    ensures KeepsOthers(change, change', p, c.val.key) && EnteredStart(change', p, c.val, ChildrenOf(end), m)
    ensures KeepsOutside(change, change', p)
    ensures AddsAt(processed, processed', p, c.val.key) && AddsAt(visited, visited', p, c.val.key)
    ensures c.val.children == [] ==> processed' == processed && visited' == visited
    ensures c.val.children != [] ==> c.val.fullKey in processed'
    decreases h, 0
  {
    hide WellKeyed, AllRight, KeepsOthers, ForestHeight;
    visited', processed' := visited, processed;
    ghost var k := c.val.key;
    SetEntry(change, p, k, -c.Value(m));
    change' := change[c.fullKey := -c.Value(m)];
    if c.children != [] {
      ghost var ch := change';
      var e := FindByFullKey(end, c.fullKey, p, k);
      change', processed', visited' := CalculateAbsGrowth(c, e, m, change', processed, visited, p + [k]);
      KeepsOthersBelow(change, ch, change', p, k);
      processed' := processed' + {c.fullKey};
    }
  }

  /** What the end loop knows of a child before entering it. */
  ghost predicate EnterEndReady(ch: Change, ids: set<Path>, vs: set<Path>, p: Path, c: Node, ss: seq<Node>, m: Metric) {
    var k, i := c.key, FindKey(ss, c.key);
    && StartedAt(ch, p, [k], ss, [], m, |ss|)
    && (p + [k] in ids <==> i < |ss| && ss[i].children != [])
    && (p + [k] in ids ==> AllRight(ch, p + [k], ss[i].children, c.children, m))
    && (p + [k] !in ids ==> NothingBelow(ch.Keys, p + [k]) && NothingBelow(ids, p + [k]))
    && (p + [k] !in ids ==> NothingBelow(vs, p + [k]) && p + [k] !in vs)
  }

  method EnterEnd(c: TreeNode, start: TreeNode?, m: Metric, change: Change, processed: set<Path>,
                  ghost visited: set<Path>, ghost p: Path, ghost h: nat)
    returns (change': Change, processed': set<Path>, ghost visited': set<Path>)
    requires GoodParent(c, p + [c.val.key]) && GoodParent(start, p)
    requires ForestHeight(c.val.children) + ForestHeight(Match(ChildrenOf(start), c.val.key)) < h
    requires EnterEndReady(change, processed, visited, p, c.val, ChildrenOf(start), m)
    ensures KeepsOthers(change, change', p, c.val.key) && EnteredEnd(change', p, c.val, ChildrenOf(start), m)
    ensures KeepsOutside(change, change', p)
    ensures AddsAt(processed, processed', p, c.val.key) && AddsAt(visited, visited', p, c.val.key)
    decreases h, 0
  {
    hide WellKeyed, AllRight, KeepsOthers, ForestHeight;
    visited', processed' := visited, processed;
    ghost var k := c.val.key;
    var v := if c.fullKey in change then c.Value(m) + change[c.fullKey] else c.Value(m);
    SetEntry(change, p, k, v);
    change' := change[c.fullKey := v];
    ghost var ch := change';
    if c.fullKey !in processed {
      if c.children != [] {
        var s := FindByFullKey(start, c.fullKey, p, k);
        change', processed', visited' := CalculateAbsGrowth(s, c, m, change', processed, visited, p + [k]);
        KeepsOthersBelow(change, ch, change', p, k);
      } else {
        NothingIsRight(change', p + [k], m);
      }
    } else {
      RightKept(change, change', p, k, Match(ChildrenOf(start), k), c.val.children, m);
    }
  }

  lemma {:induction false} NothingIsRight(ch: Change, p: Path, m: Metric)
    requires NothingBelow(ch.Keys, p)
    ensures AllRight(ch, p, [], [], m)
  {
    FreshAt(ch.Keys, p);
  }

  lemma {:induction false} RightKept(ch: Change, ch': Change, p: Path, k: Key, ss: seq<Node>, es: seq<Node>, m: Metric)
    requires AllRight(ch, p + [k], ss, es, m)
    requires forall id :: id != p + [k] ==> (id in ch <==> id in ch') && (id in ch ==> ch'[id] == ch[id])
    ensures AllRight(ch', p + [k], ss, es, m)
  {
    forall q: Path | q != [] ensures Right(ch', p + [k], q, ss, es, m) {
      assert Right(ch, p + [k], q, ss, es, m);
      assert |p + [k] + q| > |p + [k]|;
    }
  }

  // ----- the two loops -----

  /** What the loops keep about everything that does not lie below `p`. */
  ghost predicate OnlyBelow(ch: Change, ch': Change, ids: set<Path>, ids': set<Path>, vs: set<Path>, vs': set<Path>,
                            p: Path) {
    && KeepsOutside(ch, ch', p)
    && AddsBelow(ids, ids', p)
    && AddsBelow(vs, vs', p)
  }

  /** Only entries below `p` are changed, and only ids at or below the child with key `k` are added. */
  ghost predicate OnlyAt(ch: Change, ch': Change, ids: set<Path>, ids': set<Path>, vs: set<Path>, vs': set<Path>,
                         p: Path, k: Key) {
    KeepsOutside(ch, ch', p) && AddsAt(ids, ids', p, k) && AddsAt(vs, vs', p, k)
  }

  lemma {:induction false} OnlyBelowTurn(ch: Change, ch': Change, ch'': Change, ids: set<Path>, ids': set<Path>,
                                         ids'': set<Path>, vs: set<Path>, vs': set<Path>, vs'': set<Path>, p: Path,
                                         k: Key)
    requires OnlyBelow(ch, ch', ids, ids', vs, vs', p) && OnlyAt(ch', ch'', ids', ids'', vs', vs'', p, k)
    ensures OnlyBelow(ch, ch'', ids, ids'', vs, vs'', p)
  {
  }

  lemma {:induction false} OnlyBelowSame(ch: Change, ids: set<Path>, vs: set<Path>, p: Path)
    ensures OnlyBelow(ch, ch, ids, ids, vs, vs, p)
  {
  }

  lemma {:induction false} InnerProcessedStep(ids: set<Path>, ids': set<Path>, p: Path, ss: seq<Node>, i: nat)
    requires i < |ss| && InnerProcessed(ids, p, ss, i) && AddsAt(ids, ids', p, ss[i].key)
    requires ss[i].children != [] ==> p + [ss[i].key] in ids'
    ensures InnerProcessed(ids', p, ss, i + 1)
  {
  }

  lemma {:induction false} StillProcessed(ids: set<Path>, ids': set<Path>, p: Path, ss: seq<Node>, k: Key)
    requires InnerProcessed(ids, p, ss, |ss|) && AddsAt(ids, ids', p, k)
    ensures InnerProcessed(ids', p, ss, |ss|)
  {
  }

  ghost predicate StartLoop(ch: Change, ids: set<Path>, vs: set<Path>, p: Path, ss: seq<Node>, es: seq<Node>,
                            m: Metric, i: nat)
    requires i <= |ss|
  {
    && Started(ch, p, ss, es, m, i)
    && InnerOnly(ids, p, ss, i)
    && InnerProcessed(ids, p, ss, i)
    && InnerOnly(vs, p, ss, i)
  }

  lemma {:induction false} StartLoopBegins(ch: Change, ids: set<Path>, vs: set<Path>, p: Path, ss: seq<Node>,
                                           es: seq<Node>, m: Metric)
    requires NothingBelow(ch.Keys, p) && NothingBelow(ids, p) && NothingBelow(vs, p)
    ensures StartLoop(ch, ids, vs + {p}, p, ss, es, m, 0)
  {
    FreshAt(ch.Keys, p);
    FreshAt(ids, p);
    FreshAt(vs + {p}, p);
  }

  lemma {:induction false} StartLoopReady(ch: Change, ids: set<Path>, vs: set<Path>, p: Path, ss: seq<Node>,
                                          es: seq<Node>, m: Metric, i: nat)
    requires i < |ss| && DistinctKeys(ss) && StartLoop(ch, ids, vs, p, ss, es, m, i)
    ensures var id := p + [ss[i].key];
      NothingBelow(ch.Keys, id) && NothingBelow(ids, id) && NothingBelow(vs, id) && id !in vs
  {
    FindKeyUnique(ss, i);
    forall q | q != [] && p + q in ch.Keys ensures q[0] != ss[i].key {
      assert StartedAt(ch, p, q, ss, es, m, i);
    }
    NothingAtOrBelow(ch.Keys, p, ss[i].key);
    NothingAtOrBelow(ids, p, ss[i].key);
    NothingAtOrBelow(vs, p, ss[i].key);
  }

  ghost predicate EndLoop(ch: Change, ids: set<Path>, vs: set<Path>, p: Path, ss: seq<Node>, es: seq<Node>, m: Metric,
                          i: nat) {
    && Ended(ch, p, ss, es, m, i)
    && InnerOrEnded(ids, p, ss, es, i)
    && InnerProcessed(ids, p, ss, |ss|)
    && InnerOrEnded(vs, p, ss, es, i)
  }

  lemma {:induction false} EndLoopReady(ch: Change, ids: set<Path>, vs: set<Path>, p: Path, ss: seq<Node>,
                                        es: seq<Node>, m: Metric, i: nat)
    requires i < |es| && DistinctKeys(es) && EndLoop(ch, ids, vs, p, ss, es, m, i)
    ensures EnterEndReady(ch, ids, vs, p, es[i], ss, m)
  {
    FindKeyUnique(es, i);
    var k := es[i].key;
    var j := FindKey(ss, k);
    assert EndedAt(ch, p, [k], ss, es, m, i);
    if p + [k] in ids {
      forall q: Path | q != [] ensures Right(ch, p + [k], q, ss[j].children, es[i].children, m) {
        assert EndedAt(ch, p, [k] + q, ss, es, m, i);
        RightBelow(ch, p, k, q, ss, es, m);
      }
    } else {
      forall q | q != [] && p + q in ch.Keys ensures q == [k] || q[0] != k {
        assert EndedAt(ch, p, q, ss, es, m, i);
      }
      NothingBelowKey(ch.Keys, p, k);
      NothingAtOrBelow(ids, p, k);
      NothingAtOrBelow(vs, p, k);
    }
  }

  lemma {:induction false} NothingBelowKey(ids: set<Path>, p: Path, k: Key)
    requires forall q :: q != [] && p + q in ids ==> q == [k] || q[0] != k
    ensures NothingBelow(ids, p + [k])
  {
    forall q | q != [] && p + q in ids - {p + [k]} ensures q[0] != k {
    }
    NothingAtOrBelow(ids - {p + [k]}, p, k);
    forall id | id in ids ensures !(p + [k] < id) {
      assert id == p + [k] || id in ids - {p + [k]};
    }
  }

  /** Helpers.calculateAbsGrowthPerNodeRecursive. */
  method CalculateAbsGrowth(start: TreeNode?, end: TreeNode?, m: Metric, change: Change, processed: set<Path>,
                            ghost visited: set<Path>, ghost p: Path)
    returns (change': Change, processed': set<Path>, ghost visited': set<Path>)
    requires GoodParent(start, p) && GoodParent(end, p)
    requires NothingBelow(change.Keys, p) && NothingBelow(processed, p) && NothingBelow(visited, p) && p !in visited
    ensures AllRight(change', p, ChildrenOf(start), ChildrenOf(end), m)
    ensures OnlyBelow(change, change', processed, processed', visited + {p}, visited', p)
    decreases ForestHeight(ChildrenOf(start)) + ForestHeight(ChildrenOf(end)), 3
  {
    ghost var ss, es := ChildrenOf(start), ChildrenOf(end);
    StartLoopBegins(change, processed, visited, p, ss, es, m);
    change', processed', visited' := change, processed, visited + {p};
    if start != null {
      change', processed', visited' := EnterStarts(start, end, m, change', processed', visited', p);
    }
    StartedIsEnded(change', p, ss, es, m);
    if end != null {
      change', processed', visited' := EnterEnds(start, end, m, change', processed', visited', p);
    }
    EndedIsRight(change', p, ss, es, m);
  }

  lemma {:induction false} ChildGood(n: TreeNode, p: Path, i: nat)
    requires GoodParent(n, p) && i < |n.val.children|
    ensures n.Valid() && |n.children| == |n.val.children| && n.children[i].val == n.val.children[i]
    ensures DistinctKeys(n.val.children) && n.val.children[i].fullKey == p + [n.val.children[i].key]
    ensures GoodParent(n.children[i], p + [n.val.children[i].key])
  {
    assert n.val.children[i] in n.val.children;
  }

  /** One turn of the loop over the children of the start. */
  method StartTurn(start: TreeNode, end: TreeNode?, m: Metric, change: Change, processed: set<Path>,
                   ghost visited: set<Path>, ghost p: Path, i: nat)
    returns (change': Change, processed': set<Path>, ghost visited': set<Path>)
    requires GoodParent(start, p) && GoodParent(end, p) && i < |start.val.children|
    requires StartLoop(change, processed, visited, p, start.val.children, ChildrenOf(end), m, i)
    ensures StartLoop(change', processed', visited', p, start.val.children, ChildrenOf(end), m, i + 1)
    ensures OnlyAt(change, change', processed, processed', visited, visited', p, start.val.children[i].key)
    decreases ForestHeight(start.val.children) + ForestHeight(ChildrenOf(end)), 1
  {
    hide Started, InnerOnly, KeepsOthers, EnteredStart, AddsAt, NothingBelow, InnerProcessed, KeepsOutside;
    hide WellKeyed, DistinctKeys, GoodParent, ForestHeight;
    ghost var ss, es := start.val.children, ChildrenOf(end);
    ChildGood(start, p, i);
    StartLoopReady(change, processed, visited, p, ss, es, m, i);
    StartDescends(ss, es, i);
    change', processed', visited' :=
      EnterStart(start.children[i], end, m, change, processed, visited, p, ForestHeight(ss) + ForestHeight(es));
    StartStep(change, change', p, ss, es, m, i);
    InnerProcessedStep(processed, processed', p, ss, i);
    InnerOnlyStep(processed, processed', p, ss, i);
    InnerOnlyStep(visited, visited', p, ss, i);
  }

  method EnterStarts(start: TreeNode, end: TreeNode?, m: Metric, change: Change, processed: set<Path>,
                     ghost visited: set<Path>, ghost p: Path)
    returns (change': Change, processed': set<Path>, ghost visited': set<Path>)
    requires GoodParent(start, p) && GoodParent(end, p)
    requires StartLoop(change, processed, visited, p, start.val.children, ChildrenOf(end), m, 0)
    ensures StartLoop(change', processed', visited', p, start.val.children, ChildrenOf(end), m, |start.val.children|)
    ensures OnlyBelow(change, change', processed, processed', visited, visited', p)
    decreases ForestHeight(start.val.children) + ForestHeight(ChildrenOf(end)), 2
  {
    hide StartLoop, OnlyBelow, OnlyAt, WellKeyed;
    change', processed', visited' := change, processed, visited;
    ghost var ss, es := start.val.children, ChildrenOf(end);
    OnlyBelowSame(change, processed, visited, p);
    for i := 0 to |start.children|
      invariant StartLoop(change', processed', visited', p, ss, es, m, i)
      invariant OnlyBelow(change, change', processed, processed', visited, visited', p)
    {
      ghost var ch, ids, vs := change', processed', visited';
      change', processed', visited' := StartTurn(start, end, m, change', processed', visited', p, i);
      OnlyBelowTurn(change, ch, change', processed, ids, processed', visited, vs, visited', p, ss[i].key);
    }
  }

  /** One turn of the loop over the children of the end. */
  method EndTurn(start: TreeNode?, end: TreeNode, m: Metric, change: Change, processed: set<Path>,
                 ghost visited: set<Path>, ghost p: Path, i: nat)
    returns (change': Change, processed': set<Path>, ghost visited': set<Path>)
    requires GoodParent(start, p) && GoodParent(end, p) && i < |end.val.children|
    requires EndLoop(change, processed, visited, p, ChildrenOf(start), end.val.children, m, i)
    ensures EndLoop(change', processed', visited', p, ChildrenOf(start), end.val.children, m, i + 1)
    ensures OnlyAt(change, change', processed, processed', visited, visited', p, end.val.children[i].key)
    decreases ForestHeight(ChildrenOf(start)) + ForestHeight(end.val.children), 1
  {
    hide Ended, InnerOrEnded, KeepsOthers, EnteredEnd, AddsAt, NothingBelow, InnerProcessed, KeepsOutside;
    hide EnterEndReady, WellKeyed, DistinctKeys, GoodParent, ForestHeight;
    ghost var ss, es := ChildrenOf(start), end.val.children;
    ghost var k := es[i].key;
    ChildGood(end, p, i);
    EndLoopReady(change, processed, visited, p, ss, es, m, i);
    StartDescends(es, ss, i);
    change', processed', visited' :=
      EnterEnd(end.children[i], start, m, change, processed, visited, p, ForestHeight(ss) + ForestHeight(es));
    EndStep(change, change', p, ss, es, m, i);
    StillProcessed(processed, processed', p, ss, k);
    InnerOrEndedStep(processed, processed', p, ss, es, i);
    InnerOrEndedStep(visited, visited', p, ss, es, i);
  }

  method EnterEnds(start: TreeNode?, end: TreeNode, m: Metric, change: Change, processed: set<Path>,
                   ghost visited: set<Path>, ghost p: Path)
    returns (change': Change, processed': set<Path>, ghost visited': set<Path>)
    requires GoodParent(start, p) && GoodParent(end, p)
    requires EndLoop(change, processed, visited, p, ChildrenOf(start), end.val.children, m, 0)
    ensures EndLoop(change', processed', visited', p, ChildrenOf(start), end.val.children, m, |end.val.children|)
    ensures OnlyBelow(change, change', processed, processed', visited, visited', p)
    decreases ForestHeight(ChildrenOf(start)) + ForestHeight(end.val.children), 2
  {
    hide EndLoop, OnlyBelow, OnlyAt, WellKeyed;
    change', processed', visited' := change, processed, visited;
    ghost var ss, es := ChildrenOf(start), end.val.children;
    OnlyBelowSame(change, processed, visited, p);
    for i := 0 to |end.children|
      invariant EndLoop(change', processed', visited', p, ss, es, m, i)
      invariant OnlyBelow(change, change', processed, processed', visited, visited', p)
    {
      ghost var ch, ids, vs := change', processed', visited';
      change', processed', visited' := EndTurn(start, end, m, change', processed', visited', p, i);
      OnlyBelowTurn(change, ch, change', processed, ids, processed', visited, vs, visited', p, es[i].key);
    }
  }

  lemma {:induction false} StartDescends(ss: seq<Node>, es: seq<Node>, i: nat)
    requires i < |ss|
    ensures ForestHeight(ss[i].children) + ForestHeight(Match(es, ss[i].key)) < ForestHeight(ss) + ForestHeight(es)
  {
    TallerThanChild(ss, i);
    var j := FindKey(es, ss[i].key);
    if j < |es| {
      TallerThanChild(es, j);
    }
  }

  /** Called with empty collections, as it is when a visualization is set up. */
  method GrowthBetween(start: TreeNode, end: TreeNode, m: Metric) returns (change: Change)
    requires start.Valid() && WellKeyed(start.val) && end.Valid() && WellKeyed(end.val)
    requires start.val.fullKey == end.val.fullKey
    ensures AllRight(change, start.val.fullKey, start.val.children, end.val.children, m)
    ensures forall id :: id in change ==> start.val.fullKey < id
  {
    var processed;
    ghost var visited;
    change, processed, visited := CalculateAbsGrowth(start, end, m, map[], {}, {}, start.val.fullKey);
  }
}
