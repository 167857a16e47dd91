/**
 Completing a tree whose children do not account for all of their parent: what is missing goes
 into an "Other" child (DataInitializer.handleMissingData).
 */
module MissingData {
  import opened Trees
  import opened Reduce
  import opened Conservation
  import opened ReductionTheorems

  /** No inner node is smaller than the sum of its children. */
  ghost predicate Covers(n: Node) {
    && (n.children != [] ==> forall m: Metric :: Sum(n.children, m) <= n.Value(m))
    && forall c :: c in n.children ==> Covers(c)
  }

  function HandleMissing(n: Node): (r: Node)
    ensures Height(r) <= Height(n)
    decreases Height(n), 1, 0
  {
    if n.children == [] then n
    else
      var dBytes := n.bytes - Sum(n.children, Bytes);
      var dObjects := n.objects - Sum(n.children, Objects);
      if dBytes < 0 || dObjects < 0 then n
      else
        var cs := HandleMissingEach(n.children);
        if dBytes == 0 && dObjects == 0 then n.(children := cs)
        else
          var i := FindKey(cs, OTHER);
          if i < |cs| then
            TallerThanChild(cs, i);
            var raised := HandleMissing(cs[i].Plus(dObjects, dBytes));
            ReplacedHeight(cs, i, raised);
            n.(children := cs[i := raised])
          else
            AppendedHeight(n.children, cs, EmptyOther(n.fullKey).Plus(dObjects, dBytes));
            n.(children := cs + [EmptyOther(n.fullKey).Plus(dObjects, dBytes)])
  }

  function HandleMissingEach(cs: seq<Node>): (rs: seq<Node>)
    ensures |rs| == |cs| && ForestHeight(rs) <= ForestHeight(cs)
    decreases ForestHeight(cs), 0, |cs|
  {
    if cs == [] then []
    else
      var n := |cs| - 1;
      TallerThanChild(cs, n);
      var before, last := HandleMissingEach(cs[..n]), HandleMissing(cs[n]);
      assert (before + [last])[..n] == before;
      before + [last]
  }

  lemma {:induction false} ReplacedHeight(cs: seq<Node>, i: nat, c: Node)
    requires i < |cs| && Height(c) <= Height(cs[i])
    ensures ForestHeight(cs[i := c]) <= ForestHeight(cs)
  {
    forall x | x in cs[i := c] ensures Height(x) < ForestHeight(cs) {
      TallerThanChild(cs, i);
      if x != c {
        var j :| 0 <= j < |cs| && cs[j] == x;
        TallerThanChild(cs, j);
      }
    }
    ForestHeightBound(cs[i := c], ForestHeight(cs));
  }

  lemma {:induction false} AppendedHeight(cs: seq<Node>, rs: seq<Node>, leaf: Node)
    requires cs != [] && ForestHeight(rs) <= ForestHeight(cs) && leaf.children == []
    ensures ForestHeight(rs + [leaf]) <= ForestHeight(cs)
  {
    TallerThanChild(cs, 0);
    assert (rs + [leaf])[..|rs|] == rs && (rs + [leaf])[|rs|] == leaf;
    assert Height(leaf) == 0;
  }

  /** One step of the recursion. */
  lemma {:induction false} HandleMissingStep(n: Node)
    ensures var dBytes, dObjects := n.bytes - Sum(n.children, Bytes), n.objects - Sum(n.children, Objects);
      var cs := HandleMissingEach(n.children);
      var i := FindKey(cs, OTHER);
      HandleMissing(n) ==
      if n.children == [] || dBytes < 0 || dObjects < 0 then n
      else if dBytes == 0 && dObjects == 0 then n.(children := cs)
      else if i < |cs| then n.(children := cs[i := HandleMissing(cs[i].Plus(dObjects, dBytes))])
      else n.(children := cs + [EmptyOther(n.fullKey).Plus(dObjects, dBytes)])
  {
    hide HandleMissingEach, Sum, FindKey;
  }

  lemma {:induction false} HandleMissingHead(n: Node)
    ensures HandleMissing(n).SameHead(n)
  {
    HandleMissingStep(n);
  }

  lemma {:induction false} HandleMissingEachHeads(cs: seq<Node>)
    ensures forall i :: 0 <= i < |cs| ==> HandleMissingEach(cs)[i].SameHead(cs[i])
  {
    if cs != [] {
      var n := |cs| - 1;
      HandleMissingEachHeads(cs[..n]);
      HandleMissingHead(cs[n]);
    }
  }

  // ----- the completed tree adds up -----

  lemma {:induction false} CoversRaised(n: Node, dObjects: nat, dBytes: nat)
    requires Covers(n)
    ensures Covers(n.Plus(dObjects, dBytes))
  {
    var r := n.Plus(dObjects, dBytes);
    forall m: Metric ensures r.Value(m) >= n.Value(m) {
    }
  }

  lemma {:induction false} BalancedCovers(n: Node)
    requires Balanced(n)
    ensures Covers(n)
  {
    forall c | c in n.children ensures Covers(c) {
      BalancedCovers(c);
    }
  }

  ghost predicate AllBalanced(cs: seq<Node>) {
    forall c :: c in cs ==> Balanced(c)
  }

  lemma {:induction false} HandleMissingBalances(n: Node)
    requires Covers(n)
    ensures Balanced(HandleMissing(n))
    decreases Height(n), 1, 0
  {
    hide HandleMissing, HandleMissingEach, AllBalanced;
    HandleMissingStep(n);
    if n.children != [] {
      var dBytes, dObjects := n.bytes - Sum(n.children, Bytes), n.objects - Sum(n.children, Objects);
      assert Sum(n.children, Bytes) <= n.Value(Bytes) && Sum(n.children, Objects) <= n.Value(Objects);
      var cs := HandleMissingEach(n.children);
      HandleMissingEachBalances(n.children);
      HandleMissingEachHeads(n.children);
      SumOfSameValues(cs, n.children, Bytes);
      SumOfSameValues(cs, n.children, Objects);
      if dBytes == 0 && dObjects == 0 {
        AddsUp(n, cs);
      } else {
        var i := FindKey(cs, OTHER);
        if i < |cs| {
          var raised := cs[i].Plus(dObjects, dBytes);
          RaisedCovers(cs, i, dObjects, dBytes);
          TallerThanChild(cs, i);
          HandleMissingBalances(raised);
          HandleMissingHead(raised);
          AddsUpReplaced(n, cs, i, HandleMissing(raised), dObjects, dBytes);
        } else {
          AddsUpAppended(n, cs, EmptyOther(n.fullKey).Plus(dObjects, dBytes), dObjects, dBytes);
        }
      }
    }
  }

  lemma {:induction false} RaisedCovers(cs: seq<Node>, i: nat, dObjects: nat, dBytes: nat)
    requires AllBalanced(cs) && i < |cs|
    ensures Covers(cs[i].Plus(dObjects, dBytes))
  {
    assert cs[i] in cs;
    BalancedCovers(cs[i]);
    CoversRaised(cs[i], dObjects, dBytes);
  }

  lemma {:induction false} AddsUpReplaced(n: Node, cs: seq<Node>, i: nat, c: Node, dObjects: int, dBytes: int)
    requires AllBalanced(cs) && Balanced(c) && i < |cs| && c.SameHead(cs[i].Plus(dObjects, dBytes))
    requires Sum(cs, Bytes) + dBytes == n.bytes && Sum(cs, Objects) + dObjects == n.objects
    ensures Balanced(n.(children := cs[i := c]))
  {
    SumUpdate(cs, i, c, Bytes);
    SumUpdate(cs, i, c, Objects);
    assert forall x :: x in cs[i := c] ==> x == c || x in cs;
    AddsUp(n, cs[i := c]);
  }

  lemma {:induction false} AddsUpAppended(n: Node, cs: seq<Node>, leaf: Node, dObjects: int, dBytes: int)
    requires AllBalanced(cs) && leaf.children == [] && leaf.objects == dObjects && leaf.bytes == dBytes
    requires Sum(cs, Bytes) + dBytes == n.bytes && Sum(cs, Objects) + dObjects == n.objects
    ensures Balanced(n.(children := cs + [leaf]))
  {
    SumAppend(cs, leaf, Bytes);
    SumAppend(cs, leaf, Objects);
    AddsUp(n, cs + [leaf]);
  }

  lemma {:induction false} AddsUp(n: Node, cs: seq<Node>)
    requires AllBalanced(cs) && Sum(cs, Bytes) == n.bytes && Sum(cs, Objects) == n.objects
    ensures Balanced(n.(children := cs))
  {
    forall m: Metric ensures Sum(cs, m) == n.Value(m) {
      if m == Bytes {} else {}
    }
  }

  lemma {:induction false} HandleMissingEachBalances(cs: seq<Node>)
    requires forall c :: c in cs ==> Covers(c)
    ensures AllBalanced(HandleMissingEach(cs))
    decreases ForestHeight(cs), 0, |cs|
  {
    hide HandleMissing, Balanced, Covers;
    if cs != [] {
      var n := |cs| - 1;
      TallerThanChild(cs, n);
      HandleMissingEachBalances(cs[..n]);
      HandleMissingBalances(cs[n]);
    }
  }

  // ----- only "Other" nodes change -----

  /**
   `r` is `n` with some "Other" nodes raised and some inner nodes given a new "Other" leaf;
   every other node keeps its place, its keys and its metrics.
   */
  ghost predicate OnlyOthersRaised(n: Node, r: Node) {
    && r.fullKey == n.fullKey && r.key == n.key
    && r.objects >= n.objects && r.bytes >= n.bytes
    && (n.key != OTHER ==> r.objects == n.objects && r.bytes == n.bytes)
    && |n.children| <= |r.children| <= |n.children| + 1
    && (forall i :: 0 <= i < |n.children| ==> OnlyOthersRaised(n.children[i], r.children[i]))
    && (|r.children| > |n.children| ==>
          && n.children != [] && FindKey(n.children, OTHER) == |n.children|
          && IsNewOther(n, r.children[|n.children|]))
  }

  ghost predicate IsNewOther(n: Node, x: Node) {
    x.key == OTHER && x.fullKey == n.fullKey + [OTHER] && x.children == [] && x.objects >= 0 && x.bytes >= 0
  }

  lemma {:induction false} RaisedReflexive(n: Node)
    ensures OnlyOthersRaised(n, n)
  {
    forall i | 0 <= i < |n.children| ensures OnlyOthersRaised(n.children[i], n.children[i]) {
      RaisedReflexive(n.children[i]);
    }
  }

  lemma {:induction false} RaisedTransitive(a: Node, b: Node, c: Node)
    requires OnlyOthersRaised(a, b) && OnlyOthersRaised(b, c)
    ensures OnlyOthersRaised(a, c)
  {
    forall i | 0 <= i < |a.children| ensures OnlyOthersRaised(a.children[i], c.children[i]) {
      RaisedTransitive(a.children[i], b.children[i], c.children[i]);
    }
    if |b.children| > |a.children| {
      assert b.children[|a.children|].key == OTHER;
      assert OnlyOthersRaised(b.children[|a.children|], c.children[|a.children|]);
    } else if |c.children| > |a.children| {
      assert forall i :: 0 <= i < |a.children| ==> b.children[i].key == a.children[i].key;
    }
  }

  lemma {:induction false} HandleMissingRaises(n: Node)
    ensures OnlyOthersRaised(n, HandleMissing(n))
    decreases Height(n), 1, 0
  {
    hide HandleMissing, HandleMissingEach, OnlyOthersRaised;
    HandleMissingStep(n);
    var dBytes, dObjects := n.bytes - Sum(n.children, Bytes), n.objects - Sum(n.children, Objects);
    if n.children == [] || dBytes < 0 || dObjects < 0 {
      RaisedReflexive(n);
    } else {
      var cs := HandleMissingEach(n.children);
      HandleMissingEachRaises(n.children);
      var i := FindKey(cs, OTHER);
      if dBytes == 0 && dObjects == 0 {
        ChildrenRaised(n, cs);
      } else if i < |cs| {
        var raised := cs[i].Plus(dObjects, dBytes);
        TallerThanChild(cs, i);
        HandleMissingRaises(raised);
        OtherRevisited(n.children, cs, i, dObjects, dBytes, HandleMissing(raised));
        ChildrenRaised(n, cs[i := HandleMissing(raised)]);
      } else {
        ChildAdded(n, cs, EmptyOther(n.fullKey).Plus(dObjects, dBytes));
      }
    }
  }

  ghost predicate AllRaised(cs: seq<Node>, rs: seq<Node>) {
    |rs| == |cs| && forall i :: 0 <= i < |cs| ==> OnlyOthersRaised(cs[i], rs[i])
  }

  lemma {:induction false} OtherRevisited(cs: seq<Node>, rs: seq<Node>, i: nat, dObjects: nat, dBytes: nat, r: Node)
    requires AllRaised(cs, rs) && i < |cs| && rs[i].key == OTHER
    requires OnlyOthersRaised(rs[i].Plus(dObjects, dBytes), r)
    ensures AllRaised(cs, rs[i := r])
  {
    RaiseOther(cs[i], rs[i], dObjects, dBytes);
    RaisedTransitive(cs[i], rs[i].Plus(dObjects, dBytes), r);
  }

  lemma {:induction false} ChildrenRaised(n: Node, rs: seq<Node>)
    requires AllRaised(n.children, rs)
    ensures OnlyOthersRaised(n, n.(children := rs))
  {
  }

  lemma {:induction false} ChildAdded(n: Node, rs: seq<Node>, x: Node)
    requires AllRaised(n.children, rs)
    requires n.children != [] && FindKey(rs, OTHER) == |rs|
    requires IsNewOther(n, x)
    ensures OnlyOthersRaised(n, n.(children := rs + [x]))
  {
    assert forall i :: 0 <= i < |rs| ==> rs[i].key == n.children[i].key;
  }

  lemma {:induction false} RaiseOther(n: Node, r: Node, dObjects: nat, dBytes: nat)
    requires OnlyOthersRaised(n, r) && n.key == OTHER
    ensures OnlyOthersRaised(n, r.Plus(dObjects, dBytes))
  {
  }

  lemma {:induction false} HandleMissingEachRaises(cs: seq<Node>)
    ensures AllRaised(cs, HandleMissingEach(cs))
    decreases ForestHeight(cs), 0, |cs|
  {
    hide HandleMissing, OnlyOthersRaised;
    if cs != [] {
      var n := |cs| - 1;
      TallerThanChild(cs, n);
      HandleMissingEachRaises(cs[..n]);
      HandleMissingRaises(cs[n]);
    }
  }

  // ----- nothing to do on a tree that already adds up -----

  lemma {:induction false} HandleMissingIdempotent(n: Node)
    requires Balanced(n)
    ensures HandleMissing(n) == n
    decreases Height(n), 1, 0
  {
    hide HandleMissing, HandleMissingEach;
    HandleMissingStep(n);
    if n.children != [] {
      assert Sum(n.children, Bytes) == n.Value(Bytes) && Sum(n.children, Objects) == n.Value(Objects);
      HandleMissingEachIdempotent(n.children);
    }
  }

  lemma {:induction false} HandleMissingEachIdempotent(cs: seq<Node>)
    requires AllBalanced(cs)
    ensures HandleMissingEach(cs) == cs
    decreases ForestHeight(cs), 0, |cs|
  {
    hide HandleMissing, Balanced, ForestHeight;
    if cs != [] {
      var n := |cs| - 1;
      TallerThanChild(cs, n);
      PrefixNotTaller(cs, n);
      assert cs[n] in cs && cs[..n] + [cs[n]] == cs;
      HandleMissingEachIdempotent(cs[..n]);
      HandleMissingIdempotent(cs[n]);
    }
  }

  // ----- full keys and signs -----

  // ----- trees that do not cover their children -----

  /** In one of the metrics the children are more than the node. */
  predicate Exceeded(n: Node) {
    Sum(n.children, Bytes) > n.bytes || Sum(n.children, Objects) > n.objects
  }

  /**
   For every tree: a node whose children exceed it is left as it is, with all below it; every other inner node adds up
   afterwards, and so on for its children other than "Other".
   */
  ghost predicate Completed(n: Node, r: Node) {
    && r.SameHead(n) && (n.children == [] || Exceeded(n) ==> r == n)
    && (n.children != [] && !Exceeded(n) ==>
          && SumsUp(r) && |r.children| >= |n.children|
          && forall i :: 0 <= i < |n.children| && n.children[i].key != OTHER ==>
            Completed(n.children[i], r.children[i]))
  }

  lemma {:induction false} HandleMissingCompletes(n: Node)
    ensures Completed(n, HandleMissing(n))
    decreases Height(n), 1, 0
  {
    HandleMissingStep(n);
    HandleMissingHead(n);
    hide HandleMissing, HandleMissingEach, Completed, SumsUp;
    var r := HandleMissing(n);
    if n.children != [] && !Exceeded(n) {
      var cs := HandleMissingEach(n.children);
      HandleMissingEachCompletes(n.children);
      HandleMissingAddsUp(n);
      assert forall i :: 0 <= i < |n.children| && n.children[i].key != OTHER ==> r.children[i] == cs[i] by {
        HandleMissingEachHeads(n.children);
      }
    }
    CompletedIs(n, r);
  }

  lemma {:induction false} CompletedIs(n: Node, r: Node)
    requires r.SameHead(n) && (n.children == [] || Exceeded(n) ==> r == n)
    requires n.children != [] && !Exceeded(n) ==>
      && SumsUp(r) && |r.children| >= |n.children|
      && forall i :: 0 <= i < |n.children| && n.children[i].key != OTHER ==> Completed(n.children[i], r.children[i])
    ensures Completed(n, r)
  {
  }

  lemma {:induction false} HandleMissingAddsUp(n: Node)
    requires n.children != [] && !Exceeded(n)
    ensures SumsUp(HandleMissing(n)) && |HandleMissing(n).children| >= |n.children|
  {
    HandleMissingStep(n);
    var cs := HandleMissingEach(n.children);
    var i := FindKey(cs, OTHER);
    var dBytes, dObjects := n.bytes - Sum(n.children, Bytes), n.objects - Sum(n.children, Objects);
    HandleMissingEachHeads(n.children);
    hide HandleMissing, HandleMissingEach, Sum;
    forall m: Metric ensures Sum(HandleMissing(n).children, m) == n.Value(m) {
      SumOfSameValues(cs, n.children, m);
      if dBytes != 0 || dObjects != 0 {
        if i < |cs| {
          var raised := cs[i].Plus(dObjects, dBytes);
          HandleMissingHead(raised);
          SumUpdate(cs, i, HandleMissing(raised), m);
        } else {
          SumAppend(cs, EmptyOther(n.fullKey).Plus(dObjects, dBytes), m);
        }
      }
    }
    HandleMissingHead(n);
  }

  lemma {:induction false} HandleMissingEachCompletes(cs: seq<Node>)
    ensures forall i :: 0 <= i < |cs| ==> Completed(cs[i], HandleMissingEach(cs)[i])
    decreases ForestHeight(cs), 0, |cs|
  {
    hide HandleMissing, Completed, ForestHeight;
    if cs != [] {
      var n := |cs| - 1;
      TallerThanChild(cs, n);
      PrefixNotTaller(cs, n);
      HandleMissingEachCompletes(cs[..n]);
      HandleMissingCompletes(cs[n]);
    }
  }


  lemma {:induction false} RaisedKeyed(n: Node, r: Node)
    requires WellKeyed(n) && OnlyOthersRaised(n, r)
    ensures WellKeyed(r)
  {
    forall c | c in r.children ensures c.fullKey == r.fullKey + [c.key] && WellKeyed(c) {
      var i :| 0 <= i < |r.children| && r.children[i] == c;
      if i < |n.children| {
        RaisedKeyed(n.children[i], c);
        assert n.children[i] in n.children;
      }
    }
    assert forall i :: 0 <= i < |n.children| ==> r.children[i].key == n.children[i].key;
  }

  lemma {:induction false} RaisedNonNegative(n: Node, r: Node)
    requires NonNegative(n) && OnlyOthersRaised(n, r)
    ensures NonNegative(r)
  {
    forall c | c in r.children ensures NonNegative(c) {
      var i :| 0 <= i < |r.children| && r.children[i] == c;
      if i < |n.children| {
        RaisedNonNegative(n.children[i], c);
      }
    }
  }

  /** Loaded data that has been completed is what the viewer is meant for. */
  lemma {:induction false} CompletedIsClean(n: Node)
    requires Covers(n) && NonNegative(n) && WellKeyed(n) && n.key != OTHER
    ensures Clean(HandleMissing(n))
  {
    HandleMissingBalances(n);
    HandleMissingRaises(n);
    RaisedKeyed(n, HandleMissing(n));
    RaisedNonNegative(n, HandleMissing(n));
  }
}
