/**
 Heap classification trees: every node carries its full key (the path of keys from the root),
 its own key, two metrics and its children.
 */
module Trees {
  import opened Permutations

  /** Names are only ever compared; the name "Other" is set apart. */
  type Name(==, !new)

  datatype Key = Other | Named(name: Name)

  type Path = seq<Key>

  const OTHER: Key := Other

  datatype Metric = Objects | Bytes

  datatype Node = Node(fullKey: Path, key: Key, objects: int, bytes: int, children: seq<Node>) {
    function Value(m: Metric): int {
      if m.Bytes? then bytes else objects
    }

    /** The same node with both metrics raised. */
    function Plus(dObjects: int, dBytes: int): Node {
      this.(objects := objects + dObjects, bytes := bytes + dBytes)
    }

    /** The same node with only its children replaced. */
    ghost predicate SameHead(n: Node) {
      fullKey == n.fullKey && key == n.key && objects == n.objects && bytes == n.bytes
    }
  }

  function Sum(cs: seq<Node>, m: Metric): int {
    if cs == [] then 0 else Sum(cs[..|cs| - 1], m) + cs[|cs| - 1].Value(m)
  }

  /** Height of a forest: 0 when empty, otherwise one more than its tallest tree. */
  function ForestHeight(cs: seq<Node>): nat {
    if cs == [] then 0 else
      var h := 1 + Height(cs[|cs| - 1]);
      var rest := ForestHeight(cs[..|cs| - 1]);
      if h > rest then h else rest
  }

  function Height(n: Node): nat {
    ForestHeight(n.children)
  }

  ghost predicate DistinctKeys(cs: seq<Node>) {
    forall i, j :: 0 <= i < j < |cs| ==> cs[i].key != cs[j].key
  }

  /** Every child's full key is its parent's full key followed by its own key; siblings differ. */
  ghost predicate WellKeyed(n: Node) {
    && DistinctKeys(n.children)
    && forall c :: c in n.children ==> c.fullKey == n.fullKey + [c.key] && WellKeyed(c)
  }

  /** Metrics are non-negative and nowhere do the children exceed their parent. */
  ghost predicate Fits(n: Node) {
    && n.objects >= 0 && n.bytes >= 0
    && (forall m: Metric :: Sum(n.children, m) <= n.Value(m))
    && forall c :: c in n.children ==> Fits(c)
  }

  /** In both metrics the children add up to this node. */
  ghost predicate SumsUp(n: Node) {
    n.children != [] ==> forall m: Metric :: Sum(n.children, m) == n.Value(m)
  }

  /** Every inner node is exactly the sum of its children, in both metrics. */
  ghost predicate Balanced(n: Node) {
    SumsUp(n) && forall c :: c in n.children ==> Balanced(c)
  }

  // ----- sums -----

  lemma {:induction false} SumConcat(a: seq<Node>, b: seq<Node>, m: Metric)
    ensures Sum(a + b, m) == Sum(a, m) + Sum(b, m)
  {
    if b == [] {
      assert a + b == a;
    } else {
      assert (a + b)[..|a + b| - 1] == a + b[..|b| - 1];
      SumConcat(a, b[..|b| - 1], m);
    }
  }

  lemma {:induction false} SumUpdate(cs: seq<Node>, i: nat, c: Node, m: Metric)
    requires i < |cs|
    ensures Sum(cs[i := c], m) == Sum(cs, m) - cs[i].Value(m) + c.Value(m)
  {
    var n := |cs| - 1;
    if i < n {
      assert cs[i := c][..n] == cs[..n][i := c];
      SumUpdate(cs[..n], i, c, m);
    } else {
      assert cs[i := c][..n] == cs[..n];
    }
  }

  lemma {:induction false} SumOfSameElements(a: seq<Node>, b: seq<Node>, m: Metric)
    requires multiset(a) == multiset(b)
    ensures Sum(a, m) == Sum(b, m)
  {
    if a == [] {
      assert multiset(b) == multiset{};
      assert b == [];
    } else {
      var x := a[|a| - 1];
      assert a == a[..|a| - 1] + [x];
      assert x in multiset(b);
      var j :| 0 <= j < |b| && b[j] == x;
      var b' := b[..j] + b[j + 1..];
      assert b == b[..j] + [x] + b[j + 1..];
      assert b == b'[..j] + [x] + b'[j..];
      InsertionElements(b', j, x);
      assert multiset(a[..|a| - 1]) + multiset{x} == multiset(b') + multiset{x};
      MultisetCancel(multiset(a[..|a| - 1]), multiset(b'), x);
      SumOfSameElements(a[..|a| - 1], b', m);
      SumWithout(b, j, m);
    }
  }

  lemma {:induction false} SumWithout(b: seq<Node>, j: nat, m: Metric)
    requires j < |b|
    ensures Sum(b, m) == Sum(b[..j] + b[j + 1..], m) + b[j].Value(m)
  {
    var x := b[j];
    assert b == b[..j] + [x] + b[j + 1..];
    SumConcat(b[..j] + [x], b[j + 1..], m);
    SumConcat(b[..j], [x], m);
    SumConcat(b[..j], b[j + 1..], m);
    assert Sum([x], m) == x.Value(m);
  }

  lemma {:induction false} SumOfSameValues(a: seq<Node>, b: seq<Node>, m: Metric)
    requires |a| == |b| && forall i :: 0 <= i < |a| ==> a[i].Value(m) == b[i].Value(m)
    ensures Sum(a, m) == Sum(b, m)
  {
    if a != [] {
      SumOfSameValues(a[..|a| - 1], b[..|b| - 1], m);
    }
  }

  // ----- heights -----

  lemma {:induction false} TallerThanChild(cs: seq<Node>, i: nat)
    requires i < |cs|
    ensures Height(cs[i]) < ForestHeight(cs)
  {
    if i < |cs| - 1 {
      TallerThanChild(cs[..|cs| - 1], i);
    }
  }

  /** A forest is no taller than a bound that none of its trees reaches. */
  lemma {:induction false} PrefixNotTaller(cs: seq<Node>, n: nat)
    requires cs != [] && n == |cs| - 1
    ensures ForestHeight(cs[..n]) <= ForestHeight(cs)
  {
  }

  lemma {:induction false} ForestHeightBound(cs: seq<Node>, h: nat)
    requires forall c :: c in cs ==> Height(c) < h
    ensures ForestHeight(cs) <= h
  {
    if cs != [] {
      ForestHeightBound(cs[..|cs| - 1], h);
    }
  }

  lemma {:induction false} SubforestHeight(a: seq<Node>, b: seq<Node>)
    requires forall c :: c in a ==> c in b
    ensures ForestHeight(a) <= ForestHeight(b)
  {
    forall c | c in a ensures Height(c) < ForestHeight(b) {
      var i :| 0 <= i < |b| && b[i] == c;
      TallerThanChild(b, i);
    }
    ForestHeightBound(a, ForestHeight(b));
  }

  // ----- searching a child by key -----

  /** `children.find(x => x.key === k)`: the first index, or the length when there is none. */
  function FindKey(cs: seq<Node>, k: Key): (i: nat)
    ensures i <= |cs|
    ensures i < |cs| ==> cs[i].key == k
    ensures forall j :: 0 <= j < i ==> cs[j].key != k
  {
    if cs == [] then 0
    else
      var i := FindKey(cs[..|cs| - 1], k);
      if i < |cs| - 1 || cs[|cs| - 1].key == k then i else |cs|
  }

  lemma {:induction false} FindKeyUnique(cs: seq<Node>, i: nat)
    requires DistinctKeys(cs) && i < |cs|
    ensures FindKey(cs, cs[i].key) == i
  {
  }

  // ----- paths -----

  lemma {:induction false} PathBelow(p: Path, k: Key, q: Path)
    requires q != []
    ensures q[0] == k ==> p + q == p + [k] + q[1..]
    ensures q[0] != k ==> !(p + [k] <= p + q)
    ensures p + q == p + [k] <==> q == [k]
  {
    assert (p + q)[|p|] == q[0] && (p + [k])[|p|] == k;
    assert p + q == p + [q[0]] + q[1..];
    if p + q == p + [k] {
      assert |q| == 1;
      assert q == [q[0]];
    }
  }

  // ----- the children sorted by an unknown comparison -----

  lemma {:induction false} PermutedChildren(cs: seq<Node>, p: seq<nat>)
    requires IsPermutation(p, |cs|)
    ensures multiset(Permute(cs, p)) == multiset(cs)
    ensures forall c :: c in Permute(cs, p) <==> c in cs
    ensures forall m: Metric :: Sum(Permute(cs, p), m) == Sum(cs, m)
    ensures ForestHeight(Permute(cs, p)) == ForestHeight(cs)
    ensures DistinctKeys(cs) ==> DistinctKeys(Permute(cs, p))
  {
    var r := Permute(cs, p);
    PermuteKeepsElements(cs, p);
    forall c ensures c in r <==> c in cs {
      assert c in r <==> c in multiset(r);
      assert c in cs <==> c in multiset(cs);
    }
    forall m: Metric ensures Sum(r, m) == Sum(cs, m) {
      SumOfSameElements(r, cs, m);
    }
    SubforestHeight(r, cs);
    SubforestHeight(cs, r);
    if DistinctKeys(cs) {
      forall i, j | 0 <= i < j < |r| ensures r[i].key != r[j].key {
        var x, y := p[i], p[j];
        assert x != y;
      }
    }
  }
}
