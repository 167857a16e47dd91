/**
 What the visualization shows for a choice of metric and sorting mode, and how user actions
 change the choice, the displayed tree and the current node.
 */
module Session {
  import opened Trees
  import opened Merge
  import opened Reduce
  import opened Conservation
  import Selection
  import Ranking
  import Folding
  import Ordering
  import Replay
  import opened Sizes
  import opened Lookup
  import opened Growth
  import opened PathInvariant
  import opened ReductionTheorems

  datatype Mode = StartSize | EndSize | AbsoluteGrowth

  datatype Snapshot = Snapshot(time: int, root: Node)

  /**
   What stays fixed during a session: the original trees, the growth maps and the two sorts. Selecting compares
   the values as they are, and the replay takes 0 for a missing one, so the same values may be sorted differently.
   */
  datatype Input = Input(snaps: seq<Snapshot>, growthBytes: Change, growthObjects: Change, sort: Sorter, resort: Sorter)

  /** Well-keyed trees whose roots share one key. */
  ghost predicate GoodInput(inp: Input) {
    && inp.snaps != []
    && (forall i :: 0 <= i < |inp.snaps| ==> WellKeyed(inp.snaps[i].root))
    && (forall i :: 0 <= i < |inp.snaps| ==> inp.snaps[i].root.fullKey == inp.snaps[0].root.fullKey)
    && |inp.snaps[0].root.fullKey| == 1
  }

  /** The snapshots are clean; nothing is said about their times. */
  ghost predicate CleanInput(inp: Input) {
    GoodInput(inp) && forall i :: 0 <= i < |inp.snaps| ==> Clean(inp.snaps[i].root)
  }

  // ----- the trees for one choice of options -----

  /** The index of the tree on which nodes are selected. */
  function SelectionIndex(n: nat, mode: Mode): (i: nat)
    requires n > 0
    ensures i < n
  {
    if mode.StartSize? then 0 else n - 1
  }

  function AsValues(ch: Change): ValueMap {
    map id | id in ch :: Of(ch[id])
  }

  function InitialValues(inp: Input, m: Metric, mode: Mode): ValueMap
    requires inp.snaps != []
  {
    if mode.AbsoluteGrowth? then AsValues(if m.Bytes? then inp.growthBytes else inp.growthObjects)
    else SizesOf(inp.snaps[SelectionIndex(|inp.snaps|, mode)].root.children, m, map[])
  }

  /** The reduction of the tree on which nodes are selected. */
  function Selecting(inp: Input, m: Metric, mode: Mode): Reduced
    requires inp.snaps != []
  {
    ReduceTree(inp.snaps[SelectionIndex(|inp.snaps|, mode)].root, m, InitialValues(inp, m, mode), inp.sort)
  }

  /** The first `i` displayed trees, and the values after they have been reduced. */
  function BuildUpTo(inp: Input, m: Metric, mode: Mode, i: nat): (r: ReplayedForest)
    requires inp.snaps != [] && i <= |inp.snaps|
    ensures |r.nodes| == i
  {
    var first := Selecting(inp, m, mode);
    if i == 0 then ReplayedForest([], first.vm)
    else
      var before := BuildUpTo(inp, m, mode, i - 1);
      var snap := inp.snaps[i - 1];
      if snap.time == inp.snaps[SelectionIndex(|inp.snaps|, mode)].time then
        ReplayedForest(before.nodes + [first.node], before.vm)
      else
        var r := ReduceBySet(snap.root, first.ids, before.vm, inp.resort);
        ReplayedForest(before.nodes + [r.node], r.vm)
  }

  lemma {:induction false} BuildNext(inp: Input, m: Metric, mode: Mode, i: nat)
    requires inp.snaps != [] && i < |inp.snaps|
    ensures var before, first := BuildUpTo(inp, m, mode, i), Selecting(inp, m, mode);
      var r := ReduceBySet(inp.snaps[i].root, first.ids, before.vm, inp.resort);
      BuildUpTo(inp, m, mode, i + 1) ==
      if inp.snaps[i].time == inp.snaps[SelectionIndex(|inp.snaps|, mode)].time then
        ReplayedForest(before.nodes + [first.node], before.vm)
      else ReplayedForest(before.nodes + [r.node], r.vm)
  {
  }

  function Build(inp: Input, m: Metric, mode: Mode): (trees: seq<Node>)
    requires inp.snaps != []
    ensures |trees| == |inp.snaps|
  {
    BuildUpTo(inp, m, mode, |inp.snaps|).nodes
  }

  lemma {:induction false} BuildPrefix(inp: Input, m: Metric, mode: Mode, i: nat, j: nat)
    requires inp.snaps != [] && j < i <= |inp.snaps|
    ensures BuildUpTo(inp, m, mode, i).nodes[j] == BuildUpTo(inp, m, mode, j + 1).nodes[j]
    decreases i
  {
    hide ReduceBySet, Selecting;
    if j < i - 1 {
      BuildPrefix(inp, m, mode, i - 1, j);
    }
  }

  /** What every displayed tree is: the selecting reduction, or a replay of its selection. */
  lemma {:induction false} BuiltTree(inp: Input, m: Metric, mode: Mode, j: nat)
    requires inp.snaps != [] && j < |inp.snaps|
    ensures var first := Selecting(inp, m, mode);
      Build(inp, m, mode)[j] ==
      if inp.snaps[j].time == inp.snaps[SelectionIndex(|inp.snaps|, mode)].time then first.node
      else ReduceBySet(inp.snaps[j].root, first.ids, BuildUpTo(inp, m, mode, j).vm, inp.resort).node
  {
    BuildPrefix(inp, m, mode, |inp.snaps|, j);
  }

  /** Ids recorded while reducing never end in "Other". */
  lemma {:induction false} SelectingNoOther(inp: Input, m: Metric, mode: Mode)
    requires GoodInput(inp)
    ensures NoOther(Selecting(inp, m, mode).ids)
  {
    var root := inp.snaps[SelectionIndex(|inp.snaps|, mode)].root;
    Selection.ReduceTreeIds(root, m, InitialValues(inp, m, mode), inp.sort);
  }

  /** Every displayed tree is well keyed below the common root key. */
  lemma {:induction false} BuiltKeyed(inp: Input, m: Metric, mode: Mode, j: nat)
    requires GoodInput(inp) && j < |inp.snaps|
    ensures var t := Build(inp, m, mode)[j];
      WellKeyed(t) && t.fullKey == inp.snaps[0].root.fullKey
  {
    BuiltTree(inp, m, mode, j);
    var vm := BuildUpTo(inp, m, mode, j).vm;
    SelectingNoOther(inp, m, mode);
    var chosen := inp.snaps[SelectionIndex(|inp.snaps|, mode)].root;
    ReduceTreeKeyed(chosen, m, InitialValues(inp, m, mode), inp.sort);
    ReduceBySetKeyed(inp.snaps[j].root, Selecting(inp, m, mode).ids, vm, inp.resort);
  }

  // ----- what is selected -----

  /** The growth map has exactly the paths below the root of the first or the last tree, with last minus first. */
  ghost predicate GrowthFrom(snaps: seq<Snapshot>, growth: Change, m: Metric)
    requires snaps != []
  {
    AllRight(growth, snaps[0].root.fullKey, snaps[0].root.children, snaps[|snaps| - 1].root.children, m)
  }

  /** What the sorting mode ranks a path by: the size at the start or at the end, or the growth in between. */
  function RankOf(inp: Input, m: Metric, mode: Mode, q: Path): int
    requires inp.snaps != []
  {
    var first, last := inp.snaps[0].root.children, inp.snaps[|inp.snaps| - 1].root.children;
    match mode
    case StartSize => ValueAt(first, q, m)
    case EndSize => ValueAt(last, q, m)
    case AbsoluteGrowth => ValueAt(last, q, m) - ValueAt(first, q, m)
  }

  /** The values that nodes are selected by are these ranks, for every node of the tree they are selected on. */
  lemma {:induction false} RankedBy(inp: Input, m: Metric, mode: Mode, q: Path)
    requires GoodInput(inp)
    requires mode.AbsoluteGrowth? ==> GrowthFrom(inp.snaps, if m.Bytes? then inp.growthBytes else inp.growthObjects, m)
    requires var root := inp.snaps[SelectionIndex(|inp.snaps|, mode)].root; Present(root.children, q)
    ensures var root := inp.snaps[SelectionIndex(|inp.snaps|, mode)].root;
      Get(InitialValues(inp, m, mode), root.fullKey + q) == Of(RankOf(inp, m, mode, q))
  {
    var root := inp.snaps[SelectionIndex(|inp.snaps|, mode)].root;
    if mode.AbsoluteGrowth? {
      var ch := if m.Bytes? then inp.growthBytes else inp.growthObjects;
      assert Right(ch, inp.snaps[0].root.fullKey, q, inp.snaps[0].root.children, root.children, m);
    } else {
      SizesEntered(root.children, m, map[], root.fullKey, q);
    }
  }

  lemma {:induction false} AllRanked(inp: Input, m: Metric, mode: Mode)
    requires GoodInput(inp)
    requires mode.AbsoluteGrowth? ==> GrowthFrom(inp.snaps, if m.Bytes? then inp.growthBytes else inp.growthObjects, m)
    ensures var root := inp.snaps[SelectionIndex(|inp.snaps|, mode)].root;
      Ranking.AllNumbered(InitialValues(inp, m, mode), root.children, root.fullKey)
  {
    hide InitialValues, WellKeyed, RankOf, GrowthFrom;
    var root := inp.snaps[SelectionIndex(|inp.snaps|, mode)].root;
    forall p | Present(root.children, p) ensures Get(InitialValues(inp, m, mode), root.fullKey + p).Of? {
      RankedBy(inp, m, mode, p);
    }
  }

  /**
   In the first displayed tree for StartSize and in the last one for the other modes, at every node, no child that is
   folded away outranks one that is kept: `a` and `b` are the keys of such children below the path `q`.
   */
  lemma {:induction false} SelectsLargest(inp: Input, m: Metric, mode: Mode, q: Path, a: Key, b: Key)
    requires GoodInput(inp) && Ranking.SortsDown(inp.sort) && OTHER !in inp.snaps[0].root.fullKey
    requires mode.AbsoluteGrowth? ==> GrowthFrom(inp.snaps, if m.Bytes? then inp.growthBytes else inp.growthObjects, m)
    requires
      var last := |inp.snaps| - 1;
      var k := match mode case StartSize => 0 case EndSize => last case AbsoluteGrowth => last;
      Ranking.KeptOverOther(inp.snaps[k].root.children, Build(inp, m, mode)[k].children, q, a, b)
    ensures RankOf(inp, m, mode, q + [a]) >= RankOf(inp, m, mode, q + [b])
  {
    hide ReduceTree, InitialValues, Clean, WellKeyed, RankOf, GrowthFrom, Build;
    var k := SelectionIndex(|inp.snaps|, mode);
    BuiltTree(inp, m, mode, k);
    var root := inp.snaps[k].root;
    var vm := InitialValues(inp, m, mode);
    AllRanked(inp, m, mode);
    Ranking.SameAsBefore(vm);
    Ranking.LargestKept(root, m, vm, inp.sort, vm, q, a, b);
    Ranking.KeptWasThere(root, m, vm, inp.sort, q, a, b);
    assert root.fullKey + q + [a] == root.fullKey + (q + [a]) && root.fullKey + q + [b] == root.fullKey + (q + [b]);
    RankedBy(inp, m, mode, q + [a]);
    RankedBy(inp, m, mode, q + [b]);
  }

  // ----- the order in which children are shown -----

  /** The growth maps are right where they are used, and the sorts put larger numbers first. */
  ghost predicate SortsByRank(inp: Input, m: Metric, mode: Mode) {
    && GoodInput(inp) && Ranking.SortsDown(inp.sort) && Ranking.SortsDown(inp.resort)
    && OTHER !in inp.snaps[0].root.fullKey
    && (mode.AbsoluteGrowth? ==> GrowthFrom(inp.snaps, if m.Bytes? then inp.growthBytes else inp.growthObjects, m))
  }

  lemma {:induction false} BuildMarked(inp: Input, m: Metric, mode: Mode, i: nat)
    requires GoodInput(inp) && i <= |inp.snaps|
    ensures Ordering.Marked(InitialValues(inp, m, mode), BuildUpTo(inp, m, mode, i).vm)
    decreases i
  {
    hide Ordering.Marked, ReduceBySet, ReduceTree, InitialValues, WellKeyed;
    var vm0 := InitialValues(inp, m, mode);
    if i == 0 {
      Ranking.ReduceTreePlain(inp.snaps[SelectionIndex(|inp.snaps|, mode)].root, m, vm0, inp.sort);
      Ordering.SameIsMarked(vm0, Selecting(inp, m, mode).vm);
    } else {
      BuildMarked(inp, m, mode, i - 1);
      Ordering.ReplayMarks(inp.snaps[i - 1].root, Selecting(inp, m, mode).ids, BuildUpTo(inp, m, mode, i - 1).vm,
                           inp.resort, vm0);
    }
  }

  lemma {:induction false} ValuesAreNumbers(inp: Input, m: Metric, mode: Mode)
    requires GoodInput(inp)
    ensures forall id :: id in InitialValues(inp, m, mode) ==> InitialValues(inp, m, mode)[id].Of?
  {
    if !mode.AbsoluteGrowth? {
      var root := inp.snaps[SelectionIndex(|inp.snaps|, mode)].root;
      var vm := InitialValues(inp, m, mode);
      Ranking.PlainChildren(root);
      forall id | id in vm ensures vm[id].Of? {
        if !(root.fullKey < id) {
          SizesOutside(root.children, m, map[], root.fullKey, id);
        } else {
          var q := id[|root.fullKey|..];
          assert id == root.fullKey + q;
          SizesEntered(root.children, m, map[], root.fullKey, q);
        }
      }
    }
  }

  /** A selected id with plain ancestors is a node of the tree that was selected on, and has its rank as value. */
  lemma {:induction false} SelectedRank(inp: Input, m: Metric, mode: Mode, q: Path)
    requires SortsByRank(inp, m, mode) && Replay.PlainPath(q)
    requires var root := inp.snaps[SelectionIndex(|inp.snaps|, mode)].root;
      root.fullKey + q in Selecting(inp, m, mode).ids
    ensures var root := inp.snaps[SelectionIndex(|inp.snaps|, mode)].root;
      && Present(root.children, q)
      && Get(InitialValues(inp, m, mode), root.fullKey + q) == Of(RankOf(inp, m, mode, q))
  {
    hide ReduceTree, InitialValues, WellKeyed, RankOf, GrowthFrom, Ranking.SortsDown, Present, ValueAt, Get;
    var root, vm := inp.snaps[SelectionIndex(|inp.snaps|, mode)].root, InitialValues(inp, m, mode);
    var rs := Selecting(inp, m, mode).node.children;
    Replay.ReduceTreeRecords(root, m, vm, inp.sort);
    Replay.ReduceTreeUntouched(root, m, vm, inp.sort);
    assert Replay.RecordedIffKept(rs, Selecting(inp, m, mode).ids, root.fullKey, q);
    assert Replay.SameAt(root.children, rs, q);
    RankedBy(inp, m, mode, q);
  }

  lemma {:induction false} SelectionNumbered(inp: Input, m: Metric, mode: Mode)
    requires SortsByRank(inp, m, mode)
    ensures Ordering.Numbered(InitialValues(inp, m, mode), Selecting(inp, m, mode).ids)
  {
    hide ReduceTree, InitialValues, WellKeyed, RankOf, GrowthFrom, Ranking.SortsDown;
    var root, vm := inp.snaps[SelectionIndex(|inp.snaps|, mode)].root, InitialValues(inp, m, mode);
    ValuesAreNumbers(inp, m, mode);
    Selection.ReduceTreeIds(root, m, vm, inp.sort);
    forall id | id in Selecting(inp, m, mode).ids && OTHER !in id ensures id in vm {
      assert root.fullKey < id;
      var q := id[|root.fullKey|..];
      assert id == root.fullKey + q && Replay.PlainPath(q);
      SelectedRank(inp, m, mode, q);
    }
  }

  /** A node of a displayed tree with plain ancestors, other than the root, has been selected. */
  lemma {:induction false} ShownIsSelected(inp: Input, m: Metric, mode: Mode, j: nat, q: Path)
    requires GoodInput(inp) && j < |inp.snaps| && Replay.PlainPath(q) && Present(Build(inp, m, mode)[j].children, q)
    ensures inp.snaps[0].root.fullKey + q in Selecting(inp, m, mode).ids
  {
    hide ReduceTree, ReduceBySet, InitialValues, WellKeyed, Present, ValueAt, Build;
    var k := SelectionIndex(|inp.snaps|, mode);
    var root, vm := inp.snaps[k].root, InitialValues(inp, m, mode);
    var first := Selecting(inp, m, mode);
    BuiltTree(inp, m, mode, j);
    Replay.ReduceTreeRecords(root, m, vm, inp.sort);
    SelectingNoOther(inp, m, mode);
    var before := BuildUpTo(inp, m, mode, j).vm;
    Replay.ReduceBySetExact(inp.snaps[j].root, first.ids, before, inp.resort);
    if inp.snaps[j].time == inp.snaps[k].time {
      assert Replay.RecordedIffKept(first.node.children, first.ids, root.fullKey, q);
      assert q[|q| - 1] in q;
    } else {
      var rs := ReduceBySet(inp.snaps[j].root, first.ids, before, inp.resort).node.children;
      assert Replay.KeptIffChosen(inp.snaps[j].root.children, rs, first.ids, inp.snaps[j].root.fullKey, q);
      ChosenLast(first.ids, inp.snaps[j].root.fullKey, q);
    }
  }

  lemma {:induction false} FoundChild(n: Node, q: Path, c: Node)
    requires Find(n, q).Some? && c in Find(n, q).value.children
    ensures Present(n.children, q + [c.key])
    decreases q
  {
    if q == [] {
      var i :| 0 <= i < |n.children| && n.children[i] == c;
    } else {
      var d := n.children[FindKey(n.children, q[0])];
      FoundChild(d, q[1..], c);
      assert (q + [c.key])[1..] == q[1..] + [c.key];
    }
  }

  /** What a child of a displayed node is placed by. */
  lemma {:induction false} ShownWeight(inp: Input, m: Metric, mode: Mode, j: nat, q: Path, c: Node)
    requires SortsByRank(inp, m, mode) && j < |inp.snaps| && OTHER !in q && c.key != OTHER
    requires Find(Build(inp, m, mode)[j], q).Some? && c in Find(Build(inp, m, mode)[j], q).value.children
    ensures Ordering.Weight(InitialValues(inp, m, mode), c.fullKey) == RankOf(inp, m, mode, q + [c.key])
  {
    hide InitialValues, RankOf, GrowthFrom, Ranking.SortsDown, Build, Present, Find;
    var t := Build(inp, m, mode)[j];
    BuiltKeyed(inp, m, mode, j);
    FoundHasPath(t, q);
    assert c.fullKey == t.fullKey + q + [c.key] == t.fullKey + (q + [c.key]);
    FoundChild(t, q, c);
    ShownIsSelected(inp, m, mode, j, q + [c.key]);
    SelectedRank(inp, m, mode, q + [c.key]);
  }

  /** The children at a node of a displayed tree, in order of their weights; "Other" last where it was selected on. */
  lemma {:induction false} ShownOrdered(inp: Input, m: Metric, mode: Mode, j: nat, q: Path)
    requires SortsByRank(inp, m, mode) && j < |inp.snaps| && OTHER !in q && Find(Build(inp, m, mode)[j], q).Some?
    ensures var cs, vm0 := Find(Build(inp, m, mode)[j], q).value.children, InitialValues(inp, m, mode);
      var k := SelectionIndex(|inp.snaps|, mode);
      if inp.snaps[j].time == inp.snaps[k].time then Ordering.InOrderOtherLast(vm0, cs) else Ordering.InOrder(vm0, cs)
  {
    hide ReduceTree, ReduceBySet, InitialValues, WellKeyed, GrowthFrom, Ranking.SortsDown, Ordering.InOrder,
         Ordering.InOrderOtherLast, Build, Find, Ordering.Marked, Ordering.Numbered, Ranking.SameValues;
    var k := SelectionIndex(|inp.snaps|, mode);
    var root, vm0 := inp.snaps[k].root, InitialValues(inp, m, mode);
    BuiltTree(inp, m, mode, j);
    if inp.snaps[j].time == inp.snaps[k].time {
      AllRanked(inp, m, mode);
      Ranking.SameAsBefore(vm0);
      Ordering.SelectOrdered(root, m, vm0, inp.sort, vm0, q);
    } else {
      SelectingNoOther(inp, m, mode);
      SelectionNumbered(inp, m, mode);
      BuildMarked(inp, m, mode, j);
      Ordering.ReplayOrdered(inp.snaps[j].root, Selecting(inp, m, mode).ids, BuildUpTo(inp, m, mode, j).vm, inp.resort,
                             vm0, q);
    }
  }

  /**
   In every displayed tree, at every node with no "Other" on its path, the children other than "Other" are shown in
   the order of their ranks, the largest first.
   */
  lemma {:induction false} ShownByRank(inp: Input, m: Metric, mode: Mode, j: nat, q: Path, a: nat, b: nat)
    requires SortsByRank(inp, m, mode) && j < |inp.snaps| && OTHER !in q && Find(Build(inp, m, mode)[j], q).Some?
    requires var cs := Find(Build(inp, m, mode)[j], q).value.children;
      a < b < |cs| && cs[a].key != OTHER && cs[b].key != OTHER
    ensures var cs := Find(Build(inp, m, mode)[j], q).value.children;
      RankOf(inp, m, mode, q + [cs[a].key]) >= RankOf(inp, m, mode, q + [cs[b].key])
  {
    hide InitialValues, RankOf, SortsByRank, Build, Find, Ordering.Weight;
    var cs := Find(Build(inp, m, mode)[j], q).value.children;
    ShownOrdered(inp, m, mode, j, q);
    ShownWeight(inp, m, mode, j, q, cs[a]);
    ShownWeight(inp, m, mode, j, q, cs[b]);
  }

  /** The trees that the mode takes its values from have an "Other" node at this place themselves. */
  predicate HasOwnOther(inp: Input, mode: Mode, q: Path)
    requires inp.snaps != []
  {
    var first, last := inp.snaps[0].root.children, inp.snaps[|inp.snaps| - 1].root.children;
    match mode
    case StartSize => Present(first, q + [OTHER])
    case EndSize => Present(last, q + [OTHER])
    case AbsoluteGrowth => Present(first, q + [OTHER]) || Present(last, q + [OTHER])
  }

  lemma {:induction false} OtherUnvalued(inp: Input, m: Metric, mode: Mode, q: Path)
    requires SortsByRank(inp, m, mode) && !HasOwnOther(inp, mode, q)
    ensures inp.snaps[0].root.fullKey + (q + [OTHER]) !in InitialValues(inp, m, mode)
  {
    hide WellKeyed, Ranking.SortsDown, Present, ValueAt;
    var root := inp.snaps[SelectionIndex(|inp.snaps|, mode)].root;
    if mode.AbsoluteGrowth? {
      var ch := if m.Bytes? then inp.growthBytes else inp.growthObjects;
      assert Right(ch, inp.snaps[0].root.fullKey, q + [OTHER], inp.snaps[0].root.children, root.children, m);
    } else {
      Ranking.PlainChildren(root);
      SizesEntered(root.children, m, map[], root.fullKey, q + [OTHER]);
    }
  }

  /**
   Where "Other" comes among its siblings: at the end in the tree nodes are selected on; in the other displayed trees
   after all that have a rank above -1 and before all that have one below -1, so at the end unless a class has shrunk.
   */
  lemma {:induction false} OtherPlace(inp: Input, m: Metric, mode: Mode, j: nat, q: Path, o: nat, b: nat)
    requires SortsByRank(inp, m, mode) && j < |inp.snaps| && OTHER !in q && Find(Build(inp, m, mode)[j], q).Some?
    requires var cs := Find(Build(inp, m, mode)[j], q).value.children;
      o < |cs| && b < |cs| && cs[o].key == OTHER && cs[b].key != OTHER
    ensures var cs := Find(Build(inp, m, mode)[j], q).value.children;
      var k := if mode.StartSize? then 0 else |inp.snaps| - 1;
      var rank := RankOf(inp, m, mode, q + [cs[b].key]);
      && (inp.snaps[j].time == inp.snaps[k].time ==> b < o)
      && (inp.snaps[j].time != inp.snaps[k].time && !HasOwnOther(inp, mode, q) ==>
            (rank > -1 ==> b < o) && (rank < -1 ==> o < b))
  {
    hide InitialValues, RankOf, SortsByRank, Build, Find, HasOwnOther;
    var cs := Find(Build(inp, m, mode)[j], q).value.children;
    ShownOrdered(inp, m, mode, j, q);
    ShownWeight(inp, m, mode, j, q, cs[b]);
    if !HasOwnOther(inp, mode, q) {
      OtherUnvalued(inp, m, mode, q);
      ShownPath(inp, m, mode, j, q, cs[o]);
    }
  }

  lemma {:induction false} ShownPath(inp: Input, m: Metric, mode: Mode, j: nat, q: Path, c: Node)
    requires SortsByRank(inp, m, mode) && j < |inp.snaps|
    requires Find(Build(inp, m, mode)[j], q).Some? && c in Find(Build(inp, m, mode)[j], q).value.children
    ensures c.fullKey == inp.snaps[0].root.fullKey + (q + [c.key])
  {
    hide Build, Find, GrowthFrom, Ranking.SortsDown;
    var t := Build(inp, m, mode)[j];
    BuiltKeyed(inp, m, mode, j);
    FoundHasPath(t, q);
    assert t.fullKey + q + [c.key] == t.fullKey + (q + [c.key]);
  }

  // ----- user actions -----

  /** What the user sees: the options, which tree, and the full key of the current node. */
  datatype State = State(m: Metric, mode: Mode, idx: nat, ids: Path)

  datatype Action =
    | SwitchMetric(m: Metric)
    | ChangeSortingMode(mode: Mode)
    | DisplayTree(i: nat)
    | DisplayNext
    | DisplayPrevious
    | DisplayNode(ids: Path)

  /** The displayed tree. */
  function Shown(inp: Input, s: State): Node
    requires s.idx < |inp.snaps|
  {
    Build(inp, s.m, s.mode)[s.idx]
  }

  /** The index is in range and the current node is a node of the displayed tree. */
  ghost predicate GoodState(inp: Input, s: State) {
    && s.idx < |inp.snaps|
    && Find(Shown(inp, s), Lookup.Below(s.ids)).Some?
    && Find(Shown(inp, s), Lookup.Below(s.ids)).value.fullKey == s.ids
  }

  function Initial(inp: Input): State
    requires inp.snaps != []
  {
    var s := State(Bytes, AbsoluteGrowth, 0, []);
    s.(ids := Shown(inp, s).fullKey)
  }

  /** Slider positions are tree indices; only nodes of the displayed tree can be clicked. */
  ghost predicate Enabled(inp: Input, s: State, a: Action) {
    match a
    case DisplayTree(i) => i < |inp.snaps|
    case DisplayNode(ids) => GoodState(inp, s.(ids := ids))
    case _ => true
  }

  /** The current node becomes the closest displayable one. */
  function ToClosest(inp: Input, s: State): State
    requires s.idx < |inp.snaps|
  {
    s.(ids := Closest(Shown(inp, s), Lookup.Below(s.ids)).fullKey)
  }

  function Step(inp: Input, s: State, a: Action): (s': State)
    requires s.idx < |inp.snaps|
    requires a.DisplayTree? ==> a.i < |inp.snaps|
    ensures s'.idx < |inp.snaps|
  {
    match a
    case SwitchMetric(m) => if m == s.m then s else ToClosest(inp, s.(m := m))
    case ChangeSortingMode(mode) => if mode == s.mode then s else ToClosest(inp, s.(mode := mode))
    case DisplayTree(i) => ToClosest(inp, s.(idx := i))
    case DisplayNext => if s.idx < |inp.snaps| - 1 then ToClosest(inp, s.(idx := s.idx + 1)) else s
    case DisplayPrevious => if s.idx > 0 then ToClosest(inp, s.(idx := s.idx - 1)) else s
    case DisplayNode(ids) => s.(ids := ids)
  }

  lemma {:induction false} ToClosestGood(inp: Input, s: State)
    requires GoodInput(inp) && s.idx < |inp.snaps|
    ensures GoodState(inp, ToClosest(inp, s))
  {
    var tree, q := Shown(inp, s), Lookup.Below(s.ids);
    BuiltKeyed(inp, s.m, s.mode, s.idx);
    var k := ClosestIsDeepest(tree, q);
    FoundHasPath(tree, q[..k]);
    assert Lookup.Below(tree.fullKey + q[..k]) == q[..k];
  }

  lemma {:induction false} StepGood(inp: Input, s: State, a: Action)
    requires GoodInput(inp) && GoodState(inp, s) && Enabled(inp, s, a)
    ensures GoodState(inp, Step(inp, s, a))
  {
    hide Shown, Find, Closest, GoodInput;
    match a
    case SwitchMetric(m) => ToClosestGood(inp, s.(m := m));
    case ChangeSortingMode(mode) => ToClosestGood(inp, s.(mode := mode));
    case DisplayTree(i) => ToClosestGood(inp, s.(idx := i));
    case DisplayNext => if s.idx < |inp.snaps| - 1 { ToClosestGood(inp, s.(idx := s.idx + 1)); }
    case DisplayPrevious => if s.idx > 0 { ToClosestGood(inp, s.(idx := s.idx - 1)); }
    case DisplayNode(_) =>
  }

  lemma {:induction false} InitialGood(inp: Input)
    requires GoodInput(inp)
    ensures GoodState(inp, Initial(inp))
  {
    BuiltKeyed(inp, Bytes, AbsoluteGrowth, 0);
    assert Lookup.Below(inp.snaps[0].root.fullKey) == [];
  }

  // ----- whole sessions -----

  /** Every action of the run is possible when its turn comes. */
  ghost predicate Legal(inp: Input, s: State, run: seq<Action>)
    requires s.idx < |inp.snaps|
    decreases run
  {
    run == [] || (Enabled(inp, s, run[0]) && Legal(inp, Step(inp, s, run[0]), run[1..]))
  }

  ghost function After(inp: Input, s: State, run: seq<Action>): (s': State)
    requires s.idx < |inp.snaps| && Legal(inp, s, run)
    ensures s'.idx < |inp.snaps|
    decreases run
  {
    if run == [] then s else After(inp, Step(inp, s, run[0]), run[1..])
  }

  lemma {:induction false} RunGood(inp: Input, s: State, run: seq<Action>)
    requires GoodInput(inp) && GoodState(inp, s) && Legal(inp, s, run)
    ensures GoodState(inp, After(inp, s, run))
    decreases run
  {
    if run != [] {
      StepGood(inp, s, run[0]);
      RunGood(inp, Step(inp, s, run[0]), run[1..]);
    }
  }

  function Times(n: nat, a: Action): (run: seq<Action>)
    ensures |run| == n
  {
    if n == 0 then [] else [a] + Times(n - 1, a)
  }

  /** Going on `n` times shows the tree `n` places further, or the last one. */
  lemma {:induction false} NextRun(inp: Input, s: State, n: nat)
    requires s.idx < |inp.snaps|
    ensures Legal(inp, s, Times(n, DisplayNext))
    ensures var s' := After(inp, s, Times(n, DisplayNext));
      && s'.idx == (if s.idx + n < |inp.snaps| then s.idx + n else |inp.snaps| - 1)
      && s'.m == s.m && s'.mode == s.mode
    decreases n
  {
    hide Closest, Build;
    if n > 0 {
      assert Times(n, DisplayNext)[1..] == Times(n - 1, DisplayNext);
      NextRun(inp, Step(inp, s, DisplayNext), n - 1);
    }
  }

  /** Going back `n` times shows the tree `n` places before, or the first one. */
  lemma {:induction false} PreviousRun(inp: Input, s: State, n: nat)
    requires s.idx < |inp.snaps|
    ensures Legal(inp, s, Times(n, DisplayPrevious))
    ensures var s' := After(inp, s, Times(n, DisplayPrevious));
      && s'.idx == (if n <= s.idx then s.idx - n else 0)
      && s'.m == s.m && s'.mode == s.mode
    decreases n
  {
    hide Closest, Build;
    if n > 0 {
      assert Times(n, DisplayPrevious)[1..] == Times(n - 1, DisplayPrevious);
      PreviousRun(inp, Step(inp, s, DisplayPrevious), n - 1);
    }
  }

  /** The last choice of metric, of mode and of tree decides what is shown. */
  lemma {:induction false} LastChoiceCounts(inp: Input, s: State, a: Action)
    requires s.idx < |inp.snaps| && Enabled(inp, s, a)
    ensures var s' := Step(inp, s, a);
      && s'.m == (if a.SwitchMetric? then a.m else s.m)
      && s'.mode == (if a.ChangeSortingMode? then a.mode else s.mode)
      && (a.SwitchMetric? || a.ChangeSortingMode? || a.DisplayNode? ==> s'.idx == s.idx)
      && (a.DisplayTree? ==> s'.idx == a.i)
      && (a.DisplayNode? ==> s'.ids == a.ids)
  {
    hide Closest, Build, GoodState;
  }

  /**
   What a displayed tree promises about its snapshot: totals, sums, keys and width, and that what it shows under
   a path without "Other" is in the snapshot with the same values.
   */
  ghost predicate FaithfulTo(t: Node, original: Node, m: Metric) {
    && GoodReduction(original, t, false, {m})
    && Replay.Narrow(t)
    && Replay.Untouched(original.children, t.children)
  }

  /** Two snapshots agree in the root and in the nodes with these ids. */
  ghost predicate AgreeOn(ids: set<Path>, a: Node, b: Node) {
    && b.SameHead(a)
    && forall q :: Replay.PlainPath(q) && a.fullKey + q in ids ==> Replay.SameAt(a.children, b.children, q)
  }

  /** The slot is filled from its own snapshot, or that agrees in what was selected with the one selected on. */
  ghost predicate ShowsOwn(inp: Input, m: Metric, mode: Mode, j: nat)
    requires j < |inp.snaps|
  {
    var k := SelectionIndex(|inp.snaps|, mode);
    || inp.snaps[j].time != inp.snaps[k].time
    || AgreeOn(Selecting(inp, m, mode).ids, inp.snaps[j].root, inp.snaps[k].root)
  }

  /** What is kept of one tree is in another one exactly when the two agree on the ids that were recorded. */
  lemma {:induction false} UntouchedIffAgree(a: Node, b: Node, m: Metric, vm: ValueMap, sort: Sorter)
    requires WellKeyed(b) && a.fullKey == b.fullKey
    ensures var r := ReduceTree(b, m, vm, sort);
      b.SameHead(a) ==> (Replay.Untouched(a.children, r.node.children) <==> AgreeOn(r.ids, a, b))
  {
    var r := ReduceTree(b, m, vm, sort);
    Replay.ReduceTreeRecords(b, m, vm, sort);
    Replay.ReduceTreeUntouched(b, m, vm, sort);
    var rs := r.node.children;
    forall q | Replay.PlainPath(q)
      ensures a.fullKey + q in r.ids <==> Present(rs, q)
      ensures Replay.SameAt(b.children, rs, q)
    {
      assert Replay.RecordedIffKept(rs, r.ids, b.fullKey, q);
      assert q[|q| - 1] in q;
    }
    if b.SameHead(a) && Replay.Untouched(a.children, rs) {
      forall q | Replay.PlainPath(q) && a.fullKey + q in r.ids ensures Replay.SameAt(a.children, b.children, q) {
        assert Replay.SameAt(a.children, rs, q);
      }
    }
    if AgreeOn(r.ids, a, b) {
      forall q | Replay.PlainPath(q) ensures Replay.SameAt(a.children, rs, q) {
      }
    }
  }

  /** A displayed tree is faithful to its snapshot exactly when the slot shows that snapshot. */
  lemma {:induction false} BuiltFaithful(inp: Input, m: Metric, mode: Mode, j: nat)
    requires CleanInput(inp) && j < |inp.snaps|
    ensures FaithfulTo(Build(inp, m, mode)[j], inp.snaps[j].root, m) <==> ShowsOwn(inp, m, mode, j)
  {
    var k := SelectionIndex(|inp.snaps|, mode);
    var chosen, root := inp.snaps[k].root, inp.snaps[j].root;
    var vm, values := BuildUpTo(inp, m, mode, j).vm, InitialValues(inp, m, mode);
    var first := Selecting(inp, m, mode);
    BuiltTree(inp, m, mode, j);
    ReplayIsNarrow(chosen, m, values, inp.sort, root, vm, inp.resort);
    if inp.snaps[j].time == inp.snaps[k].time {
      ReduceTreeConserves(chosen, m, values, inp.sort);
      UntouchedIffAgree(root, chosen, m, values, inp.sort);
    } else {
      SelectingNoOther(inp, m, mode);
      ReplayConserves(root, first.ids, vm, inp.resort);
      ConservedInFewer(ReduceBySet(root, first.ids, vm, inp.resort).node, false, BOTH, {m});
      Folding.ReplayUntouched(root, first.ids, vm, inp.resort);
    }
  }

  /** No displayed tree loses anything of its snapshot: what is folded away is in its "Other" nodes. */
  lemma {:induction false} BuiltFolds(inp: Input, m: Metric, mode: Mode, j: nat)
    requires GoodInput(inp) && j < |inp.snaps|
    ensures var k := if mode.StartSize? then 0 else |inp.snaps| - 1;
      && (j == k ==> Folding.Folds(inp.snaps[k].root, Build(inp, m, mode)[k], {m}))
      && (inp.snaps[j].time != inp.snaps[k].time ==>
            Folding.Folds(inp.snaps[j].root, Build(inp, m, mode)[j], {Objects, Bytes}))
  {
    hide Folding.Folds, ReduceTree, ReduceBySet, InitialValues;
    var k := SelectionIndex(|inp.snaps|, mode);
    BuiltTree(inp, m, mode, j);
    Folding.ReduceTreeFolds(inp.snaps[k].root, m, InitialValues(inp, m, mode), inp.sort);
    SelectingNoOther(inp, m, mode);
    Folding.ReduceBySetFolds(inp.snaps[j].root, Selecting(inp, m, mode).ids, BuildUpTo(inp, m, mode, j).vm, inp.resort);
  }

  /** With a time of its own, and on the tree nodes are selected on, a slot shows its own snapshot. */
  lemma {:induction false} OwnTimeShowsOwn(inp: Input, m: Metric, mode: Mode, j: nat)
    requires GoodInput(inp) && j < |inp.snaps|
    requires var k := SelectionIndex(|inp.snaps|, mode);
      j != k ==> inp.snaps[j].time != inp.snaps[k].time
    ensures ShowsOwn(inp, m, mode, j)
  {
  }

  /**
   After any session: the tree index is in range, the current node is in the displayed tree, and
   the displayed trees that are faithful to their own snapshots are exactly those of slots that show them.
   */
  lemma {:induction false} SessionSafe(inp: Input, run: seq<Action>, j: nat)
    requires CleanInput(inp) && Legal(inp, Initial(inp), run) && j < |inp.snaps|
    ensures var s := After(inp, Initial(inp), run);
      && GoodState(inp, s)
      && (FaithfulTo(Build(inp, s.m, s.mode)[j], inp.snaps[j].root, s.m) <==> ShowsOwn(inp, s.m, s.mode, j))
  {
    InitialGood(inp);
    RunGood(inp, Initial(inp), run);
    var s := After(inp, Initial(inp), run);
    BuiltFaithful(inp, s.m, s.mode, j);
  }

  /** After any session, a slot of the same time as the tree selected on but with other totals is not faithful. */
  lemma {:induction false} OtherTotalsNotFaithful(inp: Input, run: seq<Action>, j: nat)
    requires CleanInput(inp) && Legal(inp, Initial(inp), run) && j < |inp.snaps|
    requires var s := After(inp, Initial(inp), run);
      var a, b := inp.snaps[j], inp.snaps[SelectionIndex(|inp.snaps|, s.mode)];
      a.time == b.time && (a.root.objects != b.root.objects || a.root.bytes != b.root.bytes)
    ensures var s := After(inp, Initial(inp), run);
      !FaithfulTo(Build(inp, s.m, s.mode)[j], inp.snaps[j].root, s.m)
  {
    hide FaithfulTo, Legal, After;
    SessionSafe(inp, run, j);
  }

  function Leaf(name: Name, bytes: int): Node {
    Node([Named(name)], Named(name), 1, bytes, [])
  }

  /** Two one-node snapshots of the same time with different sizes: the second slot shows the first one's size. */
  lemma {:induction false} SameTimeShowsOther(name: Name, sort: Sorter, resort: Sorter)
    ensures var inp := Input([Snapshot(7, Leaf(name, 1)), Snapshot(7, Leaf(name, 2))], map[], map[], sort, resort);
      && CleanInput(inp)
      && Build(inp, Bytes, StartSize)[1] == Leaf(name, 1)
      && !FaithfulTo(Build(inp, Bytes, StartSize)[1], inp.snaps[1].root, Bytes)
  {
    var inp := Input([Snapshot(7, Leaf(name, 1)), Snapshot(7, Leaf(name, 2))], map[], map[], sort, resort);
    BuiltTree(inp, Bytes, StartSize, 1);
  }
}
