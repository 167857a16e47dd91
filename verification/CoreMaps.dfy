/**
 The memory maps of a core file (ps_core.c): a list that grows at its head, and an index sorted by
 address that is rebuilt from it and searched.
 */
module CoreMaps {

  /** map_info. The address never changes; the other fields may be overwritten. */
  class MapInfo {
    var fd: int
    var offset: int
    const vaddr: nat
    var memsz: nat

    constructor (fd: int, offset: int, vaddr: nat, memsz: nat)
      ensures this.fd == fd && this.offset == offset && this.vaddr == vaddr && this.memsz == memsz
    {
      this.fd, this.offset, this.vaddr, this.memsz := fd, offset, vaddr, memsz;
    }

    predicate Holds(a: nat)
      reads this
    {
      vaddr <= a < vaddr + memsz
    }
  }

  ghost predicate Sorted(s: seq<MapInfo>) {
    forall i, j :: 0 <= i < j < |s| ==> s[i].vaddr <= s[j].vaddr
  }

  /** No two maps share an address, and none is empty. */
  ghost predicate Disjoint(s: seq<MapInfo>)
    reads s
  {
    && (forall i :: 0 <= i < |s| ==> s[i].memsz > 0)
    && (forall i, j :: 0 <= i < j < |s| ==>
        s[i].vaddr + s[i].memsz <= s[j].vaddr || s[j].vaddr + s[j].memsz <= s[i].vaddr)
  }

  /** The first map of a list that holds an address. */
  function FirstHolding(s: seq<MapInfo>, a: nat): (r: MapInfo?)
    reads s
    ensures r != null ==> r in s && r.Holds(a)
    ensures r == null ==> forall m :: m in s ==> !m.Holds(a)
  {
    if s == [] then null else if s[0].Holds(a) then s[0] else FirstHolding(s[1..], a)
  }

  /** A map that starts at or before an address, with no map of the list starting in between. */
  ghost predicate Nearest(s: seq<MapInfo>, c: MapInfo, a: nat) {
    c in s && c.vaddr <= a && forall m :: m in s && m.vaddr <= a ==> m.vaddr <= c.vaddr
  }

  /** What the search in the index may give: the nearest map if it holds the address, else nothing. */
  ghost predicate Found(s: seq<MapInfo>, a: nat, r: MapInfo?)
    reads s
  {
    if r != null then Nearest(s, r, a) && r.Holds(a)
    else (forall m :: m in s ==> a < m.vaddr) || exists c :: c in s && Nearest(s, c, a) && !c.Holds(a)
  }

  // ----- sorting -----

  function Insert(s: seq<MapInfo>, m: MapInfo): (r: seq<MapInfo>)
    ensures multiset(r) == multiset(s) + multiset{m}
  {
    if s == [] || m.vaddr <= s[0].vaddr then [m] + s
    else
      assert s == [s[0]] + s[1..];
      [s[0]] + Insert(s[1..], m)
  }

  lemma {:induction false} InsertSorted(s: seq<MapInfo>, m: MapInfo)
    requires Sorted(s)
    ensures Sorted(Insert(s, m))
  {
    if s != [] && m.vaddr > s[0].vaddr {
      InsertSorted(s[1..], m);
      var r := Insert(s[1..], m);
      forall x | x in r ensures s[0].vaddr <= x.vaddr {
        assert x in multiset(r);
      }
    }
  }

  /** qsort by address: any sort would do. */
  function SortMaps(s: seq<MapInfo>): (r: seq<MapInfo>)
    ensures multiset(r) == multiset(s)
  {
    if s == [] then []
    else
      assert s == [s[0]] + s[1..];
      Insert(SortMaps(s[1..]), s[0])
  }

  lemma {:induction false} SortMapsSorts(s: seq<MapInfo>)
    ensures Sorted(SortMaps(s))
  {
    if s != [] {
      SortMapsSorts(s[1..]);
      InsertSorted(SortMaps(s[1..]), s[0]);
    }
  }

  // ----- the reader -----

  class CoreReader {
    var maps: seq<MapInfo>
    var numMaps: nat
    var mapArray: seq<MapInfo>
    var classShareMaps: seq<MapInfo>

    ghost predicate Counted()
      reads this
    {
      numMaps == |maps|
    }

    /** The index is a sorted permutation of the whole list. */
    ghost predicate InSync()
      reads this
    {
      Counted() && multiset(mapArray) == multiset(maps) && Sorted(mapArray)
    }

    constructor ()
      ensures Counted() && maps == [] && mapArray == [] && classShareMaps == []
    {
      maps, numMaps, mapArray, classShareMaps := [], 0, [], [];
    }

    /** add_map_info. */
    method AddMapInfo(fd: int, offset: int, vaddr: nat, memsz: nat) returns (m: MapInfo)
      requires Counted()
      modifies `maps, `numMaps
      ensures Counted() && fresh(m) && maps == [m] + old(maps)
      ensures m.fd == fd && m.offset == offset && m.vaddr == vaddr && m.memsz == memsz
    {
      m := new MapInfo(fd, offset, vaddr, memsz);
      maps := [m] + maps;
      numMaps := numMaps + 1;
    }

    /** add_class_share_map_info. */
    method AddClassShareMapInfo(fd: int, offset: int, vaddr: nat, memsz: nat)
      modifies `classShareMaps
      ensures |classShareMaps| == |old(classShareMaps)| + 1 && classShareMaps[1..] == old(classShareMaps)
      ensures var m := classShareMaps[0];
        fresh(m) && m.fd == fd && m.offset == offset && m.vaddr == vaddr && m.memsz == memsz
    {
      var m := new MapInfo(fd, offset, vaddr, memsz);
      classShareMaps := [m] + classShareMaps;
    }

    /** sort_map_array: copies the list into a new array and sorts that. */
    method SortMapArray()
      requires Counted()
      modifies `mapArray
      ensures InSync()
    {
      var copied: seq<MapInfo> := [];
      var rest := maps;
      while rest != []
        invariant copied + rest == maps
        decreases |rest|
      {
        copied := copied + [rest[0]];
        rest := rest[1..];
      }
      mapArray := SortMaps(copied);
      SortMapsSorts(copied);
    }

    /** What an address maps to: the list first, then the class-sharing maps. */
    function Lookup(a: nat): MapInfo?
      reads this, maps, classShareMaps
    {
      var m := FirstHolding(maps, a);
      if m != null then m else FirstHolding(classShareMaps, a)
    }

    /** core_lookup: binary search in the index, then the class-sharing maps one by one. */
    method CoreLookup(addr: nat) returns (r: MapInfo?)
      requires InSync() && numMaps > 0
      ensures
        || (r != null && Found(maps, addr, r))
        || (Found(maps, addr, null) && r == FirstHolding(classShareMaps, addr))
      ensures Disjoint(maps) ==> r == Lookup(addr)
    {
      SameElements(mapArray, maps);
      var lo, hi := 0, numMaps - 1;
      while hi - lo > 1
        invariant 0 <= lo <= hi < |mapArray|
        invariant lo == 0 || mapArray[lo].vaddr <= addr
        invariant hi == |mapArray| - 1 || addr < mapArray[hi].vaddr
      {
        var mid := (lo + hi) / 2;
        if addr >= mapArray[mid].vaddr {
          lo := mid;
        } else {
          hi := mid;
        }
      }
      var mp := if addr < mapArray[hi].vaddr then mapArray[lo] else mapArray[hi];
      ghost var k := if addr < mapArray[hi].vaddr then lo else hi;
      Candidate(mapArray, maps, addr, k);
      if Disjoint(maps) {
        OnlyCandidate(mapArray, maps, addr, k);
      }
      if mp.vaddr <= addr < mp.vaddr + mp.memsz {
        return mp;
      }
      var rest := classShareMaps;
      while rest != []
        invariant FirstHolding(rest, addr) == FirstHolding(classShareMaps, addr)
        decreases |rest|
      {
        if rest[0].vaddr <= addr < rest[0].vaddr + rest[0].memsz {
          return rest[0];
        }
        rest := rest[1..];
      }
      return null;
    }
  }

  /** The last map of the index that starts at or before an address is nearest to it. */
  lemma {:induction false} Candidate(index: seq<MapInfo>, maps: seq<MapInfo>, addr: nat, k: nat)
    requires multiset(index) == multiset(maps) && Sorted(index) && k < |index|
    requires k == 0 || index[k].vaddr <= addr
    requires forall j :: k < j < |index| ==> addr < index[j].vaddr
    ensures Found(maps, addr, if index[k].Holds(addr) then index[k] else null)
  {
    SameElements(index, maps);
    var c := index[k];
    assert c in index;
    forall m | m in maps && m.vaddr <= addr ensures c.vaddr <= addr && m.vaddr <= c.vaddr {
      assert m in index;
      var j :| 0 <= j < |index| && index[j] == m;
    }
    if c.vaddr <= addr {
      assert Nearest(maps, c, addr);
    }
  }

  lemma {:induction false} SameElements(a: seq<MapInfo>, b: seq<MapInfo>)
    requires multiset(a) == multiset(b)
    ensures |a| == |b| && forall m :: m in a <==> m in b
  {
    assert |multiset(a)| == |a| && |multiset(b)| == |b|;
    forall m ensures m in a <==> m in b {
      assert m in a <==> m in multiset(a);
      assert m in b <==> m in multiset(b);
    }
  }

  /** The last map of the index that starts at or before an address is the only one that can hold it. */
  lemma {:induction false} OnlyCandidate(index: seq<MapInfo>, maps: seq<MapInfo>, addr: nat, k: nat)
    requires multiset(index) == multiset(maps) && Sorted(index) && Disjoint(maps) && k < |index|
    requires k == 0 || index[k].vaddr <= addr
    requires forall j :: k < j < |index| ==> addr < index[j].vaddr
    ensures FirstHolding(maps, addr) == if index[k].Holds(addr) then index[k] else null
  {
    SameElements(index, maps);
    var m := FirstHolding(maps, addr);
    if m != null {
      assert m in index;
      var j :| 0 <= j < |index| && index[j] == m;
      if j < k {
        DifferentMaps(index, maps, j, k);
      }
      assert m == index[k];
    }
  }

  /** Different entries of the index are different, disjoint maps. */
  lemma {:induction false} DifferentMaps(index: seq<MapInfo>, maps: seq<MapInfo>, i: nat, j: nat)
    requires multiset(index) == multiset(maps) && Sorted(index) && Disjoint(maps) && i < j < |index|
    ensures index[i].vaddr + index[i].memsz <= index[j].vaddr
  {
    SameElements(index, maps);
    assert index[i] != index[j] by {
      OnceInDisjoint(maps, index[i]);
      if index[i] == index[j] {
        Twice(index, i, j);
      }
    }
    assert index[i] in index && index[j] in index;
    assert index[i] in maps && index[j] in maps;
    var x :| 0 <= x < |maps| && maps[x] == index[i];
    var y :| 0 <= y < |maps| && maps[y] == index[j];
    assert x != y;
    if x < y {} else {}
  }

  lemma {:induction false} Twice(s: seq<MapInfo>, i: nat, j: nat)
    requires i < j < |s| && s[i] == s[j]
    ensures multiset(s)[s[i]] >= 2
  {
    assert s == s[..j] + s[j..];
    assert s[i] in s[..j] && s[j] in s[j..];
  }

  lemma {:induction false} DifferentInDisjoint(s: seq<MapInfo>, i: nat, j: nat)
    requires Disjoint(s) && i < |s| && j < |s| && i != j
    ensures s[i] != s[j]
  {
    if i < j {} else {}
  }

  lemma {:induction false} OnceBetween(a: seq<MapInfo>, m: MapInfo, b: seq<MapInfo>)
    requires m !in a && m !in b
    ensures multiset(a + [m] + b)[m] == 1
  {
    assert multiset(a + [m] + b) == multiset(a) + multiset{m} + multiset(b);
  }

  lemma {:induction false} OnceInDisjoint(s: seq<MapInfo>, m: MapInfo)
    requires Disjoint(s)
    ensures multiset(s)[m] <= 1
  {
    if m in s {
      var i :| 0 <= i < |s| && s[i] == m;
      forall j | 0 <= j < |s| && j != i ensures s[j] != m {
        DifferentInDisjoint(s, i, j);
      }
      OnceBetween(s[..i], m, s[i + 1..]);
      hide Disjoint;
      assert s == s[..i] + [m] + s[i + 1..];
    }
  }
}
