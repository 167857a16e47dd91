/**
 Reading the memory of a core file (ps_core.c, core_read_data): bytes come from the files behind the
 maps, and the fractional last page of a map reads as zeros.
 */
module CoreRead {
  import opened Basics
  import opened CoreMaps

  /** What pread finds in a file; reads are taken to be complete. */
  type Files = (int, int) -> Byte

  // ----- flat memory -----

  predicate Boundary(a: nat, page: nat)
    requires page > 0
  {
    a % page == 0
  }

  /** The end of the last page of a map. */
  function PageEnd(m: MapInfo, page: nat): nat
    requires page > 0
    reads m
  {
    m.vaddr + RoundUp(m.memsz, page)
  }

  predicate InTail(m: MapInfo, a: nat, page: nat)
    requires page > 0
    reads m
  {
    m.vaddr + m.memsz <= a < PageEnd(m, page)
  }

  /** Maps start at page boundaries, none is empty, and no two share a page. */
  ghost predicate PagesDisjoint(s: seq<MapInfo>, page: nat)
    reads s
  {
    && page > 0
    && (forall i :: 0 <= i < |s| ==> s[i].memsz > 0 && Boundary(s[i].vaddr, page))
    && (forall i, j :: 0 <= i < j < |s| ==> PageEnd(s[i], page) <= s[j].vaddr || PageEnd(s[j], page) <= s[i].vaddr)
  }

  ghost predicate Held(s: seq<MapInfo>, a: nat)
    reads s
  {
    exists m :: m in s && m.Holds(a)
  }

  /** An address is mapped when a map or the rest of its last page covers it. */
  ghost predicate Mapped(s: seq<MapInfo>, a: nat, page: nat)
    requires page > 0
    reads s
  {
    exists m :: m in s && (m.Holds(a) || InTail(m, a, page))
  }

  /** The byte at a mapped address. */
  ghost predicate IsByte(s: seq<MapInfo>, files: Files, a: nat, page: nat, b: Byte)
    requires page > 0
    reads s
  {
    exists m :: m in s && ((m.Holds(a) && b == files(m.fd, m.offset + (a - m.vaddr))) || (InTail(m, a, page) && b == 0))
  }

  /** Which reads succeed: the empty one, and those that start inside a map and stay in mapped memory. */
  ghost predicate Readable(s: seq<MapInfo>, addr: nat, size: nat, page: nat)
    requires page > 0
    reads s
  {
    size == 0 || (Held(s, addr) && forall a :: addr <= a < addr + size ==> Mapped(s, a, page))
  }

  // ----- one map after the other -----

  lemma {:induction false} PageEndFacts(m: MapInfo, page: nat)
    requires page > 0 && m.vaddr % page == 0 && m.memsz > 0
    ensures PageEnd(m, page) % page == 0 && m.vaddr + m.memsz <= PageEnd(m, page) < m.vaddr + m.memsz + page
    ensures PageEnd(m, page) - (m.vaddr + m.memsz) == if m.memsz % page > 0 then page - m.memsz % page else 0
  {
    var q, r := m.memsz / page, m.memsz % page;
    assert m.memsz == q * page + r;
    RoundUpValue(q, r, page);
    var up := if r > 0 then q + 1 else q;
    MultipleSum(m.vaddr, up, page);
  }

  lemma {:induction false} RoundUpValue(q: nat, r: nat, page: nat)
    requires 0 <= r < page
    ensures RoundUp(q * page + r, page) == (if r > 0 then q + 1 else q) * page
  {
    if r == 0 {
      DivideExactly(q, page - 1, page);
    } else {
      assert q * page + r + page - 1 == (q + 1) * page + (r - 1);
      DivideExactly(q + 1, r - 1, page);
    }
  }

  lemma {:induction false} Multiples(k: int, page: int)
    requires page > 0
    ensures k >= 1 ==> k * page >= page
    ensures k <= -1 ==> k * page <= -page
  {
    if k >= 1 {
      assert k * page == page + (k - 1) * page;
    } else if k <= -1 {
      assert k * page == -page + (k + 1) * page;
    }
  }

  lemma {:induction false} DivideExactly(q: nat, r: nat, page: nat)
    requires r < page
    ensures (q * page + r) / page == q && (q * page + r) % page == r
  {
    var x := q * page + r;
    var k := x / page - q;
    assert x == x / page * page + x % page;
    assert k * page == r - x % page;
    Multiples(k, page);
  }

  lemma {:induction false} MultipleSum(v: nat, k: nat, page: nat)
    requires page > 0 && v % page == 0
    ensures (v + k * page) % page == 0
  {
    assert v == v / page * page;
    assert v + k * page == (v / page + k) * page + 0;
    DivideExactly(v / page + k, 0, page);
  }

  /** No page boundary lies in the fractional rest of a page. */
  lemma {:induction false} BoundaryNotInTail(m: MapInfo, a: nat, page: nat)
    requires page > 0 && m.vaddr % page == 0 && m.memsz > 0 && a % page == 0
    ensures !InTail(m, a, page)
  {
    PageEndFacts(m, page);
    var e := PageEnd(m, page);
    var k := e / page - a / page;
    assert e - a == k * page by {
      assert e == e / page * page && a == a / page * page;
    }
    Multiples(k, page);
  }

  lemma {:induction false} PageEndAfter(m: MapInfo, page: nat)
    requires page > 0 && Boundary(m.vaddr, page) && m.memsz > 0
    ensures m.vaddr + m.memsz <= PageEnd(m, page)
  {
    PageEndFacts(m, page);
  }

  lemma {:induction false} UnmappedBoundary(s: seq<MapInfo>, a: nat, page: nat)
    requires PagesDisjoint(s, page) && Boundary(a, page) && !Held(s, a)
    ensures !Mapped(s, a, page)
  {
    forall m | m in s ensures !InTail(m, a, page) {
      BoundaryNotInTail(m, a, page);
    }
  }

  ghost function AllMaps(core: CoreReader): seq<MapInfo>
    reads core
  {
    core.maps + core.classShareMaps
  }

  lemma {:induction false} LookupFinds(core: CoreReader, a: nat)
    ensures core.Lookup(a) == null <==> !Held(AllMaps(core), a)
    ensures core.Lookup(a) != null ==> core.Lookup(a) in AllMaps(core) && core.Lookup(a).Holds(a)
  {
    var all := AllMaps(core);
    forall m ensures m in all <==> m in core.maps || m in core.classShareMaps {
    }
    if core.Lookup(a) != null {
      assert Held(all, a);
    }
  }

  lemma {:induction false} PagesApart(core: CoreReader, page: nat)
    requires PagesDisjoint(AllMaps(core), page)
    ensures Disjoint(core.maps)
  {
    var all, n := AllMaps(core), |core.maps|;
    assert forall i :: 0 <= i < n ==> all[i] == core.maps[i];
    forall i | 0 <= i < n
      ensures core.maps[i].memsz > 0 && core.maps[i].vaddr + core.maps[i].memsz <= PageEnd(core.maps[i], page)
    {
      assert all[i].memsz > 0;
      PageEndFacts(all[i], page);
    }
  }

  /** Every mapped address has exactly one byte. */
  lemma {:induction false} OneByte(s: seq<MapInfo>, files: Files, a: nat, page: nat, b: Byte, c: Byte)
    requires PagesDisjoint(s, page) && IsByte(s, files, a, page, b) && IsByte(s, files, a, page, c)
    ensures b == c
  {
    hide PageEnd, Boundary;
    var m :| m in s && ((m.Holds(a) && b == files(m.fd, m.offset + (a - m.vaddr))) || (InTail(m, a, page) && b == 0));
    var n :| n in s && ((n.Holds(a) && c == files(n.fd, n.offset + (a - n.vaddr))) || (InTail(n, a, page) && c == 0));
    PageEndAfter(m, page);
    PageEndAfter(n, page);
    SamePage(s, m, n, a, page);
  }

  lemma {:induction false} SamePage(s: seq<MapInfo>, m: MapInfo, n: MapInfo, a: nat, page: nat)
    requires PagesDisjoint(s, page) && m in s && n in s
    requires m.vaddr <= a < PageEnd(m, page) && n.vaddr <= a < PageEnd(n, page)
    ensures m == n
  {
    hide PageEnd, Boundary;
    var i :| 0 <= i < |s| && s[i] == m;
    var j :| 0 <= j < |s| && s[j] == n;
    assert i == j by {
      if i < j {} else if j < i {}
    }
  }

  // ----- the buffer -----

  /** `pread` of `len` bytes. */
  method Pread(files: Files, fd: int, off: int, buf: array<Byte>, pos: nat, len: nat)
    requires pos + len <= buf.Length
    modifies buf
    ensures forall i :: 0 <= i < buf.Length ==>
      buf[i] == if pos <= i < pos + len then files(fd, off + (i - pos)) else old(buf[i])
  {
    for k := 0 to len
      invariant forall i :: 0 <= i < buf.Length ==>
        buf[i] == if pos <= i < pos + k then files(fd, off + (i - pos)) else old(buf[i])
    {
      buf[pos + k] := files(fd, off + k);
    }
  }

  /** `memset` of `len` zeros. */
  method ZeroFill(buf: array<Byte>, pos: nat, len: nat)
    requires pos + len <= buf.Length
    modifies buf
    ensures forall i :: 0 <= i < buf.Length ==> buf[i] == if pos <= i < pos + len then 0 else old(buf[i])
  {
    for k := 0 to len
      invariant forall i :: 0 <= i < buf.Length ==> buf[i] == if pos <= i < pos + k then 0 else old(buf[i])
    {
      buf[pos + k] := 0;
    }
  }

  /** The first `n` bytes of the buffer are those at `addr` and after. */
  ghost predicate Filled(s: seq<MapInfo>, files: Files, addr: nat, page: nat, buf: array<Byte>, n: nat)
    requires page > 0
    reads s, buf
  {
    n <= buf.Length && forall i :: 0 <= i < n ==> IsByte(s, files, addr + i, page, buf[i])
  }

  lemma {:induction false} FilledNone(s: seq<MapInfo>, files: Files, addr: nat, page: nat, buf: array<Byte>)
    requires page > 0
    ensures Filled(s, files, addr, page, buf, 0)
  {
  }

  /** Reads what one map and the rest of its last page contribute. */
  method ReadMap(ghost s: seq<MapInfo>, m: MapInfo, files: Files, addr: nat, page: nat, buf: array<Byte>, pos: nat)
    returns (pos': nat)
    requires PagesDisjoint(s, page) && m in s && m.Holds(addr + pos)
    requires pos < buf.Length && Filled(s, files, addr, page, buf, pos)
    modifies buf
    ensures pos < pos' <= buf.Length && Filled(s, files, addr, page, buf, pos')
    ensures pos' < buf.Length ==> Boundary(addr + pos', page)
  {
    var mapoff := addr + pos - m.vaddr;
    var resid := buf.Length - pos;
    var len := if resid < m.memsz - mapoff then resid else m.memsz - mapoff;
    Pread(files, m.fd, m.offset + mapoff, buf, pos, len);
    pos' := pos + len;
    assert Filled(s, files, addr, page, buf, pos') by {
      FilledByMap(s, m, files, addr, page, buf, pos, len);
    }
    PageEndFacts(m, page);
    var rem := m.memsz % page;
    if rem > 0 {
      rem := page - rem;
      len := if buf.Length - pos' < rem then buf.Length - pos' else rem;
      ZeroFill(buf, pos', len);
      FilledByTail(s, m, files, addr, page, buf, pos', len);
      pos' := pos' + len;
    }
  }

  lemma {:induction false} FilledByMap(s: seq<MapInfo>, m: MapInfo, files: Files, addr: nat, page: nat,
                                       buf: array<Byte>, pos: nat, len: nat)
    requires page > 0 && m in s && Filled(s, files, addr, page, buf, pos) && pos + len <= buf.Length
    requires m.vaddr <= addr + pos && addr + pos + len <= m.vaddr + m.memsz
    requires forall i :: pos <= i < pos + len ==> buf[i] == files(m.fd, m.offset + (addr + i - m.vaddr))
    ensures Filled(s, files, addr, page, buf, pos + len)
  {
    forall i | pos <= i < pos + len ensures IsByte(s, files, addr + i, page, buf[i]) {
      assert m.Holds(addr + i);
    }
  }

  lemma {:induction false} FilledByTail(s: seq<MapInfo>, m: MapInfo, files: Files, addr: nat, page: nat,
                                        buf: array<Byte>, pos: nat, len: nat)
    requires page > 0 && m in s && Filled(s, files, addr, page, buf, pos) && pos + len <= buf.Length
    requires len > 0 ==> m.vaddr + m.memsz == addr + pos && addr + pos + len <= PageEnd(m, page)
    requires forall i :: pos <= i < pos + len ==> buf[i] == 0
    ensures Filled(s, files, addr, page, buf, pos + len)
  {
    forall i | pos <= i < pos + len ensures IsByte(s, files, addr + i, page, buf[i]) {
      assert InTail(m, addr + i, page);
    }
  }

  lemma {:induction false} NotReadable(s: seq<MapInfo>, addr: nat, pos: nat, size: nat, page: nat)
    requires PagesDisjoint(s, page) && pos < size && !Held(s, addr + pos)
    requires pos > 0 ==> Boundary(addr + pos, page)
    ensures !Readable(s, addr, size, page)
  {
    if pos > 0 {
      UnmappedBoundary(s, addr + pos, page);
    }
  }

  lemma {:induction false} FilledIsReadable(s: seq<MapInfo>, files: Files, addr: nat, page: nat, buf: array<Byte>)
    requires page > 0 && Filled(s, files, addr, page, buf, buf.Length) && (buf.Length > 0 ==> Held(s, addr))
    ensures Readable(s, addr, buf.Length, page)
    ensures forall i :: 0 <= i < buf.Length ==> IsByte(s, files, addr + i, page, buf[i])
  {
    forall a | addr <= a < addr + buf.Length ensures Mapped(s, a, page) {
      assert IsByte(s, files, addr + (a - addr), page, buf[a - addr]);
    }
  }

  /** core_lookup where no two maps share a page. */
  method MapAt(core: CoreReader, a: nat, page: nat) returns (mp: MapInfo?)
    requires core.InSync() && core.numMaps > 0 && page > 0 && PagesDisjoint(AllMaps(core), page)
    ensures mp == null <==> !Held(AllMaps(core), a)
    ensures mp != null ==> mp in AllMaps(core) && mp.Holds(a)
  {
    hide Held, PagesDisjoint, Disjoint, Found;
    PagesApart(core, page);
    mp := core.CoreLookup(a);
    LookupFinds(core, a);
  }

  /**
   core_read_data fills the buffer exactly when the range is readable, with the bytes of the flat memory.
   */
  method CoreReadData(core: CoreReader, files: Files, addr: nat, buf: array<Byte>, page: nat) returns (ok: bool)
    requires core.InSync() && core.numMaps > 0 && page > 0 && PagesDisjoint(AllMaps(core), page)
    modifies buf
    ensures ok <==> Readable(AllMaps(core), addr, buf.Length, page)
    ensures ok ==> forall i :: 0 <= i < buf.Length ==> IsByte(AllMaps(core), files, addr + i, page, buf[i])
  {
    hide Readable, IsByte, Held, Mapped, PagesDisjoint, Disjoint, Boundary, Filled;
    ghost var s := AllMaps(core);
    FilledNone(s, files, addr, page, buf);
    var pos := 0;
    while pos < buf.Length
      invariant pos <= buf.Length && Filled(s, files, addr, page, buf, pos)
      invariant 0 < pos < buf.Length ==> Boundary(addr + pos, page)
      invariant pos > 0 ==> Held(s, addr)
    {
      var mp := MapAt(core, addr + pos, page);
      if mp == null {
        NotReadable(s, addr, pos, buf.Length, page);
        return false;
      }
      pos := ReadMap(s, mp, files, addr, page, buf, pos);
    }
    FilledIsReadable(s, files, addr, page, buf);
    return true;
  }
}
