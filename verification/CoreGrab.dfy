/**
 Opening a core file (ps_core.c: Pgrab_core, read_core_segments, read_exec_segments, read_lib_segments,
 read_shared_lib_info): maps are added as segments are found, and debuggee memory is read only while
 the index is in step with the list.
 */
module CoreGrab {
  import opened Basics
  import opened CoreMaps

  /** A PT_LOAD segment of the core file or of the executable. */
  datatype Segment = Segment(writable: bool, offset: int, vaddr: nat, filesz: nat, memsz: nat)

  /**
   A segment of a library, and what looking up its address gives: the position of a map in the list, or no map when
   it is too large. In a script this counts only while the index is out of step with the list.
   */
  datatype LibSegment = LibSegment(seg: Segment, existing: nat) {
    /** Only text segments are read from a library. */
    predicate Text() {
      !seg.writable && seg.filesz != 0
    }
  }

  /** What reading debuggee memory gives. */
  datatype Reply = Failed | Got(value: nat)

  /** What one turn of the link-map loop meets. */
  datatype Link = Link(base: Reply, nameAddr: Reply, nameReads: nat, named: bool, found: bool, elf: bool,
                       fd: int, segments: seq<LibSegment>, next: Reply) {
    /** The library has a name, and a file that can be read. */
    predicate Opened() {
      named && found && elf
    }
  }

  /** A space of the class-sharing archive. */
  datatype Space = Space(readOnly: bool, offset: int, base: nat, used: nat)

  /** What the class-sharing setup meets: symbols of libjvm, memory, and the archive if its header is right. */
  datatype Sharing = Sharing(hasJvm: bool, flagKnown: bool, flag: Reply, pathKnown: bool, pathAddr: Reply,
                             path: seq<Reply>, archive: Option<seq<Space>>)

  /** Everything outside the reader that decides how a run goes. */
  datatype Script = Script(core: seq<Segment>, exec: seq<Segment>, dynamic: seq<Reply>, linkMap: Reply, ldBase: Reply,
                           interp: seq<LibSegment>, links: seq<Link>, sharing: Sharing)

  const DT_DEBUG: nat := 21
  const CORE_FD: int := 0
  const EXEC_FD: int := 1
  const INTERP_FD: int := 2
  const SHARE_FD: int := 3
  const PATH_MAX: nat := 4096

  // ----- what the maps are -----

  /** The contents of a map. */
  datatype Mapping = Mapping(fd: int, offset: int, vaddr: nat, memsz: nat)

  /** The maps of a list are different objects with the given contents. */
  ghost predicate Shows(list: seq<MapInfo>, vals: seq<Mapping>)
    reads list
  {
    && |list| == |vals|
    && (forall i :: 0 <= i < |list| ==> vals[i] == Mapping(list[i].fd, list[i].offset, list[i].vaddr, list[i].memsz))
    && (forall i, j :: 0 <= i < j < |list| ==> list[i] != list[j])
  }

  /** What the segments of a file add to the list, the last one first. */
  function Mapped(segments: seq<Segment>, onlyText: bool, fd: int): seq<Mapping> {
    if segments == [] then []
    else
      var rest := Mapped(segments[..|segments| - 1], onlyText, fd);
      var s := segments[|segments| - 1];
      if s.filesz == 0 || (onlyText && s.writable) then rest else [Mapping(fd, s.offset, s.vaddr, s.filesz)] + rest
  }

  /** A library segment that finds a map at its address: nothing on an address conflict. */
  function Replaced(m: Mapping, s: Segment, fd: int, page: nat): Option<Mapping>
    requires page > 0
  {
    if m.memsz != page && m.fd != fd && RoundUp(m.memsz, page) != RoundUp(s.memsz, page) then None
    else Some(m.(fd := fd, offset := s.offset, memsz := RoundUp(s.memsz, page)))
  }

  /** The maps after one library segment. */
  function WithSegment(vals: seq<Mapping>, s: LibSegment, fd: int, base: nat, page: nat): Option<seq<Mapping>>
    requires page > 0
  {
    if !s.Text() then Some(vals)
    else if s.existing >= |vals| then Some([Mapping(fd, s.seg.offset, Wrap(s.seg.vaddr + base), s.seg.memsz)] + vals)
    else match Replaced(vals[s.existing], s.seg, fd, page)
      case None => None
      case Some(m) => Some(vals[s.existing := m])
  }

  /** The maps after a library. */
  function WithLib(vals: seq<Mapping>, segments: seq<LibSegment>, fd: int, base: nat, page: nat): Option<seq<Mapping>>
    requires page > 0
  {
    if segments == [] then Some(vals)
    else
      match WithLib(vals, segments[..|segments| - 1], fd, base, page)
      case None => None
      case Some(v) => WithSegment(v, segments[|segments| - 1], fd, base, page)
  }

  // ----- what lookups give -----

  predicate HoldsAt(m: Mapping, a: nat) {
    m.vaddr <= a < m.vaddr + m.memsz
  }

  ghost predicate NearestAt(vals: seq<Mapping>, k: nat, a: nat) {
    && k < |vals| && vals[k].vaddr <= a
    && forall i :: 0 <= i < |vals| && vals[i].vaddr <= a ==> vals[i].vaddr <= vals[k].vaddr
  }

  /** The search for an address ends at a map nearest to it: `k` is that map if it holds the address, else no map. */
  ghost predicate Answers(vals: seq<Mapping>, a: nat, k: nat) {
    if k < |vals| then NearestAt(vals, k, a) && HoldsAt(vals[k], a)
    else
      || (forall i :: 0 <= i < |vals| ==> a < vals[i].vaddr)
      || (exists i: nat :: NearestAt(vals, i, a) && !HoldsAt(vals[i], a))
  }

  /** While no map has been added since the last sort, segments find what the search of their address gives. */
  ghost predicate Searched(vals: seq<Mapping>, segments: seq<LibSegment>, fd: int, base: nat, page: nat)
    requires page > 0
  {
    segments == [] ||
    var n := |segments| - 1;
    Searched(vals, segments[..n], fd, base, page) && SearchedLast(vals, segments, fd, base, page)
  }

  ghost predicate SearchedLast(vals: seq<Mapping>, segments: seq<LibSegment>, fd: int, base: nat, page: nat)
    requires page > 0 && segments != []
  {
    var n := |segments| - 1;
    var v := WithLib(vals, segments[..n], fd, base, page);
    vals != [] && v.Some? && |v.value| == |vals| && segments[n].Text() ==>
      Answers(v.value, Wrap(segments[n].seg.vaddr + base), segments[n].existing)
  }

  /** No two maps share an address, and none is empty. */
  ghost predicate Separate(vals: seq<Mapping>) {
    && (forall i :: 0 <= i < |vals| ==> vals[i].memsz > 0)
    && (forall i, j :: 0 <= i < |vals| && 0 <= j < |vals| && i != j ==>
          vals[i].vaddr + vals[i].memsz <= vals[j].vaddr || vals[j].vaddr + vals[j].memsz <= vals[i].vaddr)
  }

  lemma {:induction false} HolderIsNearest(vals: seq<Mapping>, a: nat, k: nat, i: nat)
    requires Separate(vals) && k < |vals| && HoldsAt(vals[k], a) && i < |vals| && vals[i].vaddr <= a
    ensures vals[i].vaddr <= vals[k].vaddr && (i != k ==> vals[i].vaddr < vals[k].vaddr)
  {
  }

  /** Of maps that share no address, the answer is the one that holds the address. */
  lemma {:induction false} AnswersExact(vals: seq<Mapping>, a: nat, k: nat)
    requires Separate(vals)
    ensures Answers(vals, a, k) <==>
      if k < |vals| then HoldsAt(vals[k], a) else forall i :: 0 <= i < |vals| ==> !HoldsAt(vals[i], a)
  {
    forall i, j | 0 <= i < |vals| && 0 <= j < |vals| && HoldsAt(vals[i], a) && vals[j].vaddr <= a
      ensures vals[j].vaddr <= vals[i].vaddr && (i != j ==> vals[j].vaddr < vals[i].vaddr)
    {
      HolderIsNearest(vals, a, i, j);
    }
    if k >= |vals| && (exists i :: 0 <= i < |vals| && vals[i].vaddr <= a) {
      var i := NearestOf(vals, a, |vals|);
      assert NearestAt(vals, i, a);
      if exists j :: 0 <= j < |vals| && HoldsAt(vals[j], a) {
        var j :| 0 <= j < |vals| && HoldsAt(vals[j], a);
        forall n: nat | NearestAt(vals, n, a) ensures n == j {
        }
      }
    }
  }

  lemma {:induction false} NearestOf(vals: seq<Mapping>, a: nat, n: nat) returns (k: nat)
    requires n <= |vals| && exists i :: 0 <= i < n && vals[i].vaddr <= a
    ensures k < n && vals[k].vaddr <= a
    ensures forall i :: 0 <= i < n && vals[i].vaddr <= a ==> vals[i].vaddr <= vals[k].vaddr
  {
    if exists i :: 0 <= i < n - 1 && vals[i].vaddr <= a {
      k := NearestOf(vals, a, n - 1);
      if vals[k].vaddr < vals[n - 1].vaddr <= a {
        k := n - 1;
      }
    } else {
      k := n - 1;
    }
  }

  /** The replies lead to an entry with the tag DT_DEBUG. */
  ghost predicate LeadsToDebug(replies: seq<Reply>) {
    exists k :: 0 <= k < |replies| && replies[k] == Got(21) && forall j :: 0 <= j < k ==> replies[j].Got?
  }

  /** The maps after one turn of the link-map loop. */
  function WithLink(vals: seq<Mapping>, link: Link, page: nat): (r: Option<seq<Mapping>>)
    requires page > 0
    ensures r.Some? ==> link.next.Got?
  {
    if link.base.Failed? || link.nameAddr.Failed? then None
    else
      var v := if link.Opened() then WithLib(vals, link.segments, link.fd, link.base.value, page) else Some(vals);
      if link.next.Failed? then None else v
  }

  /** The maps after the link-map loop that starts at the address `at`. */
  function WithLinks(vals: seq<Mapping>, links: seq<Link>, at: nat, page: nat): Option<seq<Mapping>>
    requires page > 0
    decreases |links|
  {
    if at == 0 then Some(vals)
    else if links == [] then None
    else match WithLink(vals, links[0], page)
      case None => None
      case Some(v) => WithLinks(v, links[1..], links[0].next.value, page)
  }

  ghost predicate SearchedLink(vals: seq<Mapping>, link: Link, page: nat)
    requires page > 0
  {
    link.Opened() && link.base.Got? && link.nameAddr.Got? ==>
      Searched(vals, link.segments, link.fd, link.base.value, page)
  }

  ghost predicate SearchedLinks(vals: seq<Mapping>, links: seq<Link>, at: nat, page: nat)
    requires page > 0
    decreases |links|
  {
    at == 0 || links == [] ||
    var v := WithLink(vals, links[0], page);
    && SearchedLink(vals, links[0], page)
    && (v.Some? ==> SearchedLinks(v.value, links[1..], links[0].next.value, page))
  }

  ghost function WithSharedLibs(vals: seq<Mapping>, script: Script, page: nat): Option<seq<Mapping>>
    requires page > 0
  {
    if !LeadsToDebug(script.dynamic) || script.linkMap.Failed? || script.ldBase.Failed? then None
    else match WithLib(vals, script.interp, INTERP_FD, script.ldBase.value, page)
      case None => None
      case Some(v) => WithLinks(v, script.links, script.linkMap.value, page)
  }

  ghost predicate SearchedLibs(vals: seq<Mapping>, script: Script, page: nat)
    requires page > 0
  {
    LeadsToDebug(script.dynamic) && script.linkMap.Got? && script.ldBase.Got? ==>
      var v := WithLib(vals, script.interp, INTERP_FD, script.ldBase.value, page);
      && Searched(vals, script.interp, INTERP_FD, script.ldBase.value, page)
      && (v.Some? ==> SearchedLinks(v.value, script.links, script.linkMap.value, page))
  }

  /** The maps of the core file and of the executable. */
  function OwnMaps(script: Script): seq<Mapping> {
    Mapped(script.exec, true, EXEC_FD) + Mapped(script.core, false, CORE_FD)
  }

  /** The maps of an opened core file. */
  ghost function Grabbed(script: Script, page: nat): Option<seq<Mapping>>
    requires page > 0
  {
    WithSharedLibs(OwnMaps(script), script, page)
  }

  /** A run of the script: the same, with what was found by the lookups that the script does not decide. */
  ghost predicate IsRun(script: Script, run: Script, page: nat)
    requires page > 0
  {
    && run == script.(interp := run.interp, links := run.links)
    && SameSegments(script.interp, run.interp)
    && |run.links| == |script.links|
    && (forall i :: 0 <= i < |run.links| ==> SameLink(script.links[i], run.links[i]))
    && SearchedLibs(OwnMaps(run), run, page)
  }

  ghost predicate SameSegments(segments: seq<LibSegment>, segments': seq<LibSegment>) {
    |segments'| == |segments| && forall i :: 0 <= i < |segments| ==> segments'[i].seg == segments[i].seg
  }

  ghost predicate SameLink(link: Link, link': Link) {
    link' == link.(segments := link'.segments) && SameSegments(link.segments, link'.segments)
  }

  // ----- class sharing -----

  /** The path of the archive ends in time, before any read fails. */
  ghost predicate PathEnds(replies: seq<Reply>) {
    exists k ::
      && 0 <= k < |replies| && k < 4095 && replies[k] == Got(0)
      && forall j :: 0 <= j < k ==> replies[j].Got?
  }

  /** The read-only spaces of the archive, the last one first. */
  function SharedSpaces(spaces: seq<Space>): seq<Mapping> {
    if spaces == [] then []
    else
      var rest := SharedSpaces(spaces[..|spaces| - 1]);
      var s := spaces[|spaces| - 1];
      if s.readOnly then [Mapping(SHARE_FD, s.offset, s.base, s.used)] + rest else rest
  }

  /** Exactly the read-only spaces are mapped, at their base with the size in use. */
  lemma {:induction false} SharedFrom(spaces: seq<Space>, m: Mapping)
    ensures m in SharedSpaces(spaces) <==>
      exists s :: s in spaces && s.readOnly && m == Mapping(SHARE_FD, s.offset, s.base, s.used)
  {
    if spaces != [] {
      var n := |spaces| - 1;
      SharedFrom(spaces[..n], m);
      assert spaces == spaces[..n] + [spaces[n]];
    }
  }

  /** The class-sharing maps, or nothing when the setup fails. */
  ghost function SharedMaps(sh: Sharing): Option<seq<Mapping>> {
    if !sh.hasJvm then Some([])
    else if !sh.flagKnown || sh.flag.Failed? then None
    else if sh.flag.value == 0 then Some([])
    else if !sh.pathKnown || sh.pathAddr.Failed? || !PathEnds(sh.path) || sh.archive.None? then None
    else Some(SharedSpaces(sh.archive.value))
  }

  // ----- where the maps come from -----

  /** A map of the core file or of the executable. */
  ghost predicate MapsFile(m: Mapping, segments: seq<Segment>, onlyText: bool, fd: int) {
    exists s ::
      && s in segments && s.filesz != 0 && !(onlyText && s.writable)
      && m == Mapping(fd, s.offset, s.vaddr, s.filesz)
  }

  /**
   A map onto the `i`-th segment of a library, a text segment: a new one at the segment's own address, or one that took
   over an earlier map. While no map had been added, that one held the address of the segment.
   */
  ghost predicate MapsSegment(m: Mapping, vals: seq<Mapping>, segments: seq<LibSegment>, i: nat, fd: int, base: nat,
                              page: nat)
    requires page > 0 && i < |segments|
  {
    var s := segments[i].seg;
    var v := WithLib(vals, segments[..i], fd, base, page);
    && segments[i].Text() && v.Some?
    && (|| m == Mapping(fd, s.offset, Wrap(s.vaddr + base), s.memsz)
        || exists o :: TookOver(m, o, v.value, s, fd, page)
                       && (vals != [] && |v.value| == |vals| ==> HoldsAt(o, Wrap(s.vaddr + base))))
  }

  ghost predicate TookOver(m: Mapping, o: Mapping, before: seq<Mapping>, s: Segment, fd: int, page: nat)
    requires page > 0
  {
    o in before && Replaced(o, s, fd, page) == Some(m)
  }

  ghost predicate MapsLib(m: Mapping, vals: seq<Mapping>, segments: seq<LibSegment>, fd: int, base: nat, page: nat)
    requires page > 0
  {
    exists i :: 0 <= i < |segments| && MapsSegment(m, vals, segments, i, fd, base, page)
  }

  /** A map onto a text segment of one of the libraries in the link map. */
  ghost predicate MapsLink(m: Mapping, vals: seq<Mapping>, links: seq<Link>, page: nat)
    requires page > 0
    decreases |links|
  {
    links != [] &&
    var v := WithLink(vals, links[0], page);
    && v.Some?
    && (|| (links[0].Opened() && MapsLib(m, vals, links[0].segments, links[0].fd, links[0].base.value, page))
        || MapsLink(m, v.value, links[1..], page))
  }

  /** A run adds maps at the head, and leaves the addresses of the ones before. */
  ghost predicate SameAddresses(vals: seq<Mapping>, vals': seq<Mapping>) {
    |vals| <= |vals'| && forall i :: 0 <= i < |vals| ==> vals'[|vals'| - |vals| + i].vaddr == vals[i].vaddr
  }

  lemma {:induction false} MappedFrom(segments: seq<Segment>, onlyText: bool, fd: int, m: Mapping)
    ensures m in Mapped(segments, onlyText, fd) <==> MapsFile(m, segments, onlyText, fd)
  {
    if segments != [] {
      var n := |segments| - 1;
      MappedFrom(segments[..n], onlyText, fd, m);
      assert segments == segments[..n] + [segments[n]];
    }
  }

  lemma {:induction false} SegmentFrom(vals: seq<Mapping>, segments: seq<LibSegment>, fd: int, base: nat, page: nat)
    requires page > 0 && segments != [] && WithLib(vals, segments, fd, base, page).Some?
    requires SearchedLast(vals, segments, fd, base, page)
    ensures var u := WithLib(vals, segments[..|segments| - 1], fd, base, page).value;
      var v := WithLib(vals, segments, fd, base, page).value;
      SameAddresses(u, v) && forall m :: m in v ==>
        m in u || MapsSegment(m, vals, segments, |segments| - 1, fd, base, page)
  {
    hide RoundUp, Wrap;
    var n := |segments| - 1;
    var s := segments[n];
    var u := WithLib(vals, segments[..n], fd, base, page).value;
    var v := WithLib(vals, segments, fd, base, page).value;
    if s.Text() && s.existing < |u| {
      assert TookOver(v[s.existing], u[s.existing], u, s.seg, fd, page);
    }
  }

  /** After a library every map is one from before, or maps one of its text segments. */
  lemma {:induction false} LibFrom(vals: seq<Mapping>, segments: seq<LibSegment>, fd: int, base: nat, page: nat)
    requires page > 0 && WithLib(vals, segments, fd, base, page).Some? && Searched(vals, segments, fd, base, page)
    ensures var v := WithLib(vals, segments, fd, base, page).value;
      SameAddresses(vals, v) && forall m :: m in v ==> m in vals || MapsLib(m, vals, segments, fd, base, page)
  {
    hide WithSegment, MapsSegment, SearchedLast;
    if segments != [] {
      var n := |segments| - 1;
      LibFrom(vals, segments[..n], fd, base, page);
      SegmentFrom(vals, segments, fd, base, page);
      var u := WithLib(vals, segments[..n], fd, base, page).value;
      var v := WithLib(vals, segments, fd, base, page).value;
      forall m | m in v ensures m in vals || MapsLib(m, vals, segments, fd, base, page) {
        if m in u && m !in vals {
          MoreSegments(m, vals, segments, n, fd, base, page);
        }
      }
    }
  }

  lemma {:induction false} MoreSegments(m: Mapping, vals: seq<Mapping>, segments: seq<LibSegment>, n: nat, fd: int,
                                        base: nat, page: nat)
    requires page > 0 && n <= |segments| && MapsLib(m, vals, segments[..n], fd, base, page)
    ensures MapsLib(m, vals, segments, fd, base, page)
  {
    hide RoundUp, Wrap, WithLib, Replaced;
    var i :| 0 <= i < n && MapsSegment(m, vals, segments[..n], i, fd, base, page);
    assert segments[..n][..i] == segments[..i] && segments[..n][i] == segments[i];
    assert MapsSegment(m, vals, segments, i, fd, base, page);
  }

  lemma {:induction false} LinksFrom(vals: seq<Mapping>, links: seq<Link>, at: nat, page: nat)
    requires page > 0 && WithLinks(vals, links, at, page).Some? && SearchedLinks(vals, links, at, page)
    ensures var v := WithLinks(vals, links, at, page).value;
      SameAddresses(vals, v) && forall m :: m in v ==> m in vals || MapsLink(m, vals, links, page)
    decreases |links|
  {
    hide MapsLib, WithLib, Searched;
    if at != 0 {
      var u := WithLink(vals, links[0], page).value;
      if links[0].Opened() {
        LibFrom(vals, links[0].segments, links[0].fd, links[0].base.value, page);
      }
      LinksFrom(u, links[1..], links[0].next.value, page);
    }
  }

  /**
   Every map of an opened core file is backed by a segment of the file it names, writable ones by the core file only,
   and lies at that segment's address or took over a map found there.
   */
  lemma {:induction false} GrabbedFrom(script: Script, run: Script, page: nat, m: Mapping)
    requires page > 0 && IsRun(script, run, page) && Grabbed(run, page).Some? && m in Grabbed(run, page).value
    ensures var own := OwnMaps(run);
      var base := if run.ldBase.Got? then run.ldBase.value else 0;
      var v := WithLib(own, run.interp, INTERP_FD, base, page);
      || MapsFile(m, script.core, false, CORE_FD)
      || MapsFile(m, script.exec, true, EXEC_FD)
      || MapsLib(m, own, run.interp, INTERP_FD, base, page)
      || (v.Some? && MapsLink(m, v.value, run.links, page))
  {
    hide WithLib, WithLinks, Mapped, MapsFile, MapsLib, MapsLink, Searched, SearchedLinks;
    var own := OwnMaps(run);
    LibFrom(own, run.interp, INTERP_FD, run.ldBase.value, page);
    var v := WithLib(own, run.interp, INTERP_FD, run.ldBase.value, page).value;
    LinksFrom(v, run.links, run.linkMap.value, page);
    MappedFrom(run.exec, true, EXEC_FD, m);
    MappedFrom(run.core, false, CORE_FD, m);
  }

  /** The addresses of the core file's and the executable's maps survive every library. */
  lemma {:induction false} GrabbedKeepsAddresses(script: Script, run: Script, page: nat)
    requires page > 0 && IsRun(script, run, page) && Grabbed(run, page).Some?
    ensures SameAddresses(OwnMaps(script), Grabbed(run, page).value)
  {
    hide WithLib, WithLinks, Mapped, MapsLib, MapsLink, Searched, SearchedLinks;
    var own := OwnMaps(run);
    LibFrom(own, run.interp, INTERP_FD, run.ldBase.value, page);
    var v := WithLib(own, run.interp, INTERP_FD, run.ldBase.value, page).value;
    LinksFrom(v, run.links, run.linkMap.value, page);
    assert run.exec == script.exec && run.core == script.core;
    var w := Grabbed(run, page).value;
    forall i | 0 <= i < |own| ensures w[|w| - |own| + i].vaddr == own[i].vaddr {
      assert w[|w| - |v| + (|v| - |own| + i)].vaddr == v[|v| - |own| + i].vaddr;
    }
  }

  /** A map of another file that is taken over because it holds an address still holds it afterwards. */
  lemma {:induction false} TakenOverStillHolds(o: Mapping, s: Segment, fd: int, page: nat, a: nat)
    requires page > 0 && s.memsz > 0 && HoldsAt(o, a) && o.fd != fd && Replaced(o, s, fd, page).Some?
    ensures HoldsAt(Replaced(o, s, fd, page).value, a)
  {
    RoundUpCovers(o.memsz, page);
    RoundUpCovers(s.memsz, page);
  }

  lemma {:induction false} RoundUpCovers(x: nat, page: nat)
    requires page > 0
    ensures x <= RoundUp(x, page) && (x > 0 ==> page <= RoundUp(x, page))
  {
    var q := (x + page - 1) / page;
    assert q * page + (x + page - 1) % page == x + page - 1;
    if x > 0 && q == 0 {
      assert false;
    }
    if q >= 1 {
      assert (q - 1) * page >= 0;
    }
  }

  // ----- reading memory -----

  /** A read of debuggee memory, with the index and the list it was made with. */
  datatype Read = Read(index: seq<MapInfo>, list: seq<MapInfo>)

  /** The index was a sorted permutation of the whole list. */
  ghost predicate InStep(r: Read) {
    multiset(r.index) == multiset(r.list) && Sorted(r.index)
  }

  ghost predicate AllInStep(log: seq<Read>) {
    forall i :: 0 <= i < |log| ==> InStep(log[i])
  }

  method ReadMemory(core: CoreReader, reply: Reply, ghost log: seq<Read>) returns (r: Reply, ghost log': seq<Read>)
    ensures r == reply && log' == log + [Read(core.mapArray, core.maps)]
  {
    r, log' := reply, log + [Read(core.mapArray, core.maps)];
  }

  // ----- the steps -----

  lemma {:induction false} MappedNext(segments: seq<Segment>, i: nat, onlyText: bool, fd: int, vals: seq<Mapping>)
    requires i < |segments|
    ensures var s := segments[i];
      var before := Mapped(segments[..i], onlyText, fd) + vals;
      Mapped(segments[..i + 1], onlyText, fd) + vals ==
      if s.filesz == 0 || (onlyText && s.writable) then before else [Mapping(fd, s.offset, s.vaddr, s.filesz)] + before
  {
    assert segments[..i + 1][..i] == segments[..i];
  }

  method AddSegment(core: CoreReader, fd: int, offset: int, vaddr: nat, memsz: nat, ghost vals: seq<Mapping>)
    requires core.Counted() && Shows(core.maps, vals)
    modifies core`maps, core`numMaps
    ensures core.Counted() && core.mapArray == old(core.mapArray)
    ensures Shows(core.maps, [Mapping(fd, offset, vaddr, memsz)] + vals)
    ensures forall m :: m in core.maps ==> m in old(core.maps) || fresh(m)
  {
    var m := core.AddMapInfo(fd, offset, vaddr, memsz);
  }

  /** read_core_segments, and the PT_LOAD part of read_exec_segments, which skips writable segments. */
  method ReadSegments(core: CoreReader, segments: seq<Segment>, onlyText: bool, fd: int, ghost vals: seq<Mapping>)
    requires core.Counted() && Shows(core.maps, vals)
    modifies core`maps, core`numMaps
    ensures core.Counted() && core.mapArray == old(core.mapArray)
    ensures Shows(core.maps, Mapped(segments, onlyText, fd) + vals)
    ensures forall m :: m in core.maps ==> m in old(core.maps) || fresh(m)
  {
    assert segments[..0] == [] && [] + vals == vals;
    assert Mapped(segments[..0], onlyText, fd) + vals == vals;
    hide Shows, Mapped;
    for i := 0 to |segments|
      invariant core.Counted() && core.mapArray == old(core.mapArray)
      invariant Shows(core.maps, Mapped(segments[..i], onlyText, fd) + vals)
      invariant forall m :: m in core.maps ==> m in old(core.maps) || fresh(m)
    {
      var s := segments[i];
      MappedNext(segments, i, onlyText, fd, vals);
      if s.filesz != 0 && !(onlyText && s.writable) {
        AddSegment(core, fd, s.offset, s.vaddr, s.filesz, Mapped(segments[..i], onlyText, fd) + vals);
      }
    }
    assert segments[..|segments|] == segments;
  }

  /** read_lib_segments: text segments are added, or take the place of a map that is there already. */
  method ReadLibSegments(core: CoreReader, segments: seq<LibSegment>, fd: int, base: nat, page: nat,
                         ghost vals: seq<Mapping>)
    returns (ok: bool, ghost used: seq<LibSegment>)
    requires core.InSync() && core.classShareMaps == [] && page > 0 && Shows(core.maps, vals)
    modifies core`maps, core`numMaps, set m | m in core.maps
    ensures core.Counted() && core.mapArray == old(core.mapArray)
    ensures forall m :: m in core.maps ==> m in old(core.maps) || fresh(m)
    ensures SameSegments(segments, used) && Searched(vals, used, fd, base, page)
    ensures ok <==> WithLib(vals, used, fd, base, page).Some?
    ensures ok ==> Shows(core.maps, WithLib(vals, used, fd, base, page).value)
  {
    SameLength(core);
    LibStart(vals, fd, base, page);
    assert SameSegments(segments[..0], []);
    ShowsLength(core.maps, vals);
    hide WithLib, WithSegment, Searched, Answers, Shows, Wrap, Sorted, SameSegments;
    hide CoreReader.InSync, CoreReader.Counted;
    used := [];
    ghost var v := Some(vals);
    for i := 0 to |segments|
      invariant core.Counted() && core.mapArray == old(core.mapArray) && |core.mapArray| == |vals| <= |core.maps|
      invariant |core.mapArray| == |core.maps| ==> core.InSync()
      invariant forall m :: m in core.maps ==> m in old(core.maps) || fresh(m)
      invariant |used| == i && SameSegments(segments[..i], used) && Searched(vals, used, fd, base, page)
      invariant v == WithLib(vals, used, fd, base, page) && v.Some? && Shows(core.maps, v.value)
    {
      ghost var one;
      ShowsLength(core.maps, v.value);
      ok, one := ReadLibSegment(core, segments[i], fd, base, page, v.value);
      LibNext(vals, used, one, fd, base, page);
      SameSegmentsNext(segments, used, one);
      used, v := used + [one], WithSegment(v.value, one, fd, base, page);
      if !ok {
        assert (used + segments[i + 1..])[..i + 1] == used;
        StaysFailed(vals, used + segments[i + 1..], i + 1, fd, base, page);
        used := used + segments[i + 1..];
        return;
      }
    }
    assert segments[..|segments|] == segments;
    return true, used;
  }

  lemma {:induction false} LibStart(vals: seq<Mapping>, fd: int, base: nat, page: nat)
    requires page > 0
    ensures WithLib(vals, [], fd, base, page) == Some(vals) && Searched(vals, [], fd, base, page)
  {
  }

  lemma {:induction false} LibNext(vals: seq<Mapping>, used: seq<LibSegment>, one: LibSegment, fd: int, base: nat,
                                   page: nat)
    requires page > 0 && WithLib(vals, used, fd, base, page).Some? && Searched(vals, used, fd, base, page)
    requires var v := WithLib(vals, used, fd, base, page).value;
      |v| == |vals| && vals != [] && one.Text() ==> Answers(v, Wrap(one.seg.vaddr + base), one.existing)
    ensures Searched(vals, used + [one], fd, base, page)
    ensures WithLib(vals, used + [one], fd, base, page) ==
            WithSegment(WithLib(vals, used, fd, base, page).value, one, fd, base, page)
  {
    hide Answers, WithSegment;
    assert (used + [one])[..|used|] == used;
  }

  lemma {:induction false} SameSegmentsNext(segments: seq<LibSegment>, used: seq<LibSegment>, one: LibSegment)
    requires |used| < |segments| && SameSegments(segments[..|used|], used) && one.seg == segments[|used|].seg
    ensures SameSegments(segments[..|used| + 1], used + [one])
    ensures SameSegments(segments, used + [one] + segments[|used| + 1..])
  {
  }

  lemma {:induction false} ShowsLength(list: seq<MapInfo>, vals: seq<Mapping>)
    requires Shows(list, vals)
    ensures |list| == |vals|
  {
  }

  lemma {:induction false} SameLength(core: CoreReader)
    requires core.InSync()
    ensures |core.mapArray| == |core.maps|
  {
    SameElements(core.mapArray, core.maps);
  }

  /** The position in the list of what the search gave. */
  lemma {:induction false} AnswerAt(list: seq<MapInfo>, vals: seq<Mapping>, a: nat, r: MapInfo?) returns (k: nat)
    requires Shows(list, vals) && Found(list, a, r)
    ensures Answers(vals, a, k) && (k < |list| <==> r != null) && (r != null ==> list[k] == r)
  {
    if r != null {
      k :| 0 <= k < |list| && list[k] == r;
      assert forall i :: 0 <= i < |list| ==> list[i] in list;
    } else {
      k := |list|;
      if !(forall m :: m in list ==> a < m.vaddr) {
        var c :| c in list && Nearest(list, c, a) && !c.Holds(a);
        var i :| 0 <= i < |list| && list[i] == c;
        assert forall j :: 0 <= j < |list| ==> list[j] in list;
        assert NearestAt(vals, i, a) && !HoldsAt(vals[i], a);
      } else {
        assert forall i :: 0 <= i < |list| ==> list[i] in list;
      }
    }
  }

  /** core_lookup for a segment: the search as long as the index has all maps; otherwise the script decides. */
  method LookupSegment(core: CoreReader, segment: LibSegment, a: nat, ghost vals: seq<Mapping>)
    returns (r: MapInfo?, ghost k: nat)
    requires core.Counted() && core.classShareMaps == [] && Shows(core.maps, vals)
    requires |core.mapArray| == |core.maps| ==> core.InSync()
    ensures (k < |core.maps| <==> r != null) && (r != null ==> core.maps[k] == r)
    ensures |core.mapArray| == |core.maps| && vals != [] ==> Answers(vals, a, k)
  {
    if |core.mapArray| == core.numMaps && core.numMaps > 0 {
      r := core.CoreLookup(a);
      k := AnswerAt(core.maps, vals, a, r);
    } else if segment.existing < |core.maps| {
      r, k := core.maps[segment.existing], segment.existing;
    } else {
      r, k := null, segment.existing;
    }
  }

  /** One turn of the loop. */
  method ReadLibSegment(core: CoreReader, segment: LibSegment, fd: int, base: nat, page: nat, ghost vals: seq<Mapping>)
    returns (ok: bool, ghost used: LibSegment)
    requires core.Counted() && core.classShareMaps == [] && page > 0 && Shows(core.maps, vals)
    requires |core.mapArray| == |core.maps| ==> core.InSync()
    modifies core`maps, core`numMaps, set m | m in core.maps
    ensures core.Counted() && core.mapArray == old(core.mapArray) && |core.maps| >= |old(core.maps)|
    ensures |core.mapArray| == |core.maps| == |old(core.maps)| ==> core.InSync()
    ensures forall m :: m in core.maps ==> m in old(core.maps) || fresh(m)
    ensures used.seg == segment.seg
    ensures |core.mapArray| == |vals| && vals != [] && used.Text() ==>
      Answers(vals, Wrap(used.seg.vaddr + base), used.existing)
    ensures ok <==> WithSegment(vals, used, fd, base, page).Some?
    ensures ok ==> Shows(core.maps, WithSegment(vals, used, fd, base, page).value)
  {
    hide RoundUp, Answers, Wrap;
    used := segment;
    var s := segment.seg;
    if !s.writable && s.filesz != 0 {
      var a := Wrap(s.vaddr + base);
      var m;
      ghost var k;
      m, k := LookupSegment(core, segment, a, vals);
      used := segment.(existing := k);
      if m == null {
        var added := core.AddMapInfo(fd, s.offset, a, s.memsz);
      } else {
        assert m in core.maps;
        if m.memsz != page && m.fd != fd && RoundUp(m.memsz, page) != RoundUp(s.memsz, page) {
          return false, used;
        }
        m.fd, m.offset, m.memsz := fd, s.offset, RoundUp(s.memsz, page);
      }
    }
    return true, used;
  }

  lemma {:induction false} StaysFailed(vals: seq<Mapping>, segments: seq<LibSegment>, k: nat, fd: int, base: nat,
                                       page: nat)
    requires page > 0 && k <= |segments| && WithLib(vals, segments[..k], fd, base, page).None?
    requires Searched(vals, segments[..k], fd, base, page)
    ensures WithLib(vals, segments, fd, base, page).None? && Searched(vals, segments, fd, base, page)
    decreases |segments|
  {
    hide WithSegment, Answers;
    if k == |segments| {
      assert segments[..k] == segments;
    } else {
      var n := |segments| - 1;
      assert segments[..n][..k] == segments[..k];
      StaysFailed(vals, segments[..n], k, fd, base, page);
    }
  }

  /** Looks for the DT_DEBUG entry of the dynamic section. */
  method FindDebugEntry(core: CoreReader, replies: seq<Reply>, ghost log: seq<Read>)
    returns (ok: bool, ghost log': seq<Read>)
    requires core.InSync() && AllInStep(log)
    ensures AllInStep(log') && (ok <==> LeadsToDebug(replies))
  {
    var tag := 0;
    var i := 0;
    log' := log;
    while tag != DT_DEBUG
      invariant 0 <= i <= |replies| && AllInStep(log')
      invariant forall j :: 0 <= j < i ==> replies[j].Got? && (j < i - 1 ==> replies[j].value != DT_DEBUG)
      invariant if i == 0 then tag == 0 else replies[i - 1] == Got(tag)
      decreases |replies| - i
    {
      var reply;
      reply, log' := ReadMemory(core, if i < |replies| then replies[i] else Failed, log');
      if reply.Failed? {
        return false, log';
      }
      tag := reply.value;
      i := i + 1;
    }
    return true, log';
  }

  /** One turn of the link-map loop: reads, a library whose maps are added, the sort, and the read of the next link. */
  method ReadLink(core: CoreReader, link: Link, page: nat, ghost vals: seq<Mapping>, ghost log: seq<Read>)
    returns (next: Reply, ghost used: Link, ghost log': seq<Read>)
    requires core.InSync() && core.classShareMaps == [] && page > 0 && AllInStep(log) && Shows(core.maps, vals)
    modifies core`maps, core`numMaps, core`mapArray, set m | m in core.maps
    ensures AllInStep(log') && core.Counted()
    ensures forall m :: m in core.maps ==> m in old(core.maps) || fresh(m)
    ensures SameLink(link, used) && SearchedLink(vals, used, page)
    ensures var v := WithLink(vals, used, page);
      && (next.Got? <==> v.Some?)
      && (v.Some? ==> next == link.next && core.InSync() && Shows(core.maps, v.value))
  {
    var base, r;
    used := link;
    base, log' := ReadMemory(core, link.base, log);
    if base.Failed? {
      return Failed, used, log';
    }
    r, log' := ReadMemory(core, link.nameAddr, log');
    if r.Failed? {
      return Failed, used, log';
    }
    for i := 0 to link.nameReads
      modifies {}
      invariant AllInStep(log')
    {
      r, log' := ReadMemory(core, link.nameAddr, log');
    }
    if link.Opened() {
      ghost var segments;
      var ok;
      ok, segments := ReadLibSegments(core, link.segments, link.fd, base.value, page, vals);
      used := link.(segments := segments);
      if !ok {
        return Failed, used, log';
      }
      core.SortMapArray();
    }
    next, log' := ReadMemory(core, link.next, log');
  }

  /** Going through `done`, the loop gets from the maps `vals` and the address `first` to `v` and `at`. */
  ghost predicate Goes(vals: seq<Mapping>, first: nat, done: seq<Link>, v: seq<Mapping>, at: nat, page: nat)
    requires page > 0
    decreases |done|
  {
    if done == [] then v == vals && at == first
    else
      var u := WithLink(vals, done[0], page);
      && first != 0 && SearchedLink(vals, done[0], page) && u.Some?
      && Goes(u.value, done[0].next.value, done[1..], v, at, page)
  }

  lemma {:induction false} GoesOn(vals: seq<Mapping>, first: nat, done: seq<Link>, v: seq<Mapping>, at: nat,
                                  link: Link, page: nat)
    requires page > 0 && Goes(vals, first, done, v, at, page) && at != 0
    requires SearchedLink(v, link, page) && WithLink(v, link, page).Some?
    ensures Goes(vals, first, done + [link], WithLink(v, link, page).value, link.next.value, page)
    decreases |done|
  {
    hide SearchedLink, WithLink;
    if done == [] {
      assert (done + [link])[1..] == [];
    } else {
      assert (done + [link])[1..] == done[1..] + [link];
      GoesOn(WithLink(vals, done[0], page).value, done[0].next.value, done[1..], v, at, link, page);
    }
  }

  lemma {:induction false} GoesThen(vals: seq<Mapping>, first: nat, done: seq<Link>, v: seq<Mapping>, at: nat,
                                    rest: seq<Link>, page: nat)
    requires page > 0 && Goes(vals, first, done, v, at, page)
    ensures WithLinks(vals, done + rest, first, page) == WithLinks(v, rest, at, page)
    ensures SearchedLinks(vals, done + rest, first, page) <==> SearchedLinks(v, rest, at, page)
    decreases |done|
  {
    hide SearchedLink, WithLink;
    if done == [] {
      assert done + rest == rest;
    } else {
      assert (done + rest)[1..] == done[1..] + rest;
      GoesThen(WithLink(vals, done[0], page).value, done[0].next.value, done[1..], v, at, rest, page);
    }
  }

  lemma {:induction false} GoesNowhere(vals: seq<Mapping>, first: nat, page: nat)
    requires page > 0
    ensures Goes(vals, first, [], vals, first, page)
  {
  }

  lemma {:induction false} EndsAtZero(vals: seq<Mapping>, first: nat, done: seq<Link>, v: seq<Mapping>, rest: seq<Link>,
                                      page: nat)
    requires page > 0 && Goes(vals, first, done, v, 0, page)
    ensures WithLinks(vals, done + rest, first, page) == Some(v) && SearchedLinks(vals, done + rest, first, page)
  {
    hide Goes;
    GoesThen(vals, first, done, v, 0, rest, page);
  }

  lemma {:induction false} EndsWithoutLink(vals: seq<Mapping>, first: nat, done: seq<Link>, v: seq<Mapping>, at: nat,
                                           page: nat)
    requires page > 0 && Goes(vals, first, done, v, at, page) && at != 0
    ensures WithLinks(vals, done, first, page) == None && SearchedLinks(vals, done, first, page)
  {
    hide Goes;
    GoesThen(vals, first, done, v, at, [], page);
    assert done + [] == done;
  }

  lemma {:induction false} EndsAtFailure(vals: seq<Mapping>, first: nat, done: seq<Link>, v: seq<Mapping>, at: nat,
                                         link: Link, rest: seq<Link>, page: nat)
    requires page > 0 && Goes(vals, first, done, v, at, page) && at != 0
    requires WithLink(v, link, page) == None && SearchedLink(v, link, page)
    ensures WithLinks(vals, done + ([link] + rest), first, page) == None
    ensures SearchedLinks(vals, done + ([link] + rest), first, page)
  {
    hide Goes, WithLink, SearchedLink;
    GoesThen(vals, first, done, v, at, [link] + rest, page);
  }

  /** The links that are not reached stay as the script has them. */
  lemma {:induction false} SameRest(links: seq<Link>, done: seq<Link>, more: seq<Link>)
    requires |done| + |more| <= |links|
    requires forall j :: 0 <= j < |done| ==> SameLink(links[j], done[j])
    requires forall j :: 0 <= j < |more| ==> SameLink(links[|done| + j], more[j])
    ensures var used := done + (more + links[|done| + |more|..]);
      |used| == |links| && forall j :: 0 <= j < |links| ==> SameLink(links[j], used[j])
  {
    var used := done + (more + links[|done| + |more|..]);
    forall j | 0 <= j < |links| ensures SameLink(links[j], used[j]) {
      if j >= |done| + |more| {
        assert used[j] == links[j];
      } else if j >= |done| {
        assert used[j] == more[j - |done|] && links[|done| + (j - |done|)] == links[j];
      }
    }
  }

  /** The link-map loop; it ends at the link with address 0. */
  method ReadLinks(core: CoreReader, links: seq<Link>, first: nat, page: nat, ghost vals: seq<Mapping>,
                   ghost log: seq<Read>)
    returns (ok: bool, ghost used: seq<Link>, ghost log': seq<Read>)
    requires core.InSync() && core.classShareMaps == [] && page > 0 && AllInStep(log) && Shows(core.maps, vals)
    modifies core`maps, core`numMaps, core`mapArray, set m | m in core.maps
    ensures AllInStep(log') && core.Counted()
    ensures |used| == |links| && (forall i :: 0 <= i < |links| ==> SameLink(links[i], used[i]))
    ensures SearchedLinks(vals, used, first, page)
    ensures ok <==> WithLinks(vals, used, first, page).Some?
    ensures ok ==> core.InSync() && Shows(core.maps, WithLinks(vals, used, first, page).value)
  {
    hide WithLink, WithLinks, SearchedLink, SearchedLinks, SameLink, Goes;
    GoesNowhere(vals, first, page);
    ghost var v, done := vals, [];
    var at := first;
    log' := log;
    var i := 0;
    while at != 0
      invariant 0 <= i <= |links| && core.InSync() && AllInStep(log') && Shows(core.maps, v)
      invariant |done| == i && (forall j :: 0 <= j < i ==> SameLink(links[j], done[j]))
      invariant Goes(vals, first, done, v, at, page)
      invariant forall m :: m in core.maps ==> m in old(core.maps) || fresh(m)
      decreases |links| - i
    {
      if i == |links| {
        ghost var r;
        r, log' := ReadMemory(core, Failed, log');
        EndsWithoutLink(vals, first, done, v, at, page);
        return false, done, log';
      }
      var next;
      ghost var one;
      next, one, log' := ReadLink(core, links[i], page, v, log');
      if next.Failed? {
        EndsAtFailure(vals, first, done, v, at, one, links[i + 1..], page);
        SameRest(links, done, [one]);
        return false, done + ([one] + links[i + 1..]), log';
      }
      GoesOn(vals, first, done, v, at, one, page);
      v, at, done := WithLink(v, one, page).value, next.value, done + [one];
      i := i + 1;
    }
    EndsAtZero(vals, first, done, v, links[i..], page);
    SameRest(links, done, []);
    return true, done + links[i..], log';
  }

  /** read_shared_lib_info. */
  method ReadSharedLibInfo(core: CoreReader, script: Script, page: nat, ghost vals: seq<Mapping>, ghost log: seq<Read>)
    returns (ok: bool, ghost run: Script, ghost log': seq<Read>)
    requires core.InSync() && core.classShareMaps == [] && page > 0 && AllInStep(log) && Shows(core.maps, vals)
    requires vals == OwnMaps(script)
    modifies core`maps, core`numMaps, core`mapArray, set m | m in core.maps
    ensures AllInStep(log') && core.Counted() && IsRun(script, run, page)
    ensures ok <==> Grabbed(run, page).Some?
    ensures ok ==> core.InSync() && Shows(core.maps, Grabbed(run, page).value)
  {
    hide WithLib, WithLinks, LeadsToDebug, Searched, SearchedLinks, Mapped;
    run := script;
    ok, log' := FindDebugEntry(core, script.dynamic, log);
    if !ok {
      return;
    }
    var first, base;
    first, log' := ReadMemory(core, script.linkMap, log');
    if first.Failed? {
      return false, run, log';
    }
    base, log' := ReadMemory(core, script.ldBase, log');
    if base.Failed? {
      return false, run, log';
    }
    ghost var interp, links;
    ok, interp := ReadLibSegments(core, script.interp, INTERP_FD, base.value, page, vals);
    run := script.(interp := interp);
    if !ok {
      return false, run, log';
    }
    core.SortMapArray();
    ok, links, log' := ReadLinks(core, script.links, first.value, page,
                                 WithLib(vals, interp, INTERP_FD, base.value, page).value, log');
    run := script.(interp := interp, links := links);
  }

  /** read_string for the path of the archive. */
  method ReadPath(core: CoreReader, replies: seq<Reply>, ghost log: seq<Read>) returns (ok: bool, ghost log': seq<Read>)
    requires core.InSync() && AllInStep(log)
    ensures AllInStep(log') && (ok <==> PathEnds(replies))
  {
    var c := 1;
    var i := 0;
    log' := log;
    while c != 0
      invariant 0 <= i <= |replies| && i <= PATH_MAX - 1 && AllInStep(log')
      invariant forall j :: 0 <= j < i ==> replies[j].Got? && (j < i - 1 ==> replies[j].value != 0)
      invariant if i == 0 then c == 1 else replies[i - 1] == Got(c)
      decreases |replies| - i
    {
      var reply;
      reply, log' := ReadMemory(core, if i < |replies| then replies[i] else Failed, log');
      if reply.Failed? || i == PATH_MAX - 1 {
        return false, log';
      }
      c := reply.value;
      i := i + 1;
    }
    return true, log';
  }

  /** The loop over the spaces of the archive. */
  method AddSharedSpaces(core: CoreReader, spaces: seq<Space>)
    requires core.classShareMaps == []
    modifies core`classShareMaps
    ensures Shows(core.classShareMaps, SharedSpaces(spaces))
  {
    assert spaces[..0] == [];
    for i := 0 to |spaces|
      invariant Shows(core.classShareMaps, SharedSpaces(spaces[..i]))
    {
      var s := spaces[i];
      assert spaces[..i + 1][..i] == spaces[..i];
      if s.readOnly {
        core.AddClassShareMapInfo(SHARE_FD, s.offset, s.base, s.used);
      }
    }
    assert spaces[..|spaces|] == spaces;
  }

  /** init_classsharing_workaround. */
  method InitClassSharing(core: CoreReader, sh: Sharing, ghost log: seq<Read>) returns (ok: bool, ghost log': seq<Read>)
    requires core.InSync() && core.classShareMaps == [] && AllInStep(log)
    modifies core`classShareMaps
    ensures core.InSync() && AllInStep(log')
    ensures ok <==> SharedMaps(sh).Some?
    ensures ok ==> Shows(core.classShareMaps, SharedMaps(sh).value)
  {
    hide SharedSpaces, PathEnds;
    log' := log;
    if !sh.hasJvm {
      return true, log';
    }
    if !sh.flagKnown {
      return false, log';
    }
    var flag, path;
    flag, log' := ReadMemory(core, sh.flag, log');
    if flag.Failed? {
      return false, log';
    }
    if flag.value == 0 {
      return true, log';
    }
    if !sh.pathKnown {
      return false, log';
    }
    path, log' := ReadMemory(core, sh.pathAddr, log');
    if path.Failed? {
      return false, log';
    }
    ok, log' := ReadPath(core, sh.path, log');
    if !ok || sh.archive.None? {
      return false, log';
    }
    AddSharedSpaces(core, sh.archive.value);
    return true, log';
  }

  /** Pgrab_core: every read of debuggee memory finds the index in step, and so do all reads after it. */
  method GrabCore(core: CoreReader, script: Script, page: nat)
    returns (ok: bool, ghost run: Script, ghost log: seq<Read>)
    requires core.maps == [] && core.classShareMaps == [] && core.Counted() && page > 0
    modifies core
    ensures AllInStep(log) && core.Counted() && IsRun(script, run, page)
    ensures ok <==> Grabbed(run, page).Some? && SharedMaps(script.sharing).Some?
    ensures ok ==> core.InSync() && Shows(core.maps, Grabbed(run, page).value)
    ensures ok ==> Shows(core.classShareMaps, SharedMaps(script.sharing).value)
  {
    hide WithSharedLibs, Mapped, SharedMaps, IsRun;
    log := [];
    ghost var vals := Mapped(script.core, false, CORE_FD);
    assert vals + [] == vals;
    ReadSegments(core, script.core, false, CORE_FD, []);
    ReadSegments(core, script.exec, true, EXEC_FD, vals);
    core.SortMapArray();
    ok, run, log := ReadSharedLibInfo(core, script, page, OwnMaps(script), log);
    if !ok {
      return;
    }
    core.SortMapArray();
    ok, log := InitClassSharing(core, script.sharing, log);
  }
}
