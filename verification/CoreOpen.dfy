/**
 When an opened core file can be read (ps_core.c): a layout of the segments under which the maps that
 Pgrab_core leaves behind share no page, as core_read_data needs it.
 */
module CoreOpen {
  import opened Basics
  import opened CoreMaps
  import opened CoreGrab
  import CoreRead

  // ----- pages -----

  function EndOf(m: Mapping, page: nat): nat
    requires page > 0
  {
    m.vaddr + RoundUp(m.memsz, page)
  }

  predicate OnPages(m: Mapping, page: nat)
    requires page > 0
  {
    m.memsz > 0 && m.vaddr % page == 0
  }

  predicate Apart(m: Mapping, n: Mapping, page: nat)
    requires page > 0
  {
    EndOf(m, page) <= n.vaddr || EndOf(n, page) <= m.vaddr
  }

  predicate SamePages(m: Mapping, n: Mapping, page: nat)
    requires page > 0
  {
    m.vaddr == n.vaddr && EndOf(m, page) == EndOf(n, page)
  }

  /** No two maps share a page. */
  ghost predicate PagesApart(vals: seq<Mapping>, page: nat)
    requires page > 0
  {
    && (forall i :: 0 <= i < |vals| ==> OnPages(vals[i], page))
    && (forall i, j :: 0 <= i < j < |vals| ==> Apart(vals[i], vals[j], page))
  }

  // ----- the condition -----

  /** The text segments of a library, at their own addresses. */
  function Wanted(segments: seq<LibSegment>, fd: int, base: nat): seq<Mapping> {
    if segments == [] then []
    else
      var n := |segments| - 1;
      var s := segments[n].seg;
      Wanted(segments[..n], fd, base)
      + if segments[n].Text() then [Mapping(fd, s.offset, Wrap(s.vaddr + base), s.memsz)] else []
  }

  function WantedLink(link: Link): seq<Mapping> {
    if link.Opened() && link.base.Got? then Wanted(link.segments, link.fd, link.base.value) else []
  }

  /** The text segments of the libraries that the link-map loop walks over. */
  function WantedLinks(links: seq<Link>, at: nat): seq<Mapping>
    decreases |links|
  {
    if at == 0 || links == [] then []
    else WantedLink(links[0]) + if links[0].next.Got? then WantedLinks(links[1..], links[0].next.value) else []
  }

  function WantedBy(script: Script): seq<Mapping> {
    (if script.ldBase.Got? then Wanted(script.interp, INTERP_FD, script.ldBase.value) else [])
    + if script.linkMap.Got? then WantedLinks(script.links, script.linkMap.value) else []
  }

  /** A map of the core file or the executable starts where the segment lies. */
  ghost predicate StartsAt(own: seq<Mapping>, a: nat) {
    exists o :: o in own && o.vaddr == a
  }

  /** Every text segment of a library but the last one has a map of the core file or the executable. */
  ghost predicate FoundFirst(own: seq<Mapping>, segments: seq<LibSegment>, base: nat) {
    forall i, j :: 0 <= i < j < |segments| && segments[i].Text() && segments[j].Text() ==>
      StartsAt(own, Wrap(segments[i].seg.vaddr + base))
  }

  /** The same of every library of the link map. */
  ghost predicate LinksFound(own: seq<Mapping>, links: seq<Link>) {
    forall i :: 0 <= i < |links| && links[i].base.Got? ==> FoundFirst(own, links[i].segments, links[i].base.value)
  }

  /** A library segment lies apart from a map, or starts where it starts. */
  predicate Fits(o: Mapping, w: Mapping, page: nat)
    requires page > 0
  {
    Apart(o, w, page) || o.vaddr == w.vaddr
  }

  ghost predicate Layout(own: seq<Mapping>, wanted: seq<Mapping>, page: nat)
    requires page > 0
  {
    && PagesApart(own, page) && PagesApart(wanted, page)
    && forall o, w :: o in own && w in wanted ==> Fits(o, w, page)
  }

  /**
   A layout of the segments that leads to readable maps: all start at page boundaries; those of the core file and
   the executable share no page, nor do the text segments of the libraries, nor the class-sharing spaces with any
   of these; a library segment that meets a map of the core file or the executable starts where that starts; and
   only the last text segment of a library lies where there is none.
   */
  ghost predicate GoodLayout(script: Script, page: nat)
    requires page > 0
  {
    var own, wanted := OwnMaps(script), WantedBy(script);
    && own != [] && Layout(own, wanted, page)
    && (script.ldBase.Got? ==> FoundFirst(own, script.interp, script.ldBase.value))
    && LinksFound(own, script.links)
    && (SharedMaps(script.sharing).Some? ==>
          var shared := SharedMaps(script.sharing).value;
          PagesApart(shared, page) && forall s, m :: s in shared && (m in own || m in wanted) ==> Apart(m, s, page))
  }

  // ----- one segment -----

  lemma {:induction false} RoundUpTwice(x: nat, page: nat)
    requires page > 0
    ensures RoundUp(RoundUp(x, page), page) == RoundUp(x, page)
  {
    var q := (x + page - 1) / page;
    assert q >= 0 && RoundUp(x, page) == q * page;
    CoreRead.RoundUpValue(q, 0, page);
  }

  /** A map onto a library segment, with the pages of the segment. */
  predicate Backs(v: Mapping, w: Mapping, page: nat)
    requires page > 0
  {
    v.fd == w.fd && v.offset == w.offset && SamePages(v, w, page) && w.memsz <= v.memsz
  }

  /**
   What is known after the libraries whose segments are `done`: each of these has a map, the other maps are those of
   the core file and the executable, and these are all there but for the ones that a library segment took over.
   */
  ghost predicate Placed(vals: seq<Mapping>, own: seq<Mapping>, done: seq<Mapping>, page: nat)
    requires page > 0
  {
    && PagesApart(vals, page)
    && (forall o :: o in own ==> o in vals || StartsAt(done, o.vaddr))
    && (forall d :: d in done ==> HasBacking(vals, d, page))
    && (forall v :: v in vals ==> v in own || IsBacking(v, done, page))
  }

  ghost predicate HasBacking(vals: seq<Mapping>, d: Mapping, page: nat)
    requires page > 0
  {
    exists v :: v in vals && Backs(v, d, page)
  }

  ghost predicate IsBacking(v: Mapping, done: seq<Mapping>, page: nat)
    requires page > 0
  {
    exists d :: d in done && Backs(v, d, page)
  }

  /** The next segment may come where the ones before left things. */
  ghost predicate Welcome(w: Mapping, vals: seq<Mapping>, page: nat)
    requires page > 0
  {
    OnPages(w, page) && forall v :: v in vals ==> Fits(v, w, page)
  }

  lemma {:induction false} NextWelcome(w: Mapping, vals: seq<Mapping>, own: seq<Mapping>, done: seq<Mapping>, page: nat)
    requires page > 0 && Placed(vals, own, done, page) && OnPages(w, page)
    requires forall o :: o in own ==> Fits(o, w, page)
    requires forall d :: d in done ==> Apart(d, w, page)
    ensures Welcome(w, vals, page)
  {
    hide EndOf, OnPages;
  }

  lemma {:induction false} ApartIsSeparate(vals: seq<Mapping>, page: nat)
    requires page > 0 && PagesApart(vals, page)
    ensures Separate(vals)
  {
    forall i | 0 <= i < |vals| ensures vals[i].memsz > 0 && vals[i].vaddr + vals[i].memsz <= EndOf(vals[i], page) {
      RoundUpCovers(vals[i].memsz, page);
    }
    hide EndOf, RoundUp;
  }

  /** A map that holds the start of a welcome segment starts there. */
  lemma {:induction false} HolderStarts(v: Mapping, w: Mapping, page: nat)
    requires page > 0 && OnPages(w, page) && Fits(v, w, page)
    ensures HoldsAt(v, w.vaddr) ==> v.vaddr == w.vaddr
    ensures v.memsz > 0 && v.vaddr == w.vaddr ==> HoldsAt(v, w.vaddr)
  {
    RoundUpCovers(v.memsz, page);
    RoundUpCovers(w.memsz, page);
    hide RoundUp;
  }

  /** Only one of the maps starts at an address. */
  lemma {:induction false} OneStart(vals: seq<Mapping>, i: nat, k: nat, page: nat)
    requires page > 0 && PagesApart(vals, page) && i < |vals| && k < |vals| && i != k
    ensures vals[i].vaddr != vals[k].vaddr
  {
    RoundUpCovers(vals[i].memsz, page);
    RoundUpCovers(vals[k].memsz, page);
    hide RoundUp;
    if i < k {
      assert Apart(vals[i], vals[k], page);
    } else {
      assert Apart(vals[k], vals[i], page);
    }
  }

  /** A welcome segment that finds no map is apart from all. */
  lemma {:induction false} AddedApart(w: Mapping, vals: seq<Mapping>, page: nat)
    requires page > 0 && PagesApart(vals, page) && Welcome(w, vals, page)
    requires forall i :: 0 <= i < |vals| ==> !HoldsAt(vals[i], w.vaddr)
    ensures PagesApart([w] + vals, page)
  {
    forall i | 0 <= i < |vals| ensures Apart(w, vals[i], page) {
      assert vals[i] in vals;
      HolderStarts(vals[i], w, page);
    }
    hide EndOf;
  }

  /** A welcome segment that takes over a map leaves the maps apart. */
  lemma {:induction false} TakenApart(w: Mapping, vals: seq<Mapping>, k: nat, m: Mapping, page: nat)
    requires page > 0 && PagesApart(vals, page) && Welcome(w, vals, page) && k < |vals| && HoldsAt(vals[k], w.vaddr)
    requires m.vaddr == vals[k].vaddr && m.memsz == RoundUp(w.memsz, page)
    ensures PagesApart(vals[k := m], page) && SamePages(m, w, page)
  {
    assert vals[k] in vals;
    HolderStarts(vals[k], w, page);
    RoundUpCovers(w.memsz, page);
    RoundUpTwice(w.memsz, page);
    hide RoundUp;
    assert SamePages(m, w, page);
    forall i | 0 <= i < |vals| && i != k ensures Apart(vals[i], m, page) {
      assert vals[i] in vals;
      OneStart(vals, i, k, page);
    }
  }

  // ----- when one segment leaves the maps apart -----

  /** No map but the `k`-th starts in the pages of `m`. */
  ghost predicate NoneStartsIn(vals: seq<Mapping>, k: nat, m: Mapping, page: nat)
    requires page > 0
  {
    forall i :: 0 <= i < |vals| && i != k ==> !(m.vaddr <= vals[i].vaddr < EndOf(m, page))
  }

  predicate Covers(x: Mapping, a: nat, page: nat)
    requires page > 0
  {
    x.vaddr <= a < EndOf(x, page)
  }

  lemma {:induction false} ApartIff(x: Mapping, m: Mapping, page: nat)
    requires page > 0 && x.memsz > 0 && m.memsz > 0 && !Covers(x, m.vaddr, page)
    ensures Apart(x, m, page) <==> !(m.vaddr <= x.vaddr < EndOf(m, page))
  {
    RoundUpCovers(x.memsz, page);
    RoundUpCovers(m.memsz, page);
    hide RoundUp;
  }

  lemma {:induction false} RoundUpLeast(x: nat, k: nat, page: nat)
    requires page > 0 && x <= k * page
    ensures RoundUp(x, page) <= k * page
  {
    var q := (x + page - 1) / page;
    assert q * page <= x + page - 1;
    assert (q - k) * page <= page - 1;
    CoreRead.Multiples(q - k, page);
  }

  /** A page boundary that a map does not hold is not in its pages. */
  lemma {:induction false} BoundaryOutside(x: Mapping, a: nat, page: nat)
    requires page > 0 && OnPages(x, page) && a % page == 0 && !HoldsAt(x, a)
    ensures !Covers(x, a, page)
  {
    if x.vaddr <= a {
      var k := a / page - x.vaddr / page;
      assert a - x.vaddr == k * page;
      CoreRead.Multiples(k, page);
      RoundUpLeast(x.memsz, k, page);
    }
  }

  lemma {:induction false} CoversOne(vals: seq<Mapping>, k: nat, i: nat, page: nat)
    requires page > 0 && PagesApart(vals, page) && k < |vals| && i < |vals| && i != k
    ensures !Covers(vals[i], vals[k].vaddr, page)
  {
    RoundUpCovers(vals[k].memsz, page);
    hide RoundUp;
    if i < k {
      assert Apart(vals[i], vals[k], page);
    } else {
      assert Apart(vals[k], vals[i], page);
    }
  }

  /** Taking over the `k`-th map. */
  lemma {:induction false} TakenApartIff(vals: seq<Mapping>, k: nat, m: Mapping, page: nat)
    requires page > 0 && PagesApart(vals, page) && k < |vals| && m.vaddr == vals[k].vaddr && m.memsz > 0
    ensures PagesApart(vals[k := m], page) <==> NoneStartsIn(vals, k, m, page)
  {
    forall i | 0 <= i < |vals| && i != k
      ensures Apart(vals[i], m, page) <==> !(m.vaddr <= vals[i].vaddr < EndOf(m, page))
    {
      CoversOne(vals, k, i, page);
      ApartIff(vals[i], m, page);
    }
    var v := vals[k := m];
    if PagesApart(v, page) {
      forall i | 0 <= i < |vals| && i != k ensures Apart(vals[i], m, page) {
        if i < k {
          assert Apart(v[i], v[k], page);
        } else {
          assert Apart(v[k], v[i], page);
        }
      }
    }
    hide EndOf;
  }

  /** Adding a map where there is none. */
  lemma {:induction false} AddedApartIff(vals: seq<Mapping>, m: Mapping, page: nat)
    requires page > 0 && PagesApart(vals, page) && m.memsz > 0
    requires forall i :: 0 <= i < |vals| ==> !HoldsAt(vals[i], m.vaddr)
    ensures PagesApart([m] + vals, page) <==> m.vaddr % page == 0 && NoneStartsIn(vals, |vals|, m, page)
  {
    var v := [m] + vals;
    if m.vaddr % page == 0 {
      forall i | 0 <= i < |vals|
        ensures Apart(m, vals[i], page) <==> !(m.vaddr <= vals[i].vaddr < EndOf(m, page))
      {
        BoundaryOutside(vals[i], m.vaddr, page);
        ApartIff(vals[i], m, page);
      }
      if PagesApart(v, page) {
        forall i | 0 <= i < |vals| ensures Apart(m, vals[i], page) {
          assert v[i + 1] == vals[i] && Apart(v[0], v[i + 1], page);
        }
      }
    } else {
      assert !OnPages(v[0], page);
    }
    hide EndOf;
  }

  /**
   One text segment leaves the maps apart if and only if no other map starts in the pages it then has, and these
   start at a page boundary where it adds a map.
   */
  lemma {:induction false} SegmentApartIff(vals: seq<Mapping>, s: LibSegment, fd: int, base: nat, page: nat)
    requires page > 0 && s.Text() && s.seg.memsz > 0 && PagesApart(vals, page)
    requires Answers(vals, Wrap(s.seg.vaddr + base), s.existing) && WithSegment(vals, s, fd, base, page).Some?
    ensures PagesApart(WithSegment(vals, s, fd, base, page).value, page) <==>
      if s.existing < |vals| then
        NoneStartsIn(vals, s.existing, Mapping(fd, 0, vals[s.existing].vaddr, s.seg.memsz), page)
      else
        && Wrap(s.seg.vaddr + base) % page == 0
        && NoneStartsIn(vals, |vals|, Mapping(fd, 0, Wrap(s.seg.vaddr + base), s.seg.memsz), page)
  {
    var a := Wrap(s.seg.vaddr + base);
    ApartIsSeparate(vals, page);
    AnswersExact(vals, a, s.existing);
    RoundUpTwice(s.seg.memsz, page);
    RoundUpCovers(s.seg.memsz, page);
    hide PagesApart, RoundUp, Wrap, Answers, Separate;
    if s.existing < |vals| {
      TakenApartIff(vals, s.existing, Replaced(vals[s.existing], s.seg, fd, page).value, page);
    } else {
      AddedApartIff(vals, Mapping(fd, s.seg.offset, a, s.seg.memsz), page);
    }
  }

  // ----- a library -----

  /** What one text segment does to the list. */
  lemma {:induction false} SegmentDoes(vals: seq<Mapping>, s: LibSegment, fd: int, base: nat, page: nat, w: Mapping)
    requires page > 0 && s.Text() && WithSegment(vals, s, fd, base, page).Some?
    requires w == Mapping(fd, s.seg.offset, Wrap(s.seg.vaddr + base), s.seg.memsz)
    ensures var v := WithSegment(vals, s, fd, base, page).value;
      if s.existing >= |vals| then v == [w] + vals
      else v == vals[s.existing := Mapping(fd, s.seg.offset, vals[s.existing].vaddr, RoundUp(w.memsz, page))]
  {
    hide Wrap, RoundUp;
  }

  lemma {:induction false} SegmentPlaced(vals: seq<Mapping>, s: LibSegment, fd: int, base: nat, page: nat,
                                         own: seq<Mapping>, done: seq<Mapping>, w: Mapping)
    requires page > 0 && s.Text() && Placed(vals, own, done, page) && WithSegment(vals, s, fd, base, page).Some?
    requires w == Mapping(fd, s.seg.offset, Wrap(s.seg.vaddr + base), s.seg.memsz) && Answers(vals, w.vaddr, s.existing)
    requires Welcome(w, vals, page) && forall d :: d in done ==> d.vaddr != w.vaddr
    ensures var v := WithSegment(vals, s, fd, base, page).value;
      Placed(v, own, done + [w], page) && (StartsAt(own, w.vaddr) ==> |v| == |vals|)
  {
    hide Placed, Welcome, Wrap, RoundUp, Answers, StartsAt, Separate, PagesApart, WithSegment;
    SegmentDoes(vals, s, fd, base, page, w);
    PlacedApart(vals, own, done, page);
    ApartIsSeparate(vals, page);
    AnswersExact(vals, w.vaddr, s.existing);
    if s.existing >= |vals| {
      AddedPlaced(w, vals, own, done, page);
      if StartsAt(own, w.vaddr) {
        NotFoundNowhere(vals, own, done, w, page);
      }
    } else {
      var m := Mapping(fd, s.seg.offset, vals[s.existing].vaddr, RoundUp(w.memsz, page));
      TakenPlaced(w, vals, s.existing, m, own, done, page);
    }
  }

  lemma {:induction false} PlacedApart(vals: seq<Mapping>, own: seq<Mapping>, done: seq<Mapping>, page: nat)
    requires page > 0 && Placed(vals, own, done, page)
    ensures PagesApart(vals, page)
  {
  }

  lemma {:induction false} AddedPlaced(w: Mapping, vals: seq<Mapping>, own: seq<Mapping>, done: seq<Mapping>, page: nat)
    requires page > 0 && Placed(vals, own, done, page) && Welcome(w, vals, page)
    requires forall i :: 0 <= i < |vals| ==> !HoldsAt(vals[i], w.vaddr)
    requires forall d :: d in done ==> d.vaddr != w.vaddr
    ensures Placed([w] + vals, own, done + [w], page)
  {
    hide Placed, Welcome, PagesApart;
    PlacedApart(vals, own, done, page);
    AddedApart(w, vals, page);
    StillPlaced(vals, [w] + vals, own, done, w, w, page);
  }

  lemma {:induction false} TakenPlaced(w: Mapping, vals: seq<Mapping>, k: nat, m: Mapping, own: seq<Mapping>,
                                       done: seq<Mapping>, page: nat)
    requires page > 0 && Placed(vals, own, done, page) && Welcome(w, vals, page)
    requires k < |vals| && HoldsAt(vals[k], w.vaddr)
    requires m == Mapping(w.fd, w.offset, vals[k].vaddr, RoundUp(w.memsz, page))
    requires forall d :: d in done ==> d.vaddr != w.vaddr
    ensures Placed(vals[k := m], own, done + [w], page)
  {
    hide Placed, Welcome, PagesApart, RoundUp;
    PlacedApart(vals, own, done, page);
    RoundUpCovers(w.memsz, page);
    TakenApart(w, vals, k, m, page);
    var v := vals[k := m];
    assert v[k] == m;
    forall x | x in vals ensures x in v || x.vaddr == w.vaddr {
      var i :| 0 <= i < |vals| && vals[i] == x;
      assert i != k ==> v[i] == x;
    }
    StillPlaced(vals, v, own, done, w, m, page);
  }

  /** A map of the own files that starts at the address is found there. */
  lemma {:induction false} NotFoundNowhere(vals: seq<Mapping>, own: seq<Mapping>, done: seq<Mapping>, w: Mapping,
                                           page: nat)
    requires page > 0 && Placed(vals, own, done, page) && StartsAt(own, w.vaddr)
    ensures exists i :: 0 <= i < |vals| && HoldsAt(vals[i], w.vaddr)
  {
    var o :| o in own && o.vaddr == w.vaddr;
    assert StartsAt(vals, w.vaddr) by {
      if o !in vals {
        var d :| d in done && d.vaddr == o.vaddr;
        var v :| v in vals && Backs(v, d, page);
      }
    }
    var v :| v in vals && v.vaddr == o.vaddr;
    var i :| 0 <= i < |vals| && vals[i] == v;
    assert OnPages(vals[i], page) && HoldsAt(vals[i], w.vaddr);
  }

  /** One map `m` onto `w` is new; the others were there before, and only one that starts where `w` does is gone. */
  lemma {:induction false} StillPlaced(vals: seq<Mapping>, v: seq<Mapping>, own: seq<Mapping>, done: seq<Mapping>,
                                       w: Mapping, m: Mapping, page: nat)
    requires page > 0 && Placed(vals, own, done, page) && PagesApart(v, page) && Backs(m, w, page) && m in v
    requires forall x :: x in v ==> x == m || x in vals
    requires forall x :: x in vals ==> x in v || x.vaddr == w.vaddr
    requires forall d :: d in done ==> d.vaddr != w.vaddr
    ensures Placed(v, own, done + [w], page)
  {
    hide PagesApart, EndOf;
    var done' := done + [w];
    assert w in done';
    forall o | o in own ensures o in v || StartsAt(done', o.vaddr) {
      if o !in vals {
        var d :| d in done && d.vaddr == o.vaddr;
        assert d in done';
      }
    }
    forall d | d in done' ensures HasBacking(v, d, page) {
      if d in done {
        var x :| x in vals && Backs(x, d, page);
        assert x in v;
      }
    }
    forall x | x in v ensures x in own || IsBacking(x, done', page) {
      if x != m && x !in own {
        var d :| d in done && Backs(x, d, page);
        assert d in done';
      }
    }
  }

  /** The segments of a library stand in the whole list from position `p` on. */
  ghost predicate StandAt(more: seq<Mapping>, all: seq<Mapping>, p: nat) {
    p + |more| <= |all| && forall i :: 0 <= i < |more| ==> all[p + i] == more[i]
  }

  ghost predicate AllFound(own: seq<Mapping>, segments: seq<LibSegment>, base: nat) {
    forall i :: 0 <= i < |segments| && segments[i].Text() ==> StartsAt(own, Wrap(segments[i].seg.vaddr + base))
  }

  /** What the layout says about one segment. */
  lemma {:induction false} LayoutAt(own: seq<Mapping>, all: seq<Mapping>, q: nat, page: nat)
    requires page > 0 && Layout(own, all, page) && q < |all|
    ensures OnPages(all[q], page)
    ensures forall o :: o in own ==> Fits(o, all[q], page)
    ensures forall d :: d in all[..q] ==> Apart(d, all[q], page) && d.vaddr != all[q].vaddr
  {
    hide EndOf;
    assert all[q] in all;
    forall i | 0 <= i < q ensures all[i].vaddr != all[q].vaddr {
      OneStart(all, i, q, page);
    }
  }

  lemma {:induction false} LastStands(a: seq<Mapping>, b: seq<Mapping>, all: seq<Mapping>, p: nat)
    requires StandAt(a + b, all, p)
    ensures StandAt(a, all, p) && StandAt(b, all, p + |a|)
    ensures |b| == 1 ==> b[0] == all[p + |a|] && all[..p + |a|] + b == all[..p + |a| + 1]
  {
    forall i | 0 <= i < |a| ensures all[p + i] == a[i] {
      assert all[p + i] == (a + b)[i];
    }
    forall i | 0 <= i < |b| ensures all[p + |a| + i] == b[i] {
      assert all[p + (|a| + i)] == (a + b)[|a| + i];
    }
    if |b| == 1 {
      assert b == [b[0]] && all[p + |a| + 0] == b[0];
    }
  }

  lemma {:induction false} FoundFirstPrefix(own: seq<Mapping>, segments: seq<LibSegment>, base: nat)
    requires FoundFirst(own, segments, base) && segments != []
    ensures var n := |segments| - 1;
      FoundFirst(own, segments[..n], base) && (segments[n].Text() ==> AllFound(own, segments[..n], base))
  {
    hide StartsAt, Wrap;
    var n := |segments| - 1;
    forall i | 0 <= i < n && segments[i].Text() && segments[n].Text()
      ensures StartsAt(own, Wrap(segments[i].seg.vaddr + base))
    {
    }
  }

  /** A library leaves the maps placed. */
  lemma {:induction false} LibPlaced(vals: seq<Mapping>, segments: seq<LibSegment>, fd: int, base: nat, page: nat,
                                     own: seq<Mapping>, all: seq<Mapping>, p: nat)
    requires page > 0 && vals != [] && Layout(own, all, page)
    requires p <= |all| && StandAt(Wanted(segments, fd, base), all, p) && Placed(vals, own, all[..p], page)
    requires WithLib(vals, segments, fd, base, page).Some? && Searched(vals, segments, fd, base, page)
    requires FoundFirst(own, segments, base)
    ensures var v := WithLib(vals, segments, fd, base, page).value;
      && StandAt(Wanted(segments, fd, base), all, p)
      && Placed(v, own, all[..p + |Wanted(segments, fd, base)|], page)
      && (AllFound(own, segments, base) ==> |v| == |vals|)
  {
    hide Layout, Placed, StandAt, FoundFirst, AllFound, Answers, Wrap, StartsAt, WithSegment;
    if segments == [] {
      StandsInside([], all, p);
    } else {
      var n := |segments| - 1;
      var before, s := Wanted(segments[..n], fd, base), segments[n];
      var w := Mapping(fd, s.seg.offset, Wrap(s.seg.vaddr + base), s.seg.memsz);
      LastStands(before, if s.Text() then [w] else [], all, p);
      FoundFirstPrefix(own, segments, base);
      LibPlaced(vals, segments[..n], fd, base, page, own, all, p);
      StandsInside(before, all, p);
      if AllFound(own, segments, base) {
        AllFoundLast(own, segments, base);
      }
      var u, q := WithLib(vals, segments[..n], fd, base, page).value, p + |before|;
      if s.Text() {
        StandsInside([w], all, q);
        LayoutAt(own, all, q, page);
        NextWelcome(w, u, own, all[..q], page);
        SegmentPlaced(u, s, fd, base, page, own, all[..q], w);
      } else {
        NoText(u, s, fd, base, page);
      }
    }
  }

  lemma {:induction false} StandsInside(more: seq<Mapping>, all: seq<Mapping>, p: nat)
    requires StandAt(more, all, p)
    ensures p + |more| <= |all|
  {
  }

  lemma {:induction false} NoText(vals: seq<Mapping>, s: LibSegment, fd: int, base: nat, page: nat)
    requires page > 0 && !s.Text()
    ensures WithSegment(vals, s, fd, base, page) == Some(vals)
  {
  }

  lemma {:induction false} AllFoundLast(own: seq<Mapping>, segments: seq<LibSegment>, base: nat)
    requires segments != [] && AllFound(own, segments, base)
    ensures var n := |segments| - 1;
      AllFound(own, segments[..n], base)
      && (segments[n].Text() ==> StartsAt(own, Wrap(segments[n].seg.vaddr + base)))
  {
    hide StartsAt, Wrap;
  }

  // ----- all libraries -----

  lemma {:induction false} PlacedNotEmpty(vals: seq<Mapping>, own: seq<Mapping>, done: seq<Mapping>, page: nat)
    requires page > 0 && Placed(vals, own, done, page) && own != []
    ensures vals != []
  {
    assert own[0] in own;
    if own[0] !in vals {
      var d :| d in done && d.vaddr == own[0].vaddr;
      var v :| v in vals && Backs(v, d, page);
    }
  }

  lemma {:induction false} LinkPlaced(vals: seq<Mapping>, link: Link, page: nat, own: seq<Mapping>, all: seq<Mapping>,
                                      p: nat)
    requires page > 0 && own != [] && Layout(own, all, page)
    requires p <= |all| && StandAt(WantedLink(link), all, p) && Placed(vals, own, all[..p], page)
    requires WithLink(vals, link, page).Some? && SearchedLink(vals, link, page)
    requires FoundFirst(own, link.segments, link.base.value)
    ensures StandAt(WantedLink(link), all, p)
      && Placed(WithLink(vals, link, page).value, own, all[..p + |WantedLink(link)|], page)
  {
    hide Layout, Placed, StandAt, FoundFirst, Searched, WithLib, Wanted;
    StandsInside(WantedLink(link), all, p);
    if link.Opened() {
      PlacedNotEmpty(vals, own, all[..p], page);
      LibPlaced(vals, link.segments, link.fd, link.base.value, page, own, all, p);
    }
  }

  lemma {:induction false} LinksPlaced(vals: seq<Mapping>, links: seq<Link>, at: nat, page: nat, own: seq<Mapping>,
                                       all: seq<Mapping>, p: nat)
    requires page > 0 && own != [] && Layout(own, all, page)
    requires p <= |all| && StandAt(WantedLinks(links, at), all, p) && Placed(vals, own, all[..p], page)
    requires WithLinks(vals, links, at, page).Some? && SearchedLinks(vals, links, at, page)
    requires LinksFound(own, links)
    ensures p + |WantedLinks(links, at)| <= |all|
    ensures Placed(WithLinks(vals, links, at, page).value, own, all[..p + |WantedLinks(links, at)|], page)
    decreases |links|
  {
    hide Layout, Placed, StandAt, LinksFound, FoundFirst, SearchedLink, SearchedLinks, WithLink, WithLinks, WantedLink,
         WantedLinks;
    StandsInside(WantedLinks(links, at), all, p);
    if at == 0 {
      NoLinks(vals, links, page);
    } else {
      LinksStep(vals, links, at, page, own);
      var more := WantedLink(links[0]);
      var u := WithLink(vals, links[0], page).value;
      LastStands(more, WantedLinks(links[1..], links[0].next.value), all, p);
      StandsInside(more, all, p);
      LinkPlaced(vals, links[0], page, own, all, p);
      LinksPlaced(u, links[1..], links[0].next.value, page, own, all, p + |more|);
    }
  }

  lemma {:induction false} NoLinks(vals: seq<Mapping>, links: seq<Link>, page: nat)
    requires page > 0
    ensures WithLinks(vals, links, 0, page) == Some(vals) && WantedLinks(links, 0) == []
  {
  }

  /** One turn of the link-map loop, and the rest of it. */
  lemma {:induction false} LinksStep(vals: seq<Mapping>, links: seq<Link>, at: nat, page: nat, own: seq<Mapping>)
    requires page > 0 && at != 0 && LinksFound(own, links)
    requires WithLinks(vals, links, at, page).Some? && SearchedLinks(vals, links, at, page)
    ensures links != [] && links[0].base.Got? && links[0].next.Got? && WithLink(vals, links[0], page).Some?
    ensures SearchedLink(vals, links[0], page) && FoundFirst(own, links[0].segments, links[0].base.value)
    ensures LinksFound(own, links[1..])
    ensures var u, next := WithLink(vals, links[0], page).value, links[0].next.value;
      && WithLinks(vals, links, at, page) == WithLinks(u, links[1..], next, page)
      && SearchedLinks(u, links[1..], next, page)
      && WantedLinks(links, at) == WantedLink(links[0]) + WantedLinks(links[1..], next)
  {
    hide FoundFirst, SearchedLink, WantedLink, WithLib;
  }

  lemma {:induction false} OwnPlaced(own: seq<Mapping>, page: nat)
    requires page > 0 && PagesApart(own, page)
    ensures Placed(own, own, [], page)
  {
    hide PagesApart;
  }

  /** A run whose layout is good leaves the maps placed. */
  lemma {:induction false} RunPlaced(run: Script, page: nat)
    requires page > 0 && GoodLayout(run, page) && SearchedLibs(OwnMaps(run), run, page) && Grabbed(run, page).Some?
    ensures Placed(Grabbed(run, page).value, OwnMaps(run), WantedBy(run), page)
  {
    hide Layout, Placed, StandAt, FoundFirst, Searched, SearchedLinks, WithLib, WithLinks, Wanted, WantedLinks, OwnMaps,
         LeadsToDebug, PagesApart;
    var own, all := OwnMaps(run), WantedBy(run);
    var first, rest := Wanted(run.interp, INTERP_FD, run.ldBase.value), WantedLinks(run.links, run.linkMap.value);
    LayoutOwn(own, all, page);
    OwnPlaced(own, page);
    assert all == first + rest && all[..0] == [] && all[..|all|] == all;
    WholeStands(all);
    LastStands(first, rest, all, 0);
    LibPlaced(own, run.interp, INTERP_FD, run.ldBase.value, page, own, all, 0);
    var v := WithLib(own, run.interp, INTERP_FD, run.ldBase.value, page).value;
    LinksPlaced(v, run.links, run.linkMap.value, page, own, all, |first|);
  }

  lemma {:induction false} WholeStands(all: seq<Mapping>)
    ensures StandAt(all, all, 0)
  {
  }

  lemma {:induction false} LayoutOwn(own: seq<Mapping>, all: seq<Mapping>, page: nat)
    requires page > 0 && Layout(own, all, page)
    ensures PagesApart(own, page)
  {
  }

  // ----- a run has the layout of its script -----

  lemma {:induction false} WantedSame(segments: seq<LibSegment>, segments': seq<LibSegment>, fd: int, base: nat)
    requires SameSegments(segments, segments')
    ensures Wanted(segments', fd, base) == Wanted(segments, fd, base)
  {
    if segments != [] {
      var n := |segments| - 1;
      WantedSame(segments[..n], segments'[..n], fd, base);
      assert segments'[n].seg == segments[n].seg;
    }
  }

  lemma {:induction false} FoundFirstSame(own: seq<Mapping>, segments: seq<LibSegment>, segments': seq<LibSegment>,
                                          base: nat)
    requires SameSegments(segments, segments') && FoundFirst(own, segments, base)
    ensures FoundFirst(own, segments', base)
  {
    hide StartsAt, Wrap;
    forall i, j | 0 <= i < j < |segments'| && segments'[i].Text() && segments'[j].Text()
      ensures StartsAt(own, Wrap(segments'[i].seg.vaddr + base))
    {
      assert segments[i].Text() && segments[j].Text();
    }
  }

  lemma {:induction false} WantedLinksSame(links: seq<Link>, links': seq<Link>, at: nat)
    requires |links'| == |links| && forall i :: 0 <= i < |links| ==> SameLink(links[i], links'[i])
    ensures WantedLinks(links', at) == WantedLinks(links, at)
    decreases |links|
  {
    hide Wanted;
    if at != 0 && links != [] {
      assert SameLink(links[0], links'[0]);
      var base := if links[0].base.Got? then links[0].base.value else 0;
      WantedSame(links[0].segments, links'[0].segments, links[0].fd, base);
      if links[0].next.Got? {
        WantedLinksSame(links[1..], links'[1..], links[0].next.value);
      }
    }
  }

  lemma {:induction false} LinksFoundSame(own: seq<Mapping>, links: seq<Link>, links': seq<Link>)
    requires |links'| == |links| && forall i :: 0 <= i < |links| ==> SameLink(links[i], links'[i])
    requires LinksFound(own, links)
    ensures LinksFound(own, links')
  {
    hide FoundFirst;
    forall i | 0 <= i < |links'| && links'[i].base.Got?
      ensures FoundFirst(own, links'[i].segments, links'[i].base.value)
    {
      assert SameLink(links[i], links'[i]);
      FoundFirstSame(own, links[i].segments, links'[i].segments, links[i].base.value);
    }
  }

  lemma {:induction false} LayoutSame(script: Script, run: Script, page: nat)
    requires page > 0 && IsRun(script, run, page) && GoodLayout(script, page)
    ensures GoodLayout(run, page) && OwnMaps(run) == OwnMaps(script) && WantedBy(run) == WantedBy(script)
  {
    hide Wanted, WantedLinks, FoundFirst, Layout, SameSegments, SearchedLibs, PagesApart, Mapped;
    if script.ldBase.Got? {
      WantedSame(script.interp, run.interp, INTERP_FD, script.ldBase.value);
      FoundFirstSame(OwnMaps(script), script.interp, run.interp, script.ldBase.value);
    }
    if script.linkMap.Got? {
      WantedLinksSame(script.links, run.links, script.linkMap.value);
    }
    LinksFoundSame(OwnMaps(script), script.links, run.links);
  }

  // ----- the result -----

  /** The class-sharing maps lie apart from what was placed. */
  lemma {:induction false} SharedApart(vals: seq<Mapping>, own: seq<Mapping>, done: seq<Mapping>,
                                       shared: seq<Mapping>, page: nat)
    requires page > 0 && Placed(vals, own, done, page) && PagesApart(shared, page)
    requires forall s, m :: s in shared && (m in own || m in done) ==> Apart(m, s, page)
    ensures PagesApart(vals + shared, page)
  {
    forall i, j | 0 <= i < |vals| && 0 <= j < |shared| ensures Apart(vals[i], shared[j], page) {
      assert vals[i] in vals && shared[j] in shared;
      var m := vals[i];
      if m !in own {
        m :| m in done && Backs(vals[i], m, page);
      }
      assert Apart(m, shared[j], page);
    }
    hide EndOf;
  }

  /** Maps whose contents share no page can be read. */
  lemma {:induction false} ShowsApart(list: seq<MapInfo>, more: seq<MapInfo>, vals: seq<Mapping>,
                                      shared: seq<Mapping>, page: nat)
    requires page > 0 && Shows(list, vals) && Shows(more, shared) && PagesApart(vals + shared, page)
    ensures CoreRead.PagesDisjoint(list + more, page)
  {
    hide RoundUp;
    var all, both := list + more, vals + shared;
    forall i | 0 <= i < |all|
      ensures both[i].vaddr == all[i].vaddr && both[i].memsz == all[i].memsz
    {
    }
    forall i | 0 <= i < |all| ensures all[i].memsz > 0 && CoreRead.Boundary(all[i].vaddr, page) {
      assert OnPages(both[i], page);
    }
    forall i, j | 0 <= i < j < |all|
      ensures CoreRead.PageEnd(all[i], page) <= all[j].vaddr || CoreRead.PageEnd(all[j], page) <= all[i].vaddr
    {
      assert Apart(both[i], both[j], page);
    }
  }

  /** With a good layout of the segments, the maps of an opened core file are what core_read_data needs. */
  lemma {:induction false} OpenedCanBeRead(core: CoreReader, script: Script, run: Script, page: nat)
    requires page > 0 && IsRun(script, run, page) && GoodLayout(script, page)
    requires Grabbed(run, page).Some? && SharedMaps(script.sharing).Some?
    requires core.InSync() && Shows(core.maps, Grabbed(run, page).value)
    requires Shows(core.classShareMaps, SharedMaps(script.sharing).value)
    ensures core.numMaps > 0 && CoreRead.PagesDisjoint(CoreRead.AllMaps(core), page)
  {
    hide Layout, FoundFirst, Placed, Shows, PagesApart, Grabbed, SearchedLibs, OwnMaps, WantedBy, SharedMaps,
         CoreRead.PagesDisjoint;
    var vals, shared := Grabbed(run, page).value, SharedMaps(script.sharing).value;
    LayoutSame(script, run, page);
    RunPlaced(run, page);
    PlacedNotEmpty(vals, OwnMaps(run), WantedBy(run), page);
    SharedApart(vals, OwnMaps(run), WantedBy(run), shared, page);
    ShowsApart(core.maps, core.classShareMaps, vals, shared, page);
    ShowsLength(core.maps, vals);
  }

  /** Without it they need not be: a library segment that takes over a one-page map may grow into the next map. */
  lemma {:induction false} GrowsIntoNext(fd: int)
    ensures var page := 4096;
      var vals := [Mapping(CORE_FD, 0, 4096, 4096), Mapping(CORE_FD, 4096, 8192, 4096)];
      var segments := [LibSegment(Segment(false, 0, 4096, 1, 8192), 0)];
      && PagesApart(vals, page) && Searched(vals, segments, fd, 0, page)
      && WithLib(vals, segments, fd, 0, page) ==
         Some([Mapping(fd, 0, 4096, 8192), Mapping(CORE_FD, 4096, 8192, 4096)])
      && !PagesApart(WithLib(vals, segments, fd, 0, page).value, page)
  {
    var page := 4096;
    var vals := [Mapping(CORE_FD, 0, 4096, 4096), Mapping(CORE_FD, 4096, 8192, 4096)];
    var segments := [LibSegment(Segment(false, 0, 4096, 1, 8192), 0)];
    assert segments[..0] == [] && WithLib(vals, [], fd, 0, page) == Some(vals) && Searched(vals, [], fd, 0, page);
    assert NearestAt(vals, 0, 4096) && Answers(vals, 4096, 0);
    assert SearchedLast(vals, segments, fd, 0, page);
    var v := [Mapping(fd, 0, 4096, 8192), Mapping(CORE_FD, 4096, 8192, 4096)];
    assert vals[0 := v[0]] == v && WithSegment(vals, segments[0], fd, 0, page) == Some(v);
    assert !Apart(v[0], v[1], page);
  }

  // ----- everything that should be mapped is -----

  /** A map of the file `fd` onto the segment: its offset, its address in memory, its size and its pages. */
  ghost predicate HasMap(vals: seq<Mapping>, fd: int, s: Segment, base: nat, page: nat)
    requires page > 0
  {
    exists v ::
      && v in vals && v.fd == fd && v.offset == s.offset && v.vaddr == Wrap(s.vaddr + base)
      && s.memsz <= v.memsz && RoundUp(v.memsz, page) == RoundUp(s.memsz, page)
  }

  lemma {:induction false} WantedHas(segments: seq<LibSegment>, fd: int, base: nat, i: nat)
    requires i < |segments| && !segments[i].seg.writable && segments[i].seg.filesz != 0
    ensures var s := segments[i].seg;
      Mapping(fd, s.offset, Wrap(s.vaddr + base), s.memsz) in Wanted(segments, fd, base)
  {
    hide Wrap;
    if i < |segments| - 1 {
      WantedHas(segments[..|segments| - 1], fd, base, i);
    }
  }

  /** The link-map loop gets to the `i`-th link. */
  ghost predicate Walked(links: seq<Link>, at: nat, i: nat)
    decreases i
  {
    && i < |links| && at != 0
    && (i > 0 ==> links[0].next.Got? && Walked(links[1..], links[0].next.value, i - 1))
  }

  lemma {:induction false} WantedLinksHave(links: seq<Link>, at: nat, i: nat, w: Mapping)
    requires Walked(links, at, i) && w in WantedLink(links[i])
    ensures w in WantedLinks(links, at)
    decreases i
  {
    hide WantedLink;
    if i > 0 {
      WantedLinksHave(links[1..], links[0].next.value, i - 1, w);
    }
  }

  /** The base of every library that a successful run gets to has been read. */
  lemma {:induction false} WalkedGot(script: Script, run: Script, page: nat, i: nat)
    requires page > 0 && IsRun(script, run, page) && Grabbed(run, page).Some?
    requires script.linkMap.Got? && Walked(script.links, script.linkMap.value, i)
    ensures script.links[i].base.Got?
  {
    hide WithLib, WithLinks, SearchedLibs, OwnMaps, LeadsToDebug;
    var v := WithLib(OwnMaps(run), run.interp, INTERP_FD, run.ldBase.value, page).value;
    LinksGot(v, script.links, run.links, run.linkMap.value, page, i);
  }

  lemma {:induction false} LinksGot(vals: seq<Mapping>, links: seq<Link>, links': seq<Link>, at: nat, page: nat, i: nat)
    requires page > 0 && WithLinks(vals, links', at, page).Some? && Walked(links, at, i)
    requires |links'| == |links| && forall j :: 0 <= j < |links| ==> SameLink(links[j], links'[j])
    ensures links[i].base.Got?
    decreases i
  {
    hide WithLib;
    assert SameLink(links[0], links'[0]);
    if i > 0 {
      LinksGot(WithLink(vals, links'[0], page).value, links[1..], links'[1..], links[0].next.value, page, i - 1);
    }
  }

  lemma {:induction false} BackedIsMapped(vals: seq<Mapping>, own: seq<Mapping>, done: seq<Mapping>, fd: int,
                                          s: Segment, base: nat, page: nat)
    requires page > 0 && Placed(vals, own, done, page)
    requires Mapping(fd, s.offset, Wrap(s.vaddr + base), s.memsz) in done
    ensures HasMap(vals, fd, s, base, page)
  {
    hide RoundUp, Wrap, PagesApart;
    var d := Mapping(fd, s.offset, Wrap(s.vaddr + base), s.memsz);
    var v :| v in vals && Backs(v, d, page);
  }

  /** Every text segment of the interpreter is mapped in the end. */
  lemma {:induction false} InterpMapped(script: Script, run: Script, page: nat, i: nat)
    requires page > 0 && IsRun(script, run, page) && GoodLayout(script, page) && Grabbed(run, page).Some?
    requires i < |script.interp| && !script.interp[i].seg.writable && script.interp[i].seg.filesz != 0
    ensures script.ldBase.Got?
    ensures HasMap(Grabbed(run, page).value, INTERP_FD, script.interp[i].seg, script.ldBase.value, page)
  {
    hide Layout, FoundFirst, Placed, PagesApart, SearchedLibs, OwnMaps, Wanted, WantedLinks, LeadsToDebug, GoodLayout,
         WithLib, WithLinks;
    LayoutSame(script, run, page);
    RunPlaced(run, page);
    WantedHas(script.interp, INTERP_FD, script.ldBase.value, i);
    BackedIsMapped(Grabbed(run, page).value, OwnMaps(run), WantedBy(run), INTERP_FD, script.interp[i].seg,
                   script.ldBase.value, page);
  }

  /** So is every text segment of every library that the link map names and that can be opened. */
  lemma {:induction false} LibraryMapped(script: Script, run: Script, page: nat, i: nat, j: nat)
    requires page > 0 && IsRun(script, run, page) && GoodLayout(script, page) && Grabbed(run, page).Some?
    requires script.linkMap.Got? && Walked(script.links, script.linkMap.value, i)
    requires var link := script.links[i];
      && link.named && link.found && link.elf
      && j < |link.segments| && !link.segments[j].seg.writable && link.segments[j].seg.filesz != 0
    ensures script.links[i].base.Got?
    ensures var link := script.links[i];
      HasMap(Grabbed(run, page).value, link.fd, link.segments[j].seg, link.base.value, page)
  {
    hide Layout, FoundFirst, Placed, PagesApart, SearchedLibs, OwnMaps, Wanted, WantedLinks, LeadsToDebug, GoodLayout,
         WithLib, WithLinks;
    var link := script.links[i];
    var s := link.segments[j].seg;
    LayoutSame(script, run, page);
    RunPlaced(run, page);
    WalkedGot(script, run, page, i);
    hide Walked;
    WantedHas(link.segments, link.fd, link.base.value, j);
    var w := Mapping(link.fd, s.offset, Wrap(s.vaddr + link.base.value), s.memsz);
    WantedLinksHave(script.links, script.linkMap.value, i, w);
    BackedIsMapped(Grabbed(run, page).value, OwnMaps(run), WantedBy(run), link.fd, s, link.base.value, page);
  }

  /** A segment of the core file keeps its map, unless a library segment lies at its address. */
  lemma {:induction false} CoreSegmentMapped(script: Script, run: Script, page: nat, s: Segment)
    requires page > 0 && IsRun(script, run, page) && GoodLayout(script, page) && Grabbed(run, page).Some?
    requires s in script.core && s.filesz != 0 && !StartsAt(WantedBy(script), s.vaddr)
    ensures Mapping(CORE_FD, s.offset, s.vaddr, s.filesz) in Grabbed(run, page).value
  {
    hide Layout, FoundFirst, PagesApart, SearchedLibs, WantedBy, Mapped, GoodLayout, Grabbed, StartsAt;
    LayoutSame(script, run, page);
    RunPlaced(run, page);
    var m := Mapping(CORE_FD, s.offset, s.vaddr, s.filesz);
    assert MapsFile(m, script.core, false, CORE_FD);
    MappedFrom(script.core, false, CORE_FD, m);
    assert m in OwnMaps(script);
  }

  // ----- what is read -----

  lemma {:induction false} ShownMap(list: seq<MapInfo>, vals: seq<Mapping>, m: Mapping) returns (x: MapInfo)
    requires Shows(list, vals) && m in vals
    ensures x in list && x.fd == m.fd && x.offset == m.offset && x.vaddr == m.vaddr && x.memsz == m.memsz
  {
    var i :| 0 <= i < |vals| && vals[i] == m;
    x := list[i];
  }

  /** Reading inside a map succeeds, and gives the bytes of the file behind it. */
  lemma {:induction false} ReadsMap(s: seq<MapInfo>, x: MapInfo, files: CoreRead.Files, page: nat, i: nat, n: nat,
                                    b: Byte)
    requires page > 0 && CoreRead.PagesDisjoint(s, page) && x in s && 0 < n && i + n <= x.memsz
    ensures CoreRead.Readable(s, x.vaddr + i, n, page)
    ensures CoreRead.IsByte(s, files, x.vaddr + i, page, b) ==> b == files(x.fd, x.offset + i)
  {
    hide CoreRead.PagesDisjoint;
    assert x.Holds(x.vaddr + i);
    forall a | x.vaddr + i <= a < x.vaddr + i + n ensures CoreRead.Mapped(s, a, page) {
      assert x.Holds(a);
    }
    if CoreRead.IsByte(s, files, x.vaddr + i, page, b) {
      assert CoreRead.IsByte(s, files, x.vaddr + i, page, files(x.fd, x.offset + i));
      CoreRead.OneByte(s, files, x.vaddr + i, page, b, files(x.fd, x.offset + i));
    }
  }

  /** What an opened core file is: the maps of a successful run on a good layout. */
  ghost predicate Opened(core: CoreReader, script: Script, run: Script, page: nat)
    reads core, core.maps, core.classShareMaps
  {
    && page > 0 && IsRun(script, run, page) && GoodLayout(script, page)
    && Grabbed(run, page).Some? && SharedMaps(script.sharing).Some?
    && core.InSync() && Shows(core.maps, Grabbed(run, page).value)
    && Shows(core.classShareMaps, SharedMaps(script.sharing).value)
  }

  /**
   Any part of a dumped segment can be read back: reading it succeeds, and the byte at address p_vaddr + i is the byte
   of the core file at offset p_offset + i, unless a library segment lies at the address of the segment.
   */
  lemma {:induction false} DumpReadsBack(core: CoreReader, script: Script, run: Script, page: nat, s: Segment, i: nat,
                                         n: nat, files: CoreRead.Files, b: Byte)
    requires Opened(core, script, run, page) && s in script.core && !StartsAt(WantedBy(script), s.vaddr)
    requires 0 < n && i + n <= s.filesz
    ensures CoreRead.Readable(CoreRead.AllMaps(core), s.vaddr + i, n, page)
    ensures CoreRead.IsByte(CoreRead.AllMaps(core), files, s.vaddr + i, page, b) ==> b == files(CORE_FD, s.offset + i)
  {
    hide GoodLayout, Grabbed, IsRun, Shows, WantedBy, StartsAt, CoreRead.PagesDisjoint, CoreRead.Readable,
         CoreRead.IsByte, SharedMaps;
    OpenedCanBeRead(core, script, run, page);
    CoreSegmentMapped(script, run, page, s);
    var x := ShownMap(core.maps, Grabbed(run, page).value, Mapping(CORE_FD, s.offset, s.vaddr, s.filesz));
    ReadsMap(CoreRead.AllMaps(core), x, files, page, i, n, b);
  }

  /** The same of the text of a library: the bytes come from the library's file. */
  lemma {:induction false} TextReadsBack(core: CoreReader, script: Script, run: Script, page: nat, k: nat, j: nat,
                                         i: nat, n: nat, files: CoreRead.Files, b: Byte)
    requires Opened(core, script, run, page)
    requires script.linkMap.Got? && Walked(script.links, script.linkMap.value, k)
    requires var link := script.links[k];
      && link.named && link.found && link.elf
      && j < |link.segments| && !link.segments[j].seg.writable && link.segments[j].seg.filesz != 0
      && 0 < n && i + n <= link.segments[j].seg.memsz
    ensures script.links[k].base.Got?
    ensures var link, all := script.links[k], CoreRead.AllMaps(core);
      var s := link.segments[j].seg;
      var a := Wrap(s.vaddr + link.base.value) + i;
      && CoreRead.Readable(all, a, n, page)
      && (CoreRead.IsByte(all, files, a, page, b) ==> b == files(link.fd, s.offset + i))
  {
    hide GoodLayout, Grabbed, IsRun, Shows, WantedBy, StartsAt, CoreRead.PagesDisjoint, CoreRead.Readable,
         CoreRead.IsByte, SharedMaps;
    OpenedCanBeRead(core, script, run, page);
    LibraryMapped(script, run, page, k, j);
    var vals := Grabbed(run, page).value;
    var link := script.links[k];
    var s := link.segments[j].seg;
    var m :| m in vals && m.fd == link.fd && m.offset == s.offset && m.vaddr == Wrap(s.vaddr + link.base.value)
             && s.memsz <= m.memsz;
    var x := ShownMap(core.maps, vals, m);
    ReadsMap(CoreRead.AllMaps(core), x, files, page, i, n, b);
  }

  /** With class sharing, the read-only spaces of the archive are read from the archive. */
  lemma {:induction false} SharedReadsBack(core: CoreReader, script: Script, run: Script, page: nat, s: Space, i: nat,
                                           n: nat, files: CoreRead.Files, b: Byte)
    requires Opened(core, script, run, page) && 0 < n && i + n <= s.used
    requires var sh := script.sharing;
      && sh.hasJvm && sh.flag.Got? && sh.flag.value != 0 && sh.archive.Some? && s in sh.archive.value && s.readOnly
    ensures CoreRead.Readable(CoreRead.AllMaps(core), s.base + i, n, page)
    ensures CoreRead.IsByte(CoreRead.AllMaps(core), files, s.base + i, page, b) ==> b == files(SHARE_FD, s.offset + i)
  {
    hide GoodLayout, Grabbed, IsRun, Shows, WantedBy, StartsAt, CoreRead.PagesDisjoint, CoreRead.Readable,
         CoreRead.IsByte, SharedSpaces, PathEnds;
    OpenedCanBeRead(core, script, run, page);
    var m := Mapping(SHARE_FD, s.offset, s.base, s.used);
    SharedFrom(script.sharing.archive.value, m);
    var x := ShownMap(core.classShareMaps, SharedMaps(script.sharing).value, m);
    ReadsMap(CoreRead.AllMaps(core), x, files, page, i, n, b);
  }

  /** Behind a dumped segment, up to the end of its last page, zeros are read. */
  lemma {:induction false} DumpTailIsZero(core: CoreReader, script: Script, run: Script, page: nat, s: Segment,
                                          a: nat, files: CoreRead.Files, b: Byte)
    requires Opened(core, script, run, page) && s in script.core && !StartsAt(WantedBy(script), s.vaddr)
    requires s.filesz != 0 && s.vaddr + s.filesz <= a < s.vaddr + RoundUp(s.filesz, page)
    requires CoreRead.IsByte(CoreRead.AllMaps(core), files, a, page, b)
    ensures b == 0
  {
    OpenedCanBeRead(core, script, run, page);
    hide GoodLayout, Grabbed, IsRun, Shows, WantedBy, StartsAt, CoreRead.PagesDisjoint, SharedMaps, RoundUp;
    CoreSegmentMapped(script, run, page, s);
    var x := ShownMap(core.maps, Grabbed(run, page).value, Mapping(CORE_FD, s.offset, s.vaddr, s.filesz));
    assert x in CoreRead.AllMaps(core) && CoreRead.InTail(x, a, page);
    assert CoreRead.IsByte(CoreRead.AllMaps(core), files, a, page, 0);
    CoreRead.OneByte(CoreRead.AllMaps(core), files, a, page, b, 0);
  }

  /** The address lies in the pages of a dumped segment that no library segment replaces. */
  ghost predicate Dumped(script: Script, a: nat, page: nat)
    requires page > 0
  {
    exists s ::
      && s in script.core && s.filesz != 0 && !StartsAt(WantedBy(script), s.vaddr)
      && s.vaddr <= a < s.vaddr + RoundUp(s.filesz, page)
  }

  /** A read that starts inside a dumped segment and stays in pages of such segments succeeds. */
  lemma {:induction false} DumpReadable(core: CoreReader, script: Script, run: Script, page: nat, s: Segment, i: nat,
                                        n: nat)
    requires Opened(core, script, run, page) && s in script.core && !StartsAt(WantedBy(script), s.vaddr)
    requires i < s.filesz && forall a :: s.vaddr + i <= a < s.vaddr + i + n ==> Dumped(script, a, page)
    ensures CoreRead.Readable(CoreRead.AllMaps(core), s.vaddr + i, n, page)
  {
    hide GoodLayout, Grabbed, IsRun, Shows, WantedBy, StartsAt, SharedMaps, RoundUp;
    var all := CoreRead.AllMaps(core);
    CoreSegmentMapped(script, run, page, s);
    var x := ShownMap(core.maps, Grabbed(run, page).value, Mapping(CORE_FD, s.offset, s.vaddr, s.filesz));
    assert x in all && x.Holds(s.vaddr + i);
    forall a | s.vaddr + i <= a < s.vaddr + i + n ensures CoreRead.Mapped(all, a, page) {
      assert Dumped(script, a, page);
      var d :| d in script.core && d.filesz != 0 && !StartsAt(WantedBy(script), d.vaddr)
               && d.vaddr <= a < d.vaddr + RoundUp(d.filesz, page);
      CoreSegmentMapped(script, run, page, d);
      var y := ShownMap(core.maps, Grabbed(run, page).value, Mapping(CORE_FD, d.offset, d.vaddr, d.filesz));
      assert y in all && (y.Holds(a) || CoreRead.InTail(y, a, page));
    }
  }
}
