/**
 The note segment of a core file (ps_core.c: core_handle_note, core_handle_prstatus; libproc_impl.c:
 add_thread_info). Numbers are little-endian; the layout of prstatus_t is a parameter.
 */
module CoreNotes {
  import opened Basics

  const NT_PRSTATUS: nat := 1
  const NT_AUXV: nat := 6
  const AT_NULL: nat := 0
  const AT_ENTRY: nat := 9

  // ----- numbers -----

  function Bytes4(x: nat): (b: seq<Byte>)
    ensures |b| == 4
  {
    [x % 256, x / 256 % 256, x / 65536 % 256, x / 16777216 % 256]
  }

  function Bytes8(x: nat): (b: seq<Byte>)
    ensures |b| == 8
  {
    Bytes4(x % TWO32) + Bytes4(x / TWO32)
  }

  function Get4(b: seq<Byte>, i: nat): nat
    requires i + 4 <= |b|
  {
    var b0: int, b1: int, b2: int, b3: int := b[i], b[i + 1], b[i + 2], b[i + 3];
    b0 + b1 * 256 + b2 * 65536 + b3 * 16777216
  }

  function Get8(b: seq<Byte>, i: nat): nat
    requires i + 8 <= |b|
  {
    Get4(b, i) + Get4(b, i + 4) * TWO32
  }

  lemma {:induction false} Get4Bytes4(x: nat)
    requires x < TWO32
    ensures Get4(Bytes4(x), 0) == x
  {
    var q := x / 256;
    var r := q / 256;
    var t := r / 256;
    assert x / 65536 == r && x / 16777216 == t && t < 256;
    assert x == q * 256 + x % 256 && q == r * 256 + q % 256 && r == t * 256 + r % 256;
  }

  lemma {:induction false} Get8Bytes8(x: nat)
    requires x < TWO64
    ensures Get8(Bytes8(x), 0) == x
  {
    Get4Bytes4(x % TWO32);
    Get4Bytes4(x / TWO32);
  }

  // ----- notes -----

  /** A note, with the bytes that pad its name and its description to a multiple of four. */
  datatype Note = Note(kind: nat, name: seq<Byte>, namePad: seq<Byte>, desc: seq<Byte>, descPad: seq<Byte>)

  predicate Padded(data: seq<Byte>, pad: seq<Byte>) {
    |pad| < 4 && (|data| + |pad|) % 4 == 0
  }

  function RoundUp4(x: nat): nat {
    (x + 3) / 4 * 4
  }

  lemma {:induction false} PaddedLength(data: seq<Byte>, pad: seq<Byte>)
    requires Padded(data, pad)
    ensures |data| + |pad| == RoundUp4(|data|)
  {
  }

  function NoteBytes(n: Note): seq<Byte> {
    Bytes4(|n.name|) + Bytes4(|n.desc|) + Bytes4(n.kind) + (n.name + n.namePad) + (n.desc + n.descPad)
  }

  /** A note in the file: two sizes and the kind, little-endian, then name and descriptor, each filled to words. */
  lemma {:induction false} KnownNote()
    ensures NoteBytes(Note(1, [67, 79, 82, 69, 0], [0, 0, 0], [7, 2], [0, 0])) ==
      [5, 0, 0, 0,  2, 0, 0, 0,  1, 0, 0, 0,  67, 79, 82, 69, 0, 0, 0, 0,  7, 2, 0, 0]
    ensures Bytes8(0x0102_0304_0506_0708) == [8, 7, 6, 5, 4, 3, 2, 1]
  {
    assert Bytes4(5) == [5, 0, 0, 0] && Bytes4(2) == [2, 0, 0, 0] && Bytes4(1) == [1, 0, 0, 0];
    assert Bytes4(0x0506_0708) == [8, 7, 6, 5] && Bytes4(0x0102_0304) == [4, 3, 2, 1];
  }

  function Layout(notes: seq<Note>): seq<Byte> {
    if notes == [] then [] else NoteBytes(notes[0]) + Layout(notes[1..])
  }

  // ----- what the notes say -----

  /** Where prstatus_t keeps the thread id and the registers. */
  datatype Prstatus = Prstatus(pid: nat, regs: nat, regsSize: nat)

  datatype Thread = Thread(lwp: nat, regs: seq<Byte>)

  /** The first AT_ENTRY among the pairs from index `i` on, before AT_NULL; none if they run out. */
  function EntryFrom(desc: seq<Byte>, i: nat): Option<nat>
    decreases |desc| - i
  {
    if i + 16 > |desc| then None
    else
      var t := Get8(desc, i);
      if t == AT_NULL then None
      else if t == AT_ENTRY then Some(Get8(desc, i + 8))
      else EntryFrom(desc, i + 16)
  }

  /** Following the pairs from index `i` on, AT_NULL or AT_ENTRY is met. */
  predicate Ends(desc: seq<Byte>, i: nat)
    decreases |desc| - i
  {
    i + 16 <= |desc| && (Get8(desc, i) == AT_NULL || Get8(desc, i) == AT_ENTRY || Ends(desc, i + 16))
  }

  /** What the walker relies on. */
  predicate WellFormed(n: Note, layout: Prstatus) {
    && |n.name| < TWO32 && |n.desc| < TWO32 && n.kind < TWO32
    && Padded(n.name, n.namePad) && Padded(n.desc, n.descPad)
    && (n.kind == NT_PRSTATUS ==> layout.pid + 4 <= |n.desc| && layout.regs + layout.regsSize <= |n.desc|)
    && (n.kind == NT_AUXV ==> Ends(n.desc, 0))
  }

  function ThreadOf(desc: seq<Byte>, layout: Prstatus): Thread
    requires layout.pid + 4 <= |desc| && layout.regs + layout.regsSize <= |desc|
  {
    Thread(Get4(desc, layout.pid), desc[layout.regs..layout.regs + layout.regsSize])
  }

  predicate AllWellFormed(notes: seq<Note>, layout: Prstatus) {
    forall i :: 0 <= i < |notes| ==> WellFormed(notes[i], layout)
  }

  /** One thread per NT_PRSTATUS note, the last note first. */
  function ThreadsOf(notes: seq<Note>, layout: Prstatus): seq<Thread>
    requires AllWellFormed(notes, layout)
  {
    if notes == [] then []
    else
      var n := notes[|notes| - 1];
      var before := ThreadsOf(notes[..|notes| - 1], layout);
      if n.kind == NT_PRSTATUS then [ThreadOf(n.desc, layout)] + before else before
  }

  /** AT_ENTRY of the last auxiliary vector that has one, or else the value from before. */
  function EntryAfter(notes: seq<Note>, entry: nat): nat {
    if notes == [] then entry
    else
      var n := notes[|notes| - 1];
      if n.kind == NT_AUXV && EntryFrom(n.desc, 0).Some? then EntryFrom(n.desc, 0).value
      else EntryAfter(notes[..|notes| - 1], entry)
  }

  /** What the walker reads of a note in the buffer: its kind and its description. */
  datatype Seen = Seen(kind: nat, desc: seq<Byte>)

  function Contents(notes: seq<Note>): seq<Seen> {
    if notes == [] then []
    else Contents(notes[..|notes| - 1]) + [Seen(notes[|notes| - 1].kind, notes[|notes| - 1].desc)]
  }

  // ----- the handle -----

  class ProcHandle {
    var threads: seq<Thread>
    var numThreads: nat
    var dynamicAddr: nat

    constructor ()
      ensures threads == [] && numThreads == 0 && dynamicAddr == 0
    {
      threads, numThreads, dynamicAddr := [], 0, 0;
    }

    /** add_thread_info: at the head of the list. */
    method AddThreadInfo(t: Thread)
      modifies `threads, `numThreads
      ensures threads == [t] + old(threads) && numThreads == old(numThreads) + 1
    {
      threads := [t] + threads;
      numThreads := numThreads + 1;
    }

    /** Sets the entry point if the auxiliary vector has one. */
    method HandleAuxv(buf: seq<Byte>, at: nat, ghost desc: seq<Byte>)
      requires at + |desc| <= |buf| && buf[at..at + |desc|] == desc && Ends(desc, 0)
      modifies `dynamicAddr
      ensures dynamicAddr == if EntryFrom(desc, 0).Some? then EntryFrom(desc, 0).value else old(dynamicAddr)
    {
      var i := at;
      while Get8(buf, i) != AT_NULL
        invariant at <= i && Ends(desc, i - at) && i + 16 <= |buf| && Get8(buf, i) == Get8(desc, i - at)
        invariant EntryFrom(desc, 0) == EntryFrom(desc, i - at)
        invariant dynamicAddr == old(dynamicAddr)
        decreases at + |desc| - i
      {
        if Get8(buf, i) == AT_ENTRY {
          dynamicAddr := Get8(buf, i + 8);
          break;
        }
        i := i + 16;
      }
    }

    /** core_handle_note on a buffer that holds the notes; `visited` is what it reads, in order. */
    method HandleNote(buf: seq<Byte>, layout: Prstatus, ghost notes: seq<Note>) returns (visited: seq<Seen>)
      requires buf == Layout(notes) && AllWellFormed(notes, layout)
      modifies this
      ensures visited == Contents(notes)
      ensures threads == ThreadsOf(notes, layout) + old(threads)
      ensures numThreads == old(numThreads) + |ThreadsOf(notes, layout)|
      ensures dynamicAddr == EntryAfter(notes, old(dynamicAddr))
    {
      hide Layout, NoteBytes, WellFormed;
      var p := 0;
      visited := [];
      ghost var k := 0;
      assert buf[0..] == buf && notes[0..] == notes && notes[..0] == [];
      while p < |buf|
        invariant 0 <= k <= |notes| && p <= |buf| && buf[p..] == Layout(notes[k..])
        invariant visited == Contents(notes[..k])
        invariant threads == ThreadsOf(notes[..k], layout) + old(threads)
        invariant numThreads == old(numThreads) + |ThreadsOf(notes[..k], layout)|
        invariant dynamicAddr == EntryAfter(notes[..k], old(dynamicAddr))
        decreases |buf| - p
      {
        MoreNotes(buf, p, notes, k);
        var seen;
        p, seen := HandleOne(buf, p, layout, notes, k);
        assert notes[..k + 1][..k] == notes[..k];
        visited, k := visited + [seen], k + 1;
      }
      LayoutEmpty(notes[k..]);
      assert notes[..k] == notes;
    }

    /** One turn of the loop. */
    method HandleOne(buf: seq<Byte>, p: nat, layout: Prstatus, ghost notes: seq<Note>, ghost k: nat)
      returns (p': nat, seen: Seen)
      requires p < |buf| && k < |notes| && buf[p..] == Layout(notes[k..]) && WellFormed(notes[k], layout)
      modifies this
      ensures p < p' <= |buf| && buf[p'..] == Layout(notes[k + 1..])
      ensures seen == Seen(notes[k].kind, notes[k].desc)
      ensures var n := notes[k];
        && threads == (if n.kind == NT_PRSTATUS then [ThreadOf(n.desc, layout)] else []) + old(threads)
        && numThreads == old(numThreads) + (if n.kind == NT_PRSTATUS then 1 else 0)
        && dynamicAddr ==
           if n.kind == NT_AUXV && EntryFrom(n.desc, 0).Some? then EntryFrom(n.desc, 0).value else old(dynamicAddr)
    {
      hide Layout, NoteBytes, Get4, Ends, EntryFrom;
      ghost var n := notes[k];
      NoteAt(buf, p, notes, k);
      var namesz, descsz, kind := Get4(buf, p), Get4(buf, p + 4), Get4(buf, p + 8);
      var descdata := p + 12 + RoundUp4(namesz);
      if kind == NT_PRSTATUS {
        DescAt(buf, descdata, n.desc, layout);
        AddThreadInfo(Thread(Get4(buf, descdata + layout.pid),
                             buf[descdata + layout.regs..descdata + layout.regs + layout.regsSize]));
      } else if kind == NT_AUXV {
        HandleAuxv(buf, descdata, n.desc);
      }
      p', seen := descdata + RoundUp4(descsz), Seen(kind, buf[descdata..descdata + descsz]);
    }
  }

  lemma {:induction false} MoreNotes(buf: seq<Byte>, p: nat, notes: seq<Note>, k: nat)
    requires p < |buf| && k <= |notes| && buf[p..] == Layout(notes[k..])
    ensures k < |notes|
  {
    assert |buf[p..]| > 0;
  }

  lemma {:induction false} LayoutEmpty(notes: seq<Note>)
    requires Layout(notes) == []
    ensures notes == []
  {
  }

  /** The numbers and the description found where a note starts. */
  lemma {:induction false} NoteAt(buf: seq<Byte>, p: nat, notes: seq<Note>, k: nat)
    requires p < |buf| && k < |notes| && buf[p..] == Layout(notes[k..])
    requires |notes[k].name| < TWO32 && |notes[k].desc| < TWO32 && notes[k].kind < TWO32
    requires Padded(notes[k].name, notes[k].namePad) && Padded(notes[k].desc, notes[k].descPad)
    ensures p + |NoteBytes(notes[k])| <= |buf|
    ensures var n := notes[k];
      var at := p + 12 + RoundUp4(|n.name|);
      && Get4(buf, p) == |n.name| && Get4(buf, p + 4) == |n.desc| && Get4(buf, p + 8) == n.kind
      && at + RoundUp4(|n.desc|) <= |buf| && at + |n.desc| <= |buf| && buf[at..at + |n.desc|] == n.desc
      && buf[at + RoundUp4(|n.desc|)..] == Layout(notes[k + 1..])
  {
    var n := notes[k];
    var rest := notes[k..];
    assert rest[0] == n && rest[1..] == notes[k + 1..];
    var head := NoteBytes(n);
    PaddedLength(n.name, n.namePad);
    PaddedLength(n.desc, n.descPad);
    assert buf[p..] == head + Layout(notes[k + 1..]);
    forall i | 0 <= i < |head| ensures buf[p + i] == head[i] {
      assert buf[p..][i] == (head + Layout(notes[k + 1..]))[i];
    }
    Get4Bytes4(|n.name|);
    Get4Bytes4(|n.desc|);
    Get4Bytes4(n.kind);
    HeadParts(n);
    hide NoteBytes, Bytes4, Layout;
    var at := 12 + RoundUp4(|n.name|);
    assert buf[p + at..p + at + |n.desc|] == n.desc;
    assert buf[p + |head|..] == buf[p..][|head|..];
  }

  /** The parts of a note in its bytes. */
  lemma {:induction false} HeadParts(n: Note)
    ensures var b := NoteBytes(n);
      && |b| == 12 + |n.name| + |n.namePad| + |n.desc| + |n.descPad|
      && b[0..4] == Bytes4(|n.name|) && b[4..8] == Bytes4(|n.desc|) && b[8..12] == Bytes4(n.kind)
      && var at := 12 + |n.name| + |n.namePad|;
         b[at..at + |n.desc|] == n.desc
  {
  }

  lemma {:induction false} DescAt(buf: seq<Byte>, at: nat, desc: seq<Byte>, layout: Prstatus)
    requires at + |desc| <= |buf| && buf[at..at + |desc|] == desc
    requires layout.pid + 4 <= |desc| && layout.regs + layout.regsSize <= |desc|
    ensures Thread(Get4(buf, at + layout.pid), buf[at + layout.regs..at + layout.regs + layout.regsSize]) ==
      ThreadOf(desc, layout)
  {
    forall i | 0 <= i < |desc| ensures buf[at + i] == desc[i] {
      assert buf[at..at + |desc|][i] == desc[i];
    }
    Get4Same(buf, at, desc, layout.pid);
    hide Get4;
    var lo, hi := layout.regs, layout.regs + layout.regsSize;
    assert buf[at + lo..at + hi] == desc[lo..hi];
  }

  lemma {:induction false} Get4Same(buf: seq<Byte>, at: nat, desc: seq<Byte>, p: nat)
    requires at + |desc| <= |buf| && p + 4 <= |desc|
    requires forall i :: 0 <= i < |desc| ==> buf[at + i] == desc[i]
    ensures Get4(buf, at + p) == Get4(desc, p)
  {
    assert buf[at + p] == desc[p] && buf[at + (p + 1)] == desc[p + 1];
    assert buf[at + (p + 2)] == desc[p + 2] && buf[at + (p + 3)] == desc[p + 3];
  }

  // ----- auxiliary vectors -----

  datatype Aux = Aux(kind: nat, value: nat)

  /** The bytes of an auxiliary vector: pairs, closed by AT_NULL. */
  function AuxBytes(v: seq<Aux>): seq<Byte> {
    if v == [] then Bytes8(0) + Bytes8(0) else Bytes8(v[0].kind) + Bytes8(v[0].value) + AuxBytes(v[1..])
  }

  predicate AuxFits(v: seq<Aux>) {
    forall i :: 0 <= i < |v| ==> 0 < v[i].kind < TWO64 && v[i].value < TWO64
  }

  /** The first pair of kind 9, the entry point. */
  function FirstEntry(v: seq<Aux>): Option<nat> {
    if v == [] then None else if v[0].kind == 9 then Some(v[0].value) else FirstEntry(v[1..])
  }

  /** Every auxiliary vector is read back: it ends, and its first AT_ENTRY is found. */
  lemma {:induction false} AuxRoundTrip(v: seq<Aux>, before: seq<Byte>)
    requires AuxFits(v)
    ensures Ends(before + AuxBytes(v), |before|) && EntryFrom(before + AuxBytes(v), |before|) == FirstEntry(v)
    decreases |v|
  {
    var b := before + AuxBytes(v);
    var i := |before|;
    var kind, value := if v == [] then AT_NULL else v[0].kind, if v == [] then 0 else v[0].value;
    var pair := Bytes8(kind) + Bytes8(value);
    var rest := if v == [] then [] else AuxBytes(v[1..]);
    assert b == before + pair + rest;
    GetPair(before, kind, value, rest);
    if v != [] {
      AuxRoundTrip(v[1..], before + pair);
    }
  }

  lemma {:induction false} GetPair(before: seq<Byte>, kind: nat, value: nat, rest: seq<Byte>)
    requires kind < TWO64 && value < TWO64
    ensures var b := before + (Bytes8(kind) + Bytes8(value)) + rest;
      Get8(b, |before|) == kind && Get8(b, |before| + 8) == value
  {
    Get8Bytes8(kind);
    Get8Bytes8(value);
    var b := before + (Bytes8(kind) + Bytes8(value)) + rest;
    var x, y := Bytes8(kind), Bytes8(value);
    hide Bytes8;
    assert forall i :: 0 <= i < 8 ==> b[|before| + i] == x[i] && b[|before| + 8 + i] == y[i];
  }

  // ----- what the handle holds after all notes -----

  /** How many notes describe a thread (kind 1). */
  function ThreadNotes(notes: seq<Note>): nat {
    if notes == [] then 0
    else ThreadNotes(notes[..|notes| - 1]) + if notes[|notes| - 1].kind == 1 then 1 else 0
  }

  /**
   Every note of kind 1 is a thread of the list, which has as many threads before it as such notes come after; its id
   and its registers are those in the description.
   */
  lemma {:induction false} ThreadOfNote(notes: seq<Note>, layout: Prstatus, i: nat, id: nat)
    requires AllWellFormed(notes, layout) && i < |notes| && notes[i].kind == 1
    requires id < TWO32 && layout.pid + 4 <= |notes[i].desc|
    requires notes[i].desc[layout.pid..layout.pid + 4] == Bytes4(id)
    ensures var k := ThreadNotes(notes[i + 1..]);
      && layout.regs + layout.regsSize <= |notes[i].desc| && k < |ThreadsOf(notes, layout)| == ThreadNotes(notes)
      && ThreadsOf(notes, layout)[k] ==
         Thread(id, notes[i].desc[layout.regs..layout.regs + layout.regsSize])
    decreases |notes|
  {
    var n := |notes| - 1;
    ThreadCount(notes, layout);
    if i == n {
      assert notes[i + 1..] == [];
      assert WellFormed(notes[i], layout);
      IdReadBack(notes[i].desc, layout.pid, id);
    } else {
      ThreadOfNote(notes[..n], layout, i, id);
      assert notes[i + 1..][..|notes[i + 1..]| - 1] == notes[..n][i + 1..];
    }
  }

  lemma {:induction false} ThreadCount(notes: seq<Note>, layout: Prstatus)
    requires AllWellFormed(notes, layout)
    ensures |ThreadsOf(notes, layout)| == ThreadNotes(notes)
  {
    hide ThreadOf;
    if notes != [] {
      ThreadCount(notes[..|notes| - 1], layout);
    }
  }

  lemma {:induction false} IdReadBack(desc: seq<Byte>, p: nat, id: nat)
    requires id < TWO32 && p + 4 <= |desc| && desc[p..p + 4] == Bytes4(id)
    ensures Get4(desc, p) == id
  {
    Get4Bytes4(id);
    var b := Bytes4(id);
    hide Bytes4;
    assert desc[p] == b[0] && desc[p + 1] == b[1] && desc[p + 2] == b[2] && desc[p + 3] == b[3];
  }

  /** The entry point is that of the last auxiliary vector (kind 6) that has one, or the one from before. */
  lemma {:induction false} EntryOfNotes(notes: seq<Note>, entry: nat, vs: seq<seq<Aux>>)
    requires |vs| == |notes|
    requires forall i :: 0 <= i < |notes| && notes[i].kind == 6 ==> AuxFits(vs[i]) && notes[i].desc == AuxBytes(vs[i])
    ensures EntryAfter(notes, entry) == LastEntry(notes, vs, entry)
  {
    if notes != [] {
      var n := |notes| - 1;
      EntryOfNotes(notes[..n], entry, vs[..n]);
      if notes[n].kind == 6 {
        AuxRoundTrip(vs[n], []);
        assert [] + AuxBytes(vs[n]) == notes[n].desc;
      }
    }
  }

  /** Going back from the last note to one of kind 6 whose vector has an entry. */
  function LastEntry(notes: seq<Note>, vs: seq<seq<Aux>>, entry: nat): nat
    requires |vs| == |notes|
  {
    if notes == [] then entry
    else
      var n := |notes| - 1;
      if notes[n].kind == 6 && FirstEntry(vs[n]).Some? then FirstEntry(vs[n]).value
      else LastEntry(notes[..n], vs[..n], entry)
  }
}
