/** Reading the memory of a live process in whole words (ps_proc.c, process_read_data). */
module ProcRead {
  import opened Basics

  const WORD: nat := 8

  /** The target: its bytes, and which aligned words can be peeked. */
  datatype Target = Target(mem: nat -> Byte, readable: nat -> bool)

  function Align(a: nat): nat {
    a / WORD * WORD
  }

  /**
   The word at an aligned address meets the range. Around an empty range at an unaligned address that is
   the word it lies in, which is peeked as well.
   */
  predicate Meets(w: nat, addr: nat, size: nat) {
    w % WORD == 0 && w < addr + size && addr < w + WORD
  }

  /** PTRACE_PEEKDATA: the bytes of one word, or an error. */
  method Peek(t: Target, w: nat, ghost peeked: set<nat>) returns (ok: bool, bytes: seq<Byte>, ghost peeked': set<nat>)
    requires w % WORD == 0
    ensures ok == t.readable(w) && peeked' == peeked + {w}
    ensures |bytes| == WORD && (ok ==> forall i :: 0 <= i < WORD ==> bytes[i] == t.mem(w + i))
  {
    ok := t.readable(w);
    peeked' := peeked + {w};
    bytes := [t.mem(w), t.mem(w + 1), t.mem(w + 2), t.mem(w + 3),
              t.mem(w + 4), t.mem(w + 5), t.mem(w + 6), t.mem(w + 7)];
  }

  /** The first `n` bytes of the buffer are those of the target. */
  ghost predicate Copied(t: Target, addr: nat, buf: array<Byte>, n: nat)
    reads buf
  {
    n <= buf.Length && forall i :: 0 <= i < n ==> buf[i] == t.mem(addr + i)
  }

  /** Only words of the range have been peeked, all of them readable, and every one that meets the first `n` bytes. */
  ghost predicate PeekedOnly(t: Target, addr: nat, size: nat, n: nat, peeked: set<nat>) {
    && (forall w :: w in peeked ==> Meets(w, addr, size) && t.readable(w))
    && (forall w :: Meets(w, addr, n) && n > 0 ==> w in peeked)
  }

  /** Bytes of one word, from position `k` on, up to its end or the end of the buffer. */
  method CopyPart(t: Target, addr: nat, buf: array<Byte>, pos: nat, bytes: seq<Byte>, k: nat) returns (pos': nat)
    requires Copied(t, addr, buf, pos) && k < WORD == |bytes|
    requires forall i :: k <= i < WORD ==> bytes[i] == t.mem(addr + pos + (i - k))
    modifies buf
    ensures Copied(t, addr, buf, pos') && pos' == if buf.Length - pos < WORD - k then buf.Length else pos + (WORD - k)
  {
    pos' := pos;
    while pos' < buf.Length && pos' - pos < WORD - k
      invariant pos <= pos' <= buf.Length && pos' - pos <= WORD - k && Copied(t, addr, buf, pos')
    {
      buf[pos'] := bytes[k + (pos' - pos)];
      pos' := pos' + 1;
    }
  }

  /** What holds between the words: a whole prefix has been read, ending at a word boundary or at the end. */
  ghost predicate Going(t: Target, addr: nat, buf: array<Byte>, pos: nat, peeked: set<nat>)
    reads buf
  {
    && Copied(t, addr, buf, pos)
    && PeekedOnly(t, addr, buf.Length, pos, peeked)
    && (pos == 0 || pos == buf.Length || (addr + pos) % WORD == 0)
  }

  /** Peeks the word at the current position and copies what the range needs of it. */
  method ReadWord(t: Target, addr: nat, buf: array<Byte>, pos: nat, ghost peeked: set<nat>)
    returns (ok: bool, pos': nat, ghost peeked': set<nat>)
    requires Going(t, addr, buf, pos, peeked) && (pos < buf.Length || (pos == 0 && addr % WORD != 0))
    modifies buf
    ensures ok ==> Going(t, addr, buf, pos', peeked')
    ensures ok ==>
      pos' == if buf.Length - pos < WORD - (addr + pos) % WORD then buf.Length else pos + (WORD - (addr + pos) % WORD)
    ensures !ok ==> Meets(Align(addr + pos), addr, buf.Length) && !t.readable(Align(addr + pos))
    ensures forall w :: w in peeked' ==> Meets(w, addr, buf.Length)
    ensures peeked <= peeked' && Align(addr + pos) in peeked'
  {
    var w := Align(addr + pos);
    AlignFacts(addr + pos);
    MeetsHere(addr, pos, buf.Length);
    var bytes;
    ok, bytes, peeked' := Peek(t, w, peeked);
    pos' := pos;
    if ok {
      pos' := CopyPart(t, addr, buf, pos, bytes, addr + pos - w);
      PeekedNext(t, addr, buf.Length, pos, pos', peeked);
    }
  }

  lemma {:induction false} AlignFacts(a: nat)
    ensures Align(a) % WORD == 0 && Align(a) <= a < Align(a) + WORD && a - Align(a) == a % WORD
  {
  }

  lemma {:induction false} MeetsHere(addr: nat, pos: nat, size: nat)
    requires pos < size || (pos == 0 == size && addr % WORD != 0)
    ensures Meets(Align(addr + pos), addr, size)
  {
    AlignFacts(addr + pos);
  }

  lemma {:induction false} PeekedNext(t: Target, addr: nat, size: nat, pos: nat, pos': nat, peeked: set<nat>)
    requires PeekedOnly(t, addr, size, pos, peeked) && pos <= pos' <= size
    requires pos == 0 || (addr + pos) % WORD == 0
    requires addr + pos' <= Align(addr + pos) + WORD
    requires Meets(Align(addr + pos), addr, size) && t.readable(Align(addr + pos))
    ensures PeekedOnly(t, addr, size, pos', peeked + {Align(addr + pos)})
  {
    AlignFacts(addr + pos);
    forall w | Meets(w, addr, pos') && pos' > 0 ensures w in peeked + {Align(addr + pos)} {
      if !(Meets(w, addr, pos) && pos > 0) {
        OneWord(w, Align(addr + pos));
      }
    }
  }

  /** Two words less than a word apart are the same. */
  lemma {:induction false} OneWord(v: nat, w: nat)
    requires v % WORD == 0 && w % WORD == 0 && v < w + WORD && w < v + WORD
    ensures v == w
  {
  }

  lemma {:induction false} AllPeeked(t: Target, addr: nat, size: nat, peeked: set<nat>)
    requires PeekedOnly(t, addr, size, size, peeked)
    requires Align(addr) != addr ==> Align(addr) in peeked
    ensures forall w :: Meets(w, addr, size) ==> t.readable(w)
  {
    forall w | Meets(w, addr, size) ensures t.readable(w) {
      if size == 0 {
        AlignFacts(addr);
        OneWord(w, Align(addr));
      }
    }
  }

  /**
   Reads a range: on success the buffer holds exactly its bytes, and it succeeds exactly when every word
   that the range needs can be peeked. No other word is peeked.
   */
  method ProcessReadData(t: Target, addr: nat, buf: array<Byte>) returns (ok: bool, ghost peeked: set<nat>)
    modifies buf
    ensures ok ==> Copied(t, addr, buf, buf.Length)
    ensures ok <==> forall w :: Meets(w, addr, buf.Length) ==> t.readable(w)
    ensures forall w :: w in peeked ==> Meets(w, addr, buf.Length)
  {
    hide Meets;
    peeked := {};
    var pos: nat := 0;
    if Align(addr) != addr {
      ok, pos, peeked := ReadWord(t, addr, buf, pos, peeked);
      if !ok {
        return;
      }
    }
    var words := (buf.Length - pos) / WORD;
    var i := 0;
    while i < words
      invariant 0 <= i <= words && pos + (words - i) * WORD <= buf.Length < pos + (words - i) * WORD + WORD
      invariant Going(t, addr, buf, pos, peeked) && (pos < buf.Length ==> (addr + pos) % WORD == 0)
      invariant Align(addr) != addr ==> Align(addr) in peeked
    {
      ok, pos, peeked := ReadWord(t, addr, buf, pos, peeked);
      if !ok {
        return;
      }
      i := i + 1;
    }
    if pos != buf.Length {
      ok, pos, peeked := ReadWord(t, addr, buf, pos, peeked);
      if !ok {
        return;
      }
    }
    AllPeeked(t, addr, buf.Length, peeked);
    ok := true;
  }
}
