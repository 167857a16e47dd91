/**
 Loading a 64-bit constant with as few instructions as its value needs (Assembler::load_const_optimized).
 */
module PpcAssembler {
  import opened Basics
  import opened PpcIsa
  import opened PpcMachine

  // ----- chunks of a constant -----

  const MIN_LONG: int := -0x8000_0000_0000_0000
  const MAX_LONG: int := 0x7fff_ffff_ffff_ffff

  type Long = x: int | MIN_LONG <= x <= MAX_LONG

  /** `x & 0xFFFF`, also of a negative number. */
  function Chunk(x: int): Half {
    x % TWO16
  }

  /** What remains above the lowest chunk, with the compensation for its sign extension. */
  function Above(x: int): int {
    x / TWO16 + Chunk(x) / 0x8000
  }

  /** Adding the sign-extended chunk back gives the value: the carry is compensated. */
  lemma {:induction false} CarryCompensated(x: int)
    ensures Above(x) * TWO16 + Signed16(Chunk(x)) == x
  {
  }

  // ----- shifting and inserting words -----

  lemma {:induction false} ShiftLeftWord(v: Value)
    ensures RotateClear(v, 32, 31) == Wrap(v * TWO32)
  {
    hide Pow2;
    Powers();
    RotatedWord(v);
    var r := RotateLeft(v, 32);
    ClearedWord(r, v % TWO32, v / TWO32);
    PowerZero();
  }

  lemma {:induction false} PowerZero()
    ensures Pow2(0) == 1
  {
  }

  lemma {:induction false} RotatedWord(v: Value)
    ensures RotateLeft(v, 32) == (v % TWO32) * TWO32 + v / TWO32
  {
    hide Pow2;
    Powers();
    var hi, lo := v / TWO32, v % TWO32;
    assert v * TWO32 == hi * TWO64 + lo * TWO32;
  }

  lemma {:induction false} ClearedWord(r: int, hi: int, lo: int)
    requires 0 <= hi < TWO32 && 0 <= lo < TWO32 && r == hi * TWO32 + lo
    ensures r / TWO32 % TWO32 * TWO32 == hi * TWO32
  {
  }

  lemma {:induction false} InsertHighWord(t: Value, v: Value)
    ensures RotateInsert(t, 32, 0, v) == (t % TWO32) * TWO32 + v % TWO32
  {
    hide Pow2;
    Powers();
    RotatedWord(t);
    ClearedWord(RotateLeft(t, 32), t % TWO32, t / TWO32);
    ClearedWord(v, v / TWO32, v % TWO32);
  }

  // ----- what the next instruction does to known registers -----

  /** In every state that agrees with `known`, `i` sets `r` to `v` and changes nothing else. */
  ghost predicate Computes(i: Instr, known: Known, r: Reg, v: Value) {
    forall a: State, b: State :: Knows(a, b, known) ==> Exec(i, b) == Set(b, r, v)
  }

  lemma {:induction false} ComputesLi(known: Known, d: Reg, imm: Half)
    ensures Computes(Addi(d, 0, imm), known, d, AddImm(0, imm))
    ensures Computes(Addis(d, 0, imm), known, d, AddImmShifted(0, imm))
  {
    hide Set, AddImm, AddImmShifted;
  }

  lemma {:induction false} ComputesAddi(known: Known, d: Reg, imm: Half)
    requires d != 0 && known(d).Some?
    ensures Computes(Addi(d, d, imm), known, d, AddImm(known(d).value, imm))
    ensures Computes(Addis(d, d, imm), known, d, AddImmShifted(known(d).value, imm))
  {
    hide Set, AddImm, AddImmShifted;
    forall a: State, b: State | Knows(a, b, known) ensures b.regs(d) == known(d).value {
      assert b.regs(d) == Now(known, a, d);
    }
  }

  lemma {:induction false} ComputesOri(known: Known, d: Reg, imm: Half)
    requires known(d).Some?
    ensures Computes(Ori(d, d, imm), known, d, OrImm(known(d).value, imm))
    ensures Computes(Oris(d, d, imm), known, d, OrImmShifted(known(d).value, imm))
    ensures Computes(Rldicr(d, d, 32, 31), known, d, RotateClear(known(d).value, 32, 31))
  {
    hide Set, OrImm, OrImmShifted, RotateClear;
    forall a: State, b: State | Knows(a, b, known) ensures b.regs(d) == known(d).value {
      assert b.regs(d) == Now(known, a, d);
    }
  }

  lemma {:induction false} ComputesInsrdi(known: Known, d: Reg, t: Reg)
    requires known(d).Some? && known(t).Some?
    ensures Computes(Rldimi(d, t, 32, 0), known, d, RotateInsert(known(t).value, 32, 0, known(d).value))
  {
    hide Set, RotateInsert;
    forall a: State, b: State | Knows(a, b, known) ensures b.regs(d) == known(d).value && b.regs(t) == known(t).value {
      assert b.regs(d) == Now(known, a, d) && b.regs(t) == Now(known, a, t);
    }
  }

  /** The values of the destination and of the scratch register, where they are known. */
  function Pair(d: Reg, v: Option<Value>, tmp: Option<Reg>, t: Option<Value>): Known {
    (q: Reg) => if q == d then v else if Some(q) == tmp then t else None
  }

  lemma {:induction false} SetsSame(before: seq<Instr>, code: seq<Instr>, k: Known, k': Known)
    requires Sets(before, code, k) && forall q: Reg :: k(q) == k'(q)
    ensures Sets(before, code, k')
  {
    hide Run;
    forall s: State ensures Knows(Run(before, s), Run(code, s), k') {
      var a, b := Run(before, s), Run(code, s);
      assert Knows(a, b, k);
      forall r: Reg ensures b.regs(r) == Now(k', a, r) {
        assert b.regs(r) == Now(k, a, r);
      }
    }
  }

  /** What is known of the destination and the scratch register after the code emitted since `before`. */
  datatype Track = Track(before: seq<Instr>, d: Reg, v: Option<Value>, tmp: Option<Reg>, t: Option<Value>) {
    function Known(): Known {
      Pair(d, v, tmp, t)
    }

    predicate Target(r: Reg) {
      r == d || Some(r) == tmp
    }

    function Get(r: Reg): Option<Value> {
      if r == d then v else t
    }

    function Put(r: Reg, x: Value): Track {
      if r == d then this.(v := Some(x)) else this.(t := Some(x))
    }
  }

  ghost predicate Follows(code: seq<Instr>, k: Track) {
    k.tmp != Some(k.d) && Sets(k.before, code, k.Known())
  }

  lemma {:induction false} FollowsStep(code: seq<Instr>, k: Track, i: Instr, r: Reg, x: Value)
    requires Follows(code, k) && Computes(i, k.Known(), r, x) && k.Target(r)
    ensures Follows(code + [i], k.Put(r, x))
  {
    hide Exec, Run, Knows, Sets;
    assert forall a: State, b: State :: Knows(a, b, k.Known()) ==> Exec(i, b) == Set(b, r, x);
    SetsMore(k.before, code, k.Known(), i, r, x);
    SetsSame(k.before, code + [i], With(k.Known(), r, x), k.Put(r, x).Known());
  }

  /** Nothing is known before the first instruction. */
  function Start(code: seq<Instr>, d: Reg, tmp: Option<Reg>): (k: Track)
    requires tmp != Some(d)
    ensures Follows(code, k)
  {
    var k := Track(code, d, None, tmp, None);
    SetsNothing(code);
    SetsSame(code, code, Nothing(), k.Known());
    k
  }

  // ----- the values that the loader puts together -----

  lemma {:induction false} OneChunk(x: int)
    requires Above(x) == 0
    ensures AddImm(0, Chunk(x)) == Wrap(x)
  {
    CarryCompensated(x);
  }

  lemma {:induction false} TwoChunks(x: int)
    requires Above(Above(x)) == 0
    ensures AddImm(AddImmShifted(0, Chunk(Above(x))), Chunk(x)) == Wrap(x)
  {
    CarryCompensated(x);
    CarryCompensated(Above(x));
  }

  lemma {:induction false} FourChunks(x: int)
    ensures var r1 := Above(x);
      var r2 := Above(r1);
      var r3 := Above(r2);
      var high := AddImm(AddImmShifted(0, Chunk(r3)), Chunk(r2));
      AddImm(AddImmShifted(Wrap(high * TWO32), Chunk(r1)), Chunk(x)) == Wrap(x)
  {
    var r1 := Above(x);
    var r2 := Above(r1);
    var r3 := Above(r2);
    CarryCompensated(x);
    CarryCompensated(r1);
    CarryCompensated(r2);
    CarryCompensated(r3);
    FourChunksSum(x, r1, r2, r3, Above(r3), Signed16(Chunk(r3)), Signed16(Chunk(r2)), Signed16(Chunk(r1)),
                  Signed16(Chunk(x)));
  }

  lemma {:induction false} FourChunksSum(x: int, r1: int, r2: int, r3: int, r4: int, a: int, b: int, c: int, d: int)
    requires r1 * TWO16 + d == x && r2 * TWO16 + c == r1 && r3 * TWO16 + b == r2 && r4 * TWO16 + a == r3
    ensures Wrap(Wrap(Wrap(Wrap(Wrap(0 + a * TWO16) + b) * TWO32) + c * TWO16) + d) == Wrap(x)
  {
    hide Wrap;
    var high := a * TWO16 + b;
    WrapAdd(0 + a * TWO16, b);
    WrapShift(high);
    WrapAdd(high * TWO32, c * TWO16);
    WrapAdd(high * TWO32 + c * TWO16, d);
    WrapDrop(high * TWO32 + c * TWO16 + d, r4);
  }

  lemma {:induction false} WrapAdd(a: int, b: int)
    ensures Wrap(Wrap(a) + b) == Wrap(a + b)
  {
  }

  lemma {:induction false} WrapShift(a: int)
    ensures Wrap(Wrap(a) * TWO32) == Wrap(a * TWO32)
  {
    var q := a / TWO64;
    var w := Wrap(a);
    assert a == w + q * TWO64;
    hide Wrap;
    WrapDrop(w * TWO32, q * TWO32);
    assert w * TWO32 + q * TWO32 * TWO64 == a * TWO32;
  }

  lemma {:induction false} WrapDrop(a: int, k: int)
    ensures Wrap(a + k * TWO64) == Wrap(a)
  {
  }

  lemma {:induction false} AddNothing(v: Value)
    ensures AddImm(v, 0) == v && AddImmShifted(v, 0) == v
  {
  }

  /** The high word, loaded with lis and ori or with li. */
  lemma {:induction false} HighWord(x: int, t: int)
    requires var xa, xb := Chunk(x / 0x1_0000_0000_0000), Chunk(x / TWO32);
      t % TWO32 == (Signed16(xa) * TWO16 + xb) % TWO32
    ensures t % TWO32 == x / TWO32 % TWO32
  {
    var y := x / TWO32;
    assert x / 0x1_0000_0000_0000 == y / TWO16;
  }

  /** The two lowest chunks give the low word, whatever is above them. */
  lemma {:induction false} LowWord(x: int, v: int)
    requires v % TWO32 == (Signed16(Chunk(Above(x))) * TWO16 + Signed16(Chunk(x))) % TWO32
    ensures v % TWO32 == x % TWO32
  {
    CarryCompensated(x);
    CarryCompensated(Above(x));
    LowWordSum(x, Above(x), Above(Above(x)), Signed16(Chunk(Above(x))), Signed16(Chunk(x)));
  }

  lemma {:induction false} LowWordSum(x: int, r1: int, r2: int, c: int, d: int)
    requires r1 * TWO16 + d == x && r2 * TWO16 + c == r1
    ensures (c * TWO16 + d) % TWO32 == x % TWO32
  {
    assert x == r2 * TWO32 + (c * TWO16 + d);
  }

  lemma {:induction false} Joined(x: int)
    ensures (x / TWO32 % TWO32) * TWO32 + x % TWO32 == Wrap(x)
  {
  }

  lemma {:induction false} ScratchShifted(xa: Half, xb: Half)
    ensures var t := AddImmShifted(0, xa);
      && OrImm(t, xb) % TWO32 == (Signed16(xa) * TWO16 + xb) % TWO32
      && (xb == 0 ==> t % TWO32 == (Signed16(xa) * TWO16 + xb) % TWO32)
  {
    hide OrImm;
    var t := AddImmShifted(0, xa);
    OrIntoZero(t, xb);
  }

  lemma {:induction false} ScratchPlain(xb: Half)
    requires xb < 0x8000
    ensures AddImm(0, xb) == xb
  {
  }

  /** Joining the words gives the constant, up to a rest that must be non-negative. */
  lemma {:induction false} ScratchJoined(x: int, high: Value, low: Value, rest: Half)
    requires var xa, xb := Chunk(x / 0x1_0000_0000_0000), Chunk(x / TWO32);
      high % TWO32 == (Signed16(xa) * TWO16 + xb) % TWO32
    requires var xc, xd := Chunk(Above(x)), Chunk(x);
      || (rest == 0 && low == AddImm(AddImmShifted(0, xc), xd))
      || (rest == xd && xd < 0x8000 && low == AddImmShifted(0, xc))
    ensures AddImm((high % TWO32) * TWO32 + low % TWO32, rest) == Wrap(x)
  {
    var xc, xd := Chunk(Above(x)), Chunk(x);
    HighWord(x, high);
    Joined(x);
    LowWord(x, Signed16(xc) * TWO16 + Signed16(xd));
    var h, l := high % TWO32, low % TWO32;
    hide Chunk, Above, AddImm, AddImmShifted;
    if low == AddImm(AddImmShifted(0, xc), xd) && rest == 0 {
      LowSum(xc, xd);
      AddNothing(h * TWO32 + l);
    } else {
      LowRest(xc, xd);
      AddRest(h * TWO32 + l, xd, Wrap(x));
    }
  }

  lemma {:induction false} AddRest(v: Value, rest: Half, w: Value)
    requires rest < 0x8000 && v + rest == w
    ensures AddImm(v, rest) == w
  {
  }

  lemma {:induction false} LowSum(xc: Half, xd: Half)
    ensures AddImm(AddImmShifted(0, xc), xd) % TWO32 == (Signed16(xc) * TWO16 + Signed16(xd)) % TWO32
  {
    hide Wrap;
    WrapAdd(0 + Signed16(xc) * TWO16, Signed16(xd));
    WrapLow(Signed16(xc) * TWO16 + Signed16(xd));
  }

  lemma {:induction false} WrapLow(x: int)
    ensures Wrap(x) % TWO32 == x % TWO32
  {
    var w := Wrap(x);
    var q, r := x / TWO64, w / TWO32;
    assert x == q * TWO64 + w && w == r * TWO32 + w % TWO32;
    assert x == (q * TWO32 + r) * TWO32 + w % TWO32;
    LowOf(q * TWO32 + r, w % TWO32);
  }

  lemma {:induction false} LowOf(k: int, low: int)
    requires 0 <= low < TWO32
    ensures (k * TWO32 + low) % TWO32 == low
  {
  }

  lemma {:induction false} LowRest(xc: Half, xd: Half)
    requires xd < 0x8000
    ensures AddImmShifted(0, xc) % TWO32 + xd == (Signed16(xc) * TWO16 + Signed16(xd)) % TWO32
  {
    assert AddImmShifted(0, xc) % TWO32 == xc * TWO16;
    assert (Signed16(xc) * TWO16 + xd) % TWO32 == xc * TWO16 + xd;
  }

  lemma {:induction false} OrZero(b: nat, n: nat)
    requires b < Pow2(n)
    ensures OrBits(0, b, n) == b
  {
    if n > 0 {
      OrZero(b / 2, n - 1);
    }
  }

  /** Or-ing a half into a value whose low half is zero adds it. */
  lemma {:induction false} OrIntoZero(v: Value, imm: Half)
    requires v % TWO16 == 0
    ensures OrImm(v, imm) == v + imm
  {
    Powers();
    OrZero(imm, 16);
  }

  // ----- the assembler -----

  /** Whatever the start, the code since `before` leaves `x` minus `rest` in `d` and changes at most `tmp` besides. */
  ghost predicate Loads(before: seq<Instr>, code: seq<Instr>, d: Reg, tmp: Option<Reg>, x: int, rest: Half) {
    forall s: State :: LoadsFrom(Run(before, s), Run(code, s), d, tmp, x, rest)
  }

  ghost predicate LoadsFrom(a: State, b: State, d: Reg, tmp: Option<Reg>, x: int, rest: Half) {
    && AddImm(b.regs(d), rest) == Wrap(x)
    && b.mem == a.mem
    && forall r: Reg :: r != d && Some(r) != tmp ==> b.regs(r) == a.regs(r)
  }

  lemma {:induction false} FollowedLoads(code: seq<Instr>, k: Track, x: int, rest: Half)
    requires Follows(code, k) && k.v.Some? && AddImm(k.v.value, rest) == Wrap(x)
    ensures Loads(k.before, code, k.d, k.tmp, x, rest)
  {
    hide Run, AddImm, Wrap;
    forall s: State ensures LoadsFrom(Run(k.before, s), Run(code, s), k.d, k.tmp, x, rest) {
      var a, b := Run(k.before, s), Run(code, s);
      assert Knows(a, b, k.Known());
      assert b.regs(k.d) == Now(k.Known(), a, k.d);
      forall r: Reg | r != k.d && Some(r) != k.tmp ensures b.regs(r) == a.regs(r) {
        assert b.regs(r) == Now(k.Known(), a, r);
      }
    }
  }

  /**
   Whether the lowest chunk is left to the next instruction where that is allowed: not when one li loads the
   constant, and behind a scratch register only where its sign extension cannot reach the high word.
   */
  predicate LeavesRest(x: int, tmp: Option<Reg>) {
    && Above(x) != 0
    && (Above(Above(x)) != 0 && tmp.Some? ==> Chunk(Above(x)) != 0 && Chunk(x) < 0x8000)
  }

  /** The same of the emitted words: run from any state they decode, and they load the constant. */
  lemma {:induction false} EmittedWordsLoad(before: seq<Instr>, code: seq<Instr>, d: Reg, tmp: Option<Reg>, x: int,
                                            rest: Half, s: State)
    requires AllEncodable(before) && AllEncodable(code) && Loads(before, code, d, tmp, x, rest)
    ensures var a, b := RunWords(EncodeAll(before), s), RunWords(EncodeAll(code), s);
      a.Some? && b.Some? && LoadsFrom(a.value, b.value, d, tmp, x, rest)
  {
    hide LoadsFrom, AllEncodable;
    WordsRun(before, s);
    WordsRun(code, s);
    assert LoadsFrom(Run(before, s), Run(code, s), d, tmp, x, rest);
  }

  class Assembler {
    /** The code buffer. */
    var words: seq<Word>
    ghost var code: seq<Instr>

    ghost predicate Valid()
      reads this
    {
      AllEncodable(code) && words == EncodeAll(code)
    }

    constructor ()
      ensures Valid() && code == []
    {
      words, code := [], [];
    }

    /** emit_int32. */
    method Emit(i: Instr)
      requires Valid() && Encodable(i)
      modifies this
      ensures Valid() && code == old(code) + [i]
    {
      hide Encode, Encodable;
      words := words + [Encode(i)];
      code := code + [i];
      assert code[..|code| - 1] == old(code);
    }

    method EmitSetting(i: Instr, ghost r: Reg, ghost x: Value, ghost k: Track) returns (ghost k': Track)
      requires Valid() && Encodable(i) && Follows(code, k) && Computes(i, k.Known(), r, x) && k.Target(r)
      modifies this
      ensures Valid() && code == old(code) + [i]
      ensures k' == k.Put(r, x) && Follows(code, k')
    {
      hide *;
      FollowsStep(code, k, i, r, x);
      Emit(i);
      k' := k.Put(r, x);
    }

    method Li(r: Reg, imm: Half, ghost k: Track) returns (ghost k': Track)
      requires Valid() && Follows(code, k) && k.Target(r)
      modifies this
      ensures Valid() && code == old(code) + [Addi(r, 0, imm)]
      ensures k' == k.Put(r, AddImm(0, imm)) && Follows(code, k')
    {
      hide Sets, Computes;
      ComputesLi(k.Known(), r, imm);
      k' := EmitSetting(Addi(r, 0, imm), r, AddImm(0, imm), k);
    }

    method Lis(r: Reg, imm: Half, ghost k: Track) returns (ghost k': Track)
      requires Valid() && Follows(code, k) && k.Target(r)
      modifies this
      ensures Valid() && code == old(code) + [Addis(r, 0, imm)]
      ensures k' == k.Put(r, AddImmShifted(0, imm)) && Follows(code, k')
    {
      hide Sets, Computes;
      ComputesLi(k.Known(), r, imm);
      k' := EmitSetting(Addis(r, 0, imm), r, AddImmShifted(0, imm), k);
    }

    method AddImmediate(r: Reg, imm: Half, ghost k: Track) returns (ghost k': Track)
      requires Valid() && Follows(code, k) && k.Target(r) && r != 0 && k.Get(r).Some?
      modifies this
      ensures Valid() && code == old(code) + [Addi(r, r, imm)]
      ensures k' == k.Put(r, AddImm(k.Get(r).value, imm)) && Follows(code, k')
    {
      hide Sets, Computes;
      ComputesAddi(k.Known(), r, imm);
      k' := EmitSetting(Addi(r, r, imm), r, AddImm(k.Get(r).value, imm), k);
    }

    method AddImmediateShifted(r: Reg, imm: Half, ghost k: Track) returns (ghost k': Track)
      requires Valid() && Follows(code, k) && k.Target(r) && r != 0 && k.Get(r).Some?
      modifies this
      ensures Valid() && code == old(code) + [Addis(r, r, imm)]
      ensures k' == k.Put(r, AddImmShifted(k.Get(r).value, imm)) && Follows(code, k')
    {
      hide Sets, Computes;
      ComputesAddi(k.Known(), r, imm);
      k' := EmitSetting(Addis(r, r, imm), r, AddImmShifted(k.Get(r).value, imm), k);
    }

    method OrImmediate(r: Reg, imm: Half, ghost k: Track) returns (ghost k': Track)
      requires Valid() && Follows(code, k) && k.Target(r) && k.Get(r).Some?
      modifies this
      ensures Valid() && code == old(code) + [Ori(r, r, imm)]
      ensures k' == k.Put(r, OrImm(k.Get(r).value, imm)) && Follows(code, k')
    {
      hide Sets, Computes;
      ComputesOri(k.Known(), r, imm);
      k' := EmitSetting(Ori(r, r, imm), r, OrImm(k.Get(r).value, imm), k);
    }

    /** sldi by 32: rldicr with mask end 31. */
    method ShiftLeft32(r: Reg, ghost k: Track) returns (ghost k': Track)
      requires Valid() && Follows(code, k) && k.Target(r) && k.Get(r).Some?
      modifies this
      ensures Valid() && code == old(code) + [Rldicr(r, r, 32, 31)]
      ensures k' == k.Put(r, Wrap(k.Get(r).value * TWO32)) && Follows(code, k')
    {
      hide Sets, Computes, RotateClear;
      ComputesOri(k.Known(), r, 0);
      ShiftLeftWord(k.Get(r).value);
      k' := EmitSetting(Rldicr(r, r, 32, 31), r, RotateClear(k.Get(r).value, 32, 31), k);
    }

    /** insrdi(d, tmp, 32, 0): the low word of `tmp` becomes the high word of `d`. */
    method InsertWord(d: Reg, t: Reg, ghost k: Track) returns (ghost k': Track)
      requires Valid() && Follows(code, k) && k.d == d && k.tmp == Some(t) && k.v.Some? && k.t.Some?
      modifies this
      ensures Valid() && code == old(code) + [Rldimi(d, t, 32, 0)]
      ensures k' == k.Put(d, (k.t.value % TWO32) * TWO32 + k.v.value % TWO32) && Follows(code, k')
    {
      hide Sets, Computes, RotateInsert;
      ComputesInsrdi(k.Known(), d, t);
      InsertHighWord(k.t.value, k.v.value);
      k' := EmitSetting(Rldimi(d, t, 32, 0), d, RotateInsert(k.t.value, 32, 0, k.v.value), k);
    }

    // ----- load_const_optimized -----

    /** Loads a constant; with `returnRest` its lowest chunk may be left to the next instruction. */
    method LoadConstOptimized(d: Reg, x: Long, tmp: Option<Reg>, returnRest: bool) returns (rest: Half)
      requires Valid() && d != 0 && tmp != Some(d)
      modifies this
      ensures Valid() && old(code) <= code && |code| <= |old(code)| + 5
      ensures Loads(old(code), code, d, tmp, x, rest)
      ensures rest == if returnRest && LeavesRest(x, tmp) then Chunk(x) else 0
    {
      hide Follows, Loads, Chunk, Above, AddImm, AddImmShifted;
      ghost var k := Start(code, d, tmp);
      var xd := Chunk(x);
      var rem := Above(x);
      if rem == 0 {
        k := Li(d, xd, k);
        OneChunk(x);
        AddNothing(k.v.value);
        FollowedLoads(code, k, x, 0);
        return 0;
      }
      var xc := Chunk(rem);
      rem := Above(rem);
      if rem == 0 {
        k := Lis(d, xc, k);
        TwoChunks(x);
      } else {
        if tmp.Some? {
          rest := LoadThroughScratch(d, x, tmp.value, xc, xd, returnRest, k);
          return;
        }
        k := LoadHigh(d, x, rem, xc, k);
      }
      if returnRest {
        FollowedLoads(code, k, x, xd);
        return xd;
      }
      AddNothing(k.v.value);
      if xd != 0 {
        k := AddImmediate(d, xd, k);
        AddNothing(k.v.value);
      }
      FollowedLoads(code, k, x, 0);
      return 0;
    }

    /** The two high chunks by addition, then the chunk below them. */
    method LoadHigh(d: Reg, ghost x: int, rem: int, xc: Half, ghost k: Track) returns (ghost k': Track)
      requires Valid() && Follows(code, k) && k.d == d != 0
      requires rem == Above(Above(x)) && xc == Chunk(Above(x))
      modifies this
      ensures Valid() && old(code) <= code && |code| <= |old(code)| + 4
      ensures Follows(code, k') && k'.v.Some? && k' == k.(v := k'.v)
      ensures AddImm(k'.v.value, Chunk(x)) == Wrap(x)
    {
      hide Follows, Chunk, Above, AddImm, AddImmShifted, Wrap;
      var xb := Chunk(rem);
      var xa := Chunk(Above(rem));
      FourChunks(x);
      k' := LoadTop(d, xa, xb, k);
      k' := ShiftLeft32(d, k');
      AddNothing(k'.v.value);
      if xc != 0 {
        k' := AddImmediateShifted(d, xc, k');
      }
    }

    /** The two high chunks by addition. */
    method LoadTop(d: Reg, xa: Half, xb: Half, ghost k: Track) returns (ghost k': Track)
      requires Valid() && Follows(code, k) && k.d == d != 0
      modifies this
      ensures Valid() && old(code) <= code && |code| <= |old(code)| + 2
      ensures Follows(code, k') && k' == k.(v := Some(AddImm(AddImmShifted(0, xa), xb)))
    {
      hide Follows, AddImm, AddImmShifted;
      AddNothing(0);
      k' := k;
      if xa != 0 {
        k' := Lis(d, xa, k');
        AddNothing(k'.v.value);
        if xb != 0 {
          k' := AddImmediate(d, xb, k');
        }
      } else {
        k' := Li(d, xb, k');
      }
    }

    /** opt 3: the high word in the scratch register, the low word in `d`, then both joined. */
    method LoadThroughScratch(d: Reg, x: Long, t: Reg, xc: Half, xd: Half, returnRest: bool, ghost k: Track)
      returns (rest: Half)
      requires Valid() && Follows(code, k) && k.d == d != 0 && k.tmp == Some(t) && t != d
      requires xd == Chunk(x) && xc == Chunk(Above(x))
      modifies this
      ensures Valid() && old(code) <= code && |code| <= |old(code)| + 5
      ensures Loads(k.before, code, d, Some(t), x, rest)
      ensures rest == if returnRest && xc != 0 && xd < 0x8000 then xd else 0
    {
      hide Follows, Loads, Chunk, Above, AddImm, AddImmShifted, OrImm, Wrap, Signed16;
      ghost var k' := k;
      var xa, xb := Chunk(x / 0x1_0000_0000_0000), Chunk(x / TWO32);
      k' := LoadWords(d, t, xa, xb, xc, k');
      var returnXd := false;
      AddNothing(AddImmShifted(0, xc));
      AddNothing(0);
      if xc != 0 {
        if returnRest && xd < 0x8000 {
          returnXd := true;
        } else if xd != 0 {
          k' := AddImmediate(d, xd, k');
        }
      } else {
        k' := Li(d, xd, k');
      }
      ghost var high, low := k'.t.value, k'.v.value;
      k' := InsertWord(d, t, k');
      rest := if returnXd then xd else 0;
      ScratchJoined(x, high, low, rest);
      FollowedLoads(code, k', x, rest);
    }

    /** The high word in the scratch register, and the second chunk in `d` if it is not zero. */
    method LoadWords(d: Reg, t: Reg, xa: Half, xb: Half, xc: Half, ghost k: Track) returns (ghost k': Track)
      requires Valid() && Follows(code, k) && k.d == d != 0 && k.tmp == Some(t) && t != d
      modifies this
      ensures Valid() && old(code) <= code && |code| <= |old(code)| + (if xc != 0 then 3 else 2)
      ensures Follows(code, k') && k' == k.(v := k'.v, t := k'.t) && k'.t.Some?
      ensures k'.t.value % TWO32 == (Signed16(xa) * TWO16 + xb) % TWO32
      ensures xc != 0 ==> k'.v == Some(AddImmShifted(0, xc))
    {
      hide Follows, AddImm, AddImmShifted, OrImm, Wrap;
      k' := k;
      var loadXa := xa != 0 || xb >= 0x8000;
      if loadXa {
        k' := Lis(t, xa, k');
      }
      if xc != 0 {
        k' := Lis(d, xc, k');
      }
      if loadXa {
        ScratchShifted(xa, xb);
        if xb != 0 {
          k' := OrImmediate(t, xb, k');
        }
      } else {
        k' := Li(t, xb, k');
        ScratchPlain(xb);
      }
    }
  }
}
