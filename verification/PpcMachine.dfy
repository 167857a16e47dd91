/**
 What the instructions do to 64-bit registers and to memory (PowerPC Book I, sections 3.3.2, 3.3.3,
 3.3.8, 3.3.11 and 3.3.12), and running sequences of them. Bytes in memory are big-endian.
 */
module PpcMachine {
  import opened Basics
  import opened PpcIsa

  type Value = Addr

  datatype State = State(regs: Reg -> Value, mem: Value -> Byte)

  function Set(s: State, r: Reg, v: Value): State {
    s.(regs := (q: Reg) => var w: Value := if q == r then v else s.regs(q); w)
  }

  lemma {:induction false} SetReg(s: State, r: Reg, v: Value, q: Reg)
    ensures Set(s, r, v).regs(q) == if q == r then v else s.regs(q)
  {
  }

  // ----- arithmetic -----

  /** A half-word as a signed number. */
  function Signed16(x: Half): int {
    if x < 0x8000 then x else x - TWO16
  }

  function Pow2(n: nat): (p: int)
    ensures p > 0
  {
    if n == 0 then 1 else 2 * Pow2(n - 1)
  }

  lemma {:induction false} Pow2Sum(a: nat, b: nat)
    ensures Pow2(a + b) == Pow2(a) * Pow2(b)
  {
    if a > 0 {
      Pow2Sum(a - 1, b);
    }
  }

  lemma {:induction false} FirstPower()
    ensures Pow2(2) == 4
  {
  }

  lemma {:induction false} Powers()
    ensures Pow2(8) == 256 && Pow2(16) == TWO16 && Pow2(32) == TWO32 && Pow2(64) == TWO64
  {
    hide Pow2;
    FirstPower();
    Pow2Sum(2, 2);
    Pow2Sum(4, 4);
    Pow2Sum(8, 8);
    Pow2Sum(16, 16);
    Pow2Sum(32, 32);
  }

  /** Bitwise or of two numbers of `n` bits. */
  function OrBits(a: nat, b: nat, n: nat): nat {
    if n == 0 then 0 else 2 * OrBits(a / 2, b / 2, n - 1) + if a % 2 == 1 || b % 2 == 1 then 1 else 0
  }

  lemma {:induction false} OrBitsBound(a: nat, b: nat, n: nat)
    ensures OrBits(a, b, n) < Pow2(n)
  {
    if n > 0 {
      OrBitsBound(a / 2, b / 2, n - 1);
    }
  }

  function OrHalves(a: Half, b: Half): Half {
    OrBitsBound(a, b, 16);
    Powers();
    OrBits(a, b, 16)
  }

  function AddImm(v: Value, imm: Half): Value {
    Wrap(v + Signed16(imm))
  }

  function AddImmShifted(v: Value, imm: Half): Value {
    Wrap(v + Signed16(imm) * TWO16)
  }

  function OrImm(v: Value, imm: Half): Value {
    v / TWO16 * TWO16 + OrHalves(v % TWO16, imm)
  }

  function OrImmShifted(v: Value, imm: Half): Value {
    (v / TWO32 * TWO16 + OrHalves(v / TWO16 % TWO16, imm)) * TWO16 + v % TWO16
  }

  function RotateLeft(v: Value, n: Six): int {
    v * Pow2(n) % TWO64 + v * Pow2(n) / TWO64
  }

  /** The bits of `x` from position `hi` down to `lo`, counted from the least significant bit. */
  function Bits(x: int, hi: nat, lo: nat): int
    requires lo <= hi
  {
    x / Pow2(lo) % Pow2(hi - lo + 1) * Pow2(lo)
  }

  /** The bits of `x` under MASK(mb, me), whose bounds count from the most significant bit and wrap around. */
  function Under(x: int, mb: Six, me: Six): int {
    if mb <= me then Bits(x, 63 - mb, 63 - me)
    else if mb == me + 1 then x
    else x - Bits(x, 62 - me, 64 - mb)
  }

  /** Rotate left, then clear right. */
  function RotateClear(v: Value, sh: Six, me: Six): Value {
    Wrap(Under(RotateLeft(v, sh), 0, me))
  }

  /** Rotate left, then insert into `into` under a mask. */
  function RotateInsert(v: Value, sh: Six, mb: Six, into: Value): Value {
    Wrap(into - Under(into, mb, 63 - sh) + Under(RotateLeft(v, sh), mb, 63 - sh))
  }

  // ----- memory -----

  function Half2(mem: Value -> Byte, a: Value): Half {
    mem(a) * 256 + mem(Wrap(a + 1))
  }

  function Word4(mem: Value -> Byte, a: Value): Word {
    Half2(mem, a) * TWO16 + Half2(mem, Wrap(a + 2))
  }

  function LoadValue(k: LoadKind, mem: Value -> Byte, a: Value): Value {
    match k
    case Ld => Word4(mem, a) * TWO32 + Word4(mem, Wrap(a + 4))
    case Lwa => var w := Word4(mem, a); Wrap(if w < 0x8000_0000 then w else w - TWO32)
    case Lwz => Word4(mem, a)
    case Lha => Wrap(Signed16(Half2(mem, a)))
    case Lhz => Half2(mem, a)
    case Lbz => mem(a)
  }

  function StoreSize(k: StoreKind): nat {
    match k
    case Std => 8
    case Stw => 4
    case Sth => 2
    case Stb => 1
  }

  function StoreValue(k: StoreKind, mem: Value -> Byte, a: Value, v: Value): Value -> Byte {
    (b: Value) =>
      var i := Wrap(b - a);
      if i < StoreSize(k) then v / Pow2(8 * (StoreSize(k) - 1 - i)) % 256 else mem(b)
  }

  // ----- instructions -----

  /** (RA|0): register 0 stands for the value 0. */
  function Base(s: State, ra: Reg): Value {
    if ra == 0 then 0 else s.regs(ra)
  }

  function Exec(i: Instr, s: State): State {
    match i
    case Addi(rt, ra, imm) => Set(s, rt, AddImm(Base(s, ra), imm))
    case Addis(rt, ra, imm) => Set(s, rt, AddImmShifted(Base(s, ra), imm))
    case Ori(ra, rs, imm) => Set(s, ra, OrImm(s.regs(rs), imm))
    case Oris(ra, rs, imm) => Set(s, ra, OrImmShifted(s.regs(rs), imm))
    case Rldicr(ra, rs, sh, mb) => Set(s, ra, RotateClear(s.regs(rs), sh, mb))
    case Rldimi(ra, rs, sh, mb) => Set(s, ra, RotateInsert(s.regs(rs), sh, mb, s.regs(ra)))
    case Load(k, rt, imm, ra) => Set(s, rt, LoadValue(k, s.mem, AddImm(Base(s, ra), imm)))
    case LoadIndexed(k, rt, ra, rb) => Set(s, rt, LoadValue(k, s.mem, Wrap(Base(s, ra) + s.regs(rb))))
    case Store(k, rs, imm, ra) => s.(mem := StoreValue(k, s.mem, AddImm(Base(s, ra), imm), s.regs(rs)))
    case StoreIndexed(k, rs, ra, rb) => s.(mem := StoreValue(k, s.mem, Wrap(Base(s, ra) + s.regs(rb)), s.regs(rs)))
  }

  function Run(code: seq<Instr>, s: State): State {
    if code == [] then s else Exec(code[|code| - 1], Run(code[..|code| - 1], s))
  }

  // ----- running the words that were emitted -----

  predicate AllEncodable(code: seq<Instr>) {
    forall i :: 0 <= i < |code| ==> Encodable(code[i])
  }

  function EncodeAll(code: seq<Instr>): (words: seq<Word>)
    requires AllEncodable(code)
    ensures |words| == |code| && forall i :: 0 <= i < |code| ==> words[i] == Encode(code[i])
  {
    if code == [] then [] else EncodeAll(code[..|code| - 1]) + [Encode(code[|code| - 1])]
  }

  /** Runs a program given as words; none if a word is not one of these instructions. */
  function RunWords(words: seq<Word>, s: State): Option<State> {
    if words == [] then Some(s)
    else
      var before := RunWords(words[..|words| - 1], s);
      var i := Decode(words[|words| - 1]);
      if before.Some? && i.Some? then Some(Exec(i.value, before.value)) else None
  }

  /** The emitted words do what the instructions say. */
  lemma {:induction false} WordsRun(code: seq<Instr>, s: State)
    requires AllEncodable(code)
    ensures RunWords(EncodeAll(code), s) == Some(Run(code, s))
  {
    hide Decode, Encode, Exec, Encodable;
    var words := EncodeAll(code);
    if code != [] {
      var n := |code| - 1;
      WordsRun(code[..n], s);
      assert words[..n] == EncodeAll(code[..n]);
      DecodeEncode(code[n]);
    }
  }

  // ----- registers whose value does not depend on the start -----

  type Known = Reg -> Option<Value>

  function Nothing(): Known {
    (q: Reg) => None
  }

  function With(known: Known, r: Reg, v: Value): Known {
    (q: Reg) => if q == r then Some(v) else known(q)
  }

  /** The known value of a register, or the one it had at the start. */
  function Now(known: Known, a: State, r: Reg): Value {
    match known(r)
    case Some(v) => v
    case None => a.regs(r)
  }

  /** From `a` to `b` only the registers in `known` have changed, to the values given. */
  ghost predicate Knows(a: State, b: State, known: Known) {
    b.mem == a.mem && forall r: Reg :: b.regs(r) == Now(known, a, r)
  }

  /** Whatever the start, the part of `code` after `before` sets the registers in `known`. */
  ghost predicate Sets(before: seq<Instr>, code: seq<Instr>, known: Known) {
    forall s: State :: Knows(Run(before, s), Run(code, s), known)
  }

  lemma {:induction false} SetsNothing(code: seq<Instr>)
    ensures Sets(code, code, Nothing())
  {
    hide Exec;
  }

  lemma {:induction false} WithReg(known: Known, r: Reg, v: Value, q: Reg)
    ensures With(known, r, v)(q) == if q == r then Some(v) else known(q)
  {
  }

  /** An instruction that sets one register, whatever state it finds. */
  lemma {:induction false} SetsMore(before: seq<Instr>, code: seq<Instr>, known: Known, i: Instr, r: Reg, v: Value)
    requires Sets(before, code, known)
    requires forall a: State, b: State :: Knows(a, b, known) ==> Exec(i, b) == Set(b, r, v)
    ensures Sets(before, code + [i], With(known, r, v))
  {
    hide Exec, With, Set;
    assert (code + [i])[..|code|] == code;
    forall s: State ensures Knows(Run(before, s), Run(code + [i], s), With(known, r, v)) {
      var a, b := Run(before, s), Run(code, s);
      assert Knows(a, b, known);
      assert Run(code + [i], s) == Exec(i, b) == Set(b, r, v);
      SetMem(b, r, v);
      forall q: Reg ensures Set(b, r, v).regs(q) == Now(With(known, r, v), a, q) {
        SetReg(b, r, v, q);
        WithReg(known, r, v, q);
      }
    }
  }

  lemma {:induction false} SetMem(s: State, r: Reg, v: Value)
    ensures Set(s, r, v).mem == s.mem
  {
  }
}
