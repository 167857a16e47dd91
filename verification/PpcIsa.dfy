/**
 The PPC64 instructions the constant loader and the memory accessors emit, and their encoding
 (assembler_ppc.hpp, assembler_ppc.inline.hpp). Words and registers are numbers here; the fields of
 a word do not overlap, so joining them with `|` is adding them (PpcFields, PpcWords).
 */
module PpcIsa {
  import opened Basics

  type Reg = r: int | 0 <= r < 32
  type Half = h: int | 0 <= h < TWO16
  type Six = s: int | 0 <= s < 64
  type Word = w: int | 0 <= w < TWO32

  datatype LoadKind = Ld | Lwa | Lwz | Lha | Lhz | Lbz

  datatype StoreKind = Std | Stw | Sth | Stb

  datatype Instr =
    | Addi(rt: Reg, ra: Reg, imm: Half)
    | Addis(rt: Reg, ra: Reg, imm: Half)
    | Ori(ra: Reg, rs: Reg, imm: Half)
    | Oris(ra: Reg, rs: Reg, imm: Half)
    | Rldicr(ra: Reg, rs: Reg, sh: Six, mb: Six)
    | Rldimi(ra: Reg, rs: Reg, sh: Six, mb: Six)
    | Load(load: LoadKind, rt: Reg, imm: Half, ra: Reg)
    | LoadIndexed(load: LoadKind, rt: Reg, ra: Reg, rb: Reg)
    | Store(store: StoreKind, rs: Reg, imm: Half, ra: Reg)
    | StoreIndexed(store: StoreKind, rs: Reg, ra: Reg, rb: Reg)

  // ----- encoding -----

  /** Primary opcode of the D-form and DS-form loads. */
  function LoadOpcode(k: LoadKind): Six {
    match k
    case Ld => 58
    case Lwa => 58
    case Lwz => 32
    case Lha => 42
    case Lhz => 40
    case Lbz => 34
  }

  /** Extended opcode of the indexed loads. */
  function LoadIndexedOpcode(k: LoadKind): int {
    match k
    case Ld => 21
    case Lwa => 341
    case Lwz => 23
    case Lha => 343
    case Lhz => 279
    case Lbz => 87
  }

  function StoreOpcode(k: StoreKind): Six {
    match k
    case Std => 62
    case Stw => 36
    case Sth => 44
    case Stb => 38
  }

  function StoreIndexedOpcode(k: StoreKind): int {
    match k
    case Std => 149
    case Stw => 151
    case Sth => 407
    case Stb => 215
  }

  // Instruction formats.

  function DForm(op: Six, rt: Reg, ra: Reg, imm: Half): Word {
    ((op * 32 + rt) * 32 + ra) * TWO16 + imm
  }

  function DsForm(op: Six, xo: int, rt: Reg, ra: Reg, imm: Half): Word
    requires 0 <= xo < 4 && imm % 4 == 0
  {
    ((op * 32 + rt) * 32 + ra) * TWO16 + imm + xo
  }

  function XForm(xo: int, rt: Reg, ra: Reg, rb: Reg): Word
    requires 0 <= xo < 1024
  {
    (((31 * 32 + rt) * 32 + ra) * 32 + rb) * 2048 + xo * 2
  }

  /** The six-bit field that holds a mask bound, its highest bit last. */
  function Mb2126(x: Six): Six {
    (x % 32) * 2 + x / 32
  }

  /** The shift amount is split: five bits before the mask bound, the highest bit after the opcode. */
  function MdForm(xo: int, rs: Reg, ra: Reg, sh: Six, mb: Six): Word
    requires 0 <= xo < 8
  {
    (((((30 * 32 + rs) * 32 + ra) * 32 + sh % 32) * 64 + Mb2126(mb)) * 8 + xo) * 4 + (sh / 32) * 2
  }

  /** What the emitters assert: no R0 as a memory base, aligned offsets in DS-form instructions. */
  predicate Encodable(i: Instr) {
    match i
    case Load(k, _, imm, ra) => ra != 0 && (k == Ld || k == Lwa ==> imm % 4 == 0)
    case LoadIndexed(_, _, ra, _) => ra != 0
    case Store(k, _, imm, ra) => ra != 0 && (k == Std ==> imm % 4 == 0)
    case StoreIndexed(_, _, ra, _) => ra != 0
    case _ => true
  }

  function Encode(i: Instr): Word
    requires Encodable(i)
  {
    match i
    case Addi(rt, ra, imm) => DForm(14, rt, ra, imm)
    case Addis(rt, ra, imm) => DForm(15, rt, ra, imm)
    case Ori(ra, rs, imm) => DForm(24, rs, ra, imm)
    case Oris(ra, rs, imm) => DForm(25, rs, ra, imm)
    case Rldicr(ra, rs, sh, mb) => MdForm(1, rs, ra, sh, mb)
    case Rldimi(ra, rs, sh, mb) => MdForm(3, rs, ra, sh, mb)
    case Load(k, rt, imm, ra) =>
      if k == Ld then DsForm(LoadOpcode(k), 0, rt, ra, imm)
      else if k == Lwa then DsForm(LoadOpcode(k), 2, rt, ra, imm)
      else DForm(LoadOpcode(k), rt, ra, imm)
    case LoadIndexed(k, rt, ra, rb) => XForm(LoadIndexedOpcode(k), rt, ra, rb)
    case Store(k, rs, imm, ra) =>
      if k == Std then DsForm(StoreOpcode(k), 0, rs, ra, imm) else DForm(StoreOpcode(k), rs, ra, imm)
    case StoreIndexed(k, rs, ra, rb) => XForm(StoreIndexedOpcode(k), rs, ra, rb)
  }

  // ----- decoding -----

  function InvOp(w: Word): Six {
    w / TWO16 / 32 / 32
  }

  function InvRt(w: Word): Reg {
    w / TWO16 / 32 % 32
  }

  function InvRa(w: Word): Reg {
    w / TWO16 % 32
  }

  function InvRb(w: Word): Reg {
    w / 2048 % 32
  }

  function LowHalf(w: Word): Half {
    w % TWO16
  }

  function InvSh(w: Word): Six {
    w / 2048 % 32 + (w / 2 % 2) * 32
  }

  function InvMb(w: Word): Six {
    w / 64 % 32 + (w / 32 % 2) * 32
  }

  function InvXo3(w: Word): int {
    w / 4 % 8
  }

  function InvXo10(w: Word): int {
    w / 2 % 1024
  }

  /** The record bit, which none of these instructions sets. */
  predicate Records(w: Word) {
    w % 2 == 1
  }

  function DecodeDForm(op: Six, rt: Reg, ra: Reg, imm: Half): Option<Instr> {
    if op == 14 then Some(Addi(rt, ra, imm))
    else if op == 15 then Some(Addis(rt, ra, imm))
    else if op == 24 then Some(Ori(ra, rt, imm))
    else if op == 25 then Some(Oris(ra, rt, imm))
    else if op == 32 then Some(Load(Lwz, rt, imm, ra))
    else if op == 42 then Some(Load(Lha, rt, imm, ra))
    else if op == 40 then Some(Load(Lhz, rt, imm, ra))
    else if op == 34 then Some(Load(Lbz, rt, imm, ra))
    else if op == 36 then Some(Store(Stw, rt, imm, ra))
    else if op == 44 then Some(Store(Sth, rt, imm, ra))
    else if op == 38 then Some(Store(Stb, rt, imm, ra))
    else None
  }

  function DecodeDsForm(op: Six, xo: int, rt: Reg, ra: Reg, imm: Half): Option<Instr> {
    if op == 58 && xo == 0 then Some(Load(Ld, rt, imm, ra))
    else if op == 58 && xo == 2 then Some(Load(Lwa, rt, imm, ra))
    else if op == 62 && xo == 0 then Some(Store(Std, rt, imm, ra))
    else None
  }

  function DecodeXForm(xo: int, rt: Reg, ra: Reg, rb: Reg): Option<Instr> {
    if xo == 21 then Some(LoadIndexed(Ld, rt, ra, rb))
    else if xo == 341 then Some(LoadIndexed(Lwa, rt, ra, rb))
    else if xo == 23 then Some(LoadIndexed(Lwz, rt, ra, rb))
    else if xo == 343 then Some(LoadIndexed(Lha, rt, ra, rb))
    else if xo == 279 then Some(LoadIndexed(Lhz, rt, ra, rb))
    else if xo == 87 then Some(LoadIndexed(Lbz, rt, ra, rb))
    else if xo == 149 then Some(StoreIndexed(Std, rt, ra, rb))
    else if xo == 151 then Some(StoreIndexed(Stw, rt, ra, rb))
    else if xo == 407 then Some(StoreIndexed(Sth, rt, ra, rb))
    else if xo == 215 then Some(StoreIndexed(Stb, rt, ra, rb))
    else None
  }

  function DecodeMdForm(xo: int, rs: Reg, ra: Reg, sh: Six, mb: Six): Option<Instr> {
    if xo == 1 then Some(Rldicr(ra, rs, sh, mb))
    else if xo == 3 then Some(Rldimi(ra, rs, sh, mb))
    else None
  }

  function Decode(w: Word): Option<Instr> {
    var op := InvOp(w);
    if op == 30 then
      if !Records(w) then DecodeMdForm(InvXo3(w), InvRt(w), InvRa(w), InvSh(w), InvMb(w)) else None
    else if op == 31 then
      if !Records(w) then DecodeXForm(InvXo10(w), InvRt(w), InvRa(w), InvRb(w)) else None
    else if op == 58 || op == 62 then
      DecodeDsForm(op, w % 4, InvRt(w), InvRa(w), LowHalf(w) - w % 4)
    else DecodeDForm(op, InvRt(w), InvRa(w), LowHalf(w))
  }

  // ----- every instruction is read back as it was -----

  lemma {:induction false} DFormFields(op: Six, rt: Reg, ra: Reg, imm: Half)
    ensures var w := DForm(op, rt, ra, imm);
      InvOp(w) == op && InvRt(w) == rt && InvRa(w) == ra && LowHalf(w) == imm
  {
  }

  lemma {:induction false} DsFormFields(op: Six, xo: int, rt: Reg, ra: Reg, imm: Half)
    requires 0 <= xo < 4 && imm % 4 == 0
    ensures var w := DsForm(op, xo, rt, ra, imm);
      && InvOp(w) == op && InvRt(w) == rt && InvRa(w) == ra
      && LowHalf(w) - w % 4 == imm && w % 4 == xo
  {
  }

  lemma {:induction false} XFormFields(xo: int, rt: Reg, ra: Reg, rb: Reg)
    requires 0 <= xo < 1024
    ensures var w := XForm(xo, rt, ra, rb);
      && InvOp(w) == 31 && !Records(w) && InvRt(w) == rt && InvRa(w) == ra && InvRb(w) == rb
      && InvXo10(w) == xo
  {
  }

  lemma {:induction false} MdFormFields(xo: int, rs: Reg, ra: Reg, sh: Six, mb: Six)
    requires 0 <= xo < 8
    ensures var w := MdForm(xo, rs, ra, sh, mb);
      && InvOp(w) == 30 && !Records(w) && InvRt(w) == rs && InvRa(w) == ra
      && InvSh(w) == sh && InvMb(w) == mb && InvXo3(w) == xo
  {
    var m := Mb2126(mb);
    var high := ((30 * 32 + rs) * 32 + ra) * 32 + sh % 32;
    var w := MdForm(xo, rs, ra, sh, mb);
    MbParts(mb);
    MdFormLow(high, mb % 32, mb / 32, xo, sh / 32);
    MdFormHigh(high, m, xo, sh / 32);
  }

  lemma {:induction false} MdFormLow(high: nat, q: nat, p: nat, xo: nat, top: nat)
    requires q < 32 && p < 2 && xo < 8 && top < 2
    ensures var w := ((high * 64 + (q * 2 + p)) * 8 + xo) * 4 + top * 2;
      w / 64 % 32 == q && w / 32 % 2 == p && w / 4 % 8 == xo && w / 2 % 2 == top && w % 2 == 0
  {
    var w := ((high * 64 + (q * 2 + p)) * 8 + xo) * 4 + top * 2;
    assert w / 64 == high * 32 + q;
    assert w / 32 == high * 64 + q * 2 + p;
    assert w / 4 == (high * 64 + (q * 2 + p)) * 8 + xo;
    assert w / 2 == ((high * 64 + (q * 2 + p)) * 8 + xo) * 2 + top;
  }

  lemma {:induction false} MdFormHigh(high: nat, m: Six, xo: nat, top: nat)
    requires xo < 8 && top < 2
    ensures var w := ((high * 64 + m) * 8 + xo) * 4 + top * 2;
      w / 2048 == high && w / TWO16 == high / 32
  {
    var w := ((high * 64 + m) * 8 + xo) * 4 + top * 2;
    assert w / 2048 == high;
    assert w / TWO16 == w / 2048 / 32;
  }

  lemma {:induction false} MbParts(mb: Six)
    ensures Mb2126(mb) == (mb % 32) * 2 + mb / 32 && mb / 32 < 2
  {
  }

  lemma {:induction false} DecodeD(op: Six, rt: Reg, ra: Reg, imm: Half)
    requires op != 30 && op != 31 && op != 58 && op != 62
    ensures Decode(DForm(op, rt, ra, imm)) == DecodeDForm(op, rt, ra, imm)
  {
    hide DForm, InvOp, InvRt, InvRa, LowHalf, DecodeDForm;
    DFormFields(op, rt, ra, imm);
  }

  lemma {:induction false} DecodeDs(op: Six, xo: int, rt: Reg, ra: Reg, imm: Half)
    requires (op == 58 || op == 62) && 0 <= xo < 4 && imm % 4 == 0
    ensures Decode(DsForm(op, xo, rt, ra, imm)) == DecodeDsForm(op, xo, rt, ra, imm)
  {
    hide DsForm, InvOp, InvRt, InvRa, LowHalf, DecodeDsForm;
    DsFormFields(op, xo, rt, ra, imm);
  }

  lemma {:induction false} DecodeX(xo: int, rt: Reg, ra: Reg, rb: Reg)
    requires 0 <= xo < 1024
    ensures Decode(XForm(xo, rt, ra, rb)) == DecodeXForm(xo, rt, ra, rb)
  {
    hide XForm, InvOp, InvRt, InvRa, InvRb, InvXo10, Records, DecodeXForm;
    XFormFields(xo, rt, ra, rb);
  }

  lemma {:induction false} DecodeMd(xo: int, rs: Reg, ra: Reg, sh: Six, mb: Six)
    requires 0 <= xo < 8
    ensures Decode(MdForm(xo, rs, ra, sh, mb)) == DecodeMdForm(xo, rs, ra, sh, mb)
  {
    hide MdForm, InvOp, InvRt, InvRa, InvSh, InvMb, InvXo3, Records, DecodeMdForm;
    MdFormFields(xo, rs, ra, sh, mb);
  }

  /** Every instruction that can be encoded is read back as it was. */
  lemma {:induction false} DecodeEncode(i: Instr)
    requires Encodable(i)
    ensures Decode(Encode(i)) == Some(i)
  {
    match i {
      case Addi(_, _, _) => DecodeArithmetic(i);
      case Addis(_, _, _) => DecodeArithmetic(i);
      case Ori(_, _, _) => DecodeArithmetic(i);
      case Oris(_, _, _) => DecodeArithmetic(i);
      case Rldicr(_, _, _, _) => DecodeArithmetic(i);
      case Rldimi(_, _, _, _) => DecodeArithmetic(i);
      case Load(_, _, _, _) => DecodeLoad(i);
      case LoadIndexed(_, _, _, _) => DecodeLoad(i);
      case Store(_, _, _, _) => DecodeStore(i);
      case StoreIndexed(_, _, _, _) => DecodeStore(i);
    }
  }

  lemma {:induction false} DecodeArithmetic(i: Instr)
    requires !i.Load? && !i.LoadIndexed? && !i.Store? && !i.StoreIndexed?
    ensures Decode(Encode(i)) == Some(i)
  {
    hide Decode, DForm, MdForm;
    match i {
      case Addi(rt, ra, imm) => DecodeD(14, rt, ra, imm);
      case Addis(rt, ra, imm) => DecodeD(15, rt, ra, imm);
      case Ori(ra, rs, imm) => DecodeD(24, rs, ra, imm);
      case Oris(ra, rs, imm) => DecodeD(25, rs, ra, imm);
      case Rldicr(ra, rs, sh, mb) => DecodeMd(1, rs, ra, sh, mb);
      case Rldimi(ra, rs, sh, mb) => DecodeMd(3, rs, ra, sh, mb);
    }
  }

  lemma {:induction false} DecodeLoad(i: Instr)
    requires (i.Load? || i.LoadIndexed?) && Encodable(i)
    ensures Decode(Encode(i)) == Some(i)
  {
    hide Decode, DForm, DsForm, XForm;
    match i {
      case Load(k, rt, imm, ra) =>
        match k {
          case Ld => DecodeDs(58, 0, rt, ra, imm);
          case Lwa => DecodeDs(58, 2, rt, ra, imm);
          case Lwz => DecodeD(32, rt, ra, imm);
          case Lha => DecodeD(42, rt, ra, imm);
          case Lhz => DecodeD(40, rt, ra, imm);
          case Lbz => DecodeD(34, rt, ra, imm);
        }
      case LoadIndexed(k, rt, ra, rb) =>
        match k {
          case Ld => DecodeX(21, rt, ra, rb);
          case Lwa => DecodeX(341, rt, ra, rb);
          case Lwz => DecodeX(23, rt, ra, rb);
          case Lha => DecodeX(343, rt, ra, rb);
          case Lhz => DecodeX(279, rt, ra, rb);
          case Lbz => DecodeX(87, rt, ra, rb);
        }
    }
  }

  lemma {:induction false} DecodeStore(i: Instr)
    requires (i.Store? || i.StoreIndexed?) && Encodable(i)
    ensures Decode(Encode(i)) == Some(i)
  {
    hide Decode, DForm, DsForm, XForm;
    match i {
      case Store(k, rs, imm, ra) =>
        match k {
          case Std => DecodeDs(62, 0, rs, ra, imm);
          case Stw => DecodeD(36, rs, ra, imm);
          case Sth => DecodeD(44, rs, ra, imm);
          case Stb => DecodeD(38, rs, ra, imm);
        }
      case StoreIndexed(k, rs, ra, rb) =>
        match k {
          case Std => DecodeX(149, rs, ra, rb);
          case Stw => DecodeX(151, rs, ra, rb);
          case Sth => DecodeX(407, rs, ra, rb);
          case Stb => DecodeX(215, rs, ra, rb);
        }
    }
  }

  // ----- words written out -----

  /** Words as a disassembler shows them: arithmetic, logic and shifts. */
  lemma {:induction false} KnownWords()
    ensures Encode(Addi(3, 0, 1)) == 0x3860_0001     // li r3,1
    ensures Encode(Addis(3, 0, 1)) == 0x3C60_0001    // lis r3,1
    ensures Encode(Ori(3, 4, 1)) == 0x6083_0001      // ori r3,r4,1
    ensures Encode(Oris(3, 4, 1)) == 0x6483_0001     // oris r3,r4,1
    ensures Encode(Rldicr(3, 3, 32, 31)) == 0x7863_07C6  // sldi r3,r3,32
    ensures Encode(Rldimi(3, 4, 32, 0)) == 0x7883_000E   // insrdi r3,r4,32,0
  {
  }

  /** Loads: the displacement forms from 8(r1), the indexed ones from r4 + r5. */
  lemma {:induction false} KnownLoads()
    ensures Encode(Load(Ld, 3, 8, 1)) == 0xE861_0008 && Encode(LoadIndexed(Ld, 3, 4, 5)) == 0x7C64_282A
    ensures Encode(Load(Lwa, 3, 8, 1)) == 0xE861_000A && Encode(LoadIndexed(Lwa, 3, 4, 5)) == 0x7C64_2AAA
    ensures Encode(Load(Lwz, 3, 8, 1)) == 0x8061_0008 && Encode(LoadIndexed(Lwz, 3, 4, 5)) == 0x7C64_282E
    ensures Encode(Load(Lha, 3, 8, 1)) == 0xA861_0008 && Encode(LoadIndexed(Lha, 3, 4, 5)) == 0x7C64_2AAE
    ensures Encode(Load(Lhz, 3, 8, 1)) == 0xA061_0008 && Encode(LoadIndexed(Lhz, 3, 4, 5)) == 0x7C64_2A2E
    ensures Encode(Load(Lbz, 3, 8, 1)) == 0x8861_0008 && Encode(LoadIndexed(Lbz, 3, 4, 5)) == 0x7C64_28AE
  {
  }

  lemma {:induction false} KnownStores()
    ensures Encode(Store(Std, 3, 8, 1)) == 0xF861_0008 && Encode(StoreIndexed(Std, 3, 4, 5)) == 0x7C64_292A
    ensures Encode(Store(Stw, 3, 8, 1)) == 0x9061_0008 && Encode(StoreIndexed(Stw, 3, 4, 5)) == 0x7C64_292E
    ensures Encode(Store(Sth, 3, 8, 1)) == 0xB061_0008 && Encode(StoreIndexed(Sth, 3, 4, 5)) == 0x7C64_2B2E
    ensures Encode(Store(Stb, 3, 8, 1)) == 0x9861_0008 && Encode(StoreIndexed(Stb, 3, 4, 5)) == 0x7C64_29AE
  {
  }
}
