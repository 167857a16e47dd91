/**
 Instruction fields of the PPC64 assembler (assembler_ppc.hpp). A C int is a 32-bit vector; bit
 positions count from the least significant bit, as hi_bit and lo_bit do.
 */
module PpcFields {
  type Word = bv32

  function FieldMask(hi: bv6, lo: bv6): Word
    requires lo <= hi < 32 && hi - lo < 31
  {
    ((1 as Word) << (hi - lo + 1)) - 1
  }

  function InvUField(x: Word, hi: bv6, lo: bv6): Word
    requires lo <= hi < 32 && hi - lo < 31
  {
    (x >> lo) & FieldMask(hi, lo)
  }

  /** The value fits an unsigned field. */
  predicate FitsU(x: Word, hi: bv6, lo: bv6)
    requires lo <= hi < 32 && hi - lo < 31
  {
    x & !FieldMask(hi, lo) == 0
  }

  function UField(x: Word, hi: bv6, lo: bv6): Word
    requires lo <= hi < 32 && hi - lo < 31 && FitsU(x, hi, lo)
  {
    x << lo
  }

  /** An unsigned field gives back what was put in. */
  lemma {:induction false} UFieldRoundTrip(x: Word, hi: bv6, lo: bv6)
    requires lo <= hi < 32 && hi - lo < 31 && FitsU(x, hi, lo)
    ensures InvUField(UField(x, hi, lo), hi, lo) == x
  {
  }

  /** Opcode and registers, which all forms have in common. */
  function Head(op: bv6, rt: bv5, ra: bv5): Word {
    ((op as Word) << 26) | ((rt as Word) << 21) | ((ra as Word) << 16)
  }

  /** Fields in disjoint places: joining them with `|` is adding them. D-form. */
  lemma {:induction false} JoinIsSum(op: bv6, rt: bv5, ra: bv5, imm: bv16)
    ensures Head(op, rt, ra) | (imm as Word) ==
            ((op as Word) << 26) + ((rt as Word) << 21) + ((ra as Word) << 16) + (imm as Word)
  {
  }

  /** DS-form: the offset is a multiple of four. */
  lemma {:induction false} JoinIsSumDs(op: bv6, rt: bv5, ra: bv5, imm: bv16, xo: bv2)
    requires imm & 3 == 0
    ensures Head(op, rt, ra) | (imm as Word) | (xo as Word) ==
            ((op as Word) << 26) + ((rt as Word) << 21) + ((ra as Word) << 16) + (imm as Word) + (xo as Word)
  {
  }

  /** X-form. */
  lemma {:induction false} JoinIsSumX(op: bv6, rt: bv5, ra: bv5, rb: bv5, xo: bv10)
    ensures Head(op, rt, ra) | ((rb as Word) << 11) | ((xo as Word) << 1) ==
            ((op as Word) << 26) + ((rt as Word) << 21) + ((ra as Word) << 16)
            + ((rb as Word) << 11) + ((xo as Word) << 1)
  {
  }

  /** MD-form: the shift amount is split, and the mask bound has its highest bit last. */
  lemma {:induction false} JoinIsSumMd(op: bv6, rs: bv5, ra: bv5, sh: bv6, mb: bv6, xo: bv3)
    ensures var low, top := (sh & 0x1f) as Word, ((sh & 0x20) >> 5) as Word;
      var mask := (((mb & 0x1f) << 1) | ((mb & 0x20) >> 5)) as Word;
      Head(op, rs, ra) | (low << 11) | (top << 1) | (mask << 5) | ((xo as Word) << 2) ==
      ((op as Word) << 26) + ((rs as Word) << 21) + ((ra as Word) << 16)
      + (low << 11) + (mask << 5) + ((xo as Word) << 2) + (top << 1)
  {
  }
}
