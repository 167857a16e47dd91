/**
 The words that the assembler joins from bit fields (PpcFields) are the numbers that PpcIsa encodes.
 */
module PpcWords {
  import opened Basics
  import opened PpcIsa
  import F = PpcFields

  /** The number that the low `n` bits of a word stand for. */
  function Number(w: F.Word, n: nat): (r: nat) {
    if n == 0 then 0 else Number(w >> 1, n - 1) * 2 + if w & 1 == 0 then 0 else 1
  }

  function Power(n: nat): nat {
    if n == 0 then 1 else Power(n - 1) * 2
  }

  lemma {:induction false} NumberFits(w: F.Word, n: nat)
    ensures Number(w, n) < Power(n)
  {
    if n > 0 {
      NumberFits(w >> 1, n - 1);
    }
  }

  /** The word fits `k` bits. */
  predicate Fits(w: F.Word, k: bv6)
    requires k <= 32
  {
    w >> k == 0
  }

  /** A field of `k` bits put behind `x`. */
  function Cat(x: F.Word, b: F.Word, k: bv6): F.Word
    requires k <= 32
  {
    (x << k) | b
  }

  /** Putting a field behind a word is multiplying and adding. */
  lemma {:induction false} CatNumber(x: F.Word, b: F.Word, k: bv6, m: nat, n: nat)
    requires k <= 16 && k as nat == m && Fits(x, 32 - k) && Fits(b, k)
    ensures Number(Cat(x, b, k), n + m) == Number(x, n) * Power(m) + Number(b, m)
  {
    hide Number, Power;
    ShiftNumber(x, b, k, m, n);
  }

  lemma {:induction false} ShiftNumber(x: F.Word, b: F.Word, k: bv6, m: nat, n: nat)
    requires k <= 16 && k as nat == m && x >> (32 - k) == 0 && b >> k == 0
    ensures Number((x << k) | b, n + m) == Number(x, n) * Power(m) + Number(b, m)
    decreases m
  {
    hide Number, Power;
    if k == 0 {
      NoShift(x, b);
      NoBits(b);
    } else {
      ShiftHalf(x, b, k);
      NumberStep((x << k) | b, n + m);
      NumberStep(b, m);
      CountDown(k);
      ShiftNumber(x, b >> 1, k - 1, m - 1, n);
      PowerStep(m);
      Regroup(Number(x, n), Power(m - 1));
    }
  }

  lemma {:induction false} Regroup(a: int, p: int)
    ensures a * p * 2 == a * (p * 2)
  {
  }

  lemma {:induction false} NoBits(w: F.Word)
    ensures Number(w, 0) == 0 && Power(0) == 1
  {
  }

  lemma {:induction false} NumberStep(w: F.Word, n: nat)
    requires n > 0
    ensures Number(w, n) == Number(w >> 1, n - 1) * 2 + if w & 1 == 0 then 0 else 1
  {
  }

  lemma {:induction false} PowerStep(n: nat)
    requires n > 0
    ensures Power(n) == Power(n - 1) * 2
  {
  }

  lemma {:induction false} CountDown(k: bv6)
    requires k > 0
    ensures (k - 1) as nat == k as nat - 1
  {
  }

  lemma {:induction false} NoShift(x: F.Word, b: F.Word)
    requires b >> 0 == 0
    ensures (x << 0) | b == x
  {
  }

  lemma {:induction false} ShiftHalf(x: F.Word, b: F.Word, k: bv6)
    requires 0 < k <= 16 && x >> (32 - k) == 0 && b >> k == 0
    ensures ((x << k) | b) >> 1 == (x << (k - 1)) | (b >> 1) && ((x << k) | b) & 1 == b & 1
    ensures x >> (32 - (k - 1)) == 0 && (b >> 1) >> (k - 1) == 0
  {
  }

  lemma {:induction false} Powers()
    ensures Power(1) == 2 && Power(2) == 4 && Power(3) == 8 && Power(5) == 32 && Power(6) == 64
    ensures Power(10) == 1024 && Power(11) == 2048 && Power(16) == TWO16
  {
    hide Power;
    NoBits(0);
    PowerStep(1);
    PowerStep(2);
    PowerStep(3);
    PowerStep(4);
    PowerStep(5);
    PowerStep(6);
    PowerStep(7);
    PowerStep(8);
    PowerStep(9);
    PowerStep(10);
    PowerStep(11);
    PowerStep(12);
    PowerStep(13);
    PowerStep(14);
    PowerStep(15);
    PowerStep(16);
  }

  /** The value of a field of `n` bits. */
  function Field(w: F.Word, n: nat): (r: nat)
    ensures n == 2 ==> r < 4
    ensures n == 3 ==> r < 8
    ensures n == 5 ==> r < 32
    ensures n == 6 ==> r < 64
    ensures n == 10 ==> r < 1024
    ensures n == 16 ==> r < TWO16
  {
    Powers();
    NumberFits(w, n);
    Number(w, n)
  }

  // ----- the formats -----

  /** Opcode, two registers and a half word. */
  function Parts(op: F.Word, rt: F.Word, ra: F.Word, low: F.Word): F.Word {
    Cat(Cat(Cat(op, rt, 5), ra, 5), low, 16)
  }

  lemma {:induction false} PartsNumber(op: F.Word, rt: F.Word, ra: F.Word, low: F.Word)
    requires Fits(op, 6) && Fits(rt, 5) && Fits(ra, 5) && Fits(low, 16)
    ensures Number(Parts(op, rt, ra, low), 32) ==
            ((Number(op, 6) * 32 + Number(rt, 5)) * 32 + Number(ra, 5)) * TWO16 + Number(low, 16)
  {
    hide Number, Cat, Fits, Power;
    PartsFit(op, rt, ra);
    Powers();
    CatNumber(op, rt, 5, 5, 6);
    CatNumber(Cat(op, rt, 5), ra, 5, 5, 11);
    CatNumber(Cat(Cat(op, rt, 5), ra, 5), low, 16, 16, 16);
  }

  lemma {:induction false} PartsFit(op: F.Word, rt: F.Word, ra: F.Word)
    requires Fits(op, 6) && Fits(rt, 5) && Fits(ra, 5)
    ensures Fits(op, 27) && Fits(Cat(op, rt, 5), 27) && Fits(Cat(Cat(op, rt, 5), ra, 5), 16)
  {
  }

  /** What the emitters of D-form instructions join. */
  function DWord(op: bv6, rt: bv5, ra: bv5, imm: bv16): F.Word {
    F.Head(op, rt, ra) | imm as F.Word
  }

  /** D-form: the joined fields are the encoded number. */
  lemma {:induction false} JoinedDForm(op: bv6, rt: bv5, ra: bv5, imm: bv16)
    ensures Number(DWord(op, rt, ra, imm), 32) ==
            DForm(Field(op as F.Word, 6), Field(rt as F.Word, 5), Field(ra as F.Word, 5), Field(imm as F.Word, 16))
  {
    hide Number, DWord, Parts, Fits;
    DShape(op, rt, ra, imm);
    PartsNumber(op as F.Word, rt as F.Word, ra as F.Word, imm as F.Word);
  }

  lemma {:induction false} DShape(op: bv6, rt: bv5, ra: bv5, imm: bv16)
    ensures var o, t, a, i := op as F.Word, rt as F.Word, ra as F.Word, imm as F.Word;
      && Fits(o, 6) && Fits(t, 5) && Fits(a, 5) && Fits(i, 16)
      && DWord(op, rt, ra, imm) == Parts(o, t, a, i)
  {
  }

  /** ds: the offset is a multiple of four. */
  predicate Aligned(imm: F.Word) {
    imm & 3 == 0
  }

  /** The low half of a DS-form word. */
  function DsLow(imm: F.Word, xo: F.Word): F.Word {
    imm | xo
  }

  function Quarter(imm: F.Word): F.Word {
    imm >> 2
  }

  /** What the emitters of DS-form instructions join. */
  function DsWord(op: bv6, rt: bv5, ra: bv5, imm: F.Word, xo: bv2): F.Word {
    F.Head(op, rt, ra) | imm | xo as F.Word
  }

  /** DS-form. */
  lemma {:induction false} JoinedDsForm(op: bv6, rt: bv5, ra: bv5, imm: F.Word, xo: bv2)
    requires Fits(imm, 16) && Aligned(imm)
    ensures Field(imm, 16) % 4 == 0
    ensures Number(DsWord(op, rt, ra, imm, xo), 32) ==
            DsForm(Field(op as F.Word, 6), Field(xo as F.Word, 2), Field(rt as F.Word, 5), Field(ra as F.Word, 5),
                   Field(imm, 16))
  {
    hide Number, DsWord, Parts, Fits, Cat, Aligned, DsLow, Quarter;
    DsShape(op, rt, ra, imm, xo);
    OffsetShape(imm, xo as F.Word);
    PartsNumber(op as F.Word, rt as F.Word, ra as F.Word, DsLow(imm, xo as F.Word));
    OffsetNumber(Quarter(imm), xo as F.Word);
  }

  lemma {:induction false} DsShape(op: bv6, rt: bv5, ra: bv5, imm: F.Word, xo: bv2)
    requires Fits(imm, 16)
    ensures var o, t, a, x := op as F.Word, rt as F.Word, ra as F.Word, xo as F.Word;
      && Fits(o, 6) && Fits(t, 5) && Fits(a, 5) && Fits(x, 2) && Fits(0, 2) && Fits(DsLow(imm, x), 16)
      && DsWord(op, rt, ra, imm, xo) == Parts(o, t, a, DsLow(imm, x))
  {
  }

  lemma {:induction false} OffsetShape(imm: F.Word, x: F.Word)
    requires Aligned(imm)
    ensures DsLow(imm, x) == Cat(Quarter(imm), x, 2) && imm == Cat(Quarter(imm), 0, 2) && Fits(Quarter(imm), 30)
  {
  }

  lemma {:induction false} OffsetNumber(half: F.Word, x: F.Word)
    requires Fits(half, 30) && Fits(x, 2) && Fits(0, 2)
    ensures Number(Cat(half, 0, 2), 16) % 4 == 0
    ensures Number(Cat(half, x, 2), 16) == Number(Cat(half, 0, 2), 16) + Number(x, 2)
  {
    hide Number, Fits, Cat, Power;
    Powers();
    CatNumber(half, x, 2, 2, 14);
    CatNumber(half, 0, 2, 2, 14);
    ZeroNumber(2);
  }

  lemma {:induction false} ZeroNumber(n: nat)
    ensures Number(0, n) == 0
  {
    if n > 0 {
      ZeroNumber(n - 1);
    }
  }

  /** What the emitters of X-form instructions join. */
  function XWord(rt: bv5, ra: bv5, rb: bv5, xo: bv10): F.Word {
    F.Head(31, rt, ra) | ((rb as F.Word) << 11) | ((xo as F.Word) << 1)
  }

  /** X-form. */
  lemma {:induction false} JoinedXForm(rt: bv5, ra: bv5, rb: bv5, xo: bv10)
    ensures Number(XWord(rt, ra, rb, xo), 32) ==
            XForm(Field(xo as F.Word, 10), Field(rt as F.Word, 5), Field(ra as F.Word, 5), Field(rb as F.Word, 5))
  {
    XShape(rt, ra, rb, xo);
    hide Number, XWord, Parts, Fits, Cat, Power;
    Powers();
    var b, x := rb as F.Word, xo as F.Word;
    PartsNumber(31, rt as F.Word, ra as F.Word, Cat(Cat(b, x, 10), 0, 1));
    CatNumber(Cat(b, x, 10), 0, 1, 1, 15);
    CatNumber(b, x, 10, 10, 5);
    ZeroNumber(1);
    Opcodes();
  }

  lemma {:induction false} XShape(rt: bv5, ra: bv5, rb: bv5, xo: bv10)
    ensures var t, a, b, x := rt as F.Word, ra as F.Word, rb as F.Word, xo as F.Word;
      && Fits(31, 6) && Fits(t, 5) && Fits(a, 5) && Fits(b, 22) && Fits(x, 10) && Fits(0, 1)
      && Fits(Cat(b, x, 10), 31) && Fits(Cat(Cat(b, x, 10), 0, 1), 16)
      && XWord(rt, ra, rb, xo) == Parts(31, t, a, Cat(Cat(b, x, 10), 0, 1))
  {
  }

  lemma {:induction false} Opcodes()
    ensures Number(31, 6) == 31 && Number(30, 6) == 30
  {
    hide Number;
    NoBits(0);
    NumberStep(31, 6);
    NumberStep(30, 6);
    NumberStep(15, 5);
    NumberStep(7, 4);
    NumberStep(3, 3);
    NumberStep(1, 2);
    NumberStep(0, 1);
  }

  /** The five low bits and the highest bit of a six-bit value. */
  function Low5(x: bv6): F.Word {
    (x & 0x1f) as F.Word
  }

  function Top1(x: bv6): F.Word {
    ((x & 0x20) >> 5) as F.Word
  }

  /** mb2126: the highest bit comes last. */
  function MaskBound(mb: bv6): F.Word {
    (((mb & 0x1f) << 1) | ((mb & 0x20) >> 5)) as F.Word
  }

  /** What the emitters of MD-form instructions join; the shift amount is split. */
  function MdWord(rs: bv5, ra: bv5, sh: bv6, mb: bv6, xo: bv3): F.Word {
    F.Head(30, rs, ra) | (Low5(sh) << 11) | (Top1(sh) << 1) | (MaskBound(mb) << 5) | ((xo as F.Word) << 2)
  }

  /** MD-form. */
  lemma {:induction false} JoinedMdForm(rs: bv5, ra: bv5, sh: bv6, mb: bv6, xo: bv3)
    ensures Number(MdWord(rs, ra, sh, mb, xo), 32) ==
            MdForm(Field(xo as F.Word, 3), Field(rs as F.Word, 5), Field(ra as F.Word, 5), Field(sh as F.Word, 6),
                   Field(mb as F.Word, 6))
  {
    hide Number, MdWord, Parts, Fits, MdLow, Low5, Top1, MaskBound;
    MdShape(rs, ra, sh, mb, xo);
    var low := MdLow(Low5(sh), Top1(sh), MaskBound(mb), xo as F.Word);
    PartsNumber(30, rs as F.Word, ra as F.Word, low);
    MdNumber(Low5(sh), Top1(sh), MaskBound(mb), xo as F.Word);
    SplitNumber(sh);
    MaskNumber(mb);
    Opcodes();
  }

  /** The low half of an MD-form word. */
  function MdLow(low: F.Word, top: F.Word, mask: F.Word, xo: F.Word): F.Word {
    Cat(Cat(Cat(Cat(low, mask, 6), xo, 3), top, 1), 0, 1)
  }

  lemma {:induction false} MdShape(rs: bv5, ra: bv5, sh: bv6, mb: bv6, xo: bv3)
    ensures Fits(30, 6) && Fits(rs as F.Word, 5) && Fits(ra as F.Word, 5)
    ensures Fits(Low5(sh), 5) && Fits(Top1(sh), 1) && Fits(MaskBound(mb), 6) && Fits(xo as F.Word, 3)
    ensures var low := MdLow(Low5(sh), Top1(sh), MaskBound(mb), xo as F.Word);
      Fits(low, 16) && MdWord(rs, ra, sh, mb, xo) == Parts(30, rs as F.Word, ra as F.Word, low)
  {
  }

  lemma {:induction false} MdNumber(low: F.Word, top: F.Word, mask: F.Word, xo: F.Word)
    requires Fits(low, 5) && Fits(top, 1) && Fits(mask, 6) && Fits(xo, 3)
    ensures Number(MdLow(low, top, mask, xo), 16) ==
            ((Number(low, 5) * 64 + Number(mask, 6)) * 8 + Number(xo, 3)) * 4 + Number(top, 1) * 2
  {
    hide Number, Cat, Fits, Power;
    MdFits(low, top, mask, xo);
    Powers();
    CatNumber(low, mask, 6, 6, 5);
    CatNumber(Cat(low, mask, 6), xo, 3, 3, 11);
    CatNumber(Cat(Cat(low, mask, 6), xo, 3), top, 1, 1, 14);
    CatNumber(Cat(Cat(Cat(low, mask, 6), xo, 3), top, 1), 0, 1, 1, 15);
    ZeroNumber(1);
  }

  lemma {:induction false} MdFits(low: F.Word, top: F.Word, mask: F.Word, xo: F.Word)
    requires Fits(low, 5) && Fits(top, 1) && Fits(mask, 6) && Fits(xo, 3)
    ensures Fits(low, 26) && Fits(Cat(low, mask, 6), 29) && Fits(Cat(Cat(low, mask, 6), xo, 3), 31) && Fits(0, 1)
    ensures Fits(Cat(Cat(Cat(low, mask, 6), xo, 3), top, 1), 31)
  {
  }

  lemma {:induction false} SplitNumber(x: bv6)
    ensures Field(x as F.Word, 6) % 32 == Number(Low5(x), 5) && Field(x as F.Word, 6) / 32 == Number(Top1(x), 1)
  {
    hide Number, Cat, Fits, Power, Low5, Top1;
    SplitShape(x);
    Powers();
    CatNumber(Top1(x), Low5(x), 5, 5, 1);
    assert Field(Low5(x), 5) < 32;
  }

  lemma {:induction false} SplitShape(x: bv6)
    ensures x as F.Word == Cat(Top1(x), Low5(x), 5) && Fits(Low5(x), 5) && Fits(Top1(x), 27)
    ensures MaskBound(x) == Cat(Low5(x), Top1(x), 1) && Fits(Low5(x), 31) && Fits(Top1(x), 1)
  {
  }

  lemma {:induction false} MaskNumber(mb: bv6)
    ensures Number(MaskBound(mb), 6) == Mb2126(Field(mb as F.Word, 6))
  {
    hide Number, Cat, Fits, Power, Low5, Top1, MaskBound;
    SplitShape(mb);
    Powers();
    SplitNumber(mb);
    CatNumber(Low5(mb), Top1(mb), 1, 1, 5);
  }
}
