/**
 The patchable constant load (Assembler::load_const): always five words, of which four carry the
 constant in their low halves, so that writing those halves turns one load into any other.
 */
module PpcPatching {
  import opened Basics
  import opened PpcIsa
  import opened PpcMachine
  import opened PpcAssembler

  // ----- the code -----

  function Quarter(x: int, i: nat): Half
    requires i < 4
  {
    if i == 0 then Chunk(x)
    else if i == 1 then Chunk(x / TWO16)
    else if i == 2 then Chunk(x / TWO32)
    else Chunk(x / 0x1_0000_0000_0000)
  }

  function LoadConstCode(d: Reg, x: int, tmp: Option<Reg>): (code: seq<Instr>)
    ensures |code| == 5 && AllEncodable(code)
  {
    var xa, xb, xc, xd := Quarter(x, 3), Quarter(x, 2), Quarter(x, 1), Quarter(x, 0);
    match tmp
    case None => [Addis(d, 0, xa), Ori(d, d, xb), Rldicr(d, d, 32, 31), Oris(d, d, xc), Ori(d, d, xd)]
    case Some(t) => [Addis(t, 0, xa), Addis(d, 0, xc), Ori(t, t, xb), Ori(d, d, xd), Rldimi(d, t, 32, 0)]
  }

  // ----- its meaning -----

  lemma {:induction false} ShiftedHalf(xa: Half, xb: Half)
    ensures var t := OrImm(AddImmShifted(0, xa), xb);
      t % TWO32 == xa * TWO16 + xb
  {
    ScratchShifted(xa, xb);
    hide OrImm, AddImmShifted;
    assert (Signed16(xa) * TWO16 + xb) % TWO32 == xa * TWO16 + xb;
  }

  lemma {:induction false} QuartersSum(x: int)
    ensures ((Quarter(x, 3) * TWO16 + Quarter(x, 2)) * TWO16 + Quarter(x, 1)) * TWO16 + Quarter(x, 0) == Wrap(x)
  {
    var y := x / TWO16;
    var z := y / TWO16;
    assert x / TWO32 == z && x / 0x1_0000_0000_0000 == z / TWO16;
  }

  lemma {:induction false} OrZeroShifted(v: Value, imm: Half)
    requires v / TWO16 % TWO16 == 0
    ensures OrImmShifted(v, imm) == v + imm * TWO16
  {
    Powers();
    OrZero(imm, 16);
    assert v / TWO16 == v / TWO32 * TWO16;
  }

  /** Without a scratch register. */
  lemma {:induction false} LoadedInPlace(x: int)
    ensures var v := OrImm(AddImmShifted(0, Quarter(x, 3)), Quarter(x, 2));
      OrImm(OrImmShifted(Wrap(v * TWO32), Quarter(x, 1)), Quarter(x, 0)) == Wrap(x)
  {
    var xa, xb, xc, xd := Quarter(x, 3), Quarter(x, 2), Quarter(x, 1), Quarter(x, 0);
    var v := OrImm(AddImmShifted(0, xa), xb);
    ShiftedHalf(xa, xb);
    QuartersSum(x);
    hide OrImm, AddImmShifted, OrImmShifted, Quarter, Wrap;
    var w := Wrap(v * TWO32);
    ShiftedUp(v, xa * TWO16 + xb);
    RoomBelow(xa * TWO16 + xb, xc);
    OrZeroShifted(w, xc);
    OrIntoZero(w + xc * TWO16, xd);
  }

  lemma {:induction false} RoomBelow(high: int, xc: Half)
    requires 0 <= high < TWO32
    ensures var w := high * TWO32;
      && w / TWO16 % TWO16 == 0 && 0 <= w <= w + xc * TWO16 < TWO64
      && (w + xc * TWO16) % TWO16 == 0
  {
    assert high * TWO32 / TWO16 == high * TWO16;
  }

  lemma {:induction false} ShiftedUp(v: Value, low: int)
    requires v % TWO32 == low
    ensures Wrap(v * TWO32) == low * TWO32
  {
    var q := v / TWO32;
    assert v * TWO32 == q * TWO64 + low * TWO32;
  }

  /** With a scratch register. */
  lemma {:induction false} LoadedInParts(x: int)
    ensures var t := OrImm(AddImmShifted(0, Quarter(x, 3)), Quarter(x, 2));
      var v := OrImm(AddImmShifted(0, Quarter(x, 1)), Quarter(x, 0));
      (t % TWO32) * TWO32 + v % TWO32 == Wrap(x)
  {
    ShiftedHalf(Quarter(x, 3), Quarter(x, 2));
    ShiftedHalf(Quarter(x, 1), Quarter(x, 0));
    hide OrImm, AddImmShifted;
    QuartersSum(x);
  }

  lemma {:induction false} LoadConstSteps(before: seq<Instr>, d: Reg, x: int) returns (k: Track)
    ensures var c := LoadConstCode(d, x, None);
      Follows(before + [c[0]] + [c[1]] + [c[2]] + [c[3]] + [c[4]], k)
    ensures k.before == before && k.d == d && k.tmp == None && k.v == Some(Wrap(x))
  {
    hide Follows, Computes, AddImmShifted, OrImm, OrImmShifted, RotateClear, Quarter;
    var xa, xb, xc, xd := Quarter(x, 3), Quarter(x, 2), Quarter(x, 1), Quarter(x, 0);
    var code := before;
    k := Start(code, d, None);
    ComputesLi(k.Known(), d, xa);
    FollowsStep(code, k, Addis(d, 0, xa), d, AddImmShifted(0, xa));
    code, k := code + [Addis(d, 0, xa)], k.Put(d, AddImmShifted(0, xa));
    ComputesOri(k.Known(), d, xb);
    FollowsStep(code, k, Ori(d, d, xb), d, OrImm(k.v.value, xb));
    code, k := code + [Ori(d, d, xb)], k.Put(d, OrImm(k.v.value, xb));
    ComputesOri(k.Known(), d, xb);
    FollowsStep(code, k, Rldicr(d, d, 32, 31), d, RotateClear(k.v.value, 32, 31));
    ShiftLeftWord(k.v.value);
    code, k := code + [Rldicr(d, d, 32, 31)], k.Put(d, RotateClear(k.v.value, 32, 31));
    ComputesOri(k.Known(), d, xc);
    FollowsStep(code, k, Oris(d, d, xc), d, OrImmShifted(k.v.value, xc));
    code, k := code + [Oris(d, d, xc)], k.Put(d, OrImmShifted(k.v.value, xc));
    ComputesOri(k.Known(), d, xd);
    FollowsStep(code, k, Ori(d, d, xd), d, OrImm(k.v.value, xd));
    k := k.Put(d, OrImm(k.v.value, xd));
    LoadedInPlace(x);
  }

  lemma {:induction false} LoadConstScratchSteps(before: seq<Instr>, d: Reg, x: int, t: Reg) returns (k: Track)
    requires t != d
    ensures var c := LoadConstCode(d, x, Some(t));
      Follows(before + [c[0]] + [c[1]] + [c[2]] + [c[3]] + [c[4]], k)
    ensures k.before == before && k.d == d && k.tmp == Some(t) && k.v == Some(Wrap(x))
  {
    hide Follows, Computes, AddImmShifted, OrImm, RotateInsert, Quarter;
    var xa, xb, xc, xd := Quarter(x, 3), Quarter(x, 2), Quarter(x, 1), Quarter(x, 0);
    var code := before;
    k := Start(code, d, Some(t));
    ComputesLi(k.Known(), t, xa);
    FollowsStep(code, k, Addis(t, 0, xa), t, AddImmShifted(0, xa));
    code, k := code + [Addis(t, 0, xa)], k.Put(t, AddImmShifted(0, xa));
    ComputesLi(k.Known(), d, xc);
    FollowsStep(code, k, Addis(d, 0, xc), d, AddImmShifted(0, xc));
    code, k := code + [Addis(d, 0, xc)], k.Put(d, AddImmShifted(0, xc));
    ComputesOri(k.Known(), t, xb);
    FollowsStep(code, k, Ori(t, t, xb), t, OrImm(k.t.value, xb));
    code, k := code + [Ori(t, t, xb)], k.Put(t, OrImm(k.t.value, xb));
    ComputesOri(k.Known(), d, xd);
    FollowsStep(code, k, Ori(d, d, xd), d, OrImm(k.v.value, xd));
    code, k := code + [Ori(d, d, xd)], k.Put(d, OrImm(k.v.value, xd));
    ComputesInsrdi(k.Known(), d, t);
    FollowsStep(code, k, Rldimi(d, t, 32, 0), d, RotateInsert(k.t.value, 32, 0, k.v.value));
    InsertHighWord(k.t.value, k.v.value);
    k := k.Put(d, RotateInsert(k.t.value, 32, 0, k.v.value));
    LoadedInParts(x);
  }

  /** Running the five instructions leaves the constant in `d`. */
  lemma {:induction false} LoadConstLoads(before: seq<Instr>, d: Reg, x: int, tmp: Option<Reg>)
    requires tmp != Some(d)
    ensures Loads(before, before + LoadConstCode(d, x, tmp), d, tmp, x, 0)
  {
    hide Follows, Loads, Quarter;
    var c := LoadConstCode(d, x, tmp);
    var k: Track;
    if tmp.None? {
      k := LoadConstSteps(before, d, x);
    } else {
      k := LoadConstScratchSteps(before, d, x, tmp.value);
    }
    assert before + [c[0]] + [c[1]] + [c[2]] + [c[3]] + [c[4]] == before + c;
    AddNothing(Wrap(x));
    FollowedLoads(before + c, k, x, 0);
  }

  /** Assembler::load_const. */
  method LoadConst(a: Assembler, d: Reg, x: Long, tmp: Option<Reg>)
    requires a.Valid() && tmp != Some(d)
    modifies a
    ensures a.Valid() && a.code == old(a.code) + LoadConstCode(d, x, tmp)
    ensures Loads(old(a.code), a.code, d, tmp, x, 0)
  {
    hide Loads, Quarter;
    var xa, xb, xc, xd := Quarter(x, 3), Quarter(x, 2), Quarter(x, 1), Quarter(x, 0);
    ghost var c := LoadConstCode(d, x, tmp);
    if tmp.None? {
      EmitFive(a, Addis(d, 0, xa), Ori(d, d, xb), Rldicr(d, d, 32, 31), Oris(d, d, xc), Ori(d, d, xd));
    } else {
      var t := tmp.value;
      EmitFive(a, Addis(t, 0, xa), Addis(d, 0, xc), Ori(t, t, xb), Ori(d, d, xd), Rldimi(d, t, 32, 0));
    }
    LoadConstLoads(old(a.code), d, x, tmp);
  }

  method EmitFive(a: Assembler, c0: Instr, c1: Instr, c2: Instr, c3: Instr, c4: Instr)
    requires a.Valid() && Encodable(c0) && Encodable(c1) && Encodable(c2) && Encodable(c3) && Encodable(c4)
    modifies a
    ensures a.Valid() && a.code == old(a.code) + [c0, c1, c2, c3, c4]
  {
    hide Encodable, EncodeAll;
    a.Emit(c0);
    a.Emit(c1);
    a.Emit(c2);
    a.Emit(c3);
    a.Emit(c4);
  }

  // ----- patching -----

  /** Assembler::set_imm. */
  function SetImm(w: Word, imm: Half): Word {
    w - w % TWO16 + imm
  }

  /** Which quarter of the constant each word carries; the remaining word carries none. */
  function QuarterOf(scratch: bool, i: nat): Option<nat>
    requires i < 5
  {
    if scratch then
      [Some(3), Some(1), Some(2), Some(0), None][i]
    else
      [Some(3), Some(2), None, Some(1), Some(0)][i]
  }

  /** Writes the constant into the words of a load. */
  function Patch(words: seq<Word>, y: int, scratch: bool): (r: seq<Word>)
    requires |words| == 5
    ensures |r| == 5
  {
    seq(5, i requires 0 <= i < 5 =>
      match QuarterOf(scratch, i)
      case Some(q) => if q < 4 then SetImm(words[i], Quarter(y, q)) else words[i]
      case None => words[i])
  }

  lemma {:induction false} SetImmDForm(op: Six, rt: Reg, ra: Reg, imm: Half, imm': Half)
    ensures SetImm(DForm(op, rt, ra, imm), imm') == DForm(op, rt, ra, imm')
  {
  }

  /** Patching turns the load of any constant into the load of any other one. */
  lemma {:induction false} PatchTurns(d: Reg, x: int, y: int, tmp: Option<Reg>)
    ensures Patch(EncodeAll(LoadConstCode(d, x, tmp)), y, tmp.Some?) == EncodeAll(LoadConstCode(d, y, tmp))
  {
    hide Quarter, DForm, MdForm, SetImm, EncodeAll;
    var cx, cy := LoadConstCode(d, x, tmp), LoadConstCode(d, y, tmp);
    forall i | 0 <= i < 5 ensures Patch(EncodeAll(cx), y, tmp.Some?)[i] == EncodeAll(cy)[i] {
      PatchWord(d, x, y, tmp, i);
    }
  }

  lemma {:induction false} PatchWord(d: Reg, x: int, y: int, tmp: Option<Reg>, i: nat)
    requires i < 5
    ensures var w, w' := Encode(LoadConstCode(d, x, tmp)[i]), Encode(LoadConstCode(d, y, tmp)[i]);
      match QuarterOf(tmp.Some?, i)
      case Some(q) => q < 4 && w' == SetImm(w, Quarter(y, q))
      case None => w' == w
  {
    hide Quarter, DForm, MdForm, SetImm;
    match LoadConstCode(d, x, tmp)[i] {
      case Addis(rt, ra, imm) => SetImmWith(15, rt, ra, imm, y);
      case Ori(ra, rs, imm) => SetImmWith(24, rs, ra, imm, y);
      case Oris(ra, rs, imm) => SetImmWith(25, rs, ra, imm, y);
      case _ =>
    }
  }

  lemma {:induction false} SetImmWith(op: Six, rt: Reg, ra: Reg, imm: Half, y: int)
    ensures forall q: nat :: q < 4 ==> SetImm(DForm(op, rt, ra, imm), Quarter(y, q)) == DForm(op, rt, ra, Quarter(y, q))
  {
    forall q: nat | q < 4 ensures SetImm(DForm(op, rt, ra, imm), Quarter(y, q)) == DForm(op, rt, ra, Quarter(y, q)) {
      SetImmDForm(op, rt, ra, imm, Quarter(y, q));
    }
  }

  /** Running the words of a load, patched or not, leaves the constant written last. */
  lemma {:induction false} PatchedLoads(d: Reg, x: int, y: int, tmp: Option<Reg>, s: State)
    requires tmp != Some(d)
    ensures var words := Patch(EncodeAll(LoadConstCode(d, x, tmp)), y, tmp.Some?);
      RunWords(words, s).Some? && LoadsFrom(s, RunWords(words, s).value, d, tmp, y, 0)
  {
    hide Patch, LoadConstCode, EncodeAll, RunWords, LoadsFrom, Exec;
    var code := LoadConstCode(d, y, tmp);
    PatchTurns(d, x, y, tmp);
    WordsRun(code, s);
    LoadConstLoads([], d, y, tmp);
    assert [] + code == code;
    assert LoadsFrom(Run([], s), Run(code, s), d, tmp, y, 0);
  }

  /** The words for two constants differ only in the low halves that are patched. */
  lemma {:induction false} WordsDiffer(d: Reg, x: int, y: int, tmp: Option<Reg>, i: nat)
    requires i < 5
    ensures var w, w' := EncodeAll(LoadConstCode(d, x, tmp))[i], EncodeAll(LoadConstCode(d, y, tmp))[i];
      w / TWO16 == w' / TWO16 && (QuarterOf(tmp.Some?, i).None? ==> w == w')
  {
    hide Quarter, DForm, MdForm, EncodeAll;
    PatchWord(d, x, y, tmp, i);
  }
}
