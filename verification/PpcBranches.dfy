/**
 Emitting and patching branches and finding their destinations (Assembler::b, bc, patched_branch,
 branch_destination, is_within_range_of_b, is_within_range_of_bcxx). Words and addresses are numbers.
 */
module PpcBranches {
  import opened Basics
  import opened PpcIsa

  const B_OP: int := 18
  const BC_OP: int := 16
  const TWO14: int := 0x4000
  const TWO24: int := 0x100_0000

  type Int = x: int | -0x8000_0000 <= x < 0x8000_0000

  /** Conversion to a C int: the low 32 bits, read as a signed number. */
  function ToInt(x: int): Int {
    var w := x % TWO32;
    if w < 0x8000_0000 then w else w - TWO32
  }

  /** disp: the distance in words; the difference is cut to an int first, and shifting rounds down. */
  function Disp(dest: int, pos: int): Int {
    ToInt(dest - pos) / 4
  }

  predicate IsBranch(inst: Word) {
    InvOp(inst) == B_OP || InvOp(inst) == BC_OP
  }

  /** How many values the displacement field has: 24 bits in b, 14 bits in bc. */
  function Range(inst: Word): int {
    if InvOp(inst) == B_OP then TWO24 else TWO14
  }

  /** The displacement field, above the bits AA and LK. */
  function DispField(inst: Word): int {
    inst / 4 % Range(inst)
  }

  /** Assembler::patched_branch: clears the field and puts in the low bits of the distance. */
  function PatchedBranch(dest: Int, inst: Word, pos: Int): Word
    requires IsBranch(inst)
  {
    PatchFits(inst, Disp(dest, pos) % Range(inst));
    inst - DispField(inst) * 4 + (Disp(dest, pos) % Range(inst)) * 4
  }

  lemma {:induction false} PatchFits(inst: Word, v: int)
    requires 0 <= v < Range(inst)
    ensures 0 <= inst - DispField(inst) * 4 + v * 4 < TWO32
  {
    var n := Range(inst);
    assert inst / 4 == inst / 4 / n * n + DispField(inst);
    assert inst == inst / 4 * 4 + inst % 4;
  }

  /** The displacement field, sign-extended. */
  function SignedDisp(inst: Word): int {
    var f, n := DispField(inst), Range(inst);
    if f < n / 2 then f else f - n
  }

  /** Assembler::branch_destination. */
  function BranchDestination(inst: Word, pos: Int): Int
    requires IsBranch(inst)
  {
    ToInt(pos + SignedDisp(inst) * 4)
  }

  /** The distance is a whole number of words and fits the field. */
  predicate InReach(inst: Word, dest: int, pos: int) {
    var distance := ToInt(dest - pos);
    distance % 4 == 0 && -2 * Range(inst) <= distance < 2 * Range(inst)
  }

  // ----- what patching does to a word -----

  /** A word split around a field of `n` values. */
  lemma {:induction false} Split(w: int, n: int)
    requires n == TWO24 || n == TWO14
    ensures w == (w / 4 / n * n + w / 4 % n) * 4 + w % 4
  {
  }

  lemma {:induction false} Rebuilt(high: int, f: int, low: int, n: int)
    requires (n == TWO24 || n == TWO14) && 0 <= f < n && 0 <= low < 4
    ensures var w := (high * n + f) * 4 + low;
      w % 4 == low && w / 4 % n == f && w / 4 / n == high
  {
    var w := (high * n + f) * 4 + low;
    assert w / 4 == high * n + f;
  }

  lemma {:induction false} OpAbove(w: Word, n: int)
    requires n == TWO24 || n == TWO14
    ensures InvOp(w) == if n == TWO24 then w / 4 / n else w / 4 / n / 32 / 32
  {
  }

  /** Opcode, BO, BI, AA and LK stay; the field holds the low bits of the distance. */
  lemma {:induction false} PatchKeeps(dest: Int, inst: Word, pos: Int)
    requires IsBranch(inst)
    ensures var p := PatchedBranch(dest, inst, pos);
      && InvOp(p) == InvOp(inst) && IsBranch(p) && Range(p) == Range(inst)
      && p % 4 == inst % 4 && p / 4 / Range(inst) == inst / 4 / Range(inst)
      && DispField(p) == Disp(dest, pos) % Range(inst)
  {
    var n, v := Range(inst), Disp(dest, pos) % Range(inst);
    var p := PatchedBranch(dest, inst, pos);
    Split(inst, n);
    Rebuilt(inst / 4 / n, v, inst % 4, n);
    assert p == (inst / 4 / n * n + v) * 4 + inst % 4;
    OpAbove(inst, n);
    OpAbove(p, n);
  }

  // ----- round trips -----

  /** A patched branch leads to its destination exactly when that is in reach of the field. */
  lemma {:induction false} PatchRoundTrip(dest: Int, inst: Word, pos: Int)
    requires IsBranch(inst)
    ensures var p := PatchedBranch(dest, inst, pos);
      IsBranch(p) && (BranchDestination(p, pos) == dest <==> InReach(inst, dest, pos))
  {
    PatchKeeps(dest, inst, pos);
    var p, n := PatchedBranch(dest, inst, pos), Range(inst);
    hide PatchedBranch, InvOp, DispField;
    var distance := ToInt(dest - pos);
    SignedField(distance / 4, n);
    Reaches(dest, pos, SignedDisp(p) * 4);
  }

  /** A value that goes through a signed field of `n` values comes back exactly when it fits. */
  lemma {:induction false} SignedField(x: int, n: int)
    requires n == TWO24 || n == TWO14
    ensures var f := x % n;
      var back := if f < n / 2 then f else f - n;
      (back == x <==> -(n / 2) <= x < n / 2) && -(n / 2) <= back < n / 2
  {
  }

  lemma {:induction false} Reaches(dest: Int, pos: Int, step: int)
    requires -0x8000_0000 <= step < 0x8000_0000
    ensures ToInt(pos + step) == dest <==> ToInt(dest - pos) == step
  {
  }

  /** The last patch wins. */
  lemma {:induction false} LastPatchWins(dest: Int, dest': Int, inst: Word, pos: Int)
    requires IsBranch(inst)
    ensures IsBranch(PatchedBranch(dest, inst, pos))
    ensures PatchedBranch(dest', PatchedBranch(dest, inst, pos), pos) == PatchedBranch(dest', inst, pos)
  {
    var p := PatchedBranch(dest, inst, pos);
    PatchKeeps(dest, inst, pos);
    PatchKeeps(dest', inst, pos);
    PatchKeeps(dest', p, pos);
    var n := Range(inst);
    var q, r := PatchedBranch(dest', p, pos), PatchedBranch(dest', inst, pos);
    Split(q, n);
    Split(r, n);
  }

  // ----- the range checks -----

  /** is_within_range_of_b (with 24 bits) and is_within_range_of_bcxx (with 14 bits). */
  predicate IsWithinRange(a: Addr, pc: Addr, n: int) {
    a % 4 == 0 && -(n / 2) <= Disp(a, pc) < n / 2 - 1
  }

  /** What the source program asks for: b or bl, or bc or bcl with the fields BO and BI. */
  datatype Branch = B(link: bool) | Bc(link: bool, bo: Reg, bi: Reg)
  {
    function Range(): int {
      if B? then TWO24 else TWO14
    }

    /** Everything above the displacement field. */
    function Head(): int {
      if B? then B_OP * 0x400_0000 else BC_OP * 0x400_0000 + bo * 0x20_0000 + bi * 0x1_0000
    }

    /** Assembler::b, bl, bc and bcl at `pc` towards `a`. */
    function Emit(a: Addr, pc: Addr): Word {
      Head() + Disp(a, pc) % Range() * 4 + if link then 1 else 0
    }
  }

  /** bxx_destination and inv_bd_field on 64-bit addresses. */
  function Destination(inst: Word, pc: Addr): Addr {
    Wrap(pc + SignedDisp(inst) * 4)
  }

  /** The emitted word is the branch that was asked for, and its field holds the low bits of the distance. */
  lemma {:induction false} EmittedFields(br: Branch, a: Addr, pc: Addr)
    ensures var w := br.Emit(a, pc);
      && InvOp(w) == (if br.B? then B_OP else BC_OP) && Range(w) == br.Range()
      && DispField(w) == Disp(a, pc) % br.Range() && w % 4 == (if br.link then 1 else 0)
      && (br.Bc? ==> w / 0x20_0000 % 32 == br.bo && w / 0x1_0000 % 32 == br.bi)
  {
    var n, w, lk := br.Range(), br.Emit(a, pc), if br.link then 1 else 0;
    var high := if br.B? then B_OP else (BC_OP * 32 + br.bo) * 32 + br.bi;
    assert w == (high * n + Disp(a, pc) % n) * 4 + lk;
    Rebuilt(high, Disp(a, pc) % n, lk, n);
    OpAbove(w, n);
  }

  /** The distance from `pc` to `a` on the 64-bit address circle fits an int. */
  predicate FitsInt(a: Addr, pc: Addr) {
    Wrap(a - pc + 0x8000_0000) < TWO32
  }

  /**
   A branch that passes the range check leads to its target exactly when the distance fits 32 bits:
   the check looks at a distance that has been cut to an int.
   */
  lemma {:induction false} RangeCheck(br: Branch, a: Addr, pc: Addr)
    requires pc % 4 == 0 && IsWithinRange(a, pc, br.Range())
    ensures Destination(br.Emit(a, pc), pc) == a <==> FitsInt(a, pc)
  {
    var cut := ToInt(a - pc);
    EmittedFields(br, a, pc);
    SignedField(Disp(a, pc), br.Range());
    CutAligned(a, pc);
    assert Disp(a, pc) * 4 == cut;
    CutReaches(a, pc, cut);
  }

  lemma {:induction false} CutAligned(a: Addr, pc: Addr)
    requires a % 4 == 0 && pc % 4 == 0
    ensures ToInt(a - pc) % 4 == 0
  {
    var x := a - pc;
    var y, q := x / 4, x / TWO32;
    assert x == 4 * y;
    assert x % TWO32 == 4 * (y - q * 0x4000_0000);
    FourTimes(y - q * 0x4000_0000);
    FourTimes(y - q * 0x4000_0000 - 0x4000_0000);
  }

  lemma {:induction false} FourTimes(z: int)
    ensures 4 * z % 4 == 0
  {
  }

  lemma {:induction false} CutReaches(a: Addr, pc: Addr, cut: int)
    requires cut == ToInt(a - pc)
    ensures Wrap(pc + cut) == a <==> FitsInt(a, pc)
  {
    var k := (a - pc - cut) / TWO32;
    assert a - pc == cut + k * TWO32;
    WrapWords(k, cut + 0x8000_0000);
    WrapEquals(pc + cut, a);
    WrapWords(-k, 0);
    NoWords(k);
  }

  lemma {:induction false} WrapWords(k: int, low: int)
    requires 0 <= low < TWO32
    ensures Wrap(k * TWO32 + low) == k % TWO32 * TWO32 + low
  {
    var q := k / TWO32;
    assert k * TWO32 + low == q * TWO64 + (k % TWO32 * TWO32 + low);
  }

  lemma {:induction false} WrapEquals(x: int, a: Addr)
    ensures Wrap(x) == a <==> Wrap(x - a) == 0
  {
    var q := x / TWO64;
    assert x == q * TWO64 + Wrap(x);
    var d := Wrap(x) - a;
    assert x - a == q * TWO64 + d;
    if d < 0 {
      assert x - a == (q - 1) * TWO64 + (d + TWO64);
    }
  }

  lemma {:induction false} NoWords(k: int)
    ensures k % TWO32 == 0 <==> -k % TWO32 == 0
  {
    var q := k / TWO32;
    assert k == q * TWO32 + k % TWO32;
  }

  /** A target 2^32 bytes away passes the check, but the emitted branch leads back to itself. */
  lemma {:induction false} FarTargetPasses(br: Branch, pc: Addr)
    requires pc % 4 == 0 && pc < TWO32
    ensures IsWithinRange(pc + TWO32, pc, br.Range()) && Destination(br.Emit(pc + TWO32, pc), pc) == pc
  {
    EmittedFields(br, pc + TWO32, pc);
  }

  /**
   Of the targets whose distance fits 32 bits the range check accepts exactly those that the emitted branch reaches,
   but for one: the farthest one ahead.
   */
  lemma {:induction false} AcceptedIff(br: Branch, a: Addr, pc: Addr)
    requires pc % 4 == 0 && FitsInt(a, pc)
    ensures IsWithinRange(a, pc, br.Range()) <==>
      && Destination(br.Emit(a, pc), pc) == a
      && ToInt(a - pc) != if br.B? then 0x1FF_FFFC else 0x7FFC
  {
    var cut := ToInt(a - pc);
    EmittedFields(br, a, pc);
    SignedField(Disp(a, pc), br.Range());
    CutReaches(a, pc, cut);
    CutAligned4(a, pc);
    var w := br.Emit(a, pc);
    hide InvOp, DispField;
    WrapStep(pc, SignedDisp(w) * 4, cut);
  }

  lemma {:induction false} CutAligned4(a: Addr, pc: Addr)
    requires pc % 4 == 0
    ensures ToInt(a - pc) % 4 == 0 <==> a % 4 == 0
  {
    var x := a - pc;
    var y, r, q := x / 4, x % 4, x / TWO32;
    assert x == 4 * y + r;
    var w := x % TWO32;
    assert w == 4 * (y - q * 0x4000_0000) + r;
    FourTimesPlus(y - q * 0x4000_0000, r);
    FourTimesPlus(y - q * 0x4000_0000 - 0x4000_0000, r);
    assert a == 4 * (y + pc / 4) + r;
    FourTimesPlus(y + pc / 4, r);
  }

  lemma {:induction false} FourTimesPlus(z: int, r: int)
    requires 0 <= r < 4
    ensures (4 * z + r) % 4 == r
  {
  }

  /** Two short steps from `pc` lead to the same address only if they are the same. */
  lemma {:induction false} WrapStep(pc: Addr, x: int, y: int)
    requires -0x8000_0000 <= x < 0x8000_0000 && -0x8000_0000 <= y < 0x8000_0000
    ensures Wrap(pc + x) == Wrap(pc + y) <==> x == y
  {
    var p, q := (pc + x) / TWO64, (pc + y) / TWO64;
    assert pc + x == p * TWO64 + Wrap(pc + x) && pc + y == q * TWO64 + Wrap(pc + y);
    if Wrap(pc + x) == Wrap(pc + y) {
      assert x - y == (p - q) * TWO64;
    }
  }

  /** Words written out: b and bl eight bytes ahead, beq eight bytes ahead, b to itself and eight bytes back. */
  lemma {:induction false} KnownBranches(pc: Addr)
    requires 8 <= pc < TWO64 - 8
    ensures B(false).Emit(pc + 8, pc) == 0x4800_0008 && B(true).Emit(pc + 8, pc) == 0x4800_0009
    ensures Bc(false, 12, 2).Emit(pc + 8, pc) == 0x4182_0008 && Bc(true, 12, 2).Emit(pc + 8, pc) == 0x4182_0009
    ensures B(false).Emit(pc, pc) == 0x4800_0000 && B(false).Emit(pc - 8, pc) == 0x4BFF_FFF8
    ensures Bc(false, 12, 2).Emit(pc - 8, pc) == 0x4182_FFF8
  {
  }
}
