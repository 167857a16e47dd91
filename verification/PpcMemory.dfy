/**
 Loads and stores whose offset is a register or a constant (Assembler::ld, lwa, lwz, lha, lhz, lbz,
 std, stw, sth and stb with a RegisterOrConstant). All of them have the same shape; the kind of
 access is a parameter here.
 */
module PpcMemory {
  import opened Basics
  import opened PpcIsa
  import opened PpcMachine
  import opened PpcAssembler

  datatype Roc = Register(r: Reg) | Constant(c: Long)

  predicate IsSimm16(c: int) {
    -0x8000 <= c < 0x8000
  }

  /** The low half of a small constant. */
  function Imm(c: int): Half
    requires IsSimm16(c)
  {
    c % TWO16
  }

  /** The address asked for: constant or register, plus base. */
  function Address(roc: Roc, base: Option<Reg>, s: State): Value {
    var offset := match roc { case Constant(c) => c case Register(r) => s.regs(r) };
    Wrap(offset + match base { case None => 0 case Some(b) => s.regs(b) })
  }

  /** The constant does not fit the instruction and is added to a base. */
  predicate Large(roc: Roc, base: Option<Reg>) {
    base.Some? && roc.Constant? && !IsSimm16(roc.c)
  }

  /** Offsets of doubleword accesses must be multiples of four; a small constant without base is loaded whole. */
  predicate Aligned(doubleword: bool, c: int, base: Option<Reg>) {
    doubleword ==> c % 4 == 0 || (base.None? && IsSimm16(c))
  }

  // ----- loads -----

  /** What the load emitters assert. */
  predicate CanLoad(k: LoadKind, d: Reg, roc: Roc, base: Option<Reg>) {
    match roc
    case Register(r) => r != 0
    case Constant(c) =>
      if base.None? then d != 0 && Aligned(k == Ld || k == Lwa, c, base)
      else if IsSimm16(c) then base.value != 0 && Aligned(k == Ld || k == Lwa, c, base)
      else d != 0
  }

  /** The address that is read: with a large constant the destination is overwritten before the base is read. */
  function LoadAddress(d: Reg, roc: Roc, base: Option<Reg>, s: State): Value {
    if Large(roc, base) && base == Some(d) then Wrap(2 * roc.c) else Address(roc, base, s)
  }

  ghost predicate Loaded(k: LoadKind, d: Reg, roc: Roc, base: Option<Reg>, a: State, b: State) {
    && b.regs(d) == LoadValue(k, a.mem, LoadAddress(d, roc, base, a))
    && b.mem == a.mem
    && forall r: Reg :: r != d ==> b.regs(r) == a.regs(r)
  }

  /** The last instruction of a load, run after `d` may have been set. */
  lemma {:induction false} LoadedBy(k: LoadKind, d: Reg, roc: Roc, base: Option<Reg>, i: Instr, a: State, m: State,
                                    address: Value)
    requires Exec(i, m) == Set(m, d, LoadValue(k, m.mem, address)) && address == LoadAddress(d, roc, base, a)
    requires m.mem == a.mem && forall r: Reg :: r != d ==> m.regs(r) == a.regs(r)
    ensures Loaded(k, d, roc, base, a, Exec(i, m))
  {
    hide Exec, Set, LoadValue, LoadAddress;
    var v := LoadValue(k, m.mem, address);
    SetMem(m, d, v);
    SetReg(m, d, v, d);
    forall r: Reg | r != d ensures Exec(i, m).regs(r) == a.regs(r) {
      SetReg(m, d, v, r);
    }
  }

  lemma {:induction false} AddressOf(x: int, rest: Half, v: Value)
    requires AddImm(v, rest) == Wrap(x)
    ensures v == Wrap(x - Signed16(rest)) && (rest == 0 ==> v == Wrap(x))
  {
  }

  /** Whatever the start, the code since `before` is a load of the given kind and address. */
  ghost predicate IsLoad(before: seq<Instr>, code: seq<Instr>, k: LoadKind, d: Reg, roc: Roc, base: Option<Reg>) {
    forall s: State :: Loaded(k, d, roc, base, Run(before, s), Run(code, s))
  }

  lemma {:induction false} RunNext(code: seq<Instr>, i: Instr, s: State)
    ensures Run(code + [i], s) == Exec(i, Run(code, s))
  {
    assert (code + [i])[..|code|] == code;
  }

  lemma {:induction false} LoadBaseless(before: seq<Instr>, mid: seq<Instr>, k: LoadKind, d: Reg, c: Long, rest: Half)
    requires Loads(before, mid, d, None, c, rest) && d != 0
    ensures IsLoad(before, mid + [Load(k, d, rest, d)], k, d, Constant(c), None)
  {
    hide Run, Set, LoadValue, AddImm;
    var i := Load(k, d, rest, d);
    forall s: State ensures Loaded(k, d, Constant(c), None, Run(before, s), Run(mid + [i], s)) {
      var a, m := Run(before, s), Run(mid, s);
      RunNext(mid, i, s);
      assert LoadsFrom(a, m, d, None, c, rest);
      LoadedBy(k, d, Constant(c), None, i, a, m, Wrap(c));
    }
  }

  lemma {:induction false} LoadLarge(before: seq<Instr>, mid: seq<Instr>, k: LoadKind, d: Reg, c: Long, base: Reg)
    requires Loads(before, mid, d, None, c, 0) && d != 0 && !IsSimm16(c)
    ensures IsLoad(before, mid + [LoadIndexed(k, d, d, base)], k, d, Constant(c), Some(base))
  {
    hide Run, Set, LoadValue, AddImm;
    var i := LoadIndexed(k, d, d, base);
    forall s: State ensures Loaded(k, d, Constant(c), Some(base), Run(before, s), Run(mid + [i], s)) {
      var a, m := Run(before, s), Run(mid, s);
      RunNext(mid, i, s);
      assert LoadsFrom(a, m, d, None, c, 0);
      AddressOf(c, 0, m.regs(d));
      var address := Wrap(m.regs(d) + m.regs(base));
      if base == d {
        WrapTwice(c);
      } else {
        WrapAdd(c, a.regs(base));
      }
      LoadedBy(k, d, Constant(c), Some(base), i, a, m, address);
    }
  }

  lemma {:induction false} WrapTwice(c: int)
    ensures Wrap(Wrap(c) + Wrap(c)) == Wrap(2 * c)
  {
    hide Wrap;
    WrapAdd(c, Wrap(c));
    WrapAdd(c, c);
  }

  /** In every state `i` is a load of the given address. */
  ghost predicate LoadsAt(i: Instr, k: LoadKind, d: Reg, roc: Roc, base: Option<Reg>) {
    forall s: State :: LoadsAtFrom(i, k, d, roc, base, s)
  }

  ghost predicate LoadsAtFrom(i: Instr, k: LoadKind, d: Reg, roc: Roc, base: Option<Reg>, s: State) {
    Exec(i, s) == Set(s, d, LoadValue(k, s.mem, Address(roc, base, s)))
  }

  /** A load by a single instruction. */
  lemma {:induction false} LoadSingle(before: seq<Instr>, k: LoadKind, d: Reg, roc: Roc, base: Option<Reg>, i: Instr)
    requires !Large(roc, base) && LoadsAt(i, k, d, roc, base)
    ensures IsLoad(before, before + [i], k, d, roc, base)
  {
    hide Run, Set, LoadValue, Exec, Address;
    forall s: State ensures Loaded(k, d, roc, base, Run(before, s), Run(before + [i], s)) {
      var a := Run(before, s);
      RunNext(before, i, s);
      assert LoadsAtFrom(i, k, d, roc, base, a);
      LoadedBy(k, d, roc, base, i, a, a, Address(roc, base, a));
    }
  }

  lemma {:induction false} SignedImm(c: int)
    requires IsSimm16(c)
    ensures Signed16(Imm(c)) == c
  {
  }

  lemma {:induction false} LoadSmall(before: seq<Instr>, k: LoadKind, d: Reg, c: Long, base: Reg)
    requires IsSimm16(c) && base != 0
    ensures IsLoad(before, before + [Load(k, d, Imm(c), base)], k, d, Constant(c), Some(base))
  {
    hide Run, Set, LoadValue, IsLoad, Wrap;
    var i := Load(k, d, Imm(c), base);
    forall s: State ensures LoadsAtFrom(i, k, d, Constant(c), Some(base), s) {
      SignedImm(c);
    }
    LoadSingle(before, k, d, Constant(c), Some(base), i);
  }

  lemma {:induction false} LoadRegister(before: seq<Instr>, k: LoadKind, d: Reg, r: Reg, base: Option<Reg>)
    requires r != 0
    ensures base.None? ==> IsLoad(before, before + [Load(k, d, 0, r)], k, d, Register(r), base)
    ensures base.Some? ==> IsLoad(before, before + [LoadIndexed(k, d, r, base.value)], k, d, Register(r), base)
  {
    hide Run, Set, LoadValue, IsLoad, Wrap;
    if base.None? {
      forall s: State ensures LoadsAtFrom(Load(k, d, 0, r), k, d, Register(r), base, s) {
      }
      LoadSingle(before, k, d, Register(r), base, Load(k, d, 0, r));
    } else {
      forall s: State ensures LoadsAtFrom(LoadIndexed(k, d, r, base.value), k, d, Register(r), base, s) {
      }
      LoadSingle(before, k, d, Register(r), base, LoadIndexed(k, d, r, base.value));
    }
  }

  method EmitLoad(a: Assembler, k: LoadKind, d: Reg, roc: Roc, base: Option<Reg>)
    requires a.Valid() && CanLoad(k, d, roc, base)
    modifies a
    ensures a.Valid() && IsLoad(old(a.code), a.code, k, d, roc, base)
  {
    hide Loads, IsLoad, AllEncodable, EncodeAll, Imm, Above, Chunk;
    ghost var before := a.code;
    match roc {
      case Constant(c) =>
        if base.None? {
          var rest := a.LoadConstOptimized(d, c, None, true);
          RestAligned(k == Ld || k == Lwa, c);
          LoadBaseless(before, a.code, k, d, c, rest);
          a.Emit(Load(k, d, rest, d));
        } else if IsSimm16(c) {
          SmallAligned(c);
          LoadSmall(before, k, d, c, base.value);
          a.Emit(Load(k, d, Imm(c), base.value));
        } else {
          var rest := a.LoadConstOptimized(d, c, None, false);
          LoadLarge(before, a.code, k, d, c, base.value);
          a.Emit(LoadIndexed(k, d, d, base.value));
        }
      case Register(r) =>
        LoadRegister(before, k, d, r, base);
        if base.None? {
          a.Emit(Load(k, d, 0, r));
        } else {
          a.Emit(LoadIndexed(k, d, r, base.value));
        }
    }
  }

  lemma {:induction false} RestAligned(doubleword: bool, c: int)
    requires Aligned(doubleword, c, None)
    ensures doubleword ==> (if Above(c) == 0 then 0 else Chunk(c)) % 4 == 0
  {
    if c % 4 == 0 {
      ChunkAligned(c);
    } else if doubleword {
      SmallHasNothingAbove(c);
    }
  }

  lemma {:induction false} ChunkAligned(c: int)
    requires c % 4 == 0
    ensures Chunk(c) % 4 == 0
  {
    var p, q, r := c / 4, c / TWO16, Chunk(c);
    FourTimes(c, p, q, r);
    hide Chunk;
  }

  lemma {:induction false} FourTimes(c: int, p: int, q: int, r: int)
    requires c == 4 * p && c == q * TWO16 + r
    ensures r % 4 == 0
  {
    var k := p - q * 0x4000;
    assert r == 4 * k;
  }

  lemma {:induction false} SmallHasNothingAbove(c: int)
    requires IsSimm16(c)
    ensures Above(c) == 0
  {
  }

  lemma {:induction false} SmallAligned(c: int)
    requires IsSimm16(c)
    ensures c % 4 == 0 ==> Imm(c) % 4 == 0
  {
    if c % 4 == 0 {
      ChunkAligned(c);
    }
  }

  /** The load that was asked for: the value at constant or register plus base, in `d`, and nothing else. */
  ghost predicate LoadedAsAsked(k: LoadKind, d: Reg, roc: Roc, base: Option<Reg>, a: State, b: State) {
    && b.regs(d) == LoadValue(k, a.mem, Address(roc, base, a))
    && b.mem == a.mem
    && forall r: Reg :: r != d ==> b.regs(r) == a.regs(r)
  }

  ghost predicate AlwaysLoads(before: seq<Instr>, code: seq<Instr>, k: LoadKind, d: Reg, roc: Roc, base: Option<Reg>) {
    forall s: State :: LoadedAsAsked(k, d, roc, base, Run(before, s), Run(code, s))
  }

  /** All registers hold the same value. */
  function Everywhere(v: Value, mem: Value -> Byte): State {
    State((r: Reg) => v, mem)
  }

  /** Memory that is 1 at one address and 0 elsewhere. */
  function OneAt(a: Value): Value -> Byte {
    (b: Value) => var v: Byte := if b == a then 1 else 0; v
  }

  /** The weight of the first byte of a load. */
  function FirstWeight(k: LoadKind): nat {
    match k
    case Ld => 0x100_0000_0000_0000
    case Lwa => 0x100_0000
    case Lwz => 0x100_0000
    case Lha => 256
    case Lhz => 256
    case Lbz => 1
  }

  /** The first byte decides how large a loaded value is. */
  lemma {:induction false} ByFirst(k: LoadKind, mem: Value -> Byte, a: Value)
    requires mem(a) < 2
    ensures LoadValue(k, mem, a) < FirstWeight(k) <==> mem(a) == 0
  {
    hide Half2, Word4;
    HalfByFirst(mem, a);
    WordByFirst(mem, a);
  }

  lemma {:induction false} FirstByte(k: LoadKind, a: Value, b: Value)
    requires a != b
    ensures LoadValue(k, OneAt(b), a) != LoadValue(k, OneAt(b), b)
  {
    hide LoadValue;
    var mem := OneAt(b);
    assert mem(a) == 0 && mem(b) == 1;
    ByFirst(k, mem, a);
    ByFirst(k, mem, b);
  }

  lemma {:induction false} HalfByFirst(mem: Value -> Byte, a: Value)
    ensures mem(a) * 256 <= Half2(mem, a) < mem(a) * 256 + 256
  {
  }

  lemma {:induction false} WordByFirst(mem: Value -> Byte, a: Value)
    ensures mem(a) * 0x100_0000 <= Word4(mem, a) < mem(a) * 0x100_0000 + 0x100_0000
  {
    HalfByFirst(mem, a);
    hide Half2;
  }

  /**
   What the emitted code loads is what was asked for, in every state, if and only if a large constant is not loaded
   over its own base.
   */
  lemma {:induction false} LoadExactIff(code: seq<Instr>, k: LoadKind, d: Reg, roc: Roc, base: Option<Reg>)
    requires IsLoad([], code, k, d, roc, base)
    ensures AlwaysLoads([], code, k, d, roc, base) <==> !(Large(roc, base) && base == Some(d))
  {
    if Large(roc, base) && base == Some(d) {
      var at := Wrap(roc.c);
      var s := Everywhere(0, OneAt(at));
      WrapDiffers(roc.c);
      FirstByte(k, Wrap(2 * roc.c), at);
      assert Run([], s) == s;
      hide Run, LoadValue, OneAt;
      assert Address(roc, base, s) == at;
      assert Loaded(k, d, roc, base, Run([], s), Run(code, s));
      assert !LoadedAsAsked(k, d, roc, base, Run([], s), Run(code, s));
    } else {
      LoadExact([], code, k, d, roc, base);
    }
  }

  /** The same for code that follows other code. */
  lemma {:induction false} LoadExact(before: seq<Instr>, code: seq<Instr>, k: LoadKind, d: Reg, roc: Roc,
                                     base: Option<Reg>)
    requires IsLoad(before, code, k, d, roc, base) && !(Large(roc, base) && base == Some(d))
    ensures AlwaysLoads(before, code, k, d, roc, base)
  {
    hide Run, LoadValue, Address;
    forall s: State ensures LoadedAsAsked(k, d, roc, base, Run(before, s), Run(code, s)) {
      assert Loaded(k, d, roc, base, Run(before, s), Run(code, s));
    }
  }

  lemma {:induction false} WrapDiffers(c: Long)
    requires !IsSimm16(c)
    ensures Wrap(2 * c) != Wrap(c)
  {
    assert 2 * c - c == c;
  }

  // ----- stores -----

  /** The constant goes through the scratch register. */
  predicate UsesScratch(roc: Roc, base: Option<Reg>) {
    roc.Constant? && (base.None? || !IsSimm16(roc.c))
  }

  /** What the store emitters assert and guarantee. */
  predicate CanStore(k: StoreKind, roc: Roc, base: Option<Reg>, tmp: Option<Reg>) {
    match roc
    case Register(r) => r != 0
    case Constant(c) =>
      if base.None? then tmp.Some? && tmp.value != 0 && Aligned(k == Std, c, base)
      else if IsSimm16(c) then base.value != 0 && Aligned(k == Std, c, base)
      else tmp.Some? && tmp.value != 0
  }

  /** What the scratch register holds when the store is executed. */
  function InScratch(c: int, base: Option<Reg>): Value {
    if base.None? && Above(c) != 0 then Wrap(c - Signed16(Chunk(c))) else Wrap(c)
  }

  /** The address that is written; a base that is also the scratch register has been overwritten. */
  function StoreAddress(roc: Roc, base: Option<Reg>, tmp: Option<Reg>, s: State): Value {
    if Large(roc, base) && base == tmp then Wrap(2 * roc.c) else Address(roc, base, s)
  }

  /** The value that is written; a source that is also the scratch register has been overwritten. */
  function StoredValue(d: Reg, roc: Roc, base: Option<Reg>, tmp: Option<Reg>, s: State): Value {
    if UsesScratch(roc, base) && tmp == Some(d) then InScratch(roc.c, base) else s.regs(d)
  }

  ghost predicate Stored(k: StoreKind, d: Reg, roc: Roc, base: Option<Reg>, tmp: Option<Reg>, a: State, b: State) {
    && b.mem == StoreValue(k, a.mem, StoreAddress(roc, base, tmp, a), StoredValue(d, roc, base, tmp, a))
    && forall r: Reg :: !(UsesScratch(roc, base) && tmp == Some(r)) ==> b.regs(r) == a.regs(r)
  }

  ghost predicate IsStore(before: seq<Instr>, code: seq<Instr>, k: StoreKind, d: Reg, roc: Roc, base: Option<Reg>,
                          tmp: Option<Reg>) {
    forall s: State :: Stored(k, d, roc, base, tmp, Run(before, s), Run(code, s))
  }

  lemma {:induction false} StoreBaseless(before: seq<Instr>, mid: seq<Instr>, k: StoreKind, d: Reg, c: Long,
                                         rest: Half, t: Reg)
    requires Loads(before, mid, t, None, c, rest) && t != 0 && rest == if Above(c) == 0 then 0 else Chunk(c)
    ensures IsStore(before, mid + [Store(k, d, rest, t)], k, d, Constant(c), None, Some(t))
  {
    hide Run, StoreValue, AddImm, Above, Chunk;
    var i := Store(k, d, rest, t);
    forall s: State ensures Stored(k, d, Constant(c), None, Some(t), Run(before, s), Run(mid + [i], s)) {
      var a, m := Run(before, s), Run(mid, s);
      RunNext(mid, i, s);
      assert LoadsFrom(a, m, t, None, c, rest);
      AddressOf(c, rest, m.regs(t));
      assert AddImm(m.regs(t), rest) == StoreAddress(Constant(c), None, Some(t), a);
      assert m.regs(d) == StoredValue(d, Constant(c), None, Some(t), a);
    }
  }

  lemma {:induction false} StoreLarge(before: seq<Instr>, mid: seq<Instr>, k: StoreKind, d: Reg, c: Long, base: Reg,
                                      t: Reg)
    requires Loads(before, mid, t, None, c, 0) && t != 0 && !IsSimm16(c)
    ensures IsStore(before, mid + [StoreIndexed(k, d, t, base)], k, d, Constant(c), Some(base), Some(t))
  {
    hide Run, StoreValue, AddImm;
    var i := StoreIndexed(k, d, t, base);
    forall s: State ensures Stored(k, d, Constant(c), Some(base), Some(t), Run(before, s), Run(mid + [i], s)) {
      var a, m := Run(before, s), Run(mid, s);
      RunNext(mid, i, s);
      assert LoadsFrom(a, m, t, None, c, 0);
      AddressOf(c, 0, m.regs(t));
      LargeAddress(c, t, base, a, m);
      assert m.regs(d) == StoredValue(d, Constant(c), Some(base), Some(t), a);
    }
  }

  lemma {:induction false} LargeAddress(c: Long, t: Reg, base: Reg, a: State, m: State)
    requires m.regs(t) == Wrap(c) && !IsSimm16(c) && (base != t ==> m.regs(base) == a.regs(base))
    ensures Wrap(m.regs(t) + m.regs(base)) == StoreAddress(Constant(c), Some(base), Some(t), a)
  {
    hide Wrap;
    if base == t {
      WrapTwice(c);
    } else {
      WrapAdd(c, a.regs(base));
    }
  }

  lemma {:induction false} StoreSmall(before: seq<Instr>, k: StoreKind, d: Reg, c: Long, base: Reg, tmp: Option<Reg>)
    requires IsSimm16(c) && base != 0
    ensures IsStore(before, before + [Store(k, d, Imm(c), base)], k, d, Constant(c), Some(base), tmp)
  {
    hide Run, StoreValue, Wrap;
    var i := Store(k, d, Imm(c), base);
    SignedImm(c);
    forall s: State ensures Stored(k, d, Constant(c), Some(base), tmp, Run(before, s), Run(before + [i], s)) {
      var a := Run(before, s);
      RunNext(before, i, s);
      assert AddImm(Base(a, base), Imm(c)) == Address(Constant(c), Some(base), a);
    }
  }

  lemma {:induction false} StoreRegister(before: seq<Instr>, k: StoreKind, d: Reg, r: Reg, base: Option<Reg>,
                                         tmp: Option<Reg>)
    requires r != 0
    ensures base.None? ==> IsStore(before, before + [Store(k, d, 0, r)], k, d, Register(r), base, tmp)
    ensures base.Some? ==> IsStore(before, before + [StoreIndexed(k, d, r, base.value)], k, d, Register(r), base, tmp)
  {
    hide Run, StoreValue, Wrap;
    var i := if base.None? then Store(k, d, 0, r) else StoreIndexed(k, d, r, base.value);
    forall s: State ensures Stored(k, d, Register(r), base, tmp, Run(before, s), Run(before + [i], s)) {
      RunNext(before, i, s);
    }
  }

  method EmitStore(a: Assembler, k: StoreKind, d: Reg, roc: Roc, base: Option<Reg>, tmp: Option<Reg>)
    requires a.Valid() && CanStore(k, roc, base, tmp)
    modifies a
    ensures a.Valid() && IsStore(old(a.code), a.code, k, d, roc, base, tmp)
  {
    hide Loads, IsStore, AllEncodable, EncodeAll, Imm, Above, Chunk;
    ghost var before := a.code;
    match roc {
      case Constant(c) =>
        if base.None? {
          var rest := a.LoadConstOptimized(tmp.value, c, None, true);
          RestAligned(k == Std, c);
          StoreBaseless(before, a.code, k, d, c, rest, tmp.value);
          a.Emit(Store(k, d, rest, tmp.value));
        } else if IsSimm16(c) {
          SmallAligned(c);
          StoreSmall(before, k, d, c, base.value, tmp);
          a.Emit(Store(k, d, Imm(c), base.value));
        } else {
          var rest := a.LoadConstOptimized(tmp.value, c, None, false);
          StoreLarge(before, a.code, k, d, c, base.value, tmp.value);
          a.Emit(StoreIndexed(k, d, tmp.value, base.value));
        }
      case Register(r) =>
        StoreRegister(before, k, d, r, base, tmp);
        if base.None? {
          a.Emit(Store(k, d, 0, r));
        } else {
          a.Emit(StoreIndexed(k, d, r, base.value));
        }
    }
  }

  /** The store asked for: the source at constant or register plus base; at most the scratch register changes. */
  ghost predicate StoredAsAsked(k: StoreKind, d: Reg, roc: Roc, base: Option<Reg>, tmp: Option<Reg>, a: State,
                                b: State) {
    && b.mem == StoreValue(k, a.mem, Address(roc, base, a), a.regs(d))
    && forall r: Reg :: !(UsesScratch(roc, base) && tmp == Some(r)) ==> b.regs(r) == a.regs(r)
  }

  ghost predicate AlwaysStores(before: seq<Instr>, code: seq<Instr>, k: StoreKind, d: Reg, roc: Roc,
                               base: Option<Reg>, tmp: Option<Reg>) {
    forall s: State :: StoredAsAsked(k, d, roc, base, tmp, Run(before, s), Run(code, s))
  }

  /** The scratch register takes the place of the base or of the source. */
  predicate ScratchClashes(d: Reg, roc: Roc, base: Option<Reg>, tmp: Option<Reg>) {
    UsesScratch(roc, base) && (tmp == Some(d) || (base.Some? && tmp == base))
  }

  /** The last byte a store writes is the lowest of its value. */
  lemma {:induction false} LastByte(k: StoreKind, mem: Value -> Byte, a: Value, v: Value)
    ensures StoreValue(k, mem, a, v)(Wrap(a + StoreSize(k) - 1)) == v % 256
  {
    var n := StoreSize(k) - 1;
    WrapBack(a, n);
    PowerZero();
    assert Wrap(Wrap(a + n) - a) == n;
    hide Wrap;
    assert Pow2(8 * (StoreSize(k) - 1 - n)) == 1;
  }

  /** What lies further than a doubleword from where a store starts is not written. */
  lemma {:induction false} NotWritten(k: StoreKind, mem: Value -> Byte, a: Value, v: Value, n: nat)
    requires 8 <= n < 64
    ensures StoreValue(k, mem, a, v)(Wrap(a + n)) == mem(Wrap(a + n))
  {
    WrapBack(a, n);
    hide Wrap, Pow2;
  }

  lemma {:induction false} WrapBack(a: Value, n: nat)
    requires n < 64
    ensures Wrap(Wrap(a + n) - a) == n
  {
  }

  lemma {:induction false} WrapOdd(c: int)
    requires c % 2 == 1
    ensures Wrap(c) % 256 != 0
  {
    var q := c / TWO64;
    assert c == q * TWO64 + Wrap(c);
    var r := Wrap(c) / 256;
    assert Wrap(c) == r * 256 + Wrap(c) % 256;
    assert c == 2 * (q * 0x8000_0000_0000_0000 + r * 128) + Wrap(c) % 256;
  }

  /** With this in all registers, the address asked for lies 16 or 17 bytes after twice the constant. */
  function FarValue(c: int): Value {
    Wrap(c + if c % 2 == 0 then 17 else 16)
  }

  /** A base that has been overwritten: the store goes elsewhere, whatever it stores. */
  lemma {:induction false} WrongAddress(k: StoreKind, c: int, w: Value)
    ensures var v := FarValue(c);
      StoreValue(k, NoBytes(), Wrap(2 * c), w) != StoreValue(k, NoBytes(), Wrap(c + v), v)
  {
    hide Wrap, StoreValue;
    var n := if c % 2 == 0 then 17 else 16;
    var v := FarValue(c);
    WrapOdd(c + n);
    WrapAdd(c + n, c);
    var far := 2 * c + n;
    assert c + n + c == far && c + Wrap(c + n) == Wrap(c + n) + c;
    var a, b, last := Wrap(2 * c), Wrap(c + v), StoreSize(k) - 1;
    assert b == Wrap(far);
    WrapAdd(2 * c, n + last);
    WrapAdd(far, last);
    assert 2 * c + (n + last) == far + last;
    LastByte(k, NoBytes(), b, v);
    NotWritten(k, NoBytes(), a, w, n + last);
    assert Wrap(a + (n + last)) == Wrap(b + last) == Wrap(b + StoreSize(k) - 1);
  }

  function NoBytes(): Value -> Byte {
    (b: Value) => var v: Byte := 0; v
  }

  /** A source that has been overwritten: the lowest byte is wrong. */
  lemma {:induction false} WrongValue(k: StoreKind, a: Value, v: Value, w: Value)
    requires v % 256 != w % 256
    ensures StoreValue(k, NoBytes(), a, v) != StoreValue(k, NoBytes(), a, w)
  {
    LastByte(k, NoBytes(), a, v);
    LastByte(k, NoBytes(), a, w);
    hide Wrap, StoreValue;
  }

  /** A state in which a clash shows. */
  function ClashState(roc: Roc, base: Option<Reg>, tmp: Option<Reg>): State
    requires roc.Constant?
  {
    if Large(roc, base) && base == tmp then Everywhere(FarValue(roc.c), NoBytes())
    else Everywhere(if InScratch(roc.c, base) % 256 == 0 then 1 else 0, NoBytes())
  }

  lemma {:induction false} ClashShows(k: StoreKind, d: Reg, roc: Roc, base: Option<Reg>, tmp: Option<Reg>)
    requires ScratchClashes(d, roc, base, tmp)
    ensures var s := ClashState(roc, base, tmp);
      StoreValue(k, s.mem, StoreAddress(roc, base, tmp, s), StoredValue(d, roc, base, tmp, s)) !=
      StoreValue(k, s.mem, Address(roc, base, s), s.regs(d))
  {
    hide StoreValue, InScratch, FarValue, NoBytes, Wrap;
    var s := ClashState(roc, base, tmp);
    if Large(roc, base) && base == tmp {
      WrongAddress(k, roc.c, StoredValue(d, roc, base, tmp, s));
    } else {
      WrongValue(k, Address(roc, base, s), InScratch(roc.c, base), s.regs(d));
    }
  }

  /**
   What the emitted code stores is what was asked for, in every state, if and only if the scratch register, where it
   is used, is neither the base nor the source.
   */
  lemma {:induction false} StoreExactIff(code: seq<Instr>, k: StoreKind, d: Reg, roc: Roc, base: Option<Reg>,
                                         tmp: Option<Reg>)
    requires IsStore([], code, k, d, roc, base, tmp)
    ensures AlwaysStores([], code, k, d, roc, base, tmp) <==> !ScratchClashes(d, roc, base, tmp)
  {
    if ScratchClashes(d, roc, base, tmp) {
      var s := ClashState(roc, base, tmp);
      ClashShows(k, d, roc, base, tmp);
      assert Run([], s) == s;
      hide Run, StoreValue, StoreAddress, StoredValue, Address, ClashState;
      assert Stored(k, d, roc, base, tmp, Run([], s), Run(code, s));
      assert !StoredAsAsked(k, d, roc, base, tmp, Run([], s), Run(code, s));
    } else {
      StoreExact([], code, k, d, roc, base, tmp);
    }
  }

  /** The same for code that follows other code. */
  lemma {:induction false} StoreExact(before: seq<Instr>, code: seq<Instr>, k: StoreKind, d: Reg, roc: Roc,
                                      base: Option<Reg>, tmp: Option<Reg>)
    requires IsStore(before, code, k, d, roc, base, tmp) && !ScratchClashes(d, roc, base, tmp)
    ensures AlwaysStores(before, code, k, d, roc, base, tmp)
  {
    hide Run, StoreValue, Address;
    forall s: State ensures StoredAsAsked(k, d, roc, base, tmp, Run(before, s), Run(code, s)) {
      assert Stored(k, d, roc, base, tmp, Run(before, s), Run(code, s));
    }
  }
}
