/**
 What loads and stores mean together: a load gives back what a store has put there, in big-endian order, and a store
 leaves every other byte alone; and so for the code that the register-or-constant emitters produce.
 */
module PpcStorage {
  import opened Basics
  import opened PpcIsa
  import opened PpcMachine
  import opened PpcAssembler
  import opened PpcMemory

  // ----- single bytes -----

  lemma {:induction false} Offset(a: Value, n: int)
    requires 0 <= n < TWO64
    ensures Wrap(Wrap(a + n) - a) == n
  {
    var q := (a + n) / TWO64;
    assert a + n == q * TWO64 + Wrap(a + n);
    assert Wrap(a + n) - a == -q * TWO64 + n;
  }

  /** The `i`-th byte of a store, counted from its address. */
  lemma {:induction false} WrittenByte(k: StoreKind, mem: Value -> Byte, a: Value, v: Value, i: nat)
    requires i < StoreSize(k)
    ensures StoreValue(k, mem, a, v)(Wrap(a + i)) == v / Pow2(8 * (StoreSize(k) - 1 - i)) % 256
  {
    Offset(a, i);
    hide Wrap, Pow2;
  }

  /** A store leaves all bytes alone that are not among the eight, four, two or one it writes. */
  lemma {:induction false} OthersKept(k: StoreKind, mem: Value -> Byte, a: Value, v: Value, n: nat)
    requires n < TWO64
    requires match k case Std => n >= 8 case Stw => n >= 4 case Sth => n >= 2 case Stb => n >= 1
    ensures StoreValue(k, mem, a, v)(Wrap(a + n)) == mem(Wrap(a + n))
  {
    Offset(a, n);
    hide Wrap, Pow2;
  }

  // ----- bytes put together -----

  /** A number of `lo` bits with `hi` more above it. */
  lemma {:induction false} TwoParts(x: nat, lo: int, hi: int)
    requires lo > 0 && hi > 0
    ensures lo * hi > 0 && x / lo % hi * lo + x % lo == x % (lo * hi)
  {
    var q, r := x / lo, x % lo;
    assert x == q * lo + r;
    var p, s := q / hi, q % hi;
    assert q == p * hi + s;
    Small(s, r, lo, hi);
    assert x == p * (lo * hi) + (s * lo + r) by {
      Regroup(p, hi, s, lo);
    }
    Remainder(x, p, lo * hi, s * lo + r);
  }

  lemma {:induction false} Small(s: int, r: int, lo: int, hi: int)
    requires 0 <= s < hi && 0 <= r < lo
    ensures 0 <= s * lo + r < lo * hi
  {
    assert s * lo <= (hi - 1) * lo;
    assert (hi - 1) * lo == lo * hi - lo;
  }

  lemma {:induction false} Regroup(p: int, hi: int, s: int, lo: int)
    ensures (p * hi + s) * lo == p * (lo * hi) + s * lo
  {
  }

  lemma {:induction false} Remainder(x: int, p: int, n: int, r: int)
    requires n > 0 && x == p * n + r && 0 <= r < n
    ensures x % n == r
  {
    var k := x / n - p;
    assert x == x / n * n + x % n;
    assert k * n == r - x % n;
    AtLeastOnce(k, n);
  }

  lemma {:induction false} AtLeastOnce(k: int, n: int)
    requires n > 0
    ensures k >= 1 ==> k * n >= n
    ensures k <= -1 ==> k * n <= -n
  {
    if k >= 1 {
      assert k * n == n + (k - 1) * n;
    } else if k <= -1 {
      assert k * n == -n + (k + 1) * n;
    }
  }

  lemma {:induction false} DivideTwice(x: nat, a: int, b: int)
    requires a > 0 && b > 0
    ensures a * b > 0 && x / a / b == x / (a * b)
  {
    TwoParts(x, a, b);
    var n := a * b;
    assert x == x / n * n + x % n;
    assert x == x / a * a + x % a;
    assert x / a == x / a / b * b + x / a % b;
    assert x == x / a / b * (a * b) + x % n by {
      Regroup(x / a / b, b, x / a % b, a);
    }
    assert (x / a / b - x / n) * n == 0;
    AtLeastOnce(x / a / b - x / n, n);
  }

  /** Two neighbouring fields as one field of twice the width. */
  lemma {:induction false} TwoFields(v: nat, p: int, p': int, w: int)
    requires p > 0 && w > 0 && p' == p * w
    ensures p' > 0 && w * w > 0 && v / p' % w * w + v / p % w == v / p % (w * w)
  {
    DivideTwice(v, p, w);
    TwoParts(v / p, w, w);
  }

  /** Two neighbouring bytes of a store. */
  lemma {:induction false} HalfAt(k: StoreKind, mem: Value -> Byte, a: Value, v: Value, i: nat)
    requires i + 2 <= StoreSize(k)
    ensures Half2(StoreValue(k, mem, a, v), Wrap(a + i)) == v / Pow2(8 * (StoreSize(k) - 2 - i)) % TWO16
  {
    hide StoreValue, Pow2, Wrap;
    var n := StoreSize(k) - 2 - i;
    WrittenByte(k, mem, a, v, i);
    WrittenByte(k, mem, a, v, i + 1);
    WrapAdd(a + i, 1);
    Powers();
    Pow2Sum(8 * n, 8);
    TwoFields(v, Pow2(8 * n), Pow2(8 * n + 8), 256);
  }

  /** Four neighbouring bytes of a store. */
  lemma {:induction false} WordAt(k: StoreKind, mem: Value -> Byte, a: Value, v: Value, i: nat)
    requires i + 4 <= StoreSize(k)
    ensures Word4(StoreValue(k, mem, a, v), Wrap(a + i)) == v / Pow2(8 * (StoreSize(k) - 4 - i)) % TWO32
  {
    hide StoreValue, Pow2, Wrap, Half2;
    var n := StoreSize(k) - 4 - i;
    HalfAt(k, mem, a, v, i);
    HalfAt(k, mem, a, v, i + 2);
    WrapAdd(a + i, 2);
    Powers();
    Pow2Sum(8 * n, 16);
    TwoFields(v, Pow2(8 * n), Pow2(8 * n + 16), TWO16);
  }

  lemma {:induction false} WrapSame(a: Value)
    ensures Wrap(a + 0) == a
  {
  }

  // ----- loads after stores -----

  /** A number of `n` bits read with its sign, in 64 bits. */
  function SignExtend(x: int, n: int): Value
    requires n > 0
  {
    if x % n < n / 2 then Wrap(x % n) else Wrap(x % n - n)
  }

  lemma {:induction false} DoubleBack(mem: Value -> Byte, a: Value, v: Value)
    ensures LoadValue(Ld, StoreValue(Std, mem, a, v), a) == v
  {
    hide StoreValue, Pow2, Half2, Word4, Wrap;
    WrapSame(a);
    Powers();
    PowerZero();
    WordAt(Std, mem, a, v, 0);
    WordAt(Std, mem, a, v, 4);
    TwoParts(v, TWO32, TWO32);
  }

  lemma {:induction false} WordBack(mem: Value -> Byte, a: Value, v: Value)
    ensures Word4(StoreValue(Stw, mem, a, v), a) == v % TWO32
  {
    hide StoreValue, Pow2, Half2, Word4, Wrap;
    WrapSame(a);
    PowerZero();
    WordAt(Stw, mem, a, v, 0);
  }

  lemma {:induction false} HalfBack(mem: Value -> Byte, a: Value, v: Value)
    ensures Half2(StoreValue(Sth, mem, a, v), a) == v % TWO16
  {
    hide StoreValue, Pow2, Half2, Wrap;
    WrapSame(a);
    PowerZero();
    HalfAt(Sth, mem, a, v, 0);
  }

  lemma {:induction false} ByteBack(mem: Value -> Byte, a: Value, v: Value)
    ensures StoreValue(Stb, mem, a, v)(a) == v % 256
  {
    hide StoreValue, Pow2, Wrap;
    WrapSame(a);
    PowerZero();
    WrittenByte(Stb, mem, a, v, 0);
  }

  /** A load of the same width gives back what was stored, cut to that width and extended as the load does. */
  lemma {:induction false} LoadAfterStore(mem: Value -> Byte, a: Value, v: Value)
    ensures LoadValue(Ld, StoreValue(Std, mem, a, v), a) == v
    ensures LoadValue(Lwz, StoreValue(Stw, mem, a, v), a) == v % 0x1_0000_0000
    ensures LoadValue(Lwa, StoreValue(Stw, mem, a, v), a) == SignExtend(v, 0x1_0000_0000)
    ensures LoadValue(Lhz, StoreValue(Sth, mem, a, v), a) == v % 0x1_0000
    ensures LoadValue(Lha, StoreValue(Sth, mem, a, v), a) == SignExtend(v, 0x1_0000)
    ensures LoadValue(Lbz, StoreValue(Stb, mem, a, v), a) == v % 0x100
  {
    hide StoreValue, Pow2, Half2, Word4;
    DoubleBack(mem, a, v);
    WordBack(mem, a, v);
    HalfBack(mem, a, v);
    ByteBack(mem, a, v);
  }

  /** The bytes lie in big-endian order: the parts of a doubleword, from the highest down. */
  lemma {:induction false} HighBytesFirst(mem: Value -> Byte, a: Value, v: Value)
    ensures LoadValue(Lwz, StoreValue(Std, mem, a, v), a) == v / 0x1_0000_0000
    ensures LoadValue(Lwz, StoreValue(Std, mem, a, v), Wrap(a + 4)) == v % 0x1_0000_0000
    ensures LoadValue(Lhz, StoreValue(Std, mem, a, v), Wrap(a + 6)) == v % 0x1_0000
    ensures LoadValue(Lbz, StoreValue(Std, mem, a, v), Wrap(a + 7)) == v % 0x100
  {
    hide StoreValue, Pow2, Half2, Word4;
    WrapSame(a);
    Powers();
    PowerZero();
    WordAt(Std, mem, a, v, 0);
    WordAt(Std, mem, a, v, 4);
    HalfAt(Std, mem, a, v, 6);
    WrittenByte(Std, mem, a, v, 7);
  }

  // ----- the emitted code -----

  /** Where the emitted code has stored: constant or register plus base, and the bytes from there on. */
  lemma {:induction false} StoredBytes(before: seq<Instr>, code: seq<Instr>, k: StoreKind, d: Reg, roc: Roc,
                                       base: Option<Reg>, tmp: Option<Reg>, s: State, i: nat)
    requires AlwaysStores(before, code, k, d, roc, base, tmp)
    requires match k case Std => i < 8 case Stw => i < 4 case Sth => i < 2 case Stb => i < 1
    ensures var a, b := Run(before, s), Run(code, s);
      var at := (if roc.Register? then a.regs(roc.r) else roc.c) + (if base.Some? then a.regs(base.value) else 0);
      var size := match k case Std => 8 case Stw => 4 case Sth => 2 case Stb => 1;
      b.mem(Wrap(at + i)) == a.regs(d) / Pow2(8 * (size - 1 - i)) % 256
  {
    hide Run, Pow2, Wrap, StoreValue;
    var a := Run(before, s);
    assert StoredAsAsked(k, d, roc, base, tmp, a, Run(code, s));
    var at := (if roc.Register? then a.regs(roc.r) else roc.c) + (if base.Some? then a.regs(base.value) else 0);
    WrapAdd(at, i);
    WrittenByte(k, a.mem, Address(roc, base, a), a.regs(d), i);
  }

  /** Code that stores a register, followed by code that loads from the same address with the same width. */
  lemma {:induction false} StoredIsLoaded(before: seq<Instr>, code: seq<Instr>, code': seq<Instr>, k: StoreKind,
                                          l: LoadKind, d: Reg, roc: Roc, base: Option<Reg>, tmp: Option<Reg>, e: Reg,
                                          roc': Roc, base': Option<Reg>, s: State)
    requires AlwaysStores(before, code, k, d, roc, base, tmp) && AlwaysLoads(code, code', l, e, roc', base')
    requires Address(roc', base', Run(code, s)) == Address(roc, base, Run(before, s))
    requires (k == Std && l == Ld) || (k == Stw && l == Lwz) || (k == Sth && l == Lhz) || (k == Stb && l == Lbz)
    ensures var v := Run(before, s).regs(d);
      Run(code', s).regs(e) == match k case Std => v case Stw => v % 0x1_0000_0000 case Sth => v % 0x1_0000
                                       case Stb => v % 0x100
  {
    hide Run, StoreValue, LoadValue, Address;
    var a, b := Run(before, s), Run(code, s);
    assert StoredAsAsked(k, d, roc, base, tmp, a, b);
    assert LoadedAsAsked(l, e, roc', base', b, Run(code', s));
    LoadAfterStore(a.mem, Address(roc, base, a), a.regs(d));
  }
}
