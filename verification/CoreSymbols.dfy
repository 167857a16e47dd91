/**
 Symbols of the libraries of a debuggee: where a library is loaded (salibelf.c, find_base_address), its
 symbol table (symtab.c: build_symtab_internal, search_symbol, nearest_symbol) and lookups over all
 libraries (libproc_impl.c: add_lib_info_fd, lookup_symbol, symbol_for_pc). Addresses are 64 bits wide.
 */
module CoreSymbols {
  import opened Basics

  // ----- the base address of a library -----

  datatype Phdr = Phdr(load: bool, vaddr: Addr)

  /** The lowest address of the loadable segments; the highest address when there is none. */
  ghost predicate IsLowest(base: Addr, phdrs: seq<Phdr>) {
    && (forall i :: 0 <= i < |phdrs| && phdrs[i].load ==> base <= phdrs[i].vaddr)
    && (Phdr(true, base) in phdrs || (base == TWO64 - 1 && forall i :: 0 <= i < |phdrs| ==> !phdrs[i].load))
  }

  method FindBaseAddress(phdrs: seq<Phdr>) returns (base: Addr)
    ensures IsLowest(base, phdrs)
  {
    base := TWO64 - 1;
    for i := 0 to |phdrs|
      invariant forall j :: 0 <= j < i && phdrs[j].load ==> base <= phdrs[j].vaddr
      invariant base == TWO64 - 1 || Phdr(true, base) in phdrs
    {
      if phdrs[i].load && phdrs[i].vaddr < base {
        base := phdrs[i].vaddr;
        assert phdrs[i] == Phdr(true, base);
      }
    }
  }

  // ----- symbol tables -----

  /** Names are only compared; the empty name is set apart. */
  type Name(==, !new)

  /** A symbol of an ELF file; `typed` tells functions and data from all other kinds. */
  datatype ElfSym = ElfSym(name: Option<Name>, value: Addr, size: Addr, typed: bool, defined: bool)

  predicate Kept(s: ElfSym) {
    s.typed && s.defined && s.name.Some?
  }

  datatype Entry = Entry(name: Name, offset: Addr, size: Addr)

  function EntryOf(s: ElfSym, base: Addr): Entry
    requires Kept(s)
  {
    Entry(s.name.value, Wrap(s.value - base), s.size)
  }

  /** The array, with a hole for every symbol that is skipped, and the hash table. */
  datatype Symtab = Symtab(symbols: seq<Option<Entry>>, table: map<Name, Entry>)

  function Slot(s: ElfSym, base: Addr): Option<Entry> {
    if Kept(s) then Some(EntryOf(s, base)) else None
  }

  /** The first kept symbol of a name. */
  function FirstNamed(syms: seq<ElfSym>, name: Name): (i: nat)
    ensures i <= |syms|
    ensures i < |syms| ==> Kept(syms[i]) && syms[i].name == Some(name)
    ensures forall j :: 0 <= j < i ==> !(Kept(syms[j]) && syms[j].name == Some(name))
  {
    if syms == [] then 0
    else
      var n := |syms| - 1;
      var i := FirstNamed(syms[..n], name);
      if i < n then i else if Kept(syms[n]) && syms[n].name == Some(name) then n else n + 1
  }

  ghost predicate IsSymtab(t: Symtab, syms: seq<ElfSym>, base: Addr) {
    && |t.symbols| == |syms|
    && (forall i :: 0 <= i < |syms| ==> t.symbols[i] == Slot(syms[i], base))
    && (forall name :: name in t.table <==> FirstNamed(syms, name) < |syms|)
    && (forall name :: name in t.table ==>
        FirstNamed(syms, name) < |syms| && t.table[name] == EntryOf(syms[FirstNamed(syms, name)], base))
  }

  /** Entering a symbol; a name that is there already is not entered again. */
  function Entered(t: Symtab, s: ElfSym, base: Addr): Symtab {
    if !Kept(s) then t.(symbols := t.symbols + [None])
    else
      var e := EntryOf(s, base);
      Symtab(t.symbols + [Some(e)], if e.name in t.table then t.table else t.table[e.name := e])
  }

  lemma {:induction false} FirstNamedNext(syms: seq<ElfSym>, s: ElfSym, name: Name)
    ensures FirstNamed(syms + [s], name) ==
      var i := FirstNamed(syms, name);
      if i < |syms| then i else if Kept(s) && s.name == Some(name) then |syms| else |syms| + 1
  {
    assert (syms + [s])[..|syms|] == syms;
  }

  lemma {:induction false} EnteredIs(t: Symtab, syms: seq<ElfSym>, s: ElfSym, base: Addr)
    requires IsSymtab(t, syms, base)
    ensures IsSymtab(Entered(t, s, base), syms + [s], base)
  {
    hide FirstNamed, Wrap;
    var t', all := Entered(t, s, base), syms + [s];
    forall name ensures name in t'.table <==> FirstNamed(all, name) < |all| {
      FirstNamedNext(syms, s, name);
    }
    forall name | name in t'.table
      ensures FirstNamed(all, name) < |all| && t'.table[name] == EntryOf(all[FirstNamed(all, name)], base)
    {
      FirstNamedNext(syms, s, name);
    }
  }

  /** The loop that fills the symbol table. */
  method BuildSymtab(syms: seq<ElfSym>, base: Addr) returns (t: Symtab)
    ensures IsSymtab(t, syms, base)
  {
    t := Symtab([], map[]);
    for j := 0 to |syms|
      invariant IsSymtab(t, syms[..j], base)
    {
      hide IsSymtab, EntryOf;
      var s := syms[j];
      EnteredIs(t, syms[..j], s, base);
      assert syms[..j + 1] == syms[..j] + [s];
      if Kept(s) {
        var e := EntryOf(s, base);
        t := Symtab(t.symbols + [Some(e)], if e.name in t.table then t.table else t.table[e.name := e]);
      } else {
        t := t.(symbols := t.symbols + [None]);
      }
    }
    assert syms[..|syms|] == syms;
  }

  /** search_symbol: load bias plus st_value of the first kept symbol of the name; 0 when the name is not there. */
  method SearchSymbol(t: Symtab, base: Addr, name: Name, ghost bias: Addr, ghost lowest: Addr, ghost syms: seq<ElfSym>)
    returns (r: Addr)
    requires IsSymtab(t, syms, lowest) && base == Wrap(bias + lowest)
    ensures var i := FirstNamed(syms, name);
      r == if i < |syms| then Wrap(bias + syms[i].value) else 0
  {
    FoundAt(Lib(bias, lowest, syms, base, Some(t)), name);
    if name in t.table {
      return Wrap(base + t.table[name].offset);
    }
    return 0;
  }

  /** The entry covers the offset; the end is computed in 64 bits. */
  predicate Covers(e: Option<Entry>, offset: Addr) {
    e.Some? && e.value.offset <= offset < Wrap(e.value.offset + e.value.size)
  }

  /** nearest_symbol: the first entry that covers the offset, and the distance from its start. */
  method NearestSymbol(t: Symtab, offset: Addr) returns (i: nat, distance: Addr)
    ensures i <= |t.symbols| && forall j :: 0 <= j < i ==> !Covers(t.symbols[j], offset)
    ensures i < |t.symbols| ==> Covers(t.symbols[i], offset) && distance == offset - t.symbols[i].value.offset
  {
    distance := 0;
    i := 0;
    while i < |t.symbols|
      invariant i <= |t.symbols| && forall j :: 0 <= j < i ==> !Covers(t.symbols[j], offset)
    {
      var e := t.symbols[i];
      if e.Some? && offset >= e.value.offset && offset < Wrap(e.value.offset + e.value.size) {
        distance := offset - e.value.offset;
        return;
      }
      i := i + 1;
    }
  }

  // ----- libraries -----

  /** A library: how far it was moved, its lowest segment, its symbols, and what is kept of them. */
  datatype Lib = Lib(bias: Addr, lowest: Addr, syms: seq<ElfSym>, base: Addr, symtab: Option<Symtab>)

  /** The base is the moved lowest segment, and the table was built from the same file. */
  ghost predicate Built(lib: Lib) {
    && lib.base == Wrap(lib.bias + lib.lowest)
    && (lib.symtab.Some? ==> IsSymtab(lib.symtab.value, lib.syms, lib.lowest))
  }

  /** Where a symbol is in memory. */
  function Place(lib: Lib, s: ElfSym): Addr {
    Wrap(lib.bias + s.value)
  }

  /** The lowest-segment base cancels: base plus offset is load bias plus symbol value. */
  lemma {:induction false} BaseCancels(lib: Lib, s: ElfSym)
    requires Kept(s) && lib.base == Wrap(lib.bias + lib.lowest)
    ensures Wrap(lib.base + EntryOf(s, lib.lowest).offset) == Place(lib, s)
  {
    var b, v := lib.bias + lib.lowest, s.value - lib.lowest;
    WrapSum(b, v);
  }

  lemma {:induction false} WrapSum(a: int, b: int)
    ensures Wrap(Wrap(a) + Wrap(b)) == Wrap(a + b)
  {
    var p, q := a / TWO64, b / TWO64;
    assert a == p * TWO64 + Wrap(a) && b == q * TWO64 + Wrap(b);
    assert a + b == (Wrap(a) + Wrap(b)) + (p + q) * TWO64;
  }

  class LibList {
    var libs: seq<Lib>
    var numLibs: nat

    ghost predicate Valid()
      reads this
    {
      numLibs == |libs| && forall i :: 0 <= i < |libs| ==> Built(libs[i])
    }

    constructor ()
      ensures Valid() && libs == []
    {
      libs, numLibs := [], 0;
    }

    /** add_lib_info_fd: at the tail of the list; the symbol table may be missing. */
    method AddLib(bias: Addr, phdrs: seq<Phdr>, syms: seq<ElfSym>, hasSymtab: bool)
      requires Valid()
      modifies this
      ensures Valid() && |libs| == |old(libs)| + 1 && libs[..|old(libs)|] == old(libs)
      ensures var lib := libs[|old(libs)|];
        && lib.bias == bias && IsLowest(lib.lowest, phdrs)
        && lib.syms == syms && (lib.symtab.Some? <==> hasSymtab)
    {
      var lowest := FindBaseAddress(phdrs);
      var symtab: Option<Symtab> := None;
      if hasSymtab {
        var t := BuildSymtab(syms, lowest);
        symtab := Some(t);
      }
      libs := libs + [Lib(bias, lowest, syms, Wrap(bias + lowest), symtab)];
      numLibs := numLibs + 1;
    }

    /** lookup_symbol: the first library that gives an address other than 0. */
    method LookupSymbol(name: Name) returns (r: Addr)
      requires Valid()
      ensures r == Lookup(libs, name)
    {
      hide IsSymtab, FirstNamed;
      var i := 0;
      while i < |libs|
        invariant i <= |libs| && Lookup(libs, name) == Lookup(libs[i..], name)
      {
        assert libs[i..][1..] == libs[i + 1..];
        if libs[i].symtab.Some? {
          var res := SearchSymbol(libs[i].symtab.value, libs[i].base, name, libs[i].bias, libs[i].lowest, libs[i].syms);
          if res != 0 {
            return res;
          }
        } else {
          NoTable(libs[i], name);
        }
        i := i + 1;
      }
      return 0;
    }

    /** symbol_for_pc. */
    method SymbolForPc(addr: Addr) returns (r: Option<(Name, Addr)>)
      requires Valid()
      ensures r == ForPc(libs, addr)
    {
      var i := 0;
      while i < |libs|
        invariant i <= |libs| && ForPc(libs, addr) == ForPc(libs[i..], addr)
      {
        assert libs[i..][1..] == libs[i + 1..];
        if libs[i].symtab.Some? && addr >= libs[i].base {
          var t := libs[i].symtab.value;
          var j, distance := NearestSymbol(t, addr - libs[i].base);
          NearestIs(t, addr - libs[i].base, j);
          if j < |t.symbols| {
            return Some((t.symbols[j].value.name, distance));
          }
        }
        i := i + 1;
      }
      return None;
    }
  }

  /** The address of the first kept symbol of a name in one library, or 0. */
  function AddressIn(lib: Lib, name: Name): Addr {
    var i := FirstNamed(lib.syms, name);
    if lib.symtab.Some? && i < |lib.syms| then Place(lib, lib.syms[i]) else 0
  }

  function Lookup(libs: seq<Lib>, name: Name): Addr {
    if libs == [] then 0
    else if AddressIn(libs[0], name) != 0 then AddressIn(libs[0], name)
    else Lookup(libs[1..], name)
  }

  lemma {:induction false} NoTable(lib: Lib, name: Name)
    requires lib.symtab.None?
    ensures AddressIn(lib, name) == 0
  {
  }

  lemma {:induction false} FoundAt(lib: Lib, name: Name)
    requires Built(lib) && lib.symtab.Some?
    ensures var t := lib.symtab.value;
      AddressIn(lib, name) == if name in t.table then Wrap(lib.base + t.table[name].offset) else 0
  {
    var i := FirstNamed(lib.syms, name);
    if i < |lib.syms| {
      BaseCancels(lib, lib.syms[i]);
    }
  }

  /** The first entry that covers an offset. */
  function Nearest(t: Symtab, offset: Addr, i: nat): nat
    requires i <= |t.symbols|
    decreases |t.symbols| - i
  {
    if i == |t.symbols| || Covers(t.symbols[i], offset) then i else Nearest(t, offset, i + 1)
  }

  lemma {:induction false} NearestIs(t: Symtab, offset: Addr, i: nat)
    requires i <= |t.symbols| && (forall j :: 0 <= j < i ==> !Covers(t.symbols[j], offset))
    requires i < |t.symbols| ==> Covers(t.symbols[i], offset)
    ensures Nearest(t, offset, 0) == i
  {
    NearestFrom(t, offset, 0, i);
  }

  lemma {:induction false} NearestFrom(t: Symtab, offset: Addr, k: nat, i: nat)
    requires k <= i <= |t.symbols| && (forall j :: k <= j < i ==> !Covers(t.symbols[j], offset))
    requires i < |t.symbols| ==> Covers(t.symbols[i], offset)
    ensures Nearest(t, offset, k) == i
    decreases i - k
  {
    if k < i {
      NearestFrom(t, offset, k + 1, i);
    }
  }

  function PcIn(lib: Lib, addr: Addr): Option<(Name, Addr)> {
    if lib.symtab.None? || addr < lib.base then None
    else
      var t := lib.symtab.value;
      var i := Nearest(t, addr - lib.base, 0);
      NearestCovers(t, addr - lib.base, 0);
      if i < |t.symbols| then Some((t.symbols[i].value.name, addr - lib.base - t.symbols[i].value.offset)) else None
  }

  lemma {:induction false} NearestCovers(t: Symtab, offset: Addr, k: nat)
    requires k <= |t.symbols|
    ensures var i := Nearest(t, offset, k); k <= i <= |t.symbols| && (i < |t.symbols| ==> Covers(t.symbols[i], offset))
    ensures forall j :: k <= j < Nearest(t, offset, k) ==> !Covers(t.symbols[j], offset)
    decreases |t.symbols| - k
  {
    if k < |t.symbols| && !Covers(t.symbols[k], offset) {
      NearestCovers(t, offset, k + 1);
    }
  }

  function ForPc(libs: seq<Lib>, addr: Addr): Option<(Name, Addr)> {
    if libs == [] then None
    else if PcIn(libs[0], addr).Some? then PcIn(libs[0], addr)
    else ForPc(libs[1..], addr)
  }

  // ----- round trips -----

  /** Every kept symbol lies at or above the lowest segment, and the library does not wrap around. */
  ghost predicate Placed(lib: Lib) {
    lib.bias + lib.lowest < TWO64 && forall j :: 0 <= j < |lib.syms| ==> SymPlaced(lib, lib.syms[j])
  }

  predicate SymPlaced(lib: Lib, s: ElfSym) {
    Kept(s) ==> lib.lowest <= s.value && lib.bias + s.value + s.size < TWO64
  }

  predicate InSymbol(lib: Lib, s: ElfSym, pc: Addr) {
    && s.typed && s.defined && s.name.Some?
    && Wrap(lib.bias + s.value) <= pc < Wrap(lib.bias + s.value) + s.size
  }

  ghost predicate GoodLib(lib: Lib) {
    Built(lib) && Placed(lib)
  }

  ghost predicate At(libs: seq<Lib>, i: int, j: int, pc: Addr) {
    0 <= i < |libs| && 0 <= j < |libs[i].syms| && InSymbol(libs[i], libs[i].syms[j], pc)
  }

  /** No address belongs to two symbols. */
  ghost predicate DisjointSymbols(libs: seq<Lib>) {
    forall i, j, k, l, pc: Addr :: At(libs, i, j, pc) && At(libs, k, l, pc) ==> i == k && j == l
  }

  /** Inside a library, covering an offset is lying in the range of a symbol. */
  lemma {:induction false} CoversIsInSymbol(lib: Lib, j: nat, pc: Addr)
    requires GoodLib(lib) && lib.symtab.Some? && j < |lib.syms| && lib.base <= pc
    ensures Covers(lib.symtab.value.symbols[j], pc - lib.base) <==> InSymbol(lib, lib.syms[j], pc)
    ensures InSymbol(lib, lib.syms[j], pc) ==>
      pc - lib.base - lib.symtab.value.symbols[j].value.offset == pc - Place(lib, lib.syms[j])
  {
    var s := lib.syms[j];
    assert lib.symtab.value.symbols[j] == Slot(s, lib.lowest);
    if Kept(s) {
      assert SymPlaced(lib, s);
      assert EntryOf(s, lib.lowest).offset == s.value - lib.lowest;
      assert Place(lib, s) == lib.bias + s.value;
      assert lib.base == lib.bias + lib.lowest;
    }
  }

  lemma {:induction false} SymbolAboveBase(lib: Lib, j: nat, pc: Addr)
    requires GoodLib(lib) && j < |lib.syms| && InSymbol(lib, lib.syms[j], pc)
    ensures lib.base <= pc
  {
    assert SymPlaced(lib, lib.syms[j]);
  }

  /** A library without a symbol at an address finds nothing there. */
  lemma {:induction false} NothingThere(lib: Lib, pc: Addr)
    requires GoodLib(lib) && forall j :: 0 <= j < |lib.syms| ==> !InSymbol(lib, lib.syms[j], pc)
    ensures PcIn(lib, pc).None?
  {
    hide InSymbol, Covers, Built, Placed, IsSymtab;
    if lib.symtab.Some? && lib.base <= pc {
      var t := lib.symtab.value;
      NearestCovers(t, pc - lib.base, 0);
      SymtabLength(lib);
      forall j | 0 <= j < |t.symbols| ensures !Covers(t.symbols[j], pc - lib.base) {
        CoversIsInSymbol(lib, j, pc);
      }
    }
  }

  lemma {:induction false} SymtabLength(lib: Lib)
    requires Built(lib) && lib.symtab.Some?
    ensures |lib.symtab.value.symbols| == |lib.syms|
  {
  }

  lemma {:induction false} OnlyThere(lib: Lib, j: nat, pc: Addr)
    requires GoodLib(lib) && lib.symtab.Some? && j < |lib.syms| && InSymbol(lib, lib.syms[j], pc)
    requires forall k :: 0 <= k < |lib.syms| && k != j ==> !InSymbol(lib, lib.syms[k], pc)
    ensures lib.syms[j].name.Some? && PcIn(lib, pc) == Some((lib.syms[j].name.value, pc - Place(lib, lib.syms[j])))
  {
    SymbolAboveBase(lib, j, pc);
    NameOf(lib, j, pc);
    hide InSymbol, Covers, Built, Placed, IsSymtab, Place;
    var t := lib.symtab.value;
    NearestCovers(t, pc - lib.base, 0);
    SymtabLength(lib);
    forall k | 0 <= k < |t.symbols| ensures Covers(t.symbols[k], pc - lib.base) <==> k == j {
      CoversIsInSymbol(lib, k, pc);
    }
    CoversIsInSymbol(lib, j, pc);
  }

  lemma {:induction false} NameOf(lib: Lib, j: nat, pc: Addr)
    requires Built(lib) && lib.symtab.Some? && j < |lib.syms| && InSymbol(lib, lib.syms[j], pc)
    ensures var e := lib.symtab.value.symbols[j];
      e.Some? && lib.syms[j].name == Some(e.value.name)
  {
    assert lib.symtab.value.symbols[j] == Slot(lib.syms[j], lib.lowest);
  }

  /** symbol_for_pc at any address of a symbol gives its name and the exact offset. */
  lemma {:induction false} PcExact(libs: seq<Lib>, i: nat, j: nat, pc: Addr)
    requires forall k :: 0 <= k < |libs| ==> GoodLib(libs[k])
    requires i < |libs| && j < |libs[i].syms| && libs[i].symtab.Some?
    requires InSymbol(libs[i], libs[i].syms[j], pc) && DisjointSymbols(libs)
    ensures libs[i].syms[j].name.Some?
    ensures ForPc(libs, pc) == Some((libs[i].syms[j].name.value, pc - Wrap(libs[i].bias + libs[i].syms[j].value)))
    decreases |libs|
  {
    hide InSymbol, GoodLib, PcIn, Wrap;
    assert At(libs, i, j, pc);
    if i == 0 {
      forall k | 0 <= k < |libs[0].syms| && k != j ensures !InSymbol(libs[0], libs[0].syms[k], pc) {
        assert !At(libs, 0, k, pc);
      }
      OnlyThere(libs[0], j, pc);
    } else {
      forall k | 0 <= k < |libs[0].syms| ensures !InSymbol(libs[0], libs[0].syms[k], pc) {
        assert !At(libs, 0, k, pc);
      }
      NothingThere(libs[0], pc);
      DisjointRest(libs);
      PcExact(libs[1..], i - 1, j, pc);
    }
  }

  lemma {:induction false} DisjointRest(libs: seq<Lib>)
    requires libs != [] && DisjointSymbols(libs)
    ensures DisjointSymbols(libs[1..])
  {
    hide InSymbol;
    forall i, j, k, l, pc: Addr | At(libs[1..], i, j, pc) && At(libs[1..], k, l, pc) ensures i == k && j == l {
      assert At(libs, i + 1, j, pc) && At(libs, k + 1, l, pc);
    }
  }

  lemma {:induction false} InOwnRange(lib: Lib, s: ElfSym, d: nat)
    requires s.typed && s.defined && s.name.Some? && SymPlaced(lib, s) && d < s.size
    ensures Wrap(lib.bias + s.value) + d < TWO64 && InSymbol(lib, s, Wrap(lib.bias + s.value) + d)
  {
  }

  /** A defined function or data symbol of this name. */
  predicate Named(s: ElfSym, name: Name) {
    s.typed && s.defined && s.name == Some(name)
  }

  /** The name has one such symbol, `j` of library `i`. */
  ghost predicate OnlyNamed(libs: seq<Lib>, name: Name, i: nat, j: nat) {
    && i < |libs| && j < |libs[i].syms| && libs[i].symtab.Some? && Named(libs[i].syms[j], name)
    && forall k, l :: 0 <= k < |libs| && 0 <= l < |libs[k].syms| && Named(libs[k].syms[l], name) ==> k == i && l == j
  }

  /** It is the first one of that name where it is found, and no other library has one. */
  ghost predicate FirstAndOnly(libs: seq<Lib>, name: Name, i: nat, j: nat) {
    && i < |libs| && FirstNamed(libs[i].syms, name) == j < |libs[i].syms| && libs[i].symtab.Some?
    && forall k :: 0 <= k < |libs| && k != i ==> FirstNamed(libs[k].syms, name) == |libs[k].syms|
  }

  lemma {:induction false} OnlyIsFirst(libs: seq<Lib>, name: Name, i: nat, j: nat)
    requires OnlyNamed(libs, name, i, j)
    ensures FirstAndOnly(libs, name, i, j)
  {
    forall k | 0 <= k < |libs| ensures FirstNamed(libs[k].syms, name) == if k == i then j else |libs[k].syms| {
      var l := FirstNamed(libs[k].syms, name);
      assert l < |libs[k].syms| ==> Named(libs[k].syms[l], name);
    }
  }

  /** lookup_symbol gives load bias plus symbol value. */
  lemma {:induction false} LookupExact(libs: seq<Lib>, name: Name, i: nat, j: nat)
    requires OnlyNamed(libs, name, i, j)
    ensures Lookup(libs, name) == Wrap(libs[i].bias + libs[i].syms[j].value)
  {
    OnlyIsFirst(libs, name, i, j);
    LookupFirst(libs, name, i, j);
  }

  lemma {:induction false} LookupFirst(libs: seq<Lib>, name: Name, i: nat, j: nat)
    requires FirstAndOnly(libs, name, i, j)
    ensures Lookup(libs, name) == Place(libs[i], libs[i].syms[j])
    decreases |libs|
  {
    if i == 0 {
      if Place(libs[0], libs[0].syms[j]) == 0 {
        LookupNothing(libs[1..], name);
      }
    } else {
      LookupFirst(libs[1..], name, i - 1, j);
    }
  }

  lemma {:induction false} LookupNothing(libs: seq<Lib>, name: Name)
    requires forall k :: 0 <= k < |libs| ==> FirstNamed(libs[k].syms, name) == |libs[k].syms|
    ensures Lookup(libs, name) == 0
  {
    if libs != [] {
      LookupNothing(libs[1..], name);
    }
  }

  /** Looking a name up and asking for the symbol at any address of its range gives the name back. */
  lemma {:induction false} SymbolRoundTrip(libs: seq<Lib>, name: Name, i: nat, j: nat, d: nat)
    requires forall k :: 0 <= k < |libs| ==> GoodLib(libs[k])
    requires DisjointSymbols(libs) && OnlyNamed(libs, name, i, j) && d < libs[i].syms[j].size
    ensures Lookup(libs, name) + d < TWO64
    ensures ForPc(libs, Lookup(libs, name) + d) == Some((name, d))
  {
    hide *;
    OnlyNamedFacts(libs, name, i, j);
    var s := libs[i].syms[j];
    LookupExact(libs, name, i, j);
    assert GoodLib(libs[i]);
    PlacedAt(libs[i], j);
    InOwnRange(libs[i], s, d);
    PcExact(libs, i, j, Lookup(libs, name) + d);
  }

  lemma {:induction false} OnlyNamedFacts(libs: seq<Lib>, name: Name, i: nat, j: nat)
    requires OnlyNamed(libs, name, i, j)
    ensures i < |libs| && j < |libs[i].syms| && libs[i].symtab.Some?
    ensures Named(libs[i].syms[j], name)
    ensures var s := libs[i].syms[j]; s.typed && s.defined && s.name == Some(name)
  {
  }

  lemma {:induction false} PlacedAt(lib: Lib, j: nat)
    requires GoodLib(lib) && j < |lib.syms|
    ensures SymPlaced(lib, lib.syms[j])
  {
  }
}
