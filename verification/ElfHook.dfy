/**
 From the dynamic entries of a library to the words written: `xh_elf_init` of `xh_elf.c` behind the program
 headers, then `xh_elf_hook`, as `xh_core.c` calls the two.
 */
module ElfHook {
  import opened CString
  import opened Options
  import opened Sleb128
  import opened SymbolLookup
  import D = Dynamic
  import P = PackedRelocs
  import H = Hook

  /**
   What the fields point into: bytes, words as wide as an address, and C strings, by address. `symbols` is
   the number of symbols, which no field tells where the GNU table is used. The rest is `Hook.Elf`'s.
   */
  datatype Image = Image(
    env: D.Env, phdr: nat, byte: nat -> Byte, wide: nat -> nat, str: nat -> CStr, symbols: nat,
    symShift: nat, jumpSlot: nat, globDat: nat, abs: nat, getProtect: nat -> H.Protection, setProtect: nat -> int)

  // ---------- what the fields describe ----------

  /** Bytes of an address. */
  function WordSize(img: Image): (n: nat)
    ensures n > 0
  {
    if img.env.w == 64 then 8 else 4
  }

  function SymSize(img: Image): nat {
    if img.env.w == 64 then 24 else 16
  }

  function Words(img: Image, a: nat, n: nat): seq<nat> {
    seq<nat>(n, i requires 0 <= i => img.env.word(D.Skip(img.env, a, 4 * i)))
  }

  function Wides(img: Image, a: nat, n: nat): seq<nat> {
    seq<nat>(n, i requires 0 <= i => img.wide(D.Skip(img.env, a, WordSize(img) * i)))
  }

  /** A symbol begins with its name's place in the string table. */
  function Names(img: Image, s: D.Sections): seq<CStr> {
    seq(img.symbols, i requires 0 <= i =>
      img.str(D.Skip(img.env, s.strtab, img.env.word(D.Skip(img.env, s.symtab, SymSize(img) * i)))))
  }

  function TableOf(img: Image, s: D.Sections, h: D.Hashing): Table {
    var names, bucket := Names(img, s), Words(img, h.bucket, h.bucketCnt);
    if h.isUseGnuHash then
      var hashed := if h.symoffset <= img.symbols then img.symbols - h.symoffset else 0;
      Gnu(GnuTable(names, img.env.w, h.symoffset, Wides(img, h.bloom, h.bloomSz), h.bloomShift, bucket,
                   Words(img, h.chain, hashed)))
    else Sysv(SysvTable(names, bucket, Words(img, h.chain, img.symbols)))
  }

  /** The plain iterator's relocations: one at `a`, and on as long as `size` bytes are not used up. */
  function Plain(img: Image, rela: bool, a: nat, size: int): seq<P.Reloc>
    decreases size
  {
    if size <= 0 then []
    else
      var n := WordSize(img);
      var entry := if rela then 3 * n else 2 * n;
      var r := P.Reloc(img.wide(a), img.wide(D.Skip(img.env, a, n)),
                       if rela then img.wide(D.Skip(img.env, a, 2 * n)) else 0);
      [r] + Plain(img, rela, D.Skip(img.env, a, entry), size - entry)
  }

  function Bytes(img: Image, a: nat, n: nat): seq<Byte> {
    seq<Byte>(n, i requires 0 <= i => img.byte(D.Skip(img.env, a, i)))
  }

  /** The fields of an initialised `xh_elf_t`, and what they point to. */
  function Described(img: Image, s: D.Sections, h: D.Hashing): H.Elf {
    H.Elf(true, img.env.w, img.env.bias, img.env.base, s.isUseRela, TableOf(img, s, h),
          img.symShift, img.jumpSlot, img.globDat, img.abs,
          if s.relplt == 0 then [] else Plain(img, s.isUseRela, s.relplt, s.relpltSz),
          if s.reldyn == 0 then [] else Plain(img, s.isUseRela, s.reldyn, s.reldynSz),
          if s.relandroid == 0 then [] else Bytes(img, s.relandroid, s.relandroidSz), s.relandroid != 0,
          img.getProtect, img.setProtect)
  }

  /** A packed table begins with `APS2`. */
  predicate MagicOk(img: Image, s: D.Sections) {
    s.relandroid != 0 ==>
      && s.relandroidSz >= 4 && img.byte(s.relandroid) == 65 && img.byte(D.Skip(img.env, s.relandroid, 1)) == 80
      && img.byte(D.Skip(img.env, s.relandroid, 2)) == 83 && img.byte(D.Skip(img.env, s.relandroid, 3)) == 50
  }

  function BehindMagic(img: Image, s: D.Sections): D.Sections
    requires MagicOk(img, s)
  {
    if s.relandroid == 0 then s
    else s.(relandroid := D.Skip(img.env, s.relandroid, 4), relandroidSz := s.relandroidSz - 4)
  }

  /** xh_elf_check */
  predicate Checked(img: Image, s: D.Sections, h: D.Hashing) {
    && img.env.base != 0 && img.env.bias != 0 && img.phdr != 0 && s.strtab != 0 && s.symtab != 0
    && h.bucket != 0 && h.chain != 0 && (h.isUseGnuHash ==> h.bloom != 0)
  }

  // ---------- initialisation ----------

  /** The entries up to DT_NULL. */
  function Entries(dyn: seq<D.Dyn>): seq<D.Dyn> {
    dyn[..D.Length(dyn)]
  }

  /** The entries declare a library that can be hooked. */
  ghost predicate Initialisable(img: Image, es: seq<D.Dyn>) {
    && D.Accepted(img.env, es) && MagicOk(img, D.DeclaredSections(img.env, es))
    && Checked(img, D.DeclaredSections(img.env, es), D.DeclaredHashing(img.env, es))
  }

  /** The library the entries declare. */
  ghost function DeclaredElf(img: Image, es: seq<D.Dyn>): H.Elf
    requires Initialisable(img, es)
  {
    Described(img, BehindMagic(img, D.DeclaredSections(img.env, es)), D.DeclaredHashing(img.env, es))
  }

  /** xh_elf_init, from the dynamic entries on. */
  method Init(img: Image, dyn: seq<D.Dyn>) returns (r: int, elf: D.Elf)
    ensures fresh(elf) && r == if Initialisable(img, Entries(dyn)) then 0 else H.XH_ERRNO_FORMAT
    ensures r == 0 ==> Described(img, elf.sections, elf.hashing) == DeclaredElf(img, Entries(dyn))
  {
    elf := new D.Elf(img.env);
    var ok := elf.Parse(dyn);
    if !ok || !MagicOk(img, elf.sections) {
      return H.XH_ERRNO_FORMAT, elf;
    }
    elf.sections := BehindMagic(img, elf.sections);
    r := if Checked(img, elf.sections, elf.hashing) then 0 else H.XH_ERRNO_FORMAT;
  }

  // ---------- end to end ----------

  /**
   The memory and the code when a function has been put in: success exactly if no slot has a fault, and
   then exactly the slots are set; else exactly the first `n` are, and the fault of the next is reported.
   */
  ghost predicate Done(elf: H.Elf, newFunc: nat, before: map<nat, nat>, after: map<nat, nat>, r: int,
                       slots: seq<nat>, n: nat)
  {
    && n <= |slots| && H.AllClear(elf, newFunc, before, slots[..n])
    && H.SetExactly(before, after, slots[..n], newFunc)
    && (r == 0 <==> H.AllClear(elf, newFunc, before, slots))
    && if r == 0 then n == |slots| else n < |slots| && r == H.Fault(elf, newFunc, before, slots[n])
  }

  /** What `*old_func` holds after a success: the original of the last slot that had to be replaced. */
  function SavedAfter(newFunc: nat, before: map<nat, nat>, saved: nat, slots: seq<nat>): nat {
    var rs := H.Replaced(newFunc, before, slots);
    if rs == [] then saved else H.Read(before, rs[|rs| - 1])
  }

  /** Without a function only the slots are looked at, and `*old_func` is what the last one holds. */
  ghost predicate Looked(elf: H.Elf, s: H.State, t: H.State, slots: seq<nat>) {
    && t.words == s.words && (t.code == 0 <==> forall i :: 0 <= i < |slots| ==> slots[i] >= elf.base)
    && (t.code == 0 ==> t.saved == if slots == [] then s.saved else H.Read(s.words, slots[|slots| - 1]))
  }

  /** From the state `s` hooking leads to `t`; `n` slots are set on the way. */
  ghost predicate Hooked(elf: H.Elf, newFunc: nat, s: H.State, t: H.State, slots: seq<nat>, n: nat) {
    if newFunc == 0 then Looked(elf, s, t, slots)
    else
      && Done(elf, newFunc, s.words, t.words, t.code, slots, n)
      && (t.code == 0 ==> t.saved == SavedAfter(newFunc, s.words, s.saved, slots))
  }

  lemma HookedBy(elf: H.Elf, newFunc: nat, s: H.State, slots: seq<nat>) returns (n: nat)
    requires s.code == 0
    ensures Hooked(elf, newFunc, s, H.Outcome(elf, newFunc, s, slots), slots, n)
  {
    n := 0;
    if newFunc == 0 {
      H.NullOnlyReads(elf, s, slots);
    } else {
      n := H.EndState(elf, newFunc, s, slots);
      if H.Outcome(elf, newFunc, s, slots).code == 0 {
        H.SavedIsLastReplaced(elf, newFunc, s, slots);
      }
    }
  }

  /**
   xh_elf_init and xh_elf_hook, from the dynamic entries to the memory: what is not initialisable, has no
   name asked for or does not know the symbol stays as it is; otherwise exactly the slots are set that the
   declared tables name for a symbol with this name.
   */
  method InitAndHook(img: Image, dyn: seq<D.Dyn>, m: H.Memory, symbol: Option<CStr>, newFunc: nat, oldFunc: H.Cell?,
                     ghost lists: seq<seq<nat>>, ghost groups: seq<P.Group>, ghost start: nat)
    returns (r: int, ghost lookup: Lookup, ghost android: seq<P.Reloc>, ghost t: H.State, ghost n: nat)
    requires Initialisable(img, Entries(dyn)) ==> WellFormed(DeclaredElf(img, Entries(dyn)).table, lists)
    modifies m, oldFunc
    ensures lookup == NotFound ==> m.words == old(m.words) && (oldFunc != null ==> oldFunc.value == old(oldFunc.value))
    ensures !Initialisable(img, Entries(dyn)) ==> r == H.XH_ERRNO_FORMAT && lookup == NotFound
    ensures Initialisable(img, Entries(dyn)) && symbol.None? ==> r == H.XH_ERRNO_INVAL && lookup == NotFound
    ensures Initialisable(img, Entries(dyn)) && symbol.Some? ==>
              var elf := DeclaredElf(img, Entries(dyn));
              && Answers(elf.table, lists, symbol.value, lookup) && (lookup == NotFound ==> r == 0)
              && (lookup.Found? ==>
                    var s := H.State(old(m.words), if oldFunc == null then 0 else old(oldFunc.value), 0);
                    && Hooked(elf, newFunc, s, t, H.Targets(elf, lookup.index, android), n)
                    && H.Shows(m, oldFunc, t) && r == t.code)
              && (!elf.hasAndroid ==> android == [])
              && (elf.hasAndroid && H.Packed(elf, groups, start) && lookup.Found? ==> android == P.Flatten(groups))
  {
    lookup, android, n := NotFound, [], 0;
    ghost var s := H.State(m.words, if oldFunc == null then 0 else oldFunc.value, 0);
    t := s;
    var fields;
    r, fields := Init(img, dyn);
    if r != 0 {
      return;
    }
    var elf := Described(img, fields.sections, fields.hashing);
    r, lookup, android := H.Hook(elf, m, symbol, newFunc, oldFunc, lists, groups, start);
    if lookup.Found? {
      ghost var slots := H.Targets(elf, lookup.index, android);
      t := H.Outcome(elf, newFunc, s, slots);
      n := HookedBy(elf, newFunc, s, slots);
    }
  }

  /** The order of the dynamic entries is no part of it: permuted entries declare the same library. */
  lemma OrderIrrelevant(img: Image, a: seq<D.Dyn>, b: seq<D.Dyn>)
    requires multiset(a) == multiset(b) && D.KindsOnce(a) && D.PointersInRange(img.env, a)
    ensures Initialisable(img, a) <==> Initialisable(img, b)
    ensures Initialisable(img, a) ==> DeclaredElf(img, a) == DeclaredElf(img, b)
  {
    D.OrderInsensitive(img.env, a, a);
    D.OrderInsensitive(img.env, a, b);
  }
}
