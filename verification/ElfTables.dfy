/** What the fields of an initialised library lead to: its tables, read from the words and bytes in memory. */
module ElfTables {
  import opened Bits
  import opened CString
  import opened Sleb128
  import opened SymbolLookup
  import opened ElfHook
  import D = Dynamic
  import P = PackedRelocs

  // ---------- relocations ----------

  /** How many relocations the plain iterator yields: a last one is read whole even where the size cuts it. */
  lemma {:induction false} PlainLength(img: Image, rela: bool, a: nat, size: int, bytes: nat)
    requires bytes == if rela then 3 * WordSize(img) else 2 * WordSize(img)
    ensures var n := |Plain(img, rela, a, size)|;
            if size <= 0 then n == 0 else (n - 1) * bytes < size <= n * bytes
    decreases size
  {
    if size > 0 {
      var rest := Plain(img, rela, D.Skip(img.env, a, bytes), size - bytes);
      PlainLength(img, rela, D.Skip(img.env, a, bytes), size - bytes, bytes);
      assert |Plain(img, rela, a, size)| == |rest| + 1;
      OneMoreEntry(|rest|, bytes);
    }
  }

  lemma OneMoreEntry(n: nat, bytes: nat)
    ensures (n + 1) * bytes == n * bytes + bytes && (n - 1) * bytes == n * bytes - bytes
  {
  }

  /** The relocation that stands at an address. */
  function RelocAt(img: Image, rela: bool, x: nat): P.Reloc {
    var n := WordSize(img);
    P.Reloc(img.wide(D.Skip(img.env, x, 0)), img.wide(D.Skip(img.env, x, n)),
            if rela then img.wide(D.Skip(img.env, x, 2 * n)) else 0)
  }

  lemma SkipTwice(env: D.Env, x: nat, n: nat, y: nat, m: nat)
    ensures D.Skip(env, D.Skip(env, x, n) + y, m) == D.Skip(env, x + n + y, m)
  {
    D.AtMeans(env, 0);
    ModSummand(x + n, y + m, Pow2(env.w));
  }

  lemma RelocAround(img: Image, rela: bool, x: nat, n: nat, y: nat)
    ensures RelocAt(img, rela, D.Skip(img.env, x, n) + y) == RelocAt(img, rela, x + n + y)
  {
    SkipTwice(img.env, x, n, y, 0);
    SkipTwice(img.env, x, n, y, WordSize(img));
    SkipTwice(img.env, x, n, y, 2 * WordSize(img));
  }

  /** So far reach `k` relocations. */
  function Reach(k: nat, bytes: nat): nat {
    if k == 0 then 0 else bytes + Reach(k - 1, bytes)
  }

  /** The `k`-th relocation is the one at `x`. */
  ghost predicate Stands(img: Image, rela: bool, a: nat, size: int, k: nat, x: nat) {
    k < |Plain(img, rela, a, size)| ==> Plain(img, rela, a, size)[k] == RelocAt(img, rela, x)
  }

  lemma StandsFirst(img: Image, rela: bool, a: nat, size: int)
    requires a < Pow2(img.env.w)
    ensures Stands(img, rela, a, size, 0, a)
  {
  }

  lemma StandsNext(img: Image, rela: bool, a: nat, size: int, bytes: nat, k: nat, y: nat, x: nat)
    requires k > 0 && x == a + bytes + y && bytes == if rela then 3 * WordSize(img) else 2 * WordSize(img)
    requires Stands(img, rela, D.Skip(img.env, a, bytes), size - bytes, k - 1, D.Skip(img.env, a, bytes) + y)
    ensures Stands(img, rela, a, size, k, x)
  {
    RelocAround(img, rela, a, bytes, y);
  }

  lemma {:induction false} PlainFrom(img: Image, rela: bool, a: nat, size: int, bytes: nat, k: nat, x: nat)
    requires a < Pow2(img.env.w) && bytes == if rela then 3 * WordSize(img) else 2 * WordSize(img)
    requires x == a + Reach(k, bytes)
    ensures Stands(img, rela, a, size, k, x)
    decreases k
  {
    if k == 0 {
      StandsFirst(img, rela, a, size);
    } else {
      var a', y := D.Skip(img.env, a, bytes), Reach(k - 1, bytes);
      PlainFrom(img, rela, a', size - bytes, bytes, k - 1, a' + y);
      StandsNext(img, rela, a, size, bytes, k, y, x);
    }
  }

  lemma {:induction false} ReachIs(k: nat, bytes: nat)
    ensures Reach(k, bytes) == k * bytes
  {
    if k > 0 {
      ReachIs(k - 1, bytes);
      OneMoreEntry(k - 1, bytes);
    }
  }

  /**
   These are the relocations of the table of `size` bytes at `a`, each with its addend behind offset and info
   if there is one: as many as begin in it, each where those before it end.
   */
  ghost predicate Reads(img: Image, rela: bool, a: nat, size: nat, rs: seq<P.Reloc>) {
    var n := if img.env.w == 64 then 8 else 4;
    var bytes := if rela then 3 * n else 2 * n;
    && (if a == 0 || size == 0 then rs == [] else (|rs| - 1) * bytes < size <= |rs| * bytes)
    && forall k :: 0 <= k < |rs| ==> ReadsOne(img, rela, a + k * bytes, n, rs[k])
  }

  ghost predicate ReadsOne(img: Image, rela: bool, at: nat, n: nat, r: P.Reloc) {
    var m := Pow2(img.env.w);
    && r.offset == img.wide(at % m) && r.info == img.wide((at + n) % m)
    && r.addend == if rela then img.wide((at + 2 * n) % m) else 0
  }

  lemma StandsReads(img: Image, rela: bool, x: nat)
    ensures ReadsOne(img, rela, x, WordSize(img), RelocAt(img, rela, x))
  {
    D.AtMeans(img.env, x);
  }

  lemma PlainReadsAt(img: Image, rela: bool, a: nat, size: nat, bytes: nat, k: nat)
    requires a < Pow2(img.env.w) && bytes == if rela then 3 * WordSize(img) else 2 * WordSize(img)
    ensures k < |Plain(img, rela, a, size)| ==>
              ReadsOne(img, rela, a + k * bytes, WordSize(img), Plain(img, rela, a, size)[k])
  {
    ReachIs(k, bytes);
    PlainFrom(img, rela, a, size, bytes, k, a + k * bytes);
    StandsReads(img, rela, a + k * bytes);
  }

  lemma PlainReads(img: Image, rela: bool, a: nat, size: nat)
    requires a < Pow2(img.env.w)
    ensures Reads(img, rela, a, size, if a == 0 then [] else Plain(img, rela, a, size))
  {
    var bytes := if rela then 3 * WordSize(img) else 2 * WordSize(img);
    PlainLength(img, rela, a, size, bytes);
    ReadsEach(img, rela, a, size, bytes, if a == 0 then [] else Plain(img, rela, a, size));
  }

  lemma ReadsEach(img: Image, rela: bool, a: nat, size: nat, bytes: nat, rs: seq<P.Reloc>)
    requires a < Pow2(img.env.w) && bytes == if rela then 3 * WordSize(img) else 2 * WordSize(img)
    requires rs == [] || rs == Plain(img, rela, a, size)
    ensures forall k :: 0 <= k < |rs| ==> ReadsOne(img, rela, a + k * bytes, WordSize(img), rs[k])
  {
    forall k | 0 <= k < |rs|
      ensures ReadsOne(img, rela, a + k * bytes, WordSize(img), rs[k])
    {
      PlainReadsAt(img, rela, a, size, bytes, k);
    }
  }

  /** The relocations of an initialised library are those of the tables its entries declare. */
  lemma TablesDeclared(img: Image, es: seq<D.Dyn>)
    requires Initialisable(img, es)
    ensures var elf, s := DeclaredElf(img, es), D.DeclaredSections(img.env, es);
            && Reads(img, s.isUseRela, s.relplt, s.relpltSz, elf.relplt)
            && Reads(img, s.isUseRela, s.reldyn, s.reldynSz, elf.reldyn)
            && elf.isUseRela == s.isUseRela
  {
    var s := D.DeclaredSections(img.env, es);
    PlainReads(img, s.isUseRela, s.relplt, s.relpltSz);
    PlainReads(img, s.isUseRela, s.reldyn, s.reldynSz);
  }

  /** The bytes from an address on. */
  ghost predicate ReadsBytes(img: Image, a: nat, n: nat, bytes: seq<Byte>) {
    |bytes| == n && forall k :: 0 <= k < n ==> bytes[k] == img.byte((a + k) % Pow2(img.env.w))
  }

  lemma BytesRead(img: Image, a: nat, n: nat)
    ensures ReadsBytes(img, a, n, Bytes(img, a, n))
  {
    D.AtMeans(img.env, a);
  }

  ghost predicate Aps2(img: Image, a: nat) {
    && img.byte(a) == 'A' as int && img.byte((a + 1) % Pow2(img.env.w)) == 'P' as int
    && img.byte((a + 2) % Pow2(img.env.w)) == 'S' as int && img.byte((a + 3) % Pow2(img.env.w)) == '2' as int
  }

  /** A packed table begins with `APS2`. */
  lemma MagicMeans(img: Image, s: D.Sections)
    ensures MagicOk(img, s) <==> s.relandroid == 0 || (s.relandroidSz >= 4 && Aps2(img, s.relandroid))
  {
    D.AtMeans(img.env, s.relandroid);
  }

  /**
   What is behind that is decoded, if the library declares such a table. (Nothing is if the table begins in
   the last four bytes of the address space.)
   */
  lemma PackedDeclared(img: Image, es: seq<D.Dyn>)
    requires Initialisable(img, es)
    ensures var elf, s := DeclaredElf(img, es), D.DeclaredSections(img.env, es);
            var a := (s.relandroid + 4) % Pow2(img.env.w);
            && (elf.hasAndroid <==> s.relandroid != 0 && a != 0)
            && (if elf.hasAndroid then ReadsBytes(img, a, s.relandroidSz - 4, elf.android) else elf.android == [])
  {
    var s := D.DeclaredSections(img.env, es);
    D.AtMeans(img.env, 0);
    if s.relandroid != 0 {
      BytesRead(img, D.Skip(img.env, s.relandroid, 4), s.relandroidSz - 4);
    }
  }

  // ---------- symbols and their hash table ----------

  /** The 32-bit words from an address on. */
  ghost predicate ReadsWords(img: Image, a: nat, ws: seq<nat>) {
    forall k :: 0 <= k < |ws| ==> ws[k] == img.env.word((a + 4 * k) % Pow2(img.env.w))
  }

  /** Those of the width of an address. */
  ghost predicate ReadsWides(img: Image, a: nat, ws: seq<nat>) {
    var n := if img.env.w == 64 then 8 else 4;
    forall k :: 0 <= k < |ws| ==> ws[k] == img.wide((a + n * k) % Pow2(img.env.w))
  }

  /** A symbol of 24 or 16 bytes begins with the distance of its name from the string table. */
  ghost predicate ReadsNames(img: Image, strtab: nat, symtab: nat, names: seq<CStr>) {
    var n := if img.env.w == 64 then 24 else 16;
    && |names| == img.symbols
    && forall k :: 0 <= k < |names| ==> names[k] == NameAt(img, strtab, symtab, n * k)
  }

  lemma WordsRead(img: Image, a: nat, n: nat)
    ensures ReadsWords(img, a, Words(img, a, n))
  {
    forall k | 0 <= k < n
      ensures Words(img, a, n)[k] == img.env.word((a + 4 * k) % Pow2(img.env.w))
    {
      SkipIs(img.env, a, 4 * k);
    }
  }

  lemma WidesRead(img: Image, a: nat, n: nat)
    ensures ReadsWides(img, a, Wides(img, a, n))
  {
    forall k | 0 <= k < n
      ensures Wides(img, a, n)[k] == img.wide((a + WordSize(img) * k) % Pow2(img.env.w))
    {
      WideAt(img, a, n, k, WordSize(img) * k);
    }
  }

  lemma WideAt(img: Image, a: nat, n: nat, k: nat, x: nat)
    requires k < n && x == WordSize(img) * k
    ensures Wides(img, a, n)[k] == img.wide((a + x) % Pow2(img.env.w))
  {
    SkipIs(img.env, a, x);
  }

  lemma NamesRead(img: Image, s: D.Sections)
    ensures ReadsNames(img, s.strtab, s.symtab, Names(img, s))
  {
    forall k | 0 <= k < img.symbols
      ensures Names(img, s)[k] == NameAt(img, s.strtab, s.symtab, SymSize(img) * k)
    {
      NameIs(img, s, k, SymSize(img) * k);
    }
  }

  function NameAt(img: Image, strtab: nat, symtab: nat, x: nat): CStr {
    var m := Pow2(img.env.w);
    img.str((strtab + img.env.word((symtab + x) % m)) % m)
  }

  lemma NameIs(img: Image, s: D.Sections, k: nat, x: nat)
    requires k < img.symbols && x == SymSize(img) * k
    ensures Names(img, s)[k] == NameAt(img, s.strtab, s.symtab, x)
  {
    SkipIs(img.env, s.symtab, x);
    SkipIs(img.env, s.strtab, img.env.word((s.symtab + x) % Pow2(img.env.w)));
  }

  lemma SkipIs(env: D.Env, a: nat, n: nat)
    ensures D.Skip(env, a, n) == (a + n) % Pow2(env.w)
  {
    D.AtMeans(env, 0);
  }

  /** The System V table in use is the one its fields lead to, over the symbols of the library. */
  ghost predicate ReadsSysv(img: Image, h: D.Hashing, t: SysvTable) {
    && !h.isUseGnuHash && |t.bucket| == h.bucketCnt && ReadsWords(img, h.bucket, t.bucket)
    && |t.chain| == img.symbols && ReadsWords(img, h.chain, t.chain)
  }

  /** The GNU table likewise. */
  ghost predicate ReadsGnu(img: Image, h: D.Hashing, t: GnuTable) {
    && h.isUseGnuHash && t.bits == img.env.w && t.symoffset == h.symoffset && t.bloomShift == h.bloomShift
    && |t.bloom| == h.bloomSz && ReadsWides(img, h.bloom, t.bloom)
    && |t.bucket| == h.bucketCnt && ReadsWords(img, h.bucket, t.bucket)
    && (t.symoffset <= img.symbols ==> |t.chain| == img.symbols - t.symoffset) && ReadsWords(img, h.chain, t.chain)
  }

  ghost predicate ReadsTable(img: Image, strtab: nat, symtab: nat, h: D.Hashing, t: Table) {
    match t
    case Sysv(s) => ReadsSysv(img, h, s) && ReadsNames(img, strtab, symtab, s.names)
    case Gnu(g) => ReadsGnu(img, h, g) && ReadsNames(img, strtab, symtab, g.names)
  }

  lemma TableRead(img: Image, s: D.Sections, h: D.Hashing)
    ensures ReadsTable(img, s.strtab, s.symtab, h, TableOf(img, s, h))
  {
    NamesRead(img, s);
    WordsRead(img, h.bucket, h.bucketCnt);
    if h.isUseGnuHash {
      WidesRead(img, h.bloom, h.bloomSz);
      WordsRead(img, h.chain, if h.symoffset <= img.symbols then img.symbols - h.symoffset else 0);
    } else {
      WordsRead(img, h.chain, img.symbols);
    }
  }

  /** The symbols and the hash table of an initialised library are those its entries declare. */
  lemma HashDeclared(img: Image, es: seq<D.Dyn>)
    requires Initialisable(img, es)
    ensures var s := D.DeclaredSections(img.env, es);
            ReadsTable(img, s.strtab, s.symtab, D.DeclaredHashing(img.env, es), DeclaredElf(img, es).table)
  {
    TableRead(img, BehindMagic(img, D.DeclaredSections(img.env, es)), D.DeclaredHashing(img.env, es));
  }

  // ---------- which libraries can be hooked ----------

  /** Some entry has the tag. */
  ghost predicate Tagged(es: seq<D.Dyn>, tag: int) {
    exists i :: 0 <= i < |es| && es[i].tag == tag
  }

  /** What a library needs: addresses of its own, a string table, a symbol table and a hash table. */
  lemma InitialisableNeeds(img: Image, es: seq<D.Dyn>)
    requires Initialisable(img, es)
    ensures img.env.base != 0 && img.env.bias != 0 && img.phdr != 0
    ensures Tagged(es, 5) && Tagged(es, 6) && (Tagged(es, 4) || Tagged(es, 0x6fff_fef5))
    ensures forall i :: 0 <= i < |es| ==> !D.Refused(img.env, es, i)
  {
    var env := img.env;
    if !Tagged(es, 5) {
      D.AbsentMeans(env, es, 5, 5);
    }
    if !Tagged(es, 6) {
      D.AbsentMeans(env, es, 6, 6);
    }
    if !Tagged(es, 4) && !Tagged(es, 0x6fff_fef5) {
      D.NoHashMeans(env, es);
    }
  }

  lemma StringsAt(env: D.Env, es: seq<D.Dyn>, i: nat)
    requires D.LastWith(es, i, 5, 5)
    ensures D.DeclaredSections(env, es).strtab == (env.bias + es[i].val) % Pow2(env.w)
  {
    D.AddressesMean(env, es, i);
  }

  lemma SymbolsAt(env: D.Env, es: seq<D.Dyn>, i: nat)
    requires D.LastWith(es, i, 6, 6)
    ensures D.DeclaredSections(env, es).symtab == (env.bias + es[i].val) % Pow2(env.w)
  {
    D.AddressesMean(env, es, i);
  }

  lemma HashAt(env: D.Env, es: seq<D.Dyn>, k: nat, raw: nat, bloom: nat, bucket: nat)
    requires D.LastWith(es, k, 0x6fff_fef5, 0x6fff_fef5)
    requires var m := Pow2(env.w);
             && raw == (env.bias + es[k].val) % m && bloom == (raw + 16) % m
             && bucket == (bloom + env.w / 8 * env.word(raw + 8)) % m
    ensures var h := D.DeclaredHashing(env, es);
            && h.isUseGnuHash && h.bloom == bloom && h.bucket == bucket
            && h.chain == (bucket + 4 * env.word(raw)) % Pow2(env.w)
  {
    D.GnuFieldsMean(env, es, k);
  }

  /** The fields that tell whether a library can be hooked, as its entries give them. */
  lemma CheckedFields(img: Image, es: seq<D.Dyn>, i: nat, j: nat, k: nat, raw: nat, bloom: nat, bucket: nat)
    requires D.LastWith(es, i, 5, 5) && D.LastWith(es, j, 6, 6) && D.LastWith(es, k, 0x6fff_fef5, 0x6fff_fef5)
    requires var env, m := img.env, Pow2(img.env.w);
             && raw == (env.bias + es[k].val) % m && bloom == (raw + 16) % m
             && bucket == (bloom + env.w / 8 * env.word(raw + 8)) % m
    ensures var env, m := img.env, Pow2(img.env.w);
            var s, h := D.DeclaredSections(env, es), D.DeclaredHashing(env, es);
            && s.strtab == (env.bias + es[i].val) % m && s.symtab == (env.bias + es[j].val) % m
            && h.isUseGnuHash && h.bloom == bloom && h.bucket == bucket
            && h.chain == (bucket + 4 * env.word(raw)) % m
  {
    StringsAt(img.env, es, i);
    SymbolsAt(img.env, es, j);
    HashAt(img.env, es, k, raw, bloom, bucket);
  }

  /** And with a GNU table that is enough, where no address wraps to 0 and a packed table has its magic. */
  lemma InitialisableMeans(img: Image, es: seq<D.Dyn>, i: nat, j: nat, k: nat, raw: nat, bloom: nat, bucket: nat)
    requires D.LastWith(es, i, 5, 5) && D.LastWith(es, j, 6, 6) && D.LastWith(es, k, 0x6fff_fef5, 0x6fff_fef5)
    requires var env, m := img.env, Pow2(img.env.w);
             && raw == (env.bias + es[k].val) % m && bloom == (raw + 16) % m
             && bucket == (bloom + env.w / 8 * env.word(raw + 8)) % m
    ensures var env, m, s := img.env, Pow2(img.env.w), D.DeclaredSections(img.env, es);
            Initialisable(img, es) <==>
              && (forall i :: 0 <= i < |es| ==> !D.Refused(env, es, i))
              && (s.relandroid != 0 ==> s.relandroidSz >= 4 && Aps2(img, s.relandroid))
              && env.base != 0 && env.bias != 0 && img.phdr != 0
              && (env.bias + es[i].val) % m != 0 && (env.bias + es[j].val) % m != 0
              && bloom != 0 && bucket != 0 && (bucket + 4 * env.word(raw)) % m != 0
  {
    MagicMeans(img, D.DeclaredSections(img.env, es));
    CheckedFields(img, es, i, j, k, raw, bloom, bucket);
  }
}
