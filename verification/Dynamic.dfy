/** The dynamic-section loop of `xh_elf_init` in `xh_elf.c`. */
module Dynamic {
  import opened Bits
  import opened Options

  /** A `.dynamic` entry. */
  datatype Dyn = Dyn(tag: int, val: nat)

  /** The kinds of entries that are recognised; REL and RELA share a kind. */
  datatype Kind = StrTab | SymTab | PltRel | JmpRel | PltRelSz | RelDyn | RelDynSz
    | Android | AndroidSz | Hash | GnuHash | Other

  const DT_NULL := 0
  const DT_PLTRELSZ := 2
  const DT_HASH := 4
  const DT_STRTAB := 5
  const DT_SYMTAB := 6
  const DT_RELA := 7
  const DT_RELASZ := 8
  const DT_REL := 17
  const DT_RELSZ := 18
  const DT_PLTREL := 20
  const DT_JMPREL := 23
  const DT_ANDROID_REL := 0x6000_000f
  const DT_ANDROID_RELSZ := 0x6000_0010
  const DT_ANDROID_RELA := 0x6000_0011
  const DT_ANDROID_RELASZ := 0x6000_0012
  const DT_GNU_HASH := 0x6fff_fef5

  function KindOf(tag: int): Kind {
    if tag == DT_STRTAB then StrTab
    else if tag == DT_SYMTAB then SymTab
    else if tag == DT_PLTREL then PltRel
    else if tag == DT_JMPREL then JmpRel
    else if tag == DT_PLTRELSZ then PltRelSz
    else if tag == DT_REL || tag == DT_RELA then RelDyn
    else if tag == DT_RELSZ || tag == DT_RELASZ then RelDynSz
    else if tag == DT_ANDROID_REL || tag == DT_ANDROID_RELA then Android
    else if tag == DT_ANDROID_RELSZ || tag == DT_ANDROID_RELASZ then AndroidSz
    else if tag == DT_HASH then Hash
    else if tag == DT_GNU_HASH then GnuHash
    else Other
  }

  /** The library's place in memory: word width in bits, load bias, base, and the 32-bit words. */
  datatype Env = Env(w: nat, bias: nat, base: nat, word: nat -> nat)

  function At(env: Env, ptr: nat): nat {
    Remainder(env.bias + ptr, Pow2(env.w))
  }

  /** A byte distance further on. */
  function Skip(env: Env, a: nat, n: nat): nat {
    Remainder(a + n, Pow2(env.w))
  }

  /** The fields of an `xh_elf_t` for the string, symbol and relocation tables. */
  datatype Sections = Sections(
    strtab: nat, symtab: nat, isUseRela: bool, relplt: nat, relpltSz: nat, reldyn: nat, reldynSz: nat,
    relandroid: nat, relandroidSz: nat)

  /** Its fields for the hash table in use. */
  datatype Hashing = Hashing(
    isUseGnuHash: bool, bucketCnt: nat, bucket: nat, chain: nat, symoffset: nat, bloomSz: nat, bloomShift: nat,
    bloom: nat)

  // ---------- the declaration: each field from the last entry of its kind ----------

  function Last(es: seq<Dyn>, k: Kind): Option<nat> {
    if es == [] then None
    else if KindOf(es[|es| - 1].tag) == k then Some(es[|es| - 1].val)
    else Last(es[..|es| - 1], k)
  }

  function Pointer(env: Env, v: Option<nat>): nat {
    match v
    case None => 0
    case Some(ptr) => At(env, ptr)
  }

  /** Sizes are 32-bit fields. */
  function Size(v: Option<nat>): nat {
    match v
    case None => 0
    case Some(val) => val % 0x1_0000_0000
  }

  /** The number of SysV chain entries: from the last DT_HASH that no DT_GNU_HASH precedes. */
  function ChainCnt(env: Env, es: seq<Dyn>): nat {
    if es == [] then 0
    else
      var n := |es| - 1;
      if KindOf(es[n].tag) == Hash && Last(es[..n], GnuHash).None? then env.word(At(env, es[n].val) + 4)
      else ChainCnt(env, es[..n])
  }

  function DeclaredSections(env: Env, es: seq<Dyn>): Sections {
    Sections(Pointer(env, Last(es, StrTab)), Pointer(env, Last(es, SymTab)), Last(es, PltRel) == Some(DT_RELA),
             Pointer(env, Last(es, JmpRel)), Size(Last(es, PltRelSz)), Pointer(env, Last(es, RelDyn)),
             Size(Last(es, RelDynSz)), Pointer(env, Last(es, Android)), Size(Last(es, AndroidSz)))
  }

  function SysvHashing(env: Env, ptr: nat): Hashing {
    var raw := At(env, ptr);
    var bucket := Skip(env, raw, 8);
    Hashing(false, env.word(raw), bucket, Skip(env, bucket, 4 * env.word(raw)), 0, 0, 0, 0)
  }

  function GnuHashing(env: Env, ptr: nat): Hashing {
    var raw := At(env, ptr);
    var bloom := Skip(env, raw, 16);
    var bucket := Skip(env, bloom, env.w / 8 * env.word(raw + 8));
    Hashing(true, env.word(raw), bucket, Skip(env, bucket, 4 * env.word(raw)), env.word(raw + 4),
            env.word(raw + 8), env.word(raw + 12), bloom)
  }

  /** From DT_GNU_HASH if there is one, else from DT_HASH. */
  function DeclaredHashing(env: Env, es: seq<Dyn>): Hashing {
    if Last(es, GnuHash).Some? then GnuHashing(env, Last(es, GnuHash).value)
    else if Last(es, Hash).Some? then SysvHashing(env, Last(es, Hash).value)
    else Hashing(false, 0, 0, 0, 0, 0, 0, 0)
  }

  lemma Snoc(es: seq<Dyn>, i: nat)
    requires i < |es|
    ensures es[..i] + [es[i]] == es[..i + 1]
  {
  }

  lemma Front(es: seq<Dyn>, e: Dyn)
    ensures (es + [e])[..|es|] == es
  {
  }

  predicate IsHash(k: Kind) {
    k == Hash || k == GnuHash
  }

  predicate IsPointer(k: Kind) {
    k == StrTab || k == SymTab || k == JmpRel || k == RelDyn || k == Android || IsHash(k)
  }

  /** Entry `i` is one the loop refuses: it points below the base, and is not a DT_HASH behind a DT_GNU_HASH. */
  predicate Refused(env: Env, es: seq<Dyn>, i: nat)
    requires i < |es|
  {
    && IsPointer(KindOf(es[i].tag)) && At(env, es[i].val) < env.base
    && !(KindOf(es[i].tag) == Hash && Last(es[..i], GnuHash).Some?)
  }

  /** How many entries there are before the first DT_NULL. */
  function Length(es: seq<Dyn>): (n: nat)
    ensures n <= |es|
  {
    if es == [] || es[0].tag == DT_NULL then 0 else 1 + Length(es[1..])
  }

  lemma {:induction false} LengthStops(es: seq<Dyn>)
    ensures Length(es) < |es| ==> es[Length(es)].tag == DT_NULL
    ensures forall i :: 0 <= i < Length(es) ==> es[i].tag != DT_NULL
  {
    if es != [] && es[0].tag != DT_NULL {
      LengthStops(es[1..]);
    }
  }

  // ---------- the loop ----------

  class Elf {
    const env: Env
    var sections: Sections
    var hashing: Hashing
    var chainCnt: nat

    constructor (env: Env)
      ensures this.env == env && Holds([])
    {
      this.env := env;
      sections := Sections(0, 0, false, 0, 0, 0, 0, 0, 0);
      hashing := Hashing(false, 0, 0, 0, 0, 0, 0, 0);
      chainCnt := 0;
    }

    /** The fields are the declared ones of these entries. */
    ghost predicate Holds(es: seq<Dyn>)
      reads this
    {
      sections == DeclaredSections(env, es) && hashing == DeclaredHashing(env, es) && chainCnt == ChainCnt(env, es)
    }

    /** The switch on a tag other than DT_NULL: the cases of the section tables. */
    method TakeSection(ghost before: seq<Dyn>, e: Dyn) returns (ok: bool)
      requires sections == DeclaredSections(env, before)
      modifies this`sections
      ensures ok == !(IsPointer(KindOf(e.tag)) && !IsHash(KindOf(e.tag)) && At(env, e.val) < env.base)
      ensures sections == DeclaredSections(env, before + [e])
    {
      Front(before, e);
      ok := true;
      match KindOf(e.tag)
      case StrTab =>
        sections := sections.(strtab := At(env, e.val));
        ok := sections.strtab >= env.base;
      case SymTab =>
        sections := sections.(symtab := At(env, e.val));
        ok := sections.symtab >= env.base;
      case PltRel =>
        sections := sections.(isUseRela := e.val == DT_RELA);
      case JmpRel =>
        sections := sections.(relplt := At(env, e.val));
        ok := sections.relplt >= env.base;
      case PltRelSz =>
        sections := sections.(relpltSz := e.val % 0x1_0000_0000);
      case RelDyn =>
        sections := sections.(reldyn := At(env, e.val));
        ok := sections.reldyn >= env.base;
      case RelDynSz =>
        sections := sections.(reldynSz := e.val % 0x1_0000_0000);
      case Android =>
        sections := sections.(relandroid := At(env, e.val));
        ok := sections.relandroid >= env.base;
      case AndroidSz =>
        sections := sections.(relandroidSz := e.val % 0x1_0000_0000);
      case _ =>
    }

    /** The case DT_HASH, when it is not ignored. */
    method ReadSysv(raw: nat)
      requires !hashing.isUseGnuHash
      modifies this`hashing, this`chainCnt
      ensures chainCnt == env.word(raw + 4)
      ensures hashing == old(hashing).(bucketCnt := env.word(raw), bucket := Skip(env, raw, 8),
                                       chain := Skip(env, Skip(env, raw, 8), 4 * env.word(raw)))
    {
      hashing := hashing.(bucketCnt := env.word(raw));
      chainCnt := env.word(raw + 4);
      hashing := hashing.(bucket := Skip(env, raw, 8));
      hashing := hashing.(chain := Skip(env, hashing.bucket, 4 * hashing.bucketCnt));
    }

    /** The case DT_GNU_HASH. */
    method ReadGnu(ptr: nat)
      modifies this`hashing
      ensures hashing == GnuHashing(env, ptr)
    {
      var raw := At(env, ptr);
      hashing := hashing.(bucketCnt := env.word(raw), symoffset := env.word(raw + 4));
      hashing := hashing.(bloomSz := env.word(raw + 8), bloomShift := env.word(raw + 12));
      hashing := hashing.(bloom := Skip(env, raw, 16));
      hashing := hashing.(bucket := Skip(env, hashing.bloom, env.w / 8 * hashing.bloomSz));
      hashing := hashing.(chain := Skip(env, hashing.bucket, 4 * hashing.bucketCnt), isUseGnuHash := true);
    }

    /** The cases of the hash tables. */
    method TakeHash(ghost before: seq<Dyn>, e: Dyn) returns (ok: bool)
      requires hashing == DeclaredHashing(env, before) && chainCnt == ChainCnt(env, before)
      modifies this`hashing, this`chainCnt
      ensures ok == !(IsHash(KindOf(e.tag)) && At(env, e.val) < env.base
                      && !(KindOf(e.tag) == Hash && Last(before, GnuHash).Some?))
      ensures ok ==> hashing == DeclaredHashing(env, before + [e]) && chainCnt == ChainCnt(env, before + [e])
    {
      Front(before, e);
      ok := true;
      match KindOf(e.tag)
      case Hash =>
        if !hashing.isUseGnuHash {
          ok := At(env, e.val) >= env.base;
          if ok {
            ReadSysv(At(env, e.val));
          }
        }
      case GnuHash =>
        ok := At(env, e.val) >= env.base;
        if ok {
          ReadGnu(e.val);
        }
      case _ =>
    }

    /** The whole switch. */
    method Take(ghost before: seq<Dyn>, e: Dyn) returns (ok: bool)
      requires Holds(before)
      modifies this
      ensures ok == !Refused(env, before + [e], |before|)
      ensures ok ==> Holds(before + [e])
    {
      Front(before, e);
      ok := TakeSection(before, e);
      if ok {
        ok := TakeHash(before, e);
      }
    }

    /** The loop: an error exactly if it meets an entry it refuses, else the declared fields. */
    method Parse(dyn: seq<Dyn>) returns (ok: bool)
      requires Holds([])
      modifies this
      ensures var es := dyn[..Length(dyn)];
              && (ok <==> Accepted(env, es))
              && (ok ==> Holds(es))
    {
      LengthStops(dyn);
      var i := 0;
      ghost var n := 0;
      while i < |dyn|
        invariant n <= Length(dyn) && (i == n || (i == |dyn| + 1 && n == Length(dyn)))
        invariant Holds(dyn[..n]) && Accepted(env, dyn[..n])
        decreases |dyn| + 1 - i
      {
        if dyn[i].tag == DT_NULL {
          i := |dyn|;
        } else {
          Snoc(dyn, i);
          OneMore(env, dyn[..i], dyn[i]);
          ok := Take(dyn[..i], dyn[i]);
          if !ok {
            PrefixRefused(env, dyn[..Length(dyn)], i + 1);
            assert dyn[..Length(dyn)][..i + 1] == dyn[..i + 1];
            return;
          }
          n := n + 1;
        }
        i := i + 1;
      }
      ok := true;
    }
  }

  /** The loop refuses none of the entries. */
  ghost predicate Accepted(env: Env, es: seq<Dyn>) {
    forall i :: 0 <= i < |es| ==> !Refused(env, es, i)
  }

  lemma PrefixRefused(env: Env, es: seq<Dyn>, n: nat)
    requires n <= |es|
    ensures Accepted(env, es) ==> Accepted(env, es[..n])
  {
    forall i | 0 <= i < n
      ensures Refused(env, es[..n], i) == Refused(env, es, i)
    {
      assert es[..n][..i] == es[..i];
    }
  }

  lemma OneMore(env: Env, es: seq<Dyn>, e: Dyn)
    ensures Accepted(env, es + [e]) <==> Accepted(env, es) && !Refused(env, es + [e], |es|)
  {
    PrefixRefused(env, es + [e], |es|);
    assert (es + [e])[..|es|] == es;
    forall i | 0 <= i < |es|
      ensures Refused(env, es + [e], i) == Refused(env, es, i)
    {
      assert (es + [e])[..i] == es[..i];
    }
  }

  // ---------- the order does not matter ----------

  /** Each recognised kind occurs at most once. */
  ghost predicate KindsOnce(es: seq<Dyn>) {
    forall i, j :: 0 <= i < j < |es| && KindOf(es[i].tag) == KindOf(es[j].tag) ==> KindOf(es[i].tag) == Other
  }

  ghost predicate PointersInRange(env: Env, es: seq<Dyn>) {
    forall i :: 0 <= i < |es| && IsPointer(KindOf(es[i].tag)) ==> At(env, es[i].val) >= env.base
  }

  /** Where kinds are unique, `Last` is the value of the entry of that kind, wherever it stands. */
  lemma {:induction false} LastIsOnly(es: seq<Dyn>, k: Kind)
    requires KindsOnce(es) && k != Other
    ensures match Last(es, k)
            case None => forall i :: 0 <= i < |es| ==> KindOf(es[i].tag) != k
            case Some(v) => exists i :: 0 <= i < |es| && KindOf(es[i].tag) == k && es[i].val == v
  {
    if es != [] && KindOf(es[|es| - 1].tag) != k {
      LastIsOnly(es[..|es| - 1], k);
    }
  }

  lemma SameLast(a: seq<Dyn>, b: seq<Dyn>, k: Kind)
    requires multiset(a) == multiset(b) && KindsOnce(a) && KindsOnce(b) && k != Other
    ensures Last(a, k) == Last(b, k)
  {
    LastIsOnly(a, k);
    LastIsOnly(b, k);
    if Last(a, k).Some? {
      var i :| 0 <= i < |a| && KindOf(a[i].tag) == k && a[i].val == Last(a, k).value;
      assert a[i] in multiset(b);
    }
    if Last(b, k).Some? {
      var j :| 0 <= j < |b| && KindOf(b[j].tag) == k && b[j].val == Last(b, k).value;
      assert b[j] in multiset(a);
    }
  }

  lemma CountTwo(b: seq<Dyn>, i: nat, j: nat)
    requires i < j < |b| && b[i] == b[j]
    ensures multiset(b)[b[i]] >= 2
  {
    assert b == (b[..j] + [b[j]]) + b[j + 1..];
    assert b[i] in b[..j];
  }

  lemma FindTwo(a: seq<Dyn>, x: Dyn) returns (p: nat, q: nat)
    requires multiset(a)[x] >= 2
    ensures p < q < |a| && a[p] == a[q] == x
  {
    assert x in a;
    p :| p < |a| && a[p] == x;
    assert a == (a[..p] + [x]) + a[p + 1..];
    assert x in a[..p] + a[p + 1..];
    if x in a[..p] {
      q := p;
      p :| p < q && a[p] == x;
    } else {
      var k :| 0 <= k < |a[p + 1..]| && a[p + 1..][k] == x;
      q := p + 1 + k;
    }
  }

  /** A permutation has the same kinds, each as often. */
  lemma PermutedOnce(a: seq<Dyn>, b: seq<Dyn>)
    requires multiset(a) == multiset(b) && KindsOnce(a)
    ensures KindsOnce(b)
  {
    forall i, j | 0 <= i < j < |b| && KindOf(b[i].tag) == KindOf(b[j].tag)
      ensures KindOf(b[i].tag) == Other
    {
      if b[i] == b[j] {
        CountTwo(b, i, j);
        var p, q := FindTwo(a, b[i]);
      } else {
        assert b[i] in multiset(a) && b[j] in multiset(a);
      }
    }
  }

  /**
   Any permutation of the entries before the DT_NULL, each recognised kind at most once and all
   pointers in range, is accepted and gives the same fields apart from the SysV chain count.
   */
  lemma OrderInsensitive(env: Env, a: seq<Dyn>, b: seq<Dyn>)
    requires multiset(a) == multiset(b) && KindsOnce(a) && PointersInRange(env, a)
    ensures Accepted(env, b)
    ensures DeclaredSections(env, a) == DeclaredSections(env, b)
    ensures DeclaredHashing(env, a) == DeclaredHashing(env, b)
  {
    PermutedOnce(a, b);
    forall i | 0 <= i < |b|
      ensures !Refused(env, b, i)
    {
      assert b[i] in multiset(a);
    }
    SameLast(a, b, StrTab);
    SameLast(a, b, SymTab);
    SameLast(a, b, PltRel);
    SameLast(a, b, JmpRel);
    SameLast(a, b, PltRelSz);
    SameLast(a, b, RelDyn);
    SameLast(a, b, RelDynSz);
    SameLast(a, b, Android);
    SameLast(a, b, AndroidSz);
    SameLast(a, b, Hash);
    SameLast(a, b, GnuHash);
  }

  /** Some DT_HASH stands before every DT_GNU_HASH. */
  ghost predicate HashFirst(es: seq<Dyn>) {
    exists i :: 0 <= i < |es| && KindOf(es[i].tag) == Hash && Last(es[..i], GnuHash).None?
  }

  /** The count found in the table of the DT_HASH entry. */
  function HashCount(env: Env, es: seq<Dyn>): nat {
    match Last(es, Hash)
    case None => 0
    case Some(ptr) => env.word(At(env, ptr) + 4)
  }

  lemma HashFirstSnoc(es: seq<Dyn>)
    requires es != []
    ensures var n := |es| - 1;
            HashFirst(es) <==> HashFirst(es[..n]) || (KindOf(es[n].tag) == Hash && Last(es[..n], GnuHash).None?)
  {
    var n := |es| - 1;
    forall i | 0 <= i < n
      ensures es[..n][i] == es[i] && es[..n][..i] == es[..i]
    {
    }
    if HashFirst(es[..n]) {
      var i :| 0 <= i < n && KindOf(es[..n][i].tag) == Hash && Last(es[..n][..i], GnuHash).None?;
      assert KindOf(es[i].tag) == Hash && Last(es[..i], GnuHash).None?;
    }
    if HashFirst(es) {
      var i :| 0 <= i < |es| && KindOf(es[i].tag) == Hash && Last(es[..i], GnuHash).None?;
      if i < n {
        assert KindOf(es[..n][i].tag) == Hash && Last(es[..n][..i], GnuHash).None?;
      }
    }
  }

  /** With one DT_HASH at most, the chain count is the table's exactly if that entry stands first. */
  lemma {:induction false} ChainCntIs(env: Env, es: seq<Dyn>)
    requires KindsOnce(es)
    ensures ChainCnt(env, es) == if HashFirst(es) then HashCount(env, es) else 0
    ensures HashFirst(es) ==> Last(es, Hash).Some?
  {
    if es == [] {
      assert !HashFirst(es);
    } else {
      var n := |es| - 1;
      HashFirstSnoc(es);
      ChainCntIs(env, es[..n]);
      LastIsOnly(es[..n], Hash);
    }
  }

  /**
   When the chain count of two orders of the same entries is the same: without DT_HASH, with DT_HASH
   before DT_GNU_HASH in both or in neither, or with a table that has no chain.
   */
  lemma ChainCntOrder(env: Env, a: seq<Dyn>, b: seq<Dyn>)
    requires multiset(a) == multiset(b) && KindsOnce(a)
    ensures ChainCnt(env, a) == ChainCnt(env, b) <==>
              Last(a, Hash).None? || (HashFirst(a) <==> HashFirst(b)) || HashCount(env, a) == 0
  {
    PermutedOnce(a, b);
    ChainCntIs(env, a);
    ChainCntIs(env, b);
    SameLast(a, b, Hash);
  }

  /** So every order gives the same count exactly if one of the two tables, or the chain, is missing. */
  lemma ChainCntIndependent(env: Env, a: seq<Dyn>)
    requires KindsOnce(a)
    ensures (forall b :: multiset(b) == multiset(a) ==> ChainCnt(env, b) == ChainCnt(env, a)) <==>
              Last(a, Hash).None? || Last(a, GnuHash).None? || HashCount(env, a) == 0
  {
    if Last(a, Hash).Some? && Last(a, GnuHash).Some? && HashCount(env, a) != 0 {
      var b := OtherOrder(a);
      ChainCntOrder(env, a, b);
      assert ChainCnt(env, b) != ChainCnt(env, a);
    } else {
      forall b | multiset(b) == multiset(a)
        ensures ChainCnt(env, b) == ChainCnt(env, a)
      {
        ChainCntOrder(env, a, b);
        if Last(a, Hash).Some? && Last(a, GnuHash).None? {
          PermutedOnce(a, b);
          SameLast(a, b, Hash);
          SameLast(a, b, GnuHash);
          AloneIsFirst(a);
          AloneIsFirst(b);
        }
      }
    }
  }

  /** Without DT_GNU_HASH a DT_HASH stands first. */
  lemma AloneIsFirst(es: seq<Dyn>)
    requires KindsOnce(es) && Last(es, Hash).Some? && Last(es, GnuHash).None?
    ensures HashFirst(es)
  {
    LastIsOnly(es, Hash);
    LastIsOnly(es, GnuHash);
    var i :| 0 <= i < |es| && KindOf(es[i].tag) == Hash;
    LastIsOnly(es[..i], GnuHash);
  }

  /** Where both tables are there, some order puts them the other way round: the entry of one kind goes to the front. */
  lemma OtherOrder(a: seq<Dyn>) returns (b: seq<Dyn>)
    requires KindsOnce(a) && Last(a, Hash).Some? && Last(a, GnuHash).Some?
    ensures multiset(b) == multiset(a) && (HashFirst(b) <==> !HashFirst(a))
  {
    var front := if HashFirst(a) then GnuHash else Hash;
    LastIsOnly(a, front);
    var i :| 0 <= i < |a| && KindOf(a[i].tag) == front;
    b := ToFront(a, i);
    PermutedOnce(a, b);
    if front == Hash {
      SysvFirst(b);
    } else {
      GnuFirst(b);
    }
  }

  /** An entry goes to the front. */
  lemma ToFront(a: seq<Dyn>, i: nat) returns (b: seq<Dyn>)
    requires i < |a|
    ensures multiset(b) == multiset(a) && b != [] && b[0] == a[i]
  {
    b := [a[i]] + (a[..i] + a[i + 1..]);
    assert a == (a[..i] + [a[i]]) + a[i + 1..];
  }

  lemma SysvFirst(b: seq<Dyn>)
    requires b != [] && KindOf(b[0].tag) == Hash
    ensures HashFirst(b)
  {
    assert b[..0] == [];
    assert KindOf(b[0].tag) == Hash && Last(b[..0], GnuHash).None?;
  }

  /** With DT_GNU_HASH at the front no DT_HASH is before it. */
  lemma GnuFirst(b: seq<Dyn>)
    requires b != [] && KindOf(b[0].tag) == GnuHash && KindsOnce(b)
    ensures !HashFirst(b)
  {
    forall i | 0 <= i < |b| && KindOf(b[i].tag) == Hash
      ensures Last(b[..i], GnuHash).Some?
    {
      LastIsOnly(b[..i], GnuHash);
      assert b[..i][0] == b[0];
    }
  }

  /** The two orders of two entries: the count stays 0 when DT_GNU_HASH comes first. */
  lemma ChainCntWitness(env: Env, gnu: nat, sysv: nat)
    ensures ChainCnt(env, [Dyn(DT_HASH, sysv), Dyn(DT_GNU_HASH, gnu)]) == env.word(At(env, sysv) + 4)
    ensures ChainCnt(env, [Dyn(DT_GNU_HASH, gnu), Dyn(DT_HASH, sysv)]) == 0
  {
    var a, b := Dyn(DT_HASH, sysv), Dyn(DT_GNU_HASH, gnu);
    assert [a, b][..1] == [a] && [b, a][..1] == [b] && [a][..0] == [] && [b][..0] == [];
    assert Last([], GnuHash) == None && Last([a], GnuHash) == None && Last([b], GnuHash) == Some(gnu);
    assert ChainCnt(env, [b]) == 0 && ChainCnt(env, [a]) == env.word(At(env, sysv) + 4);
  }

  /** DT_GNU_HASH wins over DT_HASH wherever they stand. */
  lemma GnuHashWins(env: Env, es: seq<Dyn>, i: nat, ptr: nat)
    requires i < |es| && es[i] == Dyn(DT_GNU_HASH, ptr) && KindsOnce(es)
    ensures DeclaredHashing(env, es) == GnuHashing(env, ptr)
  {
    LastIsOnly(es, GnuHash);
  }

  // ---------- which field is which ----------

  /** Entry `i` is the last one with one of two tags. */
  ghost predicate LastWith(es: seq<Dyn>, i: nat, tag: int, other: int) {
    && i < |es| && (es[i].tag == tag || es[i].tag == other)
    && forall j :: i < j < |es| ==> es[j].tag != tag && es[j].tag != other
  }

  lemma {:induction false} LastIs(es: seq<Dyn>, i: nat, k: Kind)
    requires i < |es| && KindOf(es[i].tag) == k && forall j :: i < j < |es| ==> KindOf(es[j].tag) != k
    ensures Last(es, k) == Some(es[i].val)
  {
    if i == |es| - 1 {
    } else {
      LastIs(es[..|es| - 1], i, k);
    }
  }

  lemma LastOfTags(es: seq<Dyn>, i: nat, tag: int, other: int, k: Kind)
    requires LastWith(es, i, tag, other) && k != Other
    requires forall t: int :: KindOf(t) == k <==> t == tag || t == other
    ensures Last(es, k) == Some(es[i].val)
  {
    LastIs(es, i, k);
  }

  lemma AtMeans(env: Env, a: nat)
    ensures At(env, a) == (env.bias + a) % Pow2(env.w)
    ensures forall b: nat, n: nat :: Skip(env, b, n) == (b + n) % Pow2(env.w)
  {
    RemainderIsMod(env.bias + a, Pow2(env.w));
    forall b: nat, n: nat
      ensures Skip(env, b, n) == (b + n) % Pow2(env.w)
    {
      RemainderIsMod(b + n, Pow2(env.w));
    }
  }

  /** The addresses: of the string, symbol, PLT, dynamic and packed relocation tables, by their tag numbers. */
  lemma AddressesMean(env: Env, es: seq<Dyn>, i: nat)
    requires i < |es|
    ensures var f, a := DeclaredSections(env, es), (env.bias + es[i].val) % Pow2(env.w);
            && (LastWith(es, i, 5, 5) ==> f.strtab == a)
            && (LastWith(es, i, 6, 6) ==> f.symtab == a)
            && (LastWith(es, i, 23, 23) ==> f.relplt == a)
            && (LastWith(es, i, 17, 7) ==> f.reldyn == a)
            && (LastWith(es, i, 0x6000_000f, 0x6000_0011) ==> f.relandroid == a)
  {
    AtMeans(env, es[i].val);
    if LastWith(es, i, 5, 5) {
      LastOfTags(es, i, 5, 5, StrTab);
    }
    if LastWith(es, i, 6, 6) {
      LastOfTags(es, i, 6, 6, SymTab);
    }
    if LastWith(es, i, 23, 23) {
      LastOfTags(es, i, 23, 23, JmpRel);
    }
    if LastWith(es, i, 17, 7) {
      LastOfTags(es, i, 17, 7, RelDyn);
    }
    if LastWith(es, i, 0x6000_000f, 0x6000_0011) {
      LastOfTags(es, i, 0x6000_000f, 0x6000_0011, Android);
    }
  }

  /** The sizes of the last three, in 32 bits, and whether they have addends. */
  lemma SizesMean(env: Env, es: seq<Dyn>, i: nat)
    requires i < |es|
    ensures var f, n := DeclaredSections(env, es), es[i].val % 0x1_0000_0000;
            && (LastWith(es, i, 2, 2) ==> f.relpltSz == n)
            && (LastWith(es, i, 18, 8) ==> f.reldynSz == n)
            && (LastWith(es, i, 0x6000_0010, 0x6000_0012) ==> f.relandroidSz == n)
            && (LastWith(es, i, 20, 20) ==> (f.isUseRela <==> es[i].val == 7))
  {
    if LastWith(es, i, 2, 2) {
      LastOfTags(es, i, 2, 2, PltRelSz);
    }
    if LastWith(es, i, 18, 8) {
      LastOfTags(es, i, 18, 8, RelDynSz);
    }
    if LastWith(es, i, 0x6000_0010, 0x6000_0012) {
      LastOfTags(es, i, 0x6000_0010, 0x6000_0012, AndroidSz);
    }
    if LastWith(es, i, 20, 20) {
      LastOfTags(es, i, 20, 20, PltRel);
    }
  }

  lemma {:induction false} NoLast(es: seq<Dyn>, k: Kind)
    requires forall j :: 0 <= j < |es| ==> KindOf(es[j].tag) != k
    ensures Last(es, k) == None
  {
    if es == [] {
    } else {
      NoLast(es[..|es| - 1], k);
    }
  }

  /** What no entry declares is null. */
  lemma AbsentMeans(env: Env, es: seq<Dyn>, tag: int, other: int)
    requires forall j :: 0 <= j < |es| ==> es[j].tag != tag && es[j].tag != other
    ensures var f := DeclaredSections(env, es);
            && (tag == other == 5 ==> f.strtab == 0) && (tag == other == 6 ==> f.symtab == 0)
            && (tag == other == 23 ==> f.relplt == 0) && (tag == 17 && other == 7 ==> f.reldyn == 0)
            && (tag == 0x6000_000f && other == 0x6000_0011 ==> f.relandroid == 0)
  {
    if tag == other == 5 {
      NoLast(es, StrTab);
    }
    if tag == other == 6 {
      NoLast(es, SymTab);
    }
    if tag == other == 23 {
      NoLast(es, JmpRel);
    }
    if tag == 17 && other == 7 {
      NoLast(es, RelDyn);
    }
    if tag == 0x6000_000f && other == 0x6000_0011 {
      NoLast(es, Android);
    }
  }

  /** The GNU table: four words, the bloom words of the machine's width, the buckets and the chain. */
  lemma GnuFieldsMean(env: Env, es: seq<Dyn>, i: nat)
    requires LastWith(es, i, 0x6fff_fef5, 0x6fff_fef5)
    ensures var h, raw, m := DeclaredHashing(env, es), (env.bias + es[i].val) % Pow2(env.w), Pow2(env.w);
            && h.isUseGnuHash
            && h.bucketCnt == env.word(raw) && h.symoffset == env.word(raw + 4)
            && h.bloomSz == env.word(raw + 8) && h.bloomShift == env.word(raw + 12)
            && h.bloom == (raw + 16) % m && h.bucket == (h.bloom + env.w / 8 * h.bloomSz) % m
            && h.chain == (h.bucket + 4 * h.bucketCnt) % m
  {
    LastOfTags(es, i, 0x6fff_fef5, 0x6fff_fef5, GnuHash);
    AtMeans(env, es[i].val);
  }

  /** The System V table: two words, the buckets and the chain. */
  lemma SysvFieldsMean(env: Env, es: seq<Dyn>, i: nat)
    requires LastWith(es, i, 4, 4) && forall j :: 0 <= j < |es| ==> es[j].tag != 0x6fff_fef5
    ensures var h, raw, m := DeclaredHashing(env, es), (env.bias + es[i].val) % Pow2(env.w), Pow2(env.w);
            && !h.isUseGnuHash && h.bucketCnt == env.word(raw)
            && h.bucket == (raw + 8) % m && h.chain == (h.bucket + 4 * h.bucketCnt) % m
  {
    LastOfTags(es, i, 4, 4, Hash);
    NoLast(es, GnuHash);
    AtMeans(env, es[i].val);
  }

  /** Its second word is the number of chain entries. */
  lemma SysvCountMeans(env: Env, es: seq<Dyn>, i: nat)
    requires LastWith(es, i, 4, 4) && (forall j :: 0 <= j < |es| ==> es[j].tag != 0x6fff_fef5) && KindsOnce(es)
    ensures ChainCnt(env, es) == env.word((env.bias + es[i].val) % Pow2(env.w) + 4)
  {
    LastOfTags(es, i, 4, 4, Hash);
    NoLast(es, GnuHash);
    AtMeans(env, es[i].val);
    ChainCntIs(env, es);
    AloneIsFirst(es);
  }

  /** Without either there is none. */
  lemma NoHashMeans(env: Env, es: seq<Dyn>)
    requires forall j :: 0 <= j < |es| ==> es[j].tag != 4 && es[j].tag != 0x6fff_fef5
    ensures DeclaredHashing(env, es).bucket == 0 && DeclaredHashing(env, es).chain == 0
  {
    NoLast(es, Hash);
    NoLast(es, GnuHash);
  }

  /** The entries that are refused: addresses below the base, but no DT_HASH behind a DT_GNU_HASH. */
  lemma RefusedMeans(env: Env, es: seq<Dyn>, i: nat)
    requires i < |es|
    ensures Refused(env, es, i) <==>
              && es[i].tag in {4, 5, 6, 7, 17, 23, 0x6000_000f, 0x6000_0011, 0x6fff_fef5}
              && (env.bias + es[i].val) % Pow2(env.w) < env.base
              && (es[i].tag == 4 ==> forall j :: 0 <= j < i ==> es[j].tag != 0x6fff_fef5)
  {
    AtMeans(env, es[i].val);
    HasGnu(es[..i]);
  }

  lemma {:induction false} HasGnu(es: seq<Dyn>)
    ensures Last(es, GnuHash).Some? <==> exists j :: 0 <= j < |es| && es[j].tag == 0x6fff_fef5
  {
    if es == [] {
    } else {
      HasGnu(es[..|es| - 1]);
      assert forall j :: 0 <= j < |es| - 1 ==> es[..|es| - 1][j] == es[j];
    }
  }
}
