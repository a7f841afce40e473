/** Symbol lookup by name in `xh_elf.c`: the two hash tables against a scan of the symbol table. */
module SymbolLookup {
  import opened Bits
  import opened CString
  import opened ElfHash

  /** XH_ERRNO_NOTFND, or a symbol index. */
  datatype Lookup = NotFound | Found(index: nat)

  /** The first index from `lo` up to `hi` that has the name. */
  function Scan(names: seq<CStr>, lo: nat, hi: nat, symbol: CStr): Lookup
    requires lo <= hi <= |names|
    decreases hi - lo
  {
    if lo == hi then NotFound
    else if names[lo] == symbol then Found(lo)
    else Scan(names, lo + 1, hi, symbol)
  }

  /** What a scan finds, without the recursion. */
  lemma {:induction false} ScanIsFirst(names: seq<CStr>, lo: nat, hi: nat, symbol: CStr)
    requires lo <= hi <= |names|
    ensures match Scan(names, lo, hi, symbol)
            case NotFound => forall j :: lo <= j < hi ==> names[j] != symbol
            case Found(i) => lo <= i < hi && names[i] == symbol && forall j :: lo <= j < i ==> names[j] != symbol
    decreases hi - lo
  {
    if lo < hi && names[lo] != symbol {
      ScanIsFirst(names, lo + 1, hi, symbol);
    }
  }

  // ---------- the System V table ----------

  datatype SysvTable = SysvTable(names: seq<CStr>, bucket: seq<nat>, chain: seq<nat>)

  /** `list` is what one gets by following the chain from `i`; index 0 ends it. */
  predicate Follows(t: SysvTable, i: nat, list: seq<nat>)
    decreases |list|
  {
    if list == [] then i == 0
    else i == list[0] && 0 < i < |t.names| && i < |t.chain| && Follows(t, t.chain[i], list[1..])
  }

  /** `lists` are the chains, a bucket each, and each symbol but the first is in the chain of its hash. */
  ghost predicate SysvWellFormed(t: SysvTable, lists: seq<seq<nat>>) {
    && 0 < |t.bucket| == |lists|
    && (forall b :: 0 <= b < |lists| ==> Follows(t, t.bucket[b], lists[b]))
    && (forall i :: 0 < i < |t.names| ==> i in lists[GabiHash(t.names[i]) as nat % |t.bucket|])
  }

  lemma {:induction false} FollowsInRange(t: SysvTable, i: nat, list: seq<nat>)
    requires Follows(t, i, list)
    ensures forall k :: 0 <= k < |list| ==> 0 < list[k] < |t.names|
    decreases |list|
  {
    if list == [] {
    } else {
      FollowsInRange(t, t.chain[i], list[1..]);
    }
  }

  /** The first symbol of a chain that has the name. */
  function ChainScan(names: seq<CStr>, list: seq<nat>, symbol: CStr): Lookup
    decreases |list|
  {
    if list == [] then NotFound
    else if list[0] < |names| && names[list[0]] == symbol then Found(list[0])
    else ChainScan(names, list[1..], symbol)
  }

  /** The reference: the first in the chain of the name's hash. */
  function SysvScan(t: SysvTable, lists: seq<seq<nat>>, symbol: CStr): Lookup
    requires 0 < |t.bucket| == |lists|
  {
    ChainScan(t.names, lists[GabiHash(symbol) as nat % |t.bucket|], symbol)
  }

  lemma {:induction false} ChainScanFinds(names: seq<CStr>, list: seq<nat>, symbol: CStr)
    requires forall k :: 0 <= k < |list| ==> 0 < list[k] < |names|
    ensures match ChainScan(names, list, symbol)
            case NotFound => forall k :: 0 <= k < |list| ==> names[list[k]] != symbol
            case Found(i) => 0 < i < |names| && names[i] == symbol && i in list
    decreases |list|
  {
    if list == [] {
    } else {
      ChainScanFinds(names, list[1..], symbol);
    }
  }

  /** In a well-formed table the chain leaves out no symbol of that name but the first of the table. */
  lemma SysvScanFinds(t: SysvTable, lists: seq<seq<nat>>, symbol: CStr)
    requires SysvWellFormed(t, lists)
    ensures match SysvScan(t, lists, symbol)
            case NotFound => forall i :: 0 < i < |t.names| ==> t.names[i] != symbol
            case Found(i) => 0 < i < |t.names| && t.names[i] == symbol
  {
    var b := GabiHash(symbol) as nat % |t.bucket|;
    FollowsInRange(t, t.bucket[b], lists[b]);
    ChainScanFinds(t.names, lists[b], symbol);
    forall i | 0 < i < |t.names| && t.names[i] == symbol
      ensures i in lists[b]
    {
    }
  }

  /** xh_elf_hash_lookup: it ends, and finds the first symbol of the name's chain that has the name. */
  method SysvLookup(t: SysvTable, symbol: CStr, ghost lists: seq<seq<nat>>) returns (r: Lookup)
    requires SysvWellFormed(t, lists)
    ensures r == SysvScan(t, lists, symbol)
    ensures r.Found? <==> exists i :: 0 < i < |t.names| && t.names[i] == symbol
    ensures r.Found? ==> 0 < r.index < |t.names| && t.names[r.index] == symbol
  {
    SysvScanFinds(t, lists, symbol);
    var hash := Hash(symbol);
    var i := t.bucket[hash as nat % |t.bucket|];
    ghost var list := lists[hash as nat % |t.bucket|];
    FollowsInRange(t, i, list);
    while i != 0
      invariant Follows(t, i, list) && ChainScan(t.names, list, symbol) == SysvScan(t, lists, symbol)
      decreases |list|
    {
      StrcmpOrder(symbol, t.names[i]);
      if Strcmp(symbol, t.names[i]) == 0 {
        return Found(i);
      }
      i := t.chain[i];
      list := list[1..];
    }
    r := NotFound;
  }

  // ---------- the GNU table ----------

  /** `bits` is the width of a bloom word; the symbols from `symoffset` up are the hashed ones. */
  datatype GnuTable = GnuTable(names: seq<CStr>, bits: nat, symoffset: nat, bloom: seq<nat>, bloomShift: nat,
                               bucket: seq<nat>, chain: seq<nat>)

  /** The bucket of a name among `n`: the remainder of its hash. */
  function BucketFor(name: CStr, n: nat): nat
    requires n > 0
  {
    Remainder(GnuHash(name), n)
  }

  function BucketOf(t: GnuTable, i: nat): nat
    requires i < |t.names| && 0 < |t.bucket|
  {
    BucketFor(t.names[i], |t.bucket|)
  }

  /** Both bits of a hash are set in its bloom word. */
  ghost predicate InBloom(t: GnuTable, hash: nat)
    requires 0 < t.bits && 0 < |t.bloom|
  {
    var word := t.bloom[(hash / t.bits) % |t.bloom|];
    Bit(word, hash % t.bits) && Bit(word, (hash / Pow2(t.bloomShift)) % t.bits)
  }

  /** A bucket holds the first of its symbols, or 0. */
  ghost predicate BucketFirst(t: GnuTable, b: nat)
    requires b < |t.bucket| && t.symoffset <= |t.names|
  {
    var first := t.bucket[b];
    if first >= t.symoffset && first < |t.names| && BucketOf(t, first) == b
    then forall i :: t.symoffset <= i < first ==> BucketOf(t, i) != b
    else first == 0 && BucketEmpty(t, b)
  }

  ghost predicate BucketEmpty(t: GnuTable, b: nat)
    requires b < |t.bucket| && t.symoffset <= |t.names|
  {
    forall i :: t.symoffset <= i < |t.names| ==> BucketOf(t, i) != b
  }

  /** A chain entry is the hash with the low bit telling whether the bucket ends here. */
  ghost predicate ChainEntry(t: GnuTable, i: nat)
    requires t.symoffset <= i < |t.names| && |t.chain| == |t.names| - t.symoffset && 0 < |t.bucket|
  {
    var entry := t.chain[i - t.symoffset];
    && entry / 2 == GnuHash(t.names[i]) / 2
    && (entry % 2 == 1 <==> i + 1 == |t.names| || BucketOf(t, i + 1) != BucketOf(t, i))
  }

  /** The hashed symbols are sorted by bucket, and the buckets and chain entries describe that. */
  ghost predicate ChainsWellFormed(t: GnuTable) {
    && t.names != [] && t.symoffset <= |t.names| < TWO32 && |t.chain| == |t.names| - t.symoffset && 0 < |t.bucket|
    && (forall i, j :: t.symoffset <= i < j < |t.names| ==> BucketOf(t, i) <= BucketOf(t, j))
    && (forall b :: 0 <= b < |t.bucket| ==> BucketFirst(t, b))
    && (forall i :: t.symoffset <= i < |t.names| ==> ChainEntry(t, i))
  }

  ghost predicate BloomWellFormed(t: GnuTable) {
    && 0 < t.bits && 0 < |t.bloom| && t.bloomShift < 32
    && (forall i :: t.symoffset <= i < |t.names| ==> InBloom(t, GnuHash(t.names[i])))
  }

  ghost predicate GnuWellFormed(t: GnuTable) {
    ChainsWellFormed(t) && BloomWellFormed(t)
  }

  /** The test of the masked word is the test of the two bits. */
  lemma BloomTest(word: nat, a: nat, b: nat)
    ensures var mask := BitOr(Pow2(a), Pow2(b));
            BitAnd(word, mask) == mask <==> Bit(word, a) && Bit(word, b)
  {
    var mask := BitOr(Pow2(a), Pow2(b));
    forall i: nat
      ensures Bit(mask, i) <==> i == a || i == b
      ensures Bit(BitAnd(word, mask), i) <==> Bit(word, i) && (i == a || i == b)
    {
      OrBit(Pow2(a), Pow2(b), i);
      AndBit(word, mask, i);
      Pow2Bit(a, i);
      Pow2Bit(b, i);
    }
    if Bit(word, a) && Bit(word, b) {
      SameBits(BitAnd(word, mask), mask);
    } else {
      assert Bit(mask, a) && Bit(mask, b);
    }
  }

  lemma LowBit(a: nat, b: nat)
    ensures BitOr(a, 1) == BitOr(b, 1) <==> a / 2 == b / 2
  {
    OrZero(a / 2);
    OrZero(b / 2);
  }

  /** Index `i` is one where the chain of the symbol's bucket can be, and nothing before it matches. */
  ghost predicate OnChain(t: GnuTable, symbol: CStr, i: nat)
    requires ChainsWellFormed(t)
  {
    var b := BucketFor(symbol, |t.bucket|);
    && t.symoffset <= i < |t.names|
    && (BucketEmpty(t, b) || BucketOf(t, i) == b)
    && (forall j :: t.symoffset <= j < i ==> t.names[j] != symbol)
  }

  /** The bloom filter has no false negatives. */
  lemma BloomKnows(t: GnuTable, symbol: CStr)
    requires GnuWellFormed(t) && !InBloom(t, GnuHash(symbol))
    ensures Scan(t.names, t.symoffset, |t.names|, symbol) == NotFound
  {
    ScanIsFirst(t.names, t.symoffset, |t.names|, symbol);
  }

  /** A symbol of another bucket has another name. */
  lemma OtherBuckets(t: GnuTable, symbol: CStr, lo: nat, hi: nat)
    requires lo <= hi <= |t.names| && 0 < |t.bucket|
    requires forall i :: lo <= i < hi ==> BucketOf(t, i) != BucketFor(symbol, |t.bucket|)
    ensures forall i :: lo <= i < hi ==> t.names[i] != symbol
  {
    forall i | lo <= i < hi
      ensures t.names[i] != symbol
    {
      assert BucketOf(t, i) != BucketFor(symbol, |t.bucket|);
    }
  }

  /** The chain starts at the bucket's index, unless no defined symbol is in the bucket. */
  lemma ChainStart(t: GnuTable, symbol: CStr)
    requires ChainsWellFormed(t)
    ensures var first := t.bucket[BucketFor(symbol, |t.bucket|)];
            if first >= t.symoffset then OnChain(t, symbol, first)
            else Scan(t.names, t.symoffset, |t.names|, symbol) == NotFound
  {
    ScanIsFirst(t.names, t.symoffset, |t.names|, symbol);
    var b := BucketFor(symbol, |t.bucket|);
    assert BucketFirst(t, b);
    if BucketEmpty(t, b) {
      OtherBuckets(t, symbol, t.symoffset, |t.names|);
    } else {
      OtherBuckets(t, symbol, t.symoffset, t.bucket[b]);
    }
  }

  /** One turn of the chain loop: comparing hashes loses no match, and the low bit tells where to go on. */
  lemma ChainTurn(t: GnuTable, symbol: CStr, i: nat)
    requires ChainsWellFormed(t) && OnChain(t, symbol, i)
    ensures var symhash, all := t.chain[i - t.symoffset], Scan(t.names, t.symoffset, |t.names|, symbol);
            if t.names[i] == symbol then all == Found(i) && symhash / 2 == GnuHash(symbol) / 2
            else if symhash % 2 == 1 then all == NotFound
            else OnChain(t, symbol, i + 1)
  {
    ScanIsFirst(t.names, t.symoffset, |t.names|, symbol);
    assert ChainEntry(t, i);
    if t.chain[i - t.symoffset] % 2 == 1 {
      BucketEnds(t, BucketFor(symbol, |t.bucket|), i);
      OtherBuckets(t, symbol, i + 1, |t.names|);
    }
  }

  /** Behind the end of a bucket there are no more of its symbols. */
  lemma BucketEnds(t: GnuTable, b: nat, i: nat)
    requires ChainsWellFormed(t) && b < |t.bucket| && t.symoffset <= i < |t.names|
    requires BucketEmpty(t, b) || BucketOf(t, i) == b
    requires i + 1 == |t.names| || BucketOf(t, i + 1) != BucketOf(t, i)
    ensures forall j :: i < j < |t.names| ==> BucketOf(t, j) != b
  {
    if BucketOf(t, i) == b {
      forall j | i < j < |t.names|
        ensures BucketOf(t, j) != b
      {
        assert BucketOf(t, i) <= BucketOf(t, i + 1);
        assert j > i + 1 ==> BucketOf(t, i + 1) <= BucketOf(t, j);
      }
    }
  }

  /** The test on the bloom filter of xh_elf_gnu_hash_lookup_def. */
  method BloomMiss(t: GnuTable, hash: nat) returns (miss: bool)
    requires 0 < t.bits && 0 < |t.bloom|
    ensures miss <==> !InBloom(t, hash)
  {
    var word := t.bloom[(hash / t.bits) % |t.bloom|];
    var a, b := hash % t.bits, (hash / Pow2(t.bloomShift)) % t.bits;
    var mask := BitOr(Pow2(a), Pow2(b));
    BloomTest(word, a, b);
    miss := BitAnd(word, mask) != mask;
  }

  /** xh_elf_gnu_hash_lookup_def: the scan of the hashed symbols, without scanning them. */
  method GnuLookupDef(t: GnuTable, symbol: CStr) returns (r: Lookup)
    requires GnuWellFormed(t)
    ensures r == Scan(t.names, t.symoffset, |t.names|, symbol)
  {
    var hash := HashGnu(symbol);
    var miss := BloomMiss(t, hash);
    if miss {
      BloomKnows(t, symbol);
      return NotFound;
    }
    ChainStart(t, symbol);
    RemainderIsMod(hash, |t.bucket|);
    var i := t.bucket[hash % |t.bucket|];
    if i < t.symoffset {
      return NotFound;
    }
    while true
      invariant OnChain(t, symbol, i)
      decreases |t.names| - i
    {
      var symhash := t.chain[i - t.symoffset];
      ChainTurn(t, symbol, i);
      LowBit(hash, symhash);
      StrcmpOrder(symbol, t.names[i]);
      if BitOr(hash, 1) == BitOr(symhash, 1) && Strcmp(symbol, t.names[i]) == 0 {
        return Found(i);
      }
      if symhash % 2 == 1 {
        return NotFound;
      }
      i := i + 1;
    }
  }

  /** xh_elf_gnu_hash_lookup_undef */
  method GnuLookupUndef(t: GnuTable, symbol: CStr) returns (r: Lookup)
    requires t.symoffset <= |t.names|
    ensures r == Scan(t.names, 0, t.symoffset, symbol)
  {
    var i := 0;
    while i < t.symoffset
      invariant i <= t.symoffset
      invariant Scan(t.names, 0, t.symoffset, symbol) == Scan(t.names, i, t.symoffset, symbol)
    {
      StrcmpOrder(t.names[i], symbol);
      if Strcmp(t.names[i], symbol) == 0 {
        return Found(i);
      }
      i := i + 1;
    }
    r := NotFound;
  }

  /** The reference: the hashed symbols in order, then the others. */
  function GnuScan(t: GnuTable, symbol: CStr): Lookup
    requires t.symoffset <= |t.names|
  {
    var defined := Scan(t.names, t.symoffset, |t.names|, symbol);
    if defined.Found? then defined else Scan(t.names, 0, t.symoffset, symbol)
  }

  /** xh_elf_gnu_hash_lookup */
  method GnuLookup(t: GnuTable, symbol: CStr) returns (r: Lookup)
    requires GnuWellFormed(t)
    ensures r == GnuScan(t, symbol)
  {
    r := GnuLookupDef(t, symbol);
    if r.NotFound? {
      r := GnuLookupUndef(t, symbol);
    }
  }

  // ---------- such tables exist ----------

  /** The first symbol of a bucket from `i` on, or 0. */
  function FirstIn(names: seq<CStr>, i: nat, n: nat, b: nat): nat
    requires n > 0 && i <= |names|
    decreases |names| - i
  {
    if i == |names| then 0 else if BucketFor(names[i], n) == b then i else FirstIn(names, i + 1, n, b)
  }

  /** The hash of a symbol, its low bit set at the end of a bucket. */
  function EntryFor(names: seq<CStr>, i: nat, n: nat): nat
    requires n > 0 && i < |names|
  {
    var last := i + 1 == |names| || BucketFor(names[i + 1], n) != BucketFor(names[i], n);
    GnuHash(names[i]) / 2 * 2 + if last then 1 else 0
  }

  /** A table over symbols sorted by bucket, with a bloom filter of one full word. */
  function Built(names: seq<CStr>, symoffset: nat, n: nat, bits: nat): GnuTable
    requires n > 0 && symoffset <= |names|
  {
    GnuTable(names, bits, symoffset, [Pow2(bits) - 1], 0, seq(n, b requires 0 <= b => FirstIn(names, symoffset, n, b)),
             seq<nat>(|names| - symoffset, k requires 0 <= k < |names| - symoffset =>
               EntryFor(names, symoffset + k, n)))
  }

  lemma {:induction false} FirstInIsFirst(names: seq<CStr>, i: nat, n: nat, b: nat)
    requires n > 0 && i <= |names|
    ensures var f := FirstIn(names, i, n, b);
            || (i <= f < |names| && BucketFor(names[f], n) == b
                && forall j :: i <= j < f ==> BucketFor(names[j], n) != b)
            || (f == 0 && forall j :: i <= j < |names| ==> BucketFor(names[j], n) != b)
    decreases |names| - i
  {
    if i < |names| && BucketFor(names[i], n) != b {
      FirstInIsFirst(names, i + 1, n, b);
    }
  }

  lemma {:induction false} OnesBit(bits: nat, i: nat)
    requires i < bits
    ensures Bit(Pow2(bits) - 1, i)
  {
    if i == 0 {
    } else {
      assert (Pow2(bits) - 1) / 2 == Pow2(bits - 1) - 1;
      OnesBit(bits - 1, i - 1);
    }
  }

  /** Every list of symbols whose hashed part is sorted by bucket has a well-formed table. */
  lemma BuiltWellFormed(names: seq<CStr>, symoffset: nat, n: nat, bits: nat)
    requires n > 0 && bits > 0 && names != [] && symoffset <= |names| < TWO32
    requires forall i, j :: symoffset <= i < j < |names| ==> BucketFor(names[i], n) <= BucketFor(names[j], n)
    ensures GnuWellFormed(Built(names, symoffset, n, bits))
  {
    var t := Built(names, symoffset, n, bits);
    forall i | 0 <= i < |names|
      ensures BucketOf(t, i) == BucketFor(names[i], n)
    {
    }
    forall b | 0 <= b < n
      ensures BucketFirst(t, b)
    {
      FirstInIsFirst(names, symoffset, n, b);
      assert t.bucket[b] == FirstIn(names, symoffset, n, b);
    }
    forall i | symoffset <= i < |names|
      ensures ChainEntry(t, i)
    {
      assert t.chain[i - symoffset] == EntryFor(names, i, n);
    }
    forall i | symoffset <= i < |names|
      ensures InBloom(t, GnuHash(names[i]))
    {
      FullBloom(t, bits, GnuHash(names[i]));
    }
  }

  lemma FullBloom(t: GnuTable, bits: nat, hash: nat)
    requires bits > 0 && t.bits == bits && t.bloom == [Pow2(bits) - 1]
    ensures InBloom(t, hash)
  {
    OnesBit(bits, hash % bits);
    OnesBit(bits, (hash / Pow2(t.bloomShift)) % bits);
    DivModUnique(hash / bits, 1, hash / bits, 0);
  }

  // ---------- either table ----------

  datatype Table = Sysv(sysv: SysvTable) | Gnu(gnu: GnuTable)

  ghost predicate WellFormed(t: Table, lists: seq<seq<nat>>) {
    match t
    case Sysv(s) => SysvWellFormed(s, lists)
    case Gnu(g) => GnuWellFormed(g)
  }

  /** The parts of a table fit together so far that its reference has an answer. */
  ghost predicate Answerable(t: Table, lists: seq<seq<nat>>) {
    match t
    case Sysv(s) => 0 < |s.bucket| == |lists|
    case Gnu(g) => g.symoffset <= |g.names|
  }

  /** The answer the reference of the table in use gives. */
  ghost function Answer(t: Table, lists: seq<seq<nat>>, symbol: CStr): Lookup {
    if !Answerable(t, lists) then NotFound
    else
      match t
      case Sysv(s) => SysvScan(s, lists, symbol)
      case Gnu(g) => GnuScan(g, symbol)
  }

  ghost predicate Answers(t: Table, lists: seq<seq<nat>>, symbol: CStr, r: Lookup) {
    Answerable(t, lists) && r == Answer(t, lists, symbol)
  }

  /** xh_elf_find_symidx_by_name */
  method FindSymidx(t: Table, symbol: CStr, ghost lists: seq<seq<nat>>) returns (r: Lookup)
    requires WellFormed(t, lists)
    ensures Answers(t, lists, symbol, r)
  {
    match t
    case Sysv(s) => r := SysvLookup(s, symbol, lists);
    case Gnu(g) => r := GnuLookup(g, symbol);
  }

  /** Any scan of the whole symbol list finds a name exactly if it is there. */
  lemma GnuScanFinds(g: GnuTable, symbol: CStr)
    requires g.symoffset <= |g.names|
    ensures match GnuScan(g, symbol)
            case NotFound => symbol !in g.names
            case Found(i) => i < |g.names| && g.names[i] == symbol
  {
    ScanIsFirst(g.names, g.symoffset, |g.names|, symbol);
    ScanIsFirst(g.names, 0, g.symoffset, symbol);
  }

  /**
   Whether the two tables of one symbol list know a name: they agree unless it is only that of the
   null symbol, which the System V table leaves out and the GNU lookup finds at index 0.
   */
  lemma TablesAgree(s: SysvTable, lists: seq<seq<nat>>, g: GnuTable, symbol: CStr)
    requires s.names == g.names != [] && SysvWellFormed(s, lists) && g.symoffset <= |g.names|
    ensures (SysvScan(s, lists, symbol).Found? == GnuScan(g, symbol).Found?) <==>
              symbol != s.names[0] || symbol in s.names[1..]
  {
    SysvScanFinds(s, lists, symbol);
    GnuScanFinds(g, symbol);
    assert s.names == [s.names[0]] + s.names[1..];
    if symbol in s.names[1..] {
      var k :| 0 <= k < |s.names[1..]| && s.names[1..][k] == symbol;
      assert s.names[k + 1] == symbol;
    }
  }

  /** At most one symbol but the null symbol has the name. */
  ghost predicate Once(names: seq<CStr>, symbol: CStr) {
    forall i, j :: 0 < i < j < |names| && names[i] == symbol ==> names[j] != symbol
  }

  /** A name that does not repeat is found at the same index unless only the null symbol's place has it. */
  lemma IndicesAgree(s: SysvTable, lists: seq<seq<nat>>, g: GnuTable, symbol: CStr)
    requires s.names == g.names != [] && SysvWellFormed(s, lists) && g.symoffset <= |g.names|
    requires Once(g.names, symbol)
    ensures SysvScan(s, lists, symbol) == GnuScan(g, symbol) <==> Preferred(g, symbol)
  {
    SysvScanFinds(s, lists, symbol);
    ScanIsFirst(g.names, g.symoffset, |g.names|, symbol);
    ScanIsFirst(g.names, 0, g.symoffset, symbol);
    if i :| 0 <= i < |s.names[g.symoffset..]| && s.names[g.symoffset..][i] == symbol {
      assert s.names[g.symoffset + i] == symbol;
    }
    var y := GnuScan(g, symbol);
    if y.Found? && y.index >= g.symoffset {
      assert s.names[g.symoffset..][y.index - g.symoffset] == symbol;
    }
  }

  /** The name is not the null symbol's, or a hashed symbol has it, which the GNU lookup prefers. */
  ghost predicate Preferred(g: GnuTable, symbol: CStr)
    requires g.names != [] && g.symoffset <= |g.names|
  {
    symbol != g.names[0] || (g.symoffset >= 1 && symbol in g.names[g.symoffset..])
  }

  /** Every System V table of the same symbols gives the index the GNU table gives. */
  ghost predicate AlwaysAgree(g: GnuTable, symbol: CStr)
    requires g.symoffset <= |g.names|
  {
    forall s: SysvTable, lists: seq<seq<nat>> ::
      s.names == g.names && SysvWellFormed(s, lists) ==> SysvScan(s, lists, symbol) == GnuScan(g, symbol)
  }

  /** The two tables of a symbol list give one index for a name exactly when it does not repeat and is preferred. */
  lemma IndicesAgreeExactly(g: GnuTable, symbol: CStr)
    requires g.names != [] && g.symoffset <= |g.names|
    ensures AlwaysAgree(g, symbol) <==> Once(g.names, symbol) && Preferred(g, symbol)
  {
    if Once(g.names, symbol) {
      UpWellFormed(g.names);
      OneAgreesAllAgree(Up(g.names), [Upwards(1, |g.names|)], g, symbol);
    } else {
      RepeatedDisagree(g, symbol);
    }
  }

  /** Of a name that repeats, one of two tables gives another index. */
  lemma RepeatedDisagree(g: GnuTable, symbol: CStr)
    requires g.names != [] && g.symoffset <= |g.names| && !Once(g.names, symbol)
    ensures !AlwaysAgree(g, symbol)
  {
    var names := g.names;
    UpWellFormed(names);
    DownWellFormed(names);
    RepetitionShows(names, symbol);
    assert SysvScan(Up(names), [Upwards(1, |names|)], symbol) != GnuScan(g, symbol)
        || SysvScan(Down(names), [Downwards(|names| - 1)], symbol) != GnuScan(g, symbol);
  }

  /** For a name that does not repeat one table of the symbols stands for all. */
  lemma OneAgreesAllAgree(t: SysvTable, chains: seq<seq<nat>>, g: GnuTable, symbol: CStr)
    requires t.names == g.names != [] && SysvWellFormed(t, chains) && g.symoffset <= |g.names|
    requires Once(g.names, symbol)
    ensures AlwaysAgree(g, symbol) <==> Preferred(g, symbol)
  {
    IndicesAgree(t, chains, g, symbol);
    forall s: SysvTable, lists: seq<seq<nat>> | s.names == g.names && SysvWellFormed(s, lists)
      ensures SysvScan(s, lists, symbol) == GnuScan(g, symbol) <==> Preferred(g, symbol)
    {
      IndicesAgree(s, lists, g, symbol);
    }
  }

  // ---------- tables with one bucket ----------

  function Upwards(i: nat, n: nat): seq<nat>
    decreases n - i
  {
    if i >= n then [] else [i] + Upwards(i + 1, n)
  }

  function Downwards(i: nat): seq<nat> {
    if i == 0 then [] else [i] + Downwards(i - 1)
  }

  /** The chain runs from the first symbol to the last. */
  function Up(names: seq<CStr>): SysvTable {
    var n := |names|;
    SysvTable(names, [if n > 1 then 1 else 0], seq(n, i requires 0 <= i => if i + 1 < n then i + 1 else 0))
  }

  /** The chain runs from the last symbol to the first. */
  function Down(names: seq<CStr>): SysvTable
    requires names != []
  {
    SysvTable(names, [|names| - 1], seq(|names|, i requires 0 <= i => if i == 0 then 0 else i - 1))
  }

  lemma {:induction false} UpFollows(names: seq<CStr>, i: nat)
    requires 0 < i
    ensures Follows(Up(names), if i < |names| then i else 0, Upwards(i, |names|))
    ensures forall k :: i <= k < |names| ==> k in Upwards(i, |names|)
    decreases |names| - i
  {
    if i >= |names| {
    } else {
      UpFollows(names, i + 1);
      assert ([i] + Upwards(i + 1, |names|))[1..] == Upwards(i + 1, |names|);
    }
  }

  lemma {:induction false} DownFollows(names: seq<CStr>, i: nat)
    requires i < |names|
    ensures Follows(Down(names), i, Downwards(i))
    ensures forall k :: 0 < k <= i ==> k in Downwards(i)
  {
    if i == 0 {
    } else {
      DownFollows(names, i - 1);
      assert ([i] + Downwards(i - 1))[1..] == Downwards(i - 1);
    }
  }

  lemma UpWellFormed(names: seq<CStr>)
    ensures SysvWellFormed(Up(names), [Upwards(1, |names|)])
  {
    UpFollows(names, 1);
    OneBucket(Up(names), Upwards(1, |names|));
  }

  lemma DownWellFormed(names: seq<CStr>)
    requires names != []
    ensures SysvWellFormed(Down(names), [Downwards(|names| - 1)])
  {
    DownFollows(names, |names| - 1);
    OneBucket(Down(names), Downwards(|names| - 1));
  }

  lemma OneBucket(t: SysvTable, list: seq<nat>)
    requires |t.bucket| == 1 && Follows(t, t.bucket[0], list) && forall i :: 0 < i < |t.names| ==> i in list
    ensures SysvWellFormed(t, [list])
  {
    forall i | 0 < i < |t.names|
      ensures i in [list][GabiHash(t.names[i]) as nat % |t.bucket|]
    {
      OnlyBucket(t.names[i]);
    }
  }

  lemma OneBucketScan(t: SysvTable, list: seq<nat>, symbol: CStr)
    requires |t.bucket| == 1
    ensures SysvScan(t, [list], symbol) == ChainScan(t.names, list, symbol)
  {
    OnlyBucket(symbol);
  }

  lemma ChainScanCons(names: seq<CStr>, i: nat, rest: seq<nat>, symbol: CStr)
    requires i < |names|
    ensures ChainScan(names, [i] + rest, symbol) ==
            if names[i] == symbol then Found(i) else ChainScan(names, rest, symbol)
  {
    assert ([i] + rest)[1..] == rest;
  }

  /** Upwards the first symbol of the name is found. */
  lemma {:induction false} UpFindsFirst(names: seq<CStr>, i: nat, symbol: CStr)
    requires i <= |names|
    ensures ChainScan(names, Upwards(i, |names|), symbol) == Scan(names, i, |names|, symbol)
    decreases |names| - i
  {
    if i == |names| {
    } else {
      ChainScanCons(names, i, Upwards(i + 1, |names|), symbol);
      UpFindsFirst(names, i + 1, symbol);
    }
  }

  /** Downwards it is the last. */
  lemma {:induction false} DownFindsLast(names: seq<CStr>, i: nat, symbol: CStr)
    requires i < |names|
    ensures match ChainScan(names, Downwards(i), symbol)
            case NotFound => forall k :: 0 < k <= i ==> names[k] != symbol
            case Found(f) => forall k :: f < k <= i ==> names[k] != symbol
  {
    if i == 0 {
    } else {
      ChainScanCons(names, i, Downwards(i - 1), symbol);
      if names[i] != symbol {
        DownFindsLast(names, i - 1, symbol);
      }
    }
  }

  /** A name that repeats is found at two places by the two. */
  lemma RepetitionShows(names: seq<CStr>, symbol: CStr)
    requires names != [] && !Once(names, symbol)
    ensures SysvScan(Up(names), [Upwards(1, |names|)], symbol) !=
            SysvScan(Down(names), [Downwards(|names| - 1)], symbol)
  {
    OneBucketScan(Up(names), Upwards(1, |names|), symbol);
    OneBucketScan(Down(names), Downwards(|names| - 1), symbol);
    var i, j :| 0 < i < j < |names| && names[i] == symbol && names[j] == symbol;
    TwoPlaces(names, i, j, symbol);
  }

  lemma TwoPlaces(names: seq<CStr>, i: nat, j: nat, symbol: CStr)
    requires 0 < i < j < |names| && names[i] == symbol && names[j] == symbol
    ensures ChainScan(names, Upwards(1, |names|), symbol) != ChainScan(names, Downwards(|names| - 1), symbol)
  {
    UpFindsFirst(names, 1, symbol);
    ScanIsFirst(names, 1, |names|, symbol);
    DownFindsLast(names, |names| - 1, symbol);
  }

  /** For instance the name of both symbols of a list of two. */
  lemma RepeatedName(f: CStr)
    requires f != []
    ensures var names := [[], f, f];
            var s, g := Down(names), Built(names, 1, 1, 32);
            && SysvWellFormed(s, [[2, 1]]) && GnuWellFormed(g)
            && SysvScan(s, [[2, 1]], f) == Found(2) && GnuScan(g, f) == Found(1)
  {
    var names: seq<CStr> := [[], f, f];
    OnlyBucket(f);
    OnlyBucket([]);
    assert Downwards(2) == [2, 1];
    OneBucketScan(Down(names), [2, 1], f);
    DownWellFormed(names);
    BuiltWellFormed(names, 1, 1, 32);
  }

  lemma OnlyBucket(name: CStr)
    ensures BucketFor(name, 1) == 0 && GabiHash(name) as nat % 1 == 0
  {
  }
}
