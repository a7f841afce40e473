/** A GNU hash table in numbers, and what is found in it. */
module KnownTables {
  import opened Bits
  import opened CString
  import opened SymbolLookup
  import ElfHash
  import K = KnownAnswers

  lemma OneCharacter(c: Char)
    ensures ElfHash.GnuHash([c]) == 177573 + c
  {
    K.DjbCons(5381, c, [], 177573 + c);
    assert [c] + [] == [c];
  }

  /** The symbols: the null symbol and three of one character, of which the last has an odd hash. */
  ghost predicate Names(names: seq<CStr>) {
    names == [[], [97], [99], [98]]
  }

  /** Two bloom words of 32 bits, two buckets, and a chain whose entries are odd where a bucket ends. */
  ghost predicate IsKnown(t: GnuTable, names: seq<CStr>) {
    && t.names == names && t.bits == 32 && t.symoffset == 1 && t.bloomShift == 5
    && t.bloom == [0x1_01c0, 0] && t.bucket == [1, 3] && t.chain == [177670, 177673, 177671]
  }

  lemma Buckets(t: GnuTable, names: seq<CStr>)
    requires Names(names) && t.names == names && |t.bucket| == 2
    ensures BucketOf(t, 1) == 0 && BucketOf(t, 2) == 0 && BucketOf(t, 3) == 1
    ensures ElfHash.GnuHash(names[1]) == 177670 && ElfHash.GnuHash(names[2]) == 177672
    ensures ElfHash.GnuHash(names[3]) == 177671
  {
    OneCharacter(97);
    OneCharacter(99);
    OneCharacter(98);
    RemainderIsMod(177670, 2);
    RemainderIsMod(177672, 2);
    RemainderIsMod(177671, 2);
  }

  lemma KnownChains(t: GnuTable, names: seq<CStr>)
    requires Names(names) && IsKnown(t, names)
    ensures ChainsWellFormed(t)
  {
    Buckets(t, names);
    assert BucketFirst(t, 0) && BucketFirst(t, 1);
    assert ChainEntry(t, 1) && ChainEntry(t, 2) && ChainEntry(t, 3);
  }

  lemma {:induction false} BitOf(x: nat, i: nat)
    ensures Bit(x, i) <==> x / Pow2(i) % 2 == 1
  {
    if i == 0 {
    } else {
      BitOf(x / 2, i - 1);
      HalfFirst(x, Pow2(i - 1));
    }
  }

  lemma HalfFirst(x: nat, p: nat)
    requires p > 0
    ensures x / (2 * p) == x / 2 / p
  {
    var q, r := x / 2 / p, x / 2 % p;
    assert x / 2 == q * p + r;
    DivModUnique(x, 2 * p, q, 2 * r + x % 2);
  }

  /** Bits 6, 7, 8 and 16 of the bloom word. */
  lemma BloomBits(word: nat)
    requires word == 0x1_01c0
    ensures Bit(word, 6) && Bit(word, 7) && Bit(word, 8) && Bit(word, 16) && !Bit(0, 6)
  {
    Pow2Add(8, 8);
    BitOf(word, 6);
    BitOf(word, 7);
    BitOf(word, 8);
    BitOf(word, 16);
    NoBits(6);
  }

  lemma KnownBloom(t: GnuTable, names: seq<CStr>)
    requires Names(names) && IsKnown(t, names)
    ensures BloomWellFormed(t)
  {
    Buckets(t, names);
    BloomBits(t.bloom[0]);
    assert Pow2(5) == 32;
    assert InBloom(t, 177670) && InBloom(t, 177672) && InBloom(t, 177671);
  }

  /** The table is well-formed, and this is found in it. */
  lemma KnownGnuTable(t: GnuTable, names: seq<CStr>)
    requires Names(names) && IsKnown(t, names)
    ensures GnuWellFormed(t)
    ensures GnuScan(t, [97]) == Found(1) && GnuScan(t, [99]) == Found(2) && GnuScan(t, [98]) == Found(3)
    ensures GnuScan(t, []) == Found(0) && GnuScan(t, [100]) == NotFound
  {
    KnownChains(t, names);
    KnownBloom(t, names);
    GnuScanFinds(t, [97]);
    GnuScanFinds(t, [98]);
    GnuScanFinds(t, [99]);
    GnuScanFinds(t, []);
    GnuScanFinds(t, [100]);
  }

  /** With another low bit in the chain, other buckets, another bloom word or shift it is not. */
  lemma ChangedGnuTable(t: GnuTable, names: seq<CStr>)
    requires Names(names) && IsKnown(t, names)
    ensures !GnuWellFormed(t.(chain := [177671, 177673, 177671]))
    ensures !GnuWellFormed(t.(chain := [177670, 177672, 177671]))
    ensures !GnuWellFormed(t.(bucket := [3, 1])) && !GnuWellFormed(t.(bucket := [2, 3]))
    ensures !GnuWellFormed(t.(bloom := [0, 0x1_01c0])) && !GnuWellFormed(t.(bloomShift := 6))
  {
    var chain1, chain2 := t.(chain := [177671, 177673, 177671]), t.(chain := [177670, 177672, 177671]);
    Buckets(chain1, names);
    assert !ChainEntry(chain1, 1);
    Buckets(chain2, names);
    assert !ChainEntry(chain2, 2);
    var bucket1, bucket2 := t.(bucket := [3, 1]), t.(bucket := [2, 3]);
    Buckets(bucket1, names);
    assert !BucketFirst(bucket1, 0);
    Buckets(bucket2, names);
    assert !BucketFirst(bucket2, 0);
    ChangedBloom(t, names);
  }

  lemma ChangedBloom(t: GnuTable, names: seq<CStr>)
    requires Names(names) && IsKnown(t, names)
    ensures !BloomWellFormed(t.(bloom := [0, 0x1_01c0])) && !BloomWellFormed(t.(bloomShift := 6))
  {
    Buckets(t, names);
    var bloom, shift := t.(bloom := [0, 0x1_01c0]), t.(bloomShift := 6);
    BloomBits(t.bloom[0]);
    assert !InBloom(bloom, ElfHash.GnuHash(names[1]));
    assert Pow2(6) == 64 && Pow2(24) == Pow2(8) * Pow2(16) by {
      Pow2Add(8, 16);
    }
    BitOf(0x1_01c0, 24);
    Pow2Add(8, 8);
    assert !InBloom(shift, ElfHash.GnuHash(names[1]));
  }
}
