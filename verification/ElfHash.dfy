/** The two symbol-hash functions of `xh_elf.c`. */
module ElfHash {
  import opened Bits
  import opened CString

  const TWO32: nat := 0x1_0000_0000

  // ---------- the System V hash ----------

  /** One character of xh_elf_hash, in 32-bit wrapping arithmetic. */
  function Step(h: bv32, c: bv32): bv32 {
    var s := (h << 4) + c;
    Fold(s, s & 0xf000_0000)
  }

  function Fold(h: bv32, g: bv32): bv32 {
    (h ^ g) ^ (g >> 24)
  }

  /** One character of the hash function printed in chapter 5 of the System V gABI, "Hash Table". */
  function GabiStep(h: bv32, c: bv32): bv32 {
    var s := (h << 4) + c;
    GabiFold(s, s & 0xf000_0000)
  }

  function GabiFold(h: bv32, g: bv32): bv32 {
    if g != 0 then (h ^ (g >> 24)) & !g else h & !g
  }

  function GabiFrom(h: bv32, name: CStr): bv32
    decreases |name|
  {
    if name == [] then h else GabiFrom(GabiStep(h, name[0] as bv32), name[1..])
  }

  function GabiHash(name: CStr): bv32 {
    GabiFrom(0, name)
  }

  /** The two ways of clearing the top four bits agree, and they leave the hash below 2^28. */
  lemma StepsAgree(h: bv32, c: bv32)
    ensures Step(h, c) == GabiStep(h, c) < 0x1000_0000
  {
    var s := (h << 4) + c;
    FoldsAgree(s, s & 0xf000_0000);
    FoldBound(s, s & 0xf000_0000);
  }

  /** XORing the top bits away or masking them out is the same, before or after an XOR below them. */
  lemma FoldsAgree(h: bv32, g: bv32)
    requires g == h & 0xf000_0000
    ensures Fold(h, g) == GabiFold(h, g)
  {
    if g != 0 {
      ShiftedDown(g);
      Cleared(h, g, g >> 24);
    } else {
      NothingCleared(h, g);
    }
  }

  lemma ShiftedDown(g: bv32)
    ensures (g >> 24) & 0xf000_0000 == 0
  {
  }

  lemma Cleared(h: bv32, g: bv32, x: bv32)
    requires g == h & 0xf000_0000 && x & 0xf000_0000 == 0
    ensures (h ^ g) ^ x == (h ^ x) & !g
  {
  }

  lemma NothingCleared(h: bv32, g: bv32)
    requires g == 0
    ensures (h ^ g) ^ (g >> 24) == h & !g
  {
  }

  lemma FoldBound(h: bv32, g: bv32)
    requires g == h & 0xf000_0000
    ensures Fold(h, g) < 0x1000_0000
  {
    assert h ^ g == h & 0x0fff_ffff;
    assert g >> 24 <= 0xf0;
  }

  /** xh_elf_hash: the gABI hash of a name of any length, below 2^28 after each byte. */
  method Hash(name: CStr) returns (h: bv32)
    ensures h == GabiHash(name) && h < 0x1000_0000
  {
    h := 0;
    var i := 0;
    while i < |name|
      invariant i <= |name| && h < 0x1000_0000
      invariant GabiFrom(h, name[i..]) == GabiHash(name)
    {
      var c := name[i] as bv32;
      StepsAgree(h, c);
      h := Step(h, c);
      assert name[i..][1..] == name[i + 1..];
      i := i + 1;
    }
  }

  // ---------- the GNU hash ----------

  /** h * 33 + c over the whole name, in unbounded integers. */
  function Djb(h: nat, name: CStr): nat
    decreases |name|
  {
    if name == [] then h else Djb(33 * h + name[0], name[1..])
  }

  function GnuHash(name: CStr): nat {
    Djb(5381, name) % TWO32
  }

  /** 33 to the power n. */
  function Power33(n: nat): nat {
    if n == 0 then 1 else 33 * Power33(n - 1)
  }

  /** The characters, each weighed with the power of 33 its place gives it: 1 for the last. */
  function Weighed(name: CStr): nat {
    if name == [] then 0 else name[0] * Power33(|name| - 1) + Weighed(name[1..])
  }

  lemma {:induction false} DjbClosed(h: nat, name: CStr)
    ensures Djb(h, name) == h * Power33(|name|) + Weighed(name)
    decreases |name|
  {
    if name == [] {
    } else {
      DjbClosed(33 * h + name[0], name[1..]);
      Spread(h, name[0], Power33(|name| - 1));
    }
  }

  lemma Spread(h: nat, c: nat, p: nat)
    ensures (33 * h + c) * p == h * (33 * p) + c * p
  {
  }

  /** The hash in one formula. */
  lemma GnuHashClosed(name: CStr)
    ensures GnuHash(name) == (5381 * Power33(|name|) + Weighed(name)) % 0x1_0000_0000
  {
    DjbClosed(5381, name);
  }

  /** Wrapping at each step is the same as wrapping once at the end. */
  lemma {:induction false} DjbWraps(h: nat, name: CStr)
    ensures Djb(h, name) % TWO32 == Djb(h % TWO32, name) % TWO32
    decreases |name|
  {
    if name == [] {
    } else {
      var c, rest := name[0], name[1..];
      var a, b := 33 * h + c, 33 * (h % TWO32) + c;
      assert Djb(h, name) == Djb(a, rest) && Djb(h % TWO32, name) == Djb(b, rest);
      DjbWraps(a, rest);
      DjbWraps(b, rest);
      StepWraps(h, c, TWO32);
    }
  }

  /** One character of xh_elf_gnu_hash: the shift and both additions wrap at 32 bits. */
  function GnuStep(h: nat, c: nat): nat {
    (h + ((h * 32) % TWO32 + c) % TWO32) % TWO32
  }

  lemma GnuStepWraps(h: nat, c: nat)
    ensures GnuStep(h, c) == (33 * h + c) % TWO32
  {
  }

  lemma StepWraps(h: nat, c: nat, m: nat)
    requires m > 0
    ensures (33 * h + c) % m == (33 * (h % m) + c) % m
  {
    var q, r := h / m, h % m;
    assert 33 * h + c == (33 * r + c) + (33 * q) * m;
    ModPlusMultiple(33 * r + c, 33 * q, m);
  }

  /** xh_elf_gnu_hash */
  method HashGnu(name: CStr) returns (h: nat)
    ensures h == GnuHash(name)
  {
    h := 5381;
    var i := 0;
    while i < |name|
      invariant i <= |name| && h < TWO32
      invariant Djb(h, name[i..]) % TWO32 == GnuHash(name)
    {
      DjbWraps(33 * h + name[i], name[i + 1..]);
      GnuStepWraps(h, name[i]);
      assert name[i..][1..] == name[i + 1..];
      h := GnuStep(h, name[i]);
      i := i + 1;
    }
    assert name[i..] == [];
  }
}
