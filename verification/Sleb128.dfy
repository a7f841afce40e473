/** The SLEB128 decoder of `xh_elf.c`, for words of any width, against section 7.6 of DWARF version 4. */
module Sleb128 {
  import opened Bits

  type Byte = b: int | 0 <= b < 256

  /** An error code XH_ERRNO_FORMAT, or the decoded word. */
  datatype Decoded = Format | Ok(value: nat)

  // ---------- the encoding ----------

  /** Every byte but the last has the continuation bit. */
  predicate IsEncoding(s: seq<Byte>) {
    s != [] && if s[0] < 128 then |s| == 1 else IsEncoding(s[1..])
  }

  /** The signed number: seven bits a byte, the least significant first, sign-extended from the last. */
  function Signed(s: seq<Byte>): int
    requires IsEncoding(s)
  {
    if s[0] < 128 then (if s[0] >= 64 then s[0] - 128 else s[0])
    else (s[0] - 128) + 128 * Signed(s[1..])
  }

  /** The shortest encoding. */
  function Encode(v: int): (s: seq<Byte>)
    ensures IsEncoding(s)
    decreases if v < 0 then -v else v
  {
    var low, rest := v % 128, v / 128;
    if -64 <= v < 64 then [low] else [low + 128] + Encode(rest)
  }

  lemma {:induction false} EncodeInverse(v: int)
    ensures Signed(Encode(v)) == v
    decreases if v < 0 then -v else v
  {
    if -64 <= v < 64 {
    } else {
      EncodeInverse(v / 128);
      assert Encode(v)[1..] == Encode(v / 128);
    }
  }

  /** `n` bytes suffice for the numbers of 7n bits. */
  lemma {:induction false} EncodeLength(v: int, n: nat)
    requires n > 0 && 0 - Pow2(7 * n - 1) <= v < Pow2(7 * n - 1)
    ensures |Encode(v)| <= n
    decreases n
  {
    if n == 1 {
      assert Pow2(6) == 64;
    } else if !(-64 <= v < 64) {
      assert Pow2(7 * n - 1) == 128 * Pow2(7 * (n - 1) - 1) by {
        Pow2Add(7, 7 * (n - 1) - 1);
        assert Pow2(7) == 128;
      }
      EncodeLength(v / 128, n - 1);
    }
  }

  lemma {:induction false} LastEnds(s: seq<Byte>)
    requires IsEncoding(s)
    ensures s[|s| - 1] < 128
  {
    if s[0] < 128 {
    } else {
      LastEnds(s[1..]);
    }
  }

  /** Any encoding can be padded by one byte without changing the number. */
  lemma {:induction false} Padded(s: seq<Byte>)
    requires IsEncoding(s)
    ensures var last := s[|s| - 1];
            && last < 128
            && var p := s[..|s| - 1] + [last + 128, if last >= 64 then 127 else 0];
               IsEncoding(p) && Signed(p) == Signed(s)
  {
    LastEnds(s);
    var last := s[|s| - 1];
    var pad := [last + 128, if last >= 64 then 127 else 0];
    var p := s[..|s| - 1] + pad;
    if s[0] >= 128 {
      Padded(s[1..]);
      assert p[1..] == s[1..][..|s| - 2] + pad;
    } else {
      assert p == pad && p[1..] == [pad[1]];
    }
  }

  /** How many bytes of the input the first encoding takes, or none if it is cut short. */
  function FirstLength(s: seq<Byte>): (n: nat)
    ensures n <= |s|
  {
    if s == [] then 0
    else if s[0] < 128 then 1
    else
      var n := FirstLength(s[1..]);
      if n == 0 then 0 else n + 1
  }

  lemma {:induction false} FirstIsEncoding(s: seq<Byte>)
    ensures FirstLength(s) > 0 ==> IsEncoding(s[..FirstLength(s)])
  {
    if s != [] && s[0] >= 128 {
      FirstIsEncoding(s[1..]);
      if FirstLength(s) > 0 {
        assert s[..FirstLength(s)][1..] == s[1..][..FirstLength(s[1..])];
      }
    }
  }

  /** An encoding at the front of the input is the one the decoder takes. */
  lemma {:induction false} FirstOfConcat(e: seq<Byte>, rest: seq<Byte>)
    requires IsEncoding(e)
    ensures FirstLength(e + rest) == |e|
  {
    if e[0] < 128 {
    } else {
      FirstOfConcat(e[1..], rest);
      assert (e + rest)[1..] == e[1..] + rest;
    }
  }

  // ---------- the bits collected so far ----------

  function Unsigned(s: seq<Byte>): (u: nat)
  {
    if s == [] then 0 else s[0] % 128 + 128 * Unsigned(s[1..])
  }

  lemma {:induction false} UnsignedSnoc(s: seq<Byte>, b: Byte)
    ensures Unsigned(s + [b]) == Unsigned(s) + (b % 128) * Pow2(7 * |s|)
    ensures Unsigned(s) < Pow2(7 * |s|)
  {
    if s == [] {
      assert Unsigned([b]) == b % 128;
    } else {
      var rest := s[1..];
      UnsignedSnoc(rest, b);
      assert (s + [b])[0] == s[0] && (s + [b])[1..] == rest + [b];
      var p := Pow2(7 * |rest|);
      Pow2Add(7, 7 * |rest|);
      assert Pow2(7) == 128 && Pow2(7 * |s|) == 128 * p;
      Regroup(b % 128, p);
    }
  }

  lemma Regroup(b: int, p: int)
    ensures 128 * (b * p) == b * (128 * p)
  {
  }

  lemma UnsignedBound(s: seq<Byte>)
    ensures Unsigned(s) < Pow2(7 * |s|)
  {
    UnsignedSnoc(s, 0);
  }

  /** The last byte decides the sign. */
  lemma {:induction false} SignedUnsigned(s: seq<Byte>)
    requires IsEncoding(s)
    ensures s[|s| - 1] < 128
    ensures Signed(s) == Unsigned(s) - (if s[|s| - 1] >= 64 then Pow2(7 * |s|) else 0)
  {
    if s[0] < 128 {
      assert s[1..] == [] && Pow2(7) == 128;
    } else {
      var rest := s[1..];
      SignedUnsigned(rest);
      Pow2Add(7, 7 * |rest|);
      assert Pow2(7) == 128 && Pow2(7 * |s|) == 128 * Pow2(7 * |rest|);
      assert rest[|rest| - 1] == s[|s| - 1];
    }
  }

  // ---------- the machine word ----------

  /** A shifted value, cut to the word. */
  function Shl(x: nat, shift: nat, w: nat): nat {
    (x * Pow2(shift)) % Pow2(w)
  }

  /** One more byte is ORed in: the word holds the collected bits modulo its size. */
  lemma CollectByte(u: nat, b: nat, shift: nat, w: nat)
    requires u < Pow2(shift)
    ensures BitOr(u % Pow2(w), Shl(b, shift, w)) == (u + b * Pow2(shift)) % Pow2(w)
  {
    var p, m := Pow2(shift), Pow2(w);
    if shift < w {
      var q := Pow2(w - shift);
      Pow2Add(w - shift, shift);
      ShiftedMod(u, b, q, p);
      ShiftedMod(0, b, q, p);
      ModSmall(u, m, p, q);
      OrDisjoint(u, shift, b % q);
    } else {
      Pow2Add(shift - w, w);
      var r := b * Pow2(shift - w);
      assert b * p == r * m;
      ModPlusMultiple(u, r, m);
      ModPlusMultiple(0, r, m);
      OrZero(u % m);
    }
  }

  /** The bits above the word are lost, those below the shift stay. */
  lemma ShiftedMod(u: nat, b: nat, q: nat, p: nat)
    requires q > 0 && p > 0 && u < p
    ensures (u + b * p) % (q * p) == u + (b % q) * p
  {
    var d, r := b / q, b % q;
    assert b == d * q + r;
    assert u + b * p == d * (q * p) + (u + r * p) by {
      assert b * p == (d * q) * p + r * p;
      assert (d * q) * p == d * (q * p);
    }
    assert u + r * p < q * p by {
      assert (r + 1) * p <= q * p;
      assert (r + 1) * p == r * p + p;
    }
    assert u + r * p >= 0;
    DivModUnique(u + b * p, q * p, d, u + r * p);
  }

  lemma ModSmall(u: nat, m: nat, p: nat, q: nat)
    requires q > 0 && m == q * p && u < p
    ensures u % m == u
  {
    assert m >= p;
  }

  /** Minus a power of two, as a word: every bit from `shift` up. */
  function HighBits(shift: nat, w: nat): nat
    requires shift < w
  {
    Pow2Monotone(shift, w);
    Pow2(w) - Pow2(shift)
  }

  /** ORing in minus a power of two extends the sign. */
  lemma ExtendSign(u: nat, shift: nat, w: nat)
    requires shift < w && u < Pow2(shift)
    ensures BitOr(u % Pow2(w), HighBits(shift, w)) == (u - Pow2(shift)) % Pow2(w)
  {
    var p, q := Pow2(shift), Pow2(w - shift);
    Pow2Add(w - shift, shift);
    LessOne(q, p);
    OrDisjoint(u, shift, q - 1);
    Pow2Monotone(shift, w);
    WrapOnce(u, p, Pow2(w));
  }

  lemma LessOne(q: nat, p: nat)
    ensures q * p - p == (q - 1) * p
  {
  }

  /** A number just below zero wraps to the top of the word. */
  lemma WrapOnce(u: nat, p: nat, m: nat)
    requires u < p <= m
    ensures u % m == u && (u - p) % m == u + (m - p)
  {
    DivModUnique(u, m, 0, u);
    DivModUnique(u - p, m, -1, u + (m - p));
  }

  /** Past the word's width the sign bits are a multiple of its size. */
  lemma SignBeyond(u: nat, shift: nat, w: nat)
    requires shift >= w
    ensures (u - Pow2(shift)) % Pow2(w) == u % Pow2(w)
  {
    Pow2Add(shift - w, w);
    MinusMultiple(u, Pow2(shift - w), Pow2(w));
  }

  lemma MinusMultiple(x: int, r: int, m: int)
    requires m > 0
    ensures (x - r * m) % m == x % m
  {
    assert x - r * m == x + (-r) * m;
    ModPlusMultiple(x, -r, m);
  }

  // ---------- the decoder ----------

  class Decoder {
    const w: nat
    const bytes: seq<Byte>
    var cur: nat

    constructor (bytes: seq<Byte>, w: nat)
      ensures this.bytes == bytes && this.w == w && cur == 0
    {
      this.bytes, this.w, cur := bytes, w, 0;
    }

    /** The do-while loop of xh_elf_sleb128_decoder_next: the bits of one encoding, or none if it is cut short. */
    method Collect() returns (ok: bool, value: nat, shift: nat, byte: Byte)
      requires cur <= |bytes|
      modifies this
      ensures var input := bytes[old(cur)..];
              var n := FirstLength(input);
              if n == 0 then !ok && cur == |bytes|
              else ok && cur == old(cur) + n && byte == input[n - 1] && Collected(input, n, value, shift, w)
    {
      ghost var input, start := bytes[cur..], cur;
      value, shift, byte, ok := 0, 0, 0, true;
      NothingCollected(input, w);
      var more := true;
      while more
        invariant start <= cur <= |bytes|
        invariant Collected(input, cur - start, value, shift, w)
        invariant more ==> forall i :: 0 <= i < cur - start ==> input[i] >= 128
        invariant !more ==> cur > start && FirstLength(input) == cur - start && byte == input[cur - start - 1]
        decreases |bytes| - cur + if more then 1 else 0
      {
        if cur >= |bytes| {
          CutShort(input);
          return false, value, shift, byte;
        }
        byte := bytes[cur];
        cur := cur + 1;
        CollectStep(input, cur - start - 1, value, shift, w);
        value := BitOr(value, Shl(byte % 128, shift, w));
        shift := shift + 7;
        more := byte >= 128;
        if !more {
          EndsHere(input, cur - start - 1);
        }
      }
    }

    /** xh_elf_sleb128_decoder_next: the value modulo the word size, and exactly its bytes consumed. */
    method Next() returns (r: Decoded)
      requires cur <= |bytes|
      modifies this
      ensures var n := FirstLength(bytes[old(cur)..]);
              if n == 0 then r == Format && cur == |bytes|
              else
                && cur == old(cur) + n && IsEncoding(bytes[old(cur)..][..n])
                && r == Ok(Signed(bytes[old(cur)..][..n]) % Pow2(w))
    {
      ghost var input := bytes[cur..];
      FirstIsEncoding(input);
      var ok, value, shift, byte := Collect();
      if !ok {
        return Format;
      }
      Finish(input, FirstLength(input), value, shift, w);
      if shift < w && SignBit(byte) {
        value := BitOr(value, HighBits(shift, w));
      }
      r := Ok(value);
    }
  }

  /** The loop's state after `k` bytes. */
  ghost predicate Collected(input: seq<Byte>, k: nat, value: nat, shift: nat, w: nat)
    requires k <= |input|
  {
    shift == 7 * k && value == Unsigned(input[..k]) % Pow2(w)
  }

  lemma CollectStep(input: seq<Byte>, k: nat, value: nat, shift: nat, w: nat)
    requires k < |input| && Collected(input, k, value, shift, w)
    ensures Collected(input, k + 1, BitOr(value, Shl(input[k] % 128, shift, w)), shift + 7, w)
  {
    UnsignedSnoc(input[..k], input[k]);
    CollectByte(Unsigned(input[..k]), input[k] % 128, shift, w);
    assert input[..k + 1] == input[..k] + [input[k]];
  }

  lemma NothingCollected(input: seq<Byte>, w: nat)
    ensures Collected(input, 0, 0, 0, w)
  {
    DivModUnique(0, Pow2(w), 0, 0);
  }

  /** `byte & 64` */
  predicate SignBit(b: Byte) {
    (b / 64) % 2 == 1
  }

  /** Sign extension turns the collected bits into the signed number modulo the word size. */
  lemma Finish(input: seq<Byte>, n: nat, value: nat, shift: nat, w: nat)
    requires 0 < n <= |input| && IsEncoding(input[..n]) && Collected(input, n, value, shift, w)
    ensures Signed(input[..n]) % Pow2(w) ==
            if shift < w && SignBit(input[n - 1]) then BitOr(value, HighBits(shift, w)) else value
  {
    var e := input[..n];
    SignedUnsigned(e);
    UnsignedBound(e);
    Bit6(e[|e| - 1]);
    if shift < w {
      ExtendSign(Unsigned(e), shift, w);
    } else {
      SignBeyond(Unsigned(e), shift, w);
    }
  }

  lemma Bit6(b: Byte)
    requires b < 128
    ensures SignBit(b) <==> b >= 64
  {
  }

  lemma {:induction false} CutShort(s: seq<Byte>)
    requires forall i :: 0 <= i < |s| ==> s[i] >= 128
    ensures FirstLength(s) == 0
  {
    if s == [] {
    } else {
      CutShort(s[1..]);
    }
  }

  lemma {:induction false} EndsHere(s: seq<Byte>, k: nat)
    requires k < |s| && s[k] < 128 && forall i :: 0 <= i < k ==> s[i] >= 128
    ensures FirstLength(s) == k + 1
  {
    if k == 0 {
    } else {
      EndsHere(s[1..], k - 1);
    }
  }
}
