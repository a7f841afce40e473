/** Powers of two and the bitwise operators on unbounded naturals. */
module Bits {

  function Pow2(n: nat): (p: nat)
    ensures p > 0
  {
    if n == 0 then 1 else 2 * Pow2(n - 1)
  }

  lemma {:induction false} Pow2Add(a: nat, b: nat)
    ensures Pow2(a + b) == Pow2(a) * Pow2(b)
  {
    if a == 0 {
    } else {
      Pow2Add(a - 1, b);
      assert a - 1 + b == a + b - 1;
    }
  }

  lemma {:induction false} Pow2Monotone(a: nat, b: nat)
    requires a <= b
    ensures Pow2(a) <= Pow2(b)
    decreases b - a
  {
    if a == b {
    } else {
      Pow2Monotone(a + 1, b);
    }
  }

  function BitOr(a: nat, b: nat): nat
    decreases a + b
  {
    if a == 0 && b == 0 then 0
    else (if a % 2 == 1 || b % 2 == 1 then 1 else 0) + 2 * BitOr(a / 2, b / 2)
  }

  function BitAnd(a: nat, b: nat): nat
    decreases a + b
  {
    if a == 0 && b == 0 then 0
    else (if a % 2 == 1 && b % 2 == 1 then 1 else 0) + 2 * BitAnd(a / 2, b / 2)
  }

  /** Bit `i` of a number. */
  predicate Bit(x: nat, i: nat) {
    if i == 0 then x % 2 == 1 else Bit(x / 2, i - 1)
  }

  lemma {:induction false} NoBits(i: nat)
    ensures !Bit(0, i)
  {
    if i == 0 {
    } else {
      NoBits(i - 1);
    }
  }

  lemma OrHalves(a: nat, b: nat)
    ensures BitOr(a, b) / 2 == BitOr(a / 2, b / 2)
    ensures BitOr(a, b) % 2 == 1 <==> a % 2 == 1 || b % 2 == 1
  {
    if a == 0 && b == 0 {
      OrZero(0);
    }
  }

  lemma {:induction false} OrBit(a: nat, b: nat, i: nat)
    ensures Bit(BitOr(a, b), i) <==> Bit(a, i) || Bit(b, i)
  {
    OrHalves(a, b);
    if i > 0 {
      OrBit(a / 2, b / 2, i - 1);
    }
  }

  lemma {:induction false} AndBit(a: nat, b: nat, i: nat)
    ensures Bit(BitAnd(a, b), i) <==> Bit(a, i) && Bit(b, i)
  {
    NoBits(i);
    if i > 0 {
      AndBit(a / 2, b / 2, i - 1);
    }
  }

  lemma {:induction false} Pow2Bit(n: nat, i: nat)
    ensures Bit(Pow2(n), i) <==> i == n
  {
    if n > 0 && i > 0 {
      Pow2Bit(n - 1, i - 1);
    } else if i > 0 {
      NoBits(i - 1);
    }
  }

  /** A number is determined by its bits. */
  lemma {:induction false} SameBits(x: nat, y: nat)
    requires forall i: nat :: Bit(x, i) == Bit(y, i)
    ensures x == y
    decreases x + y
  {
    if x + y == 0 {
    } else {
      assert Bit(x, 0) == Bit(y, 0);
      forall i: nat
        ensures Bit(x / 2, i) == Bit(y / 2, i)
      {
        assert Bit(x, i + 1) == Bit(y, i + 1);
      }
      SameBits(x / 2, y / 2);
    }
  }

  lemma {:induction false} OrZero(a: nat)
    ensures BitOr(a, 0) == a && BitOr(0, a) == a
  {
    if a == 0 {
    } else {
      OrZero(a / 2);
    }
  }

  /** OR of numbers that share no bit is their sum. */
  lemma {:induction false} OrDisjoint(a: nat, k: nat, b: nat)
    requires a < Pow2(k)
    ensures BitOr(a, b * Pow2(k)) == a + b * Pow2(k)
    decreases k
  {
    if k == 0 {
      OrZero(b);
    } else {
      var c := b * Pow2(k - 1);
      assert b * Pow2(k) == 2 * c;
      OrDisjoint(a / 2, k - 1, b);
      if a == 0 && c == 0 {
        assert BitOr(a, 2 * c) == 0;
      } else {
        assert (2 * c) / 2 == c && (2 * c) % 2 == 0;
      }
    }
  }

  /** Adding a multiple of the modulus changes no remainder. */
  lemma {:induction false} ModPlusMultiple(x: int, q: int, m: int)
    requires m > 0
    ensures (x + q * m) % m == x % m
    decreases if q < 0 then -q else q
  {
    if q > 0 {
      ModPlusMultiple(x, q - 1, m);
      ModPlusOne(x + (q - 1) * m, m);
      assert x + q * m == x + (q - 1) * m + m;
    } else if q < 0 {
      ModPlusMultiple(x, q + 1, m);
      ModPlusOne(x + q * m, m);
      assert x + (q + 1) * m == x + q * m + m;
    }
  }

  lemma ModPlusOne(x: int, m: int)
    requires m > 0
    ensures (x + m) % m == x % m
  {
    var q, r := x / m, x % m;
    assert x == q * m + r;
    assert x + m == (q + 1) * m + r by {
      assert (q + 1) * m == q * m + m;
    }
    DivModUnique(x + m, m, q + 1, r);
  }

  lemma DivModUnique(x: int, m: int, q: int, r: int)
    requires m > 0 && x == q * m + r && 0 <= r < m
    ensures x / m == q && x % m == r
  {
    var q', r' := x / m, x % m;
    assert x == q' * m + r';
    assert (q' - q) * m == r - r' by {
      assert (q' - q) * m == q' * m - q * m;
    }
    SmallMultiple(q' - q, m);
  }

  lemma SmallMultiple(d: int, m: int)
    requires m > 0 && -m < d * m < m
    ensures d == 0
  {
    if d >= 1 {
      MultipleGrows(d, m);
    } else if d <= -1 {
      MultipleGrows(-d, m);
    }
  }

  lemma MultipleGrows(d: int, m: int)
    requires m > 0 && d >= 1
    ensures d * m >= m && (-d) * m <= -m
  {
  }

  /** The remainder, by subtraction: arithmetic that stays linear where the divisor is a variable. */
  function Remainder(x: nat, n: nat): (r: nat)
    requires n > 0
    ensures r < n
  {
    if x < n then x else Remainder(x - n, n)
  }

  lemma {:induction false} RemainderIsMod(x: nat, n: nat)
    requires n > 0
    ensures Remainder(x, n) == x % n
  {
    if x < n {
      DivModUnique(x, n, 0, x);
    } else {
      RemainderIsMod(x - n, n);
      ModPlusOne(x - n, n);
    }
  }

  /** The remainder may be taken of a summand first. */
  lemma ModSummand(x: int, y: int, m: int)
    requires m > 0
    ensures (x % m + y) % m == (x + y) % m
  {
    var q := x / m;
    assert x + y == (x % m + y) + q * m;
    ModPlusMultiple(x % m + y, q, m);
  }
}
