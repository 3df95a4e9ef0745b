/** Bitwise operators on naturals, defined bit by bit, with the facts the ciphers and bitmaps need. */
module Bits {

  function Pow2(n: nat): (p: nat)
    ensures p > 0
  {
    if n == 0 then 1 else 2 * Pow2(n - 1)
  }

  lemma Pow2Values()
    ensures Pow2(8) == 0x100 && Pow2(16) == 0x1_0000 && Pow2(24) == 0x100_0000 && Pow2(32) == 0x1_0000_0000
  {
    assert Pow2(4) == 16 && Pow2(8) == 256;
    assert Pow2(12) == 0x1000 && Pow2(16) == 0x1_0000;
    assert Pow2(20) == 0x10_0000 && Pow2(24) == 0x100_0000;
    assert Pow2(28) == 0x1000_0000;
  }

  predicate Bit(x: nat, k: nat) {
    if k == 0 then x % 2 == 1 else Bit(x / 2, k - 1)
  }

  function And(x: nat, y: nat): nat {
    if x == 0 || y == 0 then 0 else (if x % 2 == 1 && y % 2 == 1 then 1 else 0) + 2 * And(x / 2, y / 2)
  }

  function Or(x: nat, y: nat): nat
    decreases x + y
  {
    if x == 0 then y else if y == 0 then x
    else (if x % 2 == 1 || y % 2 == 1 then 1 else 0) + 2 * Or(x / 2, y / 2)
  }

  function Xor(x: nat, y: nat): nat
    decreases x + y
  {
    if x == 0 then y else if y == 0 then x
    else (if x % 2 != y % 2 then 1 else 0) + 2 * Xor(x / 2, y / 2)
  }

  /** The bits of `x` from position `k` up. */
  function High(x: nat, k: nat): nat { if k == 0 then x else High(x / 2, k - 1) }

  /** The `k` low bits of `x`. */
  function Low(x: nat, k: nat): nat { if k == 0 then 0 else x % 2 + 2 * Low(x / 2, k - 1) }

  lemma {:induction false} HighLow(x: nat, k: nat)
    ensures High(x, k) == x / Pow2(k) && Low(x, k) == x % Pow2(k)
    decreases k
  {
    if k > 0 {
      HighLow(x / 2, k - 1);
      ModHalf(x, k);
      DivHalf(x, k);
    }
  }

  /** Masking works on the low `k` bits and the rest separately. */
  lemma {:induction false} AndSplit(x: nat, m: nat, k: nat)
    ensures And(x, m) == And(Low(x, k), Low(m, k)) + Pow2(k) * And(High(x, k), High(m, k))
    decreases k
  {
    if k > 0 {
      AndSplit(x / 2, m / 2, k - 1);
      AndStep(x, m);
      HalfSum(Low(x, k), Low(x / 2, k - 1), x % 2);
      HalfSum(Low(m, k), Low(m / 2, k - 1), m % 2);
      AndStep(Low(x, k), Low(m, k));
      AndScale(And(High(x, k), High(m, k)), k);
    }
  }

  lemma AndScale(a: nat, k: nat)
    requires k > 0
    ensures Pow2(k) * a == 2 * (Pow2(k - 1) * a)
  {
  }

  lemma HalfSum(m: nat, q: nat, r: nat)
    requires m == 2 * q + r && r < 2
    ensures m / 2 == q && m % 2 == r
  {
  }

  lemma AndZero(x: nat)
    ensures And(x, 0) == 0
  {
  }

  lemma Pow2Zero()
    ensures Pow2(0) == 1
  {
  }

  /** One unfolding of `And`, also where an operand is zero. */
  lemma AndStep(x: nat, y: nat)
    ensures And(x, y) == (if x % 2 == 1 && y % 2 == 1 then 1 else 0) + 2 * And(x / 2, y / 2)
  {
  }

  lemma DivHalf(x: nat, n: nat)
    requires n > 0
    ensures x / Pow2(n) == x / 2 / Pow2(n - 1)
  {
    var m := Pow2(n - 1);
    var q, r := x / 2 / m, x / 2 % m;
    assert x / 2 == q * m + r;
    assert x == q * (2 * m) + (2 * r + x % 2) by { Regroup(q, m); }
    ModUnique(x, 2 * m, q, 2 * r + x % 2);
  }

  /** A mask of `n` ones is reduction modulo 2^n. */
  lemma {:induction false} AndOnes(x: nat, n: nat)
    ensures And(x, Pow2(n) - 1) == x % Pow2(n)
    decreases n
  {
    if n > 0 {
      HalfSum(Pow2(n) - 1, Pow2(n - 1) - 1, 1);
      AndOnes(x / 2, n - 1);
      ModHalf(x, n);
      AndStep(x, Pow2(n) - 1);
    }
  }

  /** Numbers whose bits do not meet are joined by addition. */
  lemma {:induction false} OrDisjoint(a: nat, b: nat, k: nat)
    requires a < Pow2(k)
    ensures Or(a, b * Pow2(k)) == a + b * Pow2(k)
    decreases k
  {
    if a != 0 && b * Pow2(k) != 0 {
      var c := b * Pow2(k - 1);
      assert b * Pow2(k) == 2 * c by { Regroup(b, Pow2(k - 1)); }
      OrDisjoint(a / 2, b, k - 1);
    }
  }

  lemma {:induction false} BitOfZero(k: nat)
    ensures !Bit(0, k)
  {
    if k > 0 { BitOfZero(k - 1); }
  }

  lemma {:induction false} BitOfOr(x: nat, y: nat, k: nat)
    ensures Bit(Or(x, y), k) <==> Bit(x, k) || Bit(y, k)
  {
    if x == 0 || y == 0 {
      BitOfZero(k);
    } else if k > 0 {
      BitOfOr(x / 2, y / 2, k - 1);
    }
  }

  lemma {:induction false} BitOfPow2(n: nat, k: nat)
    ensures Bit(Pow2(n), k) <==> n == k
  {
    if k == 0 {
    } else if n == 0 {
      BitOfZero(k - 1);
    } else {
      BitOfPow2(n - 1, k - 1);
    }
  }

  /** Shifting left by `d` moves every bit up by `d`. */
  lemma {:induction false} BitOfShift(x: nat, d: nat, k: nat)
    ensures Bit(x * Pow2(d), k) <==> k >= d && Bit(x, k - d)
    decreases d
  {
    if d > 0 {
      var y := x * Pow2(d - 1);
      assert x * Pow2(d) == 2 * y by { Regroup(x, Pow2(d - 1)); }
      if k > 0 {
        BitOfShift(x, d - 1, k - 1);
      }
    }
  }

  lemma Regroup(x: nat, p: nat)
    ensures x * (2 * p) == 2 * (x * p)
  {
  }

  /** Truncation to `n` bits drops the bits from `n` up and keeps the others. */
  lemma {:induction false} BitOfTruncation(x: nat, n: nat, k: nat)
    ensures Bit(x % Pow2(n), k) <==> k < n && Bit(x, k)
    decreases n
  {
    if n == 0 {
      BitOfZero(k);
    } else {
      ModHalf(x, n);
      if k > 0 {
        BitOfTruncation(x / 2, n - 1, k - 1);
      }
    }
  }

  lemma ModHalf(x: nat, n: nat)
    requires n > 0
    ensures x % Pow2(n) == 2 * (x / 2 % Pow2(n - 1)) + x % 2
    ensures x % Pow2(n) / 2 == x / 2 % Pow2(n - 1) && x % Pow2(n) % 2 == x % 2
  {
    var m := Pow2(n - 1);
    var q, r := x / 2 / m, x / 2 % m;
    assert x / 2 == q * m + r;
    assert x == q * (2 * m) + (2 * r + x % 2) by { Regroup(q, m); }
    ModUnique(x, 2 * m, q, 2 * r + x % 2);
  }

  /** Quotient and remainder are determined by their defining equation. */
  lemma ModUnique(x: int, m: int, q: int, r: int)
    requires m > 0 && x == q * m + r && 0 <= r < m
    ensures x / m == q && x % m == r
  {
    var k := q - x / m;
    assert x == x / m * m + x % m;
    Distribute(q, x / m, m);
    assert k * m == x % m - r;
    SmallMultiple(k, m);
  }

  lemma Distribute(a: int, b: int, m: int)
    ensures (a - b) * m == a * m - b * m
  {
  }

  lemma SmallMultiple(k: int, m: int)
    requires m > 0 && -m < k * m < m
    ensures k == 0
  {
    MulGrows(k, m);
  }

  lemma MulGrows(k: int, m: int)
    requires m > 0
    ensures k >= 1 ==> k * m >= m
    ensures k <= -1 ==> k * m <= -m
  {
    if k >= 1 {
      assert k * m == m + (k - 1) * m;
    } else if k <= -1 {
      assert k * m == (k + 1) * m - m;
    }
  }

  /** Equal bits mean equal numbers. */
  lemma {:induction false} BitsDetermine(x: nat, y: nat)
    requires forall k: nat :: Bit(x, k) <==> Bit(y, k)
    ensures x == y
    decreases x + y
  {
    assert Bit(x, 0) <==> Bit(y, 0);
    if x != 0 || y != 0 {
      forall k: nat ensures Bit(x / 2, k) <==> Bit(y / 2, k) {
        assert Bit(x, k + 1) <==> Bit(y, k + 1);
      }
      BitsDetermine(x / 2, y / 2);
    }
  }
}
