/** 32-bit words: bitwise operators, rotation and wrap-around addition. */
module Words {
  import opened Bytes
  import opened Bits

  lemma {:induction false} OrWidth(x: nat, y: nat, n: nat)
    requires x < Pow2(n) && y < Pow2(n)
    ensures Or(x, y) < Pow2(n)
    decreases n
  {
    if n > 0 && x != 0 && y != 0 {
      OrWidth(x / 2, y / 2, n - 1);
    }
  }

  lemma {:induction false} XorWidth(x: nat, y: nat, n: nat)
    requires x < Pow2(n) && y < Pow2(n)
    ensures Xor(x, y) < Pow2(n)
    decreases n
  {
    if n > 0 && x != 0 && y != 0 {
      XorWidth(x / 2, y / 2, n - 1);
    }
  }

  lemma {:induction false} AndWidth(x: nat, y: nat)
    ensures And(x, y) <= x
    decreases x
  {
    if x != 0 && y != 0 {
      AndWidth(x / 2, y / 2);
    }
  }

  lemma {:induction false} XorSelf(x: nat)
    ensures Xor(x, x) == 0
  {
    if x != 0 {
      XorSelf(x / 2);
    }
  }

  lemma {:induction false} XorCommutes(x: nat, y: nat)
    ensures Xor(x, y) == Xor(y, x)
    decreases x + y
  {
    if x != 0 && y != 0 {
      XorCommutes(x / 2, y / 2);
    }
  }

  function Odd(x: nat): bool { x % 2 == 1 }

  lemma XorStep(x: nat, y: nat)
    ensures Odd(Xor(x, y)) == (Odd(x) != Odd(y)) && Xor(x, y) / 2 == Xor(x / 2, y / 2)
  {
    hide Xor;
    if x == 0 || y == 0 {
      XorZero(x);
      XorZero(y);
      XorZero(x / 2);
      XorZero(y / 2);
    } else {
      hide Odd;
      XorBody(x, y);
      HalfOf(if Odd(x) != Odd(y) then 1 else 0, Xor(x / 2, y / 2));
    }
  }

  lemma XorBody(x: nat, y: nat)
    requires x != 0 && y != 0
    ensures Xor(x, y) == (if Odd(x) != Odd(y) then 1 else 0) + 2 * Xor(x / 2, y / 2)
  {
  }

  lemma HalfOf(b: nat, h: nat)
    requires b <= 1
    ensures (b + 2 * h) / 2 == h && Odd(b + 2 * h) == (b == 1)
  {
  }

  lemma OddHalf(x: nat, y: nat)
    requires Odd(x) == Odd(y) && x / 2 == y / 2
    ensures x == y
  {
  }

  lemma {:induction false} XorAssociates(x: nat, y: nat, z: nat)
    ensures Xor(Xor(x, y), z) == Xor(x, Xor(y, z))
    decreases x + y + z
  {
    if x + y + z > 0 {
      hide Xor, Odd;
      XorStep(x, y);
      XorStep(y, z);
      XorStep(Xor(x, y), z);
      XorStep(x, Xor(y, z));
      XorAssociates(x / 2, y / 2, z / 2);
      OddHalf(Xor(Xor(x, y), z), Xor(x, Xor(y, z)));
    }
  }

  /** Applying the same mask twice restores the value. */
  lemma XorTwice(x: nat, k: nat)
    ensures Xor(Xor(x, k), k) == x && Xor(k, Xor(x, k)) == x
  {
    hide Xor;
    XorAssociates(x, k, k);
    XorSelf(k);
    assert Xor(x, 0) == x by { XorZero(x); }
    XorCommutes(k, Xor(x, k));
  }

  lemma XorZero(x: nat)
    ensures Xor(x, 0) == x == Xor(0, x)
  {
  }

  lemma XorIsZero(x: nat, y: nat)
    ensures Xor(x, y) == 0 <==> x == y
  {
    hide Xor;
    XorSelf(x);
    XorTwice(x, y);
    XorZero(y);
  }

  /** Flipping all n bits is subtraction from all ones. */
  lemma {:induction false} XorOnes(x: nat, n: nat)
    requires x < Pow2(n)
    ensures Xor(x, Pow2(n) - 1) == Pow2(n) - 1 - x
    decreases n
  {
    if n == 0 {
      assert x == 0;
    } else {
      hide Xor, Pow2, Odd;
      var p := Pow2(n - 1);
      assert Pow2(n) == 2 * p by { Pow2Next(n - 1); }
      XorOnes(x / 2, n - 1);
      XorStep(x, 2 * p - 1);
      OnesHalf(p);
      Complement(x, p, Xor(x, 2 * p - 1));
    }
  }

  lemma OnesHalf(p: nat)
    requires p > 0
    ensures Odd(2 * p - 1) && (2 * p - 1) / 2 == p - 1
  {
  }

  lemma Complement(x: nat, p: nat, r: nat)
    requires x < 2 * p && Odd(r) == !Odd(x) && r / 2 == p - 1 - x / 2
    ensures r == 2 * p - 1 - x
  {
  }

  lemma OrZero(x: nat, y: nat)
    ensures Or(x, y) == 0 <==> x == 0 && y == 0
    decreases x + y
  {
  }

  function Or32(x: word32, y: word32): (r: word32)
    ensures r == Or(x, y)
  {
    assert Pow2(32) == 0x1_0000_0000 by { Pow2Values(); }
    OrWidth(x, y, 32);
    Or(x, y)
  }

  function Xor32(x: word32, y: word32): (r: word32)
    ensures r == Xor(x, y)
  {
    assert Pow2(32) == 0x1_0000_0000 by { Pow2Values(); }
    XorWidth(x, y, 32);
    Xor(x, y)
  }

  function Xor8(x: byte, y: byte): (r: byte)
    ensures r == Xor(x, y)
  {
    assert Pow2(8) == 0x100 by { Pow2Values(); }
    XorWidth(x, y, 8);
    Xor(x, y)
  }

  function Or8(x: byte, y: byte): (r: byte)
    ensures r == Or(x, y)
  {
    assert Pow2(8) == 0x100 by { Pow2Values(); }
    OrWidth(x, y, 8);
    Or(x, y)
  }

  function And32(x: word32, y: word32): (r: word32)
    ensures r == And(x, y)
  {
    AndWidth(x, y);
    And(x, y)
  }

  lemma {:induction false} OrCommutes(x: nat, y: nat)
    ensures Or(x, y) == Or(y, x)
    decreases x + y
  {
    if x != 0 && y != 0 {
      OrCommutes(x / 2, y / 2);
    }
  }

  /** Where no bit is set in both operands, exclusive and inclusive disjunction are the sum. */
  lemma {:induction false} XorDisjoint(a: nat, b: nat, k: nat)
    requires a < Pow2(k)
    ensures Xor(a, b * Pow2(k)) == a + b * Pow2(k)
    decreases k
  {
    if k > 0 && b > 0 && a > 0 {
      var p := Pow2(k - 1);
      XorDisjoint(a / 2, b, k - 1);
      hide Xor, Pow2;
      HalfProduct(b, p);
      assert Pow2(k) == 2 * p by { Pow2Next(k - 1); }
      XorHalves(a, b * Pow2(k));
    } else if k == 0 {
      assert a == 0;
    }
  }

  lemma Pow2Next(n: nat)
    ensures Pow2(n + 1) == 2 * Pow2(n)
  {
  }

  lemma HalfProduct(b: nat, p: nat)
    requires b > 0 && p > 0
    ensures b * (2 * p) > 0 && b * (2 * p) / 2 == b * p && b * (2 * p) % 2 == 0
  {
    var d := b * p;
    assert b * (2 * p) == 2 * d;
  }

  lemma XorHalves(x: nat, y: nat)
    requires x != 0 && y != 0 && y % 2 == 0
    ensures Xor(x, y) == x % 2 + 2 * Xor(x / 2, y / 2)
  {
  }

  // ---- arithmetic on words --------------------------------------------------------------------------

  function Plus(x: word32, y: word32): word32 { (x + y) % 0x1_0000_0000 }

  function Minus(x: word32, y: word32): word32 { (x - y) % 0x1_0000_0000 }

  lemma PlusMinus(x: word32, y: word32)
    ensures Minus(Plus(x, y), y) == x
  {
    if x + y >= 0x1_0000_0000 {
      assert Plus(x, y) == x + y - 0x1_0000_0000;
    }
  }

  /** Left rotation: the top n bits come out at the bottom. */
  function Rotated(v: word32, n: nat): (r: word32)
    requires 0 < n < 32
  {
    var up, down := Pow2(n), Pow2(32 - n);
    RotationFits(v, n);
    v % down * up + v / down
  }

  lemma RotationFits(v: word32, n: nat)
    requires 0 < n < 32
    ensures var up, down := Pow2(n), Pow2(32 - n);
            && up * down == 0x1_0000_0000 && v / down < up
            && 0 <= v % down * up && v % down * up + v / down < 0x1_0000_0000
  {
    hide Pow2;
    var up, down := Pow2(n), Pow2(32 - n);
    Pow2Sum(n, 32 - n);
    assert Pow2(32) == 0x1_0000_0000 by { Pow2Values(); }
    DivisionOf(v, down);
    QuotientBelow(v, down, v / down, v % down, up);
    PartsFit(v % down, down, up, v / down);
  }

  lemma DivisionOf(v: nat, d: nat)
    requires d > 0
    ensures v == d * (v / d) + v % d && v / d >= 0 && 0 <= v % d < d
  {
  }

  lemma {:induction false} Pow2Sum(m: nat, n: nat)
    ensures Pow2(m + n) == Pow2(m) * Pow2(n)
  {
    if n > 0 {
      Pow2Sum(m, n - 1);
      DoubleFactor(Pow2(m), Pow2(n - 1));
    }
  }

  lemma DoubleFactor(a: int, b: int)
    ensures a * (2 * b) == 2 * (a * b)
  {
  }

  lemma QuotientBelow(v: nat, d: nat, q: int, r: nat, up: nat)
    requires v == d * q + r && d > 0 && v < up * d
    ensures q < up
  {
    if q >= up {
      TimesGrows(d, up, q);
    }
  }

  lemma TimesGrows(d: nat, x: int, y: int)
    requires x <= y
    ensures d * x <= d * y
  {
  }

  lemma PartsFit(r: nat, d: nat, up: nat, q: nat)
    requires r < d && q < up
    ensures 0 <= r * up && r * up + q < up * d
  {
    assert (r + 1) * up <= d * up;
    assert (r + 1) * up == r * up + up;
  }

  lemma RotatedParts(v: word32, n: nat, q: nat, r: nat)
    requires 0 < n < 32 && v == q * Pow2(32 - n) + r && r < Pow2(32 - n)
    ensures Rotated(v, n) == r * Pow2(n) + q
  {
    hide Pow2;
    ModUnique(v, Pow2(32 - n), q, r);
  }

  /** Rotating the rest of the way round restores the word. */
  lemma RotateBack(v: word32, n: nat)
    requires 0 < n < 32
    ensures Rotated(Rotated(v, n), 32 - n) == v
  {
    hide Pow2, Rotated;
    var down := Pow2(32 - n);
    RotationFits(v, n);
    var q, r := v / down, v % down;
    RotatedParts(v, n, q, r);
    RotatedParts(Rotated(v, n), 32 - n, r, q);
  }

  /** v << n, in 32 bits. */
  function Shl32(v: word32, n: nat): (r: word32)
  {
    ProductNonNegative(v, Pow2(n));
    v * Pow2(n) % 0x1_0000_0000
  }

  /** v >> n */
  function Shr32(v: word32, n: nat): (r: word32)
  {
    QuotientFits(v, Pow2(n));
    v / Pow2(n)
  }

  lemma ProductNonNegative(a: nat, b: nat)
    ensures a * b >= 0
  {
  }

  lemma QuotientFits(v: nat, d: nat)
    requires d > 0
    ensures 0 <= v / d <= v
  {
    DivisionOf(v, d);
    TimesGrows(v / d, 1, d);
  }

  /** The two shifts leave the two parts of a rotation, in place. */
  lemma ShiftParts(v: word32, n: nat)
    requires 0 < n < 32
    ensures var down := Pow2(32 - n);
            && Shl32(v, n) == v % down * Pow2(n) && Shr32(v, 32 - n) == v / down < Pow2(n)
            && Rotated(v, n) == v % down * Pow2(n) + v / down
  {
    hide Pow2;
    RotationFits(v, n);
    ShiftedOut(v, Pow2(n), Pow2(32 - n));
  }

  /** (v << n) | (v >> (32 - n)) */
  function Rotl32(v: word32, n: nat): (r: word32)
    requires 0 < n < 32
    ensures r == Rotated(v, n)
  {
    RotatedBits(v, n);
    Or32(Shl32(v, n), Shr32(v, 32 - n))
  }

  lemma RotatedBits(v: word32, n: nat)
    requires 0 < n < 32
    ensures Or32(Shl32(v, n), Shr32(v, 32 - n)) == Rotated(v, n)
  {
    hide Or, Pow2, Rotated, Shl32, Shr32;
    var down := Pow2(32 - n);
    ShiftParts(v, n);
    OrCommutes(Shl32(v, n), Shr32(v, 32 - n));
    OrDisjoint(v / down, v % down, n);
  }

  /** (v >> n) ^ (v << (32 - n)) */
  function Rotr32(v: word32, n: nat): (r: word32)
    requires 0 < n < 32
    ensures r == Rotated(v, 32 - n)
  {
    RotatedXor(v, n);
    Xor32(Shr32(v, n), Shl32(v, 32 - n))
  }

  lemma RotatedXor(v: word32, n: nat)
    requires 0 < n < 32
    ensures Xor32(Shr32(v, n), Shl32(v, 32 - n)) == Rotated(v, 32 - n)
  {
    hide Xor, Pow2, Rotated, Shl32, Shr32;
    var down := Pow2(n);
    ShiftParts(v, 32 - n);
    XorDisjoint(v / down, v % down, 32 - n);
  }

  lemma ShiftedOut(v: nat, up: nat, down: nat)
    requires up > 0 && down > 0 && up * down == 0x1_0000_0000
    ensures v * up % 0x1_0000_0000 == v % down * up
  {
    var q, r := v / down, v % down;
    assert v == q * down + r;
    assert v * up == q * (up * down) + r * up by { SplitShift(q, down, r, up); }
    PartsFit(r, down, up, 0);
    ModUnique(v * up, 0x1_0000_0000, q, r * up);
  }

  lemma SplitShift(q: int, d: int, r: int, u: int)
    ensures (q * d + r) * u == q * (u * d) + r * u
  {
    assert (q * d + r) * u == (q * d) * u + r * u;
    assert (q * d) * u == q * (u * d);
  }

  // ---- sixteen-word states, and words as octets ---------------------------------------------------

  type State = s: seq<word32> | |s| == 16 witness seq(16, _ => 0)

  datatype Four = Four(a: word32, b: word32, c: word32, d: word32)

  predicate Apart(i: nat, j: nat, k: nat, l: nat) {
    i < 16 && j < 16 && k < 16 && l < 16 && i != j && i != k && i != l && j != k && j != l && k != l
  }

  function Serialize(s: seq<word32>): (r: seq<byte>)
    ensures |r| == 4 * |s|
  {
    if s == [] then [] else Serialize(s[..|s| - 1]) + Le32(s[|s| - 1])
  }

  lemma SerializeNone()
    ensures Serialize([]) == []
  {
  }

  lemma SerializeNext(s: seq<word32>, i: nat)
    requires i < |s|
    ensures Serialize(s[..i + 1]) == Serialize(s[..i]) + Le32(s[i])
  {
    assert s[..i + 1][..i] == s[..i];
  }
}
