/** X25519 from octets to octets: scalar bits, the 256-step loop, inversion, encoding. */
module X25519 {
  import opened Bytes
  import opened Congruence
  import opened Bits
  import opened Words
  import opened Octets
  import opened Field25519
  import opened Ops25519
  import opened Ladder25519

  // ---- powers ---------------------------------------------------------------------------------------

  function FPow(z: int, n: nat): int { if n == 0 then 1 else FMul(z, FPow(z, n - 1)) }

  /** Section 5 of RFC 7748 on a decoded scalar and coordinate: x2 * z2^(p - 2). */
  function ScalarMult(k: nat, u: int): int {
    var q := Ladder(Res(u), k, 0);
    FMul(q.x2, FPow(q.z2, P - 2))
  }

  lemma FMulAssociates(a: int, b: int, c: int)
    ensures FMul(FMul(a, b), c) == FMul(a, FMul(b, c))
  {
    hide Res;
    ResTwice(c);
    ResTwice(a);
    ResMul(a * b, c);
    ResMul(a, b * c);
    ResMulLeft(Res(a * b), c);
    ResMulRight(a, Res(b * c));
    assert a * b * c == a * (b * c);
  }

  lemma ResTwice(a: int)
    ensures Res(Res(a)) == Res(a)
  {
  }

  lemma ResMulLeft(a: int, c: int)
    ensures FMul(a, c) == FMul(Res(a), Res(c)) && FMul(a, Res(c)) == FMul(a, c)
  {
    hide Res, FMul;
    ResMul(a, c);
    ResMul(a, Res(c));
    ResTwice(c);
    assert FMul(a, c) == Res(a * c) by { FMulIs(a, c); }
    assert FMul(a, Res(c)) == Res(a * Res(c)) by { FMulIs(a, Res(c)); }
  }

  lemma ResMulRight(a: int, c: int)
    ensures FMul(a, c) == FMul(Res(a), Res(c)) && FMul(Res(a), c) == FMul(a, c)
  {
    hide Res, FMul;
    ResMul(a, c);
    ResMul(Res(a), c);
    ResTwice(a);
    assert FMul(a, c) == Res(a * c) by { FMulIs(a, c); }
    assert FMul(Res(a), c) == Res(Res(a) * c) by { FMulIs(Res(a), c); }
  }

  lemma FMulIs(a: int, b: int)
    ensures FMul(a, b) == Res(a * b)
  {
  }

  lemma PowStep(z: int, n: nat)
    ensures FPow(z, n + 1) == FMul(z, FPow(z, n))
  {
  }

  lemma PowRange(z: int, n: nat)
    ensures 0 <= FPow(z, n) < P
  {
  }

  lemma {:induction false} PowAdd(z: int, m: nat, n: nat)
    ensures FMul(FPow(z, m), FPow(z, n)) == FPow(z, m + n)
    decreases m
  {
    if m == 0 {
      PowRange(z, n);
      ResSmall(FPow(z, n));
    } else {
      hide FPow, FMul;
      PowAdd(z, m - 1, n);
      PowStep(z, m - 1);
      PowStep(z, m - 1 + n);
      FMulAssociates(z, FPow(z, m - 1), FPow(z, n));
    }
  }

  // ---- the inversion chain -----------------------------------------------------------------------------

  datatype Row = Row(a: nat, c: nat, n: nat)

  /** Square the previous result n times into slot a, then multiply by slot c. */
  const ROWS: seq<Row> := [
    Row(2, 1, 1), Row(2, 1, 1), Row(4, 2, 3), Row(2, 4, 6), Row(3, 1, 1), Row(3, 2, 12), Row(4, 3, 25),
    Row(2, 3, 25), Row(2, 4, 50), Row(3, 2, 125), Row(3, 1, 2), Row(3, 1, 2), Row(3, 1, 1)
  ]

  predicate RowOk(r: Row) { 2 <= r.a < 5 && 1 <= r.c < 5 && r.c != r.a && 0 < r.n }

  lemma RowsOk()
    ensures |ROWS| == 13 && forall i :: 0 <= i < 13 ==> RowOk(ROWS[i])
  {
  }

  /** The exponent each slot holds; none for a slot still holding something else. */
  type Exponents = e: seq<Option<nat>> | |e| == 5 witness [None, None, None, None, None]

  datatype Progress = Progress(e: Exponents, prev: nat)

  /** Row i on exponents; nothing when a slot it reads is unknown. */
  function RowExponents(p: Progress, r: Row): Option<Progress>
    requires p.prev < 5 && RowOk(r)
  {
    if p.e[p.prev].None? || p.e[r.c].None? then None
    else Some(Progress(p.e[r.a := Some(p.e[p.prev].value * Pow2(r.n) + p.e[r.c].value)], r.a))
  }

  /** Only z2, in slot 1, is known at the start. */
  const START: Progress := Progress([None, Some(1), None, None, None], 1)

  /** Slots 2 and 3 and 4 as they are after each row. */
  function AfterRows(i: nat): (p: Progress)
    requires i <= 13
  {
    if i == 0 then START
    else if i == 1 then Progress([None, Some(1), Some(3), None, None], 2)
    else if i == 2 then Progress([None, Some(1), Some(7), None, None], 2)
    else if i == 3 then Progress([None, Some(1), Some(7), None, Some(63)], 4)
    else if i == 4 then Progress([None, Some(1), Some(0xFFF), None, Some(63)], 2)
    else if i == 5 then Progress([None, Some(1), Some(0xFFF), Some(0x1FFF), Some(63)], 3)
    else if i == 6 then Progress([None, Some(1), Some(0xFFF), Some(0x1FF_FFFF), Some(63)], 3)
    else if i == 7 then Progress([None, Some(1), Some(0xFFF), Some(0x1FF_FFFF), Some(E50)], 4)
    else if i == 8 then Progress([None, Some(1), Some(E75), Some(0x1FF_FFFF), Some(E50)], 2)
    else if i == 9 then Progress([None, Some(1), Some(E125), Some(0x1FF_FFFF), Some(E50)], 2)
    else if i == 10 then Progress([None, Some(1), Some(E125), Some(E250), Some(E50)], 3)
    else if i == 11 then Progress([None, Some(1), Some(E125), Some(4 * E250 + 1), Some(E50)], 3)
    else if i == 12 then Progress([None, Some(1), Some(E125), Some(16 * E250 + 5), Some(E50)], 3)
    else Progress([None, Some(1), Some(E125), Some(P - 2), Some(E50)], 3)
  }

  const E50: nat := 0x3_FFFF_FFFF_FFFF
  const E75: nat := 0x7FF_FFFF_FFFF_FFFF_FFFF
  const E125: nat := 0x1FFF_FFFF_FFFF_FFFF_FFFF_FFFF_FFFF_FFFF
  const E250: nat := 0x3FF_FFFF_FFFF_FFFF_FFFF_FFFF_FFFF_FFFF_FFFF_FFFF_FFFF_FFFF_FFFF_FFFF_FFFF_FFFF

  lemma BigPowers()
    ensures Pow2(1) == 2 && Pow2(2) == 4 && Pow2(3) == 8 && Pow2(6) == 64 && Pow2(12) == 0x1000
    ensures Pow2(25) == 0x200_0000 && Pow2(50) == E50 + 1 && Pow2(125) == E125 + 1
  {
    hide Pow2;
    Pow2One();
    Pow2Sum(1, 1);
    Pow2Sum(1, 2);
    Pow2Sum(3, 3);
    Pow2Sum(6, 6);
    Pow2Sum(12, 12);
    Pow2Sum(24, 1);
    Pow2Sum(25, 25);
    Pow2Sum(50, 50);
    Pow2Sum(100, 25);
  }

  lemma Pow2One()
    ensures Pow2(1) == 2
  {
  }

  /** Each row of the table takes the exponents to the next ones, reading only slots that are known. */
  lemma ChainRow(i: nat)
    requires i < 13
    ensures AfterRows(i).prev < 5 && RowOk(ROWS[i]) && RowExponents(AfterRows(i), ROWS[i]) == Some(AfterRows(i + 1))
  {
    hide Pow2;
    BigPowers();
    var p, r := AfterRows(i), ROWS[i];
    assert RowOk(r) by { RowsOk(); }
    var next := Some(p.e[p.prev].value * Pow2(r.n) + p.e[r.c].value);
    assert next == AfterRows(i + 1).e[r.a];
    assert p.e[r.a := next] == AfterRows(i + 1).e;
  }

  /** The slots hold the powers of z that the exponents say. */
  ghost predicate Holds(xs: seq<array<word32>>, z: int, e: Exponents)
    requires Separate(xs)
    reads xs
  {
    forall k :: 0 <= k < 5 && e[k].Some? ==> At(xs, k) == FPow(z, e[k].value)
  }

  /** n squarings: the exponent is multiplied by 2^n. */
  method SquareTimes(xs: seq<array<word32>>, a: nat, prev0: nat, n: nat, ghost z: int, ghost m: nat)
    requires Separate(xs) && a < 5 && prev0 < 5 && n > 0 && At(xs, prev0) == FPow(z, m)
    modifies xs[a]
    ensures At(xs, a) == FPow(z, m * Pow2(n))
  {
    hide Elem, FMul, FPow, Pow2;
    var prev, j := prev0, n;
    ghost var e := m;
    assert m * Pow2(0) == m by { TimesOne(m); }
    while j > 0
      invariant 0 <= j <= n && prev < 5 && (j < n ==> prev == a)
      invariant e == m * Pow2(n - j) && At(xs, prev) == FPow(z, e)
    {
      Sqr(xs[a], xs[prev]);
      PowAdd(z, e, e);
      prev := a;
      DoubleStep(m, n - j);
      e := e + e;
      j := j - 1;
    }
  }

  lemma TimesOne(m: nat)
    ensures m * Pow2(0) == m
  {
  }

  lemma DoubleStep(m: nat, i: nat)
    ensures m * Pow2(i + 1) == m * Pow2(i) + m * Pow2(i)
  {
    assert m * (2 * Pow2(i)) == 2 * (m * Pow2(i));
  }

  /** The table raises z2 to p - 2, whatever z2 is and although slots 2, 3 and 4 are overwritten on the way. */
  method Invert(xs: seq<array<word32>>)
    requires Separate(xs)
    modifies xs[2], xs[3], xs[4]
    ensures At(xs, 3) == FPow(old(At(xs, 1)), P - 2)
  {
    hide Elem, FMul, FPow, Pow2, AfterRows, Val;
    ghost var z := At(xs, 1);
    var prev, i := 1, 0;
    RowsOk();
    StartHolds(xs, z);
    while i < 13
      invariant 0 <= i <= 13 && prev == AfterRows(i).prev < 5 && Holds(xs, z, AfterRows(i).e)
    {
      var a, c, n := ROWS[i].a, ROWS[i].c, ROWS[i].n;
      ghost var p := AfterRows(i);
      ChainRow(i);
      ghost var m, l := p.e[prev].value, p.e[c].value;
      SquareTimes(xs, a, prev, n, z, m);
      MulInto(xs[a], xs[c]);
      PowAdd(z, l, m * Pow2(n));
      prev := a;
      i := i + 1;
    }
    LastRow();
  }

  lemma StartHolds(xs: seq<array<word32>>, z: int)
    requires Separate(xs) && z == At(xs, 1)
    ensures AfterRows(0).prev == 1 && Holds(xs, z, AfterRows(0).e)
  {
    hide FMul;
    PowOne(Elem(xs[1][..]));
  }

  lemma PowOne(z: int)
    requires 0 <= z < P
    ensures FPow(z, 1) == z
  {
    assert FPow(z, 0) == 1;
    assert FMul(z, 1) == z by { ResSmall(z); }
  }

  lemma LastRow()
    ensures AfterRows(13).e[3] == Some(P - 2)
  {
  }

  // ---- scalars ----------------------------------------------------------------------------------------

  /** Decoding of a scalar in section 5 of RFC 7748: three low bits clear, bit 254 set, bit 255 clear. */
  function ClampScalarOctet(i: nat, b: byte): byte {
    if i == 0 then b / 8 * 8 else if i == 31 then b % 64 + 64 else b
  }

  function ScalarOctets(s: seq<byte>, clamp: bool): (t: seq<byte>)
    requires |s| == 32
    ensures |t| == 32
  {
    if clamp then seq(32, i requires 0 <= i < 32 => ClampScalarOctet(i, s[i])) else s
  }

  function Scalar(s: seq<byte>, clamp: bool): nat
    requires |s| == 32
  {
    Num(ScalarOctets(s, clamp))
  }

  lemma {:induction false} BitSplit(l: nat, h: nat, n: nat, i: nat)
    requires l < Pow2(n)
    ensures Bit(l + Pow2(n) * h, i) == if i < n then Bit(l, i) else Bit(h, i - n)
    decreases n
  {
    if n > 0 {
      var p := Pow2(n - 1);
      HalveSplit(l, h, p);
      if i > 0 {
        BitSplit(l / 2, h, n - 1, i - 1);
      }
    }
  }

  lemma HalveSplit(l: nat, h: nat, p: nat)
    ensures (l + 2 * p * h) / 2 == l / 2 + p * h && (l + 2 * p * h) % 2 == l % 2
  {
    var d := p * h;
    assert 2 * p * h == 2 * d;
  }

  /** Bit i of a number is bit i % 8 of its octet i / 8. */
  lemma {:induction false} BitOfNum(s: seq<byte>, i: nat)
    requires i < 8 * |s|
    ensures Bit(Num(s), i) == Bit(s[i / 8], i % 8)
    decreases |s|
  {
    hide Bit;
    assert Pow2(8) == 256 by { Pow2Values(); }
    BitSplit(s[0], Num(s[1..]), 8, i);
    if i >= 8 {
      BitOfNum(s[1..], i - 8);
      NextOctet(i);
    }
  }

  lemma NextOctet(i: nat)
    requires i >= 8
    ensures (i - 8) / 8 == i / 8 - 1 && (i - 8) % 8 == i % 8
  {
  }

  /** The octet the loop looks at, clamped on the fly. */
  function ScalarByte(s: seq<byte>, clamp: bool, j: nat): (b: byte)
    requires |s| == 32 && j < 32
    ensures b == ScalarOctets(s, clamp)[j]
  {
    if !clamp then s[j]
    else if j == 0 then ClearLow(s[j])
    else if j == 31 then SetTop(s[j])
    else s[j]
  }

  function ClearLow(b: byte): (r: byte)
    ensures r == b / 8 * 8
  {
    ClearLowIs(b, 0xF8);
    And(b, 0xF8)
  }

  lemma ClearLowIs(b: byte, m: nat)
    requires m == 0xF8
    ensures And(b, m) == b / 8 * 8
  {
    hide And, Pow2, Low, High;
    AndSplit(b, m, 3);
    LowHigh3(b);
    LowHigh3(m);
    MaskOnes(b / 8, 5);
    AndZero(b % 8);
  }

  lemma LowHigh3(x: nat)
    ensures Low(x, 3) == x % 8 && High(x, 3) == x / 8 && Pow2(3) == 8
  {
    hide Low, High, Pow2;
    HighLow(x, 3);
    BigPowers();
  }

  lemma MaskOnes(x: nat, n: nat)
    requires n == 5 && x < 32
    ensures And(x, 31) == x
  {
    hide And, Pow2;
    Pow2Sum(2, 3);
    BigPowers();
    AndOnes(x, n);
  }

  function SetTop(b: byte): (r: byte)
    ensures r == b % 64 + 64
  {
    SetTopIs(b, 0x40);
    Or(And(b, 0x7F), 0x40)
  }

  lemma SetTopIs(b: byte, m: nat)
    requires m == 0x40
    ensures Or(And(b, 0x7F), m) == b % 64 + 64
  {
    hide And, Or;
    LowSeven(b, 7);
    TopSet(b % 128, m);
    LowSix(b);
  }

  lemma LowSix(b: byte)
    ensures b % 128 % 64 == b % 64
  {
  }

  lemma LowSeven(b: byte, n: nat)
    requires n == 7
    ensures And(b, 0x7F) == b % 128
  {
    hide And, Pow2;
    Pow2Sum(6, 1);
    BigPowers();
    AndOnes(b, n);
  }

  lemma TopSet(x: nat, m: nat)
    requires x < 128 && m == 64
    ensures Or(x, m) == x % 64 + 64
  {
    hide Or, Pow2;
    BigPowers();
    if x < 64 {
      OrDisjoint(x, 1, 6);
    } else {
      OrOver(x - 64, 1, 6);
    }
  }

  /** Setting bits that are already set changes nothing. */
  lemma {:induction false} OrOver(l: nat, h: nat, k: nat)
    requires l < Pow2(k)
    ensures Or(l + Pow2(k) * h, Pow2(k) * h) == l + Pow2(k) * h
    decreases k
  {
    hide Or, Pow2;
    if k == 0 {
      Pow2Zero();
      OrSelf(h);
    } else if h == 0 {
      OrNothing(l);
    } else {
      var p := Pow2(k - 1);
      Pow2Next(k - 1);
      HalfBelow(l, p);
      OrOver(l / 2, h, k - 1);
      HalveSplit(l, h, p);
      HalveSplit(0, h, p);
      PositiveProduct(p, h);
      OrStep(l + 2 * p * h, 2 * p * h);
    }
  }

  lemma OrNothing(x: nat)
    ensures Or(x, 0) == x
  {
  }

  lemma HalfBelow(l: nat, p: nat)
    requires l < 2 * p
    ensures l / 2 < p
  {
  }

  lemma PositiveProduct(p: nat, h: nat)
    requires p > 0 && h > 0
    ensures 2 * p * h > 0
  {
  }

  lemma OrStep(x: nat, y: nat)
    requires x != 0 && y % 2 == 0
    ensures Or(x, y) == x % 2 + 2 * Or(x / 2, y / 2)
  {
  }

  lemma {:induction false} OrSelf(x: nat)
    ensures Or(x, x) == x
  {
    if x != 0 {
      OrSelf(x / 2);
    }
  }

  /** The bit the loop extracts at step i is bit i of the scalar of section 5. */
  lemma LoopBit(s: seq<byte>, clamp: bool, i: nat)
    requires |s| == 32 && i < 256
    ensures (ScalarByte(s, clamp, i / 8) / Pow2(i % 8) % 2 == 1) == Bit(Scalar(s, clamp), i)
  {
    hide Bit, ScalarByte, ScalarOctets;
    BitOfNum(ScalarOctets(s, clamp), i);
    BitIsQuotient(ScalarByte(s, clamp, i / 8), i % 8);
  }

  lemma BitIsQuotient(x: nat, k: nat)
    ensures Bit(x, k) == (x / Pow2(k) % 2 == 1)
  {
    hide Pow2;
    HighLow(x, k);
    BitOfHigh(x, k);
  }

  lemma {:induction false} BitOfHigh(x: nat, k: nat)
    ensures Bit(x, k) == (High(x, k) % 2 == 1)
    decreases k
  {
    if k > 0 {
      BitOfHigh(x / 2, k - 1);
    }
  }

  // ---- limbs and octets ----------------------------------------------------------------------------------

  lemma {:induction false} ScalePow(i: nat)
    ensures Scale(4 * i) == PowB(i)
  {
    if i > 0 {
      hide Scale, PowB;
      ScalePow(i - 1);
      ScaleStep(4 * i - 1); ScaleStep(4 * i - 2); ScaleStep(4 * i - 3); ScaleStep(4 * i - 4);
      PowBStep(i - 1);
    } else {
      assert Scale(0) == 1 == PowB(0);
    }
  }

  lemma WordOfPrefix(s: seq<byte>, n: nat, at: nat)
    requires at + 4 <= n <= |s|
    ensures FromLe32(s, at) == FromLe32(s[..n], at)
  {
    var w := s[at..at + 4];
    FromLe32InContext(s, at, w);
    assert s[..n][at..at + 4] == w;
    FromLe32InContext(s[..n], at, w);
  }

  /** Limbs read from octets stand for the same number. */
  lemma {:induction false} LimbsOfOctets(x: seq<word32>, s: seq<byte>)
    requires |s| == 4 * |x| && forall i :: 0 <= i < |x| ==> x[i] == FromLe32(s, 4 * i)
    ensures Val(x) == Num(s)
  {
    if x != [] {
      hide Val, Num, PowB, Scale, FromLe32;
      var n := |x| - 1;
      var lo, hi := s[..4 * n], s[4 * n..];
      assert s == lo + hi && x == x[..n] + [x[n]];
      forall i | 0 <= i < n ensures x[..n][i] == FromLe32(lo, 4 * i) {
        WordOfPrefix(s, 4 * n, 4 * i);
      }
      LimbsOfOctets(x[..n], lo);
      NumAppend(lo, hi);
      ValSnoc(x[..n], x[n]);
      ScalePow(n);
      assert hi == s[4 * n..4 * n + 4];
      WordAtOffset(s, 4 * n);
    } else {
      NoLimbs();
    }
  }

  /** Reads eight little-endian limbs. */
  method SwapIn(x: array<word32>, s: seq<byte>)
    requires x.Length == 8 && |s| == 32
    modifies x
    ensures Val(x[..]) == Num(s)
  {
    hide Val, Num, FromLe32;
    for i := 0 to 8
      invariant forall k :: 0 <= k < i ==> x[k] == FromLe32(s, 4 * k)
    {
      x[i] := FromLe32(s, 4 * i);
    }
    LimbsOfOctets(x[..], s);
  }

  function OctetsOf(x: seq<word32>): (s: seq<byte>)
    ensures |s| == 4 * |x| && forall i :: 0 <= i < |x| ==> s[4 * i..4 * i + 4] == Le32(x[i])
  {
    if x == [] then [] else
      var n := |x| - 1;
      var lo := OctetsOf(x[..n]);
      var s := lo + Le32(x[n]);
      assert forall i :: 0 <= i < n ==> s[4 * i..4 * i + 4] == lo[4 * i..4 * i + 4];
      s
  }

  lemma WordBack(x: seq<word32>, i: nat)
    requires i < |x|
    ensures FromLe32(OctetsOf(x), 4 * i) == x[i]
  {
    hide OctetsOf, Le32, FromLe32;
    FromLe32InContext(OctetsOf(x), 4 * i, Le32(x[i]));
    Le32RoundTrip(x[i]);
  }

  /** Writes eight little-endian limbs. */
  method SwapOut(out: array<byte>, x: seq<word32>)
    requires out.Length == 32 && |x| == 8
    modifies out
    ensures Num(out[..]) == Val(x)
  {
    hide Val, Num, FromLe32, Le32;
    var s := OctetsOf(x);
    forall i | 0 <= i < 32 {
      out[i] := s[i];
    }
    assert out[..] == s;
    forall i | 0 <= i < |x| ensures x[i] == FromLe32(s, 4 * i) {
      WordBack(x, i);
    }
    LimbsOfOctets(x, s);
  }

  // ---- the function -----------------------------------------------------------------------------------------

  /** condswap on two adjacent elements each: (x2, z2) with (x3, z3). */
  method SwapPoints(xs: seq<array<word32>>, mask: word32)
    requires Separate(xs) && (mask == 0 || mask == ONES)
    modifies xs[0], xs[1], xs[2], xs[3]
    ensures Points(xs) == if mask == 0 then old(Points(xs)) else Swapped(old(Points(xs)))
    ensures old(Reduced(xs[1]) && Reduced(xs[3])) ==> Reduced(xs[1]) && Reduced(xs[3])
  {
    hide Elem, Val;
    CondSwap(xs[0], xs[2], mask);
    CondSwap(xs[1], xs[3], mask);
  }

  /** The state of the code: the branching ladder's, exchanged while the last bit was set. */
  ghost predicate Delayed(xs: seq<array<word32>>, swap: word32, q: Quad)
    requires Separate(xs)
    reads xs
  {
    && Reduced(xs[1]) && Reduced(xs[3])
    && (swap == 0 || swap == ONES)
    && Points(xs) == if swap == 0 then q else Swapped(q)
  }

  /** 256 steps with delayed swaps leave what the branching ladder computes. */
  method Core(xs: seq<array<word32>>, scalar: seq<byte>, x1: array<word32>, clamp: bool)
    requires Separate(xs) && |scalar| == 32 && x1.Length == 8 && x1 !in xs
    modifies xs[0], xs[1], xs[2], xs[3], xs[4]
    ensures Points(xs) == Ladder(Elem(x1[..]), Scalar(scalar, clamp), 0)
  {
    hide Elem, Val, Ladder, Step, Scalar, Bit, ScalarByte, Pow2, Xor;
    ghost var u, k := Elem(x1[..]), Scalar(scalar, clamp);
    var swap: word32 := 0;
    Prepare(xs, x1);
    assert Delayed(xs, swap, Ladder(u, k, 256)) by { LadderStart(u, k); }
    var i := 256;
    while i > 0
      invariant 0 <= i <= 256 && x1[..] == old(x1[..])
      invariant Delayed(xs, swap, Ladder(u, k, i))
    {
      i := i - 1;
      var bytei := ScalarByte(scalar, clamp, i / 8);
      var bit := bytei / Pow2(i % 8) % 2;
      LoopBit(scalar, clamp, i);
      var doswap: word32 := (0 - bit) % 0x1_0000_0000;
      assert doswap == Mask(bit == 1);
      MaskXor(swap != 0, doswap != 0);
      SwapPoints(xs, Xor32(swap, doswap));
      swap := doswap;
      LadderStep(xs, x1);
      LadderNext(u, k, i);
    }
    SwapPoints(xs, swap);
  }

  /** The points the loop starts from: (1 : 0) and (x1 : 1). */
  method Prepare(xs: seq<array<word32>>, x1: array<word32>)
    requires Separate(xs) && x1.Length == 8 && x1 !in xs
    modifies xs[0], xs[1], xs[2], xs[3]
    ensures Points(xs) == Quad(1, 0, Elem(x1[..]), 1) && Reduced(xs[1]) && Reduced(xs[3])
  {
    hide Elem, Val;
    assert x1 != xs[0] && x1 != xs[1] && x1 != xs[2] && x1 != xs[3];
    SetSmall(xs[0], 1);
    SetSmall(xs[1], 0);
    SetSmall(xs[3], 1);
    forall j | 0 <= j < 8 {
      xs[2][j] := x1[j];
    }
    assert xs[2][..] == x1[..];
  }

  method SetSmall(x: array<word32>, w: word32)
    requires x.Length == 8 && w <= 1
    modifies x
    ensures Elem(x[..]) == w && Reduced(x)
  {
    hide Val, PowB;
    forall j | 0 <= j < 8 {
      x[j] := 0;
    }
    x[0] := w;
    ValZeros(x[..], 1);
    assert x[..][..1] == [] + [w];
    ValSnoc([], w);
    NoLimbs();
    assert PowB(0) == 1 by { PowBValues(); }
    ResSmall(w);
  }

  lemma LadderStart(u: int, k: nat)
    ensures Ladder(u, k, 256) == Quad(1, 0, u, 1)
  {
  }

  lemma LadderNext(u: int, k: nat, i: nat)
    requires i < 256
    ensures Ladder(u, k, i) == BranchStep(u, Bit(k, i), Ladder(u, k, i + 1))
  {
  }

  /** out := scalar * x1, and -1 for an all-zero result when clamping; `out` may be one of the inputs. */
  method Multiply(out: array<byte>, scalar: array<byte>, x1: array<byte>, clamp: bool) returns (ret: int)
    requires out.Length == scalar.Length == x1.Length == 32
    modifies out
    ensures Num(out[..]) == ScalarMult(old(Scalar(scalar[..], clamp)), old(Num(x1[..])))
    ensures ret == if clamp && Num(out[..]) == 0 then -1 else 0
  {
    hide Val, Num, Ladder, Scalar, FPow, FMul, Res;
    ghost var k, n := Scalar(scalar[..], clamp), Num(x1[..]);
    var u := new word32[8];
    var x2, z2, x3, z3, t1 := new word32[8], new word32[8], new word32[8], new word32[8], new word32[8];
    var xs := [x2, z2, x3, z3, t1];
    SwapIn(u, x1[..]);
    Core(xs, scalar[..], u, clamp);
    Invert(xs);
    MulInto(x2, z3);
    ghost var q := Ladder(Res(n), k, 0);
    FMulCommutes(q.x2, FPow(q.z2, P - 2));
    FMulReduced(q.x2, FPow(q.z2, P - 2));
    var zero := Canon(x2);
    SwapOut(out, x2[..]);
    var r := if zero == 0xFFFF_FFFF then -1 else 0;
    ret := if clamp then r else 0;
  }

  lemma FMulReduced(a: int, b: int)
    ensures 0 <= FMul(a, b) < P
  {
  }

  /**
   * Section 5 of RFC 7748 drops bit 255 of the coordinate; the code keeps it, and the two agree only when it is
   * clear.
   */
  lemma HighBitKept(n: nat)
    requires n < T256
    ensures Res(n) == Res(n % T255) <==> n < T255
  {
    if n >= T255 {
      var m := n - T255;
      assert n % T255 == m;
      assert n == P + (m + 19);
      hide Cong;
      ResIff(n, m);
      if Cong(n, m, P) {
        var c := CongCofactor(n, m, P);
      }
    }
  }
}
