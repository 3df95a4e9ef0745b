/**
 * The field modulo 2^255 - 19 on eight 32-bit limbs: carry chains that run in
 * place, even when the output is one of the operands.
 */
module Field25519 {
  import opened Bytes
  import opened Congruence
  import opened Bits

  const B: nat := 0x1_0000_0000
  const P: nat := 0x7FFF_FFFF_FFFF_FFFF_FFFF_FFFF_FFFF_FFFF_FFFF_FFFF_FFFF_FFFF_FFFF_FFFF_FFFF_FFED
  const T255: nat := 0x8000_0000_0000_0000_0000_0000_0000_0000_0000_0000_0000_0000_0000_0000_0000_0000
  const T256: nat := 0x1_0000_0000_0000_0000_0000_0000_0000_0000_0000_0000_0000_0000_0000_0000_0000_0000

  // ---- values --------------------------------------------------------------------------

  function PowB(n: nat): (p: nat)
    ensures p > 0
  {
    if n == 0 then 1 else B * PowB(n - 1)
  }

  lemma PowBStep(n: nat)
    ensures PowB(n + 1) == B * PowB(n)
  {
  }

  lemma PowBValues()
    ensures PowB(0) == 1 && PowB(1) == B && PowB(8) == T256 && PowB(7) * 0x8000_0000 == T255
  {
    assert PowB(2) == 0x1_0000_0000_0000_0000 && PowB(4) == 0x1_0000_0000_0000_0000_0000_0000_0000_0000;
    assert PowB(6) == 0x1_0000_0000_0000_0000_0000_0000_0000_0000_0000_0000_0000_0000;
  }

  /** Little-endian value of a string of limbs. */
  function Val(s: seq<word32>): (v: nat)
  {
    if s == [] then 0 else
    Nonneg(PowB(|s| - 1), s[|s| - 1]);
    Val(s[..|s| - 1]) + PowB(|s| - 1) * s[|s| - 1]
  }

  lemma Nonneg(a: nat, b: nat)
    ensures a * b >= 0
  {
  }

  lemma ValSnoc(s: seq<word32>, x: word32)
    ensures Val(s + [x]) == Val(s) + PowB(|s|) * x
  {
    assert (s + [x])[..|s|] == s;
  }

  lemma {:induction false} ValBound(s: seq<word32>)
    ensures Val(s) < PowB(|s|)
  {
    if s != [] {
      var n := |s| - 1;
      ValBound(s[..n]);
      TopBound(PowB(n), s[n]);
    }
  }

  lemma TopBound(p: nat, x: word32)
    requires p > 0
    ensures p + p * x <= B * p
  {
    assert p * x <= p * (B - 1);
  }

  // ---- congruence ------------------------------------------------------------------------

  /** The field element a value stands for. */
  function Res(v: int): (r: int)
    ensures 0 <= r < P
  {
    v % P
  }

  lemma ResIff(a: int, b: int)
    ensures Cong(a, b, P) <==> Res(a) == Res(b)
  {
    hide Cong;
    var q, r := a / P, b / P;
    assert a == P * q + Res(a) && b == P * r + Res(b);
    if Cong(a, b, P) {
      var k := CongCofactor(a, b, P);
      assert Res(a) - Res(b) == P * (k - q + r);
    }
    if Res(a) == Res(b) {
      CongByCofactor(a, b, q - r, P);
    }
  }

  function FAdd(a: int, b: int): int { Res(a + b) }
  function FSub(a: int, b: int): int { Res(a - b) }
  function FMul(a: int, b: int): int { Res(a * b) }

  /** Field operations do not care which representative they are given. */
  lemma ResAdd(a: int, b: int)
    ensures FAdd(Res(a), Res(b)) == Res(a + b) && FSub(Res(a), Res(b)) == Res(a - b)
  {
    hide Cong;
    var q, r := a / P, b / P;
    assert a == P * q + Res(a) && b == P * r + Res(b);
    CongByCofactor(Res(a) + Res(b), a + b, -q - r, P);
    ResIff(Res(a) + Res(b), a + b);
    CongByCofactor(Res(a) - Res(b), a - b, r - q, P);
    ResIff(Res(a) - Res(b), a - b);
  }

  lemma ResMul(a: int, b: int)
    ensures FMul(Res(a), Res(b)) == Res(a * b)
  {
    hide Cong;
    var q, r := a / P, b / P;
    var x, y := Res(a), Res(b);
    assert a == P * q + x && b == P * r + y;
    assert a * b == (P * q + x) * (P * r + y);
    ExpandProduct(P, q, x, r, y);
    CongByCofactor(x * y, a * b, -(q * (P * r) + q * y + x * r), P);
    ResIff(x * y, a * b);
  }

  lemma ExpandProduct(p: int, q: int, x: int, r: int, y: int)
    ensures (p * q + x) * (p * r + y) == x * y + p * (q * (p * r) + q * y + x * r)
  {
    assert (p * q + x) * (p * r + y) == (p * q) * (p * r) + (p * q) * y + x * (p * r) + x * y;
    assert (p * q) * (p * r) == p * (q * (p * r)) && (p * q) * y == p * (q * y) && x * (p * r) == p * (x * r);
  }

  // ---- carry chains -------------------------------------------------------------------------

  /** One position of a carry chain: what enters it equals what it stores plus what it passes on. */
  lemma ChainStep(v: int, c: int, p: int, t: int, r: int, c': int, s: int)
    requires v + c * p == s && c + t == r + B * c'
    ensures (v + p * r) + c' * (B * p) == s + p * t
  {
    assert p * r + c' * (B * p) == p * (r + B * c');
    assert p * (c + t) == c * p + p * t;
  }

  method Adc(carry: word32, acc: word32, mand: word32) returns (carry': word32, r: word32)
    ensures carry + acc + mand == r + B * carry' && carry' <= 2
  {
    var total: word64 := carry + acc + mand;
    carry', r := total / B, total % B;
  }

  /** The invariant of a chain that has stored `out[..i]` so far. */
  ghost predicate Chain(out: seq<word32>, i: nat, carry: int, s: int)
    requires i <= |out|
  {
    Val(out[..i]) + carry * PowB(i) == s
  }

  lemma ChainNext(before: seq<word32>, out: seq<word32>, i: nat, carry: int, s: int, t: int, carry': int)
    requires i < |before| == |out| && out[..i] == before[..i]
    requires Chain(before, i, carry, s) && carry + t == out[i] + B * carry'
    ensures Chain(out, i + 1, carry', s + PowB(i) * t)
  {
    hide Val, PowB;
    assert out[..i + 1] == out[..i] + [out[i]];
    ValSnoc(out[..i], out[i]);
    assert PowB(i + 1) == B * PowB(i) by { PowBStep(i); }
    ChainStep(Val(out[..i]), carry, PowB(i), t, out[i], carry', s);
  }

  /** out := a + b, the ninth limb returned as the carry; `out` may be `a` or `b`. */
  method AddLimbs(out: array<word32>, a: array<word32>, b: array<word32>) returns (carry: word32)
    requires out.Length == a.Length == b.Length == 8
    modifies out
    ensures Val(out[..]) + carry * T256 == old(Val(a[..]) + Val(b[..])) && carry <= 1
  {
    hide Val, PowB, Chain;
    ghost var a0, b0 := a[..], b[..];
    carry := 0;
    var i := 0;
    ChainStart(out[..], a0, b0);
    while i < 8
      invariant 0 <= i <= 8 && carry <= 1
      invariant a[i..] == a0[i..] && b[i..] == b0[i..]
      invariant Chain(out[..], i, carry, Val(a0[..i]) + Val(b0[..i]))
    {
      ghost var before := out[..];
      assert a[i] == a0[i] && b[i] == b0[i];
      var r;
      ghost var c := carry;
      carry, r := Adc(carry, a[i], b[i]);
      out[i] := r;
      ChainNext(before, out[..], i, c, Val(a0[..i]) + Val(b0[..i]), (a0[i] as int) + b0[i], carry);
      PrefixSum(a0, b0, i);
      i := i + 1;
    }
    ChainEnd(out[..], 8, carry, Val(a0[..8]) + Val(b0[..8]));
    assert a0[..8] == a0 && b0[..8] == b0;
    TopPlace(carry);
  }

  lemma ChainStart(out: seq<word32>, a: seq<word32>, b: seq<word32>)
    ensures Chain(out, 0, 0, Val(a[..0]) + Val(b[..0]))
  {
  }

  lemma PrefixSum(a: seq<word32>, b: seq<word32>, i: nat)
    requires i < |a| == |b|
    ensures Val(a[..i + 1]) + Val(b[..i + 1]) == Val(a[..i]) + Val(b[..i]) + PowB(i) * ((a[i] as int) + b[i])
  {
    hide Val, PowB;
    assert a[..i + 1] == a[..i] + [a[i]] && b[..i + 1] == b[..i] + [b[i]];
    ValSnoc(a[..i], a[i]);
    ValSnoc(b[..i], b[i]);
    assert PowB(i) * ((a[i] as int) + b[i]) == PowB(i) * a[i] + PowB(i) * b[i];
  }

  lemma TopPlace(c: int)
    ensures c * PowB(8) == c * T256
  {
    assert PowB(8) == T256 by { PowBValues(); }
  }

  lemma ChainEnd(out: seq<word32>, n: nat, carry: int, s: int)
    requires |out| == n && Chain(out, n, carry, s)
    ensures Val(out) + carry * PowB(n) == s
  {
    assert out[..n] == out;
  }

  /** out := a - b - 38, the borrow returned as a negative carry; `out` may be `a` or `b`. */
  method SubLimbs(out: array<word32>, a: array<word32>, b: array<word32>) returns (carry: int)
    requires out.Length == a.Length == b.Length == 8
    modifies out
    ensures Val(out[..]) + carry * T256 == old(Val(a[..]) - Val(b[..])) - 38 && -2 <= carry <= 0
  {
    hide Val, PowB, Chain;
    ghost var a0, b0 := a[..], b[..];
    carry := -38;
    var i := 0;
    SubStart(out[..], a0, b0);
    while i < 8
      invariant 0 <= i <= 8 && -38 <= carry <= 0 && (i > 0 ==> -2 <= carry)
      invariant a[i..] == a0[i..] && b[i..] == b0[i..]
      invariant Chain(out[..], i, carry, Val(a0[..i]) - Val(b0[..i]) - 38)
    {
      ghost var before := out[..];
      assert a[i] == a0[i] && b[i] == b0[i];
      ghost var c := carry;
      var t := carry + a[i] - b[i];
      carry := t / B;
      out[i] := t % B;
      ChainNext(before, out[..], i, c, Val(a0[..i]) - Val(b0[..i]) - 38, (a0[i] as int) - b0[i], carry);
      PrefixDifference(a0, b0, i);
      i := i + 1;
    }
    ChainEnd(out[..], 8, carry, Val(a0[..8]) - Val(b0[..8]) - 38);
    assert a0[..8] == a0 && b0[..8] == b0;
    TopPlace(carry);
  }

  lemma SubStart(out: seq<word32>, a: seq<word32>, b: seq<word32>)
    ensures Chain(out, 0, -38, Val(a[..0]) - Val(b[..0]) - 38)
  {
  }

  lemma PrefixDifference(a: seq<word32>, b: seq<word32>, i: nat)
    requires i < |a| == |b|
    ensures Val(a[..i + 1]) - Val(b[..i + 1]) == Val(a[..i]) - Val(b[..i]) + PowB(i) * ((a[i] as int) - b[i])
  {
    hide Val, PowB;
    assert a[..i + 1] == a[..i] + [a[i]] && b[..i + 1] == b[..i] + [b[i]];
    ValSnoc(a[..i], a[i]);
    ValSnoc(b[..i], b[i]);
    assert PowB(i) * ((a[i] as int) - b[i]) == PowB(i) * a[i] - PowB(i) * b[i];
  }

  /** x := x + c0 in place, for a small signed c0. */
  method AddSmall(x: array<word32>, c0: int) returns (carry: int)
    requires x.Length == 8 && -0x1_0000_0000 < c0 < 0x1_0000_0000
    modifies x
    ensures Val(x[..]) + carry * T256 == old(Val(x[..])) + c0
  {
    hide Val, PowB, Chain;
    ghost var x0 := x[..];
    carry := c0;
    var i := 0;
    SmallStart(x[..], x0, c0);
    while i < 8
      invariant 0 <= i <= 8 && x[i..] == x0[i..]
      invariant Chain(x[..], i, carry, Val(x0[..i]) + c0)
    {
      ghost var before := x[..];
      assert x[i] == x0[i];
      ghost var c := carry;
      var t := carry + x[i];
      carry := t / B;
      x[i] := t % B;
      ChainNext(before, x[..], i, c, Val(x0[..i]) + c0, x0[i], carry);
      assert x0[..i + 1] == x0[..i] + [x0[i]];
      ValSnoc(x0[..i], x0[i]);
      i := i + 1;
    }
    ChainEnd(x[..], 8, carry, Val(x0[..8]) + c0);
    assert x0[..8] == x0;
    TopPlace(carry);
  }

  lemma SmallStart(out: seq<word32>, a: seq<word32>, c0: int)
    ensures Chain(out, 0, c0, Val(a[..0]) + c0)
  {
  }

  // ---- reduction ---------------------------------------------------------------------------------

  /** What a value becomes when everything from 2^255 up is folded in times 19. */
  function Folded(v: int, over: int): int { v % T255 + 19 * (v / T255 + 2 * over) }

  lemma FoldedIs(v: nat, over: nat)
    requires v < T256
    ensures v / T255 <= 1 && Cong(Folded(v, over), v + over * T256, P)
    ensures Folded(v, over) <= T255 - 1 + 19 * (1 + 2 * over)
  {
    hide Cong;
    var h, l := v / T255, v % T255;
    assert v == h * T255 + l;
    CongByCofactor(Folded(v, over), v + over * T256, -(h + 2 * over), P);
  }

  /** Clearing bit 255 splits a value at 2^255. */
  lemma TopBit(x: seq<word32>)
    requires |x| == 8
    ensures Val(x) / T255 == x[7] / 0x8000_0000
    ensures Val(x[7 := x[7] % 0x8000_0000]) == Val(x) % T255
  {
    hide Val, PowB;
    var lo, p, h, l := Val(x[..7]), PowB(7), x[7] / 0x8000_0000, x[7] % 0x8000_0000;
    assert x == x[..7] + [x[7]] && x[7 := l] == x[..7] + [l];
    ValSnoc(x[..7], x[7]);
    ValSnoc(x[..7], l);
    ValBound(x[..7]);
    assert p * 0x8000_0000 == T255 by { PowBValues(); }
    SplitTop(lo, p, h, l);
    ModUnique(Val(x), T255, h, lo + p * l);
  }

  lemma SplitTop(lo: nat, p: nat, h: nat, l: nat)
    requires lo < p && l < 0x8000_0000 && p * 0x8000_0000 == T255
    ensures p * (0x8000_0000 * h + l) == h * T255 + p * l
    ensures 0 <= lo + p * l < T255
  {
    assert p * (0x8000_0000 * h + l) == p * 0x8000_0000 * h + p * l;
    assert p * l <= p * (0x8000_0000 - 1);
  }

  /** Fold everything from 2^255 up back in, in place. */
  method Propagate(x: array<word32>, over0: word32)
    requires x.Length == 8 && over0 <= 0x100_0000
    modifies x
    ensures Val(x[..]) == Folded(old(Val(x[..])), over0)
  {
    hide Val, PowB, Folded, Cong;
    ghost var x0 := x[..];
    TopBit(x0);
    var over := Or(x[7] / 0x8000_0000, over0 * 2);
    assert over == x0[7] / 0x8000_0000 + over0 * 2 by { ShiftIn(x0[7] / 0x8000_0000, over0); }
    x[7] := ClearTop(x[7]);
    assert x[..] == x0[7 := x0[7] % 0x8000_0000];
    var c := AddSmall(x, over * 19);
    ValBound(x[..]);
    assert PowB(8) == T256 by { PowBValues(); }
    NoCarryOut(Val(x[..]), c, Val(x0) % T255, over * 19);
    assert Val(x[..]) == Folded(Val(x0), over0) by { FoldedDef(Val(x0), over0); }
  }

  lemma FoldedDef(v: int, over: int)
    ensures Folded(v, over) == v % T255 + 19 * (v / T255 + 2 * over)
  {
  }

  lemma ShiftIn(bit: nat, over: nat)
    requires bit <= 1
    ensures Or(bit, over * 2) == bit + over * 2
  {
    OrDisjoint(bit, over, 1);
    assert Pow2(1) == 2;
  }

  function ClearTop(w: word32): (r: word32)
    ensures r == w % 0x8000_0000
  {
    assert Pow2(31) == 0x8000_0000 by { Pow2Values(); }
    AndOnes(w, 31);
    And(w, 0x7FFF_FFFF)
  }

  lemma NoCarryOut(v: nat, c: int, l: nat, small: nat)
    requires v < T256 && v + c * T256 == l + small && l < T255 && small < 0x1_0000_0000
    ensures c == 0 && v == l + small
  {
  }
}
