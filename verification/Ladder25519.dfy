/** The X25519 ladder: two-part step, delayed conditional swaps, inversion chain. */
module Ladder25519 {
  import opened Bytes
  import opened Bits
  import opened Words
  import opened Field25519
  import opened Ops25519

  const A24: word32 := 121665

  // ---- section 5 of RFC 7748 ---------------------------------------------------------------------

  datatype Quad = Quad(x2: int, z2: int, x3: int, z3: int)

  function Swapped(q: Quad): Quad { Quad(q.x3, q.z3, q.x2, q.z2) }

  /** One differential double-and-add: (x2 : z2) is doubled, (x3 : z3) becomes the sum. */
  function Step(x1: int, q: Quad): Quad {
    var a := FAdd(q.x2, q.z2);
    var aa := FMul(a, a);
    var b := FSub(q.x2, q.z2);
    var bb := FMul(b, b);
    var e := FSub(aa, bb);
    var c := FAdd(q.x3, q.z3);
    var d := FSub(q.x3, q.z3);
    var da := FMul(d, a);
    var cb := FMul(c, b);
    var sum := FAdd(da, cb);
    var diff := FSub(da, cb);
    Quad(FMul(aa, bb), FMul(e, FAdd(aa, FMul(A24, e))), FMul(sum, sum), FMul(x1, FMul(diff, diff)))
  }

  /** The ladder that branches on each bit: a set bit doubles the other point. */
  function BranchStep(x1: int, bit: bool, q: Quad): Quad {
    if bit then Swapped(Step(x1, Swapped(q))) else Step(x1, q)
  }

  /** The 256 - i leading bits of the scalar k, consumed from the top. */
  function Ladder(x1: int, k: nat, i: nat): Quad
    requires i <= 256
    decreases 256 - i
  {
    if i == 256 then Quad(1, 0, x1, 1) else BranchStep(x1, Bit(k, i), Ladder(x1, k, i + 1))
  }

  // ---- field identities --------------------------------------------------------------------------

  lemma FMulCommutes(a: int, b: int)
    ensures FMul(a, b) == FMul(b, a)
  {
    hide Res;
    assert a * b == b * a;
  }

  lemma FAddCommutes(a: int, b: int)
    ensures FAdd(a, b) == FAdd(b, a)
  {
  }

  lemma ResSmall(a: int)
    requires 0 <= a < P
    ensures Res(a) == a
  {
  }

  /** Subtracting the difference again leaves the subtrahend. */
  lemma SubTwice(a: int, b: int)
    requires 0 <= a < P && 0 <= b < P
    ensures FSub(a, FSub(a, b)) == b
  {
    hide Res;
    ResSmall(a);
    ResSmall(b);
    ResAdd(a, a - b);
    assert a - (a - b) == b;
  }

  // ---- the step in place -----------------------------------------------------------------------------

  /** Five field elements that do not overlap. */
  ghost predicate Separate(xs: seq<array<word32>>) {
    |xs| == 5
    && (forall i :: 0 <= i < 5 ==> xs[i].Length == 8)
    && forall i, j :: 0 <= i < j < 5 ==> xs[i] != xs[j]
  }

  /** The element in slot k. */
  ghost function At(xs: seq<array<word32>>, k: nat): int
    requires Separate(xs) && k < 5
    reads xs[k]
  {
    Elem(xs[k][..])
  }

  ghost function Points(xs: seq<array<word32>>): Quad
    requires Separate(xs)
    reads xs[0], xs[1], xs[2], xs[3]
  {
    Quad(At(xs, 0), At(xs, 1), At(xs, 2), At(xs, 3))
  }

  /** What every operation leaves behind, and every subtrahend needs. */
  ghost predicate Reduced(a: array<word32>)
    requires a.Length == 8
    reads a
  {
    Val(a[..]) < LIMIT
  }

  /** out := a * out, the source's mul1. */
  method MulInto(out: array<word32>, a: array<word32>)
    requires out.Length == a.Length == 8
    modifies out
    ensures Elem(out[..]) == FMul(old(Elem(a[..])), old(Elem(out[..]))) && Reduced(out)
  {
    hide Elem, FMul;
    assert out[..] == out[..8];
    Mul(out, a, out, 8);
  }

  method Sqr(out: array<word32>, a: array<word32>)
    requires out.Length == a.Length == 8
    modifies out
    ensures Elem(out[..]) == FMul(old(Elem(a[..])), old(Elem(a[..]))) && Reduced(out)
  {
    hide Elem, FMul;
    assert a[..] == a[..8];
    Mul(out, a, a, 8);
  }

  lemma ConstantElem()
    ensures Elem([A24]) == A24
  {
    ValSnoc([], A24);
    assert [] + [A24] == [A24];
  }

  /** A in t1, B in z2, then DA + CB in x3 and DA - CB in z3. */
  method SumAndDifference(xs: seq<array<word32>>)
    requires Separate(xs) && Reduced(xs[1]) && Reduced(xs[3])
    modifies xs[0], xs[1], xs[2], xs[3], xs[4]
    ensures forall k :: 0 <= k < 5 ==> Reduced(xs[k])
    ensures
      var q := old(Points(xs));
      var a, b, c, d := FAdd(q.x2, q.z2), FSub(q.x2, q.z2), FAdd(q.x3, q.z3), FSub(q.x3, q.z3);
      && At(xs, 4) == a && At(xs, 1) == b
      && At(xs, 2) == FAdd(FMul(a, d), FMul(b, c)) && At(xs, 3) == FSub(FMul(a, d), FMul(b, c))
  {
    hide Elem, FMul, FAdd, FSub, Val;
    var x2, z2, x3, z3, t1 := xs[0], xs[1], xs[2], xs[3], xs[4];
    Add(t1, x2, z2);
    Sub(z2, x2, z2);
    Add(x2, x3, z3);
    Sub(z3, x3, z3);
    MulInto(z3, t1);
    MulInto(x2, z2);
    Add(x3, z3, x2);
    Sub(z3, z3, x2);
  }

  /** AA in t1, E in x2 and E * a24 + AA in z2. */
  method Squares(xs: seq<array<word32>>)
    requires Separate(xs)
    modifies xs[0], xs[1], xs[4]
    ensures Reduced(xs[0]) && Reduced(xs[1]) && Reduced(xs[4])
    ensures
      var a, b := old(At(xs, 4)), old(At(xs, 1));
      var e := FSub(FMul(a, a), FMul(b, b));
      At(xs, 4) == FMul(a, a) && At(xs, 0) == e && At(xs, 1) == FAdd(FMul(e, A24), FMul(a, a))
  {
    hide Elem, FMul, FAdd, FSub, Val;
    var x2, z2, t1 := xs[0], xs[1], xs[4];
    var a24: array<word32> := new word32[1][A24];
    MulInto(t1, t1);
    MulInto(z2, z2);
    Sub(x2, t1, z2);
    assert a24[..1] == [A24];
    ConstantElem();
    Mul(z2, x2, a24, 1);
    Add(z2, z2, t1);
  }

  method LadderPart1(xs: seq<array<word32>>)
    requires Separate(xs) && Reduced(xs[1]) && Reduced(xs[3])
    modifies xs[0], xs[1], xs[2], xs[3], xs[4]
    ensures forall k :: 0 <= k < 5 ==> Reduced(xs[k])
    ensures
      var q := old(Points(xs));
      var a, b, c, d := FAdd(q.x2, q.z2), FSub(q.x2, q.z2), FAdd(q.x3, q.z3), FSub(q.x3, q.z3);
      var e := FSub(FMul(a, a), FMul(b, b));
      && At(xs, 4) == FMul(a, a) && At(xs, 0) == e
      && At(xs, 1) == FAdd(FMul(e, A24), FMul(a, a))
      && At(xs, 2) == FAdd(FMul(a, d), FMul(b, c))
      && At(xs, 3) == FSub(FMul(a, d), FMul(b, c))
  {
    hide Elem, FMul, FAdd, FSub, Val;
    SumAndDifference(xs);
    Squares(xs);
  }

  method LadderPart2(xs: seq<array<word32>>, x1: array<word32>)
    requires Separate(xs) && x1.Length == 8 && x1 !in xs && Reduced(xs[0])
    modifies xs[0], xs[1], xs[2], xs[3]
    ensures forall k :: 0 <= k < 4 ==> Reduced(xs[k])
    ensures
      var q := old(Points(xs));
      var aa := old(At(xs, 4));
      && At(xs, 0) == FMul(aa, FSub(aa, q.x2)) && At(xs, 1) == FMul(q.x2, q.z2)
      && At(xs, 2) == FMul(q.x3, q.x3)
      && At(xs, 3) == FMul(Elem(x1[..]), FMul(q.z3, q.z3))
  {
    hide Elem, FMul, FAdd, FSub, Val;
    var x2, z2, x3, z3, t1 := xs[0], xs[1], xs[2], xs[3], xs[4];
    assert x1 != x2 && x1 != z2 && x1 != x3 && x1 != z3;
    MulInto(z3, z3);
    MulInto(z3, x1);
    MulInto(x3, x3);
    MulInto(z2, x2);
    Sub(x2, t1, x2);
    MulInto(x2, t1);
  }

  /** The two in-place halves compute the published step. */
  method LadderStep(xs: seq<array<word32>>, x1: array<word32>)
    requires Separate(xs) && x1.Length == 8 && x1 !in xs && Reduced(xs[1]) && Reduced(xs[3])
    modifies xs[0], xs[1], xs[2], xs[3], xs[4]
    ensures forall k :: 0 <= k < 4 ==> Reduced(xs[k])
    ensures Points(xs) == Step(Elem(x1[..]), old(Points(xs)))
  {
    hide Elem, FMul, FAdd, FSub, Val;
    ghost var q := Points(xs);
    ghost var a, b, c, d := FAdd(q.x2, q.z2), FSub(q.x2, q.z2), FAdd(q.x3, q.z3), FSub(q.x3, q.z3);
    LadderPart1(xs);
    LadderPart2(xs, x1);
    ghost var aa, bb := FMul(a, a), FMul(b, b);
    ghost var e := FSub(aa, bb);
    FMulRange(a, a);
    FMulRange(b, b);
    SubTwice(aa, bb);
    FMulCommutes(a, d);
    FMulCommutes(b, c);
    FMulCommutes(e, A24);
    FAddCommutes(aa, FMul(A24, e));
  }

  lemma FMulRange(a: int, b: int)
    ensures 0 <= FMul(a, b) < P
  {
  }

  // ---- conditional swap -----------------------------------------------------------------------------

  const ONES: word32 := 0xFFFF_FFFF

  function Mask(b: bool): word32 { if b then ONES else 0 }

  lemma MaskXor(a: bool, b: bool)
    ensures Xor32(Mask(a), Mask(b)) == Mask(a != b)
  {
    hide Xor;
    XorSelf(ONES);
    XorZero(ONES);
    XorZero(0);
  }

  lemma AndMask(x: word32, b: bool)
    ensures And32(x, Mask(b)) == if b then x else 0
  {
    hide And;
    if b {
      assert Pow2(32) == 0x1_0000_0000 by { Pow2Values(); }
      AndOnes(x, 32);
      ModSmall(x);
    } else {
      AndZero(x);
    }
  }

  lemma ModSmall(x: word32)
    ensures x % 0x1_0000_0000 == x
  {
  }

  /** Exchanges two elements when the mask is all ones, without branching on it. */
  method CondSwap(a: array<word32>, b: array<word32>, mask: word32)
    requires a.Length == b.Length == 8 && a != b && (mask == 0 || mask == ONES)
    modifies a, b
    ensures a[..] == old(if mask == 0 then a[..] else b[..])
    ensures b[..] == old(if mask == 0 then b[..] else a[..])
  {
    hide Xor, And;
    ghost var a0, b0, swap := a[..], b[..], mask != 0;
    var i := 0;
    while i < 8
      invariant 0 <= i <= 8
      invariant forall k :: 0 <= k < i ==> a[k] == (if swap then b0 else a0)[k] && b[k] == (if swap then a0 else b0)[k]
      invariant forall k :: i <= k < 8 ==> a[k] == a0[k] && b[k] == b0[k]
    {
      AndMask(Xor32(a[i], b[i]), swap);
      var x := And32(Xor32(a[i], b[i]), mask);
      MaskedExchange(a[i], b[i], swap);
      a[i] := Xor32(a[i], x);
      b[i] := Xor32(b[i], x);
      i := i + 1;
    }
  }

  lemma MaskedExchange(x: word32, y: word32, doswap: bool)
    ensures var m := if doswap then Xor(x, y) else 0;
            Xor(x, m) == (if doswap then y else x) && Xor(y, m) == if doswap then x else y
  {
    hide Xor;
    if doswap {
      XorTwice(y, x);
      XorCommutes(x, y);
      XorTwice(x, y);
      XorTwice(y, x);
    } else {
      XorZero(x);
      XorZero(y);
    }
  }
}
