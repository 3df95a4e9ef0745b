/** The field operations of X25519: addition, subtraction, multiplication, canonical form. */
module Ops25519 {
  import opened Bytes
  import opened Congruence
  import opened Bits
  import opened Words
  import opened Field25519

  /** Every operation returns less than this, whatever 256-bit operands it is given. */
  const LIMIT: nat := T255 + 0x1_0000_0000

  /** The field element held in eight limbs. */
  function Elem(s: seq<word32>): int { Res(Val(s)) }

  lemma FoldedElem(v: nat, over: nat, total: int)
    requires v < T256 && over <= 0x1000 && Cong(total, v + over * T256, P)
    ensures Res(Folded(v, over)) == Res(total) && Folded(v, over) < LIMIT
  {
    hide Cong, Res, Folded;
    FoldedIs(v, over);
    ResIff(Folded(v, over), v + over * T256);
    ResIff(total, v + over * T256);
  }

  lemma ValBelow(s: seq<word32>)
    requires |s| == 8
    ensures Val(s) < T256
  {
    ValBound(s);
    assert PowB(8) == T256 by { PowBValues(); }
  }

  method Add(out: array<word32>, a: array<word32>, b: array<word32>)
    requires out.Length == a.Length == b.Length == 8
    modifies out
    ensures Elem(out[..]) == FAdd(old(Elem(a[..])), old(Elem(b[..]))) && Val(out[..]) < LIMIT
  {
    hide Val, Res, Folded, Cong, FAdd;
    ghost var x, y := Val(a[..]), Val(b[..]);
    var carry := AddLimbs(out, a, b);
    ghost var v := Val(out[..]);
    ValBelow(out[..]);
    CongByCofactor(x + y, v + carry * T256, 0, P);
    FoldedElem(v, carry, x + y);
    Propagate(out, carry);
    ResAdd(x, y);
  }

  /** The subtrahend must be an output of these operations; the minuend may be any 256-bit value. */
  method Sub(out: array<word32>, a: array<word32>, b: array<word32>)
    requires out.Length == a.Length == b.Length == 8 && Val(b[..]) < LIMIT
    modifies out
    ensures Elem(out[..]) == FSub(old(Elem(a[..])), old(Elem(b[..]))) && Val(out[..]) < LIMIT
  {
    hide Val, Res, Folded, Cong, FSub;
    ghost var x: int, y: int := Val(a[..]), Val(b[..]);
    var carry := SubLimbs(out, a, b);
    ghost var v := Val(out[..]);
    ValBelow(out[..]);
    SmallBorrow(x, y, v, carry);
    FoldedElem(v, 1 + carry, x - y);
    Propagate(out, 1 + carry);
    ResAdd(x, y);
  }

  lemma SmallBorrow(x: nat, y: nat, v: nat, carry: int)
    requires v < T256 && y < LIMIT && v + carry * T256 == x - y - 38 && -2 <= carry <= 0
    ensures -1 <= carry && Cong(x - y, v + (1 + carry) * T256, P)
  {
    hide Cong;
    CongByCofactor(x - y, v + (1 + carry) * T256, -2, P);
  }

  // ---- multiplication --------------------------------------------------------------------------

  lemma {:induction false} ValAppend(s: seq<word32>, t: seq<word32>)
    ensures Val(s + t) == Val(s) + PowB(|s|) * Val(t)
  {
    if t == [] {
      assert s + t == s;
    } else {
      var n := |t| - 1;
      assert s + t == (s + t[..n]) + [t[n]] && t == t[..n] + [t[n]];
      ValAppend(s, t[..n]);
      ValSnoc(s + t[..n], t[n]);
      ValSnoc(t[..n], t[n]);
      PowBAdd(|s|, n);
      AppendArith(PowB(|s|), Val(t[..n]), PowB(n), t[n]);
    }
  }

  lemma AppendArith(p: int, v: int, q: int, x: int)
    ensures p * (v + q * x) == p * v + (p * q) * x
  {
  }

  lemma {:induction false} PowBAdd(m: nat, n: nat)
    ensures PowB(m + n) == PowB(m) * PowB(n)
  {
    if n > 0 {
      PowBAdd(m, n - 1);
      assert PowB(m) * (B * PowB(n - 1)) == B * (PowB(m) * PowB(n - 1));
    }
  }

  method Umaal(carry: word32, acc: word32, mand: word32, mier: word32) returns (carry': word32, r: word32)
    ensures carry + acc + (mand as int) * mier == r + B * carry'
  {
    ProductFits(mand, mier);
    var tmp: word64 := (mand as int) * mier + acc + carry;
    carry', r := tmp / B, tmp % B;
  }

  lemma ProductFits(x: int, y: int)
    requires 0 <= x <= 0xFFFF_FFFF && 0 <= y <= 0xFFFF_FFFF
    ensures 0 <= x * y <= 0xFFFF_FFFE_0000_0001
  {
    var d := 0xFFFF_FFFF - y;
    assert x * d >= 0 && x * y + x * d == x * 0xFFFF_FFFF;
  }

  /** One row of the schoolbook product: accum[i..i + 9] += mand * a. */
  method MulRow(accum: array<word32>, i: nat, mand: word32, a: array<word32>)
    requires accum.Length == 16 && i + 9 <= 17 && i < 8 && a.Length == 8 && accum != a && accum[i + 8] == 0
    modifies accum
    ensures accum[..i] == old(accum[..i]) && accum[i + 9..] == old(accum[i + 9..])
    ensures Val(accum[i..i + 9]) == old(Val(accum[i..i + 8])) + mand * Val(a[..])
  {
    hide Val, PowB, Chain;
    ghost var all, w, s := accum[..], accum[i..i + 8], a[..];
    var carry: word32 := 0;
    var j := 0;
    RowStart(accum[i..i + 8], w, mand, s);
    while j < 8
      invariant 0 <= j <= 8
      invariant forall k :: 0 <= k < i || i + j <= k < 16 ==> accum[k] == all[k]
      invariant Chain(accum[i..i + 8], j, carry, Val(w[..j]) + mand * Val(s[..j]))
    {
      ghost var before, c := accum[i..i + 8], carry;
      assert accum[i + j] == all[i + j] == w[j];
      var r;
      carry, r := Umaal(carry, accum[i + j], mand, a[j]);
      accum[i + j] := r;
      ghost var after := accum[i..i + 8];
      assert after[..j] == before[..j] && after[j] == r;
      ChainNext(before, after, j, c, Val(w[..j]) + mand * Val(s[..j]), w[j] + (mand as int) * s[j], carry);
      RowStep(w, s, mand, j);
      j := j + 1;
    }
    accum[i + j] := carry;
    ghost var row := accum[i..i + 8];
    assert accum[i..i + 9] == row + [carry];
    ValSnoc(row, carry);
    ChainEnd(row, 8, carry, Val(w[..8]) + mand * Val(s[..8]));
    assert w[..8] == w && s[..8] == s;
    Swap(carry, PowB(8));
  }

  lemma Swap(a: int, b: int)
    ensures a * b == b * a
  {
  }

  lemma RowStart(row: seq<word32>, w: seq<word32>, mand: word32, s: seq<word32>)
    ensures Chain(row, 0, 0, Val(w[..0]) + mand * Val(s[..0]))
  {
  }

  lemma RowStep(w: seq<word32>, s: seq<word32>, mand: word32, j: nat)
    requires j < |w| == |s|
    ensures Val(w[..j + 1]) + mand * Val(s[..j + 1]) ==
            Val(w[..j]) + mand * Val(s[..j]) + PowB(j) * (w[j] + (mand as int) * s[j])
  {
    hide Val, PowB;
    assert w[..j + 1] == w[..j] + [w[j]] && s[..j + 1] == s[..j] + [s[j]];
    ValSnoc(w[..j], w[j]);
    ValSnoc(s[..j], s[j]);
    RowArith(mand, Val(s[..j]), PowB(j), w[j], s[j]);
  }

  lemma RowArith(m: int, v: int, p: int, w: int, s: int)
    ensures p * w + m * (v + p * s) == m * v + p * (w + m * s)
  {
    assert m * (v + p * s) == m * v + m * (p * s);
    assert m * (p * s) == p * (m * s);
  }

  /** A cleared accumulator holds zero, and clear limbs on top add nothing. */
  lemma {:induction false} ValZeros(s: seq<word32>, n: nat)
    requires n <= |s| && forall k :: n <= k < |s| ==> s[k] == 0
    ensures Val(s) == Val(s[..n])
  {
    if n < |s| {
      var m := |s| - 1;
      assert s[..m][..n] == s[..n] && s == s[..m] + [0];
      ValZeros(s[..m], n);
      ValSnoc(s[..m], 0);
    } else {
      assert s[..n] == s;
    }
  }

  /** One more row of the schoolbook product. */
  lemma RowAdds(before: seq<word32>, after: seq<word32>, i: nat, x: word32, a: seq<word32>, b: seq<word32>)
    requires |before| == |after| == 16 && i < 8 && i < |b| && after[..i] == before[..i] && x == b[i]
    requires Val(after[i..i + 9]) == Val(before[i..i + 8]) + x * Val(a)
    requires Val(before[..i + 8]) == Val(a) * Val(b[..i])
    ensures Val(after[..i + 9]) == Val(a) * Val(b[..i + 1])
  {
    hide Val, PowB;
    assert after[..i + 9] == after[..i] + after[i..i + 9];
    assert before[..i + 8] == before[..i] + before[i..i + 8];
    ValAppend(after[..i], after[i..i + 9]);
    ValAppend(before[..i], before[i..i + 8]);
    assert b[..i + 1] == b[..i] + [x];
    ValSnoc(b[..i], x);
    RowAddsArith(Val(before[..i]), PowB(i), Val(before[i..i + 8]), x, Val(a), Val(b[..i]));
  }

  lemma RowAddsArith(lo: int, p: int, hi: int, x: int, a: int, b: int)
    requires lo + p * hi == a * b
    ensures lo + p * (hi + x * a) == a * (b + p * x)
  {
    assert p * (hi + x * a) == p * hi + p * (x * a);
    assert a * (b + p * x) == a * b + a * (p * x);
    assert p * (x * a) == a * (p * x);
  }

  /** out := lo + 38 * hi, where accum is lo then hi; 38 is 2^256 modulo 2^255 - 19. */
  method FoldHigh(out: array<word32>, accum: array<word32>) returns (carry: word32)
    requires out.Length == 8 && accum.Length == 16 && out != accum
    modifies out
    ensures Val(out[..]) + carry * T256 == Val(accum[..8]) + 38 * Val(accum[8..]) && carry <= 38
  {
    hide Val, PowB, Chain;
    ghost var w, s := accum[..8], accum[8..];
    carry := 0;
    var j := 0;
    RowStart(out[..], w, 38, s);
    while j < 8
      invariant 0 <= j <= 8
      invariant Chain(out[..], j, carry, Val(w[..j]) + 38 * Val(s[..j]))
    {
      ghost var before, c := out[..], carry;
      var r;
      carry, r := Umaal(carry, accum[j], 38, accum[j + 8]);
      out[j] := r;
      ChainNext(before, out[..], j, c, Val(w[..j]) + 38 * Val(s[..j]), w[j] + 38 * (s[j] as int), carry);
      RowStep(w, s, 38, j);
      j := j + 1;
    }
    ChainEnd(out[..], 8, carry, Val(w[..8]) + 38 * Val(s[..8]));
    assert w[..8] == w && s[..8] == s;
    TopPlace(carry);
    ValBelow(w);
    ValBelow(s);
    SmallCarry(Val(out[..]), carry, Val(w), Val(s));
  }

  lemma SmallCarry(v: nat, c: int, w: nat, s: nat)
    requires v + c * T256 == w + 38 * s && w < T256 && s < T256
    ensures c <= 38
  {
  }

  /** The schoolbook product in a buffer of its own, row by row. */
  method Rows(a: array<word32>, b: array<word32>, nb: nat) returns (accum: array<word32>)
    requires a.Length == 8 && nb <= 8 && nb <= b.Length
    ensures fresh(accum) && accum.Length == 16 && (forall k :: nb + 8 <= k < 16 ==> accum[k] == 0)
    ensures Val(accum[..nb + 8]) == Val(a[..]) * Val(b[..nb])
  {
    hide Val, PowB;
    ghost var s, t := a[..], b[..nb];
    accum := new word32[16](_ => 0);
    var i := 0;
    assert Val(accum[..8]) == 0 && Val(t[..0]) == 0 by {
      ValZeros(accum[..8], 0);
      assert accum[..8][..0] == [] == t[..0];
      NoLimbs();
    }
    while i < nb
      invariant 0 <= i <= nb && accum.Length == 16 && fresh(accum)
      invariant forall k :: i + 8 <= k < 16 ==> accum[k] == 0
      invariant Val(accum[..i + 8]) == Val(s) * Val(t[..i])
    {
      ghost var before := accum[..];
      assert before[i..i + 8] == accum[i..i + 8] && before[..i + 8] == accum[..i + 8];
      MulRow(accum, i, b[i], a);
      ghost var after := accum[..];
      forall k | i + 9 <= k < 16 ensures accum[k] == 0 {
        assert accum[k] == accum[i + 9..][k - i - 9] == before[i + 9..][k - i - 9] == before[k];
      }
      assert after[i..i + 9] == accum[i..i + 9] && after[..i + 9] == accum[..i + 9];
      assert after[..i] == accum[..i] == before[..i];
      RowAdds(before, after, i, t[i], s, t);
      i := i + 1;
    }
    assert t[..nb] == t;
  }

  /** out := a * b, where b has nb limbs; `out` may be `a` or `b`. */
  method Mul(out: array<word32>, a: array<word32>, b: array<word32>, nb: nat)
    requires out.Length == a.Length == 8 && nb <= 8 && nb <= b.Length
    modifies out
    ensures Elem(out[..]) == FMul(old(Elem(a[..])), old(Elem(b[..nb]))) && Val(out[..]) < LIMIT
  {
    hide Val, PowB, Res, Folded, Cong, FMul;
    ghost var s, t := a[..], b[..nb];
    var accum := Rows(a, b, nb);
    assert accum[..][..nb + 8] == accum[..nb + 8] && t[..nb] == t;
    Product(accum[..], nb, s, t);
    assert accum[..][..8] == accum[..8] && accum[..][8..] == accum[8..];
    var carry := FoldHigh(out, accum);
    ghost var v := Val(out[..]);
    ValBelow(out[..]);
    ProductElem(v, carry, Val(accum[..8]), Val(accum[8..]), Val(s) * Val(t));
    Propagate(out, carry);
    ResMul(Val(s), Val(t));
  }

  lemma NoLimbs()
    ensures Val([]) == 0
  {
  }

  lemma Product(accum: seq<word32>, nb: nat, s: seq<word32>, t: seq<word32>)
    requires |accum| == 16 && nb <= 8 && |t| == nb
    requires forall k :: nb + 8 <= k < 16 ==> accum[k] == 0
    requires Val(accum[..nb + 8]) == Val(s) * Val(t[..nb])
    ensures Val(accum[..8]) + T256 * Val(accum[8..]) == Val(s) * Val(t)
  {
    hide Val, PowB;
    ValZeros(accum, nb + 8);
    assert accum == accum[..8] + accum[8..] && t[..nb] == t;
    ValAppend(accum[..8], accum[8..]);
    assert PowB(8) == T256 by { PowBValues(); }
  }

  lemma ProductElem(v: nat, carry: nat, lo: nat, hi: nat, product: int)
    requires v < T256 && carry <= 38 && v + carry * T256 == lo + 38 * hi && lo + T256 * hi == product
    ensures Res(Folded(v, carry)) == Res(product) && Folded(v, carry) < LIMIT
  {
    hide Cong, Res, Folded;
    CongByCofactor(product, v + carry * T256, 2 * hi, P);
    FoldedElem(v, carry, product);
  }

  // ---- canonical form ---------------------------------------------------------------------------

  /** x := x - 19 in place, together with the disjunction of the limbs stored. */
  method SubtractNineteen(x: array<word32>) returns (res: word32)
    requires x.Length == 8 && Val(x[..]) >= 19
    modifies x
    ensures Val(x[..]) == old(Val(x[..])) - 19 && (res == 0 <==> Val(x[..]) == 0)
  {
    hide Val, PowB, Or, Chain;
    ghost var x0 := x[..];
    var carry := -19;
    res := 0;
    var i := 0;
    SmallStart(x[..], x0, -19);
    while i < 8
      invariant 0 <= i <= 8 && x[i..] == x0[i..]
      invariant Chain(x[..], i, carry, Val(x0[..i]) - 19)
      invariant res == 0 <==> forall k :: 0 <= k < i ==> x[k] == 0
    {
      ghost var before := x[..];
      assert x[i] == x0[i];
      ghost var c := carry;
      var t := carry + x[i];
      carry := t / B;
      x[i] := t % B;
      OrZero(res, x[i]);
      ghost var r := res;
      res := Or32(res, x[i]);
      assert res == 0 <==> r == 0 && x[i] == 0;
      ChainNext(before, x[..], i, c, Val(x0[..i]) - 19, x0[i], carry);
      assert x0[..i + 1] == x0[..i] + [x0[i]];
      ValSnoc(x0[..i], x0[i]);
      i := i + 1;
    }
    ChainEnd(x[..], 8, carry, Val(x0[..8]) - 19);
    assert x0[..8] == x0;
    TopPlace(carry);
    ValBelow(x[..]);
    ValBelow(x0);
    ZeroLimbs(x[..]);
  }

  lemma {:induction false} ZeroLimbs(s: seq<word32>)
    ensures Val(s) == 0 <==> forall k :: 0 <= k < |s| ==> s[k] == 0
  {
    if s != [] {
      var n := |s| - 1;
      ZeroLimbs(s[..n]);
      ZeroTop(PowB(n), s[n]);
    }
  }

  lemma ZeroTop(p: nat, x: nat)
    requires p > 0
    ensures p * x >= 0 && (p * x == 0 <==> x == 0)
  {
    if x > 0 { assert p * x >= p; }
  }

  /** Least residue in place; all ones exactly when the residue is zero. */
  method Canon(x: array<word32>) returns (zero: word32)
    requires x.Length == 8 && Val(x[..]) < LIMIT
    modifies x
    ensures Val(x[..]) == old(Elem(x[..]))
    ensures zero == if old(Elem(x[..])) == 0 then 0xFFFF_FFFF else 0
  {
    hide Val, Res, Folded;
    ghost var v := Val(x[..]);
    var carry := AddSmall(x, 19);
    ValBelow(x[..]);
    assert carry == 0;
    CanonRange(v);
    Propagate(x, 0);
    var res := SubtractNineteen(x);
    zero := ((res as int) - 1) % 0x1_0000_0000_0000_0000 / B;
  }

  lemma CanonRange(v: nat)
    requires v < LIMIT
    ensures Folded(v + 19, 0) >= 19 && Folded(v + 19, 0) - 19 == Res(v)
  {
  }
}
