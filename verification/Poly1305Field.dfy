/**
 * Arithmetic modulo 2^130 - 5 on five 26-bit limbs held in 32-bit words with
 * 64-bit products: what each step of the accumulator computes, and that no sum
 * or carry leaves its word.
 */
module Poly1305Field {
  import opened Bytes
  import opened Congruence

  const P: nat := 0x3_FFFF_FFFF_FFFF_FFFF_FFFF_FFFF_FFFF_FFFB
  const L1: nat := 0x400_0000
  const L2: nat := 0x10_0000_0000_0000
  const L3: nat := 0x4000_0000_0000_0000_0000
  const L4: nat := 0x100_0000_0000_0000_0000_0000_0000

  datatype Limbs = Limbs(a0: word32, a1: word32, a2: word32, a3: word32, a4: word32)
  datatype Wide = Wide(d0: word64, d1: word64, d2: word64, d3: word64, d4: word64)

  function Combine(x0: int, x1: int, x2: int, x3: int, x4: int): int {
    x0 + L1 * x1 + L2 * x2 + L3 * x3 + L4 * x4
  }

  function Val(x: Limbs): int { Combine(x.a0, x.a1, x.a2, x.a3, x.a4) }

  // ---- congruence ---------------------------------------------------------------------


  // ---- one multiplication -----------------------------------------------------------------

  predicate Reduced(h: Limbs) {
    h.a0 < L1 && h.a1 < L1 + 64 && h.a2 < L1 && h.a3 < L1 && h.a4 < L1
  }

  /** What one more message block can make of reduced limbs. */
  predicate Loaded(h: Limbs) {
    h.a0 < 2 * L1 && h.a1 < 2 * L1 + 64 && h.a2 < 2 * L1 && h.a3 < 2 * L1 && h.a4 < 2 * L1
  }

  predicate Clamped(r: Limbs) {
    r.a0 < L1 && r.a1 < L1 && r.a2 < L1 && r.a3 < L1 && r.a4 < 0x10_0000
  }

  lemma MulBound(a: int, b: int, A: int, B: int)
    requires 0 <= a <= A && 0 <= b <= B
    ensures 0 <= a * b <= A * B
  {
    assert a * b <= a * B <= A * B;
  }

  /** The ten bounds behind the column sums: limb times limb, and limb times five limbs. */
  lemma ProductBounds(x: int, r: Limbs)
    requires 0 <= x < 2 * L1 + 64 && Clamped(r)
    ensures 0 <= x * r.a0 <= 0x20_0010_0000_0000 && 0 <= x * r.a1 <= 0x20_0010_0000_0000
    ensures 0 <= x * r.a2 <= 0x20_0010_0000_0000 && 0 <= x * r.a3 <= 0x20_0010_0000_0000
    ensures 0 <= x * r.a4 <= 0x8001_0000_0000
  {
    MulBound(x, r.a0, 0x800_0040, 0x400_0000);
    MulBound(x, r.a1, 0x800_0040, 0x400_0000);
    MulBound(x, r.a2, 0x800_0040, 0x400_0000);
    MulBound(x, r.a3, 0x800_0040, 0x400_0000);
    MulBound(x, r.a4, 0x800_0040, 0x10_0000);
  }

  /** x * (5 * y) as the code computes it through s = 5 * r. */
  lemma TimesFive(x: int, y: int)
    ensures x * (y * 5) == 5 * (x * y)
  {
  }

  /** Every product of a limb of `h` with a limb of `r`, times five or not, is far from 64 bits. */
  lemma AllProductBounds(h: Limbs, r: Limbs)
    requires Loaded(h) && Clamped(r)
    ensures Small(h.a0, r) && Small(h.a1, r) && Small(h.a2, r) && Small(h.a3, r) && Small(h.a4, r)
  {
    ProductBounds(h.a0, r); ProductBounds(h.a1, r); ProductBounds(h.a2, r);
    ProductBounds(h.a3, r); ProductBounds(h.a4, r);
  }

  predicate Small(x: int, r: Limbs) {
    && 0 <= x * r.a0 <= 0x20_0010_0000_0000 && 0 <= x * r.a1 <= 0x20_0010_0000_0000
    && 0 <= x * r.a2 <= 0x20_0010_0000_0000 && 0 <= x * r.a3 <= 0x20_0010_0000_0000
    && 0 <= x * r.a4 <= 0x8001_0000_0000
  }

  function Column0(h: Limbs, r: Limbs): (d: word64)
    requires Loaded(h) && Clamped(r)
    ensures d < 0x300_0000_0000_0000
  {
    AllProductBounds(h, r);
    FiveProducts(h, r);
    h.a0 * r.a0 + h.a1 * (r.a4 * 5) + h.a2 * (r.a3 * 5) + h.a3 * (r.a2 * 5) + h.a4 * (r.a1 * 5)
  }

  function Column1(h: Limbs, r: Limbs): (d: word64)
    requires Loaded(h) && Clamped(r)
    ensures d < 0x300_0000_0000_0000
  {
    AllProductBounds(h, r);
    FiveProducts(h, r);
    h.a0 * r.a1 + h.a1 * r.a0 + h.a2 * (r.a4 * 5) + h.a3 * (r.a3 * 5) + h.a4 * (r.a2 * 5)
  }

  function Column2(h: Limbs, r: Limbs): (d: word64)
    requires Loaded(h) && Clamped(r)
    ensures d < 0x300_0000_0000_0000
  {
    AllProductBounds(h, r);
    FiveProducts(h, r);
    h.a0 * r.a2 + h.a1 * r.a1 + h.a2 * r.a0 + h.a3 * (r.a4 * 5) + h.a4 * (r.a3 * 5)
  }

  function Column3(h: Limbs, r: Limbs): (d: word64)
    requires Loaded(h) && Clamped(r)
    ensures d < 0x300_0000_0000_0000
  {
    AllProductBounds(h, r);
    FiveProducts(h, r);
    h.a0 * r.a3 + h.a1 * r.a2 + h.a2 * r.a1 + h.a3 * r.a0 + h.a4 * (r.a4 * 5)
  }

  function Column4(h: Limbs, r: Limbs): (d: word64)
    requires Loaded(h) && Clamped(r)
    ensures d < 0x90_0000_0000_0000
  {
    AllProductBounds(h, r);
    h.a0 * r.a4 + h.a1 * r.a3 + h.a2 * r.a2 + h.a3 * r.a1 + h.a4 * r.a0
  }

  /** The five column sums of the schoolbook product, the columns past 2^130 folded in five times. */
  function Columns(h: Limbs, r: Limbs): (d: Wide)
    requires Loaded(h) && Clamped(r)
    ensures d.d0 < 0x300_0000_0000_0000 && d.d1 < 0x300_0000_0000_0000 && d.d2 < 0x300_0000_0000_0000
    ensures d.d3 < 0x300_0000_0000_0000 && d.d4 < 0x90_0000_0000_0000
  {
    Wide(Column0(h, r), Column1(h, r), Column2(h, r), Column3(h, r), Column4(h, r))
  }

  lemma FiveProducts(h: Limbs, r: Limbs)
    ensures h.a1 * (r.a4 * 5) == 5 * (h.a1 * r.a4)
    ensures h.a2 * (r.a3 * 5) == 5 * (h.a2 * r.a3) && h.a2 * (r.a4 * 5) == 5 * (h.a2 * r.a4)
    ensures h.a3 * (r.a2 * 5) == 5 * (h.a3 * r.a2) && h.a3 * (r.a3 * 5) == 5 * (h.a3 * r.a3)
    ensures h.a3 * (r.a4 * 5) == 5 * (h.a3 * r.a4)
    ensures h.a4 * (r.a1 * 5) == 5 * (h.a4 * r.a1) && h.a4 * (r.a2 * 5) == 5 * (h.a4 * r.a2)
    ensures h.a4 * (r.a3 * 5) == 5 * (h.a4 * r.a3) && h.a4 * (r.a4 * 5) == 5 * (h.a4 * r.a4)
  {
    TimesFive(h.a1, r.a4);
    TimesFive(h.a2, r.a3); TimesFive(h.a2, r.a4);
    TimesFive(h.a3, r.a2); TimesFive(h.a3, r.a3); TimesFive(h.a3, r.a4);
    TimesFive(h.a4, r.a1); TimesFive(h.a4, r.a2); TimesFive(h.a4, r.a3); TimesFive(h.a4, r.a4);
  }

  /** Multiplication distributes over the limbs. */
  lemma Row(x: int, y0: int, y1: int, y2: int, y3: int, y4: int)
    ensures x * Combine(y0, y1, y2, y3, y4) == Combine(x * y0, x * y1, x * y2, x * y3, x * y4)
  {
    var t3 := L3 * y3 + L4 * y4;
    var t2 := L2 * y2 + t3;
    var t1 := L1 * y1 + t2;
    assert x * (y0 + t1) == x * y0 + x * t1;
    assert x * t1 == x * (L1 * y1) + x * t2 && x * (L1 * y1) == L1 * (x * y1);
    assert x * t2 == x * (L2 * y2) + x * t3 && x * (L2 * y2) == L2 * (x * y2);
    assert x * t3 == x * (L3 * y3) + x * (L4 * y4) && x * (L3 * y3) == L3 * (x * y3) && x * (L4 * y4) == L4 * (x * y4);
  }

  /** One row of the schoolbook product. */
  datatype Row5 = Row5(x0: int, x1: int, x2: int, x3: int, x4: int)

  function Times(x: int, r: Limbs): Row5 { Row5(x * r.a0, x * r.a1, x * r.a2, x * r.a3, x * r.a4) }

  function RowVal(a: Row5): int { Combine(a.x0, a.x1, a.x2, a.x3, a.x4) }

  /** What folding the columns past 2^130 takes off, in multiples of P. */
  function Overflow(b: Row5, c: Row5, d: Row5, e: Row5): int {
    (b.x4 + c.x3 + d.x2 + e.x1) + L1 * (c.x4 + d.x3 + e.x2) + L2 * (d.x4 + e.x3) + L3 * e.x4
  }

  /** Five shifted rows add up to their folded columns and a multiple of P. */
  lemma FoldRows(a: Row5, b: Row5, c: Row5, d: Row5, e: Row5)
    ensures Combine(RowVal(a), RowVal(b), RowVal(c), RowVal(d), RowVal(e)) ==
      Combine(a.x0 + 5 * b.x4 + 5 * c.x3 + 5 * d.x2 + 5 * e.x1, a.x1 + b.x0 + 5 * c.x4 + 5 * d.x3 + 5 * e.x2,
              a.x2 + b.x1 + c.x0 + 5 * d.x4 + 5 * e.x3, a.x3 + b.x2 + c.x1 + d.x0 + 5 * e.x4,
              a.x4 + b.x3 + c.x2 + d.x1 + e.x0) + P * Overflow(b, c, d, e)
  {
  }

  lemma ProductRows(h: Limbs, r: Limbs)
    ensures Val(h) * Val(r) == Combine(RowVal(Times(h.a0, r)), RowVal(Times(h.a1, r)), RowVal(Times(h.a2, r)),
                                       RowVal(Times(h.a3, r)), RowVal(Times(h.a4, r)))
  {
    hide Combine;
    var v := Val(r);
    Row(v, h.a0, h.a1, h.a2, h.a3, h.a4);
    TimesIs(h.a0, r); TimesIs(h.a1, r); TimesIs(h.a2, r); TimesIs(h.a3, r); TimesIs(h.a4, r);
  }

  lemma TimesIs(x: int, r: Limbs)
    ensures RowVal(Times(x, r)) == x * Val(r) == Val(r) * x
  {
    hide Combine;
    Row(x, r.a0, r.a1, r.a2, r.a3, r.a4);
  }

  lemma ColumnsAre(h: Limbs, r: Limbs)
    requires Loaded(h) && Clamped(r)
    ensures var x, a, b, c, d, e :=
              Columns(h, r), Times(h.a0, r), Times(h.a1, r), Times(h.a2, r), Times(h.a3, r), Times(h.a4, r);
            && x.d0 == a.x0 + 5 * b.x4 + 5 * c.x3 + 5 * d.x2 + 5 * e.x1
            && x.d1 == a.x1 + b.x0 + 5 * c.x4 + 5 * d.x3 + 5 * e.x2
            && x.d2 == a.x2 + b.x1 + c.x0 + 5 * d.x4 + 5 * e.x3
            && x.d3 == a.x3 + b.x2 + c.x1 + d.x0 + 5 * e.x4
            && x.d4 == a.x4 + b.x3 + c.x2 + d.x1 + e.x0
  {
    FiveProducts(h, r);
  }

  /** The columns stand for the product modulo P. */
  lemma ColumnsAreProduct(h: Limbs, r: Limbs)
    requires Loaded(h) && Clamped(r)
    ensures var d := Columns(h, r); Cong(Val(h) * Val(r), Combine(d.d0, d.d1, d.d2, d.d3, d.d4), P)
  {
    hide Cong, Combine, Columns, Times, RowVal, Overflow, Val;
    var a, b, c, d, e := Times(h.a0, r), Times(h.a1, r), Times(h.a2, r), Times(h.a3, r), Times(h.a4, r);
    var x := Columns(h, r);
    ProductRows(h, r);
    FoldRows(a, b, c, d, e);
    ColumnsAre(h, r);
    CongByCofactor(Val(h) * Val(r), Combine(x.d0, x.d1, x.d2, x.d3, x.d4), Overflow(b, c, d, e), P);
  }

  // ---- the carry chain ---------------------------------------------------------------------

  /** Carry the columns into limbs, wrapping the carry out of the top back in five times. */
  function Carry(d: Wide): (h: Limbs)
    requires d.d0 < 0x300_0000_0000_0000 && d.d1 < 0x300_0000_0000_0000 && d.d2 < 0x300_0000_0000_0000
    requires d.d3 < 0x300_0000_0000_0000 && d.d4 < 0x90_0000_0000_0000
    ensures Reduced(h)
    ensures Cong(Val(h), Combine(d.d0, d.d1, d.d2, d.d3, d.d4), P)
  {
    var c0: word32 := d.d0 / L1;
    var d1: word64 := d.d1 + c0;
    var c1: word32 := d1 / L1;
    var d2: word64 := d.d2 + c1;
    var c2: word32 := d2 / L1;
    var d3: word64 := d.d3 + c2;
    var c3: word32 := d3 / L1;
    var d4: word64 := d.d4 + c3;
    var c4: word32 := d4 / L1;
    var h0: word32 := d.d0 % L1 + c4 * 5;
    var c5: word32 := h0 / L1;
    var h := Limbs(h0 % L1, d1 % L1 + c5, d2 % L1, d3 % L1, d4 % L1);
    CarryCong(Val(h), Combine(d.d0, d.d1, d.d2, d.d3, d.d4), c4);
    h
  }

  lemma CarryCong(a: int, b: int, c: int)
    ensures a == b - P * c ==> Cong(a, b, P)
  {
    if a == b - P * c {
      CongByCofactor(a, b, -c, P);
    }
  }
}
