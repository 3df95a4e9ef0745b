/** The end of a Poly1305 computation: full reduction, packing into words, adding the pad. */
module Poly1305Tag {
  import opened Bytes
  import opened Congruence
  import opened Bits
  import opened Poly1305Field
  import opened Octets
  import opened Poly1305

  predicate Tight(h: Limbs) { h.a0 < L1 && h.a1 < L1 && h.a2 < L1 && h.a3 < L1 && h.a4 < L1 }

  /** Carry all the way round, so that every limb fits in 26 bits. */
  function FullCarry(h: Limbs): (x: Limbs)
    requires Reduced(h)
    ensures Tight(x) && Cong(Val(x), Val(h), P)
  {
    var c1 := h.a1 / L1;
    var h2 := h.a2 + c1;
    var c2 := h2 / L1;
    var h3 := h.a3 + c2;
    var c3 := h3 / L1;
    var h4 := h.a4 + c3;
    var c4 := h4 / L1;
    var h0 := h.a0 + c4 * 5;
    var c0 := h0 / L1;
    Remainders(h.a0, h.a1, h2, h3, h4, h0);
    CarryRound(h.a0, h.a1, h.a2, h.a3, h.a4, c0, c1, c2, c3, c4, h0 % L1, h.a1 % L1, h2 % L1, h3 % L1, h4 % L1);
    var x := Limbs(h0 % L1, h.a1 % L1 + c0, h2 % L1, h3 % L1, h4 % L1);
    CarryCong(Val(x), Val(h), c4);
    x
  }

  lemma Remainders(a0: int, a1: int, h2: int, h3: int, h4: int, h0: int)
    requires 0 <= a0 < L1 && 0 <= a1 < L1 + 64 && 0 <= h2 <= L1 && 0 <= h3 <= L1 && 0 <= h4 <= L1
    requires h0 == a0 + h4 / L1 * 5
    ensures a1 == L1 * (a1 / L1) + a1 % L1 && h2 == L1 * (h2 / L1) + h2 % L1 && h3 == L1 * (h3 / L1) + h3 % L1
    ensures h4 == L1 * (h4 / L1) + h4 % L1 && h0 == L1 * (h0 / L1) + h0 % L1
    ensures 0 <= a1 / L1 <= 1 && 0 <= h2 / L1 <= 1 && 0 <= h3 / L1 <= 1 && 0 <= h4 / L1 <= 1 && 0 <= h0 / L1 <= 1
    ensures (h4 / L1 == 1 ==> a1 / L1 == 1 || a1 % L1 < L1) && (a1 / L1 == 1 ==> a1 % L1 < 64)
    ensures h4 / L1 == 1 && h4 == L1 ==> h4 % L1 == 0
  {
  }

  lemma CarryRound(a0: int, a1: int, a2: int, a3: int, a4: int, c0: int, c1: int, c2: int, c3: int, c4: int,
                   r0: int, r1: int, r2: int, r3: int, r4: int)
    requires a1 == L1 * c1 + r1 && a2 + c1 == L1 * c2 + r2 && a3 + c2 == L1 * c3 + r3 && a4 + c3 == L1 * c4 + r4
    requires a0 + c4 * 5 == L1 * c0 + r0
    ensures Combine(r0, r1 + c0, r2, r3, r4) == Combine(a0, a1, a2, a3, a4) - P * c4
  {
  }

  /** The limbs of h + 5 - 2^130; the top one wraps below zero in 32 bits when h is below P. */
  function MinusP(h: Limbs): (g: Limbs)
    requires Tight(h)
    ensures if Val(h) >= P then g.a4 < 0x8000_0000 && Val(g) == Val(h) - P else g.a4 >= 0x8000_0000
  {
    var g0 := h.a0 + 5;
    var g1 := h.a1 + g0 / L1;
    var g2 := h.a2 + g1 / L1;
    var g3 := h.a3 + g2 / L1;
    var top := h.a4 + g3 / L1 - L1;
    CarrySum(h, g0, g1, g2, g3, top);
    Limbs(g0 % L1, g1 % L1, g2 % L1, g3 % L1, top % 0x1_0000_0000)
  }

  /** Carrying does not change the value, and the sign of the top limb is the sign of the whole. */
  lemma CarrySum(h: Limbs, g0: int, g1: int, g2: int, g3: int, top: int)
    requires Tight(h) && g0 == h.a0 + 5 && g1 == h.a1 + g0 / L1 && g2 == h.a2 + g1 / L1
    requires g3 == h.a3 + g2 / L1 && top == h.a4 + g3 / L1 - L1
    ensures Combine(g0 % L1, g1 % L1, g2 % L1, g3 % L1, top) == Val(h) - P
    ensures 0 - L1 <= top <= 0 && (top >= 0 <==> Val(h) >= P)
  {
    var c0, c1, c2, c3 := g0 / L1, g1 / L1, g2 / L1, g3 / L1;
    assert g0 == L1 * c0 + g0 % L1 && g1 == L1 * c1 + g1 % L1 && g2 == L1 * c2 + g2 % L1 && g3 == L1 * c3 + g3 % L1;
    SignOfTop(g0 % L1, g1 % L1, g2 % L1, g3 % L1, top);
  }

  lemma SignOfTop(x0: int, x1: int, x2: int, x3: int, top: int)
    requires 0 <= x0 < L1 && 0 <= x1 < L1 && 0 <= x2 < L1 && 0 <= x3 < L1
    ensures top >= 0 <==> Combine(x0, x1, x2, x3, top) >= 0
  {
  }

  /** All ones to take g, all zeros to keep h, from the sign of the top limb. */
  function SelectMask(g4: word32): (m: word32)
    ensures m == if g4 < 0x8000_0000 then 0xFFFF_FFFF else 0
  {
    (g4 / 0x8000_0000 - 1) % 0x1_0000_0000
  }

  /** (h & ~mask) | (g & mask), one limb. */
  function Select(h: word32, g: word32, mask: word32): (x: word32)
    requires mask == 0 || mask == 0xFFFF_FFFF
    ensures x == if mask == 0 then h else g
  {
    SelectIs(h, g, mask);
    Or(And(h, 0xFFFF_FFFF - mask), And(g, mask))
  }

  lemma SelectIs(h: word32, g: word32, mask: word32)
    requires mask == 0 || mask == 0xFFFF_FFFF
    ensures Or(And(h, 0xFFFF_FFFF - mask), And(g, mask)) == if mask == 0 then h else g
  {
    hide And;
    MaskAll(h);
    MaskAll(g);
    if mask == 0 {
      assert And(h, 0xFFFF_FFFF - mask) == h;
    } else {
      assert And(h, 0xFFFF_FFFF - mask) == 0;
    }
  }

  lemma MaskAll(x: word32)
    ensures And(x, 0xFFFF_FFFF) == x && And(x, 0) == 0
  {
    hide And;
    assert Pow2(32) == B32 by { Pow2Values(); }
    AndOnes(x, 32);
    AndZero(x);
  }

  /** The least residue, chosen without a branch. */
  function Canonical(h: Limbs): (x: Limbs)
    requires Reduced(h)
    ensures Tight(x) && Val(x) == ModP(Val(h))
  {
    hide Cong, Combine;
    var t := FullCarry(h);
    var g := MinusP(t);
    var m := SelectMask(g.a4);
    var x := Limbs(Select(t.a0, g.a0, m), Select(t.a1, g.a1, m), Select(t.a2, g.a2, m), Select(t.a3, g.a3, m),
                   Select(t.a4, g.a4, m));
    assert x == if m == 0 then t else g;
    TightBound(t);
    CanonicalIs(Val(t), Val(h), Val(x));
    assert Tight(x) by { MinusPTight(t); }
    x
  }

  lemma TightBound(t: Limbs)
    requires Tight(t)
    ensures 0 <= Val(t) < P + 5
  {
  }

  lemma MinusPTight(t: Limbs)
    requires Tight(t)
    ensures Val(t) >= P ==> Tight(MinusP(t))
  {
  }

  lemma CanonicalIs(t: int, h: int, x: int)
    requires Cong(t, h, P) && 0 <= t < P + 5 && x == if t >= P then t - P else t
    ensures x == h % P
  {
    hide Cong;
    var k := CongCofactor(t, h, P);
    CongMod(h, P);
    CongByCofactor(x, t, if t >= P then -1 else 0, P);
    CongTrans(x, t, h, P);
    CongTrans(x, h, h % P, P);
    CongUnique(x, h % P, P);
  }

  // ---- words ---------------------------------------------------------------------------------

  datatype TagWords = TagWords(w0: word32, w1: word32, w2: word32, w3: word32)

  function WordsVal(w: TagWords): int { w.w0 + B32 * w.w1 + B64 * w.w2 + B96 * w.w3 }

  /** (lo >> s) | (hi << (26 - s)) in 32 bits, where `lo` has 26 bits. */
  function Join(lo: word32, hi: word32, s: nat, up: nat): (w: word32)
    requires lo < Pow2(up) && Pow2(up) * Pow2(s) == B32
    ensures w == lo + Pow2(up) * (hi % Pow2(s))
  {
    var p, q := Pow2(up), Pow2(s);
    var k := hi % q;
    assert hi == hi / q * q + k;
    ShiftSplit(hi, p, q);
    OrDisjoint(lo, k, up);
    JoinBound(lo, p, k, q);
    Or(lo, hi * p % 0x1_0000_0000)
  }

  lemma ShiftSplit(hi: nat, p: nat, q: nat)
    requires p > 0 && q > 0 && p * q == B32
    ensures hi * p % B32 == hi % q * p
  {
    var a, k := hi / q, hi % q;
    assert hi * p == (a * q + k) * p == a * (q * p) + k * p;
    MulBound(k, p, q - 1, p);
    assert (q - 1) * p == B32 - p;
    ModUnique(hi * p, B32, a, k * p);
  }

  lemma JoinBound(lo: nat, p: nat, k: nat, q: nat)
    requires lo < p && k < q && p * q == B32
    ensures 0 <= k * p && lo + k * p < B32
  {
    MulBound(k, p, q - 1, p);
    assert (q - 1) * p == B32 - p;
  }

  function Mod128(x: int): int { x % B128 }
  function ModP(x: int): int { x % P }

  /** The low 128 bits of the reduced accumulator as four words. */
  function Pack(h: Limbs): (w: TagWords)
    requires Tight(h)
    ensures WordsVal(w) == Mod128(Val(h))
  {
    hide Combine;
    Pow2At26();
    assert Pow2(26) * Pow2(6) == B32 && Pow2(20) * Pow2(12) == B32 && Pow2(14) * Pow2(18) == B32 &&
        Pow2(8) * Pow2(24) == B32;
    var w := TagWords(Join(h.a0, h.a1, 6, 26), Join(h.a1 / 64, h.a2, 12, 20), Join(h.a2 / 0x1000, h.a3, 18, 14),
                      Join(h.a3 / 0x4_0000, h.a4, 24, 8));
    PackVal(h, w);
    w
  }

  lemma PackVal(h: Limbs, w: TagWords)
    requires Tight(h)
    requires w.w0 == h.a0 + L1 * (h.a1 % 64) && w.w1 == h.a1 / 64 + 0x10_0000 * (h.a2 % 0x1000)
    requires w.w2 == h.a2 / 0x1000 + 0x4000 * (h.a3 % 0x4_0000) && w.w3 == h.a3 / 0x4_0000 + 0x100 * (h.a4 % 0x100_0000)
    ensures WordsVal(w) == Mod128(Val(h))
  {
    PackSum(h.a0, h.a1 / 64, h.a1 % 64, h.a2 / 0x1000, h.a2 % 0x1000, h.a3 / 0x4_0000, h.a3 % 0x4_0000,
            h.a4 / 0x100_0000, h.a4 % 0x100_0000);
    WordsBound(w);
    ModUnique(Val(h), B128, h.a4 / 0x100_0000, WordsVal(w));
  }

  lemma PackSum(a0: int, q1: int, r1: int, q2: int, r2: int, q3: int, r3: int, q4: int, r4: int)
    ensures Combine(a0, 64 * q1 + r1, 0x1000 * q2 + r2, 0x4_0000 * q3 + r3, 0x100_0000 * q4 + r4) ==
            q4 * B128 + ((a0 + L1 * r1) + B32 * (q1 + 0x10_0000 * r2)
                         + B64 * (q2 + 0x4000 * r3) + B96 * (q3 + 0x100 * r4))
  {
  }

  lemma WordsBound(w: TagWords)
    ensures 0 <= WordsVal(w) < B128
  {
  }

  /** Add the pad word by word, the carry in the upper half of a 64-bit sum, and drop the last carry. */
  function AddPad(w: TagWords, p: TagWords): (t: TagWords)
    ensures WordsVal(t) == Mod128(WordsVal(w) + WordsVal(p))
  {
    var f0: word64 := w.w0 + p.w0;
    var f1: word64 := w.w1 + p.w1 + f0 / B32;
    var f2: word64 := w.w2 + p.w2 + f1 / B32;
    var f3: word64 := w.w3 + p.w3 + f2 / B32;
    var t := TagWords(f0 % B32, f1 % B32, f2 % B32, f3 % B32);
    WordsBound(t);
    PadSum(w, p, f0 / B32, f1 / B32, f2 / B32, f3 / B32, t);
    ModUnique(WordsVal(w) + WordsVal(p), B128, f3 / B32, WordsVal(t));
    t
  }

  lemma PadSum(w: TagWords, p: TagWords, c0: int, c1: int, c2: int, c3: int, t: TagWords)
    requires w.w0 + p.w0 == B32 * c0 + t.w0 && w.w1 + p.w1 + c0 == B32 * c1 + t.w1
    requires w.w2 + p.w2 + c1 == B32 * c2 + t.w2 && w.w3 + p.w3 + c2 == B32 * c3 + t.w3
    ensures WordsVal(w) + WordsVal(p) == c3 * B128 + WordsVal(t)
  {
  }

  /** The whole epilogue on the accumulator and the pad. */
  function FinishWords(h: Limbs, pad: TagWords): (t: TagWords)
    requires Reduced(h)
    ensures WordsVal(t) == Mod128(ModP(Val(h)) + WordsVal(pad))
  {
    hide *;
    var c := Canonical(h);
    var w := Pack(c);
    var t := AddPad(w, pad);
    FinishSum(Val(c), WordsVal(w), WordsVal(pad), WordsVal(t));
    t
  }

  lemma FinishSum(v: int, w: int, pad: int, t: int)
    requires w == Mod128(v) && t == Mod128(w + pad)
    ensures t == Mod128(v + pad)
  {
    ModSum(v, pad);
  }

  lemma ModSum(a: int, b: int)
    ensures (a % B128 + b) % B128 == (a + b) % B128
  {
    var q := (a + b) / B128;
    assert a == a / B128 * B128 + a % B128;
    ModUnique(a % B128 + b, B128, q - a / B128, (a + b) % B128);
  }

  function PadWords(key: seq<byte>): (p: TagWords)
    requires |key| == 32
    ensures WordsVal(p) == Num(key[16..])
  {
    hide Num, FromLe32;
    var k := key[16..];
    NumOfBlock(k);
    TailWord(key, 0); TailWord(key, 4); TailWord(key, 8); TailWord(key, 12);
    TagWords(FromLe32(key, 16), FromLe32(key, 20), FromLe32(key, 24), FromLe32(key, 28))
  }

  lemma TailWord(key: seq<byte>, at: nat)
    requires |key| == 32 && at <= 12
    ensures FromLe32(key, 16 + at) == FromLe32(key[16..], at)
  {
  }

  function WordOctets(w: TagWords): (s: seq<byte>)
    ensures |s| == 16 && Num(s) == WordsVal(w)
  {
    hide Num, Le32;
    var s := Le32(w.w0) + Le32(w.w1) + Le32(w.w2) + Le32(w.w3);
    NumOfBlock(s);
    StoredWord(s, 0, w.w0); StoredWord(s, 4, w.w1); StoredWord(s, 8, w.w2); StoredWord(s, 12, w.w3);
    s
  }

  lemma StoredWord(s: seq<byte>, at: nat, w: word32)
    requires at + 4 <= |s| && s[at..at + 4] == Le32(w)
    ensures FromLe32(s, at) == w
  {
    FromLe32InContext(s, at, Le32(w));
    Le32RoundTrip(w);
  }
}
