/** The Poly1305 authenticator: section 2.5 of RFC 8439, and the streaming code that computes it. */
module Poly1305 {
  import opened Bytes
  import opened Congruence
  import opened Bits
  import opened Octets
  import Words
  import opened Poly1305Field

  const B32: nat := 0x1_0000_0000
  const B64: nat := 0x1_0000_0000_0000_0000
  const B96: nat := 0x1_0000_0000_0000_0000_0000_0000
  const B128: nat := 0x1_0000_0000_0000_0000_0000_0000_0000_0000

  // ---- the integer specification -------------------------------------------------------

  /** The first half of the key with the bits clamped that section 2.5 requires. */
  function ClampOctet(i: nat, b: byte): byte {
    if i % 4 == 3 then b % 16 else if i > 0 && i % 4 == 0 then b / 4 * 4 else b
  }

  function ClampedKey(key: seq<byte>): (r: seq<byte>)
    requires |key| == 32
    ensures |r| == 16
  {
    seq(16, i requires 0 <= i < 16 => ClampOctet(i, key[i]))
  }

  /** Where the last, possibly partial, 16-octet block of a nonempty message starts. */
  function LastBlock(n: nat): (k: nat)
    requires n > 0
    ensures k < n <= k + 16 && k % 16 == 0
  {
    WholeBlocks(n - 1);
    (n - 1) / 16 * 16
  }

  lemma WholeBlocks(n: nat)
    ensures n / 16 * 16 <= n < n / 16 * 16 + 16 && n / 16 * 16 % 16 == 0
  {
  }

  function MulMod(a: nat, r: nat): (x: nat)
    ensures x < P
  {
    CongMod(a * r, P);
    a * r % P
  }

  /** Each block, with a one octet appended, is added and the sum multiplied by r modulo P. */
  function Accumulate(msg: seq<byte>, r: nat): (a: nat)
    ensures a < P
    decreases |msg|
  {
    if msg == [] then 0
    else
      var k := LastBlock(|msg|);
      MulMod(Accumulate(msg[..k], r) + Num(msg[k..] + [1]), r)
  }

  function Tag(key: seq<byte>, msg: seq<byte>): (t: nat)
    requires |key| == 32
    ensures t < B128
  {
    (Accumulate(msg, Num(ClampedKey(key))) + Num(key[16..])) % B128
  }

  // ---- octet strings and words ------------------------------------------------------------

  /** A 16-octet string is four little-endian words. */
  lemma NumOfBlock(m: seq<byte>)
    requires |m| == 16
    ensures Num(m) == FromLe32(m, 0) + B32 * FromLe32(m, 4) + B64 * FromLe32(m, 8) + B96 * FromLe32(m, 12)
  {
    hide Num, FromLe32;
    assert Scale(1) == 256 && Scale(2) == 0x1_0000 && Scale(3) == 0x100_0000 && Scale(4) == B32;
    assert m == m[0..4] + (m[4..8] + (m[8..12] + m[12..16]));
    NumAppend(m[8..12], m[12..16]);
    NumAppend(m[4..8], m[8..12] + m[12..16]);
    NumAppend(m[0..4], m[4..8] + (m[8..12] + m[12..16]));
    WordAtOffset(m, 0);
    WordAtOffset(m, 4);
    WordAtOffset(m, 8);
    WordAtOffset(m, 12);
  }

  // ---- loading limbs -----------------------------------------------------------------------

  /** x & 0x3ffffff */
  function Mask26(x: word32): (r: word32)
    ensures r == x % L1
  {
    Pow2At26();
    AndOnes(x, 26);
    And(x, 0x3FF_FFFF)
  }

  lemma Pow2At26()
    ensures Pow2(26) == L1 && Pow2(18) == 0x4_0000 && Pow2(14) == 0x4000 && Pow2(12) == 0x1000 && Pow2(6) == 64
    ensures Pow2(20) == 0x10_0000 && Pow2(8) == 256 && Pow2(2) == 4 && Pow2(24) == 0x100_0000
  {
    assert Pow2(4) == 16 && Pow2(6) == 64 && Pow2(8) == 256 && Pow2(10) == 1024 && Pow2(12) == 0x1000;
    assert Pow2(14) == 0x4000 && Pow2(16) == 0x1_0000 && Pow2(18) == 0x4_0000 && Pow2(20) == 0x10_0000;
    assert Pow2(22) == 0x40_0000 && Pow2(24) == 0x100_0000;
  }

  /** The five 26-bit limbs of a 16-octet block; the top one has 24 bits. */
  function BlockLimbs(m: seq<byte>): (x: Limbs)
    requires |m| == 16
  {
    Limbs(Mask26(FromLe32(m, 0)), Mask26(FromLe32(m, 3) / 4), Mask26(FromLe32(m, 6) / 16),
          Mask26(FromLe32(m, 9) / 64), FromLe32(m, 12) / 256)
  }

  ghost predicate Octet(b: int) { 0 <= b < 256 }

  /** Four octets as a word, for arithmetic. */
  function Word(b0: int, b1: int, b2: int, b3: int): int { b0 + 0x100 * b1 + 0x1_0000 * b2 + 0x100_0000 * b3 }

  lemma Limb0(b0: int, b1: int, b2: int, b3: int)
    requires Octet(b0) && Octet(b1) && Octet(b2) && Octet(b3)
    ensures Word(b0, b1, b2, b3) % L1 == b0 + 0x100 * b1 + 0x1_0000 * b2 + 0x100_0000 * (b3 % 4)
  {
    ModUnique(Word(b0, b1, b2, b3), L1, b3 / 4, b0 + 0x100 * b1 + 0x1_0000 * b2 + 0x100_0000 * (b3 % 4));
  }

  lemma Limb1(b0: int, b1: int, b2: int, b3: int)
    requires Octet(b0) && Octet(b1) && Octet(b2) && Octet(b3)
    ensures Word(b0, b1, b2, b3) / 4 == b0 / 4 + 0x40 * b1 + 0x4000 * b2 + 0x40_0000 * b3
    ensures Word(b0, b1, b2, b3) / 4 % L1 == b0 / 4 + 0x40 * b1 + 0x4000 * b2 + 0x40_0000 * (b3 % 16)
  {
    var q := b0 / 4 + 0x40 * b1 + 0x4000 * b2 + 0x40_0000 * b3;
    ModUnique(Word(b0, b1, b2, b3), 4, q, b0 % 4);
    ModUnique(q, L1, b3 / 16, b0 / 4 + 0x40 * b1 + 0x4000 * b2 + 0x40_0000 * (b3 % 16));
  }

  lemma Limb2(b0: int, b1: int, b2: int, b3: int)
    requires Octet(b0) && Octet(b1) && Octet(b2) && Octet(b3)
    ensures Word(b0, b1, b2, b3) / 16 == b0 / 16 + 0x10 * b1 + 0x1000 * b2 + 0x10_0000 * b3
    ensures Word(b0, b1, b2, b3) / 16 % L1 == b0 / 16 + 0x10 * b1 + 0x1000 * b2 + 0x10_0000 * (b3 % 64)
  {
    var q := b0 / 16 + 0x10 * b1 + 0x1000 * b2 + 0x10_0000 * b3;
    ModUnique(Word(b0, b1, b2, b3), 16, q, b0 % 16);
    ModUnique(q, L1, b3 / 64, b0 / 16 + 0x10 * b1 + 0x1000 * b2 + 0x10_0000 * (b3 % 64));
  }

  lemma Limb3(b0: int, b1: int, b2: int, b3: int)
    requires Octet(b0) && Octet(b1) && Octet(b2) && Octet(b3)
    ensures Word(b0, b1, b2, b3) / 64 == b0 / 64 + 4 * b1 + 0x400 * b2 + 0x4_0000 * b3
    ensures Word(b0, b1, b2, b3) / 64 < L1
  {
    ModUnique(Word(b0, b1, b2, b3), 64, b0 / 64 + 4 * b1 + 0x400 * b2 + 0x4_0000 * b3, b0 % 64);
  }

  lemma Limb4(b0: int, b1: int, b2: int, b3: int)
    requires Octet(b0) && Octet(b1) && Octet(b2) && Octet(b3)
    ensures Word(b0, b1, b2, b3) / 256 == b1 + 0x100 * b2 + 0x1_0000 * b3
  {
    ModUnique(Word(b0, b1, b2, b3), 256, b1 + 0x100 * b2 + 0x1_0000 * b3, b0);
  }

  /** The limb boundaries fall inside octets 3, 6 and 9, whose two parts are given. */
  lemma LimbIdentity(m: seq<int>, a3: int, b3: int, a6: int, b6: int, a9: int, b9: int)
    requires |m| == 16 && m[3] == 4 * a3 + b3 && m[6] == 16 * a6 + b6 && m[9] == 64 * a9 + b9
    ensures Combine(m[0] + 0x100 * m[1] + 0x1_0000 * m[2] + 0x100_0000 * b3,
                    a3 + 0x40 * m[4] + 0x4000 * m[5] + 0x40_0000 * b6,
                    a6 + 0x10 * m[7] + 0x1000 * m[8] + 0x10_0000 * b9,
                    a9 + 4 * m[10] + 0x400 * m[11] + 0x4_0000 * m[12],
                    m[13] + 0x100 * m[14] + 0x1_0000 * m[15])
            == Word(m[0], m[1], m[2], m[3]) + B32 * Word(m[4], m[5], m[6], m[7])
             + B64 * Word(m[8], m[9], m[10], m[11]) + B96 * Word(m[12], m[13], m[14], m[15])
  {
  }

  /** The limbs of a block stand for its little-endian value. */
  lemma BlockLimbsVal(m: seq<byte>)
    requires |m| == 16
    ensures Val(BlockLimbs(m)) == Num(m)
  {
    hide Num, Mask26, Combine, Word, FromLe32;
    Limb0(m[0], m[1], m[2], m[3]);
    Limb1(m[3], m[4], m[5], m[6]);
    Limb2(m[6], m[7], m[8], m[9]);
    Limb3(m[9], m[10], m[11], m[12]);
    Limb4(m[12], m[13], m[14], m[15]);
    WordIs(m, 0); WordIs(m, 3); WordIs(m, 4); WordIs(m, 6); WordIs(m, 8); WordIs(m, 9); WordIs(m, 12);
    NumOfBlock(m);
    LimbIdentity(m, m[3] / 4, m[3] % 4, m[6] / 16, m[6] % 16, m[9] / 64, m[9] % 64);
    assert Mask26(FromLe32(m, 9) / 64) == FromLe32(m, 9) / 64;
  }

  lemma BlockLimbsBound(m: seq<byte>)
    requires |m| == 16
    ensures var x := BlockLimbs(m); x.a0 < L1 && x.a1 < L1 && x.a2 < L1 && x.a3 < L1 && x.a4 < 0x100_0000
  {
    hide Mask26, FromLe32;
  }

  lemma WordIs(m: seq<byte>, at: nat)
    requires at + 4 <= |m|
    ensures FromLe32(m, at) == Word(m[at], m[at + 1], m[at + 2], m[at + 3])
  {
  }

  // ---- one block -------------------------------------------------------------------------------

  /** Add a block to the accumulator, with the 2^128 bit unless it is the padded final block. */
  function Load(h: Limbs, m: seq<byte>, final: bool): (x: Limbs)
    requires Reduced(h) && |m| == 16
    ensures Loaded(x) && Val(x) == Val(h) + Num(m) + if final then 0 else B128
  {
    hide Num, BlockLimbs, Combine;
    BlockLimbsBound(m);
    BlockLimbsVal(m);
    var b := BlockLimbs(m);
    var hibit := if final then 0 else 0x100_0000;
    TopLimb(b.a4, hibit);
    var x := Limbs(h.a0 + b.a0, h.a1 + b.a1, h.a2 + b.a2, h.a3 + b.a3, h.a4 + Or(b.a4, hibit));
    LimbwiseSum(h, b, x, hibit);
    x
  }

  lemma TopLimb(x: nat, hibit: nat)
    requires x < 0x100_0000 && (hibit == 0 || hibit == 0x100_0000)
    ensures Or(x, hibit) == x + hibit
  {
    Pow2At26();
    OrDisjoint(x, if hibit == 0 then 0 else 1, 24);
  }

  lemma LimbwiseSum(h: Limbs, b: Limbs, x: Limbs, hibit: int)
    requires x.a0 == h.a0 + b.a0 && x.a1 == h.a1 + b.a1 && x.a2 == h.a2 + b.a2
    requires x.a3 == h.a3 + b.a3 && x.a4 == h.a4 + b.a4 + hibit
    ensures Val(x) == Val(h) + Val(b) + L4 * hibit
  {
  }

  /** One turn of the block loop. */
  function BlockStep(h: Limbs, r: Limbs, m: seq<byte>, final: bool): (x: Limbs)
    requires Reduced(h) && Clamped(r) && |m| == 16
    ensures Reduced(x)
    ensures Cong(Val(x), (Val(h) + Num(m) + if final then 0 else B128) * Val(r), P)
  {
    hide Num, Combine, Cong, Load, Carry, Columns, Val;
    var l := Load(h, m, final);
    var d := Columns(l, r);
    ColumnsAreProduct(l, r);
    var x := Carry(d);
    ThroughColumns(Val(x), Combine(d.d0, d.d1, d.d2, d.d3, d.d4), Val(l), Val(r));
    x
  }

  lemma ThroughColumns(x: int, c: int, l: int, r: int)
    requires Cong(x, c, P) && Cong(l * r, c, P)
    ensures Cong(x, l * r, P)
  {
    hide Cong;
    CongSym(l * r, c, P);
    CongTrans(x, c, l * r, P);
  }

  // ---- the key ------------------------------------------------------------------------------------

  function KeyLimbs(key: seq<byte>): (r: Limbs)
    requires |key| == 32
  {
    Limbs(MaskWord(FromLe32(key, 0), 0x3FF_FFFF), MaskWord(FromLe32(key, 3) / 4, 0x3FF_FF03),
          MaskWord(FromLe32(key, 6) / 16, 0x3FF_C0FF),
          MaskWord(FromLe32(key, 9) / 64, 0x3F0_3FFF), MaskWord(FromLe32(key, 12) / 256, 0x00F_FFFF))
  }

  function MaskWord(x: word32, m: word32): (r: word32)
  {
    Words.AndWidth(x, m);
    And(x, m)
  }

  /** A mask that keeps `a` bits at the bottom and `n` bits from position `k` up. */
  lemma MaskTwo(x: nat, m: nat, k: nat, a: nat, n: nat)
    requires m % Pow2(k) == Pow2(a) - 1 && m / Pow2(k) == Pow2(n) - 1
    ensures And(x, m) == x % Pow2(k) % Pow2(a) + Pow2(k) * (x / Pow2(k) % Pow2(n))
  {
    hide And, Pow2;
    AndSplit(x, m, k);
    HighLow(x, k);
    HighLow(m, k);
    AndOnes(x % Pow2(k), a);
    AndOnes(x / Pow2(k), n);
  }

  // The octets that a mask cuts through are given by their two parts.

  lemma MaskLimb1(c0: int, b1: int, c1: int, d1: int, b2: int, c3: int, d3: int)
    requires 0 <= c0 < 64 && 0 <= c1 < 64 && 0 <= d1 < 4 && b1 == 4 * c1 + d1
    requires Octet(b2) && 0 <= c3 < 16 && 0 <= d3 < 16
    ensures And(c0 + 0x40 * b1 + 0x4000 * b2 + 0x40_0000 * (16 * c3 + d3), 0x3FF_FF03) ==
            c0 % 4 + 0x100 * c1 + 0x4000 * b2 + 0x40_0000 * d3
  {
    hide And;
    var x := c0 + 0x40 * b1 + 0x4000 * b2 + 0x40_0000 * (16 * c3 + d3);
    assert Pow2(8) == 256 && Pow2(2) == 4 && Pow2(18) == 0x4_0000 by { Pow2At26(); }
    MaskTwo(x, 0x3FF_FF03, 8, 2, 18);
    var q := c1 + 0x40 * b2 + 0x4000 * (16 * c3 + d3);
    ModUnique(x, 256, q, c0 + 0x40 * d1);
    ModUnique(c0 + 0x40 * d1, 4, c0 / 4 + 0x10 * d1, c0 % 4);
    ModUnique(q, 0x4_0000, c3, c1 + 0x40 * b2 + 0x4000 * d3);
  }

  lemma MaskLimb2(c0: int, c1: int, d1: int, c2: int, d2: int, c3: int, d3: int)
    requires 0 <= c0 < 16 && 0 <= c1 < 16 && 0 <= d1 < 16 && 0 <= c2 < 64 && 0 <= d2 < 4 && 0 <= c3 < 4 && 0 <= d3 < 64
    ensures And(c0 + 0x10 * (16 * c1 + d1) + 0x1000 * (4 * c2 + d2) + 0x10_0000 * (64 * c3 + d3), 0x3FF_C0FF) ==
            c0 + 0x10 * d1 + 0x4000 * c2 + 0x10_0000 * d3
  {
    hide And;
    var x := c0 + 0x10 * (16 * c1 + d1) + 0x1000 * (4 * c2 + d2) + 0x10_0000 * (64 * c3 + d3);
    assert Pow2(14) == 0x4000 && Pow2(8) == 256 && Pow2(12) == 0x1000 by { Pow2At26(); }
    MaskTwo(x, 0x3FF_C0FF, 14, 8, 12);
    var q, r := c2 + 0x40 * (64 * c3 + d3), c0 + 0x10 * (16 * c1 + d1) + 0x1000 * d2;
    ModUnique(x, 0x4000, q, r);
    ModUnique(r, 256, c1 + 0x10 * d2, c0 + 0x10 * d1);
    ModUnique(q, 0x1000, c3, c2 + 0x40 * d3);
  }

  lemma MaskLimb3(c0: int, b1: int, c2: int, d2: int, c3: int, d3: int)
    requires 0 <= c0 < 4 && Octet(b1) && 0 <= c2 < 16 && 0 <= d2 < 16 && 0 <= c3 < 64 && 0 <= d3 < 4
    ensures And(c0 + 4 * b1 + 0x400 * (16 * c2 + d2) + 0x4_0000 * (4 * c3 + d3), 0x3F0_3FFF) ==
            c0 + 4 * b1 + 0x400 * d2 + 0x10_0000 * c3
  {
    hide And;
    var x := c0 + 4 * b1 + 0x400 * (16 * c2 + d2) + 0x4_0000 * (4 * c3 + d3);
    assert Pow2(20) == 0x10_0000 && Pow2(14) == 0x4000 && Pow2(6) == 64 by { Pow2At26(); }
    MaskTwo(x, 0x3F0_3FFF, 20, 14, 6);
    var r := c0 + 4 * b1 + 0x400 * (16 * c2 + d2) + 0x4_0000 * d3;
    ModUnique(x, 0x10_0000, c3, r);
    ModUnique(r, 0x4000, c2 + 0x10 * d3, c0 + 4 * b1 + 0x400 * d2);
    ModUnique(c3, 64, 0, c3);
  }

  lemma KeyLimb1(b0: int, b1: int, b2: int, b3: int)
    requires Octet(b0) && Octet(b1) && Octet(b2) && Octet(b3)
    ensures And(Word(b0, b1, b2, b3) / 4, 0x3FF_FF03) ==
            b0 / 4 % 4 + 0x100 * (b1 / 4) + 0x4000 * b2 + 0x40_0000 * (b3 % 16)
  {
    hide And, Word;
    Limb1(b0, b1, b2, b3);
    MaskLimb1(b0 / 4, b1, b1 / 4, b1 % 4, b2, b3 / 16, b3 % 16);
  }

  lemma KeyLimb2(b0: int, b1: int, b2: int, b3: int)
    requires Octet(b0) && Octet(b1) && Octet(b2) && Octet(b3)
    ensures And(Word(b0, b1, b2, b3) / 16, 0x3FF_C0FF) ==
            b0 / 16 + 0x10 * (b1 % 16) + 0x4000 * (b2 / 4) + 0x10_0000 * (b3 % 64)
  {
    hide And, Word;
    Limb2(b0, b1, b2, b3);
    MaskLimb2(b0 / 16, b1 / 16, b1 % 16, b2 / 4, b2 % 4, b3 / 64, b3 % 64);
  }

  lemma KeyLimb3(b0: int, b1: int, b2: int, b3: int)
    requires Octet(b0) && Octet(b1) && Octet(b2) && Octet(b3)
    ensures And(Word(b0, b1, b2, b3) / 64, 0x3F0_3FFF) == b0 / 64 + 4 * b1 + 0x400 * (b2 % 16) + 0x10_0000 * (b3 / 4)
  {
    hide And, Word;
    Limb3(b0, b1, b2, b3);
    MaskLimb3(b0 / 64, b1, b2 / 16, b2 % 16, b3 / 4, b3 % 4);
  }

  lemma KeyLimb4(b0: int, b1: int, b2: int, b3: int)
    requires Octet(b0) && Octet(b1) && Octet(b2) && Octet(b3)
    ensures And(Word(b0, b1, b2, b3) / 256, 0xF_FFFF) == b1 + 0x100 * b2 + 0x1_0000 * (b3 % 16)
  {
    hide And;
    Limb4(b0, b1, b2, b3);
    var x := Word(b0, b1, b2, b3) / 256;
    assert Pow2(20) == 0x10_0000 by { Pow2At26(); }
    AndOnes(x, 20);
    ModUnique(x, 0x10_0000, b3 / 16, b1 + 0x100 * b2 + 0x1_0000 * (b3 % 16));
  }

  lemma KeyLimb0(b0: int, b1: int, b2: int, b3: int)
    requires Octet(b0) && Octet(b1) && Octet(b2) && Octet(b3)
    ensures And(Word(b0, b1, b2, b3), 0x3FF_FFFF) == b0 + 0x100 * b1 + 0x1_0000 * b2 + 0x100_0000 * (b3 % 4)
  {
    hide And;
    Limb0(b0, b1, b2, b3);
    assert Pow2(26) == L1 by { Pow2At26(); }
    AndOnes(Word(b0, b1, b2, b3), 26);
  }

  /** The key limbs octet by octet; `k` is the first half of the key. */
  lemma KeyLimbsByOctet(key: seq<byte>, k: seq<int>)
    requires |key| == 32 && k == key[..16]
    ensures var r := KeyLimbs(key);
            && r.a0 == k[0] + 0x100 * k[1] + 0x1_0000 * k[2] + 0x100_0000 * (k[3] % 4)
            && r.a1 == k[3] / 4 % 4 + 0x100 * (k[4] / 4) + 0x4000 * k[5] + 0x40_0000 * (k[6] % 16)
            && r.a2 == k[6] / 16 + 0x10 * (k[7] % 16) + 0x4000 * (k[8] / 4) + 0x10_0000 * (k[9] % 64)
            && r.a3 == k[9] / 64 + 4 * k[10] + 0x400 * (k[11] % 16) + 0x10_0000 * (k[12] / 4)
            && r.a4 == k[13] + 0x100 * k[14] + 0x1_0000 * (k[15] % 16)
  {
    hide And, Word, FromLe32;
    assert forall i :: 0 <= i < 16 ==> k[i] == key[i];
    WordIs(key, 0); WordIs(key, 3); WordIs(key, 6); WordIs(key, 9); WordIs(key, 12);
    KeyLimb0(k[0], k[1], k[2], k[3]);
    KeyLimb1(k[3], k[4], k[5], k[6]);
    KeyLimb2(k[6], k[7], k[8], k[9]);
    KeyLimb3(k[9], k[10], k[11], k[12]);
    KeyLimb4(k[12], k[13], k[14], k[15]);
  }

  lemma ClampedOctets(key: seq<byte>, k: seq<int>, d: seq<int>)
    requires |key| == 32 && k == key[..16] && d == ClampedKey(key)
    ensures |d| == 16 && |k| == 16
    ensures d[0] == k[0] && d[1] == k[1] && d[2] == k[2] && d[5] == k[5] && d[6] == k[6] && d[9] == k[9]
    ensures d[10] == k[10] && d[13] == k[13] && d[14] == k[14]
    ensures d[3] == 4 * (k[3] / 4 % 4) + k[3] % 4 && d[7] == k[7] % 16 && d[11] == k[11] % 16 && d[15] == k[15] % 16
    ensures d[4] == 4 * (k[4] / 4) && d[8] == 4 * (k[8] / 4) && d[12] == 4 * (k[12] / 4)
    ensures k[6] == 16 * (k[6] / 16) + k[6] % 16 && k[9] == 64 * (k[9] / 64) + k[9] % 64
  {
  }

  /** The clamped limbs stand for the clamped key of section 2.5. */
  lemma KeyLimbsVal(key: seq<byte>)
    requires |key| == 32
    ensures Clamped(KeyLimbs(key)) && Val(KeyLimbs(key)) == Num(ClampedKey(key))
  {
    hide Num, KeyLimbs, FromLe32, Word, ClampedKey, ClampOctet;
    var k: seq<int> := key[..16];
    KeyLimbsByOctet(key, k);
    var c := ClampedKey(key);
    var d: seq<int> := c;
    ClampedOctets(key, k, d);
    NumOfBlock(c);
    WordIs(c, 0); WordIs(c, 4); WordIs(c, 8); WordIs(c, 12);
    LimbIdentity(d, k[3] / 4 % 4, k[3] % 4, k[6] / 16, k[6] % 16, k[9] / 64, k[9] % 64);
  }
}
