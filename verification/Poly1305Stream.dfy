/** Streaming Poly1305: message octets arrive in any pieces, blocks are buffered across them. */
module Poly1305Stream {
  import opened Bytes
  import opened Congruence
  import opened Poly1305Field
  import opened Octets
  import opened Poly1305
  import opened Poly1305Tag

  const BLOCK: nat := 16

  predicate Aligned(n: nat) { n % BLOCK == 0 }

  /** How many octets of `n` are past the last whole block. */
  function Spill(n: nat): (k: nat)
    ensures k < BLOCK && k <= n
  {
    n % BLOCK
  }

  lemma AlignedStep(i: nat, n: nat)
    requires Aligned(i) && Aligned(n)
    ensures Aligned(i + BLOCK) && (i < n ==> i + BLOCK <= n)
  {
  }

  lemma AlignedZero()
    ensures Aligned(0)
  {
  }

  lemma SpillIs(whole: nat, rest: nat)
    requires Aligned(whole)
    ensures Spill(whole + rest) == Spill(rest) && Aligned(rest - Spill(rest))
    ensures rest < BLOCK ==> Spill(rest) == rest
    ensures rest == BLOCK ==> Aligned(whole + rest)
  {
  }

  lemma BlockWithOne(m: seq<byte>)
    requires |m| == 16
    ensures Num(m + [1]) == Num(m) + B128
  {
    hide Num;
    NumAppend(m, [1]);
    assert Scale(4) == B32 && Scale(8) == B64 && Scale(12) == B96 && Scale(16) == B128;
    assert Num([1]) == 1 by { NumOfOctet(1); }
  }

  lemma NumOfOctet(b: byte)
    ensures Num([b]) == b
  {
    assert [b][1..] == [];
  }

  lemma {:induction false} NumOfZeros(n: nat)
    ensures Num(seq(n, _ => 0)) == 0
  {
    var z: seq<byte> := seq(n, _ => 0);
    if n > 0 {
      assert z[1..] == seq(n - 1, _ => 0);
      NumOfZeros(n - 1);
    }
  }

  /** One more full block: the limbs keep standing for the accumulator of section 2.5. */
  lemma AbsorbBlock(h: Limbs, r: Limbs, done: seq<byte>, m: seq<byte>)
    requires Reduced(h) && Clamped(r) && |m| == 16 && Aligned(|done|) && Val(r) >= 0
    requires Cong(Val(h), Accumulate(done, Val(r)), P)
    ensures Cong(Val(BlockStep(h, r, m, false)), Accumulate(done + m, Val(r)), P)
  {
    hide Num, Cong, BlockStep, Val, Accumulate, MulMod;
    BlockWithOne(m);
    AccumulateAppend(done, m, Val(r));
    var a, n, x := Accumulate(done, Val(r)), Num(m + [1]), Val(BlockStep(h, r, m, false));
    CongAddMul(Val(h), a, n, Val(r), P);
    CongTrans(x, (Val(h) + n) * Val(r), (a + n) * Val(r), P);
    assert Cong((a + n) * Val(r), MulMod(a + n, Val(r)), P) by {
      CongMod((a + n) * Val(r), P);
      MulModIs(a + n, Val(r));
    }
    CongTrans(x, (a + n) * Val(r), MulMod(a + n, Val(r)), P);
  }

  lemma MulModIs(a: nat, r: nat)
    ensures MulMod(a, r) == a * r % P
  {
  }

  lemma AccumulateAppend(done: seq<byte>, m: seq<byte>, r: nat)
    requires Aligned(|done|) && 0 < |m| <= 16
    ensures Accumulate(done + m, r) == MulMod(Accumulate(done, r) + Num(m + [1]), r)
  {
    hide Num, MulMod, Aligned, LastBlock, Accumulate;
    var all := done + m;
    LastBlockIs(|done|, |m|);
    AccumulateLast(all, r);
    assert all[..|done|] == done && all[|done|..] == m;
  }

  lemma AccumulateLast(msg: seq<byte>, r: nat)
    requires msg != []
    ensures var k := LastBlock(|msg|);
            Accumulate(msg, r) == MulMod(Accumulate(msg[..k], r) + Num(msg[k..] + [1]), r)
  {
    hide Num, MulMod, LastBlock;
  }

  lemma LastBlockIs(d: nat, n: nat)
    requires Aligned(d) && 0 < n <= 16
    ensures LastBlock(d + n) == d
  {
    WholeBlocks(d + n - 1);
  }

  /** The block the code builds from the octets left over: a one, then zeros. */
  function PadBlock(part: seq<byte>): (m: seq<byte>)
    requires |part| < 16
    ensures |m| == 16 && Num(m) == Num(part + [1])
  {
    hide Num, Scale;
    var z := seq(15 - |part|, _ => 0);
    NumAppend(part + [1], z);
    NumOfZeros(15 - |part|);
    TimesZero(Scale(|part + [1]|));
    part + [1] + z
  }

  lemma TimesZero(a: int)
    ensures a * 0 == 0
  {
  }

  lemma AbsorbLast(h: Limbs, r: Limbs, done: seq<byte>, part: seq<byte>)
    requires Reduced(h) && Clamped(r) && 0 < |part| < 16 && Aligned(|done|) && Val(r) >= 0
    requires Cong(Val(h), Accumulate(done, Val(r)), P)
    ensures Cong(Val(BlockStep(h, r, PadBlock(part), true)), Accumulate(done + part, Val(r)), P)
  {
    hide Num, Cong, BlockStep, Val, PadBlock, Accumulate, MulMod;
    AccumulateAppend(done, part, Val(r));
    var a, n, x := Accumulate(done, Val(r)), Num(part + [1]), Val(BlockStep(h, r, PadBlock(part), true));
    CongAddMul(Val(h), a, n, Val(r), P);
    CongTrans(x, (Val(h) + n) * Val(r), (a + n) * Val(r), P);
    assert Cong((a + n) * Val(r), MulMod(a + n, Val(r)), P) by {
      CongMod((a + n) * Val(r), P);
      MulModIs(a + n, Val(r));
    }
    CongTrans(x, (a + n) * Val(r), MulMod(a + n, Val(r)), P);
  }

  /** What the limbs stand for after the message `done` under `key`. */
  ghost predicate StandsFor(h: Limbs, key: seq<byte>, done: seq<byte>)
    requires |key| == 32
  {
    Reduced(h) && Cong(Val(h), Accumulate(done, Num(ClampedKey(key))), P)
  }

  lemma NothingStandsForNothing(key: seq<byte>)
    requires |key| == 32
    ensures StandsFor(Limbs(0, 0, 0, 0, 0), key, [])
  {
    hide Num, ClampedKey;
    CongByCofactor(0, 0, 0, P);
  }

  /** Whole blocks move the limbs along with the message. */
  lemma StandsForBlock(h: Limbs, key: seq<byte>, done: seq<byte>, m: seq<byte>)
    requires |key| == 32 && |m| == 16 && Aligned(|done|) && StandsFor(h, key, done)
    ensures Clamped(KeyLimbs(key)) && StandsFor(BlockStep(h, KeyLimbs(key), m, false), key, done + m)
  {
    hide KeyLimbs, ClampedKey, Num, BlockStep, Cong, Val, Accumulate;
    KeyLimbsVal(key);
    AbsorbBlock(h, KeyLimbs(key), done, m);
  }

  lemma StandsForLast(h: Limbs, key: seq<byte>, done: seq<byte>, part: seq<byte>)
    requires |key| == 32 && 0 < |part| < 16 && Aligned(|done|) && StandsFor(h, key, done)
    ensures Clamped(KeyLimbs(key)) && StandsFor(BlockStep(h, KeyLimbs(key), PadBlock(part), true), key, done + part)
  {
    hide KeyLimbs, ClampedKey, Num, BlockStep, Cong, Val, Accumulate, PadBlock;
    KeyLimbsVal(key);
    AbsorbLast(h, KeyLimbs(key), done, part);
  }

  /** The limbs stand for the whole blocks of a message and the buffer holds the rest. */
  ghost predicate Held(h: Limbs, rest: seq<byte>, key: seq<byte>, msg: seq<byte>)
    requires |key| == 32
  {
    |rest| == Spill(|msg|) && rest == msg[|msg| - |rest|..] && StandsFor(h, key, msg[..|msg| - |rest|])
  }

  lemma HeldParts(h: Limbs, rest: seq<byte>, key: seq<byte>, msg: seq<byte>) returns (whole: seq<byte>)
    requires |key| == 32 && Held(h, rest, key, msg)
    ensures msg == whole + rest && Aligned(|whole|) && |rest| < BLOCK && StandsFor(h, key, whole)
  {
    hide Spill, Aligned, StandsFor;
    whole := msg[..|msg| - |rest|];
    AlignedZero();
    SpillIs(0, |msg|);
  }

  lemma HeldBy(h: Limbs, rest: seq<byte>, key: seq<byte>, msg: seq<byte>, whole: seq<byte>)
    requires |key| == 32 && msg == whole + rest && Aligned(|whole|) && |rest| < BLOCK && StandsFor(h, key, whole)
    ensures Held(h, rest, key, msg)
  {
    hide Spill, Aligned, StandsFor;
    SpillIs(|whole|, |rest|);
    assert msg[..|whole|] == whole;
  }

  class Authenticator {
    var r: Limbs
    var h: Limbs
    var pad: TagWords
    var leftover: nat
    const buffer: array<byte>
    ghost var key: seq<byte>
    ghost var msg: seq<byte>

    ghost predicate Valid()
      reads this, buffer
    {
      && buffer.Length == BLOCK && |key| == 32 && leftover < BLOCK
      && r == KeyLimbs(key) && pad == PadWords(key) && Held(h, buffer[..leftover], key, msg)
    }

    constructor (k: seq<byte>)
      requires |k| == 32
      ensures Valid() && key == k && msg == [] && fresh(buffer)
    {
      hide KeyLimbs, PadWords, StandsFor, Num, WordsVal, Accumulate, ClampedKey, Spill;
      r, pad := KeyLimbs(k), PadWords(k);
      h := Limbs(0, 0, 0, 0, 0);
      leftover := 0;
      buffer := new byte[BLOCK];
      key, msg := k, [];
      new;
      NothingStandsForNothing(k);
      AlignedZero();
      HeldBy(h, [], k, [], []);
    }

    /** Process whole blocks. */
    method Blocks(m: seq<byte>, ghost done: seq<byte>)
      requires Aligned(|m|) && Aligned(|done|) && |key| == 32 && r == KeyLimbs(key) && StandsFor(h, key, done)
      modifies this`h
      ensures StandsFor(h, key, done + m)
    {
      hide KeyLimbs, BlockStep, StandsFor, Aligned;
      var i := 0;
      assert done + m[..0] == done;
      assert Aligned(0) by { AlignedZero(); }
      while i < |m|
        invariant 0 <= i <= |m| && Aligned(i) && Aligned(|done + m[..i]|)
        invariant StandsFor(h, key, done + m[..i])
      {
        AlignedStep(i, |m|);
        AlignedStep(|done + m[..i]|, |m|);
        StandsForBlock(h, key, done + m[..i], m[i..i + BLOCK]);
        assert done + m[..i] + m[i..i + BLOCK] == done + m[..i + BLOCK];
        assert Reduced(h) by { IsReduced(h, key, done + m[..i]); }
        h := BlockStep(h, r, m[i..i + BLOCK], false);
        i := i + BLOCK;
      }
      assert m[..i] == m;
    }

    /** Copy octets behind the ones already buffered. */
    method Buffer(m: seq<byte>)
      requires buffer.Length == BLOCK && leftover + |m| <= BLOCK
      modifies this`leftover, buffer
      ensures leftover == old(leftover) + |m|
      ensures buffer[..leftover] == old(buffer[..leftover]) + m
    {
      forall i | 0 <= i < |m| {
        buffer[leftover + i] := m[i];
      }
      leftover := leftover + |m|;
    }

    /** With an empty buffer: process the whole blocks and keep the rest. */
    method Absorb(m: seq<byte>, ghost whole: seq<byte>)
      requires buffer.Length == BLOCK && leftover == 0 && |key| == 32 && r == KeyLimbs(key)
      requires Aligned(|whole|) && StandsFor(h, key, whole)
      modifies this`h, this`leftover, buffer
      ensures leftover == Spill(|m|) && buffer[..leftover] == m[|m| - leftover..]
      ensures StandsFor(h, key, whole + m[..|m| - leftover])
    {
      hide KeyLimbs, StandsFor, Spill, Aligned;
      var want := |m| - Spill(|m|);
      SpillIs(|whole|, |m|);
      assert whole + m[..0] == whole;
      if |m| >= BLOCK {
        Blocks(m[..want], whole);
      }
      Buffer(m[want..]);
    }

    /** With octets waiting: top the buffer up, and process it once it is full. */
    method TopUp(m: seq<byte>, ghost whole: seq<byte>, ghost tail: seq<byte>) returns (want: nat)
      requires buffer.Length == BLOCK && 0 < leftover < BLOCK && |key| == 32 && r == KeyLimbs(key)
      requires buffer[..leftover] == tail && Aligned(|whole|) && StandsFor(h, key, whole)
      modifies this`h, this`leftover, buffer
      ensures want <= |m|
      ensures leftover == 0 || leftover == |tail| + |m| < BLOCK
      ensures leftover == 0 ==> |tail| + want == BLOCK && StandsFor(h, key, whole + (tail + m[..want]))
      ensures leftover != 0 ==> buffer[..leftover] == tail + m && StandsFor(h, key, whole)
    {
      hide KeyLimbs, StandsFor, Aligned;
      AlignedZero();
      AlignedStep(0, |whole|);
      want := if BLOCK - leftover > |m| then |m| else BLOCK - leftover;
      Buffer(m[..want]);
      if leftover < BLOCK {
        assert m[..want] == m;
        return;
      }
      assert buffer[..] == tail + m[..want];
      Blocks(buffer[..], whole);
      leftover := 0;
    }

    /** Take in any number of octets. */
    method Update(m: seq<byte>)
      requires Valid()
      modifies this`h, this`leftover, this`msg, buffer
      ensures Valid() && msg == old(msg) + m && key == old(key)
    {
      hide KeyLimbs, PadWords, StandsFor, Aligned, Spill, Held;
      ghost var tail := buffer[..leftover];
      ghost var whole := HeldParts(h, tail, key, msg);
      var want := 0;
      if leftover != 0 {
        want := TopUp(m, whole, tail);
        if leftover != 0 {
          HeldBy(h, tail + m, key, msg + m, whole);
          msg := msg + m;
          return;
        }
        AlignedBlock(|whole|);
        whole := whole + (tail + m[..want]);
      }
      assert whole == msg + m[..want];
      Absorb(m[want..], whole);
      HeldAfter(h, buffer[..leftover], key, msg, m, want, whole);
      msg := msg + m;
    }

    /** Pad and absorb what is left, reduce, add the pad, and wipe the state. */
    method Finish() returns (mac: seq<byte>)
      requires Valid()
      modifies this, buffer
      ensures |mac| == 16 && Num(mac) == Tag(old(key), old(msg))
      ensures h == r == Limbs(0, 0, 0, 0, 0) && pad == TagWords(0, 0, 0, 0)
    {
      hide KeyLimbs, PadWords, StandsFor, BlockStep, FinishWords, WordOctets, PadBlock, Tag, Num, Spill, Aligned, Held;
      ghost var part := buffer[..leftover];
      ghost var whole := HeldParts(h, part, key, msg);
      if leftover != 0 {
        StandsForLast(h, key, whole, part);
        IsReduced(h, key, whole);
        h := BlockStep(h, r, PadBlock(buffer[..leftover]), true);
      } else {
        assert whole == msg;
      }
      IsReduced(h, key, msg);
      var t := FinishWords(h, pad);
      TagIs(h, key, msg, pad);
      mac := WordOctets(t);
      h, r := Limbs(0, 0, 0, 0, 0), Limbs(0, 0, 0, 0, 0);
      pad := TagWords(0, 0, 0, 0);
    }
  }

  lemma HeldAfter(h: Limbs, rest: seq<byte>, key: seq<byte>, msg: seq<byte>, m: seq<byte>, want: nat, whole: seq<byte>)
    requires |key| == 32 && want <= |m| && whole == msg + m[..want] && Aligned(|whole|)
    requires |rest| == Spill(|m| - want) && rest == m[|m| - |rest|..]
    requires StandsFor(h, key, whole + m[want..][..|m| - want - |rest|])
    ensures Held(h, rest, key, msg + m)
  {
    hide Spill, Aligned, StandsFor, Held;
    AlignedRest(|whole|, |m| - want);
    var more := m[want..][..|m| - want - |rest|];
    assert m[want..] == more + rest;
    HeldBy(h, rest, key, msg + m, whole + more);
  }

  lemma AlignedBlock(n: nat)
    requires Aligned(n)
    ensures Aligned(n + BLOCK)
  {
  }

  lemma AlignedRest(n: nat, m: nat)
    requires Aligned(n)
    ensures Spill(m) <= m && Spill(m) < BLOCK && Aligned(n + (m - Spill(m)))
  {
  }

  lemma TagIs(h: Limbs, key: seq<byte>, msg: seq<byte>, pad: TagWords)
    requires |key| == 32 && StandsFor(h, key, msg) && pad == PadWords(key)
    ensures WordsVal(FinishWords(h, pad)) == Tag(key, msg)
  {
    hide Num, Combine, WordsVal, FinishWords, PadWords, Accumulate, ClampedKey, Val, Cong;
    var a := Accumulate(msg, Num(ClampedKey(key)));
    ResidueIs(Val(h), a);
  }

  lemma ResidueIs(v: int, a: nat)
    requires Cong(v, a, P) && a < P
    ensures ModP(v) == a
  {
    hide Cong;
    CongMod(v, P);
    var k := CongCofactor(v, a, P);
    var l := CongCofactor(v, v % P, P);
    CongByCofactor(v % P, a, k - l, P);
    CongUnique(v % P, a, P);
  }

  lemma IsReduced(h: Limbs, key: seq<byte>, done: seq<byte>)
    requires |key| == 32 && StandsFor(h, key, done)
    ensures Reduced(h)
  {
  }

  /** For every key, every message and every way of cutting it into updates, the tag is the specified one. */
  method Authenticate(key: seq<byte>, parts: seq<seq<byte>>) returns (mac: seq<byte>)
    requires |key| == 32
    ensures |mac| == 16 && Num(mac) == Tag(key, Concat(parts))
  {
    hide Num, Tag;
    var a := new Authenticator(key);
    for i := 0 to |parts|
      invariant a.Valid() && a.key == key && a.msg == Concat(parts[..i]) && fresh(a) && fresh(a.buffer)
    {
      a.Update(parts[i]);
      assert parts[..i + 1][..i] == parts[..i];
    }
    assert parts[..|parts|] == parts;
    mac := a.Finish();
  }
}
