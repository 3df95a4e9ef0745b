/** BLAKE2s: sections 3.1 to 3.3 of RFC 7693, and the streaming code that computes it. */
module Blake2s {
  import opened Bytes
  import opened Bits
  import opened Words
  import opened Octets

  const BLOCK: nat := 64
  const IV: seq<word32> := [
    0x6A09E667, 0xBB67AE85, 0x3C6EF372, 0xA54FF53A,
    0x510E527F, 0x9B05688C, 0x1F83D9AB, 0x5BE0CD19
  ]

  const SIGMA: seq<seq<nat>> := [
    [0, 1, 2, 3, 4, 5, 6, 7, 8, 9, 10, 11, 12, 13, 14, 15],
    [14, 10, 4, 8, 9, 15, 13, 6, 1, 12, 0, 2, 11, 7, 5, 3],
    [11, 8, 12, 0, 5, 2, 15, 13, 10, 14, 3, 6, 7, 1, 9, 4],
    [7, 9, 3, 1, 13, 12, 11, 14, 2, 6, 5, 10, 4, 0, 15, 8],
    [9, 0, 5, 7, 2, 4, 10, 15, 14, 1, 11, 12, 6, 8, 3, 13],
    [2, 12, 6, 10, 0, 11, 8, 3, 4, 13, 7, 5, 15, 14, 1, 9],
    [12, 5, 1, 15, 14, 13, 4, 10, 0, 7, 6, 3, 9, 2, 8, 11],
    [13, 11, 7, 14, 12, 1, 3, 9, 5, 0, 15, 4, 8, 6, 2, 10],
    [6, 15, 14, 9, 11, 3, 0, 8, 12, 2, 13, 7, 1, 4, 10, 5],
    [10, 2, 8, 4, 7, 6, 1, 5, 15, 11, 9, 14, 3, 12, 13, 0]
  ]

  type Chaining = h: seq<word32> | |h| == 8 witness seq(8, _ => 0)

  predicate Schedule(p: seq<nat>) { |p| == 16 && forall i :: 0 <= i < 16 ==> p[i] < 16 }

  lemma SchedulesOk(i: nat)
    requires i < 10
    ensures |SIGMA| == 10 && Schedule(SIGMA[i])
  {
  }

  // ---- the compression function on values -------------------------------------------------------------------

  /** Half of the mixing function G: one message word, two rotations to the right. */
  function HalfMix(q: Four, x: word32, r1: nat, r2: nat): Four
    requires 0 < r1 < 32 && 0 < r2 < 32
  {
    var a := Plus(Plus(q.a, q.b), x);
    var d := Rotated(Xor32(q.d, a), 32 - r1);
    var c := Plus(q.c, d);
    Four(a, Rotated(Xor32(q.b, c), 32 - r2), c, d)
  }

  function HalfMixAt(v: State, i: nat, j: nat, k: nat, l: nat, x: word32, r1: nat, r2: nat): State
    requires Apart(i, j, k, l) && 0 < r1 < 32 && 0 < r2 < 32
  {
    var q := HalfMix(Four(v[i], v[j], v[k], v[l]), x, r1, r2);
    v[i := q.a][j := q.b][k := q.c][l := q.d]
  }

  /** The mixing function G on four words of the vector. */
  function MixAt(v: State, i: nat, j: nat, k: nat, l: nat, x: word32, y: word32): State
    requires Apart(i, j, k, l)
  {
    HalfMixAt(HalfMixAt(v, i, j, k, l, x, 16, 12), i, j, k, l, y, 8, 7)
  }

  function MixColumns(v: State, m: State, p: seq<nat>): State
    requires Schedule(p)
  {
    hide HalfMixAt;
    var v1 := MixAt(v, 0, 4, 8, 12, m[p[0]], m[p[1]]);
    var v2 := MixAt(v1, 1, 5, 9, 13, m[p[2]], m[p[3]]);
    var v3 := MixAt(v2, 2, 6, 10, 14, m[p[4]], m[p[5]]);
    MixAt(v3, 3, 7, 11, 15, m[p[6]], m[p[7]])
  }

  function MixDiagonals(v: State, m: State, p: seq<nat>): State
    requires Schedule(p)
  {
    hide HalfMixAt;
    var v1 := MixAt(v, 0, 5, 10, 15, m[p[8]], m[p[9]]);
    var v2 := MixAt(v1, 1, 6, 11, 12, m[p[10]], m[p[11]]);
    var v3 := MixAt(v2, 2, 7, 8, 13, m[p[12]], m[p[13]]);
    MixAt(v3, 3, 4, 9, 14, m[p[14]], m[p[15]])
  }

  /** One round: columns, then diagonals, message words in the order of the schedule. */
  function Round(v: State, m: State, p: seq<nat>): State
    requires Schedule(p)
  {
    hide MixColumns, MixDiagonals;
    MixDiagonals(MixColumns(v, m, p), m, p)
  }

  function MixRounds(v: State, m: State, n: nat): State
    requires n <= 10
  {
    if n == 0 then v else (SchedulesOk(n - 1); Round(MixRounds(v, m, n - 1), m, SIGMA[n - 1]))
  }

  /** The working vector of section 3.2: the offset in words 12 and 13, the last-block flag in word 14. */
  function Start(h: Chaining, t: word64, last: bool): State {
    hide Xor;
    h + IV[..4] + [
      Xor32(IV[4], t % 0x1_0000_0000), Xor32(IV[5], t / 0x1_0000_0000),
      if last then Xor32(IV[6], 0xFFFF_FFFF) else IV[6], IV[7]]
  }

  function MessageWords(block: seq<byte>): State
    requires |block| == BLOCK
  {
    seq(16, i requires 0 <= i < 16 => FromLe32(block, 4 * i))
  }

  function Compressed(h: Chaining, block: seq<byte>, t: word64, last: bool): Chaining
    requires |block| == BLOCK
  {
    Folded(h, MixRounds(Start(h, t, last), MessageWords(block), 10))
  }

  /** Both halves of the working vector are folded into the chaining value. */
  function Folded(h: Chaining, v: State): Chaining {
    seq(8, i requires 0 <= i < 8 => Xor32(Xor32(h[i], v[i]), v[i + 8]))
  }

  lemma CompressedIs(h: Chaining, block: seq<byte>, t: word64, last: bool, r: Chaining)
    requires |block| == BLOCK && r == Folded(h, MixRounds(Start(h, t, last), MessageWords(block), 10))
    ensures r == Compressed(h, block, t, last)
  {
  }

  // ---- section 3.3 --------------------------------------------------------------------------------------------

  function Filled(s: seq<byte>): (r: seq<byte>)
    requires |s| <= BLOCK
    ensures |r| == BLOCK
  {
    s + seq(BLOCK - |s|, _ => 0)
  }

  /** A key occupies a whole block of its own in front of the message. */
  function Input(key: seq<byte>, msg: seq<byte>): seq<byte>
    requires |key| <= 32
  {
    if key == [] then msg else Filled(key) + msg
  }

  /** The parameter word mixes digest and key length into the initial state. */
  function Parameters(outlen: nat, keylen: nat): Chaining
    requires outlen <= 32 && keylen <= 32
  {
    IV[0 := Xor32(IV[0], Xor32(Xor32(0x01010000, keylen * 256), outlen))]
  }

  /** The chaining value after the first i blocks, none of them last. */
  function Chained(h: Chaining, s: seq<byte>, i: nat): Chaining
    requires BLOCK * i <= |s|
  {
    if i == 0 then h
    else Compressed(Chained(h, s, i - 1), s[BLOCK * (i - 1)..BLOCK * i], Count(BLOCK * i), false)
  }

  function Count(n: nat): word64 { n % 0x1_0000_0000_0000_0000 }

  /** How many blocks come before the last one; the last is never empty unless the whole input is. */
  function Before(n: nat): (k: nat)
    ensures BLOCK * k <= n <= BLOCK * k + BLOCK && (n > 0 ==> BLOCK * k < n)
  {
    if n == 0 then 0 else (n - 1) / BLOCK
  }

  /** The last block compressed, with the count of the whole input. */
  function Finished(h: Chaining, s: seq<byte>): (r: seq<byte>)
    ensures |r| == 32
  {
    var k := Before(|s|);
    Serialize(Compressed(Chained(h, s, k), Filled(s[BLOCK * k..]), Count(|s|), true))
  }

  function Digest(key: seq<byte>, outlen: nat, msg: seq<byte>): (d: seq<byte>)
    requires |key| <= 32 && 0 < outlen <= 32
    ensures |d| == outlen
  {
    Finished(Parameters(outlen, |key|), Input(key, msg))[..outlen]
  }

  // ---- the code -------------------------------------------------------------------------------------------------

  method HalfMixInPlace(v: array<word32>, i: nat, j: nat, k: nat, l: nat, x: word32, r1: nat, r2: nat)
    requires v.Length == 16 && Apart(i, j, k, l) && 0 < r1 < 32 && 0 < r2 < 32
    modifies v
    ensures v[..] == HalfMixAt(old(v[..]), i, j, k, l, x, r1, r2)
  {
    hide Rotated, Xor, Plus;
    v[i] := Plus(Plus(v[i], v[j]), x);
    v[l] := Rotr32(Xor32(v[l], v[i]), r1);
    v[k] := Plus(v[k], v[l]);
    v[j] := Rotr32(Xor32(v[j], v[k]), r2);
  }

  method MixInPlace(v: array<word32>, i: nat, j: nat, k: nat, l: nat, x: word32, y: word32)
    requires v.Length == 16 && Apart(i, j, k, l)
    modifies v
    ensures v[..] == MixAt(old(v[..]), i, j, k, l, x, y)
  {
    hide HalfMixAt;
    HalfMixInPlace(v, i, j, k, l, x, 16, 12);
    HalfMixInPlace(v, i, j, k, l, y, 8, 7);
  }

  method RoundInPlace(v: array<word32>, m: State, p: seq<nat>)
    requires v.Length == 16 && Schedule(p)
    modifies v
    ensures v[..] == Round(old(v[..]), m, p)
  {
    hide MixAt;
    MixInPlace(v, 0, 4, 8, 12, m[p[0]], m[p[1]]);
    MixInPlace(v, 1, 5, 9, 13, m[p[2]], m[p[3]]);
    MixInPlace(v, 2, 6, 10, 14, m[p[4]], m[p[5]]);
    MixInPlace(v, 3, 7, 11, 15, m[p[6]], m[p[7]]);
    MixInPlace(v, 0, 5, 10, 15, m[p[8]], m[p[9]]);
    MixInPlace(v, 1, 6, 11, 12, m[p[10]], m[p[11]]);
    MixInPlace(v, 2, 7, 8, 13, m[p[12]], m[p[13]]);
    MixInPlace(v, 3, 4, 9, 14, m[p[14]], m[p[15]]);
  }

  lemma MixRoundsStart(v: State, m: State)
    ensures MixRounds(v, m, 0) == v
  {
  }

  lemma MixRoundsNext(v: State, m: State, n: nat)
    requires n < 10
    ensures Schedule(SIGMA[n]) && MixRounds(v, m, n + 1) == Round(MixRounds(v, m, n), m, SIGMA[n])
  {
    hide Round;
    SchedulesOk(n);
  }

  lemma ComplementIs(x: word32)
    ensures 0xFFFF_FFFF - x == Xor32(x, 0xFFFF_FFFF)
  {
    hide Xor;
    assert Pow2(32) == 0x1_0000_0000 by { Pow2Values(); }
    XorOnes(x, 32);
  }

  class Hasher {
    const b: array<byte>
    const h: array<word32>
    var t0: word32
    var t1: word32
    var c: nat
    var outlen: nat
    ghost var first: Chaining
    ghost var stream: seq<byte>
    ghost var done: nat

    ghost predicate Shaped() { b.Length == BLOCK && h.Length == 8 }

    /** `done` blocks are compressed and counted, the rest of the stream is buffered; a full block waits. */
    ghost predicate Holding()
      reads this, b, h
    {
      && Shaped() && c <= BLOCK && |stream| == BLOCK * done + c
      && b[..c] == stream[BLOCK * done..]
      && h[..] == Chained(first, stream, done)
      && t0 + 0x1_0000_0000 * t1 == Count(BLOCK * done)
    }

    ghost predicate Valid()
      reads this, b, h
    {
      Holding() && 0 < outlen <= 32 && (c == 0 ==> stream == [])
    }

    constructor ()
      ensures Shaped() && fresh(b) && fresh(h)
    {
      b := new byte[BLOCK];
      h := new word32[8];
    }

    method Compress(last: bool)
      requires Shaped()
      modifies h
      ensures h[..] == Compressed(old(h[..]), b[..], t0 + 0x1_0000_0000 * t1, last)
    {
      hide Xor, MixRounds, Round, MessageWords, Compressed, Folded;
      var v := new word32[16];
      var m := MessageWords(b[..]);
      forall i | 0 <= i < 16 {
        v[i] := if i < 8 then h[i] else IV[i - 8];
      }
      v[12] := Xor32(v[12], t0);
      v[13] := Xor32(v[13], t1);
      if last {
        ComplementIs(v[14]);
        v[14] := 0xFFFF_FFFF - v[14];
      }
      ghost var s := Start(h[..], t0 + 0x1_0000_0000 * t1, last);
      assert v[..] == s;
      MixRoundsStart(s, m);
      for i := 0 to 10
        invariant v[..] == MixRounds(s, m, i) && h[..] == old(h[..])
      {
        MixRoundsNext(s, m, i);
        RoundInPlace(v, m, SIGMA[i]);
      }
      Fold(v, s, m);
      assert b[..] == old(b[..]);
      assert s == Start(old(h[..]), t0 + 0x1_0000_0000 * t1, last);
      assert m == MessageWords(b[..]);
      assert h[..] == Folded(old(h[..]), MixRounds(s, m, 10));
      CompressedIs(old(h[..]), b[..], t0 + 0x1_0000_0000 * t1, last, h[..]);
    }

    method Fold(v: array<word32>, ghost s: State, ghost m: State)
      requires Shaped() && v.Length == 16 && v != h && v[..] == MixRounds(s, m, 10)
      modifies h
      ensures h[..] == Folded(old(h[..]), MixRounds(s, m, 10))
    {
      hide Xor, MixRounds;
      ghost var h0, w := h[..], v[..];
      for i := 0 to 8
        invariant v[..] == w
        invariant forall k :: 0 <= k < i ==> h[k] == Xor32(Xor32(h0[k], w[k]), w[k + 8])
        invariant forall k :: i <= k < 8 ==> h[k] == h0[k]
      {
        XorAssociates(h[i], v[i], v[i + 8]);
        h[i] := Xor32(h[i], Xor32(v[i], v[i + 8]));
      }
    }

    /** Add to the two-word counter. */
    method CountUp(n: nat, ghost total: nat)
      requires n <= BLOCK && t0 + 0x1_0000_0000 * t1 == Count(total)
      modifies this`t0, this`t1
      ensures t0 + 0x1_0000_0000 * t1 == Count(total + n)
    {
      hide Count;
      CounterCarry(t0, t1, n, total);
      t0 := Plus(t0, n);
      if t0 < n {
        t1 := Plus(t1, 1);
      }
    }

    /** Compress a full buffer that turned out not to be the last block. */
    method Flush()
      requires Holding() && c == BLOCK
      modifies this`t0, this`t1, this`c, this`done, h
      ensures Holding() && c == 0 && t0 + 0x1_0000_0000 * t1 == Count(BLOCK * done)
    {
      hide Count, Compressed, Chained;
      CountUp(c, BLOCK * done);
      assert b[..] == stream[BLOCK * done..BLOCK * done + BLOCK];
      Compress(false);
      ChainedNext(first, stream, done);
      done := done + 1;
      c := 0;
    }

    method Put(x: byte)
      requires Holding() && c < BLOCK
      modifies this`c, this`stream, b
      ensures Holding() && c == old(c) + 1 && stream == old(stream) + [x]
      ensures b[c..] == old(b[..])[c..]
    {
      hide Count, Chained;
      ChainedExtends(first, stream, [x], done);
      b[c] := x;
      c := c + 1;
      stream := stream + [x];
    }

    method Update(m: seq<byte>)
      requires Valid()
      modifies this`t0, this`t1, this`c, this`done, this`stream, b, h
      ensures Valid() && stream == old(stream) + m
      ensures old(c) + |m| <= BLOCK ==> done == old(done) && b[c..] == old(b[..])[c..]
    {
      hide Count, Chained, Holding;
      Fits();
      assert stream == old(stream) + m[..0];
      for i := 0 to |m|
        invariant Shaped() && c <= BLOCK && Valid() && stream == old(stream) + m[..i]
        invariant old(c) + i <= BLOCK ==> c == old(c) + i && done == old(done) && b[c..] == old(b[..])[c..]
      {
        if c == BLOCK {
          Flush();
        }
        Fits();
        Put(m[i]);
        Fits();
        assert m[..i + 1] == m[..i] + [m[i]];
      }
      assert m[..|m|] == m;
    }

    lemma Fits()
      requires Holding()
      ensures Shaped() && c <= BLOCK
    {
    }

    /** The key, if any, fills a whole block in front of the message; that block is not compressed yet. */
    method Init(n: nat, key: seq<byte>) returns (ok: bool)
      requires Shaped()
      modifies this, b, h
      ensures ok == (0 < n <= 32 && |key| <= 32)
      ensures ok ==> Valid() && outlen == n && first == Parameters(n, |key|) && stream == Input(key, [])
      ensures !ok ==> unchanged(this, b, h)
    {
      hide Count, Xor, Holding;
      if n == 0 || n > 32 || |key| > 32 {
        return false;
      }
      forall i | 0 <= i < 8 {
        h[i] := IV[i];
      }
      h[0] := Xor32(h[0], Xor32(Xor32(0x01010000, |key| * 256), n));
      assert h[..] == Parameters(n, |key|);
      t0, t1, c, outlen := 0, 0, 0, n;
      first, stream, done := Parameters(n, |key|), [], 0;
      forall i | |key| <= i < BLOCK {
        b[i] := 0;
      }
      EmptyHolds();
      if |key| > 0 {
        Update(key);
        KeyBlock(key);
        stream, c := Filled(key), BLOCK;
        assert b[..] == Filled(key);
        KeyHolds(key);
      }
      ok := true;
    }

    lemma EmptyHolds()
      requires Shaped() && t0 == t1 == c == done == 0 && stream == [] && h[..] == first
      ensures Holding()
    {
    }

    lemma KeyBlock(key: seq<byte>)
      requires Holding() && stream == key && done == 0
      ensures c == |key| && b[..c] == key && h[..] == first && t0 == t1 == 0
    {
    }

    lemma KeyHolds(key: seq<byte>)
      requires |key| <= BLOCK && Shaped() && c == BLOCK && done == 0 && stream == Filled(key) && b[..] == Filled(key)
      requires h[..] == first && t0 == t1 == 0
      ensures Holding()
    {
    }

    /** Count and compress the last block, full or not, and give out the digest. */
    method Final() returns (out: seq<byte>)
      requires Valid()
      modifies this`t0, this`t1, this`c, b, h
      ensures out == Finished(old(first), old(stream))[..old(outlen)]
    {
      hide Count, Chained, Compressed;
      CountUp(c, BLOCK * done);
      ghost var part := stream[BLOCK * done..];
      forall i | c <= i < BLOCK {
        b[i] := 0;
      }
      c := BLOCK;
      assert b[..] == Filled(part);
      BeforeIs(|stream|, done);
      assert h[..] == Chained(first, stream, done);
      assert t0 + 0x1_0000_0000 * t1 == Count(|stream|);
      Compress(true);
      assert h[..] == Compressed(Chained(first, stream, done), Filled(part), Count(|stream|), true);
      out := Give();
    }

    method Give() returns (out: seq<byte>)
      requires Shaped() && outlen <= 32
      ensures out == Serialize(h[..])[..outlen]
    {
      hide Serialize, Le32;
      out := [];
      for i := 0 to outlen
        invariant out == Serialize(h[..])[..i]
      {
        DigestOctet(h[..], i);
        out := out + [h[i / 4] / Pow2(8 * (i % 4)) % 256];
      }
    }
  }

  lemma DigestOctet(h: Chaining, i: nat)
    requires i < 32
    ensures Serialize(h)[i] == h[i / 4] / Pow2(8 * (i % 4)) % 256
  {
    hide Serialize, Pow2, Le32;
    OctetOfWord(h, i / 4, i % 4);
    ShiftedOctet(h[i / 4], i % 4);
  }

  lemma {:induction false} OctetOfWord(s: seq<word32>, j: nat, r: nat)
    requires j < |s| && r < 4
    ensures Serialize(s)[4 * j + r] == Le32(s[j])[r]
  {
    hide Le32;
    if j < |s| - 1 {
      OctetOfWord(s[..|s| - 1], j, r);
    }
  }

  lemma ShiftedOctet(w: word32, r: nat)
    requires r < 4
    ensures Le32(w)[r] == w / Pow2(8 * r) % 256
  {
    hide Pow2;
    Pow2Values();
    assert Pow2(0) == 1 by { Pow2Zero(); }
    DivTwice(w);
  }

  lemma DivTwice(w: word32)
    ensures w / 256 / 256 == w / 0x1_0000 && w / 256 / 256 / 256 == w / 0x100_0000 < 256
  {
  }

  lemma BeforeIs(n: nat, k: nat)
    requires BLOCK * k < n <= BLOCK * k + BLOCK || n == 0 == k
    ensures Before(n) == k
  {
  }

  lemma CounterCarry(t0: word32, t1: word32, n: nat, total: nat)
    requires n <= BLOCK && t0 + 0x1_0000_0000 * t1 == Count(total)
    ensures var lo := Plus(t0, n);
            lo + 0x1_0000_0000 * (if lo < n then Plus(t1, 1) else t1) == Count(total + n)
  {
    var w, q := 0x1_0000_0000_0000_0000, total / 0x1_0000_0000_0000_0000;
    assert total == q * w + Count(total);
    var sum := Count(total) + n;
    if sum < w {
      ModUnique(total + n, w, q, sum);
    } else {
      ModUnique(total + n, w, q + 1, sum - w);
    }
  }

  lemma ChainedNext(h: Chaining, s: seq<byte>, i: nat)
    requires BLOCK * (i + 1) <= |s|
    ensures var n := BLOCK * i;
            Chained(h, s, i + 1) == Compressed(Chained(h, s, i), s[n..n + BLOCK], Count(n + BLOCK), false)
  {
    hide Compressed, Count;
  }

  /** Compressed blocks do not change when more input arrives. */
  lemma {:induction false} ChainedExtends(h: Chaining, s: seq<byte>, t: seq<byte>, i: nat)
    requires BLOCK * i <= |s|
    ensures Chained(h, s + t, i) == Chained(h, s, i)
  {
    hide Compressed, Count;
    if i > 0 {
      ChainedExtends(h, s, t, i - 1);
      assert (s + t)[BLOCK * (i - 1)..BLOCK * i] == s[BLOCK * (i - 1)..BLOCK * i];
    }
  }

  /** Whatever the key and however the message is cut into updates, the digest is that of the whole message. */
  method Hash(outlen: nat, key: seq<byte>, parts: seq<seq<byte>>) returns (r: Option<seq<byte>>)
    ensures r == if 0 < outlen <= 32 && |key| <= 32 then Some(Digest(key, outlen, Concat(parts))) else None
  {
    hide *;
    var x := new Hasher();
    var ok := x.Init(outlen, key);
    if !ok {
      return None;
    }
    PiecesNone(key, parts);
    for i := 0 to |parts|
      invariant x.Valid() && fresh(x) && fresh(x.b) && fresh(x.h)
      invariant x.outlen == outlen && x.first == Parameters(outlen, |key|)
      invariant x.stream == Input(key, []) + Concat(parts[..i])
    {
      x.Update(parts[i]);
      PiecesNext(key, parts, i);
    }
    DigestIs(outlen, key, parts);
    var out := x.Final();
    r := Some(out);
  }

  lemma PiecesNone(key: seq<byte>, parts: seq<seq<byte>>)
    requires |key| <= 32
    ensures Input(key, []) == Input(key, []) + Concat(parts[..0])
  {
  }

  lemma PiecesNext(key: seq<byte>, parts: seq<seq<byte>>, i: nat)
    requires |key| <= 32 && i < |parts|
    ensures Input(key, []) + Concat(parts[..i]) + parts[i] == Input(key, []) + Concat(parts[..i + 1])
  {
    hide Input;
    assert parts[..i + 1][..i] == parts[..i];
  }

  lemma InputAppend(key: seq<byte>, m: seq<byte>)
    requires |key| <= 32
    ensures Input(key, []) + m == Input(key, m)
  {
    hide Filled;
  }

  lemma DigestIs(outlen: nat, key: seq<byte>, parts: seq<seq<byte>>)
    requires |key| <= 32 && 0 < outlen <= 32
    ensures var s := Input(key, []) + Concat(parts[..|parts|]);
            Finished(Parameters(outlen, |key|), s)[..outlen] == Digest(key, outlen, Concat(parts))
  {
    hide Parameters, Finished, Input, Concat;
    assert parts[..|parts|] == parts;
    InputAppend(key, Concat(parts));
  }
}
