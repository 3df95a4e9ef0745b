/** ChaCha20: the block function and the in-place stream cipher, after section 2 of RFC 8439. */
module ChaCha20 {
  import opened Bytes
  import opened Bits
  import opened Words

  // ---- section 2.1 to 2.3 on values ---------------------------------------------------------------------

  /** Half a quarter round: one addition, exclusive or and rotation on each side. */
  function HalfQuarter(q: Four, r1: nat, r2: nat): Four
    requires 0 < r1 < 32 && 0 < r2 < 32
  {
    var a := Plus(q.a, q.b);
    var d := Rotated(Xor32(q.d, a), r1);
    var c := Plus(q.c, d);
    Four(a, Rotated(Xor32(q.b, c), r2), c, d)
  }

  function Quarter(q: Four): Four { HalfQuarter(HalfQuarter(q, 16, 12), 8, 7) }

  function FourAt(s: State, i: nat, j: nat, k: nat, l: nat): Four
    requires Apart(i, j, k, l)
  {
    Four(s[i], s[j], s[k], s[l])
  }

  function PutFour(s: State, i: nat, j: nat, k: nat, l: nat, q: Four): State
    requires Apart(i, j, k, l)
  {
    s[i := q.a][j := q.b][k := q.c][l := q.d]
  }

  lemma PutFourTwice(s: State, i: nat, j: nat, k: nat, l: nat, q: Four, r: Four)
    requires Apart(i, j, k, l)
    ensures FourAt(PutFour(s, i, j, k, l, q), i, j, k, l) == q
    ensures PutFour(PutFour(s, i, j, k, l, q), i, j, k, l, r) == PutFour(s, i, j, k, l, r)
  {
  }

  /** The quarter round on four words of the state. */
  function QuarterAt(s: State, i: nat, j: nat, k: nat, l: nat): (r: State)
    requires Apart(i, j, k, l)
  {
    PutFour(s, i, j, k, l, Quarter(FourAt(s, i, j, k, l)))
  }

  function Columns(s: State): State {
    QuarterAt(QuarterAt(QuarterAt(QuarterAt(s, 0, 4, 8, 12), 1, 5, 9, 13), 2, 6, 10, 14), 3, 7, 11, 15)
  }

  function Diagonals(s: State): State {
    QuarterAt(QuarterAt(QuarterAt(QuarterAt(s, 0, 5, 10, 15), 1, 6, 11, 12), 2, 7, 8, 13), 3, 4, 9, 14)
  }

  function Rounds(s: State, n: nat): State {
    if n == 0 then s else Diagonals(Columns(Rounds(s, n - 1)))
  }

  /** Ten double rounds, then the input state added word by word. */
  function Mixed(s: State): State {
    seq(16, i requires 0 <= i < 16 => Plus(Rounds(s, 10)[i], s[i]))
  }

  function Block(s: State): (r: seq<byte>)
    ensures |r| == 64
  {
    Serialize(Mixed(s))
  }

  /** The state b blocks later: word 12 counts. */
  function Later(s: State, b: nat): State { s[12 := (s[12] + b) % 0x1_0000_0000] }

  /** Octet n of the key stream that starts at state s. */
  function StreamAt(s: State, n: nat): byte { Block(Later(s, n / 64))[n % 64] }

  /** The message combined with the key stream. */
  function Crypt(s: State, m: seq<byte>): (r: seq<byte>)
    ensures |r| == |m|
  {
    seq(|m|, i requires 0 <= i < |m| => Xor8(m[i], StreamAt(s, i)))
  }

  /** Encrypting twice under the same state gives the message back. */
  lemma CryptTwice(s: State, m: seq<byte>)
    ensures Crypt(s, Crypt(s, m)) == m
  {
    hide StreamAt, Xor;
    forall i | 0 <= i < |m| ensures Crypt(s, Crypt(s, m))[i] == m[i] {
      XorTwice(m[i], StreamAt(s, i));
    }
  }

  // ---- the rounds lose nothing ----------------------------------------------------------------------------

  function HalfUnquarter(q: Four, r1: nat, r2: nat): Four
    requires 0 < r1 < 32 && 0 < r2 < 32
  {
    var b := Xor32(Rotated(q.b, 32 - r2), q.c);
    var c := Minus(q.c, q.d);
    var d := Xor32(Rotated(q.d, 32 - r1), q.a);
    Four(Minus(q.a, b), b, c, d)
  }

  function Unquarter(q: Four): Four { HalfUnquarter(HalfUnquarter(q, 8, 7), 16, 12) }

  lemma UndoXorRotate(x: word32, k: word32, n: nat)
    requires 0 < n < 32
    ensures Xor32(Rotated(Rotated(Xor32(x, k), n), 32 - n), k) == x
  {
    hide Xor, Rotated;
    RotateBack(Xor32(x, k), n);
    XorTwice(x, k);
  }

  /** Every quarter round can be undone. */
  lemma QuarterUndone(q: Four)
    ensures Unquarter(Quarter(q)) == q
  {
    hide HalfQuarter, HalfUnquarter;
    HalfUndone(q, 16, 12);
    HalfUndone(HalfQuarter(q, 16, 12), 8, 7);
  }

  lemma HalfUndone(q: Four, r1: nat, r2: nat)
    requires 0 < r1 < 32 && 0 < r2 < 32
    ensures HalfUnquarter(HalfQuarter(q, r1, r2), r1, r2) == q
  {
    hide Rotated, Xor, Plus, Minus;
    var a := Plus(q.a, q.b);
    var d := Rotated(Xor32(q.d, a), r1);
    var c := Plus(q.c, d);
    UndoXorRotate(q.b, c, r2);
    PlusMinus(q.c, d);
    UndoXorRotate(q.d, a, r1);
    PlusMinus(q.a, q.b);
  }

  lemma QuarterAtInjective(s: State, t: State, i: nat, j: nat, k: nat, l: nat)
    requires Apart(i, j, k, l)
    ensures QuarterAt(s, i, j, k, l) == QuarterAt(t, i, j, k, l) ==> s == t
  {
    hide Quarter, Unquarter;
    var p, q := FourAt(s, i, j, k, l), FourAt(t, i, j, k, l);
    var u, v := QuarterAt(s, i, j, k, l), QuarterAt(t, i, j, k, l);
    assert Quarter(p) == Four(u[i], u[j], u[k], u[l]) && Quarter(q) == Four(v[i], v[j], v[k], v[l]);
    QuarterUndone(p);
    QuarterUndone(q);
    if u == v {
      forall n | 0 <= n < 16 ensures s[n] == t[n] {
        if n != i && n != j && n != k && n != l {
          assert u[n] == s[n] && v[n] == t[n];
        }
      }
    }
  }

  /** Distinct states stay distinct through any number of double rounds. */
  lemma {:induction false} RoundsInjective(s: State, t: State, n: nat)
    ensures Rounds(s, n) == Rounds(t, n) <==> s == t
  {
    hide QuarterAt, Columns, Diagonals, Rounds;
    if n > 0 {
      RoundsNext(s, n - 1);
      RoundsNext(t, n - 1);
      ColumnsInjective(Rounds(s, n - 1), Rounds(t, n - 1));
      RoundsInjective(s, t, n - 1);
    } else {
      RoundsStart(s);
      RoundsStart(t);
    }
  }

  lemma ColumnsInjective(s: State, t: State)
    ensures Diagonals(Columns(s)) == Diagonals(Columns(t)) ==> s == t
  {
    hide QuarterAt;
    var c, d := Columns(s), Columns(t);
    var c1, d1 := QuarterAt(c, 0, 5, 10, 15), QuarterAt(d, 0, 5, 10, 15);
    var c2, d2 := QuarterAt(c1, 1, 6, 11, 12), QuarterAt(d1, 1, 6, 11, 12);
    var c3, d3 := QuarterAt(c2, 2, 7, 8, 13), QuarterAt(d2, 2, 7, 8, 13);
    QuarterAtInjective(c3, d3, 3, 4, 9, 14);
    QuarterAtInjective(c2, d2, 2, 7, 8, 13);
    QuarterAtInjective(c1, d1, 1, 6, 11, 12);
    QuarterAtInjective(c, d, 0, 5, 10, 15);
    var s1, t1 := QuarterAt(s, 0, 4, 8, 12), QuarterAt(t, 0, 4, 8, 12);
    var s2, t2 := QuarterAt(s1, 1, 5, 9, 13), QuarterAt(t1, 1, 5, 9, 13);
    var s3, t3 := QuarterAt(s2, 2, 6, 10, 14), QuarterAt(t2, 2, 6, 10, 14);
    QuarterAtInjective(s3, t3, 3, 7, 11, 15);
    QuarterAtInjective(s2, t2, 2, 6, 10, 14);
    QuarterAtInjective(s1, t1, 1, 5, 9, 13);
    QuarterAtInjective(s, t, 0, 4, 8, 12);
  }

  // ---- the code ----------------------------------------------------------------------------------------------

  method HalfRound(block: array<word32>, i: nat, j: nat, k: nat, l: nat, r1: nat, r2: nat)
    requires block.Length == 16 && Apart(i, j, k, l) && 0 < r1 < 32 && 0 < r2 < 32
    modifies block
    ensures var s := old(block[..]);
            block[..] == PutFour(s, i, j, k, l, HalfQuarter(FourAt(s, i, j, k, l), r1, r2))
  {
    hide Rotated, Xor, Plus;
    block[i] := Plus(block[i], block[j]);
    block[l] := Rotl32(Xor32(block[l], block[i]), r1);
    block[k] := Plus(block[k], block[l]);
    block[j] := Rotl32(Xor32(block[j], block[k]), r2);
  }

  method QuarterRound(block: array<word32>, i: nat, j: nat, k: nat, l: nat)
    requires block.Length == 16 && Apart(i, j, k, l)
    modifies block
    ensures block[..] == QuarterAt(old(block[..]), i, j, k, l)
  {
    hide HalfQuarter, PutFour, FourAt;
    ghost var s := block[..];
    ghost var q := HalfQuarter(FourAt(s, i, j, k, l), 16, 12);
    HalfRound(block, i, j, k, l, 16, 12);
    HalfRound(block, i, j, k, l, 8, 7);
    PutFourTwice(s, i, j, k, l, q, HalfQuarter(q, 8, 7));
  }

  method InnerBlock(block: array<word32>)
    requires block.Length == 16
    modifies block
    ensures block[..] == Diagonals(Columns(old(block[..])))
  {
    hide QuarterAt;
    QuarterRound(block, 0, 4, 8, 12);
    QuarterRound(block, 1, 5, 9, 13);
    QuarterRound(block, 2, 6, 10, 14);
    QuarterRound(block, 3, 7, 11, 15);
    QuarterRound(block, 0, 5, 10, 15);
    QuarterRound(block, 1, 6, 11, 12);
    QuarterRound(block, 2, 7, 8, 13);
    QuarterRound(block, 3, 4, 9, 14);
  }

  class Cipher {
    const state: array<word32>

    ghost predicate Valid() { state.Length == 16 }

    /** key, block counter zero, and a nonce of 32 zero bits followed by the 64-bit counter. */
    constructor (key: seq<byte>, nonce: word64)
      requires |key| == 32
      ensures Valid() && fresh(state) && state[..] == Initial(key, 0, nonce)
    {
      hide FromLe32;
      state := new word32[16];
      new;
      state[0], state[1], state[2], state[3] := 0x61707865, 0x3320646e, 0x79622d32, 0x6b206574;
      for i := 0 to 8
        invariant state[0] == 0x61707865 && state[1] == 0x3320646e && state[2] == 0x79622d32 && state[3] == 0x6b206574
        invariant forall k :: 0 <= k < i ==> state[4 + k] == FromLe32(key, 4 * k)
      {
        state[4 + i] := FromLe32(key, 4 * i);
      }
      state[12], state[13] := 0, 0;
      state[14], state[15] := nonce % 0x1_0000_0000, nonce / 0x1_0000_0000;
      assert state[..] == Initial(key, 0, nonce);
    }

    /** One block of key stream. */
    method BlockOut() returns (stream: seq<byte>)
      requires Valid()
      ensures stream == Block(state[..])
    {
      hide Rounds, Plus, Le32, Serialize;
      var w: array<word32> := new word32[16];
      forall i | 0 <= i < 16 {
        w[i] := state[i];
      }
      assert w[..] == state[..];
      assert Rounds(state[..], 0) == state[..] by { RoundsStart(state[..]); }
      for n := 0 to 10
        invariant w[..] == Rounds(state[..], n)
      {
        InnerBlock(w);
        RoundsNext(state[..], n);
      }
      stream := [];
      ghost var mixed := Mixed(state[..]);
      assert mixed[..0] == [];
      SerializeNone();
      for i := 0 to 16
        invariant w[..] == Rounds(state[..], 10) && stream == Serialize(mixed[..i])
      {
        stream := stream + Le32(Plus(w[i], state[i]));
        assert mixed[i] == Plus(w[i], state[i]);
        SerializeNext(mixed, i);
      }
      assert mixed[..16] == mixed;
    }

    /** out := input combined with the key stream; `out` and `input` may be the same buffer. */
    method Apply(out: array<byte>, input: array<byte>, len: word32)
      requires Valid() && len <= out.Length && len <= input.Length
      modifies out, state
      ensures out[..len] == Crypt(old(state[..]), old(input[..len])) && out[len..] == old(out[len..])
      ensures state[..] == Later(old(state[..]), (len + 63) / 64)
    {
      hide Block, Xor, Later, StreamAt;
      ghost var s0, m := state[..], input[..len];
      assert Later(s0, 0) == s0 by { LaterZero(s0); }
      var at, b := 0, 0;
      while at < len
        invariant at <= len && (at == 64 * b || (at == len && b == (len + 63) / 64))
        invariant state[..] == Later(s0, b)
        invariant input[at..len] == m[at..] && out[len..] == old(out[len..])
        invariant forall i :: 0 <= i < at ==> out[i] == Xor8(m[i], StreamAt(s0, i))
        decreases len - at
      {
        var stream := BlockOut();
        state[12] := Plus(state[12], 1);
        assert state[..] == Later(s0, b)[12 := Plus(Later(s0, b)[12], 1)];
        LaterNext(s0, b);
        var n := if len - at <= 64 then len - at else 64;
        XorBlock(out, input, at, n, stream, s0, m, b);
        at := at + n;
        b := b + 1;
      }
    }

    /** One stretch of at most a block. */
    method XorBlock(out: array<byte>, input: array<byte>, at: nat, n: nat, stream: seq<byte>, ghost s0: State,
                    ghost m: seq<byte>, ghost b: nat)
      requires at == 64 * b && 0 < n <= 64 && at + n <= |m| <= out.Length && |m| <= input.Length
      requires stream == Block(Later(s0, b)) && input[at..|m|] == m[at..]
      requires forall i :: 0 <= i < at ==> out[i] == Xor8(m[i], StreamAt(s0, i))
      modifies out
      ensures forall i :: 0 <= i < at + n ==> out[i] == Xor8(m[i], StreamAt(s0, i))
      ensures input[at + n..|m|] == m[at + n..] && out[|m|..] == old(out[|m|..])
    {
      hide Block, Xor, Later, StreamAt;
      for i := 0 to n
        invariant forall k :: 0 <= k < at + i ==> out[k] == Xor8(m[k], StreamAt(s0, k))
        invariant input[at + i..|m|] == m[at + i..] && out[|m|..] == old(out[|m|..])
      {
        assert input[at + i] == m[at + i];
        InBlock(s0, b, i);
        out[at + i] := Xor8(input[at + i], stream[i]);
      }
    }
  }

  /** constants | key | counter | nonce, section 2.3. */
  function Initial(key: seq<byte>, counter: word32, nonce: word64): (s: State)
    requires |key| == 32
  {
    [0x61707865, 0x3320646e, 0x79622d32, 0x6b206574]
    + seq(8, i requires 0 <= i < 8 => FromLe32(key, 4 * i))
    + [counter, 0, nonce % 0x1_0000_0000, nonce / 0x1_0000_0000]
  }

  lemma RoundsStart(s: State)
    ensures Rounds(s, 0) == s
  {
  }

  lemma RoundsNext(s: State, n: nat)
    ensures Rounds(s, n + 1) == Diagonals(Columns(Rounds(s, n)))
  {
  }

  lemma LaterZero(s: State)
    ensures Later(s, 0) == s
  {
  }

  lemma LaterNext(s: State, b: nat)
    ensures Later(s, b)[12 := Plus(Later(s, b)[12], 1)] == Later(s, b + 1)
  {
    ModStep(s[12] + b);
  }

  lemma ModStep(x: int)
    ensures (x % 0x1_0000_0000 + 1) % 0x1_0000_0000 == (x + 1) % 0x1_0000_0000
  {
    var q, r := x / 0x1_0000_0000, x % 0x1_0000_0000;
    if r + 1 < 0x1_0000_0000 {
      ModUnique(x + 1, 0x1_0000_0000, q, r + 1);
    } else {
      ModUnique(x + 1, 0x1_0000_0000, q + 1, 0);
    }
  }

  lemma InBlock(s: State, b: nat, i: nat)
    requires i < 64
    ensures StreamAt(s, 64 * b + i) == Block(Later(s, b))[i]
  {
    hide Block, Later;
    ModUnique(64 * b + i, 64, b, i);
  }
}
