/** Base64 of section 4 of RFC 4648, as the WireGuard library encodes and decodes keys. */
module Base64 {
  import opened Bytes
  import opened Bits
  import opened Words

  const PAD: byte := 61

  /** The alphabet in ASCII: upper case, lower case, digits, plus, slash. */
  function Letter(v: nat): byte
    requires v < 64
  {
    if v < 26 then 65 + v else if v < 52 then 71 + v else if v < 62 then v - 4 else if v == 62 then 43 else 47
  }

  /** Where strchr finds a character. */
  function Position(c: byte): (p: Option<nat>)
    ensures p.Some? ==> p.value < 64 && Letter(p.value) == c
    ensures p.None? ==> forall v: nat :: v < 64 ==> Letter(v) != c
  {
    if 65 <= c <= 90 then Some(c - 65)
    else if 97 <= c <= 122 then Some(c - 71)
    else if 48 <= c <= 57 then Some(c + 4)
    else if c == 43 then Some(62)
    else if c == 47 then Some(63)
    else None
  }

  lemma LetterIsFound(v: nat)
    requires v < 64
    ensures Position(Letter(v)) == Some(v) && Letter(v) != PAD
  {
  }

  // ---- section 4 ---------------------------------------------------------------------------------------

  function Bits24(a: byte, b: byte, c: byte): nat { 0x1_0000 * (a as int) + 0x100 * (b as int) + c }

  /** Four letters for three octets, the last ones replaced by padding when octets are missing. */
  function Group(v: nat, n: nat): (r: seq<byte>)
    requires v < 0x100_0000 && 1 <= n <= 3
    ensures |r| == 4
  {
    [Letter(v / 0x4_0000), Letter(v / 0x1000 % 64),
     if n > 1 then Letter(v / 64 % 64) else PAD, if n > 2 then Letter(v % 64) else PAD]
  }

  function Encoded(s: seq<byte>): seq<byte> {
    if s == [] then []
    else if |s| == 1 then Group(Bits24(s[0], 0, 0), 1)
    else if |s| == 2 then Group(Bits24(s[0], s[1], 0), 2)
    else Group(Bits24(s[0], s[1], s[2]), 3) + Encoded(s[3..])
  }

  lemma {:induction false} EncodedAppend(s: seq<byte>, t: seq<byte>)
    requires |s| % 3 == 0
    ensures Encoded(s + t) == Encoded(s) + Encoded(t)
    decreases |s|
  {
    if s == [] {
      assert s + t == t;
    } else {
      assert (s + t)[3..] == s[3..] + t;
      EncodedAppend(s[3..], t);
      var g := Group(Bits24(s[0], s[1], s[2]), 3);
      assert g + (Encoded(s[3..]) + Encoded(t)) == (g + Encoded(s[3..])) + Encoded(t);
    }
  }

  function EncodedLen(n: nat): nat { 4 * ((n + 2) / 3) }

  // ---- the decoder, character by character -----------------------------------------------------------------

  /** Bits collected, characters in the group, octets expected of it, result so far; or failure. */
  datatype Decoder = Decoder(accum: word32, chars: nat, expected: int, bytes: seq<byte>, ok: bool)

  const START: Decoder := Decoder(0, 0, 3, [], true)

  /** (accum << 6) | bits in 32 bits. */
  function Shift6(accum: word32, bits: nat): (r: word32)
    requires bits < 64
    ensures accum < 0x4_0000 ==> r == 64 * accum + bits
  {
    hide Or, Pow2;
    assert Pow2(6) == 64 && Pow2(32) == 0x1_0000_0000 by { Powers(); }
    OrCommutes(64 * accum % 0x1_0000_0000, bits);
    if accum < 0x4_0000 then
      OrDisjoint(bits, accum, 6);
      Or(64 * accum % 0x1_0000_0000, bits)
    else
      OrWidth(64 * accum % 0x1_0000_0000, bits, 32);
      Or(64 * accum % 0x1_0000_0000, bits)
  }

  lemma Powers()
    ensures Pow2(6) == 64 && Pow2(8) == 0x100 && Pow2(16) == 0x1_0000 && Pow2(32) == 0x1_0000_0000
  {
    Pow2Values();
    assert Pow2(3) == 8 && Pow2(6) == 64;
  }

  /** The octets a full group yields: at least one, even when none is expected. */
  function Octets(v: word32, expected: int): seq<byte> {
    [v / 0x1_0000 % 256] + (if expected > 1 then [v / 0x100 % 256] else []) + (if expected > 2 then [v % 256] else [])
  }

  function Step(d: Decoder, c: byte, cap: nat): Decoder {
    if !d.ok then d
    else
      var expected := if c == PAD then d.expected - 1 else d.expected;
      if c == PAD && expected < 0 then d.(expected := expected, ok := false)
      else if c != PAD && (d.expected != 3 || Position(c).None?) then d.(ok := false)
      else
        var accum := Shift6(d.accum, if c == PAD then 0 else Position(c).value);
        if d.chars + 1 < 4 then Decoder(accum, d.chars + 1, expected, d.bytes, true)
        else if |d.bytes| + expected > cap then Decoder(accum, d.chars + 1, expected, d.bytes, false)
        else Decoder(0, 0, expected, d.bytes + Octets(accum, expected), true)
  }

  function Run(d: Decoder, s: seq<byte>, cap: nat): Decoder {
    if s == [] then d else Step(Run(d, s[..|s| - 1], cap), s[|s| - 1], cap)
  }

  lemma {:induction false} RunAppend(d: Decoder, s: seq<byte>, t: seq<byte>, cap: nat)
    ensures Run(d, s + t, cap) == Run(Run(d, s, cap), t, cap)
    decreases |t|
  {
    hide Step;
    if t == [] {
      assert s + t == s;
    } else {
      assert (s + t)[..|s + t| - 1] == s + t[..|t| - 1];
      RunAppend(d, s, t[..|t| - 1], cap);
    }
  }

  lemma RunFour(d: Decoder, a: byte, b: byte, c: byte, e: byte, cap: nat)
    ensures Run(d, [a, b, c, e], cap) == Step(Step(Step(Step(d, a, cap), b, cap), c, cap), e, cap)
  {
    hide Step;
    var s := [a, b, c, e];
    assert s[..3][..2][..1] == [a] && s[..3][..2] == [a, b] && s[..3] == [a, b, c];
    assert [a][..0] == [];
    assert Run(d, [a], cap) == Step(d, a, cap);
    assert Run(d, [a, b], cap) == Step(Run(d, [a], cap), b, cap);
    assert Run(d, [a, b, c], cap) == Step(Run(d, [a, b], cap), c, cap);
  }

  /** Between groups, before any padding. */
  predicate Fresh(d: Decoder) { d.ok && d.accum == 0 && d.chars == 0 && d.expected == 3 }

  lemma Digits(v: nat)
    requires v < 0x100_0000
    ensures v / 0x4_0000 < 64
    ensures v == 64 * (64 * (64 * (v / 0x4_0000) + v / 0x1000 % 64) + v / 64 % 64) + v % 64
  {
    var x := v / 64;
    var y := x / 64;
    assert v == 64 * x + v % 64 && x == 64 * y + x % 64;
    assert y == v / 0x1000 && y / 64 == v / 0x4_0000;
  }

  /** A group of n octets decodes to those octets. */
  lemma GroupDecodes(d: Decoder, v: nat, n: nat, cap: nat)
    requires Fresh(d) && v < 0x100_0000 && 1 <= n <= 3 && |d.bytes| + n <= cap
    requires n < 3 ==> v % 0x100 == 0
    requires n < 2 ==> v % 0x1_0000 == 0
    ensures Run(d, Group(v, n), cap) == Decoder(0, 0, n, d.bytes + Octets(v, n), true)
  {
    hide Position, Letter, Shift6, Octets;
    Digits(v);
    var p, q, r, s := v / 0x4_0000, v / 0x1000 % 64, v / 64 % 64, v % 64;
    LetterIsFound(p);
    LetterIsFound(q);
    LetterIsFound(r);
    LetterIsFound(s);
    RunFour(d, Letter(p), Letter(q), if n > 1 then Letter(r) else PAD, if n > 2 then Letter(s) else PAD, cap);
    LowZero(v, n);
  }

  lemma LowZero(v: nat, n: nat)
    requires 1 <= n <= 3 && (n < 3 ==> v % 0x100 == 0) && (n < 2 ==> v % 0x1_0000 == 0)
    ensures (n < 3 ==> v % 64 == 0) && (n < 2 ==> v / 64 % 64 == 0)
  {
    if n < 2 {
      var q := v / 0x1_0000;
      ModUnique(v, 64, 0x400 * q, 0);
      ModUnique(0x400 * q, 64, 16 * q, 0);
    } else if n < 3 {
      ModUnique(v, 64, 4 * (v / 0x100), 0);
    }
  }

  lemma OctetsBack(a: byte, b: byte, c: byte)
    ensures var v := Bits24(a, b, c);
            v < 0x100_0000 && v / 0x1_0000 % 256 == a && v / 0x100 % 256 == b && v % 256 == c
    ensures c == 0 ==> Bits24(a, b, c) % 0x100 == 0
    ensures b == 0 && c == 0 ==> Bits24(a, b, c) % 0x1_0000 == 0
  {
    assert Bits24(a, b, c) / 0x100 == 0x100 * a + b;
  }

  /** The first group of a nonempty string: how many octets it takes and their 24 bits. */
  function HeadLen(s: seq<byte>): nat { if |s| < 3 then |s| else 3 }

  function Head(s: seq<byte>): nat
    requires s != []
  {
    Bits24(s[0], if |s| > 1 then s[1] else 0, if |s| > 2 then s[2] else 0)
  }

  lemma HeadFacts(s: seq<byte>)
    requires s != []
    ensures var v, n := Head(s), HeadLen(s);
            && v < 0x100_0000 && (n < 3 ==> v % 0x100 == 0) && (n < 2 ==> v % 0x1_0000 == 0)
            && Octets(v, n) == s[..n]
            && Encoded(s) == Group(v, n) + Encoded(s[n..])
  {
    hide Group;
    OctetsBack(s[0], if |s| > 1 then s[1] else 0, if |s| > 2 then s[2] else 0);
    if |s| < 3 {
      assert s[HeadLen(s)..] == [];
    }
  }

  /** Decoding an encoding gives the octets back, for every octet string and any buffer that can hold it. */
  lemma {:induction false} DecodeEncoded(d: Decoder, s: seq<byte>, cap: nat)
    requires Fresh(d) && |d.bytes| + |s| <= cap
    ensures var e := Run(d, Encoded(s), cap); e.ok && e.chars == 0 && e.bytes == d.bytes + s
    decreases |s|
  {
    hide Run, Group, Encoded, Octets, Head;
    if s == [] {
      RunNothing(d, cap);
      assert d.bytes + s == d.bytes;
    } else {
      var v, n := Head(s), HeadLen(s);
      HeadFacts(s);
      GroupDecodes(d, v, n, cap);
      var e := Decoder(0, 0, n, d.bytes + s[..n], true);
      RunAppend(d, Group(v, n), Encoded(s[n..]), cap);
      assert d.bytes + s[..n] + s[n..] == d.bytes + s;
      if n == 3 {
        DecodeEncoded(e, s[3..], cap);
      } else {
        assert s[n..] == [];
        RunNothing(e, cap);
      }
    }
  }

  lemma RunNothing(d: Decoder, cap: nat)
    ensures Run(d, Encoded([]), cap) == d
  {
  }

  // ---- exactly when a write goes past the buffer --------------------------------------------------------

  predicate IsLetter(c: byte) { Position(c).Some? }

  /** Letters for exactly cap octets, one more letter, and three padding characters. */
  ghost predicate Overruns(s: seq<byte>, cap: nat) {
    var n := cap / 3 * 4;
    && cap % 3 == 0 && |s| >= n + 4
    && (forall k :: 0 <= k < n + 1 ==> IsLetter(s[k]))
    && s[n + 1] == s[n + 2] == s[n + 3] == PAD
  }

  /** What a decoder that has not failed has read: letters, then at most three padding characters. */
  ghost predicate Shape(d: Decoder, s: seq<byte>) {
    d.ok ==>
      var p := 3 - d.expected;
      && 0 <= p <= 3 && p <= |s| && d.chars == |s| % 4
      && (forall k :: 0 <= k < |s| - p ==> IsLetter(s[k])) && (forall k :: |s| - p <= k < |s| ==> s[k] == PAD)
      && ((|s| - p) / 4 == |s| / 4 ==> |d.bytes| == 3 * (|s| / 4))
  }

  lemma {:induction false} RunShape(s: seq<byte>, cap: nat)
    ensures Shape(Run(START, s, cap), s)
  {
    if s != [] {
      var n := |s| - 1;
      RunShape(s[..n], cap);
      var d := Run(START, s[..n], cap);
      hide Run, Shift6, Position;
      assert Run(START, s, cap) == Step(d, s[n], cap) by { RunLast(s, cap); }
      ShapeStep(d, s, cap);
    }
  }

  lemma RunLast(s: seq<byte>, cap: nat)
    requires s != []
    ensures Run(START, s, cap) == Step(Run(START, s[..|s| - 1], cap), s[|s| - 1], cap)
  {
    hide Step;
  }

  lemma ShapeStep(d: Decoder, s: seq<byte>, cap: nat)
    requires s != [] && Shape(d, s[..|s| - 1])
    ensures Shape(Step(d, s[|s| - 1], cap), s)
  {
    hide Shift6, Position, Octets;
    var n, c := |s| - 1, s[|s| - 1];
    var e := Step(d, c, cap);
    if e.ok {
      assert s == s[..n] + [c];
      var p, q := 3 - d.expected, 3 - e.expected;
      assert forall k :: 0 <= k < n ==> s[k] == s[..n][k];
      Quarters(n, p, q);
      OctetsLength(Shift6(d.accum, if c == PAD then 0 else Position(c).value), e.expected);
    }
  }

  /** One more character either stays in the group or closes it. */
  lemma Quarters(n: nat, p: nat, q: nat)
    requires p <= n && (q == p + 1 || (p == q == 0))
    ensures n % 4 < 3 ==> (n + 1) % 4 == n % 4 + 1 && (n + 1) / 4 == n / 4
    ensures n % 4 == 3 ==> (n + 1) % 4 == 0 && (n + 1) / 4 == n / 4 + 1
    ensures (n + 1 - q) / 4 == (n + 1) / 4 ==> (n - p) / 4 == n / 4
    ensures q > 0 && n % 4 == 3 ==> (n + 1 - q) / 4 != (n + 1) / 4
  {
  }

  /** Letters never fail while their groups fit. */
  lemma {:induction false} LettersOk(s: seq<byte>, cap: nat)
    requires (forall k :: 0 <= k < |s| ==> IsLetter(s[k])) && 3 * (|s| / 4) <= cap
    ensures Run(START, s, cap).ok && Run(START, s, cap).expected == 3
  {
    if s != [] {
      var n := |s| - 1;
      assert forall k :: 0 <= k < n ==> s[..n][k] == s[k];
      LettersOk(s[..n], cap);
      RunShape(s[..n], cap);
      var d := Run(START, s[..n], cap);
      hide Run, Shift6, Position, Octets;
      assert Run(START, s, cap) == Step(d, s[n], cap) by { RunLast(s, cap); }
      Quarters(n, 0, 0);
      PadIsNoLetter();
      assert IsLetter(s[n]);
    }
  }

  lemma PadIsNoLetter()
    ensures !IsLetter(PAD)
  {
  }

  /** Every such string writes one octet past the buffer. */
  lemma OverrunHappens(s: seq<byte>, cap: nat)
    requires Overruns(s, cap) && |s| == cap / 3 * 4 + 4
    ensures |Run(START, s, cap).bytes| == cap + 1
  {
    hide Run, Shift6, Position;
    var n := |s| - 3;
    var d := Run(START, s[..n], cap);
    assert forall k :: 0 <= k < n ==> s[..n][k] == s[k];
    GroupsOf(cap);
    LettersOk(s[..n], cap);
    RunShape(s[..n], cap);
    assert d.ok && d.expected == 3 && d.chars == 1 && |d.bytes| == cap;
    var d1 := Step(d, PAD, cap);
    var d2 := Step(d1, PAD, cap);
    RunLastThree(s, cap);
    assert d2.ok && d2.chars == 3 && d2.expected == 1 && d2.bytes == d.bytes;
  }

  /** The shortest: one letter and three padding characters for a buffer of no octets. */
  lemma OverrunExample()
    ensures var s := [65, PAD, PAD, PAD]; Overruns(s, 0) && |Run(START, s, 0).bytes| == 1
  {
    OverrunHappens([65, PAD, PAD, PAD], 0);
  }

  lemma GroupsOf(cap: nat)
    requires cap % 3 == 0
    ensures var n := cap / 3 * 4 + 1; n / 4 == cap / 3 && n % 4 == 1 && 3 * (n / 4) == cap
  {
  }

  lemma RunLastThree(s: seq<byte>, cap: nat)
    requires |s| >= 3 && s[|s| - 3] == s[|s| - 2] == s[|s| - 1] == PAD
    ensures Run(START, s, cap) == Step(Step(Step(Run(START, s[..|s| - 3], cap), PAD, cap), PAD, cap), PAD, cap)
  {
    hide Step, Run;
    var n := |s|;
    RunLast(s, cap);
    RunLast(s[..n - 1], cap);
    RunLast(s[..n - 2], cap);
    assert s[..n - 1][..n - 2] == s[..n - 2] && s[..n - 2][..n - 3] == s[..n - 3];
  }

  /** The decoder writes past a buffer of cap octets exactly on these strings. */
  lemma {:induction false} OverrunExactly(s: seq<byte>, cap: nat)
    ensures |Run(START, s, cap).bytes| > cap <==> Overruns(s, cap)
  {
    if s == [] {
      assert Run(START, s, cap) == START;
    } else {
      var n := |s| - 1;
      OverrunExactly(s[..n], cap);
      RunShape(s[..n], cap);
      hide Run, Shift6, Position;
      RunLast(s, cap);
      if Overruns(s[..n], cap) {
        StaysOver(s, cap);
      } else if Overruns(s, cap) {
        NewOverrun(s, cap);
        OverrunHappens(s, cap);
      } else {
        NoOverrun(Run(START, s[..n], cap), s, cap);
      }
    }
  }

  lemma StaysOver(s: seq<byte>, cap: nat)
    requires s != [] && Overruns(s[..|s| - 1], cap)
    ensures Overruns(s, cap)
  {
    var n := |s| - 1;
    assert forall k :: 0 <= k < n ==> s[..n][k] == s[k];
  }

  lemma NewOverrun(s: seq<byte>, cap: nat)
    requires s != [] && Overruns(s, cap) && !Overruns(s[..|s| - 1], cap)
    ensures |s| == cap / 3 * 4 + 4
  {
    hide IsLetter;
    var n := |s| - 1;
    assert forall k :: 0 <= k < n ==> s[..n][k] == s[k];
  }

  lemma NoOverrun(d: Decoder, s: seq<byte>, cap: nat)
    requires s != [] && |d.bytes| <= cap && Shape(d, s[..|s| - 1])
    ensures |Step(d, s[|s| - 1], cap).bytes| <= cap || Overruns(s, cap)
  {
    hide Shift6, Position, Octets;
    var n, c := |s| - 1, s[|s| - 1];
    var e := Step(d, c, cap);
    if d.ok && e.ok {
      OctetsLength(Shift6(d.accum, if c == PAD then 0 else Position(c).value), e.expected);
      if d.chars == 3 && e.expected == 0 && |d.bytes| == cap {
        assert c == PAD && d.expected == 1;
        assert forall k :: 0 <= k < n ==> s[..n][k] == s[k];
        ClosingQuarter(n);
      }
    }
  }

  /** A prefix that overruns makes the whole string overrun, and never by more than one octet. */
  lemma {:induction false} WritesBound(s: seq<byte>, x: nat, cap: nat)
    requires x <= |s|
    ensures |Run(START, s[..x], cap).bytes| <= if Overruns(s, cap) then cap + 1 else cap
  {
    OverrunExactly(s[..x], cap);
    BytesBound(s[..x], cap);
    hide Run;
    if Overruns(s[..x], cap) {
      assert forall k :: 0 <= k < x ==> s[..x][k] == s[k];
      assert Overruns(s, cap);
    }
  }

  lemma {:induction false} BytesBound(s: seq<byte>, cap: nat)
    ensures |Run(START, s, cap).bytes| <= cap + 1
  {
    if s != [] {
      BytesBound(s[..|s| - 1], cap);
      hide Run, Shift6, Position;
      RunLast(s, cap);
    }
  }

  lemma ClosingQuarter(n: nat)
    requires n % 4 == 3
    ensures n >= 3 && (n - 2) / 4 == n / 4 && n == n / 4 * 4 + 3 && 3 * (n / 4) % 3 == 0 && 3 * (n / 4) / 3 == n / 4
  {
  }

  // ---- the code ----------------------------------------------------------------------------------------------

  lemma {:induction false} EncodedLength(s: seq<byte>)
    ensures |Encoded(s)| == EncodedLen(|s|)
    decreases |s|
  {
    hide EncodedLen, Encoded, Group, Head;
    if s == [] {
      NothingLeft();
    } else {
      HeadFacts(s);
      LengthSteps(|s|);
      EncodedLength(s[HeadLen(s)..]);
    }
  }

  /** The low 6 bits, as the encoder masks them. */
  function Low6(x: nat): (r: nat)
    ensures r == x % 64
  {
    hide And;
    assert Pow2(6) == 64 by { Powers(); }
    AndOnes(x, 6);
    And(x, 63)
  }

  /** (a << 16) | (b << 8) | c */
  function Join24(a: byte, b: byte, c: byte): (r: nat)
    ensures r == Bits24(a, b, c)
  {
    hide Or, Pow2;
    assert Pow2(8) == 0x100 && Pow2(16) == 0x1_0000 by { Powers(); }
    OrCommutes(0x1_0000 * (a as int), 0x100 * (b as int));
    OrDisjoint(0x100 * (b as int), a, 16);
    OrCommutes(Or(0x1_0000 * (a as int), 0x100 * (b as int)), c);
    OrDisjoint(c, 0x100 * (a as int) + b, 8);
    Or(Or(0x1_0000 * (a as int), 0x100 * (b as int)), c)
  }

  /** Encodes with a terminator, or refuses when the buffer cannot take both. */
  method Encode(input: seq<byte>, out: array<byte>, cap: nat) returns (ok: bool, n: nat)
    requires cap <= out.Length
    modifies out
    ensures ok <==> |Encoded(input)| < cap
    ensures ok ==> n == |Encoded(input)| && out[..n] == Encoded(input) && out[n] == 0
    ensures ok ==> out[n + 1..] == old(out[n + 1..])
    ensures !ok ==> n == cap && out[..] == old(out[..])
  {
    hide Encoded, Group, Letter, EncodedLen, Missing, Head;
    EncodedLength(input);
    var len := EncodedLen(|input|);
    var padding := Missing(|input|);
    if cap <= len {
      return false, cap;
    }
    var r, w := 0, 0;
    ghost var rest, groups := input, 0;
    LengthSteps(0);
    while r < |input|
      invariant 0 <= r <= |input| && rest == input[r..] && w <= len
      invariant out[..w] + Encoded(rest) == Encoded(input) && w + EncodedLen(|rest|) == len
      invariant rest == [] || (r == 3 * groups && w == 4 * groups)
      invariant out[len + 1..] == old(out[len + 1..])
    {
      HeadFacts(rest);
      LengthSteps(|rest|);
      PaddingStarts(groups, |rest|);
      ghost var before, tail := out[..w], Encoded(rest[HeadLen(rest)..]);
      var v;
      v, r := ReadGroup(input, r);
      WriteGroup(out, w, v, len - padding, HeadLen(rest));
      Regroup(before, Group(v, HeadLen(rest)), tail, out[..w + 4]);
      rest, groups := input[r..], groups + 1;
      w := w + 4;
    }
    NothingLeft();
    out[len] := 0;
    assert out[..len] == Encoded(input);
    ok, n := true, len;
  }

  lemma Regroup(before: seq<byte>, g: seq<byte>, tail: seq<byte>, after: seq<byte>)
    requires |after| >= |before| && after[..|before|] == before && after[|before|..] == g
    ensures before + (g + tail) == after + tail
  {
  }

  /** Up to three octets as 24 bits. */
  method ReadGroup(input: seq<byte>, r: nat) returns (v: nat, next: nat)
    requires r < |input|
    ensures v == Head(input[r..]) && next == r + HeadLen(input[r..])
  {
    var byte1, byte2, byte3 := input[r], 0, 0;
    next := r + 1;
    if next < |input| {
      byte2 := input[next];
      next := next + 1;
    }
    if next < |input| {
      byte3 := input[next];
      next := next + 1;
    }
    v := Join24(byte1, byte2, byte3);
  }

  /** Padding characters: what the last group lacks. */
  function Missing(n: nat): int { var p := 3 - n % 3; if p > 2 then 0 else p }

  lemma LengthSteps(n: nat)
    ensures EncodedLen(0) == 0 && EncodedLen(n) >= 0
    ensures (n > 0 ==> EncodedLen(n) == 4 + EncodedLen(if n < 3 then 0 else n - 3))
  {
  }

  lemma PaddingStarts(groups: nat, m: nat)
    requires m > 0
    ensures var n := 3 * groups + m;
            var end := EncodedLen(n) - Missing(n);
            && (4 * groups + 2 < end <==> m > 1) && (4 * groups + 3 < end <==> m > 2)
  {
    var q, r := m / 3, m % 3;
    var n := 3 * groups + m;
    ModUnique(n, 3, groups + q, r);
    if r == 0 {
      ModUnique(n + 2, 3, groups + q, 2);
    } else {
      ModUnique(n + 2, 3, groups + q + 1, r - 1);
    }
  }

  lemma NothingLeft()
    ensures Encoded([]) == [] && EncodedLen(0) == 0
  {
  }

  /** Four characters; padding from offset `end` on. */
  method WriteGroup(out: array<byte>, at: nat, v: nat, end: int, ghost n: nat)
    requires at + 4 <= out.Length && v < 0x100_0000 && 1 <= n <= 3
    requires (at + 2 < end <==> n > 1) && (at + 3 < end <==> n > 2)
    modifies out
    ensures out[..at] == old(out[..at]) && out[at..at + 4] == Group(v, n) && out[at + 4..] == old(out[at + 4..])
  {
    hide Letter;
    Digits(v);
    TopDigit(v);
    out[at] := Letter(Low6(v / 0x4_0000));
    out[at + 1] := Letter(Low6(v / 0x1000));
    out[at + 2] := if at + 2 < end then Letter(Low6(v / 64)) else PAD;
    out[at + 3] := if at + 3 < end then Letter(Low6(v)) else PAD;
  }

  /** One, two or three octets of a full group. */
  method Emit(out: array<byte>, at: nat, v: word32, expected: int) returns (len: nat)
    requires at + |Octets(v, expected)| <= out.Length
    modifies out
    ensures len == at + |Octets(v, expected)| && out[..len] == old(out[..at]) + Octets(v, expected)
  {
    out[at] := v / 0x1_0000 % 256;
    len := at + 1;
    if expected > 1 {
      out[len] := v / 0x100 % 256;
      len := len + 1;
    }
    if expected > 2 {
      out[len] := v % 256;
      len := len + 1;
    }
  }

  lemma RunNext(s: seq<byte>, x: nat, cap: nat)
    requires x < |s|
    ensures Run(START, s[..x + 1], cap) == Step(Run(START, s[..x], cap), s[x], cap)
  {
    hide Step;
    assert s[..x + 1][..x] == s[..x];
  }

  /** A failure is final. */
  lemma {:induction false} RunStuck(s: seq<byte>, x: nat, cap: nat)
    requires x <= |s| && !Run(START, s[..x], cap).ok
    ensures Run(START, s, cap) == Run(START, s[..x], cap)
    decreases |s| - x
  {
    if x < |s| {
      hide Shift6, Position, Run;
      RunNext(s, x, cap);
      RunStuck(s, x + 1, cap);
    } else {
      assert s[..x] == s;
    }
  }

  lemma RunStart(s: seq<byte>, cap: nat)
    ensures Run(START, s[..0], cap) == START
  {
  }

  lemma TopDigit(v: nat)
    requires v < 0x100_0000
    ensures v / 0x4_0000 % 64 == v / 0x4_0000
  {
  }

  /** Decodes a terminated string; the buffer needs one octet more than promised only for the strings that overrun. */
  method Decode(str: seq<byte>, out: array<byte>, cap: nat) returns (ok: bool, len: nat)
    requires cap <= out.Length && (Overruns(str, cap) ==> cap < out.Length)
    modifies out
    ensures var d := Run(START, str, cap);
            ok == (d.ok && d.chars == 0) && len == |d.bytes| <= out.Length && out[..len] == d.bytes
  {
    hide Shift6, Position, Run, Overruns;
    var accum: word32, chars, expected := 0, 0, 3;
    len := 0;
    var x := 0;
    RunStart(str, cap);
    while x < |str|
      invariant 0 <= x <= |str| && chars < 4 && len <= out.Length && 0 <= expected <= 3
      invariant Run(START, str[..x], cap) == Decoder(accum, chars, expected, out[..len], true)
    {
      RunNext(str, x, cap);
      var c := str[x];
      x := x + 1;
      if c == PAD {
        expected := expected - 1;
      }
      if expected < 0 || (c != PAD && (expected != 3 || Position(c).None?)) {
        RunStuck(str, x, cap);
        return false, len;
      }
      accum := Shift6(accum, if c == PAD then 0 else Position(c).value);
      chars := chars + 1;
      if chars == 4 {
        if len + expected > cap {
          RunStuck(str, x, cap);
          return false, len;
        }
        WritesBound(str, x, cap);
        len := Emit(out, len, accum, expected);
        accum, chars := 0, 0;
      }
    }
    assert str[..|str|] == str;
    ok := chars == 0;
  }

  lemma OctetsLength(v: word32, expected: int)
    requires 0 <= expected <= 3
    ensures |Octets(v, expected)| == if expected == 0 then 1 else expected
  {
  }

  /** A key written and read back, through real buffers. */
  method RoundTrip(input: seq<byte>, text: array<byte>, out: array<byte>) returns (ok: bool, n: nat)
    requires text != out && EncodedLen(|input|) < text.Length && |input| <= out.Length
    modifies text, out
    ensures ok && n == |input| && out[..n] == input
  {
    hide Encoded, Run, Overruns, EncodedLen;
    EncodedLength(input);
    var wrote, len := Encode(input, text, text.Length);
    OverrunExactly(Encoded(input), out.Length);
    DecodeEncoded(START, input, out.Length);
    assert START.bytes + input == input;
    ok, n := Decode(text[..len], out, out.Length);
  }
}
