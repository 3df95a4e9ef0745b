/** Octet strings as little-endian numbers. */
module Octets {
  import opened Bytes

  /** Little-endian value of an octet string. */
  function Num(s: seq<byte>): nat {
    if s == [] then 0 else s[0] + 256 * Num(s[1..])
  }

  function Scale(n: nat): nat { if n == 0 then 1 else 256 * Scale(n - 1) }

  lemma NumStep(s: seq<byte>)
    requires s != []
    ensures Num(s) == s[0] + 256 * Num(s[1..])
  {
  }

  lemma ScaleStep(n: nat)
    ensures Scale(n + 1) == 256 * Scale(n)
  {
  }

  lemma {:induction false} NumAppend(s: seq<byte>, t: seq<byte>)
    ensures Num(s + t) == Num(s) + Scale(|s|) * Num(t)
  {
    if s == [] {
      assert s + t == t;
    } else {
      hide Num, Scale;
      assert (s + t)[1..] == s[1..] + t;
      NumAppend(s[1..], t);
      NumStep(s);
      NumStep(s + t);
      ScaleStep(|s| - 1);
      AppendOctet(s[0], Num(s[1..]), Scale(|s| - 1), Num(t));
    }
  }

  lemma AppendOctet(x: int, n: int, a: int, b: int)
    ensures x + 256 * (n + a * b) == (x + 256 * n) + (256 * a) * b
  {
    assert (256 * a) * b == 256 * (a * b);
  }

  lemma NumOfWord(s: seq<byte>)
    requires |s| == 4
    ensures Num(s) == FromLe32(s, 0)
  {
    var t1 := s[1..];
    var t2 := t1[1..];
    var t3 := t2[1..];
    assert t1[0] == s[1] && t2[0] == s[2] && t3[0] == s[3] && t3[1..] == [];
    assert Num(t3) == s[3];
    assert Num(t2) == s[2] + 256 * Num(t3);
    assert Num(t1) == s[1] + 256 * Num(t2);
  }

  lemma WordAtOffset(m: seq<byte>, at: nat)
    requires at + 4 <= |m|
    ensures Num(m[at..at + 4]) == FromLe32(m, at)
  {
    NumOfWord(m[at..at + 4]);
    FromLe32InContext(m, at, m[at..at + 4]);
  }

  /** The n little-endian octets of a number. */
  function LeOctets(v: nat, n: nat): (s: seq<byte>)
    ensures |s| == n
  {
    if n == 0 then [] else [v % 256] + LeOctets(v / 256, n - 1)
  }

  /** An octet string is determined by its length and its number. */
  lemma {:induction false} LeOfNum(s: seq<byte>)
    ensures LeOctets(Num(s), |s|) == s
  {
    if s != [] {
      LeOfNum(s[1..]);
      var x, m := s[0], Num(s[1..]);
      SplitOctet(x, m);
      assert s == [x] + s[1..];
    }
  }

  lemma SplitOctet(x: byte, m: nat)
    ensures (x + 256 * m) % 256 == x && (x + 256 * m) / 256 == m
  {
  }

  /** The pieces of a message put back together. */
  function Concat(parts: seq<seq<byte>>): seq<byte> {
    if parts == [] then [] else Concat(parts[..|parts| - 1]) + parts[|parts| - 1]
  }
}
