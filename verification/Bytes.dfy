/** Octets, fixed-width words and their byte orders, shared by every component. */
module Bytes {

  type byte = x: int | 0 <= x < 256
  type word16 = x: int | 0 <= x < 0x1_0000
  type word32 = x: int | 0 <= x < 0x1_0000_0000
  type word64 = x: int | 0 <= x < 0x1_0000_0000_0000_0000

  datatype Option<+T> = None | Some(value: T)

  /** The four little-endian octets of a 32-bit word. */
  function Le32(v: word32): (s: seq<byte>)
    ensures |s| == 4
  {
    [v % 256, v / 256 % 256, v / 256 / 256 % 256, v / 256 / 256 / 256]
  }

  /** The 32-bit word whose little-endian octets start at offset `at`. */
  function FromLe32(s: seq<byte>, at: nat): (v: word32)
    requires at + 4 <= |s|
  {
    (s[at] as int) + 0x100 * (s[at + 1] as int) + 0x1_0000 * (s[at + 2] as int) + 0x100_0000 * (s[at + 3] as int)
  }

  lemma Le32RoundTrip(v: word32)
    ensures FromLe32(Le32(v), 0) == v
  {
  }

  /** Reading the word does not depend on what surrounds its four octets. */
  lemma FromLe32InContext(s: seq<byte>, at: nat, w: seq<byte>)
    requires |w| == 4 && at + 4 <= |s| && s[at..at + 4] == w
    ensures FromLe32(s, at) == FromLe32(w, 0)
  {
    assert s[at] == w[0] && s[at + 1] == w[1] && s[at + 2] == w[2] && s[at + 3] == w[3];
  }

  ghost predicate IsSuffix<T>(s: seq<T>, t: seq<T>) {
    |s| <= |t| && s == t[|t| - |s|..]
  }
}
