/**
 * One's-complement arithmetic on big-endian 16-bit words: the incremental
 * update used by the NAT and the full recomputation used at egress.
 */
module Checksum {
  import opened Bytes
  import opened Congruence

  /** Sums of words count modulo this. */
  const ONES: nat := 0xFFFF

  function Hi(w: word16): byte { w / 256 }
  function Lo(w: word16): byte { w % 256 }

  function Be16(hi: byte, lo: byte): word16 {
    256 * (hi as int) + lo
  }

  function WordAt(s: seq<byte>, at: nat): word16
    requires at + 2 <= |s|
  {
    Be16(s[at], s[at + 1])
  }

  /** Sum of the big-endian words; a final odd octet is padded with a zero octet. */
  function Sum(s: seq<byte>): nat {
    if s == [] then 0
    else if |s| == 1 then 256 * (s[0] as int)
    else Be16(s[0], s[1]) + Sum(s[2..])
  }

  /** What one octet contributes to `Sum`, by the parity of its position. */
  function Weight(i: nat): nat { if i % 2 == 0 then 256 else 1 }

  lemma {:induction false} SumOfUpdate(s: seq<byte>, i: nat, b: byte)
    requires i < |s|
    ensures Sum(s[i := b]) == Sum(s) + Weight(i) * (b - s[i])
  {
    if i < 2 {
      assert |s| >= 2 ==> s[i := b][2..] == s[2..];
    } else {
      assert s[i := b][2..] == s[2..][i - 2 := b];
      SumOfUpdate(s[2..], i - 2, b);
    }
  }

  /** `s` with the octets of `b` stored from offset `at`. */
  function Put(s: seq<byte>, at: nat, b: seq<byte>): (r: seq<byte>)
    requires at + |b| <= |s|
    ensures |r| == |s|
  {
    seq(|s|, i requires 0 <= i < |s| => if at <= i < at + |b| then b[i - at] else s[i])
  }

  function Octets(w: word16): (s: seq<byte>)
    ensures |s| == 2
  {
    [Hi(w), Lo(w)]
  }

  lemma SumOfOctets(w: word16)
    ensures Sum(Octets(w)) == w && WordAt(Octets(w), 0) == w
  {
    assert Octets(w)[2..] == [];
  }

  lemma {:induction false} SumOfAppend(s: seq<byte>, t: seq<byte>)
    requires |s| % 2 == 0
    ensures Sum(s + t) == Sum(s) + Sum(t)
  {
    if s == [] {
      assert s + t == t;
    } else {
      assert (s + t)[2..] == s[2..] + t;
      SumOfAppend(s[2..], t);
    }
  }

  lemma {:induction false} SumOfPut(s: seq<byte>, at: nat, b: seq<byte>)
    requires at + |b| <= |s| && at % 2 == 0 && |b| % 2 == 0
    ensures Sum(Put(s, at, b)) == Sum(s) - Sum(s[at..at + |b|]) + Sum(b)
  {
    var was := s[at..at + |b|];
    assert s == s[..at] + (was + s[at + |b|..]);
    assert Put(s, at, b) == s[..at] + (b + s[at + |b|..]);
    SumOfAppend(s[..at], was + s[at + |b|..]);
    SumOfAppend(was, s[at + |b|..]);
    SumOfAppend(s[..at], b + s[at + |b|..]);
    SumOfAppend(b, s[at + |b|..]);
  }

  /** Add the carries back in until the value fits in 16 bits. */
  function Fold(s: nat): (r: word16)
    decreases s
  {
    if s < 0x1_0000 then s else Fold(s % 0x1_0000 + s / 0x1_0000)
  }

  /** Folding preserves the value modulo 0xFFFF and keeps zero apart from 0xFFFF. */
  lemma {:induction false} FoldIsResidue(s: nat)
    ensures Cong(Fold(s), s, ONES)
    ensures Fold(s) == 0 <==> s == 0
    decreases s
  {
    if s >= 0x1_0000 {
      var t := s % 0x1_0000 + s / 0x1_0000;
      FoldIsResidue(t);
      CongByCofactor(t, s, -(s / 0x1_0000), ONES);
      CongAdd(Fold(t), t, t, s, ONES);
    }
  }

  function Complement(w: word16): word16 { 0xFFFF - w }

  /** The words of a protected region, checksum included, add up to all ones. */
  ghost predicate SumsToOnes(total: nat) {
    Fold(total) == 0xFFFF
  }

  lemma SumsToOnesIff(total: nat)
    ensures SumsToOnes(total) <==> total > 0 && Cong(total, 0, ONES)
  {
    hide Fold, Cong;
    FoldIsResidue(total);
    var k := CongCofactor(Fold(total), total, ONES);
    if Fold(total) == 0xFFFF {
      CongByCofactor(total, 0, 1 - k, ONES);
    } else if Cong(total, 0, ONES) {
      var l := CongCofactor(total, 0, ONES);
      assert Fold(total) == 0xFFFF * (k + l);
    }
  }

  /** Equation 3 in section 3 of RFC 1624: HC' = ~(~HC + ~m + m'), over all changed words. */
  function Adjusted(csum: word16, oldb: seq<byte>, newb: seq<byte>): (r: word16)
    requires |oldb| == |newb|
  {
    Complement(Fold(Complement(csum) + ComplementSum(oldb) + Sum(newb)))
  }

  function ComplementSum(s: seq<byte>): nat
  {
    if |s| < 2 then 0 else Complement(Be16(s[0], s[1])) + ComplementSum(s[2..])
  }

  lemma {:induction false} ComplementSumIs(s: seq<byte>)
    requires |s| % 2 == 0
    ensures ComplementSum(s) == 0xFFFF * (|s| / 2) - Sum(s)
  {
    if s != [] {
      ComplementSumIs(s[2..]);
    }
  }

  /** The adjusted checksum differs from the old one by exactly what the data lost. */
  lemma AdjustedIsCongruent(csum: word16, oldb: seq<byte>, newb: seq<byte>)
    requires |oldb| == |newb| && |oldb| % 2 == 0
    ensures Cong(Adjusted(csum, oldb, newb), csum + Sum(oldb) - Sum(newb), ONES)
  {
    hide Cong, Fold, ComplementSum, Sum;
    var x := Complement(csum) + ComplementSum(oldb) + Sum(newb);
    ComplementSumIs(oldb);
    FoldIsResidue(x);
    var q := CongCofactor(Fold(x), x, ONES);
    CongByCofactor(Adjusted(csum, oldb, newb), csum + Sum(oldb) - Sum(newb), -q - |oldb| / 2, ONES);
  }

  /** What the code makes of a checksum field that may be absent: zero stays zero. */
  function Updated(csum: word16, oldb: seq<byte>, newb: seq<byte>): word16
    requires |oldb| == |newb|
  {
    if csum == 0 then 0 else Adjusted(csum, oldb, newb)
  }

  /**
   * A present checksum turns absent exactly when the new words exceed the old ones by its value modulo 0xFFFF;
   * the one exception is a checksum of all ones, old words of all ones and new words of zero.
   */
  lemma VanishesExactly(csum: word16, oldb: seq<byte>, newb: seq<byte>)
    requires |oldb| == |newb| && |oldb| % 2 == 0
    ensures Updated(csum, oldb, newb) == 0 <==>
        csum == 0 || (Cong(csum + Sum(oldb), Sum(newb), ONES) &&
                      csum + Sum(oldb) - Sum(newb) != 0xFFFF * (1 + |oldb| / 2))
  {
    hide Cong, Fold, ComplementSum, Sum;
    var x, h := Complement(csum) + ComplementSum(oldb) + Sum(newb), 1 + |oldb| / 2;
    ComplementSumIs(oldb);
    assert x == 0xFFFF * h - (csum + Sum(oldb) - Sum(newb));
    SumsToOnesIff(x);
    if Cong(x, 0, ONES) {
      var k := CongCofactor(x, 0, ONES);
      CongByCofactor(csum + Sum(oldb), Sum(newb), h - k, ONES);
    }
    if Cong(csum + Sum(oldb), Sum(newb), ONES) {
      var k := CongCofactor(csum + Sum(oldb), Sum(newb), ONES);
      CongByCofactor(x, 0, h - k, ONES);
    }
  }

  /** A checksum computed over a region whose checksum field holds zero makes the region valid. */
  lemma FreshChecksum(total: nat, c: word16)
    requires c == Complement(Fold(total)) || (c == 0xFFFF && Complement(Fold(total)) == 0)
    ensures SumsToOnes(total + c)
  {
    hide Cong, Fold;
    FoldIsResidue(total);
    var k := CongCofactor(Fold(total), total, ONES);
    var m := if c == Complement(Fold(total)) then 1 - k else 2 - k;
    assert total + c == 0xFFFF * m;
    CongByCofactor(total + c, 0, m, ONES);
    SumsToOnesIff(total + c);
  }

  /**
   * While a region is being rewritten, its checksum is either absent or correct once
   * the `pending` change, already accounted for but not yet stored, is added in.
   */
  ghost predicate Tracks(csum: word16, total: int, pending: int) {
    csum == 0 || Cong(total + pending, 0, ONES)
  }

  lemma AdjustTracks(csum: word16, total: int, pending: int, oldb: seq<byte>, newb: seq<byte>, c: word16)
    requires Tracks(csum, total, pending) && csum != 0
    requires |oldb| == |newb| && |oldb| % 2 == 0
    requires c == Adjusted(csum, oldb, newb) || (c == 0xFFFF && Adjusted(csum, oldb, newb) == 0)
    ensures Tracks(c, total - csum + c, pending + Sum(newb) - Sum(oldb))
  {
    hide Cong, Sum, Adjusted;
    AdjustedIsCongruent(csum, oldb, newb);
    var k := CongCofactor(Adjusted(csum, oldb, newb), csum + Sum(oldb) - Sum(newb), ONES);
    var l := CongCofactor(total + pending, 0, ONES);
    var m := if c == Adjusted(csum, oldb, newb) then k + l else k + l + 1;
    CongByCofactor(total - csum + c + (pending + Sum(newb) - Sum(oldb)), 0, m, ONES);
  }

  lemma TracksToTheEnd(csum: word16, total: nat)
    ensures csum <= total ==> (Tracks(csum, total, 0) <==> csum == 0 || SumsToOnes(total))
  {
    hide Cong, Fold;
    SumsToOnesIff(total);
  }
}
