/**
 * The egress hops that fill in checksums left at zero: the Ethernet wrapper on
 * radio links and the fix-up just before a packet is sealed into the tunnel.
 */
module Egress {
  import opened Bytes
  import opened Checksum
  import opened Packet

  /** Fill in the header checksum when it is absent. */
  function RestoreHeader(p: seq<byte>, ihl: nat): (r: seq<byte>)
    requires 20 <= ihl <= |p|
    ensures |r| == |p|
  {
    if WordAt(p, 10) == 0 then Put(p, 10, Octets(Complement(Fold(Sum(p[..ihl]))))) else p
  }

  /** Fill in the transport checksum of a whole, unfragmented datagram when it is absent. */
  function RestoreTransport(p: seq<byte>, v: View, tot: nat): (r: seq<byte>)
    requires 20 <= v.ihl <= tot <= |p|
    ensures |r| == |p|
  {
    if v.proto !in {ICMP, TCP, UDP} || tot - v.ihl < MinTransport(v.proto) || WordAt(p, CsumAt(v)) != 0 then p
    else
      var c := Complement(Fold(TransportSum(p, v, tot)));
      Put(p, CsumAt(v), Octets(if v.proto == UDP && c == 0 then 0xFFFF else c))
  }

  /** A fragment's transport checksum spans octets that are not here. */
  predicate Fragment(p: seq<byte>)
    requires |p| >= 20
  {
    p[6] % 64 != 0 || p[7] != 0
  }

  function Restore(p: seq<byte>, ihl: nat, tot: nat): (r: seq<byte>)
    requires 20 <= ihl <= tot <= |p|
    ensures |r| == |p|
  {
    var q := RestoreHeader(p, ihl);
    if Fragment(q) then q else RestoreTransport(q, View(ihl, |p| - ihl, q[9]), tot)
  }

  /** The guard of both hops: an IPv4 datagram that the buffer holds in full. */
  predicate Restorable(p: seq<byte>)
  {
    |p| >= 20 && p[0] / 16 == 4 && 20 <= HeaderLen(p[0]) <= TotalLength(p) <= |p|
  }

  function RestoreIfPossible(p: seq<byte>): (r: seq<byte>)
    ensures |r| == |p|
  {
    if Restorable(p) then Restore(p, HeaderLen(p[0]), TotalLength(p)) else p
  }

  lemma RestoreHeaderValid(p: seq<byte>, v: View, tot: nat)
    requires 20 <= v.ihl && CsumAt(v) + 2 <= tot <= |p| && v.ihl % 2 == 0
    ensures var q := RestoreHeader(p, v.ihl);
            && SameExcept(p, q, 10, 2)
            && (SumsToOnes(HeaderSum(q, v)) <==> WordAt(p, 10) == 0 || SumsToOnes(HeaderSum(p, v)))
            && TransportSum(q, v, tot) == TransportSum(p, v, tot)
  {
    hide Sum, Put, Octets, Fold, SumsToOnes, Be16;
    if WordAt(p, 10) == 0 {
      var c := Complement(Fold(HeaderSum(p, v)));
      StoreInHeader(p, v, tot, 10, Octets(c));
      SumOfWord(p, 10);
      SumOfOctets(c);
      PutFrame(p, 10, Octets(c));
      FreshChecksum(HeaderSum(p, v), c);
    }
  }

  lemma RestoreTransportValid(p: seq<byte>, v: View, tot: nat)
    requires 20 <= v.ihl && v.ihl + MinTransport(v.proto) <= tot <= |p| && v.ihl % 2 == 0 && v.proto in {ICMP, TCP, UDP}
    ensures var q := RestoreTransport(p, v, tot);
            && SameExcept(p, q, CsumAt(v), 2)
            && (SumsToOnes(TransportSum(q, v, tot)) <==>
                WordAt(p, CsumAt(v)) == 0 || SumsToOnes(TransportSum(p, v, tot)))
            && HeaderSum(q, v) == HeaderSum(p, v)
            && (v.proto == UDP ==> WordAt(q, CsumAt(v)) != 0)
  {
    hide Sum, Put, Octets, Fold, SumsToOnes, Be16, HeaderSum, TransportSum;
    if WordAt(p, CsumAt(v)) == 0 {
      var c := Complement(Fold(TransportSum(p, v, tot)));
      var w := if v.proto == UDP && c == 0 then 0xFFFF else c;
      CsumAtIsEven(v);
      StoreInTransport(p, v, tot, CsumAt(v), Octets(w));
      SumOfWord(p, CsumAt(v));
      SumOfOctets(w);
      PutFrame(p, CsumAt(v), Octets(w));
      FreshChecksum(TransportSum(p, v, tot), w);
    }
  }

  /** After egress every checksum is valid exactly when each was zero or valid before: a wrong one is not touched. */
  lemma RestoreMakesValid(p: seq<byte>, v: View)
    requires Complete(p, v)
    ensures Restorable(p)
    ensures var q := RestoreIfPossible(p);
            && Complete(q, v) && (AllValid(q, v) <==> ZeroOrValid(p, v))
            && (v.proto == UDP ==> WordAt(q, CsumAt(v)) != 0)
            && forall i :: 0 <= i < |p| && !(10 <= i < 12) && !(CsumAt(v) <= i < CsumAt(v) + 2) ==> q[i] == p[i]
  {
    hide Sum, Be16, SumsToOnes, HeaderSum, TransportSum, RestoreHeader, RestoreTransport;
    var tot := TotalLength(p);
    RestoreHeaderValid(p, v, tot);
    var h := RestoreHeader(p, v.ihl);
    assert h[6] == p[6] && h[7] == p[7] && h[9] == p[9];
    assert WordAt(h, CsumAt(v)) == WordAt(p, CsumAt(v));
    RestoreTransportValid(h, v, tot);
    var q := RestoreTransport(h, v, tot);
    assert q[..10] == p[..10];
    ParseDependsOnPrefix(p, q, v);
  }

  /**
   * The two hops composed: what leaves is right exactly when the MSS edit is harmless or an update lands the
   * checksum on zero.
   */
  lemma TranslatedThenRestored(p: seq<byte>, v: View, srcSide: bool, addr: seq<byte>, key: seq<byte>, mss: word16)
    requires Complete(p, v) && ZeroOrValid(p, v) && |addr| == 4 && |key| == 2
    ensures var t, at := Translate(p, v, srcSide, addr, key, mss), if srcSide then 12 else 16;
            var q := RestoreIfPossible(t);
            && Complete(q, v)
            && (AllValid(q, v) <==> MssHarmless(p, v, mss) || LandsOnZero(p, v, srcSide, addr, key, mss))
            && q[at..at + 4] == addr && q[KeyAt(v, srcSide)..KeyAt(v, srcSide) + 2] == key
  {
    hide Translate, RestoreIfPossible, Complete, ZeroOrValid, AllValid, MssHarmless, WordAt, ClampAt, LandsOnZero;
    CompleteParses(p, v);
    var t, at, k := Translate(p, v, srcSide, addr, key, mss), if srcSide then 12 else 16, KeyAt(v, srcSide);
    TranslateKeepsChecksums(p, v, srcSide, addr, key, mss);
    TranslateFields(p, v, srcSide, addr, key, mss);
    RestoreMakesValid(t, v);
    var q := RestoreIfPossible(t);
    assert q[at..at + 4] == t[at..at + 4];
    assert q[k..k + 2] == t[k..k + 2];
  }

  lemma CompleteParses(p: seq<byte>, v: View)
    requires Complete(p, v)
    ensures Parse(p) == Some(v)
  {
  }

  // ---- the code that does it ---------------------------------------------------------

  lemma {:induction false} SumBound(s: seq<byte>)
    ensures Sum(s) <= 0xFFFF * ((|s| + 1) / 2)
  {
    if |s| >= 2 {
      SumBound(s[2..]);
    }
  }

  /** Accumulate the words of f[lo..lo + n] in 32 bits; nothing carries out of them. */
  method CsumAdd(sum0: word32, f: array<byte>, lo: nat, n: nat) returns (sum: word32)
    requires lo + n <= f.Length && n < 0x1_0000 && sum0 < 0x8000_0000
    ensures sum == sum0 + Sum(f[lo..lo + n])
  {
    sum := sum0;
    var d, left := lo, n;
    SumBound(f[lo..lo + n]);
    while left > 1
      invariant 0 <= left <= n && d + left == lo + n
      invariant sum + Sum(f[d..lo + n]) == sum0 + Sum(f[lo..lo + n])
    {
      assert f[d..lo + n][2..] == f[d + 2..lo + n];
      sum := sum + Be16(f[d], f[d + 1]);
      d, left := d + 2, left - 2;
    }
    if left != 0 {
      sum := sum + 256 * (f[d] as int);
    }
  }

  method CsumFinish(s0: word32) returns (c: word16)
    ensures c == Complement(Fold(s0))
  {
    var s := s0;
    while s >= 0x1_0000
      invariant Fold(s) == Fold(s0)
      decreases s
    {
      s := s % 0x1_0000 + s / 0x1_0000;
    }
    c := Complement(s);
  }

  method StoreWord(f: array<byte>, at: nat, w: word16)
    requires at + 2 <= f.Length
    modifies f
    ensures f[..] == Put(old(f[..]), at, Octets(w))
  {
    f[at] := Hi(w);
    f[at + 1] := Lo(w);
  }

  /** Both restorers share this body, on the datagram that starts at `base`. */
  method RestoreAt(f: array<byte>, base: nat, ihl: nat, tot: nat)
    requires base <= f.Length && 20 <= ihl <= tot <= f.Length - base && tot < 0x1_0000
    modifies f
    ensures f[..base] == old(f[..base])
    ensures f[base..] == Restore(old(f[base..]), ihl, tot)
  {
    hide Sum, Put, Octets, Fold;
    ghost var p := f[base..];
    if f[base + 10] == 0 && f[base + 11] == 0 {
      var s := CsumAdd(0, f, base, ihl);
      var c := CsumFinish(s);
      assert f[base..base + ihl] == p[..ihl];
      ghost var was := f[..];
      StoreWord(f, base + 10, c);
      TailOfPut(was, base, 10, Octets(c));
    }
    ghost var q := f[base..];
    assert q == RestoreHeader(p, ihl);
    if f[base + 6] % 64 != 0 || f[base + 7] != 0 {
      return;
    }
    RestoreTransportAt(f, base, View(ihl, f.Length - base - ihl, f[base + 9]), tot);
  }

  method AddTransport(f: array<byte>, base: nat, v: View, tot: nat) returns (s: word32)
    requires base <= f.Length && 20 <= v.ihl <= tot <= f.Length - base && tot < 0x1_0000
    ensures s == TransportSum(f[base..], v, tot)
  {
    hide Sum;
    var l4, l4len := base + v.ihl, tot - v.ihl;
    s := 0;
    if v.proto != ICMP {
      s := CsumAdd(0, f, base + 12, 8);
      SumBound(f[base + 12..base + 20]);
      s := s + v.proto + l4len;
    }
    s := CsumAdd(s, f, l4, l4len);
    ghost var p := f[base..];
    assert p == f[..][base..f.Length];
    SliceOfSlice(f[..], base, f.Length, base + 12, base + 20);
    SliceOfSlice(f[..], base, f.Length, l4, base + tot);
    assert p[12..20] == f[base + 12..base + 20] && p[v.ihl..tot] == f[l4..l4 + l4len];
  }

  method RestoreTransportAt(f: array<byte>, base: nat, v: View, tot: nat)
    requires base <= f.Length && 20 <= v.ihl <= tot <= f.Length - base && tot < 0x1_0000
    modifies f
    ensures f[..base] == old(f[..base])
    ensures f[base..] == RestoreTransport(old(f[base..]), v, tot)
  {
    hide Put, Octets, Fold, TransportSum;
    if v.proto !in {ICMP, TCP, UDP} || tot - v.ihl < MinTransport(v.proto) {
      return;
    }
    var at := base + CsumAt(v);
    if f[at] == 0 && f[at + 1] == 0 {
      var s := AddTransport(f, base, v, tot);
      var c := CsumFinish(s);
      if v.proto == UDP && c == 0 {
        c := 0xFFFF;
      }
      ghost var was := f[..];
      StoreWord(f, at, c);
      TailOfPut(was, base, CsumAt(v), Octets(c));
    }
  }

  lemma TailOfPut(s: seq<byte>, base: nat, at: nat, b: seq<byte>)
    requires base + at + |b| <= |s|
    ensures Put(s, base + at, b)[base..] == Put(s[base..], at, b)
    ensures Put(s, base + at, b)[..base] == s[..base]
  {
  }

  /**
   * The 16-bit length sum of the guard wraps: an IPv4 datagram longer than the frame would be taken for one
   * inside it.
   */
  predicate LengthWraps(f: seq<byte>) {
    && |f| >= 34 && f[12] == 0x08 && f[13] == 0 && f[14] / 16 == 4
    && 20 <= HeaderLen(f[14]) <= Be16(f[16], f[17])
    && (14 + Be16(f[16], f[17])) % 0x1_0000 <= |f| < 14 + Be16(f[16], f[17])
  }

  /** Restore the checksums of an outgoing Ethernet frame; anything else passes untouched. */
  method EthCsumRestore(f: array<byte>)
    requires f.Length < 0x1_0000 && !LengthWraps(f[..])
    modifies f
    ensures f.Length < 14 ==> f[..] == old(f[..])
    ensures f.Length >= 14 ==> f[..14] == old(f[..14])
    ensures f.Length >= 14 ==>
              f[14..] == if f[12] == 0x08 && f[13] == 0 then RestoreIfPossible(old(f[14..])) else old(f[14..])
  {
    hide Restore;
    if f.Length < 34 || f[12] != 0x08 || f[13] != 0 {
      return;
    }
    ghost var p := f[14..];
    assert p[0] == f[14] && p[2] == f[16] && p[3] == f[17];
    var ihl, tot := HeaderLen(f[14]), Be16(f[16], f[17]);
    if f[14] / 16 != 4 || ihl < 20 || tot < ihl || (14 + tot) % 0x1_0000 > f.Length {
      return;
    }
    RestoreAt(f, 14, ihl, tot);
    assert f[..14][12] == f[12] && f[..14][13] == f[13];
  }

  /** Restore the checksums of a packet about to be sealed into the tunnel. */
  method FixChecksums(ip: array<byte>)
    modifies ip
    ensures ip[..] == RestoreIfPossible(old(ip[..]))
  {
    hide Restore;
    if ip.Length < 20 || ip[0] / 16 != 4 {
      return;
    }
    var ihl, tot := HeaderLen(ip[0]), Be16(ip[2], ip[3]);
    if ihl < 20 || tot < ihl || tot > ip.Length {
      return;
    }
    assert ip[..] == ip[0..];
    RestoreAt(ip, 0, ihl, tot);
    assert ip[..] == ip[0..];
  }
}
