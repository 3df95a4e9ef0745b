/**
 * IPv4 packets as the NAT and the egress hops edit them: which octets change,
 * and what that does to the header and transport checksums.
 */
module Packet {
  import opened Bytes
  import opened Congruence
  import opened Checksum

  const ICMP: byte := 1
  const TCP: byte := 6
  const UDP: byte := 17

  datatype View = View(ihl: nat, avail: nat, proto: byte)

  function HeaderLen(b: byte): nat { b % 16 * 4 }

  /** A non-fragment IPv4 packet whose transport header is present in the flat span. */
  function Parse(p: seq<byte>): (r: Option<View>)
    ensures r.Some? ==> 20 <= r.value.ihl <= 60 && r.value.ihl % 4 == 0
    ensures r.Some? ==> r.value.ihl + r.value.avail == |p| && r.value.avail >= MinTransport(r.value.proto)
    ensures r.Some? ==> r.value.proto in {ICMP, TCP, UDP} && r.value.proto == p[9] && r.value.ihl == HeaderLen(p[0])
  {
    if |p| < 20 || p[0] / 16 != 4 then None
    else
      var ihl := HeaderLen(p[0]);
      if ihl < 20 || |p| < ihl then None
      else if p[6] % 64 != 0 || p[7] != 0 then None // MF or a nonzero offset
      else
        var v := View(ihl, |p| - ihl, p[9]);
        if v.proto in {ICMP, TCP, UDP} && v.avail >= MinTransport(v.proto) then Some(v) else None
  }

  function MinTransport(proto: byte): nat { if proto == TCP then 20 else 8 }

  /** Where the transport checksum sits inside the transport header. */
  function CsumAt(v: View): nat {
    v.ihl + if v.proto == TCP then 16 else if v.proto == UDP then 6 else 2
  }

  /** The field a mapping is keyed on: a port, or the ICMP echo identifier. */
  function KeyAt(v: View, srcSide: bool): nat {
    v.ihl + if v.proto == ICMP then 4 else if srcSide then 0 else 2
  }

  // ---- the edits ----------------------------------------------------------------

  /** Store an adjusted checksum. */
  function Adjust(p: seq<byte>, at: nat, oldb: seq<byte>, newb: seq<byte>): (r: seq<byte>)
    requires at + 2 <= |p| && |oldb| == |newb|
    ensures |r| == |p|
  {
    Put(p, at, Octets(Adjusted(WordAt(p, at), oldb, newb)))
  }

  /** Adjust only a checksum that is present. */
  function AdjustNz(p: seq<byte>, at: nat, oldb: seq<byte>, newb: seq<byte>): (r: seq<byte>)
    requires at + 2 <= |p| && |oldb| == |newb|
    ensures |r| == |p|
  {
    if WordAt(p, at) != 0 then Adjust(p, at, oldb, newb) else p
  }

  /** The UDP variant never lands on zero, which would read as "no checksum". */
  function AdjustUdp(p: seq<byte>, at: nat, oldb: seq<byte>, newb: seq<byte>): (r: seq<byte>)
    requires at + 2 <= |p| && |oldb| == |newb|
    ensures |r| == |p|
  {
    if WordAt(p, at) != 0 then
      var q := Adjust(p, at, oldb, newb);
      if Adjusted(WordAt(p, at), oldb, newb) == 0 then Put(q, at, Octets(0xFFFF)) else q
    else p
  }

  /** The transport checksum update of the packet's protocol for one rewritten field. */
  function AdjustL4(p: seq<byte>, v: View, oldb: seq<byte>, newb: seq<byte>): (r: seq<byte>)
    requires CsumAt(v) + 2 <= |p| && |oldb| == |newb|
    ensures |r| == |p|
  {
    if v.proto == UDP then AdjustUdp(p, CsumAt(v), oldb, newb) else AdjustNz(p, CsumAt(v), oldb, newb)
  }

  /** Position of the first well-formed MSS option among the TCP options l4[i..off]. */
  function FindMss(l4: seq<byte>, i: nat, off: nat): (r: Option<nat>)
    requires off <= |l4|
    ensures r.Some? ==> i <= r.value && r.value + 4 <= off
    decreases off - i
  {
    if i + 1 >= off || l4[i] == 0 then None
    else if l4[i] == 1 then FindMss(l4, i + 1, off)
    else if l4[i + 1] < 2 || i + l4[i + 1] > off then None
    else if l4[i] == 2 && l4[i + 1] == 4 then Some(i)
    else FindMss(l4, i + l4[i + 1], off)
  }

  function DataOffset(p: seq<byte>, v: View): nat
    requires v.ihl + 20 <= |p|
  {
    p[v.ihl + 12] / 16 * 4
  }

  /** Where the 16-bit MSS value that the clamp would lower starts, if there is one. */
  function ClampAt(p: seq<byte>, v: View, mss: word16): (r: Option<nat>)
    requires v.ihl + v.avail == |p| && v.avail >= 20
    ensures r.Some? ==> v.ihl + 22 <= r.value && r.value + 2 <= v.ihl + DataOffset(p, v) <= |p|
  {
    var off := DataOffset(p, v);
    if mss == 0 || p[v.ihl + 13] / 2 % 2 == 0 || off <= 20 || off > v.avail then None
    else
      var o := FindMss(p[v.ihl..], 20, off);
      if o.Some? && WordAt(p, v.ihl + o.value + 2) > mss then Some(v.ihl + o.value + 2) else None
  }

  /** Lower the MSS option of a SYN so the flow fits the tunnel. */
  function ClampMss(p: seq<byte>, v: View, mss: word16): (r: seq<byte>)
    requires v.ihl + v.avail == |p| && v.avail >= 20
    ensures |r| == |p|
  {
    var at := ClampAt(p, v, mss);
    if at.None? then p
    else AdjustNz(Put(p, at.value, Octets(mss)), v.ihl + 16, p[at.value..at.value + 2], Octets(mss))
  }

  /** Rewrite one address, and account for it in both checksums. */
  function RewriteAddr(p: seq<byte>, v: View, at: nat, addr: seq<byte>): (r: seq<byte>)
    requires Parse(p) == Some(v) && at in {12, 16} && |addr| == 4
    ensures |r| == |p|
  {
    var was := p[at..at + 4];
    var p1 := AdjustNz(p, 10, was, addr);
    var p2 := if v.proto == ICMP then p1 else AdjustL4(p1, v, was, addr);
    Put(p2, at, addr)
  }

  /** Rewrite the port or echo identifier, clamping the MSS of a SYN on the way. */
  function RewriteKey(p: seq<byte>, v: View, at: nat, key: seq<byte>, mss: word16): (r: seq<byte>)
    requires v.ihl + v.avail == |p| && v.avail >= MinTransport(v.proto) && v.ihl <= at <= v.ihl + 4 && |key| == 2
    ensures |r| == |p|
  {
    var p1 := AdjustL4(p, v, p[at..at + 2], key);
    var p2 := if v.proto == TCP then ClampMss(p1, v, mss) else p1;
    Put(p2, at, key)
  }

  /** A whole translation: `srcSide` for outbound packets, destination side for replies. */
  function Translate(p: seq<byte>, v: View, srcSide: bool, addr: seq<byte>, key: seq<byte>, mss: word16): (r: seq<byte>)
    requires Parse(p) == Some(v) && |addr| == 4 && |key| == 2
    ensures |r| == |p|
  {
    RewriteKey(RewriteAddr(p, v, if srcSide then 12 else 16, addr), v, KeyAt(v, srcSide), key, mss)
  }

  // ---- what a checksum protects ---------------------------------------------------

  function TotalLength(p: seq<byte>): nat
    requires |p| >= 20
  {
    WordAt(p, 2)
  }

  /** The datagram is all in the span, and a TCP header's options are inside the datagram. */
  ghost predicate Complete(p: seq<byte>, v: View) {
    && Parse(p) == Some(v)
    && v.ihl + MinTransport(v.proto) <= TotalLength(p) <= |p|
    && (v.proto == TCP ==> v.ihl + DataOffset(p, v) <= TotalLength(p))
  }

  function HeaderSum(p: seq<byte>, v: View): nat
    requires v.ihl <= |p|
  {
    Sum(p[..v.ihl])
  }

  /** The words the transport checksum covers, the pseudo header included. */
  function TransportSum(p: seq<byte>, v: View, tot: nat): nat
    requires 20 <= v.ihl <= tot <= |p|
  {
    Sum(p[v.ihl..tot]) + if v.proto == ICMP then 0 else Sum(p[12..20]) + v.proto + (tot - v.ihl)
  }

  /** Every checksum is either absent (zero, to be filled in at egress) or correct. */
  ghost predicate ZeroOrValid(p: seq<byte>, v: View)
    requires Complete(p, v)
  {
    && (WordAt(p, 10) == 0 || SumsToOnes(HeaderSum(p, v)))
    && (WordAt(p, CsumAt(v)) == 0 || SumsToOnes(TransportSum(p, v, TotalLength(p))))
  }

  ghost predicate AllValid(p: seq<byte>, v: View)
    requires Complete(p, v)
  {
    SumsToOnes(HeaderSum(p, v)) && SumsToOnes(TransportSum(p, v, TotalLength(p)))
  }

  // ---- how the sums move when octets are stored -----------------------------------

  ghost predicate SameExcept(p: seq<byte>, q: seq<byte>, at: nat, n: nat) {
    |p| == |q| && forall i :: 0 <= i < |p| && !(at <= i < at + n) ==> q[i] == p[i]
  }

  lemma PutFrame(p: seq<byte>, at: nat, b: seq<byte>)
    requires at + |b| <= |p|
    ensures SameExcept(p, Put(p, at, b), at, |b|) && Put(p, at, b)[at..at + |b|] == b
    ensures |b| == 2 ==> WordAt(Put(p, at, b), at) == WordAt(b, 0)
  {
  }

  lemma SliceOfSlice<T>(s: seq<T>, lo: nat, hi: nat, i: nat, j: nat)
    requires lo <= i <= j <= hi <= |s|
    ensures s[lo..hi][i - lo..j - lo] == s[i..j]
  {
    var t := s[lo..hi];
    forall k | 0 <= k < j - i
      ensures t[i - lo..j - lo][k] == s[i..j][k]
    {
      assert t[i - lo + k] == s[i + k];
    }
  }

  lemma SliceOutsidePut(p: seq<byte>, at: nat, b: seq<byte>, lo: nat, hi: nat)
    requires at + |b| <= |p| && lo <= hi <= |p| && (at + |b| <= lo || hi <= at)
    ensures Put(p, at, b)[lo..hi] == p[lo..hi]
  {
  }

  lemma SliceAroundPut(p: seq<byte>, at: nat, b: seq<byte>, lo: nat, hi: nat)
    requires lo <= at && at + |b| <= hi <= |p|
    ensures Put(p, at, b)[lo..hi] == Put(p[lo..hi], at - lo, b)
  {
    forall i | 0 <= i < hi - lo
      ensures Put(p, at, b)[lo..hi][i] == Put(p[lo..hi], at - lo, b)[i]
    {
      assert Put(p, at, b)[lo + i] == if at <= lo + i < at + |b| then b[lo + i - at] else p[lo + i];
    }
  }

  /** Outside the stored octets a slice is unchanged; around them its sum moves by the difference. */
  lemma SliceOfPut(p: seq<byte>, at: nat, b: seq<byte>, lo: nat, hi: nat)
    requires at + |b| <= |p| && lo <= hi <= |p|
    requires at % 2 == 0 && lo % 2 == 0 && |b| % 2 == 0
    ensures at + |b| <= lo || hi <= at ==> Put(p, at, b)[lo..hi] == p[lo..hi]
    ensures lo <= at && at + |b| <= hi ==> Sum(Put(p, at, b)[lo..hi]) == Sum(p[lo..hi]) - Sum(p[at..at + |b|]) + Sum(b)
  {
    hide Sum, Put;
    if at + |b| <= lo || hi <= at {
      SliceOutsidePut(p, at, b, lo, hi);
    }
    if lo <= at && at + |b| <= hi {
      SliceAroundPut(p, at, b, lo, hi);
      EvenDifference(at, lo);
      SumOfPut(p[lo..hi], at - lo, b);
      SliceOfSlice(p, lo, hi, at, at + |b|);
    }
  }

  lemma EvenDifference(a: nat, b: nat)
    requires b <= a && a % 2 == 0 && b % 2 == 0
    ensures (a - b) % 2 == 0
  {
  }

  lemma SumOfWord(p: seq<byte>, at: nat)
    requires at + 2 <= |p|
    ensures Sum(p[at..at + 2]) == WordAt(p, at)
  {
    assert p[at..at + 2][2..] == [];
  }

  /** Storing into the transport part moves only the transport sum. */
  lemma StoreInTransport(p: seq<byte>, v: View, tot: nat, at: nat, b: seq<byte>)
    requires 20 <= v.ihl <= at && at + |b| <= tot <= |p| && v.ihl % 2 == 0 && at % 2 == 0 && |b| % 2 == 0
    ensures var q := Put(p, at, b);
            HeaderSum(q, v) == HeaderSum(p, v) &&
            TransportSum(q, v, tot) == TransportSum(p, v, tot) - Sum(p[at..at + |b|]) + Sum(b)
  {
    hide Sum, Put;
    SliceOfPut(p, at, b, 0, v.ihl);
    SliceOfPut(p, at, b, 12, 20);
    SliceOfPut(p, at, b, v.ihl, tot);
    assert p[..v.ihl] == p[0..v.ihl] && Put(p, at, b)[..v.ihl] == Put(p, at, b)[0..v.ihl];
  }

  /** Storing into the fixed header moves the header sum, and the pseudo header if it is an address. */
  lemma StoreInHeader(p: seq<byte>, v: View, tot: nat, at: nat, b: seq<byte>)
    requires 20 <= v.ihl <= tot <= |p| && at + |b| <= 20 && at % 2 == 0 && |b| % 2 == 0
    requires 12 <= at || at + |b| <= 12
    ensures var q := Put(p, at, b);
            HeaderSum(q, v) == HeaderSum(p, v) - Sum(p[at..at + |b|]) + Sum(b) &&
            TransportSum(q, v, tot) == TransportSum(p, v, tot) +
              if v.proto == ICMP || at < 12 then 0 else Sum(b) - Sum(p[at..at + |b|])
  {
    hide Sum, Put;
    SliceOfPut(p, at, b, 0, v.ihl);
    SliceOfPut(p, at, b, 12, 20);
    SliceOutsidePut(p, at, b, v.ihl, tot);
    assert p[..v.ihl] == p[0..v.ihl] && Put(p, at, b)[..v.ihl] == Put(p, at, b)[0..v.ihl];
  }

  /** A checksum field never exceeds the sum of the region it is part of. */
  lemma ChecksumWithinSum(p: seq<byte>, v: View, tot: nat)
    requires 20 <= v.ihl && CsumAt(v) + 2 <= tot <= |p| && v.ihl % 2 == 0
    ensures WordAt(p, 10) <= HeaderSum(p, v)
    ensures WordAt(p, CsumAt(v)) <= TransportSum(p, v, tot)
  {
    hide Sum, Put, Octets, HeaderSum, TransportSum, WordAt;
    StoreInHeader(p, v, tot, 10, Octets(0));
    StoreInTransport(p, v, tot, CsumAt(v), Octets(0));
    SumOfOctets(0);
    SumOfWord(p, 10);
    SumOfWord(p, CsumAt(v));
  }

  /** Where a packet stands in the middle of a translation. */
  ghost predicate Balanced(p: seq<byte>, v: View, tot: nat, headerPending: int, l4Pending: int)
    requires 20 <= v.ihl && CsumAt(v) + 2 <= tot <= |p|
  {
    && Tracks(WordAt(p, 10), HeaderSum(p, v), headerPending)
    && Tracks(WordAt(p, CsumAt(v)), TransportSum(p, v, tot), l4Pending)
  }

  lemma BalancedAfterAdjustL4(p: seq<byte>, v: View, tot: nat, hp: int, lp: int, oldb: seq<byte>, newb: seq<byte>)
    requires 20 <= v.ihl && CsumAt(v) + 2 <= tot <= |p| && v.ihl % 2 == 0
    requires |oldb| == |newb| && |oldb| % 2 == 0
    requires Balanced(p, v, tot, hp, lp)
    ensures var q := AdjustL4(p, v, oldb, newb);
            SameExcept(p, q, CsumAt(v), 2) && Balanced(q, v, tot, hp, lp + Sum(newb) - Sum(oldb))
  {
    hide Sum, Put, Octets, WordAt, Cong, Adjusted, HeaderSum, TransportSum, SameExcept, CsumAt;
    if WordAt(p, CsumAt(v)) != 0 {
      var w := NewL4Csum(p, v, oldb, newb);
      BalancedAfterStore(p, v, tot, hp, lp, oldb, newb, w);
    } else {
      assert AdjustL4(p, v, oldb, newb) == p;
      assert SameExcept(p, p, CsumAt(v), 2) by { SameExceptNothing(p, CsumAt(v)); }
    }
  }

  lemma SameExceptNothing(p: seq<byte>, at: nat)
    ensures SameExcept(p, p, at, 2)
  {
  }

  lemma BalancedAfterStore(p: seq<byte>, v: View, tot: nat, hp: int, lp: int, oldb: seq<byte>, newb: seq<byte>,
                           w: word16)
    requires 20 <= v.ihl && CsumAt(v) + 2 <= tot <= |p| && v.ihl % 2 == 0
    requires |oldb| == |newb| && |oldb| % 2 == 0 && WordAt(p, CsumAt(v)) != 0
    requires Balanced(p, v, tot, hp, lp)
    requires var a := Adjusted(WordAt(p, CsumAt(v)), oldb, newb); w == a || (w == 0xFFFF && a == 0)
    ensures var q := Put(p, CsumAt(v), Octets(w));
            SameExcept(p, q, CsumAt(v), 2) && Balanced(q, v, tot, hp, lp + Sum(newb) - Sum(oldb))
  {
    hide Sum, Put, Octets, Be16, Cong, Adjusted, HeaderSum, TransportSum, CsumAt;
    var at := CsumAt(v);
    PutFrame(p, at, Octets(w));
    SumOfOctets(w);
    SumOfWord(p, at);
    CsumAtIsEven(v);
    StoreInTransport(p, v, tot, at, Octets(w));
    AdjustTracks(WordAt(p, at), TransportSum(p, v, tot), lp, oldb, newb, w);
  }

  lemma CsumAtIsEven(v: View)
    requires v.ihl % 2 == 0
    ensures CsumAt(v) % 2 == 0 && CsumAt(v) >= v.ihl + 2
  {
  }

  /** The transport update is a single store of either the adjusted value or its all-ones form. */
  lemma NewL4Csum(p: seq<byte>, v: View, oldb: seq<byte>, newb: seq<byte>) returns (w: word16)
    requires CsumAt(v) + 2 <= |p| && |oldb| == |newb| && WordAt(p, CsumAt(v)) != 0
    ensures AdjustL4(p, v, oldb, newb) == Put(p, CsumAt(v), Octets(w))
    ensures w == Adjusted(WordAt(p, CsumAt(v)), oldb, newb) ||
            (w == 0xFFFF && Adjusted(WordAt(p, CsumAt(v)), oldb, newb) == 0)
  {
    hide Put, Octets, WordAt, Adjusted, CsumAt;
    var a := Adjusted(WordAt(p, CsumAt(v)), oldb, newb);
    w := if v.proto == UDP && a == 0 then 0xFFFF else a;
    PutTwice(p, CsumAt(v), Octets(a), Octets(w));
  }

  lemma PutTwice(p: seq<byte>, at: nat, a: seq<byte>, b: seq<byte>)
    requires at + |a| <= |p| && |a| == |b|
    ensures Put(Put(p, at, a), at, b) == Put(p, at, b)
  {
  }

  lemma BalancedAfterAdjustHeader(p: seq<byte>, v: View, tot: nat, hp: int, lp: int, oldb: seq<byte>, newb: seq<byte>)
    requires 20 <= v.ihl && CsumAt(v) + 2 <= tot <= |p| && v.ihl % 2 == 0
    requires |oldb| == |newb| && |oldb| % 2 == 0
    requires Balanced(p, v, tot, hp, lp)
    ensures var q := AdjustNz(p, 10, oldb, newb);
            SameExcept(p, q, 10, 2) && Balanced(q, v, tot, hp + Sum(newb) - Sum(oldb), lp)
  {
    hide Sum, Put, Octets, WordAt, Cong, Adjusted, HeaderSum, TransportSum, SameExcept, CsumAt;
    CsumAtIsEven(v);
    var c := WordAt(p, 10);
    if c == 0 {
      SameExceptNothing(p, 10);
    } else {
      var w := Adjusted(c, oldb, newb);
      FieldElsewhere(p, 10, Octets(w), CsumAt(v));
      PutFrame(p, 10, Octets(w));
      SumOfOctets(w);
      SumOfWord(p, 10);
      StoreInHeader(p, v, tot, 10, Octets(w));
      AdjustTracks(c, HeaderSum(p, v), hp, oldb, newb, w);
    }
  }

  /** Storing the address itself settles what its two adjustments left pending. */
  lemma BalancedAfterAddr(p: seq<byte>, v: View, tot: nat, at: nat, addr: seq<byte>)
    requires 20 <= v.ihl && CsumAt(v) + 2 <= tot <= |p| && v.ihl % 2 == 0
    requires at in {12, 16} && |addr| == 4
    requires var d := Sum(addr) - Sum(p[at..at + 4]); Balanced(p, v, tot, d, if v.proto == ICMP then 0 else d)
    ensures SameExcept(p, Put(p, at, addr), at, 4) && Balanced(Put(p, at, addr), v, tot, 0, 0)
  {
    hide Sum, Put, Be16, Cong, HeaderSum, TransportSum, CsumAt;
    CsumAtIsEven(v);
    PutFrame(p, at, addr);
    StoreInHeader(p, v, tot, at, addr);
  }

  /** A translated address leaves both checksums zero or accounted for. */
  lemma RewriteAddrBalanced(p: seq<byte>, v: View, tot: nat, at: nat, addr: seq<byte>)
    requires Parse(p) == Some(v) && CsumAt(v) + 2 <= tot <= |p|
    requires at in {12, 16} && |addr| == 4 && Balanced(p, v, tot, 0, 0)
    ensures var q := RewriteAddr(p, v, at, addr);
            Balanced(q, v, tot, 0, 0) && q[at..at + 4] == addr &&
            forall i | 0 <= i < |p| && !(10 <= i < 12) && !(at <= i < at + 4) ::
              !(CsumAt(v) <= i < CsumAt(v) + 2) ==> q[i] == p[i]
  {
    hide Sum, Put, WordAt, HeaderSum, TransportSum, Tracks, CsumAt, AdjustL4, AdjustNz;
    var was := p[at..at + 4];
    CsumAtIsEven(v);
    BalancedAfterAdjustHeader(p, v, tot, 0, 0, was, addr);
    var p1 := AdjustNz(p, 10, was, addr);
    var d := Sum(addr) - Sum(was);
    if v.proto != ICMP {
      BalancedAfterAdjustL4(p1, v, tot, d, 0, was, addr);
    }
    var p2 := if v.proto == ICMP then p1 else AdjustL4(p1, v, was, addr);
    assert p2[at..at + 4] == was;
    BalancedAfterAddr(p2, v, tot, at, addr);
    PutFrame(p2, at, addr);
  }

  /** Storing a two-octet transport field settles what its adjustment left pending. */
  lemma BalancedAfterField(p: seq<byte>, v: View, tot: nat, lp: int, at: nat, b: seq<byte>)
    requires 20 <= v.ihl && CsumAt(v) + 2 <= tot <= |p| && v.ihl % 2 == 0
    requires v.ihl <= at && at + 2 <= tot && at % 2 == 0 && |b| == 2
    requires at + 2 <= CsumAt(v) || CsumAt(v) + 2 <= at
    requires Balanced(p, v, tot, 0, lp)
    ensures SameExcept(p, Put(p, at, b), at, 2)
    ensures Balanced(Put(p, at, b), v, tot, 0, lp - (Sum(b) - Sum(p[at..at + 2])))
  {
    hide Sum, Put, Be16, Cong, HeaderSum, TransportSum, CsumAt;
    PutFrame(p, at, b);
    CsumAtIsEven(v);
    StoreInTransport(p, v, tot, at, b);
  }

  /**
   * By how much the clamp misjudges the change it makes. The update is word-wise, so a
   * value at an odd offset, whose octets weigh the other way round, is misjudged.
   */
  function MssError(p: seq<byte>, v: View, mss: word16): int
    requires v.ihl + v.avail == |p| && v.avail >= 20
  {
    var at := ClampAt(p, v, mss);
    if at.None? || at.value % 2 == 0 then 0
    else 255 * ((Hi(mss) - p[at.value]) - (Lo(mss) - p[at.value + 1]))
  }

  /** Storing two octets at an odd offset moves the sum by their swapped value. */
  lemma OddStoreInTransport(p: seq<byte>, v: View, tot: nat, at: nat, hi: byte, lo: byte)
    requires 20 <= v.ihl < at && at + 2 <= tot <= |p| && v.ihl % 2 == 0 && at % 2 == 1
    ensures var q := Put(p, at, [hi, lo]);
            HeaderSum(q, v) == HeaderSum(p, v) &&
            TransportSum(q, v, tot) == TransportSum(p, v, tot) + (hi - p[at]) + 256 * (lo - p[at + 1])
  {
    hide Sum;
    var q, s, k := Put(p, at, [hi, lo]), p[v.ihl..tot], at - v.ihl;
    SliceOutsidePut(p, at, [hi, lo], 0, v.ihl);
    assert q[..v.ihl] == q[0..v.ihl] && p[..v.ihl] == p[0..v.ihl];
    SliceOutsidePut(p, at, [hi, lo], 12, 20);
    SliceAroundPut(p, at, [hi, lo], v.ihl, tot);
    var s1: seq<byte> := s[k := hi];
    assert Put(s, k, [hi, lo]) == s1[k + 1 := lo];
    SumOfUpdate(s, k, hi);
    SumOfUpdate(s1, k + 1, lo);
  }

  /** How far the transport sum really moves when the MSS value at `at` is replaced. */
  function StoredMss(p: seq<byte>, at: nat, mss: word16): int
    requires at + 2 <= |p|
  {
    var dh, dl := Hi(mss) - p[at], Lo(mss) - p[at + 1];
    if at % 2 == 0 then 256 * dh + dl else dh + 256 * dl
  }

  lemma BalancedAfterMss(p: seq<byte>, v: View, tot: nat, lp: int, at: nat, mss: word16)
    requires v.proto == TCP && 20 <= v.ihl && v.ihl % 2 == 0
    requires v.ihl + 22 <= at && at + 2 <= tot <= |p|
    requires Balanced(p, v, tot, 0, lp)
    ensures Balanced(Put(p, at, Octets(mss)), v, tot, 0, lp - StoredMss(p, at, mss))
  {
    hide Sum, Put, Cong, HeaderSum, TransportSum, Hi, Lo;
    SplitWord(mss);
    PutFrame(p, at, Octets(mss));
    if at % 2 == 0 {
      SumOfOctets(mss);
      SumOfWord(p, at);
      StoreInTransport(p, v, tot, at, Octets(mss));
    } else {
      OddStoreInTransport(p, v, tot, at, Hi(mss), Lo(mss));
    }
  }

  lemma ClampBalanced(p: seq<byte>, v: View, tot: nat, lp: int, mss: word16)
    requires v.proto == TCP && 20 <= v.ihl && v.ihl % 2 == 0
    requires v.ihl + v.avail == |p| && v.avail >= 20
    requires v.ihl + 20 <= tot <= |p| && v.ihl + DataOffset(p, v) <= tot
    requires Balanced(p, v, tot, 0, lp)
    ensures Balanced(ClampMss(p, v, mss), v, tot, 0, lp + MssError(p, v, mss))
  {
    hide Sum, Put, Balanced, ClampAt, DataOffset, Octets, AdjustL4, AdjustNz, MssError, WordAt, SameExcept;
    var at := ClampAt(p, v, mss);
    if at.Some? {
      var b, r := p[at.value..at.value + 2], Put(p, at.value, Octets(mss));
      var stored := StoredMss(p, at.value, mss);
      BalancedAfterMss(p, v, tot, lp, at.value, mss);
      BalancedAfterAdjustL4(r, v, tot, 0, lp - stored, b, Octets(mss));
      TcpAdjust(r, v, b, Octets(mss));
      MssErrorIs(p, v, mss);
    } else {
      MssErrorIs(p, v, mss);
    }
  }

  lemma MssErrorIs(p: seq<byte>, v: View, mss: word16)
    requires v.ihl + v.avail == |p| && v.avail >= 20
    ensures var at := ClampAt(p, v, mss);
            MssError(p, v, mss) == if at.None? then 0
                                   else Sum(Octets(mss)) - Sum(p[at.value..at.value + 2]) - StoredMss(p, at.value, mss)
  {
    hide ClampAt, Sum, Octets, Hi, Lo;
    var at := ClampAt(p, v, mss);
    if at.Some? {
      SumOfOctets(mss);
      SumOfWord(p, at.value);
      SplitWord(mss);
    }
  }

  lemma SplitWord(w: word16)
    ensures w == 256 * (Hi(w) as int) + Lo(w)
  {
  }

  lemma TcpAdjust(p: seq<byte>, v: View, oldb: seq<byte>, newb: seq<byte>)
    requires v.proto == TCP && v.ihl + 20 <= |p| && |oldb| == |newb|
    ensures AdjustL4(p, v, oldb, newb) == AdjustNz(p, v.ihl + 16, oldb, newb)
  {
  }

  /** A translated key, with the MSS clamp in the middle, leaves the transport checksum accounted for. */
  lemma RewriteKeyBalanced(p: seq<byte>, v: View, tot: nat, at: nat, key: seq<byte>, mss: word16)
    requires 20 <= v.ihl && v.ihl % 2 == 0 && v.ihl + v.avail == |p|
    requires v.ihl + MinTransport(v.proto) <= tot <= |p|
    requires v.proto in {ICMP, TCP, UDP} && (at == KeyAt(v, true) || at == KeyAt(v, false)) && |key| == 2
    requires v.proto == TCP ==> v.ihl + DataOffset(p, v) <= tot
    requires Balanced(p, v, tot, 0, 0)
    ensures Balanced(RewriteKey(p, v, at, key, mss), v, tot, 0, if v.proto == TCP then MssError(p, v, mss) else 0)
  {
    hide Sum, Put, WordAt, HeaderSum, TransportSum, Tracks, ClampAt, AdjustL4, ClampMss, MssError;
    var was := p[at..at + 2];
    BalancedAfterAdjustL4(p, v, tot, 0, 0, was, key);
    var p1 := AdjustL4(p, v, was, key);
    var d := Sum(key) - Sum(was);
    if v.proto == TCP {
      ClampSame(p, p1, v, mss);
      ClampBalanced(p1, v, tot, d, mss);
      ClampFrame(p1, v, mss);
    }
    var p2 := if v.proto == TCP then ClampMss(p1, v, mss) else p1;
    assert p2[at] == p[at] && p2[at + 1] == p[at + 1];
    assert p2[at..at + 2] == was;
    BalancedAfterField(p2, v, tot, d + (if v.proto == TCP then MssError(p, v, mss) else 0), at, key);
  }

  lemma {:induction false} FindMssSame(a: seq<byte>, b: seq<byte>, i: nat, off: nat)
    requires off <= |a| == |b|
    requires forall k :: i <= k < off ==> a[k] == b[k]
    ensures FindMss(a, i, off) == FindMss(b, i, off)
    decreases off - i
  {
    if i + 1 >= off || a[i] == 0 {
    } else if a[i] == 1 {
      FindMssSame(a, b, i + 1, off);
    } else if a[i + 1] < 2 || i + a[i + 1] > off {
    } else if !(a[i] == 2 && a[i + 1] == 4) {
      FindMssSame(a, b, i + a[i + 1], off);
    }
  }

  /** The clamp looks only at octets that the rest of the translation leaves alone. */
  lemma ClampSame(p: seq<byte>, q: seq<byte>, v: View, mss: word16)
    requires v.ihl + v.avail == |p| == |q| && v.avail >= 20
    requires forall i :: v.ihl + 12 <= i < |p| && !(v.ihl + 16 <= i < v.ihl + 18) ==> q[i] == p[i]
    ensures DataOffset(q, v) == DataOffset(p, v) && ClampAt(q, v, mss) == ClampAt(p, v, mss)
    ensures MssError(q, v, mss) == MssError(p, v, mss)
  {
    hide FindMss;
    var off := DataOffset(p, v);
    if off <= v.avail {
      assert forall k :: 20 <= k < off ==> p[v.ihl..][k] == q[v.ihl..][k];
      FindMssSame(p[v.ihl..], q[v.ihl..], 20, off);
    }
  }

  /**
   * When the clamp leaves the checksum right: nothing is clamped, the value starts at an
   * even offset as the word-wise update assumes, or its two octets move by amounts that
   * agree modulo 257.
   */
  ghost predicate MssHarmless(p: seq<byte>, v: View, mss: word16)
    requires Parse(p) == Some(v)
  {
    v.proto == TCP && ClampAt(p, v, mss).Some? ==>
      var at := ClampAt(p, v, mss).value;
      at % 2 == 0 || ((Hi(mss) - p[at]) - (Lo(mss) - p[at + 1])) % 257 == 0
  }

  /** A misjudgement is invisible modulo 0xFFFF exactly when it is harmless. */
  lemma HarmlessIff(p: seq<byte>, v: View, mss: word16)
    requires Parse(p) == Some(v) && v.proto == TCP
    ensures MssHarmless(p, v, mss) <==> Cong(MssError(p, v, mss), 0, ONES)
  {
    hide ClampAt, Hi, Lo;
    var at := ClampAt(p, v, mss);
    if at.Some? && at.value % 2 == 1 {
      var d := (Hi(mss) - p[at.value]) - (Lo(mss) - p[at.value + 1]);
      assert MssError(p, v, mss) == 255 * d;
      DivideOut(d);
    }
  }

  lemma DivideOut(d: int)
    ensures d % 257 == 0 <==> Cong(255 * d, 0, ONES)
  {
    hide Cong;
    if d % 257 == 0 {
      CongByCofactor(255 * d, 0, d / 257, ONES);
    }
    if Cong(255 * d, 0, ONES) {
      var k := CongCofactor(255 * d, 0, ONES);
      assert d == 257 * k;
    }
  }

  /** Header octets before the checksum decide how a packet is parsed, and no edit reaches them. */
  lemma ParseDependsOnPrefix(p: seq<byte>, q: seq<byte>, v: View)
    requires Parse(p) == Some(v) && |p| == |q| && p[..10] == q[..10]
    ensures Parse(q) == Some(v) && TotalLength(q) == TotalLength(p)
  {
    assert forall i :: 0 <= i < 10 ==> p[..10][i] == q[..10][i];
  }

  /** The books after a whole translation: only a misjudged MSS clamp can be left over. */
  lemma TranslateBalanced(p: seq<byte>, v: View, srcSide: bool, addr: seq<byte>, key: seq<byte>, mss: word16)
    requires Complete(p, v) && ZeroOrValid(p, v) && |addr| == 4 && |key| == 2
    ensures var e := if v.proto == TCP then MssError(p, v, mss) else 0;
            Balanced(Translate(p, v, srcSide, addr, key, mss), v, TotalLength(p), 0, e)
  {
    hide Sum, Put, HeaderSum, TransportSum, RewriteAddr, RewriteKey, ClampAt, MssError, Tracks, SumsToOnes, Be16;
    var at, tot := if srcSide then 12 else 16, TotalLength(p);
    BalancedIffZeroOrValid(p, v);
    RewriteAddrBalanced(p, v, tot, at, addr);
    var r := RewriteAddr(p, v, at, addr);
    if v.proto == TCP {
      ClampSame(p, r, v, mss);
    }
    RewriteKeyBalanced(r, v, tot, KeyAt(v, srcSide), key, mss);
  }

  // ---- the transport checksum of a TCP packet, update by update ------------------------

  lemma UpdatedField(p: seq<byte>, at: nat, oldb: seq<byte>, newb: seq<byte>)
    requires at + 2 <= |p| && |oldb| == |newb|
    ensures WordAt(AdjustNz(p, at, oldb, newb), at) == Updated(WordAt(p, at), oldb, newb)
  {
    hide Adjusted;
    var w := Adjusted(WordAt(p, at), oldb, newb);
    PutFrame(p, at, Octets(w));
    SumOfOctets(w);
  }

  lemma FieldElsewhere(p: seq<byte>, at: nat, b: seq<byte>, k: nat)
    requires at + |b| <= |p| && k + 2 <= |p| && (k + 2 <= at || at + |b| <= k)
    ensures WordAt(Put(p, at, b), k) == WordAt(p, k)
  {
    PutFrame(p, at, b);
  }

  /** The checksum that a TCP packet will carry, from the octets that come in: address, port, clamped MSS. */
  function TcpField(p: seq<byte>, v: View, srcSide: bool, addr: seq<byte>, key: seq<byte>, mss: word16): word16
    requires Parse(p) == Some(v) && v.proto == TCP && |addr| == 4 && |key| == 2
  {
    var a, k, m := if srcSide then 12 else 16, KeyAt(v, srcSide), ClampAt(p, v, mss);
    var c := Updated(Updated(WordAt(p, CsumAt(v)), p[a..a + 4], addr), p[k..k + 2], key);
    if m.Some? then Updated(c, p[m.value..m.value + 2], Octets(mss)) else c
  }

  lemma RewriteAddrField(p: seq<byte>, v: View, at: nat, addr: seq<byte>)
    requires Parse(p) == Some(v) && v.proto == TCP && at in {12, 16} && |addr| == 4
    ensures WordAt(RewriteAddr(p, v, at, addr), CsumAt(v)) == Updated(WordAt(p, CsumAt(v)), p[at..at + 4], addr)
  {
    hide Parse, Put, AdjustNz, Updated, Be16;
    var was := p[at..at + 4];
    var p1 := AdjustNz(p, 10, was, addr);
    AdjustFrame(p, v, 10, was, addr);
    TcpAdjust(p1, v, was, addr);
    UpdatedField(p1, CsumAt(v), was, addr);
    FieldElsewhere(AdjustNz(p1, CsumAt(v), was, addr), at, addr, CsumAt(v));
  }

  lemma RewriteKeyField(p: seq<byte>, v: View, at: nat, key: seq<byte>, mss: word16)
    requires v.proto == TCP && v.ihl + v.avail == |p| && v.avail >= 20 && v.ihl <= at <= v.ihl + 2 && |key| == 2
    ensures var m, c := ClampAt(p, v, mss), Updated(WordAt(p, CsumAt(v)), p[at..at + 2], key);
            WordAt(RewriteKey(p, v, at, key, mss), CsumAt(v)) ==
              if m.Some? then Updated(c, p[m.value..m.value + 2], Octets(mss)) else c
  {
    hide Put, AdjustNz, Updated, ClampAt, Octets, Be16;
    var was, f := p[at..at + 2], CsumAt(v);
    var p1 := AdjustNz(p, f, was, key);
    TcpAdjust(p, v, was, key);
    UpdatedField(p, f, was, key);
    AdjustFrame(p, v, f, was, key);
    ClampSame(p, p1, v, mss);
    var m := ClampAt(p, v, mss);
    if m.Some? {
      var b := p[m.value..m.value + 2];
      assert p1[m.value..m.value + 2] == b;
      FieldElsewhere(p1, m.value, Octets(mss), f);
      UpdatedField(Put(p1, m.value, Octets(mss)), f, b, Octets(mss));
    }
    FieldElsewhere(ClampMss(p1, v, mss), at, key, f);
  }

  /** That is indeed what it carries. */
  lemma TranslateField(p: seq<byte>, v: View, srcSide: bool, addr: seq<byte>, key: seq<byte>, mss: word16)
    requires Parse(p) == Some(v) && v.proto == TCP && |addr| == 4 && |key| == 2
    ensures WordAt(Translate(p, v, srcSide, addr, key, mss), CsumAt(v)) == TcpField(p, v, srcSide, addr, key, mss)
  {
    hide Parse, RewriteAddr, RewriteKey, Updated, ClampAt, Be16;
    var a, k, m := if srcSide then 12 else 16, KeyAt(v, srcSide), ClampAt(p, v, mss);
    var r := RewriteAddr(p, v, a, addr);
    RewriteAddrField(p, v, a, addr);
    RewriteAddrFrame(p, v, a, addr);
    ClampSame(p, r, v, mss);
    assert r[k..k + 2] == p[k..k + 2];
    assert m.Some? ==> r[m.value..m.value + 2] == p[m.value..m.value + 2];
    RewriteKeyField(r, v, k, key, mss);
  }

  /** One of the updates of a TCP checksum makes it absent, after which the others leave it alone. */
  ghost predicate LandsOnZero(p: seq<byte>, v: View, srcSide: bool, addr: seq<byte>, key: seq<byte>, mss: word16)
    requires Parse(p) == Some(v) && |addr| == 4 && |key| == 2
  {
    v.proto == TCP && TcpField(p, v, srcSide, addr, key, mss) == 0
  }

  /**
   * Main result on checksums: a translation of either direction maps "zero or valid" to
   * "zero or valid", even when an intermediate adjustment happens to land on zero, exactly
   * when the MSS clamp is harmless or one of the updates lands on zero.
   */
  lemma TranslateKeepsChecksums(p: seq<byte>, v: View, srcSide: bool, addr: seq<byte>, key: seq<byte>, mss: word16)
    requires Complete(p, v) && ZeroOrValid(p, v) && |addr| == 4 && |key| == 2
    ensures var q := Translate(p, v, srcSide, addr, key, mss);
            && Complete(q, v)
            && (ZeroOrValid(q, v) <==> MssHarmless(p, v, mss) || LandsOnZero(p, v, srcSide, addr, key, mss))
  {
    hide Sum, Put, HeaderSum, TransportSum, Translate, ClampAt, MssError, SumsToOnes, Be16, MssHarmless, Cong;
    hide TcpField;
    var q := Translate(p, v, srcSide, addr, key, mss);
    TranslateBalanced(p, v, srcSide, addr, key, mss);
    TranslateKeepsShape(p, v, srcSide, addr, key, mss);
    BalancedIffZeroOrValid(q, v);
    if v.proto == TCP {
      TranslateField(p, v, srcSide, addr, key, mss);
      HarmlessIff(p, v, mss);
      var e, t := MssError(p, v, mss), TransportSum(q, v, TotalLength(q));
      if WordAt(q, CsumAt(v)) != 0 {
        if Cong(e, 0, ONES) {
          CongAdd(t + e, 0, e, 0, ONES);
        }
        if Cong(t, 0, ONES) {
          CongAdd(t + e, 0, t, 0, ONES);
        }
      }
    } else {
      assert MssHarmless(p, v, mss) by { HarmlessWithoutTcp(p, v, mss); }
    }
  }

  lemma HarmlessWithoutTcp(p: seq<byte>, v: View, mss: word16)
    requires Parse(p) == Some(v) && v.proto != TCP
    ensures MssHarmless(p, v, mss)
  {
  }

  lemma BalancedIffZeroOrValid(p: seq<byte>, v: View)
    requires Complete(p, v)
    ensures ZeroOrValid(p, v) <==> Balanced(p, v, TotalLength(p), 0, 0)
  {
    hide Sum, Tracks, HeaderSum, TransportSum, SumsToOnes;
    ChecksumWithinSum(p, v, TotalLength(p));
    TracksToTheEnd(WordAt(p, 10), HeaderSum(p, v));
    TracksToTheEnd(WordAt(p, CsumAt(v)), TransportSum(p, v, TotalLength(p)));
  }

  // ---- which octets a translation touches --------------------------------------------

  lemma AdjustFrame(p: seq<byte>, v: View, at: nat, oldb: seq<byte>, newb: seq<byte>)
    requires |oldb| == |newb|
    ensures at + 2 <= |p| ==> SameExcept(p, AdjustNz(p, at, oldb, newb), at, 2)
    ensures CsumAt(v) + 2 <= |p| ==> SameExcept(p, AdjustL4(p, v, oldb, newb), CsumAt(v), 2)
  {
    hide Adjusted, WordAt;
  }

  lemma RewriteAddrFrame(p: seq<byte>, v: View, at: nat, addr: seq<byte>)
    requires Parse(p) == Some(v) && at in {12, 16} && |addr| == 4
    ensures var q := RewriteAddr(p, v, at, addr);
            && q[at..at + 4] == addr
            && forall i | 0 <= i < |p| && !(10 <= i < 12) && !(at <= i < at + 4) ::
                 !(CsumAt(v) <= i < CsumAt(v) + 2) ==> q[i] == p[i]
  {
    hide Put, AdjustNz, AdjustL4;
    var was := p[at..at + 4];
    AdjustFrame(p, v, 10, was, addr);
    var p1 := AdjustNz(p, 10, was, addr);
    AdjustFrame(p1, v, 10, was, addr);
    PutFrame(if v.proto == ICMP then p1 else AdjustL4(p1, v, was, addr), at, addr);
  }

  lemma ClampFrame(p: seq<byte>, v: View, mss: word16)
    requires v.ihl + v.avail == |p| && v.avail >= 20 && v.proto == TCP
    ensures var q, at := ClampMss(p, v, mss), ClampAt(p, v, mss);
            && (forall i | 0 <= i < |p| && !(CsumAt(v) <= i < CsumAt(v) + 2) ::
                  !(at.Some? && at.value <= i < at.value + 2) ==> q[i] == p[i])
            && (at.Some? ==> WordAt(q, at.value) == mss)
  {
    hide Put, Adjust, ClampAt;
    var at := ClampAt(p, v, mss);
    if at.Some? {
      PutFrame(p, at.value, Octets(mss));
      SumOfOctets(mss);
      AdjustFrame(Put(p, at.value, Octets(mss)), v, CsumAt(v), p[at.value..at.value + 2], Octets(mss));
    }
  }

  lemma RewriteKeyFrame(p: seq<byte>, v: View, srcSide: bool, key: seq<byte>, mss: word16)
    requires 20 <= v.ihl && v.ihl + v.avail == |p| && v.avail >= MinTransport(v.proto)
    requires v.proto in {ICMP, TCP, UDP} && |key| == 2
    ensures var at, q := KeyAt(v, srcSide), RewriteKey(p, v, KeyAt(v, srcSide), key, mss);
            var clamp := if v.proto == TCP then ClampAt(p, v, mss) else None;
            && q[at..at + 2] == key
            && (forall i | 0 <= i < |p| && !(at <= i < at + 2) && !(CsumAt(v) <= i < CsumAt(v) + 2) ::
                  !(clamp.Some? && clamp.value <= i < clamp.value + 2) ==> q[i] == p[i])
            && (clamp.Some? ==> WordAt(q, clamp.value) == mss)
  {
    hide Put, AdjustL4, ClampMss, ClampAt, Be16;
    var at := KeyAt(v, srcSide);
    AdjustFrame(p, v, 10, p[at..at + 2], key);
    var p1 := AdjustL4(p, v, p[at..at + 2], key);
    if v.proto == TCP {
      ClampSame(p, p1, v, mss);
      ClampFrame(p1, v, mss);
    }
    PutFrame(if v.proto == TCP then ClampMss(p1, v, mss) else p1, at, key);
  }

  /** What a translation may touch: the two checksums, the address, the key and a clamped MSS. */
  ghost predicate Editable(v: View, srcSide: bool, clamp: Option<nat>, i: nat) {
    || 10 <= i < 12
    || (if srcSide then 12 <= i < 16 else 16 <= i < 20)
    || KeyAt(v, srcSide) <= i < KeyAt(v, srcSide) + 2
    || CsumAt(v) <= i < CsumAt(v) + 2
    || (clamp.Some? && clamp.value <= i < clamp.value + 2)
  }

  /** A translation installs the new address and key and leaves every other octet alone. */
  lemma TranslateFields(p: seq<byte>, v: View, srcSide: bool, addr: seq<byte>, key: seq<byte>, mss: word16)
    requires Parse(p) == Some(v) && |addr| == 4 && |key| == 2
    ensures var q, at := Translate(p, v, srcSide, addr, key, mss), if srcSide then 12 else 16;
            var clamp := if v.proto == TCP then ClampAt(p, v, mss) else None;
            && q[at..at + 4] == addr
            && q[KeyAt(v, srcSide)..KeyAt(v, srcSide) + 2] == key
            && (forall i :: 0 <= i < |p| && !Editable(v, srcSide, clamp, i) ==> q[i] == p[i])
            && (clamp.Some? ==> WordAt(q, clamp.value) == mss)
  {
    hide RewriteAddr, RewriteKey, ClampAt, Be16;
    var at := if srcSide then 12 else 16;
    RewriteAddrFrame(p, v, at, addr);
    var r := RewriteAddr(p, v, at, addr);
    if v.proto == TCP {
      ClampSame(p, r, v, mss);
    }
    RewriteKeyFrame(r, v, srcSide, key, mss);
    var q := RewriteKey(r, v, KeyAt(v, srcSide), key, mss);
    assert q[at] == r[at] && q[at + 1] == r[at + 1] && q[at + 2] == r[at + 2] && q[at + 3] == r[at + 3];
  }

  lemma TranslateKeepsShape(p: seq<byte>, v: View, srcSide: bool, addr: seq<byte>, key: seq<byte>, mss: word16)
    requires Complete(p, v) && |addr| == 4 && |key| == 2
    ensures var q := Translate(p, v, srcSide, addr, key, mss);
            Parse(q) == Some(v) && TotalLength(q) == TotalLength(p) && Complete(q, v)
  {
    hide Translate, ClampAt;
    TranslateFields(p, v, srcSide, addr, key, mss);
    var q := Translate(p, v, srcSide, addr, key, mss);
    ParseDependsOnPrefix(p, q, v);
  }
}
