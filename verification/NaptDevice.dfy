/**
 * The NAT as it runs: packet octets rewritten in place, and a table whose slots
 * are updated in place. Every method is proved against the functions of `Packet`
 * and `Napt`.
 */
module NaptDevice {
  import opened Bytes
  import opened Checksum
  import opened Packet
  import opened Napt

  /** Incremental update of the checksum stored at `at`. */
  method CsumAdjust(pkt: array<byte>, at: nat, oldb: seq<byte>, newb: seq<byte>)
    requires at + 2 <= pkt.Length && |oldb| == |newb| <= 4 && |oldb| % 2 == 0
    modifies pkt
    ensures pkt[..] == Adjust(old(pkt[..]), at, oldb, newb)
  {
    var sum: word32 := 0xFFFF - Be16(pkt[at], pkt[at + 1]);
    var i := 0;
    while i < |oldb|
      invariant 0 <= i <= |oldb| && i % 2 == 0 && sum <= 0xFFFF * (i + 1)
      invariant sum + ComplementSum(oldb[i..]) + Sum(newb[i..]) ==
                Complement(WordAt(pkt[..], at)) + ComplementSum(oldb) + Sum(newb)
    {
      assert oldb[i..][2..] == oldb[i + 2..] && newb[i..][2..] == newb[i + 2..];
      sum := sum + (0xFFFF - Be16(oldb[i], oldb[i + 1]));
      sum := sum + Be16(newb[i], newb[i + 1]);
      i := i + 2;
    }
    ghost var total := sum;
    while sum >= 0x1_0000
      invariant Fold(sum) == Fold(total)
      decreases sum
    {
      sum := sum % 0x1_0000 + sum / 0x1_0000;
    }
    sum := 0xFFFF - sum;
    pkt[at] := sum / 256;
    pkt[at + 1] := sum % 256;
  }

  method CsumAdjustNz(pkt: array<byte>, at: nat, oldb: seq<byte>, newb: seq<byte>)
    requires at + 2 <= pkt.Length && |oldb| == |newb| <= 4 && |oldb| % 2 == 0
    modifies pkt
    ensures pkt[..] == AdjustNz(old(pkt[..]), at, oldb, newb)
  {
    hide Adjust;
    if pkt[at] != 0 || pkt[at + 1] != 0 {
      CsumAdjust(pkt, at, oldb, newb);
    }
  }

  method CsumAdjustUdp(pkt: array<byte>, at: nat, oldb: seq<byte>, newb: seq<byte>)
    requires at + 2 <= pkt.Length && |oldb| == |newb| <= 4 && |oldb| % 2 == 0
    modifies pkt
    ensures pkt[..] == AdjustUdp(old(pkt[..]), at, oldb, newb)
  {
    hide Adjusted;
    if pkt[at] != 0 || pkt[at + 1] != 0 {
      ghost var p := pkt[..];
      CsumAdjust(pkt, at, oldb, newb);
      ghost var q := pkt[..];
      StoredWord(p, at, Adjusted(WordAt(p, at), oldb, newb));
      if pkt[at] == 0 && pkt[at + 1] == 0 {
        pkt[at], pkt[at + 1] := 0xFF, 0xFF;
        assert pkt[..] == Put(q, at, Octets(0xFFFF));
      }
    }
  }

  lemma StoredWord(p: seq<byte>, at: nat, w: word16)
    requires at + 2 <= |p|
    ensures WordAt(Put(p, at, Octets(w)), at) == w
  {
    hide Put, Octets;
    PutFrame(p, at, Octets(w));
    SumOfOctets(w);
  }

  method StoreOctets(pkt: array<byte>, at: nat, b: seq<byte>)
    requires at + |b| <= pkt.Length
    modifies pkt
    ensures pkt[..] == Put(old(pkt[..]), at, b)
  {
    forall i | 0 <= i < |b| {
      pkt[at + i] := b[i];
    }
  }

  /** The per-protocol choice of update, as both directions make it. */
  method CsumAdjustL4(pkt: array<byte>, v: View, oldb: seq<byte>, newb: seq<byte>)
    requires CsumAt(v) + 2 <= pkt.Length && |oldb| == |newb| <= 4 && |oldb| % 2 == 0
    modifies pkt
    ensures pkt[..] == AdjustL4(old(pkt[..]), v, oldb, newb)
  {
    hide AdjustNz, AdjustUdp;
    if v.proto == UDP {
      CsumAdjustUdp(pkt, CsumAt(v), oldb, newb);
    } else {
      CsumAdjustNz(pkt, CsumAt(v), oldb, newb);
    }
  }

  /** Walk the options of a SYN and lower its MSS. */
  method ClampMssInPlace(pkt: array<byte>, v: View, mss: word16)
    requires v.ihl + v.avail == pkt.Length && v.avail >= 20
    modifies pkt
    ensures pkt[..] == ClampMss(old(pkt[..]), v, mss)
  {
    hide AdjustNz, Put, FindMss;
    if mss == 0 || pkt[v.ihl + 13] / 2 % 2 == 0 {
      return;
    }
    var off := pkt[v.ihl + 12] / 16 * 4;
    if off <= 20 || off > v.avail {
      return;
    }
    ghost var p := pkt[..];
    var found := FindMssOption(pkt, v, off);
    if found.Some? {
      var at := v.ihl + found.value + 2;
      if Be16(pkt[at], pkt[at + 1]) > mss {
        var oldb := [pkt[at], pkt[at + 1]];
        assert oldb == p[at..at + 2];
        StoreOctets(pkt, at, Octets(mss));
        CsumAdjustNz(pkt, v.ihl + 16, oldb, Octets(mss));
      }
    }
  }

  method FindMssOption(pkt: array<byte>, v: View, off: nat) returns (r: Option<nat>)
    requires v.ihl + v.avail == pkt.Length && 20 <= off <= v.avail
    ensures r == FindMss(pkt[..][v.ihl..], 20, off)
  {
    var i := 20;
    ghost var l4 := pkt[..][v.ihl..];
    while i + 1 < off
      invariant 20 <= i <= off
      invariant FindMss(l4, i, off) == FindMss(l4, 20, off)
    {
      assert l4[i] == pkt[v.ihl + i] && l4[i + 1] == pkt[v.ihl + i + 1];
      var kind := pkt[v.ihl + i];
      if kind == 0 {
        return None;
      }
      if kind == 1 {
        i := i + 1;
      } else {
        var olen := pkt[v.ihl + i + 1];
        if olen < 2 || i + olen > off {
          return None;
        }
        if kind == 2 && olen == 4 {
          return Some(i);
        }
        i := i + olen;
      }
    }
    r := None;
  }

  /** Rewrite an address with its two checksum updates, then the address itself. */
  method RewriteAddrInPlace(pkt: array<byte>, v: View, at: nat, addr: seq<byte>)
    requires Parse(pkt[..]) == Some(v) && at in {12, 16} && |addr| == 4
    modifies pkt
    ensures pkt[..] == RewriteAddr(old(pkt[..]), v, at, addr)
  {
    hide AdjustNz, AdjustL4, Put;
    ghost var p := pkt[..];
    var was := pkt[at..at + 4];
    assert was == p[at..at + 4];
    CsumAdjustNz(pkt, 10, was, addr);
    if v.proto != ICMP {
      CsumAdjustL4(pkt, v, was, addr);
    }
    StoreOctets(pkt, at, addr);
  }

  /** Rewrite a port or echo identifier, clamping the MSS in between as the code does. */
  method RewriteKeyInPlace(pkt: array<byte>, v: View, at: nat, key: seq<byte>, mss: word16)
    requires v.ihl + v.avail == pkt.Length && v.avail >= MinTransport(v.proto) && v.ihl <= at <= v.ihl + 4 && |key| == 2
    modifies pkt
    ensures pkt[..] == RewriteKey(old(pkt[..]), v, at, key, mss)
  {
    hide AdjustL4, ClampMss, Put;
    ghost var p := pkt[..];
    var was := pkt[at..at + 2];
    assert was == p[at..at + 2];
    CsumAdjustL4(pkt, v, was, key);
    if v.proto == TCP {
      ClampMssInPlace(pkt, v, mss);
    }
    StoreOctets(pkt, at, key);
  }

  method TranslateInPlace(pkt: array<byte>, v: View, srcSide: bool, addr: seq<byte>, key: seq<byte>, mss: word16)
    requires Parse(pkt[..]) == Some(v) && |addr| == 4 && |key| == 2
    modifies pkt
    ensures pkt[..] == Translate(old(pkt[..]), v, srcSide, addr, key, mss)
  {
    hide RewriteAddr, RewriteKey;
    RewriteAddrInPlace(pkt, v, if srcSide then 12 else 16, addr);
    RewriteKeyInPlace(pkt, v, KeyAt(v, srcSide), key, mss);
  }

  class Device {
    const table: array<Entry>
    var ext: seq<byte>
    var mss: word16
    var drops: word32

    ghost function Abs(): Nat
      reads this, table
    {
      Nat(table[..], ext, mss, drops)
    }

    constructor ()
      ensures Abs() == Nat(seq(NAPT_MAX, _ => FREE), [0, 0, 0, 0], 0, 0) && fresh(table)
    {
      table := new Entry[NAPT_MAX](_ => FREE);
      ext, mss, drops := [0, 0, 0, 0], 0, 0;
    }

    method SetExtIp(ip: seq<byte>)
      requires |ip| == 4
      modifies this`ext
      ensures Abs() == old(Abs()).(ext := ip)
    {
      ext := ip;
    }

    method SetMssClamp(m: word16)
      modifies this`mss
      ensures Abs() == old(Abs()).(mss := m)
    {
      mss := m;
    }

    method Reset()
      modifies table
      ensures Abs() == old(Abs()).(table := seq(table.Length, _ => FREE))
    {
      forall i | 0 <= i < table.Length {
        table[i] := FREE;
      }
    }

    /** One pass over the table: the endpoint's live mapping, else the first reusable slot. */
    method FindSlot(proto: byte, ip: seq<byte>, port: seq<byte>, now: word32) returns (r: Option<nat>)
      ensures r == SlotFor(table[..], proto, ip, port, now)
    {
      hide Live, Matches;
      var free: Option<nat> := None;
      var i := 0;
      while i < table.Length
        invariant 0 <= i <= table.Length
        invariant FindMatch(table[..], i, proto, ip, port, now) == FindMatch(table[..], 0, proto, ip, port, now)
        invariant FindFree(table[..], 0, now) == if free.Some? then free else FindFree(table[..], i, now)
      {
        if Live(table[i], now) {
          if Matches(table[i], proto, ip, port) {
            return Some(i);
          }
        } else if free.None? {
          free := Some(i);
        }
        i := i + 1;
      }
      r := free;
    }

    /** Translate an outbound packet in place; on failure the packet is left alone and counted. */
    method OutboundInPlace(pkt: array<byte>, now: word32) returns (ok: bool)
      requires WellSized(Abs()) && pkt as object != table as object
      modifies this`drops, table, pkt
      ensures var r := Outbound(old(Abs()), old(pkt[..]), now);
              Abs() == r.0 && ok == r.1.Some? && pkt[..] == if ok then r.1.value else old(pkt[..])
    {
      hide Translate, SlotFor, Live;
      ghost var n, p := Abs(), pkt[..];
      var parsed := Parse(pkt[..]);
      if ext == [0, 0, 0, 0] || parsed.None? {
        drops := (drops + 1) % 0x1_0000_0000;
        return false;
      }
      var v := parsed.value;
      if v.proto == ICMP && pkt[v.ihl] != 8 {
        drops := (drops + 1) % 0x1_0000_0000;
        return false;
      }
      var ip, port := pkt[12..16], pkt[KeyAt(v, true)..KeyAt(v, true) + 2];
      assert ip == p[12..16] && port == Key(p, v, true);
      var slot := FindSlot(v.proto, ip, port, now);
      if slot.None? {
        drops := (drops + 1) % 0x1_0000_0000;
        return false;
      }
      var e := table[slot.value];
      if !Live(e, now) {
        e := Entry(ip, port, e.last, v.proto, New);
      }
      table[slot.value] := Tracked(e, pkt[..], v, now);
      TranslateInPlace(pkt, v, true, ext, NatPort(slot.value), mss);
      ok := true;
    }

    /** Rewrite a reply back to its inner endpoint; anything else is left alone. */
    method InboundInPlace(pkt: array<byte>, now: word32) returns (ok: bool)
      requires WellSized(Abs()) && pkt as object != table as object
      modifies table, pkt
      ensures var r := Inbound(old(Abs()), old(pkt[..]), now);
              Abs() == r.0 && ok == r.1.Some? && pkt[..] == if ok then r.1.value else old(pkt[..])
    {
      hide Translate, Live;
      ghost var n, p := Abs(), pkt[..];
      var parsed := Parse(pkt[..]);
      if parsed.None? || pkt[..][16..20] != ext {
        return false;
      }
      var v := parsed.value;
      if v.proto == ICMP && pkt[v.ihl] != 0 {
        return false;
      }
      var at := KeyAt(v, false);
      var port := Be16(pkt[at], pkt[at + 1]);
      if port < NAPT_PORT_BASE || port >= NAPT_PORT_BASE + NAPT_MAX {
        return false;
      }
      var e := table[port - NAPT_PORT_BASE];
      if !Live(e, now) || e.proto != v.proto {
        return false;
      }
      table[port - NAPT_PORT_BASE] := Tracked(e, pkt[..], v, now);
      TranslateInPlace(pkt, v, false, e.ip, e.port, mss);
      ok := true;
    }
  }
}
