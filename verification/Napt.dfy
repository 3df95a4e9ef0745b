/**
 * The exit-mode NAT table: 512 slots whose index is the NAT port, expired by
 * idle time and never by an allocator. This module states what the calls do to
 * the table and the packet, and proves what holds over whole runs of calls.
 */
module Napt {
  import opened Bytes
  import opened Checksum
  import opened Packet

  const NAPT_MAX: nat := 512
  const NAPT_PORT_BASE: nat := 60000

  datatype TcpState = New | Established | Closing

  /** One mapping; `proto` 0 marks a slot that was never used. */
  datatype Entry = Entry(ip: seq<byte>, port: seq<byte>, last: word32, proto: byte, state: TcpState)

  datatype Nat = Nat(table: seq<Entry>, ext: seq<byte>, mss: word16, drops: word32)

  function TimeoutMs(e: Entry): nat {
    if e.proto == TCP then
      if e.state == Established then 7200000 else if e.state == Closing then 30000 else 240000
    else if e.proto == UDP then 120000 else 60000
  }

  /** The age is the 32-bit difference of two millisecond readings. */
  predicate Live(e: Entry, now: word32) {
    e.proto != 0 && (now - e.last) % 0x1_0000_0000 < TimeoutMs(e)
  }

  predicate Matches(e: Entry, proto: byte, ip: seq<byte>, port: seq<byte>) {
    e.proto == proto && e.ip == ip && e.port == port
  }

  /** The first live slot from `i` on that holds the endpoint's mapping. */
  function FindMatch(t: seq<Entry>, i: nat, proto: byte, ip: seq<byte>, port: seq<byte>, now: word32): (r: Option<nat>)
    requires i <= |t|
    ensures r.Some? ==> i <= r.value < |t| && Live(t[r.value], now) && Matches(t[r.value], proto, ip, port)
    ensures r.None? ==> forall k :: i <= k < |t| && Live(t[k], now) ==> !Matches(t[k], proto, ip, port)
    decreases |t| - i
  {
    if i == |t| then None
    else if Live(t[i], now) && Matches(t[i], proto, ip, port) then Some(i)
    else FindMatch(t, i + 1, proto, ip, port, now)
  }

  /** The first slot from `i` on that may be reused. */
  function FindFree(t: seq<Entry>, i: nat, now: word32): (r: Option<nat>)
    requires i <= |t|
    ensures r.Some? ==> i <= r.value < |t| && !Live(t[r.value], now)
    ensures r.None? ==> forall k :: i <= k < |t| ==> Live(t[k], now)
    decreases |t| - i
  {
    if i == |t| then None else if !Live(t[i], now) then Some(i) else FindFree(t, i + 1, now)
  }

  function Track(s: TcpState, flags: byte): TcpState {
    if flags % 2 == 1 || flags / 4 % 2 == 1 then Closing // FIN or RST
    else if flags / 16 % 2 == 1 && flags / 2 % 2 == 0 && s == New then Established // ACK, no SYN
    else s
  }

  function Tracked(e: Entry, p: seq<byte>, v: View, now: word32): Entry
    requires Parse(p) == Some(v)
  {
    e.(state := if v.proto == TCP then Track(e.state, p[v.ihl + 13]) else e.state, last := now)
  }

  function NatPort(slot: nat): (s: seq<byte>)
    requires slot < NAPT_MAX
    ensures |s| == 2
  {
    Octets(NAPT_PORT_BASE + slot)
  }

  /** The slot an outbound packet uses: its live mapping, else the first reusable slot. */
  function SlotFor(t: seq<Entry>, proto: byte, ip: seq<byte>, port: seq<byte>, now: word32): (r: Option<nat>)
    ensures r.Some? ==> r.value < |t|
  {
    var m := FindMatch(t, 0, proto, ip, port, now);
    if m.Some? then m else FindFree(t, 0, now)
  }

  function Key(p: seq<byte>, v: View, srcSide: bool): (k: seq<byte>)
    requires Parse(p) == Some(v)
    ensures |k| == 2
  {
    p[KeyAt(v, srcSide)..KeyAt(v, srcSide) + 2]
  }

  /** An outbound packet that can be translated: addressable, whole, and an echo request if ICMP. */
  predicate Translatable(n: Nat, p: seq<byte>) {
    n.ext != [0, 0, 0, 0] && Parse(p).Some? && (Parse(p).value.proto == ICMP ==> p[Parse(p).value.ihl] == 8)
  }

  ghost predicate WellSized(n: Nat) {
    && |n.table| == NAPT_MAX && |n.ext| == 4
    && forall i :: 0 <= i < NAPT_MAX ==> |n.table[i].ip| == 4 && |n.table[i].port| == 2
  }

  /** The slot whose port an outbound packet leaves through; `None` means it is dropped. */
  function OutSlot(n: Nat, p: seq<byte>, now: word32): (r: Option<nat>)
    requires WellSized(n)
    ensures r.Some? ==> r.value < NAPT_MAX && Parse(p).Some?
  {
    if Translatable(n, p) then
      SlotFor(n.table, Parse(p).value.proto, p[12..16], Key(p, Parse(p).value, true), now)
    else None
  }

  function Outbound(n: Nat, p: seq<byte>, now: word32): (r: (Nat, Option<seq<byte>>))
    requires WellSized(n)
  {
    var slot := OutSlot(n, p, now);
    if slot.None? then (n.(drops := (n.drops + 1) % 0x1_0000_0000), None)
    else
      var v, i := Parse(p).value, slot.value;
      var e := if Live(n.table[i], now) then n.table[i]
               else Entry(p[12..16], Key(p, v, true), n.table[i].last, v.proto, New);
      (n.(table := n.table[i := Tracked(e, p, v, now)]), Some(Translate(p, v, true, n.ext, NatPort(i), n.mss)))
  }

  /** The slot an inbound packet is addressed to, if it is a reply this table could have caused. */
  function ReplySlot(n: Nat, p: seq<byte>, now: word32): (r: Option<nat>)
    requires WellSized(n)
    ensures r.Some? ==> r.value < NAPT_MAX && Parse(p).Some?
  {
    if Parse(p).None? || p[16..20] != n.ext then None
    else
      var v := Parse(p).value;
      if v.proto == ICMP && p[v.ihl] != 0 then None // echo reply only
      else
        var port := WordAt(p, KeyAt(v, false));
        if port < NAPT_PORT_BASE || port >= NAPT_PORT_BASE + NAPT_MAX then None
        else
          var e := n.table[port - NAPT_PORT_BASE];
          if Live(e, now) && e.proto == v.proto then Some(port - NAPT_PORT_BASE) else None
  }

  function Inbound(n: Nat, p: seq<byte>, now: word32): (r: (Nat, Option<seq<byte>>))
    requires WellSized(n)
  {
    var slot := ReplySlot(n, p, now);
    if slot.None? then (n, None)
    else
      var v, e := Parse(p).value, n.table[slot.value];
      (n.(table := n.table[slot.value := Tracked(e, p, v, now)]), Some(Translate(p, v, false, e.ip, e.port, n.mss)))
  }

  // ---- runs -----------------------------------------------------------------------

  /** What can happen to the NAT while its address is unchanged and it is not reset. */
  datatype Event = Out(p: seq<byte>, at: word32) | In(p: seq<byte>, at: word32) | Clamp(mss: word16, at: word32)

  function Step(n: Nat, ev: Event): Nat
    requires WellSized(n)
  {
    match ev
    case Out(p, at) => Outbound(n, p, at).0
    case In(p, at) => Inbound(n, p, at).0
    case Clamp(mss, _) => n.(mss := mss)
  }

  ghost predicate Monotone(evs: seq<Event>, from: word32, to: word32) {
    && (forall i :: 0 <= i < |evs| ==> from <= evs[i].at <= to)
    && (forall i, j :: 0 <= i < j < |evs| ==> evs[i].at <= evs[j].at)
  }

  /** No mapping is from the future and no endpoint has two live mappings. */
  ghost predicate Inv(n: Nat, now: word32) {
    && WellSized(n)
    && (forall i :: 0 <= i < NAPT_MAX && n.table[i].proto != 0 ==> n.table[i].last <= now)
    && (forall i, j :: 0 <= i < j < NAPT_MAX && Live(n.table[i], now) && Live(n.table[j], now) ==>
          !Matches(n.table[i], n.table[j].proto, n.table[j].ip, n.table[j].port))
  }

  /** Time only kills mappings. */
  lemma LiveEarlier(e: Entry, t0: word32, t1: word32)
    requires t0 <= t1 && (e.proto != 0 ==> e.last <= t0) && Live(e, t1)
    ensures Live(e, t0)
  {
  }

  lemma InvLater(n: Nat, t0: word32, t1: word32)
    requires Inv(n, t0) && t0 <= t1
    ensures Inv(n, t1)
  {
    hide Live;
    forall i | 0 <= i < NAPT_MAX && Live(n.table[i], t1) ensures Live(n.table[i], t0) {
      assert n.table[i].proto != 0 by { LiveIsUsed(n.table[i], t1); }
      LiveEarlier(n.table[i], t0, t1);
    }
  }

  lemma LiveIsUsed(e: Entry, now: word32)
    requires Live(e, now)
    ensures e.proto != 0
  {
  }

  /** Refreshing a live slot, or filling a dead one with an endpoint nobody else holds, keeps the invariant. */
  lemma InvAfterStore(n: Nat, now: word32, i: nat, e: Entry)
    requires Inv(n, now) && i < NAPT_MAX && |e.ip| == 4 && |e.port| == 2 && e.last == now
    requires forall k :: 0 <= k < NAPT_MAX && k != i && Live(n.table[k], now) ==>
        !Matches(n.table[k], e.proto, e.ip, e.port)
    ensures Inv(n.(table := n.table[i := e]), now)
  {
    hide Live;
  }

  lemma StepKeepsInv(n: Nat, t0: word32, ev: Event)
    requires Inv(n, t0) && t0 <= ev.at
    ensures Inv(Step(n, ev), ev.at)
  {
    hide Live, Translate;
    InvLater(n, t0, ev.at);
    match ev {
      case Out(p, at) =>
        var slot := OutSlot(n, p, at);
        if slot.Some? {
          InvAfterStore(n, at, slot.value, Step(n, ev).table[slot.value]);
        }
      case In(p, at) =>
        var slot := ReplySlot(n, p, at);
        if slot.Some? {
          InvAfterStore(n, at, slot.value, Step(n, ev).table[slot.value]);
        }
      case Clamp(_, _) =>
    }
  }

  /** The shortest a mapping of this protocol can live without traffic. */
  function MinTimeoutMs(proto: byte): nat {
    if proto == TCP then 30000 else if proto == UDP then 120000 else 60000
  }

  ghost predicate Holds(n: Nat, i: nat, proto: byte, ip: seq<byte>, port: seq<byte>, since: word32)
    requires |n.table| == NAPT_MAX && i < NAPT_MAX
  {
    Matches(n.table[i], proto, ip, port) && proto != 0 && since <= n.table[i].last
  }

  lemma HoldsIsLive(e: Entry, since: word32, now: word32)
    requires e.proto in {ICMP, TCP, UDP} && since <= e.last <= now < since + MinTimeoutMs(e.proto)
    ensures Live(e, now)
  {
  }

  /** A live slot is never reassigned: whatever the call, it keeps its endpoint and only gets fresher. */
  lemma StepKeepsLiveSlot(n: Nat, t0: word32, ev: Event, i: nat)
    requires Inv(n, t0) && t0 <= ev.at && i < NAPT_MAX && Live(n.table[i], ev.at)
    ensures WellSized(Step(n, ev))
    ensures var e := n.table[i]; Holds(Step(n, ev), i, e.proto, e.ip, e.port, e.last)
    ensures Step(n, ev).ext == n.ext
  {
    hide Live, Translate;
    StepKeepsInv(n, t0, ev);
    LiveIsUsed(n.table[i], ev.at);
    match ev {
      case Out(p, at) =>
      case In(p, at) =>
      case Clamp(_, _) =>
    }
  }

  function Run(n: Nat, evs: seq<Event>): (r: Nat)
    requires WellSized(n)
    ensures WellSized(r) && r.ext == n.ext
    decreases |evs|
  {
    if evs == [] then n else StepKeepsSize(n, evs[0]); Run(Step(n, evs[0]), evs[1..])
  }

  lemma StepKeepsSize(n: Nat, ev: Event)
    requires WellSized(n)
    ensures WellSized(Step(n, ev)) && Step(n, ev).ext == n.ext
  {
    hide Live, Translate;
  }

  /** Slot `i` is never idle past its timeout: live at every call of the run and at its end. */
  ghost predicate LiveThroughout(n: Nat, evs: seq<Event>, t: word32, i: nat)
    requires WellSized(n) && i < NAPT_MAX
    decreases |evs|
  {
    if evs == [] then Live(n.table[i], t)
    else
      && Live(n.table[i], evs[0].at)
      && (StepKeepsSize(n, evs[0]); LiveThroughout(Step(n, evs[0]), evs[1..], t, i))
  }

  /** Over any run, a slot that stays live stays with its endpoint. */
  lemma {:induction false} RunKeepsMapping(n: Nat, t0: word32, evs: seq<Event>, t: word32, i: nat,
                                           proto: byte, ip: seq<byte>, port: seq<byte>, since: word32)
    requires Inv(n, t0) && t0 <= t && Monotone(evs, t0, t)
    requires i < NAPT_MAX && Holds(n, i, proto, ip, port, since) && LiveThroughout(n, evs, t, i)
    ensures Inv(Run(n, evs), t) && Holds(Run(n, evs), i, proto, ip, port, since) && Live(Run(n, evs).table[i], t)
    decreases |evs|
  {
    hide Live, Step;
    if evs == [] {
      InvLater(n, t0, t);
    } else {
      var ev := evs[0];
      StepKeepsLiveSlot(n, t0, ev, i);
      StepKeepsInv(n, t0, ev);
      RunKeepsMapping(Step(n, ev), ev.at, evs[1..], t, i, proto, ip, port, since);
    }
  }

  /** No traffic can cut a mapping short of its protocol's shortest timeout. */
  lemma {:induction false} FreshIsLiveThroughout(n: Nat, t0: word32, evs: seq<Event>, t: word32, i: nat, since: word32)
    requires Inv(n, t0) && t0 <= t && Monotone(evs, t0, t)
    requires i < NAPT_MAX && n.table[i].proto in {ICMP, TCP, UDP} && since <= n.table[i].last
    requires t < since + MinTimeoutMs(n.table[i].proto)
    ensures LiveThroughout(n, evs, t, i)
    decreases |evs|
  {
    hide Live, Step, MinTimeoutMs;
    if evs == [] {
      HoldsIsLive(n.table[i], since, t);
    } else {
      var ev := evs[0];
      HoldsIsLive(n.table[i], since, ev.at);
      StepKeepsLiveSlot(n, t0, ev, i);
      StepKeepsInv(n, t0, ev);
      FreshIsLiveThroughout(Step(n, ev), ev.at, evs[1..], t, i, since);
    }
  }

  /** An accepted outbound packet leaves its endpoint on record and carries the slot's port. */
  lemma OutboundRecords(n: Nat, t0: word32, p: seq<byte>, now: word32)
    requires Inv(n, t0) && t0 <= now && OutSlot(n, p, now).Some?
    ensures var v, i, r := Parse(p).value, OutSlot(n, p, now).value, Outbound(n, p, now);
            && Inv(r.0, now) && r.0.ext == n.ext
            && Holds(r.0, i, v.proto, p[12..16], Key(p, v, true), now)
            && r.1.Some? && Parse(r.1.value) == Some(v)
            && r.1.value[12..16] == n.ext && Key(r.1.value, v, true) == NatPort(i)
  {
    hide Live, Translate, Editable, ClampAt;
    var v, i := Parse(p).value, OutSlot(n, p, now).value;
    StepKeepsInv(n, t0, Out(p, now));
    TranslateFields(p, v, true, n.ext, NatPort(i), n.mss);
    TranslateParses(p, v, true, n.ext, NatPort(i), n.mss);
  }

  lemma TranslateParses(p: seq<byte>, v: View, srcSide: bool, addr: seq<byte>, key: seq<byte>, mss: word16)
    requires Parse(p) == Some(v) && |addr| == 4 && |key| == 2
    ensures Parse(Translate(p, v, srcSide, addr, key, mss)) == Some(v)
  {
    hide Translate, ClampAt;
    TranslateFields(p, v, srcSide, addr, key, mss);
    ParseDependsOnPrefix(p, Translate(p, v, srcSide, addr, key, mss), v);
  }

  /** A packet that answers to the external address and NAT port of slot `i`. */
  ghost predicate Reply(n: Nat, q: seq<byte>, proto: byte, i: nat)
    requires i < NAPT_MAX
  {
    && Parse(q).Some? && Parse(q).value.proto == proto
    && q[16..20] == n.ext && Key(q, Parse(q).value, false) == NatPort(i)
    && (proto == ICMP ==> q[Parse(q).value.ihl] == 0)
  }

  lemma ReplyFindsSlot(n: Nat, q: seq<byte>, now: word32, i: nat)
    requires WellSized(n) && i < NAPT_MAX && Reply(n, q, n.table[i].proto, i) && Live(n.table[i], now)
    ensures ReplySlot(n, q, now) == Some(i)
  {
    hide Live, Hi, Lo;
    var v := Parse(q).value;
    var k := Key(q, v, false);
    assert k[0] == q[KeyAt(v, false)] && k[1] == q[KeyAt(v, false) + 1];
    SumOfOctets(NAPT_PORT_BASE + i);
  }

  /** The table after an outbound packet and a run of further calls. */
  function After(n: Nat, p: seq<byte>, now: word32, evs: seq<Event>): (r: Nat)
    requires WellSized(n)
    ensures WellSized(r) && r.ext == n.ext
  {
    Run(n, [Out(p, now)] + evs)
  }

  /** The slot an outbound packet took is not left idle until `t`, whatever happens meanwhile. */
  ghost predicate KeptAlive(n: Nat, p: seq<byte>, now: word32, evs: seq<Event>, t: word32)
    requires WellSized(n) && OutSlot(n, p, now).Some?
  {
    now <= t && Monotone(evs, now, t) &&
    (StepKeepsSize(n, Out(p, now)); LiveThroughout(Step(n, Out(p, now)), evs, t, OutSlot(n, p, now).value))
  }

  lemma AfterIs(n: Nat, t0: word32, p: seq<byte>, now: word32, evs: seq<Event>, t: word32)
    requires Inv(n, t0) && t0 <= now && OutSlot(n, p, now).Some? && KeptAlive(n, p, now, evs, t)
    ensures var v, i, n2 := Parse(p).value, OutSlot(n, p, now).value, After(n, p, now, evs);
            && Inv(n2, t) && Live(n2.table[i], t) && Holds(n2, i, v.proto, p[12..16], Key(p, v, true), now)
  {
    hide Live, Outbound, Translate, LiveThroughout, OutSlot;
    var v, i := Parse(p).value, OutSlot(n, p, now).value;
    OutboundRecords(n, t0, p, now);
    assert ([Out(p, now)] + evs)[1..] == evs;
    RunKeepsMapping(Step(n, Out(p, now)), now, evs, t, i, v.proto, p[12..16], Key(p, v, true), now);
  }

  /**
   * Round trip: after any run of calls that never lets the mapping go idle, a reply to the
   * external address and the NAT port is rewritten to exactly the endpoint that sent the
   * original packet.
   */
  lemma ReplyReachesOrigin(n: Nat, t0: word32, p: seq<byte>, now: word32, evs: seq<Event>, q: seq<byte>, t: word32)
    requires Inv(n, t0) && t0 <= now && OutSlot(n, p, now).Some? && KeptAlive(n, p, now, evs, t)
    requires Reply(n, q, Parse(p).value.proto, OutSlot(n, p, now).value)
    ensures var r, at := Inbound(After(n, p, now, evs), q, t).1, KeyAt(Parse(q).value, false);
            r.Some? && r.value[16..20] == p[12..16] && r.value[at..at + 2] == Key(p, Parse(p).value, true)
  {
    hide Live, Translate, After, KeptAlive, Editable, ClampAt, NatPort, OutSlot;
    var v, n2 := Parse(p).value, After(n, p, now, evs);
    AfterIs(n, t0, p, now, evs, t);
    ReplyFindsSlot(n2, q, t, OutSlot(n, p, now).value);
    TranslateFields(q, Parse(q).value, false, p[12..16], Key(p, v, true), n2.mss);
  }

  /** The same with a bound a caller can check: within the protocol's shortest timeout no run can break it. */
  lemma PromptIsKeptAlive(n: Nat, t0: word32, p: seq<byte>, now: word32, evs: seq<Event>, t: word32)
    requires Inv(n, t0) && t0 <= now <= t && OutSlot(n, p, now).Some? && Monotone(evs, now, t)
    requires t - now < MinTimeoutMs(Parse(p).value.proto)
    ensures KeptAlive(n, p, now, evs, t)
  {
    hide Live, Translate, OutSlot, LiveThroughout, Outbound;
    OutboundRecords(n, t0, p, now);
    FreshIsLiveThroughout(Step(n, Out(p, now)), now, evs, t, OutSlot(n, p, now).value, now);
  }

  ghost predicate SameEndpoint(p: seq<byte>, q: seq<byte>)
    requires Parse(p).Some? && Parse(q).Some?
  {
    var v, w := Parse(p).value, Parse(q).value;
    v.proto == w.proto && p[12..16] == q[12..16] && Key(p, v, true) == Key(q, w, true)
  }

  /**
   * REQ-1 in section 4.1 of RFC 4787 and its converse: while a mapping is kept alive, a later
   * packet leaves through the same NAT port exactly when it comes from the same endpoint,
   * whatever its destination.
   */
  lemma PortFollowsEndpoint(n: Nat, t0: word32, p: seq<byte>, now: word32, evs: seq<Event>, q: seq<byte>, t: word32)
    requires Inv(n, t0) && t0 <= now && OutSlot(n, p, now).Some? && KeptAlive(n, p, now, evs, t) && Translatable(n, q)
    ensures OutSlot(After(n, p, now, evs), q, t) == OutSlot(n, p, now) <==> SameEndpoint(p, q)
  {
    hide Live, After, KeptAlive;
    var w, n2 := Parse(q).value, After(n, p, now, evs);
    AfterIs(n, t0, p, now, evs, t);
    if SameEndpoint(p, q) {
      OnlyMatch(n2, t, OutSlot(n, p, now).value, w.proto, q[12..16], Key(q, w, true));
    }
  }

  /** Different slots are different NAT ports. */
  lemma NatPortInjective(i: nat, j: nat)
    requires i < NAPT_MAX && j < NAPT_MAX && NatPort(i) == NatPort(j)
    ensures i == j
  {
    SumOfOctets(NAPT_PORT_BASE + i);
    SumOfOctets(NAPT_PORT_BASE + j);
  }

  /** The search finds the one live mapping of an endpoint. */
  lemma OnlyMatch(n: Nat, now: word32, i: nat, proto: byte, ip: seq<byte>, port: seq<byte>)
    requires Inv(n, now) && i < NAPT_MAX && Live(n.table[i], now) && Matches(n.table[i], proto, ip, port)
    ensures SlotFor(n.table, proto, ip, port, now) == Some(i)
  {
    hide Live, FindMatch;
    var m := FindMatch(n.table, 0, proto, ip, port, now);
    assert m.Some?;
    assert m.value == i;
  }

  const FREE: Entry := Entry([0, 0, 0, 0], [0, 0], 0, 0, New)

  /** A reset table starts every run off. */
  lemma ResetHoldsInv(n: Nat, now: word32)
    requires |n.table| == NAPT_MAX && |n.ext| == 4 && forall i :: 0 <= i < NAPT_MAX ==> n.table[i] == FREE
    ensures Inv(n, now)
  {
  }

  /** The invariant holds after every run of calls under a non-decreasing clock. */
  lemma {:induction false} RunKeepsInv(n: Nat, t0: word32, evs: seq<Event>, t: word32)
    requires Inv(n, t0) && t0 <= t && Monotone(evs, t0, t)
    ensures Inv(Run(n, evs), t)
    decreases |evs|
  {
    hide Live, Step;
    if evs == [] {
      InvLater(n, t0, t);
    } else {
      StepKeepsInv(n, t0, evs[0]);
      RunKeepsInv(Step(n, evs[0]), evs[0].at, evs[1..], t);
    }
  }

  /** From a reset on, in every run, no two live entries share an inner endpoint. */
  lemma NoSharedEndpoint(n: Nat, evs: seq<Event>, t: word32, i: nat, j: nat)
    requires |n.table| == NAPT_MAX && |n.ext| == 4 && forall k :: 0 <= k < NAPT_MAX ==> n.table[k] == FREE
    requires Monotone(evs, 0, t) && i < j < NAPT_MAX
    ensures WellSized(n)
    ensures var m := Run(n, evs).table;
            Live(m[i], t) && Live(m[j], t) ==> (m[i].proto, m[i].ip, m[i].port) != (m[j].proto, m[j].ip, m[j].port)
  {
    hide Live, Run;
    ResetHoldsInv(n, 0);
    RunKeepsInv(n, 0, evs, t);
  }
}
