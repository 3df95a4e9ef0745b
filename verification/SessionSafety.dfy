/**
 * What every run of the session engine keeps, whatever the network and the clock do. Slots,
 * indices, sending counters and confirmation are kept on fresh indices and fresh keys alone.
 * The flag `counted` adds the replay windows, which need counters that truncation leaves alone.
 */
module SessionSafety {
  import opened Bytes
  import opened Replay
  import opened Session

  // ---- properties of a trace -----------------------------------------------------------

  /** Apart from repeated authentications, and acceptances unless counted, nothing observable happens twice. */
  ghost predicate NoRepeat(tr: seq<Obs>, counted: bool) {
    forall i, j :: 0 <= i < j < |tr| && !tr[i].Authenticated? && (counted || !tr[i].Accepted?) ==> tr[i] != tr[j]
  }

  /** Encryption only under a key we initiated, or one the other side has proved to hold. */
  ghost predicate Confirmed(tr: seq<Obs>) {
    forall i :: 0 <= i < |tr| && tr[i].Sealed? ==>
        Started(tr[i].key, true) in tr[..i] || Authenticated(tr[i].key) in tr[..i]
  }

  ghost predicate HasKey(tr: seq<Obs>, k: Key) {
    Started(k, true) in tr || Started(k, false) in tr
  }

  /** Every key was started once and in one role, before it was used, and promoted at most once. */
  ghost predicate Rooted(tr: seq<Obs>) {
    && (forall o :: o in tr ==> HasKey(tr, o.key))
    && (forall k :: !(Started(k, true) in tr && Started(k, false) in tr))
    && (forall k, c: word64, d: word64 :: Accepted(k, c, true) in tr && Accepted(k, d, true) in tr ==> c == d)
    && (forall k, c: word64 :: Accepted(k, c, true) in tr ==> Started(k, false) in tr)
  }

  ghost predicate GoodTrace(tr: seq<Obs>, counted: bool) {
    NoRepeat(tr, counted) && Confirmed(tr) && Rooted(tr)
  }

  /** The counters a session has accepted, the packet that promoted it aside. */
  ghost function SeenBy(tr: seq<Obs>, k: Key): set<word64> {
    set o | o in tr && o.Accepted? && o.key == k && !o.promoting :: o.counter
  }

  // ---- invariant of the peer -------------------------------------------------------------

  /** A keypair in a slot agrees with the trace. */
  ghost predicate SlotOk(tr: seq<Obs>, k: Keypair, counted: bool) {
    k.valid ==>
      && k.localIndex != 0
      && Started(k.sendKey, k.initiator) in tr
      && (forall c: word64 :: Sealed(k.sendKey, c) in tr ==> c < k.sendCounter)
      && (!k.initiator && k.lastRx != 0 ==> Authenticated(k.sendKey) in tr)
      && (counted ==> Represents(k.window, SeenBy(tr, k.sendKey)))
  }

  /** Two slots never hold the same session, and never answer to the same index. */
  predicate Apart(a: Keypair, b: Keypair) {
    a.valid && b.valid ==> a.localIndex != b.localIndex && a.sendKey != b.sendKey
  }

  predicate IndexApart(h: Handshake, k: Keypair) {
    h.valid && h.initiator && k.valid ==> h.localIndex != k.localIndex
  }

  ghost predicate Slots(p: Peer, tr: seq<Obs>, counted: bool) {
    && SlotOk(tr, p.curr, counted) && SlotOk(tr, p.prev, counted) && SlotOk(tr, p.next, counted)
    && Apart(p.curr, p.prev) && Apart(p.curr, p.next) && Apart(p.prev, p.next)
    && (p.next.valid ==> !p.next.initiator && forall c: word64, b :: Accepted(p.next.sendKey, c, b) !in tr)
  }

  predicate HandshakeApart(p: Peer) {
    && (p.hs.valid && p.hs.initiator ==> p.hs.localIndex != 0)
    && IndexApart(p.hs, p.curr) && IndexApart(p.hs, p.prev) && IndexApart(p.hs, p.next)
  }

  ghost predicate Inv(p: Peer, tr: seq<Obs>, counted: bool) {
    Slots(p, tr, counted) && HandshakeApart(p) && GoodTrace(tr, counted)
  }

  // ---- one observation at a time -------------------------------------------------------------

  lemma ObserveSealed(tr: seq<Obs>, k: Key, c: word64, counted: bool)
    requires GoodTrace(tr, counted) && Sealed(k, c) !in tr && HasKey(tr, k)
    requires Started(k, true) in tr || Authenticated(k) in tr
    ensures GoodTrace(tr + [Sealed(k, c)], counted)
    ensures forall o :: o in tr + [Sealed(k, c)] <==> o in tr || o == Sealed(k, c)
  {
    hide NoRepeat, Confirmed, Rooted;
    NoRepeatSnoc(tr, Sealed(k, c), counted);
    ConfirmedSnoc(tr, Sealed(k, c));
    RootedSnoc(tr, Sealed(k, c));
  }

  lemma ObserveOther(tr: seq<Obs>, x: Obs, counted: bool)
    requires GoodTrace(tr, counted) && !x.Sealed? && (x.Authenticated? || (!counted && x.Accepted?) || x !in tr)
    requires x.Started? ==> !HasKey(tr, x.key)
    requires !x.Started? ==> HasKey(tr, x.key)
    requires x.Accepted? && x.promoting ==> Started(x.key, false) in tr
    requires x.Accepted? && x.promoting ==> forall c: word64 :: Accepted(x.key, c, true) !in tr
    ensures GoodTrace(tr + [x], counted)
    ensures forall o :: o in tr + [x] <==> o in tr || o == x
  {
    hide NoRepeat, Confirmed, Rooted;
    NoRepeatSnoc(tr, x, counted);
    ConfirmedSnoc(tr, x);
    RootedSnoc(tr, x);
  }

  lemma NoRepeatSnoc(tr: seq<Obs>, x: Obs, counted: bool)
    requires NoRepeat(tr, counted) && (x.Authenticated? || (!counted && x.Accepted?) || x !in tr)
    ensures NoRepeat(tr + [x], counted)
  {
  }

  lemma ConfirmedSnoc(tr: seq<Obs>, x: Obs)
    requires Confirmed(tr) && (x.Sealed? ==> Started(x.key, true) in tr || Authenticated(x.key) in tr)
    ensures Confirmed(tr + [x])
  {
    var t := tr + [x];
    assert forall i :: 0 <= i < |tr| ==> t[..i] == tr[..i];
    assert t[..|tr|] == tr;
  }

  lemma RootedSnoc(tr: seq<Obs>, x: Obs)
    requires Rooted(tr)
    requires x.Started? ==> !HasKey(tr, x.key)
    requires !x.Started? ==> HasKey(tr, x.key)
    requires x.Accepted? && x.promoting ==> Started(x.key, false) in tr
    requires x.Accepted? && x.promoting ==> forall c: word64 :: Accepted(x.key, c, true) !in tr
    ensures Rooted(tr + [x])
  {
    var t := tr + [x];
    assert forall o :: o in t <==> o in tr || o == x;
    forall o | o in t ensures HasKey(t, o.key) {
      if o in tr {
        assert HasKey(tr, o.key);
      }
    }
  }

  /** An observation about another session leaves a slot's books alone. */
  lemma SlotUnaffected(tr: seq<Obs>, k: Keypair, x: Obs, counted: bool)
    requires SlotOk(tr, k, counted)
    requires k.valid ==> x.key != k.sendKey || x.Authenticated? || (x.Accepted? && x.promoting)
    ensures SlotOk(tr + [x], k, counted)
  {
    if k.valid {
      assert SeenBy(tr + [x], k.sendKey) == SeenBy(tr, k.sendKey);
    }
  }

  // ---- steps ------------------------------------------------------------------------------------

  /** Emptying a slot, or updating the keypair in it without changing whose it is, keeps the rest. */
  lemma ReplaceSlot(p: Peer, tr: seq<Obs>, s: Slot, k: Keypair, counted: bool)
    requires Inv(p, tr, counted) && SlotOk(tr, k, counted)
    requires k.valid ==> At(p, s).valid && k.localIndex == At(p, s).localIndex
    requires k.valid ==> k.sendKey == At(p, s).sendKey && k.initiator == At(p, s).initiator
    ensures Inv(With(p, s, k), tr, counted)
  {
    hide SlotOk, GoodTrace;
  }

  /** The peer's other fields do not matter to the invariant. */
  lemma InvOnlySlots(p: Peer, q: Peer, tr: seq<Obs>, counted: bool)
    requires Inv(p, tr, counted) && q.curr == p.curr && q.prev == p.prev && q.next == p.next && q.hs == p.hs
    ensures Inv(q, tr, counted)
  {
    hide SlotOk, GoodTrace;
  }

  lemma OutputSafe(p: Peer, tr: seq<Obs>, now: word32, mem: bool, sent: bool, counted: bool)
    requires Inv(p, tr, counted)
    ensures var (q, o) := Output(p, now, mem, sent); Inv(q, tr + o, counted)
  {
    hide Expired, GoodTrace, Represents;
    var s := OutputSlot(p);
    var k := At(p, s);
    var (q, o) := Output(p, now, mem, sent);
    if o == [] {
      assert tr + o == tr;
      ReplaceSlot(p, tr, s, ZEROED, counted);
    } else {
      var x, k1 := Sealed(k.sendKey, k.sendCounter), At(q, s);
      assert HasKey(tr, k.sendKey);
      ObserveSealed(tr, k.sendKey, k.sendCounter, counted);
      assert SeenBy(tr + [x], k.sendKey) == SeenBy(tr, k.sendKey);
      SealedElsewhere(p, tr, s, x, counted);
      InstallUpdated(p, tr, s, x, k1, counted);
      InvOnlySlots(With(p, s, k1), q, tr + [x], counted);
    }
  }

  /** With one slot emptied, an observation about its session leaves everything else right. */
  lemma SealedElsewhere(p: Peer, tr: seq<Obs>, s: Slot, x: Obs, counted: bool)
    requires Inv(p, tr, counted) && At(p, s).valid && x.key == At(p, s).sendKey
    requires !x.Started? && GoodTrace(tr + [x], counted)
    ensures Inv(With(p, s, ZEROED), tr + [x], counted)
  {
    hide GoodTrace, Represents, SlotOk;
    ZeroedIsOk(tr + [x], counted);
    if s != Curr { SlotUnaffected(tr, p.curr, x, counted); }
    if s != Prev { SlotUnaffected(tr, p.prev, x, counted); }
    if s != Next { SlotUnaffected(tr, p.next, x, counted); }
  }

  lemma ZeroedIsOk(tr: seq<Obs>, counted: bool)
    ensures SlotOk(tr, ZEROED, counted)
  {
  }

  /** Putting the updated keypair back into the slot it came from. */
  lemma InstallUpdated(p: Peer, tr: seq<Obs>, s: Slot, x: Obs, k: Keypair, counted: bool)
    requires Inv(p, tr, counted) && At(p, s).valid && x.key == At(p, s).sendKey && !x.Started?
    requires Inv(With(p, s, ZEROED), tr + [x], counted) && SlotOk(tr + [x], k, counted)
    requires k.valid && k.localIndex == At(p, s).localIndex
    requires k.sendKey == At(p, s).sendKey && k.initiator == At(p, s).initiator
    requires s == Next ==> !x.Accepted?
    ensures Inv(With(p, s, k), tr + [x], counted)
  {
    hide GoodTrace, SlotOk;
  }

  /**
   * The slot whose replay window decides on a message: authentic, with a payload, for a live keypair that is not
   * parked.
   */
  function CheckedSlot(p: Peer, m: DataMsg, now: word32): Option<Slot> {
    var s := SlotForIndex(p, m.receiver);
    if s.None? || s.value == Next || !Usable(At(p, s.value), now) then None
    else if !m.mem || !m.authentic || !m.payload then None
    else s
  }

  /** Hypotheses on a step: fresh indices and fresh keys; if counted, no counter that truncation would confuse. */
  ghost predicate Plausible(p: Peer, tr: seq<Obs>, i: Input, counted: bool) {
    match i
    case OutputPacket(_, _, _) => true
    case DataMessage(m, now) =>
      var s := CheckedSlot(p, m, now);
      counted && s.Some? ==> Undistorted(At(p, s.value).window, m.nonce)
    case InitiationMessage(_, respond, _) =>
      respond.Some? ==> GoodIndex(p, respond.value.0) && !HasKey(tr, respond.value.1)
    case ResponseMessage(receiver, _, key, _, _, _) => Answers(p, receiver) && key.Some? ==> !HasKey(tr, key.value)
    case Tick(now, mem, sent, idx, _) =>
      var q := TimerUpkeep(p, now, mem, sent).0;
      idx.Some? && ShouldSendInitiation(q, now) ==> GoodIndex(q, idx.value)
    case Connect => true
    case Disconnect => true
  }

  /** A new session: its key is new to the trace and its index is nobody's. */
  lemma StartSessionSafe(p: Peer, tr: seq<Obs>, initiator: bool, key: Key, now: word32, counted: bool)
    requires Slots(p, tr, counted) && GoodTrace(tr, counted) && !HasKey(tr, key)
    requires p.hs.localIndex != 0
    requires forall s: Slot :: At(p, s).valid ==> At(p, s).localIndex != p.hs.localIndex
    ensures var (q, o) := StartSession(p, initiator, key, now); Inv(q, tr + o, counted)
  {
    hide GoodTrace, Represents;
    var (q, o) := StartSession(p, initiator, key, now);
    var x := Started(key, initiator);
    ObserveOther(tr, x, counted);
    assert At(p, Curr) == p.curr && At(p, Prev) == p.prev && At(p, Next) == p.next;
    KeyIsNew(tr, p.curr, key, counted);
    KeyIsNew(tr, p.prev, key, counted);
    KeyIsNew(tr, p.next, key, counted);
    SlotUnaffected(tr, p.curr, x, counted);
    SlotUnaffected(tr, p.prev, x, counted);
    SlotUnaffected(tr, p.next, x, counted);
    ZeroedIsOk(tr + [x], counted);
    NothingSeen(tr, key, counted);
    FreshRepresentsNothing();
    assert SeenBy(tr + [x], key) == {};
    NewKeypairOk(tr, initiator, key, p.hs, now, counted);
  }

  lemma NewKeypairOk(tr: seq<Obs>, initiator: bool, key: Key, h: Handshake, now: word32, counted: bool)
    requires GoodTrace(tr, counted) && !HasKey(tr, key) && h.localIndex != 0
    ensures SlotOk(tr + [Started(key, initiator)], NewKeypair(h, initiator, key, now), counted)
  {
    hide GoodTrace, Represents;
    NothingSeen(tr, key, counted);
    FreshRepresentsNothing();
    assert SeenBy(tr + [Started(key, initiator)], key) == {};
  }

  lemma KeyIsNew(tr: seq<Obs>, k: Keypair, key: Key, counted: bool)
    requires SlotOk(tr, k, counted) && !HasKey(tr, key)
    ensures k.valid ==> k.sendKey != key
  {
  }

  /** A key that was never started has no history. */
  lemma NothingSeen(tr: seq<Obs>, key: Key, counted: bool)
    requires GoodTrace(tr, counted) && !HasKey(tr, key)
    ensures forall i: bool :: SeenBy(tr + [Started(key, i)], key) == {}
    ensures forall c: word64 :: Sealed(key, c) !in tr
    ensures forall c: word64, b :: Accepted(key, c, b) !in tr
  {
    forall o | o in tr ensures o.key != key {
      assert HasKey(tr, o.key);
    }
  }

  // ---- receiving data --------------------------------------------------------------------------------

  lemma RotationSafe(p: Peer, tr: seq<Obs>, s: Slot, counted: bool)
    requires Inv(p, tr, counted) && At(p, s).valid
    ensures Inv(KeypairUpdate(p, s), tr, counted)
  {
    hide SlotOk, GoodTrace;
    ZeroedIsOk(tr, counted);
  }

  /** The peer after an authentic message, before its counter is looked at. */
  function AfterAuthentic(p: Peer, s: Slot, now: word32): Peer {
    KeypairUpdate(With(p, s, At(p, s).(lastRx := now)).(lastRx := now), s)
  }

  lemma AuthenticSafe(p: Peer, tr: seq<Obs>, s: Slot, now: word32, counted: bool)
    requires Inv(p, tr, counted) && At(p, s).valid
    ensures Inv(AfterAuthentic(p, s, now), tr + [Authenticated(At(p, s).sendKey)], counted)
  {
    hide GoodTrace, Represents;
    var k := At(p, s);
    var x, k1 := Authenticated(k.sendKey), k.(lastRx := now);
    ObserveOther(tr, x, counted);
    SealedElsewhere(p, tr, s, x, counted);
    SlotUnaffected(tr, k, x, counted);
    InstallUpdated(p, tr, s, x, k1, counted);
    var q := With(p, s, k1).(lastRx := now);
    InvOnlySlots(With(p, s, k1), q, tr + [x], counted);
    RotationSafe(q, tr + [x], s, counted);
  }

  /** The replay check of a session that stays in its slot. */
  lemma CheckedSafe(p: Peer, tr: seq<Obs>, s: Slot, nonce: word64, counted: bool)
    requires Inv(p, tr, counted) && s != Next && At(p, s).valid && (counted ==> Undistorted(At(p, s).window, nonce))
    ensures var k := At(p, s);
            var c := Check(k.window, nonce);
            Inv(With(p, s, k.(window := c.0)), if c.1 then tr + [Accepted(k.sendKey, nonce, false)] else tr, counted)
  {
    hide GoodTrace, Represents, Check, Undistorted, Acceptable;
    var k := At(p, s);
    var c := Check(k.window, nonce);
    var seen := SeenBy(tr, k.sendKey);
    if counted {
      CheckRefines(k.window, seen, nonce);
    }
    if c.1 {
      var x := Accepted(k.sendKey, nonce, false);
      if counted {
        TopIs(k.window, seen, nonce);
      }
      ObserveOther(tr, x, counted);
      assert SeenBy(tr + [x], k.sendKey) == seen + {nonce};
      SealedElsewhere(p, tr, s, x, counted);
      InstallUpdated(p, tr, s, x, k.(window := c.0), counted);
    } else {
      ReplaceSlot(p, tr, s, k.(window := c.0), counted);
    }
  }

  /** The replay check of the packet that promoted a session: it lands in the emptied slot. */
  lemma PromotionSafe(p: Peer, tr: seq<Obs>, k: Key, nonce: word64, w: Window, counted: bool)
    requires Inv(p, tr, counted) && !p.next.valid && Started(k, false) in tr
    requires forall c: word64, b :: Accepted(k, c, b) !in tr
    ensures Inv(With(p, Next, p.next.(window := w)), tr, counted)
    ensures Inv(With(p, Next, p.next.(window := w)), tr + [Accepted(k, nonce, true)], counted)
  {
    hide GoodTrace, Represents;
    var x := Accepted(k, nonce, true);
    ObserveOther(tr, x, counted);
    SlotUnaffected(tr, p.curr, x, counted);
    SlotUnaffected(tr, p.prev, x, counted);
  }

  lemma DataSafe(p: Peer, tr: seq<Obs>, m: DataMsg, now: word32, counted: bool)
    requires Inv(p, tr, counted) && Plausible(p, tr, DataMessage(m, now), counted)
    ensures var (q, o) := Data(p, m, now); Inv(q, tr + o, counted)
  {
    hide GoodTrace, SlotOk, Check, Undistorted, Expired, HandshakeApart;
    var found := SlotForIndex(p, m.receiver);
    assert tr + [] == tr;
    if found.Some? {
      var s := found.value;
      var k := At(p, s);
      ZeroedIsOk(tr, counted);
      ReplaceSlot(p, tr, s, ZEROED, counted);
      AuthenticSafe(p, tr, s, now, counted);
      var p1, tr1 := AfterAuthentic(p, s, now), tr + [Authenticated(k.sendKey)];
      var age := REJECT_AFTER_TIME - p.keepalive - REKEY_TIMEOUT;
      var rekey := At(p1, s).initiator && Expired(At(p1, s).millis, age, now);
      var p2 := p1.(sendHandshake := p1.sendHandshake || rekey);
      InvOnlySlots(p1, p2, tr1, counted);
      var y := Accepted(k.sendKey, m.nonce, s == Next);
      assert tr + ([Authenticated(k.sendKey)] + [y]) == tr1 + [y];
      if s == Next {
        NextIsUnused(p, tr, counted);
        PromotionSafe(p2, tr1, k.sendKey, m.nonce, Check(FRESH, m.nonce).0, counted);
      } else if CheckedSlot(p, m, now).Some? {
        assert At(p2, s) == k.(lastRx := now);
        CheckedSafe(p2, tr1, s, m.nonce, counted);
      }
    }
  }

  lemma NextIsUnused(p: Peer, tr: seq<Obs>, counted: bool)
    requires Inv(p, tr, counted) && p.next.valid
    ensures var k, t := p.next.sendKey, tr + [Authenticated(p.next.sendKey)];
            Started(k, false) in t && forall c: word64, b :: Accepted(k, c, b) !in t
  {
  }

  // ---- handshakes and the timer ------------------------------------------------------------------------

  /** Only a valid initiator handshake is constrained; anything may be forgotten. */
  lemma HandshakeSafe(p: Peer, tr: seq<Obs>, h: Handshake, counted: bool)
    requires Inv(p, tr, counted)
    requires (h.valid && h.initiator ==> GoodIndex(p, h.localIndex) || h == p.hs.(remoteIndex := h.remoteIndex))
    ensures Inv(p.(hs := h), tr, counted)
  {
    hide SlotOk, GoodTrace;
  }

  lemma ReceiveInitiationSafe(p: Peer, tr: seq<Obs>, sender: word32, respond: Option<(word32, Key)>, now: word32,
                              counted: bool)
    requires Inv(p, tr, counted) && Plausible(p, tr, InitiationMessage(sender, respond, now), counted)
    ensures var (q, o) := ReceiveInitiation(p, sender, respond, now); Inv(q, tr + o, counted)
  {
    hide SlotOk, GoodTrace, StartSession;
    var p1 := p.(hs := p.hs.(valid := true, initiator := false, remoteIndex := sender));
    HandshakeSafe(p, tr, p1.hs, counted);
    assert tr + [] == tr;
    if respond.Some? {
      var p2 := p1.(hs := p1.hs.(localIndex := respond.value.0));
      HandshakeSafe(p1, tr, p2.hs, counted);
      StartSessionSafe(p2, tr, false, respond.value.1, now, counted);
    }
  }

  lemma ReceiveResponseSafe(p: Peer, tr: seq<Obs>, receiver: word32, sender: word32, key: Option<Key>, now: word32,
                            mem: bool, sent: bool, counted: bool)
    requires Inv(p, tr, counted) && Plausible(p, tr, ResponseMessage(receiver, sender, key, now, mem, sent), counted)
    ensures var (q, o) := ReceiveResponse(p, receiver, sender, key, now, mem, sent); Inv(q, tr + o, counted)
  {
    hide SlotOk, GoodTrace, StartSession, Output;
    assert tr + [] == tr;
    if Answers(p, receiver) && key.Some? {
      var p1 := p.(hs := p.hs.(remoteIndex := sender));
      HandshakeSafe(p, tr, p1.hs, counted);
      forall s: Slot | At(p1, s).valid ensures At(p1, s).localIndex != p1.hs.localIndex {
        assert IndexApart(p.hs, At(p, s));
      }
      StartSessionSafe(p1, tr, true, key.value, now, counted);
      var (p2, o1) := StartSession(p1, true, key.value, now);
      OutputSafe(p2, tr + o1, now, mem, sent, counted);
      assert tr + (o1 + Output(p2, now, mem, sent).1) == (tr + o1) + Output(p2, now, mem, sent).1;
    }
  }

  lemma TimerSafe(p: Peer, tr: seq<Obs>, now: word32, mem: bool, sent: bool, idx: Option<word32>, room: bool,
                  counted: bool)
    requires Inv(p, tr, counted) && Plausible(p, tr, Tick(now, mem, sent, idx, room), counted)
    ensures var (q, o) := Timer(p, now, mem, sent, idx, room); Inv(q, tr + o, counted)
  {
    hide Inv, Output, Expired, GoodIndex, ShouldSendInitiation;
    DestroyAllSafe(p, tr, counted);
    var p0 := ResetPeer(p, now);
    ZeroedIsOk(tr, counted);
    DestroyCurrentSafe(p0, tr, counted);
    var p1 := DestroyCurrent(p0, now);
    assert tr + [] == tr;
    OutputSafe(p1, tr, now, mem, sent, counted);
    var (p2, o) := TimerUpkeep(p, now, mem, sent);
    assert Inv(p2, tr + o, counted);
    if idx.Some? && ShouldSendInitiation(p2, now) {
      var p3 := p2.(hs := p2.hs.(valid := true, initiator := true, localIndex := idx.value));
      HandshakeSafe(p2, tr + o, p3.hs, counted);
      InvOnlySlots(p3, p3.(sendHandshake := false, lastInitiationTx := now), tr + o, counted);
    }
  }

  lemma DestroyCurrentSafe(p: Peer, tr: seq<Obs>, counted: bool)
    requires Inv(p, tr, counted)
    ensures Inv(p.(curr := ZEROED), tr, counted)
  {
    hide SlotOk, GoodTrace;
    ZeroedIsOk(tr, counted);
  }

  lemma DestroyAllSafe(p: Peer, tr: seq<Obs>, counted: bool)
    requires Inv(p, tr, counted)
    ensures Inv(DestroyAll(p), tr, counted)
  {
    hide SlotOk, GoodTrace;
    ZeroedIsOk(tr, counted);
  }

  /** Every step keeps the invariant. */
  lemma StepSafe(p: Peer, tr: seq<Obs>, i: Input, counted: bool)
    requires Inv(p, tr, counted) && Plausible(p, tr, i, counted)
    ensures Inv(Step(p, i).0, tr + Step(p, i).1, counted)
  {
    hide Inv, Plausible, Output, Data, ReceiveInitiation, ReceiveResponse, Timer;
    assert tr + [] == tr;
    match i {
      case OutputPacket(now, mem, sent) => OutputSafe(p, tr, now, mem, sent, counted);
      case DataMessage(m, now) => DataSafe(p, tr, m, now, counted);
      case InitiationMessage(sender, respond, now) => ReceiveInitiationSafe(p, tr, sender, respond, now, counted);
      case ResponseMessage(receiver, sender, key, now, mem, sent) =>
        ReceiveResponseSafe(p, tr, receiver, sender, key, now, mem, sent, counted);
      case Tick(now, mem, sent, idx, room) => TimerSafe(p, tr, now, mem, sent, idx, room, counted);
      case Connect => InvOnlySlots(p, p.(active := true), tr, counted);
      case Disconnect =>
        DestroyAllSafe(p, tr, counted);
        InvOnlySlots(DestroyAll(p), DestroyAll(p).(active := false), tr, counted);
    }
  }

  // ---- whole runs ---------------------------------------------------------------------------------------

  ghost predicate PlausibleRun(keepalive: word16, inputs: seq<Input>, counted: bool) {
    forall n {:trigger inputs[..n]} :: 0 <= n < |inputs| ==>
      var (p, tr) := Run(keepalive, inputs[..n]);
      Plausible(p, tr, inputs[n], counted)
  }

  lemma {:induction false} RunSafe(keepalive: word16, inputs: seq<Input>, counted: bool)
    requires PlausibleRun(keepalive, inputs, counted)
    ensures var (p, tr) := Run(keepalive, inputs); Inv(p, tr, counted)
  {
    hide Inv, Step, Plausible;
    if inputs == [] {
      FreshIsSafe(keepalive, counted);
    } else {
      var m := |inputs| - 1;
      var before := inputs[..m];
      forall n | 0 <= n < m ensures var (p, tr) := Run(keepalive, before[..n]); Plausible(p, tr, before[n], counted) {
        assert before[..n] == inputs[..n];
      }
      RunSafe(keepalive, before, counted);
      var (p, tr) := Run(keepalive, before);
      StepSafe(p, tr, inputs[m], counted);
    }
  }

  lemma FreshIsSafe(keepalive: word16, counted: bool)
    ensures Inv(Fresh(keepalive), [], counted)
  {
    ZeroedIsOk([], counted);
  }

  /** Every index drawn and every key derived in the run is new. */
  ghost predicate FreshRun(keepalive: word16, inputs: seq<Input>) { PlausibleRun(keepalive, inputs, false) }

  /** And no message that reaches a replay window carries a counter that truncation confuses with another. */
  ghost predicate CountedRun(keepalive: word16, inputs: seq<Input>) { PlausibleRun(keepalive, inputs, true) }

  /** No (key, counter) pair is ever used to encrypt twice. */
  lemma NonceNeverReused(keepalive: word16, inputs: seq<Input>, i: nat, j: nat)
    requires FreshRun(keepalive, inputs)
    requires var tr := Run(keepalive, inputs).1; i < j < |tr| && tr[i].Sealed?
    ensures Run(keepalive, inputs).1[i] != Run(keepalive, inputs).1[j]
  {
    hide Run, Slots, HandshakeApart;
    RunSafe(keepalive, inputs, false);
  }

  /** A key this device did not initiate encrypts nothing until the other side has proved it holds it. */
  lemma UnconfirmedNeverEncrypts(keepalive: word16, inputs: seq<Input>, i: nat)
    requires FreshRun(keepalive, inputs)
    requires var tr := Run(keepalive, inputs).1; i < |tr| && tr[i].Sealed?
    ensures var tr := Run(keepalive, inputs).1;
            var k := tr[i].key;
            Started(k, true) in tr[..i] || Authenticated(k) in tr[..i]
  {
    hide Run, Slots, HandshakeApart;
    RunSafe(keepalive, inputs, false);
  }

  /** The same counter of the same session passes twice only if one of the two packets promoted the session. */
  lemma AcceptedAtMostOnce(keepalive: word16, inputs: seq<Input>, i: nat, j: nat)
    requires CountedRun(keepalive, inputs)
    requires var tr := Run(keepalive, inputs).1;
             && i < j < |tr| && tr[i].Accepted? && tr[j].Accepted?
             && tr[i].key == tr[j].key && tr[i].counter == tr[j].counter
    ensures var tr := Run(keepalive, inputs).1;
            tr[i].promoting != tr[j].promoting && Started(tr[i].key, false) in tr && Started(tr[i].key, true) !in tr
  {
    hide Run, Slots, HandshakeApart;
    RunSafe(keepalive, inputs, true);
    var tr := Run(keepalive, inputs).1;
    assert tr[i] in tr && tr[j] in tr;
    assert Accepted(tr[i].key, tr[i].counter, true) in tr;
  }

  /** A receiver index selects at most one keypair, and never one that a pending initiation also answers to. */
  lemma LookupUnambiguous(keepalive: word16, inputs: seq<Input>, s: Slot, t: Slot)
    requires FreshRun(keepalive, inputs)
    ensures var p := Run(keepalive, inputs).0;
            var a, b := At(p, s), At(p, t);
            && (a.valid && b.valid && s != t ==> a.localIndex != b.localIndex && a.sendKey != b.sendKey)
            && (a.valid ==> a.localIndex != 0 && SlotForIndex(p, a.localIndex) == Some(s))
            && (p.hs.valid && p.hs.initiator ==> p.hs.localIndex != 0 && SlotForIndex(p, p.hs.localIndex) == None)
  {
    hide Run, GoodTrace, Represents;
    RunSafe(keepalive, inputs, false);
  }

  lemma RunSnoc(keepalive: word16, inputs: seq<Input>, i: Input)
    ensures var (p, tr) := Run(keepalive, inputs);
            var (q, o) := Step(p, i);
            Run(keepalive, inputs + [i]) == (q, tr + o)
  {
    hide Step;
    assert (inputs + [i])[..|inputs|] == inputs;
  }

  lemma PlausibleSnoc(keepalive: word16, inputs: seq<Input>, i: Input, counted: bool)
    requires PlausibleRun(keepalive, inputs, counted)
    requires var (p, tr) := Run(keepalive, inputs); Plausible(p, tr, i, counted)
    ensures PlausibleRun(keepalive, inputs + [i], counted)
  {
    hide Plausible, Run;
    var all := inputs + [i];
    forall n | 0 <= n < |all| ensures var (p, tr) := Run(keepalive, all[..n]); Plausible(p, tr, all[n], counted) {
      assert all[..n] == inputs[..n];
      assert n == |inputs| ==> inputs[..n] == inputs;
    }
  }

  /**
   * The exception is real for every parked session: the packet that promotes it passes once more while the
   * session lives.
   */
  lemma PromotionAdmitsRepeat(p: Peer, tr: seq<Obs>, m: DataMsg, now: word32, later: word32)
    requires Inv(p, tr, true) && SlotForIndex(p, m.receiver) == Some(Next)
    requires Usable(p.next, now) && Usable(p.next, later)
    requires m.mem && m.authentic && m.payload && m.nonce + 1 < 0x1_0000_0000_0000_0000
    ensures var k := p.next.sendKey;
            var (q, o) := Data(p, m, now);
            && o == [Authenticated(k), Accepted(k, m.nonce, true)]
            && Data(q, m, later).1 == [Authenticated(k), Accepted(k, m.nonce, false)]
  {
    hide Expired, Trunc32, SetBit, Slid;
    var q := Data(p, m, now).0;
    assert p.next.window.counter == 0 by { ParkedWindow(p, tr); }
    assert q.curr == p.next.(lastRx := now);
    assert SlotForIndex(q, m.receiver) == Some(Curr);
  }

  /** A parked session has accepted nothing. */
  lemma ParkedWindow(p: Peer, tr: seq<Obs>)
    requires Inv(p, tr, true) && p.next.valid
    ensures p.next.window.counter == 0
  {
    assert SeenBy(tr, p.next.sendKey) == {};
  }

  /** In a whole run: an initiation, the packet that confirms the session, and that packet again. */
  lemma PromotingPacketDeliveredTwice(key: Key, nonce: word64)
    requires nonce + 1 < 0x1_0000_0000
    ensures var m := DataMessage(DataMsg(5, nonce, true, true, true), 1000);
            var inputs := [InitiationMessage(7, Some((5, key)), 1000)] + [m] + [m];
            && CountedRun(0, inputs)
            && Run(0, inputs).1 == [Started(key, false)] + [Authenticated(key), Accepted(key, nonce, true)]
                                 + [Authenticated(key), Accepted(key, nonce, false)]
  {
    hide Check, Undistorted, PlausibleRun, Run, Inv, Data;
    var start, d := InitiationMessage(7, Some((5, key)), 1000), DataMsg(5, nonce, true, true, true);
    var m := DataMessage(d, 1000);
    assert Run(0, []) == (Fresh(0), []) && PlausibleRun(0, [], true) by { RunNothing(); }
    assert [] + [start] == [start];
    RunSnoc(0, [], start);
    PlausibleSnoc(0, [], start, true);
    var (p1, tr1) := Run(0, [start]);
    assert p1 == Fresh(0).(next := NewKeypair(Handshake(true, false, 5, 7), false, key, 1000));
    assert tr1 == [Started(key, false)];
    RunSafe(0, [start], true);
    PromotionAdmitsRepeat(p1, tr1, d, 1000, 1000);
    RunSnoc(0, [start], m);
    PlausibleSnoc(0, [start], m, true);
    RunSnoc(0, [start] + [m], m);
    RepeatUndistorted(p1, d, 1000);
    PlausibleSnoc(0, [start] + [m], m, true);
  }

  lemma RunNothing()
    ensures Run(0, []) == (Fresh(0), []) && PlausibleRun(0, [], true)
  {
  }

  lemma RepeatUndistorted(p: Peer, m: DataMsg, now: word32)
    requires SlotForIndex(p, m.receiver) == Some(Next) && p.next.window == FRESH && m.nonce + 1 < 0x1_0000_0000
    requires Usable(p.next, now) && m.mem && m.authentic && m.payload
    ensures var q := Data(p, m, now).0; SlotForIndex(q, m.receiver) == Some(Curr) && Undistorted(q.curr.window, m.nonce)
  {
    hide Expired, Check, Trunc32;
  }
}
