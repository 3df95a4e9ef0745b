/**
 * The session engine of one peer: the three keypair slots, the handshake in
 * flight, and every step that touches them -- handshake messages, data in and
 * out, the periodic timer, disconnection. Cryptography is reduced to its
 * verdicts; what the steps make observable is recorded as a trace.
 */
module Session {
  import opened Bytes
  import opened Replay

  const REKEY_AFTER_MESSAGES: nat := 0x1000_0000_0000_0000
  const REJECT_AFTER_MESSAGES: nat := 0xFFFF_FFFF_FFFF_FFFF - 0x2000
  const REKEY_AFTER_TIME: nat := 120
  const REJECT_AFTER_TIME: nat := 180
  const REKEY_TIMEOUT: nat := 5

  /** Session keys are opaque; equality is all that matters here. */
  type Key = seq<byte>

  datatype Keypair = Keypair(valid: bool, initiator: bool, millis: word32, sendKey: Key, sendCounter: word64,
                             recvValid: bool, lastTx: word32, lastRx: word32, window: Window,
                             localIndex: word32, remoteIndex: word32)

  const ZEROED: Keypair := Keypair(false, false, 0, [], 0, false, 0, 0, FRESH, 0, 0)

  datatype Handshake = Handshake(valid: bool, initiator: bool, localIndex: word32, remoteIndex: word32)

  datatype Peer = Peer(curr: Keypair, prev: Keypair, next: Keypair, hs: Handshake, active: bool, keepalive: word16,
                       sendHandshake: bool, lastTx: word32, lastRx: word32, lastInitiationTx: word32)

  datatype Slot = Curr | Prev | Next

  function At(p: Peer, s: Slot): Keypair {
    match s case Curr => p.curr case Prev => p.prev case Next => p.next
  }

  function With(p: Peer, s: Slot, k: Keypair): Peer {
    match s case Curr => p.(curr := k) case Prev => p.(prev := k) case Next => p.(next := k)
  }

  /** What an observer can tell apart. */
  datatype Obs =
    | Started(key: Key, initiator: bool) // a session was installed
    | Authenticated(key: Key)            // a data message of this session decrypted
    | Sealed(key: Key, counter: word64)  // a packet was encrypted under this key and counter
    | Accepted(key: Key, counter: word64, promoting: bool) // a data packet passed the replay check

  predicate Expired(created: word32, seconds: int, now: word32) {
    (now - created) % 0x1_0000_0000 >= seconds * 1000 % 0x1_0000_0000
  }

  /** The keypair that a receiver index selects, in the order the code looks. */
  function SlotForIndex(p: Peer, idx: word32): Option<Slot> {
    if p.curr.valid && p.curr.localIndex == idx then Some(Curr)
    else if p.next.valid && p.next.localIndex == idx then Some(Next)
    else if p.prev.valid && p.prev.localIndex == idx then Some(Prev)
    else None
  }

  /** A fresh index must differ from every index this peer has on record, used or not. */
  predicate IndexUnused(p: Peer, idx: word32) {
    idx != p.curr.localIndex && idx != p.prev.localIndex && idx != p.next.localIndex && idx != p.hs.localIndex
  }

  predicate GoodIndex(p: Peer, idx: word32) {
    idx != 0 && idx != 0xFFFF_FFFF && IndexUnused(p, idx)
  }

  // ---- slot rotation ----------------------------------------------------------------

  /** A data message on the parked keypair confirms it: it becomes current. */
  function KeypairUpdate(p: Peer, received: Slot): Peer {
    if received == Next then p.(prev := p.curr, curr := p.next, next := ZEROED) else p
  }

  function AddNewKeypair(p: Peer, k: Keypair): Peer {
    if k.initiator then
      if p.next.valid then p.(prev := p.next, next := ZEROED, curr := k) else p.(prev := p.curr, curr := k)
    else p.(next := k, prev := ZEROED)
  }

  function NewKeypair(h: Handshake, initiator: bool, key: Key, now: word32): Keypair {
    ZEROED.(initiator := initiator, localIndex := h.localIndex, remoteIndex := h.remoteIndex,
            millis := now, sendKey := key, recvValid := true, valid := true)
  }

  /** Turn the finished handshake into a keypair and forget the handshake. */
  function StartSession(p: Peer, initiator: bool, key: Key, now: word32): (r: (Peer, seq<Obs>)) {
    (AddNewKeypair(p.(hs := p.hs.(remoteIndex := 0, localIndex := 0, valid := false)),
                   NewKeypair(p.hs, initiator, key, now)),
     [Started(key, initiator)])
  }

  // ---- data --------------------------------------------------------------------------

  function OutputSlot(p: Peer): Slot {
    if p.curr.valid && !p.curr.initiator && p.curr.lastRx == 0 then Prev else Curr
  }

  /** Encrypt and send one packet or keepalive; `mem` and `sent` are what the stack answers. */
  function Output(p: Peer, now: word32, mem: bool, sent: bool): (r: (Peer, seq<Obs>)) {
    var s := OutputSlot(p);
    var k := At(p, s);
    if !(k.valid && (k.initiator || k.lastRx != 0)) then (p, [])
    else if Expired(k.millis, REJECT_AFTER_TIME, now) || k.sendCounter >= REJECT_AFTER_MESSAGES then
      (With(p, s, ZEROED), [])
    else if !mem then (p, [])
    else
      (Seal(p, s, now, sent), [Sealed(k.sendKey, k.sendCounter)])
  }

  predicate NeedsRekey(k: Keypair, now: word32) {
    k.sendCounter >= REKEY_AFTER_MESSAGES || (k.initiator && Expired(k.millis, REKEY_AFTER_TIME, now))
  }

  /** The keypair in slot `s` after it sealed one packet. */
  function Bumped(k: Keypair, now: word32, sent: bool): Keypair
    requires k.sendCounter < REJECT_AFTER_MESSAGES
  {
    k.(sendCounter := k.sendCounter + 1, lastTx := if sent then now else k.lastTx)
  }

  function Seal(p: Peer, s: Slot, now: word32, sent: bool): Peer
    requires At(p, s).sendCounter < REJECT_AFTER_MESSAGES
  {
    var k := Bumped(At(p, s), now, sent);
    With(p, s, k).(lastTx := if sent then now else p.lastTx, sendHandshake := p.sendHandshake || NeedsRekey(k, now))
  }

  /** A keypair that may still receive: neither expired nor used up. */
  predicate Usable(k: Keypair, now: word32) {
    k.recvValid && !Expired(k.millis, REJECT_AFTER_TIME, now) && k.sendCounter < REJECT_AFTER_MESSAGES
  }

  /** The verdicts on one data message: buffer available, tag correct, not a keepalive. */
  datatype DataMsg = DataMsg(receiver: word32, nonce: word64, mem: bool, authentic: bool, payload: bool)

  /**
   * Receive one data message. The slot stays the one the index selected: after a
   * promotion it is the emptied `next` slot that the rekey test and the replay
   * check look at.
   */
  function Data(p: Peer, m: DataMsg, now: word32): (r: (Peer, seq<Obs>)) {
    var found := SlotForIndex(p, m.receiver);
    if found.None? then (p, [])
    else
      var s := found.value;
      var k := At(p, s);
      if !Usable(k, now) then (With(p, s, ZEROED), [])
      else if !m.mem || !m.authentic then (p, [])
      else
        var p1 := KeypairUpdate(With(p, s, k.(lastRx := now)).(lastRx := now), s);
        var k1 := At(p1, s);
        var rekey := k1.initiator && Expired(k1.millis, REJECT_AFTER_TIME - p.keepalive - REKEY_TIMEOUT, now);
        var p2 := p1.(sendHandshake := p1.sendHandshake || rekey);
        var seen := [Authenticated(k.sendKey)];
        if !m.payload then (p2, seen)
        else
          var c := Check(k1.window, m.nonce);
          (With(p2, s, At(p2, s).(window := c.0)),
           if c.1 then seen + [Accepted(k.sendKey, m.nonce, s == Next)] else seen)
  }

  // ---- handshakes ----------------------------------------------------------------------

  /** Start a handshake: `idx` is the fresh index of the initiation, `mem` whether there is a buffer to send it in. */
  function SendInitiation(p: Peer, idx: Option<word32>, mem: bool, now: word32): Peer {
    if idx.None? then p
    else
      var p1 := p.(hs := p.hs.(valid := true, initiator := true, localIndex := idx.value));
      if mem then p1.(sendHandshake := false, lastInitiationTx := now) else p1
  }

  /** A valid initiation arrived; unless the response could not be built, a session is parked. */
  function ReceiveInitiation(p: Peer, sender: word32, respond: Option<(word32, Key)>,
                             now: word32): (r: (Peer, seq<Obs>)) {
    var p1 := p.(hs := p.hs.(valid := true, initiator := false, remoteIndex := sender));
    if respond.None? then (p1, [])
    else StartSession(p1.(hs := p1.hs.(localIndex := respond.value.0)), false, respond.value.1, now)
  }

  /** A response is only looked at for the initiation in flight. */
  predicate Answers(p: Peer, receiver: word32) { p.hs.valid && p.hs.initiator && p.hs.localIndex == receiver }

  /** A response arrived; if it answers our initiation and verifies, the session starts at once. */
  function ReceiveResponse(p: Peer, receiver: word32, sender: word32, key: Option<Key>, now: word32, mem: bool,
                           sent: bool): (r: (Peer, seq<Obs>)) {
    if !Answers(p, receiver) || key.None? then (p, [])
    else
      var (p1, o1) := StartSession(p.(hs := p.hs.(remoteIndex := sender)), true, key.value, now);
      var (p2, o2) := Output(p1, now, mem, sent);
      (p2, o1 + o2)
  }

  // ---- the timer -------------------------------------------------------------------------

  function ResetPeer(p: Peer, now: word32): Peer {
    if p.curr.valid && Expired(p.curr.millis, REJECT_AFTER_TIME * 3, now) then DestroyAll(p) else p
  }

  function DestroyAll(p: Peer): Peer {
    p.(next := ZEROED, curr := ZEROED, prev := ZEROED)
  }

  function DestroyCurrent(p: Peer, now: word32): Peer {
    if p.curr.valid && (Expired(p.curr.millis, REJECT_AFTER_TIME, now) || p.curr.sendCounter >= REJECT_AFTER_MESSAGES)
    then p.(curr := ZEROED) else p
  }

  predicate ShouldSendKeepalive(p: Peer, now: word32) {
    p.keepalive > 0 && (p.curr.valid || p.prev.valid) && Expired(p.lastTx, p.keepalive, now)
  }

  predicate ShouldSendInitiation(p: Peer, now: word32) {
    && (p.lastInitiationTx == 0 || Expired(p.lastInitiationTx, REKEY_TIMEOUT, now))
    && (|| p.sendHandshake
        || (p.curr.valid && !p.curr.initiator && Expired(p.curr.millis, REJECT_AFTER_TIME - p.keepalive, now))
        || (!p.curr.valid && p.active))
  }

  /** The timer up to the point where it may start a handshake. */
  function TimerUpkeep(p: Peer, now: word32, mem: bool, sent: bool): (r: (Peer, seq<Obs>)) {
    var p1 := DestroyCurrent(ResetPeer(p, now), now);
    if ShouldSendKeepalive(p1, now) then Output(p1, now, mem, sent) else (p1, [])
  }

  /** One tick; `room` answers for the initiation's buffer, as `mem` does for the keepalive's. */
  function Timer(p: Peer, now: word32, mem: bool, sent: bool, idx: Option<word32>,
                 room: bool): (r: (Peer, seq<Obs>)) {
    var (p1, o) := TimerUpkeep(p, now, mem, sent);
    (if ShouldSendInitiation(p1, now) then SendInitiation(p1, idx, room, now) else p1, o)
  }

  /** A peer as it is configured: no keys, no handshake. */
  function Fresh(keepalive: word16): Peer {
    Peer(ZEROED, ZEROED, ZEROED, Handshake(false, false, 0, 0), false, keepalive, false, 0, 0, 0)
  }

  // ---- inputs and runs ---------------------------------------------------------------------

  datatype Input =
    | OutputPacket(now: word32, mem: bool, sent: bool)
    | DataMessage(m: DataMsg, now: word32)
    | InitiationMessage(sender: word32, respond: Option<(word32, Key)>, now: word32)
    | ResponseMessage(receiver: word32, sender: word32, key: Option<Key>, now: word32, mem: bool, sent: bool)
    | Tick(now: word32, mem: bool, sent: bool, idx: Option<word32>, room: bool)
    | Connect
    | Disconnect

  function Step(p: Peer, i: Input): (r: (Peer, seq<Obs>)) {
    match i
    case OutputPacket(now, mem, sent) => Output(p, now, mem, sent)
    case DataMessage(m, now) => Data(p, m, now)
    case InitiationMessage(sender, respond, now) => ReceiveInitiation(p, sender, respond, now)
    case ResponseMessage(receiver, sender, key, now, mem, sent) =>
      ReceiveResponse(p, receiver, sender, key, now, mem, sent)
    case Tick(now, mem, sent, idx, room) => Timer(p, now, mem, sent, idx, room)
    case Connect => (p.(active := true), [])
    case Disconnect => (DestroyAll(p).(active := false), [])
  }

  /** What a run of inputs makes of a fresh peer, and everything it makes observable. */
  function Run(keepalive: word16, inputs: seq<Input>): (r: (Peer, seq<Obs>)) {
    if inputs == [] then (Fresh(keepalive), [])
    else
      var (p, tr) := Run(keepalive, inputs[..|inputs| - 1]);
      var (q, o) := Step(p, inputs[|inputs| - 1]);
      (q, tr + o)
  }
}
