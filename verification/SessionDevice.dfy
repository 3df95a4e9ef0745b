/** The session engine as it runs: keypair structs updated in place in their slots. */
module SessionDevice {
  import opened Bytes
  import opened Bits
  import opened Words
  import opened Replay
  import opened Session

  /** What the scan over the device's peers reports: each peer overwrites the previous verdict. */
  function ScanExisting(peers: seq<Peer>, idx: word32): bool {
    peers != [] && !IndexUnused(peers[|peers| - 1], idx)
  }

  /**
   * Draw indices until one is usable. `draws` is the stream of random words; `None` means it
   * ran out first. The scan keeps only the last peer's verdict.
   */
  method GenerateUniqueIndex(peers: seq<Peer>, draws: seq<word32>) returns (r: Option<word32>)
    ensures r.Some? ==> r.value in draws && r.value != 0 && r.value != 0xFFFF_FFFF && !ScanExisting(peers, r.value)
    ensures r.None? ==> forall x :: x in draws ==> x == 0 || x == 0xFFFF_FFFF || ScanExisting(peers, x)
    ensures r.Some? && |peers| == 1 ==> GoodIndex(peers[0], r.value)
  {
    var n := 0;
    while n < |draws|
      invariant 0 <= n <= |draws|
      invariant forall k :: 0 <= k < n ==> draws[k] == 0 || draws[k] == 0xFFFF_FFFF || ScanExisting(peers, draws[k])
    {
      var result := draws[n];
      if result != 0 && result != 0xFFFF_FFFF {
        var existing, x := false, 0;
        while x < |peers|
          invariant 0 <= x <= |peers|
          invariant existing == ScanExisting(peers[..x], result)
        {
          existing := !IndexUnused(peers[x], result);
          x := x + 1;
          assert peers[..x][x - 1] == peers[x - 1];
        }
        assert peers[..x] == peers;
        if !existing {
          return Some(result);
        }
      }
      n := n + 1;
    }
    r := None;
  }

  /** The scan is exact for the one peer this build has, and for no larger number of peers. */
  lemma ScanExactIff(n: nat)
    ensures n <= 1 <==> forall peers: seq<Peer>, idx: word32 :: |peers| == n ==>
        (ScanExisting(peers, idx) <==> exists p :: p in peers && !IndexUnused(p, idx))
  {
    if n >= 2 {
      var none := Fresh(0);
      var user := none.(curr := ZEROED.(localIndex := 5));
      var peers := seq(n, i => if i == 0 then user else none);
      assert user in peers by { assert peers[0] == user; }
      assert !ScanExisting(peers, 5) && |peers| == n && !IndexUnused(user, 5);
    }
  }

  class PeerDevice {
    var curr: Keypair
    var prev: Keypair
    var next: Keypair
    var hs: Handshake
    var active: bool
    var keepalive: word16
    var sendHandshake: bool
    var lastTx: word32
    var lastRx: word32
    var lastInitiationTx: word32
    ghost var trace: seq<Obs>

    function Snapshot(): Peer
      reads this
    {
      Peer(curr, prev, next, hs, active, keepalive, sendHandshake, lastTx, lastRx, lastInitiationTx)
    }

    ghost function Abs(): Peer
      reads this
    {
      Snapshot()
    }

    constructor (interval: word16)
      ensures Abs() == Fresh(interval) && trace == []
    {
      curr, prev, next, hs := ZEROED, ZEROED, ZEROED, Handshake(false, false, 0, 0);
      active, keepalive, sendHandshake := false, interval, false;
      lastTx, lastRx, lastInitiationTx := 0, 0, 0;
      trace := [];
    }

    function Get(s: Slot): Keypair
      reads this
    {
      match s case Curr => curr case Prev => prev case Next => next
    }

    method Set(s: Slot, k: Keypair)
      modifies this`curr, this`prev, this`next
      ensures Abs() == With(old(Abs()), s, k)
    {
      match s {
        case Curr => curr := k;
        case Prev => prev := k;
        case Next => next := k;
      }
    }

    method KeypairUpdateInPlace(received: Slot)
      modifies this`curr, this`prev, this`next
      ensures Abs() == KeypairUpdate(old(Abs()), received)
    {
      if received == Next {
        prev := curr;
        curr := next;
        next := ZEROED;
      }
    }

    method AddKeypair(k: Keypair)
      modifies this`curr, this`prev, this`next
      ensures Abs() == AddNewKeypair(old(Abs()), k)
    {
      if k.initiator {
        if next.valid {
          prev := next;
          next := ZEROED;
        } else {
          prev := curr;
        }
        curr := k;
      } else {
        next := k;
        prev := ZEROED;
      }
    }

    method StartSessionInPlace(initiator: bool, key: Key, now: word32)
      modifies this`curr, this`prev, this`next, this`hs, this`trace
      ensures var (q, o) := StartSession(old(Abs()), initiator, key, now); Abs() == q && trace == old(trace) + o
    {
      var k := ZEROED;
      k := k.(initiator := initiator, localIndex := hs.localIndex, remoteIndex := hs.remoteIndex);
      k := k.(millis := now, recvValid := true);
      k := k.(sendKey := key);
      k := k.(valid := true);
      hs := hs.(remoteIndex := 0, localIndex := 0, valid := false);
      AddKeypair(k);
      trace := trace + [Started(key, initiator)];
    }

    /** The replay window of the keypair in slot `s`, updated in place. */
    method CheckReplay(s: Slot, nonce: word64) returns (ok: bool)
      modifies this`curr, this`prev, this`next
      ensures var c := Check(At(old(Abs()), s).window, nonce);
              ok == c.1 && Abs() == With(old(Abs()), s, At(old(Abs()), s).(window := c.0))
    {
      hide SetBit, Shl32, Bit;
      var k := Get(s);
      var w := k.window;
      ok := false;
      var sq := (nonce + 1) % 0x1_0000_0000_0000_0000;
      if sq != 0 {
        if sq > w.counter {
          var diff := (sq - w.counter) % 0x1_0000_0000;
          if diff < WINDOW {
            w := w.(bitmap := Shl32(w.bitmap, diff));
            w := w.(bitmap := SetBit(w.bitmap, 0));
          } else {
            w := w.(bitmap := 1);
          }
          w := w.(counter := sq);
          ok := true;
        } else {
          var diff := (w.counter - sq) % 0x1_0000_0000;
          if diff < WINDOW {
            if !Bit(w.bitmap, diff) {
              w := w.(bitmap := SetBit(w.bitmap, diff));
              ok := true;
            }
          }
        }
      }
      Set(s, k.(window := w));
    }

    method OutputToPeer(now: word32, mem: bool, sent: bool)
      modifies this`curr, this`prev, this`next, this`lastTx, this`sendHandshake, this`trace
      ensures var (q, o) := Output(old(Abs()), now, mem, sent); Abs() == q && trace == old(trace) + o
    {
      hide Expired, Seal;
      var s := Curr;
      if curr.valid && !curr.initiator && curr.lastRx == 0 {
        s := Prev;
      }
      var k := Get(s);
      if k.valid && (k.initiator || k.lastRx != 0) {
        if !Expired(k.millis, REJECT_AFTER_TIME, now) && k.sendCounter < REJECT_AFTER_MESSAGES {
          if mem {
            EncryptAndSend(s, now, sent);
          }
        } else {
          Set(s, ZEROED);
        }
      }
    }

    /** Seal one packet under the keypair in slot `s`, bump its counter, and see whether to rekey. */
    method EncryptAndSend(s: Slot, now: word32, sent: bool)
      requires At(Abs(), s).sendCounter < REJECT_AFTER_MESSAGES
      modifies this`curr, this`prev, this`next, this`lastTx, this`sendHandshake, this`trace
      ensures Abs() == Seal(old(Abs()), s, now, sent)
      ensures trace == old(trace) + [Sealed(At(old(Abs()), s).sendKey, At(old(Abs()), s).sendCounter)]
    {
      hide NeedsRekey, Bumped;
      var k := Get(s);
      trace := trace + [Sealed(k.sendKey, k.sendCounter)];
      k := Bumped(k, now, sent);
      if sent {
        lastTx := now;
      }
      CheckRekey(k, now);
      Set(s, k);
    }

    method CheckRekey(k: Keypair, now: word32)
      modifies this`sendHandshake
      ensures sendHandshake == (old(sendHandshake) || NeedsRekey(k, now))
    {
      hide Expired;
      if k.sendCounter >= REKEY_AFTER_MESSAGES {
        sendHandshake := true;
      } else if k.initiator && Expired(k.millis, REKEY_AFTER_TIME, now) {
        sendHandshake := true;
      }
    }

    method ProcessData(m: DataMsg, now: word32)
      modifies this`curr, this`prev, this`next, this`lastRx, this`sendHandshake, this`trace
      ensures var (q, o) := Data(old(Abs()), m, now); Abs() == q && trace == old(trace) + o
    {
      hide Expired, Check, KeypairUpdate, Usable;
      ghost var p := Abs();
      var found := SlotForIndex(Snapshot(), m.receiver);
      if found.None? {
        return;
      }
      var s := found.value;
      var k := Get(s);
      if Usable(k, now) {
        if m.mem && m.authentic {
          trace := trace + [Authenticated(k.sendKey)];
          NoteReceived(s, now);
          if m.payload {
            var ok := CheckReplay(s, m.nonce);
            if ok {
              trace := trace + [Accepted(k.sendKey, m.nonce, s == Next)];
            }
          }
        }
      } else {
        Set(s, ZEROED);
      }
    }

    /** Stamp the keypair, promote it if it was parked, and see whether to rekey. */
    method NoteReceived(s: Slot, now: word32)
      modifies this`curr, this`prev, this`next, this`lastRx, this`sendHandshake
      ensures var p := old(Abs());
              var p1 := KeypairUpdate(With(p, s, At(p, s).(lastRx := now)).(lastRx := now), s);
              var age := REJECT_AFTER_TIME - p.keepalive - REKEY_TIMEOUT;
              var rekey := At(p1, s).initiator && Expired(At(p1, s).millis, age, now);
              Abs() == p1.(sendHandshake := p1.sendHandshake || rekey)
    {
      hide Expired, KeypairUpdate;
      var k := Get(s);
      Set(s, k.(lastRx := now));
      lastRx := now;
      KeypairUpdateInPlace(s);
      var k1 := Get(s);
      if k1.initiator && Expired(k1.millis, REJECT_AFTER_TIME - keepalive - REKEY_TIMEOUT, now) {
        sendHandshake := true;
      }
    }

    method DestroyExpired(now: word32)
      modifies this`curr, this`prev, this`next
      ensures Abs() == DestroyCurrent(ResetPeer(old(Abs()), now), now)
    {
      hide Expired;
      if curr.valid && Expired(curr.millis, REJECT_AFTER_TIME * 3, now) {
        next, curr, prev := ZEROED, ZEROED, ZEROED;
      }
      if curr.valid && (Expired(curr.millis, REJECT_AFTER_TIME, now) || curr.sendCounter >= REJECT_AFTER_MESSAGES) {
        curr := ZEROED;
      }
    }

    method TimerInPlace(now: word32, mem: bool, sent: bool, idx: Option<word32>, room: bool)
      modifies this
      ensures var (q, o) := Timer(old(Abs()), now, mem, sent, idx, room); Abs() == q && trace == old(trace) + o
    {
      hide Expired, Output, ShouldSendInitiation, ResetPeer, DestroyCurrent;
      DestroyExpired(now);
      if keepalive > 0 && (curr.valid || prev.valid) && Expired(lastTx, keepalive, now) {
        OutputToPeer(now, mem, sent);
      }
      var due := ShouldSendInitiation(Snapshot(), now);
      assert Abs() == TimerUpkeep(old(Abs()), now, mem, sent).0;
      if due {
        StartHandshake(idx, room, now);
      }
    }

    method StartHandshake(idx: Option<word32>, mem: bool, now: word32)
      modifies this`hs, this`sendHandshake, this`lastInitiationTx
      ensures Abs() == SendInitiation(old(Abs()), idx, mem, now)
    {
      if idx.Some? {
        hs := hs.(valid := true, initiator := true, localIndex := idx.value);
        if mem {
          sendHandshake := false;
          lastInitiationTx := now;
        }
      }
    }

    /** A valid initiation: note the sender and, if a response could be built, park the session. */
    method ProcessInitiation(sender: word32, respond: Option<(word32, Key)>, now: word32)
      modifies this`curr, this`prev, this`next, this`hs, this`trace
      ensures var (q, o) := ReceiveInitiation(old(Abs()), sender, respond, now); Abs() == q && trace == old(trace) + o
    {
      hs := hs.(valid := true, initiator := false, remoteIndex := sender);
      if respond.Some? {
        hs := hs.(localIndex := respond.value.0);
        StartSessionInPlace(false, respond.value.1, now);
      }
    }

    /** A response to the initiation in flight: start the session and send a keepalive under it. */
    method ProcessResponse(receiver: word32, sender: word32, key: Option<Key>, now: word32, mem: bool, sent: bool)
      modifies this`curr, this`prev, this`next, this`hs, this`lastTx, this`sendHandshake, this`trace
      ensures var (q, o) := ReceiveResponse(old(Abs()), receiver, sender, key, now, mem, sent);
              Abs() == q && trace == old(trace) + o
    {
      hide Output, StartSession;
      if hs.valid && hs.initiator && hs.localIndex == receiver && key.Some? {
        hs := hs.(remoteIndex := sender);
        StartSessionInPlace(true, key.value, now);
        OutputToPeer(now, mem, sent);
      }
    }

    method Disconnect()
      modifies this`curr, this`prev, this`next, this`active
      ensures Abs() == DestroyAll(old(Abs())).(active := false)
    {
      next, curr, prev := ZEROED, ZEROED, ZEROED;
      active := false;
    }

    /** One input, dispatched as the interface and the timer do. */
    method Handle(i: Input)
      modifies this
      ensures var (q, o) := Step(old(Abs()), i); Abs() == q && trace == old(trace) + o
    {
      hide Output, Data, ReceiveInitiation, ReceiveResponse, Timer;
      match i
      case OutputPacket(now, mem, sent) => OutputToPeer(now, mem, sent);
      case DataMessage(m, now) => ProcessData(m, now);
      case InitiationMessage(sender, respond, now) => ProcessInitiation(sender, respond, now);
      case ResponseMessage(receiver, sender, key, now, mem, sent) =>
        ProcessResponse(receiver, sender, key, now, mem, sent);
      case Tick(now, mem, sent, idx, room) => TimerInPlace(now, mem, sent, idx, room);
      case Connect => active := true;
      case Disconnect => Disconnect();
    }
  }

  /** The code run on any inputs reaches the state and the trace that the safety theorems are about. */
  method Drive(interval: word16, inputs: seq<Input>) returns (d: PeerDevice)
    ensures fresh(d) && (d.Abs(), d.trace) == Run(interval, inputs)
  {
    hide Step, Fresh;
    d := new PeerDevice(interval);
    for n := 0 to |inputs|
      invariant fresh(d) && (d.Abs(), d.trace) == Run(interval, inputs[..n])
    {
      d.Handle(inputs[n]);
      assert inputs[..n + 1][..n] == inputs[..n];
    }
    assert inputs[..|inputs|] == inputs;
  }
}
