/** The Wi-Fi connection manager: a timed state machine over the saved profiles and the radio. */
module WifiConn {
  import opened Bytes
  import opened Profiles
  import WifiPick

  const JOIN_TIMEOUT: nat := 12000
  const FAST_RETRIES: nat := 2
  const SCAN_PASSES: nat := 2
  const SCAN_FRESH: nat := 15000
  const BACKOFF_MIN: nat := 8000
  const BACKOFF_MAX: nat := 60000
  const BADPASS_RETRY: nat := 600000

  datatype Phase = Idle | Scan | Try | Wait | Up

  datatype LinkStatus = BadAuth | LinkFail | NoNet | Other

  /** A network in the scan table. */
  datatype Heard = Heard(ssid: seq<byte>, rssi: int)

  /** What the radio and the console answer during one call. */
  datatype Radio = Radio(
    link: bool, status: LinkStatus, consoleOwnsScan: bool, scanRunning: bool,
    scanAgainOk: bool, scanStartOk: bool, cycleScanOk: bool,
    accepts: seq<bool>, acceptsNext: seq<bool>, heard: seq<Heard>)

  predicate Answers(r: Radio) { |r.accepts| == |r.acceptsNext| == PROFILE_MAX }

  function Since(now: word32, start: word32): word32 { (now - start) % 0x1_0000_0000 }

  /** Signal of profile p: the last heard network whose first matching profile is p. */
  function SignalOf(items: seq<Profile>, heard: seq<Heard>, p: nat): int {
    if heard == [] then WifiPick.RSSI_UNSEEN
    else
      var e := heard[|heard| - 1];
      if FirstMatch(items, e.ssid) == p then e.rssi else SignalOf(items, heard[..|heard| - 1], p)
  }

  function FirstMatch(items: seq<Profile>, ssid: seq<byte>): (i: int)
    ensures -1 <= i < |items|
    ensures i >= 0 ==> items[i].ssid == ssid && forall j :: 0 <= j < i ==> items[j].ssid != ssid
    ensures i == -1 ==> forall j :: 0 <= j < |items| ==> items[j].ssid != ssid
  {
    if items == [] then -1
    else
      var n := |items| - 1;
      var i := FirstMatch(items[..n], ssid);
      if i >= 0 then i else if items[n].ssid == ssid then n else -1
  }

  /** Forgetting which profile was connected. */
  function Cleared(p: WifiPick.Prof): WifiPick.Prof {
    if p.status == WifiPick.Connected then p.(status := WifiPick.Untried) else p
  }

  function ClearedAll(s: seq<WifiPick.Prof>): (t: seq<WifiPick.Prof>)
    ensures |t| == |s|
  {
    seq(|s|, i requires 0 <= i < |s| => Cleared(s[i]))
  }

  function Decayed(p: WifiPick.Prof, age: nat): WifiPick.Prof {
    if p.status == WifiPick.BadPass && age >= BADPASS_RETRY then p.(status := WifiPick.Untried) else p
  }

  /** Once cleared, nothing is connected, in whatever order. */
  lemma NoneConnected(s: seq<WifiPick.Prof>, t: nat)
    requires t < |s|
    ensures forall i :: 0 <= i < |s| ==> Front(ClearedAll(s), t)[i].status != WifiPick.Connected
  {
    forall i | 0 <= i < |s| ensures Front(ClearedAll(s), t)[i].status != WifiPick.Connected {
      FrontAt(ClearedAll(s), t, i);
    }
  }

  function Doubled(b: nat): nat { if 2 * b > BACKOFF_MAX then BACKOFF_MAX else 2 * b }

  class Manager {
    const cfg: Config
    const prof: array<WifiPick.Prof>
    const badpassAt: array<word32>
    const order: array<nat>
    var phase: Phase
    var n: nat
    var ix: nat
    var trying: nat
    var rr: byte
    var fastTries: nat
    var attemptAt: word32
    var waitUntil: word32
    var backoff: nat
    var passesLeft: nat
    var scanDoneAt: word32
    var scanEver: bool
    var scanRequested: bool
    var lastTick: word32

    ghost predicate Shaped()
      reads this, cfg
    {
      && cfg.Valid() && prof.Length == badpassAt.Length == order.Length == PROFILE_MAX
      && trying < PROFILE_MAX && n <= PROFILE_MAX
      && BACKOFF_MIN <= backoff <= BACKOFF_MAX && passesLeft <= SCAN_PASSES
    }

    ghost predicate Indexed()
      requires Shaped()
      reads this, cfg, order
    {
      forall k :: 0 <= k < n ==> order[k] < PROFILE_MAX
    }

    /** Only the profile that came up is connected, and only while it is up. */
    ghost predicate Single()
      requires Shaped()
      reads this, cfg, prof
    {
      forall i :: 0 <= i < PROFILE_MAX && prof[i].status == WifiPick.Connected ==> phase == Up && i == trying
    }

    ghost predicate Phased()
      requires Shaped()
      reads this, cfg, order
    {
      && (phase == Scan ==> passesLeft > 0)
      && (phase == Try ==> ix < n && trying == order[ix])
    }

    ghost predicate Valid()
      reads this, cfg, prof, order
    {
      Shaped() && Indexed() && Single() && Phased()
    }

    /** Boot: the active profile at once if there is one, otherwise a cycle on the first tick. */
    constructor (c: Config, now: word32, accepts: seq<bool>)
      requires c.Valid() && |accepts| == PROFILE_MAX
      ensures Valid() && cfg == c && fresh(prof) && fresh(badpassAt) && fresh(order)
      ensures phase == Idle <==> c.count == 0 && c.active >= c.count
    {
      cfg := c;
      prof := new WifiPick.Prof[PROFILE_MAX](_ => WifiPick.Prof(WifiPick.RSSI_UNSEEN, WifiPick.Untried));
      badpassAt := new word32[PROFILE_MAX](_ => 0);
      order := new nat[PROFILE_MAX](_ => 0);
      phase, n, ix, trying, rr, fastTries := Idle, 0, 0, 0, 0, 0;
      attemptAt, waitUntil, backoff, passesLeft, scanDoneAt := 0, 0, BACKOFF_MIN, 0, 0;
      scanEver, scanRequested, lastTick := false, false, 0;
      new;
      if c.active < c.count {
        Pin(now, accepts);
      } else if c.count > 0 {
        phase, waitUntil := Wait, 0;
      }
    }

    /** Try exactly the active profile. */
    method Pin(now: word32, accepts: seq<bool>)
      requires Shaped() && |accepts| == PROFILE_MAX && cfg.active < cfg.count
      modifies this`n, this`ix, this`phase, this`trying, this`attemptAt, this`waitUntil, this`backoff, order
      ensures Shaped() && Indexed() && Phased() && (phase == Try || phase == Wait)
      ensures phase == Try ==> trying == cfg.active && backoff == old(backoff) && attemptAt == now
      ensures phase == Wait ==> backoff == Doubled(old(backoff)) && Waiting(now)
    {
      order[0] := cfg.active;
      n, ix := 1, 0;
      TryFrom(now, accepts);
    }

    /** No candidate could be started: wait, and wait longer next time. */
    method EnterWait(now: word32)
      requires Shaped()
      modifies this`phase, this`waitUntil, this`backoff
      ensures Shaped() && phase == Wait && backoff == Doubled(old(backoff))
      ensures waitUntil == (now + old(backoff)) % 0x1_0000_0000 && Waiting(now)
    {
      phase := Wait;
      waitUntil := (now + backoff) % 0x1_0000_0000;
      backoff := backoff * 2;
      if backoff > BACKOFF_MAX {
        backoff := BACKOFF_MAX;
      }
    }

    /** The next cycle is due later, by the signed comparison of the timer. */
    ghost predicate Waiting(now: word32)
      reads this
    {
      Since(now, waitUntil) >= 0x8000_0000
    }

    /** Start the first candidate the radio takes, from the current one on; wait if it takes none. */
    method TryFrom(now: word32, accepts: seq<bool>)
      requires Shaped() && Indexed() && |accepts| == PROFILE_MAX
      modifies this`phase, this`trying, this`attemptAt, this`ix, this`waitUntil, this`backoff
      ensures Shaped() && Indexed() && Phased() && (phase == Try || phase == Wait) && old(ix) <= ix
      ensures forall k :: old(ix) <= k < ix && k < n ==> !accepts[k]
      ensures phase == Try ==> ix < n && accepts[ix] && trying == order[ix]
      ensures phase == Try ==> attemptAt == now && backoff == old(backoff)
      ensures phase == Wait ==> ix >= n && trying == old(trying) && backoff == Doubled(old(backoff)) && Waiting(now)
    {
      hide Since;
      while ix < n
        invariant old(ix) <= ix && Shaped() && Indexed() && backoff == old(backoff) && trying == old(trying)
        invariant forall k :: old(ix) <= k < ix && k < n ==> !accepts[k]
        decreases n - ix
      {
        if accepts[ix] {
          trying := order[ix];
          attemptAt := now;
          phase := Try;
          return;
        }
        ix := ix + 1;
      }
      EnterWait(now);
    }

    /** Signals from the latest scan, statuses untouched. */
    method SnapshotRssi(heard: seq<Heard>)
      requires Shaped()
      modifies prof
      ensures forall i :: 0 <= i < PROFILE_MAX ==> prof[i] == old(prof[i]).(rssi := SignalOf(cfg.Items(), heard, i))
    {
      forall i | 0 <= i < PROFILE_MAX {
        prof[i] := prof[i].(rssi := WifiPick.RSSI_UNSEEN);
      }
      var j := 0;
      while j < |heard|
        invariant 0 <= j <= |heard|
        invariant forall i :: 0 <= i < PROFILE_MAX ==>
            prof[i] == old(prof[i]).(rssi := SignalOf(cfg.Items(), heard[..j], i))
      {
        var p := cfg.Find(heard[j].ssid);
        assert p == FirstMatch(cfg.Items(), heard[j].ssid);
        assert heard[..j + 1][..j] == heard[..j];
        if p >= 0 {
          prof[p] := prof[p].(rssi := heard[j].rssi);
        }
        j := j + 1;
      }
      assert heard[..|heard|] == heard;
    }

    method BuildAndTry(now: word32, accepts: seq<bool>)
      requires Shaped() && |accepts| == PROFILE_MAX
      modifies this`n, this`rr, this`ix, this`phase, this`trying, this`attemptAt, this`waitUntil, this`backoff, order
      ensures Shaped() && Indexed() && Phased() && (phase == Try || phase == Wait)
      ensures (phase == Try ==> attemptAt == now) && (phase == Wait ==> Waiting(now))
      ensures rr == (old(rr) + 1) % 256 && WifiPick.CycleOrder(prof[..], cfg.count, cfg.active, old(rr), order[..n])
    {
      hide WifiPick.CycleOrder;
      n := WifiPick.Order(prof[..], cfg.count, cfg.active, rr, order);
      WifiPick.CycleInRange(prof[..], cfg.count, cfg.active, rr, order[..n]);
      rr := (rr + 1) % 256;
      ix := 0;
      TryFrom(now, accepts);
    }

    /** A new cycle: reuse a fresh scan, start one, or wait. */
    method StartCycle(now: word32, scanOk: bool, accepts: seq<bool>, heard: seq<Heard>)
      requires Shaped() && Indexed() && |accepts| == PROFILE_MAX
      modifies this`n, this`rr, this`ix, this`phase, this`trying, this`attemptAt, this`waitUntil, this`backoff,
          this`passesLeft, order, prof
      ensures Shaped() && Indexed() && Phased() && phase != Up
      ensures forall i :: 0 <= i < PROFILE_MAX ==> prof[i].status == old(prof[i]).status
      ensures (cfg.count == 0 <==> phase == Idle) && (cfg.count == 0 ==> passesLeft == old(passesLeft))
      ensures (phase == Try ==> attemptAt == now) && (phase == Wait ==> Waiting(now))
      ensures var reuse := scanEver && Since(now, scanDoneAt) < SCAN_FRESH;
              && (cfg.count > 0 && reuse ==>
                    && passesLeft == old(passesLeft) && rr == (old(rr) + 1) % 256
                    && (forall i :: 0 <= i < PROFILE_MAX ==> prof[i].rssi == SignalOf(cfg.Items(), heard, i))
                    && WifiPick.CycleOrder(prof[..], cfg.count, cfg.active, old(rr), order[..n]))
              && (cfg.count > 0 && !reuse && scanOk ==>
                    phase == Scan && passesLeft == SCAN_PASSES && prof[..] == old(prof[..]) && rr == old(rr))
              && (cfg.count > 0 && !reuse && !scanOk ==>
                    phase == Wait && passesLeft == old(passesLeft) && prof[..] == old(prof[..]) && rr == old(rr))
    {
      hide Since, SignalOf, WifiPick.CycleOrder;
      if cfg.count == 0 {
        phase := Idle;
        return;
      }
      phase := Scan;
      if scanEver && Since(now, scanDoneAt) < SCAN_FRESH {
        SnapshotRssi(heard);
        BuildAndTry(now, accepts);
        return;
      }
      if scanOk {
        passesLeft := SCAN_PASSES;
      } else {
        EnterWait(now);
      }
    }

    method ClearConnected()
      requires prof.Length == PROFILE_MAX
      modifies prof
      ensures prof[..] == ClearedAll(old(prof[..]))
    {
      var i := 0;
      while i < PROFILE_MAX
        invariant 0 <= i <= PROFILE_MAX
        invariant forall k :: 0 <= k < i ==> prof[k] == Cleared(old(prof[k]))
        invariant forall k :: i <= k < PROFILE_MAX ==> prof[k] == old(prof[k])
      {
        if prof[i].status == WifiPick.Connected {
          prof[i] := prof[i].(status := WifiPick.Untried);
        }
        i := i + 1;
      }
    }

    /** Move slot t of both runtime arrays to the front. */
    method RotateStates(t: nat)
      requires prof.Length == badpassAt.Length == PROFILE_MAX && 0 < t < PROFILE_MAX
      modifies prof, badpassAt
      ensures prof[..] == Front(old(prof[..]), t) && badpassAt[..] == Front(old(badpassAt[..]), t)
    {
      var mp, mb := prof[t], badpassAt[t];
      forall k | 0 < k <= t {
        prof[k] := prof[k - 1];
      }
      forall k | 0 < k <= t {
        badpassAt[k] := badpassAt[k - 1];
      }
      prof[0], badpassAt[0] := mp, mb;
      FrontBy(old(prof[..]), prof[..], t);
      FrontBy(old(badpassAt[..]), badpassAt[..], t);
    }

    /** The joined profile to the front of the list, `active` on it, and the runtime arrays along with it. */
    method Reorder()
      requires Shaped() && trying < cfg.count
      modifies this`trying, prof, badpassAt, cfg`active, cfg.profiles
      ensures Shaped() && cfg.active == 0 && trying == 0
      ensures cfg.Items() == Front(old(cfg.Items()), old(trying))
      ensures prof[..] == Front(old(prof[..]), old(trying)) && badpassAt[..] == Front(old(badpassAt[..]), old(trying))
    {
      hide Front;
      cfg.active := trying;
      if trying > 0 {
        RotateStates(trying);
        var _ := cfg.Touch(trying);
        trying := 0;
      } else {
        FrontZero(prof[..]);
        FrontZero(badpassAt[..]);
        FrontZero(cfg.Items());
      }
    }

    /**
     * The link is up for `trying`: its profile moves to the front of the list, and both runtime
     * arrays move with the list, so every profile keeps its own status, signal and mark.
     */
    method Joined()
      requires Valid() && phase != Up
      modifies this`phase, this`fastTries, this`backoff, this`trying, prof, badpassAt, cfg, cfg.profiles
      ensures Valid() && phase == Up && cfg.count == old(cfg.count) && fastTries == FAST_RETRIES
      ensures old(trying < cfg.count) ==>
        && cfg.Items() == Front(old(cfg.Items()), old(trying)) && cfg.active == 0 && trying == 0
        && badpassAt[..] == Front(old(badpassAt[..]), old(trying))
        && (var p := Front(ClearedAll(old(prof[..])), old(trying));
            prof[..] == p[0 := p[0].(status := WifiPick.Connected)])
        && backoff == BACKOFF_MIN
      ensures old(trying >= cfg.count) ==>
        && cfg.Items() == old(cfg.Items()) && cfg.active == old(cfg.active)
        && prof[..] == old(prof[..]) && badpassAt[..] == old(badpassAt[..])
    {
      if trying >= cfg.count {
        phase, fastTries := Up, FAST_RETRIES;
        return;
      }
      hide Front, ClearedAll;
      NoneConnected(prof[..], trying);
      ClearConnected();
      Reorder();
      assert forall i :: 0 <= i < PROFILE_MAX ==> prof[i] == prof[..][i];
      prof[trying] := prof[trying].(status := WifiPick.Connected);
      phase, fastTries, backoff := Up, FAST_RETRIES, BACKOFF_MIN;
    }

    /** The list was edited or a profile chosen: forget statuses, try the active profile, or start over. */
    method Apply(now: word32, accepts: seq<bool>, heard: seq<Heard>)
      requires Valid() && |accepts| == PROFILE_MAX
      modifies this, prof, order
      ensures Valid() && (phase == Try || phase == Wait)
      ensures forall i :: 0 <= i < PROFILE_MAX ==>
          prof[i] == WifiPick.Prof(SignalOf(cfg.Items(), heard, i), WifiPick.Untried)
      ensures phase == Try ==> trying == cfg.active < cfg.count
    {
      forall i | 0 <= i < PROFILE_MAX {
        prof[i] := WifiPick.Prof(0, WifiPick.Untried);
      }
      SnapshotRssi(heard);
      backoff := BACKOFF_MIN;
      if cfg.active < cfg.count {
        Pin(now, accepts);
      } else {
        phase := Wait;
        waitUntil := now;
      }
    }

    /** A rejected password is forgiven after ten minutes. */
    method Decay(now: word32)
      requires Valid()
      modifies prof
      ensures Valid()
      ensures forall i :: 0 <= i < cfg.count ==> prof[i] == Decayed(old(prof[i]), Since(now, badpassAt[i]))
      ensures forall i :: cfg.count <= i < PROFILE_MAX ==> prof[i] == old(prof[i])
    {
      hide Since;
      var i := 0;
      while i < cfg.count
        invariant 0 <= i <= cfg.count && Valid()
        invariant forall k :: 0 <= k < i ==> prof[k] == Decayed(old(prof[k]), Since(now, badpassAt[k]))
        invariant forall k :: i <= k < PROFILE_MAX ==> prof[k] == old(prof[k])
      {
        if prof[i].status == WifiPick.BadPass && Since(now, badpassAt[i]) >= BADPASS_RETRY {
          prof[i] := prof[i].(status := WifiPick.Untried);
        }
        i := i + 1;
      }
    }

    /** How many passes are left after a scan step. */
    function PassesAfter(p: nat, asked: bool, r: Radio): nat {
      if p > 0 then (if r.scanRunning then p else if p > 1 && r.scanAgainOk then p - 1 else 0)
      else if asked && r.scanStartOk then SCAN_PASSES else 0
    }

    /** Statuses are untouched, and nothing comes up or goes down. */
    twostate predicate Quiet()
      requires prof.Length == PROFILE_MAX
      reads this, prof
    {
      && (forall i :: 0 <= i < PROFILE_MAX ==> prof[i].status == old(prof[i]).status)
      && (phase == Up <==> old(phase) == Up) && (phase == Idle <==> old(phase) == Idle) && fastTries == old(fastTries)
      && (phase == Up ==> trying == old(trying))
    }

    /** The last pass is over: take the signals, and use them if a cycle is waiting for them. */
    method FinishScan(now: word32, r: Radio)
      requires Shaped() && Indexed() && Single() && Answers(r) && passesLeft == 0 && (phase == Try ==> Phased())
      modifies this, prof, order
      ensures Valid() && Quiet() && lastTick == old(lastTick) && passesLeft == 0 && scanRequested == old(scanRequested)
      ensures scanEver && scanDoneAt == now
      ensures forall i :: 0 <= i < PROFILE_MAX ==> prof[i].rssi == SignalOf(cfg.Items(), r.heard, i)
      ensures if old(phase) == Scan
              then (phase == Try && attemptAt == now) || (phase == Wait && Waiting(now))
              else phase == old(phase) && attemptAt == old(attemptAt) && waitUntil == old(waitUntil)
    {
      hide SignalOf, WifiPick.CycleOrder;
      SnapshotRssi(r.heard);
      scanDoneAt := now;
      scanEver := true;
      if phase == Scan {
        BuildAndTry(now, r.accepts);
      }
    }

    /** Advance the scan in progress, or start one that was asked for. */
    method DriveScan(now: word32, r: Radio)
      requires Valid() && Answers(r)
      modifies this, prof, order
      ensures Valid() && Quiet() && lastTick == old(lastTick)
      ensures passesLeft == PassesAfter(old(passesLeft), old(scanRequested && phase != Try), r)
      ensures scanRequested == (old(scanRequested) && (old(passesLeft) > 0 || old(phase) == Try))
      ensures if old(passesLeft) > 0 && passesLeft == 0
              then scanEver && scanDoneAt == now
                   && (forall i :: 0 <= i < PROFILE_MAX ==> prof[i].rssi == SignalOf(cfg.Items(), r.heard, i))
              else scanEver == old(scanEver) && scanDoneAt == old(scanDoneAt) && prof[..] == old(prof[..])
      ensures if old(phase) == Scan && passesLeft == 0
              then (phase == Try && attemptAt == now) || (phase == Wait && Waiting(now))
              else attemptAt == old(attemptAt) && waitUntil == old(waitUntil)
                   && phase == if old(phase) == Wait && old(passesLeft) == 0 && passesLeft > 0 then Scan else old(phase)
    {
      hide SignalOf, Since;
      if passesLeft > 0 {
        if !r.scanRunning {
          passesLeft := passesLeft - 1;
          if passesLeft > 0 && !r.scanAgainOk {
            passesLeft := 0;
          }
          if passesLeft == 0 {
            FinishScan(now, r);
          }
        }
      } else if scanRequested && phase != Try {
        scanRequested := false;
        if r.scanStartOk {
          passesLeft := SCAN_PASSES;
          if phase == Wait {
            phase := Scan;
          }
        }
      }
    }

    /**
     * No deadline has been missed: a wait ends later, an attempt is still within its time, and idling means no
     * profiles.
     */
    ghost predicate Settled(now: word32)
      requires Shaped()
      reads this, cfg
    {
      && (phase == Wait ==> Waiting(now))
      && (phase == Try ==> Since(now, attemptAt) < JOIN_TIMEOUT)
      && (phase == Idle ==> cfg.count == 0)
    }

    lemma JustStarted(now: word32)
      ensures Since(now, now) == 0
    {
    }

    /** The link went away: rejoin the active profile twice, then fall back to a cycle. */
    method LinkLost(now: word32, r: Radio)
      requires Valid() && Answers(r) && phase == Up
      modifies this, prof, order
      ensures Valid() && phase != Up && lastTick == old(lastTick) && Settled(now)
      ensures passesLeft == old(passesLeft) || (passesLeft == SCAN_PASSES && phase == Scan)
      ensures forall i :: 0 <= i < PROFILE_MAX ==> prof[i].status == Cleared(old(prof[i])).status
      ensures old(fastTries) > 0 && cfg.active < cfg.count ==>
          fastTries == old(fastTries) - 1 && (phase == Try ==> trying == cfg.active)
    {
      hide Since;
      JustStarted(now);
      ClearConnected();
      ghost var p := prof[..];
      if fastTries > 0 && cfg.active < cfg.count {
        fastTries := fastTries - 1;
        Pin(now, r.acceptsNext);
      } else {
        StartCycle(now, r.cycleScanOk, r.acceptsNext, r.heard);
      }
      assert forall i :: 0 <= i < PROFILE_MAX ==> p[i] == Cleared(old(prof[..])[i]);
    }

    /** A join in progress fails: mark it and go on with the next candidate. */
    method AttemptFailed(now: word32, r: Radio)
      requires Valid() && Answers(r) && phase == Try
      modifies this, prof, badpassAt, order
      ensures Valid() && (phase == Try || phase == Wait) && lastTick == old(lastTick) && Settled(now)
      ensures passesLeft == old(passesLeft)
      ensures forall i :: 0 <= i < PROFILE_MAX && i != old(trying) ==> prof[i] == old(prof[i])
      ensures prof[old(trying)].status ==
        if r.status == BadAuth then WifiPick.BadPass
        else if r.status == LinkFail || r.status == NoNet then WifiPick.NoJoin
        else if Since(now, old(attemptAt)) >= JOIN_TIMEOUT then WifiPick.NoJoin
        else old(prof[trying].status)
      ensures r.status == BadAuth ==> badpassAt[old(trying)] == now
    {
      hide Since;
      JustStarted(now);
      if r.status == BadAuth {
        prof[trying] := prof[trying].(status := WifiPick.BadPass);
        badpassAt[trying] := now;
        ix := ix + 1;
        TryFrom(now, r.acceptsNext);
      } else if r.status == LinkFail || r.status == NoNet || Since(now, attemptAt) >= JOIN_TIMEOUT {
        prof[trying] := prof[trying].(status := WifiPick.NoJoin);
        ix := ix + 1;
        TryFrom(now, r.acceptsNext);
      }
    }

    /** What the phase asks for once the scan is looked after. */
    method Advance(now: word32, r: Radio)
      requires Valid() && Answers(r)
      modifies this, prof, badpassAt, order, cfg, cfg.profiles
      ensures Valid() && lastTick == old(lastTick) && Settled(now)
      ensures passesLeft == old(passesLeft) || (passesLeft == SCAN_PASSES && phase == Scan)
      ensures r.link && old(phase) != Idle ==> phase == Up
      ensures !r.link ==> phase != Up && cfg.Items() == old(cfg.Items()) && cfg.active == old(cfg.active)
      ensures !r.link && r.status != BadAuth ==>
        forall i :: 0 <= i < PROFILE_MAX && prof[i].status == WifiPick.BadPass ==>
            old(prof[i]).status == WifiPick.BadPass
    {
      hide Since;
      JustStarted(now);
      match phase
      case Up =>
        if !r.link {
          LinkLost(now, r);
        }
      case Try =>
        if r.link {
          Joined();
        } else {
          AttemptFailed(now, r);
        }
      case Scan =>
        if r.link {
          Joined();
        }
      case Wait =>
        if r.link {
          Joined();
        } else if Since(now, waitUntil) < 0x8000_0000 {
          StartCycle(now, r.cycleScanOk, r.acceptsNext, r.heard);
        }
      case Idle =>
        if cfg.count > 0 {
          StartCycle(now, r.cycleScanOk, r.acceptsNext, r.heard);
        }
    }

    /** One tick of the main loop, at most ten a second. */
    method Tick(now: word32, r: Radio)
      requires Valid() && Answers(r)
      modifies this, prof, badpassAt, order, cfg, cfg.profiles
      ensures Valid()
      ensures var due := Since(now, old(lastTick)) >= 100 && !r.consoleOwnsScan;
              && (due && r.link && old(phase) != Idle ==> phase == Up)
              && (due && !r.link ==> phase != Up)
              && (due ==> Settled(now))
              && (due ==> passesLeft == PassesAfter(old(passesLeft), old(scanRequested && phase != Try), r)
                          || (passesLeft == SCAN_PASSES && phase == Scan))
              && (!due ==> phase == old(phase) && passesLeft == old(passesLeft) && attemptAt == old(attemptAt)
                           && waitUntil == old(waitUntil))
      ensures lastTick == if Since(now, old(lastTick)) >= 100 then now else old(lastTick)
      ensures !r.link ==> cfg.Items() == old(cfg.Items()) && cfg.active == old(cfg.active)
      ensures !r.link && r.status != BadAuth ==>
        forall i :: 0 <= i < PROFILE_MAX && prof[i].status == WifiPick.BadPass ==>
            old(prof[i]).status == WifiPick.BadPass
    {
      hide Since;
      if Since(now, lastTick) < 100 {
        return;
      }
      lastTick := now;
      Decay(now);
      if r.consoleOwnsScan {
        return;
      }
      DriveScan(now, r);
      Advance(now, r);
    }
  }

  /** Anything that can happen to the manager. */
  datatype Event = Ticked(now: word32, r: Radio) | Applied(now: word32, r: Radio) | ScanAsked
                 | Added(ssid: seq<byte>) | Deleted(i: int) | Touched(i: int) | Selected(active: byte)

  /** In every run of ticks, edits and applies, whatever the radio answers, the manager's invariants hold throughout. */
  method Drive(m: Manager, es: seq<Event>)
    requires m.Valid()
    requires forall e :: e in es && (e.Ticked? || e.Applied?) ==> Answers(e.r)
    modifies m, m.prof, m.badpassAt, m.order, m.cfg, m.cfg.profiles
    ensures m.Valid()
  {
    for k := 0 to |es|
      invariant m.Valid()
    {
      var e := es[k];
      assert e in es;
      match e
      case Ticked(now, r) => m.Tick(now, r);
      case Applied(now, r) => m.Apply(now, r.accepts, r.heard);
      case ScanAsked => m.scanRequested := true;
      case Added(ssid) => var _ := m.cfg.Add(ssid);
      case Deleted(i) => m.cfg.Delete(i);
      case Touched(i) => var _ := m.cfg.Touch(i);
      case Selected(a) => m.cfg.active := a;
    }
  }
}
