/**
 * The sliding replay window of a keypair: a 32-bit bitmap below the highest
 * counter, against the set of every counter the session has accepted.
 */
module Replay {
  import opened Bytes
  import opened Bits
  import opened Words

  const WINDOW: nat := 32

  /** `counter` is one above the highest accepted packet counter, 0 when there is none. */
  datatype Window = Window(bitmap: word32, counter: word64)

  const FRESH: Window := Window(0, 0)

  /** Setting one of the 32 bits. */
  function SetBit(x: word32, k: nat): (r: word32)
    requires k < WINDOW
    ensures forall j: nat :: Bit(r, j) <==> j == k || Bit(x, j)
  {
    OrFits(x, k);
    Or(x, Pow2(k))
  }

  lemma OrFits(x: word32, k: nat)
    requires k < WINDOW
    ensures Or(x, Pow2(k)) < 0x1_0000_0000
    ensures forall j: nat :: Bit(Or(x, Pow2(k)), j) <==> j == k || Bit(x, j)
  {
    Pow2Values();
    Pow2Increases(k, 31);
    OrWidth(x, Pow2(k), 32);
    forall j: nat ensures Bit(Or(x, Pow2(k)), j) <==> j == k || Bit(x, j) {
      BitOfOr(x, Pow2(k), j);
      BitOfPow2(k, j);
    }
  }

  lemma {:induction false} Pow2Increases(a: nat, b: nat)
    requires a <= b
    ensures Pow2(a) <= Pow2(b)
    decreases b - a
  {
    if a < b { Pow2Increases(a + 1, b); }
  }

  function Trunc32(d: nat): word32 { d % 0x1_0000_0000 }

  /** The bitmap after the window moved up by `diff`, the new top marked. */
  function Slid(bitmap: word32, diff: nat): word32 { if diff < WINDOW then SetBit(Shl32(bitmap, diff), 0) else 1 }

  /** The check as coded: distances are truncated to 32 bits before they are compared. */
  function Check(w: Window, nonce: word64): (r: (Window, bool))
  {
    var s := (nonce + 1) % 0x1_0000_0000_0000_0000;
    if s == 0 then (w, false)
    else if s > w.counter then
      var diff := Trunc32(s - w.counter);
      (Window(Slid(w.bitmap, diff), s), true)
    else
      var diff := Trunc32(w.counter - s);
      if diff < WINDOW && !Bit(w.bitmap, diff) then (w.(bitmap := SetBit(w.bitmap, diff)), true) else (w, false)
  }

  // ---- the specification ----------------------------------------------------------

  /** One above the greatest element. */
  ghost predicate IsTop(seen: set<word64>, top: nat) {
    (forall c :: c in seen ==> c < top) && (seen != {} ==> top > 0 && top - 1 in seen) && (seen == {} ==> top == 0)
  }

  /** The bitmap says exactly which of the 32 counters below the top were accepted. */
  ghost predicate Represents(w: Window, seen: set<word64>) {
    && IsTop(seen, w.counter)
    && forall k: nat :: Bit(w.bitmap, k) <==> k < WINDOW && k < w.counter && w.counter - 1 - k in seen
  }

  /** Accepted: above everything seen, or within the window and not seen. */
  ghost predicate Acceptable(seen: set<word64>, top: nat, nonce: word64) {
    nonce >= top || (top - 1 - nonce < WINDOW && nonce !in seen)
  }

  /** The distance between the packet and the top of the window, before truncation. */
  function Distance(w: Window, nonce: word64): nat {
    if nonce + 1 > w.counter then nonce + 1 - w.counter else w.counter - (nonce + 1)
  }

  /** The truncated distance leads to the same branch as the real one. */
  predicate Undistorted(w: Window, nonce: word64) {
    nonce + 1 < 0x1_0000_0000_0000_0000 &&
    (Distance(w, nonce) < 0x1_0000_0000 || Trunc32(Distance(w, nonce)) >= WINDOW)
  }

  lemma FreshRepresentsNothing()
    ensures Represents(FRESH, {})
  {
    forall k: nat ensures !Bit(0, k) { BitOfZero(k); }
  }

  lemma BitOfShl32(x: word32, d: nat, k: nat)
    ensures Bit(Shl32(x, d), k) <==> k < 32 && k >= d && Bit(x, k - d)
  {
    Pow2Values();
    BitOfTruncation(x * Pow2(d), 32, k);
    BitOfShift(x, d, k);
  }

  /** Refinement, one packet: the verdict is the specified one and the window still represents the set. */
  lemma CheckRefines(w: Window, seen: set<word64>, nonce: word64)
    requires Represents(w, seen) && Undistorted(w, nonce)
    ensures Check(w, nonce).1 <==> Acceptable(seen, w.counter, nonce)
    ensures Represents(Check(w, nonce).0, if Check(w, nonce).1 then seen + {nonce} else seen)
  {
    hide Bit, Shl32, Trunc32;
    TruncNear(Distance(w, nonce));
    var s := nonce + 1;
    if s > w.counter {
      assert IsTop(seen + {nonce}, s);
      ForwardRefines(w, seen, nonce, Trunc32(s - w.counter));
    }
  }

  lemma TruncNear(d: nat)
    ensures d < 0x1_0000_0000 ==> Trunc32(d) == d
  {
  }

  /** Sliding the bitmap keeps exactly the counters still inside the window. */
  lemma ForwardRefines(w: Window, seen: set<word64>, nonce: word64, diff: nat)
    requires Represents(w, seen) && nonce >= w.counter
    requires diff == nonce + 1 - w.counter || (diff >= WINDOW && nonce + 1 - w.counter >= WINDOW)
    ensures forall k: nat :: Bit(Slid(w.bitmap, diff), k) <==>
        k < WINDOW && k < nonce + 1 && nonce - k in seen + {nonce}
  {
    hide Bit, Shl32;
    forall k: nat ensures Bit(Slid(w.bitmap, diff), k) <==> k < WINDOW && k < nonce + 1 && nonce - k in seen + {nonce} {
      if diff < WINDOW {
        BitOfShl32(w.bitmap, diff, k);
      } else {
        BitOfPow2(0, k);
        assert Pow2(0) == 1;
      }
    }
  }

  /** Whether a step gives the specified verdict and keeps the window faithful. */
  ghost predicate StepRight(w: Window, seen: set<word64>, nonce: word64) {
    && (Check(w, nonce).1 <==> Acceptable(seen, w.counter, nonce))
    && Represents(Check(w, nonce).0, if Check(w, nonce).1 then seen + {nonce} else seen)
  }

  /**
   * What happens otherwise. The last counter, 2^64 - 1, is always refused. Else, when truncation
   * turns a far-off packet into a near one, the step is still right if and only if nothing was
   * seen yet, or the bitmap is moved by nothing and holds the top alone, or the stale bit the
   * packet is confused with happens to be set.
   */
  lemma DistortedExactly(w: Window, seen: set<word64>, nonce: word64)
    requires Represents(w, seen) && !Undistorted(w, nonce)
    ensures StepRight(w, seen, nonce) <==>
            && nonce + 1 < 0x1_0000_0000_0000_0000
            && if nonce >= w.counter then w.counter == 0 || (Trunc32(Distance(w, nonce)) == 0 && w.bitmap == 1)
               else Bit(w.bitmap, Trunc32(Distance(w, nonce)))
  {
    hide Bit, Shl32, SetBit, Trunc32;
    TruncNear(Distance(w, nonce));
    if nonce + 1 == 0x1_0000_0000_0000_0000 {
      assert !Check(w, nonce).1;
    } else if nonce >= w.counter {
      ForwardDistorted(w, seen, nonce, Trunc32(Distance(w, nonce)));
    } else {
      assert !Acceptable(seen, w.counter, nonce);
    }
  }

  lemma ForwardDistorted(w: Window, seen: set<word64>, nonce: word64, k: nat)
    requires Represents(w, seen) && nonce + 1 < 0x1_0000_0000_0000_0000 && nonce >= w.counter
    requires nonce + 1 - w.counter >= 0x1_0000_0000 && k < WINDOW
    ensures Represents(Window(SetBit(Shl32(w.bitmap, k), 0), nonce + 1), seen + {nonce}) <==>
        w.counter == 0 || (k == 0 && w.bitmap == 1)
  {
    hide Bit, Shl32;
    var b := SetBit(Shl32(w.bitmap, k), 0);
    assert IsTop(seen + {nonce}, nonce + 1);
    forall j: nat ensures Bit(b, j) <==> j == 0 || (j < 32 && j >= k && Bit(w.bitmap, j - k)) {
      BitOfShl32(w.bitmap, k, j);
    }
    forall j: nat ensures Bit(1, j) <==> j == 0 {
      BitOfPow2(0, j);
      assert Pow2(0) == 1;
    }
    if Represents(Window(b, nonce + 1), seen + {nonce}) {
      assert forall j: nat :: Bit(b, j) ==> j == 0;
      if w.counter > 0 {
        assert Bit(w.bitmap, 0);
        assert Bit(b, k);
        forall j: nat ensures Bit(w.bitmap, j) <==> Bit(1, j) {
          assert Bit(w.bitmap, j) ==> Bit(b, j);
        }
        BitsDetermine(w.bitmap, 1);
      }
    }
  }

  // ---- whole sessions -------------------------------------------------------------

  /** The window after a sequence of packets, and which of them were accepted. */
  function CheckAll(nonces: seq<word64>): (r: (Window, seq<bool>))
    ensures |r.1| == |nonces|
  {
    if nonces == [] then (FRESH, [])
    else
      var before := CheckAll(nonces[..|nonces| - 1]);
      var last := Check(before.0, nonces[|nonces| - 1]);
      (last.0, before.1 + [last.1])
  }

  ghost predicate AllUndistorted(nonces: seq<word64>) {
    forall i {:trigger nonces[..i]} :: 0 <= i < |nonces| ==> Undistorted(CheckAll(nonces[..i]).0, nonces[i])
  }

  ghost function AcceptedBy(nonces: seq<word64>, n: nat): set<word64>
    requires n <= |nonces|
  {
    set i | 0 <= i < n && CheckAll(nonces).1[i] :: nonces[i]
  }

  lemma {:induction false} VerdictsStable(nonces: seq<word64>, n: nat)
    requires n <= |nonces|
    ensures CheckAll(nonces[..n]).1 == CheckAll(nonces).1[..n]
    decreases |nonces|
  {
    if n < |nonces| {
      var m := |nonces| - 1;
      VerdictsStable(nonces[..m], n);
      assert nonces[..m][..n] == nonces[..n];
    } else {
      assert nonces[..n] == nonces;
    }
  }

  /** Over a whole session the window represents exactly the accepted counters. */
  lemma {:induction false} SessionRefines(nonces: seq<word64>)
    requires AllUndistorted(nonces)
    ensures Represents(CheckAll(nonces).0, AcceptedBy(nonces, |nonces|))
  {
    hide Represents, Check, Undistorted;
    if nonces == [] {
      FreshRepresentsNothing();
      assert AcceptedBy(nonces, 0) == {};
    } else {
      var m := |nonces| - 1;
      var before, last := nonces[..m], nonces[m];
      forall i | 0 <= i < m ensures Undistorted(CheckAll(before[..i]).0, before[i]) {
        assert before[..i] == nonces[..i];
      }
      SessionRefines(before);
      CheckRefines(CheckAll(before).0, AcceptedBy(before, m), last);
      VerdictsStable(nonces, m);
      assert AcceptedBy(nonces, m + 1) ==
        if CheckAll(nonces).1[m] then AcceptedBy(before, m) + {last} else AcceptedBy(before, m);
    }
  }

  /** Each counter is accepted at most once, and exactly when it is new and not too old. */
  lemma SessionVerdicts(nonces: seq<word64>, j: nat)
    requires AllUndistorted(nonces) && j < |nonces|
    ensures var before := AcceptedBy(nonces, j);
            CheckAll(nonces).1[j] <==> exists top :: IsTop(before, top) && Acceptable(before, top, nonces[j])
    ensures CheckAll(nonces).1[j] ==> nonces[j] !in AcceptedBy(nonces, j)
  {
    hide Represents, Check, CheckAll, Undistorted, Acceptable, IsTop;
    var p := nonces[..j];
    forall i | 0 <= i < j ensures Undistorted(CheckAll(p[..i]).0, p[i]) {
      assert p[..i] == nonces[..i];
    }
    SessionRefines(p);
    VerdictsStable(nonces, j);
    assert AcceptedBy(p, j) == AcceptedBy(nonces, j);
    var w := CheckAll(p).0;
    CheckRefines(w, AcceptedBy(p, j), nonces[j]);
    VerdictAt(nonces, j);
    TopIs(w, AcceptedBy(p, j), nonces[j]);
  }

  lemma VerdictAt(nonces: seq<word64>, j: nat)
    requires j < |nonces|
    ensures CheckAll(nonces).1[j] == Check(CheckAll(nonces[..j]).0, nonces[j]).1
  {
    hide Check;
    VerdictsStable(nonces, j + 1);
    assert nonces[..j + 1][..j] == nonces[..j];
  }

  lemma TopIs(w: Window, seen: set<word64>, nonce: word64)
    requires Represents(w, seen)
    ensures Acceptable(seen, w.counter, nonce) <==> exists top :: IsTop(seen, top) && Acceptable(seen, top, nonce)
    ensures Acceptable(seen, w.counter, nonce) ==> nonce !in seen
  {
    hide Bit;
    assert IsTop(seen, w.counter);
    forall top | IsTop(seen, top) ensures top == w.counter {
    }
  }

  /** Without that hypothesis a replay gets through: 0, 100, 2^32 + 3, and then 0 again. */
  lemma FarJumpAdmitsReplay()
    ensures CheckAll([0, 100, 0x1_0000_0003, 0]).1 == [true, true, true, true]
  {
    hide Check, Bit, CheckAll;
    var n1: seq<word64>, n2: seq<word64>, n3: seq<word64> := [0], [0, 100], [0, 100, 0x1_0000_0003];
    assert [] + [0] == n1 && n1 + [100] == n2 && n2 + [0x1_0000_0003] == n3;
    assert n3 + [0] == [0, 100, 0x1_0000_0003, 0];
    CheckNothing();
    CheckSnoc([], 0);
    CheckFirst(0);
    CheckSnoc(n1, 100);
    CheckFarAhead(CheckAll(n1).0, 100);
    CheckSnoc(n2, 0x1_0000_0003);
    CheckFarAhead(CheckAll(n2).0, 0x1_0000_0003);
    CheckSnoc(n3, 0);
    CheckConfused();
  }

  lemma CheckFirst(nonce: word32)
    ensures Check(FRESH, nonce).1 && Check(FRESH, nonce).0.counter == nonce + 1
  {
    hide Bit, SetBit, Shl32;
  }

  lemma CheckFarAhead(w: Window, nonce: word64)
    requires 32 <= nonce + 1 - w.counter < 0x1_0000_0000 && nonce < 0x2_0000_0000
    ensures Check(w, nonce) == (Window(1, nonce + 1), true)
  {
    hide Bit, SetBit, Shl32;
  }

  lemma CheckConfused()
    ensures Check(Window(1, 0x1_0000_0004), 0).1
  {
    hide SetBit, Shl32, Bit, Pow2;
    Pow2Zero();
    BitOfPow2(0, 3);
    assert Trunc32(0x1_0000_0003) == 3;
  }

  lemma CheckNothing()
    ensures CheckAll([]) == (FRESH, [])
  {
  }

  lemma CheckSnoc(nonces: seq<word64>, x: word64)
    ensures CheckAll(nonces + [x]).0 == Check(CheckAll(nonces).0, x).0
    ensures CheckAll(nonces + [x]).1 == CheckAll(nonces).1 + [Check(CheckAll(nonces).0, x).1]
  {
    hide Check;
    assert (nonces + [x])[..|nonces|] == nonces;
  }
}
