/** Which saved networks to try in a cycle, and in what order. */
module WifiPick {
  import opened Bytes
  import opened Bits
  import opened Profiles

  const ACTIVE_BONUS: int := 10
  const RSSI_UNSEEN: int := -32768

  datatype Status = Untried | Connected | NoJoin | BadPass
  datatype Prof = Prof(rssi: int, status: Status)

  // ---- the order, declaratively ------------------------------------------------------------------------

  predicate Candidate(p: Prof) { p.rssi != RSSI_UNSEEN && p.status != BadPass }
  predicate Blind(p: Prof) { p.rssi == RSSI_UNSEEN && p.status != BadPass }

  function Score(st: seq<Prof>, active: nat, i: nat): int
    requires i < |st|
  {
    st[i].rssi + if i == active then ACTIVE_BONUS else 0
  }

  /** Stronger first; equal scores keep list order. */
  predicate Ahead(st: seq<Prof>, active: nat, a: nat, b: nat)
    requires a < |st| && b < |st|
  {
    Score(st, active, a) > Score(st, active, b) || (Score(st, active, a) == Score(st, active, b) && a < b)
  }

  /** Exactly the candidates among the first n profiles, each ahead of all that follow it. */
  ghost predicate Ranked(st: seq<Prof>, active: nat, n: nat, s: seq<nat>)
    requires n <= |st|
  {
    && (forall k :: 0 <= k < |s| ==> s[k] < n && Candidate(st[s[k]]))
    && (forall i :: 0 <= i < n && Candidate(st[i]) ==> i in s)
    && forall j, k :: 0 <= j < k < |s| ==> Ahead(st, active, s[j], s[k])
  }

  /** The profile k places on from where the rotation starts. */
  function Turn(count: nat, rr: nat, k: nat): (u: nat)
    requires count > 0
    ensures u < count
  {
    (rr + k) % count
  }

  /** How far the rotation goes from rr before it meets a blind profile; count if there is none. */
  function Search(st: seq<Prof>, count: nat, rr: nat, k: nat): (d: nat)
    requires k <= count <= |st|
    ensures k <= d <= count
    ensures forall j :: k <= j < d ==> !Blind(st[Turn(count, rr, j)])
    ensures d < count ==> Blind(st[Turn(count, rr, d)])
    decreases count - k
  {
    hide Turn, Blind;
    if k == count then count
    else if Blind(st[Turn(count, rr, k)]) then k
    else Search(st, count, rr, k + 1)
  }

  /** The one blind profile of this cycle. */
  function BlindPick(st: seq<Prof>, count: nat, rr: nat): Option<nat>
    requires count <= |st|
  {
    var d := Search(st, count, rr, 0);
    if d == count then None else Some(Turn(count, rr, d))
  }

  function Clipped(saved: nat): (c: nat)
    ensures c <= PROFILE_MAX
  {
    if saved > PROFILE_MAX then PROFILE_MAX else saved
  }

  /** A whole cycle: the candidates in rank order, then the cycle's blind profile if there is one. */
  ghost predicate CycleOrder(st: seq<Prof>, saved: nat, active: nat, rr: nat, s: seq<nat>)
    requires |st| == PROFILE_MAX
  {
    var b := BlindPick(st, Clipped(saved), rr);
    if b.None? then Ranked(st, active, Clipped(saved), s)
    else s != [] && Ranked(st, active, Clipped(saved), s[..|s| - 1]) && s[|s| - 1] == b.value
  }

  /** Every entry of a cycle names a saved profile that has not been rejected. */
  lemma CycleInRange(st: seq<Prof>, saved: nat, active: nat, rr: nat, s: seq<nat>)
    requires |st| == PROFILE_MAX && CycleOrder(st, saved, active, rr, s)
    ensures forall k :: 0 <= k < |s| ==> s[k] < Clipped(saved) && st[s[k]].status != BadPass
  {
    hide Search, Turn;
    var b := BlindPick(st, Clipped(saved), rr);
    if b.Some? {
      assert forall k :: 0 <= k < |s| - 1 ==> s[k] == s[..|s| - 1][k];
    }
  }

  // ---- the ranking is unique -----------------------------------------------------------------------------

  /** Two rankings of the same profiles are the same sequence, so `Ranked` says everything about the order. */
  lemma {:induction false} RankedUnique(st: seq<Prof>, active: nat, n: nat, s: seq<nat>, t: seq<nat>)
    requires n <= |st| && Ranked(st, active, n, s) && Ranked(st, active, n, t)
    ensures s == t
  {
    SameMembers(st, active, n, s, t);
    SameMembers(st, active, n, t, s);
    SameOrder(st, active, s, t);
  }

  lemma SameMembers(st: seq<Prof>, active: nat, n: nat, s: seq<nat>, t: seq<nat>)
    requires n <= |st| && Ranked(st, active, n, s) && Ranked(st, active, n, t)
    ensures forall x :: x in s ==> x in t
  {
  }

  /** Strictly ordered sequences with the same members agree from the front. */
  lemma {:induction false} SameOrder(st: seq<Prof>, active: nat, s: seq<nat>, t: seq<nat>)
    requires (forall k :: 0 <= k < |s| ==> s[k] < |st|) && (forall k :: 0 <= k < |t| ==> t[k] < |st|)
    requires forall j, k :: 0 <= j < k < |s| ==> Ahead(st, active, s[j], s[k])
    requires forall j, k :: 0 <= j < k < |t| ==> Ahead(st, active, t[j], t[k])
    requires forall x :: x in s <==> x in t
    ensures s == t
  {
    hide Ahead;
    if s == [] {
      assert forall k :: 0 <= k < |t| ==> t[k] in s;
    } else {
      assert s[0] in t && t != [];
      assert t[0] in s;
      var j :| 0 <= j < |t| && t[j] == s[0];
      var k :| 0 <= k < |s| && s[k] == t[0];
      SameFirst(st, active, s, t, j, k);
      forall x ensures x in s[1..] <==> x in t[1..] {
        TailMember(st, active, s, x);
        TailMember(st, active, t, x);
      }
      SameOrder(st, active, s[1..], t[1..]);
      assert s == [s[0]] + s[1..] && t == [t[0]] + t[1..];
    }
  }

  lemma SameFirst(st: seq<Prof>, active: nat, s: seq<nat>, t: seq<nat>, j: nat, k: nat)
    requires j < |t| && k < |s| && t[j] == s[0] && s[k] == t[0] && s[0] < |st| && t[0] < |st|
    requires (j > 0 ==> Ahead(st, active, t[0], t[j])) && (k > 0 ==> Ahead(st, active, s[0], s[k]))
    ensures s[0] == t[0]
  {
  }

  lemma TailMember(st: seq<Prof>, active: nat, s: seq<nat>, x: nat)
    requires s != [] && (forall k :: 0 <= k < |s| ==> s[k] < |st|)
    requires forall j, k :: 0 <= j < k < |s| ==> Ahead(st, active, s[j], s[k])
    ensures x in s[1..] <==> x in s && x != s[0]
  {
    if x in s[1..] {
      var k :| 0 <= k < |s| - 1 && s[1..][k] == x;
      assert Ahead(st, active, s[0], s[k + 1]);
    }
    if x in s && x != s[0] {
      var k :| 0 <= k < |s| && s[k] == x;
      assert s[1..][k - 1] == x;
    }
  }

  // ---- insertion --------------------------------------------------------------------------------------------

  /** Profile i goes before the entries it beats and behind the others. */
  lemma InsertRanked(st: seq<Prof>, active: nat, i: nat, s: seq<nat>, j: nat)
    requires i < |st| && Ranked(st, active, i, s) && Candidate(st[i]) && j <= |s|
    requires forall k :: 0 <= k < |s| ==> s[k] < |st|
    requires forall k :: j <= k < |s| ==> Score(st, active, s[k]) < Score(st, active, i)
    requires j > 0 ==> Score(st, active, s[j - 1]) >= Score(st, active, i)
    ensures Ranked(st, active, i + 1, s[..j] + [i] + s[j..])
  {
    hide Ahead, Score, Candidate;
    forall k | 0 <= k < j ensures Ahead(st, active, s[k], i) {
      AheadOf(st, active, s[k], s[j - 1], i);
    }
    forall k | j <= k < |s| ensures Ahead(st, active, i, s[k]) {
      Beats(st, active, i, s[k]);
    }
    InsertOrdered(st, active, i, s, j);
    InsertMembers(s, i, j);
    hide Ranked;
    RankedBy(st, active, i + 1, s[..j] + [i] + s[j..]);
  }

  lemma RankedBy(st: seq<Prof>, active: nat, n: nat, s: seq<nat>)
    requires n <= |st| && (forall x :: x in s ==> x < n && Candidate(st[x]))
    requires forall i :: 0 <= i < n && Candidate(st[i]) ==> i in s
    requires forall j, k :: 0 <= j < k < |s| ==> s[j] < |st| && s[k] < |st| && Ahead(st, active, s[j], s[k])
    ensures Ranked(st, active, n, s)
  {
    hide Ahead, Candidate;
    forall k | 0 <= k < |s| ensures s[k] < n && Candidate(st[s[k]]) {
      assert s[k] in s;
    }
  }

  lemma InsertMembers(s: seq<nat>, i: nat, j: nat)
    requires j <= |s|
    ensures forall x :: x in s[..j] + [i] + s[j..] <==> x == i || x in s
  {
    assert s == s[..j] + s[j..];
  }

  lemma Beats(st: seq<Prof>, active: nat, a: nat, b: nat)
    requires a < |st| && b < |st| && Score(st, active, b) < Score(st, active, a)
    ensures Ahead(st, active, a, b)
  {
  }

  lemma AheadOf(st: seq<Prof>, active: nat, a: nat, b: nat, i: nat)
    requires a < i < |st| && b < i && (a == b || Ahead(st, active, a, b))
    requires Score(st, active, b) >= Score(st, active, i)
    ensures Ahead(st, active, a, i)
  {
  }

  lemma InsertOrdered(st: seq<Prof>, active: nat, i: nat, s: seq<nat>, j: nat)
    requires i < |st| && j <= |s| && (forall k :: 0 <= k < |s| ==> s[k] < |st|)
    requires forall a, b :: 0 <= a < b < |s| ==> Ahead(st, active, s[a], s[b])
    requires forall k :: 0 <= k < j ==> Ahead(st, active, s[k], i)
    requires forall k :: j <= k < |s| ==> Ahead(st, active, i, s[k])
    ensures var t := s[..j] + [i] + s[j..];
            forall a, b :: 0 <= a < b < |t| ==> t[a] < |st| && t[b] < |st| && Ahead(st, active, t[a], t[b])
  {
    hide Ahead;
  }

  /** How many of the first n profiles are candidates. */
  function Candidates(st: seq<Prof>, n: nat): (c: nat)
    requires n <= |st|
    ensures c <= n
  {
    if n == 0 then 0 else Candidates(st, n - 1) + if Candidate(st[n - 1]) then 1 else 0
  }

  lemma {:induction false} RoomForBlind(st: seq<Prof>, n: nat, u: nat)
    requires u < n <= |st| && Blind(st[u])
    ensures Candidates(st, n) < n
  {
    if u < n - 1 {
      RoomForBlind(st, n - 1, u);
    }
  }

  // ---- the code ------------------------------------------------------------------------------------------------

  /** Move up the entries whose score is below v, and say where the gap is. */
  method ShiftUp(out: array<nat>, score: array<int>, n: nat, v: int) returns (j: nat)
    requires out.Length == score.Length == PROFILE_MAX && n < PROFILE_MAX
    modifies out, score
    ensures j <= n
    ensures forall k :: 0 <= k < j ==> out[k] == old(out[k]) && score[k] == old(score[k])
    ensures forall k :: j <= k < n ==> out[k + 1] == old(out[k]) && score[k + 1] == old(score[k]) && old(score[k]) < v
    ensures j > 0 ==> old(score[j - 1]) >= v
  {
    j := n;
    while j > 0 && score[j - 1] < v
      invariant 0 <= j <= n
      invariant forall k :: 0 <= k < j ==> out[k] == old(out[k]) && score[k] == old(score[k])
      invariant forall k :: j <= k < n ==>
        out[k + 1] == old(out[k]) && score[k + 1] == old(score[k]) && old(score[k]) < v
    {
      out[j] := out[j - 1];
      score[j] := score[j - 1];
      j := j - 1;
    }
  }

  /** Put entry i with its score behind everything that scores at least as much. */
  method PutRanked(out: array<nat>, score: array<int>, n: nat, i: nat, v: int) returns (ghost j: nat)
    requires out.Length == score.Length == PROFILE_MAX && n < PROFILE_MAX
    modifies out, score
    ensures var s, c := old(out[..n]), old(score[..n]);
            && j <= n
            && out[..n + 1] == s[..j] + [i] + s[j..] && score[..n + 1] == c[..j] + [v] + c[j..]
            && (forall k :: j <= k < n ==> c[k] < v) && (j > 0 ==> c[j - 1] >= v)
  {
    ghost var s, c := out[..n], score[..n];
    var gap := ShiftUp(out, score, n, v);
    out[gap] := i;
    score[gap] := v;
    j := gap;
    Spliced(s, out[..n + 1], j, i);
    Spliced(c, score[..n + 1], j, v);
  }

  lemma Spliced<T>(s: seq<T>, t: seq<T>, j: nat, x: T)
    requires |t| == |s| + 1 && j <= |s| && t[j] == x
    requires (forall k :: 0 <= k < j ==> t[k] == s[k]) && forall k :: j <= k < |s| ==> t[k + 1] == s[k]
    ensures t == s[..j] + [x] + s[j..]
  {
    var u := s[..j] + [x] + s[j..];
    forall k | 0 <= k < |t| ensures t[k] == u[k] {
      if k > j {
        assert u[k] == s[k - 1] == t[k - 1 + 1];
      }
    }
  }

  /** Each position of the score array belongs to the profile in the same position of the order. */
  ghost predicate Scored(st: seq<Prof>, active: nat, s: seq<nat>, c: seq<int>) {
    && |s| == |c| && (forall k :: 0 <= k < |s| ==> s[k] < |st|)
    && forall k :: 0 <= k < |s| ==> c[k] == Score(st, active, s[k])
  }

  lemma ScoredInsert(st: seq<Prof>, active: nat, s: seq<nat>, c: seq<int>, j: nat, i: nat)
    requires Scored(st, active, s, c) && j <= |s| && i < |st|
    ensures Scored(st, active, s[..j] + [i] + s[j..], c[..j] + [Score(st, active, i)] + c[j..])
  {
    hide Score;
  }

  lemma ScoredAt(st: seq<Prof>, active: nat, s: seq<nat>, c: seq<int>)
    requires Scored(st, active, s, c)
    ensures |s| == |c| && forall k :: 0 <= k < |s| ==> s[k] < |st|
    ensures forall k :: 0 <= k < |s| ==> c[k] == Score(st, active, s[k])
  {
  }

  /** Put profile i before the entries it beats. */
  method InsertInPlace(st: seq<Prof>, active: nat, i: nat, out: array<nat>, score: array<int>, n: nat)
    requires out.Length == score.Length == PROFILE_MAX && n < PROFILE_MAX && i < |st|
    requires Ranked(st, active, i, out[..n]) && Candidate(st[i])
    requires Scored(st, active, out[..n], score[..n])
    modifies out, score
    ensures Ranked(st, active, i + 1, out[..n + 1])
    ensures Scored(st, active, out[..n + 1], score[..n + 1])
  {
    hide Ranked, Score, Candidate, Scored, Ahead;
    ghost var s, c := out[..n], score[..n];
    ScoredAt(st, active, s, c);
    ghost var j := PutRanked(out, score, n, i, Score(st, active, i));
    ScoredInsert(st, active, s, c, j, i);
    InsertRanked(st, active, i, s, j);
  }

  /** The candidates in rank order. */
  method RankAll(st: seq<Prof>, active: nat, count: nat, out: array<nat>) returns (n: nat)
    requires count <= |st| == PROFILE_MAX == out.Length
    modifies out
    ensures n == Candidates(st, count) && Ranked(st, active, count, out[..n])
  {
    hide Ranked, Score, Scored, Candidate;
    n := 0;
    var score := new int[PROFILE_MAX];
    assert out[..0] == [] && score[..0] == [];
    RankedNone(st, active);
    var i := 0;
    while i < count
      invariant 0 <= i <= count && n == Candidates(st, i)
      invariant Ranked(st, active, i, out[..n])
      invariant Scored(st, active, out[..n], score[..n])
    {
      if Candidate(st[i]) {
        InsertInPlace(st, active, i, out, score, n);
        n := n + 1;
      } else {
        RankedSkip(st, active, i, out[..n]);
      }
      i := i + 1;
    }
  }

  /** The candidates in rank order, then the cycle's blind profile if there is one. */
  method Order(st: seq<Prof>, saved: nat, active: nat, rr: nat, out: array<nat>) returns (n: nat)
    requires |st| == PROFILE_MAX == out.Length
    modifies out
    ensures n <= PROFILE_MAX && CycleOrder(st, saved, active, rr, out[..n])
  {
    hide Ranked, Turn, Blind, Candidates;
    var count := Clipped(saved);
    n := RankAll(st, active, count, out);
    ghost var m, s := n, out[..n];
    var k := 0;
    while k < count
      invariant 0 <= k <= count && n == m && out[..n] == s
      invariant Search(st, count, rr, 0) == Search(st, count, rr, k)
    {
      var u := Turn(count, rr, k);
      if Blind(st[u]) {
        RoomForBlind(st, count, u);
        out[n] := u;
        n := n + 1;
        assert out[..n][..m] == s;
        return;
      }
      k := k + 1;
    }
  }

  lemma RankedNone(st: seq<Prof>, active: nat)
    ensures Ranked(st, active, 0, []) && Scored(st, active, [], [])
  {
  }

  lemma RankedSkip(st: seq<Prof>, active: nat, i: nat, s: seq<nat>)
    requires i < |st| && Ranked(st, active, i, s) && !Candidate(st[i])
    ensures Ranked(st, active, i + 1, s)
  {
  }

  // ---- fairness ----------------------------------------------------------------------------------------------------

  /** A rotation starting at a blind profile picks it. */
  lemma PickedAt(st: seq<Prof>, count: nat, rr: nat, u: nat)
    requires u < count <= |st| && Blind(st[u]) && Turn(count, rr, 0) == u
    ensures BlindPick(st, count, rr) == Some(u)
  {
    hide Turn, Blind;
  }

  /** With fixed states every blind profile is picked within count cycles that do not cross the wrap of the counter. */
  lemma EveryoneGetsATurn(st: seq<Prof>, count: nat, rr: nat, u: nat) returns (t: nat)
    requires u < count <= |st| && Blind(st[u])
    ensures t < count && BlindPick(st, count, rr + t) == Some(u)
  {
    hide Turn, Blind, BlindPick;
    t := Landing(rr, count, u);
    PickedAt(st, count, rr + t, u);
  }

  lemma Landing(rr: nat, count: nat, u: nat) returns (t: nat)
    requires u < count
    ensures t < count && Turn(count, rr + t, 0) == u
  {
    var q, r := rr / count, rr % count;
    assert rr == q * count + r;
    if r <= u {
      t := u - r;
      ModUnique(rr + t, count, q, u);
    } else {
      t := u + count - r;
      assert (q + 1) * count == q * count + count;
      ModUnique(rr + t, count, q + 1, u);
    }
  }

  /** The 8-bit counter t cycles after it was rr. */
  function Counter(rr: nat, t: nat): nat { (rr + t) % 256 }

  /** Whether profile u gets a turn within n cycles from counter rr on. */
  ghost predicate PickedWithin(st: seq<Prof>, count: nat, rr: nat, u: nat, n: nat)
    requires count <= |st|
  {
    exists t: nat :: t < n && BlindPick(st, count, Counter(rr, t)) == Some(u)
  }

  /** Every blind profile, whatever the states, gets a turn within count cycles. */
  ghost predicate Fair(count: nat, rr: nat)
    requires count <= PROFILE_MAX
  {
    forall st: seq<Prof>, u: nat :: |st| == PROFILE_MAX && u < count && Blind(st[u]) ==>
        PickedWithin(st, count, rr, u, count)
  }

  /** That holds exactly when those cycles do not cross the wrap, or the wrap does not disturb the rotation. */
  lemma TurnsExactly(count: nat, rr: nat)
    requires 0 < count <= PROFILE_MAX && rr < 256
    ensures Fair(count, rr) <==> rr + count <= 256 || 256 % count == 0
  {
    hide Blind, BlindPick, PickedWithin, Counter;
    if rr + count <= 256 || 256 % count == 0 {
      forall st: seq<Prof>, u: nat | |st| == PROFILE_MAX && u < count && Blind(st[u])
        ensures PickedWithin(st, count, rr, u, count) {
        TurnComes(st, count, rr, u);
      }
    } else {
      var st := seq(PROFILE_MAX, _ => Prof(RSSI_UNSEEN, Untried));
      var u := Missed(count, 256 - rr);
      MissedInRange(count, 256 - rr);
      TurnMissed(st, count, rr, u);
      assert Blind(st[u]) by { AllBlind(st, u); }
    }
  }

  lemma TurnComes(st: seq<Prof>, count: nat, rr: nat, u: nat)
    requires 0 < count <= PROFILE_MAX == |st| && rr < 256 && u < count && Blind(st[u])
    requires rr + count <= 256 || 256 % count == 0
    ensures PickedWithin(st, count, rr, u, count)
  {
    hide BlindPick, Blind, Turn;
    var t := Landing(rr, count, u);
    SameTurn(count, rr, t);
    PickedAt(st, count, Counter(rr, t), u);
  }

  lemma SameTurn(count: nat, rr: nat, t: nat)
    requires 0 < count <= PROFILE_MAX && rr < 256 && t < count && (rr + count <= 256 || 256 % count == 0)
    ensures Turn(count, Counter(rr, t), 0) == Turn(count, rr + t, 0)
  {
    if rr + t >= 256 {
      var x, q, r := rr + t - 256, (rr + t - 256) / count, (rr + t - 256) % count;
      var n := 256 / count;
      assert Counter(rr, t) == x && 256 == n * count && x == q * count + r;
      assert (n + q) * count == n * count + q * count;
      ModUnique(rr + t, count, n + q, r);
    }
  }

  /** The profile that loses its turn when the counter wraps after a more cycles. */
  function Missed(count: nat, a: nat): int
    requires count > 0
  {
    count - a + (if 256 % count < a then 256 % count else a) - 1
  }

  lemma MissedInRange(count: nat, a: nat)
    requires 0 < count <= PROFILE_MAX && 0 < a < count && 256 % count != 0
    ensures 0 <= Missed(count, a) < count
  {
  }

  lemma NeverReached(count: nat, rr: nat, t: nat)
    requires 0 < count <= PROFILE_MAX && rr < 256 < rr + count && t < count && 256 % count != 0
    ensures Turn(count, Counter(rr, t), 0) != Missed(count, 256 - rr)
  {
    if count == 3 {
      ReachThree(rr, t);
    } else if count == 5 {
      ReachFive(rr, t);
    } else if count == 6 {
      ReachSix(rr, t);
    } else if count == 7 {
      ReachSeven(rr, t);
    }
  }

  lemma ReachThree(rr: nat, t: nat)
    requires rr < 256 < rr + 3 && t < 3
    ensures Counter(rr, t) % 3 != Missed(3, 256 - rr)
  {
  }

  lemma ReachFive(rr: nat, t: nat)
    requires rr < 256 < rr + 5 && t < 5
    ensures Counter(rr, t) % 5 != Missed(5, 256 - rr)
  {
  }

  lemma ReachSix(rr: nat, t: nat)
    requires rr < 256 < rr + 6 && t < 6
    ensures Counter(rr, t) % 6 != Missed(6, 256 - rr)
  {
  }

  lemma ReachSeven(rr: nat, t: nat)
    requires rr < 256 < rr + 7 && t < 7
    ensures Counter(rr, t) % 7 != Missed(7, 256 - rr)
  {
  }

  lemma AllBlind(st: seq<Prof>, u: nat)
    requires u < |st| && st[u] == Prof(RSSI_UNSEEN, Untried)
    ensures Blind(st[u])
  {
  }

  /** With every profile blind, each cycle picks the one its counter points at. */
  lemma TurnMissed(st: seq<Prof>, count: nat, rr: nat, u: nat)
    requires 0 < count <= PROFILE_MAX == |st| && rr < 256 < rr + count
    requires 256 % count != 0 && u == Missed(count, 256 - rr)
    requires forall i :: 0 <= i < |st| ==> st[i] == Prof(RSSI_UNSEEN, Untried)
    ensures !PickedWithin(st, count, rr, u, count)
  {
    hide BlindPick, Blind, Turn, Missed, Counter;
    forall t: nat | t < count ensures BlindPick(st, count, Counter(rr, t)) != Some(u) {
      var x := Turn(count, Counter(rr, t), 0);
      AllBlind(st, x);
      PickedAt(st, count, Counter(rr, t), x);
      NeverReached(count, rr, t);
    }
  }

  /** For instance, of three blind profiles the middle one is passed over from counter 254 on. */
  lemma WrapSkipsATurn()
    ensures var st := seq(PROFILE_MAX, _ => Prof(RSSI_UNSEEN, Untried));
            BlindPick(st, 3, 254) == Some(2) && BlindPick(st, 3, 255) == Some(0) && BlindPick(st, 3, 0) == Some(0)
  {
    hide BlindPick;
    var st := seq(PROFILE_MAX, _ => Prof(RSSI_UNSEEN, Untried));
    PickedAt(st, 3, 254, 2);
    PickedAt(st, 3, 255, 0);
    PickedAt(st, 3, 0, 0);
  }

  /** Twice as many cycles are always enough. */
  lemma EveryoneGetsATurnAcrossWrap(st: seq<Prof>, count: nat, rr: nat, u: nat)
    requires u < count <= |st| == PROFILE_MAX && Blind(st[u]) && rr < 256
    ensures PickedWithin(st, count, rr, u, 2 * count)
  {
    hide BlindPick, Blind;
    if rr + count <= 256 {
      var t := EveryoneGetsATurn(st, count, rr, u);
      assert Counter(rr, t) == rr + t;
    } else {
      var t := EveryoneGetsATurn(st, count, 0, u);
      assert Counter(rr, 256 - rr + t) == 0 + t;
    }
  }
}
