/** The Wi-Fi scan table: the strongest report of at most 24 networks, over any number of passes. */
module WifiScan {
  import opened Bytes
  import opened Profiles

  const SCAN_MAX: nat := 24

  // ---- reports and entries -------------------------------------------------------------------------

  type NameBuffer = s: seq<byte> | |s| == SSID_MAX witness seq(SSID_MAX, _ => 0)

  /** What the radio reports: 32 octets of name and the octet after them, of which `len` count. */
  datatype Report = Report(raw: NameBuffer, len: byte, rssi: int, channel: word16, bssid: seq<byte>, auth: byte)

  function NameLen(r: Report): (n: nat)
    ensures n <= 32
  {
    if r.len > 32 then 32 else r.len
  }

  function Name(r: Report): (s: seq<byte>) { r.raw[..NameLen(r)] }

  /** The scan-complete marker and hidden networks carry no name. */
  predicate Hidden(r: Report) { r.len == 0 || r.raw[0] == 0 }

  /** The name holds no NUL, and the octet behind it is one; for a 32-octet name that lies outside the name field. */
  predicate Clean(r: Report) { 0 !in Name(r) && r.raw[NameLen(r)] == 0 }

  /** Clean, or with 32 octets that count and a NUL among them or behind them. */
  predicate Recognisable(r: Report) { if NameLen(r) == 32 then 0 in r.raw else Clean(r) }

  /** A slot of the table; the name buffer keeps stale octets behind its terminator. */
  datatype Entry = Entry(ssid: NameBuffer, rssi: int, channel: word16, bssid: seq<byte>, auth: byte)

  /** What a slot means: the name up to the first NUL. */
  datatype Kept = Kept(name: seq<byte>, rssi: int, channel: word16, bssid: seq<byte>, auth: byte)

  function Text(s: seq<byte>): seq<byte> { if s == [] || s[0] == 0 then [] else [s[0]] + Text(s[1..]) }

  function Meaning(e: Entry): Kept { Kept(Text(e.ssid), e.rssi, e.channel, e.bssid, e.auth) }

  function AsKept(r: Report): Kept { Kept(Text(Name(r)), r.rssi, r.channel, r.bssid, r.auth) }

  /** A buffer holding a terminated name. */
  predicate Stored(e: Entry) { 0 in e.ssid }

  lemma {:induction false} TextOf(name: seq<byte>, rest: seq<byte>)
    ensures Text(name + [0] + rest) == Text(name)
  {
    if name != [] && name[0] != 0 {
      assert (name + [0] + rest)[1..] == name[1..] + [0] + rest;
      TextOf(name[1..], rest);
    }
  }

  lemma {:induction false} TextWhole(s: seq<byte>)
    requires 0 !in s
    ensures Text(s) == s
  {
    if s != [] {
      TextWhole(s[1..]);
    }
  }

  lemma {:induction false} TextIsPrefix(s: seq<byte>)
    requires 0 in s
    ensures |Text(s)| < |s| && s[..|Text(s)|] == Text(s) && s[|Text(s)|] == 0 && 0 !in Text(s)
  {
    if s[0] != 0 {
      TextIsPrefix(s[1..]);
    }
  }

  /** A NUL ends the text there or before. */
  lemma {:induction false} TextEnds(s: seq<byte>, n: nat)
    requires n < |s| && s[n] == 0
    ensures |Text(s)| <= n
  {
    if s[0] != 0 {
      TextEnds(s[1..], n - 1);
    }
  }

  /** Without a NUL up to and including n the text goes on past n. */
  lemma {:induction false} TextGoesOn(s: seq<byte>, n: nat)
    requires n < |s| && 0 !in s[..n] && s[n] != 0
    ensures |Text(s)| > n
  {
    if n > 0 {
      assert s[..n][0] == s[0] && s[1..][..n - 1] == s[..n][1..];
      TextGoesOn(s[1..], n - 1);
    }
  }

  /** The text of a string is decided by the octets up to its first NUL. */
  lemma TextFrom(s: seq<byte>, name: seq<byte>)
    requires |name| < |s| && s[..|name|] == name && 0 !in name && s[|name|] == 0
    ensures Text(s) == name
  {
    assert s == name + [0] + s[|name| + 1..];
    TextOf(name, s[|name| + 1..]);
    TextWhole(name);
  }

  // ---- comparison ----------------------------------------------------------------------------------------

  /** strncmp(a, b, n) == 0 */
  predicate SameString(a: seq<byte>, b: seq<byte>, n: nat)
    requires n <= |a| && n <= |b|
  {
    n == 0 || (a[0] == b[0] && (a[0] == 0 || SameString(a[1..], b[1..], n - 1)))
  }

  lemma {:induction false} SameStringIff(a: seq<byte>, b: seq<byte>, n: nat, t: nat)
    requires n <= |a| && n <= |b| && t < n && a[t] == 0 && 0 !in a[..t]
    ensures SameString(a, b, n) <==> a[..t + 1] == b[..t + 1]
    decreases t
  {
    if t > 0 {
      var a', b' := a[1..], b[1..];
      assert a[..t] == [a[0]] + a'[..t - 1];
      SameStringIff(a', b', n - 1, t - 1);
      assert a[..t + 1] == [a[0]] + a'[..t] && b[..t + 1] == [b[0]] + b'[..t];
    } else {
      assert a[..1] == [a[0]] && b[..1] == [b[0]];
    }
  }

  predicate Matches(e: Entry, r: Report) {
    SameString(e.ssid, r.raw, SSID_MAX) && e.ssid[NameLen(r)] == 0
  }

  /** The comparison, for every report: same terminated text, and a NUL in the entry where the report's name ends. */
  lemma MatchesExactly(e: Entry, r: Report)
    requires Stored(e)
    ensures Matches(e, r) <==> 0 in r.raw && Text(e.ssid) == Text(r.raw) && e.ssid[NameLen(r)] == 0
  {
    TextIsPrefix(e.ssid);
    var a, b, t := e.ssid, r.raw, |Text(e.ssid)|;
    SameStringIff(a, b, SSID_MAX, t);
    if a[..t + 1] == b[..t + 1] {
      assert b[..t] == b[..t + 1][..t] == a[..t + 1][..t] == a[..t];
      assert b[t] == b[..t + 1][t] == 0;
      TextFrom(b, a[..t]);
    }
    if 0 in b && Text(a) == Text(b) {
      TextIsPrefix(b);
      assert a[..t + 1] == a[..t] + [0] && b[..t + 1] == b[..t] + [0];
    }
  }

  /** A name without NUL is recognised exactly when it is the same and the octet behind it in the report is NUL. */
  lemma NameMatchesExactly(e: Entry, r: Report)
    requires Stored(e) && 0 !in Name(r)
    ensures Matches(e, r) <==> Text(e.ssid) == Name(r) && r.raw[NameLen(r)] == 0
  {
    hide SameString;
    MatchesExactly(e, r);
    TextIsPrefix(e.ssid);
    var b, n := r.raw, NameLen(r);
    if b[n] == 0 {
      TextFrom(b, Name(r));
    } else if Matches(e, r) {
      TextIsPrefix(b);
      EndsBefore(e.ssid, b, n);
    }
  }

  /** A NUL at n in a buffer ends its text at n or before; one that reads further differs. */
  lemma EndsBefore(a: NameBuffer, b: NameBuffer, n: nat)
    requires n < SSID_MAX && 0 in a && 0 in b && a[n] == 0 && 0 !in b[..n] && b[n] != 0
    ensures Text(a) != Text(b)
  {
    TextEnds(a, n);
    TextGoesOn(b, n);
  }

  // ---- the table on values ---------------------------------------------------------------------------------

  function Find(t: seq<Kept>, name: seq<byte>): (i: nat)
    ensures i <= |t| && (i < |t| ==> t[i].name == name) && forall j :: 0 <= j < i ==> t[j].name != name
  {
    if t == [] then 0 else if t[0].name == name then 0 else
      var i := 1 + Find(t[1..], name);
      assert forall j :: 1 <= j < i ==> t[j] == t[1..][j - 1];
      i
  }

  /** The first of the entries nothing is weaker than. */
  function Weakest(t: seq<Kept>): (w: nat)
    requires t != []
    ensures w < |t| && (forall j :: 0 <= j < |t| ==> t[w].rssi <= t[j].rssi)
    ensures forall j :: 0 <= j < w ==> t[w].rssi < t[j].rssi
  {
    if |t| == 1 then 0 else
      var w := Weakest(t[..|t| - 1]);
      if t[|t| - 1].rssi < t[w].rssi then |t| - 1 else w
  }

  /** A name not recognised: appended, or in place of the weakest entry if it beats it. */
  function Insert(t: seq<Kept>, k: Kept): (u: seq<Kept>)
    requires |t| <= SCAN_MAX
    ensures |u| <= SCAN_MAX
  {
    if |t| < SCAN_MAX then t + [k]
    else
      var w := Weakest(t);
      if k.rssi > t[w].rssi then t[w := k] else t
  }

  /** One report taken as entry i of the table, or as a new network when i is past its end. */
  function Step(t: seq<Kept>, k: Kept, i: nat): (u: seq<Kept>)
    requires |t| <= SCAN_MAX && i <= |t|
    ensures |u| <= SCAN_MAX
  {
    if i < |t| then (if k.rssi > t[i].rssi then t[i := k] else t) else Insert(t, k)
  }

  // ---- what the table means --------------------------------------------------------------------------------

  ghost predicate Distinct(t: seq<Kept>) { forall i, j :: 0 <= i < j < |t| ==> t[i].name != t[j].name }

  ghost predicate Present(t: seq<Kept>, name: seq<byte>) { exists i :: 0 <= i < |t| && t[i].name == name }

  /** Distinct names; each entry the strongest report of its name; nothing left out was ever stronger than an entry. */
  ghost predicate Faithful(t: seq<Kept>, seen: seq<Kept>) {
    && |t| <= SCAN_MAX && Distinct(t)
    && (forall i :: 0 <= i < |t| ==> t[i] in seen)
    && (forall i, k :: 0 <= i < |t| && k in seen && k.name == t[i].name ==> k.rssi <= t[i].rssi)
    && (forall i, k :: k in seen && !Present(t, k.name) && 0 <= i < |t| ==> k.rssi <= t[i].rssi)
    && (forall k :: k in seen && !Present(t, k.name) ==> |t| == SCAN_MAX)
  }

  lemma FindPresent(t: seq<Kept>, name: seq<byte>)
    ensures Present(t, name) <==> Find(t, name) < |t|
  {
  }

  lemma Bounded(t: seq<Kept>, seen: seq<Kept>)
    requires Faithful(t, seen)
    ensures |t| <= SCAN_MAX
  {
  }

  /**
   * Whether recognising a report as entry i of the table, or as none of them, is right: it is the
   * entry of that name, or else the table is full and the report is either too weak to enter or
   * displaces its own entry.
   */
  predicate Proper(t: seq<Kept>, k: Kept, i: nat)
    requires |t| <= SCAN_MAX
  {
    var n := Find(t, k.name);
    i == n || (n < |t| == SCAN_MAX && i == |t| && (k.rssi <= t[Weakest(t)].rssi || Weakest(t) == n))
  }

  /** One report keeps the meaning of the table exactly when it is recognised properly. */
  lemma StepFaithful(t: seq<Kept>, seen: seq<Kept>, k: Kept, i: nat)
    requires Faithful(t, seen) && i <= |t| && (i < |t| ==> t[i].name == k.name)
    ensures |t| <= SCAN_MAX && (Faithful(Step(t, k, i), seen + [k]) <==> Proper(t, k, i))
  {
    hide Faithful, Present, Find, Weakest;
    assert |t| <= SCAN_MAX by { Bounded(t, seen); }
    FindPresent(t, k.name);
    var n := Find(t, k.name);
    if n < |t| {
      OneOfAName(t, seen, n, i);
      if i < |t| {
        StepKnown(t, seen, k, n);
      } else {
        StepUnrecognised(t, seen, k, n);
      }
    } else if |t| < SCAN_MAX {
      StepRoom(t, seen, k);
    } else {
      StepFull(t, seen, k, Weakest(t));
    }
  }

  lemma OneOfAName(t: seq<Kept>, seen: seq<Kept>, n: nat, i: nat)
    requires Faithful(t, seen) && n < |t|
    ensures i < |t| && t[i].name == t[n].name ==> i == n
  {
    hide Present;
  }

  /** A known name that is not recognised is entered a second time, but for the two exceptions. */
  lemma StepUnrecognised(t: seq<Kept>, seen: seq<Kept>, k: Kept, n: nat)
    requires Faithful(t, seen) && |t| <= SCAN_MAX && n < |t| && t[n].name == k.name
    ensures Faithful(Insert(t, k), seen + [k]) <==>
            |t| == SCAN_MAX && (k.rssi <= t[Weakest(t)].rssi || Weakest(t) == n)
  {
    hide Present, Weakest;
    var u := Insert(t, k);
    if |t| < SCAN_MAX {
      assert u[n].name == u[|t|].name;
    } else {
      var w := Weakest(t);
      if k.rssi <= t[w].rssi || w == n {
        StepKnown(t, seen, k, n);
      } else {
        assert u[w].name == u[n].name;
      }
    }
  }

  lemma StepKnown(t: seq<Kept>, seen: seq<Kept>, k: Kept, i: nat)
    requires Faithful(t, seen) && i < |t| && t[i].name == k.name
    ensures Faithful(if k.rssi > t[i].rssi then t[i := k] else t, seen + [k])
  {
    hide Present;
    var u := if k.rssi > t[i].rssi then t[i := k] else t;
    SameNames(t, u);
    assert forall j :: 0 <= j < |u| ==> t[j].rssi <= u[j].rssi;
    assert forall j :: 0 <= j < |u| && u[j].name == k.name ==> j == i;
    assert Present(t, k.name) by { Witness(t, i); }
  }

  lemma Witness(t: seq<Kept>, i: nat)
    requires i < |t|
    ensures Present(t, t[i].name)
  {
  }

  lemma SameNames(t: seq<Kept>, u: seq<Kept>)
    requires |t| == |u| && forall j :: 0 <= j < |t| ==> t[j].name == u[j].name
    ensures forall name :: Present(u, name) == Present(t, name)
  {
    forall name ensures Present(u, name) == Present(t, name) {
      if j :| 0 <= j < |t| && t[j].name == name { assert u[j].name == name; }
      if j :| 0 <= j < |u| && u[j].name == name { assert t[j].name == name; }
    }
  }

  lemma StepRoom(t: seq<Kept>, seen: seq<Kept>, k: Kept)
    requires Faithful(t, seen) && |t| < SCAN_MAX && !Present(t, k.name)
    ensures Faithful(t + [k], seen + [k])
  {
    var u := t + [k];
    forall j | j in seen ensures Present(u, j.name) && Present(t, j.name) {
      var n :| 0 <= n < |t| && t[n].name == j.name;
      assert u[n].name == j.name;
    }
    assert u[|t|].name == k.name;
  }

  lemma StepFull(t: seq<Kept>, seen: seq<Kept>, k: Kept, w: nat)
    requires Faithful(t, seen) && |t| == SCAN_MAX && !Present(t, k.name) && w < |t|
    requires forall j :: 0 <= j < |t| ==> t[w].rssi <= t[j].rssi
    ensures Faithful(if k.rssi > t[w].rssi then t[w := k] else t, seen + [k])
  {
    hide Present;
    var u := t[w := k];
    Displaced(t, k, w);
    forall i | 0 <= i < |t| ensures t[i].name != k.name { Witness(t, i); }
    assert forall j :: j in seen && j.name == t[w].name ==> j.rssi <= t[w].rssi;
    assert forall j :: j in seen && j.name == k.name ==> j.rssi <= t[w].rssi;
  }

  lemma Displaced(t: seq<Kept>, k: Kept, w: nat)
    requires w < |t|
    ensures Present(t[w := k], k.name)
    ensures forall name :: Present(t, name) && name != t[w].name ==> Present(t[w := k], name)
  {
    var u := t[w := k];
    assert u[w].name == k.name;
    forall name | Present(t, name) && name != t[w].name ensures Present(u, name) {
      var n :| 0 <= n < |t| && t[n].name == name;
      assert u[n].name == name;
    }
  }

  // ---- the table as stored --------------------------------------------------------------------------------

  /** All slots, of which the first `count` are in use; the others hold stale entries. */
  datatype Scan = Scan(slots: seq<Entry>, count: nat)

  ghost predicate ScanOk(s: Scan) {
    |s.slots| == SCAN_MAX && s.count <= SCAN_MAX && forall i :: 0 <= i < s.count ==> Stored(s.slots[i])
  }

  function Meanings(s: seq<Entry>): (t: seq<Kept>)
    ensures |t| == |s|
  {
    seq(|s|, i requires 0 <= i < |s| => Meaning(s[i]))
  }

  ghost function Contents(s: Scan): (t: seq<Kept>)
    requires ScanOk(s)
    ensures |t| == s.count
  {
    Meanings(s.slots[..s.count])
  }

  /** The first entry the comparison takes the report for. */
  function Recognised(es: seq<Entry>, r: Report): (i: nat)
    ensures i <= |es| && (i < |es| ==> Matches(es[i], r)) && forall j :: 0 <= j < i ==> !Matches(es[j], r)
  {
    if es == [] then 0
    else
      var i := Recognised(es[..|es| - 1], r);
      if i < |es| - 1 || Matches(es[|es| - 1], r) then i else |es|
  }

  /** Overwrites the name up to its terminator and everything else. */
  function Fill(e: Entry, r: Report): (f: Entry)
    ensures Stored(f) && Meaning(f) == AsKept(r)
  {
    var n := NameLen(r);
    var rest := e.ssid[n + 1..];
    TextOf(Name(r), rest);
    var s := Name(r) + [0] + rest;
    assert s[n] == 0;
    Entry(s, r.rssi, r.channel, r.bssid, r.auth)
  }

  /** The scan callback on the stored table. */
  function Receive(s: Scan, r: Report): (q: Scan)
    requires |s.slots| == SCAN_MAX && s.count <= SCAN_MAX
    ensures |q.slots| == SCAN_MAX && q.count <= SCAN_MAX
  {
    var i := Recognised(s.slots[..s.count], r);
    if Hidden(r) then s
    else if i < s.count then (if r.rssi > s.slots[i].rssi then s.(slots := s.slots[i := Fill(s.slots[i], r)]) else s)
    else if s.count < SCAN_MAX then Scan(s.slots[s.count := Fill(s.slots[s.count], r)], s.count + 1)
    else
      var w := Weakest(Meanings(s.slots));
      if r.rssi > s.slots[w].rssi then s.(slots := s.slots[w := Fill(s.slots[w], r)]) else s
  }

  /** The entry a visible report is taken for. */
  function Index(s: Scan, r: Report): (i: nat)
    requires |s.slots| == SCAN_MAX && s.count <= SCAN_MAX
    ensures i <= s.count
  {
    Recognised(s.slots[..s.count], r)
  }

  /** On meanings, the callback is a step at the entry that was recognised, which always has that name. */
  lemma ReceiveMeans(s: Scan, r: Report)
    requires ScanOk(s) && !Hidden(r)
    ensures ScanOk(Receive(s, r)) && Contents(Receive(s, r)) == Step(Contents(s), AsKept(r), Index(s, r))
    ensures Index(s, r) < s.count ==> Contents(s)[Index(s, r)].name == AsKept(r).name
  {
    hide Fill, Meaning, Matches, Recognised, Weakest, Hidden, AsKept;
    var i, t, q := Index(s, r), Contents(s), Receive(s, r);
    assert s.count == SCAN_MAX ==> s.slots[..s.count] == s.slots;
    assert forall j :: 0 <= j < s.count ==> t[j].rssi == s.slots[j].rssi by { SameRssi(s.slots[..s.count]); }
    if i < s.count {
      RecognisedName(s.slots[i], r);
      assert t[i].name == Text(s.slots[i].ssid) && AsKept(r).name == Text(Name(r)) by { MeaningNames(s.slots[i], r); }
    }
    assert AsKept(r).rssi == r.rssi by { KeptRssi(r); }
    assert Contents(q) == Step(t, AsKept(r), i);
  }

  lemma MeaningNames(e: Entry, r: Report)
    ensures Meaning(e).name == Text(e.ssid) && AsKept(r).name == Text(Name(r))
  {
  }

  lemma KeptRssi(r: Report)
    ensures AsKept(r).rssi == r.rssi
  {
  }

  lemma SameRssi(s: seq<Entry>)
    ensures forall j :: 0 <= j < |s| ==> Meanings(s)[j].rssi == s[j].rssi
  {
  }

  lemma RecognisedName(e: Entry, r: Report)
    requires Stored(e) && Matches(e, r)
    ensures Text(e.ssid) == Text(Name(r))
  {
    MatchesExactly(e, r);
    var a, b, n := e.ssid, r.raw, NameLen(r);
    TextIsPrefix(a);
    TextIsPrefix(b);
    TextEnds(a, n);
    var t := |Text(b)|;
    if t < n {
      assert b[..n][..t] == b[..t] && b[..n][t] == 0;
      TextFrom(b[..n], Text(b));
    } else {
      assert b[..n] == Text(b);
      TextWhole(b[..n]);
    }
  }

  /** A clean report is recognised properly whatever the table holds. */
  lemma CleanIsProper(s: Scan, r: Report)
    requires ScanOk(s) && Clean(r)
    ensures Proper(Contents(s), AsKept(r), Index(s, r))
  {
    hide Matches, Weakest;
    TextWhole(Name(r));
    forall j | 0 <= j < s.count ensures Matches(s.slots[j], r) <==> Contents(s)[j].name == AsKept(r).name {
      NameMatchesExactly(s.slots[j], r);
    }
    assert forall j :: 0 <= j < s.count ==> s.slots[..s.count][j] == s.slots[j];
  }

  /** The last octet of a name buffer is never anything but NUL. */
  ghost predicate Capped(s: Scan) { forall e :: e in s.slots ==> e.ssid[32] == 0 }

  lemma ReceiveKeepsCapped(s: Scan, r: Report)
    requires |s.slots| == SCAN_MAX && s.count <= SCAN_MAX && Capped(s)
    ensures Capped(Receive(s, r))
  {
    hide Meaning, AsKept, Hidden, Weakest, Recognised;
    forall e | e in s.slots ensures Fill(e, r).ssid[32] == 0 {
      FillCapped(e, r);
    }
  }

  lemma FillCapped(e: Entry, r: Report)
    requires e.ssid[32] == 0
    ensures Fill(e, r).ssid[32] == 0
  {
  }

  /** A NUL at the end of the name or in it ends the whole buffer's text where it ends the name's. */
  lemma NameText(r: Report)
    requires 0 in r.raw[..NameLen(r) + 1]
    ensures 0 in r.raw && Text(r.raw) == Text(Name(r))
  {
    var b, n := r.raw, NameLen(r);
    var head := b[..n + 1];
    TextIsPrefix(head);
    var t := |Text(head)|;
    assert b[..t] == head[..t] && b[t] == 0 && 0 !in b[..t];
    TextFrom(b, b[..t]);
    if t < n {
      assert b[..n][..t] == b[..t];
      TextFrom(b[..n], b[..t]);
    } else {
      TextWhole(b[..n]);
    }
  }

  /** In a capped table every recognisable report is recognised properly. */
  lemma RecognisableIsProper(s: Scan, r: Report)
    requires ScanOk(s) && Capped(s) && Recognisable(r)
    ensures Proper(Contents(s), AsKept(r), Index(s, r))
  {
    hide Matches, Weakest;
    if NameLen(r) < 32 {
      CleanIsProper(s, r);
    } else {
      assert r.raw[..33] == r.raw;
      NameText(r);
      forall j | 0 <= j < s.count ensures Matches(s.slots[j], r) <==> Contents(s)[j].name == AsKept(r).name {
        assert s.slots[j] in s.slots;
        MatchesExactly(s.slots[j], r);
      }
      assert forall j :: 0 <= j < s.count ==> s.slots[..s.count][j] == s.slots[j];
    }
  }

  // ---- runs -------------------------------------------------------------------------------------------------

  /** A fresh scan clears the table; further passes and every report accumulate. */
  datatype Event = Start | Again | Seen(r: Report)

  const BLANK: Entry := Entry(seq(SSID_MAX, _ => 0), 0, 0, [0, 0, 0, 0, 0, 0], 0)

  function Run(es: seq<Event>): (s: Scan)
    ensures |s.slots| == SCAN_MAX && s.count <= SCAN_MAX
  {
    if es == [] then Scan(seq(SCAN_MAX, _ => BLANK), 0) else
      var s, e := Run(es[..|es| - 1]), es[|es| - 1];
      if e.Start? then s.(count := 0) else if e.Again? then s else Receive(s, e.r)
  }

  /** Everything reported since the last fresh start. */
  ghost function Reported(es: seq<Event>): seq<Kept> {
    if es == [] then [] else
      var seen, e := Reported(es[..|es| - 1]), es[|es| - 1];
      if e.Start? then [] else if e.Again? || Hidden(e.r) then seen else seen + [AsKept(e.r)]
  }

  lemma {:induction false} RunOk(es: seq<Event>)
    ensures ScanOk(Run(es))
  {
    if es != [] {
      RunOk(es[..|es| - 1]);
      var s, e := Run(es[..|es| - 1]), es[|es| - 1];
      if e.Seen? && !Hidden(e.r) {
        hide Receive, Run;
        ReceiveMeans(s, e.r);
        assert Run(es) == Receive(s, e.r) by { RunLast(es); }
      }
    }
  }

  lemma RunLast(es: seq<Event>)
    requires es != [] && es[|es| - 1].Seen?
    ensures Run(es) == Receive(Run(es[..|es| - 1]), es[|es| - 1].r)
  {
  }

  /**
   * After these events the table holds distinct names, the strongest report of each, and nothing dropped was
   * stronger.
   */
  ghost predicate FaithfulAfter(es: seq<Event>) {
    ScanOk(Run(es)) && Faithful(Contents(Run(es)), Reported(es))
  }

  /** The last event, if it is a visible report, is recognised properly. */
  ghost predicate ProperLast(es: seq<Event>)
    requires es != []
  {
    var s, e := Run(es[..|es| - 1]), es[|es| - 1];
    e.Seen? && !Hidden(e.r) ==> ScanOk(s) && Proper(Contents(s), AsKept(e.r), Index(s, e.r))
  }

  lemma LastStep(es: seq<Event>)
    requires es != [] && FaithfulAfter(es[..|es| - 1])
    ensures FaithfulAfter(es) <==> ProperLast(es)
  {
    hide Faithful, Step, Proper, Receive, Contents, Reported, Index;
    var before, e := es[..|es| - 1], es[|es| - 1];
    var s, seen := Run(before), Reported(before);
    RunOk(es);
    assert Reported(es) == if e.Start? then [] else if e.Again? || Hidden(e.r) then seen else seen + [AsKept(e.r)] by {
      ReportedLast(es);
    }
    if e.Start? {
      NothingFaithful();
      Emptied(s);
    } else if e.Seen? && !Hidden(e.r) {
      ReceiveMeans(s, e.r);
      StepFaithful(Contents(s), seen, AsKept(e.r), Index(s, e.r));
    } else if e.Seen? {
      HiddenIgnored(s, e.r);
    }
  }

  lemma ReportedLast(es: seq<Event>)
    requires es != []
    ensures var seen, e := Reported(es[..|es| - 1]), es[|es| - 1];
            Reported(es) == if e.Start? then [] else if e.Again? || Hidden(e.r) then seen else seen + [AsKept(e.r)]
  {
  }

  lemma Emptied(s: Scan)
    requires |s.slots| == SCAN_MAX
    ensures ScanOk(s.(count := 0)) && Contents(s.(count := 0)) == []
  {
  }

  lemma HiddenIgnored(s: Scan, r: Report)
    requires |s.slots| == SCAN_MAX && s.count <= SCAN_MAX && Hidden(r)
    ensures Receive(s, r) == s
  {
  }

  lemma NothingFaithful()
    ensures Faithful([], [])
  {
  }

  /** The table stays faithful throughout a stream of events exactly when every report in it is recognised properly. */
  lemma {:induction false} RunFaithfulExactly(es: seq<Event>)
    ensures (forall n :: 0 <= n <= |es| ==> FaithfulAfter(es[..n])) <==>
            (forall n :: 0 < n <= |es| ==> ProperLast(es[..n]))
  {
    hide FaithfulAfter, ProperLast;
    if es == [] {
      assert es[..0] == [];
      StartsFaithful();
    } else {
      var m := |es| - 1;
      var before := es[..m];
      RunFaithfulExactly(before);
      assert forall n :: 0 <= n <= m ==> before[..n] == es[..n];
      assert es[..|es|] == es;
      if FaithfulAfter(before) {
        assert before[..m] == before;
        LastStep(es);
      } else {
        assert before[..m] == before == es[..m];
      }
    }
  }

  lemma StartsFaithful()
    ensures FaithfulAfter([])
  {
    hide Faithful;
    NothingFaithful();
    Emptied(Run([]));
  }

  lemma {:induction false} RunCapped(es: seq<Event>)
    ensures Capped(Run(es))
  {
    hide Receive;
    if es != [] {
      RunCapped(es[..|es| - 1]);
      if es[|es| - 1].Seen? {
        ReceiveKeepsCapped(Run(es[..|es| - 1]), es[|es| - 1].r);
      }
    }
  }

  predicate AllRecognisable(es: seq<Event>) {
    forall e :: e in es && e.Seen? ==> Hidden(e.r) || Recognisable(e.r)
  }

  /** After any stream of recognisable reports, over any number of passes, evictions and returns included. */
  lemma {:induction false} RunFaithful(es: seq<Event>)
    requires AllRecognisable(es)
    ensures FaithfulAfter(es)
  {
    hide FaithfulAfter, Faithful, Proper, Contents, Index, Recognisable, Run, Capped;
    if es == [] {
      StartsFaithful();
    } else {
      var before, e := es[..|es| - 1], es[|es| - 1];
      RunFaithful(before);
      LastStep(es);
      RunOk(before);
      RunCapped(before);
      assert e in es;
      if e.Seen? && !Hidden(e.r) {
        RecognisableIsProper(Run(before), e.r);
      }
    }
  }

  /** 32 letters A and their terminator: what they leave behind in a buffer is not NUL. */
  function Letters(): (r: Report)
    ensures r.raw == seq(32, _ => 65) + [0] && r.len == 32
  {
    Report(seq(32, _ => 65) + [0], 32, -50, 6, [0, 0, 0, 0, 0, 0], 0)
  }

  /** The same name, cut at its first NUL and terminated. */
  function Cleaned(r: Report): (q: Report)
    requires !Hidden(r)
    ensures !Hidden(q) && Clean(q) && AsKept(q).name == AsKept(r).name
  {
    TextOrWhole(Name(r));
    var t := |Text(Name(r))|;
    var q := Report(r.raw[t := 0], t, r.rssi, r.channel, r.bssid, r.auth);
    assert Name(q) == Name(r)[..t];
    TextWhole(Name(q));
    q
  }

  lemma TextOrWhole(s: seq<byte>)
    ensures |Text(s)| <= |s| && s[..|Text(s)|] == Text(s) && 0 !in Text(s)
    ensures s != [] && s[0] != 0 ==> |Text(s)| > 0
  {
    if 0 in s {
      TextIsPrefix(s);
    } else {
      TextWhole(s);
    }
  }

  /** A fresh scan in which the cleaned report reuses a buffer full of letters. */
  function Spoiler(r: Report): (es: seq<Event>)
    requires !Hidden(r)
    ensures AllRecognisable(es)
  {
    [Seen(Letters()), Start, Seen(Cleaned(r))]
  }

  lemma SpoilerRun(r: Report)
    requires !Hidden(r)
    ensures var s := Run(Spoiler(r)); s.count == 1 && s.slots[0] == Fill(Fill(BLANK, Letters()), Cleaned(r))
  {
    hide Fill, Weakest, Hidden, Cleaned;
    var es := Spoiler(r);
    assert es[..0] == [] && es[..1][..0] == [] && es[..2][..1] == es[..1] && es[..3] == es && es[..3][..2] == es[..2];
    assert es[..1][0] == Seen(Letters()) && es[..2][1] == Start;
    assert !Hidden(Letters()) by { LettersVisible(); }
    var first := Run(es[..1]);
    assert first == Receive(Run([]), Letters());
    assert Run(es[..2]) == first.(count := 0);
    RunLast(es);
  }

  lemma LettersVisible()
    ensures !Hidden(Letters()) && Clean(Letters()) && Name(Letters()) == seq(32, _ => 65)
  {
  }

  /** The entry so left is not taken for a report that is not recognisable. */
  lemma SpoilerMisses(r: Report)
    requires !Hidden(r) && !Recognisable(r)
    ensures !Matches(Fill(Fill(BLANK, Letters()), Cleaned(r)), r)
  {
    hide SameString, Hidden, Text;
    LettersVisible();
    var base, q, n := Fill(BLANK, Letters()), Cleaned(r), NameLen(r);
    var e := Fill(base, q);
    MatchesExactly(e, r);
    if 0 !in Name(r) {
      NameMatchesExactly(e, r);
      if n == 32 {
        assert 0 !in r.raw;
      }
    } else {
      TextIsPrefix(Name(r));
      var t := |Text(Name(r))|;
      assert NameLen(q) == t < n < 32;
      assert e.ssid[n] == base.ssid[n] == 65;
    }
  }

  /**
   * The hypothesis of `RunFaithful` is exact, report by report: a visible report can follow every stream of
   * recognisable ones without harm if and only if it is recognisable itself.
   */
  lemma RecognisableExactly(r: Report)
    requires !Hidden(r)
    ensures Recognisable(r) <==> forall es: seq<Event> :: AllRecognisable(es) ==> FaithfulAfter(es + [Seen(r)])
  {
    hide FaithfulAfter, Recognisable, Hidden;
    if Recognisable(r) {
      forall es: seq<Event> | AllRecognisable(es) ensures FaithfulAfter(es + [Seen(r)]) {
        RunFaithful(es + [Seen(r)]);
      }
    } else {
      var es := Spoiler(r);
      RunFaithful(es);
      SpoilerSpoils(r);
      assert !FaithfulAfter(es + [Seen(r)]);
    }
  }

  lemma SpoilerSpoils(r: Report)
    requires !Hidden(r) && !Recognisable(r) && FaithfulAfter(Spoiler(r))
    ensures !FaithfulAfter(Spoiler(r) + [Seen(r)])
  {
    hide FaithfulAfter, Recognisable, Hidden, Fill, Matches, Run, Weakest, Spoiler, AsKept, Meaning, Cleaned;
    var es := Spoiler(r);
    assert (es + [Seen(r)])[..|es|] == es;
    LastStep(es + [Seen(r)]);
    RunOk(es);
    SpoilerRun(r);
    SpoilerMisses(r);
    var s := Run(es);
    assert s.slots[..1] == [s.slots[0]];
    assert Index(s, r) == 1;
    assert Contents(s)[0] == AsKept(Cleaned(r)) by { FillMeans(Fill(BLANK, Letters()), Cleaned(r)); }
    assert AsKept(Cleaned(r)).name == AsKept(r).name;
  }

  lemma FillMeans(e: Entry, r: Report)
    ensures Meaning(Fill(e, r)) == AsKept(r)
  {
  }

  // ---- one report, heard twice ---------------------------------------------------------------------------------

  /** A report's own entry, with a terminator at the end of its name, is taken for it exactly when NUL ends the name. */
  lemma OwnEntryMatches(e: Entry, r: Report)
    ensures Matches(Fill(e, r), r) <==> 0 in r.raw[..NameLen(r) + 1]
  {
    hide SameString;
    var f, b, n := Fill(e, r), r.raw, NameLen(r);
    MatchesExactly(f, r);
    if 0 in b[..n + 1] {
      NameText(r);
    } else if 0 in b {
      assert b[n] != 0 && 0 !in b[..n] by { assert forall i :: 0 <= i <= n ==> b[i] == b[..n + 1][i]; }
      EndsBefore(f.ssid, b, n);
    }
  }

  lemma HeardOnce(r: Report)
    requires !Hidden(r)
    ensures FaithfulAfter([Seen(r)]) && Run([Seen(r)]).count == 1 && Run([Seen(r)]).slots[0] == Fill(BLANK, r)
  {
    hide Fill, Hidden, Weakest, Faithful;
    var es := [Seen(r)];
    assert es[..0] == [];
    StartsFaithful();
    LastStep(es);
  }

  /** The same network heard twice keeps the table right exactly when a NUL ends the name, or lies in it. */
  lemma HeardTwice(r: Report)
    requires !Hidden(r)
    ensures FaithfulAfter([Seen(r), Seen(r)]) <==> 0 in r.raw[..NameLen(r) + 1]
  {
    hide Fill, Hidden, Weakest, Matches, Run, FaithfulAfter;
    var es := [Seen(r), Seen(r)];
    assert es[..1] == [Seen(r)];
    HeardOnce(r);
    LastStep(es);
    RunOk([Seen(r)]);
    var s := Run([Seen(r)]);
    assert s.slots[..1] == [Fill(BLANK, r)];
    assert Contents(s)[0].name == AsKept(r).name by { FillMeans(BLANK, r); }
    OwnEntryMatches(BLANK, r);
  }

  /** A name of 32 letters A, and a 1 in the octet behind the name field. */
  function FullName(): Report { Report(seq(32, _ => 65) + [1], 32, -50, 6, [0, 0, 0, 0, 0, 0], 0) }

  /** Heard twice it enters the table twice. */
  lemma FullNameTwice()
    ensures !FaithfulAfter([Seen(FullName()), Seen(FullName())])
  {
    HeardTwice(FullName());
  }

  // ---- the code ----------------------------------------------------------------------------------------------

  class Table {
    const results: array<Entry>
    var count: nat

    ghost predicate Valid()
      reads this
    {
      results.Length == SCAN_MAX && count <= SCAN_MAX
    }

    ghost function Abs(): Scan
      reads this, results
    {
      Scan(results[..], count)
    }

    constructor ()
      ensures Valid() && Abs() == Run([]) && fresh(results)
    {
      results := new Entry[SCAN_MAX](_ => BLANK);
      count := 0;
    }

    /** A fresh scan forgets the entries in use. */
    method Reset()
      requires Valid()
      modifies this`count
      ensures Valid() && Abs() == old(Abs()).(count := 0)
    {
      count := 0;
    }

    /** The scan callback. */
    method Report(r: Report)
      requires Valid()
      modifies this`count, results
      ensures Valid() && Abs() == Receive(old(Abs()), r)
    {
      hide Fill, Matches, Hidden, Weakest, Meaning;
      if Hidden(r) {
        return;
      }
      var i := Lookup(r);
      if i < count {
        if r.rssi > results[i].rssi {
          results[i] := Fill(results[i], r);
        }
        return;
      }
      if count < SCAN_MAX {
        results[count] := Fill(results[count], r);
        count := count + 1;
        return;
      }
      var w := FindWeakest();
      if r.rssi > results[w].rssi {
        results[w] := Fill(results[w], r);
      }
    }

    method Lookup(r: Report) returns (i: nat)
      requires Valid()
      ensures i == Recognised(results[..count], r)
    {
      hide Matches, Recognised;
      i := 0;
      while i < count
        invariant i <= count
        invariant forall j :: 0 <= j < i ==> !Matches(results[j], r)
      {
        if Matches(results[i], r) {
          break;
        }
        i := i + 1;
      }
      ghost var v := Recognised(results[..count], r);
      assert v < count ==> Matches(results[v], r);
    }

    method FindWeakest() returns (w: nat)
      requires Valid() && count == SCAN_MAX
      ensures w == Weakest(Meanings(results[..])) < count
    {
      hide Text, Weakest;
      w := 0;
      var i := 1;
      while i < count
        invariant 1 <= i <= count && w < i
        invariant forall j :: 0 <= j < i ==> results[w].rssi <= results[j].rssi
        invariant forall j :: 0 <= j < w ==> results[w].rssi < results[j].rssi
      {
        if results[i].rssi < results[w].rssi {
          w := i;
        }
        i := i + 1;
      }
      ghost var t := Meanings(results[..]);
      ghost var v := Weakest(t);
      assert t[w].rssi == results[w].rssi && t[v].rssi == results[v].rssi;
    }
  }

  /** The code driven by any stream of events ends in the state the theorems are about. */
  method Drive(es: seq<Event>) returns (t: Table)
    ensures fresh(t) && t.Valid() && t.Abs() == Run(es)
  {
    hide Receive;
    t := new Table();
    for n := 0 to |es|
      invariant fresh(t) && fresh(t.results) && t.Valid() && t.Abs() == Run(es[..n])
    {
      assert es[..n + 1][..n] == es[..n];
      match es[n]
      case Start => t.Reset();
      case Again =>
      case Seen(r) => t.Report(r);
    }
    assert es[..|es|] == es;
  }
}
