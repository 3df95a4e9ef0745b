/** The saved Wi-Fi profiles: a most-recently-used list of at most eight, and which one is active. */
module Profiles {
  import opened Bytes

  const PROFILE_MAX: nat := 8
  const NONE: byte := 0xFF
  const SSID_MAX: nat := 33

  /** Names and passwords as the text before their terminator. */
  datatype Profile = Profile(ssid: seq<byte>, password: seq<byte>)

  // ---- list operations on values ---------------------------------------------------------------------

  function Removed<T>(s: seq<T>, i: nat): (r: seq<T>)
    requires i < |s|
    ensures |r| == |s| - 1
  {
    s[..i] + s[i + 1..]
  }

  lemma RemovedBy<T>(s: seq<T>, r: seq<T>, i: nat)
    requires i < |s| == |r| + 1
    requires (forall k :: 0 <= k < i ==> r[k] == s[k]) && forall k :: i <= k < |r| ==> r[k] == s[k + 1]
    ensures r == Removed(s, i)
  {
  }

  function Front<T>(s: seq<T>, i: nat): (r: seq<T>)
    requires i < |s|
    ensures |r| == |s|
  {
    [s[i]] + s[..i] + s[i + 1..]
  }

  /** The index of the same profile after profile i of n is removed; the first one if it was that profile. */
  function ActiveAfterRemoval(active: byte, i: nat, n: nat): byte
    requires i < n
  {
    if active == i || n == 1 then (if n == 1 then NONE else 0)
    else if active != NONE && active > i then active - 1
    else active
  }

  function ActiveAfterFront(active: byte, i: nat): byte {
    if i == 0 then active
    else if active == i then 0
    else if active != NONE && active < i then active + 1
    else active
  }

  /** The profile to give up when the list is full: the least recently used that is not active. */
  function Victim(active: byte, n: nat): int { if active == n - 1 then n - 2 else n - 1 }

  predicate ActiveOk(active: byte, n: nat) { active == NONE || active < n }

  // ---- what they keep ------------------------------------------------------------------------------------

  /** Removing another profile leaves `active` on the same one; removing it selects the first or none. */
  lemma RemovalKeepsActive(s: seq<Profile>, active: byte, i: nat)
    requires i < |s| <= PROFILE_MAX && ActiveOk(active, |s|)
    ensures var a := ActiveAfterRemoval(active, i, |s|);
            && ActiveOk(a, |s| - 1)
            && (active == NONE ==> a == NONE)
            && (active != NONE && active != i ==> a < |s| - 1 && Removed(s, i)[a] == s[active])
            && (active == i ==> a == if |s| == 1 then NONE else 0)
  {
  }

  /** Moving any profile to the front permutes the list and `active` follows its profile. */
  lemma FrontKeepsActive(s: seq<Profile>, active: byte, i: nat)
    requires i < |s| <= PROFILE_MAX && ActiveOk(active, |s|)
    ensures var a := ActiveAfterFront(active, i);
            && ActiveOk(a, |s|) && multiset(Front(s, i)) == multiset(s)
            && (active == NONE ==> a == NONE)
            && (active != NONE ==> a < |s| && Front(s, i)[a] == s[active])
  {
    FrontPermutes(s, i);
  }

  lemma FrontPermutes<T>(s: seq<T>, i: nat)
    requires i < |s|
    ensures multiset(Front(s, i)) == multiset(s)
  {
    assert s == s[..i] + ([s[i]] + s[i + 1..]);
    assert Front(s, i) == [s[i]] + (s[..i] + s[i + 1..]);
  }

  /** Where each position comes from; the same for the list and for any array kept beside it. */
  function Source(i: nat, k: nat): nat { if k == 0 then i else if k <= i then k - 1 else k }

  lemma FrontZero<T>(s: seq<T>)
    requires s != []
    ensures Front(s, 0) == s
  {
  }

  lemma FrontBy<T>(s: seq<T>, r: seq<T>, i: nat)
    requires i < |s| == |r| && r[0] == s[i]
    requires (forall k :: 0 < k <= i ==> r[k] == s[k - 1]) && forall k :: i < k < |s| ==> r[k] == s[k]
    ensures r == Front(s, i)
  {
  }

  lemma FrontAt<T>(s: seq<T>, i: nat, k: nat)
    requires i < |s| && k < |s|
    ensures Source(i, k) < |s| && Front(s, i)[k] == s[Source(i, k)]
  {
  }

  /** Adding to a full list gives up the last profile that is not active, and only that one. */
  lemma AdditionKeepsActive(s: seq<Profile>, active: byte, p: Profile)
    requires |s| == PROFILE_MAX && ActiveOk(active, |s|)
    ensures var v := Victim(active, |s|);
            && 0 <= v < |s| && v != active && v >= |s| - 2
            && var a, t := ActiveAfterRemoval(active, v, |s|), Removed(s, v) + [p];
            && ActiveOk(a, |t|) && |t| == PROFILE_MAX && t[PROFILE_MAX - 1] == p
            && (active == NONE ==> a == NONE)
            && (active != NONE ==> a < |t| - 1 && t[a] == s[active])
  {
  }

  // ---- the code ------------------------------------------------------------------------------------------

  class Config {
    const profiles: array<Profile>
    var count: nat
    var active: byte

    ghost predicate Valid()
      reads this
    {
      profiles.Length == PROFILE_MAX && count <= PROFILE_MAX
    }

    ghost function Items(): (s: seq<Profile>)
      requires Valid()
      reads this, profiles
      ensures |s| == count
    {
      profiles[..count]
    }

    constructor ()
      ensures Valid() && Items() == [] && active == NONE && fresh(profiles)
    {
      profiles := new Profile[PROFILE_MAX](_ => Profile([], []));
      count, active := 0, NONE;
    }

    /** First profile with this name, or -1. */
    method Find(ssid: seq<byte>) returns (i: int)
      requires Valid()
      ensures -1 <= i < count
      ensures i >= 0 ==> Items()[i].ssid == ssid && forall j :: 0 <= j < i ==> Items()[j].ssid != ssid
      ensures i == -1 ==> forall j :: 0 <= j < count ==> Items()[j].ssid != ssid
    {
      i := 0;
      while i < count
        invariant 0 <= i <= count
        invariant forall j :: 0 <= j < i ==> profiles[j].ssid != ssid
      {
        if profiles[i].ssid == ssid {
          return;
        }
        i := i + 1;
      }
      i := -1;
    }

    method Delete(i: int)
      requires Valid()
      modifies this, profiles
      ensures Valid()
      ensures if 0 <= i < old(count)
              then Items() == Removed(old(Items()), i) && active == ActiveAfterRemoval(old(active), i, old(count))
              else Items() == old(Items()) && active == old(active)
    {
      if i < 0 || i >= count {
        return;
      }
      ghost var s := Items();
      var j := i;
      while j + 1 < count
        invariant count == |s| <= PROFILE_MAX && active == old(active) && i <= j < count
        invariant forall k :: 0 <= k < i ==> profiles[k] == s[k]
        invariant forall k :: i <= k < j ==> profiles[k] == s[k + 1]
        invariant forall k :: j < k < count ==> profiles[k] == s[k]
      {
        profiles[j] := profiles[j + 1];
        j := j + 1;
      }
      count := count - 1;
      RemovedBy(s, profiles[..count], i);
      if active == i || count == 0 {
        active := if count > 0 then 0 else NONE;
      } else if active != NONE && active > i {
        active := active - 1;
      }
    }

    /** Move profile i to the front. */
    method Touch(i: int) returns (r: int)
      requires Valid()
      modifies this`active, profiles
      ensures Valid() && count == old(count) && r == if 0 <= i < count then 0 else -1
      ensures if r == 0
              then Items() == Front(old(Items()), i) && active == ActiveAfterFront(old(active), i)
              else Items() == old(Items()) && active == old(active)
    {
      if i < 0 || i >= count {
        return -1;
      }
      ghost var s := Items();
      if i > 0 {
        var moved := profiles[i];
        forall k | 0 < k <= i {
          profiles[k] := profiles[k - 1];
        }
        profiles[0] := moved;
        FrontBy(s, profiles[..count], i);
        if active == i {
          active := 0;
        } else if active != NONE && active < i {
          active := active + 1;
        }
      }
      r := 0;
    }

    /** Append a profile without a password, giving up the least recently used one if there is no room. */
    method Add(ssid: seq<byte>) returns (i: int)
      requires Valid()
      modifies this, profiles
      ensures Valid()
      ensures var n, p := old(count), Profile(if |ssid| < SSID_MAX then ssid else ssid[..SSID_MAX - 1], []);
              if n < PROFILE_MAX
              then i == n && Items() == old(Items()) + [p] && active == old(active)
              else
                var v := Victim(old(active), n);
                && i == n - 1 && 0 <= v < n && Items() == Removed(old(Items()), v) + [p]
                && active == ActiveAfterRemoval(old(active), v, n)
    {
      if count >= PROFILE_MAX {
        var victim := count - 1;
        if active == victim {
          victim := victim - 1;
        }
        Delete(victim);
      }
      ghost var s := Items();
      i := count;
      count := count + 1;
      profiles[i] := Profile(if |ssid| < SSID_MAX then ssid else ssid[..SSID_MAX - 1], []);
      assert Items() == s + [profiles[i]];
    }
  }
}
