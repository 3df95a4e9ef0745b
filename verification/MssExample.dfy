/** A packet that the MSS clamp spoils: its option value sits at an odd offset. */
module MssExample {
  import opened Bytes
  import opened Checksum
  import opened Packet

  /** A SYN whose MSS option follows a single no-op, so that its value sits at an odd offset. */
  function OddSynOctet(i: nat): byte {
    if i == 0 then 69 else if i == 3 then 48 else if i == 8 then 64 else if i == 9 then 6
    else if i == 12 then 10 else if i == 15 then 2 else if 16 <= i < 20 then 1
    else if i == 20 then 3 else if i == 21 then 232 else if i == 23 then 80
    else if i == 32 then 112 else if i == 33 then 2 else if i == 36 then 198 else if i == 37 then 151
    else if i == 40 then 1 else if i == 41 then 2 else if i == 42 then 4 else if i == 43 then 5 else if i == 44 then 180
    else 0
  }

  function OddSyn(): (p: seq<byte>)
    ensures |p| == 48 && forall i :: 0 <= i < 48 ==> p[i] == OddSynOctet(i)
  {
    seq(48, i requires 0 <= i < 48 => OddSynOctet(i))
  }

  lemma SumTwo(s: seq<byte>)
    requires |s| >= 2
    ensures Sum(s) == WordAt(s, 0) + Sum(s[2..])
  {
  }

  /** A sum taken from the end, word by word. */
  function SumUpTo(s: seq<byte>, n: nat): nat
    requires 2 * n <= |s|
  {
    if n == 0 then 0 else SumUpTo(s, n - 1) + WordAt(s, 2 * (n - 1))
  }

  lemma {:induction false} SumIsSumUpTo(s: seq<byte>, n: nat)
    requires 2 * n <= |s|
    ensures Sum(s[..2 * n]) == SumUpTo(s, n)
  {
    if n > 0 {
      SumIsSumUpTo(s, n - 1);
      var w := s[2 * (n - 1)..2 * n];
      assert s[..2 * n] == s[..2 * (n - 1)] + w;
      SumOfAppend(s[..2 * (n - 1)], w);
      SumTwo(w);
      assert w[2..] == [];
    }
  }

  lemma OddSynParses()
    ensures var p := OddSyn();
            && Parse(p) == Some(View(20, 28, TCP)) && TotalLength(p) == 48
            && WordAt(p, 36) == 50839 && WordAt(p, 10) == 0
  {
    hide OddSyn;
    var p := OddSyn();
    assert p[0] == 69 && p[2] == 0 && p[3] == 48 && p[6] == 0 && p[7] == 0 && p[9] == 6;
    assert p[10] == 0 && p[11] == 0 && p[36] == 198 && p[37] == 151;
  }

  lemma SumStep(s: seq<byte>, n: nat, hi: byte, lo: byte)
    requires 2 * n + 2 <= |s| && s[2 * n] == hi && s[2 * n + 1] == lo
    ensures SumUpTo(s, 0) == 0 && SumUpTo(s, n + 1) == SumUpTo(s, n) + 256 * (hi as int) + lo
  {
  }

  lemma OddSynSums()
    ensures var p := OddSyn(); Sum(p[20..48]) == 127960 && Sum(p[12..20]) == 3076
  {
    hide OddSyn, Sum, SumUpTo;
    var t, a := OddSyn()[20..48], OddSyn()[12..20];
    SumIsSumUpTo(t, 14);
    SumIsSumUpTo(a, 4);
    assert t[..28] == t && a[..8] == a;
    assert forall i :: 0 <= i < 28 ==> t[i] == OddSynOctet(20 + i);
    SumStep(t, 0, 3, 232);
    SumStep(t, 1, 0, 80);
    SumStep(t, 2, 0, 0);
    SumStep(t, 3, 0, 0);
    SumStep(t, 4, 0, 0);
    SumStep(t, 5, 0, 0);
    SumStep(t, 6, 112, 2);
    SumStep(t, 7, 0, 0);
    SumStep(t, 8, 198, 151);
    SumStep(t, 9, 0, 0);
    SumStep(t, 10, 1, 2);
    SumStep(t, 11, 4, 5);
    SumStep(t, 12, 180, 0);
    SumStep(t, 13, 0, 0);
    SumStep(a, 0, 10, 0);
    SumStep(a, 1, 0, 2);
    SumStep(a, 2, 1, 1);
    SumStep(a, 3, 1, 1);
  }

  lemma OddSynOption()
    ensures var p := OddSyn();
            && FindMss(p[20..], 20, 28) == Some(21)
            && p[32] == 112 && p[33] == 2 && p[43] == 5 && p[44] == 180
  {
    hide OddSyn;
    var l4 := OddSyn()[20..];
    assert l4[20] == 1 && l4[21] == 2 && l4[22] == 4;
    assert FindMss(l4, 21, 28) == Some(21);
  }

  /** Its checksum is valid, and clamping it to 1300 is not harmless. */
  lemma OddSynUnsafe()
    ensures var p, v := OddSyn(), View(20, 28, TCP);
            Complete(p, v) && ZeroOrValid(p, v) && WordAt(p, CsumAt(v)) != 0 && !MssHarmless(p, v, 1300)
  {
    hide OddSyn, Sum, FindMss, OddSynOctet, Parse, Fold, WordAt, TotalLength;
    OddSynParses();
    OddSynSums();
    OddSynOption();
    TwiceOnes();
    ClampedAt(OddSyn());
  }

  lemma ClampedAt(p: seq<byte>)
    requires Parse(p) == Some(View(20, 28, TCP)) && |p| == 48
    requires p[32] == 112 && p[33] == 2 && p[43] == 5 && p[44] == 180
    requires FindMss(p[20..], 20, 28) == Some(21)
    ensures DataOffset(p, View(20, 28, TCP)) == 28 && ClampAt(p, View(20, 28, TCP), 1300) == Some(43)
    ensures !MssHarmless(p, View(20, 28, TCP), 1300)
  {
    hide FindMss, Parse;
    assert ClampAt(p, View(20, 28, TCP), 1300) == Some(43);
  }

  lemma TwiceOnes()
    ensures SumsToOnes(131070)
  {
    assert Fold(131070) == 0xFFFF;
  }

  // ---- its checksum, edit by edit --------------------------------------------------------

  /** The update on one word, and on two, in plain arithmetic. */
  lemma AdjustWord(c: word16, a: byte, b: byte, x: byte, y: byte)
    ensures Adjusted(c, [a, b], [x, y]) == 0xFFFF - Fold((0xFFFF - c) + (0xFFFF - Be16(a, b)) + Be16(x, y))
  {
    hide Fold;
    var o, n := [a, b], [x, y];
    assert o[2..] == [] && n[2..] == [];
    assert ComplementSum(o) == 0xFFFF - Be16(a, b);
    assert Sum(n) == Be16(x, y);
  }

  lemma AdjustTwoWords(c: word16, o: seq<byte>, n: seq<byte>)
    requires |o| == |n| == 4
    ensures Adjusted(c, o, n) ==
      0xFFFF - Fold((0xFFFF - c) + (0xFFFF - WordAt(o, 0)) + (0xFFFF - WordAt(o, 2)) + WordAt(n, 0) + WordAt(n, 2))
  {
    hide Fold;
    var o2, n2 := o[2..], n[2..];
    assert o2[2..] == [] && n2[2..] == [];
    assert ComplementSum(o2) == 0xFFFF - WordAt(o, 2) && Sum(n2) == WordAt(n, 2);
  }

  lemma FoldOnce(x: nat, r: nat)
    requires 0x1_0000 <= x && x % 0x1_0000 + x / 0x1_0000 == r < 0x1_0000
    ensures Fold(x) == r
  {
  }

  const EXTERNAL: seq<byte> := [192, 168, 1, 50]
  const NAT_PORT: seq<byte> := [234, 96] // 60000, the port of slot 0

  lemma AddressField()
    ensures Adjusted(50839, [10, 0, 0, 2], EXTERNAL) == 3775
  {
    hide Fold, Adjusted;
    AdjustTwoWords(50839, [10, 0, 0, 2], EXTERNAL);
    FoldOnce(192830, 61760);
  }

  lemma PortField()
    ensures Adjusted(3775, [3, 232], NAT_PORT) == 10310
  {
    hide Fold, Adjusted;
    AdjustWord(3775, 3, 232, 234, 96);
    FoldOnce(186295, 55225);
  }

  lemma MssField()
    ensures Adjusted(10310, [5, 180], Octets(1300)) == 10470
  {
    hide Fold, Adjusted;
    AdjustWord(10310, 5, 180, 5, 20);
    FoldOnce(120600, 55065);
  }

  lemma OddSynPlaces()
    ensures var p := OddSyn(); p[12..16] == [10, 0, 0, 2] && p[20..22] == [3, 232] && p[43..45] == [5, 180]
  {
    hide OddSyn;
  }

  /** Translated to 192.168.1.50 and port 60000 under a clamp of 1300, a valid packet ends with a wrong checksum. */
  lemma OddOffsetExample()
    ensures var p, v := OddSyn(), View(20, 28, TCP);
            && Complete(p, v) && ZeroOrValid(p, v)
            && var q := Translate(p, v, true, EXTERNAL, NAT_PORT, 1300);
            Complete(q, v) && WordAt(q, CsumAt(v)) == 0x28E6 && !ZeroOrValid(q, v)
  {
    hide OddSyn, OddSynOctet, Translate, ZeroOrValid, MssHarmless, Complete, ClampAt, Adjusted, FindMss;
    var p, v := OddSyn(), View(20, 28, TCP);
    OddSynUnsafe();
    OddSynParses();
    OddSynOption();
    OddSynPlaces();
    ClampedAt(p);
    AddressField();
    PortField();
    MssField();
    TranslateField(p, v, true, EXTERNAL, NAT_PORT, 1300);
    TranslateKeepsChecksums(p, v, true, EXTERNAL, NAT_PORT, 1300);
  }
}
