/** ChaCha20-Poly1305 with WireGuard's nonce: section 2.8 of RFC 8439 and the code, in place or not. */
module Aead {
  import opened Bytes
  import opened Bits
  import opened Words
  import opened Octets
  import opened ChaCha20
  import opened Poly1305
  import opened Poly1305Stream

  const TAG: nat := 16

  // ---- the construction ------------------------------------------------------------------------------

  /** The shortest run of zeros that completes a 16-octet block. */
  function Padding(n: nat): (k: nat)
    ensures k < 16 && (n + k) % 16 == 0
  {
    (16 - n % 16) % 16
  }

  function Zeros(n: nat): (z: seq<byte>)
    ensures |z| == n && forall i :: 0 <= i < n ==> z[i] == 0
  {
    seq(n, _ => 0)
  }

  function MacData(ad: seq<byte>, text: seq<byte>): seq<byte> {
    ad + Zeros(Padding(|ad|)) + text + Zeros(Padding(|text|)) + LeOctets(|ad|, 8) + LeOctets(|text|, 8)
  }

  /** The first half of key stream block zero. */
  function OneTimeKey(key: seq<byte>, nonce: word64): (k: seq<byte>)
    requires |key| == 32
    ensures |k| == 32
  {
    Block(Initial(key, 0, nonce))[..32]
  }

  function TagOf(key: seq<byte>, nonce: word64, ad: seq<byte>, text: seq<byte>): (t: seq<byte>)
    requires |key| == 32
    ensures |t| == TAG
  {
    LeOctets(Tag(OneTimeKey(key, nonce), MacData(ad, text)), TAG)
  }

  function Seal(key: seq<byte>, nonce: word64, ad: seq<byte>, plain: seq<byte>): (r: seq<byte>)
    requires |key| == 32
    ensures |r| == |plain| + TAG
  {
    var text := Crypt(Initial(key, 1, nonce), plain);
    text + TagOf(key, nonce, ad, text)
  }

  function Open(key: seq<byte>, nonce: word64, ad: seq<byte>, sealed: seq<byte>): Option<seq<byte>>
    requires |key| == 32
  {
    if |sealed| < TAG then None
    else
      var text := sealed[..|sealed| - TAG];
      if TagOf(key, nonce, ad, text) != sealed[|sealed| - TAG..] then None
      else Some(Crypt(Initial(key, 1, nonce), text))
  }

  /** Decryption accepts exactly what encryption produces, and returns what was encrypted. */
  lemma OpenExactly(key: seq<byte>, nonce: word64, ad: seq<byte>, sealed: seq<byte>, plain: seq<byte>)
    requires |key| == 32
    ensures Open(key, nonce, ad, sealed) == Some(plain) <==> sealed == Seal(key, nonce, ad, plain)
  {
    hide Crypt, TagOf, Initial;
    var s := Initial(key, 1, nonce);
    CryptTwice(s, plain);
    if |sealed| >= TAG {
      CryptTwice(s, sealed[..|sealed| - TAG]);
      assert sealed == sealed[..|sealed| - TAG] + sealed[|sealed| - TAG..];
    }
    var r := Seal(key, nonce, ad, plain);
    assert r[..|r| - TAG] == Crypt(s, plain) && r[|r| - TAG..] == TagOf(key, nonce, ad, Crypt(s, plain));
  }

  // ---- the code -----------------------------------------------------------------------------------------

  /** (n + 15) & 0xFFFFFFF0 */
  function RoundUp(n: nat): (r: nat)
    requires n < 0x8000_0000
    ensures r == n + Padding(n)
  {
    RoundUpIs(n, 0xFFFF_FFF0, 4);
    And(n + 15, 0xFFFF_FFF0)
  }

  lemma RoundUpIs(n: nat, m: nat, k: nat)
    requires n < 0x8000_0000 && m == 0xFFFF_FFF0 && k == 4
    ensures And(n + 15, m) == n + Padding(n)
  {
    hide And, Low, High, Pow2;
    assert Pow2(k) == 16 && Pow2(28) == 0x1000_0000 by { PowersForMask(k); }
    AndSplit(n + 15, m, k);
    HighLow(n + 15, k);
    HighLow(m, k);
    AndOnes((n + 15) / 16, 28);
    AndZero((n + 15) % 16);
    RoundUpArith(n);
  }

  lemma PowersForMask(k: nat)
    requires k == 4
    ensures Pow2(k) == 16 && Pow2(28) == 0x1000_0000
  {
    hide Pow2;
    Pow2Values();
    assert Pow2(0) == 1 by { Pow2Zero(); }
    Pow2Next(0); Pow2Next(1); Pow2Next(2); Pow2Next(3);
    Pow2Sum(24, 4);
  }

  lemma RoundUpArith(n: nat)
    requires n < 0x8000_0000
    ensures 16 * ((n + 15) / 16 % 0x1000_0000) == n + Padding(n)
  {
    var q, r := n / 16, n % 16;
    assert n == 16 * q + r;
    if r == 0 {
      ModUnique(n + 15, 16, q, 15);
    } else {
      ModUnique(n + 15, 16, q + 1, r - 1);
    }
  }

  /** Start both contexts: one-time key from block zero, key stream from block one. */
  method GenerateKey(key: seq<byte>, nonce: word64) returns (mac: Authenticator, cipher: Cipher)
    requires |key| == 32
    ensures fresh(mac) && fresh(mac.buffer) && fresh(cipher) && fresh(cipher.state)
    ensures mac.Valid() && mac.key == OneTimeKey(key, nonce) && mac.msg == []
    ensures cipher.Valid() && cipher.state[..] == Initial(key, 1, nonce)
  {
    hide *;
    cipher := new Cipher(key, nonce);
    var block: array<byte> := new byte[32](_ => 0);
    assert block[..32] == Zeros(32);
    cipher.Apply(block, block, 32);
    FirstBlock(key, nonce);
    assert block[..] == block[..32];
    mac := new Authenticator(block[..]);
  }

  lemma FirstBlock(key: seq<byte>, nonce: word64)
    requires |key| == 32
    ensures Crypt(Initial(key, 0, nonce), Zeros(32)) == OneTimeKey(key, nonce)
    ensures Later(Initial(key, 0, nonce), 1) == Initial(key, 1, nonce)
  {
    hide Block, Xor, FromLe32, StreamAt;
    var s := Initial(key, 0, nonce);
    assert Later(s, 1) == Initial(key, 1, nonce);
    forall i | 0 <= i < 32 ensures Crypt(s, Zeros(32))[i] == OneTimeKey(key, nonce)[i] {
      InBlock(s, 0, i);
      LaterZero(s);
      XorZero(StreamAt(s, i));
    }
  }

  /** The six updates: associated data, padding, text, padding, the two lengths. */
  method Digest(mac: Authenticator, ad: seq<byte>, text: seq<byte>) returns (tag: seq<byte>)
    requires mac.Valid() && mac.msg == [] && |ad| < 0x8000_0000 && |text| < 0x8000_0000
    modifies mac, mac.buffer
    ensures |tag| == TAG && tag == LeOctets(Tag(old(mac.key), MacData(ad, text)), TAG)
  {
    hide *;
    var before := RoundUp(|ad|) - |ad|;
    var after := RoundUp(|text|) - |text|;
    mac.Update(ad);
    mac.Update(Zeros(before));
    mac.Update(text);
    mac.Update(Zeros(after));
    mac.Update(LeOctets(|ad|, 8));
    mac.Update(LeOctets(|text|, 8));
    assert mac.msg == MacData(ad, text) by { MacDataIs(ad, text); }
    tag := mac.Finish();
    LeOfNum(tag);
    assert |tag| == TAG by { TagLength(); }
  }

  lemma TagLength()
    ensures TAG == 16
  {
  }

  lemma MacDataIs(ad: seq<byte>, text: seq<byte>)
    ensures MacData(ad, text) ==
      [] + ad + Zeros(Padding(|ad|)) + text + Zeros(Padding(|text|)) + LeOctets(|ad|, 8) + LeOctets(|text|, 8)
  {
    assert [] + ad == ad;
  }

  /** Compares without stopping at the first difference. */
  method Equal(a: seq<byte>, b: seq<byte>) returns (eq: bool)
    requires |a| == |b|
    ensures eq <==> a == b
  {
    hide Or, Xor;
    var neq: byte := 0;
    for i := 0 to |a|
      invariant neq == 0 <==> a[..i] == b[..i]
    {
      OrZero(neq, Xor8(a[i], b[i]));
      XorIsZero(a[i], b[i]);
      neq := Or8(neq, Xor8(a[i], b[i]));
      assert a[..i + 1] == a[..i] + [a[i]] && b[..i + 1] == b[..i] + [b[i]];
    }
    assert a[..|a|] == a && b[..|a|] == b;
    eq := neq == 0;
  }

  /** dst := ciphertext and tag; `dst` may be `src`. */
  method Encrypt(dst: array<byte>, src: array<byte>, len: nat, ad: seq<byte>, nonce: word64, key: seq<byte>)
    requires |key| == 32 && len < 0x8000_0000 && |ad| < 0x8000_0000 && len <= src.Length && len + TAG <= dst.Length
    modifies dst
    ensures dst[..len + TAG] == Seal(key, nonce, ad, old(src[..len]))
    ensures dst[len + TAG..] == old(dst[len + TAG..])
  {
    hide *;
    var mac, cipher := GenerateKey(key, nonce);
    cipher.Apply(dst, src, len);
    ghost var text := dst[..len];
    var tag := Digest(mac, ad, dst[..len]);
    Append(dst, len, tag);
    SealIs(key, nonce, ad, old(src[..len]));
    assert dst[..len + TAG] == text + tag;
  }

  /** Store the tag behind the text. */
  method Append(dst: array<byte>, len: nat, tag: seq<byte>)
    requires len + |tag| <= dst.Length
    modifies dst
    ensures dst[..len + |tag|] == old(dst[..len]) + tag && dst[len + |tag|..] == old(dst[len + |tag|..])
  {
    forall i | 0 <= i < |tag| {
      dst[len + i] := tag[i];
    }
  }

  lemma SealIs(key: seq<byte>, nonce: word64, ad: seq<byte>, plain: seq<byte>)
    requires |key| == 32
    ensures var text := Crypt(Initial(key, 1, nonce), plain);
            Seal(key, nonce, ad, plain) == text + LeOctets(Tag(OneTimeKey(key, nonce), MacData(ad, text)), TAG)
  {
    hide Crypt, Initial, Tag, OneTimeKey, MacData, LeOctets;
  }

  lemma OpenIs(key: seq<byte>, nonce: word64, ad: seq<byte>, sealed: seq<byte>)
    requires |key| == 32 && |sealed| >= TAG
    ensures var tag := LeOctets(Tag(OneTimeKey(key, nonce), MacData(ad, sealed[..|sealed| - TAG])), TAG);
            Open(key, nonce, ad, sealed) ==
            if tag != sealed[|sealed| - TAG..] then None
            else Some(Crypt(Initial(key, 1, nonce), sealed[..|sealed| - TAG]))
  {
    hide Crypt, Initial, Tag, OneTimeKey, MacData, LeOctets;
  }

  lemma TooShort(key: seq<byte>, nonce: word64, ad: seq<byte>, sealed: seq<byte>)
    requires |key| == 32 && |sealed| < TAG
    ensures Open(key, nonce, ad, sealed) == None
  {
  }

  /** True exactly when the tag matches, and only then is `dst` written; `dst` may be `src`. */
  method Decrypt(dst: array<byte>, src: array<byte>, srcLen: nat, ad: seq<byte>, nonce: word64,
                 key: seq<byte>) returns (ok: bool)
    requires |key| == 32 && srcLen < 0x8000_0000 && |ad| < 0x8000_0000
    requires srcLen <= src.Length && srcLen <= dst.Length + TAG
    modifies dst
    ensures var r := Open(key, nonce, ad, old(src[..srcLen]));
            && ok == r.Some?
            && dst[..] == if r.Some? then r.value + old(dst[..])[srcLen - TAG..] else old(dst[..])
  {
    hide *;
    ok := false;
    ghost var sealed := src[..srcLen];
    if srcLen >= TAG {
      var n := srcLen - TAG;
      var mac, cipher := GenerateKey(key, nonce);
      assert sealed[..n] == src[..n] && sealed[n..] == src[n..srcLen];
      var tag := Digest(mac, ad, src[..n]);
      OpenIs(key, nonce, ad, sealed);
      var same := Equal(tag, src[n..srcLen]);
      if same {
        cipher.Apply(dst, src, n);
        assert dst[..] == dst[..n] + dst[n..];
        ok := true;
      }
    } else {
      TooShort(key, nonce, ad, sealed);
    }
  }

  /** A packet sealed in its own buffer and opened there again is as it was, and nothing behind the tag is touched. */
  method RoundTrip(buf: array<byte>, len: nat, ad: seq<byte>, nonce: word64, key: seq<byte>) returns (ok: bool)
    requires |key| == 32 && len + TAG < 0x8000_0000 && |ad| < 0x8000_0000 && len + TAG <= buf.Length
    modifies buf
    ensures ok && buf[..len] == old(buf[..len]) && buf[len + TAG..] == old(buf[len + TAG..])
  {
    hide *;
    ghost var plain := buf[..len];
    Encrypt(buf, buf, len, ad, nonce, key);
    OpenExactly(key, nonce, ad, buf[..len + TAG], plain);
    ok := Decrypt(buf, buf, len + TAG, ad, nonce, key);
  }
}
