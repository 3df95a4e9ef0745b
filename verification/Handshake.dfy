/**
 * The Noise IKpsk2 handshake: the KDF chain with its in-place buffers, the two
 * messages, and the agreement of an honest exchange. Hash, AEAD and DH are
 * parameters; what is assumed of them is the predicate `Sound`.
 */
module Handshake {
  import opened Bytes
  import opened Words

  type octets = seq<byte>

  const HASH_LEN: nat := 32
  const BLOCK_LEN: nat := 64

  /** The primitives. `seal` and `open` take key, associated data and text; the nonce is always 0 here. */
  datatype Crypto = Crypto(
    hash: octets -> octets,
    mac: (octets, octets) -> octets,
    publicKey: octets -> octets,
    dh: (octets, octets) -> octets,
    seal: (octets, octets, octets) -> octets,
    open: (octets, octets, octets) -> Option<octets>)

  /** Digests are 32 octets, DH commutes, and opening undoes sealing. */
  ghost predicate Sound(c: Crypto) {
    && (forall x {:trigger c.hash(x)} :: |c.hash(x)| == HASH_LEN)
    && (forall a, b {:trigger c.dh(a, c.publicKey(b))} :: c.dh(a, c.publicKey(b)) == c.dh(b, c.publicKey(a)))
    && (forall k, ad, m {:trigger c.seal(k, ad, m)} :: c.open(k, ad, c.seal(k, ad, m)) == Some(m))
  }

  // ---- HMAC and the KDF ---------------------------------------------------------------

  function PadOctet(k: octets, i: nat, mask: byte): byte { Xor8(if i < |k| then k[i] else 0, mask) }

  /** The key, hashed if it is longer than a block, zero-padded to a block, each octet XORed with `mask`. */
  function Pad(c: Crypto, key: octets, mask: byte): (r: octets)
  {
    var k := if |key| > BLOCK_LEN then c.hash(key) else key;
    seq(BLOCK_LEN, i requires 0 <= i < BLOCK_LEN => PadOctet(k, i, mask))
  }

  /** HMAC of RFC 2104 over the hash. */
  function Hmac(c: Crypto, key: octets, text: octets): octets {
    c.hash(Pad(c, key, 0x5C) + c.hash(Pad(c, key, 0x36) + text))
  }

  function Tau1(c: Crypto, tau0: octets): octets { Hmac(c, tau0, [1]) }
  function Tau2(c: Crypto, tau0: octets): octets { Hmac(c, tau0, Tau1(c, tau0) + [2]) }
  function Tau3(c: Crypto, tau0: octets): octets { Hmac(c, tau0, Tau2(c, tau0) + [3]) }

  function Kdf1(c: Crypto, ck: octets, data: octets): octets { Tau1(c, Hmac(c, ck, data)) }

  function Kdf2(c: Crypto, ck: octets, data: octets): (octets, octets) {
    var t := Hmac(c, ck, data); (Tau1(c, t), Tau2(c, t))
  }

  function Kdf3(c: Crypto, ck: octets, data: octets): (octets, octets, octets) {
    var t := Hmac(c, ck, data); (Tau1(c, t), Tau2(c, t), Tau3(c, t))
  }

  method Store(dst: array<byte>, s: octets)
    requires |s| <= dst.Length
    modifies dst
    ensures dst[..] == s + old(dst[|s|..])
  {
    forall i | 0 <= i < |s| {
      dst[i] := s[i];
    }
  }

  /** HMAC into a buffer that may be the very one holding the text: the text is consumed first. */
  method HmacInto(c: Crypto, digest: array<byte>, key: octets, text: array<byte>, n: nat)
    requires Sound(c) && digest.Length >= HASH_LEN && n <= text.Length
    modifies digest
    ensures digest[..HASH_LEN] == Hmac(c, key, old(text[..n]))
    ensures digest[HASH_LEN..] == old(digest[HASH_LEN..])
  {
    hide Pad;
    var inner := c.hash(Pad(c, key, 0x36) + text[..n]);
    Store(digest, inner);
    assert digest[..HASH_LEN] == inner;
    var outer := c.hash(Pad(c, key, 0x5C) + digest[..HASH_LEN]);
    ghost var tail := digest[HASH_LEN..];
    Store(digest, outer);
    assert digest[..HASH_LEN] == outer;
  }

  /** The one-output KDF in place: `tau1` may be the chaining-key buffer itself, as it is in every call. */
  method Kdf1Into(c: Crypto, tau1: array<byte>, ck: array<byte>, data: octets)
    requires Sound(c) && tau1.Length == ck.Length == HASH_LEN
    modifies tau1
    ensures tau1[..] == Kdf1(c, old(ck[..]), data)
  {
    hide Hmac;
    var tau0 := Hmac(c, ck[..], data);
    var output := new byte[HASH_LEN + 1];
    output[0] := 1;
    assert output[..1] == [1];
    HmacInto(c, output, tau0, output, 1);
    Store(tau1, output[..HASH_LEN]);
  }

  /** The three-output KDF in place: `tau1` may be the chaining-key buffer itself. */
  method Kdf3Into(c: Crypto, tau1: array<byte>, tau2: array<byte>, tau3: array<byte>, ck: array<byte>, data: octets)
    requires Sound(c) && tau1.Length == tau2.Length == tau3.Length == ck.Length == HASH_LEN
    requires tau1 != tau2 && tau1 != tau3 && tau2 != tau3 && tau2 != ck && tau3 != ck
    modifies tau1, tau2, tau3
    ensures var k := Kdf3(c, old(ck[..]), data); tau1[..] == k.0 && tau2[..] == k.1 && tau3[..] == k.2
  {
    hide Hmac;
    var tau0 := Hmac(c, ck[..], data);
    var output := new byte[HASH_LEN + 1];
    output[0] := 1;
    assert output[..1] == [1];
    HmacInto(c, output, tau0, output, 1);
    Store(tau1, output[..HASH_LEN]);
    output[HASH_LEN] := 2;
    assert output[..HASH_LEN + 1] == Tau1(c, tau0) + [2];
    HmacInto(c, output, tau0, output, HASH_LEN + 1);
    Store(tau2, output[..HASH_LEN]);
    output[HASH_LEN] := 3;
    assert output[..HASH_LEN + 1] == Tau2(c, tau0) + [3];
    HmacInto(c, output, tau0, output, HASH_LEN + 1);
    Store(tau3, output[..HASH_LEN]);
  }

  method Kdf2Into(c: Crypto, tau1: array<byte>, tau2: array<byte>, ck: array<byte>, data: octets)
    requires Sound(c) && tau1.Length == tau2.Length == ck.Length == HASH_LEN && tau1 != tau2 && tau2 != ck
    modifies tau1, tau2
    ensures var k := Kdf2(c, old(ck[..]), data); tau1[..] == k.0 && tau2[..] == k.1
  {
    hide Hmac;
    var tau0 := Hmac(c, ck[..], data);
    var output := new byte[HASH_LEN + 1];
    output[0] := 1;
    assert output[..1] == [1];
    HmacInto(c, output, tau0, output, 1);
    Store(tau1, output[..HASH_LEN]);
    output[HASH_LEN] := 2;
    assert output[..HASH_LEN + 1] == Tau1(c, tau0) + [2];
    HmacInto(c, output, tau0, output, HASH_LEN + 1);
    Store(tau2, output[..HASH_LEN]);
  }

  // ---- the messages ---------------------------------------------------------------------

  const CONSTRUCTION: string := "Noise_IKpsk2_25519_ChaChaPoly_BLAKE2s"
  const IDENTIFIER: string := "WireGuard v1 zx2c4 Jason@zx2c4.com"
  const LABEL_MAC1: string := "mac1----"

  function Ascii(s: string): octets { seq(|s|, i requires 0 <= i < |s| => s[i] as int % 256) }

  const ZERO_KEY: octets := seq(32, _ => 0)

  function InitialChain(c: Crypto): octets { c.hash(Ascii(CONSTRUCTION)) }
  function InitialHash(c: Crypto): octets { c.hash(InitialChain(c) + Ascii(IDENTIFIER)) }
  function MixHash(c: Crypto, h: octets, x: octets): octets { c.hash(h + x) }

  /** This end's static identity and what it knows of the other end. */
  datatype Identity = Identity(priv: octets, pub: octets, peerPub: octets, staticDh: octets, psk: octets)

  datatype State = State(localIndex: word32, remoteIndex: word32, ephemeral: octets, remoteEphemeral: octets,
                         hash: octets, chain: octets)

  datatype Initiation = Initiation(sender: word32, ephemeral: octets, encStatic: octets, encTimestamp: octets,
                                   mac1: octets)
  datatype Response = Response(sender: word32, receiver: word32, ephemeral: octets, encEmpty: octets, mac1: octets)

  function InitiationBody(m: Initiation): octets {
    [1, 0, 0, 0] + Le32(m.sender) + m.ephemeral + m.encStatic + m.encTimestamp
  }

  function ResponseBody(m: Response): octets {
    [2, 0, 0, 0] + Le32(m.sender) + Le32(m.receiver) + m.ephemeral + m.encEmpty
  }

  function Mac1(c: Crypto, recipient: octets, body: octets): octets {
    c.mac(c.hash(Ascii(LABEL_MAC1) + recipient), body)
  }

  /** The initiator's first message; fails only on a degenerate ephemeral key or shared secret. */
  function CreateInitiation(c: Crypto, me: Identity, eph: octets, timestamp: octets,
                            index: word32): Option<(State, Initiation)> {
    var e := c.publicKey(eph);
    var es := c.dh(eph, me.peerPub);
    if eph == ZERO_KEY || e == ZERO_KEY || es == ZERO_KEY then None
    else
      var h0 := MixHash(c, InitialHash(c), me.peerPub);
      var ck1 := Kdf1(c, InitialChain(c), e);
      var h1 := MixHash(c, h0, e);
      var (ck2, k1) := Kdf2(c, ck1, es);
      var encStatic := c.seal(k1, h1, me.pub);
      var h2 := MixHash(c, h1, encStatic);
      var (ck3, k2) := Kdf2(c, ck2, me.staticDh);
      var encTimestamp := c.seal(k2, h2, timestamp);
      var h3 := MixHash(c, h2, encTimestamp);
      var m := Initiation(index, e, encStatic, encTimestamp, []);
      Some((State(index, 0, eph, [], h3, ck3), m.(mac1 := Mac1(c, me.peerPub, InitiationBody(m)))))
  }

  /** Whether timestamp `a` is strictly later than `b`: big-endian octets compared from the front. */
  predicate Later(a: octets, b: octets) {
    a != [] && b != [] && (a[0] > b[0] || (a[0] == b[0] && Later(a[1..], b[1..])))
  }

  /** The responder's view of it: the sender must be the known peer and the timestamp new. */
  function ProcessInitiation(c: Crypto, me: Identity, m: Initiation, greatest: octets): Option<(State, octets)> {
    var es := c.dh(me.priv, m.ephemeral);
    if m.mac1 != Mac1(c, me.pub, InitiationBody(m)) || es == ZERO_KEY then None
    else
      var h0 := MixHash(c, InitialHash(c), me.pub);
      var ck1 := Kdf1(c, InitialChain(c), m.ephemeral);
      var h1 := MixHash(c, h0, m.ephemeral);
      var (ck2, k1) := Kdf2(c, ck1, es);
      var peerStatic := c.open(k1, h1, m.encStatic);
      if peerStatic != Some(me.peerPub) then None
      else
        var h2 := MixHash(c, h1, m.encStatic);
        var (ck3, k2) := Kdf2(c, ck2, me.staticDh);
        var timestamp := c.open(k2, h2, m.encTimestamp);
        if timestamp.None? || !Later(timestamp.value, greatest) then None
        else
          var h3 := MixHash(c, h2, m.encTimestamp);
          Some((State(0, m.sender, [], m.ephemeral, h3, ck3), timestamp.value))
  }

  /** The responder's answer. */
  function CreateResponse(c: Crypto, me: Identity, s: State, eph: octets, index: word32): Option<(State, Response)> {
    var e := c.publicKey(eph);
    var ee := c.dh(eph, s.remoteEphemeral);
    var se := c.dh(eph, me.peerPub);
    if eph == ZERO_KEY || e == ZERO_KEY || ee == ZERO_KEY || se == ZERO_KEY then None
    else
      var ck1 := Kdf1(c, s.chain, e);
      var h1 := MixHash(c, s.hash, e);
      var ck2 := Kdf1(c, ck1, ee);
      var ck3 := Kdf1(c, ck2, se);
      var (ck4, tau, k) := Kdf3(c, ck3, me.psk);
      var h2 := MixHash(c, h1, tau);
      var encEmpty := c.seal(k, h2, []);
      var h3 := MixHash(c, h2, encEmpty);
      var m := Response(index, s.remoteIndex, e, encEmpty, []);
      Some((s.(localIndex := index, ephemeral := eph, hash := h3, chain := ck4),
            m.(mac1 := Mac1(c, me.peerPub, ResponseBody(m)))))
  }

  /** The initiator checks the answer. */
  function ProcessResponse(c: Crypto, me: Identity, s: State, m: Response): Option<State> {
    var ee := c.dh(s.ephemeral, m.ephemeral);
    var se := c.dh(me.priv, m.ephemeral);
    if m.mac1 != Mac1(c, me.pub, ResponseBody(m)) || m.receiver != s.localIndex then None
    else if ee == ZERO_KEY || se == ZERO_KEY then None
    else
      var ck1 := Kdf1(c, s.chain, m.ephemeral);
      var h1 := MixHash(c, s.hash, m.ephemeral);
      var ck2 := Kdf1(c, ck1, ee);
      var ck3 := Kdf1(c, ck2, se);
      var (ck4, tau, k) := Kdf3(c, ck3, me.psk);
      var h2 := MixHash(c, h1, tau);
      if c.open(k, h2, m.encEmpty).None? then None
      else Some(s.(remoteIndex := m.sender, remoteEphemeral := m.ephemeral, hash := h2, chain := ck4))
  }

  /** The transport keys a finished handshake gives this end, and the indices of both ends. */
  datatype Keys = Keys(send: octets, receive: octets, local: word32, remote: word32)

  function SessionKeys(c: Crypto, s: State, initiator: bool): Keys {
    var (a, b) := Kdf2(c, s.chain, []);
    if initiator then Keys(a, b, s.localIndex, s.remoteIndex) else Keys(b, a, s.localIndex, s.remoteIndex)
  }

  // ---- an honest exchange ------------------------------------------------------------------

  /** The identity of one end as `wireguard_peer_init` prepares it. */
  function MakeIdentity(c: Crypto, priv: octets, peerPriv: octets, psk: octets): Identity {
    Identity(priv, c.publicKey(priv), c.publicKey(peerPriv), c.dh(priv, c.publicKey(peerPriv)), psk)
  }

  /** No ephemeral key and no shared secret of this exchange is degenerate. */
  ghost predicate NonDegenerate(c: Crypto, si: octets, sr: octets, ei: octets, er: octets) {
    && ei != ZERO_KEY && er != ZERO_KEY && c.publicKey(ei) != ZERO_KEY && c.publicKey(er) != ZERO_KEY
    && c.dh(ei, c.publicKey(sr)) != ZERO_KEY && c.dh(er, c.publicKey(ei)) != ZERO_KEY
    && c.dh(er, c.publicKey(si)) != ZERO_KEY
  }

  lemma InitiationAgrees(c: Crypto, si: octets, sr: octets, psk: octets, ei: octets, ts: octets, greatest: octets,
                         ix: word32)
    requires Sound(c) && ei != ZERO_KEY && c.publicKey(ei) != ZERO_KEY
    requires c.dh(ei, c.publicKey(sr)) != ZERO_KEY && Later(ts, greatest)
    ensures var a := CreateInitiation(c, MakeIdentity(c, si, sr, psk), ei, ts, ix);
            && a.Some? && a.value.1.ephemeral == c.publicKey(ei)
            && a.value.0.localIndex == ix && a.value.0.ephemeral == ei
            && var b := ProcessInitiation(c, MakeIdentity(c, sr, si, psk), a.value.1, greatest);
            && b.Some? && b.value.1 == ts
            && b.value.0.chain == a.value.0.chain && b.value.0.hash == a.value.0.hash
            && b.value.0.remoteIndex == ix && b.value.0.remoteEphemeral == c.publicKey(ei)
  {
    hide Kdf1, Kdf2, Kdf3, InitialHash, InitialChain, MixHash, Mac1, Ascii;
    var e, pub := c.publicKey(ei), c.publicKey(si);
    var es := c.dh(ei, c.publicKey(sr));
    var ss := c.dh(si, c.publicKey(sr));
    assert c.dh(sr, e) == es && c.dh(sr, pub) == ss;
    var a := CreateInitiation(c, MakeIdentity(c, si, sr, psk), ei, ts, ix).value;
    var h1 := MixHash(c, MixHash(c, InitialHash(c), c.publicKey(sr)), e);
    var (ck2, k1) := Kdf2(c, Kdf1(c, InitialChain(c), e), es);
    assert a.1.encStatic == c.seal(k1, h1, pub);
    assert c.open(k1, h1, a.1.encStatic) == Some(pub);
    var h2 := MixHash(c, h1, a.1.encStatic);
    var (ck3, k2) := Kdf2(c, ck2, ss);
    assert a.1.encTimestamp == c.seal(k2, h2, ts);
    assert c.open(k2, h2, a.1.encTimestamp) == Some(ts);
    assert a.1.mac1 == Mac1(c, c.publicKey(sr), InitiationBody(a.1));
  }

  lemma ResponseAgrees(c: Crypto, si: octets, sr: octets, psk: octets, ei: octets, er: octets, a: State, b: State,
                       jx: word32)
    requires Sound(c) && NonDegenerate(c, si, sr, ei, er)
    requires a.chain == b.chain && a.hash == b.hash && a.ephemeral == ei
    requires b.remoteEphemeral == c.publicKey(ei) && b.remoteIndex == a.localIndex
    ensures var m := CreateResponse(c, MakeIdentity(c, sr, si, psk), b, er, jx);
            && m.Some? && m.value.0.localIndex == jx && m.value.0.remoteIndex == a.localIndex
            && var f := ProcessResponse(c, MakeIdentity(c, si, sr, psk), a, m.value.1);
            && f.Some? && f.value.chain == m.value.0.chain
            && f.value.localIndex == a.localIndex && f.value.remoteIndex == jx
  {
    hide Kdf1, Kdf2, Kdf3, MixHash, Mac1;
    var e := c.publicKey(er);
    var ee, se := c.dh(er, c.publicKey(ei)), c.dh(er, c.publicKey(si));
    assert c.dh(ei, e) == ee && c.dh(si, e) == se;
    var m := CreateResponse(c, MakeIdentity(c, sr, si, psk), b, er, jx).value.1;
    var (ck4, tau, k) := Kdf3(c, Kdf1(c, Kdf1(c, Kdf1(c, a.chain, e), ee), se), psk);
    var h2 := MixHash(c, MixHash(c, a.hash, e), tau);
    assert m.encEmpty == c.seal(k, h2, []);
    assert c.open(k, h2, m.encEmpty) == Some([]);
    assert m.mac1 == Mac1(c, c.publicKey(si), ResponseBody(m));
  }

  /**
   * Sections 5.4.2 to 5.4.5 of the WireGuard paper: the exchange succeeds on both sides,
   * the chaining keys agree, the transport keys match crosswise and the indices are paired.
   */
  ghost predicate ExchangeAgrees(c: Crypto, si: octets, sr: octets, psk: octets, ei: octets, er: octets,
                                 ts: octets, greatest: octets, ix: word32, jx: word32) {
    var me, you := MakeIdentity(c, si, sr, psk), MakeIdentity(c, sr, si, psk);
    var m1 := CreateInitiation(c, me, ei, ts, ix);
    && m1.Some?
    && var r1 := ProcessInitiation(c, you, m1.value.1, greatest);
    && r1.Some?
    && var m2 := CreateResponse(c, you, r1.value.0, er, jx);
    && m2.Some?
    && var f := ProcessResponse(c, me, m1.value.0, m2.value.1);
    && f.Some?
    && f.value.chain == m2.value.0.chain
    && var ki, kr := SessionKeys(c, f.value, true), SessionKeys(c, m2.value.0, false);
    && ki.send == kr.receive && ki.receive == kr.send
    && ki.local == kr.remote == ix && ki.remote == kr.local == jx
  }

  lemma HonestExchange(c: Crypto, si: octets, sr: octets, psk: octets, ei: octets, er: octets,
                       ts: octets, greatest: octets, ix: word32, jx: word32)
    requires Sound(c) && NonDegenerate(c, si, sr, ei, er) && Later(ts, greatest)
    ensures ExchangeAgrees(c, si, sr, psk, ei, er, ts, greatest, ix, jx)
  {
    hide CreateInitiation, ProcessInitiation, CreateResponse, ProcessResponse, Kdf2;
    InitiationAgrees(c, si, sr, psk, ei, ts, greatest, ix);
    var m1 := CreateInitiation(c, MakeIdentity(c, si, sr, psk), ei, ts, ix).value;
    var r1 := ProcessInitiation(c, MakeIdentity(c, sr, si, psk), m1.1, greatest).value;
    ResponseAgrees(c, si, sr, psk, ei, er, m1.0, r1.0, jx);
  }
}
