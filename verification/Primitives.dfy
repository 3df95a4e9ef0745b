/** The handshake run on this repository's own primitives: BLAKE2s, ChaCha20-Poly1305 and X25519. */
module Primitives {
  import opened Bytes
  import opened Octets
  import opened Handshake
  import Blake2s
  import Aead
  import X25519

  const KEY: nat := 32

  /** The u-coordinate a clamped private key takes a public value to. */
  function SharedSecret(priv: octets, pub: octets): octets {
    if |priv| == KEY == |pub| then LeOctets(X25519.ScalarMult(X25519.Scalar(priv, true), Num(pub)), KEY) else []
  }

  const BASE_POINT: octets := LeOctets(9, KEY)

  function PublicKey(priv: octets): octets { SharedSecret(priv, BASE_POINT) }

  function Sealed(key: octets, ad: octets, plain: octets): octets {
    if |key| == KEY then Aead.Seal(key, 0, ad, plain) else plain
  }

  function Opened(key: octets, ad: octets, sealed: octets): Option<octets> {
    if |key| == KEY then Aead.Open(key, 0, ad, sealed) else Some(sealed)
  }

  function Hashed(x: octets): octets { Blake2s.Digest([], 32, x) }

  function Maced(key: octets, x: octets): octets { if |key| <= 32 then Blake2s.Digest(key, 16, x) else [] }

  function Stack(): Crypto {
    Crypto(x => Hashed(x), (k, x) => Maced(k, x), k => PublicKey(k), (a, p) => SharedSecret(a, p),
           (k, ad, m) => Sealed(k, ad, m), (k, ad, m) => Opened(k, ad, m))
  }

  /** The one thing assumed of the curve. */
  ghost predicate CurveCommutes() {
    forall a, b {:trigger SharedSecret(a, PublicKey(b))} ::
      |a| == KEY == |b| ==> SharedSecret(a, PublicKey(b)) == SharedSecret(b, PublicKey(a))
  }

  lemma StackSound()
    requires CurveCommutes()
    ensures Sound(Stack())
  {
    hide X25519.ScalarMult, X25519.Scalar, Num, Blake2s.Digest, Aead.Seal, Aead.Open;
    var c := Stack();
    forall a, b ensures c.dh(a, c.publicKey(b)) == c.dh(b, c.publicKey(a)) {
      DhCommutes(a, b);
    }
    forall k, ad, m ensures c.open(k, ad, c.seal(k, ad, m)) == Some(m) {
      if |k| == KEY {
        Aead.OpenExactly(k, 0, ad, Aead.Seal(k, 0, ad, m), m);
      }
    }
  }

  lemma DhCommutes(a: octets, b: octets)
    requires CurveCommutes()
    ensures SharedSecret(a, PublicKey(b)) == SharedSecret(b, PublicKey(a))
  {
    hide X25519.ScalarMult, X25519.Scalar, Num, LeOctets;
    if |a| != KEY || |b| != KEY {
      assert SharedSecret(a, PublicKey(b)) == [];
      assert SharedSecret(b, PublicKey(a)) == [];
    }
  }

  /** The honest exchange with nothing left abstract but the commutation of the curve. */
  lemma StackExchange(si: octets, sr: octets, psk: octets, ei: octets, er: octets, ts: octets, greatest: octets,
                      ix: word32, jx: word32)
    ensures CurveCommutes() && NonDegenerate(Stack(), si, sr, ei, er) && Later(ts, greatest) ==>
              ExchangeAgrees(Stack(), si, sr, psk, ei, er, ts, greatest, ix, jx)
  {
    hide *;
    if CurveCommutes() && NonDegenerate(Stack(), si, sr, ei, er) && Later(ts, greatest) {
      StackSound();
      HonestExchange(Stack(), si, sr, psk, ei, er, ts, greatest, ix, jx);
    }
  }
}
