/** The cryptographic primitives the vault calls, as arbitrary functions. The
    only law assumed anywhere is AEAD correctness; statements that need a hash
    to be collision-free return the colliding inputs instead. */
module Primitives {
  import opened Common

  datatype Algorithm = Aes256Gcm | XChaCha20Poly1305 | Aegis256

  datatype Prims = Prims(
    sha: Bytes -> Digest,                                            // SHA-256
    mac: (Digest, Bytes) -> Digest,                                  // crypto_auth
    keyed: (Bytes, Bytes) -> Digest,                                 // keyed BLAKE2b: key, message
    seal: (Algorithm, Bytes, Bytes, Bytes, Bytes) -> Bytes,          // key, nonce, AAD, plaintext
    open: (Algorithm, Bytes, Bytes, Bytes, Bytes) -> Option<Bytes>)  // key, nonce, AAD, ciphertext

  function NonceBytes(alg: Algorithm): nat {
    match alg
    case Aes256Gcm => 12
    case XChaCha20Poly1305 => 24
    case Aegis256 => 32
  }

  function TagBytes(alg: Algorithm): nat {
    match alg
    case Aes256Gcm => 16
    case XChaCha20Poly1305 => 16
    case Aegis256 => 32
  }

  /** Decrypting what was encrypted with the same key, nonce and AAD gives the
      plaintext back, and a ciphertext is one tag longer than its plaintext. */
  ghost predicate AeadCorrect(p: Prims) {
    (forall alg, key, nonce, aad, plain :: SealOpens(p, alg, key, nonce, aad, plain)) &&
    (forall alg, key, nonce, aad, sealed :: OpensShorter(p, alg, key, nonce, aad, sealed))
  }

  predicate SealOpens(p: Prims, alg: Algorithm, key: Bytes, nonce: Bytes, aad: Bytes, plain: Bytes) {
    p.open(alg, key, nonce, aad, p.seal(alg, key, nonce, aad, plain)) == Some(plain)
  }

  predicate OpensShorter(p: Prims, alg: Algorithm, key: Bytes, nonce: Bytes, aad: Bytes, sealed: Bytes) {
    var result := p.open(alg, key, nonce, aad, sealed);
    result.Some? ==> |sealed| == |result.value| + TagBytes(alg)
  }

  /** Two different (key, message) pairs with one keyed digest. */
  predicate KeyedCollision(p: Prims, key: Bytes, msg: Bytes, key': Bytes, msg': Bytes) {
    (key, msg) != (key', msg') && p.keyed(key, msg) == p.keyed(key', msg')
  }
}
