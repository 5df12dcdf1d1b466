/** Wrapping, unwrapping and re-wrapping a DEK (src/key_manager.c). */
module KeyManager {
  import opened Common
  import opened Primitives
  import opened CryptoEngine

  const MAX_NONCE_BYTES := 32
  const WRAPPED_DEK_BYTES := 64

  /** key_manager_algorithm_from_name: unlike the engine it does not read the
      old spelling, and it checks availability itself. */
  function ManagedAlgorithm(pf: Platform, name: Name): Result<Algorithm> {
    match name
    case Canonical(Aes256Gcm) => if pf.hasAesHardware then Success(Aes256Gcm) else Failure(Crypto)
    case Canonical(XChaCha20Poly1305) => Success(XChaCha20Poly1305)
    case Canonical(Aegis256) => if pf.hasAegis then Success(Aegis256) else Failure(InvalidArgument)
    case _ => Failure(InvalidArgument)
  }

  predicate AadFits(identity: Bytes, version: nat) {
    identity != [] && version != 0 && |Aad(identity, version)| < AAD_MAX
  }

  /** A DEK sealed under a KEK: its nonce and its wrapped form. */
  datatype Wrapped = Wrapped(nonce: Bytes, wrapped: Bytes)

  function Wrap(p: Prims, pf: Platform, name: Name, identity: Bytes, version: nat, dek: Digest, kek: Digest,
                random: Digest): Result<Wrapped>
  {
    match ManagedAlgorithm(pf, name)
    case Failure(e) => Failure(e)
    case Success(alg) =>
      if !AadFits(identity, version) then Failure(InvalidArgument)
      else
        var nonce := random[..NonceBytes(alg)];
        var wrapped := p.seal(alg, kek, nonce, Aad(identity, version), dek);
        if |wrapped| != 32 + TagBytes(alg) then Failure(Crypto) else Success(Wrapped(nonce, wrapped))
  }

  function Unwrap(p: Prims, pf: Platform, name: Name, identity: Bytes, version: nat, w: Wrapped, kek: Digest)
    : Result<Digest>
  {
    match ManagedAlgorithm(pf, name)
    case Failure(e) => Failure(e)
    case Success(alg) =>
      if !AadFits(identity, version) || |w.nonce| != NonceBytes(alg) || |w.wrapped| != 32 + TagBytes(alg) then
        Failure(InvalidArgument)
      else
        var dek := p.open(alg, kek, w.nonce, Aad(identity, version), w.wrapped);
        if dek == None || |dek.value| != 32 then Failure(Crypto) else Success(dek.value)
  }

  /** One row of KEK rotation: the DEK is re-wrapped, the KEK half of the
      commitment is recomputed and the DEK half is copied. */
  function Rewrap(p: Prims, pf: Platform, s: Sealed, identity: Bytes, version: nat, oldKek: Digest, newKek: Digest,
                  random: Digest): Result<Sealed>
  {
    if s.encryptedDek == [] || s.dekNonce == [] || |s.commitment| != 2 * HALF then Failure(Storage)
    else
      match Unwrap(p, pf, s.algorithm, identity, version, Wrapped(s.dekNonce, s.encryptedDek), oldKek)
      case Failure(e) => Failure(e)
      case Success(dek) =>
        match Wrap(p, pf, s.algorithm, identity, version, dek, newKek, random)
        case Failure(e) => Failure(e)
        case Success(w) =>
          Success(s.(encryptedDek := w.wrapped, dekNonce := w.nonce,
                     commitment := Commit(p, newKek, KekDomain(), w.nonce) + s.commitment[HALF..]))
  }

  /** On a stored name the two modules agree; the old spelling is read by the
      engine alone. */
  lemma {:induction false} ManagedAgrees(pf: Platform, name: Name)
    ensures ManagedAlgorithm(pf, name)
         == match AlgorithmFromName(pf, name)
            case None => Failure(InvalidArgument)
            case Some(alg) =>
              if name.OldChaCha20Poly1305? then Failure(InvalidArgument)
              else if Available(pf, alg) then Success(alg) else Failure(Crypto)
  {
  }

  /** What decrypts under the old KEK can be re-wrapped, and then decrypts
      under the new one to the same plaintext; payload, payload nonce and DEK
      commitment are carried over. */
  lemma {:induction false} RewrapKeepsPlaintext(p: Prims, pf: Platform, s: Sealed, identity: Bytes, version: nat,
                                                oldKek: Digest, newKek: Digest, random: Digest, capacity: nat)
    requires AeadCorrect(p) && s.algorithm.Canonical? && version > 0
    requires Decrypt(p, pf, s, oldKek, identity, version, capacity).Success?
    ensures Rewrap(p, pf, s, identity, version, oldKek, newKek, random).Success?
    ensures var s' := Rewrap(p, pf, s, identity, version, oldKek, newKek, random).value;
      Decrypt(p, pf, s', newKek, identity, version, capacity) == Decrypt(p, pf, s, oldKek, identity, version, capacity)
      && s' == s.(encryptedDek := s'.encryptedDek, dekNonce := s'.dekNonce, commitment := s'.commitment)
      && s'.commitment[HALF..] == s.commitment[HALF..]
  {
    ManagedAgrees(pf, s.algorithm);
    var alg, aad := AlgorithmFromName(pf, s.algorithm).value, Aad(identity, version);
    var dek := RecoverDek(p, s, alg, oldKek, aad).value;
    var nonce := random[..NonceBytes(alg)];
    assert SealOpens(p, alg, newKek, nonce, aad, dek);
    assert OpensShorter(p, alg, newKek, nonce, aad, p.seal(alg, newKek, nonce, aad, dek));
    var s' := Rewrap(p, pf, s, identity, version, oldKek, newKek, random).value;
    assert s'.commitment[..HALF] == Commit(p, newKek, KekDomain(), nonce);
    assert s'.commitment[HALF..] == s.commitment[HALF..];
  }

  /** A re-wrapped DEK is sealed with the nonce drawn for it, and is the DEK
      that was wrapped before. */
  lemma {:induction false} RewrapDraws(p: Prims, pf: Platform, s: Sealed, identity: Bytes, version: nat,
                                       oldKek: Digest, newKek: Digest, random: Digest)
    requires AeadCorrect(p) && Rewrap(p, pf, s, identity, version, oldKek, newKek, random).Success?
    ensures var s' := Rewrap(p, pf, s, identity, version, oldKek, newKek, random).value;
      var aad := Aad(identity, version);
      s.algorithm.Canonical? && |s'.dekNonce| == NonceBytes(s.algorithm.alg) && s'.dekNonce <= random &&
      p.open(s.algorithm.alg, newKek, s'.dekNonce, aad, s'.encryptedDek)
        == p.open(s.algorithm.alg, oldKek, s.dekNonce, aad, s.encryptedDek)
  {
    var dek := Unwrap(p, pf, s.algorithm, identity, version, Wrapped(s.dekNonce, s.encryptedDek), oldKek).value;
    var alg := s.algorithm.alg;
    assert SealOpens(p, alg, newKek, random[..NonceBytes(alg)], Aad(identity, version), dek);
  }

  /** Whether the two buffers hold what this algorithm writes. */
  predicate BuffersHold(alg: Algorithm, nonceLen: nat, wrappedLen: nat) {
    NonceBytes(alg) <= nonceLen && 32 + TagBytes(alg) <= wrappedLen
  }

  /** key_manager_wrap_dek: fills the front of the two caller buffers. A failed
      seal leaves both zeroed, an earlier failure leaves both alone. */
  method WrapDek(p: Prims, pf: Platform, name: Name, identity: Bytes, version: nat, dek: Digest, kek: Digest,
                 random: Digest, nonceBuf: array<byte>, wrappedBuf: array<byte>)
    returns (status: Status, nonceWritten: nat, wrappedWritten: nat)
    requires nonceBuf != wrappedBuf
    modifies nonceBuf, wrappedBuf
    ensures var r, managed := Wrap(p, pf, name, identity, version, dek, kek, random), ManagedAlgorithm(pf, name);
      if managed.Success? && AadFits(identity, version)
         && BuffersHold(managed.value, nonceBuf.Length, wrappedBuf.Length) then
        if r.Success? then
          status == Ok && nonceWritten == |r.value.nonce| && wrappedWritten == |r.value.wrapped| &&
          nonceBuf[..] == r.value.nonce + old(nonceBuf[..])[nonceWritten..] &&
          wrappedBuf[..] == r.value.wrapped + old(wrappedBuf[..])[wrappedWritten..]
        else
          status == r.error && nonceWritten == 0 == wrappedWritten &&
          nonceBuf[..] == Zeros(nonceBuf.Length) && wrappedBuf[..] == Zeros(wrappedBuf.Length)
      else
        status == (if managed.Failure? then managed.error else InvalidArgument) &&
        nonceWritten == 0 == wrappedWritten &&
        nonceBuf[..] == old(nonceBuf[..]) && wrappedBuf[..] == old(wrappedBuf[..])
  {
    nonceWritten, wrappedWritten := 0, 0;
    var managed := ManagedAlgorithm(pf, name);
    if managed.Failure? {
      return managed.error, 0, 0;
    }
    if !AadFits(identity, version) {
      return InvalidArgument, 0, 0;
    }
    var alg := managed.value;
    var expected := 32 + TagBytes(alg);
    if nonceBuf.Length < NonceBytes(alg) || wrappedBuf.Length < expected {
      return InvalidArgument, 0, 0;
    }
    var nonce := random[..NonceBytes(alg)];
    var wrapped := p.seal(alg, kek, nonce, Aad(identity, version), dek);
    if |wrapped| != expected {
      ZeroBuffer(nonceBuf);
      ZeroBuffer(wrappedBuf);
      return Crypto, 0, 0;
    }
    CopyInto(nonceBuf, 0, nonce);
    CopyInto(wrappedBuf, 0, wrapped);
    assert nonceBuf[..] == nonceBuf[..|nonce|] + nonceBuf[|nonce|..];
    assert wrappedBuf[..] == wrappedBuf[..|wrapped|] + wrappedBuf[|wrapped|..];
    return Ok, |nonce|, |wrapped|;
  }

  /** key_manager_unwrap_dek: the DEK goes to the front of the buffer, which is
      zeroed on failure. */
  method UnwrapDek(p: Prims, pf: Platform, name: Name, identity: Bytes, version: nat, w: Wrapped, kek: Digest,
                   dek: array<byte>) returns (status: Status)
    modifies dek
    ensures var r := Unwrap(p, pf, name, identity, version, w, kek);
      if dek.Length < 32 then status == InvalidArgument && dek[..] == Zeros(dek.Length)
      else if r.Success? then status == Ok && dek[..] == r.value + old(dek[..])[32..]
      else status == r.error && dek[..] == Zeros(dek.Length)
  {
    if dek.Length < 32 {
      ZeroBuffer(dek);
      return InvalidArgument;
    }
    var managed := ManagedAlgorithm(pf, name);
    if managed.Failure? {
      ZeroBuffer(dek);
      return managed.error;
    }
    var alg := managed.value;
    if !AadFits(identity, version) || |w.nonce| != NonceBytes(alg) || |w.wrapped| != 32 + TagBytes(alg) {
      ZeroBuffer(dek);
      return InvalidArgument;
    }
    var result := p.open(alg, kek, w.nonce, Aad(identity, version), w.wrapped);
    if result == None || |result.value| != 32 {
      ZeroBuffer(dek);
      return Crypto;
    }
    CopyInto(dek, 0, result.value);
    assert dek[..] == dek[..32] + dek[32..];
    return Ok;
  }

  /** The body of the rotation loop: key_manager_rewrap_dek, then the new
      commitment. The fixed local buffers are always large enough. */
  method RewrapRow(p: Prims, pf: Platform, s: Sealed, identity: Bytes, version: nat, oldKek: Digest, newKek: Digest,
                   random: Digest) returns (result: Result<Sealed>)
    ensures result == Rewrap(p, pf, s, identity, version, oldKek, newKek, random)
  {
    if s.encryptedDek == [] || s.dekNonce == [] || |s.commitment| != 2 * HALF {
      return Failure(Storage);
    }
    var dek := new byte[32](_ => 0);
    var status := UnwrapDek(p, pf, s.algorithm, identity, version, Wrapped(s.dekNonce, s.encryptedDek), oldKek, dek);
    if status != Ok {
      return Failure(status);
    }
    assert dek[..] == Unwrap(p, pf, s.algorithm, identity, version, Wrapped(s.dekNonce, s.encryptedDek), oldKek).value;
    var nonceBuf := new byte[MAX_NONCE_BYTES](_ => 0);
    var wrappedBuf := new byte[WRAPPED_DEK_BYTES](_ => 0);
    var nonceLen, wrappedLen;
    status, nonceLen, wrappedLen :=
      WrapDek(p, pf, s.algorithm, identity, version, dek[..], newKek, random, nonceBuf, wrappedBuf);
    if status != Ok {
      return Failure(status);
    }
    ghost var w := Wrap(p, pf, s.algorithm, identity, version, dek[..], newKek, random).value;
    assert nonceBuf[..nonceLen] == w.nonce && wrappedBuf[..wrappedLen] == w.wrapped;
    var commitment := Commit(p, newKek, KekDomain(), nonceBuf[..nonceLen]);
    return Success(s.(encryptedDek := wrappedBuf[..wrappedLen], dekNonce := nonceBuf[..nonceLen],
                      commitment := commitment + s.commitment[HALF..]));
  }
}
