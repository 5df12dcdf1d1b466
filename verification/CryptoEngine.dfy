/** Envelope encryption (src/crypto_engine.c): a fresh DEK seals the payload,
    the KEK seals the DEK, and a keyed hash commits to each key. */
module CryptoEngine {
  import opened Common
  import opened Primitives

  /** What the build and the processor offer. */
  datatype Platform = Platform(hasAegis: bool, hasAesHardware: bool)

  /** encrypted_secret_t. */
  datatype Sealed = Sealed(
    algorithm: Name, ciphertext: Bytes, encryptedDek: Bytes, nonce: Bytes, dekNonce: Bytes, commitment: Bytes)

  /** Random bytes drawn during one encryption; nonces use a prefix. */
  datatype Randomness = Randomness(dek: Digest, nonce: Digest, dekNonce: Digest)

  const HALF := 32
  const AAD_MAX := 256

  function KekDomain(): Bytes { Text("Fuin-kek-commit-v1") }
  function DekDomain(): Bytes { Text("Fuin-dek-commit-v1") }

  // ---------------------------------------------------------------- algorithm tables

  /** An algorithm string: one of the three stored names, the old spelling the
      engine still reads, or anything else. */
  datatype Name = Canonical(alg: Algorithm) | OldChaCha20Poly1305 | Unrecognised(text: string)

  function NameText(name: Name): string {
    match name
    case Canonical(Aes256Gcm) => "AES-256-GCM"
    case Canonical(XChaCha20Poly1305) => "XChaCha20-Poly1305"
    case Canonical(Aegis256) => "AEGIS-256"
    case OldChaCha20Poly1305 => "ChaCha20-Poly1305"
    case Unrecognised(text) => text
  }

  /** The recognised strings are pairwise different, so comparing strings and
      comparing names agree. */
  lemma {:induction false} NameTextInjective(a: Name, b: Name)
    requires !a.Unrecognised? && !b.Unrecognised? && NameText(a) == NameText(b)
    ensures a == b
  {
    assert |NameText(Canonical(Aes256Gcm))| == 11 && |NameText(Canonical(Aegis256))| == 9;
    assert |NameText(Canonical(XChaCha20Poly1305))| == 18 && |NameText(OldChaCha20Poly1305)| == 17;
  }

  /** crypto_engine_algorithm_from_name. */
  function AlgorithmFromName(pf: Platform, name: Name): Option<Algorithm> {
    match name
    case Canonical(alg) => if alg == Aegis256 && !pf.hasAegis then None else Some(alg)
    case OldChaCha20Poly1305 => Some(XChaCha20Poly1305)
    case Unrecognised(_) => None
  }

  predicate Available(pf: Platform, alg: Algorithm) {
    alg == Aes256Gcm ==> pf.hasAesHardware
  }

  function DefaultAlgorithm(pf: Platform): Algorithm {
    if pf.hasAegis then Aegis256 else XChaCha20Poly1305
  }

  /** crypto_engine_select_algorithm. */
  function SelectAlgorithm(pf: Platform, name: Option<Name>): Result<Algorithm> {
    if name == None then Success(DefaultAlgorithm(pf))
    else
      match AlgorithmFromName(pf, name.value)
      case None => Failure(InvalidArgument)
      case Some(alg) => if Available(pf, alg) then Success(alg) else Failure(Crypto)
  }

  /** A selected algorithm is usable, and its stored name selects it again. */
  lemma {:induction false} SelectedNameIsCanonical(pf: Platform, name: Option<Name>)
    requires SelectAlgorithm(pf, name).Success?
    ensures var alg := SelectAlgorithm(pf, name).value;
      Available(pf, alg) && AlgorithmFromName(pf, Canonical(alg)) == Some(alg)
  {
  }

  /** The default is AEGIS-256 where the build has it and XChaCha20 otherwise,
      never AES-GCM, so it works on every processor. */
  lemma {:induction false} DefaultWorksAnywhere(pf: Platform, hardware: bool)
    ensures SelectAlgorithm(pf, None) == SelectAlgorithm(pf.(hasAesHardware := hardware), None)
    ensures SelectAlgorithm(pf, None) == SelectAlgorithm(pf, Some(Canonical(if pf.hasAegis then Aegis256
                                                                           else XChaCha20Poly1305)))
  {
  }

  // ---------------------------------------------------------------- row identity and AAD

  function HexDigit(n: nat): byte
    requires n < 16
  {
    if n < 10 then 48 + n else 87 + n
  }

  function Hex(b: Bytes): (r: Bytes)
    ensures |r| == 2 * |b|
    ensures forall i :: 0 <= i < |r| ==> r[i] != 58
  {
    if b == [] then [] else Hex(b[..|b| - 1]) + [HexDigit(b[|b| - 1] / 16), HexDigit(b[|b| - 1] % 16)]
  }

  lemma {:induction false} HexInjective(a: Bytes, b: Bytes)
    requires Hex(a) == Hex(b)
    ensures a == b
  {
    assert |a| == |b|;
    if a != [] {
      var h, n := Hex(a), |a| - 1;
      assert h[..2 * n] == Hex(a[..n]) && Hex(b)[..2 * n] == Hex(b[..n]);
      HexInjective(a[..n], b[..n]);
      assert h[2 * n] == HexDigit(a[n] / 16) && Hex(b)[2 * n] == HexDigit(b[n] / 16);
      assert h[2 * n + 1] == HexDigit(a[n] % 16) && Hex(b)[2 * n + 1] == HexDigit(b[n] % 16);
      assert a == a[..n] + [a[n]] && b == b[..n] + [b[n]];
    }
  }

  function IdentityInput(id: Bytes, name: Bytes): Bytes {
    Text("Fuin secret row identity v1") + Le(|id|, 8) + id + Le(|name|, 8) + name
  }

  /** crypto_engine_build_row_identity on a non-empty id and name. */
  function RowIdentity(p: Prims, id: Bytes, name: Bytes): (r: Bytes)
    ensures |r| == 64
  {
    Hex(p.sha(IdentityInput(id, name)))
  }

  /** The associated data "identity:version". */
  function Aad(identity: Bytes, version: nat): Bytes {
    identity + [58] + Decimal(version)
  }

  lemma {:induction false} IdentityInputInjective(id: Bytes, name: Bytes, id': Bytes, name': Bytes)
    requires |id| <= SIZE_MAX && |id'| <= SIZE_MAX
    requires IdentityInput(id, name) == IdentityInput(id', name')
    ensures id == id' && name == name'
  {
    var domain, rest, rest' := Text("Fuin secret row identity v1"), Le(|name|, 8) + name, Le(|name'|, 8) + name';
    WidthLimits();
    assert IdentityInput(id, name) == domain + Le(|id|, 8) + id + rest;
    assert IdentityInput(id', name') == domain + Le(|id'|, 8) + id' + rest';
    FramedInjective(domain, id, rest, id', rest');
    assert rest[8..] == name && rest'[8..] == name';
  }

  lemma {:induction false} FramedInjective(domain: Bytes, id: Bytes, rest: Bytes, id': Bytes, rest': Bytes)
    requires |id| < Pow256(8) && |id'| < Pow256(8)
    requires domain + Le(|id|, 8) + id + rest == domain + Le(|id'|, 8) + id' + rest'
    ensures id == id' && rest == rest'
  {
    var whole := domain + Le(|id|, 8) + id + rest;
    FramePieces(domain, Le(|id|, 8), id, rest, whole);
    FramePieces(domain, Le(|id'|, 8), id', rest', whole);
    LeInjective(|id|, |id'|, 8);
  }

  lemma {:induction false} FramePieces(domain: Bytes, length: Bytes, id: Bytes, rest: Bytes, whole: Bytes)
    requires whole == domain + length + id + rest
    ensures var i, j := |domain|, |domain| + |length|;
      whole[i..j] == length && whole[j..j + |id|] == id && whole[j + |id|..] == rest
  {
  }

  /** A row's AAD names one row id, one stored name and one version, unless
      SHA-256 collides on the identity inputs. */
  lemma {:induction false} AadBindsRow(p: Prims, id: Bytes, name: Bytes, version: nat, id': Bytes, name': Bytes,
                                       version': nat)
    requires |id| <= SIZE_MAX && |id'| <= SIZE_MAX
    requires Aad(RowIdentity(p, id, name), version) == Aad(RowIdentity(p, id', name'), version')
    ensures (id == id' && name == name' && version == version')
         || Collision(p.sha, IdentityInput(id, name), IdentityInput(id', name'))
  {
    var a, b := Aad(RowIdentity(p, id, name), version), Aad(RowIdentity(p, id', name'), version');
    assert a[..64] == RowIdentity(p, id, name) && b[..64] == RowIdentity(p, id', name');
    HexInjective(p.sha(IdentityInput(id, name)), p.sha(IdentityInput(id', name')));
    assert a[65..] == Decimal(version) && b[65..] == Decimal(version');
    DecimalInjective(version, version');
    if IdentityInput(id, name) == IdentityInput(id', name') {
      IdentityInputInjective(id, name, id', name');
    }
  }

  // ---------------------------------------------------------------- encrypt and decrypt

  /** Keyed BLAKE2b over domain and nonce. */
  function Commit(p: Prims, key: Bytes, domain: Bytes, nonce: Bytes): Digest {
    p.keyed(key, domain + nonce)
  }

  /** AES-GCM nonces are a row prefix and the counter; the others are random. */
  function PayloadNonce(p: Prims, alg: Algorithm, identity: Bytes, counter: nat, random: Digest): (r: Bytes)
    ensures |r| == NonceBytes(alg)
  {
    if alg == Aes256Gcm then p.sha(identity)[..4] + Le(counter, 8) else random[..NonceBytes(alg)]
  }

  function Encrypt(p: Prims, pf: Platform, plain: Bytes, kek: Digest, identity: Bytes, version: nat, counter: nat,
                   name: Option<Name>, rnd: Randomness): Result<Sealed>
  {
    var aad := Aad(identity, version);
    if identity == [] || |aad| >= AAD_MAX then Failure(InvalidArgument)
    else
      match SelectAlgorithm(pf, name)
      case Failure(e) => Failure(e)
      case Success(alg) =>
        if |plain| > SIZE_MAX - TagBytes(alg) then Failure(InvalidArgument)
        else
          var nonce := PayloadNonce(p, alg, identity, counter, rnd.nonce);
          var dekNonce := rnd.dekNonce[..NonceBytes(alg)];
          Success(Sealed(Canonical(alg),
                         p.seal(alg, rnd.dek, nonce, aad, plain), p.seal(alg, kek, dekNonce, aad, rnd.dek),
                         nonce, dekNonce,
                         Commit(p, kek, KekDomain(), dekNonce) + Commit(p, rnd.dek, DekDomain(), nonce)))
  }

  predicate LengthsOk(s: Sealed, alg: Algorithm) {
    |s.ciphertext| >= TagBytes(alg) && |s.encryptedDek| == 32 + TagBytes(alg) &&
    |s.nonce| == NonceBytes(alg) && |s.dekNonce| == |s.nonce| && |s.commitment| == 2 * HALF
  }

  /** The DEK a KEK recovers, once the KEK half of the commitment matches. */
  function RecoverDek(p: Prims, s: Sealed, alg: Algorithm, kek: Digest, aad: Bytes): Option<Digest>
    requires LengthsOk(s, alg)
  {
    if Commit(p, kek, KekDomain(), s.dekNonce) != s.commitment[..HALF] then None
    else
      var dek := p.open(alg, kek, s.dekNonce, aad, s.encryptedDek);
      if dek == None || |dek.value| != 32 then None else Some(dek.value)
  }

  /** crypto_engine_decrypt into a buffer of the given capacity. */
  function Decrypt(p: Prims, pf: Platform, s: Sealed, kek: Digest, identity: Bytes, version: nat, capacity: nat)
    : Result<Bytes>
  {
    var aad := Aad(identity, version);
    if identity == [] then Failure(InvalidArgument)
    else
      match AlgorithmFromName(pf, s.algorithm)
      case None => Failure(InvalidArgument)
      case Some(alg) =>
        if !Available(pf, alg) then Failure(Crypto)
        else if |aad| >= AAD_MAX || !LengthsOk(s, alg) || capacity < |s.ciphertext| - TagBytes(alg) then
          Failure(InvalidArgument)
        else
          match RecoverDek(p, s, alg, kek, aad)
          case None => Failure(Crypto)
          case Some(dek) =>
            if Commit(p, dek, DekDomain(), s.nonce) != s.commitment[HALF..] then Failure(Crypto)
            else
              match p.open(alg, dek, s.nonce, aad, s.ciphertext)
              case None => Failure(Crypto)
              case Some(plain) => Success(plain)
  }

  /** Encrypt then decrypt is the identity, for every algorithm the platform
      accepts and any buffer that holds the plaintext. */
  lemma {:induction false} DecryptOfEncrypt(p: Prims, pf: Platform, plain: Bytes, kek: Digest, identity: Bytes,
                                            version: nat, counter: nat, name: Option<Name>, rnd: Randomness,
                                            capacity: nat)
    requires AeadCorrect(p)
    requires Encrypt(p, pf, plain, kek, identity, version, counter, name, rnd).Success?
    ensures var s := Encrypt(p, pf, plain, kek, identity, version, counter, name, rnd).value;
      Decrypt(p, pf, s, kek, identity, version, capacity)
        == if capacity >= |plain| then Success(plain) else Failure(InvalidArgument)
  {
    var s := Encrypt(p, pf, plain, kek, identity, version, counter, name, rnd).value;
    var alg, aad := SelectAlgorithm(pf, name).value, Aad(identity, version);
    SelectedNameIsCanonical(pf, name);
    assert SealOpens(p, alg, rnd.dek, s.nonce, aad, plain);
    assert SealOpens(p, alg, kek, s.dekNonce, aad, rnd.dek);
    assert OpensShorter(p, alg, rnd.dek, s.nonce, aad, s.ciphertext);
    assert OpensShorter(p, alg, kek, s.dekNonce, aad, s.encryptedDek);
    assert s.commitment[..HALF] == Commit(p, kek, KekDomain(), s.dekNonce);
    assert s.commitment[HALF..] == Commit(p, rnd.dek, DekDomain(), s.nonce);
  }

  /** The drawn DEK is what the KEK seals and what seals the payload, and the
      nonces are the drawn ones; an AES-GCM payload nonce ends in the counter. */
  lemma {:induction false} EncryptUsesDraws(p: Prims, pf: Platform, plain: Bytes, kek: Digest, identity: Bytes,
                                            version: nat, counter: nat, name: Option<Name>, rnd: Randomness)
    requires AeadCorrect(p)
    requires Encrypt(p, pf, plain, kek, identity, version, counter, name, rnd).Success?
    ensures var s := Encrypt(p, pf, plain, kek, identity, version, counter, name, rnd).value;
      SelectAlgorithm(pf, name).Success? &&
      Drawn(p, s, SelectAlgorithm(pf, name).value, kek, rnd, Aad(identity, version))
      && p.open(SelectAlgorithm(pf, name).value, rnd.dek, s.nonce, Aad(identity, version), s.ciphertext) == Some(plain)
      && (s.algorithm == Canonical(Aes256Gcm) ==> s.nonce == p.sha(identity)[..4] + Le(counter, 8))
  {
    var s := Encrypt(p, pf, plain, kek, identity, version, counter, name, rnd).value;
    var alg, aad := SelectAlgorithm(pf, name).value, Aad(identity, version);
    assert SealOpens(p, alg, rnd.dek, s.nonce, aad, plain) && SealOpens(p, alg, kek, s.dekNonce, aad, rnd.dek);
  }

  /** The wrapped key opens to the drawn DEK, and the nonces are drawn. */
  predicate Drawn(p: Prims, s: Sealed, alg: Algorithm, kek: Digest, rnd: Randomness, aad: Bytes) {
    s.algorithm == Canonical(alg) && p.open(alg, kek, s.dekNonce, aad, s.encryptedDek) == Some(rnd.dek) &&
    |s.dekNonce| == |s.nonce| == NonceBytes(alg) && s.dekNonce <= rnd.dekNonce &&
    (alg != Aes256Gcm ==> s.nonce <= rnd.nonce)
  }

  /** One identity's AES-GCM nonce is not used under two counters. */
  lemma {:induction false} GcmNonceCounts(p: Prims, identity: Bytes, counter: nat, random: Digest, identity': Bytes,
                                          counter': nat, random': Digest)
    requires counter <= SIZE_MAX && counter' <= SIZE_MAX
    requires PayloadNonce(p, Aes256Gcm, identity, counter, random)
          == PayloadNonce(p, Aes256Gcm, identity', counter', random')
    ensures counter == counter'
  {
    var a, b := PayloadNonce(p, Aes256Gcm, identity, counter, random),
                PayloadNonce(p, Aes256Gcm, identity', counter', random');
    assert a[4..] == Le(counter, 8) && b[4..] == Le(counter', 8);
    WidthLimits();
    LeInjective(counter, counter', 8);
  }

  /** The two halves of a commitment never hash one message. */
  lemma {:induction false} DomainsApart(nonce: Bytes, nonce': Bytes)
    ensures KekDomain() + nonce != DekDomain() + nonce'
  {
    var a, b := KekDomain(), DekDomain();
    assert |a| == 18 == |b|;
    assert a[5] == 'k' as int && b[5] == 'd' as int;
    assert (a + nonce)[5] == a[5] && (b + nonce')[5] == b[5];
  }

  /** What decrypts carries a commitment to its KEK and to the DEK that KEK
      opens, and every field has the length its algorithm asks for. */
  lemma {:induction false} DecryptedIsCommitted(p: Prims, pf: Platform, s: Sealed, kek: Digest, identity: Bytes,
                                                version: nat, capacity: nat)
    returns (alg: Algorithm, dek: Digest)
    requires AeadCorrect(p) && Decrypt(p, pf, s, kek, identity, version, capacity).Success?
    ensures p.open(alg, kek, s.dekNonce, Aad(identity, version), s.encryptedDek) == Some(dek)
    ensures s.commitment == p.keyed(kek, KekDomain() + s.dekNonce) + p.keyed(dek, DekDomain() + s.nonce)
    ensures |s.nonce| == |s.dekNonce| == NonceBytes(alg) && |s.encryptedDek| == 32 + TagBytes(alg)
    ensures var plain := Decrypt(p, pf, s, kek, identity, version, capacity).value;
      |s.ciphertext| == |plain| + TagBytes(alg) && |plain| <= capacity &&
      p.open(alg, dek, s.nonce, Aad(identity, version), s.ciphertext) == Some(plain)
  {
    alg := AlgorithmFromName(pf, s.algorithm).value;
    dek := RecoverDek(p, s, alg, kek, Aad(identity, version)).value;
    assert OpensShorter(p, alg, dek, s.nonce, Aad(identity, version), s.ciphertext);
    assert s.commitment == s.commitment[..HALF] + s.commitment[HALF..];
  }

  /** A record written under the old spelling reads as an XChaCha20 record. */
  lemma {:induction false} OldSpellingReads(p: Prims, pf: Platform, s: Sealed, kek: Digest, identity: Bytes,
                                            version: nat, capacity: nat)
    requires s.algorithm == Canonical(XChaCha20Poly1305)
    ensures Decrypt(p, pf, s.(algorithm := OldChaCha20Poly1305), kek, identity, version, capacity)
         == Decrypt(p, pf, s, kek, identity, version, capacity)
  {
  }

  /** A record belongs to one identity and version: were it to decrypt at two,
      the AEAD would open one wrapped key under two associated data. */
  lemma {:induction false} RecordBindsPlace(p: Prims, pf: Platform, s: Sealed, kek: Digest, identity: Bytes,
                                            version: nat, capacity: nat, identity': Bytes, version': nat,
                                            capacity': nat)
    requires Decrypt(p, pf, s, kek, identity, version, capacity).Success?
    requires Decrypt(p, pf, s, kek, identity', version', capacity').Success?
    ensures var aad, aad' := Aad(identity, version), Aad(identity', version');
      var alg := AlgorithmFromName(pf, s.algorithm);
      alg.Some? && p.open(alg.value, kek, s.dekNonce, aad, s.encryptedDek).Some? &&
      p.open(alg.value, kek, s.dekNonce, aad', s.encryptedDek).Some? &&
      (|identity| == 64 == |identity'| && aad == aad' ==> identity == identity' && version == version')
  {
    var aad, aad' := Aad(identity, version), Aad(identity', version');
    if |identity| == 64 == |identity'| && aad == aad' {
      assert aad[..64] == identity && aad'[..64] == identity';
      assert aad[65..] == Decimal(version) && aad'[65..] == Decimal(version');
      DecimalInjective(version, version');
    }
  }

  /** A stored secret decrypts under at most one KEK and to at most one
      plaintext; two KEKs would be a keyed-hash collision. */
  lemma {:induction false} OneKekOnePlaintext(p: Prims, pf: Platform, s: Sealed, identity: Bytes, version: nat,
                                              kek: Digest, capacity: nat, kek': Digest, capacity': nat)
    requires Decrypt(p, pf, s, kek, identity, version, capacity).Success?
    requires Decrypt(p, pf, s, kek', identity, version, capacity').Success?
    ensures (kek == kek' && Decrypt(p, pf, s, kek, identity, version, capacity)
                         == Decrypt(p, pf, s, kek', identity, version, capacity'))
         || KeyedCollision(p, kek, KekDomain() + s.dekNonce, kek', KekDomain() + s.dekNonce)
  {
  }

  /** Two records with one payload and one DEK commitment decrypt to the same
      plaintext whatever KEKs and wrapped DEKs they carry; otherwise the two
      recovered DEKs, which are returned, collide. */
  lemma {:induction false} PayloadPinsPlaintext(p: Prims, pf: Platform, s: Sealed, kek: Digest, capacity: nat,
                                                s': Sealed, kek': Digest, capacity': nat, identity: Bytes,
                                                version: nat)
    returns (dek: Digest, dek': Digest)
    requires Decrypt(p, pf, s, kek, identity, version, capacity).Success?
    requires Decrypt(p, pf, s', kek', identity, version, capacity').Success?
    requires s'.algorithm == s.algorithm && s'.ciphertext == s.ciphertext && s'.nonce == s.nonce
    requires s'.commitment[HALF..] == s.commitment[HALF..]
    ensures Decrypt(p, pf, s, kek, identity, version, capacity)
         == Decrypt(p, pf, s', kek', identity, version, capacity')
         || KeyedCollision(p, dek, DekDomain() + s.nonce, dek', DekDomain() + s.nonce)
  {
    var alg := AlgorithmFromName(pf, s.algorithm).value;
    dek := RecoverDek(p, s, alg, kek, Aad(identity, version)).value;
    dek' := RecoverDek(p, s', alg, kek', Aad(identity, version)).value;
  }

  // ---------------------------------------------------------------- the procedures

  /** crypto_engine_encrypt_with_algorithm: fills the record step by step. */
  method EncryptWithAlgorithm(p: Prims, pf: Platform, plain: Bytes, kek: Digest, identity: Bytes, version: nat,
                              counter: nat, name: Option<Name>, rnd: Randomness)
    returns (result: Result<Sealed>)
    ensures result == Encrypt(p, pf, plain, kek, identity, version, counter, name, rnd)
  {
    var aad := Aad(identity, version);
    if identity == [] || |aad| >= AAD_MAX {
      return Failure(InvalidArgument);
    }
    var selected := SelectAlgorithm(pf, name);
    if selected.Failure? {
      return Failure(selected.error);
    }
    var alg := selected.value;
    if |plain| > SIZE_MAX - TagBytes(alg) {
      return Failure(InvalidArgument);
    }
    var temp := Sealed(Canonical(alg), [], [], PayloadNonce(p, alg, identity, counter, rnd.nonce), [], []);
    temp := temp.(ciphertext := p.seal(alg, rnd.dek, temp.nonce, aad, plain));
    temp := temp.(dekNonce := rnd.dekNonce[..NonceBytes(alg)]);
    temp := temp.(encryptedDek := p.seal(alg, kek, temp.dekNonce, aad, rnd.dek));
    temp := temp.(commitment := Commit(p, kek, KekDomain(), temp.dekNonce));
    temp := temp.(commitment := temp.commitment + Commit(p, rnd.dek, DekDomain(), temp.nonce));
    result := Success(temp);
  }

  /** crypto_engine_decrypt: writes the plaintext into the caller's buffer, and
      never leaves part of one behind. */
  method DecryptInto(p: Prims, pf: Platform, s: Sealed, kek: Digest, identity: Bytes, version: nat, buf: array<byte>)
    returns (status: Status, written: nat)
    requires AeadCorrect(p)
    modifies buf
    ensures var r := Decrypt(p, pf, s, kek, identity, version, buf.Length);
      if r.Success? then
        status == Ok && written == |r.value| <= buf.Length && buf[..] == r.value + old(buf[..])[written..]
      else status == r.error && written == 0 && (buf[..] == old(buf[..]) || buf[..] == Zeros(buf.Length))
    ensures status == Crypto && Available(pf, AlgorithmFromName(pf, s.algorithm).value) ==> buf[..] == Zeros(buf.Length)
  {
    written := 0;
    var aad := Aad(identity, version);
    if identity == [] {
      return InvalidArgument, 0;
    }
    var parsed := AlgorithmFromName(pf, s.algorithm);
    if parsed == None {
      return InvalidArgument, 0;
    }
    var alg := parsed.value;
    if !Available(pf, alg) {
      return Crypto, 0;
    }
    if |aad| >= AAD_MAX || !LengthsOk(s, alg) || buf.Length < |s.ciphertext| - TagBytes(alg) {
      return InvalidArgument, 0;
    }
    var commitment := Commit(p, kek, KekDomain(), s.dekNonce);
    if commitment != s.commitment[..HALF] {
      ZeroBuffer(buf);
      return Crypto, 0;
    }
    var dek := p.open(alg, kek, s.dekNonce, aad, s.encryptedDek);
    if dek == None || |dek.value| != 32 {
      ZeroBuffer(buf);
      return Crypto, 0;
    }
    commitment := Commit(p, dek.value, DekDomain(), s.nonce);
    if commitment != s.commitment[HALF..] {
      ZeroBuffer(buf);
      return Crypto, 0;
    }
    var plain := p.open(alg, dek.value, s.nonce, aad, s.ciphertext);
    if plain == None {
      ZeroBuffer(buf);
      return Crypto, 0;
    }
    assert OpensShorter(p, alg, dek.value, s.nonce, aad, s.ciphertext);
    CopyInto(buf, 0, plain.value);
    assert buf[..] == buf[..|plain.value|] + buf[|plain.value|..];
    return Ok, |plain.value|;
  }
}
