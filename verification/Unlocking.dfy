/** From a password to session keys (src/vault.c, src/kdf.c): initialising a
    vault, unlocking it, and unlocking it again after a KEK rotation. */
module Unlocking {
  import opened Common
  import opened Primitives
  import opened CryptoEngine
  import opened VaultSpec
  import opened VaultRefinement
  import opened VaultRuns
  import KekRotation

  const SALT_BYTES := 16

  /** Argon2id and the subkey derivation. */
  datatype Kdf = Kdf(master: (Bytes, Bytes) -> Digest, subkey: (Digest, nat) -> Digest)

  function Verifier(p: Prims, kdf: Kdf, password: Bytes, salt: Bytes): Digest {
    p.sha(kdf.master(password, salt))
  }

  function EncKey(kdf: Kdf, password: Bytes, salt: Bytes): Digest { kdf.subkey(kdf.master(password, salt), 1) }

  function AuditKey(kdf: Kdf, password: Bytes, salt: Bytes): Digest { kdf.subkey(kdf.master(password, salt), 2) }

  /** vault_derive_credentials for a rotation to a new password. */
  function Derived(p: Prims, kdf: Kdf, password: Bytes, salt: Bytes, k: NewKek): NewKek {
    k.(enc := EncKey(kdf, password, salt), audit := AuditKey(kdf, password, salt), salt := salt,
       verifier := Verifier(p, kdf, password, salt))
  }

  predicate HasCredentials(metadata: map<string, Bytes>) {
    "salt" in metadata || "password_verifier" in metadata
  }

  /** vault_unlock on a file that already holds credentials, with the steps
      that may fail: reading the credentials, deriving the master key, noting a
      wrong password, deriving the subkeys and reading the wrapped name key. */
  function UnlockOutcome(p: Prims, kdf: Kdf, metadata: map<string, Bytes>, password: Bytes, ok: Step -> bool)
    : Result<Keys>
  {
    if password == [] then Failure(InvalidArgument)
    else if !ok(ReadMeta) then Failure(Storage)
    else if !HasCredentials(metadata) then Failure(NotFound)
    else if !CredentialsOk(metadata) then Failure(Storage)
    else if !ok(Derive) then Failure(Crypto)
    else
      var salt := metadata["salt"];
      if Verifier(p, kdf, password, salt) != metadata["password_verifier"] then
        Failure(if ok(LogFailure) then Auth else Storage)
      else if !ok(Subkeys) then Failure(Crypto)
      else if !ok(ReadKey) then Failure(Storage)
      else
        var enc := EncKey(kdf, password, salt);
        match LoadMetaKey(p, metadata, enc)
        case Failure(e) => Failure(e)
        case Success(meta) => Success(Keys(enc, meta, AuditKey(kdf, password, salt)))
  }

  predicate CredentialsOk(metadata: map<string, Bytes>) {
    "salt" in metadata && "password_verifier" in metadata && |metadata["salt"]| == SALT_BYTES
    && |metadata["password_verifier"]| == 32
  }

  /** What the file and the password alone decide. */
  function UnlockExisting(p: Prims, kdf: Kdf, metadata: map<string, Bytes>, password: Bytes): Result<Keys> {
    UnlockOutcome(p, kdf, metadata, password, _ => true)
  }

  /** A failing step keeps a vault locked; it never unlocks one, and never
      yields other keys. */
  lemma {:induction false} UnlocksExactlyWhen(p: Prims, kdf: Kdf, metadata: map<string, Bytes>, password: Bytes,
                                              ok: Step -> bool)
    ensures var r, whole := UnlockOutcome(p, kdf, metadata, password, ok), UnlockExisting(p, kdf, metadata, password);
      (r.Success? <==> whole.Success? && ok(ReadMeta) && ok(Derive) && ok(Subkeys) && ok(ReadKey)) &&
      (r.Success? ==> r == whole)
  {
  }

  /** The metadata vault_store_auth_metadata writes when there are no
      credentials yet; the name key is derived from the first password. */
  function Initialised(p: Prims, kdf: Kdf, metadata: map<string, Bytes>, password: Bytes, salt: Bytes, nonce: Digest)
    : Option<map<string, Bytes>>
  {
    WithMetaKey(p, metadata["salt" := salt]["password_verifier" := Verifier(p, kdf, password, salt)],
                kdf.subkey(kdf.master(password, salt), 4), EncKey(kdf, password, salt), nonce)
  }

  lemma {:induction false} KeysDiffer()
    ensures "salt" != "password_verifier" && "salt" != "meta_key_nonce" && "salt" != "meta_key_wrapped"
    ensures "password_verifier" != "meta_key_nonce" && "password_verifier" != "meta_key_wrapped"
    ensures "meta_key_nonce" != "meta_key_wrapped"
  {
    assert |"salt"| == 4 && |"password_verifier"| == 17 && |"meta_key_nonce"| == 14 && |"meta_key_wrapped"| == 16;
  }

  /** A vault can be initialised with any password, unlocks with it, and then
      is a fresh vault in the sense the run theorems start from. */
  lemma {:induction false} InitialisedUnlocks(p: Prims, pf: Platform, kdf: Kdf, metadata: map<string, Bytes>,
                                              password: Bytes, salt: Bytes, nonce: Digest)
    requires AeadCorrect(p) && password != [] && |salt| == SALT_BYTES
    ensures Initialised(p, kdf, metadata, password, salt, nonce).Some?
    ensures var stored := Initialised(p, kdf, metadata, password, salt, nonce).value;
      var r := UnlockExisting(p, kdf, stored, password);
      r.Success? && Fresh(State(Context(p, pf, r.value), Tables([], [], stored)))
  {
    KeysDiffer();
    var enc, meta := EncKey(kdf, password, salt), kdf.subkey(kdf.master(password, salt), 4);
    assert SealOpens(p, XChaCha20Poly1305, enc, nonce[..24], MetaAad(), meta);
    assert OpensShorter(p, XChaCha20Poly1305, enc, nonce[..24], MetaAad(),
                        p.seal(XChaCha20Poly1305, enc, nonce[..24], MetaAad(), meta));
  }

  /** After a rotation the new password unlocks to exactly the new session
      keys, so names keep their lookups; any password that unlocks shares the
      new password's verifier. */
  lemma {:induction false} RotatedUnlocks(c: Context, kdf: Kdf, t: Tables, k: NewKek, e: Env, t': Tables,
                                          password: Bytes, salt: Bytes, other: Bytes)
    requires AeadCorrect(c.p) && Inv(c, t) && password != [] && |salt| == SALT_BYTES
    requires k == Derived(c.p, kdf, password, salt, k) && RotateKekOutcome(c, t, k, e) == Some(t')
    ensures UnlockExisting(c.p, kdf, t'.metadata, password) == Success(RotatedContext(c, k).keys)
    ensures UnlockExisting(c.p, kdf, t'.metadata, other).Success? ==>
              Verifier(c.p, kdf, other, salt) == Verifier(c.p, kdf, password, salt) &&
              SameMaster(c.p, kdf, password, other, salt)
  {
    KekRotation.RotateKekKeeps(c, t, k, e, t');
    KeysDiffer();
  }

  /** Two passwords lead to one master key, or to two that collide. */
  predicate SameMaster(p: Prims, kdf: Kdf, password: Bytes, other: Bytes, salt: Bytes) {
    kdf.master(other, salt) == kdf.master(password, salt)
    || Collision(p.sha, kdf.master(other, salt), kdf.master(password, salt))
  }

  /** A password with another master key is refused before any subkey is
      derived, and the refusal is noted; only a failing note is reported
      instead. */
  lemma {:induction false} WrongPasswordRefused(p: Prims, kdf: Kdf, metadata: map<string, Bytes>, password: Bytes,
                                                salt: Bytes, other: Bytes, ok: Step -> bool)
    requires "salt" in metadata && metadata["salt"] == salt && |salt| == SALT_BYTES
    requires "password_verifier" in metadata && metadata["password_verifier"] == Verifier(p, kdf, password, salt)
    requires other != [] && ok(ReadMeta) && ok(Derive) && !SameMaster(p, kdf, password, other, salt)
    ensures UnlockOutcome(p, kdf, metadata, other, ok) == Failure(if ok(LogFailure) then Auth else Storage)
  {
  }

  /** So it is for a vault initialised with one password. */
  lemma {:induction false} InitialisedRefuses(p: Prims, kdf: Kdf, metadata: map<string, Bytes>, password: Bytes,
                                              salt: Bytes, nonce: Digest, other: Bytes, ok: Step -> bool)
    requires |salt| == SALT_BYTES && Initialised(p, kdf, metadata, password, salt, nonce).Some?
    requires other != [] && ok(ReadMeta) && ok(Derive) && !SameMaster(p, kdf, password, other, salt)
    ensures UnlockOutcome(p, kdf, Initialised(p, kdf, metadata, password, salt, nonce).value, other, ok)
         == Failure(if ok(LogFailure) then Auth else Storage)
  {
    KeysDiffer();
    WrongPasswordRefused(p, kdf, Initialised(p, kdf, metadata, password, salt, nonce).value, password, salt, other, ok);
  }

  /** And for one rotated to it. */
  lemma {:induction false} RotatedRefuses(c: Context, kdf: Kdf, t: Tables, k: NewKek, e: Env, t': Tables,
                                          password: Bytes, salt: Bytes, other: Bytes, ok: Step -> bool)
    requires AeadCorrect(c.p) && Inv(c, t) && |salt| == SALT_BYTES
    requires k == Derived(c.p, kdf, password, salt, k) && RotateKekOutcome(c, t, k, e) == Some(t')
    requires other != [] && ok(ReadMeta) && ok(Derive) && !SameMaster(c.p, kdf, password, other, salt)
    ensures UnlockOutcome(c.p, kdf, t'.metadata, other, ok) == Failure(if ok(LogFailure) then Auth else Storage)
  {
    KekRotation.RotateKekKeeps(c, t, k, e, t');
    WrongPasswordRefused(c.p, kdf, t'.metadata, password, salt, other, ok);
  }

  /** The session's three keys come from different subkeys: two of them are
      equal only if the derivation gives one key at two indices. */
  lemma {:induction false} SubkeysApart(p: Prims, kdf: Kdf, metadata: map<string, Bytes>, password: Bytes,
                                        salt: Bytes, nonce: Digest)
    requires AeadCorrect(p) && password != [] && |salt| == SALT_BYTES
    ensures var stored := Initialised(p, kdf, metadata, password, salt, nonce);
      stored.Some? && UnlockExisting(p, kdf, stored.value, password).Success? &&
      var keys := UnlockExisting(p, kdf, stored.value, password).value;
      var m := kdf.master(password, salt);
      (keys.enc == keys.audit || keys.enc == keys.meta || keys.audit == keys.meta ==>
         kdf.subkey(m, 1) == kdf.subkey(m, 2) || kdf.subkey(m, 1) == kdf.subkey(m, 4)
         || kdf.subkey(m, 2) == kdf.subkey(m, 4))
  {
    InitialisedUnlocks(p, Platform(false, false), kdf, metadata, password, salt, nonce);
    KeysDiffer();
    var enc, meta := EncKey(kdf, password, salt), kdf.subkey(kdf.master(password, salt), 4);
    assert SealOpens(p, XChaCha20Poly1305, enc, nonce[..24], MetaAad(), meta);
  }
}
