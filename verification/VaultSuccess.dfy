/** When the vault's writes succeed: exactly when no step fails and a short list
    of limits is respected. Neither the table constraints nor the log can turn
    away a write in a sequential run. */
module VaultSuccess {
  import opened Common
  import opened Primitives
  import opened CryptoEngine
  import opened SecretsTable
  import opened VaultSpec
  import opened VaultRefinement
  import opened VaultOperations
  import E = AuditEntry
  import A = AuditChain

  /** The log accepts every entry about a stored name until ids run out. */
  lemma {:induction false} LoggedWhen(c: Context, t: Tables, e: Env, action: E.Action, stored: Bytes, version: nat)
    requires A.Verified(c.p, t.log, c.keys.audit) && A.IdsInOrder(t.log)
    requires version <= INT_MAX && |stored| == 64 && !action.Unknown?
    ensures Logged(c, t, e, action, stored, version).Some? <==> |t.log| < INT64_MAX
  {
    if t.log != [] {
      assert A.VerifiedAt(c.p, t.log, c.keys.audit, |t.log| - 1);
      assert t.log[|t.log| - 1].id == |t.log|;
    }
  }

  /** Sealing fails only for an unusable algorithm or an oversized plaintext. */
  lemma {:induction false} SealedWhen(c: Context, d: Draft, next: Next, e: Env)
    requires next.version <= INT_MAX
    ensures SealDraft(c, d, next, e).Success? <==>
              SelectAlgorithm(c.pf, d.algorithm).Success? &&
              |d.plain| + TagBytes(SelectAlgorithm(c.pf, d.algorithm).value) <= SIZE_MAX
  {
    assert Pow10(5) == 100000;
    assert Pow10(10) == 100000 * Pow10(5);
    DecimalLength(next.version, 10);
  }

  predicate FreshId(rows: seq<Row>, id: Bytes) {
    forall i :: 0 <= i < |rows| ==> rows[i].id != id
  }

  /** The limits a write has to respect. */
  predicate WithinLimits(c: Context, t: Tables, d: Draft, e: Env) {
    |History(t.secrets, d.stored)| < INT_MAX && |t.log| < INT64_MAX && FreshId(t.secrets, e.id) &&
    SelectAlgorithm(c.pf, d.algorithm).Success? &&
    |d.plain| + TagBytes(SelectAlgorithm(c.pf, d.algorithm).value) <= INT_MAX
  }

  /** Of the blobs to be bound, only the ciphertext and the caller's name blobs
      can be too long. */
  lemma {:induction false} BlobsFitWhen(c: Context, d: Draft, next: Next, e: Env, sealed: Sealed)
    requires AeadCorrect(c.p) && SealDraft(c, d, next, e) == Success(sealed)
    ensures BlobsFit(DraftRow(d, next, sealed, e)) <==>
              |d.plain| + TagBytes(SelectAlgorithm(c.pf, d.algorithm).value) <= INT_MAX &&
              NameBlobsFit(d.nameNonce, d.encryptedName)
  {
    var alg, aad := SelectAlgorithm(c.pf, d.algorithm).value, Aad(RowIdentity(c.p, e.id, d.stored), next.version);
    SealedLength(c.p, alg, e.rnd.dek, sealed.nonce, aad, d.plain);
    SealedLength(c.p, alg, c.keys.enc, sealed.dekNonce, aad, e.rnd.dek);
  }

  lemma {:induction false} SealedLength(p: Prims, alg: Algorithm, key: Bytes, nonce: Bytes, aad: Bytes, plain: Bytes)
    requires AeadCorrect(p)
    ensures |p.seal(alg, key, nonce, aad, plain)| == |plain| + TagBytes(alg)
  {
    assert SealOpens(p, alg, key, nonce, aad, plain);
    assert OpensShorter(p, alg, key, nonce, aad, p.seal(alg, key, nonce, aad, plain));
  }

  lemma {:induction false} NewNameBlobsFit(c: Context, e: Env, stored: Bytes, name: Bytes)
    requires AeadCorrect(c.p) && |name| <= NAME_MAX
    ensures NameBlobsFit(NameNonce(e), EncryptedName(c, e, stored, name))
  {
    SealedLength(c.p, XChaCha20Poly1305, c.keys.meta, NameNonce(e), stored, name);
  }

  /** The row to replace is there exactly as the draft expects. */
  predicate Expected(d: Draft, h: seq<Row>) {
    (d.how == Nothing ==> !HasActive(h)) && (d.how == MustExist ==> HasActive(h))
  }

  lemma {:induction false} StoredWhen(t: Tables, d: Draft, next: Next, sealed: Sealed, e: Env)
    requires Structural(t.secrets) && Expected(d, History(t.secrets, d.stored)) && sealed.algorithm.Canonical?
    requires NextOf(t.secrets, d.stored) == Some(next)
    ensures StoreRow(t.secrets, d.how, e.now, DraftRow(d, next, sealed, e)).Success?
       <==> BlobsFit(DraftRow(d, next, sealed, e)) && FreshId(t.secrets, e.id)
  {
    var row := DraftRow(d, next, sealed, e);
    Queries(t.secrets, d.stored);
    if FreshId(t.secrets, e.id) {
      SupersedeAccepts(t.secrets, d.how, e.now, row);
    }
  }

  lemma {:induction false} WriteSucceedsWhen(c: Context, t: Tables, d: Draft, e: Env)
    requires AeadCorrect(c.p) && Inv(c, t)
    requires |d.stored| == 64 && !d.action.Unknown? && Expected(d, History(t.secrets, d.stored))
    ensures WriteOutcome(c, t, d, e).Some? <==>
              TimesOk(d.interval, e) && StepsOk(d.how, e) && WithinLimits(c, t, d, e)
              && NameBlobsFit(d.nameNonce, d.encryptedName)
  {
    Queries(t.secrets, d.stored);
    assert Ordered(History(t.secrets, d.stored));
    var next := NextOf(t.secrets, d.stored);
    if next.Some? {
      SealedWhen(c, d, next.value, e);
      LoggedWhen(c, t, e, d.action, d.stored, next.value.version);
      var sealed := SealDraft(c, d, next.value, e);
      if sealed.Success? {
        BlobsFitWhen(c, d, next.value, e, sealed.value);
        StoredWhen(t, d, next.value, sealed.value, e);
      }
    }
  }

  /** put: a clean name, a representable lifetime, no failing step, and the
      limits. Whether the name was active or deleted makes no difference. */
  lemma {:induction false} PutSucceedsWhen(c: Context, t: Tables, name: Bytes, plain: Bytes, algorithm: Option<Name>,
                                           ttl: nat, e: Env)
    requires AeadCorrect(c.p) && Inv(c, t)
    ensures var d := PutDraft(c, t, name, plain, algorithm, ttl, e);
      PutOutcome(c, t, name, plain, algorithm, ttl, e).Some? <==>
        CleanName(name) && ttl <= INT64_MAX && e.ok(Lookup) && e.ok(EncryptName) && e.ok(ReadRow) &&
        TimesOk(ttl, e) && StepsOk(d.how, e) && WithinLimits(c, t, d, e)
  {
    var d := PutDraft(c, t, name, plain, algorithm, ttl, e);
    Queries(t.secrets, d.stored);
    WriteSucceedsWhen(c, t, d, e);
    if CleanName(name) {
      NewNameBlobsFit(c, e, d.stored, name);
    }
  }

  /** rollback(v): v must be a version ever stored under the name, whether or
      not anything is active now. */
  lemma {:induction false} RollbackSucceedsWhen(c: Context, t: Tables, name: Bytes, version: int, e: Env)
    requires AeadCorrect(c.p) && Inv(c, t)
    ensures var h := History(t.secrets, StoredName(c.p, c.keys.meta, name));
      RollbackOutcome(c, t, name, version, e).Some? <==>
        name != [] && |name| <= NAME_MAX && 1 <= version <= |h| && e.ok(Lookup) && e.ok(EncryptName) && e.ok(ReadRow) &&
        TimesOk(IntervalOf(h[version - 1]), e) && StepsOk(IfPresent, e) &&
        WithinLimits(c, t, RollbackDraft(c, name, h[version - 1], e), e)
  {
    var stored := StoredName(c.p, c.keys.meta, name);
    Queries(t.secrets, stored);
    var h := History(t.secrets, stored);
    if 1 <= version <= |h| {
      HistoryRowReads(c, t.secrets, stored, version - 1);
      RollbackIsWrite(c, t, name, version, h[version - 1], e);
      WriteSucceedsWhen(c, t, RollbackDraft(c, name, h[version - 1], e), e);
      if |name| <= NAME_MAX {
        NewNameBlobsFit(c, e, stored, name);
      }
    }
  }

  /** Once the version is found and read, a rollback is a write. */
  lemma {:induction false} RollbackIsWrite(c: Context, t: Tables, name: Bytes, version: nat, row: Row, e: Env)
    requires version >= 1 && FindVersion(t.secrets, StoredName(c.p, c.keys.meta, name), version) == Some(row)
    requires PlainRow(c, row).Success?
    ensures RollbackOutcome(c, t, name, version, e)
         == if name != [] && |name| <= NAME_MAX && e.ok(Lookup) && e.ok(EncryptName) && e.ok(ReadRow)
            then WriteOutcome(c, t, RollbackDraft(c, name, row, e), e) else None
  {
  }

  function RollbackDraft(c: Context, name: Bytes, row: Row, e: Env): Draft {
    var stored, plain := StoredName(c.p, c.keys.meta, name), PlainRow(c, row);
    Draft(stored, NameNonce(e), EncryptedName(c, e, stored, name), if plain.Success? then plain.value else [],
          Some(row.secret.algorithm), IntervalOf(row), IfPresent, E.Rollback)
  }

  /** delete: the name must be active. */
  lemma {:induction false} DeleteSucceedsWhen(c: Context, t: Tables, name: Bytes, e: Env)
    requires Inv(c, t)
    ensures DeleteOutcome(c, t, name, e).Some? <==>
              name != [] && ShelfOf(c, t.secrets, StoredName(c.p, c.keys.meta, name)).active &&
              e.ok(Lookup) && e.ok(Clock) && e.now <= MAX_TIME && e.ok(ReadRow) && e.ok(Begin) && e.ok(ArchiveRow) &&
              e.ok(Log) && e.ok(Commit) && |t.log| < INT64_MAX
  {
    var stored := StoredName(c.p, c.keys.meta, name);
    var h := History(t.secrets, stored);
    Queries(t.secrets, stored);
    assert Ordered(h);
    if HasActive(h) {
      assert h[|h| - 1].version == |h|;
      LoggedWhen(c, t, e, E.Delete, stored, |h|);
    }
  }
}
