/** The vault as a program: session keys, tables and transactions updated in
    place, with every storage step free to fail (src/vault.c). */
module Vault {
  import opened Common
  import opened Primitives
  import opened CryptoEngine
  import opened SecretsTable
  import opened VaultSpec
  import opened VaultRefinement
  import opened VaultOperations
  import KeyManager
  import KekRotation
  import Auto = AutoRotation
  import U = Unlocking
  import R = VaultRuns
  import E = AuditEntry
  import A = AuditChain

  /** Auto-rotation came to its end on turn n: with this count when it
      succeeded, and with a failed step otherwise. */
  ghost predicate LoopEnded(c: Context, before: Tables, captured: nat, envs: nat -> Env, n: nat, after: Tables,
                            status: Status, rotated: nat)
  {
    Auto.AutoRotate(c, before, captured, Auto.Turns(envs, n))
      == (after, if status == Ok then Auto.Done(rotated) else Auto.Failed)
  }

  /** How many plaintext bytes a read puts into the buffer before it is logged. */
  function Exposed(c: Context, found: Option<Row>, capacity: nat, e: Env): nat {
    if e.ok(Lookup) && e.ok(ReadRow) && found.Some? && DecryptRow(c, found.value, capacity).Success?
    then |DecryptRow(c, found.value, capacity).value| else 0
  }

  /** Of a buffer, the first n bytes or more were zeroed and the rest left alone. */
  ghost predicate Cleared(before: Bytes, after: Bytes, n: nat) {
    exists m: nat :: n <= m <= |before| && after == Zeros(m) + before[m..]
  }

  lemma {:induction false} NothingCleared(before: Bytes)
    ensures Cleared(before, before, 0)
  {
    assert before == Zeros(0) + before[0..];
  }

  lemma {:induction false} FailedReadCleared(c: Context, found: Option<Row>, before: Bytes, after: Bytes, e: Env)
    requires found.Some? && DecryptRow(c, found.value, |before|).Failure?
    requires after == before || after == Zeros(|before|)
    ensures Cleared(before, after, Exposed(c, found, |before|, e))
  {
    if after == before {
      NothingCleared(before);
    } else {
      assert after == Zeros(|before|) + before[|before|..];
    }
  }

  /** The first n rows are re-wrapped, the others are still as they were. */
  predicate RewrappedTo(c: Context, before: seq<Row>, k: NewKek, n: nat, now: seq<Row>) {
    n <= |before| == |now| && RewrapRows(c, before, k, n).Some? &&
    now == RewrapRows(c, before, k, n).value + before[n..]
  }

  class Vault {
    const p: Prims
    const pf: Platform
    const audit: A.AuditLog

    var secrets: seq<Row>
    var metadata: map<string, Bytes>
    /** g_subkeys; None while locked. */
    var keys: Option<Keys>
    /** The tables as they were at BEGIN IMMEDIATE. */
    var saved: Option<Tables>

    constructor (p: Prims, pf: Platform)
      ensures Now() == Tables([], [], map[]) && keys == None && saved == None && fresh(audit)
      ensures this.p == p && this.pf == pf
    {
      this.p, this.pf := p, pf;
      audit := new A.AuditLog();
      secrets, metadata, keys, saved := [], map[], None, None;
    }

    function Now(): Tables
      reads this, audit
    {
      Tables(secrets, audit.rows, metadata)
    }

    function Ctx(): Context
      requires keys.Some?
      reads this
    {
      Context(p, pf, keys.value)
    }

    /** No transaction is open and an unlocked vault satisfies the invariant. */
    ghost predicate Valid()
      reads this, audit
    {
      saved == None && AeadCorrect(p) && (keys.Some? ==> Inv(Ctx(), Now()))
    }

    // -------------------------------------------------------------- sessions

    /** vault_lock_state. */
    method Lock()
      requires Valid()
      modifies this`keys
      ensures Valid() && keys == None
    {
      keys := None;
    }

    /** vault_unlock_existing: any failure but an empty password leaves the
        vault locked. */
    method Unlock(kdf: U.Kdf, password: Bytes, e: Env) returns (status: Status)
      requires Valid()
      modifies this`keys
      ensures Unlocked(kdf, password, e, old(keys), status)
      ensures status != Ok || Inv(Ctx(), Now()) ==> Valid()
    {
      if password == [] {
        return InvalidArgument;
      }
      keys := None;
      if !e.ok(ReadMeta) {
        return Storage;
      }
      if !U.HasCredentials(metadata) {
        return NotFound;
      }
      if !U.CredentialsOk(metadata) {
        return Storage;
      }
      if !e.ok(Derive) {
        return Crypto;
      }
      var salt := metadata["salt"];
      if U.Verifier(p, kdf, password, salt) != metadata["password_verifier"] {
        return if e.ok(LogFailure) then Auth else Storage;
      }
      if !e.ok(Subkeys) {
        return Crypto;
      }
      if !e.ok(ReadKey) {
        return Storage;
      }
      var meta := LoadMetaKey(p, metadata, U.EncKey(kdf, password, salt));
      if meta.Failure? {
        return meta.error;
      }
      keys := Some(Keys(U.EncKey(kdf, password, salt), meta.value, U.AuditKey(kdf, password, salt)));
      return Ok;
    }

    /** What unlocking with existing credentials leaves and returns. */
    predicate Unlocked(kdf: U.Kdf, password: Bytes, e: Env, before: Option<Keys>, status: Status)
      reads this
    {
      var r := U.UnlockOutcome(p, kdf, metadata, password, e.ok);
      if r.Success? then status == Ok && keys == Some(r.value)
      else status == r.error && keys == if password == [] then before else None
    }

    /** vault_unlock: on a file without credentials it first stores them and
        the wrapped name key in one transaction; other tables are not looked
        at. */
    method Initialise(kdf: U.Kdf, password: Bytes, salt: Bytes, nonce: Digest, e: Env) returns (status: Status)
      requires Valid() && |salt| == U.SALT_BYTES
      modifies this, audit
      ensures secrets == old(secrets) && audit.rows == old(audit.rows) && saved == None
      ensures password == [] || U.HasCredentials(old(metadata)) ==>
                metadata == old(metadata) && Unlocked(kdf, password, e, old(keys), status)
      ensures password != [] && !U.HasCredentials(old(metadata)) ==>
                (status == Ok <==> e.ok(ReadMeta) && e.ok(Derive) && e.ok(Subkeys) && e.ok(Begin) && e.ok(UpdateMeta)
                                   && e.ok(Commit)) &&
                if status != Ok then keys == None && metadata == old(metadata)
                else Some(metadata) == U.Initialised(p, kdf, old(metadata), password, salt, nonce) && keys.Some?
                     && U.UnlockExisting(p, kdf, metadata, password) == Success(keys.value)
      ensures status == Ok && !U.HasCredentials(old(metadata)) && secrets == [] && audit.rows == [] ==>
                R.Fresh(R.State(Ctx(), Now())) && Valid()
      ensures status != Ok || Inv(Ctx(), Now()) ==> Valid()
    {
      if password == [] || U.HasCredentials(metadata) {
        status := Unlock(kdf, password, e);
        return;
      }
      keys := None;
      if !e.ok(ReadMeta) {
        return Storage;
      }
      if !e.ok(Derive) || !e.ok(Subkeys) {
        return Crypto;
      }
      U.InitialisedUnlocks(p, pf, kdf, metadata, password, salt, nonce);
      status := StoreAuthMetadata(U.Initialised(p, kdf, metadata, password, salt, nonce).value, e);
      if status == Ok {
        keys := Some(U.UnlockExisting(p, kdf, metadata, password).value);
        if secrets == [] && audit.rows == [] {
          R.FreshInv(R.State(Ctx(), Now()));
        }
      }
    }

    /** vault_store_auth_metadata. */
    method StoreAuthMetadata(stored: map<string, Bytes>, e: Env) returns (status: Status)
      requires saved == None
      modifies this`secrets, this`metadata, this`saved, audit
      ensures status == Ok <==> e.ok(Begin) && e.ok(UpdateMeta) && e.ok(Commit)
      ensures saved == None && Now() == if status == Ok then old(Now()).(metadata := stored) else old(Now())
    {
      status := BeginTransaction(e.ok(Begin));
      if status == Ok {
        if e.ok(UpdateMeta) {
          metadata := stored;
        } else {
          status := Storage;
        }
      }
      status := EndTransaction(status, e.ok(Commit));
    }

    // -------------------------------------------------------------- transactions

    method BeginTransaction(ok: bool) returns (status: Status)
      requires saved == None
      modifies this`saved
      ensures status == (if ok then Ok else Storage)
      ensures saved == if ok then Some(Now()) else None
    {
      if !ok {
        return Storage;
      }
      saved := Some(Now());
      return Ok;
    }

    /** COMMIT when everything succeeded so far, otherwise ROLLBACK; a failed
        COMMIT is rolled back too. */
    method EndTransaction(status: Status, commitOk: bool) returns (result: Status)
      modifies this`secrets, this`metadata, this`saved, audit
      ensures result == Ok <==> status == Ok && commitOk
      ensures status != Ok ==> result == status
      ensures saved == None
      ensures Now() == if result == Ok || old(saved) == None then old(Now()) else old(saved).value
    {
      result := if status == Ok && !commitOk then Storage else status;
      if result != Ok && saved.Some? {
        secrets := saved.value.secrets;
        metadata := saved.value.metadata;
        audit.rows := saved.value.log;
      }
      saved := None;
    }

    method ArchiveActiveRow(name: Bytes, now: nat, requireExisting: bool, ok: bool) returns (status: Status)
      modifies this`secrets
      ensures status == Ok <==> ok && ArchiveActive(old(secrets), name, now, requireExisting).Success?
      ensures secrets == if status == Ok then ArchiveActive(old(secrets), name, now, requireExisting).value
                         else old(secrets)
    {
      if !ok {
        return Storage;
      }
      var changes := CountActive(secrets, name);
      if changes > 1 {
        return Storage;
      }
      if requireExisting && changes == 0 {
        return NotFound;
      }
      secrets := Archive(secrets, name, now);
      return Ok;
    }

    method InsertSecret(row: Row, ok: bool) returns (status: Status)
      modifies this`secrets
      ensures status == Ok <==> ok && BlobsFit(row) && CanInsert(old(secrets), row)
      ensures ok && !BlobsFit(row) ==> status == InvalidArgument
      ensures secrets == if status == Ok then old(secrets) + [row] else old(secrets)
    {
      if !ok {
        return Storage;
      }
      if !BlobsFit(row) {
        return InvalidArgument;
      }
      if !CanInsert(secrets, row) {
        return Storage;
      }
      secrets := secrets + [row];
      return Ok;
    }

    /** vault_log_success. */
    method LogSuccess(action: E.Action, target: Bytes, version: nat, e: Env) returns (status: Status)
      requires keys.Some? && version <= INT_MAX
      modifies audit
      ensures var log := Logged(Ctx(), old(Now()), e, action, target, version);
        (status == Ok <==> log.Some? && e.ok(Log)) && audit.rows == if status == Ok then log.value else old(audit.rows)
    {
      status := audit.LogEvent(p, keys.value.audit, e.stamp, LogEvent(action, target, version), e.ok(Log));
    }

    // -------------------------------------------------------------- writing

    /** The steps put, rollback and rotation share inside their transaction:
        archive, insert, log. */
    method StoreSteps(row: Row, how: Replace, action: E.Action, e: Env) returns (status: Status)
      requires keys.Some? && row.version <= INT_MAX
      modifies this`secrets, audit
      ensures var rows := StoreRow(old(secrets), how, e.now, row);
        var log := Logged(Ctx(), old(Now()), e, action, row.name, row.version);
        (status == Ok <==> (how != Nothing ==> e.ok(ArchiveRow)) && e.ok(Insert) && e.ok(Log) && rows.Success?
                           && log.Some?)
        && (status == Ok ==> secrets == rows.value && audit.rows == log.value)
    {
      status := ReplaceRow(row, how, e);
      if status == Ok {
        status := LogSuccess(action, row.name, row.version, e);
      }
    }

    method ReplaceRow(row: Row, how: Replace, e: Env) returns (status: Status)
      modifies this`secrets
      ensures var rows := StoreRow(old(secrets), how, e.now, row);
        (status == Ok <==> (how != Nothing ==> e.ok(ArchiveRow)) && e.ok(Insert) && rows.Success?)
        && (status == Ok ==> secrets == rows.value)
    {
      status := Ok;
      if how != Nothing {
        status := ArchiveActiveRow(row.name, e.now, how == MustExist, e.ok(ArchiveRow));
      }
      if status == Ok {
        status := InsertSecret(row, e.ok(Insert));
      }
    }

    /** Those steps as one transaction. */
    method StoreVersion(row: Row, how: Replace, action: E.Action, e: Env) returns (status: Status)
      requires saved == None && keys.Some? && row.version <= INT_MAX
      modifies this`secrets, this`metadata, this`saved, audit
      ensures saved == None
      ensures var rows := StoreRow(old(secrets), how, e.now, row);
        var log := Logged(Ctx(), old(Now()), e, action, row.name, row.version);
        (status == Ok <==> e.ok(Begin) && (how != Nothing ==> e.ok(ArchiveRow)) && e.ok(Insert) && e.ok(Log)
                           && e.ok(Commit) && rows.Success? && log.Some?) &&
        Now() == if status == Ok then old(Now()).(secrets := rows.value, log := log.value) else old(Now())
    {
      status := BeginTransaction(e.ok(Begin));
      if status == Ok {
        status := StoreSteps(row, how, action, e);
      }
      status := EndTransaction(status, e.ok(Commit));
    }

    /** What put, rollback and rotation have in common: read the bounds, seal
        the plaintext as the next version, then store it. */
    method WriteVersion(d: Draft, e: Env) returns (status: Status)
      requires Valid() && keys.Some?
      modifies this`secrets, this`metadata, this`saved, audit
      ensures saved == None
      ensures var r := WriteOutcome(Ctx(), old(Now()), d, e);
        (status == Ok <==> r.Some?) && Now() == if r.Some? then r.value else old(Now())
    {
      if !TimesOk(d.interval, e) || !e.ok(Bounds) {
        return Storage;
      }
      var next := NextOf(secrets, d.stored);
      if next.None? {
        return Storage;
      }
      NextFits(secrets, d.stored);
      if !e.ok(Uuid) || !e.ok(Identity) || !e.ok(Seal) {
        return Crypto;
      }
      var sealed := EncryptWithAlgorithm(p, pf, d.plain, keys.value.enc, RowIdentity(p, e.id, d.stored),
                                         next.value.version, next.value.counter, d.algorithm, e.rnd);
      if sealed.Failure? {
        return sealed.error;
      }
      status := StoreVersion(DraftRow(d, next.value, sealed.value, e), d.how, d.action, e);
    }

    /** vault_decrypt_secret_alloc for a loaded row: a buffer as large as the
        ciphertext. */
    method DecryptAlloc(row: Row) returns (status: Status, plain: Bytes)
      requires AeadCorrect(p) && keys.Some?
      ensures var r := PlainRow(Ctx(), row);
        if r.Success? then status == Ok && plain == r.value else status == r.error && status != Ok
    {
      var buf := new byte[|row.secret.ciphertext|](_ => 0);
      var len;
      status, len := DecryptInto(p, pf, row.secret, keys.value.enc, RowIdentity(p, row.id, row.name), row.version, buf);
      plain := buf[..len];
    }

    /** vault_put_with_options. */
    method Put(name: Bytes, plain: Bytes, algorithm: Option<Name>, ttl: nat, e: Env) returns (status: Status)
      requires Valid()
      modifies this`secrets, this`metadata, this`saved, audit
      ensures Valid()
      ensures keys == None ==> status == Auth && Now() == old(Now())
      ensures keys.Some? ==>
                var r := PutOutcome(Ctx(), old(Now()), name, plain, algorithm, ttl, e);
                (status == Ok <==> r.Some?) && Now() == if r.Some? then r.value else old(Now())
      ensures keys.Some? && !CleanName(name) ==> status == InvalidArgument
    {
      if keys == None {
        return Auth;
      }
      if !CleanName(name) {
        return InvalidArgument;
      }
      if !e.ok(Lookup) || !e.ok(EncryptName) {
        return Crypto;
      }
      if !e.ok(ReadRow) {
        return Storage;
      }
      if ttl > INT64_MAX {
        return InvalidArgument;
      }
      ghost var before := Now();
      status := WriteVersion(PutDraft(Ctx(), Now(), name, plain, algorithm, ttl, e), e);
      if status == Ok {
        PutAdds(Ctx(), before, name, plain, algorithm, ttl, e, Now());
      }
    }

    /** vault_rollback. */
    method Rollback(name: Bytes, version: int, e: Env) returns (status: Status)
      requires Valid()
      modifies this`secrets, this`metadata, this`saved, audit
      ensures Valid()
      ensures keys == None ==> status == Auth && Now() == old(Now())
      ensures keys.Some? ==>
                var r := RollbackOutcome(Ctx(), old(Now()), name, version, e);
                (status == Ok <==> r.Some?) && Now() == if r.Some? then r.value else old(Now())
    {
      if keys == None {
        return Auth;
      }
      if name == [] || |name| > NAME_MAX || version < 1 {
        return InvalidArgument;
      }
      if !e.ok(Lookup) || !e.ok(EncryptName) {
        return Crypto;
      }
      var stored := StoredName(p, keys.value.meta, name);
      if !e.ok(ReadRow) {
        return Storage;
      }
      var found := FindVersion(secrets, stored, version);
      if found == None {
        return NotFound;
      }
      var row := found.value;
      var plain;
      status, plain := DecryptAlloc(row);
      if status != Ok {
        return;
      }
      ghost var before := Now();
      status := WriteVersion(Draft(stored, NameNonce(e), EncryptedName(Ctx(), e, stored, name), plain,
                                   Some(row.secret.algorithm), IntervalOf(row), IfPresent, E.Rollback), e);
      if status == Ok {
        RollbackCopies(Ctx(), before, name, version, e, Now());
      }
    }

    /** vault_rotate_expired_secret. */
    method RotateExpired(stored: Bytes, e: Env) returns (status: Status)
      requires Valid() && keys.Some?
      modifies this`secrets, this`metadata, this`saved, audit
      ensures Valid()
      ensures var r := RotateExpiredOutcome(Ctx(), old(Now()), stored, e);
        (status == Ok <==> r.Some?) && Now() == if r.Some? then r.value else old(Now())
    {
      if !e.ok(Clock) || e.now > MAX_TIME || !e.ok(ReadRow) {
        return Storage;
      }
      var found := FindActive(secrets, stored);
      if found == None {
        return Storage;
      }
      var row := found.value;
      if !Due(row, e.now) {
        return Ok;
      }
      var plain;
      status, plain := DecryptAlloc(row);
      if status != Ok {
        return;
      }
      ghost var before := Now();
      status := WriteVersion(Draft(stored, row.nameNonce, row.encryptedName, plain, Some(row.secret.algorithm),
                                   IntervalOf(row), MustExist, E.RotateDek), e);
      if status == Ok {
        RotateCopies(Ctx(), before, stored, e, Now());
      }
    }

    /** vault_delete. */
    method Delete(name: Bytes, e: Env) returns (status: Status)
      requires Valid()
      modifies this`secrets, this`metadata, this`saved, audit
      ensures Valid()
      ensures keys == None ==> status == Auth && Now() == old(Now())
      ensures keys.Some? ==>
                var r := DeleteOutcome(Ctx(), old(Now()), name, e);
                (status == Ok <==> r.Some?) && Now() == if r.Some? then r.value else old(Now())
      ensures (keys.Some? && name != [] && e.ok(Lookup) && e.ok(Clock) && e.ok(ReadRow) && e.now <= MAX_TIME
               && FindActive(old(secrets), StoredName(p, keys.value.meta, name)).None?) ==> status == NotFound
    {
      if keys == None {
        return Auth;
      }
      if name == [] {
        return InvalidArgument;
      }
      if !e.ok(Lookup) {
        return Crypto;
      }
      if !e.ok(Clock) || e.now > MAX_TIME || !e.ok(ReadRow) {
        return Storage;
      }
      var stored := StoredName(p, keys.value.meta, name);
      var found := FindActive(secrets, stored);
      if found == None {
        return NotFound;
      }
      ghost var before := Now();
      ActiveVersionFits(secrets, stored);
      status := ArchiveLogged(stored, found.value.version, e);
      if status == Ok {
        DeleteRemoves(Ctx(), before, name, e, Now());
      }
    }

    /** The transaction of a delete: archive, then log. */
    method ArchiveLogged(stored: Bytes, version: nat, e: Env) returns (status: Status)
      requires saved == None && keys.Some? && version <= INT_MAX
      modifies this`secrets, this`metadata, this`saved, audit
      ensures saved == None
      ensures var rows := ArchiveActive(old(secrets), stored, e.now, true);
        var log := Logged(Ctx(), old(Now()), e, E.Delete, stored, version);
        (status == Ok <==> e.ok(Begin) && e.ok(ArchiveRow) && e.ok(Log) && e.ok(Commit) && rows.Success? && log.Some?)
        && Now() == if status == Ok then old(Now()).(secrets := rows.value, log := log.value) else old(Now())
    {
      status := BeginTransaction(e.ok(Begin));
      if status == Ok {
        status := ArchiveActiveRow(stored, e.now, true, e.ok(ArchiveRow));
        if status == Ok {
          status := LogSuccess(E.Delete, stored, version, e);
        }
      }
      status := EndTransaction(status, e.ok(Commit));
    }

    // -------------------------------------------------------------- reading

    /** vault_read_secret once the row has been looked up: decrypt into the
        caller's buffer, then log. A read that cannot be logged is wiped. */
    method ReadRowInto(found: Option<Row>, stored: Bytes, output: array<byte>, e: Env)
      returns (status: Status, written: nat)
      requires saved == None && AeadCorrect(p) && keys.Some? && (found.Some? ==> found.value.version <= INT_MAX)
      modifies audit, output
      ensures saved == None
      ensures var r := ReadOutcome(Ctx(), old(Now()), found, stored, output.Length, e);
        (status == Ok <==> r.Some?) &&
        (r.Some? ==> Now() == r.value.0 && written == |r.value.1| <= output.Length && output[..written] == r.value.1) &&
        (r.None? ==> Now() == old(Now()) && written == 0)
      ensures status != Ok ==> Cleared(old(output[..]), output[..], Exposed(Ctx(), found, output.Length, e))
      ensures found == None && e.ok(Lookup) && e.ok(ReadRow) ==> status == NotFound
    {
      written := 0;
      ghost var before := output[..];
      if !e.ok(Lookup) || !e.ok(ReadRow) || found == None {
        NothingCleared(before);
      }
      if !e.ok(Lookup) {
        return Crypto, 0;
      }
      if !e.ok(ReadRow) {
        return Storage, 0;
      }
      if found == None {
        return NotFound, 0;
      }
      var row := found.value;
      status, written :=
        DecryptInto(p, pf, row.secret, keys.value.enc, RowIdentity(p, row.id, row.name), row.version, output);
      if status != Ok {
        FailedReadCleared(Ctx(), found, before, output[..], e);
      } else {
        status, written := LogOrWipe(stored, row.version, output, written, e);
      }
    }

    /** Log a read, or take the plaintext out of the buffer again. */
    method LogOrWipe(stored: Bytes, version: nat, output: array<byte>, written: nat, e: Env)
      returns (status: Status, kept: nat)
      requires keys.Some? && version <= INT_MAX && written <= output.Length
      modifies audit, output
      ensures var log := Logged(Ctx(), old(Now()), e, E.Read, stored, version);
        (status == Ok <==> log.Some? && e.ok(Log)) &&
        if status == Ok then Now() == old(Now()).(log := log.value) && kept == written && output[..] == old(output[..])
        else Now() == old(Now()) && kept == 0 && output[..] == Zeros(written) + old(output[..])[written..]
    {
      status := LogSuccess(E.Read, stored, version, e);
      kept := written;
      if status != Ok {
        CopyInto(output, 0, Zeros(written));
        assert output[..] == output[..written] + output[written..];
        kept := 0;
      }
    }

    /** vault_get. */
    method Get(name: Bytes, output: array<byte>, e: Env) returns (status: Status, written: nat)
      requires Valid()
      modifies audit, output
      ensures Valid()
      ensures keys == None ==> status == Auth && Now() == old(Now()) && written == 0
      ensures keys.Some? ==>
                var r := GetOutcome(Ctx(), old(Now()), name, output.Length, e);
                (status == Ok <==> r.Some?) &&
                (r.Some? ==> Now() == r.value.0 && written <= output.Length && output[..written] == r.value.1) &&
                (r.None? ==> Now() == old(Now()) && written == 0)
      ensures (keys.Some? && name != [] && e.ok(Lookup) && e.ok(ReadRow)
               && FindActive(secrets, StoredName(p, keys.value.meta, name)).None?) ==> status == NotFound
      ensures keys == None || name == [] ==> output[..] == old(output[..])
      ensures keys.Some? && !(name == []) && status != Ok ==>
                Cleared(old(output[..]), output[..],
                        Exposed(Ctx(), FindActive(secrets, StoredName(p, keys.value.meta, name)), output.Length, e))
    {
      if keys == None {
        return Auth, 0;
      }
      if name == [] {
        return InvalidArgument, 0;
      }
      var stored := StoredName(p, keys.value.meta, name);
      var found := FindActive(secrets, stored);
      ghost var before := Now();
      if found.Some? {
        ActiveVersionFits(secrets, stored);
      }
      GetReturnsActive(Ctx(), before, name, output.Length, e);
      status, written := ReadRowInto(found, stored, output, e);
    }

    /** vault_get_version. */
    method GetVersion(name: Bytes, version: int, output: array<byte>, e: Env) returns (status: Status, written: nat)
      requires Valid()
      modifies audit, output
      ensures Valid()
      ensures keys == None ==> status == Auth && Now() == old(Now()) && written == 0
      ensures keys.Some? ==>
                var r := GetVersionOutcome(Ctx(), old(Now()), name, version, output.Length, e);
                (status == Ok <==> r.Some?) &&
                (r.Some? ==> Now() == r.value.0 && written <= output.Length && output[..written] == r.value.1) &&
                (r.None? ==> Now() == old(Now()) && written == 0)
      ensures keys == None || name == [] || version < 1 ==> output[..] == old(output[..])
      ensures keys.Some? && !(name == [] || version < 1) && status != Ok ==>
                Cleared(old(output[..]), output[..],
                        Exposed(Ctx(), FindVersion(secrets, StoredName(p, keys.value.meta, name), version),
                                output.Length, e))
    {
      if keys == None {
        return Auth, 0;
      }
      if name == [] || version < 1 {
        return InvalidArgument, 0;
      }
      var stored := StoredName(p, keys.value.meta, name);
      var found := FindVersion(secrets, stored, version);
      ghost var before := Now();
      if found.Some? {
        FoundVersionFits(secrets, stored, version);
      }
      GetVersionReturnsVth(Ctx(), before, name, version, output.Length, e);
      status, written := ReadRowInto(found, stored, output, e);
    }

    // -------------------------------------------------------------- rotation

    /** vault_auto_rotate_expired. `start` is the first clock reading, turn i
        draws envs(i). The one demand is that the loop ends, which AutoRotation
        says when it does. */
    method AutoRotateExpired(start: Env, envs: nat -> Env) returns (status: Status, rotated: nat)
      requires Valid()
      requires keys.Some? ==> exists n: nat :: Auto.Ends(Ctx(), Now(), start.now, envs, n)
      modifies this`secrets, this`metadata, this`saved, audit
      ensures Valid()
      ensures keys == old(keys)
      ensures keys == None ==> status == Auth && Now() == old(Now())
      ensures keys.Some? && !Auto.Captures(start) ==> status == Storage && Now() == old(Now())
      ensures status != Ok ==> rotated == 0
      ensures keys.Some? && Auto.Captures(start) ==>
                exists n: nat :: LoopEnded(Ctx(), old(Now()), start.now, envs, n, Now(), status, rotated)
    {
      rotated := 0;
      if keys == None {
        return Auth, 0;
      }
      if !Auto.Captures(start) {
        return Storage, 0;
      }
      ghost var enough: nat :| Auto.Ends(Ctx(), Now(), start.now, envs, enough);
      ghost var n;
      status, rotated, n := RotateLoop(start.now, envs, enough);
    }

    /** The loop of auto-rotation, over after n turns. */
    method RotateLoop(captured: nat, envs: nat -> Env, ghost enough: nat)
      returns (status: Status, rotated: nat, ghost n: nat)
      requires Valid() && keys.Some? && Auto.Ends(Ctx(), Now(), captured, envs, enough)
      modifies this`secrets, this`metadata, this`saved, audit
      ensures Valid()
      ensures LoopEnded(Ctx(), old(Now()), captured, envs, n, Now(), status, rotated)
      ensures status != Ok ==> rotated == 0
    {
      ghost var c, before := Ctx(), Now();
      rotated, n := 0, 0;
      var more := true;
      status := Ok;
      while more
        invariant Valid() && keys.Some? && Ctx() == c && n <= enough && rotated <= n
        invariant more ==> status == Ok && rotated == n
        invariant more ==> Auto.AutoRotate(c, before, captured, Auto.Turns(envs, n)) == (Now(), Auto.OutOfTurns)
        invariant !more ==> LoopEnded(c, before, captured, envs, n, Now(), status, rotated)
        invariant status != Ok ==> rotated == 0
        decreases more, enough - n
      {
        Advance(c, before, captured, envs, n, Now());
        status, more := RotateNext(captured, envs(rotated));
        if status != Ok {
          more, rotated := false, 0;
        } else if more {
          rotated := rotated + 1;
        }
        n := n + 1;
      }
    }

    /** One turn: pick the expired secret that comes first and rotate it. */
    method RotateNext(captured: nat, e: Env) returns (status: Status, more: bool)
      requires Valid() && keys.Some?
      modifies this`secrets, this`metadata, this`saved, audit
      ensures Valid()
      ensures var (t', end) := Auto.OneTurnOf(Auto.RotateTurn(Ctx()), old(Now()), captured, e);
        Now() == t' && (status == Ok <==> end != Auto.Failed) && (status == Ok ==> more == end.OutOfTurns?)
    {
      if !e.ok(FindNext) {
        return Storage, false;
      }
      var name := Auto.NextExpired(secrets, captured);
      if name == None {
        return Ok, false;
      }
      status := RotateExpired(name.value, e);
      more := true;
    }

    /** key_manager_rotate_kek: re-wraps the rows one by one, in place. */
    method RewrapAll(k: NewKek) returns (status: Status)
      requires keys.Some?
      modifies this`secrets
      ensures var r := RewrapRows(Ctx(), old(secrets), k, |old(secrets)|);
        (status == Ok <==> r.Some?) && (r.Some? ==> secrets == r.value)
    {
      ghost var before, c := secrets, Ctx();
      var i := 0;
      while i < |secrets|
        invariant 0 <= i <= |secrets| == |before|
        invariant Ctx() == c && RewrappedTo(c, before, k, i, secrets)
      {
        status := RewrapNext(k, i, before);
        if status != Ok {
          return;
        }
        i := i + 1;
      }
      return Ok;
    }

    /** The UPDATE of row i. */
    method RewrapNext(k: NewKek, i: nat, ghost before: seq<Row>) returns (status: Status)
      requires keys.Some? && i < |before| && RewrappedTo(Ctx(), before, k, i, secrets)
      modifies this`secrets
      ensures if status == Ok then RewrappedTo(Ctx(), before, k, i + 1, secrets)
              else RewrapRows(Ctx(), before, k, |before|).None?
    {
      var row := secrets[i];
      assert row == before[i];
      var sealed := KeyManager.RewrapRow(p, pf, row.secret, RowIdentity(p, row.id, row.name), row.version,
                                         keys.value.enc, k.enc, k.nonces(i));
      if sealed.Failure? || !k.rowOk(i) {
        RewrapStops(Ctx(), before, k, i + 1);
        return Storage;
      }
      RewrapStep(Ctx(), before, k, i, secrets);
      secrets := secrets[i := row.(secret := sealed.value)];
      return Ok;
    }

    /** The new wrapped name key and credentials. */
    method StoreCredentials(k: NewKek, ok: bool) returns (status: Status)
      requires keys.Some?
      modifies this`metadata
      ensures var m := WithMetaKey(p, old(metadata), keys.value.meta, k.enc, k.metaNonce);
        (status == Ok <==> m.Some? && ok) &&
        (status == Ok ==> metadata == m.value["salt" := k.salt]["password_verifier" := k.verifier])
    {
      var wrapped := WithMetaKey(p, metadata, keys.value.meta, k.enc, k.metaNonce);
      if wrapped.None? {
        return Crypto;
      }
      if !ok {
        return Storage;
      }
      metadata := wrapped.value["salt" := k.salt]["password_verifier" := k.verifier];
      return Ok;
    }

    /** The steps of a KEK rotation inside its transaction. */
    method RotateSteps(k: NewKek, e: Env) returns (status: Status)
      requires keys.Some?
      modifies this`secrets, this`metadata, audit
      ensures e.ok(Derive) && e.ok(Begin) && e.ok(Commit) ==>
                var r := RotateKekOutcome(Ctx(), old(Now()), k, e);
                (status == Ok <==> r.Some?) && (r.Some? ==> Now() == r.value)
    {
      if !e.ok(Verify) {
        return Storage;
      }
      status := audit.Verify(p, keys.value.audit);
      if status == Ok {
        status := RewrapAll(k);
      }
      if status == Ok {
        status := StoreCredentials(k, e.ok(UpdateMeta));
      }
      if status == Ok {
        status := audit.ResignChain(p, k.audit, |audit.rows|);
      }
      if status == Ok {
        status := audit.LogEvent(p, k.audit, e.stamp, KekEvent(), e.ok(Log));
      }
    }

    /** vault_rotate_kek: everything in one transaction; the session keys are
        replaced only after the commit. */
    method RotateKek(k: NewKek, e: Env) returns (status: Status)
      requires Valid()
      modifies this, audit
      ensures Valid()
      ensures old(keys) == None ==> status == Auth && keys == None && Now() == old(Now())
      ensures old(keys).Some? ==>
                var r := RotateKekOutcome(old(Ctx()), old(Now()), k, e);
                (status == Ok <==> r.Some?) &&
                (r.Some? ==> Now() == r.value && keys == Some(RotatedContext(old(Ctx()), k).keys)) &&
                (r.None? ==> Now() == old(Now()) && keys == old(keys))
    {
      if keys == None {
        return Auth;
      }
      if !e.ok(Derive) {
        return Crypto;
      }
      ghost var before, c := Now(), Ctx();
      status := BeginTransaction(e.ok(Begin));
      if status != Ok {
        return;
      }
      status := RotateSteps(k, e);
      status := EndTransaction(status, e.ok(Commit));
      if status == Ok {
        keys := Some(Keys(k.enc, keys.value.meta, k.audit));
        KekRotation.RotateKekKeeps(c, before, k, e, Now());
      }
    }
  }

  lemma {:induction false} FoundVersionFits(rows: seq<Row>, name: Bytes, version: nat)
    requires Structural(rows) && FindVersion(rows, name, version).Some?
    ensures FindVersion(rows, name, version).value.version <= INT_MAX
  {
    Queries(rows, name);
    assert Ordered(History(rows, name));
  }

  /** One more row of a table whose first i rows are re-wrapped. */
  lemma {:induction false} RewrapStep(c: Context, rows: seq<Row>, k: NewKek, i: nat, current: seq<Row>)
    requires i < |rows| && RewrapRows(c, rows, k, i).Some? && RewrapRow(c, rows[i], k.enc, k.nonces(i)).Success?
    requires k.rowOk(i) && current == RewrapRows(c, rows, k, i).value + rows[i..]
    ensures RewrapRows(c, rows, k, i + 1).Some?
    ensures current[i := rows[i].(secret := RewrapRow(c, rows[i], k.enc, k.nonces(i)).value)]
         == RewrapRows(c, rows, k, i + 1).value + rows[i + 1..]
  {
  }

  /** One failed row stops the whole pass. */
  lemma {:induction false} RewrapStops(c: Context, rows: seq<Row>, k: NewKek, n: nat)
    requires n <= |rows| && RewrapRows(c, rows, k, n).None?
    ensures RewrapRows(c, rows, k, |rows|).None?
    decreases |rows| - n
  {
    if n < |rows| {
      RewrapStops(c, rows, k, n + 1);
    }
  }

  /** Where one more turn takes the auto-rotation loop. */
  lemma {:induction false} Advance(c: Context, before: Tables, captured: nat, envs: nat -> Env, i: nat, t: Tables)
    requires Auto.AutoRotate(c, before, captured, Auto.Turns(envs, i)) == (t, Auto.OutOfTurns)
    ensures var (t2, end) := Auto.OneTurnOf(Auto.RotateTurn(c), t, captured, envs(i));
      Auto.AutoRotate(c, before, captured, Auto.Turns(envs, i + 1)) == (t2, if end.Done? then Auto.Done(i) else end)
  {
    Auto.AppendTurn(Auto.RotateTurn(c), before, captured, Auto.Turns(envs, i), envs(i));
    assert Auto.Turns(envs, i) + [envs(i)] == Auto.Turns(envs, i + 1);
  }

  lemma {:induction false} NextFits(rows: seq<Row>, name: Bytes)
    requires Structural(rows) && NextOf(rows, name).Some?
    ensures NextOf(rows, name).value.version <= INT_MAX
  {
    Queries(rows, name);
    assert Ordered(History(rows, name));
  }

  lemma {:induction false} ActiveVersionFits(rows: seq<Row>, name: Bytes)
    requires Structural(rows) && FindActive(rows, name).Some?
    ensures FindActive(rows, name).value.version <= INT_MAX
  {
    Queries(rows, name);
    assert Ordered(History(rows, name));
  }
}
