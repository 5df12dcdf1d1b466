/** What each vault operation does to the tables when it succeeds (src/vault.c).
    An outcome of None means the operation failed somewhere and the tables stay
    as they were. */
module VaultSpec {
  import opened Common
  import opened Primitives
  import opened CryptoEngine
  import opened SecretsTable
  import KeyManager
  import E = AuditEntry
  import AuditChain

  /** The session keys (g_subkeys), without the token key. */
  datatype Keys = Keys(enc: Digest, meta: Digest, audit: Digest)

  datatype Tables = Tables(secrets: seq<Row>, log: seq<AuditChain.LogRow>, metadata: map<string, Bytes>)

  /** The storage, clock, randomness and allocation steps that may fail. */
  datatype Step = Lookup | EncryptName | ReadRow | FindNext | Bounds | Clock | Expiry | Uuid | Identity | Seal
                | ReadMeta | Derive | Subkeys | LogFailure | ReadKey
                | Begin | ArchiveRow | Insert | Verify | UpdateMeta | Log | Commit

  /** Fixed-width ISO 8601 text of the current time. */
  type Stamp = b: Bytes | |b| == 20 witness Zeros(20)

  /** Everything an operation draws from outside: which steps succeed, two
      clock readings, a row id and random bytes. */
  datatype Env = Env(ok: Step -> bool, now: nat, later: nat, stamp: Stamp, id: Bytes, nameNonce: Digest,
                     rnd: Randomness)

  /** 9999-12-31T23:59:59Z, the last time the fixed-width format can show. */
  const MAX_TIME := 253402300799

  const NAME_MAX := 256

  /** The operation's context: primitives, platform and session keys. */
  datatype Context = Context(p: Prims, pf: Platform, keys: Keys)

  // ---------------------------------------------------------------- names

  /** vault_build_name_lookup: hex of the keyed hash of the name. */
  function StoredName(p: Prims, metaKey: Digest, name: Bytes): (r: Bytes)
    ensures |r| == 64
  {
    Hex(p.keyed(metaKey, name))
  }

  predicate CleanName(name: Bytes) {
    name != [] && |name| <= NAME_MAX && forall i :: 0 <= i < |name| ==> name[i] >= 0x20 && name[i] != 0x7F
  }

  /** A name that could steer a terminal is refused; printable ASCII and bytes
      from 0x80 on are allowed, up to 256 of them. */
  lemma {:induction false} CleanNamesAreSafe(name: Bytes)
    ensures CleanName(name) ==> 1 <= |name| <= 256 && 0x1B !in name && 0x0A !in name && 0x00 !in name && 0x7F !in name
    ensures (forall i :: 0 <= i < |name| ==> 0x20 <= name[i] <= 0x7E || name[i] >= 0x80) && 1 <= |name| <= 256 ==>
              CleanName(name)
  {
  }

  function NameNonce(e: Env): Bytes { e.nameNonce[..24] }

  function EncryptedName(c: Context, e: Env, stored: Bytes, name: Bytes): Bytes {
    c.p.seal(XChaCha20Poly1305, c.keys.meta, NameNonce(e), stored, name)
  }

  // ---------------------------------------------------------------- reading rows

  function DecryptRow(c: Context, row: Row, capacity: nat): Result<Bytes> {
    Decrypt(c.p, c.pf, row.secret, c.keys.enc, RowIdentity(c.p, row.id, row.name), row.version, capacity)
  }

  /** The plaintext of a row, with as much room as its ciphertext takes. */
  function PlainRow(c: Context, row: Row): Result<Bytes> {
    DecryptRow(c, row, |row.secret.ciphertext|)
  }

  function LogEvent(action: E.Action, target: Bytes, version: nat): AuditChain.Event
    requires version <= INT_MAX
  {
    AuditChain.Event(E.DefaultActor(), action, target, version, E.Succeeded)
  }

  function Logged(c: Context, t: Tables, e: Env, action: E.Action, target: Bytes, version: nat)
    : Option<seq<AuditChain.LogRow>>
  {
    if version > INT_MAX then None
    else AuditChain.Append(c.p, t.log, c.keys.audit, e.stamp, LogEvent(action, target, version))
  }

  /** vault_read_secret for one loaded row, into a buffer of the given size. */
  function ReadOutcome(c: Context, t: Tables, row: Option<Row>, stored: Bytes, capacity: nat, e: Env)
    : Option<(Tables, Bytes)>
  {
    if row == None || DecryptRow(c, row.value, capacity).Failure? then None
    else
      var log := Logged(c, t, e, E.Read, stored, row.value.version);
      if log == None || !e.ok(Lookup) || !e.ok(ReadRow) || !e.ok(Log) then None
      else Some((t.(log := log.value), DecryptRow(c, row.value, capacity).value))
  }

  function GetOutcome(c: Context, t: Tables, name: Bytes, capacity: nat, e: Env): Option<(Tables, Bytes)> {
    var stored := StoredName(c.p, c.keys.meta, name);
    if name == [] then None else ReadOutcome(c, t, FindActive(t.secrets, stored), stored, capacity, e)
  }

  function GetVersionOutcome(c: Context, t: Tables, name: Bytes, version: int, capacity: nat, e: Env)
    : Option<(Tables, Bytes)>
  {
    var stored := StoredName(c.p, c.keys.meta, name);
    if name == [] || version < 1 then None
    else ReadOutcome(c, t, FindVersion(t.secrets, stored, version), stored, capacity, e)
  }

  // ---------------------------------------------------------------- writing a new version

  function ExpiresAt(interval: nat, e: Env): Option<nat> {
    if interval > 0 then Some(e.later + interval) else None
  }

  /** Both clock readings and the expiry fit the timestamp format. */
  predicate TimesOk(interval: nat, e: Env) {
    e.ok(Clock) && e.now <= MAX_TIME && (interval > 0 ==> e.ok(Expiry) && e.later + interval <= MAX_TIME)
  }

  predicate StepsOk(how: Replace, e: Env) {
    e.ok(Bounds) && e.ok(Uuid) && e.ok(Identity) && e.ok(Seal) && e.ok(Begin) && (how != Nothing ==> e.ok(ArchiveRow))
    && e.ok(Insert) && e.ok(Log) && e.ok(Commit)
  }

  /** What a put, rollback or rotation writes. */
  datatype Draft = Draft(stored: Bytes, nameNonce: Bytes, encryptedName: Bytes, plain: Bytes,
                         algorithm: Option<Name>, interval: nat, how: Replace, action: E.Action)

  function DraftRow(d: Draft, next: Next, sealed: Sealed, e: Env): Row {
    Row(e.id, d.stored, d.nameNonce, d.encryptedName, next.version, sealed, next.counter,
        e.now, e.now, ExpiresAt(d.interval, e), if d.interval > 0 then Some(d.interval) else None, false)
  }

  function SealDraft(c: Context, d: Draft, next: Next, e: Env): Result<Sealed> {
    Encrypt(c.p, c.pf, d.plain, c.keys.enc, RowIdentity(c.p, e.id, d.stored), next.version, next.counter,
            d.algorithm, e.rnd)
  }

  /** vault_bind_blob refuses a blob whose length does not fit an int. */
  predicate BlobsFit(row: Row) {
    |row.secret.ciphertext| <= INT_MAX && |row.secret.encryptedDek| <= INT_MAX && |row.secret.nonce| <= INT_MAX &&
    |row.secret.dekNonce| <= INT_MAX && |row.secret.commitment| <= INT_MAX &&
    NameBlobsFit(row.nameNonce, row.encryptedName)
  }

  predicate NameBlobsFit(nameNonce: Bytes, encryptedName: Bytes) {
    |nameNonce| <= INT_MAX && |encryptedName| <= INT_MAX
  }

  /** Archive the old row and insert the new one. */
  function StoreRow(rows: seq<Row>, how: Replace, now: nat, row: Row): Result<seq<Row>> {
    if BlobsFit(row) then Supersede(rows, how, now, row) else Failure(InvalidArgument)
  }

  function WriteOutcome(c: Context, t: Tables, d: Draft, e: Env): Option<Tables> {
    if !TimesOk(d.interval, e) || !StepsOk(d.how, e) then None
    else
      match NextOf(t.secrets, d.stored)
      case None => None
      case Some(next) =>
        match SealDraft(c, d, next, e)
        case Failure(_) => None
        case Success(sealed) =>
          match StoreRow(t.secrets, d.how, e.now, DraftRow(d, next, sealed, e))
          case Failure(_) => None
          case Success(rows) =>
            match Logged(c, t, e, d.action, d.stored, next.version)
            case None => None
            case Some(log) => Some(t.(secrets := rows, log := log))
  }

  function PutDraft(c: Context, t: Tables, name: Bytes, plain: Bytes, algorithm: Option<Name>, ttl: nat, e: Env)
    : Draft {
    var stored := StoredName(c.p, c.keys.meta, name);
    var active := FindActive(t.secrets, stored).Some?;
    Draft(stored, NameNonce(e), EncryptedName(c, e, stored, name), plain, algorithm, ttl,
          if active then MustExist else Nothing, if active then E.Update else E.Create)
  }

  function PutOutcome(c: Context, t: Tables, name: Bytes, plain: Bytes, algorithm: Option<Name>, ttl: nat, e: Env)
    : Option<Tables>
  {
    if !CleanName(name) || ttl > INT64_MAX || !e.ok(Lookup) || !e.ok(EncryptName) || !e.ok(ReadRow) then None
    else WriteOutcome(c, t, PutDraft(c, t, name, plain, algorithm, ttl, e), e)
  }

  function IntervalOf(row: Row): nat {
    if row.interval.Some? then row.interval.value else 0
  }

  function RollbackOutcome(c: Context, t: Tables, name: Bytes, version: int, e: Env): Option<Tables> {
    var stored := StoredName(c.p, c.keys.meta, name);
    if name == [] || |name| > NAME_MAX || version < 1 || !e.ok(Lookup) || !e.ok(EncryptName) || !e.ok(ReadRow) then None
    else
      match FindVersion(t.secrets, stored, version)
      case None => None
      case Some(row) =>
        match PlainRow(c, row)
        case Failure(_) => None
        case Success(plain) =>
          WriteOutcome(c, t, Draft(stored, NameNonce(e), EncryptedName(c, e, stored, name), plain,
                                   Some(row.secret.algorithm), IntervalOf(row), IfPresent, E.Rollback), e)
  }

  predicate Due(row: Row, now: nat) {
    row.expiresAt.Some? && row.expiresAt.value <= now
  }

  /** A secret is due from its very expiry on. */
  lemma {:induction false} DueFromExpiry(row: Row, now: nat)
    requires row.expiresAt.Some?
    ensures Due(row, row.expiresAt.value) && (row.expiresAt.value > now ==> !Due(row, now))
  {
  }

  /** vault_rotate_expired_secret on a stored name. A row that is not due by
      the operation's own clock is left alone, and that counts as success. */
  function RotateExpiredOutcome(c: Context, t: Tables, stored: Bytes, e: Env): Option<Tables> {
    if !e.ok(Clock) || e.now > MAX_TIME || !e.ok(ReadRow) then None
    else
      match FindActive(t.secrets, stored)
      case None => None
      case Some(row) =>
        if !Due(row, e.now) then Some(t)
        else
          match PlainRow(c, row)
          case Failure(_) => None
          case Success(plain) =>
            WriteOutcome(c, t, Draft(stored, row.nameNonce, row.encryptedName, plain, Some(row.secret.algorithm),
                                     IntervalOf(row), MustExist, E.RotateDek), e)
  }

  function DeleteOutcome(c: Context, t: Tables, name: Bytes, e: Env): Option<Tables> {
    var stored := StoredName(c.p, c.keys.meta, name);
    if name == [] || !e.ok(Lookup) || !e.ok(Clock) || e.now > MAX_TIME || !e.ok(ReadRow) || !e.ok(Begin)
       || !e.ok(ArchiveRow) || !e.ok(Log) || !e.ok(Commit) then None
    else
      match FindActive(t.secrets, stored)
      case None => None
      case Some(row) =>
        match ArchiveActive(t.secrets, stored, e.now, true)
        case Failure(_) => None
        case Success(rows) =>
          match Logged(c, t, e, E.Delete, stored, row.version)
          case None => None
          case Some(log) => Some(t.(secrets := rows, log := log))
  }

  // ---------------------------------------------------------------- KEK rotation

  function MetaAad(): Bytes { Text("vault:kek_meta:v1") }

  /** vault_put_wrapped_meta_key. */
  function WithMetaKey(p: Prims, metadata: map<string, Bytes>, metaKey: Digest, wrappingKey: Digest, random: Digest)
    : Option<map<string, Bytes>>
  {
    var nonce := random[..24];
    var wrapped := p.seal(XChaCha20Poly1305, wrappingKey, nonce, MetaAad(), metaKey);
    if |wrapped| != 48 then None else Some(metadata["meta_key_nonce" := nonce]["meta_key_wrapped" := wrapped])
  }

  /** vault_load_meta_key: what the next unlock recovers as the name key. */
  function LoadMetaKey(p: Prims, metadata: map<string, Bytes>, wrappingKey: Digest): Result<Digest> {
    if "meta_key_nonce" !in metadata || "meta_key_wrapped" !in metadata then Failure(Storage)
    else if |metadata["meta_key_nonce"]| != 24 || |metadata["meta_key_wrapped"]| != 48 then Failure(Storage)
    else
      match p.open(XChaCha20Poly1305, wrappingKey, metadata["meta_key_nonce"], MetaAad(), metadata["meta_key_wrapped"])
      case None => Failure(Auth)
      case Some(key) => if |key| != 32 then Failure(Storage) else Success(key)
  }

  /** The new credentials and the randomness of one rotation; row k draws
      `nonces(k)`, and its update succeeds when `rowOk(k)`. */
  datatype NewKek = NewKek(enc: Digest, audit: Digest, salt: Bytes, verifier: Digest, metaNonce: Digest,
                           nonces: nat -> Digest, rowOk: nat -> bool)

  function RewrapRow(c: Context, row: Row, newEnc: Digest, nonce: Digest): Result<Sealed> {
    KeyManager.Rewrap(c.p, c.pf, row.secret, RowIdentity(c.p, row.id, row.name), row.version, c.keys.enc, newEnc, nonce)
  }

  /** The first n rows as key_manager_rotate_kek rewrites them. */
  function RewrapRows(c: Context, rows: seq<Row>, k: NewKek, n: nat): (r: Option<seq<Row>>)
    requires n <= |rows|
    ensures r.Some? ==> |r.value| == n
  {
    if n == 0 then Some([])
    else
      match RewrapRows(c, rows, k, n - 1)
      case None => None
      case Some(done) =>
        var sealed := RewrapRow(c, rows[n - 1], k.enc, k.nonces(n - 1));
        if sealed.Failure? || !k.rowOk(n - 1) then None
        else Some(done + [rows[n - 1].(secret := sealed.value)])
  }

  /** The session after a successful rotation: only the name key survives. */
  function RotatedContext(c: Context, k: NewKek): Context {
    c.(keys := Keys(k.enc, c.keys.meta, k.audit))
  }

  function KekEvent(): AuditChain.Event {
    AuditChain.Event(E.DefaultActor(), E.RotateKek, Text("vault"), 0, E.Succeeded)
  }

  function RotateKekOutcome(c: Context, t: Tables, k: NewKek, e: Env): Option<Tables> {
    if !e.ok(Derive) || !e.ok(Begin) || !e.ok(Verify) || !e.ok(UpdateMeta) || !e.ok(Log) || !e.ok(Commit)
       || !AuditChain.Verified(c.p, t.log, c.keys.audit) then None
    else
      match RewrapRows(c, t.secrets, k, |t.secrets|)
      case None => None
      case Some(rows) =>
        match WithMetaKey(c.p, t.metadata, c.keys.meta, k.enc, k.metaNonce)
        case None => None
        case Some(metadata) =>
          match AuditChain.Resign(c.p, t.log, k.audit)
          case None => None
          case Some(resigned) =>
            match AuditChain.Append(c.p, resigned, k.audit, e.stamp, KekEvent())
            case None => None
            case Some(log) => Some(Tables(rows, log, metadata["salt" := k.salt]["password_verifier" := k.verifier]))
  }
}
