/** Each vault operation against the simple vault: what it does to the shelves,
    what it returns, and that it keeps the invariant. */
module VaultOperations {
  import opened Common
  import opened Primitives
  import opened CryptoEngine
  import opened SecretsTable
  import opened VaultSpec
  import opened VaultRefinement
  import E = AuditEntry
  import A = AuditChain

  /** The tables changed exactly as the simple vault does. */
  ghost predicate Changed(c: Context, t: Tables, t': Tables, change: Change) {
    forall name :: ShelfOf(c, t'.secrets, name) == Apply(ShelfOf(c, t.secrets, name), change, name)
  }

  // ---------------------------------------------------------------- reading

  /** A readable row decrypts into any buffer that holds its plaintext. */
  lemma {:induction false} CapacityEnough(c: Context, row: Row, capacity: nat)
    requires AeadCorrect(c.p) && PlainRow(c, row).Success?
    ensures DecryptRow(c, row, capacity).Success? <==> capacity >= |PlainRow(c, row).value|
    ensures DecryptRow(c, row, capacity).Success? ==> DecryptRow(c, row, capacity) == PlainRow(c, row)
  {
    var s, aad := row.secret, Aad(RowIdentity(c.p, row.id, row.name), row.version);
    var alg := AlgorithmFromName(c.pf, s.algorithm).value;
    var dek := RecoverDek(c.p, s, alg, c.keys.enc, aad).value;
    assert OpensShorter(c.p, alg, dek, s.nonce, aad, s.ciphertext);
  }

  /** What a read returns, and exactly when. */
  lemma {:induction false} ReadReturns(c: Context, t: Tables, row: Row, stored: Bytes, capacity: nat, e: Env)
    requires AeadCorrect(c.p) && PlainRow(c, row).Success?
    ensures var r := ReadOutcome(c, t, Some(row), stored, capacity, e);
      (r.Some? ==> r.value.1 == VersionOf(c, row).plain && r.value.0.secrets == t.secrets
                   && r.value.0.metadata == t.metadata
                   && Logged(c, t, e, E.Read, stored, row.version) == Some(r.value.0.log)) &&
      (r.Some? <==> capacity >= |VersionOf(c, row).plain| && e.ok(Lookup) && e.ok(ReadRow) && e.ok(Log)
                    && Logged(c, t, e, E.Read, stored, row.version).Some?)
  {
    CapacityEnough(c, row, capacity);
  }

  lemma {:induction false} HistoryRowReads(c: Context, rows: seq<Row>, name: Bytes, k: nat)
    requires Readable(c, rows) && k < |History(rows, name)|
    ensures PlainRow(c, History(rows, name)[k]).Success?
  {
    QueriesReadHistory(rows, name);
    var i :| 0 <= i < |rows| && rows[i] == History(rows, name)[k];
    assert PlainRow(c, rows[i]).Success?;
  }

  /** A read that returns version v: it succeeds exactly when the buffer holds
      the plaintext and the read can be logged, and changes only the log. */
  ghost predicate Returns(c: Context, t: Tables, e: Env, stored: Bytes, v: nat, plain: Bytes, capacity: nat,
                          r: Option<(Tables, Bytes)>)
  {
    (r.Some? ==> Inv(c, r.value.0) && r.value.0.secrets == t.secrets && r.value.1 == plain) &&
    (r.Some? <==> capacity >= |plain| && e.ok(Lookup) && e.ok(ReadRow) && e.ok(Log)
                  && Logged(c, t, e, E.Read, stored, v).Some?)
  }

  lemma {:induction false} ReadKeeps(c: Context, t: Tables, stored: Bytes, row: Row, capacity: nat, e: Env)
    requires AeadCorrect(c.p) && Inv(c, t) && PlainRow(c, row).Success?
    ensures Returns(c, t, e, stored, row.version, VersionOf(c, row).plain, capacity,
                    ReadOutcome(c, t, Some(row), stored, capacity, e))
  {
    ReadReturns(c, t, row, stored, capacity, e);
    var r := ReadOutcome(c, t, Some(row), stored, capacity, e);
    if r.Some? {
      LoggedKeeps(c, t, e, E.Read, stored, row.version, r.value.0);
    }
  }

  lemma {:induction false} VersionOnShelf(c: Context, rows: seq<Row>, name: Bytes, v: nat)
    requires Structural(rows) && Readable(c, rows) && 1 <= v <= |ShelfOf(c, rows, name).versions|
    ensures var row := History(rows, name)[v - 1];
      row.version == v && PlainRow(c, row).Success? && ShelfOf(c, rows, name).versions[v - 1] == VersionOf(c, row)
  {
    NthRow(rows, name, v);
    HistoryRowReads(c, rows, name, v - 1);
  }

  /** Reading row v - 1 of a history returns the shelf's version v. */
  lemma {:induction false} ReadVth(c: Context, t: Tables, stored: Bytes, v: nat, capacity: nat, e: Env)
    requires AeadCorrect(c.p) && Inv(c, t) && 1 <= v <= |ShelfOf(c, t.secrets, stored).versions|
    ensures Returns(c, t, e, stored, v, ShelfOf(c, t.secrets, stored).versions[v - 1].plain, capacity,
                    ReadOutcome(c, t, Some(History(t.secrets, stored)[v - 1]), stored, capacity, e))
  {
    VersionOnShelf(c, t.secrets, stored, v);
    ReadKeeps(c, t, stored, History(t.secrets, stored)[v - 1], capacity, e);
  }

  lemma {:induction false} GetReadsLast(c: Context, t: Tables, name: Bytes, capacity: nat, e: Env, stored: Bytes)
    requires Structural(t.secrets) && stored == StoredName(c.p, c.keys.meta, name)
    ensures var h, r := History(t.secrets, stored), GetOutcome(c, t, name, capacity, e);
      if name == [] || !HasActive(h) then r == None
      else r == ReadOutcome(c, t, Some(h[|h| - 1]), stored, capacity, e)
  {
    ActiveRow(t.secrets, stored);
  }

  /** get returns the active version's plaintext, exactly when there is one,
      the buffer holds it and the read can be logged. */
  lemma {:induction false} GetReturnsActive(c: Context, t: Tables, name: Bytes, capacity: nat, e: Env)
    requires AeadCorrect(c.p) && Inv(c, t)
    ensures var stored := StoredName(c.p, c.keys.meta, name); var shelf := ShelfOf(c, t.secrets, stored);
      var r := GetOutcome(c, t, name, capacity, e); var n := |shelf.versions|;
      if name == [] || !shelf.active then r == None
      else Returns(c, t, e, stored, n, shelf.versions[n - 1].plain, capacity, r)
  {
    var stored := StoredName(c.p, c.keys.meta, name);
    var shelf := ShelfOf(c, t.secrets, stored);
    GetReadsLast(c, t, name, capacity, e, stored);
    if shelf.active {
      ReadVth(c, t, stored, |shelf.versions|, capacity, e);
    }
  }

  lemma {:induction false} GetVersionReadsVth(c: Context, t: Tables, name: Bytes, version: int, capacity: nat, e: Env,
                                              stored: Bytes)
    requires Structural(t.secrets) && stored == StoredName(c.p, c.keys.meta, name)
    ensures var h, r := History(t.secrets, stored), GetVersionOutcome(c, t, name, version, capacity, e);
      if name == [] || !(1 <= version <= |h|) then r == None
      else r == ReadOutcome(c, t, Some(h[version - 1]), stored, capacity, e)
  {
    if version >= 1 {
      NthRow(t.secrets, stored, version);
    }
  }

  /** get_version(v) returns the v-th plaintext, active or not. */
  lemma {:induction false} GetVersionReturnsVth(c: Context, t: Tables, name: Bytes, version: int, capacity: nat, e: Env)
    requires AeadCorrect(c.p) && Inv(c, t)
    ensures var stored := StoredName(c.p, c.keys.meta, name); var shelf := ShelfOf(c, t.secrets, stored);
      var r := GetVersionOutcome(c, t, name, version, capacity, e);
      if name == [] || !(1 <= version <= |shelf.versions|) then r == None
      else Returns(c, t, e, stored, version, shelf.versions[version - 1].plain, capacity, r)
  {
    var stored := StoredName(c.p, c.keys.meta, name);
    var shelf := ShelfOf(c, t.secrets, stored);
    GetVersionReadsVth(c, t, name, version, capacity, e, stored);
    if name != [] && 1 <= version <= |shelf.versions| {
      ReadVth(c, t, stored, version, capacity, e);
    }
  }

  // ---------------------------------------------------------------- user names

  /** Two user names share a stored name, and so a shelf, only when they collide
      under the name key. */
  lemma {:induction false} NamesApart(p: Prims, metaKey: Digest, a: Bytes, b: Bytes)
    requires StoredName(p, metaKey, a) == StoredName(p, metaKey, b)
    ensures a == b || KeyedCollision(p, metaKey, a, metaKey, b)
  {
    HexInjective(p.keyed(metaKey, a), p.keyed(metaKey, b));
  }

  /** A change to one user name leaves the shelf of every other user name. */
  lemma {:induction false} OtherNamesKeep(c: Context, t: Tables, t': Tables, change: Change, name: Bytes, other: Bytes)
    requires Changed(c, t, t', change) && change.name == StoredName(c.p, c.keys.meta, name) && other != name
    ensures var stored := StoredName(c.p, c.keys.meta, other);
      ShelfOf(c, t'.secrets, stored) == ShelfOf(c, t.secrets, stored)
      || KeyedCollision(c.p, c.keys.meta, name, c.keys.meta, other)
  {
    var stored := StoredName(c.p, c.keys.meta, other);
    assert ShelfOf(c, t'.secrets, stored) == Apply(ShelfOf(c, t.secrets, stored), change, stored);
    if stored == change.name {
      NamesApart(c.p, c.keys.meta, name, other);
    }
  }

  // ---------------------------------------------------------------- writing

  lemma {:induction false} OthersUnchanged(c: Context, t: Tables, t': Tables, change: Change)
    requires forall name :: name != change.name ==> History(t'.secrets, name) == History(t.secrets, name)
    requires ShelfOf(c, t'.secrets, change.name) == Apply(ShelfOf(c, t.secrets, change.name), change, change.name)
    ensures Changed(c, t, t', change)
  {
  }

  /** A successful write adds the drafted version to the drafted name. */
  lemma {:induction false} WriteAdds(c: Context, t: Tables, d: Draft, e: Env, t': Tables)
    requires AeadCorrect(c.p) && Inv(c, t) && Coherent(d) && WriteOutcome(c, t, d, e) == Some(t')
    ensures Inv(c, t') && SelectAlgorithm(c.pf, d.algorithm).Success?
    ensures Changed(c, t, t', Added(d.stored, DraftVersion(c, d)))
  {
    WriteKeeps(c, t, d, e, t');
    OthersUnchanged(c, t, t', Added(d.stored, DraftVersion(c, d)));
  }

  function DraftVersion(c: Context, d: Draft): Version
    requires SelectAlgorithm(c.pf, d.algorithm).Success?
  {
    Version(d.plain, Canonical(SelectAlgorithm(c.pf, d.algorithm).value), d.interval)
  }

  /** put adds one version with the given plaintext to the name's shelf and
      makes it active, whether or not anything was active before. */
  lemma {:induction false} PutAdds(c: Context, t: Tables, name: Bytes, plain: Bytes, algorithm: Option<Name>,
                                   ttl: nat, e: Env, t': Tables)
    requires AeadCorrect(c.p) && Inv(c, t) && PutOutcome(c, t, name, plain, algorithm, ttl, e) == Some(t')
    ensures Inv(c, t') && SelectAlgorithm(c.pf, algorithm).Success?
    ensures Changed(c, t, t', PutChange(c, name, plain, algorithm, ttl))
  {
    WriteAdds(c, t, PutDraft(c, t, name, plain, algorithm, ttl, e), e, t');
  }

  /** No other user name's shelf is touched, unless the two names collide. */
  lemma {:induction false} PutLeavesOthers(c: Context, t: Tables, name: Bytes, plain: Bytes, algorithm: Option<Name>,
                                           ttl: nat, e: Env, t': Tables, other: Bytes)
    requires AeadCorrect(c.p) && Inv(c, t) && PutOutcome(c, t, name, plain, algorithm, ttl, e) == Some(t')
    requires other != name
    ensures var stored := StoredName(c.p, c.keys.meta, other);
      ShelfOf(c, t'.secrets, stored) == ShelfOf(c, t.secrets, stored)
      || KeyedCollision(c.p, c.keys.meta, name, c.keys.meta, other)
  {
    PutAdds(c, t, name, plain, algorithm, ttl, e, t');
    OtherNamesKeep(c, t, t', PutChange(c, name, plain, algorithm, ttl), name, other);
  }

  function PutChange(c: Context, name: Bytes, plain: Bytes, algorithm: Option<Name>, ttl: nat): Change
    requires SelectAlgorithm(c.pf, algorithm).Success?
  {
    Added(StoredName(c.p, c.keys.meta, name),
          Version(plain, Canonical(SelectAlgorithm(c.pf, algorithm).value), ttl))
  }

  /** The draft carries a row's own plaintext, algorithm and interval. */
  predicate DraftOf(c: Context, d: Draft, row: Row) {
    PlainRow(c, row) == Success(d.plain) && d.algorithm == Some(row.secret.algorithm) && d.interval == IntervalOf(row)
  }

  /** Writing such a draft copies the row's version. */
  lemma {:induction false} CopyKeeps(c: Context, t: Tables, d: Draft, e: Env, source: nat, t': Tables)
    requires AeadCorrect(c.p) && Inv(c, t) && Coherent(d) && WriteOutcome(c, t, d, e) == Some(t')
    requires 1 <= source <= |History(t.secrets, d.stored)| && DraftOf(c, d, History(t.secrets, d.stored)[source - 1])
    ensures Inv(c, t') && Changed(c, t, t', Copied(d.stored, source))
  {
    WriteAdds(c, t, d, e, t');
    DraftedVersionIsCopy(c, t, d, source);
    AddedIsCopied(c, t, t', d.stored, DraftVersion(c, d), source);
  }

  lemma {:induction false} DraftedVersionIsCopy(c: Context, t: Tables, d: Draft, source: nat)
    requires Structural(t.secrets) && SelectAlgorithm(c.pf, d.algorithm).Success?
    requires 1 <= source <= |History(t.secrets, d.stored)| && DraftOf(c, d, History(t.secrets, d.stored)[source - 1])
    ensures ShelfOf(c, t.secrets, d.stored).versions[source - 1] == DraftVersion(c, d)
  {
    var row := History(t.secrets, d.stored)[source - 1];
    HistoryRowOk(t.secrets, d.stored, source - 1);
    CopiedVersion(c, d, row);
  }

  lemma {:induction false} HistoryRowOk(rows: seq<Row>, name: Bytes, k: nat)
    requires RowsOk(rows) && k < |History(rows, name)|
    ensures RowOk(History(rows, name)[k])
  {
    QueriesReadHistory(rows, name);
    var i :| 0 <= i < |rows| && rows[i] == History(rows, name)[k];
  }

  lemma {:induction false} CopiedVersion(c: Context, d: Draft, row: Row)
    requires RowOk(row) && DraftOf(c, d, row) && SelectAlgorithm(c.pf, d.algorithm).Success?
    ensures VersionOf(c, row) == DraftVersion(c, d)
  {
  }

  lemma {:induction false} AddedIsCopied(c: Context, t: Tables, t': Tables, name: Bytes, version: Version, source: nat)
    requires Changed(c, t, t', Added(name, version))
    requires 1 <= source <= |ShelfOf(c, t.secrets, name).versions|
    requires ShelfOf(c, t.secrets, name).versions[source - 1] == version
    ensures Changed(c, t, t', Copied(name, source))
  {
  }

  /** rollback(v) appends a copy of the v-th version and makes it active, even
      after a delete. */
  lemma {:induction false} RollbackCopies(c: Context, t: Tables, name: Bytes, version: int, e: Env, t': Tables)
    requires AeadCorrect(c.p) && Inv(c, t) && RollbackOutcome(c, t, name, version, e) == Some(t')
    ensures var stored := StoredName(c.p, c.keys.meta, name);
      1 <= version <= |ShelfOf(c, t.secrets, stored).versions| &&
      Inv(c, t') && Changed(c, t, t', Copied(stored, version))
  {
    var stored := StoredName(c.p, c.keys.meta, name);
    Queries(t.secrets, stored);
    var row := FindVersion(t.secrets, stored, version).value;
    CopyKeeps(c, t, Draft(stored, NameNonce(e), EncryptedName(c, e, stored, name), PlainRow(c, row).value,
                          Some(row.secret.algorithm), IntervalOf(row), IfPresent, E.Rollback), e, version, t');
  }

  /** The draft vault_rotate_expired_secret writes. */
  function RotateDraft(c: Context, row: Row): Draft
    requires PlainRow(c, row).Success?
  {
    Draft(row.name, row.nameNonce, row.encryptedName, PlainRow(c, row).value, Some(row.secret.algorithm),
          IntervalOf(row), MustExist, E.RotateDek)
  }

  /** Rotating an expired secret copies its active version; one not yet due by
      the operation's clock is left alone and still counts as success. */
  lemma {:induction false} RotateCopies(c: Context, t: Tables, stored: Bytes, e: Env, t': Tables)
    requires AeadCorrect(c.p) && Inv(c, t) && RotateExpiredOutcome(c, t, stored, e) == Some(t')
    ensures var h := History(t.secrets, stored);
      HasActive(h) && Inv(c, t') &&
      if Due(h[|h| - 1], e.now) then
        Changed(c, t, t', Copied(stored, |h|)) && h[|h| - 1].name == stored &&
        PlainRow(c, h[|h| - 1]).Success? && WriteOutcome(c, t, RotateDraft(c, h[|h| - 1]), e) == Some(t')
      else t' == t
  {
    Queries(t.secrets, stored);
    QueriesReadHistory(t.secrets, stored);
    var row := FindActive(t.secrets, stored).value;
    if Due(row, e.now) {
      CopyKeeps(c, t, RotateDraft(c, row), e, |History(t.secrets, stored)|, t');
    }
  }

  lemma {:induction false} DeleteTable(c: Context, t: Tables, stored: Bytes, now: nat)
    requires Structural(t.secrets) && Readable(c, t.secrets)
    ensures var rows := Archive(t.secrets, stored, now);
      Structural(rows) && Readable(c, rows) && !HasActive(History(rows, stored)) &&
      |History(rows, stored)| == |History(t.secrets, stored)| &&
      ShelfOf(c, rows, stored) == ShelfOf(c, t.secrets, stored).(active := false) &&
      forall name :: name != stored ==> History(rows, name) == History(t.secrets, name)
  {
    ArchiveKeeps(t.secrets, stored, now);
    ArchivedReadsAlike(c, t.secrets, stored, now);
    ArchivedReadsAlike(c, History(t.secrets, stored), stored, now);
  }

  /** delete makes the name inactive and keeps every version. */
  lemma {:induction false} DeleteRemoves(c: Context, t: Tables, name: Bytes, e: Env, t': Tables)
    requires AeadCorrect(c.p) && Inv(c, t) && DeleteOutcome(c, t, name, e) == Some(t')
    ensures var stored := StoredName(c.p, c.keys.meta, name);
      ShelfOf(c, t.secrets, stored).active && Inv(c, t') && Changed(c, t, t', Removed(stored))
  {
    var stored := StoredName(c.p, c.keys.meta, name);
    var h := History(t.secrets, stored);
    Queries(t.secrets, stored);
    assert Ordered(h);
    DeleteTable(c, t, stored, e.now);
    assert h[|h| - 1].version == |h|;
    LoggedKeeps(c, t, e, E.Delete, stored, |h|, t');
    OthersUnchanged(c, t, t', Removed(stored));
  }
}
