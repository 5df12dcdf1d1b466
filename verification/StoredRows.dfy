/** What a stored row carries besides its plaintext: the drawn id, keys, nonces
    and times, a display name that opens to the name it is filed under, and an
    AES-GCM nonce that ends in the row's counter. */
module StoredRows {
  import opened Common
  import opened Primitives
  import opened CryptoEngine
  import opened SecretsTable
  import opened VaultSpec
  import opened VaultRefinement
  import opened VaultOperations
  import R = VaultRuns
  import KekRotation
  import E = AuditEntry
  import Auto = AutoRotation

  // ---------------------------------------------------------------- display names and nonces

  /** vault_decrypt_display_name: the stored name is the associated data. */
  function DisplayName(c: Context, nameNonce: Bytes, encryptedName: Bytes, stored: Bytes): Option<Bytes> {
    if |nameNonce| != 24 || |encryptedName| <= 16 || |encryptedName| > NAME_MAX + 16 then None
    else c.p.open(XChaCha20Poly1305, c.keys.meta, nameNonce, stored, encryptedName)
  }

  /** The display name opens to a name that is looked up under `stored`. */
  predicate Names(c: Context, nameNonce: Bytes, encryptedName: Bytes, stored: Bytes) {
    var name := DisplayName(c, nameNonce, encryptedName, stored);
    name.Some? && StoredName(c.p, c.keys.meta, name.value) == stored
  }

  predicate CountsInNonce(row: Row) {
    row.secret.algorithm == Canonical(Aes256Gcm) ==>
      |row.secret.nonce| == 12 && row.secret.nonce[4..] == Le(row.counter, 8)
  }

  predicate Stamped(c: Context, row: Row) {
    Names(c, row.nameNonce, row.encryptedName, row.name) && CountsInNonce(row)
  }

  predicate AllStamped(c: Context, rows: seq<Row>) {
    forall i :: 0 <= i < |rows| ==> Stamped(c, rows[i])
  }

  /** A name sealed for a stored name is its display name. */
  lemma {:induction false} SealedNameOpens(c: Context, e: Env, name: Bytes)
    requires AeadCorrect(c.p) && name != [] && |name| <= NAME_MAX
    ensures var stored := StoredName(c.p, c.keys.meta, name);
      DisplayName(c, NameNonce(e), EncryptedName(c, e, stored, name), stored) == Some(name) &&
      NameNonce(e) <= e.nameNonce
  {
    var stored, nonce := StoredName(c.p, c.keys.meta, name), NameNonce(e);
    assert SealOpens(c.p, XChaCha20Poly1305, c.keys.meta, nonce, stored, name);
    assert OpensShorter(c.p, XChaCha20Poly1305, c.keys.meta, nonce, stored, EncryptedName(c, e, stored, name));
  }

  // ---------------------------------------------------------------- one write

  /** The row a write adds is last in the table. It is sealed under the drawn
      DEK with drawn nonces, and has the drawn id and the times read. */
  lemma {:induction false} WriteDraws(c: Context, t: Tables, d: Draft, e: Env, t': Tables)
    requires AeadCorrect(c.p) && Structural(t.secrets) && WriteOutcome(c, t, d, e) == Some(t')
    ensures |t'.secrets| == |t.secrets| + 1 && SelectAlgorithm(c.pf, d.algorithm).Success?
    ensures var row := t'.secrets[|t.secrets|];
      row.id == e.id && row.name == d.stored && row.nameNonce == d.nameNonce && row.encryptedName == d.encryptedName &&
      row.createdAt == e.now && row.updatedAt == e.now && row.expiresAt == ExpiresAt(d.interval, e) &&
      Drawn(c.p, row.secret, SelectAlgorithm(c.pf, d.algorithm).value, c.keys.enc, e.rnd,
            Aad(RowIdentity(c.p, e.id, d.stored), row.version)) &&
      CountsInNonce(row)
  {
    WriteUnpacks(c, t, d, e, t');
    var row, next := WrittenRow(c, t, d, e), NextOf(t.secrets, d.stored).value;
    SupersededLast(t.secrets, d.how, e.now, row);
    EncryptUsesDraws(c.p, c.pf, d.plain, c.keys.enc, RowIdentity(c.p, e.id, d.stored), next.version, next.counter,
                     d.algorithm, e.rnd);
  }

  lemma {:induction false} SupersededLast(rows: seq<Row>, how: Replace, now: nat, row: Row)
    requires Supersede(rows, how, now, row).Success?
    ensures Supersede(rows, how, now, row).value
         == (if how == Nothing then rows else Archive(rows, row.name, now)) + [row]
  {
  }

  lemma {:induction false} ArchivedStamped(c: Context, rows: seq<Row>, name: Bytes, now: nat)
    requires AllStamped(c, rows)
    ensures AllStamped(c, Archive(rows, name, now))
  {
    forall i | 0 <= i < |rows|
      ensures Stamped(c, Archive(rows, name, now)[i])
    {
      assert Stamped(c, rows[i]) && Archive(rows, name, now)[i] == ArchivedRow(rows[i], name, now);
    }
  }

  lemma {:induction false} WriteStamps(c: Context, t: Tables, d: Draft, e: Env, t': Tables)
    requires AeadCorrect(c.p) && Structural(t.secrets) && WriteOutcome(c, t, d, e) == Some(t')
    requires AllStamped(c, t.secrets) && Names(c, d.nameNonce, d.encryptedName, d.stored)
    ensures AllStamped(c, t'.secrets)
  {
    WriteUnpacks(c, t, d, e, t');
    SupersededLast(t.secrets, d.how, e.now, WrittenRow(c, t, d, e));
    ArchivedStamped(c, t.secrets, d.stored, e.now);
    WriteDraws(c, t, d, e, t');
  }

  /** put: the new row opens to the plaintext's key, the name and the times of
      this very call. */
  lemma {:induction false} PutDraws(c: Context, t: Tables, name: Bytes, plain: Bytes, algorithm: Option<Name>,
                                    ttl: nat, e: Env, t': Tables)
    requires AeadCorrect(c.p) && Structural(t.secrets) && PutOutcome(c, t, name, plain, algorithm, ttl, e) == Some(t')
    ensures |t'.secrets| == |t.secrets| + 1 && SelectAlgorithm(c.pf, algorithm).Success?
    ensures var row, stored := t'.secrets[|t.secrets|], StoredName(c.p, c.keys.meta, name);
      row.id == e.id && row.name == stored && row.createdAt == e.now && row.expiresAt == ExpiresAt(ttl, e) &&
      Drawn(c.p, row.secret, SelectAlgorithm(c.pf, algorithm).value, c.keys.enc, e.rnd,
            Aad(RowIdentity(c.p, e.id, stored), row.version)) &&
      DisplayName(c, row.nameNonce, row.encryptedName, stored) == Some(name) && row.nameNonce <= e.nameNonce
  {
    WriteDraws(c, t, PutDraft(c, t, name, plain, algorithm, ttl, e), e, t');
    SealedNameOpens(c, e, name);
  }

  // ---------------------------------------------------------------- every operation

  lemma {:induction false} PutStamps(c: Context, t: Tables, name: Bytes, plain: Bytes, algorithm: Option<Name>,
                                     ttl: nat, e: Env, t': Tables)
    requires AeadCorrect(c.p) && Structural(t.secrets) && AllStamped(c, t.secrets)
    requires PutOutcome(c, t, name, plain, algorithm, ttl, e) == Some(t')
    ensures AllStamped(c, t'.secrets)
  {
    SealedNameOpens(c, e, name);
    WriteStamps(c, t, PutDraft(c, t, name, plain, algorithm, ttl, e), e, t');
  }

  lemma {:induction false} RollbackStamps(c: Context, t: Tables, name: Bytes, version: int, e: Env, t': Tables)
    requires AeadCorrect(c.p) && Structural(t.secrets) && AllStamped(c, t.secrets)
    requires RollbackOutcome(c, t, name, version, e) == Some(t')
    ensures AllStamped(c, t'.secrets)
  {
    var stored := StoredName(c.p, c.keys.meta, name);
    var row := FindVersion(t.secrets, stored, version).value;
    SealedNameOpens(c, e, name);
    WriteStamps(c, t, Draft(stored, NameNonce(e), EncryptedName(c, e, stored, name), PlainRow(c, row).value,
                            Some(row.secret.algorithm), IntervalOf(row), IfPresent, E.Rollback), e, t');
  }

  lemma {:induction false} RotateStamps(c: Context, t: Tables, stored: Bytes, e: Env, t': Tables)
    requires AeadCorrect(c.p) && Structural(t.secrets) && AllStamped(c, t.secrets)
    requires RotateExpiredOutcome(c, t, stored, e) == Some(t')
    ensures AllStamped(c, t'.secrets)
  {
    RotationWrites(c, t, stored, e, t');
    var row := Auto.LastRow(t.secrets, stored);
    if t' != t {
      LastStamped(c, t.secrets, stored);
      RotationStamps(c, t, row, e, t');
    }
  }

  lemma {:induction false} RotationWrites(c: Context, t: Tables, stored: Bytes, e: Env, t': Tables)
    requires Structural(t.secrets) && RotateExpiredOutcome(c, t, stored, e) == Some(t')
    ensures History(t.secrets, stored) != []
    ensures var row := Auto.LastRow(t.secrets, stored);
      t' == t || (PlainRow(c, row).Success? && WriteOutcome(c, t, RotateDraft(c, row), e) == Some(t'))
  {
    ActiveRow(t.secrets, stored);
    QueriesReadHistory(t.secrets, stored);
  }

  lemma {:induction false} RotationStamps(c: Context, t: Tables, row: Row, e: Env, t': Tables)
    requires AeadCorrect(c.p) && Structural(t.secrets) && AllStamped(c, t.secrets) && Stamped(c, row)
    requires PlainRow(c, row).Success? && WriteOutcome(c, t, RotateDraft(c, row), e) == Some(t')
    ensures AllStamped(c, t'.secrets)
  {
    WriteStamps(c, t, RotateDraft(c, row), e, t');
  }

  lemma {:induction false} LastStamped(c: Context, rows: seq<Row>, name: Bytes)
    requires AllStamped(c, rows) && History(rows, name) != []
    ensures Stamped(c, Auto.LastRow(rows, name))
  {
    QueriesReadHistory(rows, name);
    var i :| 0 <= i < |rows| && rows[i] == Auto.LastRow(rows, name);
    assert Stamped(c, rows[i]);
  }

  lemma {:induction false} KekStamps(c: Context, t: Tables, k: NewKek, e: Env, t': Tables)
    requires RotateKekOutcome(c, t, k, e) == Some(t') && AllStamped(c, t.secrets)
    ensures AllStamped(RotatedContext(c, k), t'.secrets)
  {
    forall i | 0 <= i < |t.secrets|
      ensures Stamped(RotatedContext(c, k), t'.secrets[i])
    {
      assert Stamped(c, t.secrets[i]);
      KekRotation.RewrappedRow(c, t.secrets, k, |t.secrets|, i);
      RewrapKeepsNonce(c, t.secrets[i], k, k.nonces(i));
    }
  }

  lemma {:induction false} RewrapKeepsNonce(c: Context, row: Row, k: NewKek, nonce: Digest)
    requires RewrapRow(c, row, k.enc, nonce).Success?
    ensures RewrapRow(c, row, k.enc, nonce).value.nonce == row.secret.nonce
    ensures RewrapRow(c, row, k.enc, nonce).value.algorithm == row.secret.algorithm
  {
  }

  lemma {:induction false} TurnsStamp(c: Context, t: Tables, captured: nat, envs: seq<Env>)
    requires AeadCorrect(c.p) && Inv(c, t) && AllStamped(c, t.secrets)
    ensures AllStamped(c, Auto.AutoRotate(c, t, captured, envs).0.secrets)
    decreases |envs|
  {
    var next := Auto.NextExpired(t.secrets, captured);
    if envs != [] && envs[0].ok(FindNext) && next.Some? && RotateExpiredOutcome(c, t, next.value, envs[0]).Some? {
      var t1 := RotateExpiredOutcome(c, t, next.value, envs[0]).value;
      Auto.OneTurn(c, t, captured, envs, next.value, t1);
      RotateStamps(c, t, next.value, envs[0], t1);
      RotateCopies(c, t, next.value, envs[0], t1);
      TurnsStamp(c, t1, captured, envs[1..]);
    }
  }

  lemma {:induction false} StepStamps(s: R.State, cmd: R.Command)
    requires AeadCorrect(s.c.p) && Inv(s.c, s.t) && AllStamped(s.c, s.t.secrets)
    ensures AllStamped(R.Step(s, cmd).c, R.Step(s, cmd).t.secrets)
  {
    var r := R.Outcome(s, cmd);
    if r.Some? && (cmd.Get? || cmd.GetVersion?) {
      ReadsKeepSecrets(s, cmd, r.value);
    } else if r.Some? {
      match cmd
      case Put(name, plain, algorithm, ttl, e) => PutStamps(s.c, s.t, name, plain, algorithm, ttl, e, r.value);
      case Delete(name, e) => ArchivedStamped(s.c, s.t.secrets, StoredName(s.c.p, s.c.keys.meta, name), e.now);
      case Rollback(name, version, e) => RollbackStamps(s.c, s.t, name, version, e, r.value);
      case AutoRotate(start, envs) => TurnsStamp(s.c, s.t, start.now, envs);
      case RotateKek(k, e) => KekStamps(s.c, s.t, k, e, r.value);
    }
  }

  lemma {:induction false} ReadsKeepSecrets(s: R.State, cmd: R.Command, t': Tables)
    requires (cmd.Get? || cmd.GetVersion?) && R.Outcome(s, cmd) == Some(t')
    ensures t'.secrets == s.t.secrets
  {
  }

  // ---------------------------------------------------------------- every run

  lemma {:induction false} RunStamps(s: R.State, cmds: seq<R.Command>)
    requires AeadCorrect(s.c.p) && R.Fresh(s)
    ensures AllStamped(R.Run(s, cmds).c, R.Run(s, cmds).t.secrets)
  {
    if cmds != [] {
      var init := cmds[..|cmds| - 1];
      RunStamps(s, init);
      R.FreshInv(s);
      R.RunRefines(s, init);
      StepStamps(R.Run(s, init), cmds[|cmds| - 1]);
    }
  }

  /** After any run every row's display name opens, with its stored name as
      associated data, to a name that is looked up under that stored name. */
  lemma {:induction false} DisplayNamesOpen(s: R.State, cmds: seq<R.Command>, i: nat)
    requires AeadCorrect(s.c.p) && R.Fresh(s) && i < |R.Run(s, cmds).t.secrets|
    ensures var s' := R.Run(s, cmds); var row := s'.t.secrets[i];
      var name := DisplayName(s'.c, row.nameNonce, row.encryptedName, row.name);
      name.Some? && StoredName(s'.c.p, s'.c.keys.meta, name.value) == row.name
  {
    RunStamps(s, cmds);
    assert Stamped(R.Run(s, cmds).c, R.Run(s, cmds).t.secrets[i]);
  }

  /** After any run two versions of one name sealed with AES-GCM have different
      payload nonces: this is what "counter equals version" is for. */
  lemma {:induction false} GcmNoncesApart(s: R.State, cmds: seq<R.Command>, i: nat, j: nat)
    requires AeadCorrect(s.c.p) && R.Fresh(s)
    requires i < |R.Run(s, cmds).t.secrets| && j < |R.Run(s, cmds).t.secrets|
    requires var a, b := R.Run(s, cmds).t.secrets[i], R.Run(s, cmds).t.secrets[j];
      a.name == b.name && a.version != b.version &&
      a.secret.algorithm == b.secret.algorithm == Canonical(Aes256Gcm)
    ensures R.Run(s, cmds).t.secrets[i].secret.nonce != R.Run(s, cmds).t.secrets[j].secret.nonce
  {
    RunStamps(s, cmds);
    R.FreshInv(s);
    R.RunRefines(s, cmds);
    StampedNoncesApart(R.Run(s, cmds).c, R.Run(s, cmds).t.secrets, i, j);
  }

  lemma {:induction false} StampedNoncesApart(c: Context, rows: seq<Row>, i: nat, j: nat)
    requires Structural(rows) && AllStamped(c, rows) && i < |rows| && j < |rows|
    requires rows[i].name == rows[j].name && rows[i].version != rows[j].version
    requires rows[i].secret.algorithm == rows[j].secret.algorithm == Canonical(Aes256Gcm)
    ensures rows[i].secret.nonce != rows[j].secret.nonce
  {
    assert Stamped(c, rows[i]) && Stamped(c, rows[j]);
    RowsInRange(rows, i);
    RowsInRange(rows, j);
    Queries(rows, rows[i].name);
    assert Ordered(History(rows, rows[i].name));
    CountersApart(rows[i], rows[j]);
  }

  lemma {:induction false} CountersApart(a: Row, b: Row)
    requires CountsInNonce(a) && CountsInNonce(b) && a.counter != b.counter
    requires a.counter <= SIZE_MAX && b.counter <= SIZE_MAX
    requires a.secret.algorithm == b.secret.algorithm == Canonical(Aes256Gcm)
    ensures a.secret.nonce != b.secret.nonce
  {
    WidthLimits();
    if a.secret.nonce == b.secret.nonce {
      LeInjective(a.counter, b.counter, 8);
    }
  }
}
