/** KEK rotation over the whole vault (src/vault.c, src/key_manager.c): every
    row re-wrapped, the name key carried over, the log re-signed and extended. */
module KekRotation {
  import opened Common
  import opened Primitives
  import opened CryptoEngine
  import opened SecretsTable
  import opened VaultSpec
  import opened VaultRefinement
  import KeyManager
  import E = AuditEntry
  import A = AuditChain

  // ---------------------------------------------------------------- rows

  /** Row i of a re-wrapped table. */
  predicate RewrappedAt(c: Context, rows: seq<Row>, rows': seq<Row>, k: NewKek, i: nat)
    requires i < |rows'| <= |rows|
  {
    RewrapRow(c, rows[i], k.enc, k.nonces(i)).Success? &&
    rows'[i] == rows[i].(secret := RewrapRow(c, rows[i], k.enc, k.nonces(i)).value)
  }

  predicate RowRotates(c: Context, rows: seq<Row>, k: NewKek, i: nat)
    requires i < |rows|
  {
    k.rowOk(i) && RewrapRow(c, rows[i], k.enc, k.nonces(i)).Success?
  }

  lemma {:induction false} RewrapSucceeds(c: Context, rows: seq<Row>, k: NewKek, n: nat)
    requires n <= |rows|
    ensures RewrapRows(c, rows, k, n).Some? <==> RowsRotate(c, rows, k, n)
  {
    if n > 0 {
      RewrapSucceeds(c, rows, k, n - 1);
      RewrapOneMore(c, rows, k, n - 1);
      RotateOneMore(c, rows, k, n - 1);
    }
  }

  predicate RowsRotate(c: Context, rows: seq<Row>, k: NewKek, n: nat)
    requires n <= |rows|
  {
    forall i: nat :: i < n ==> RowRotates(c, rows, k, i)
  }

  lemma {:induction false} RotateOneMore(c: Context, rows: seq<Row>, k: NewKek, n: nat)
    requires n < |rows|
    ensures RowsRotate(c, rows, k, n + 1) <==> RowsRotate(c, rows, k, n) && RowRotates(c, rows, k, n)
  {
  }

  lemma {:induction false} RewrapOneMore(c: Context, rows: seq<Row>, k: NewKek, n: nat)
    requires n < |rows|
    ensures RewrapRows(c, rows, k, n + 1).Some? <==> RewrapRows(c, rows, k, n).Some? && RowRotates(c, rows, k, n)
  {
  }

  lemma {:induction false} RewrappedRow(c: Context, rows: seq<Row>, k: NewKek, n: nat, i: nat)
    requires i < n <= |rows| && RewrapRows(c, rows, k, n).Some?
    ensures RewrappedAt(c, rows, RewrapRows(c, rows, k, n).value, k, i)
  {
    if i < n - 1 {
      RewrappedRow(c, rows, k, n - 1, i);
    }
  }

  /** A readable row can be re-wrapped, and reads the same under the new keys. */
  lemma {:induction false} RewrappedRowReads(c: Context, row: Row, k: NewKek, nonce: Digest)
    requires AeadCorrect(c.p) && PlainRow(c, row).Success? && row.secret.algorithm.Canonical? && row.version > 0
    ensures RewrapRow(c, row, k.enc, nonce).Success?
    ensures var row' := row.(secret := RewrapRow(c, row, k.enc, nonce).value);
      PlainRow(RotatedContext(c, k), row') == PlainRow(c, row) &&
      VersionOf(RotatedContext(c, k), row') == VersionOf(c, row) &&
      row'.secret.algorithm == row.secret.algorithm
  {
    KeyManager.RewrapKeepsPlaintext(c.p, c.pf, row.secret, RowIdentity(c.p, row.id, row.name), row.version,
                                    c.keys.enc, k.enc, nonce, |row.secret.ciphertext|);
  }

  /** Two tables of rows that differ in their secrets but read alike. */
  ghost predicate ReadsAlike(c: Context, rows: seq<Row>, c': Context, rows': seq<Row>) {
    SameButSecrets(rows, rows') &&
    forall i {:trigger VersionOf(c', rows'[i])} :: 0 <= i < |rows| ==> VersionOf(c', rows'[i]) == VersionOf(c, rows[i])
  }

  /** The k-th rows of two such histories come from one place in the tables. */
  lemma {:induction false} SamePlace(rows: seq<Row>, rows': seq<Row>, name: Bytes, k: nat) returns (i: nat)
    requires SameButSecrets(rows, rows') && k < |History(rows, name)|
    ensures i < |rows| && |History(rows', name)| == |History(rows, name)|
    ensures History(rows, name)[k] == rows[i] && History(rows', name)[k] == rows'[i]
  {
    HistoryOfRekeyed(rows, rows', name);
    var n := |rows| - 1;
    var init, init' := rows[..n], rows'[..n];
    assert forall j :: 0 <= j < n ==> init[j] == rows[j] && init'[j] == rows'[j];
    HistoryOfRekeyed(init, init', name);
    assert rows'[n].name == rows[n].name;
    if k < |History(init, name)| {
      i := SamePlace(init, init', name, k);
    } else {
      i := n;
    }
  }

  lemma {:induction false} ShelvesAlike(c: Context, rows: seq<Row>, c': Context, rows': seq<Row>, name: Bytes)
    requires ReadsAlike(c, rows, c', rows')
    ensures ShelfOf(c', rows', name) == ShelfOf(c, rows, name)
  {
    HistoryOfRekeyed(rows, rows', name);
    var h, h' := History(rows, name), History(rows', name);
    forall k | 0 <= k < |h|
      ensures VersionOf(c', h'[k]) == VersionOf(c, h[k])
    {
      var i := SamePlace(rows, rows', name, k);
    }
    assert Contents(c', h') == Contents(c, h);
  }

  /** Row i's DEK is the one it had, now sealed under the new KEK with a nonce
      drawn for that row. */
  predicate DekMoved(c: Context, rows: seq<Row>, rows': seq<Row>, k: NewKek, i: nat)
    requires i < |rows| == |rows'|
  {
    var s, s' := rows[i].secret, rows'[i].secret;
    var aad := Aad(RowIdentity(c.p, rows[i].id, rows[i].name), rows[i].version);
    s.algorithm.Canonical? && s'.algorithm == s.algorithm && |s'.dekNonce| == NonceBytes(s.algorithm.alg) &&
    s'.dekNonce <= k.nonces(i) &&
    c.p.open(s.algorithm.alg, k.enc, s'.dekNonce, aad, s'.encryptedDek)
      == c.p.open(s.algorithm.alg, c.keys.enc, s.dekNonce, aad, s.encryptedDek)
  }

  lemma {:induction false} RowDekMoves(c: Context, rows: seq<Row>, rows': seq<Row>, k: NewKek, i: nat)
    requires AeadCorrect(c.p) && i < |rows| == |rows'| && RewrappedAt(c, rows, rows', k, i)
    ensures DekMoved(c, rows, rows', k, i)
  {
    var row := rows[i];
    KeyManager.RewrapDraws(c.p, c.pf, row.secret, RowIdentity(c.p, row.id, row.name), row.version, c.keys.enc, k.enc,
                           k.nonces(i));
  }

  /** Two rows of one algorithm share a DEK nonce only if their draws share that
      prefix. */
  lemma {:induction false} NoncesApart(c: Context, rows: seq<Row>, rows': seq<Row>, k: NewKek, i: nat, j: nat)
    requires i < |rows| == |rows'| && j < |rows| && DekMoved(c, rows, rows', k, i) && DekMoved(c, rows, rows', k, j)
    requires rows[i].secret.algorithm == rows[j].secret.algorithm
    requires rows'[i].secret.dekNonce == rows'[j].secret.dekNonce
    ensures var n := NonceBytes(rows[i].secret.algorithm.alg); k.nonces(i)[..n] == k.nonces(j)[..n]
  {
  }

  /** The table half: all rows can be re-wrapped and read alike afterwards, each
      with the DEK it had and a nonce of its own draw. */
  lemma {:induction false} TableRotates(c: Context, rows: seq<Row>, k: NewKek)
    requires AeadCorrect(c.p) && Structural(rows) && Readable(c, rows)
    ensures RewrapRows(c, rows, k, |rows|).Some? <==> forall i: nat :: i < |rows| ==> k.rowOk(i)
    ensures RewrapRows(c, rows, k, |rows|).Some? ==>
              var rows' := RewrapRows(c, rows, k, |rows|).value;
              ReadsAlike(c, rows, RotatedContext(c, k), rows') && Readable(RotatedContext(c, k), rows') &&
              Structural(rows') && forall i: nat :: i < |rows| ==> DekMoved(c, rows, rows', k, i)
  {
    RewrapSucceeds(c, rows, k, |rows|);
    forall i: nat | i < |rows|
      ensures RowRotates(c, rows, k, i) <==> k.rowOk(i)
    {
      RowReadsAfter(c, rows, k, i);
    }
    if RewrapRows(c, rows, k, |rows|).Some? {
      var rows' := RewrapRows(c, rows, k, |rows|).value;
      forall i: nat | i < |rows|
        ensures rows'[i] == rows[i].(secret := rows'[i].secret)
        ensures rows'[i].secret.algorithm == rows[i].secret.algorithm
        ensures VersionOf(RotatedContext(c, k), rows'[i]) == VersionOf(c, rows[i])
        ensures PlainRow(RotatedContext(c, k), rows'[i]).Success?
        ensures DekMoved(c, rows, rows', k, i)
      {
        RowReadsAfter(c, rows, k, i);
        RewrappedRow(c, rows, k, |rows|, i);
        RowDekMoves(c, rows, rows', k, i);
      }
      RekeyKeeps(rows, rows');
    }
  }

  lemma {:induction false} RowReadsAfter(c: Context, rows: seq<Row>, k: NewKek, i: nat)
    requires AeadCorrect(c.p) && Structural(rows) && Readable(c, rows) && i < |rows|
    ensures RewrapRow(c, rows[i], k.enc, k.nonces(i)).Success?
    ensures var row' := rows[i].(secret := RewrapRow(c, rows[i], k.enc, k.nonces(i)).value);
      PlainRow(RotatedContext(c, k), row') == PlainRow(c, rows[i]) && PlainRow(c, rows[i]).Success? &&
      VersionOf(RotatedContext(c, k), row') == VersionOf(c, rows[i]) &&
      row'.secret.algorithm == rows[i].secret.algorithm
  {
    RowsInRange(rows, i);
    assert RowOk(rows[i]) && PlainRow(c, rows[i]).Success?;
    RewrappedRowReads(c, rows[i], k, k.nonces(i));
  }

  // ---------------------------------------------------------------- log

  lemma {:induction false} ReplayIgnoresSignatures(log: seq<A.LogRow>, log': seq<A.LogRow>, name: Bytes)
    requires |log| == |log'| && forall i :: 0 <= i < |log| ==> log'[i] == log[i].(signature := log'[i].signature)
    ensures Replay(log', name) == Replay(log, name) && HistoryFits(log', name) == HistoryFits(log, name)
  {
    if log != [] {
      var n := |log| - 1;
      ReplayIgnoresSignatures(log[..n], log'[..n], name);
      assert log'[n] == log[n].(signature := log'[n].signature);
    }
  }

  lemma {:induction false} KekEntryFits(p: Prims, log: seq<A.LogRow>, key: Digest, stamp: Stamp)
    requires A.Verified(p, log, key) && A.IdsInOrder(log) && |log| <= INT_MAX
    ensures A.Append(p, log, key, stamp, KekEvent()).Some?
    ensures var log' := A.Append(p, log, key, stamp, KekEvent()).value;
      |log'| == |log| + 1 && log'[|log|].action == E.RotateKek
  {
    if log != [] {
      assert A.VerifiedAt(p, log, key, |log| - 1);
    }
  }

  /** The log half: re-signing keeps every hashed field, and the one added
      entry is ROTATE_KEK. */
  lemma {:induction false} LogRotates(p: Prims, log: seq<A.LogRow>, key: Digest, newKey: Digest, stamp: Stamp)
    requires A.Verified(p, log, key) && A.IdsInOrder(log)
    ensures A.Resign(p, log, newKey).Some? <==> |log| <= INT_MAX
    ensures A.Resign(p, log, newKey).Some? ==>
              A.Append(p, A.Resign(p, log, newKey).value, newKey, stamp, KekEvent()).Some?
    ensures A.Resign(p, log, newKey).Some? ==>
              var log' := A.Append(p, A.Resign(p, log, newKey).value, newKey, stamp, KekEvent()).value;
              A.Verified(p, log', newKey) && A.IdsInOrder(log') &&
              |log'| == |log| + 1 && log'[|log|].action == E.RotateKek &&
              forall i :: 0 <= i < |log| ==> log'[i] == log[i].(signature := log'[i].signature)
  {
    A.VerifiedIsLinked(p, log, key);
    A.ResignInOrder(p, log, newKey);
    if |log| <= INT_MAX {
      A.ResignedVerifies(p, log, newKey);
      var signed := A.Resigned(p, log, newKey);
      KekEntryFits(p, signed, newKey, stamp);
      A.AppendKeepsVerified(p, signed, newKey, stamp, KekEvent());
    }
  }

  lemma {:induction false} RotatedLogFits(c: Context, t: Tables, t': Tables)
    requires LogFits(t.log, t.secrets) && SameButSecrets(t.secrets, t'.secrets)
    requires |t'.log| == |t.log| + 1 && t'.log[|t.log|].action == E.RotateKek
    requires forall i :: 0 <= i < |t.log| ==> t'.log[i] == t.log[i].(signature := t'.log[i].signature)
    ensures LogFits(t'.log, t'.secrets)
  {
    var n := |t.log|;
    forall name
      ensures LogTells(t'.log, t'.secrets, name)
    {
      assert LogTells(t.log, t.secrets, name);
      ReplayIgnoresSignatures(t.log, t'.log[..n], name);
      HistoryOfRekeyed(t.secrets, t'.secrets, name);
      assert t'.log[..|t'.log| - 1] == t'.log[..n];
    }
  }

  // ---------------------------------------------------------------- the whole rotation

  lemma {:induction false} MetaKeyRotates(c: Context, t: Tables, k: NewKek)
    requires AeadCorrect(c.p)
    ensures WithMetaKey(c.p, t.metadata, c.keys.meta, k.enc, k.metaNonce).Some?
    ensures var m := WithMetaKey(c.p, t.metadata, c.keys.meta, k.enc, k.metaNonce).value;
      LoadMetaKey(c.p, m["salt" := k.salt]["password_verifier" := k.verifier], k.enc) == Success(c.keys.meta)
  {
    var nonce := k.metaNonce[..24];
    assert SealOpens(c.p, XChaCha20Poly1305, k.enc, nonce, MetaAad(), c.keys.meta);
    assert OpensShorter(c.p, XChaCha20Poly1305, k.enc, nonce, MetaAad(),
                        c.p.seal(XChaCha20Poly1305, k.enc, nonce, MetaAad(), c.keys.meta));
    assert |"meta_key_nonce"| == 14 && |"meta_key_wrapped"| == 16 && |"salt"| == 4 && |"password_verifier"| == 17;
  }

  /** What a successful rotation leaves in each of the three tables. */
  lemma {:induction false} RotatedTables(c: Context, t: Tables, k: NewKek, e: Env, t': Tables)
    requires AeadCorrect(c.p) && RotateKekOutcome(c, t, k, e) == Some(t')
    ensures RewrapRows(c, t.secrets, k, |t.secrets|) == Some(t'.secrets)
    ensures A.Resign(c.p, t.log, k.audit).Some?
    ensures A.Append(c.p, A.Resign(c.p, t.log, k.audit).value, k.audit, e.stamp, KekEvent()) == Some(t'.log)
    ensures LoadMetaKey(c.p, t'.metadata, k.enc) == Success(c.keys.meta)
    ensures "meta_key_nonce" in t'.metadata && t'.metadata["meta_key_nonce"] <= k.metaNonce
    ensures "salt" in t'.metadata && t'.metadata["salt"] == k.salt
    ensures "password_verifier" in t'.metadata && t'.metadata["password_verifier"] == k.verifier
  {
    MetaKeyRotates(c, t, k);
    assert |"salt"| == 4 && |"password_verifier"| == 17;
  }

  /** After a successful rotation every version of every secret reads the same
      under the new KEK, names are looked up as before, the log verifies under
      the new audit key, and it gained exactly one entry, ROTATE_KEK. */
  lemma {:induction false} RotateKekKeeps(c: Context, t: Tables, k: NewKek, e: Env, t': Tables)
    requires AeadCorrect(c.p) && Inv(c, t) && RotateKekOutcome(c, t, k, e) == Some(t')
    ensures Inv(RotatedContext(c, k), t') && RotatedContext(c, k).keys.meta == c.keys.meta
    ensures forall name :: ShelfOf(RotatedContext(c, k), t'.secrets, name) == ShelfOf(c, t.secrets, name)
    ensures |t'.log| == |t.log| + 1 && t'.log[|t.log|].action == E.RotateKek
    ensures A.Hashes(t'.log)[..|t.log|] == A.Hashes(t.log)
    ensures "salt" in t'.metadata && t'.metadata["salt"] == k.salt
    ensures "password_verifier" in t'.metadata && t'.metadata["password_verifier"] == k.verifier
  {
    RotatedTables(c, t, k, e, t');
    TableRotates(c, t.secrets, k);
    LogRotates(c.p, t.log, c.keys.audit, k.audit, e.stamp);
    RotatedLogFits(c, t, t');
    forall name
      ensures ShelfOf(RotatedContext(c, k), t'.secrets, name) == ShelfOf(c, t.secrets, name)
    {
      ShelvesAlike(c, t.secrets, RotatedContext(c, k), t'.secrets, name);
    }
  }

  /** A rotation succeeds exactly when no step fails and the log is short
      enough for the 32-bit update: in particular no stored row can stop it. */
  lemma {:induction false} RotateKekSucceedsWhen(c: Context, t: Tables, k: NewKek, e: Env)
    requires AeadCorrect(c.p) && Inv(c, t)
    ensures RotateKekOutcome(c, t, k, e).Some? <==>
              e.ok(Derive) && e.ok(Begin) && e.ok(Verify) && e.ok(UpdateMeta) && e.ok(Log) && e.ok(Commit) &&
              (forall i: nat :: i < |t.secrets| ==> k.rowOk(i)) && |t.log| <= INT_MAX
  {
    TableRotates(c, t.secrets, k);
    LogRotates(c.p, t.log, c.keys.audit, k.audit, e.stamp);
    MetaKeyRotates(c, t, k);
  }
}
