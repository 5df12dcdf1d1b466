/** What each successful vault operation writes to the audit log: one entry,
    which names the action, the stored name, the version, the default actor and
    SUCCESS. */
module OperationLog {
  import opened Common
  import opened Primitives
  import opened CryptoEngine
  import opened SecretsTable
  import opened VaultSpec
  import opened VaultRefinement
  import opened VaultOperations
  import KekRotation
  import E = AuditEntry
  import A = AuditChain

  lemma {:induction false} WriteLogs(c: Context, t: Tables, d: Draft, e: Env, t': Tables)
    requires Structural(t.secrets) && WriteOutcome(c, t, d, e) == Some(t')
    ensures OneEntry(t.log, t'.log, e, d.action, d.stored, |History(t.secrets, d.stored)| + 1)
  {
    WriteTable(c, t, d, e, t');
    AppendedRow(c, t, e, d.action, d.stored, |History(t.secrets, d.stored)| + 1);
  }

  /** put logs UPDATE when a version was active and CREATE when none was. */
  lemma {:induction false} PutLogs(c: Context, t: Tables, name: Bytes, plain: Bytes, algorithm: Option<Name>,
                                   ttl: nat, e: Env, t': Tables)
    requires Structural(t.secrets) && PutOutcome(c, t, name, plain, algorithm, ttl, e) == Some(t')
    ensures var stored := StoredName(c.p, c.keys.meta, name); var h := History(t.secrets, stored);
      OneEntry(t.log, t'.log, e, if HasActive(h) then E.Update else E.Create, stored, |h| + 1)
  {
    Queries(t.secrets, StoredName(c.p, c.keys.meta, name));
    WriteLogs(c, t, PutDraft(c, t, name, plain, algorithm, ttl, e), e, t');
  }

  /** rollback logs ROLLBACK with the new version. */
  lemma {:induction false} RollbackLogs(c: Context, t: Tables, name: Bytes, version: int, e: Env, t': Tables)
    requires Structural(t.secrets) && RollbackOutcome(c, t, name, version, e) == Some(t')
    ensures var stored := StoredName(c.p, c.keys.meta, name);
      OneEntry(t.log, t'.log, e, E.Rollback, stored, |History(t.secrets, stored)| + 1)
  {
    var stored := StoredName(c.p, c.keys.meta, name);
    var row := FindVersion(t.secrets, stored, version).value;
    WriteLogs(c, t, Draft(stored, NameNonce(e), EncryptedName(c, e, stored, name), PlainRow(c, row).value,
                          Some(row.secret.algorithm), IntervalOf(row), IfPresent, E.Rollback), e, t');
  }

  /** A rotation of a due secret logs ROTATE_DEK; one that is not due logs
      nothing. */
  lemma {:induction false} RotateLogs(c: Context, t: Tables, stored: Bytes, e: Env, t': Tables)
    requires AeadCorrect(c.p) && Inv(c, t) && RotateExpiredOutcome(c, t, stored, e) == Some(t')
    ensures var h := History(t.secrets, stored);
      HasActive(h) && if Due(h[|h| - 1], e.now) then OneEntry(t.log, t'.log, e, E.RotateDek, stored, |h| + 1)
      else t'.log == t.log
  {
    RotateCopies(c, t, stored, e, t');
    var h := History(t.secrets, stored);
    if Due(h[|h| - 1], e.now) {
      WriteLogs(c, t, RotateDraft(c, h[|h| - 1]), e, t');
    }
  }

  /** delete logs DELETE with the version that was active. */
  lemma {:induction false} DeleteLogs(c: Context, t: Tables, name: Bytes, e: Env, t': Tables)
    requires Structural(t.secrets) && DeleteOutcome(c, t, name, e) == Some(t')
    ensures var stored := StoredName(c.p, c.keys.meta, name);
      OneEntry(t.log, t'.log, e, E.Delete, stored, |History(t.secrets, stored)|)
  {
    var stored := StoredName(c.p, c.keys.meta, name);
    ActiveRow(t.secrets, stored);
    AppendedRow(c, t, e, E.Delete, stored, |History(t.secrets, stored)|);
  }

  /** get logs READ with the active version. */
  lemma {:induction false} GetLogs(c: Context, t: Tables, name: Bytes, capacity: nat, e: Env)
    requires Structural(t.secrets) && GetOutcome(c, t, name, capacity, e).Some?
    ensures var stored := StoredName(c.p, c.keys.meta, name);
      OneEntry(t.log, GetOutcome(c, t, name, capacity, e).value.0.log, e, E.Read, stored,
               |History(t.secrets, stored)|)
  {
    var stored := StoredName(c.p, c.keys.meta, name);
    ActiveRow(t.secrets, stored);
    AppendedRow(c, t, e, E.Read, stored, |History(t.secrets, stored)|);
  }

  /** get_version logs READ with the version asked for. */
  lemma {:induction false} GetVersionLogs(c: Context, t: Tables, name: Bytes, version: int, capacity: nat, e: Env)
    requires Structural(t.secrets) && GetVersionOutcome(c, t, name, version, capacity, e).Some?
    ensures version >= 1 && OneEntry(t.log, GetVersionOutcome(c, t, name, version, capacity, e).value.0.log, e, E.Read,
                                     StoredName(c.p, c.keys.meta, name), version)
  {
    var stored := StoredName(c.p, c.keys.meta, name);
    NthRow(t.secrets, stored, version);
    AppendedRow(c, t, e, E.Read, stored, version);
  }

  /** rotate-kek logs ROTATE_KEK about "vault", and touches no other field of
      the log than the signatures. It does so only on a log that verified under
      the old audit key, so it never re-signs one that was tampered with. */
  lemma {:induction false} RotateKekLogs(c: Context, t: Tables, k: NewKek, e: Env, t': Tables)
    requires RotateKekOutcome(c, t, k, e) == Some(t') && A.IdsInOrder(t.log)
    ensures A.Verified(c.p, t.log, c.keys.audit)
    ensures |t'.log| == |t.log| + 1 && EntrySays(t'.log[|t.log|], e, E.RotateKek, Text("vault"), 0)
    ensures forall i :: 0 <= i < |t.log| ==> t'.log[i] == t.log[i].(signature := t'.log[i].signature)
  {
    var signed := A.Resign(c.p, t.log, k.audit).value;
    KekRotation.LogRotates(c.p, t.log, c.keys.audit, k.audit, e.stamp);
    KekAppended(c.p, signed, k.audit, e, t'.log);
  }

  lemma {:induction false} KekAppended(p: Prims, log: seq<A.LogRow>, key: Digest, e: Env, log': seq<A.LogRow>)
    requires A.Append(p, log, key, e.stamp, KekEvent()) == Some(log')
    ensures OneEntry(log, log', e, E.RotateKek, Text("vault"), 0)
  {
  }

  /** Without any invariant: a rotation that succeeds had a verified log. */
  lemma {:induction false} RotationNeedsVerifiedLog(c: Context, t: Tables, k: NewKek, e: Env)
    requires RotateKekOutcome(c, t, k, e).Some?
    ensures A.Verified(c.p, t.log, c.keys.audit)
  {
  }
}
