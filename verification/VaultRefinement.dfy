/** The vault as a shelf of versions per name, and what every operation keeps.
    The shelves know nothing of rows, keys, nonces, transactions or the log. */
module VaultRefinement {
  import opened Common
  import opened Primitives
  import opened CryptoEngine
  import opened SecretsTable
  import opened VaultSpec
  import E = AuditEntry
  import A = AuditChain

  // ---------------------------------------------------------------- the simple vault

  /** One stored version, as a user sees it. */
  datatype Version = Version(plain: Bytes, algorithm: Name, interval: nat)

  /** All versions ever stored under a name; the last one is current when active. */
  datatype Shelf = Shelf(versions: seq<Version>, active: bool)

  /** What happened to one name. */
  datatype Change = Added(name: Bytes, version: Version) | Copied(name: Bytes, source: nat) | Removed(name: Bytes)

  function Apply(shelf: Shelf, change: Change, name: Bytes): Shelf {
    if change.name != name then shelf
    else
      match change
      case Added(_, version) => Shelf(shelf.versions + [version], true)
      case Copied(_, source) =>
        if 1 <= source <= |shelf.versions| then Shelf(shelf.versions + [shelf.versions[source - 1]], true) else shelf
      case Removed(_) => shelf.(active := false)
  }

  /** A name's shelf after a list of changes. */
  function ApplyAll(shelf: Shelf, changes: seq<Change>, name: Bytes): Shelf {
    if changes == [] then shelf
    else Apply(ApplyAll(shelf, changes[..|changes| - 1], name), changes[|changes| - 1], name)
  }

  const EMPTY_SHELF := Shelf([], false)

  // ---------------------------------------------------------------- reading a shelf off the tables

  function VersionOf(c: Context, row: Row): Version {
    var plain := PlainRow(c, row);
    Version(if plain.Success? then plain.value else [], row.secret.algorithm, IntervalOf(row))
  }

  function Contents(c: Context, h: seq<Row>): seq<Version> {
    seq(|h|, i requires 0 <= i < |h| => VersionOf(c, h[i]))
  }

  function ShelfOf(c: Context, rows: seq<Row>, name: Bytes): Shelf {
    var h := History(rows, name);
    Shelf(Contents(c, h), HasActive(h))
  }

  predicate Readable(c: Context, rows: seq<Row>) {
    forall i {:trigger PlainRow(c, rows[i])} :: 0 <= i < |rows| ==> PlainRow(c, rows[i]).Success?
  }

  // ---------------------------------------------------------------- replaying the audit log

  /** A name's highest version and whether it is active. */
  datatype Life = Life(highest: nat, active: bool)

  predicate Activating(action: E.Action) {
    action.Create? || action.Update? || action.Rollback? || action.RotateDek?
  }

  function ReplayStep(life: Life, row: A.LogRow, name: Bytes): Life {
    if row.target != name then life
    else if Activating(row.action) && row.version.Some? && row.version.value > 0 then Life(row.version.value, true)
    else if row.action.Delete? then life.(active := false)
    else life
  }

  function Replay(log: seq<A.LogRow>, name: Bytes): Life {
    if log == [] then Life(0, false)
    else ReplayStep(Replay(log[..|log| - 1], name), log[|log| - 1], name)
  }

  /** A logged step fits what came before: versions rise by one, CREATE appears
      when nothing is active, UPDATE, ROTATE_DEK and DELETE only when
      something is, and DELETE names the active version. */
  predicate StepFits(life: Life, row: A.LogRow) {
    (Activating(row.action) ==> row.version == Some(life.highest + 1)) &&
    (row.action.Create? ==> !life.active) &&
    (row.action.Update? || row.action.RotateDek? || row.action.Delete? ==> life.active) &&
    (row.action.Delete? ==> row.version == Some(life.highest))
  }

  predicate HistoryFits(log: seq<A.LogRow>, name: Bytes) {
    log == [] || (HistoryFits(log[..|log| - 1], name) &&
                  (log[|log| - 1].target == name ==> StepFits(Replay(log[..|log| - 1], name), log[|log| - 1])))
  }

  /** The log tells each name's exact highest version and active version. */
  predicate LogTells(log: seq<A.LogRow>, rows: seq<Row>, name: Bytes) {
    var h := History(rows, name);
    HistoryFits(log, name) && Replay(log, name) == Life(|h|, HasActive(h))
  }

  // ---------------------------------------------------------------- the invariant

  ghost predicate LogFits(log: seq<A.LogRow>, rows: seq<Row>) {
    forall name :: LogTells(log, rows, name)
  }

  /** Everything the operations keep: well-structured rows that all decrypt
      under the session's KEK, a verified log with ids 1..n that tells the
      table's state, and a stored name key that the KEK unwraps. */
  ghost predicate Inv(c: Context, t: Tables) {
    Structural(t.secrets) && Readable(c, t.secrets) &&
    A.Verified(c.p, t.log, c.keys.audit) && A.IdsInOrder(t.log) && LogFits(t.log, t.secrets) &&
    LoadMetaKey(c.p, t.metadata, c.keys.enc) == Success(c.keys.meta)
  }

  // ---------------------------------------------------------------- archiving and inserting

  lemma {:induction false} ArchivedReadsAlike(c: Context, h: seq<Row>, name: Bytes, now: nat)
    ensures Contents(c, Archive(h, name, now)) == Contents(c, h)
    ensures Readable(c, h) ==> Readable(c, Archive(h, name, now))
  {
    forall i | 0 <= i < |h|
      ensures VersionOf(c, Archive(h, name, now)[i]) == VersionOf(c, h[i])
      ensures PlainRow(c, Archive(h, name, now)[i]) == PlainRow(c, h[i])
    {
      assert Archive(h, name, now)[i] == ArchivedRow(h[i], name, now);
    }
  }

  /** The sealed draft decrypts to the draft's plaintext, under the algorithm
      it was given. */
  lemma {:induction false} DraftReads(c: Context, d: Draft, next: Next, e: Env)
    requires AeadCorrect(c.p) && SealDraft(c, d, next, e).Success?
    ensures var row := DraftRow(d, next, SealDraft(c, d, next, e).value, e);
      PlainRow(c, row) == Success(d.plain) && VersionOf(c, row).plain == d.plain
      && VersionOf(c, row).interval == d.interval
      && row.secret.algorithm == Canonical(SelectAlgorithm(c.pf, d.algorithm).value)
      && |row.secret.ciphertext| >= |d.plain|
  {
    var s := SealDraft(c, d, next, e).value;
    var identity, alg := RowIdentity(c.p, e.id, d.stored), SelectAlgorithm(c.pf, d.algorithm).value;
    assert SealOpens(c.p, alg, e.rnd.dek, s.nonce, Aad(identity, next.version), d.plain);
    assert OpensShorter(c.p, alg, e.rnd.dek, s.nonce, Aad(identity, next.version), s.ciphertext);
    DecryptOfEncrypt(c.p, c.pf, d.plain, c.keys.enc, identity, next.version, next.counter, d.algorithm, e.rnd,
                     |s.ciphertext|);
  }

  lemma {:induction false} SupersededRowsReadable(c: Context, rows: seq<Row>, how: Replace, now: nat, row: Row)
    requires Readable(c, rows) && PlainRow(c, row).Success? && Supersede(rows, how, now, row).Success?
    ensures Readable(c, Supersede(rows, how, now, row).value)
  {
    ArchivedReadsAlike(c, rows, row.name, now);
  }

  // ---------------------------------------------------------------- logging

  lemma {:induction false} AppendedRow(c: Context, t: Tables, e: Env, action: E.Action, target: Bytes, version: nat)
    requires Logged(c, t, e, action, target, version).Some?
    ensures OneEntry(t.log, Logged(c, t, e, action, target, version).value, e, action, target, version)
  {
  }

  /** The log gained one entry: what was done to what, by the default actor,
      with success, at the time drawn. */
  predicate OneEntry(log: seq<A.LogRow>, log': seq<A.LogRow>, e: Env, action: E.Action, target: Bytes, version: nat) {
    |log'| == |log| + 1 && log'[..|log|] == log && EntrySays(log'[|log|], e, action, target, version)
  }

  predicate EntrySays(row: A.LogRow, e: Env, action: E.Action, target: Bytes, version: nat) {
    row.action == action && row.target == target && row.version == (if version > 0 then Some(version) else None) &&
    row.result == E.Succeeded && row.actor == Text("user:default") && row.timestamp == e.stamp
  }

  /** What an entry about one name must say about that name's rows before and
      after the operation it records. */
  predicate Describes(action: E.Action, version: nat, h: seq<Row>, h': seq<Row>) {
    if Activating(action) then
      version == |h| + 1 == |h'| && HasActive(h') && (action.Create? ==> !HasActive(h))
      && (action.Update? || action.RotateDek? ==> HasActive(h))
    else if action.Delete? then version == |h| == |h'| && HasActive(h) && !HasActive(h')
    else |h'| == |h| && HasActive(h') == HasActive(h)
  }

  /** Logging an entry that describes the table change keeps the log verified
      and telling. */
  lemma {:induction false} LoggedKeeps(c: Context, t: Tables, e: Env, action: E.Action, target: Bytes, version: nat,
                                       t': Tables)
    requires A.Verified(c.p, t.log, c.keys.audit) && A.IdsInOrder(t.log) && LogFits(t.log, t.secrets)
    requires Logged(c, t, e, action, target, version) == Some(t'.log)
    requires Describes(action, version, History(t.secrets, target), History(t'.secrets, target))
    requires forall name :: name != target ==> History(t'.secrets, name) == History(t.secrets, name)
    ensures A.Verified(c.p, t'.log, c.keys.audit) && A.IdsInOrder(t'.log) && LogFits(t'.log, t'.secrets)
  {
    A.AppendKeepsVerified(c.p, t.log, c.keys.audit, e.stamp, LogEvent(action, target, version));
    AppendedRow(c, t, e, action, target, version);
    forall name
      ensures LogTells(t'.log, t'.secrets, name)
    {
      assert LogTells(t.log, t.secrets, name);
      ExtendedLogTells(t.log, t'.log, t.secrets, t'.secrets, name, version);
    }
  }

  lemma {:induction false} ExtendedLogTells(log: seq<A.LogRow>, log': seq<A.LogRow>, rows: seq<Row>, rows': seq<Row>,
                                            name: Bytes, version: nat)
    requires LogTells(log, rows, name)
    requires |log'| == |log| + 1 && log'[..|log|] == log
    requires var last := log'[|log|]; var h, h' := History(rows, name), History(rows', name);
      if last.target != name then h' == h
      else Describes(last.action, version, h, h') && last.version == if version > 0 then Some(version) else None
    ensures LogTells(log', rows', name)
  {
  }

  // ---------------------------------------------------------------- one write

  /** The action logged matches how the old row is treated. */
  predicate Coherent(d: Draft) {
    match d.how
    case Nothing => d.action == E.Create
    case IfPresent => d.action == E.Rollback
    case MustExist => d.action == E.Update || d.action == E.RotateDek
  }

  /** The row a successful write inserts. */
  function WrittenRow(c: Context, t: Tables, d: Draft, e: Env): Row
    requires WriteOutcome(c, t, d, e).Some?
  {
    var next := NextOf(t.secrets, d.stored).value;
    DraftRow(d, next, SealDraft(c, d, next, e).value, e)
  }

  lemma {:induction false} WriteUnpacks(c: Context, t: Tables, d: Draft, e: Env, t': Tables)
    requires WriteOutcome(c, t, d, e) == Some(t')
    ensures var row := WrittenRow(c, t, d, e);
      NextOf(t.secrets, d.stored) == Some(Next(row.version, row.counter)) && row.name == d.stored && !row.archived &&
      Supersede(t.secrets, d.how, e.now, row) == Success(t'.secrets) && t'.metadata == t.metadata &&
      Logged(c, t, e, d.action, d.stored, row.version) == Some(t'.log)
  {
  }

  /** The table half of a write. */
  lemma {:induction false} WriteTable(c: Context, t: Tables, d: Draft, e: Env, t': Tables)
    requires Structural(t.secrets) && WriteOutcome(c, t, d, e) == Some(t')
    ensures var row, h := WrittenRow(c, t, d, e), History(t.secrets, d.stored);
      Supersede(t.secrets, d.how, e.now, row) == Success(t'.secrets) && Structural(t'.secrets) &&
      row.version == |h| + 1 && !row.archived &&
      History(t'.secrets, d.stored) == Archive(h, d.stored, e.now) + [row] &&
      (forall name :: name != d.stored ==> History(t'.secrets, name) == History(t.secrets, name)) &&
      (d.how == Nothing ==> !HasActive(h)) && (d.how == MustExist ==> HasActive(h)) &&
      Logged(c, t, e, d.action, d.stored, |h| + 1) == Some(t'.log) && t'.metadata == t.metadata
  {
    var row := WrittenRow(c, t, d, e);
    WriteUnpacks(c, t, d, e, t');
    Queries(t.secrets, d.stored);
    assert Ordered(History(t.secrets, d.stored));
    SupersedeKeeps(t.secrets, d.how, e.now, row);
  }

  /** The plaintext half. */
  lemma {:induction false} WriteReads(c: Context, t: Tables, d: Draft, e: Env, t': Tables)
    requires AeadCorrect(c.p) && Structural(t.secrets) && Readable(c, t.secrets)
    requires WriteOutcome(c, t, d, e) == Some(t')
    ensures SelectAlgorithm(c.pf, d.algorithm).Success? && Readable(c, t'.secrets)
    ensures VersionOf(c, WrittenRow(c, t, d, e))
         == Version(d.plain, Canonical(SelectAlgorithm(c.pf, d.algorithm).value), d.interval)
  {
    WriteTable(c, t, d, e, t');
    DraftReads(c, d, NextOf(t.secrets, d.stored).value, e);
    SupersededRowsReadable(c, t.secrets, d.how, e.now, WrittenRow(c, t, d, e));
  }

  lemma {:induction false} ExtendedShelf(c: Context, rows: seq<Row>, rows': seq<Row>, name: Bytes, now: nat, row: Row)
    requires History(rows', name) == Archive(History(rows, name), name, now) + [row] && !row.archived
    ensures ShelfOf(c, rows', name) == Shelf(ShelfOf(c, rows, name).versions + [VersionOf(c, row)], true)
  {
    var h := History(rows, name);
    ArchivedReadsAlike(c, h, name, now);
    assert Contents(c, Archive(h, name, now) + [row]) == Contents(c, Archive(h, name, now)) + [VersionOf(c, row)];
  }

  lemma {:induction false} CoherentDescribes(d: Draft, h: seq<Row>, row: Row, now: nat)
    requires Coherent(d) && (d.how == Nothing ==> !HasActive(h)) && (d.how == MustExist ==> HasActive(h))
    requires !row.archived
    ensures Describes(d.action, |h| + 1, h, Archive(h, d.stored, now) + [row])
  {
  }

  /** The log half. */
  lemma {:induction false} WriteTold(c: Context, t: Tables, d: Draft, e: Env, t': Tables)
    requires Inv(c, t) && Coherent(d) && WriteOutcome(c, t, d, e) == Some(t')
    ensures A.Verified(c.p, t'.log, c.keys.audit) && A.IdsInOrder(t'.log) && LogFits(t'.log, t'.secrets)
  {
    WriteTable(c, t, d, e, t');
    CoherentDescribes(d, History(t.secrets, d.stored), WrittenRow(c, t, d, e), e.now);
    LoggedKeeps(c, t, e, d.action, d.stored, |History(t.secrets, d.stored)| + 1, t');
  }

  /** A successful write keeps the invariant and appends exactly one version,
      the draft's plaintext, to exactly one shelf. */
  lemma {:induction false} WriteKeeps(c: Context, t: Tables, d: Draft, e: Env, t': Tables)
    requires AeadCorrect(c.p) && Inv(c, t) && Coherent(d) && WriteOutcome(c, t, d, e) == Some(t')
    ensures Inv(c, t') && SelectAlgorithm(c.pf, d.algorithm).Success?
    ensures ShelfOf(c, t'.secrets, d.stored)
         == Shelf(ShelfOf(c, t.secrets, d.stored).versions
                  + [Version(d.plain, Canonical(SelectAlgorithm(c.pf, d.algorithm).value), d.interval)], true)
    ensures forall name :: name != d.stored ==> History(t'.secrets, name) == History(t.secrets, name)
  {
    WriteTable(c, t, d, e, t');
    WriteReads(c, t, d, e, t');
    WriteTold(c, t, d, e, t');
    ExtendedShelf(c, t.secrets, t'.secrets, d.stored, e.now, WrittenRow(c, t, d, e));
  }
}
