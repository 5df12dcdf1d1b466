/** The `secrets` table: its queries, its constraints, and the transaction
    body that archives the active row and inserts the next one. */
module SecretsTable {
  import opened Common
  import opened CryptoEngine

  datatype Row = Row(
    id: Bytes, name: Bytes, nameNonce: Bytes, encryptedName: Bytes, version: nat, secret: Sealed, counter: nat,
    createdAt: nat, updatedAt: nat, expiresAt: Option<nat>, interval: Option<nat>, archived: bool)

  /** The rows of one name, in insertion order. */
  function History(rows: seq<Row>, name: Bytes): seq<Row> {
    if rows == [] then []
    else
      var init, last := History(rows[..|rows| - 1], name), rows[|rows| - 1];
      if last.name == name then init + [last] else init
  }

  // ---------------------------------------------------------------- queries

  /** MAX(version), MAX(nonce_counter) and COUNT(*) over one name. */
  function MaxVersion(rows: seq<Row>, name: Bytes): nat {
    if rows == [] then 0
    else
      var init, last := MaxVersion(rows[..|rows| - 1], name), rows[|rows| - 1];
      if last.name == name && last.version > init then last.version else init
  }

  function MaxCounter(rows: seq<Row>, name: Bytes): nat {
    if rows == [] then 0
    else
      var init, last := MaxCounter(rows[..|rows| - 1], name), rows[|rows| - 1];
      if last.name == name && last.counter > init then last.counter else init
  }

  function Count(rows: seq<Row>, name: Bytes): nat {
    if rows == [] then 0
    else Count(rows[..|rows| - 1], name) + if rows[|rows| - 1].name == name then 1 else 0
  }

  /** A row with this name and version, unarchived when `active`. */
  function Pick(rows: seq<Row>, name: Bytes, version: nat, active: bool): Option<Row> {
    if rows == [] then None
    else
      var last := rows[|rows| - 1];
      if last.name == name && last.version == version && (active ==> !last.archived) then Some(last)
      else Pick(rows[..|rows| - 1], name, version, active)
  }

  /** VAULT_SQL_ACTIVE_ROW: unarchived and of the highest version. */
  function FindActive(rows: seq<Row>, name: Bytes): Option<Row> {
    Pick(rows, name, MaxVersion(rows, name), true)
  }

  function FindVersion(rows: seq<Row>, name: Bytes, version: nat): Option<Row> {
    Pick(rows, name, version, false)
  }

  /** vault_find_secret_history_bounds, then the next version and counter. */
  datatype Next = Next(version: nat, counter: nat)

  function NextOf(rows: seq<Row>, name: Bytes): Option<Next> {
    if Count(rows, name) == 0 then Some(Next(1, 1))
    else if MaxVersion(rows, name) == INT_MAX || MaxCounter(rows, name) == INT64_MAX then None
    else Some(Next(MaxVersion(rows, name) + 1, MaxCounter(rows, name) + 1))
  }

  // ---------------------------------------------------------------- updates

  /** PRIMARY KEY (id), UNIQUE (name, version), UNIQUE (name) WHERE
      is_archived = 0, and the CHECK constraints. */
  predicate CanInsert(rows: seq<Row>, row: Row) {
    RowOk(row) &&
    forall i :: 0 <= i < |rows| ==>
      rows[i].id != row.id &&
      !(rows[i].name == row.name && rows[i].version == row.version) &&
      !(rows[i].name == row.name && !rows[i].archived && !row.archived)
  }

  function ArchivedRow(row: Row, name: Bytes, now: nat): Row {
    if row.name == name && !row.archived then row.(archived := true, updatedAt := now) else row
  }

  /** UPDATE .. SET is_archived = 1 WHERE name = ? AND is_archived = 0. */
  function Archive(rows: seq<Row>, name: Bytes, now: nat): (r: seq<Row>)
    ensures |r| == |rows|
    ensures forall i :: 0 <= i < |rows| ==> r[i] == ArchivedRow(rows[i], name, now)
  {
    if rows == [] then []
    else Archive(rows[..|rows| - 1], name, now) + [ArchivedRow(rows[|rows| - 1], name, now)]
  }

  function CountActive(rows: seq<Row>, name: Bytes): nat {
    if rows == [] then 0
    else
      CountActive(rows[..|rows| - 1], name)
      + if rows[|rows| - 1].name == name && !rows[|rows| - 1].archived then 1 else 0
  }

  /** vault_archive_active_secret. */
  function ArchiveActive(rows: seq<Row>, name: Bytes, now: nat, requireExisting: bool): Result<seq<Row>> {
    if CountActive(rows, name) > 1 then Failure(Storage)
    else if requireExisting && CountActive(rows, name) == 0 then Failure(NotFound)
    else Success(Archive(rows, name, now))
  }

  /** How a write treats the row it replaces. */
  datatype Replace = Nothing | IfPresent | MustExist

  /** The table changes of one put, rollback or rotation, as one transaction. */
  function Supersede(rows: seq<Row>, how: Replace, now: nat, row: Row): Result<seq<Row>> {
    var archived := if how == Nothing then Success(rows) else ArchiveActive(rows, row.name, now, how == MustExist);
    if archived.Failure? then archived
    else if CanInsert(archived.value, row) then Success(archived.value + [row])
    else Failure(Storage)
  }

  // ---------------------------------------------------------------- the invariant

  /** A name's rows are versions 1, 2, .., n with matching counters, only the
      last may be unarchived, and n fits the int the code reads it into. */
  predicate Ordered(h: seq<Row>) {
    |h| <= INT_MAX &&
    forall i {:trigger h[i]} :: 0 <= i < |h| ==>
      h[i].version == i + 1 && h[i].counter == i + 1 && (i < |h| - 1 ==> h[i].archived)
  }

  predicate UniqueIds(rows: seq<Row>) {
    forall i, j :: 0 <= i < j < |rows| ==> rows[i].id != rows[j].id
  }

  /** The CHECK constraints. */
  predicate RowOk(row: Row) {
    row.secret.algorithm.Canonical? && row.interval != Some(0)
  }

  predicate RowsOk(rows: seq<Row>) {
    forall i :: 0 <= i < |rows| ==> RowOk(rows[i])
  }

  ghost predicate AllOrdered(rows: seq<Row>) {
    forall name :: Ordered(History(rows, name))
  }

  ghost predicate Structural(rows: seq<Row>) {
    UniqueIds(rows) && RowsOk(rows) && AllOrdered(rows)
  }

  predicate HasActive(h: seq<Row>) {
    h != [] && !h[|h| - 1].archived
  }

  // ---------------------------------------------------------------- queries see only the history

  lemma {:induction false} QueriesReadHistory(rows: seq<Row>, name: Bytes)
    ensures var h := History(rows, name);
      MaxVersion(rows, name) == MaxVersion(h, name) && MaxCounter(rows, name) == MaxCounter(h, name) &&
      Count(rows, name) == |h| && CountActive(rows, name) == CountActive(h, name) &&
      forall i :: 0 <= i < |h| ==> h[i].name == name && h[i] in rows
  {
    if rows != [] {
      QueriesReadHistory(rows[..|rows| - 1], name);
      var h := History(rows, name);
      if rows[|rows| - 1].name == name {
        assert h[..|h| - 1] == History(rows[..|rows| - 1], name);
      }
    }
  }

  lemma {:induction false} PickReadsHistory(rows: seq<Row>, name: Bytes, version: nat, active: bool)
    ensures Pick(rows, name, version, active) == Pick(History(rows, name), name, version, active)
  {
    if rows != [] {
      PickReadsHistory(rows[..|rows| - 1], name, version, active);
      var h := History(rows, name);
      if rows[|rows| - 1].name == name {
        assert h[..|h| - 1] == History(rows[..|rows| - 1], name);
      }
    }
  }

  lemma {:induction false} OrderedMaxima(h: seq<Row>, name: Bytes)
    requires Ordered(h) && forall i :: 0 <= i < |h| ==> h[i].name == name
    ensures MaxVersion(h, name) == |h| && MaxCounter(h, name) == |h|
    ensures CountActive(h, name) == if HasActive(h) then 1 else 0
  {
    if h != [] {
      var init := h[..|h| - 1];
      assert forall i :: 0 <= i < |init| ==> init[i] == h[i];
      OrderedMaxima(init, name);
      assert h[|h| - 1].version == |h|;
    }
  }

  lemma {:induction false} OrderedPick(h: seq<Row>, name: Bytes, version: nat, active: bool)
    requires Ordered(h) && forall i :: 0 <= i < |h| ==> h[i].name == name
    ensures Pick(h, name, version, active)
         == if 1 <= version <= |h| && (active ==> !h[version - 1].archived) then Some(h[version - 1]) else None
  {
    if h != [] {
      var init := h[..|h| - 1];
      assert forall i :: 0 <= i < |init| ==> init[i] == h[i];
      OrderedPick(init, name, version, active);
      assert h[|h| - 1].version == |h|;
    }
  }

  /** On a well-structured table every query the vault makes is answered from
      the name's history: the active row is the last one when unarchived, and
      version v is the v-th row. */
  lemma {:induction false} Queries(rows: seq<Row>, name: Bytes)
    requires Structural(rows)
    ensures var h := History(rows, name);
      FindActive(rows, name) == (if HasActive(h) then Some(h[|h| - 1]) else None) &&
      NextOf(rows, name) == (if |h| == INT_MAX then None else Some(Next(|h| + 1, |h| + 1))) &&
      CountActive(rows, name) == (if HasActive(h) then 1 else 0) &&
      MaxVersion(rows, name) == |h| &&
      forall v: nat :: FindVersion(rows, name, v) == if 1 <= v <= |h| then Some(h[v - 1]) else None
  {
    var h := History(rows, name);
    QueriesReadHistory(rows, name);
    OrderedMaxima(h, name);
    PickReadsHistory(rows, name, |h|, true);
    OrderedPick(h, name, |h|, true);
    forall v: nat
      ensures FindVersion(rows, name, v) == if 1 <= v <= |h| then Some(h[v - 1]) else None
    {
      PickReadsHistory(rows, name, v, false);
      OrderedPick(h, name, v, false);
    }
  }

  lemma {:induction false} ActiveRow(rows: seq<Row>, name: Bytes)
    requires Structural(rows)
    ensures var h := History(rows, name);
      FindActive(rows, name) == (if HasActive(h) then Some(h[|h| - 1]) else None)
      && (HasActive(h) ==> h[|h| - 1].version == |h|)
  {
    Queries(rows, name);
    assert Ordered(History(rows, name));
  }

  lemma {:induction false} NthRow(rows: seq<Row>, name: Bytes, v: nat)
    requires Structural(rows)
    ensures var h := History(rows, name);
      FindVersion(rows, name, v) == (if 1 <= v <= |h| then Some(h[v - 1]) else None)
      && (1 <= v <= |h| ==> h[v - 1].version == v)
  {
    Queries(rows, name);
    assert Ordered(History(rows, name));
  }

  // ---------------------------------------------------------------- updates act on one history

  lemma {:induction false} HistoryOfArchive(rows: seq<Row>, name: Bytes, now: nat, other: Bytes)
    ensures History(Archive(rows, name, now), other) == Archive(History(rows, other), name, now)
    ensures other != name ==> History(Archive(rows, name, now), other) == History(rows, other)
  {
    if rows != [] {
      var a := Archive(rows, name, now);
      HistoryOfArchive(rows[..|rows| - 1], name, now, other);
      assert a[..|rows| - 1] == Archive(rows[..|rows| - 1], name, now);
      var h := History(rows, other);
      if rows[|rows| - 1].name == other {
        assert h[..|h| - 1] == History(rows[..|rows| - 1], other);
      }
    }
  }

  lemma {:induction false} InHistory(rows: seq<Row>, row: Row)
    requires row in rows
    ensures row in History(rows, row.name)
  {
    var last := rows[|rows| - 1];
    if row != last {
      InHistory(rows[..|rows| - 1], row);
    }
  }

  lemma {:induction false} ArchiveOrdered(h: seq<Row>, name: Bytes, now: nat)
    requires Ordered(h)
    ensures Ordered(Archive(h, name, now))
    ensures (forall i :: 0 <= i < |h| ==> h[i].name == name) ==> !HasActive(Archive(h, name, now))
  {
  }

  lemma {:induction false} ArchiveRowsOk(rows: seq<Row>, name: Bytes, now: nat)
    requires UniqueIds(rows) && RowsOk(rows)
    ensures UniqueIds(Archive(rows, name, now)) && RowsOk(Archive(rows, name, now))
  {
    var a := Archive(rows, name, now);
    assert forall i :: 0 <= i < |a| ==> a[i] == ArchivedRow(rows[i], name, now);
  }

  /** Archiving a name's active row keeps the structure, touches no other
      name, and leaves nothing of that name unarchived. */
  lemma {:induction false} ArchiveKeeps(rows: seq<Row>, name: Bytes, now: nat)
    requires Structural(rows)
    ensures Structural(Archive(rows, name, now))
    ensures History(Archive(rows, name, now), name) == Archive(History(rows, name), name, now)
    ensures !HasActive(History(Archive(rows, name, now), name))
    ensures forall other :: other != name ==> History(Archive(rows, name, now), other) == History(rows, other)
  {
    ArchiveRowsOk(rows, name, now);
    QueriesReadHistory(rows, name);
    HistoryOfArchive(rows, name, now, name);
    ArchiveOrdered(History(rows, name), name, now);
    forall other
      ensures other != name ==> History(Archive(rows, name, now), other) == History(rows, other)
      ensures Ordered(History(Archive(rows, name, now), other))
    {
      HistoryOfArchive(rows, name, now, other);
    }
  }

  lemma {:induction false} HistoryOfInsert(rows: seq<Row>, row: Row, name: Bytes)
    ensures History(rows + [row], name) == if row.name == name then History(rows, name) + [row] else History(rows, name)
  {
    assert (rows + [row])[..|rows|] == rows;
  }

  /** The constraints admit a row of a well-ordered name, at most one version
      ahead, only as the next version after a fully archived history. */
  lemma {:induction false} InsertedIsNext(rows: seq<Row>, row: Row)
    requires Ordered(History(rows, row.name)) && CanInsert(rows, row)
    requires 1 <= row.version <= |History(rows, row.name)| + 1 && !row.archived
    ensures row.version == |History(rows, row.name)| + 1 && !HasActive(History(rows, row.name))
  {
    var h := History(rows, row.name);
    assert row.version <= |h| ==> h[row.version - 1].version == row.version;
    QueriesReadHistory(rows, row.name);
    forall k | 0 <= k < |h|
      ensures h[k].version != row.version && h[k].archived
    {
      var i :| 0 <= i < |rows| && rows[i] == h[k];
    }
  }

  /** Inserting the next version keeps the structure. */
  lemma {:induction false} InsertKeeps(rows: seq<Row>, row: Row)
    requires Structural(rows) && CanInsert(rows, row)
    requires row.version == row.counter == |History(rows, row.name)| + 1 <= INT_MAX
    requires !HasActive(History(rows, row.name))
    ensures Structural(rows + [row])
    ensures History(rows + [row], row.name) == History(rows, row.name) + [row]
    ensures forall other :: other != row.name ==> History(rows + [row], other) == History(rows, other)
  {
    forall other
      ensures Ordered(History(rows + [row], other))
      ensures History(rows + [row], other)
           == if row.name == other then History(rows, other) + [row] else History(rows, other)
    {
      HistoryOfInsert(rows, row, other);
      assert Ordered(History(rows, other));
    }
  }

  /** The lemma behind every write, sequential or interleaved. A new row at
      most one version ahead is accepted only when it is exactly the next
      version and nothing unarchived remains; it then extends its own history
      and leaves every other name alone. */
  lemma {:induction false} SupersedeKeeps(rows: seq<Row>, how: Replace, now: nat, row: Row)
    requires Structural(rows) && Supersede(rows, how, now, row).Success?
    requires 1 <= row.version == row.counter <= |History(rows, row.name)| + 1 && !row.archived
    requires row.version <= INT_MAX
    ensures var rows' := Supersede(rows, how, now, row).value; var h := History(rows, row.name);
      Structural(rows') && row.version == |h| + 1 &&
      History(rows', row.name) == Archive(h, row.name, now) + [row] &&
      (forall other :: other != row.name ==> History(rows', other) == History(rows, other)) &&
      (how == Nothing ==> !HasActive(h)) && (how == MustExist ==> HasActive(h))
  {
    var name, h := row.name, History(rows, row.name);
    Queries(rows, name);
    assert Ordered(h);
    if how == Nothing {
      InsertedIsNext(rows, row);
      InsertKeeps(rows, row);
      ArchiveNothing(h, name, now);
    } else {
      ArchiveKeeps(rows, name, now);
      var base := Archive(rows, name, now);
      assert Ordered(History(base, name));
      InsertedIsNext(base, row);
      InsertKeeps(base, row);
    }
  }

  lemma {:induction false} ArchiveNothing(h: seq<Row>, name: Bytes, now: nat)
    requires Ordered(h) && !HasActive(h)
    ensures Archive(h, name, now) == h
  {
  }

  /** And it is accepted whenever it is the next version, its id is new and
      the row it replaces is there when required. */
  lemma {:induction false} SupersedeAccepts(rows: seq<Row>, how: Replace, now: nat, row: Row)
    requires Structural(rows) && row.version == |History(rows, row.name)| + 1
    requires RowOk(row) && forall i :: 0 <= i < |rows| ==> rows[i].id != row.id
    requires how == Nothing ==> !HasActive(History(rows, row.name))
    requires how == MustExist ==> HasActive(History(rows, row.name))
    ensures Supersede(rows, how, now, row).Success?
  {
    Queries(rows, row.name);
    assert Ordered(History(rows, row.name));
    if how == Nothing {
      NextIsFree(rows, row);
    } else {
      ArchiveAccepts(rows, now, row);
    }
  }

  lemma {:induction false} ArchiveAccepts(rows: seq<Row>, now: nat, row: Row)
    requires Ordered(History(rows, row.name)) && row.version == |History(rows, row.name)| + 1
    requires RowOk(row) && forall i :: 0 <= i < |rows| ==> rows[i].id != row.id
    ensures CanInsert(Archive(rows, row.name, now), row)
  {
    var base := Archive(rows, row.name, now);
    QueriesReadHistory(rows, row.name);
    HistoryOfArchive(rows, row.name, now, row.name);
    ArchiveOrdered(History(rows, row.name), row.name, now);
    forall i | 0 <= i < |base|
      ensures base[i].id != row.id
    {
      assert base[i] == ArchivedRow(rows[i], row.name, now);
    }
    assert History(base, row.name) == Archive(History(rows, row.name), row.name, now);
    NextIsFree(base, row);
  }

  lemma {:induction false} NextIsFree(rows: seq<Row>, row: Row)
    requires Ordered(History(rows, row.name)) && !HasActive(History(rows, row.name))
    requires row.version == |History(rows, row.name)| + 1
    requires RowOk(row) && forall i :: 0 <= i < |rows| ==> rows[i].id != row.id
    ensures CanInsert(rows, row)
  {
    forall i | 0 <= i < |rows| && rows[i].name == row.name
      ensures rows[i].version != row.version && rows[i].archived
    {
      InHistory(rows, rows[i]);
    }
  }

  // ---------------------------------------------------------------- re-keying

  /** Two tables that differ only in how each row's secret is sealed. */
  predicate SameButSecrets(rows: seq<Row>, rows': seq<Row>) {
    |rows'| == |rows| &&
    forall i {:trigger rows'[i]} :: 0 <= i < |rows| ==>
      rows'[i] == rows[i].(secret := rows'[i].secret) && rows'[i].secret.algorithm == rows[i].secret.algorithm
  }

  lemma {:induction false} HistoryOfRekeyed(rows: seq<Row>, rows': seq<Row>, name: Bytes)
    requires SameButSecrets(rows, rows')
    ensures SameButSecrets(History(rows, name), History(rows', name))
  {
    if rows != [] {
      var init, init' := rows[..|rows| - 1], rows'[..|rows| - 1];
      assert SameButSecrets(init, init') by {
        assert forall i :: 0 <= i < |init| ==> init[i] == rows[i] && init'[i] == rows'[i];
      }
      HistoryOfRekeyed(init, init', name);
      assert rows'[|rows| - 1].name == rows[|rows| - 1].name;
    }
  }

  lemma {:induction false} RekeyKeeps(rows: seq<Row>, rows': seq<Row>)
    requires Structural(rows) && SameButSecrets(rows, rows')
    ensures Structural(rows')
    ensures forall name :: |History(rows', name)| == |History(rows, name)|
  {
    forall name
      ensures Ordered(History(rows', name)) && |History(rows', name)| == |History(rows, name)|
    {
      HistoryOfRekeyed(rows, rows', name);
      assert Ordered(History(rows, name));
    }
    assert forall i :: 0 <= i < |rows'| ==>
      rows'[i].id == rows[i].id && RowOk(rows[i]) && rows'[i].interval == rows[i].interval;
  }

  // ---------------------------------------------------------------- what the invariant means row by row

  /** In plain terms: counters equal versions, and an unarchived row has the
      highest version of its name. */
  lemma {:induction false} RowsInRange(rows: seq<Row>, i: nat)
    requires Structural(rows) && i < |rows|
    ensures 1 <= rows[i].version == rows[i].counter <= MaxVersion(rows, rows[i].name)
    ensures !rows[i].archived ==> rows[i].version == MaxVersion(rows, rows[i].name)
  {
    var h := History(rows, rows[i].name);
    Queries(rows, rows[i].name);
    assert Ordered(h);
    InHistory(rows, rows[i]);
    var k :| 0 <= k < |h| && h[k] == rows[i];
  }

  /** Every version from 1 to the highest is present. */
  lemma {:induction false} VersionsPresent(rows: seq<Row>, name: Bytes, version: nat)
    requires Structural(rows) && 1 <= version <= MaxVersion(rows, name)
    ensures exists i :: 0 <= i < |rows| && rows[i].name == name && rows[i].version == version
  {
    Queries(rows, name);
    QueriesReadHistory(rows, name);
    assert Ordered(History(rows, name));
    assert History(rows, name)[version - 1] in rows;
  }

  /** No version occurs twice: within a name versions ascend. */
  lemma {:induction false} VersionsAscend(rows: seq<Row>, i: nat, j: nat)
    requires Structural(rows) && i < j < |rows| && rows[i].name == rows[j].name
    ensures rows[i].version < rows[j].version
  {
    var name := rows[i].name;
    HistoryPosition(rows, i, name);
    HistoryPosition(rows, j, name);
    HistoryPrefix(rows[..j], i + 1, name);
    assert rows[..j][..i + 1] == rows[..i + 1];
    assert rows[..i + 1][..i] == rows[..i];
    assert Ordered(History(rows, name));
  }

  lemma {:induction false} HistoryPrefix(rows: seq<Row>, i: nat, name: Bytes)
    requires i <= |rows|
    ensures History(rows[..i], name) <= History(rows, name)
  {
    if i < |rows| {
      HistoryPrefix(rows[..|rows| - 1], i, name);
      assert rows[..|rows| - 1][..i] == rows[..i];
    } else {
      assert rows[..i] == rows;
    }
  }

  /** A row's place in its history is the number of earlier rows of its name. */
  lemma {:induction false} HistoryPosition(rows: seq<Row>, i: nat, name: Bytes)
    requires i < |rows| && rows[i].name == name
    ensures |History(rows[..i], name)| < |History(rows, name)|
    ensures History(rows, name)[|History(rows[..i], name)|] == rows[i]
  {
    HistoryPrefix(rows, i + 1, name);
    assert rows[..i + 1][..i] == rows[..i];
  }
}
