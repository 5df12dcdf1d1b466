/** The signed, hash-chained audit log (src/audit.c): entry i is signed with
    the audit key hashed i times. */
module AuditChain {
  import opened Common
  import opened Primitives
  import E = AuditEntry

  /** One stored row. The blobs may have any length in a damaged table, and a
      NULL target_version is None. */
  datatype LogRow = LogRow(
    id: int64, timestamp: Bytes, action: E.Action, actor: Bytes, target: Bytes,
    version: Option<int32>, result: E.Outcome, prev: Bytes, hash: Bytes, signature: Bytes)

  /** The hashed entry a row stands for. */
  function EntryOf(row: LogRow): E.Entry
    requires |row.prev| == 32
  {
    E.Entry(row.timestamp, row.id, row.action, row.actor, row.target,
            if row.version.Some? then row.version.value else 0, row.result, row.prev)
  }

  // ---------------------------------------------------------------- ratchet

  function Ratchet(p: Prims, key: Digest, i: nat): Digest {
    if i == 0 then key else p.sha(Ratchet(p, key, i - 1))
  }

  /** Hashing on from entry i's key gives entry i + j's, so the verifier need
      not start over; and each step is one hash. */
  lemma {:induction false} RatchetAdds(p: Prims, key: Digest, i: nat, j: nat)
    ensures Ratchet(p, key, 0) == key && Ratchet(p, key, i + 1) == p.sha(Ratchet(p, key, i))
    ensures Ratchet(p, Ratchet(p, key, i), j) == Ratchet(p, key, i + j)
  {
    if j > 0 {
      RatchetAdds(p, key, i, j - 1);
    }
  }

  /** audit_derive_ratchet_key. */
  method DeriveRatchet(p: Prims, key: Digest, index: nat) returns (ratchet: Digest)
    ensures ratchet == Ratchet(p, key, index)
  {
    ratchet := key;
    var i := 0;
    while i < index
      invariant i <= index && ratchet == Ratchet(p, key, i)
    {
      ratchet := p.sha(ratchet);
      i := i + 1;
    }
  }

  // ---------------------------------------------------------------- verification

  /** The outcome of checking one row. Verification passes the row's ratchet
      key; re-signing passes None and does not look at the signature. */
  function RowStatus(p: Prims, row: LogRow, expectedPrev: Bytes, ratchet: Option<Digest>): Status {
    if row.id < 1 || (row.version.Some? && row.version.value < 1) || |row.prev| != 32 || |row.hash| != 32
       || (ratchet.Some? && |row.signature| != 32) then Storage
    else if row.prev != expectedPrev then Crypto
    else if !E.Encodable(EntryOf(row)) then InvalidArgument
    else if row.hash != p.sha(E.Encode(EntryOf(row), None)) then Crypto
    else if ratchet.Some? && row.signature != Sign(p, ratchet.value, row) then Crypto
    else Ok
  }

  /** The bytes a row's signature covers, when the row is well formed. */
  function SignedBytes(row: LogRow): Bytes {
    if row.id >= 1 && |row.prev| == 32 && |row.hash| == 32 then E.Encode(EntryOf(row), Some(row.hash)) else []
  }

  function Sign(p: Prims, ratchet: Digest, row: LogRow): Digest {
    p.mac(ratchet, SignedBytes(row))
  }

  function PrevHash(rows: seq<LogRow>, i: nat): Bytes
    requires i <= |rows|
  {
    if i == 0 then ZeroDigest() else rows[i - 1].hash
  }

  /** Row i is right for its place in the log, signature aside. */
  predicate LinkedAt(p: Prims, rows: seq<LogRow>, i: nat)
    requires i < |rows|
  {
    RowStatus(p, rows[i], PrevHash(rows, i), None) == Ok
  }

  predicate VerifiedAt(p: Prims, rows: seq<LogRow>, key: Digest, i: nat)
    requires i < |rows|
  {
    RowStatus(p, rows[i], PrevHash(rows, i), Some(Ratchet(p, key, i))) == Ok
  }

  predicate Linked(p: Prims, rows: seq<LogRow>) {
    forall i: nat :: i < |rows| ==> LinkedAt(p, rows, i)
  }

  /** What audit_verify_chain accepts. */
  predicate Verified(p: Prims, rows: seq<LogRow>, key: Digest) {
    forall i: nat :: i < |rows| ==> VerifiedAt(p, rows, key, i)
  }

  /** Entry ids are 1, 2, .., n. */
  predicate IdsInOrder(rows: seq<LogRow>) {
    forall i :: 0 <= i < |rows| ==> rows[i].id == i + 1
  }

  function Hashes(rows: seq<LogRow>): seq<Bytes> {
    seq(|rows|, i requires 0 <= i < |rows| => rows[i].hash)
  }

  // ---------------------------------------------------------------- appending

  /** What a caller of audit_log_event supplies. */
  datatype Event = Event(actor: Bytes, action: E.Action, target: Bytes, version: int32, result: E.Outcome)

  /** The table after audit_log_event, or None when it refuses. Rows are kept
      in ascending id order, so the last row holds the largest id. */
  function Append(p: Prims, rows: seq<LogRow>, key: Digest, timestamp: Bytes, ev: Event): Option<seq<LogRow>> {
    var last := if rows == [] then 0 else rows[|rows| - 1].id;
    var prev := PrevHash(rows, |rows|);
    if |prev| != 32 || last == INT64_MAX || last + 1 < 1 then None
    else
      var e := E.Entry(timestamp, last + 1, ev.action, E.ActorOrDefault(ev.actor), ev.target, ev.version, ev.result,
                       prev);
      if !E.Encodable(e) then None
      else
        var hash := p.sha(E.Encode(e, None));
        Some(rows + [LogRow(e.id, timestamp, e.action, e.actor, e.target,
                            if e.version > 0 then Some(e.version) else None, e.result, prev, hash,
                            p.mac(Ratchet(p, key, |rows|), E.Encode(e, Some(hash))))])
  }

  /** Appending under the current key keeps the log verified and its ids in
      order; the new row is the only change. */
  lemma {:induction false} AppendKeepsVerified(p: Prims, rows: seq<LogRow>, key: Digest, timestamp: Bytes, ev: Event)
    requires Verified(p, rows, key) && IdsInOrder(rows)
    requires Append(p, rows, key, timestamp, ev).Some?
    ensures var rows' := Append(p, rows, key, timestamp, ev).value;
      Verified(p, rows', key) && IdsInOrder(rows') && rows'[..|rows|] == rows && |rows'| == |rows| + 1
  {
    var rows' := Append(p, rows, key, timestamp, ev).value;
    var row := rows'[|rows|];
    var e := E.Entry(timestamp, row.id, ev.action, E.ActorOrDefault(ev.actor), ev.target, ev.version, ev.result,
                     row.prev);
    assert E.Normal(e) == E.Normal(EntryOf(row));
    forall h: Option<Digest>
      ensures E.Encode(e, h) == E.Encode(EntryOf(row), h)
    {
      E.NormalEncodesAlike(e, h);
      E.NormalEncodesAlike(EntryOf(row), h);
    }
    forall i: nat | i < |rows'|
      ensures VerifiedAt(p, rows', key, i)
    {
      if i < |rows| {
        assert VerifiedAt(p, rows, key, i);
      }
    }
  }

  // ---------------------------------------------------------------- re-signing

  function SignedRow(p: Prims, rows: seq<LogRow>, key: Digest, i: nat): LogRow
    requires i < |rows|
  {
    rows[i].(signature := Sign(p, Ratchet(p, key, i), rows[i]))
  }

  function Resigned(p: Prims, rows: seq<LogRow>, key: Digest): seq<LogRow> {
    seq(|rows|, i requires 0 <= i < |rows| => SignedRow(p, rows, key, i))
  }

  /** Re-signing a linked log gives one that verifies under the new key, with
      every hashed field and so the Merkle root unchanged. */
  lemma {:induction false} ResignedVerifies(p: Prims, rows: seq<LogRow>, key: Digest)
    requires Linked(p, rows)
    ensures Verified(p, Resigned(p, rows, key), key)
    ensures Hashes(Resigned(p, rows, key)) == Hashes(rows)
  {
    var rows' := Resigned(p, rows, key);
    forall i: nat | i < |rows'|
      ensures VerifiedAt(p, rows', key, i)
    {
      assert LinkedAt(p, rows, i);
      assert EntryOf(rows'[i]) == EntryOf(rows[i]);
      assert PrevHash(rows', i) == PrevHash(rows, i);
    }
  }

  lemma {:induction false} VerifiedIsLinked(p: Prims, rows: seq<LogRow>, key: Digest)
    requires Verified(p, rows, key)
    ensures Linked(p, rows)
  {
    forall i: nat | i < |rows|
      ensures LinkedAt(p, rows, i)
    {
      assert VerifiedAt(p, rows, key, i);
    }
  }

  /** The audit_resign_item_t list for the first n rows. */
  function Items(p: Prims, rows: seq<LogRow>, key: Digest, n: nat): (r: seq<(int64, Digest)>)
    requires n <= |rows|
    ensures |r| == n
  {
    if n == 0 then []
    else Items(p, rows, key, n - 1) + [(rows[n - 1].id, SignedRow(p, rows, key, n - 1).signature)]
  }

  /** Binding a 64-bit id with sqlite3_bind_int keeps its low 32 bits. */
  function BoundId(id: int64): int32 {
    (id + 0x8000_0000) % 0x1_0000_0000 - 0x8000_0000
  }

  /** How many rows an UPDATE of one id changes, and the table after it. */
  function SetSignature(rows: seq<LogRow>, id: int, signature: Bytes): (r: (nat, seq<LogRow>))
    ensures |r.1| == |rows|
  {
    if rows == [] then (0, [])
    else
      var last := rows[|rows| - 1];
      var (n, init) := SetSignature(rows[..|rows| - 1], id, signature);
      if last.id == id then (n + 1, init + [last.(signature := signature)]) else (n, init + [last])
  }

  /** The first n updates, each of which must change exactly one row. */
  function ApplyItems(rows: seq<LogRow>, items: seq<(int64, Digest)>, n: nat): (r: Option<seq<LogRow>>)
    requires n <= |items|
    ensures r.Some? ==> |r.value| == |rows|
  {
    if n == 0 then Some(rows)
    else
      match ApplyItems(rows, items, n - 1)
      case None => None
      case Some(now) =>
        var (changes, updated) := SetSignature(now, BoundId(items[n - 1].0), items[n - 1].1);
        if changes == 1 then Some(updated) else None
  }

  /** The outcome of audit_resign_chain. */
  function Resign(p: Prims, rows: seq<LogRow>, key: Digest): Option<seq<LogRow>> {
    if Linked(p, rows) then ApplyItems(rows, Items(p, rows, key, |rows|), |rows|) else None
  }

  /** Entry ids are the table's primary key, and rows are read in their order. */
  predicate Ascending(rows: seq<LogRow>) {
    forall i, j :: 0 <= i < j < |rows| ==> rows[i].id < rows[j].id
  }

  lemma {:induction false} SetSignatureMisses(rows: seq<LogRow>, id: int, signature: Bytes)
    requires forall i :: 0 <= i < |rows| ==> rows[i].id != id
    ensures SetSignature(rows, id, signature) == (0, rows)
  {
    if rows != [] {
      SetSignatureMisses(rows[..|rows| - 1], id, signature);
      assert rows == rows[..|rows| - 1] + [rows[|rows| - 1]];
    }
  }

  lemma {:induction false} SetSignatureHits(rows: seq<LogRow>, k: nat, signature: Bytes)
    requires Ascending(rows) && k < |rows|
    ensures SetSignature(rows, rows[k].id, signature) == (1, rows[k := rows[k].(signature := signature)])
  {
    var n := |rows| - 1;
    var init, last := rows[..n], rows[n];
    var changed := rows[k].(signature := signature);
    if k == n {
      SetSignatureMisses(init, last.id, signature);
      assert init + [changed] == rows[k := changed];
    } else {
      SetSignatureHits(init, k, signature);
      assert init[k := changed] + [last] == rows[k := changed];
    }
  }

  /** `signed` is `rows` with each signature replaced by the item's. */
  ghost predicate ItemsGive(rows: seq<LogRow>, items: seq<(int64, Digest)>, signed: seq<LogRow>) {
    |items| == |rows| == |signed| &&
    forall j {:trigger items[j]} {:trigger signed[j]} :: 0 <= j < |rows| ==>
      items[j].0 == rows[j].id && signed[j] == rows[j].(signature := items[j].1)
  }

  lemma {:induction false} ItemsGiveResigned(p: Prims, rows: seq<LogRow>, key: Digest, n: nat)
    requires n <= |rows|
    ensures ItemsGive(rows[..n], Items(p, rows, key, n), Resigned(p, rows, key)[..n])
  {
    if n > 0 {
      ItemsGiveResigned(p, rows, key, n - 1);
    }
  }

  /** As long as the ids fit an int, each update signs the row it is meant for. */
  lemma {:induction false} AppliedPrefix(rows: seq<LogRow>, items: seq<(int64, Digest)>, signed: seq<LogRow>, n: nat)
    requires Ascending(rows) && ItemsGive(rows, items, signed) && n <= |rows|
    requires forall i :: 0 <= i < n ==> 1 <= rows[i].id <= INT_MAX
    ensures ApplyItems(rows, items, n) == Some(signed[..n] + rows[n..])
  {
    if n == 0 {
      assert signed[..0] + rows[0..] == rows;
    } else {
      var k := n - 1;
      AppliedPrefix(rows, items, signed, k);
      OneApplied(rows, items, signed, k);
      assert ApplyItems(rows, items, n)
          == (var (changes, updated) := SetSignature(signed[..k] + rows[k..], BoundId(items[k].0), items[k].1);
              if changes == 1 then Some(updated) else None);
    }
  }

  lemma {:induction false} OneApplied(rows: seq<LogRow>, items: seq<(int64, Digest)>, signed: seq<LogRow>, k: nat)
    requires Ascending(rows) && ItemsGive(rows, items, signed) && k < |rows| && 1 <= rows[k].id <= INT_MAX
    ensures SetSignature(signed[..k] + rows[k..], BoundId(items[k].0), items[k].1)
         == (1, signed[..k + 1] + rows[k + 1..])
  {
    assert items[k].0 == rows[k].id && BoundId(rows[k].id) == rows[k].id;
    SignedRowHit(rows, signed, k, items[k].1);
  }

  lemma {:induction false} SignedRowHit(rows: seq<LogRow>, signed: seq<LogRow>, k: nat, signature: Bytes)
    requires Ascending(rows) && |signed| == |rows| && k < |rows|
    requires forall i :: 0 <= i < |rows| ==> signed[i].id == rows[i].id
    requires signed[k] == rows[k].(signature := signature)
    ensures SetSignature(signed[..k] + rows[k..], rows[k].id, signature) == (1, signed[..k + 1] + rows[k + 1..])
  {
    var now := signed[..k] + rows[k..];
    forall i | 0 <= i < |rows|
      ensures now[i].id == rows[i].id
    {
      assert now[i] == if i < k then signed[i] else rows[i];
    }
    assert now[k] == rows[k];
    SetSignatureHits(now, k, signature);
    assert now[k := signed[k]] == signed[..k + 1] + rows[k + 1..];
  }

  lemma {:induction false} ApplyStops(rows: seq<LogRow>, items: seq<(int64, Digest)>, k: nat, n: nat)
    requires k <= n <= |items| && ApplyItems(rows, items, k) == None
    ensures ApplyItems(rows, items, n) == None
  {
    if k < n {
      ApplyStops(rows, items, k, n - 1);
    }
  }

  /** Re-signing a linked log whose ids fit an int signs every row anew. */
  lemma {:induction false} ResignSignsAll(p: Prims, rows: seq<LogRow>, key: Digest)
    requires Linked(p, rows) && Ascending(rows) && forall i :: 0 <= i < |rows| ==> rows[i].id <= INT_MAX
    ensures Resign(p, rows, key) == Some(Resigned(p, rows, key))
  {
    var signed, n := Resigned(p, rows, key), |rows|;
    ItemsGiveResigned(p, rows, key, n);
    assert rows[..n] == rows && signed[..n] == signed;
    forall i: nat | i < n
      ensures rows[i].id >= 1
    {
      assert LinkedAt(p, rows, i);
    }
    AppliedPrefix(rows, Items(p, rows, key, n), signed, n);
    assert signed[..n] + rows[n..] == signed;
  }

  /** A row whose id does not fit an int is never signed anew: re-signing fails
      or passes it over. */
  lemma {:induction false} ResignMissesLargeIds(p: Prims, rows: seq<LogRow>, key: Digest, i: nat)
    requires i < |rows| && rows[i].id > INT_MAX && Resign(p, rows, key).Some?
    ensures Resign(p, rows, key).value[i] == rows[i]
  {
    ApplyMisses(rows, Items(p, rows, key, |rows|), |rows|, i);
  }

  lemma {:induction false} ApplyMisses(rows: seq<LogRow>, items: seq<(int64, Digest)>, n: nat, i: nat)
    requires n <= |items| && i < |rows| && rows[i].id > INT_MAX && ApplyItems(rows, items, n).Some?
    ensures ApplyItems(rows, items, n).value[i] == rows[i]
  {
    if n > 0 {
      ApplyMisses(rows, items, n - 1, i);
      SetSignatureElsewhere(ApplyItems(rows, items, n - 1).value, BoundId(items[n - 1].0), items[n - 1].1, i);
    }
  }

  lemma {:induction false} SetSignatureElsewhere(rows: seq<LogRow>, id: int, signature: Bytes, i: nat)
    requires i < |rows| && rows[i].id != id
    ensures SetSignature(rows, id, signature).1[i] == rows[i]
  {
    if i < |rows| - 1 {
      SetSignatureElsewhere(rows[..|rows| - 1], id, signature, i);
    }
  }

  /** A well-formed row with this id and predecessor. */
  function LinkedRow(p: Prims, id: int64, prev: Digest, signature: Bytes): LogRow
    requires id >= 1
  {
    var e := E.Entry([84], id, E.Read, [65], [83], 0, E.Succeeded, prev);
    LogRow(id, e.timestamp, e.action, e.actor, e.target, None, e.result, prev, p.sha(E.Encode(e, None)), signature)
  }

  /** A log whose second id keeps the value 1 when it is bound as an int. */
  function LargeIdLog(p: Prims, first: Bytes, second: Bytes): seq<LogRow> {
    var row := LinkedRow(p, 1, ZeroDigest(), first);
    [row, LinkedRow(p, 0x1_0000_0001, row.hash, second)]
  }

  /** Both updates hit its first row, so re-signing reports success; the second
      row keeps the signature it had, and unless that was the one wanted the
      log no longer verifies. */
  lemma {:induction false} ResignedButUnsigned(p: Prims, key: Digest, first: Bytes, second: Bytes)
    ensures var rows := LargeIdLog(p, first, second);
      var wanted := Sign(p, Ratchet(p, key, 1), rows[1]);
      Linked(p, rows) && Ascending(rows) &&
      Resign(p, rows, key) == Some([rows[0].(signature := wanted), rows[1]]) &&
      (second != wanted ==> !Verified(p, Resign(p, rows, key).value, key))
  {
    var rows := LargeIdLog(p, first, second);
    LargeIdLogLinked(p, first, second);
    var one, two := Sign(p, Ratchet(p, key, 0), rows[0]), Sign(p, Ratchet(p, key, 1), rows[1]);
    assert Items(p, rows, key, 1) == [(1, one)];
    assert Items(p, rows, key, 2) == [(1, one), (0x1_0000_0001, two)];
    BothHitFirst(rows, one, two);
    if second != two {
      assert !VerifiedAt(p, [rows[0].(signature := two), rows[1]], key, 1);
    }
  }

  lemma {:induction false} BothHitFirst(rows: seq<LogRow>, one: Digest, two: Digest)
    requires Ascending(rows) && |rows| == 2 && rows[0].id == 1
    ensures ApplyItems(rows, [(1, one), (0x1_0000_0001, two)], 2) == Some([rows[0].(signature := two), rows[1]])
  {
    var items: seq<(int64, Digest)> := [(1, one), (0x1_0000_0001, two)];
    var now := rows[0 := rows[0].(signature := one)];
    assert BoundId(1) == 1 && BoundId(0x1_0000_0001) == 1;
    SetSignatureHits(rows, 0, one);
    assert ApplyItems(rows, items, 0) == Some(rows);
    assert ApplyItems(rows, items, 1) == Some(now);
    SetSignatureHits(now, 0, two);
    assert now[0 := now[0].(signature := two)] == [rows[0].(signature := two), rows[1]];
  }

  lemma {:induction false} LargeIdLogLinked(p: Prims, first: Bytes, second: Bytes)
    ensures Linked(p, LargeIdLog(p, first, second)) && Ascending(LargeIdLog(p, first, second))
  {
    var rows := LargeIdLog(p, first, second);
    forall i: nat | i < 2
      ensures LinkedAt(p, rows, i)
    {
      LinkedRowChecks(p, rows[i].id, PrevHash(rows, i), rows[i].signature);
    }
  }

  lemma {:induction false} LinkedRowChecks(p: Prims, id: int64, prev: Digest, signature: Bytes)
    requires id >= 1
    ensures RowStatus(p, LinkedRow(p, id, prev, signature), prev, None) == Ok
  {
  }

  /** With ids 1..n, as in every reachable log, re-signing succeeds exactly on
      linked logs of at most INT_MAX rows: the next id is bound as a negative
      number and no row has it. */
  lemma {:induction false} ResignInOrder(p: Prims, rows: seq<LogRow>, key: Digest)
    requires IdsInOrder(rows)
    ensures Resign(p, rows, key)
         == if Linked(p, rows) && |rows| <= INT_MAX then Some(Resigned(p, rows, key)) else None
  {
    if Linked(p, rows) && |rows| <= INT_MAX {
      ResignSignsAll(p, rows, key);
    } else if Linked(p, rows) {
      var items, signed, n, k := Items(p, rows, key, |rows|), Resigned(p, rows, key), |rows|, INT_MAX;
      ItemsGiveResigned(p, rows, key, n);
      assert rows[..n] == rows && signed[..n] == signed;
      AppliedPrefix(rows, items, signed, k);
      var now := signed[..k] + rows[k..];
      assert forall i :: 0 <= i < n ==> now[i].id == i + 1;
      assert items[k].0 == k + 1 && BoundId(k + 1) == -k - 1;
      SetSignatureMisses(now, BoundId(items[k].0), items[k].1);
      ApplyStops(rows, items, k + 1, n);
    }
  }

  // ---------------------------------------------------------------- every reachable log

  datatype LogOp = Log(timestamp: Bytes, ev: Event) | ReKey(key: Digest)

  datatype LogState = LogState(rows: seq<LogRow>, key: Digest)

  /** One append under the current key or one re-signing to a new key; a
      refused operation changes nothing. */
  function LogStep(p: Prims, s: LogState, op: LogOp): LogState {
    match op
    case Log(timestamp, ev) =>
      var r := Append(p, s.rows, s.key, timestamp, ev);
      if r.Some? then s.(rows := r.value) else s
    case ReKey(key) =>
      var r := Resign(p, s.rows, key);
      if r.Some? then LogState(r.value, key) else s
  }

  function LogRun(p: Prims, key: Digest, ops: seq<LogOp>): LogState {
    if ops == [] then LogState([], key)
    else LogStep(p, LogRun(p, key, ops[..|ops| - 1]), ops[|ops| - 1])
  }

  /** Every log reachable from empty by any mix of appends and re-signings is
      accepted by the verifier under the current key. */
  lemma {:induction false} ReachableLogVerifies(p: Prims, key: Digest, ops: seq<LogOp>)
    ensures var s := LogRun(p, key, ops); Verified(p, s.rows, s.key) && IdsInOrder(s.rows)
  {
    if ops != [] {
      ReachableLogVerifies(p, key, ops[..|ops| - 1]);
      LogStepKeeps(p, LogRun(p, key, ops[..|ops| - 1]), ops[|ops| - 1]);
    }
  }

  /** One step keeps the log verified and never alters a recorded hash. */
  lemma {:induction false} LogStepKeeps(p: Prims, s: LogState, op: LogOp)
    requires Verified(p, s.rows, s.key) && IdsInOrder(s.rows)
    ensures var s' := LogStep(p, s, op);
      Verified(p, s'.rows, s'.key) && IdsInOrder(s'.rows) && Hashes(s.rows) <= Hashes(s'.rows)
  {
    match op
    case Log(timestamp, ev) =>
      if Append(p, s.rows, s.key, timestamp, ev).Some? {
        AppendKeepsVerified(p, s.rows, s.key, timestamp, ev);
      }
    case ReKey(key) =>
      ResignInOrder(p, s.rows, key);
      if Resign(p, s.rows, key).Some? {
        ResignedVerifies(p, s.rows, key);
      }
  }

  // ---------------------------------------------------------------- the last hash pins the log

  predicate SameHashedFields(a: LogRow, b: LogRow) {
    |a.prev| == 32 && |b.prev| == 32 && a.hash == b.hash && E.Normal(EntryOf(a)) == E.Normal(EntryOf(b))
  }

  /** Two accepted logs whose last entry hashes agree have the same length and
      agree in every hashed field at every position. Otherwise the returned
      inputs collide, or the first of them hashes to all zeros. */
  lemma {:induction false} LastHashPinsLog(p: Prims, a: seq<LogRow>, b: seq<LogRow>) returns (x: Bytes, y: Bytes)
    requires Linked(p, a) && Linked(p, b) && a != [] && b != []
    requires a[|a| - 1].hash == b[|b| - 1].hash
    ensures (|a| == |b| && forall i :: 0 <= i < |a| ==> SameHashedFields(a[i], b[i]))
         || Collision(p.sha, x, y)
         || (|a| != |b| && p.sha(x) == ZeroDigest())
  {
    var m, n := |a| - 1, |b| - 1;
    assert LinkedAt(p, a, m) && LinkedAt(p, b, n);
    x, y := E.Encode(EntryOf(a[m]), None), E.Encode(EntryOf(b[n]), None);
    if x == y {
      SameBytes(p, a, m, b, n);
      if m > 0 && n > 0 {
        LinkedPrefix(p, a);
        LinkedPrefix(p, b);
        x, y := LastHashPinsLog(p, a[..m], b[..n]);
        if m == n && !Collision(p.sha, x, y) {
          SameUpToLast(a, b);
        }
      } else if m > 0 {
        assert LinkedAt(p, a, m - 1);
        x := E.Encode(EntryOf(a[m - 1]), None);
      } else if n > 0 {
        assert LinkedAt(p, b, n - 1);
        x := E.Encode(EntryOf(b[n - 1]), None);
      }
    }
  }

  lemma {:induction false} SameBytes(p: Prims, a: seq<LogRow>, m: nat, b: seq<LogRow>, n: nat)
    requires m < |a| && n < |b| && LinkedAt(p, a, m) && LinkedAt(p, b, n) && a[m].hash == b[n].hash
    requires E.Encode(EntryOf(a[m]), None) == E.Encode(EntryOf(b[n]), None)
    ensures SameHashedFields(a[m], b[n]) && a[m].id == b[n].id && PrevHash(a, m) == PrevHash(b, n)
  {
    E.EncodeInjective(EntryOf(a[m]), None, EntryOf(b[n]), None);
  }

  lemma {:induction false} SameUpToLast(a: seq<LogRow>, b: seq<LogRow>)
    requires |a| == |b| && a != [] && SameHashedFields(a[|a| - 1], b[|b| - 1])
    requires var m := |a| - 1; forall i :: 0 <= i < m ==> SameHashedFields(a[..m][i], b[..m][i])
    ensures forall i :: 0 <= i < |a| ==> SameHashedFields(a[i], b[i])
  {
    var m := |a| - 1;
    forall i | 0 <= i < m
      ensures SameHashedFields(a[i], b[i])
    {
      assert SameHashedFields(a[..m][i], b[..m][i]);
    }
  }

  /** A signature stands for one entry: two rows accepted under one ratchet key
      with one signature agree in every hashed field, or their signed bytes
      collide under the MAC. */
  lemma {:induction false} SignaturePinsEntry(p: Prims, ratchet: Digest, a: LogRow, aPrev: Bytes, b: LogRow,
                                              bPrev: Bytes)
    requires RowStatus(p, a, aPrev, Some(ratchet)) == Ok && RowStatus(p, b, bPrev, Some(ratchet)) == Ok
    requires a.signature == b.signature
    ensures SameHashedFields(a, b)
         || (SignedBytes(a) != SignedBytes(b) && p.mac(ratchet, SignedBytes(a)) == p.mac(ratchet, SignedBytes(b)))
  {
    if SignedBytes(a) == SignedBytes(b) {
      E.EncodeInjective(EntryOf(a), Some(a.hash), EntryOf(b), Some(b.hash));
    }
  }

  lemma {:induction false} LinkedPrefix(p: Prims, rows: seq<LogRow>)
    requires Linked(p, rows) && rows != []
    ensures Linked(p, rows[..|rows| - 1])
  {
    var init := rows[..|rows| - 1];
    forall i: nat | i < |init|
      ensures LinkedAt(p, init, i)
    {
      assert LinkedAt(p, rows, i);
      assert PrevHash(init, i) == PrevHash(rows, i);
    }
  }

  /** With entry ids 1..n on both sides, a collision is the only way out. */
  lemma {:induction false} LastHashPinsOrderedLog(p: Prims, a: seq<LogRow>, b: seq<LogRow>) returns (x: Bytes, y: Bytes)
    requires Linked(p, a) && Linked(p, b) && IdsInOrder(a) && IdsInOrder(b) && a != [] && b != []
    requires a[|a| - 1].hash == b[|b| - 1].hash
    ensures (|a| == |b| && forall i :: 0 <= i < |a| ==> SameHashedFields(a[i], b[i])) || Collision(p.sha, x, y)
  {
    var m, n := |a| - 1, |b| - 1;
    assert LinkedAt(p, a, m) && LinkedAt(p, b, n);
    x, y := E.Encode(EntryOf(a[m]), None), E.Encode(EntryOf(b[n]), None);
    if x == y {
      SameBytes(p, a, m, b, n);
      x, y := LastHashPinsLog(p, a, b);
    }
  }

  // ---------------------------------------------------------------- the loops

  /** The first n rows check; `key` is None when signatures are not looked at. */
  predicate CheckedTo(p: Prims, rows: seq<LogRow>, key: Option<Digest>, n: nat)
    requires n <= |rows|
  {
    n == 0 || (CheckedTo(p, rows, key, n - 1) && CheckedAt(p, rows, key, n - 1))
  }

  predicate CheckedAt(p: Prims, rows: seq<LogRow>, key: Option<Digest>, i: nat)
    requires i < |rows|
  {
    if key.Some? then VerifiedAt(p, rows, key.value, i) else LinkedAt(p, rows, i)
  }

  /** Row i is the first that does not check, for the reason `status`. */
  predicate FirstFailure(p: Prims, rows: seq<LogRow>, key: Digest, i: nat, status: Status) {
    i < |rows| && CheckedTo(p, rows, Some(key), i) &&
    status == RowStatus(p, rows[i], PrevHash(rows, i), Some(Ratchet(p, key, i)))
  }

  lemma {:induction false} CheckedToAll(p: Prims, rows: seq<LogRow>, key: Option<Digest>, n: nat)
    requires n <= |rows| && CheckedTo(p, rows, key, n)
    ensures forall i: nat :: i < n ==> CheckedAt(p, rows, key, i)
  {
    forall i: nat | i < n
      ensures CheckedAt(p, rows, key, i)
    {
      CheckedBelow(p, rows, key, n, i);
    }
  }

  lemma {:induction false} CheckedBelow(p: Prims, rows: seq<LogRow>, key: Option<Digest>, n: nat, i: nat)
    requires i < n <= |rows| && CheckedTo(p, rows, key, n)
    ensures CheckedAt(p, rows, key, i)
  {
    if i < n - 1 {
      CheckedBelow(p, rows, key, n - 1, i);
    }
  }

  lemma {:induction false} CheckedAllVerified(p: Prims, rows: seq<LogRow>, key: Digest)
    requires CheckedTo(p, rows, Some(key), |rows|)
    ensures Verified(p, rows, key)
  {
    CheckedToAll(p, rows, Some(key), |rows|);
    assert forall i: nat :: i < |rows| ==> CheckedAt(p, rows, Some(key), i) ==> VerifiedAt(p, rows, key, i);
  }

  lemma {:induction false} NotLinked(p: Prims, rows: seq<LogRow>, i: nat)
    requires i < |rows| && RowStatus(p, rows[i], PrevHash(rows, i), None) != Ok
    ensures !Linked(p, rows)
  {
    assert !LinkedAt(p, rows, i);
  }

  lemma {:induction false} CheckedAllLinked(p: Prims, rows: seq<LogRow>)
    requires CheckedTo(p, rows, None, |rows|)
    ensures Linked(p, rows)
  {
    CheckedToAll(p, rows, None, |rows|);
    assert forall i: nat :: i < |rows| ==> CheckedAt(p, rows, None, i) ==> LinkedAt(p, rows, i);
  }

  lemma {:induction false} SignedOneMore(p: Prims, rows: seq<LogRow>, key: Digest, i: nat)
    requires i < |rows| && CheckedTo(p, rows, None, i) && RowStatus(p, rows[i], PrevHash(rows, i), None) == Ok
    ensures CheckedTo(p, rows, None, i + 1)
    ensures Items(p, rows, key, i + 1) == Items(p, rows, key, i) + [(rows[i].id, Sign(p, Ratchet(p, key, i), rows[i]))]
  {
  }

  class AuditLog {
    /** The audit_log table in ascending id order. */
    var rows: seq<LogRow>

    constructor ()
      ensures rows == []
    {
      rows := [];
    }

    /** audit_log_event. `stored` is false when the INSERT itself fails. */
    method LogEvent(p: Prims, key: Digest, timestamp: Bytes, ev: Event, stored: bool) returns (status: Status)
      modifies this
      ensures status == Ok <==> stored && Append(p, old(rows), key, timestamp, ev).Some?
      ensures rows == if status == Ok then Append(p, old(rows), key, timestamp, ev).value else old(rows)
    {
      var actor := E.ActorOrDefault(ev.actor);
      var last := if rows == [] then 0 else rows[|rows| - 1].id;
      var prev := PrevHash(rows, |rows|);
      if |prev| != 32 {
        return Storage;
      }
      if last == INT64_MAX || last + 1 < 1 {
        return Storage;
      }
      var e := E.Entry(timestamp, last + 1, ev.action, actor, ev.target, ev.version, ev.result, prev);
      var bytes, signed;
      status, bytes := E.BuildEntryBytes(e, None);
      if status != Ok {
        return;
      }
      var hash := p.sha(bytes[..]);
      var ratchet := DeriveRatchet(p, key, |rows|);
      status, signed := E.BuildEntryBytes(e, Some(hash));
      if status != Ok {
        return;
      }
      var signature := p.mac(ratchet, signed[..]);
      if !stored {
        return Storage;
      }
      rows := rows + [LogRow(e.id, timestamp, e.action, e.actor, e.target,
                             if e.version > 0 then Some(e.version) else None, e.result, prev, hash, signature)];
    }

    /** The checks the verifying and re-signing loops share. */
    method CheckRow(p: Prims, row: LogRow, expectedPrev: Bytes, ratchet: Option<Digest>) returns (status: Status)
      ensures status == RowStatus(p, row, expectedPrev, ratchet)
    {
      if row.id < 1 || (row.version.Some? && row.version.value < 1) || |row.prev| != 32 || |row.hash| != 32
         || (ratchet.Some? && |row.signature| != 32) {
        return Storage;
      }
      if row.prev != expectedPrev {
        return Crypto;
      }
      var bytes;
      status, bytes := E.BuildEntryBytes(EntryOf(row), None);
      if status != Ok {
        return;
      }
      if row.hash != p.sha(bytes[..]) {
        return Crypto;
      }
      if ratchet.Some? {
        status, bytes := E.BuildEntryBytes(EntryOf(row), Some(row.hash));
        if status == Ok && row.signature != p.mac(ratchet.value, bytes[..]) {
          status := Crypto;
        }
      }
    }

    method SignRow(p: Prims, row: LogRow, expectedPrev: Bytes, ratchet: Digest)
      returns (status: Status, signature: Digest)
      ensures status == RowStatus(p, row, expectedPrev, None)
      ensures status == Ok ==> signature == Sign(p, ratchet, row)
    {
      signature := ZeroDigest();
      status := CheckRow(p, row, expectedPrev, None);
      if status == Ok {
        var bytes;
        status, bytes := E.BuildEntryBytes(EntryOf(row), Some(row.hash));
        signature := p.mac(ratchet, bytes[..]);
      }
    }

    /** One turn of verification: row i must check. */
    method VerifyNext(p: Prims, key: Digest, i: nat, expectedPrev: Bytes, ratchet: Digest) returns (status: Status)
      requires i < |rows| && CheckedTo(p, rows, Some(key), i)
      requires expectedPrev == PrevHash(rows, i) && ratchet == Ratchet(p, key, i)
      ensures status == Ok ==> CheckedTo(p, rows, Some(key), i + 1)
      ensures status != Ok ==> !Verified(p, rows, key) && FirstFailure(p, rows, key, i, status)
    {
      status := CheckRow(p, rows[i], expectedPrev, Some(ratchet));
      if status != Ok {
        assert !VerifiedAt(p, rows, key, i);
      }
    }

    /** audit_verify_chain: the ratchet key and the expected previous hash are
        overwritten on each turn. On failure the status is that of the first
        row that does not check. */
    method Verify(p: Prims, key: Digest) returns (status: Status)
      ensures status == Ok <==> Verified(p, rows, key)
      ensures status != Ok ==> exists i: nat :: FirstFailure(p, rows, key, i, status)
    {
      var expectedPrev: Bytes := ZeroDigest();
      var ratchet := key;
      var i: nat := 0;
      while i < |rows|
        invariant i <= |rows|
        invariant expectedPrev == PrevHash(rows, i) && ratchet == Ratchet(p, key, i)
        invariant CheckedTo(p, rows, Some(key), i)
      {
        status := VerifyNext(p, key, i, expectedPrev, ratchet);
        if status != Ok {
          return;
        }
        ratchet := p.sha(ratchet);
        expectedPrev := rows[i].hash;
        i := i + 1;
      }
      CheckedAllVerified(p, rows, key);
      status := Ok;
    }

    /** One turn: row i must check, and its new signature is computed. */
    method SignNext(p: Prims, key: Digest, i: nat, expectedPrev: Bytes, ratchet: Digest)
      returns (status: Status, signature: Digest)
      requires i < |rows| && CheckedTo(p, rows, None, i)
      requires expectedPrev == PrevHash(rows, i) && ratchet == Ratchet(p, key, i)
      ensures status == Ok ==> CheckedTo(p, rows, None, i + 1)
      ensures status == Ok ==> Items(p, rows, key, i + 1) == Items(p, rows, key, i) + [(rows[i].id, signature)]
      ensures status != Ok ==> !Linked(p, rows)
    {
      status, signature := SignRow(p, rows[i], expectedPrev, ratchet);
      if status == Ok {
        SignedOneMore(p, rows, key, i);
      } else {
        NotLinked(p, rows, i);
      }
    }

    /** The first half of audit_resign_chain: checks the links while computing
        the new signatures. */
    method ComputeSignatures(p: Prims, key: Digest) returns (status: Status, items: seq<(int64, Digest)>)
      ensures status == Ok <==> Linked(p, rows)
      ensures status == Ok ==> items == Items(p, rows, key, |rows|)
    {
      items := [];
      var expectedPrev: Bytes := ZeroDigest();
      var ratchet := key;
      var i: nat := 0;
      while i < |rows|
        invariant i <= |rows| && items == Items(p, rows, key, i)
        invariant expectedPrev == PrevHash(rows, i) && ratchet == Ratchet(p, key, i)
        invariant CheckedTo(p, rows, None, i)
      {
        var signature;
        status, signature := SignNext(p, key, i, expectedPrev, ratchet);
        if status != Ok {
          return;
        }
        items := items + [(rows[i].id, signature)];
        ratchet := p.sha(ratchet);
        expectedPrev := rows[i].hash;
        i := i + 1;
      }
      CheckedAllLinked(p, rows);
      status := Ok;
    }

    /** The second half: one UPDATE per row, the id bound as a 32-bit int;
        update number `failAt` fails. */
    method ApplySignatures(items: seq<(int64, Digest)>, failAt: nat) returns (status: Status)
      modifies this
      ensures status == Ok <==> ApplyItems(old(rows), items, |items|).Some? && failAt >= |items|
      ensures status == Ok ==> rows == ApplyItems(old(rows), items, |items|).value
    {
      var i: nat := 0;
      while i < |items|
        invariant i <= |items| && i <= failAt
        invariant ApplyItems(old(rows), items, i) == Some(rows)
      {
        var (changes, updated) := SetSignature(rows, BoundId(items[i].0), items[i].1);
        if i == failAt {
          return Storage;
        }
        if changes != 1 {
          ApplyStops(old(rows), items, i + 1, |items|);
          return Storage;
        }
        rows := updated;
        i := i + 1;
      }
      status := Ok;
    }

    /** audit_resign_chain, on any table: the links are checked, then every row
        gets its update. */
    method ResignChain(p: Prims, key: Digest, failAt: nat) returns (status: Status)
      modifies this
      ensures status == Ok <==> Resign(p, old(rows), key).Some? && failAt >= |old(rows)|
      ensures status == Ok ==> rows == Resign(p, old(rows), key).value
    {
      var items;
      status, items := ComputeSignatures(p, key);
      if status == Ok {
        status := ApplySignatures(items, failAt);
      }
    }
  }
}
