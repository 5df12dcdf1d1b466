/** Processes share one vault file. Each reads the active row and the history
    bounds with two separate unlocked queries, at different times, and later
    runs one transaction built from those stale values. */
module Interleaving {
  import opened Common
  import opened CryptoEngine
  import opened SecretsTable

  datatype Job = Put | Rollback(version: nat) | Rotate | Delete

  /** What a process remembers between its queries and its transaction. */
  datatype Proc = Idle
                | Looked(job: Job, name: Bytes, present: bool)
                | Ready(job: Job, name: Bytes, present: bool, next: Next)

  datatype World = World(rows: seq<Row>, procs: map<nat, Proc>)

  datatype Event =
    | Look(pid: nat, job: Job, name: Bytes)             // first query
    | Bounds(pid: nat)                                  // second query
    | Transact(pid: nat, row: Row, now: nat, fails: bool)  // archive, insert, log, commit
    | Abandon(pid: nat)                                 // an error before the transaction
    | Rekey(secrets: seq<Sealed>)                       // another process's KEK rotation

  function ProcOf(w: World, pid: nat): Proc {
    if pid in w.procs then w.procs[pid] else Idle
  }

  function LookFor(rows: seq<Row>, job: Job, name: Bytes): Proc {
    var found := if job.Rollback? then FindVersion(rows, name, job.version).Some? else FindActive(rows, name).Some?;
    if found || job == Put then Looked(job, name, found) else Idle
  }

  function ReadBounds(rows: seq<Row>, proc: Proc): Proc {
    if !proc.Looked? || proc.job == Delete then proc
    else
      match NextOf(rows, proc.name)
      case None => Idle
      case Some(next) => Ready(proc.job, proc.name, proc.present, next)
  }

  /** How the transaction treats the row it replaces. */
  function HowFor(job: Job, present: bool): Replace {
    match job
    case Put => if present then MustExist else Nothing
    case Rollback(_) => IfPresent
    case _ => MustExist
  }

  /** The row it inserts: version and counter come from the earlier query. */
  function NewRow(row: Row, name: Bytes, next: Next): Row {
    row.(name := name, version := next.version, counter := next.counter, archived := false)
  }

  /** The table after a process's transaction; any failure rolls it back. */
  function AfterTransaction(rows: seq<Row>, proc: Proc, row: Row, now: nat, fails: bool): seq<Row> {
    if fails then rows
    else
      match proc
      case Idle => rows
      case Looked(job, name, _) =>
        if job != Delete then rows
        else
          var r := ArchiveActive(rows, name, now, true);
          if r.Success? then r.value else rows
      case Ready(job, name, present, next) =>
        var r := Supersede(rows, HowFor(job, present), now, NewRow(row, name, next));
        if r.Success? then r.value else rows
  }

  function Rekeyed(rows: seq<Row>, secrets: seq<Sealed>): (r: seq<Row>)
    ensures SameButSecrets(rows, r)
  {
    if |secrets| != |rows| then rows
    else
      seq(|rows|, i requires 0 <= i < |rows| =>
        if secrets[i].algorithm == rows[i].secret.algorithm then rows[i].(secret := secrets[i]) else rows[i])
  }

  function Step(w: World, e: Event): World {
    match e
    case Look(pid, job, name) => w.(procs := w.procs[pid := LookFor(w.rows, job, name)])
    case Bounds(pid) => w.(procs := w.procs[pid := ReadBounds(w.rows, ProcOf(w, pid))])
    case Transact(pid, row, now, fails) =>
      World(AfterTransaction(w.rows, ProcOf(w, pid), row, now, fails), w.procs[pid := Idle])
    case Abandon(pid) => w.(procs := w.procs[pid := Idle])
    case Rekey(secrets) => w.(rows := Rekeyed(w.rows, secrets))
  }

  function Run(events: seq<Event>): World {
    if events == [] then World([], map[]) else Step(Run(events[..|events| - 1]), events[|events| - 1])
  }

  /** A remembered next version was right when it was read, so it is at most
      one ahead of the table now. */
  predicate NotAhead(rows: seq<Row>, proc: Proc) {
    proc.Ready? ==>
      1 <= proc.next.version == proc.next.counter <= |History(rows, proc.name)| + 1 && proc.next.version <= INT_MAX
  }

  ghost predicate Inv(w: World) {
    Structural(w.rows) && forall pid :: pid in w.procs ==> NotAhead(w.rows, w.procs[pid])
  }

  lemma {:induction false} TransactionKeeps(rows: seq<Row>, proc: Proc, row: Row, now: nat, fails: bool)
    requires Structural(rows) && NotAhead(rows, proc)
    ensures var rows' := AfterTransaction(rows, proc, row, now, fails);
      Structural(rows') && forall name :: |History(rows, name)| <= |History(rows', name)|
  {
    match proc
    case Idle =>
    case Looked(job, name, _) => ArchiveKeeps(rows, name, now);
    case Ready(job, name, present, next) =>
      if Supersede(rows, HowFor(job, present), now, NewRow(row, name, next)).Success? {
        WriteKeeps(rows, HowFor(job, present), now, NewRow(row, name, next));
      }
  }

  lemma {:induction false} WriteKeeps(rows: seq<Row>, how: Replace, now: nat, row: Row)
    requires Structural(rows) && Supersede(rows, how, now, row).Success?
    requires 1 <= row.version == row.counter <= |History(rows, row.name)| + 1 && row.version <= INT_MAX
    requires !row.archived
    ensures var rows' := Supersede(rows, how, now, row).value;
      Structural(rows') && forall name :: |History(rows, name)| <= |History(rows', name)|
  {
    SupersedeKeeps(rows, how, now, row);
    forall name
      ensures |History(rows, name)| <= |History(Supersede(rows, how, now, row).value, name)|
    {
      if name != row.name {
        assert History(Supersede(rows, how, now, row).value, name) == History(rows, name);
      }
    }
  }

  lemma {:induction false} StepKeeps(w: World, e: Event)
    requires Inv(w)
    ensures Inv(Step(w, e))
    ensures forall name :: |History(w.rows, name)| <= |History(Step(w, e).rows, name)|
  {
    match e
    case Look(pid, job, name) =>
    case Bounds(pid) =>
      var proc := ProcOf(w, pid);
      if proc.Looked? {
        Queries(w.rows, proc.name);
        assert Ordered(History(w.rows, proc.name));
      }
    case Transact(pid, row, now, fails) => TransactionKeeps(w.rows, ProcOf(w, pid), row, now, fails);
    case Abandon(pid) =>
    case Rekey(secrets) => RekeyKeeps(w.rows, Rekeyed(w.rows, secrets));
  }

  /** However processes interleave, every reachable table is well structured:
      per name, versions are exactly 1..n with counters to match, and at most
      one row, the n-th, is unarchived. Stale writers are rejected. */
  lemma {:induction false} InterleavedTablesAreStructural(events: seq<Event>)
    ensures Inv(Run(events))
  {
    if events != [] {
      InterleavedTablesAreStructural(events[..|events| - 1]);
      StepKeeps(Run(events[..|events| - 1]), events[|events| - 1]);
    }
  }

  /** History is append-only under every interleaving: no event shortens it. */
  lemma {:induction false} HistoriesNeverShrink(events: seq<Event>, more: seq<Event>, name: Bytes)
    ensures |History(Run(events).rows, name)| <= |History(Run(events + more).rows, name)|
  {
    if more == [] {
      assert events + more == events;
    } else {
      var all, init, last := events + more, more[..|more| - 1], more[|more| - 1];
      var w := Run(events + init);
      assert all[..|all| - 1] == events + init && all[|all| - 1] == last;
      assert Run(all) == Step(w, last);
      HistoriesNeverShrink(events, init, name);
      InterleavedTablesAreStructural(events + init);
      StepKeeps(w, last);
      assert |History(w.rows, name)| <= |History(Step(w, last).rows, name)|;
    }
  }

  /** What the constraints buy: a put, rollback or rotation that changes the
      table was built from values that are still true. Its version is the next
      one; a put finds a row to replace exactly when it had found one before,
      and a rotation finds one. Its row is added to the name's history, whose
      active row it archives. Every staler job leaves the table as it was. */
  lemma {:induction false} OnlyFreshWritersCommit(rows: seq<Row>, proc: Proc, row: Row, now: nat)
    requires Structural(rows) && proc.Ready? && NotAhead(rows, proc)
    ensures var h := History(rows, proc.name); var rows' := AfterTransaction(rows, proc, row, now, false);
      rows' != rows ==>
        proc.next == Next(|h| + 1, |h| + 1) && (proc.job == Put ==> (HasActive(h) <==> proc.present)) &&
        (proc.job == Rotate || proc.job == Delete ==> HasActive(h)) &&
        History(rows', proc.name) == Archive(h, proc.name, now) + [NewRow(row, proc.name, proc.next)] &&
        forall other :: other != proc.name ==> History(rows', other) == History(rows, other)
  {
    var how, next := HowFor(proc.job, proc.present), NewRow(row, proc.name, proc.next);
    if Supersede(rows, how, now, next).Success? {
      SupersedeKeeps(rows, how, now, next);
    }
  }

  /** The first query tells the truth of its moment, and a job goes on only
      with something to work on: a put always, the others when the row is there. */
  lemma {:induction false} LookSeesTable(rows: seq<Row>, job: Job, name: Bytes)
    requires Structural(rows)
    ensures var h := History(rows, name); var proc := LookFor(rows, job, name);
      match job
      case Put => proc == Looked(job, name, HasActive(h))
      case Rollback(v) => proc == if 1 <= v <= |h| then Looked(job, name, true) else Idle
      case _ => proc == if HasActive(h) then Looked(job, name, true) else Idle
  {
    Queries(rows, name);
  }

  /** The second query remembers the next version, unless none is left. */
  lemma {:induction false} BoundsSeeTable(rows: seq<Row>, proc: Proc)
    requires Structural(rows) && proc.Looked? && proc.job != Delete
    ensures var h := History(rows, proc.name);
      ReadBounds(rows, proc)
        == if |h| == INT_MAX then Idle else Ready(proc.job, proc.name, proc.present, Next(|h| + 1, |h| + 1))
  {
    Queries(rows, proc.name);
  }

  /** A put, rollback or rotation that no other process disturbs commits: with a
      new id and versions left, its row becomes the name's last. */
  lemma {:induction false} UndisturbedJobCommits(rows: seq<Row>, job: Job, name: Bytes, proc: Proc, row: Row, now: nat)
    requires Structural(rows) && job != Delete && LookFor(rows, job, name).Looked? && |History(rows, name)| < INT_MAX
    requires proc == ReadBounds(rows, LookFor(rows, job, name))
    requires row.secret.algorithm.Canonical? && (row.interval.Some? ==> row.interval.value > 0)
    requires forall i :: 0 <= i < |rows| ==> rows[i].id != row.id
    ensures var h := History(rows, name);
      proc.Ready? && NotAhead(rows, proc) &&
      History(AfterTransaction(rows, proc, row, now, false), name)
        == Archive(h, name, now) + [NewRow(row, name, Next(|h| + 1, |h| + 1))]
  {
    UndisturbedIsReady(rows, job, name, proc);
    ReadyJobCommits(rows, proc, row, now);
  }

  lemma {:induction false} UndisturbedIsReady(rows: seq<Row>, job: Job, name: Bytes, proc: Proc)
    requires Structural(rows) && job != Delete && LookFor(rows, job, name).Looked? && |History(rows, name)| < INT_MAX
    requires proc == ReadBounds(rows, LookFor(rows, job, name))
    ensures var h := History(rows, name);
      proc.Ready? && proc == Ready(job, name, proc.present, Next(|h| + 1, |h| + 1)) &&
      (job == Put ==> proc.present == HasActive(h)) && (job == Rotate ==> HasActive(h))
  {
    LookSeesTable(rows, job, name);
    BoundsSeeTable(rows, LookFor(rows, job, name));
  }

  lemma {:induction false} ReadyJobCommits(rows: seq<Row>, proc: Proc, row: Row, now: nat)
    requires Structural(rows) && proc.Ready? && |History(rows, proc.name)| < INT_MAX
    requires proc.next == Next(|History(rows, proc.name)| + 1, |History(rows, proc.name)| + 1)
    requires proc.job == Put ==> proc.present == HasActive(History(rows, proc.name))
    requires proc.job == Rotate || proc.job == Delete ==> HasActive(History(rows, proc.name))
    requires row.secret.algorithm.Canonical? && (row.interval.Some? ==> row.interval.value > 0)
    requires forall i :: 0 <= i < |rows| ==> rows[i].id != row.id
    ensures History(AfterTransaction(rows, proc, row, now, false), proc.name)
         == Archive(History(rows, proc.name), proc.name, now) + [NewRow(row, proc.name, proc.next)]
  {
    var next := NewRow(row, proc.name, proc.next);
    SupersedeAccepts(rows, HowFor(proc.job, proc.present), now, next);
    SupersedeKeeps(rows, HowFor(proc.job, proc.present), now, next);
  }

  /** A delete inserts nothing, so no constraint holds it to what it looked up:
      it archives whichever row of the name is active when its transaction
      runs, a newer one included. When it changes the table it found such a
      row, and every version stays. */
  lemma {:induction false} DeleteKeepsVersions(rows: seq<Row>, proc: Proc, row: Row, now: nat)
    requires Structural(rows) && proc.Looked? && proc.job == Delete
    ensures var h := History(rows, proc.name); var rows' := AfterTransaction(rows, proc, row, now, false);
      (rows' != rows <==> HasActive(h)) && !HasActive(History(rows', proc.name)) &&
      |History(rows', proc.name)| == |h| &&
      (forall k :: 0 <= k < |h| ==>
         History(rows', proc.name)[k]
           == if k == |h| - 1 && HasActive(h) then h[k].(archived := true, updatedAt := now) else h[k]) &&
      forall other :: other != proc.name ==> History(rows', other) == History(rows, other)
  {
    var h := History(rows, proc.name);
    Queries(rows, proc.name);
    QueriesReadHistory(rows, proc.name);
    ArchiveKeeps(rows, proc.name, now);
    ArchivedHistory(h, proc.name, now);
    if !HasActive(h) {
      assert CountActive(rows, proc.name) == 0;
    } else {
      assert Archive(h, proc.name, now)[|h| - 1].archived;
    }
  }

  lemma {:induction false} ArchivedHistory(h: seq<Row>, name: Bytes, now: nat)
    requires Ordered(h) && forall k :: 0 <= k < |h| ==> h[k].name == name
    ensures forall k :: 0 <= k < |h| ==>
      Archive(h, name, now)[k]
        == if k == |h| - 1 && HasActive(h) then h[k].(archived := true, updatedAt := now) else h[k]
  {
    forall k | 0 <= k < |h|
      ensures Archive(h, name, now)[k]
           == if k == |h| - 1 && HasActive(h) then h[k].(archived := true, updatedAt := now) else h[k]
    {
      assert h[k].version == k + 1;
      assert Archive(h, name, now)[k] == ArchivedRow(h[k], name, now);
    }
  }
}
