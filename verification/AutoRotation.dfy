/** vault_auto_rotate_expired: rotate one expired secret at a time until none
    is left that was expired at the time captured at the start. */
module AutoRotation {
  import opened Common
  import opened Primitives
  import opened SecretsTable
  import opened VaultSpec
  import opened VaultRefinement
  import opened VaultOperations

  /** The expiry query's WHERE clause. */
  predicate IsExpired(rows: seq<Row>, row: Row, now: nat) {
    !row.archived && row.version == MaxVersion(rows, row.name) && Due(row, now)
  }

  function ExpiredNames(rows: seq<Row>, now: nat): set<Bytes> {
    set row | row in rows && IsExpired(rows, row, now) :: row.name
  }

  /** strcmp order on stored names. */
  predicate NameLess(a: Bytes, b: Bytes) {
    b != [] && (a == [] || a[0] < b[0] || (a[0] == b[0] && NameLess(a[1..], b[1..])))
  }

  predicate Earlier(a: Row, b: Row)
    requires a.expiresAt.Some? && b.expiresAt.Some?
  {
    a.expiresAt.value < b.expiresAt.value || (a.expiresAt == b.expiresAt && NameLess(a.name, b.name))
  }

  /** ORDER BY expires_at, name LIMIT 1 over the first n rows. */
  function FirstExpired(rows: seq<Row>, now: nat, n: nat): (r: Option<Row>)
    requires n <= |rows|
    ensures r.Some? ==> r.value in rows && IsExpired(rows, r.value, now)
    ensures r.None? ==> forall i :: 0 <= i < n ==> !IsExpired(rows, rows[i], now)
  {
    if n == 0 then None
    else
      var best, row := FirstExpired(rows, now, n - 1), rows[n - 1];
      if IsExpired(rows, row, now) && (best.None? || Earlier(row, best.value)) then Some(row) else best
  }

  /** vault_find_next_expired_secret. */
  function NextExpired(rows: seq<Row>, now: nat): Option<Bytes> {
    var first := FirstExpired(rows, now, |rows|);
    if first.Some? then Some(first.value.name) else None
  }

  datatype End = Done(rotated: nat) | Failed | OutOfTurns

  /** One turn on the stored name the query picked. */
  type Turn = (Tables, Bytes, Env) -> Option<Tables>

  /** The loop, drawing one Env per turn: first the query, then the rotation.
      OutOfTurns means the given turns did not suffice; each rotation commits
      on its own. */
  function Loop(turn: Turn, t: Tables, captured: nat, envs: seq<Env>): (Tables, End)
    decreases |envs|
  {
    if envs == [] then (t, OutOfTurns)
    else if !envs[0].ok(FindNext) then (t, Failed)
    else
      match NextExpired(t.secrets, captured)
      case None => (t, Done(0))
      case Some(name) =>
        match turn(t, name, envs[0])
        case None => (t, Failed)
        case Some(t1) =>
          var (t2, end) := Loop(turn, t1, captured, envs[1..]);
          (t2, CountTurn(end))
  }

  function RotateTurn(c: Context): Turn {
    (t, name, e) => RotateExpiredOutcome(c, t, name, e)
  }

  function AutoRotate(c: Context, t: Tables, captured: nat, envs: seq<Env>): (Tables, End) {
    Loop(RotateTurn(c), t, captured, envs)
  }

  function CountTurn(end: End): End {
    if end.Done? then Done(end.rotated + 1) else end
  }

  /** The clock reading at the start, the captured time, succeeds. */
  predicate Captures(start: Env) {
    start.ok(Clock) && start.now <= MAX_TIME
  }

  /** The first n turns of an endless supply. */
  function Turns(envs: nat -> Env, n: nat): (r: seq<Env>)
    ensures |r| == n
  {
    seq(n, i requires 0 <= i < n => envs(i))
  }

  /** The loop is over within n turns, successfully or not. */
  predicate Ends(c: Context, t: Tables, captured: nat, envs: nat -> Env, n: nat) {
    AutoRotate(c, t, captured, Turns(envs, n)).1 != OutOfTurns
  }

  /** A rotation with these two clock readings takes a secret off the expired
      ones: the secret is due by the first, and its new expiry, counted from
      the second, lies after the captured time. */
  predicate Renews(row: Row, captured: nat, now: nat, later: nat) {
    Due(row, now) && (IntervalOf(row) == 0 || captured < later + IntervalOf(row))
  }

  /** The last row of a name that has one. */
  function LastRow(rows: seq<Row>, name: Bytes): Row
    requires History(rows, name) != []
  {
    var h := History(rows, name);
    h[|h| - 1]
  }

  /** These clock readings renew every secret expired at the captured time. */
  ghost predicate AllRenewed(rows: seq<Row>, captured: nat, now: nat, later: nat) {
    forall name :: name in ExpiredNames(rows, captured) ==>
      History(rows, name) != [] && Renews(LastRow(rows, name), captured, now, later)
  }

  /** Every turn's clock does. */
  ghost predicate ClockServes(rows: seq<Row>, captured: nat, envs: seq<Env>) {
    forall i :: 0 <= i < |envs| ==> AllRenewed(rows, captured, envs[i].now, envs[i].later)
  }

  // ---------------------------------------------------------------- what is picked first

  /** strcmp order is transitive, and no name is less than itself. */
  lemma {:induction false} NameLessOrders(a: Bytes, b: Bytes, d: Bytes)
    ensures NameLess(a, b) && NameLess(b, d) ==> NameLess(a, d)
    ensures !NameLess(a, a)
    decreases |a|
  {
    if a != [] {
      NameLessOrders(a[1..], if b == [] then [] else b[1..], if d == [] then [] else d[1..]);
    }
  }

  /** The query picks an expired row that no other expired row comes before, by
      expiry and then by name. */
  lemma {:induction false} PicksFirst(rows: seq<Row>, now: nat, n: nat, i: nat)
    requires i < n <= |rows| && IsExpired(rows, rows[i], now)
    ensures var first := FirstExpired(rows, now, n); first.Some? && !Earlier(rows[i], first.value)
  {
    var before, last := FirstExpired(rows, now, n - 1), rows[n - 1];
    if i < n - 1 {
      PicksFirst(rows, now, n - 1, i);
      if IsExpired(rows, last, now) {
        NameLessOrders(rows[i].name, last.name, before.value.name);
      }
    } else {
      NameLessOrders(last.name, last.name, last.name);
    }
  }

  // ---------------------------------------------------------------- what is expired

  lemma {:induction false} ExpiredIsLast(rows: seq<Row>, row: Row, now: nat)
    requires Structural(rows) && row in rows && IsExpired(rows, row, now)
    ensures HasActive(History(rows, row.name)) && LastRow(rows, row.name) == row
  {
    var h := History(rows, row.name);
    Queries(rows, row.name);
    InHistory(rows, row);
    var k :| 0 <= k < |h| && h[k] == row;
    assert Ordered(h) && h[k].version == k + 1;
  }

  lemma {:induction false} DueLastIsExpired(rows: seq<Row>, name: Bytes, now: nat)
    requires Structural(rows) && HasActive(History(rows, name)) && Due(LastRow(rows, name), now)
    ensures name in ExpiredNames(rows, now)
  {
    var h, row := History(rows, name), LastRow(rows, name);
    Queries(rows, name);
    QueriesReadHistory(rows, name);
    assert Ordered(h) && row.version == |h|;
    assert row in rows && IsExpired(rows, row, now) && row.name == name;
  }

  lemma {:induction false} ExpiredMeans(rows: seq<Row>, name: Bytes, now: nat)
    requires Structural(rows)
    ensures var h := History(rows, name);
      name in ExpiredNames(rows, now) <==> HasActive(h) && Due(h[|h| - 1], now)
  {
    if name in ExpiredNames(rows, now) {
      var row :| row in rows && IsExpired(rows, row, now) && row.name == name;
      ExpiredIsLast(rows, row, now);
    } else if HasActive(History(rows, name)) && Due(LastRow(rows, name), now) {
      DueLastIsExpired(rows, name, now);
    }
  }

  lemma {:induction false} NextExpiredMeans(rows: seq<Row>, now: nat)
    ensures NextExpired(rows, now).None? <==> ExpiredNames(rows, now) == {}
    ensures NextExpired(rows, now).Some? ==> NextExpired(rows, now).value in ExpiredNames(rows, now)
  {
    var first := FirstExpired(rows, now, |rows|);
    if first.Some? {
      assert first.value.name in ExpiredNames(rows, now);
    }
  }

  // ---------------------------------------------------------------- one turn

  /** The row a write leaves last carries the draft's interval, and its expiry
      is counted from the second clock reading. */
  lemma {:induction false} WrittenRowDue(c: Context, t: Tables, d: Draft, e: Env, t': Tables)
    requires Structural(t.secrets) && WriteOutcome(c, t, d, e) == Some(t')
    ensures HasActive(History(t'.secrets, d.stored))
    ensures |History(t'.secrets, d.stored)| == |History(t.secrets, d.stored)| + 1
    ensures var row := LastRow(t'.secrets, d.stored);
      IntervalOf(row) == d.interval && row.expiresAt == ExpiresAt(d.interval, e)
    ensures forall other :: other != d.stored ==> History(t'.secrets, other) == History(t.secrets, other)
  {
    WriteTable(c, t, d, e, t');
    var row := WrittenRow(c, t, d, e);
    assert row.expiresAt == ExpiresAt(d.interval, e) && IntervalOf(row) == d.interval;
    var h' := History(t'.secrets, d.stored);
    assert h'[|h'| - 1] == row;
  }

  /** The name has one row more, which expires an interval after `later`. */
  predicate Gained(rows: seq<Row>, rows': seq<Row>, name: Bytes, later: nat)
    requires History(rows, name) != [] && History(rows', name) != []
  {
    var interval := IntervalOf(LastRow(rows, name));
    |History(rows', name)| == |History(rows, name)| + 1 &&
    LastRow(rows', name).expiresAt == if interval > 0 then Some(later + interval) else None
  }

  /** A turn on an expired name as the rows show it. */
  ghost predicate TurnOn(rows: seq<Row>, rows': seq<Row>, captured: nat, name: Bytes, now: nat, later: nat) {
    (forall other :: other != name ==> History(rows', other) == History(rows, other)) &&
    History(rows, name) != [] && History(rows', name) != [] &&
    IntervalOf(LastRow(rows', name)) == IntervalOf(LastRow(rows, name)) &&
    (if Due(LastRow(rows, name), now) then Gained(rows, rows', name, later) else rows' == rows) &&
    ExpiredNames(rows', captured) == if Renews(LastRow(rows, name), captured, now, later)
                                     then ExpiredNames(rows, captured) - {name} else ExpiredNames(rows, captured)
  }

  lemma {:induction false} ExpiredAfter(rows: seq<Row>, rows': seq<Row>, now: nat, name: Bytes)
    requires Structural(rows) && Structural(rows') && HasActive(History(rows', name)) && name in ExpiredNames(rows, now)
    requires forall other :: other != name ==> History(rows', other) == History(rows, other)
    ensures ExpiredNames(rows', now)
         == if Due(LastRow(rows', name), now) then ExpiredNames(rows, now) else ExpiredNames(rows, now) - {name}
  {
    forall other
      ensures other in ExpiredNames(rows', now)
         <==> other in ExpiredNames(rows, now) && (other != name || Due(LastRow(rows', name), now))
    {
      ExpiredMeans(rows, other, now);
      ExpiredMeans(rows', other, now);
    }
  }

  lemma {:induction false} RenewedRow(rows: seq<Row>, rows': seq<Row>, captured: nat, name: Bytes, now: nat, later: nat)
    requires Structural(rows) && Structural(rows') && HasActive(History(rows', name))
    requires name in ExpiredNames(rows, captured)
    requires forall other :: other != name ==> History(rows', other) == History(rows, other)
    requires History(rows, name) != [] && Due(LastRow(rows, name), now) && Gained(rows, rows', name, later)
    requires IntervalOf(LastRow(rows', name)) == IntervalOf(LastRow(rows, name))
    ensures TurnOn(rows, rows', captured, name, now, later)
  {
    ExpiredAfter(rows, rows', captured, name);
  }

  /** What rotating a due row does to the rows. */
  lemma {:induction false} TurnGains(c: Context, t: Tables, d: Draft, e: Env, t': Tables)
    requires Structural(t.secrets) && History(t.secrets, d.stored) != [] && WriteOutcome(c, t, d, e) == Some(t')
    requires d.interval == IntervalOf(LastRow(t.secrets, d.stored))
    ensures HasActive(History(t'.secrets, d.stored)) && Gained(t.secrets, t'.secrets, d.stored, e.later)
    ensures IntervalOf(LastRow(t'.secrets, d.stored)) == d.interval
    ensures forall other :: other != d.stored ==> History(t'.secrets, other) == History(t.secrets, other)
  {
    WrittenRowDue(c, t, d, e, t');
  }

  lemma {:induction false} TurnShows(c: Context, t: Tables, captured: nat, name: Bytes, e: Env, t': Tables)
    requires AeadCorrect(c.p) && Inv(c, t) && name in ExpiredNames(t.secrets, captured)
    requires RotateExpiredOutcome(c, t, name, e) == Some(t')
    ensures Inv(c, t') && TurnOn(t.secrets, t'.secrets, captured, name, e.now, e.later)
  {
    ExpiredMeans(t.secrets, name, captured);
    RotateCopies(c, t, name, e, t');
    var row := LastRow(t.secrets, name);
    if Due(row, e.now) {
      TurnGains(c, t, RotateDraft(c, row), e, t');
      RenewedRow(t.secrets, t'.secrets, captured, name, e.now, e.later);
    }
  }

  /** One successful turn, exactly. A secret due by the turn's own clock gains
      a copy of its active version, any other is left alone; and the name goes
      off the expired ones exactly when the clock renews it. */
  lemma {:induction false} TurnRotates(c: Context, t: Tables, captured: nat, name: Bytes, e: Env, t': Tables)
    requires AeadCorrect(c.p) && Inv(c, t) && name in ExpiredNames(t.secrets, captured)
    requires RotateExpiredOutcome(c, t, name, e) == Some(t')
    ensures Inv(c, t') && ShelfOf(c, t.secrets, name).active && History(t.secrets, name) != []
    ensures if Due(LastRow(t.secrets, name), e.now)
            then Changed(c, t, t', Copied(name, |History(t.secrets, name)|)) else t' == t
    ensures ExpiredNames(t'.secrets, captured)
         == if Renews(LastRow(t.secrets, name), captured, e.now, e.later)
            then ExpiredNames(t.secrets, captured) - {name} else ExpiredNames(t.secrets, captured)
  {
    TurnShows(c, t, captured, name, e, t');
    RotateCopies(c, t, name, e, t');
  }

  // ---------------------------------------------------------------- the loop under any clock

  /** The shelf gained k copies of its active version. */
  predicate Recopied(before: Shelf, after: Shelf, k: nat) {
    before.active && before.versions != [] &&
    after == Shelf(before.versions + seq(k, _ => before.versions[|before.versions| - 1]), true)
  }

  /** What the loop may do to one name, whatever its clock reads. */
  ghost predicate NameRecopied(expired: bool, before: Shelf, after: Shelf, end: End) {
    if expired then exists k: nat :: Recopied(before, after, k) && (end.Done? ==> k > 0) else after == before
  }

  /** What holds when the loop stops. */
  ghost predicate AnyOutcome(c: Context, t: Tables, captured: nat, t': Tables, end: End) {
    var expired := ExpiredNames(t.secrets, captured);
    Inv(c, t') &&
    (end.Done? ==> ExpiredNames(t'.secrets, captured) == {} && |expired| <= end.rotated) &&
    forall name ::
      NameRecopied(name in expired, ShelfOf(c, t.secrets, name), ShelfOf(c, t'.secrets, name), end)
  }

  lemma {:induction false} OneMoreCopy(before: Shelf, middle: Shelf, after: Shelf, k: nat)
    requires Recopied(before, middle, 1) && Recopied(middle, after, k)
    ensures Recopied(before, after, k + 1)
  {
    var last := before.versions[|before.versions| - 1];
    assert middle.versions == before.versions + [last];
    assert after.versions == before.versions + seq(k + 1, _ => last);
  }

  lemma {:induction false} NotYetCopied(shelf: Shelf)
    requires shelf.active && shelf.versions != []
    ensures Recopied(shelf, shelf, 0)
  {
    assert shelf.versions + seq(0, _ => shelf.versions[|shelf.versions| - 1]) == shelf.versions;
  }

  lemma {:induction false} AnyOutcomeHere(c: Context, t: Tables, captured: nat, end: End)
    requires Inv(c, t) && (end.Done? ==> ExpiredNames(t.secrets, captured) == {})
    ensures AnyOutcome(c, t, captured, t, end)
  {
    forall name
      ensures NameRecopied(name in ExpiredNames(t.secrets, captured), ShelfOf(c, t.secrets, name),
                           ShelfOf(c, t.secrets, name), end)
    {
      ExpiredMeans(t.secrets, name, captured);
      if name in ExpiredNames(t.secrets, captured) {
        NotYetCopied(ShelfOf(c, t.secrets, name));
      }
    }
  }

  /** One name's shelf across one turn and the turns after it. */
  lemma {:induction false} NameStep(before: Shelf, middle: Shelf, after: Shelf, turned: bool, expired: bool,
                                    still: bool, end: End)
    requires if turned then expired && Recopied(before, middle, 1) else middle == before && still == expired
    requires still ==> expired
    requires NameRecopied(still, middle, after, end)
    ensures NameRecopied(expired, before, after, CountTurn(end))
  {
    if turned && still {
      var k: nat :| Recopied(middle, after, k) && (end.Done? ==> k > 0);
      OneMoreCopy(before, middle, after, k);
    }
  }

  lemma {:induction false} CopiedOnce(before: Shelf, after: Shelf, change: Change)
    requires before.active && before.versions != []
    requires change.Copied? && change.source == |before.versions| && after == Apply(before, change, change.name)
    ensures Recopied(before, after, 1)
  {
    assert after.versions == before.versions + seq(1, _ => before.versions[|before.versions| - 1]);
  }

  /** Whatever the clock does, the loop only adds copies of their active
      version to the names expired at the captured time. When it ends well each
      of them gained one at least, none is expired any more, and the count is
      at least their number. */
  lemma {:induction false} AutoRotateAnyClock(c: Context, t: Tables, captured: nat, envs: seq<Env>)
    requires AeadCorrect(c.p) && Inv(c, t)
    ensures AnyOutcome(c, t, captured, AutoRotate(c, t, captured, envs).0, AutoRotate(c, t, captured, envs).1)
    decreases |envs|
  {
    NextExpiredMeans(t.secrets, captured);
    var (t2, end) := AutoRotate(c, t, captured, envs);
    var next := NextExpired(t.secrets, captured);
    if envs == [] || !envs[0].ok(FindNext) || next == None || RotateExpiredOutcome(c, t, next.value, envs[0]) == None {
      AnyOutcomeHere(c, t, captured, end);
    } else {
      var t1 := RotateExpiredOutcome(c, t, next.value, envs[0]).value;
      OneTurn(c, t, captured, envs, next.value, t1);
      TurnRotates(c, t, captured, next.value, envs[0], t1);
      AutoRotateAnyClock(c, t1, captured, envs[1..]);
      AnyOutcomeStep(c, t, captured, next.value, envs[0], t1, t2, AutoRotate(c, t1, captured, envs[1..]).1);
    }
  }

  lemma {:induction false} AnyOutcomeStep(c: Context, t: Tables, captured: nat, name: Bytes, e: Env, t1: Tables,
                                          t2: Tables, end: End)
    requires AeadCorrect(c.p) && Inv(c, t) && name in ExpiredNames(t.secrets, captured)
    requires RotateExpiredOutcome(c, t, name, e) == Some(t1) && AnyOutcome(c, t1, captured, t2, end)
    ensures AnyOutcome(c, t, captured, t2, CountTurn(end))
  {
    TurnRotates(c, t, captured, name, e, t1);
    assert |ExpiredNames(t.secrets, captured) - {name}| == |ExpiredNames(t.secrets, captured)| - 1;
    var change := Copied(name, |History(t.secrets, name)|);
    forall other
      ensures NameRecopied(other in ExpiredNames(t.secrets, captured), ShelfOf(c, t.secrets, other),
                           ShelfOf(c, t2.secrets, other), CountTurn(end))
    {
      var before, middle := ShelfOf(c, t.secrets, other), ShelfOf(c, t1.secrets, other);
      var turned := other == name && Due(LastRow(t.secrets, name), e.now);
      assert Due(LastRow(t.secrets, name), e.now) ==> middle == Apply(before, change, other);
      if turned {
        CopiedOnce(before, middle, change);
      }
      NameStep(before, middle, ShelfOf(c, t2.secrets, other), turned, other in ExpiredNames(t.secrets, captured),
               other in ExpiredNames(t1.secrets, captured), end);
    }
  }

  // ---------------------------------------------------------------- the loop under a clock that serves

  /** What the loop may do to one name when every clock reading renews it. */
  predicate NameEffect(expired: bool, before: Shelf, after: Shelf, end: End) {
    if expired then Recopied(before, after, 1) || (!end.Done? && after == before) else after == before
  }

  ghost predicate Effect(c: Context, t: Tables, captured: nat, t': Tables, end: End) {
    forall name ::
      NameEffect(name in ExpiredNames(t.secrets, captured), ShelfOf(c, t.secrets, name), ShelfOf(c, t'.secrets, name),
                 end)
  }

  /** What holds when the loop stops after at most `turns` turns. */
  ghost predicate Outcome(c: Context, t: Tables, captured: nat, turns: nat, t': Tables, end: End) {
    var expired := ExpiredNames(t.secrets, captured);
    Inv(c, t') && Effect(c, t, captured, t', end) &&
    (end.Done? ==> ExpiredNames(t'.secrets, captured) == {} && end.rotated == |expired|) &&
    (turns > |expired| ==> end != OutOfTurns)
  }

  lemma {:induction false} EffectStep(c: Context, t: Tables, captured: nat, name: Bytes, t1: Tables, t2: Tables,
                                      end: End)
    requires ShelfOf(c, t.secrets, name).active && ShelfOf(c, t.secrets, name).versions != []
    requires name in ExpiredNames(t.secrets, captured)
    requires Changed(c, t, t1, Copied(name, |History(t.secrets, name)|))
    requires ExpiredNames(t1.secrets, captured) == ExpiredNames(t.secrets, captured) - {name}
    requires Effect(c, t1, captured, t2, end)
    ensures Effect(c, t, captured, t2, CountTurn(end))
  {
    var change := Copied(name, |History(t.secrets, name)|);
    forall other
      ensures NameEffect(other in ExpiredNames(t.secrets, captured), ShelfOf(c, t.secrets, other),
                         ShelfOf(c, t2.secrets, other), CountTurn(end))
    {
      var before, middle := ShelfOf(c, t.secrets, other), ShelfOf(c, t1.secrets, other);
      assert middle == Apply(before, change, other);
      assert NameEffect(other in ExpiredNames(t1.secrets, captured), middle, ShelfOf(c, t2.secrets, other), end);
      if other == name {
        CopiedOnce(before, middle, change);
      }
    }
  }

  lemma {:induction false} OutcomeStep(c: Context, t: Tables, captured: nat, name: Bytes, e: Env, t1: Tables,
                                       turns: nat, t2: Tables, end: End)
    requires AeadCorrect(c.p) && Inv(c, t) && name in ExpiredNames(t.secrets, captured)
    requires AllRenewed(t.secrets, captured, e.now, e.later) && RotateExpiredOutcome(c, t, name, e) == Some(t1)
    requires Outcome(c, t1, captured, turns, t2, end)
    ensures Outcome(c, t, captured, turns + 1, t2, CountTurn(end))
  {
    TurnRotates(c, t, captured, name, e, t1);
    assert |ExpiredNames(t1.secrets, captured)| == |ExpiredNames(t.secrets, captured)| - 1;
    EffectStep(c, t, captured, name, t1, t2, end);
  }

  lemma {:induction false} OutcomeHere(c: Context, t: Tables, captured: nat, turns: nat, end: End)
    requires Inv(c, t)
    requires match end
             case Done(n) => n == 0 && ExpiredNames(t.secrets, captured) == {}
             case Failed => true
             case OutOfTurns => turns == 0
    ensures Outcome(c, t, captured, turns, t, end)
  {
  }

  lemma {:induction false} OneTurn(c: Context, t: Tables, captured: nat, envs: seq<Env>, name: Bytes, t1: Tables)
    requires envs != [] && envs[0].ok(FindNext) && NextExpired(t.secrets, captured) == Some(name)
    requires RotateExpiredOutcome(c, t, name, envs[0]) == Some(t1)
    ensures AutoRotate(c, t, captured, envs)
         == (AutoRotate(c, t1, captured, envs[1..]).0, CountTurn(AutoRotate(c, t1, captured, envs[1..]).1))
  {
  }

  /** The turns left serve the names left. */
  lemma {:induction false} StillServes(rows: seq<Row>, rows': seq<Row>, captured: nat, envs: seq<Env>, name: Bytes)
    requires ClockServes(rows, captured, envs) && envs != [] && name in ExpiredNames(rows, captured)
    requires TurnOn(rows, rows', captured, name, envs[0].now, envs[0].later)
    ensures ClockServes(rows', captured, envs[1..])
  {
    assert AllRenewed(rows, captured, envs[0].now, envs[0].later);
    forall i | 0 <= i < |envs| - 1
      ensures AllRenewed(rows', captured, envs[1..][i].now, envs[1..][i].later)
    {
      assert AllRenewed(rows, captured, envs[i + 1].now, envs[i + 1].later);
    }
  }

  /** When every turn's clock renews the expired secrets, success leaves none
      of them expired, the count is their number at the start, each gained
      exactly one copy of its active version and every other name is untouched.
      A failure leaves each name in one of these two states. One turn per
      expired name and the query that finds no more always suffice. */
  lemma {:induction false} AutoRotateEffect(c: Context, t: Tables, captured: nat, envs: seq<Env>)
    requires AeadCorrect(c.p) && Inv(c, t) && ClockServes(t.secrets, captured, envs)
    ensures var (t', end) := AutoRotate(c, t, captured, envs); Outcome(c, t, captured, |envs|, t', end)
    decreases |envs|
  {
    NextExpiredMeans(t.secrets, captured);
    var next := NextExpired(t.secrets, captured);
    if envs == [] || !envs[0].ok(FindNext) || next == None || RotateExpiredOutcome(c, t, next.value, envs[0]) == None {
      OutcomeHere(c, t, captured, |envs|, AutoRotate(c, t, captured, envs).1);
    } else {
      var t1 := RotateExpiredOutcome(c, t, next.value, envs[0]).value;
      OneTurn(c, t, captured, envs, next.value, t1);
      OutcomeTurn(c, t, captured, envs, next.value, t1);
    }
  }

  lemma {:induction false} OutcomeTurn(c: Context, t: Tables, captured: nat, envs: seq<Env>, name: Bytes, t1: Tables)
    requires AeadCorrect(c.p) && Inv(c, t) && ClockServes(t.secrets, captured, envs) && envs != []
    requires name in ExpiredNames(t.secrets, captured) && RotateExpiredOutcome(c, t, name, envs[0]) == Some(t1)
    ensures var (t2, end) := AutoRotate(c, t1, captured, envs[1..]);
      Outcome(c, t, captured, |envs|, t2, CountTurn(end))
    decreases |envs|, 0
  {
    TurnShows(c, t, captured, name, envs[0], t1);
    StillServes(t.secrets, t1.secrets, captured, envs, name);
    AutoRotateEffect(c, t1, captured, envs[1..]);
    var (t2, end) := AutoRotate(c, t1, captured, envs[1..]);
    assert AllRenewed(t.secrets, captured, envs[0].now, envs[0].later);
    OutcomeStep(c, t, captured, name, envs[0], t1, |envs| - 1, t2, end);
  }

  /** A clock that never reads earlier than the captured time serves. */
  lemma {:induction false} ForwardClockServes(rows: seq<Row>, captured: nat, envs: seq<Env>)
    requires Structural(rows)
    requires forall i :: 0 <= i < |envs| ==> captured <= envs[i].now && captured <= envs[i].later
    ensures ClockServes(rows, captured, envs)
  {
    forall i, name | 0 <= i < |envs| && name in ExpiredNames(rows, captured)
      ensures History(rows, name) != [] && Renews(LastRow(rows, name), captured, envs[i].now, envs[i].later)
    {
      ExpiredMeans(rows, name, captured);
    }
  }

  /** So the loop ends under such a clock, in particular. */
  lemma {:induction false} ServedLoopEnds(c: Context, t: Tables, captured: nat, envs: nat -> Env)
    requires AeadCorrect(c.p) && Inv(c, t)
    requires forall i: nat :: AllRenewed(t.secrets, captured, envs(i).now, envs(i).later)
    ensures Ends(c, t, captured, envs, |ExpiredNames(t.secrets, captured)| + 1)
  {
    var n := |ExpiredNames(t.secrets, captured)| + 1;
    AutoRotateEffect(c, t, captured, Turns(envs, n));
  }

  /** One turn of the loop; OutOfTurns means that it goes on. */
  function OneTurnOf(turn: Turn, t: Tables, captured: nat, e: Env): (Tables, End) {
    if !e.ok(FindNext) then (t, Failed)
    else
      match NextExpired(t.secrets, captured)
      case None => (t, Done(0))
      case Some(name) =>
        var r := turn(t, name, e);
        if r.None? then (t, Failed) else (r.value, OutOfTurns)
  }

  function AddTurns(end: End, n: nat): End {
    if end.Done? then Done(end.rotated + n) else end
  }

  /** More turns carry on where the given ones ran out, and change nothing once
      the loop has ended. */
  lemma {:induction false} MoreTurns(turn: Turn, t: Tables, captured: nat, envs: seq<Env>, more: seq<Env>)
    ensures var (t1, end1) := Loop(turn, t, captured, envs);
      var (t2, end2) := Loop(turn, t1, captured, more);
      Loop(turn, t, captured, envs + more)
        == if end1 == OutOfTurns then (t2, AddTurns(end2, |envs|)) else (t1, end1)
    decreases |envs|
  {
    if envs == [] {
      assert envs + more == more;
    } else {
      assert (envs + more)[0] == envs[0] && (envs + more)[1..] == envs[1..] + more;
      var next := NextExpired(t.secrets, captured);
      if envs[0].ok(FindNext) && next.Some? && turn(t, next.value, envs[0]).Some? {
        MoreTurns(turn, turn(t, next.value, envs[0]).value, captured, envs[1..], more);
      }
    }
  }

  /** Running one more turn from where the given turns ran out. */
  lemma {:induction false} AppendTurn(turn: Turn, t: Tables, captured: nat, envs: seq<Env>, e: Env)
    requires Loop(turn, t, captured, envs).1 == OutOfTurns
    ensures var t1 := Loop(turn, t, captured, envs).0;
      var (t2, end) := OneTurnOf(turn, t1, captured, e);
      Loop(turn, t, captured, envs + [e]) == (t2, if end.Done? then Done(|envs|) else end)
  {
    MoreTurns(turn, t, captured, envs, [e]);
  }

  /** An ended loop stays as it is. */
  lemma {:induction false} EndedStays(c: Context, t: Tables, captured: nat, envs: nat -> Env, m: nat, n: nat)
    requires m <= n && Ends(c, t, captured, envs, m)
    ensures AutoRotate(c, t, captured, Turns(envs, n)) == AutoRotate(c, t, captured, Turns(envs, m))
  {
    MoreTurns(RotateTurn(c), t, captured, Turns(envs, m), Turns(envs, n)[m..]);
    assert Turns(envs, m) + Turns(envs, n)[m..] == Turns(envs, n);
  }

  /** Whatever a clock read before, once it has passed the captured time for
      good the loop ends. */
  lemma {:induction false} CaughtUpClockEnds(c: Context, t: Tables, captured: nat, envs: nat -> Env, m: nat)
    requires AeadCorrect(c.p) && Inv(c, t)
    requires forall i: nat :: m <= i ==> captured <= envs(i).now && captured <= envs(i).later
    ensures exists n: nat :: Ends(c, t, captured, envs, n)
  {
    if !Ends(c, t, captured, envs, m) {
      var t1 := StillRunning(c, t, captured, Turns(envs, m));
      var k := |ExpiredNames(t1.secrets, captured)| + 1;
      var rest := Turns(envs, m + k)[m..];
      ForwardLoopEnds(c, t1, captured, rest);
      EndsLater(c, t, captured, envs, m, t1, m + k);
    }
  }

  lemma {:induction false} EndsLater(c: Context, t: Tables, captured: nat, envs: nat -> Env, m: nat, t1: Tables, n: nat)
    requires m <= n && AutoRotate(c, t, captured, Turns(envs, m)) == (t1, OutOfTurns)
    requires AutoRotate(c, t1, captured, Turns(envs, n)[m..]).1 != OutOfTurns
    ensures Ends(c, t, captured, envs, n)
  {
    MoreTurns(RotateTurn(c), t, captured, Turns(envs, m), Turns(envs, n)[m..]);
    assert Turns(envs, m) + Turns(envs, n)[m..] == Turns(envs, n);
  }

  lemma {:induction false} StillRunning(c: Context, t: Tables, captured: nat, envs: seq<Env>) returns (t1: Tables)
    requires AeadCorrect(c.p) && Inv(c, t) && AutoRotate(c, t, captured, envs).1 == OutOfTurns
    ensures Inv(c, t1) && AutoRotate(c, t, captured, envs) == (t1, OutOfTurns)
  {
    AutoRotateAnyClock(c, t, captured, envs);
    t1 := AutoRotate(c, t, captured, envs).0;
  }

  lemma {:induction false} ForwardLoopEnds(c: Context, t: Tables, captured: nat, envs: seq<Env>)
    requires AeadCorrect(c.p) && Inv(c, t) && |envs| > |ExpiredNames(t.secrets, captured)|
    requires forall i :: 0 <= i < |envs| ==> captured <= envs[i].now && captured <= envs[i].later
    ensures AutoRotate(c, t, captured, envs).1 != OutOfTurns
  {
    ForwardClockServes(t.secrets, captured, envs);
    AutoRotateEffect(c, t, captured, envs);
  }

  // ---------------------------------------------------------------- the loop under a clock that does not

  /** No turn can renew this secret: it is never due by a turn's own clock, or
      each new expiry still lies within the captured time. */
  predicate Stuck(row: Row, captured: nat, envs: seq<Env>) {
    (forall i :: 0 <= i < |envs| ==> !Due(row, envs[i].now)) ||
    (IntervalOf(row) > 0 && forall i :: 0 <= i < |envs| ==> envs[i].later + IntervalOf(row) <= captured)
  }

  lemma {:induction false} StillStuck(rows: seq<Row>, rows': seq<Row>, captured: nat, envs: seq<Env>, name: Bytes,
                                      stuck: Bytes)
    requires envs != [] && stuck in ExpiredNames(rows, captured)
    requires History(rows, stuck) != [] && Stuck(LastRow(rows, stuck), captured, envs)
    requires TurnOn(rows, rows', captured, name, envs[0].now, envs[0].later)
    ensures stuck in ExpiredNames(rows', captured)
    ensures History(rows', stuck) != [] && Stuck(LastRow(rows', stuck), captured, envs[1..])
  {
    var row, rest := LastRow(rows, stuck), envs[1..];
    assert name == stuck ==> !Renews(row, captured, envs[0].now, envs[0].later);
    assert forall i :: 0 <= i < |rest| ==> rest[i] == envs[i + 1];
  }

  /** A stuck secret keeps the loop from ever ending well: it runs until some
      step fails, or for ever. */
  lemma {:induction false} StuckNeverDone(c: Context, t: Tables, captured: nat, envs: seq<Env>, stuck: Bytes)
    requires AeadCorrect(c.p) && Inv(c, t) && stuck in ExpiredNames(t.secrets, captured)
    requires History(t.secrets, stuck) != [] && Stuck(LastRow(t.secrets, stuck), captured, envs)
    ensures !AutoRotate(c, t, captured, envs).1.Done?
    decreases |envs|
  {
    NextExpiredMeans(t.secrets, captured);
    var next := NextExpired(t.secrets, captured);
    if envs != [] && envs[0].ok(FindNext) && RotateExpiredOutcome(c, t, next.value, envs[0]).Some? {
      var t1 := RotateExpiredOutcome(c, t, next.value, envs[0]).value;
      OneTurn(c, t, captured, envs, next.value, t1);
      TurnShows(c, t, captured, next.value, envs[0], t1);
      StillStuck(t.secrets, t1.secrets, captured, envs, next.value, stuck);
      StuckNeverDone(c, t1, captured, envs[1..], stuck);
    }
  }

  /** While the clock reads earlier than the expiry of the secret the query
      picks, a turn changes nothing and still counts as a success. */
  lemma {:induction false} ClockBehindNeverEnds(c: Context, t: Tables, captured: nat, envs: seq<Env>)
    requires Structural(t.secrets) && FirstExpired(t.secrets, captured, |t.secrets|).Some?
    requires var row := FirstExpired(t.secrets, captured, |t.secrets|).value;
      forall i :: 0 <= i < |envs| ==>
        envs[i].ok(FindNext) && envs[i].ok(Clock) && envs[i].ok(ReadRow) && envs[i].now <= MAX_TIME
        && envs[i].now < row.expiresAt.value
    ensures AutoRotate(c, t, captured, envs) == (t, OutOfTurns)
    decreases |envs|
  {
    var row := FirstExpired(t.secrets, captured, |t.secrets|).value;
    if envs != [] {
      Queries(t.secrets, row.name);
      InHistory(t.secrets, row);
      assert Ordered(History(t.secrets, row.name));
      assert !Due(row, envs[0].now);
      assert RotateExpiredOutcome(c, t, row.name, envs[0]) == Some(t);
      ClockBehindNeverEnds(c, t, captured, envs[1..]);
    }
  }
}
