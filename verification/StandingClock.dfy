/** Auto-rotation under a clock that stands still: every turn reads `now` first
    and counts new expiries from `later`. Exactly when the loop succeeds, when
    it ends, and how many versions it adds. */
module StandingClock {
  import opened Common
  import opened Primitives
  import opened CryptoEngine
  import opened SecretsTable
  import opened VaultSpec
  import opened VaultRefinement
  import opened VaultOperations
  import opened AutoRotation

  predicate Stands(envs: seq<Env>, now: nat, later: nat) {
    forall i :: 0 <= i < |envs| ==> envs[i].now == now && envs[i].later == later
  }

  ghost predicate AlwaysStands(envs: nat -> Env, now: nat, later: nat) {
    forall i: nat :: envs(i).now == now && envs(i).later == later
  }

  /** Each rotation leaves this secret due again and expired still. */
  predicate RunsAway(row: Row, captured: nat, now: nat, later: nat) {
    Due(row, now) && IntervalOf(row) > 0 && later + IntervalOf(row) <= now && later + IntervalOf(row) <= captured
  }

  ghost predicate SomeRunsAway(rows: seq<Row>, captured: nat, now: nat, later: nat) {
    exists name :: name in ExpiredNames(rows, captured) && History(rows, name) != []
      && RunsAway(LastRow(rows, name), captured, now, later)
  }

  /** Expired, and due by the standing clock. */
  ghost predicate DueName(rows: seq<Row>, captured: nat, now: nat, name: Bytes) {
    name in ExpiredNames(rows, captured) && History(rows, name) != [] && Due(LastRow(rows, name), now)
  }

  ghost function DueNames(rows: seq<Row>, captured: nat, now: nat): set<Bytes> {
    set name | name in ExpiredNames(rows, captured) && DueName(rows, captured, now, name)
  }

  // ---------------------------------------------------------------- which secret is picked

  lemma {:induction false} FirstIsEarliest(rows: seq<Row>, now: nat, n: nat, i: nat)
    requires i < n <= |rows| && IsExpired(rows, rows[i], now)
    ensures var first := FirstExpired(rows, now, n);
      first.Some? && first.value.expiresAt.value <= rows[i].expiresAt.value
  {
    if i < n - 1 {
      FirstIsEarliest(rows, now, n - 1, i);
    }
  }

  /** The query picks a secret due by the clock as long as there is one. */
  lemma {:induction false} PicksDue(rows: seq<Row>, captured: nat, now: nat, name: Bytes)
    requires Structural(rows) && DueName(rows, captured, now, name)
    ensures NextExpired(rows, captured).Some? && DueName(rows, captured, now, NextExpired(rows, captured).value)
  {
    NextExpiredMeans(rows, captured);
    var row :| row in rows && IsExpired(rows, row, captured) && row.name == name;
    var i :| 0 <= i < |rows| && rows[i] == row;
    ExpiredIsLast(rows, row, captured);
    FirstIsEarliest(rows, captured, |rows|, i);
    ExpiredIsLast(rows, FirstExpired(rows, captured, |rows|).value, captured);
  }

  // ---------------------------------------------------------------- one version more at most

  /** A name that does not run away gains at most one version, in any number of
      turns, and none unless it is expired and due. */
  lemma {:induction false} GainsAtMostOne(c: Context, t: Tables, captured: nat, envs: seq<Env>, now: nat, later: nat,
                                          name: Bytes)
    requires AeadCorrect(c.p) && Inv(c, t) && Stands(envs, now, later)
    requires DueName(t.secrets, captured, now, name) ==> !RunsAway(LastRow(t.secrets, name), captured, now, later)
    ensures |History(AutoRotate(c, t, captured, envs).0.secrets, name)|
         <= |History(t.secrets, name)| + if DueName(t.secrets, captured, now, name) then 1 else 0
    decreases |envs|
  {
    NextExpiredMeans(t.secrets, captured);
    var next := NextExpired(t.secrets, captured);
    if envs != [] && envs[0].ok(FindNext) && next.Some? && RotateExpiredOutcome(c, t, next.value, envs[0]).Some? {
      var t1 := RotateExpiredOutcome(c, t, next.value, envs[0]).value;
      OneTurn(c, t, captured, envs, next.value, t1);
      TurnShows(c, t, captured, next.value, envs[0], t1);
      NotDueTwice(t.secrets, t1.secrets, captured, next.value, now, later, name);
      GainsAtMostOne(c, t1, captured, envs[1..], now, later, name);
    }
  }

  lemma {:induction false} NotDueTwice(rows: seq<Row>, rows': seq<Row>, captured: nat, turned: Bytes, now: nat,
                                       later: nat, name: Bytes)
    requires TurnOn(rows, rows', captured, turned, now, later) && turned in ExpiredNames(rows, captured)
    requires DueName(rows, captured, now, name) ==> !RunsAway(LastRow(rows, name), captured, now, later)
    ensures DueName(rows', captured, now, name)
       <==> DueName(rows, captured, now, name) && name != turned
    ensures |History(rows', name)|
         == |History(rows, name)| + if name == turned && DueName(rows, captured, now, name) then 1 else 0
    ensures DueName(rows', captured, now, name) ==> LastRow(rows', name) == LastRow(rows, name)
  {
  }

  // ---------------------------------------------------------------- running away

  /** How many versions these names have room for. */
  function Room(rows: seq<Row>, names: seq<Bytes>): int {
    if names == [] then 0
    else Room(rows, names[..|names| - 1]) + INT_MAX - |History(rows, names[|names| - 1])|
  }

  lemma {:induction false} RoomLeft(rows: seq<Row>, names: seq<Bytes>)
    requires Structural(rows)
    ensures Room(rows, names) >= 0
  {
    if names != [] {
      RoomLeft(rows, names[..|names| - 1]);
      assert Ordered(History(rows, names[|names| - 1]));
    }
  }

  lemma {:induction false} RoomShrinks(rows: seq<Row>, rows': seq<Row>, names: seq<Bytes>, name: Bytes)
    requires |History(rows', name)| == |History(rows, name)| + 1
    requires forall other :: other != name ==> History(rows', other) == History(rows, other)
    ensures Room(rows', names) <= Room(rows, names) - if name in names then 1 else 0
  {
    if names != [] {
      RoomShrinks(rows, rows', names[..|names| - 1], name);
    }
  }

  /** A secret that runs away is rotated turn after turn, it or another due one,
      until a step fails, at the latest when there is no version left to give. */
  lemma {:induction false} RunawayFails(c: Context, t: Tables, captured: nat, envs: seq<Env>, now: nat, later: nat,
                                        name: Bytes, names: seq<Bytes>)
    requires AeadCorrect(c.p) && Inv(c, t) && Stands(envs, now, later)
    requires DueName(t.secrets, captured, now, name) && RunsAway(LastRow(t.secrets, name), captured, now, later)
    requires forall other :: other in ExpiredNames(t.secrets, captured) ==> other in names
    requires |envs| > Room(t.secrets, names)
    ensures AutoRotate(c, t, captured, envs).1 == Failed
    decreases |envs|
  {
    RoomLeft(t.secrets, names);
    PicksDue(t.secrets, captured, now, name);
    var next := NextExpired(t.secrets, captured).value;
    if envs[0].ok(FindNext) && RotateExpiredOutcome(c, t, next, envs[0]).Some? {
      var t1 := RotateExpiredOutcome(c, t, next, envs[0]).value;
      OneTurn(c, t, captured, envs, next, t1);
      RunawayTurn(c, t, captured, envs[0], now, later, name, names, next, t1);
      RunawayFails(c, t1, captured, envs[1..], now, later, name, names);
    }
  }

  lemma {:induction false} RunawayTurn(c: Context, t: Tables, captured: nat, e: Env, now: nat, later: nat,
                                       name: Bytes, names: seq<Bytes>, next: Bytes, t1: Tables)
    requires AeadCorrect(c.p) && Inv(c, t) && e.now == now && e.later == later
    requires DueName(t.secrets, captured, now, name) && RunsAway(LastRow(t.secrets, name), captured, now, later)
    requires forall other :: other in ExpiredNames(t.secrets, captured) ==> other in names
    requires DueName(t.secrets, captured, now, next) && RotateExpiredOutcome(c, t, next, e) == Some(t1)
    ensures Inv(c, t1) && DueName(t1.secrets, captured, now, name)
    ensures RunsAway(LastRow(t1.secrets, name), captured, now, later)
    ensures Room(t1.secrets, names) < Room(t.secrets, names)
    ensures forall other :: other in ExpiredNames(t1.secrets, captured) ==> other in names
  {
    TurnShows(c, t, captured, next, e, t1);
    StillRunsAway(t.secrets, t1.secrets, captured, next, now, later, name);
    RoomShrinks(t.secrets, t1.secrets, names, next);
  }

  lemma {:induction false} StillRunsAway(rows: seq<Row>, rows': seq<Row>, captured: nat, turned: Bytes, now: nat,
                                         later: nat, name: Bytes)
    requires TurnOn(rows, rows', captured, turned, now, later)
    requires DueName(rows, captured, now, name) && RunsAway(LastRow(rows, name), captured, now, later)
    ensures DueName(rows', captured, now, name) && RunsAway(LastRow(rows', name), captured, now, later)
  {
  }

  /** So such a run ends, and ends badly. */
  lemma {:induction false} RunawayEnds(c: Context, t: Tables, captured: nat, envs: nat -> Env, now: nat, later: nat)
    returns (n: nat)
    requires AeadCorrect(c.p) && Inv(c, t) && AlwaysStands(envs, now, later)
    requires SomeRunsAway(t.secrets, captured, now, later)
    ensures AutoRotate(c, t, captured, Turns(envs, n)).1 == Failed
  {
    var name :| name in ExpiredNames(t.secrets, captured) && History(t.secrets, name) != []
      && RunsAway(LastRow(t.secrets, name), captured, now, later);
    var names := seq(|t.secrets|, i requires 0 <= i < |t.secrets| => t.secrets[i].name);
    forall other | other in ExpiredNames(t.secrets, captured)
      ensures other in names
    {
      var row :| row in t.secrets && row.name == other;
      var i :| 0 <= i < |t.secrets| && t.secrets[i] == row;
      assert names[i] == other;
    }
    RoomLeft(t.secrets, names);
    n := Room(t.secrets, names) + 1;
    RunawayFails(c, t, captured, Turns(envs, n), now, later, name, names);
  }

  // ---------------------------------------------------------------- when the loop succeeds

  /** What a standing clock does not renew, it never will. */
  lemma {:induction false} NotRenewedIsStuck(rows: seq<Row>, captured: nat, envs: seq<Env>, now: nat, later: nat)
    returns (name: Bytes)
    requires Structural(rows) && Stands(envs, now, later) && !AllRenewed(rows, captured, now, later)
    ensures name in ExpiredNames(rows, captured) && History(rows, name) != []
    ensures Stuck(LastRow(rows, name), captured, envs)
  {
    name :| name in ExpiredNames(rows, captured) &&
      !(History(rows, name) != [] && Renews(LastRow(rows, name), captured, now, later));
    ExpiredMeans(rows, name, captured);
  }

  lemma {:induction false} NotRenewedNeverDone(c: Context, t: Tables, captured: nat, envs: seq<Env>, now: nat,
                                               later: nat)
    requires AeadCorrect(c.p) && Inv(c, t) && Stands(envs, now, later)
    requires !AllRenewed(t.secrets, captured, now, later)
    ensures !AutoRotate(c, t, captured, envs).1.Done?
  {
    var name := NotRenewedIsStuck(t.secrets, captured, envs, now, later);
    StuckNeverDone(c, t, captured, envs, name);
  }

  /** Auto-rotation succeeds under a standing clock exactly when that clock
      renews every expired secret and no step fails in one turn for each of
      them and one for the query that finds no more. */
  lemma {:induction false} SucceedsExactlyWhen(c: Context, t: Tables, captured: nat, envs: nat -> Env, now: nat,
                                               later: nat)
    requires AeadCorrect(c.p) && Inv(c, t) && AlwaysStands(envs, now, later)
    ensures (exists n: nat :: AutoRotate(c, t, captured, Turns(envs, n)).1.Done?)
       <==> AllRenewed(t.secrets, captured, now, later) &&
            AutoRotate(c, t, captured, Turns(envs, |ExpiredNames(t.secrets, captured)| + 1)).1 != Failed
  {
    var enough := |ExpiredNames(t.secrets, captured)| + 1;
    if AllRenewed(t.secrets, captured, now, later) {
      ServedLoopEnds(c, t, captured, envs);
    }
    forall n: nat | AutoRotate(c, t, captured, Turns(envs, n)).1.Done?
      ensures AllRenewed(t.secrets, captured, now, later)
      ensures AutoRotate(c, t, captured, Turns(envs, enough)).1 != Failed
    {
      if !AllRenewed(t.secrets, captured, now, later) {
        NotRenewedNeverDone(c, t, captured, Turns(envs, n), now, later);
      } else if n <= enough {
        EndedStays(c, t, captured, envs, n, enough);
      } else {
        EndedStays(c, t, captured, envs, enough, n);
      }
    }
  }

  // ---------------------------------------------------------------- when the loop ends

  /** The steps a turn on a secret that is not due takes do not fail. */
  predicate Quiet(e: Env) {
    e.ok(FindNext) && e.ok(Clock) && e.ok(ReadRow) && e.now <= MAX_TIME
  }

  lemma {:induction false} NotDueLeftAlone(c: Context, t: Tables, captured: nat, name: Bytes, e: Env)
    requires Inv(c, t) && Quiet(e) && name in ExpiredNames(t.secrets, captured)
    requires !DueName(t.secrets, captured, e.now, name)
    ensures RotateExpiredOutcome(c, t, name, e) == Some(t)
  {
    ExpiredMeans(t.secrets, name, captured);
    ActiveRow(t.secrets, name);
  }

  /** Once the due secrets are rotated, a secret left over keeps a quiet loop
      running for ever. In the given turns, one for each due secret or all
      there are, nothing fails. */
  lemma {:induction false} RunsForever(c: Context, t: Tables, captured: nat, envs: seq<Env>, now: nat, later: nat,
                                       stuck: Bytes, given: seq<Env>)
    requires AeadCorrect(c.p) && Inv(c, t) && Stands(envs, now, later)
    requires forall i :: 0 <= i < |envs| ==> Quiet(envs[i])
    requires stuck in ExpiredNames(t.secrets, captured) && History(t.secrets, stuck) != []
    requires Stuck(LastRow(t.secrets, stuck), captured, envs) && !SomeRunsAway(t.secrets, captured, now, later)
    requires given <= envs && (given == envs || |DueNames(t.secrets, captured, now)| <= |given|)
    requires AutoRotate(c, t, captured, given).1 != Failed
    ensures AutoRotate(c, t, captured, envs).1 == OutOfTurns
    decreases |envs|
  {
    NextExpiredMeans(t.secrets, captured);
    var next := NextExpired(t.secrets, captured).value;
    if envs != [] {
      if DueNames(t.secrets, captured, now) == {} {
        assert next !in DueNames(t.secrets, captured, now);
        NotDueLeftAlone(c, t, captured, next, envs[0]);
        OneTurn(c, t, captured, envs, next, t);
        RunsForever(c, t, captured, envs[1..], now, later, stuck, []);
      } else {
        var t1 := DueTurn(c, t, captured, envs, now, later, stuck, given);
        RunsForever(c, t1, captured, envs[1..], now, later, stuck, given[1..]);
      }
    }
  }

  lemma {:induction false} GivenTurn(c: Context, t: Tables, captured: nat, envs: seq<Env>, next: Bytes, given: seq<Env>)
    requires given != [] && given <= envs && Quiet(envs[0]) && NextExpired(t.secrets, captured) == Some(next)
    requires AutoRotate(c, t, captured, given).1 != Failed
    ensures given[1..] <= envs[1..] && RotateExpiredOutcome(c, t, next, envs[0]).Some?
    ensures var t1 := RotateExpiredOutcome(c, t, next, envs[0]).value;
      AutoRotate(c, t1, captured, given[1..]).1 != Failed &&
      AutoRotate(c, t, captured, envs).1 == CountTurn(AutoRotate(c, t1, captured, envs[1..]).1)
  {
    assert given[0] == envs[0];
    if RotateExpiredOutcome(c, t, next, envs[0]).Some? {
      OneTurn(c, t, captured, given, next, RotateExpiredOutcome(c, t, next, envs[0]).value);
      OneTurn(c, t, captured, envs, next, RotateExpiredOutcome(c, t, next, envs[0]).value);
    }
  }

  lemma {:induction false} DueTurn(c: Context, t: Tables, captured: nat, envs: seq<Env>, now: nat, later: nat,
                                   stuck: Bytes, given: seq<Env>)
    returns (t1: Tables)
    requires AeadCorrect(c.p) && Inv(c, t) && Stands(envs, now, later) && given != [] && given <= envs && Quiet(envs[0])
    requires stuck in ExpiredNames(t.secrets, captured) && History(t.secrets, stuck) != []
    requires Stuck(LastRow(t.secrets, stuck), captured, envs) && !SomeRunsAway(t.secrets, captured, now, later)
    requires DueNames(t.secrets, captured, now) != {} && AutoRotate(c, t, captured, given).1 != Failed
    ensures AutoRotate(c, t1, captured, given[1..]).1 != Failed && given[1..] <= envs[1..]
    ensures AutoRotate(c, t, captured, envs).1 == CountTurn(AutoRotate(c, t1, captured, envs[1..]).1)
    ensures Inv(c, t1) && stuck in ExpiredNames(t1.secrets, captured) && History(t1.secrets, stuck) != []
    ensures Stuck(LastRow(t1.secrets, stuck), captured, envs[1..]) && !SomeRunsAway(t1.secrets, captured, now, later)
    ensures |DueNames(t1.secrets, captured, now)| < |DueNames(t.secrets, captured, now)|
  {
    var due :| due in DueNames(t.secrets, captured, now);
    PicksDue(t.secrets, captured, now, due);
    var next := NextExpired(t.secrets, captured).value;
    GivenTurn(c, t, captured, envs, next, given);
    t1 := RotateExpiredOutcome(c, t, next, envs[0]).value;
    TurnShows(c, t, captured, next, envs[0], t1);
    StillStuck(t.secrets, t1.secrets, captured, envs, next, stuck);
    OneLessDue(t.secrets, t1.secrets, captured, next, now, later);
  }

  lemma {:induction false} OneLessDue(rows: seq<Row>, rows': seq<Row>, captured: nat, turned: Bytes, now: nat,
                                      later: nat)
    requires TurnOn(rows, rows', captured, turned, now, later) && DueName(rows, captured, now, turned)
    requires !SomeRunsAway(rows, captured, now, later)
    ensures !SomeRunsAway(rows', captured, now, later)
    ensures |DueNames(rows', captured, now)| < |DueNames(rows, captured, now)|
  {
    forall name
      ensures name in DueNames(rows', captured, now) <==> name in DueNames(rows, captured, now) - {turned}
      ensures name in ExpiredNames(rows', captured) && History(rows', name) != [] ==>
                !RunsAway(LastRow(rows', name), captured, now, later)
    {
      assert DueName(rows, captured, now, name) ==> !RunsAway(LastRow(rows, name), captured, now, later);
      NotDueTwice(rows, rows', captured, turned, now, later, name);
    }
    assert DueNames(rows', captured, now) == DueNames(rows, captured, now) - {turned};
  }

  /** When the steps that look for work do not fail, the loop under a standing
      clock ends in exactly three cases: the clock renews every expired secret,
      some secret runs away, or a rotation fails within one turn for each
      expired secret. Otherwise it runs for ever. */
  lemma {:induction false} EndsExactlyWhen(c: Context, t: Tables, captured: nat, envs: nat -> Env, now: nat, later: nat)
    requires AeadCorrect(c.p) && Inv(c, t) && AlwaysStands(envs, now, later)
    requires forall i: nat :: Quiet(envs(i))
    ensures (exists n: nat :: Ends(c, t, captured, envs, n))
       <==> AllRenewed(t.secrets, captured, now, later) || SomeRunsAway(t.secrets, captured, now, later) ||
            AutoRotate(c, t, captured, Turns(envs, |ExpiredNames(t.secrets, captured)|)).1 == Failed
  {
    var k := |ExpiredNames(t.secrets, captured)|;
    if AllRenewed(t.secrets, captured, now, later) {
      ServedLoopEnds(c, t, captured, envs);
    } else if SomeRunsAway(t.secrets, captured, now, later) {
      var n := RunawayEnds(c, t, captured, envs, now, later);
      assert Ends(c, t, captured, envs, n);
    } else if AutoRotate(c, t, captured, Turns(envs, k)).1 == Failed {
      assert Ends(c, t, captured, envs, k);
    } else {
      forall n: nat
        ensures !Ends(c, t, captured, envs, n)
      {
        NeverEnds(c, t, captured, envs, now, later, n);
      }
    }
  }

  lemma {:induction false} NeverEnds(c: Context, t: Tables, captured: nat, envs: nat -> Env, now: nat, later: nat,
                                     n: nat)
    requires AeadCorrect(c.p) && Inv(c, t) && AlwaysStands(envs, now, later)
    requires forall i: nat :: Quiet(envs(i))
    requires !AllRenewed(t.secrets, captured, now, later) && !SomeRunsAway(t.secrets, captured, now, later)
    requires AutoRotate(c, t, captured, Turns(envs, |ExpiredNames(t.secrets, captured)|)).1 != Failed
    ensures !Ends(c, t, captured, envs, n)
  {
    var k, turns := |ExpiredNames(t.secrets, captured)|, Turns(envs, n);
    var stuck := NotRenewedIsStuck(t.secrets, captured, turns, now, later);
    FewerDue(t.secrets, captured, now);
    if n <= k && Ends(c, t, captured, envs, n) {
      EndedStays(c, t, captured, envs, n, k);
    }
    var given := if k <= n then turns[..k] else turns;
    assert k <= n ==> given == Turns(envs, k);
    RunsForever(c, t, captured, turns, now, later, stuck, given);
  }

  lemma {:induction false} FewerDue(rows: seq<Row>, captured: nat, now: nat)
    ensures |DueNames(rows, captured, now)| <= |ExpiredNames(rows, captured)|
  {
    var rest := ExpiredNames(rows, captured) - DueNames(rows, captured, now);
    assert ExpiredNames(rows, captured) == DueNames(rows, captured, now) + rest;
  }

  // ---------------------------------------------------------------- a clock set back to 90

  /** The only secret of a vault, to expire at 50. */
  lemma {:induction false} OneSecret(c: Context, t0: Tables, name: Bytes, plain: Bytes, algorithm: Option<Name>,
                                     interval: nat, e: Env, t: Tables)
    requires AeadCorrect(c.p) && Inv(c, t0) && t0.secrets == []
    requires PutOutcome(c, t0, name, plain, algorithm, interval, e) == Some(t)
    requires interval > 0 && e.later + interval == 50
    ensures var stored := StoredName(c.p, c.keys.meta, name);
      Inv(c, t) && ExpiredNames(t.secrets, 100) == {stored} && |History(t.secrets, stored)| == 1 &&
      IntervalOf(LastRow(t.secrets, stored)) == interval && LastRow(t.secrets, stored).expiresAt == Some(50)
  {
    var stored := StoredName(c.p, c.keys.meta, name);
    PutAdds(c, t0, name, plain, algorithm, interval, e, t);
    WrittenRowDue(c, t0, PutDraft(c, t0, name, plain, algorithm, interval, e), e, t);
    forall other
      ensures other in ExpiredNames(t.secrets, 100) <==> other == stored
    {
      ExpiredMeans(t.secrets, other, 100);
    }
  }

  /** The captured time is 100 and the clock then stands at 90. With an interval
      of 5 the secret is rotated once, to expire at 95, and the loop never
      succeeds; with no failing step it never ends. */
  lemma {:induction false} SetBackNeverSucceeds(c: Context, t0: Tables, name: Bytes, plain: Bytes,
                                                algorithm: Option<Name>, e: Env, t: Tables, envs: nat -> Env, n: nat)
    requires AeadCorrect(c.p) && Inv(c, t0) && t0.secrets == [] && AlwaysStands(envs, 90, 90)
    requires PutOutcome(c, t0, name, plain, algorithm, 5, e) == Some(t) && e.later == 45
    ensures var (t', end) := AutoRotate(c, t, 100, Turns(envs, n));
      !end.Done? && |History(t'.secrets, StoredName(c.p, c.keys.meta, name))| <= 2
    ensures (forall i: nat :: Quiet(envs(i))) && AutoRotate(c, t, 100, Turns(envs, 1)).1 != Failed ==>
              !Ends(c, t, 100, envs, n)
  {
    var stored := StoredName(c.p, c.keys.meta, name);
    OneSecret(c, t0, name, plain, algorithm, 5, e, t);
    assert stored in ExpiredNames(t.secrets, 100) && !Renews(LastRow(t.secrets, stored), 100, 90, 90);
    NotRenewedNeverDone(c, t, 100, Turns(envs, n), 90, 90);
    GainsAtMostOne(c, t, 100, Turns(envs, n), 90, 90, stored);
    if (forall i: nat :: Quiet(envs(i))) && AutoRotate(c, t, 100, Turns(envs, 1)).1 != Failed {
      NeverEnds(c, t, 100, envs, 90, 90, n);
    }
  }

  /** With an interval of 20 the new expiry is 110 and the loop ends. */
  lemma {:induction false} SetBackStillEnds(c: Context, t0: Tables, name: Bytes, plain: Bytes,
                                            algorithm: Option<Name>, e: Env, t: Tables, envs: nat -> Env)
    requires AeadCorrect(c.p) && Inv(c, t0) && t0.secrets == [] && AlwaysStands(envs, 90, 90)
    requires PutOutcome(c, t0, name, plain, algorithm, 20, e) == Some(t) && e.later == 30
    ensures Ends(c, t, 100, envs, 2)
  {
    var stored := StoredName(c.p, c.keys.meta, name);
    OneSecret(c, t0, name, plain, algorithm, 20, e, t);
    assert Renews(LastRow(t.secrets, stored), 100, 90, 90);
    assert AllRenewed(t.secrets, 100, 90, 90);
    assert |ExpiredNames(t.secrets, 100)| == 1;
    ServedLoopEnds(c, t, 100, envs);
  }

  /** With an interval of 5 and each second reading at 60, every turn adds a
      version that expires at 65 and is due at once, until one fails. */
  lemma {:induction false} SetBackRunsAway(c: Context, t0: Tables, name: Bytes, plain: Bytes, algorithm: Option<Name>,
                                           e: Env, t: Tables, envs: nat -> Env)
    requires AeadCorrect(c.p) && Inv(c, t0) && t0.secrets == [] && AlwaysStands(envs, 90, 60)
    requires PutOutcome(c, t0, name, plain, algorithm, 5, e) == Some(t) && e.later == 45
    ensures exists n: nat :: AutoRotate(c, t, 100, Turns(envs, n)).1 == Failed
  {
    var stored := StoredName(c.p, c.keys.meta, name);
    OneSecret(c, t0, name, plain, algorithm, 5, e, t);
    assert stored in ExpiredNames(t.secrets, 100) && RunsAway(LastRow(t.secrets, stored), 100, 90, 60);
    var n := RunawayEnds(c, t, 100, envs, 90, 60);
  }
}
