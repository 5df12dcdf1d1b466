/** Whole runs of the vault: any commands, with any steps failing. */
module VaultRuns {
  import opened Common
  import opened Primitives
  import opened CryptoEngine
  import opened SecretsTable
  import opened VaultSpec
  import opened VaultRefinement
  import opened VaultOperations
  import KekRotation
  import Auto = AutoRotation

  datatype Command =
    | Put(name: Bytes, plain: Bytes, algorithm: Option<Name>, ttl: nat, e: Env)
    | Get(name: Bytes, capacity: nat, e: Env)
    | GetVersion(name: Bytes, version: int, capacity: nat, e: Env)
    | Delete(name: Bytes, e: Env)
    | Rollback(name: Bytes, version: int, e: Env)
    | AutoRotate(start: Env, envs: seq<Env>)
    | RotateKek(k: NewKek, e: Env)

  datatype State = State(c: Context, t: Tables)

  /** The tables a command leaves, or None when it failed and left them alone. */
  function Outcome(s: State, cmd: Command): Option<Tables> {
    match cmd
    case Put(name, plain, algorithm, ttl, e) => PutOutcome(s.c, s.t, name, plain, algorithm, ttl, e)
    case Get(name, capacity, e) =>
      var r := GetOutcome(s.c, s.t, name, capacity, e);
      if r.Some? then Some(r.value.0) else None
    case GetVersion(name, version, capacity, e) =>
      var r := GetVersionOutcome(s.c, s.t, name, version, capacity, e);
      if r.Some? then Some(r.value.0) else None
    case Delete(name, e) => DeleteOutcome(s.c, s.t, name, e)
    case Rollback(name, version, e) => RollbackOutcome(s.c, s.t, name, version, e)
    case AutoRotate(start, envs) =>
      if Auto.Captures(start) then Some(Auto.AutoRotate(s.c, s.t, start.now, envs).0) else None
    case RotateKek(k, e) => RotateKekOutcome(s.c, s.t, k, e)
  }

  function Step(s: State, cmd: Command): State {
    var r := Outcome(s, cmd);
    if r.None? then s else State(if cmd.RotateKek? then RotatedContext(s.c, cmd.k) else s.c, r.value)
  }

  /** The changes the turns of one auto-rotation commit. */
  function TurnChanges(c: Context, t: Tables, captured: nat, envs: seq<Env>): seq<Change>
    decreases |envs|
  {
    var next := Auto.NextExpired(t.secrets, captured);
    if envs == [] || !envs[0].ok(FindNext) || next.None? then []
    else
      var r := RotateExpiredOutcome(c, t, next.value, envs[0]);
      if r.None? then []
      else (if r.value == t then [] else [Copied(next.value, |History(t.secrets, next.value)|)])
           + TurnChanges(c, r.value, captured, envs[1..])
  }

  /** What a command did, told in terms of the simple vault. */
  function Changes(s: State, cmd: Command): seq<Change> {
    if Outcome(s, cmd).None? then []
    else
      match cmd
      case Put(name, plain, algorithm, ttl, _) =>
        if SelectAlgorithm(s.c.pf, algorithm).Success? then [PutChange(s.c, name, plain, algorithm, ttl)] else []
      case Delete(name, _) => [Removed(StoredName(s.c.p, s.c.keys.meta, name))]
      case Rollback(name, version, _) =>
        if version >= 0 then [Copied(StoredName(s.c.p, s.c.keys.meta, name), version)] else []
      case AutoRotate(start, envs) => TurnChanges(s.c, s.t, start.now, envs)
      case _ => []
  }

  function Run(s: State, cmds: seq<Command>): State {
    if cmds == [] then s else Step(Run(s, cmds[..|cmds| - 1]), cmds[|cmds| - 1])
  }

  function RunChanges(s: State, cmds: seq<Command>): seq<Change> {
    if cmds == [] then []
    else RunChanges(s, cmds[..|cmds| - 1]) + Changes(Run(s, cmds[..|cmds| - 1]), cmds[|cmds| - 1])
  }

  // ---------------------------------------------------------------- the simple vault alone

  lemma {:induction false} ApplyAllConcat(shelf: Shelf, a: seq<Change>, b: seq<Change>, name: Bytes)
    ensures ApplyAll(shelf, a + b, name) == ApplyAll(ApplyAll(shelf, a, name), b, name)
  {
    if b == [] {
      assert a + b == a;
    } else {
      assert (a + b)[..|a + b| - 1] == a + b[..|b| - 1];
      ApplyAllConcat(shelf, a, b[..|b| - 1], name);
    }
  }

  /** The simple vault never loses or alters a version. */
  lemma {:induction false} ShelvesAreAppendOnly(shelf: Shelf, changes: seq<Change>, name: Bytes)
    ensures shelf.versions <= ApplyAll(shelf, changes, name).versions
  {
    if changes != [] {
      ShelvesAreAppendOnly(shelf, changes[..|changes| - 1], name);
    }
  }

  // ---------------------------------------------------------------- one command

  /** The shelves moved by exactly these changes. */
  ghost predicate Moved(s: State, changes: seq<Change>, s': State) {
    forall name :: ShelfOf(s'.c, s'.t.secrets, name) == ApplyAll(ShelfOf(s.c, s.t.secrets, name), changes, name)
  }

  lemma {:induction false} ChangedIsMoved(c: Context, t: Tables, t': Tables, change: Change)
    requires Changed(c, t, t', change)
    ensures Moved(State(c, t), [change], State(c, t'))
  {
    forall name
      ensures ShelfOf(c, t'.secrets, name) == ApplyAll(ShelfOf(c, t.secrets, name), [change], name)
    {
      var shelf := ShelfOf(c, t.secrets, name);
      assert ApplyAll(shelf, [change][..0], name) == shelf;
    }
  }

  lemma {:induction false} SameSecretsMoveNothing(c: Context, t: Tables, t': Tables)
    requires t'.secrets == t.secrets
    ensures Moved(State(c, t), [], State(c, t'))
  {
  }

  lemma {:induction false} MovedChain(s: State, a: seq<Change>, s1: State, b: seq<Change>, s2: State)
    requires Moved(s, a, s1) && Moved(s1, b, s2)
    ensures Moved(s, a + b, s2)
  {
    forall name
      ensures ShelfOf(s2.c, s2.t.secrets, name) == ApplyAll(ShelfOf(s.c, s.t.secrets, name), a + b, name)
    {
      ApplyAllConcat(ShelfOf(s.c, s.t.secrets, name), a, b, name);
    }
  }

  lemma {:induction false} TurnMoves(c: Context, t: Tables, name: Bytes, e: Env, t1: Tables)
    requires AeadCorrect(c.p) && Inv(c, t) && RotateExpiredOutcome(c, t, name, e) == Some(t1)
    ensures Inv(c, t1)
    ensures Moved(State(c, t), if t1 == t then [] else [Copied(name, |History(t.secrets, name)|)], State(c, t1))
  {
    RotateCopies(c, t, name, e, t1);
    if t1 == t {
      SameSecretsMoveNothing(c, t, t1);
    } else {
      ChangedIsMoved(c, t, t1, Copied(name, |History(t.secrets, name)|));
    }
  }

  lemma {:induction false} TurnsMove(c: Context, t: Tables, captured: nat, envs: seq<Env>)
    requires AeadCorrect(c.p) && Inv(c, t)
    ensures var t' := Auto.AutoRotate(c, t, captured, envs).0;
      Inv(c, t') && Moved(State(c, t), TurnChanges(c, t, captured, envs), State(c, t'))
    decreases |envs|
  {
    var next := Auto.NextExpired(t.secrets, captured);
    if envs == [] || !envs[0].ok(FindNext) || next.None? || RotateExpiredOutcome(c, t, next.value, envs[0]).None? {
      SameSecretsMoveNothing(c, t, t);
    } else {
      MoreTurnsMove(c, t, captured, envs, next.value, RotateExpiredOutcome(c, t, next.value, envs[0]).value);
      Auto.OneTurn(c, t, captured, envs, next.value, RotateExpiredOutcome(c, t, next.value, envs[0]).value);
    }
  }

  lemma {:induction false} MoreTurnsMove(c: Context, t: Tables, captured: nat, envs: seq<Env>, name: Bytes, t1: Tables)
    requires AeadCorrect(c.p) && Inv(c, t) && envs != [] && envs[0].ok(FindNext)
    requires Auto.NextExpired(t.secrets, captured) == Some(name)
    requires RotateExpiredOutcome(c, t, name, envs[0]) == Some(t1)
    ensures var t' := Auto.AutoRotate(c, t1, captured, envs[1..]).0;
      Inv(c, t') && Moved(State(c, t), TurnChanges(c, t, captured, envs), State(c, t'))
    decreases |envs|, 0
  {
    TurnMoves(c, t, name, envs[0], t1);
    TurnsMove(c, t1, captured, envs[1..]);
    MovedChain(State(c, t), if t1 == t then [] else [Copied(name, |History(t.secrets, name)|)], State(c, t1),
               TurnChanges(c, t1, captured, envs[1..]), State(c, Auto.AutoRotate(c, t1, captured, envs[1..]).0));
  }

  lemma {:induction false} ReadMoves(s: State, cmd: Command, t': Tables)
    requires AeadCorrect(s.c.p) && Inv(s.c, s.t) && (cmd.Get? || cmd.GetVersion?) && Outcome(s, cmd) == Some(t')
    ensures Inv(s.c, t') && Moved(s, [], State(s.c, t'))
  {
    if cmd.Get? {
      GetReturnsActive(s.c, s.t, cmd.name, cmd.capacity, cmd.e);
    } else {
      GetVersionReturnsVth(s.c, s.t, cmd.name, cmd.version, cmd.capacity, cmd.e);
    }
    SameSecretsMoveNothing(s.c, s.t, t');
  }

  lemma {:induction false} WriteMoves(s: State, cmd: Command, t': Tables)
    requires AeadCorrect(s.c.p) && Inv(s.c, s.t) && (cmd.Put? || cmd.Delete? || cmd.Rollback?)
    requires Outcome(s, cmd) == Some(t')
    ensures Inv(s.c, t') && Moved(s, Changes(s, cmd), State(s.c, t'))
  {
    match cmd
    case Put(name, plain, algorithm, ttl, e) =>
      PutAdds(s.c, s.t, name, plain, algorithm, ttl, e, t');
      ChangedIsMoved(s.c, s.t, t', PutChange(s.c, name, plain, algorithm, ttl));
    case Delete(name, e) =>
      DeleteRemoves(s.c, s.t, name, e, t');
      ChangedIsMoved(s.c, s.t, t', Removed(StoredName(s.c.p, s.c.keys.meta, name)));
    case Rollback(name, version, e) =>
      RollbackCopies(s.c, s.t, name, version, e, t');
      ChangedIsMoved(s.c, s.t, t', Copied(StoredName(s.c.p, s.c.keys.meta, name), version));
  }

  lemma {:induction false} KekMoves(s: State, k: NewKek, e: Env, t': Tables)
    requires AeadCorrect(s.c.p) && Inv(s.c, s.t) && RotateKekOutcome(s.c, s.t, k, e) == Some(t')
    ensures Inv(RotatedContext(s.c, k), t') && Moved(s, [], State(RotatedContext(s.c, k), t'))
  {
    KekRotation.RotateKekKeeps(s.c, s.t, k, e, t');
  }

  /** Every command, whether it succeeds or fails, keeps the invariant and
      moves the shelves by exactly the changes it stands for. */
  lemma {:induction false} StepRefines(s: State, cmd: Command)
    requires AeadCorrect(s.c.p) && Inv(s.c, s.t)
    ensures Inv(Step(s, cmd).c, Step(s, cmd).t) && Moved(s, Changes(s, cmd), Step(s, cmd))
    ensures Step(s, cmd).c.p == s.c.p && Step(s, cmd).c.pf == s.c.pf && Step(s, cmd).c.keys.meta == s.c.keys.meta
  {
    var r := Outcome(s, cmd);
    if r.None? {
      SameSecretsMoveNothing(s.c, s.t, s.t);
    } else if cmd.Get? || cmd.GetVersion? {
      ReadMoves(s, cmd, r.value);
    } else if cmd.AutoRotate? {
      TurnsMove(s.c, s.t, cmd.start.now, cmd.envs);
    } else if cmd.RotateKek? {
      KekMoves(s, cmd.k, cmd.e, r.value);
    } else {
      WriteMoves(s, cmd, r.value);
    }
  }

  // ---------------------------------------------------------------- every run

  /** A newly initialised, unlocked vault. */
  predicate Fresh(s: State) {
    s.t.secrets == [] && s.t.log == [] && LoadMetaKey(s.c.p, s.t.metadata, s.c.keys.enc) == Success(s.c.keys.meta)
  }

  lemma {:induction false} FreshInv(s: State)
    requires Fresh(s)
    ensures Inv(s.c, s.t) && forall name :: ShelfOf(s.c, s.t.secrets, name) == EMPTY_SHELF
  {
    forall name
      ensures LogTells(s.t.log, s.t.secrets, name) && ShelfOf(s.c, s.t.secrets, name) == EMPTY_SHELF
    {
      assert Contents(s.c, []) == [];
    }
  }

  lemma {:induction false} RunRefines(s: State, cmds: seq<Command>)
    requires AeadCorrect(s.c.p) && Inv(s.c, s.t)
    ensures var s' := Run(s, cmds);
      Inv(s'.c, s'.t) && s'.c.p == s.c.p && s'.c.pf == s.c.pf && s'.c.keys.meta == s.c.keys.meta
    ensures Moved(s, RunChanges(s, cmds), Run(s, cmds))
  {
    if cmds == [] {
      SameSecretsMoveNothing(s.c, s.t, s.t);
    } else {
      var init, last := cmds[..|cmds| - 1], cmds[|cmds| - 1];
      RunRefines(s, init);
      StepRefines(Run(s, init), last);
      MovedChain(s, RunChanges(s, init), Run(s, init), Changes(Run(s, init), last), Run(s, cmds));
    }
  }

  /** The refinement theorem: after any run from a fresh vault, every name's
      shelf is what the simple vault computes from the run's changes alone. */
  lemma {:induction false} VaultRefinesShelves(s: State, cmds: seq<Command>, name: Bytes)
    requires AeadCorrect(s.c.p) && Fresh(s)
    ensures var s' := Run(s, cmds);
      Inv(s'.c, s'.t) && ShelfOf(s'.c, s'.t.secrets, name) == ApplyAll(EMPTY_SHELF, RunChanges(s, cmds), name)
  {
    FreshInv(s);
    RunRefines(s, cmds);
  }

  /** A version once stored is returned forever: whatever commands follow,
      KEK rotations included, a successful get_version(v) gives the plaintext
      that was v-th at the earlier point. */
  lemma {:induction false} VersionsAreForever(s: State, cmds: seq<Command>, more: seq<Command>, name: Bytes,
                                              version: int, capacity: nat, e: Env)
    requires AeadCorrect(s.c.p) && Fresh(s)
    requires var s1 := Run(s, cmds);
      1 <= version <= |ShelfOf(s1.c, s1.t.secrets, StoredName(s.c.p, s.c.keys.meta, name)).versions|
    ensures var s1, s2 := Run(s, cmds), Run(Run(s, cmds), more);
      var r := GetVersionOutcome(s2.c, s2.t, name, version, capacity, e);
      r.Some? ==>
        r.value.1 == ShelfOf(s1.c, s1.t.secrets, StoredName(s.c.p, s.c.keys.meta, name)).versions[version - 1].plain
  {
    var s1 := Run(s, cmds);
    var s2 := Run(s1, more);
    var stored := StoredName(s.c.p, s.c.keys.meta, name);
    FreshInv(s);
    RunRefines(s, cmds);
    RunRefines(s1, more);
    ShelvesAreAppendOnly(ShelfOf(s1.c, s1.t.secrets, stored), RunChanges(s1, more), stored);
    GetVersionReturnsVth(s2.c, s2.t, name, version, capacity, e);
  }

  /** Replaying the audit log of any run gives each name's exact highest
      version and whether it is active, and every logged step fits the ones
      before it. */
  lemma {:induction false} LogReconstructsTable(s: State, cmds: seq<Command>, name: Bytes)
    requires AeadCorrect(s.c.p) && Fresh(s)
    ensures var s' := Run(s, cmds);
      HistoryFits(s'.t.log, name) &&
      Replay(s'.t.log, name) == Life(MaxVersion(s'.t.secrets, name), FindActive(s'.t.secrets, name).Some?)
  {
    VaultRefinesShelves(s, cmds, name);
    var s' := Run(s, cmds);
    Queries(s'.t.secrets, name);
    assert LogTells(s'.t.log, s'.t.secrets, name);
  }
}
