/** The audit of employer and employee states: it compares the newest rows with the contract at the audited block
    (reconcileContractStatesAtBlock in reconciliation/balance_worker.go, with persistence/payroll.go). */
module StateAudit {
  import opened Evm
  import opened Words
  import opened PayrollTables
  import B = BalanceReconciler
  import R = EntityRefs
  import P = PayrollProjection
  import W = PayrollWorkers

  // ---- What decides a state --------------------------------------------------------------------------------------

  datatype Subject = AnEmployer(wallet: Address) | AnEmployee(wallet: Address)

  /** The state a log gives to a subject; a removed log changes nothing. */
  function Change(log: Log, s: Subject): Option<bool> {
    if log.removed then None
    else
      match (log.event, s)
      case (Some(EmployerAdded(w)), AnEmployer(x)) => if w == x then Some(true) else None
      case (Some(EmployerRemoved(w)), AnEmployer(x)) => if w == x then Some(false) else None
      case (Some(EmployeeAdded(e, _, _, _)), AnEmployee(x)) => if e == x then Some(true) else None
      case (Some(EmployeeRemoved(e, _)), AnEmployee(x)) => if e == x then Some(false) else None
      case _ => None
  }

  /** The last state that a list of logs gives to a subject. */
  function LastChange(logs: seq<Log>, s: Subject): Option<bool> {
    if logs == [] then None
    else
      var later := LastChange(logs[1..], s);
      if later.Some? then later else Change(logs[0], s)
  }

  predicate IsStored(db: Tables, s: Subject) {
    match s
    case AnEmployer(w) => w in db.employers
    case AnEmployee(e) => e in db.employees
  }

  predicate ActiveRow(db: Tables, s: Subject)
    requires IsStored(db, s)
  {
    match s
    case AnEmployer(w) => db.employers[w].active
    case AnEmployee(e) => db.employees[e].active
  }

  // ---- What a projection stores ----------------------------------------------------------------------------------

  function StatementChange(st: Statement, s: Subject): Option<bool> {
    match (st, s)
    case (UpsertEmployerAdded(w, _, _), AnEmployer(x)) => if w == x then Some(true) else None
    case (UpsertEmployerRemoved(w, _, _), AnEmployer(x)) => if w == x then Some(false) else None
    case (UpsertEmployeeAdded(e, _, _, _, _, _), AnEmployee(x)) => if e == x then Some(true) else None
    case (UpsertEmployeeRemoved(e, _, _, _), AnEmployee(x)) => if e == x then Some(false) else None
    case _ => None
  }

  function LastStatement(sts: seq<Statement>, s: Subject): Option<bool> {
    if sts == [] then None
    else
      var later := LastStatement(sts[1..], s);
      if later.Some? then later else StatementChange(sts[0], s)
  }

  /** after follows db by writes whose last state is change; rows that are created on the side are active. */
  ghost predicate Follows(db: Tables, after: Tables, s: Subject, change: Option<bool>) {
    && (change.Some? ==> IsStored(after, s) && ActiveRow(after, s) == change.value)
    && (change.None? && IsStored(db, s) ==> IsStored(after, s) && ActiveRow(after, s) == ActiveRow(db, s))
    && (change.None? && !IsStored(db, s) && IsStored(after, s) ==> ActiveRow(after, s))
  }

  lemma EffectFollows(db: Tables, st: Statement, s: Subject)
    ensures Follows(db, Effect(db, st), s, StatementChange(st, s))
  {
    hide Follows, Effect, StatementChange;
    if s.AnEmployer? {
      EffectOnEmployer(db, st, s);
    } else {
      EffectOnEmployee(db, st, s);
    }
  }

  lemma EffectOnEmployer(db: Tables, st: Statement, s: Subject)
    requires s.AnEmployer?
    ensures Follows(db, Effect(db, st), s, StatementChange(st, s))
  {
  }

  lemma EffectOnEmployee(db: Tables, st: Statement, s: Subject)
    requires s.AnEmployee?
    ensures Follows(db, Effect(db, st), s, StatementChange(st, s))
  {
  }

  lemma FollowsTwice(a: Tables, b: Tables, c: Tables, s: Subject, first: Option<bool>, second: Option<bool>)
    requires Follows(a, b, s, first) && Follows(b, c, s, second)
    ensures Follows(a, c, s, if second.Some? then second else first)
  {
  }

  lemma {:induction false} RunFollows(db: Tables, sts: seq<Statement>, s: Subject)
    ensures Follows(db, Run(db, sts), s, LastStatement(sts, s))
    decreases |sts|
  {
    hide Follows, Effect, StatementChange;
    if sts == [] {
      FollowsItself(db, s);
    } else {
      EffectFollows(db, sts[0], s);
      RunFollows(Effect(db, sts[0]), sts[1..], s);
      FollowsTwice(db, Effect(db, sts[0]), Run(db, sts), s, StatementChange(sts[0], s), LastStatement(sts[1..], s));
    }
  }

  lemma FollowsItself(db: Tables, s: Subject)
    ensures Follows(db, db, s, None)
  {
  }

  lemma {:induction false} LastStatementConcat(a: seq<Statement>, b: seq<Statement>, s: Subject)
    ensures LastStatement(a + b, s) == if LastStatement(b, s).Some? then LastStatement(b, s) else LastStatement(a, s)
  {
    hide StatementChange;
    if a == [] {
      assert a + b == b;
    } else {
      assert (a + b)[1..] == a[1..] + b;
      LastStatementConcat(a[1..], b, s);
    }
  }

  lemma {:induction false} NoChanges(sts: seq<Statement>, s: Subject)
    requires forall i :: 0 <= i < |sts| ==> StatementChange(sts[i], s) == None
    ensures LastStatement(sts, s) == None
  {
    if sts != [] {
      NoChanges(sts[1..], s);
    }
  }

  /** The statements of a log give the state that the log gives. */
  lemma ProgramChanges(log: Log, s: Subject)
    requires log.event.Some?
    ensures LastStatement(Program(log), s) == Change(log, s)
  {
    var p, e := Program(log), log.event.value;
    var last := p[|p| - 1];
    if Change(log, s).Some? {
      assert p == p[..|p| - 1] + [last];
      LastStatementConcat(p[..|p| - 1], [last], s);
      assert [last][1..] == [];
    } else {
      NoChanges(p, s);
    }
  }

  lemma {:induction false} ProgramsChange(logs: seq<Log>, s: Subject)
    requires Decodable(logs)
    ensures LastStatement(Programs(logs), s) == LastChange(logs, s)
  {
    hide Program, Change, StatementChange;
    if logs != [] {
      ProgramsChange(logs[1..], s);
      ProgramChanges(logs[0], s);
      LastStatementConcat(Program(logs[0]), Programs(logs[1..]), s);
    }
  }

  /** In a clean projection a stored row is inactive exactly when the last log that decides its state removed the subject; a
      row that no log decided, created for a foreign key or for a claim, is active. */
  lemma ProjectedState(logs: seq<Log>, s: Subject)
    requires Decodable(logs) && IsStored(Run(EMPTY, Programs(logs)), s)
    ensures ActiveRow(Run(EMPTY, Programs(logs)), s) <==> LastChange(logs, s) != Some(false)
  {
    hide Run, Programs, LastStatement, LastChange;
    RunFollows(EMPTY, Programs(logs), s);
    ProgramsChange(logs, s);
  }

  // ---- The audit -------------------------------------------------------------------------------------------------

  function PropertyOf(s: Subject): R.Property {
    match s
    case AnEmployer(_) => R.EmployerActive
    case AnEmployee(_) => R.EmployeeActive
  }

  /** The contract after a block: whoever was last added is active. */
  predicate ActiveAt(logs: seq<Log>, s: Subject, block: nat) {
    LastChange(InRange(logs, 0, block), s) == Some(true)
  }

  ghost predicate Contract(active: Address -> Result<bool>, logs: seq<Log>, s: Subject, block: nat) {
    active(s.wallet) == Ok(ActiveAt(logs, s, block))
  }

  /** The row of a subject in the clean projection of the blocks from start to indexed. */
  ghost predicate CleanRow(logs: seq<Log>, start: nat, indexed: nat, s: Subject, active: bool) {
    var clean := Run(EMPTY, Programs(InRange(logs, start, indexed)));
    Decodable(InRange(logs, start, indexed)) && IsStored(clean, s) && active == ActiveRow(clean, s)
  }

  /** The state check of a faithfully indexed row, at any audited block: the two sides agree exactly when the row, inactive
      after a removal and active otherwise, says what the last log up to the audited block says. */
  lemma StateCheckMatchesExactlyWhen(cfg: B.Config, logs: seq<Log>, start: nat, indexed: nat, audited: nat, s: Subject, row: bool,
                                     active: Address -> Result<bool>)
    requires CleanRow(logs, start, indexed, s, row) && Contract(active, logs, s, audited)
    ensures B.StateCheck(cfg, PropertyOf(s), B.StateRow(s.wallet, row), active).matches
            <==> ((LastChange(InRange(logs, start, indexed), s) != Some(false)) <==> (LastChange(InRange(logs, 0, audited), s) == Some(true)))
  {
    hide Run, Programs, LastChange;
    ProjectedState(InRange(logs, start, indexed), s);
  }

  /** No log decides the subject's state in blocks lo + 1 to hi. */
  ghost predicate Quiet(logs: seq<Log>, s: Subject, lo: int, hi: int) {
    forall l :: l in logs && lo < l.block <= hi ==> Change(l, s) == None
  }

  lemma {:induction false} LastChangeConcat(a: seq<Log>, b: seq<Log>, s: Subject)
    ensures LastChange(a + b, s) == if LastChange(b, s).Some? then LastChange(b, s) else LastChange(a, s)
  {
    hide Change;
    if a == [] {
      assert a + b == b;
    } else {
      assert (a + b)[1..] == a[1..] + b;
      LastChangeConcat(a[1..], b, s);
    }
  }

  lemma {:induction false} QuietLogs(logs: seq<Log>, s: Subject)
    requires forall l :: l in logs ==> Change(l, s) == None
    ensures LastChange(logs, s) == None
  {
    if logs != [] {
      QuietLogs(logs[1..], s);
    }
  }

  /** Extending a window over quiet blocks changes no state. */
  lemma QuietWindow(logs: seq<Log>, s: Subject, start: nat, lo: nat, hi: nat)
    requires SortedByBlock(logs) && start <= lo + 1 && lo <= hi && Quiet(logs, s, lo, hi)
    ensures LastChange(InRange(logs, start, hi), s) == LastChange(InRange(logs, start, lo), s)
  {
    hide Change, LastChange, InRange;
    InRangeSplit(logs, start, lo, hi);
    InRangeMembers(logs, lo + 1, hi);
    QuietLogs(InRange(logs, lo + 1, hi), s);
    LastChangeConcat(InRange(logs, start, lo), InRange(logs, lo + 1, hi), s);
  }

  lemma NothingBefore(logs: seq<Log>, start: nat, block: nat)
    requires SortedByBlock(logs) && (forall l :: l in logs ==> start <= l.block)
    ensures InRange(logs, 0, block) == if start <= block then InRange(logs, start, block) else []
  {
    if start <= block {
      InRangeSplit(logs, 0, start - 1, block);
      InRangeNone(logs, 0, start - 1);
    } else {
      InRangeNone(logs, 0, block);
    }
  }

  lemma TwoStates(a: Option<bool>)
    ensures a == None || a == Some(true) || a == Some(false)
  {
    match a
    case None =>
    case Some(active) => assert active == true || active == false;
  }

  /** What a caller can check: if no log between the audited and the indexed block decides the subject's state, the audit is
      right exactly for the subjects that some log up to the audited block added or removed. */
  lemma QuietAuditIsRightExactlyWhen(cfg: B.Config, logs: seq<Log>, start: nat, indexed: nat, audited: nat, s: Subject, row: bool,
                                     active: Address -> Result<bool>)
    requires CleanRow(logs, start, indexed, s, row) && Contract(active, logs, s, audited)
    requires SortedByBlock(logs) && (forall l :: l in logs ==> start <= l.block) && start <= audited && start <= indexed
    requires Quiet(logs, s, Min(audited, indexed), if audited <= indexed then indexed else audited)
    ensures B.StateCheck(cfg, PropertyOf(s), B.StateRow(s.wallet, row), active).matches <==> LastChange(InRange(logs, 0, audited), s) != None
  {
    hide Run, Programs, LastChange, InRange, CleanRow, Contract, B.StateCheck, Quiet;
    StateCheckMatchesExactlyWhen(cfg, logs, start, indexed, audited, s, row, active);
    NothingBefore(logs, start, audited);
    TwoStates(LastChange(InRange(logs, 0, audited), s));
    if audited <= indexed {
      QuietWindow(logs, s, start, audited, indexed);
    } else {
      QuietWindow(logs, s, start, indexed, audited);
    }
  }

  /** For a subject that logs added or removed on both sides, the audit is right exactly when the last of them up to the
      indexed block has the same kind as the last one up to the audited block: every reversal in between is a false alarm. */
  lemma StateAuditIsRightExactlyWhenUnchanged(cfg: B.Config, logs: seq<Log>, start: nat, indexed: nat, audited: nat, s: Subject,
                                              row: bool, active: Address -> Result<bool>)
    requires CleanRow(logs, start, indexed, s, row) && Contract(active, logs, s, audited)
    requires LastChange(InRange(logs, start, indexed), s).Some? && LastChange(InRange(logs, 0, audited), s).Some?
    ensures B.StateCheck(cfg, PropertyOf(s), B.StateRow(s.wallet, row), active).matches
            <==> LastChange(InRange(logs, start, indexed), s) == LastChange(InRange(logs, 0, audited), s)
  {
    hide Run, Programs, LastChange, InRange, CleanRow, Contract, B.StateCheck;
    StateCheckMatchesExactlyWhen(cfg, logs, start, indexed, audited, s, row, active);
    TwoStates(LastChange(InRange(logs, start, indexed), s));
    TwoStates(LastChange(InRange(logs, 0, audited), s));
  }

  // ---- On top of the payroll indexer -----------------------------------------------------------------------------

  /** A single payroll worker that has caught up, in spite of any interruptions: the audit of each of its rows at any block
      agrees with the contract exactly when the two states do. */
  lemma SoloStateAudit(cfg: B.Config, setting: W.Setting, steps: seq<W.Step>, audited: nat, s: Subject, active: Address -> Result<bool>)
    requires SortedByBlock(setting.logs) && W.UniqueKeys(setting.logs) && P.RunSwallowsNothing(W.Fresh(1), setting, steps)
    requires P.CaughtUp(W.PerformAll(W.Fresh(1), setting, steps)) && Contract(active, setting.logs, s, audited)
    requires IsStored(W.PerformAll(W.Fresh(1), setting, steps).db, s)
    ensures var end := W.PerformAll(W.Fresh(1), setting, steps);
            B.StateCheck(cfg, PropertyOf(s), B.StateRow(s.wallet, ActiveRow(end.db, s)), active).matches
            <==> ((LastChange(InRange(setting.logs, setting.start, end.safe), s) != Some(false))
                  <==> (LastChange(InRange(setting.logs, 0, audited), s) == Some(true)))
  {
    hide W.PerformAll, Run, Programs, LastChange, InRange, Contract, B.StateCheck;
    var end := W.PerformAll(W.Fresh(1), setting, steps);
    P.SoloTablesAreClean(setting, steps);
    StateCheckMatchesExactlyWhen(cfg, setting.logs, setting.start, end.safe, audited, s, ActiveRow(end.db, s), active);
  }

  /** A subject is added in a block and removed in the next one. */
  function ReversedAfter(block: nat, employer: Address): W.Setting {
    var receipt := Receipt(block, employer, None, 0, true);
    W.Setting([Log(LogKey(Hash([]), 0), block, 0, receipt, false, Some(EmployerAdded(employer))),
               Log(LogKey(Hash([0]), 0), block + 1, 0, receipt, false, Some(EmployerRemoved(employer)))], block)
  }

  lemma ReversedAfterChanges(block: nat, employer: Address)
    ensures var (logs, s) := (ReversedAfter(block, employer).logs, AnEmployer(employer));
            && InRange(logs, block, block + 1) == logs && LastChange(logs, s) == Some(false)
            && LastChange(InRange(logs, 0, block), s) == Some(true)
  {
    var logs := ReversedAfter(block, employer).logs;
    var (s, rest) := (AnEmployer(employer), logs[1..]);
    assert rest[1..] == [] && rest == [logs[1]];
    InRangeCons(rest, block, block + 1);
    InRangeCons(logs, block, block + 1);
    InRangeCons(rest, 0, block);
    InRangeCons(logs, 0, block);
    assert [logs[0]][1..] == [];
    assert LastChange(rest, s) == Some(false);
  }

  /** Rows run ahead of the audited block: whatever block an audit chooses, there are an event history and a run without any
      failure after which the audit of a correctly indexed row is a mismatch. */
  lemma EveryTargetCanRaiseFalseAlarm(cfg: B.Config, latest: uint64, checkpoint: Option<uint64>, requested: uint64, employer: Address)
    returns (setting: W.Setting, steps: seq<W.Step>)
    requires B.TargetBlock(latest, cfg.depth, checkpoint, cfg.startBlock, requested).Some?
    ensures var end := W.PerformAll(W.Fresh(1), setting, steps);
            var target := B.TargetBlock(latest, cfg.depth, checkpoint, cfg.startBlock, requested).value;
            && P.Flawless(steps) && P.CaughtUp(end) && end.db == P.Clean(setting, end.safe) && IsStored(end.db, AnEmployer(employer))
            && forall active :: Contract(active, setting.logs, AnEmployer(employer), target) ==>
                 !B.StateCheck(cfg, R.EmployerActive, B.StateRow(employer, ActiveRow(end.db, AnEmployer(employer))), active).matches
  {
    hide W.PerformAll, Run, Programs, LastChange, InRange, B.StateCheck, B.TargetBlock, Follows;
    var target: nat := B.TargetBlock(latest, cfg.depth, checkpoint, cfg.startBlock, requested).value;
    var s := AnEmployer(employer);
    setting := ReversedAfter(target, employer);
    var end := W.System(P.Clean(setting, target + 1), Some(target + 1), target + 1, [W.Between(target + 2)]);
    ReversedAfterChanges(target, employer);
    P.SoloReachesHead(setting, target + 1);
    steps := P.StepsTo(W.Fresh(1), setting, end);
    P.FlawlessSwallowsNothing(W.Fresh(1), setting, steps);
    DecidedIsStored(setting.logs, s);
    forall active | Contract(active, setting.logs, s, target)
      ensures !B.StateCheck(cfg, R.EmployerActive, B.StateRow(employer, ActiveRow(end.db, s)), active).matches
    {
      SoloStateAudit(cfg, setting, steps, target, s, active);
    }
  }

  /** A subject that some log added or removed has a row. */
  lemma DecidedIsStored(logs: seq<Log>, s: Subject)
    requires Decodable(logs) && LastChange(logs, s).Some?
    ensures IsStored(Run(EMPTY, Programs(logs)), s)
  {
    hide Run, Programs, LastStatement, LastChange;
    RunFollows(EMPTY, Programs(logs), s);
    ProgramsChange(logs, s);
  }
}
