/** Any number of payroll indexers sharing one database and one checkpoint, interleaved statement by statement, with
    failures at any point (indexer.go, live_monitor.go). */
module PayrollWorkers {
  import opened Evm
  import opened Words
  import opened PayrollTables
  import R = ReplayConvergence

  // ---- The state machine -----------------------------------------------------------------------------

  /** A worker inside a batch is about to run statement pc of the log at position pos of [from, to]; known is the answer
      of its last existence check and lost records that an ignored error occurred while handling the current log. */
  datatype Worker =
    | Idle
    | Working(from: nat, to: nat, pos: nat, pc: nat, known: bool, lost: bool)
    | Between(next: nat)

  datatype System = System(db: Tables, checkpoint: Option<nat>, safe: nat, workers: seq<Worker>)

  /** The frozen log history and the configured start block. */
  datatype Setting = Setting(logs: seq<Log>, start: nat)

  datatype Step =
    | Advance(safe: nat)          // the safe head moves
    | Begin(w: nat, to: nat)      // read the checkpoint, choose a first window
    | Next(w: nat, to: nat)       // choose the following window
    | Exec(w: nat)                // run the next statement
    | Fail(w: nat)                // the next statement fails; some errors are ignored, the others end the attempt
    | Save(w: nat)                // save the checkpoint of a finished window
    | Retry(w: nat)               // the attempt fails and the window is tried again from its first log
    | Stop(w: nat)                // the attempt fails for good, or the process dies

  function EffectiveStart(checkpoint: Option<nat>, start: nat): nat {
    if checkpoint.Some? then checkpoint.value + 1 else start
  }

  /** A statement is pending when its log was decoded; an undecodable log stops the attempt. */
  predicate HasStatement(cfg: Setting, wk: Worker) {
    && wk.Working?
    && wk.pos < |InRange(cfg.logs, wk.from, wk.to)|
    && InRange(cfg.logs, wk.from, wk.to)[wk.pos].event.Some?
    && wk.pc < |Program(InRange(cfg.logs, wk.from, wk.to)[wk.pos])|
  }

  function CurrentLog(cfg: Setting, wk: Worker): Log
    requires HasStatement(cfg, wk)
  {
    InRange(cfg.logs, wk.from, wk.to)[wk.pos]
  }

  function CurrentStatement(cfg: Setting, wk: Worker): Statement
    requires HasStatement(cfg, wk)
  {
    Program(CurrentLog(cfg, wk))[wk.pc]
  }

  function Forward(cfg: Setting, wk: Worker, known: bool, lost: bool): Worker
    requires HasStatement(cfg, wk)
  {
    if wk.pc + 1 < |Program(CurrentLog(cfg, wk))| then wk.(pc := wk.pc + 1, known := known, lost := lost)
    else Working(wk.from, wk.to, wk.pos + 1, 0, false, false)
  }

  function WithWorker(s: System, w: nat, wk: Worker): System
    requires w < |s.workers|
  {
    s.(workers := s.workers[w := wk])
  }

  /** The next statement of worker w, which fails or not. */
  function StatementStep(s: System, cfg: Setting, w: nat, fails: bool): System
    requires w < |s.workers| && HasStatement(cfg, s.workers[w])
  {
    var wk := s.workers[w];
    var st := CurrentStatement(cfg, wk);
    match Handle(Session(s.db, wk.known), st, fails)
    case None => WithWorker(s, w, Idle)
    case Some(after) =>
      var clean := !fails && Allowed(s.db, st, wk.known);
      WithWorker(s.(db := after.db), w, Forward(cfg, wk, after.known, wk.lost || !clean))
  }

  /** A step that is not possible leaves the system as it is. */
  function Perform(s: System, cfg: Setting, step: Step): System {
    match step
    case Advance(safe) => if safe >= s.safe then s.(safe := safe) else s
    case Begin(w, to) =>
      var from := EffectiveStart(s.checkpoint, cfg.start);
      if w < |s.workers| && s.workers[w].Idle? && from <= to <= s.safe
      then WithWorker(s, w, Working(from, to, 0, 0, false, false)) else s
    case Next(w, to) =>
      if w < |s.workers| && s.workers[w].Between? && s.workers[w].next <= to <= s.safe
      then WithWorker(s, w, Working(s.workers[w].next, to, 0, 0, false, false)) else s
    case Exec(w) =>
      if w < |s.workers| && HasStatement(cfg, s.workers[w]) then StatementStep(s, cfg, w, false) else s
    case Fail(w) =>
      if w < |s.workers| && HasStatement(cfg, s.workers[w]) then StatementStep(s, cfg, w, true) else s
    case Save(w) =>
      if w < |s.workers| && s.workers[w].Working? && s.workers[w].pos == |InRange(cfg.logs, s.workers[w].from, s.workers[w].to)|
      then WithWorker(s.(checkpoint := Some(s.workers[w].to)), w, Between(s.workers[w].to + 1)) else s
    case Retry(w) =>
      if w < |s.workers| && s.workers[w].Working?
      then WithWorker(s, w, Working(s.workers[w].from, s.workers[w].to, 0, 0, false, false)) else s
    case Stop(w) => if w < |s.workers| then WithWorker(s, w, Idle) else s
  }

  function PerformAll(s: System, cfg: Setting, steps: seq<Step>): System
    decreases |steps|
  {
    if steps == [] then s else PerformAll(Perform(s, cfg, steps[0]), cfg, steps[1..])
  }

  function Fresh(n: nat): System {
    System(EMPTY, None, 0, seq(n, i => Idle))
  }

  ghost predicate Reachable(s: System, cfg: Setting) {
    exists n: nat, steps: seq<Step> :: PerformAll(Fresh(n), cfg, steps) == s
  }

  // ---- What the tables say about the chain ------------------------------------------------------------

  predicate UniqueKeys(logs: seq<Log>) {
    forall i, j :: 0 <= i < j < |logs| ==> logs[i].key != logs[j].key
  }

  lemma SameKeySameLog(logs: seq<Log>, a: Log, b: Log)
    requires UniqueKeys(logs) && a in logs && b in logs && a.key == b.key
    ensures a == b
  {
  }

  ghost predicate EventFrom(logs: seq<Log>, k: LogKey, row: EventRow) {
    exists l :: l in logs && l.key == k && l.event.Some? && row == EventOf(l, l.event.value)
  }

  ghost predicate FundingFrom(logs: seq<Log>, k: LogKey, row: FundingRow) {
    exists l :: l in logs && l.key == k && IsFunding(l) && row == FundingOf(l, l.event.value)
  }

  ghost predicate ClaimFrom(logs: seq<Log>, k: LogKey, row: ClaimRow) {
    exists l :: l in logs && l.key == k && IsClaim(l) && row == ClaimOf(l, l.event.value)
  }

  predicate IsFunding(l: Log) {
    !l.removed && l.event.Some? && l.event.value.PayrollFunded?
  }

  predicate IsClaim(l: Log) {
    !l.removed && l.event.Some? && l.event.value.SalaryClaimed?
  }

  /** Every stored row copies a log of the chain. */
  ghost predicate Genuine(db: Tables, logs: seq<Log>) {
    && (forall k :: k in db.events ==> EventFrom(logs, k, db.events[k]))
    && (forall k :: k in db.fundings ==> FundingFrom(logs, k, db.fundings[k]))
    && (forall k :: k in db.claims ==> ClaimFrom(logs, k, db.claims[k]))
  }

  /** The rows a log must leave behind are there. */
  ghost predicate Stored(db: Tables, log: Log) {
    && log.event.Some?
    && log.key.tx in db.transactions
    && log.key in db.events
    && (IsFunding(log) ==> log.key in db.fundings)
    && (IsClaim(log) ==> log.key in db.claims)
  }

  ghost predicate Covered(db: Tables, logs: seq<Log>, lo: int, hi: int) {
    forall l :: l in logs && lo <= l.block <= hi ==> Stored(db, l)
  }

  /** The declared foreign keys. */
  ghost predicate ForeignKeysHold(db: Tables) {
    && (forall e :: e in db.employees ==> db.employees[e].employer in db.employers)
    && (forall k :: k in db.fundings ==>
          db.fundings[k].employer in db.employers && db.fundings[k].employee in db.employees && k.tx in db.transactions)
    && (forall k :: k in db.claims ==> db.claims[k].employee in db.employees)
    && (forall k :: k in db.events ==> k.tx in db.transactions)
  }

  /** What the first pc statements of a log's program have established. */
  ghost predicate Established(db: Tables, log: Log, pc: nat, known: bool, lost: bool)
    requires log.event.Some?
  {
    var e := log.event.value;
    && (pc >= 1 ==> log.key.tx in db.transactions)
    && (pc >= 2 ==> log.key in db.events)
    && (!log.removed && (e.EmployeeAdded? || e.EmployeeRemoved? || e.PayrollFunded?) && pc >= 3 ==> e.employer in db.employers)
    && (!log.removed && e.PayrollFunded? && pc >= 4 ==> e.employee in db.employees)
    && (!log.removed && e.PayrollFunded? && pc >= 5 ==> log.key in db.fundings)
    && (!log.removed && e.SalaryClaimed? && pc >= 3 && known ==> e.employee in db.employees)
    && (!log.removed && e.SalaryClaimed? && pc >= 4 && !known && !lost ==> ZERO_ADDRESS in db.employers)
    && (!log.removed && e.SalaryClaimed? && pc >= 5 && !known && !lost ==> e.employee in db.employees)
    && (!log.removed && e.SalaryClaimed? && pc >= 6 ==> log.key in db.claims)
  }

  ghost predicate WorkerOk(db: Tables, safe: nat, cfg: Setting, wk: Worker) {
    match wk
    case Idle => true
    case Between(next) => cfg.start <= next <= safe + 1 && Covered(db, cfg.logs, cfg.start, next - 1)
    case Working(from, to, pos, pc, known, lost) =>
      var batch := InRange(cfg.logs, from, to);
      && cfg.start <= from <= to <= safe
      && Covered(db, cfg.logs, cfg.start, from - 1)
      && pos <= |batch|
      && (forall j :: 0 <= j < pos ==> Stored(db, batch[j]))
      && (pos < |batch| && batch[pos].event.Some? ==> Established(db, batch[pos], pc, known, lost))
  }

  ghost predicate CheckpointOk(db: Tables, checkpoint: Option<nat>, safe: nat, cfg: Setting) {
    checkpoint.Some? ==> cfg.start <= checkpoint.value <= safe && Covered(db, cfg.logs, cfg.start, checkpoint.value)
  }

  ghost predicate Inv(s: System, cfg: Setting) {
    && Genuine(s.db, cfg.logs)
    && ForeignKeysHold(s.db)
    && CheckpointOk(s.db, s.checkpoint, s.safe, cfg)
    && forall w :: 0 <= w < |s.workers| ==> WorkerOk(s.db, s.safe, cfg, s.workers[w])
  }

  // ---- One statement ------------------------------------------------------------------------------------

  lemma StatementKeepsForeignKeys(db: Tables, st: Statement, known: bool)
    requires ForeignKeysHold(db) && Allowed(db, st, known)
    ensures ForeignKeysHold(Write(db, st, known))
  {
  }

  lemma SavedEventIsGenuine(events: map<LogKey, EventRow>, logs: seq<Log>, log: Log)
    requires UniqueKeys(logs) && log in logs && log.event.Some?
    requires log.key in events ==> EventFrom(logs, log.key, events[log.key])
    ensures EventFrom(logs, log.key, EventAfterSave(Get(events, log.key), EventOf(log, log.event.value)))
  {
    assert EventFrom(logs, log.key, EventOf(log, log.event.value));
    if log.key in events {
      var l :| l in logs && l.key == log.key && l.event.Some? && events[log.key] == EventOf(l, l.event.value);
      SameKeySameLog(logs, l, log);
    }
  }

  /** The rows a program writes are those of its own log. */
  lemma StatementOf(log: Log, pc: nat)
    requires log.event.Some? && pc < |Program(log)|
    ensures var st := Program(log)[pc];
            && (st.SaveChainEvent? ==> st.key == log.key && st.event == EventOf(log, log.event.value))
            && (st.InsertFunding? ==> st.key == log.key && IsFunding(log) && st.funding == FundingOf(log, log.event.value))
            && (st.InsertClaim? ==> st.key == log.key && IsClaim(log) && st.claim == ClaimOf(log, log.event.value))
  {
  }

  lemma StatementKeepsGenuine(db: Tables, logs: seq<Log>, log: Log, pc: nat, known: bool)
    requires UniqueKeys(logs) && Genuine(db, logs) && log in logs && log.event.Some? && pc < |Program(log)|
    ensures Genuine(Write(db, Program(log)[pc], known), logs)
  {
    StatementOf(log, pc);
    if Program(log)[pc].SaveChainEvent? {
      SavedEventIsGenuine(db.events, logs, log);
    }
    WriteKeepsGenuine(db, logs, Program(log)[pc], known);
  }

  lemma WriteKeepsGenuine(db: Tables, logs: seq<Log>, st: Statement, known: bool)
    requires Genuine(db, logs)
    requires st.SaveChainEvent? ==> EventFrom(logs, st.key, EventAfterSave(Get(db.events, st.key), st.event))
    requires st.InsertFunding? ==> FundingFrom(logs, st.key, st.funding)
    requires st.InsertClaim? ==> ClaimFrom(logs, st.key, st.claim)
    ensures Genuine(Write(db, st, known), logs)
  {
  }

  /** A statement makes its own row present. */
  predicate Done(db: Tables, st: Statement, known: bool) {
    match st
    case SaveTransaction(tx, _) => tx in db.transactions
    case SaveChainEvent(key, _) => key in db.events
    case UpsertEmployerAdded(w, _, _) => w in db.employers
    case UpsertEmployerRemoved(w, _, _) => w in db.employers
    case EnsureEmployer(w, _, _) => w in db.employers
    case UpsertEmployeeAdded(e, _, _, _, _, _) => e in db.employees
    case UpsertEmployeeRemoved(e, _, _, _) => e in db.employees
    case EnsureEmployee(e, _, _, _) => e in db.employees
    case InsertFunding(key, _) => key in db.fundings
    case CheckEmployee(e) => known ==> e in db.employees
    case PlaceholderEmployer(_, _, _) => !known ==> ZERO_ADDRESS in db.employers
    case PlaceholderEmployee(e, _, _) => !known ==> e in db.employees
    case InsertClaim(key, _) => key in db.claims
    case UpdateWithdraw(_, _, _) => true
  }

  lemma StatementIsDone(s: Session, st: Statement)
    ensures Done(Execute(s, st).db, st, Execute(s, st).known)
    ensures R.Later(s.db, Execute(s, st).db)
    ensures !st.CheckEmployee? ==> Execute(s, st).known == s.known
  {
    if st.CheckEmployee? {
      LaterReflexive(s.db);
    } else {
      R.EffectIsLater(s.db, st, s.known);
    }
  }

  /** Progress is one finished statement more, and the existence answer is only replaced by the claim's own check. */
  lemma EstablishedStep(db: Tables, log: Log, pc: nat, known: bool, lost: bool, known': bool)
    requires log.event.Some? && pc < |Program(log)| && Established(db, log, pc, known, lost)
    requires Done(db, Program(log)[pc], known')
    requires !Program(log)[pc].CheckEmployee? ==> known' == known
    ensures Established(db, log, pc + 1, known', lost)
  {
    var e := log.event.value;
    assert Program(log)[0].SaveTransaction? && Program(log)[1].SaveChainEvent?;
    if pc >= 2 {
      assert Program(log)[pc] == Projection(log, e)[pc - 2];
    }
  }

  lemma StatementEstablishes(db: Tables, log: Log, pc: nat, known: bool, lost: bool)
    requires log.event.Some? && pc < |Program(log)| && Established(db, log, pc, known, lost)
    ensures var after := Execute(Session(db, known), Program(log)[pc]);
            Established(after.db, log, pc + 1, after.known, lost)
  {
    var s := Session(db, known);
    var after := Execute(s, Program(log)[pc]);
    StatementIsDone(s, Program(log)[pc]);
    LaterKeepsEstablished(db, after.db, log, pc, known, lost);
    EstablishedStep(after.db, log, pc, known, lost, after.known);
  }

  lemma SwallowEstablishes(db: Tables, log: Log, pc: nat, known: bool, lost: bool)
    requires log.event.Some? && pc < |Program(log)| && Established(db, log, pc, known, lost)
    requires Swallowable(Program(log)[pc])
    ensures Established(db, log, pc + 1, if Program(log)[pc].CheckEmployee? then false else known, true)
  {
  }

  /** The statement a worker is about to run satisfies every foreign key, unless an error was swallowed before. */
  lemma EstablishedIsAllowed(db: Tables, log: Log, pc: nat, known: bool)
    requires log.event.Some? && pc < |Program(log)| && Established(db, log, pc, known, false)
    ensures Allowed(db, Program(log)[pc], known)
  {
  }

  lemma FinishedProgramIsStored(db: Tables, log: Log, known: bool, lost: bool)
    requires log.event.Some? && Established(db, log, |Program(log)|, known, lost)
    ensures Stored(db, log)
  {
  }

  lemma LaterKeepsStored(a: Tables, b: Tables, log: Log)
    requires R.Later(a, b) && Stored(a, log)
    ensures Stored(b, log)
  {
  }

  lemma LaterKeepsEstablished(a: Tables, b: Tables, log: Log, pc: nat, known: bool, lost: bool)
    requires R.Later(a, b) && log.event.Some? && Established(a, log, pc, known, lost)
    ensures Established(b, log, pc, known, lost)
  {
  }

  lemma LaterKeepsCovered(a: Tables, b: Tables, logs: seq<Log>, lo: int, hi: int)
    requires R.Later(a, b) && Covered(a, logs, lo, hi)
    ensures Covered(b, logs, lo, hi)
  {
    forall l | l in logs && lo <= l.block <= hi
      ensures Stored(b, l)
    {
      LaterKeepsStored(a, b, l);
    }
  }

  lemma LaterKeepsWorker(a: Tables, b: Tables, safe: nat, cfg: Setting, wk: Worker)
    requires R.Later(a, b) && WorkerOk(a, safe, cfg, wk)
    ensures WorkerOk(b, safe, cfg, wk)
  {
    match wk
    case Idle =>
    case Between(next) => LaterKeepsCovered(a, b, cfg.logs, cfg.start, next - 1);
    case Working(from, to, pos, pc, known, lost) =>
      var batch := InRange(cfg.logs, from, to);
      LaterKeepsCovered(a, b, cfg.logs, cfg.start, from - 1);
      forall j | 0 <= j < pos
        ensures Stored(b, batch[j])
      {
        LaterKeepsStored(a, b, batch[j]);
      }
      if pos < |batch| && batch[pos].event.Some? {
        LaterKeepsEstablished(a, b, batch[pos], pc, known, lost);
      }
  }

  lemma LaterReflexive(a: Tables)
    ensures R.Later(a, a)
  {
  }

  // ---- One step -----------------------------------------------------------------------------------------

  /** Replacing the tables by later ones and one worker by a sound one keeps the invariant. */
  lemma UpdateKeepsInv(s: System, cfg: Setting, db: Tables, w: nat, wk: Worker)
    requires Inv(s, cfg) && w < |s.workers| && R.Later(s.db, db)
    requires Genuine(db, cfg.logs) && ForeignKeysHold(db) && WorkerOk(db, s.safe, cfg, wk)
    ensures Inv(WithWorker(s.(db := db), w, wk), cfg)
  {
    if s.checkpoint.Some? {
      LaterKeepsCovered(s.db, db, cfg.logs, cfg.start, s.checkpoint.value);
    }
    forall v | 0 <= v < |s.workers| && v != w
      ensures WorkerOk(db, s.safe, cfg, s.workers[v])
    {
      LaterKeepsWorker(s.db, db, s.safe, cfg, s.workers[v]);
    }
  }

  lemma ForwardIsOk(db: Tables, safe: nat, cfg: Setting, wk: Worker, known: bool, lost: bool)
    requires HasStatement(cfg, wk) && WorkerOk(db, safe, cfg, wk)
    requires Established(db, CurrentLog(cfg, wk), wk.pc + 1, known, lost)
    ensures WorkerOk(db, safe, cfg, Forward(cfg, wk, known, lost))
  {
    var batch := InRange(cfg.logs, wk.from, wk.to);
    if wk.pc + 1 == |Program(CurrentLog(cfg, wk))| {
      FinishedProgramIsStored(db, batch[wk.pos], known, lost);
    }
  }

  lemma StatementStepKeepsInv(s: System, cfg: Setting, w: nat, fails: bool)
    requires UniqueKeys(cfg.logs) && Inv(s, cfg) && w < |s.workers| && HasStatement(cfg, s.workers[w])
    ensures Inv(StatementStep(s, cfg, w, fails), cfg)
  {
    hide UniqueKeys, Genuine, ForeignKeysHold, Covered, Stored, Established, Program, Write, Allowed, InRange, R.Later, Forward;
    var wk := s.workers[w];
    var log, st := CurrentLog(cfg, wk), CurrentStatement(cfg, wk);
    InRangeMembers(cfg.logs, wk.from, wk.to);
    assert log in cfg.logs;
    LaterReflexive(s.db);
    if !fails && Allowed(s.db, st, wk.known) {
      var after := Execute(Session(s.db, wk.known), st);
      R.EffectIsLater(s.db, st, wk.known);
      StatementKeepsForeignKeys(s.db, st, wk.known);
      StatementKeepsGenuine(s.db, cfg.logs, log, wk.pc, wk.known);
      StatementEstablishes(s.db, log, wk.pc, wk.known, wk.lost);
      LaterKeepsWorker(s.db, after.db, s.safe, cfg, wk);
      ForwardIsOk(after.db, s.safe, cfg, wk, after.known, wk.lost);
      UpdateKeepsInv(s, cfg, after.db, w, Forward(cfg, wk, after.known, wk.lost));
    } else if Swallowable(st) {
      var known := if st.CheckEmployee? then false else wk.known;
      SwallowEstablishes(s.db, log, wk.pc, wk.known, wk.lost);
      ForwardIsOk(s.db, s.safe, cfg, wk, known, true);
      UpdateKeepsInv(s, cfg, s.db, w, Forward(cfg, wk, known, true));
    } else {
      UpdateKeepsInv(s, cfg, s.db, w, Idle);
    }
  }

  /** A finished window extends the covered blocks up to its end. */
  lemma FinishedWindowIsCovered(db: Tables, safe: nat, cfg: Setting, wk: Worker)
    requires wk.Working? && WorkerOk(db, safe, cfg, wk) && wk.pos == |InRange(cfg.logs, wk.from, wk.to)|
    ensures Covered(db, cfg.logs, cfg.start, wk.to)
  {
    var batch := InRange(cfg.logs, wk.from, wk.to);
    InRangeMembers(cfg.logs, wk.from, wk.to);
    forall l | l in cfg.logs && cfg.start <= l.block <= wk.to
      ensures Stored(db, l)
    {
      if l.block >= wk.from {
        assert l in batch;
        var j :| 0 <= j < |batch| && batch[j] == l;
      }
    }
  }

  lemma PerformKeepsInv(s: System, cfg: Setting, step: Step)
    requires UniqueKeys(cfg.logs) && Inv(s, cfg)
    ensures Inv(Perform(s, cfg, step), cfg)
  {
    hide UniqueKeys, Genuine, ForeignKeysHold, Covered, StatementStep, InRange, R.Later;
    LaterReflexive(s.db);
    match step
    case Advance(safe) =>
      if safe >= s.safe {
        forall w | 0 <= w < |s.workers|
          ensures WorkerOk(s.db, safe, cfg, s.workers[w])
        {
          assert WorkerOk(s.db, s.safe, cfg, s.workers[w]);
        }
      }
    case Begin(w, to) =>
      var from := EffectiveStart(s.checkpoint, cfg.start);
      if w < |s.workers| && s.workers[w].Idle? && from <= to <= s.safe {
        UpdateKeepsInv(s, cfg, s.db, w, Working(from, to, 0, 0, false, false));
      }
    case Next(w, to) =>
      if w < |s.workers| && s.workers[w].Between? && s.workers[w].next <= to <= s.safe {
        UpdateKeepsInv(s, cfg, s.db, w, Working(s.workers[w].next, to, 0, 0, false, false));
      }
    case Exec(w) =>
      if w < |s.workers| && HasStatement(cfg, s.workers[w]) {
        StatementStepKeepsInv(s, cfg, w, false);
      }
    case Fail(w) =>
      if w < |s.workers| && HasStatement(cfg, s.workers[w]) {
        StatementStepKeepsInv(s, cfg, w, true);
      }
    case Save(w) =>
      if w < |s.workers| && s.workers[w].Working? && s.workers[w].pos == |InRange(cfg.logs, s.workers[w].from, s.workers[w].to)| {
        FinishedWindowIsCovered(s.db, s.safe, cfg, s.workers[w]);
        UpdateKeepsInv(s, cfg, s.db, w, Between(s.workers[w].to + 1));
      }
    case Retry(w) =>
      if w < |s.workers| && s.workers[w].Working? {
        UpdateKeepsInv(s, cfg, s.db, w, Working(s.workers[w].from, s.workers[w].to, 0, 0, false, false));
      }
    case Stop(w) =>
      if w < |s.workers| {
        UpdateKeepsInv(s, cfg, s.db, w, Idle);
      }
  }

  lemma {:induction false} RunKeepsInv(s: System, cfg: Setting, steps: seq<Step>)
    requires UniqueKeys(cfg.logs) && Inv(s, cfg)
    ensures Inv(PerformAll(s, cfg, steps), cfg)
    decreases |steps|
  {
    if steps != [] {
      PerformKeepsInv(s, cfg, steps[0]);
      RunKeepsInv(Perform(s, cfg, steps[0]), cfg, steps[1..]);
    }
  }

  lemma ReachableInv(s: System, cfg: Setting)
    requires UniqueKeys(cfg.logs) && Reachable(s, cfg)
    ensures Inv(s, cfg)
  {
    var n: nat, steps: seq<Step> :| PerformAll(Fresh(n), cfg, steps) == s;
    RunKeepsInv(Fresh(n), cfg, steps);
  }

  // ---- Main results -----------------------------------------------------------------------------------

  /** Coverage: in every reachable state, although the checkpoint may move backwards, every log between the start block
      and the checkpoint was decodable and is stored under its key with its on-chain values. */
  lemma Coverage(s: System, cfg: Setting, log: Log)
    requires UniqueKeys(cfg.logs) && Reachable(s, cfg)
    requires s.checkpoint.Some? && log in cfg.logs && cfg.start <= log.block <= s.checkpoint.value
    ensures log.event.Some? && log.key.tx in s.db.transactions
    ensures log.key in s.db.events && s.db.events[log.key] == EventOf(log, log.event.value)
    ensures IsFunding(log) ==>
              log.key in s.db.fundings && s.db.fundings[log.key] == FundingOf(log, log.event.value)
    ensures IsClaim(log) ==>
              log.key in s.db.claims && s.db.claims[log.key] == ClaimOf(log, log.event.value)
    ensures log.key in s.db.events ==>
              var row := s.db.events[log.key];
              log.event == Some(row.event) && row.block == log.block && row.time == log.time && row.removed == log.removed
    ensures log.key in s.db.fundings ==>
              var row := s.db.fundings[log.key];
              && IsFunding(log) && row.employer == log.event.value.employer && row.employee == log.event.value.employee
              && row.amountPaid == log.event.value.amountPaid && row.fee == log.event.value.fee
              && row.amountCredited == log.event.value.amountCredited && row.block == log.block && row.time == log.time
    ensures log.key in s.db.claims ==>
              var row := s.db.claims[log.key];
              && IsClaim(log) && row.employee == log.event.value.employee && row.amount == log.event.value.amount
              && row.block == log.block && row.time == log.time
  {
    ReachableInv(s, cfg);
    assert Stored(s.db, log);
    RowsAreExact(s.db, cfg.logs, log);
  }

  /** A stored row can only hold the values of the one log with its key. */
  lemma RowsAreExact(db: Tables, logs: seq<Log>, log: Log)
    requires UniqueKeys(logs) && Genuine(db, logs) && log in logs
    ensures log.key in db.events ==> log.event.Some? && db.events[log.key] == EventOf(log, log.event.value)
    ensures log.key in db.fundings ==> IsFunding(log) && db.fundings[log.key] == FundingOf(log, log.event.value)
    ensures log.key in db.claims ==> IsClaim(log) && db.claims[log.key] == ClaimOf(log, log.event.value)
    ensures log.key in db.events ==>
              var row := db.events[log.key];
              log.event == Some(row.event) && row.block == log.block && row.time == log.time && row.removed == log.removed
    ensures log.key in db.fundings ==>
              var row := db.fundings[log.key];
              && IsFunding(log) && row.employer == log.event.value.employer && row.employee == log.event.value.employee
              && row.amountPaid == log.event.value.amountPaid && row.fee == log.event.value.fee
              && row.amountCredited == log.event.value.amountCredited && row.block == log.block && row.time == log.time
    ensures log.key in db.claims ==>
              var row := db.claims[log.key];
              && IsClaim(log) && row.employee == log.event.value.employee && row.amount == log.event.value.amount
              && row.block == log.block && row.time == log.time
  {
    if log.key in db.events {
      var l :| l in logs && l.key == log.key && l.event.Some? && db.events[log.key] == EventOf(l, l.event.value);
      SameKeySameLog(logs, l, log);
    }
    if log.key in db.fundings {
      var l :| l in logs && l.key == log.key && IsFunding(l)
               && db.fundings[log.key] == FundingOf(l, l.event.value);
      SameKeySameLog(logs, l, log);
    }
    if log.key in db.claims {
      var l :| l in logs && l.key == log.key && IsClaim(l)
               && db.claims[log.key] == ClaimOf(l, l.event.value);
      SameKeySameLog(logs, l, log);
    }
  }

  /** The checkpoint never passes the safe head, the configured start, or a log that cannot be decoded. */
  lemma CheckpointIsSafe(s: System, cfg: Setting)
    requires UniqueKeys(cfg.logs) && Reachable(s, cfg) && s.checkpoint.Some?
    ensures cfg.start <= s.checkpoint.value <= s.safe
    ensures forall l :: l in cfg.logs && l.event.None? && cfg.start <= l.block ==> s.checkpoint.value < l.block
  {
    ReachableInv(s, cfg);
    forall l | l in cfg.logs && l.event.None? && cfg.start <= l.block
      ensures s.checkpoint.value < l.block
    {
      assert l.block <= s.checkpoint.value ==> Stored(s.db, l);
    }
  }

  /** Referential integrity after every single statement, and no statement is ever rejected for a foreign key unless an
      error of the same claim was swallowed before it. */
  lemma ReferentialIntegrity(s: System, cfg: Setting)
    requires UniqueKeys(cfg.logs) && Reachable(s, cfg)
    ensures ForeignKeysHold(s.db)
    ensures forall w :: 0 <= w < |s.workers| && HasStatement(cfg, s.workers[w]) && !s.workers[w].lost ==>
              Allowed(s.db, CurrentStatement(cfg, s.workers[w]), s.workers[w].known)
  {
    ReachableInv(s, cfg);
    forall w | 0 <= w < |s.workers| && HasStatement(cfg, s.workers[w]) && !s.workers[w].lost
      ensures Allowed(s.db, CurrentStatement(cfg, s.workers[w]), s.workers[w].known)
    {
      var wk := s.workers[w];
      EstablishedIsAllowed(s.db, CurrentLog(cfg, wk), wk.pc, wk.known);
    }
  }

  /** Rows never disappear, whatever happens next. */
  lemma {:induction false} RunIsLater(s: System, cfg: Setting, steps: seq<Step>)
    ensures R.Later(s.db, PerformAll(s, cfg, steps).db)
    decreases |steps|
  {
    if steps == [] {
      LaterReflexive(s.db);
    } else {
      var next := Perform(s, cfg, steps[0]);
      PerformIsLater(s, cfg, steps[0]);
      RunIsLater(next, cfg, steps[1..]);
      R.LaterTransitive(s.db, next.db, PerformAll(next, cfg, steps[1..]).db);
    }
  }

  lemma PerformIsLater(s: System, cfg: Setting, step: Step)
    ensures R.Later(s.db, Perform(s, cfg, step).db)
  {
    LaterReflexive(s.db);
    if (step.Exec? || step.Fail?) && step.w < |s.workers| && HasStatement(cfg, s.workers[step.w]) {
      R.EffectIsLater(s.db, CurrentStatement(cfg, s.workers[step.w]), s.workers[step.w].known);
    }
  }
}
