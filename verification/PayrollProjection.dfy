/** The employer and employee rows of caught-up indexers: they are the clean projection of the event history in every run
    exactly when at most one worker runs (indexer.go, live_monitor.go, persistence/payroll.go). */
module PayrollProjection {
  import opened Evm
  import opened Words
  import opened PayrollTables
  import opened PayrollWorkers
  import I = PayrollIndexer
  import R = ReplayConvergence
  import S = SoloIndexer

  // ---- The property ----------------------------------------------------------------------------------------------

  /** No error is ignored in a step; attempts may still fail anywhere else. */
  predicate SwallowsNothing(s: System, cfg: Setting, step: Step) {
    step.Fail? && step.w < |s.workers| && HasStatement(cfg, s.workers[step.w]) ==> !Swallowable(CurrentStatement(cfg, s.workers[step.w]))
  }

  predicate RunSwallowsNothing(s: System, cfg: Setting, steps: seq<Step>)
    decreases |steps|
  {
    steps != [] ==> SwallowsNothing(s, cfg, steps[0]) && RunSwallowsNothing(Perform(s, cfg, steps[0]), cfg, steps[1..])
  }

  /** The checkpoint has reached the safe head and no worker is inside a window. */
  predicate CaughtUp(s: System) {
    s.checkpoint == Some(s.safe) && forall w :: 0 <= w < |s.workers| ==> !s.workers[w].Working?
  }

  /** The tables that one pass over the logs from the start block to a block writes. */
  function Clean(cfg: Setting, block: int): Tables {
    Run(EMPTY, Programs(InRange(cfg.logs, cfg.start, block)))
  }

  predicate RowsAreClean(s: System, cfg: Setting) {
    s.db.employers == Clean(cfg, s.safe).employers && s.db.employees == Clean(cfg, s.safe).employees
  }

  /** A run of n workers keeps the promise of the projection. */
  predicate EndsClean(n: nat, cfg: Setting, steps: seq<Step>) {
    var s := PerformAll(Fresh(n), cfg, steps);
    SortedByBlock(cfg.logs) && UniqueKeys(cfg.logs) && RunSwallowsNothing(Fresh(n), cfg, steps) && CaughtUp(s) ==> RowsAreClean(s, cfg)
  }

  // ---- One statement of a worker that nobody disturbs ------------------------------------------------------------

  function Batch(cfg: Setting, wk: Worker): seq<Log>
    requires wk.Working?
  {
    InRange(cfg.logs, wk.from, wk.to)
  }

  /** The worker stands at a statement of a decodable log, or at the end of its window. */
  predicate InPlace(db: Tables, cfg: Setting, wk: Worker) {
    && wk.Working? && !wk.lost && wk.pos <= |Batch(cfg, wk)|
    && (wk.pos == |Batch(cfg, wk)| ==> wk == Working(wk.from, wk.to, wk.pos, 0, false, false))
    && (wk.pos < |Batch(cfg, wk)| && Batch(cfg, wk)[wk.pos].event.Some? ==>
          HasStatement(cfg, wk) && I.GuardIsCurrent(db, CurrentLog(cfg, wk), wk.pc, wk.known))
  }

  lemma WindowStartsInPlace(db: Tables, cfg: Setting, from: nat, to: nat)
    ensures InPlace(db, cfg, Working(from, to, 0, 0, false, false))
  {
  }

  /** A statement that succeeds has its clean effect, and the worker stands at the next one. */
  lemma ExecInPlace(s: System, cfg: Setting, w: nat) returns (known: bool)
    requires Inv(s, cfg) && w < |s.workers| && InPlace(s.db, cfg, s.workers[w]) && HasStatement(cfg, s.workers[w])
    ensures var wk := s.workers[w];
            var after := Effect(s.db, CurrentStatement(cfg, wk));
            && Perform(s, cfg, Exec(w)) == WithWorker(s.(db := after), w, Forward(cfg, wk, known, false))
            && InPlace(after, cfg, Forward(cfg, wk, known, false))
  {
    hide Inv, Write, Effect, Program, ForeignKeysHold, Established, Genuine, Covered, Stored, I.GuardIsCurrent, Allowed, Execute;
    var wk := s.workers[w];
    var log := CurrentLog(cfg, wk);
    StandsUndisturbed(s, cfg, w);
    var next := I.CleanStatement(s.db, log, wk.pc, wk.known);
    known := next.known;
    CleanMeansAllowed(s.db, log, wk.pc, wk.known);
    if wk.pc + 1 == |Program(log)| {
      NextLogStartsInPlace(next.db, cfg, wk);
    } else {
      UndisturbedGuard(next.db, log, wk.pc + 1, known);
    }
  }

  lemma StandsUndisturbed(s: System, cfg: Setting, w: nat)
    requires Inv(s, cfg) && w < |s.workers| && InPlace(s.db, cfg, s.workers[w]) && HasStatement(cfg, s.workers[w])
    ensures I.Undisturbed(s.db, CurrentLog(cfg, s.workers[w]), s.workers[w].pc, s.workers[w].known)
  {
    assert WorkerOk(s.db, s.safe, cfg, s.workers[w]);
  }

  lemma CleanMeansAllowed(db: Tables, log: Log, pc: nat, known: bool)
    requires I.Undisturbed(db, log, pc, known) && pc < |Program(log)|
    ensures Allowed(db, Program(log)[pc], known)
  {
    EstablishedIsAllowed(db, log, pc, known);
  }

  lemma UndisturbedGuard(db: Tables, log: Log, pc: nat, known: bool)
    requires I.Undisturbed(db, log, pc, known)
    ensures I.GuardIsCurrent(db, log, pc, known)
  {
  }

  lemma NextLogStartsInPlace(db: Tables, cfg: Setting, wk: Worker)
    requires HasStatement(cfg, wk)
    ensures InPlace(db, cfg, Working(wk.from, wk.to, wk.pos + 1, 0, false, false))
  {
  }

  // ---- The statements of a window that already ran ---------------------------------------------------------------

  /** The statements of the first pos logs and the first pc statements of the next one. */
  function Ran(batch: seq<Log>, pos: nat, pc: nat): seq<Statement>
    requires pos <= |batch|
  {
    Programs(batch[..pos]) + if pos < |batch| && batch[pos].event.Some? && pc <= |Program(batch[pos])| then Program(batch[pos])[..pc] else []
  }

  lemma RanIsPrefix(batch: seq<Log>, pos: nat, pc: nat)
    requires pos <= |batch| && Decodable(batch[..pos])
    ensures |Ran(batch, pos, pc)| <= |Programs(batch)| && Ran(batch, pos, pc) == Programs(batch)[..|Ran(batch, pos, pc)|]
  {
    hide Program, Programs, Decodable;
    assert batch == batch[..pos] + batch[pos..];
    ProgramsConcat(batch[..pos], batch[pos..]);
    if pos < |batch| && batch[pos].event.Some? {
      I.ConsPrograms(batch, pos);
    }
  }

  lemma RanNothing(batch: seq<Log>)
    ensures Ran(batch, 0, 0) == [] && Decodable(batch[..0])
  {
    assert batch[..0] == [];
  }

  lemma RanAll(batch: seq<Log>)
    ensures Ran(batch, |batch|, 0) == Programs(batch) && batch[..|batch|] == batch
  {
    assert batch[..|batch|] == batch;
  }

  lemma RanOneMore(batch: seq<Log>, pos: nat, pc: nat)
    requires pos < |batch| && batch[pos].event.Some? && pc < |Program(batch[pos])| && Decodable(batch[..pos])
    ensures var more := Ran(batch, pos, pc) + [Program(batch[pos])[pc]];
            && Ran(batch, pos, pc + 1) == more
            && (pc + 1 == |Program(batch[pos])| ==> Decodable(batch[..pos + 1]) && Ran(batch, pos + 1, 0) == more)
  {
    var p := Program(batch[pos]);
    assert p[..pc + 1] == p[..pc] + [p[pc]];
    if pc + 1 == |p| {
      assert batch[..pos + 1] == batch[..pos] + [batch[pos]];
      assert [batch[pos]][1..] == [];
      assert Programs([batch[pos]]) == p + Programs([]);
      ProgramsConcat(batch[..pos], [batch[pos]]);
      assert p[..pc + 1] == p;
    }
  }

  // ---- At most one worker ----------------------------------------------------------------------------------------

  function Reach(s: System, cfg: Setting): int {
    if s.safe < cfg.start then cfg.start - 1 else s.safe
  }

  ghost predicate OnTrack(db: Tables, s: System, cfg: Setting) {
    S.OnTrack(S.Solo(db, EffectiveStart(s.checkpoint, cfg.start), Reach(s, cfg)), cfg.logs, EMPTY, cfg.start)
  }

  /** The worker entered its window with base and has run the statements before its position since. */
  ghost predicate RanFrom(base: Tables, s: System, cfg: Setting, wk: Worker) {
    && OnTrack(base, s, cfg) && InPlace(s.db, cfg, wk)
    && wk.from == EffectiveStart(s.checkpoint, cfg.start) && wk.from <= wk.to <= s.safe
    && Decodable(Batch(cfg, wk)[..wk.pos])
    && s.db == Run(base, Ran(Batch(cfg, wk), wk.pos, wk.pc))
  }

  /** What a single worker keeps. */
  ghost predicate SoloInv(s: System, cfg: Setting) {
    && Inv(s, cfg) && |s.workers| == 1
    && match s.workers[0]
       case Idle => OnTrack(s.db, s, cfg)
       case Between(next) => OnTrack(s.db, s, cfg) && next == EffectiveStart(s.checkpoint, cfg.start)
       case Working(_, _, _, _, _, _) => exists base :: RanFrom(base, s, cfg, s.workers[0])
  }

  lemma ReachGrows(s: S.Solo, logs: seq<Log>, start: nat, reach: int)
    requires S.OnTrack(s, logs, EMPTY, start) && s.reach <= reach
    ensures S.OnTrack(s.(reach := reach), logs, EMPTY, start)
  {
  }

  /** Wherever the worker stops, it can start its window again. */
  lemma StoppedIsOnTrack(base: Tables, s: System, cfg: Setting, wk: Worker)
    requires SortedByBlock(cfg.logs) && RanFrom(base, s, cfg, wk)
    ensures OnTrack(s.db, s, cfg)
  {
    hide S.OnTrack, Run, Ran, InRange, Programs, SortedByBlock;
    var batch := Batch(cfg, wk);
    RanIsPrefix(batch, wk.pos, wk.pc);
    S.InterruptedKeepsOnTrack(S.Solo(base, wk.from, Reach(s, cfg)), cfg.logs, EMPTY, cfg.start, wk.to, Reach(s, cfg),
                              |Ran(batch, wk.pos, wk.pc)|);
  }

  lemma SoloOnTrack(s: System, cfg: Setting)
    requires SortedByBlock(cfg.logs) && SoloInv(s, cfg)
    ensures OnTrack(s.db, s, cfg)
  {
    if s.workers[0].Working? {
      var base :| RanFrom(base, s, cfg, s.workers[0]);
      StoppedIsOnTrack(base, s, cfg, s.workers[0]);
    }
  }

  lemma NothingRuns(db: Tables)
    ensures Programs([]) == [] && Run(db, []) == db
  {
  }

  lemma EntersWindow(s: System, cfg: Setting, to: nat)
    requires |s.workers| == 1 && OnTrack(s.db, s, cfg) && Inv(s, cfg)
    requires EffectiveStart(s.checkpoint, cfg.start) <= to <= s.safe
    requires Inv(WithWorker(s, 0, Working(EffectiveStart(s.checkpoint, cfg.start), to, 0, 0, false, false)), cfg)
    ensures SoloInv(WithWorker(s, 0, Working(EffectiveStart(s.checkpoint, cfg.start), to, 0, 0, false, false)), cfg)
  {
    hide Inv, S.OnTrack, Run, Programs, InRange;
    var wk := Working(EffectiveStart(s.checkpoint, cfg.start), to, 0, 0, false, false);
    var s' := WithWorker(s, 0, wk);
    RanNothing(Batch(cfg, wk));
    WindowStartsInPlace(s.db, cfg, wk.from, to);
    NothingRuns(s.db);
    assert RanFrom(s.db, s', cfg, wk);
  }

  lemma SavedWindow(s: System, cfg: Setting)
    requires SortedByBlock(cfg.logs) && SoloInv(s, cfg) && s.workers[0].Working? && s.workers[0].pos == |Batch(cfg, s.workers[0])|
    ensures OnTrack(s.db, s.(checkpoint := Some(s.workers[0].to)), cfg)
  {
    hide S.OnTrack, Run, Programs, InRange, SortedByBlock, Inv;
    var wk := s.workers[0];
    var base :| RanFrom(base, s, cfg, wk);
    RanAll(Batch(cfg, wk));
    S.CompleteKeepsOnTrack(S.Solo(base, wk.from, Reach(s, cfg)), cfg.logs, EMPTY, cfg.start, wk.to, Reach(s, cfg));
  }

  lemma SoloExec(s: System, cfg: Setting)
    requires SortedByBlock(cfg.logs) && SoloInv(s, cfg) && HasStatement(cfg, s.workers[0]) && Inv(Perform(s, cfg, Exec(0)), cfg)
    ensures SoloInv(Perform(s, cfg, Exec(0)), cfg)
  {
    hide S.OnTrack, Run, Programs, InRange, SortedByBlock, Inv, Program, Effect, Ran, Decodable, InPlace;
    var wk := s.workers[0];
    var base :| RanFrom(base, s, cfg, wk);
    var batch := Batch(cfg, wk);
    var known := ExecInPlace(s, cfg, 0);
    var st, next := CurrentStatement(cfg, wk), Forward(cfg, wk, known, false);
    RanOneMore(batch, wk.pos, wk.pc);
    RunConcat(base, Ran(batch, wk.pos, wk.pc), [st]);
    RunOne(s.db, st);
    assert RanFrom(base, Perform(s, cfg, Exec(0)), cfg, next);
  }

  lemma RunOne(db: Tables, st: Statement)
    ensures Run(db, [st]) == Effect(db, st)
  {
    assert [st][1..] == [];
  }

  lemma FailureStops(s: System, cfg: Setting)
    requires |s.workers| == 1 && HasStatement(cfg, s.workers[0]) && SwallowsNothing(s, cfg, Fail(0))
    ensures Perform(s, cfg, Fail(0)) == WithWorker(s, 0, Idle)
  {
  }

  lemma StepKeepsSoloInv(s: System, cfg: Setting, step: Step)
    requires SortedByBlock(cfg.logs) && UniqueKeys(cfg.logs) && SoloInv(s, cfg) && SwallowsNothing(s, cfg, step)
    ensures SoloInv(Perform(s, cfg, step), cfg)
  {
    hide S.OnTrack, Run, Programs, InRange, SortedByBlock, Inv, UniqueKeys, StatementStep, InPlace;
    PerformKeepsInv(s, cfg, step);
    SoloOnTrack(s, cfg);
    var wk := s.workers[0];
    match step
    case Advance(safe) =>
      if safe >= s.safe {
        HigherHead(s, cfg, safe);
      }
    case Begin(w, to) =>
      if Perform(s, cfg, step) != s {
        EntersWindow(s, cfg, to);
      }
    case Next(w, to) =>
      if Perform(s, cfg, step) != s {
        EntersWindow(s, cfg, to);
      }
    case Exec(w) =>
      if w == 0 && HasStatement(cfg, wk) {
        SoloExec(s, cfg);
      }
    case Fail(w) =>
      if w == 0 && HasStatement(cfg, wk) {
        FailureStops(s, cfg);
      }
    case Save(w) =>
      if w == 0 && wk.Working? && wk.pos == |Batch(cfg, wk)| {
        SavedWindow(s, cfg);
      }
    case Retry(w) =>
      if w == 0 && wk.Working? {
        EntersWindow(s, cfg, wk.to);
      }
    case Stop(w) =>
  }

  lemma HigherHead(s: System, cfg: Setting, safe: nat)
    requires SoloInv(s, cfg) && s.safe <= safe && Inv(s.(safe := safe), cfg)
    ensures SoloInv(s.(safe := safe), cfg)
  {
    hide Inv, Run, Programs, InRange, InPlace;
    var s' := s.(safe := safe);
    if s.workers[0].Working? {
      var base :| RanFrom(base, s, cfg, s.workers[0]);
      ReachGrows(S.Solo(base, EffectiveStart(s.checkpoint, cfg.start), Reach(s, cfg)), cfg.logs, cfg.start, Reach(s', cfg));
      assert RanFrom(base, s', cfg, s.workers[0]);
    } else {
      ReachGrows(S.Solo(s.db, EffectiveStart(s.checkpoint, cfg.start), Reach(s, cfg)), cfg.logs, cfg.start, Reach(s', cfg));
    }
  }

  lemma {:induction false} RunKeepsSoloInv(s: System, cfg: Setting, steps: seq<Step>)
    requires SortedByBlock(cfg.logs) && UniqueKeys(cfg.logs) && SoloInv(s, cfg) && RunSwallowsNothing(s, cfg, steps)
    ensures SoloInv(PerformAll(s, cfg, steps), cfg)
    decreases |steps|
  {
    hide SoloInv, SwallowsNothing, Perform;
    if steps != [] {
      StepKeepsSoloInv(s, cfg, steps[0]);
      RunKeepsSoloInv(Perform(s, cfg, steps[0]), cfg, steps[1..]);
    }
  }

  lemma FreshSolo(cfg: Setting)
    ensures SoloInv(Fresh(1), cfg)
  {
    S.FreshWorkerIsOnTrack(cfg.logs, EMPTY, cfg.start);
    ReachGrows(S.Solo(EMPTY, cfg.start, cfg.start - 1), cfg.logs, cfg.start, Reach(Fresh(1), cfg));
  }

  /** One worker, interrupted anywhere and any number of times with windows of any size: once it has caught up, all tables
      are those of one clean pass. */
  lemma SoloTablesAreClean(cfg: Setting, steps: seq<Step>)
    requires SortedByBlock(cfg.logs) && UniqueKeys(cfg.logs) && RunSwallowsNothing(Fresh(1), cfg, steps)
    requires CaughtUp(PerformAll(Fresh(1), cfg, steps))
    ensures var s := PerformAll(Fresh(1), cfg, steps);
            s.db == Clean(cfg, s.safe) && cfg.start <= s.safe && Decodable(InRange(cfg.logs, cfg.start, s.safe))
  {
    hide Run, Programs, InRange, PerformAll, Covered, Genuine, ForeignKeysHold;
    FreshSolo(cfg);
    RunKeepsSoloInv(Fresh(1), cfg, steps);
    var s := PerformAll(Fresh(1), cfg, steps);
    InRangeNone(cfg.logs, s.safe + 1, s.safe);
    NothingRuns(s.db);
  }

  // ---- Two workers or more ---------------------------------------------------------------------------------------
  // Fundings, claims and events never go wrong, but the employer and employee rows are overwritten: a worker that
  // replays an old window after another one moved on, and stops before saving its checkpoint, leaves the old values.

  predicate Flawless(steps: seq<Step>) {
    forall i :: 0 <= i < |steps| ==> !steps[i].Fail?
  }

  lemma {:induction false} FlawlessSwallowsNothing(s: System, cfg: Setting, steps: seq<Step>)
    requires Flawless(steps)
    ensures RunSwallowsNothing(s, cfg, steps)
    decreases |steps|
  {
    if steps != [] {
      FlawlessSwallowsNothing(Perform(s, cfg, steps[0]), cfg, steps[1..]);
    }
  }

  /** No statement fails on the way from s to t. */
  ghost predicate Leads(s: System, cfg: Setting, t: System) {
    exists steps: seq<Step> :: Flawless(steps) && PerformAll(s, cfg, steps) == t
  }

  lemma {:induction false} PerformConcat(s: System, cfg: Setting, a: seq<Step>, b: seq<Step>)
    ensures PerformAll(s, cfg, a + b) == PerformAll(PerformAll(s, cfg, a), cfg, b)
    decreases |a|
  {
    if a == [] {
      assert a + b == b;
    } else {
      assert (a + b)[1..] == a[1..] + b;
      PerformConcat(Perform(s, cfg, a[0]), cfg, a[1..], b);
    }
  }

  lemma LeadsTransitive(a: System, cfg: Setting, b: System, c: System)
    requires Leads(a, cfg, b) && Leads(b, cfg, c)
    ensures Leads(a, cfg, c)
  {
    var p: seq<Step> :| Flawless(p) && PerformAll(a, cfg, p) == b;
    var q: seq<Step> :| Flawless(q) && PerformAll(b, cfg, q) == c;
    PerformConcat(a, cfg, p, q);
    assert PerformAll(a, cfg, p + q) == c;
  }

  lemma LeadsByOne(s: System, cfg: Setting, step: Step, t: System)
    requires !step.Fail? && t == Perform(s, cfg, step)
    ensures Leads(s, cfg, t)
  {
    assert [step][1..] == [];
    assert PerformAll(t, cfg, []) == t;
    assert PerformAll(s, cfg, [step]) == t;
  }

  lemma LeadsNowhere(s: System, cfg: Setting)
    ensures Leads(s, cfg, s)
  {
    assert PerformAll(s, cfg, []) == s;
  }

  lemma LeadsKeepsInv(s: System, cfg: Setting, t: System)
    requires UniqueKeys(cfg.logs) && Inv(s, cfg) && Leads(s, cfg, t)
    ensures Inv(t, cfg)
  {
    var steps: seq<Step> :| Flawless(steps) && PerformAll(s, cfg, steps) == t;
    RunKeepsInv(s, cfg, steps);
  }

  /** The statements from statement pc of log pos on. */
  function Rest(batch: seq<Log>, pos: nat, pc: nat): seq<Statement>
    requires pos <= |batch|
  {
    if pos < |batch| && batch[pos].event.Some? && pc <= |Program(batch[pos])|
    then Program(batch[pos])[pc..] + Programs(batch[pos + 1..]) else []
  }

  lemma RestOneLess(batch: seq<Log>, pos: nat, pc: nat)
    requires pos < |batch| && Decodable(batch) && pc < |Program(batch[pos])|
    ensures var next := if pc + 1 < |Program(batch[pos])| then Rest(batch, pos, pc + 1) else Rest(batch, pos + 1, 0);
            Rest(batch, pos, pc) == [Program(batch[pos])[pc]] + next
  {
    hide Program, Programs, Rest, Decodable;
    assert batch[pos].event.Some? by { DecodableAt(batch, pos); }
    var p, later := Program(batch[pos]), Programs(batch[pos + 1..]);
    RestInside(batch, pos, pc);
    if pc + 1 < |p| {
      RestInside(batch, pos, pc + 1);
      SliceOneMore(p, later, pc);
    } else {
      RestOfLogs(batch, pos + 1);
      assert p[pc..] == [p[pc]];
    }
  }

  lemma DecodableAt(batch: seq<Log>, pos: nat)
    requires pos < |batch| && Decodable(batch)
    ensures batch[pos].event.Some?
  {
  }

  lemma RestInside(batch: seq<Log>, pos: nat, pc: nat)
    requires pos < |batch| && batch[pos].event.Some? && pc <= |Program(batch[pos])|
    ensures Rest(batch, pos, pc) == Program(batch[pos])[pc..] + Programs(batch[pos + 1..])
  {
  }

  lemma SliceOneMore(p: seq<Statement>, later: seq<Statement>, pc: nat)
    requires pc < |p|
    ensures p[pc..] + later == [p[pc]] + (p[pc + 1..] + later)
  {
    assert p[pc..] == [p[pc]] + p[pc + 1..];
  }

  lemma RestOfLogs(batch: seq<Log>, pos: nat)
    requires pos <= |batch| && Decodable(batch)
    ensures Rest(batch, pos, 0) == Programs(batch[pos..])
  {
    hide Program;
    if pos < |batch| {
      I.ConsPrograms(batch, pos);
      assert Program(batch[pos])[0..] == Program(batch[pos]);
    }
  }

  /** The system after worker w has run the rest of its window while nobody else moved. */
  function Finished(s: System, cfg: Setting, w: nat): System
    requires w < |s.workers| && s.workers[w].Working? && s.workers[w].pos <= |Batch(cfg, s.workers[w])|
  {
    var wk := s.workers[w];
    WithWorker(s.(db := Run(s.db, Rest(Batch(cfg, wk), wk.pos, wk.pc))), w,
               Working(wk.from, wk.to, |Batch(cfg, wk)|, 0, false, false))
  }

  lemma FinishStep(s: System, cfg: Setting, w: nat) returns (s': System)
    requires UniqueKeys(cfg.logs) && Inv(s, cfg) && w < |s.workers| && InPlace(s.db, cfg, s.workers[w])
    requires Decodable(Batch(cfg, s.workers[w])) && s.workers[w].pos < |Batch(cfg, s.workers[w])|
    ensures Leads(s, cfg, s') && Inv(s', cfg) && |s'.workers| == |s.workers| && InPlace(s'.db, cfg, s'.workers[w])
    ensures Batch(cfg, s'.workers[w]) == Batch(cfg, s.workers[w]) && Finished(s', cfg, w) == Finished(s, cfg, w)
    ensures var (now, next) := (s.workers[w], s'.workers[w]);
            |Rest(Batch(cfg, now), next.pos, next.pc)| < |Rest(Batch(cfg, now), now.pos, now.pc)|
  {
    hide Inv, Program, Effect, Run, Rest, InRange, InPlace, UniqueKeys, StatementStep;
    var wk := s.workers[w];
    assert HasStatement(cfg, wk) by { StandsAtStatement(s.db, cfg, wk); }
    var known := ExecInPlace(s, cfg, w);
    s' := Perform(s, cfg, Exec(w));
    PerformKeepsInv(s, cfg, Exec(w));
    LeadsByOne(s, cfg, Exec(w), s');
    RestOneLess(Batch(cfg, wk), wk.pos, wk.pc);
    var next := s'.workers[w];
    RunCons(s.db, CurrentStatement(cfg, wk), Rest(Batch(cfg, wk), next.pos, next.pc));
  }

  lemma StandsAtStatement(db: Tables, cfg: Setting, wk: Worker)
    requires InPlace(db, cfg, wk) && Decodable(Batch(cfg, wk)) && wk.pos < |Batch(cfg, wk)|
    ensures HasStatement(cfg, wk)
  {
  }

  lemma {:induction false} FinishesWindow(s: System, cfg: Setting, w: nat)
    requires UniqueKeys(cfg.logs) && Inv(s, cfg) && w < |s.workers| && InPlace(s.db, cfg, s.workers[w])
    requires Decodable(Batch(cfg, s.workers[w]))
    ensures Leads(s, cfg, Finished(s, cfg, w))
    decreases |Rest(Batch(cfg, s.workers[w]), s.workers[w].pos, s.workers[w].pc)|
  {
    hide Inv, Program, Effect, Run, InRange, UniqueKeys, Leads;
    if s.workers[w].pos == |Batch(cfg, s.workers[w])| {
      NothingRuns(s.db);
      assert Finished(s, cfg, w) == s;
      LeadsNowhere(s, cfg);
    } else {
      var s' := FinishStep(s, cfg, w);
      FinishesWindow(s', cfg, w);
      LeadsTransitive(s, cfg, s', Finished(s, cfg, w));
    }
  }

  /** The first two of n workers and the others, which never start. */
  function Crew(n: nat, first: Worker, second: Worker): seq<Worker>
    requires n >= 2
  {
    [first, second] + seq(n - 2, i => Idle)
  }

  const AT_ONE: Worker := Working(1, 1, 0, 0, false, false)

  lemma FreshCrew(n: nat)
    requires n >= 2
    ensures Fresh(n) == System(EMPTY, None, 0, Crew(n, Idle, Idle))
  {
  }

  /** Two workers read the missing checkpoint and choose block 1. */
  lemma BothWorkersBegin(n: nat, cfg: Setting)
    requires n >= 2 && cfg.start == 1
    ensures Leads(Fresh(n), cfg, System(EMPTY, None, 2, Crew(n, AT_ONE, AT_ONE)))
  {
    hide Leads, StatementStep;
    FreshCrew(n);
    var s1, s2 := System(EMPTY, None, 2, Crew(n, Idle, Idle)), System(EMPTY, None, 2, Crew(n, AT_ONE, Idle));
    LeadsByOne(Fresh(n), cfg, Advance(2), s1);
    assert Crew(n, Idle, Idle)[0 := AT_ONE] == Crew(n, AT_ONE, Idle);
    LeadsByOne(s1, cfg, Begin(0, 1), s2);
    assert Crew(n, AT_ONE, Idle)[1 := AT_ONE] == Crew(n, AT_ONE, AT_ONE);
    LeadsByOne(s2, cfg, Begin(1, 1), System(EMPTY, None, 2, Crew(n, AT_ONE, AT_ONE)));
    LeadsTransitive(Fresh(n), cfg, s1, s2);
    LeadsTransitive(Fresh(n), cfg, s2, System(EMPTY, None, 2, Crew(n, AT_ONE, AT_ONE)));
  }

  /** A worker runs all the statements of a window that it entered. */
  lemma RunsWindow(s: System, cfg: Setting, w: nat, from: nat, to: nat)
    requires UniqueKeys(cfg.logs) && Inv(s, cfg) && w < |s.workers| && s.workers[w] == Working(from, to, 0, 0, false, false)
    requires Decodable(InRange(cfg.logs, from, to))
    ensures var batch := InRange(cfg.logs, from, to);
            Leads(s, cfg, WithWorker(s.(db := Run(s.db, Programs(batch))), w, Working(from, to, |batch|, 0, false, false)))
  {
    hide Inv, Run, Programs, InRange, Leads;
    WindowStartsInPlace(s.db, cfg, from, to);
    FinishesWindow(s, cfg, w);
    RestOfLogs(InRange(cfg.logs, from, to), 0);
    assert InRange(cfg.logs, from, to)[0..] == InRange(cfg.logs, from, to);
  }

  /** The first worker indexes a block and saves the checkpoint. */
  lemma FirstWorkerIndexes(n: nat, cfg: Setting, db: Tables, checkpoint: Option<nat>, block: nat, second: Worker)
    requires n >= 2 && UniqueKeys(cfg.logs) && Decodable(InRange(cfg.logs, block, block))
    requires Inv(System(db, checkpoint, 2, Crew(n, Working(block, block, 0, 0, false, false), second)), cfg)
    ensures Leads(System(db, checkpoint, 2, Crew(n, Working(block, block, 0, 0, false, false), second)), cfg,
                  System(Run(db, Programs(InRange(cfg.logs, block, block))), Some(block), 2, Crew(n, Between(block + 1), second)))
  {
    hide Inv, Run, Programs, InRange, Leads, StatementStep;
    var batch := InRange(cfg.logs, block, block);
    var now, end := Working(block, block, 0, 0, false, false), Working(block, block, |batch|, 0, false, false);
    var s := System(db, checkpoint, 2, Crew(n, now, second));
    var s1 := System(Run(db, Programs(batch)), checkpoint, 2, Crew(n, end, second));
    var s2 := System(Run(db, Programs(batch)), Some(block), 2, Crew(n, Between(block + 1), second));
    RunsWindow(s, cfg, 0, block, block);
    assert Crew(n, now, second)[0 := end] == Crew(n, end, second);
    assert Crew(n, end, second)[0 := Between(block + 1)] == Crew(n, Between(block + 1), second);
    LeadsByOne(s1, cfg, Save(0), s2);
    LeadsTransitive(s, cfg, s1, s2);
  }

  /** Block 1, block 2 by the first worker, then block 1 again by the second one, which stops before it saves. */
  lemma SecondWorkerReplays(n: nat, cfg: Setting)
    requires n >= 2 && UniqueKeys(cfg.logs) && cfg.start == 1
    requires Decodable(InRange(cfg.logs, 1, 1)) && Decodable(InRange(cfg.logs, 2, 2))
    ensures var (one, two) := (Programs(InRange(cfg.logs, 1, 1)), Programs(InRange(cfg.logs, 2, 2)));
            Leads(Fresh(n), cfg, System(Run(Run(Run(EMPTY, one), two), one), Some(2), 2, Crew(n, Between(3), Idle)))
  {
    hide Inv, Run, Programs, InRange, Leads, StatementStep, UniqueKeys, Decodable;
    var (one, two) := (Programs(InRange(cfg.logs, 1, 1)), Programs(InRange(cfg.logs, 2, 2)));
    var (d1, d2) := (Run(EMPTY, one), Run(Run(EMPTY, one), two));
    var at_two, end := Working(2, 2, 0, 0, false, false), Working(1, 1, |InRange(cfg.logs, 1, 1)|, 0, false, false);
    var s0, s1 := System(EMPTY, None, 2, Crew(n, AT_ONE, AT_ONE)), System(d1, Some(1), 2, Crew(n, Between(2), AT_ONE));
    var s2, s3 := System(d1, Some(1), 2, Crew(n, at_two, AT_ONE)), System(d2, Some(2), 2, Crew(n, Between(3), AT_ONE));
    var s4, s5 := System(Run(d2, one), Some(2), 2, Crew(n, Between(3), end)), System(Run(d2, one), Some(2), 2, Crew(n, Between(3), Idle));
    FreshIsSound(n, cfg);
    BothWorkersBegin(n, cfg);
    LeadsKeepsInv(Fresh(n), cfg, s0);
    FirstWorkerIndexes(n, cfg, EMPTY, None, 1, AT_ONE);
    LeadsTransitive(Fresh(n), cfg, s0, s1);
    assert Crew(n, Between(2), AT_ONE)[0 := at_two] == Crew(n, at_two, AT_ONE);
    LeadsByOne(s1, cfg, Next(0, 2), s2);
    LeadsTransitive(Fresh(n), cfg, s1, s2);
    LeadsKeepsInv(Fresh(n), cfg, s2);
    FirstWorkerIndexes(n, cfg, d1, Some(1), 2, AT_ONE);
    LeadsTransitive(Fresh(n), cfg, s2, s3);
    LeadsKeepsInv(Fresh(n), cfg, s3);
    RunsWindow(s3, cfg, 1, 1, 1);
    assert Crew(n, Between(3), AT_ONE)[1 := end] == Crew(n, Between(3), end);
    LeadsTransitive(Fresh(n), cfg, s3, s4);
    assert Crew(n, Between(3), end)[1 := Idle] == Crew(n, Between(3), Idle);
    LeadsByOne(s4, cfg, Stop(1), s5);
    LeadsTransitive(Fresh(n), cfg, s4, s5);
  }

  lemma FreshIsSound(n: nat, cfg: Setting)
    ensures Inv(Fresh(n), cfg)
  {
  }

  /** A single worker that never fails does reach the end of any decodable history. */
  lemma SoloReachesHead(cfg: Setting, head: nat)
    requires UniqueKeys(cfg.logs) && cfg.start <= head && Decodable(InRange(cfg.logs, cfg.start, head))
    ensures Leads(Fresh(1), cfg, System(Clean(cfg, head), Some(head), head, [Between(head + 1)]))
  {
    hide Inv, Run, Programs, InRange, Leads, StatementStep, UniqueKeys, Decodable;
    var batch := InRange(cfg.logs, cfg.start, head);
    var first, end := Working(cfg.start, head, 0, 0, false, false), Working(cfg.start, head, |batch|, 0, false, false);
    var s1, s2 := System(EMPTY, None, head, [Idle]), System(EMPTY, None, head, [first]);
    var s3, s4 := System(Clean(cfg, head), None, head, [end]), System(Clean(cfg, head), Some(head), head, [Between(head + 1)]);
    FreshIsSound(1, cfg);
    LeadsByOne(Fresh(1), cfg, Advance(head), s1);
    LeadsByOne(s1, cfg, Begin(0, head), s2);
    LeadsTransitive(Fresh(1), cfg, s1, s2);
    LeadsKeepsInv(Fresh(1), cfg, s2);
    RunsWindow(s2, cfg, 0, cfg.start, head);
    assert [first][0 := end] == [end] && [end][0 := Between(head + 1)] == [Between(head + 1)];
    LeadsTransitive(Fresh(1), cfg, s2, s3);
    LeadsByOne(s3, cfg, Save(0), s4);
    LeadsTransitive(Fresh(1), cfg, s3, s4);
  }

  // ---- An employer that is added and removed ---------------------------------------------------------------------

  predicate IsEmployerLog(log: Log) {
    !log.removed && log.event.Some? && (log.event.value.EmployerAdded? || log.event.value.EmployerRemoved?)
  }

  lemma RunThree(db: Tables, log: Log)
    requires IsEmployerLog(log)
    ensures var p := Program(log);
            |p| == 3 && Run(db, p) == Effect(Effect(Effect(db, p[0]), p[1]), p[2])
  {
    var p := Program(log);
    var d1 := Effect(db, p[0]);
    var d2 := Effect(d1, p[1]);
    RunCons(d2, p[2], []);
    RunCons(d1, p[1], [p[2]]);
    RunCons(db, p[0], [p[1], p[2]]);
    assert p == [p[0]] + [p[1], p[2]] && [p[1], p[2]] == [p[1]] + [p[2]] && [p[2]] == [p[2]] + [];
  }

  lemma EmployerLogEffect(db: Tables, log: Log)
    requires IsEmployerLog(log)
    ensures var (e, after) := (log.event.value, Run(db, Program(log)));
            e.employer in after.employers && after.employers[e.employer].active == e.EmployerAdded?
  {
    RunThree(db, log);
  }

  /** Two blocks: an employer is added, then removed. */
  function AddedThenRemoved(employer: Address, tx1: Hash, tx2: Hash, receipt: Receipt): Setting {
    Setting([Log(LogKey(tx1, 0), 1, 10, receipt, false, Some(EmployerAdded(employer))),
             Log(LogKey(tx2, 0), 2, 20, receipt, false, Some(EmployerRemoved(employer)))], 1)
  }

  lemma AddedThenRemovedWindows(cfg: Setting)
    requires |cfg.logs| == 2 && cfg.logs[0].block == 1 && cfg.logs[1].block == 2 && Decodable(cfg.logs)
    ensures InRange(cfg.logs, 1, 1) == [cfg.logs[0]] && InRange(cfg.logs, 2, 2) == [cfg.logs[1]]
    ensures Programs(InRange(cfg.logs, 1, 1)) == Program(cfg.logs[0]) && Programs(InRange(cfg.logs, 2, 2)) == Program(cfg.logs[1])
    ensures Programs(InRange(cfg.logs, 1, 2)) == Program(cfg.logs[0]) + Program(cfg.logs[1])
  {
    hide Program;
    var rest := cfg.logs[1..];
    assert rest[1..] == [];
    InRangeCons(rest, 1, 1);
    InRangeCons(rest, 2, 2);
    assert InRange(rest, 1, 1) == [] && InRange(rest, 2, 2) == [cfg.logs[1]];
    InRangeSplit(cfg.logs, 1, 1, 2);
    OneProgram(cfg.logs[0]);
    OneProgram(cfg.logs[1]);
    ProgramsConcat([cfg.logs[0]], [cfg.logs[1]]);
  }

  lemma OneProgram(log: Log)
    requires log.event.Some?
    ensures Programs([log]) == Program(log) && Decodable([log])
  {
    hide Program;
    assert [log][1..] == [];
    assert Programs([log]) == Program(log) + Programs([]);
  }

  /** The removed employer is active again, the checkpoint is past both blocks, and nothing will ever replay the removal. */
  lemma WorkersCanLeaveStaleRows(n: nat, employer: Address, tx1: Hash, tx2: Hash, receipt: Receipt) returns (steps: seq<Step>)
    requires n >= 2 && tx1 != tx2
    ensures var cfg := AddedThenRemoved(employer, tx1, tx2, receipt);
            var s := PerformAll(Fresh(n), cfg, steps);
            && Flawless(steps) && CaughtUp(s) && s.safe == 2
            && employer in s.db.employers && s.db.employers[employer].active
            && employer in Clean(cfg, 2).employers && !Clean(cfg, 2).employers[employer].active
    ensures !EndsClean(n, AddedThenRemoved(employer, tx1, tx2, receipt), steps)
  {
    hide Inv, Run, Program, Programs, InRange, Perform, PerformAll, Leads;
    var cfg := AddedThenRemoved(employer, tx1, tx2, receipt);
    var (p1, p2) := (Program(cfg.logs[0]), Program(cfg.logs[1]));
    AddedThenRemovedWindows(cfg);
    OneProgram(cfg.logs[0]);
    OneProgram(cfg.logs[1]);
    SecondWorkerReplays(n, cfg);
    var d2 := Run(Run(EMPTY, p1), p2);
    steps := StepsTo(Fresh(n), cfg, System(Run(d2, p1), Some(2), 2, Crew(n, Between(3), Idle)));
    FlawlessSwallowsNothing(Fresh(n), cfg, steps);
    RunConcat(EMPTY, p1, p2);
    EmployerLogEffect(Run(EMPTY, p1), cfg.logs[1]);
    EmployerLogEffect(d2, cfg.logs[0]);
  }

  lemma StepsTo(s: System, cfg: Setting, t: System) returns (steps: seq<Step>)
    requires Leads(s, cfg, t)
    ensures Flawless(steps) && PerformAll(s, cfg, steps) == t
  {
    steps :| Flawless(steps) && PerformAll(s, cfg, steps) == t;
  }

  // ---- Main result -----------------------------------------------------------------------------------------------

  lemma NobodyCatchesUp(cfg: Setting, steps: seq<Step>)
    ensures EndsClean(0, cfg, steps)
  {
    NobodyMoves(Fresh(0), cfg, steps);
  }

  lemma {:induction false} NobodyMoves(s: System, cfg: Setting, steps: seq<Step>)
    requires s.workers == []
    ensures PerformAll(s, cfg, steps).checkpoint == s.checkpoint
    decreases |steps|
  {
    if steps != [] {
      NobodyMoves(Perform(s, cfg, steps[0]), cfg, steps[1..]);
    }
  }

  lemma SoloEndsClean(cfg: Setting, steps: seq<Step>)
    ensures EndsClean(1, cfg, steps)
  {
    hide Inv, Run, Programs, InRange, Perform, PerformAll, SortedByBlock, UniqueKeys;
    var s := PerformAll(Fresh(1), cfg, steps);
    if SortedByBlock(cfg.logs) && UniqueKeys(cfg.logs) && RunSwallowsNothing(Fresh(1), cfg, steps) && CaughtUp(s) {
      SoloTablesAreClean(cfg, steps);
    }
  }

  /** For every event history and every interleaving without ignored errors, caught-up tables hold the employer and employee
      rows of one clean pass: this is promised exactly when at most one worker runs. */
  lemma RowsAreCleanExactlyWhenSolo(n: nat)
    ensures (forall cfg: Setting, steps: seq<Step> :: EndsClean(n, cfg, steps)) <==> n <= 1
  {
    hide EndsClean;
    if n >= 2 {
      var steps := WorkersCanLeaveStaleRows(n, ZERO_ADDRESS, Hash([]), Hash([0]), Receipt(1, ZERO_ADDRESS, None, 0, true));
      assert !EndsClean(n, AddedThenRemoved(ZERO_ADDRESS, Hash([]), Hash([0]), Receipt(1, ZERO_ADDRESS, None, 0, true)), steps);
    } else {
      forall cfg: Setting, steps: seq<Step>
        ensures EndsClean(n, cfg, steps)
      {
        if n == 0 {
          NobodyCatchesUp(cfg, steps);
        } else {
          SoloEndsClean(cfg, steps);
        }
      }
    }
  }
}
