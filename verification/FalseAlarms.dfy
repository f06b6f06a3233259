/** The payroll indexers and the payroll reconcilers together: whatever the indexers are doing, reconciling a range that
    starts at or after the start block reports nothing (reconciliation/payroll_worker.go with indexer/indexer.go). */
module FalseAlarms {
  import opened Evm
  import opened Words
  import opened PayrollTables
  import opened PayrollWorkers
  import opened ExceptionStore
  import opened LogReconciler
  import E = ExceptionLifecycle
  import R = ReplayConvergence

  // ---- Fundings ------------------------------------------------------------------------------------------

  function FundingRecord(log: Log): ChainRecord
    requires IsFunding(log)
  {
    var e := log.event.value;
    ChainRecord(log.key, log.block, [e.employer, e.employee], [e.amountPaid, e.fee, e.amountCredited])
  }

  function FundingLog(log: Log): RawLog {
    RawLog(log.removed, if IsFunding(log) then Some(FundingRecord(log)) else None)
  }

  function StoredFunding(key: LogKey, row: FundingRow): DbRecord {
    DbRecord(key, row.block, [row.employer, row.employee], [Some(row.amountPaid), Some(row.fee), Some(row.amountCredited)], false)
  }

  /** rows lists the fundings of a block range, in any order. */
  ghost predicate ListsFundings(rows: seq<DbRecord>, db: Tables, from: nat, to: nat) {
    && DistinctKeys(rows)
    && (forall row :: row in rows ==> row.key in db.fundings && row == StoredFunding(row.key, db.fundings[row.key]))
    && (forall key :: key in db.fundings && from <= db.fundings[key].block <= to ==> HasRow(rows, key))
  }

  // ---- Claims --------------------------------------------------------------------------------------------

  function ClaimRecord(log: Log): ChainRecord
    requires IsClaim(log)
  {
    var e := log.event.value;
    ChainRecord(log.key, log.block, [e.employee], [e.amount])
  }

  function ClaimLog(log: Log): RawLog {
    RawLog(log.removed, if IsClaim(log) then Some(ClaimRecord(log)) else None)
  }

  function StoredClaim(key: LogKey, row: ClaimRow): DbRecord {
    DbRecord(key, row.block, [row.employee], [Some(row.amount)], false)
  }

  ghost predicate ListsClaims(rows: seq<DbRecord>, db: Tables, from: nat, to: nat) {
    && DistinctKeys(rows)
    && (forall row :: row in rows ==> row.key in db.claims && row == StoredClaim(row.key, db.claims[row.key]))
    && (forall key :: key in db.claims && from <= db.claims[key].block <= to ==> HasRow(rows, key))
  }

  // ---- One log against the rows --------------------------------------------------------------------------

  lemma FundingIsRepeated(s: System, cfg: Setting, later: System, log: Log, from: nat, to: nat, rows: seq<DbRecord>, safe: nat)
    requires UniqueKeys(cfg.logs) && Reachable(s, cfg) && R.Later(s.db, later.db) && Genuine(later.db, cfg.logs)
    requires log in cfg.logs && IsFunding(log) && cfg.start <= from <= log.block <= to
    requires ListsFundings(rows, later.db, from, to)
    ensures IsRepeated(FundingRecord(log), rows, s.checkpoint, safe)
  {
    hide UniqueKeys, Reachable, Genuine;
    RowsAreExact(later.db, cfg.logs, log);
    var rec := FundingRecord(log);
    if !Lagging(rec, s.checkpoint, safe) {
      Coverage(s, cfg, log);
      assert log.key in later.db.fundings;
    }
  }

  lemma ClaimIsRepeated(s: System, cfg: Setting, later: System, log: Log, from: nat, to: nat, rows: seq<DbRecord>, safe: nat)
    requires UniqueKeys(cfg.logs) && Reachable(s, cfg) && R.Later(s.db, later.db) && Genuine(later.db, cfg.logs)
    requires log in cfg.logs && IsClaim(log) && cfg.start <= from <= log.block <= to
    requires ListsClaims(rows, later.db, from, to)
    ensures IsRepeated(ClaimRecord(log), rows, s.checkpoint, safe)
  {
    hide UniqueKeys, Reachable, Genuine;
    RowsAreExact(later.db, cfg.logs, log);
    var rec := ClaimRecord(log);
    if !Lagging(rec, s.checkpoint, safe) {
      Coverage(s, cfg, log);
      assert log.key in later.db.claims;
    }
  }

  // ---- Main results ----------------------------------------------------------------------------------------

  /** The checkpoint is read in state s, the rows in any later state, in the middle of a batch or not. */
  lemma FundingsAreFaithful(s: System, cfg: Setting, steps: seq<Step>, from: nat, to: nat, rows: seq<DbRecord>, safe: nat)
    requires UniqueKeys(cfg.logs) && Reachable(s, cfg) && cfg.start <= from
    requires ListsFundings(rows, PerformAll(s, cfg, steps).db, from, to)
    ensures Faithful(OnChain(Answer(InRange(cfg.logs, from, to), FundingLog)), rows, s.checkpoint, safe)
  {
    hide OnChain, Lagging, Perform, PerformAll, IsRepeated, UniqueKeys, Answer, Agrees;
    var later, batch := PerformAll(s, cfg, steps), InRange(cfg.logs, from, to);
    var chain := OnChain(Answer(batch, FundingLog));
    InRangeMembers(cfg.logs, from, to);
    ReachableInv(s, cfg);
    RunKeepsInv(s, cfg, steps);
    RunIsLater(s, cfg, steps);
    forall rec | rec in chain
      ensures IsRepeated(rec, rows, s.checkpoint, safe)
    {
      var log := AnswerMembers(batch, FundingLog, rec);
      FundingIsRepeated(s, cfg, later, log, from, to, rows, safe);
    }
    RepeatedIsFaithful(chain, rows, s.checkpoint, safe);
  }

  lemma NoFalseFundingAlarm(s: System, cfg: Setting, steps: seq<Step>, from: nat, to: nat, rows: seq<DbRecord>, safe: nat,
                            ms: seq<E.Mismatch>)
    requires UniqueKeys(cfg.logs) && Reachable(s, cfg) && cfg.start <= from
    requires ListsFundings(rows, PerformAll(s, cfg, steps).db, from, to)
    requires Detected(ms, OnChain(Answer(InRange(cfg.logs, from, to), FundingLog)), rows, s.checkpoint, safe)
    ensures ms == []
  {
    FundingsAreFaithful(s, cfg, steps, from, to, rows, safe);
    FaithfulTablesRaiseNothing(ms, OnChain(Answer(InRange(cfg.logs, from, to), FundingLog)), rows, s.checkpoint, safe);
  }

  /** A pass of the funding reconciler opens nothing and closes only stale exceptions, even when it is interrupted. */
  lemma FundingPassIsQuiet(s: System, cfg: Setting, steps: seq<Step>, from: uint64, to: uint64, safe: uint64, env: Env, scope: E.Scope,
                           before: seq<Exc>, after: seq<Exc>, result: Result<Report>, ms: seq<E.Mismatch>)
    requires UniqueKeys(cfg.logs) && Reachable(s, cfg) && cfg.start <= from
    requires env.Readable() && env.checkpoint.value == s.checkpoint && env.logs.value == Answer(InRange(cfg.logs, from, to), FundingLog)
    requires ListsFundings(env.rows.value, PerformAll(s, cfg, steps).db, from, to)
    requires Outcome(env, scope, from, to, safe, before, after, result, ms)
    ensures QuietPass(scope, from, to, before, after, result)
  {
    hide Outcome, Faithful, OnChain, Answer, InRange, PerformAll, Reachable, UniqueKeys, ListsFundings, QuietPass;
    FundingsAreFaithful(s, cfg, steps, from, to, env.rows.value, safe);
    FaithfulPassIsQuiet(env, scope, from, to, safe, before, after, result, ms);
  }

  /** The same for claims. */
  lemma ClaimsAreFaithful(s: System, cfg: Setting, steps: seq<Step>, from: nat, to: nat, rows: seq<DbRecord>, safe: nat)
    requires UniqueKeys(cfg.logs) && Reachable(s, cfg) && cfg.start <= from
    requires ListsClaims(rows, PerformAll(s, cfg, steps).db, from, to)
    ensures Faithful(OnChain(Answer(InRange(cfg.logs, from, to), ClaimLog)), rows, s.checkpoint, safe)
  {
    hide OnChain, Lagging, Perform, PerformAll, IsRepeated, UniqueKeys, Answer, Agrees;
    var later, batch := PerformAll(s, cfg, steps), InRange(cfg.logs, from, to);
    var chain := OnChain(Answer(batch, ClaimLog));
    InRangeMembers(cfg.logs, from, to);
    ReachableInv(s, cfg);
    RunKeepsInv(s, cfg, steps);
    RunIsLater(s, cfg, steps);
    forall rec | rec in chain
      ensures IsRepeated(rec, rows, s.checkpoint, safe)
    {
      var log := AnswerMembers(batch, ClaimLog, rec);
      ClaimIsRepeated(s, cfg, later, log, from, to, rows, safe);
    }
    RepeatedIsFaithful(chain, rows, s.checkpoint, safe);
  }

  lemma NoFalseClaimAlarm(s: System, cfg: Setting, steps: seq<Step>, from: nat, to: nat, rows: seq<DbRecord>, safe: nat,
                            ms: seq<E.Mismatch>)
    requires UniqueKeys(cfg.logs) && Reachable(s, cfg) && cfg.start <= from
    requires ListsClaims(rows, PerformAll(s, cfg, steps).db, from, to)
    requires Detected(ms, OnChain(Answer(InRange(cfg.logs, from, to), ClaimLog)), rows, s.checkpoint, safe)
    ensures ms == []
  {
    ClaimsAreFaithful(s, cfg, steps, from, to, rows, safe);
    FaithfulTablesRaiseNothing(ms, OnChain(Answer(InRange(cfg.logs, from, to), ClaimLog)), rows, s.checkpoint, safe);
  }

  /** And so does a pass of the claim reconciler. */
  lemma ClaimPassIsQuiet(s: System, cfg: Setting, steps: seq<Step>, from: uint64, to: uint64, safe: uint64, env: Env, scope: E.Scope,
                           before: seq<Exc>, after: seq<Exc>, result: Result<Report>, ms: seq<E.Mismatch>)
    requires UniqueKeys(cfg.logs) && Reachable(s, cfg) && cfg.start <= from
    requires env.Readable() && env.checkpoint.value == s.checkpoint && env.logs.value == Answer(InRange(cfg.logs, from, to), ClaimLog)
    requires ListsClaims(env.rows.value, PerformAll(s, cfg, steps).db, from, to)
    requires Outcome(env, scope, from, to, safe, before, after, result, ms)
    ensures QuietPass(scope, from, to, before, after, result)
  {
    hide Outcome, Faithful, OnChain, Answer, InRange, PerformAll, Reachable, UniqueKeys, ListsClaims, QuietPass;
    ClaimsAreFaithful(s, cfg, steps, from, to, env.rows.value, safe);
    FaithfulPassIsQuiet(env, scope, from, to, safe, before, after, result, ms);
  }
}
