/** The payroll indexing service: a window of logs is fetched, stored and projected log by log, and the checkpoint is
    saved after the window (indexer.go). */
module PayrollIndexer {
  import opened Evm
  import opened Words
  import opened PayrollTables
  import opened PayrollStore
  import opened Ranges
  import R = ReplayConvergence
  import W = PayrollWorkers

  // ---- What one attempt at a window does -----------------------------------------------------------

  /** The environment around one log: RPC failures, and the statements that fail. */
  datatype LogEnv = LogEnv(metadataFails: bool, timestampFails: bool, fails: nat -> bool)

  predicate Blocked(log: Log, now: LogEnv, cached: set<nat>) {
    log.event.None? || now.metadataFails || (log.block !in cached && now.timestampFails)
  }

  /** The logs from position i on; cached holds the blocks whose timestamp is already known. */
  function IndexLogs(db: Tables, logs: seq<Log>, env: nat -> LogEnv, i: nat, cached: set<nat>): (Tables, bool)
    requires i <= |logs|
    decreases |logs| - i
  {
    if i == |logs| then (db, true)
    else
      var log := logs[i];
      if Blocked(log, env(i), cached) then (db, false)
      else
        var p := HandleAll(Session(db, false), Program(log), env(i).fails);
        if p.ok then IndexLogs(p.session.db, logs, env, i + 1, cached + {log.block}) else (p.session.db, false)
  }

  // ---- What every attempt keeps ------------------------------------------------------------------------

  ghost predicate Sound(db: Tables, chain: seq<Log>) {
    W.Genuine(db, chain) && W.ForeignKeysHold(db)
  }

  /** Handling one statement of a log's program keeps the tables sound, loses no row and makes progress. */
  lemma HandledStatementKeeps(db: Tables, chain: seq<Log>, log: Log, pc: nat, known: bool, lost: bool, fails: bool, next: Session)
    returns (lost': bool)
    requires W.UniqueKeys(chain) && log in chain && log.event.Some? && pc < |Program(log)|
    requires Sound(db, chain) && W.Established(db, log, pc, known, lost)
    requires Handle(Session(db, known), Program(log)[pc], fails) == Some(next)
    ensures Sound(next.db, chain) && R.Later(db, next.db)
    ensures W.Established(next.db, log, pc + 1, next.known, lost')
  {
    var st := Program(log)[pc];
    if !fails && Allowed(db, st, known) {
      lost' := lost;
      W.StatementIsDone(Session(db, known), st);
      W.StatementEstablishes(db, log, pc, known, lost);
      W.StatementKeepsForeignKeys(db, st, known);
      W.StatementKeepsGenuine(db, chain, log, pc, known);
      if st.CheckEmployee? {
        assert next.db == db;
      }
    } else {
      lost' := true;
      W.LaterReflexive(db);
      W.SwallowEstablishes(db, log, pc, known, lost);
    }
  }

  /** Handling the rest of a log's program keeps the tables sound, loses no row, and stores the log when it finishes. */
  lemma {:induction false} HandledProgramKeeps(db: Tables, chain: seq<Log>, log: Log, program: seq<Statement>, pc: nat,
                                               known: bool, lost: bool, fails: nat -> bool, p: Progress)
    requires W.UniqueKeys(chain) && log in chain && log.event.Some? && program == Program(log) && pc <= |program|
    requires Sound(db, chain) && W.Established(db, log, pc, known, lost)
    requires p == HandleAll(Session(db, known), program[pc..], fails, pc)
    ensures Sound(p.session.db, chain) && R.Later(db, p.session.db)
    ensures p.ok ==> W.Stored(p.session.db, log)
    decreases |program| - pc
  {
    hide Program, Write, Allowed, W.Established, Sound, R.Later, W.Stored;
    if pc == |program| {
      W.LaterReflexive(db);
      W.FinishedProgramIsStored(db, log, known, lost);
    } else {
      var s := Session(db, known);
      var rest := program[pc + 1..];
      assert program[pc..] == [program[pc]] + rest;
      match Handle(s, program[pc], fails(pc))
      case None =>
        HandleStops(s, program[pc], rest, fails, pc);
        W.LaterReflexive(db);
      case Some(next) =>
        HandleCons(s, program[pc], rest, fails, pc, next);
        var lost' := HandledStatementKeeps(db, chain, log, pc, known, lost, fails(pc), next);
        HandledProgramKeeps(next.db, chain, log, program, pc + 1, next.known, lost', fails, p);
        R.LaterTransitive(db, next.db, p.session.db);
    }
  }

  /** The same for a whole log. */
  lemma HandledLogKeeps(db: Tables, chain: seq<Log>, log: Log, fails: nat -> bool, p: Progress)
    requires W.UniqueKeys(chain) && log in chain && log.event.Some? && Sound(db, chain)
    requires p == HandleAll(Session(db, false), Program(log), fails)
    ensures Sound(p.session.db, chain) && R.Later(db, p.session.db)
    ensures p.ok ==> W.Stored(p.session.db, log)
  {
    assert Program(log)[0..] == Program(log);
    HandledProgramKeeps(db, chain, log, Program(log), 0, false, false, fails, p);
  }

  lemma IndexLogsStep(db: Tables, logs: seq<Log>, env: nat -> LogEnv, i: nat, cached: set<nat>, p: Progress)
    requires i < |logs| && !Blocked(logs[i], env(i), cached)
    requires p == HandleAll(Session(db, false), Program(logs[i]), env(i).fails)
    ensures IndexLogs(db, logs, env, i, cached) ==
            if p.ok then IndexLogs(p.session.db, logs, env, i + 1, cached + {logs[i].block}) else (p.session.db, false)
  {
  }

  lemma IndexLogsStops(db: Tables, logs: seq<Log>, env: nat -> LogEnv, i: nat, cached: set<nat>)
    requires i <= |logs|
    ensures i == |logs| ==> IndexLogs(db, logs, env, i, cached) == (db, true)
    ensures i < |logs| && Blocked(logs[i], env(i), cached) ==> IndexLogs(db, logs, env, i, cached) == (db, false)
  {
  }

  ghost predicate AllStored(db: Tables, logs: seq<Log>, i: nat) {
    forall j :: i <= j < |logs| ==> W.Stored(db, logs[j])
  }

  lemma {:induction false} IndexLogsKeeps(db: Tables, chain: seq<Log>, logs: seq<Log>, env: nat -> LogEnv, i: nat,
                                          cached: set<nat>, db': Tables, ok: bool)
    requires W.UniqueKeys(chain) && i <= |logs| && (forall j :: 0 <= j < |logs| ==> logs[j] in chain)
    requires Sound(db, chain) && (db', ok) == IndexLogs(db, logs, env, i, cached)
    ensures Sound(db', chain) && R.Later(db, db')
    ensures ok ==> AllStored(db', logs, i)
    decreases |logs| - i
  {
    hide Program, HandleAll, Sound, R.Later, W.Stored;
    W.LaterReflexive(db);
    if i < |logs| && !Blocked(logs[i], env(i), cached) {
      var p := HandleAll(Session(db, false), Program(logs[i]), env(i).fails);
      IndexLogsStep(db, logs, env, i, cached, p);
      HandledLogKeeps(db, chain, logs[i], env(i).fails, p);
      if p.ok {
        IndexLogsKeeps(p.session.db, chain, logs, env, i + 1, cached + {logs[i].block}, db', ok);
        R.LaterTransitive(db, p.session.db, db');
        W.LaterKeepsStored(p.session.db, db', logs[i]);
      }
    }
  }

  // ---- Attempts without swallowed errors are prefixes of the statement list --------------------------

  ghost predicate CrashOnly(logs: seq<Log>, env: nat -> LogEnv) {
    forall i :: 0 <= i < |logs| && logs[i].event.Some? ==> NothingSwallowed(logs[i], env(i).fails)
  }

  ghost predicate NothingSwallowed(log: Log, fails: nat -> bool)
    requires log.event.Some?
  {
    forall pc :: 0 <= pc < |Program(log)| && fails(pc) ==> !Swallowable(Program(log)[pc])
  }

  /** While a claim runs alone, the remembered answer is still true when the placeholders are written. */
  predicate GuardIsCurrent(db: Tables, log: Log, pc: nat, known: bool)
    requires log.event.Some?
  {
    !log.removed && log.event.value.SalaryClaimed? && 3 <= pc <= 4 ==> known == (log.event.value.employee in db.employees)
  }

  /** No error was swallowed so far, and nobody else ran. */
  ghost predicate Undisturbed(db: Tables, log: Log, pc: nat, known: bool) {
    && log.event.Some? && pc <= |Program(log)| && W.ForeignKeysHold(db)
    && W.Established(db, log, pc, known, false) && GuardIsCurrent(db, log, pc, known)
  }

  lemma GuardStep(db: Tables, log: Log, pc: nat, known: bool)
    requires log.event.Some? && pc < |Program(log)| && GuardIsCurrent(db, log, pc, known)
    ensures var after := Execute(Session(db, known), Program(log)[pc]);
            after.db == Effect(db, Program(log)[pc]) && GuardIsCurrent(after.db, log, pc + 1, after.known)
  {
    var st := Program(log)[pc];
    if pc >= 2 {
      assert st == Projection(log, log.event.value)[pc - 2];
    }
  }

  lemma CleanStatement(db: Tables, log: Log, pc: nat, known: bool) returns (next: Session)
    requires Undisturbed(db, log, pc, known) && pc < |Program(log)|
    ensures Handle(Session(db, known), Program(log)[pc], false) == Some(next)
    ensures next.db == Effect(db, Program(log)[pc]) && Undisturbed(next.db, log, pc + 1, next.known)
  {
    next := Execute(Session(db, known), Program(log)[pc]);
    W.EstablishedIsAllowed(db, log, pc, known);
    GuardStep(db, log, pc, known);
    W.StatementEstablishes(db, log, pc, known, false);
    W.StatementKeepsForeignKeys(db, Program(log)[pc], known);
    if Program(log)[pc].CheckEmployee? {
      assert next.db == db;
    }
  }

  /** The rest of a program under failures that are not swallowed. */
  lemma RunStep(db: Tables, program: seq<Statement>, pc: nat, k: nat, next: Session, known: bool, fails: nat -> bool)
    requires pc < |program| && pc + 1 + k <= |program|
    requires !fails(pc) && Handle(Session(db, known), program[pc], false) == Some(next)
    requires next.db == Effect(db, program[pc])
    ensures HandleAll(Session(db, known), program[pc..], fails, pc) == HandleAll(next, program[pc + 1..], fails, pc + 1)
    ensures Run(db, program[pc..pc + 1 + k]) == Run(next.db, program[pc + 1..pc + 1 + k])
  {
    assert program[pc..] == [program[pc]] + program[pc + 1..];
    HandleCons(Session(db, known), program[pc], program[pc + 1..], fails, pc, next);
    assert program[pc..pc + 1 + k] == [program[pc]] + program[pc + 1..pc + 1 + k];
    RunCons(db, program[pc], program[pc + 1..pc + 1 + k]);
  }

  lemma FailedStep(db: Tables, program: seq<Statement>, pc: nat, known: bool, fails: nat -> bool)
    requires pc < |program| && fails(pc) && !Swallowable(program[pc])
    ensures HandleAll(Session(db, known), program[pc..], fails, pc) == Progress(Session(db, known), false)
  {
    assert program[pc..] == [program[pc]] + program[pc + 1..];
    HandleStops(Session(db, known), program[pc], program[pc + 1..], fails, pc);
  }

  /** A program whose swallowed statements succeed commits a prefix of its statements, and all of them when no
      statement fails. */
  lemma {:induction false} CrashedProgramIsPrefix(db: Tables, log: Log, program: seq<Statement>, pc: nat, known: bool,
                                                  fails: nat -> bool, p: Progress) returns (k: nat)
    requires Undisturbed(db, log, pc, known) && program == Program(log)
    requires forall j :: pc <= j < |program| && fails(j) ==> !Swallowable(program[j])
    requires p == HandleAll(Session(db, known), program[pc..], fails, pc)
    ensures k <= |program| - pc && p.session.db == Run(db, program[pc..pc + k])
    ensures W.ForeignKeysHold(p.session.db)
    ensures if p.ok then k == |program| - pc else exists j :: pc <= j < |program| && fails(j)
    decreases |program| - pc
  {
    hide Program, Write, Allowed, W.ForeignKeysHold, W.Established, GuardIsCurrent;
    k := 0;
    if pc < |program| {
      if fails(pc) {
        FailedStep(db, program, pc, known, fails);
      } else {
        var next := CleanStatement(db, log, pc, known);
        RunStep(db, program, pc, 0, next, known, fails);
        var rest := CrashedProgramIsPrefix(next.db, log, program, pc + 1, next.known, fails, p);
        RunStep(db, program, pc, rest, next, known, fails);
        k := rest + 1;
      }
    }
  }

  lemma CrashedLogIsPrefix(db: Tables, log: Log, fails: nat -> bool, p: Progress) returns (k: nat)
    requires log.event.Some? && W.ForeignKeysHold(db)
    requires NothingSwallowed(log, fails)
    requires p == HandleAll(Session(db, false), Program(log), fails)
    ensures k <= |Program(log)| && p.session.db == Run(db, Program(log)[..k]) && W.ForeignKeysHold(p.session.db)
    ensures p.ok ==> k == |Program(log)| && p.session.db == Run(db, Program(log))
    ensures !p.ok ==> exists j: nat :: fails(j)
  {
    assert Program(log)[0..] == Program(log);
    k := CrashedProgramIsPrefix(db, log, Program(log), 0, false, fails, p);
    assert Program(log)[0..k] == Program(log)[..k];
    assert Program(log)[..|Program(log)|] == Program(log);
  }

  /** The first log of an attempt: either the attempt ends inside it, or it goes on with the next log. */
  lemma FirstLogOfAttempt(db: Tables, logs: seq<Log>, env: nat -> LogEnv, i: nat, cached: set<nat>)
    returns (db1: Tables, goesOn: bool, first: seq<Statement>, tail: seq<Statement>, n: nat)
    requires i < |logs| && W.ForeignKeysHold(db) && CrashOnly(logs, env) && !Blocked(logs[i], env(i), cached)
    ensures Programs(logs[i..]) == first + tail && tail == Programs(logs[i + 1..])
    ensures n <= |first| && db1 == Run(db, first[..n]) && W.ForeignKeysHold(db1)
    ensures goesOn ==> db1 == Run(db, first)
    ensures !goesOn ==> !NothingFails(logs, env)
    ensures Decodable(logs[i + 1..]) <==> Decodable(logs[i..])
    ensures IndexLogs(db, logs, env, i, cached) ==
            if goesOn then IndexLogs(db1, logs, env, i + 1, cached + {logs[i].block}) else (db1, false)
  {
    var p := HandleAll(Session(db, false), Program(logs[i]), env(i).fails);
    IndexLogsStep(db, logs, env, i, cached, p);
    n := CrashedLogIsPrefix(db, logs[i], env(i).fails, p);
    ConsPrograms(logs, i);
    assert CleanLog(env(i)) ==> p.ok;
    db1, goesOn, first, tail := p.session.db, p.ok, Program(logs[i]), Programs(logs[i + 1..]);
  }

  lemma BlockedAttempt(db: Tables, logs: seq<Log>, env: nat -> LogEnv, i: nat, cached: set<nat>)
    requires i < |logs| && Blocked(logs[i], env(i), cached)
    ensures IndexLogs(db, logs, env, i, cached) == (db, false)
    ensures !(Decodable(logs[i..]) && NothingFails(logs, env))
  {
    if Decodable(logs[i..]) {
      assert logs[i..][0] == logs[i];
      assert !CleanLog(env(i));
    }
  }

  /** An attempt that only crashes leaves the tables as a prefix of the window's statements does; if nothing fails it
      runs them all and succeeds exactly when every log can be decoded. */
  lemma {:induction false} CrashedAttemptIsPrefix(db: Tables, logs: seq<Log>, env: nat -> LogEnv, i: nat, cached: set<nat>,
                                                  db': Tables, ok: bool) returns (k: nat)
    requires i <= |logs| && W.ForeignKeysHold(db) && CrashOnly(logs, env)
    requires (db', ok) == IndexLogs(db, logs, env, i, cached)
    ensures k <= |Programs(logs[i..])| && db' == Run(db, Programs(logs[i..])[..k])
    ensures ok ==> k == |Programs(logs[i..])| && Decodable(logs[i..])
    ensures Decodable(logs[i..]) && NothingFails(logs, env) ==> ok
    decreases |logs| - i
  {
    hide Programs, Run, W.ForeignKeysHold, NothingFails, CrashOnly;
    var sts := Programs(logs[i..]);
    NoStatements(db, sts);
    if i == |logs| {
      NoLogs(logs);
      k := 0;
    } else if Blocked(logs[i], env(i), cached) {
      BlockedAttempt(db, logs, env, i, cached);
      k := 0;
    } else {
      var db1, goesOn, first, tail, n := FirstLogOfAttempt(db, logs, env, i, cached);
      if goesOn {
        var m := CrashedAttemptIsPrefix(db1, logs, env, i + 1, cached + {logs[i].block}, db', ok);
        WholeThenPrefix(db, sts, first, tail, m, db1, db');
        k := |first| + m;
      } else {
        PrefixOfFirst(db, sts, first, tail, n, db');
        k := n;
      }
    }
  }

  lemma NoLogs(logs: seq<Log>)
    ensures Programs(logs[|logs|..]) == []
  {
  }

  lemma NoStatements(db: Tables, sts: seq<Statement>)
    ensures Run(db, sts[..0]) == db
  {
  }

  lemma ConsPrograms(logs: seq<Log>, i: nat)
    requires i < |logs| && logs[i].event.Some?
    ensures Programs(logs[i..]) == Program(logs[i]) + Programs(logs[i + 1..])
    ensures Decodable(logs[i + 1..]) <==> Decodable(logs[i..])
  {
    assert logs[i..] == [logs[i]] + logs[i + 1..];
    assert logs[i..][1..] == logs[i + 1..];
  }

  lemma WholeThenPrefix(db: Tables, sts: seq<Statement>, first: seq<Statement>, tail: seq<Statement>, m: nat,
                        db1: Tables, db2: Tables)
    requires sts == first + tail && m <= |tail| && db1 == Run(db, first) && db2 == Run(db1, tail[..m])
    ensures |first| + m <= |sts| && db2 == Run(db, sts[..|first| + m])
  {
    assert sts[..|first| + m] == first + tail[..m];
    RunConcat(db, first, tail[..m]);
  }

  lemma PrefixOfFirst(db: Tables, sts: seq<Statement>, first: seq<Statement>, tail: seq<Statement>, n: nat, db1: Tables)
    requires sts == first + tail && n <= |first| && db1 == Run(db, first[..n])
    ensures n <= |sts| && db1 == Run(db, sts[..n])
  {
    assert sts[..n] == first[..n];
  }

  ghost predicate NothingFails(logs: seq<Log>, env: nat -> LogEnv) {
    forall i :: 0 <= i < |logs| ==> CleanLog(env(i))
  }

  ghost predicate CleanLog(e: LogEnv) {
    !e.metadataFails && !e.timestampFails && forall pc :: !e.fails(pc)
  }

  /** Every log from position i on was decoded and its transaction was fetched, and so was the timestamp of every block that
      is not cached, with the first log of the block. */
  ghost predicate Fetched(logs: seq<Log>, env: nat -> LogEnv, i: nat, cached: set<nat>) {
    forall j :: i <= j < |logs| ==>
      && logs[j].event.Some? && !env(j).metadataFails
      && (env(j).timestampFails ==> logs[j].block in cached || exists k :: i <= k < j && logs[k].block == logs[j].block)
  }

  lemma FetchedOneMore(logs: seq<Log>, env: nat -> LogEnv, i: nat, cached: set<nat>)
    requires i < |logs|
    ensures Fetched(logs, env, i, cached) <==> !Blocked(logs[i], env(i), cached) && Fetched(logs, env, i + 1, cached + {logs[i].block})
  {
    if Fetched(logs, env, i, cached) {
      assert !Blocked(logs[i], env(i), cached);
    }
  }

  /** An attempt in which no statement fails succeeds exactly when everything could be decoded and fetched, and no attempt
      succeeds otherwise. */
  lemma {:induction false} AttemptSucceedsExactlyWhen(db: Tables, logs: seq<Log>, env: nat -> LogEnv, i: nat, cached: set<nat>)
    requires i <= |logs|
    ensures IndexLogs(db, logs, env, i, cached).1 ==> Fetched(logs, env, i, cached)
    ensures W.ForeignKeysHold(db) && Fetched(logs, env, i, cached) && (forall j, pc :: !env(j).fails(pc)) ==>
              IndexLogs(db, logs, env, i, cached).1
    decreases |logs| - i
  {
    hide W.ForeignKeysHold, Fetched;
    if i < |logs| {
      FetchedOneMore(logs, env, i, cached);
      if !Blocked(logs[i], env(i), cached) {
        var p := HandleAll(Session(db, false), Program(logs[i]), env(i).fails);
        IndexLogsStep(db, logs, env, i, cached, p);
        if W.ForeignKeysHold(db) && forall j, pc :: !env(j).fails(pc) {
          var k := CrashedLogIsPrefix(db, logs[i], env(i).fails, p);
        }
        AttemptSucceedsExactlyWhen(p.session.db, logs, env, i + 1, cached + {logs[i].block});
      }
    } else {
      assert Fetched(logs, env, i, cached) by { NothingToFetch(logs, env, cached); }
    }
  }

  lemma NothingToFetch(logs: seq<Log>, env: nat -> LogEnv, cached: set<nat>)
    ensures Fetched(logs, env, |logs|, cached)
  {
  }

  // ---- The service --------------------------------------------------------------------------------------

  /** The attempts RetryRange makes at one window, then the header fetch and the checkpoint write. */
  datatype WindowEnv = WindowEnv(attempts: seq<AttemptEnv>, headerFails: bool, saveFails: bool)

  datatype AttemptEnv = AttemptEnv(logsFail: bool, logs: nat -> LogEnv)

  /** Nothing fails in one of the attempts, nor afterwards. */
  ghost predicate CleanAttempt(e: AttemptEnv) {
    !e.logsFail && forall j :: CleanLog(e.logs(j))
  }

  ghost predicate SomeCleanAttempt(attempts: seq<AttemptEnv>) {
    exists i :: 0 <= i < |attempts| && CleanAttempt(attempts[i])
  }

  ghost predicate CleanWindow(now: WindowEnv) {
    SomeCleanAttempt(now.attempts) && !now.headerFails && !now.saveFails
  }

  /** Every log of the blocks can be decoded. */
  predicate DecodableBlocks(chain: seq<Log>, lo: int, hi: int) {
    forall l :: l in chain && lo <= l.block <= hi ==> l.event.Some?
  }

  /** An attempt without failures succeeds when the window can be decoded. */
  lemma CleanAttemptSucceeds(db: Tables, chain: seq<Log>, lo: int, hi: int, e: AttemptEnv, db': Tables, ok: bool)
    requires W.ForeignKeysHold(db) && CleanAttempt(e) && DecodableBlocks(chain, lo, hi)
    requires (db', ok) == IndexLogs(db, InRange(chain, lo, hi), e.logs, 0, {})
    ensures ok
  {
    hide IndexLogs, W.ForeignKeysHold;
    var logs := InRange(chain, lo, hi);
    InRangeMembers(chain, lo, hi);
    assert logs[0..] == logs && Decodable(logs);
    CleanIsCrashOnly(logs, e);
    var k := CrashedAttemptIsPrefix(db, logs, e.logs, 0, {}, db', ok);
  }

  lemma CleanIsCrashOnly(logs: seq<Log>, e: AttemptEnv)
    requires CleanAttempt(e)
    ensures CrashOnly(logs, e.logs) && NothingFails(logs, e.logs)
  {
    forall i | 0 <= i < |logs| && logs[i].event.Some?
      ensures NothingSwallowed(logs[i], e.logs(i).fails)
    {
      assert CleanLog(e.logs(i));
    }
  }

  /** The next batch of a backfill. */
  lemma BatchWithin(chain: seq<Log>, first: uint64, from: uint64, batch: uint64, target: uint64)
    requires first <= from <= target && batch > 0
    ensures BatchEnd(from, batch, target) <= target
    ensures target + batch <= TWO_TO_64 ==> from <= BatchEnd(from, batch, target)
    ensures DecodableBlocks(chain, first, target) ==> DecodableBlocks(chain, from, BatchEnd(from, batch, target))
  {
    BatchEndIsValidExactlyWithoutOverflow(from, batch, target);
  }

  /** The block after n whole batches. */
  ghost function WholeBatches(from: int, batch: int, n: nat): int {
    if n == 0 then from else WholeBatches(from, batch, n - 1) + batch
  }

  lemma {:induction false} WholeBatchesMultiply(from: int, batch: int, n: nat)
    ensures WholeBatches(from, batch, n) == from + n * batch
  {
    if n > 0 {
      WholeBatchesMultiply(from, batch, n - 1);
    }
  }

  lemma BatchIsWhole(from: uint64, batch: uint64, target: uint64)
    requires batch > 0 && from <= target && from <= BatchEnd(from, batch, target)
    ensures BatchEnd(from, batch, target) == Min(from + batch - 1, target)
  {
    BatchEndIsValidExactlyWithoutOverflow(from, batch, target);
    NextRangeIsUnbounded(from, target, batch);
  }

  lemma FailedQueryIsNotClean(e: AttemptEnv)
    ensures e.logsFail ==> !CleanAttempt(e)
  {
  }

  class Service {
    const chain: seq<Log>
    const stream: string
    const db: Postgres

    constructor (chain: seq<Log>, stream: string, db: Postgres)
      ensures this.chain == chain && this.stream == stream && this.db == db
    {
      this.chain, this.stream, this.db := chain, stream, db;
    }

    /** The tables are sound and everything from startBlock to the checkpoint is stored. */
    ghost predicate Valid(startBlock: uint64)
      reads this, db
    {
      && W.UniqueKeys(chain)
      && Sound(db.Snapshot(), chain)
      && var cp := db.GetCheckpoint(stream);
         cp.Some? ==> startBlock <= cp.value < MAX_UINT64 && W.Covered(db.Snapshot(), chain, startBlock, cp.value)
    }

    function EffectiveStart(startBlock: uint64): uint64
      reads this, db
    {
      var cp := db.GetCheckpoint(stream);
      if cp.Some? then Wrap(cp.value + 1) else startBlock
    }

    method IndexRange(fromBlock: uint64, toBlock: uint64, env: AttemptEnv) returns (ok: bool)
      modifies db`transactions, db`events, db`employers, db`employees, db`fundings, db`claims
      ensures (db.Snapshot(), ok) ==
              if fromBlock > toBlock || env.logsFail then (old(db.Snapshot()), false)
              else IndexLogs(old(db.Snapshot()), InRange(chain, fromBlock, toBlock), env.logs, 0, {})
    {
      if fromBlock > toBlock || env.logsFail {
        return false;
      }
      hide InRange, HandleAll, Program, IndexLogs;
      var logs := InRange(chain, fromBlock, toBlock);
      var timestampCache: set<nat> := {};
      var i := 0;
      while i < |logs|
        invariant 0 <= i <= |logs|
        invariant IndexLogs(db.Snapshot(), logs, env.logs, i, timestampCache)
                  == IndexLogs(old(db.Snapshot()), logs, env.logs, 0, {})
      {
        var log, now := logs[i], env.logs(i);
        IndexLogsStops(db.Snapshot(), logs, env.logs, i, timestampCache);
        if log.event.None? || now.metadataFails {
          return false;
        }
        ghost var before, known := db.Snapshot(), timestampCache;
        if log.block !in timestampCache {
          if now.timestampFails {
            return false;
          }
          timestampCache := timestampCache + {log.block};
        }
        ok := IndexLog(log, now.fails);
        IndexLogsStep(before, logs, env.logs, i, known, HandleAll(Session(before, false), Program(log), now.fails));
        assert known + {log.block} == timestampCache;
        if !ok {
          return;
        }
        i := i + 1;
      }
      IndexLogsStops(db.Snapshot(), logs, env.logs, i, timestampCache);
      ok := true;
    }

    /** Transaction, raw event, then the projection unless the log was removed. */
    method IndexLog(log: Log, fails: nat -> bool) returns (ok: bool)
      requires log.event.Some?
      modifies db`transactions, db`events, db`employers, db`employees, db`fundings, db`claims
      ensures var p := HandleAll(Session(old(db.Snapshot()), false), Program(log), fails);
              p.session.db == db.Snapshot() && p.ok == ok
    {
      hide HandleAll, Projection, Program, Write, Allowed;
      HandleProgram(Session(db.Snapshot(), false), log, fails);
      ok := db.Exec(SaveTransaction(log.key.tx, log.receipt), false, fails(0));
      if !ok {
        return;
      }
      ok := db.Exec(SaveChainEvent(log.key, EventOf(log, log.event.value)), false, fails(1));
      if !ok {
        return;
      }
      ghost var s2 := Session(db.Snapshot(), false);
      if log.removed {
        HandleNothing(s2, fails, 2);
      } else {
        var rest: nat -> bool := (i: nat) => fails(i + 2);
        ok := db.ProjectPayrollEvent(log, log.event.value, rest);
        HandleShift(s2, Projection(log, log.event.value), fails, rest, 0, 2);
      }
    }

    /** A window is tried until an attempt succeeds or the retries are used up. */
    method IndexRangeWithRetry(fromBlock: uint64, toBlock: uint64, attempts: seq<AttemptEnv>) returns (ok: bool)
      requires W.UniqueKeys(chain) && Sound(db.Snapshot(), chain)
      modifies db`transactions, db`events, db`employers, db`employees, db`fundings, db`claims
      ensures Sound(db.Snapshot(), chain) && R.Later(old(db.Snapshot()), db.Snapshot())
      ensures ok ==> fromBlock <= toBlock && W.Covered(db.Snapshot(), chain, fromBlock, toBlock)
      // one attempt in which nothing fails is enough for a window that can be decoded
      ensures fromBlock <= toBlock && DecodableBlocks(chain, fromBlock, toBlock) && SomeCleanAttempt(attempts) ==> ok
    {
      hide IndexLogs, W.Covered, W.UniqueKeys, R.Later, InRange, CleanAttempt, DecodableBlocks;
      ok := false;
      var i := 0;
      W.LaterReflexive(db.Snapshot());
      while i < |attempts| && !ok
        invariant 0 <= i <= |attempts|
        invariant Sound(db.Snapshot(), chain) && R.Later(old(db.Snapshot()), db.Snapshot())
        invariant ok ==> fromBlock <= toBlock && W.Covered(db.Snapshot(), chain, fromBlock, toBlock)
        invariant fromBlock <= toBlock && DecodableBlocks(chain, fromBlock, toBlock) && !ok ==>
                    forall j :: 0 <= j < i ==> !CleanAttempt(attempts[j])
      {
        ghost var before := db.Snapshot();
        ok := IndexRange(fromBlock, toBlock, attempts[i]);
        InRangeMembers(chain, fromBlock, toBlock);
        ghost var logs := InRange(chain, fromBlock, toBlock);
        if fromBlock <= toBlock && !attempts[i].logsFail {
          IndexLogsKeeps(before, chain, logs, attempts[i].logs, 0, {}, db.Snapshot(), ok);
          if CleanAttempt(attempts[i]) && DecodableBlocks(chain, fromBlock, toBlock) {
            CleanAttemptSucceeds(before, chain, fromBlock, toBlock, attempts[i], db.Snapshot(), ok);
          }
        } else {
          FailedQueryIsNotClean(attempts[i]);
        }
        W.LaterReflexive(before);
        R.LaterTransitive(old(db.Snapshot()), before, db.Snapshot());
        assert ok ==> W.Covered(db.Snapshot(), chain, fromBlock, toBlock) by {
          if ok {
            StoredWindowIsCovered(db.Snapshot(), chain, fromBlock, toBlock);
          }
        }
        i := i + 1;
      }
    }

    /** Each finished window advances the checkpoint; the first window that fails ends the backfill. */
    method RunBackfill(startBlock: uint64, targetBlock: uint64, batchSize: uint64, env: nat -> WindowEnv)
      returns (lastIndexed: uint64, ok: bool, ghost windows: nat)
      requires Valid(startBlock) && targetBlock < MAX_UINT64
      modifies db
      ensures Valid(startBlock) && R.Later(old(db.Snapshot()), db.Snapshot())
      // only this stream's checkpoint moves, and only to the end of a finished window
      ensures forall s :: s != stream ==> Get(db.checkpoints, s) == Get(old(db.checkpoints), s)
      ensures db.GetCheckpoint(stream) == old(db.GetCheckpoint(stream))
              || (db.GetCheckpoint(stream).Some?
                  && old(EffectiveStart(startBlock)) <= db.GetCheckpoint(stream).value <= targetBlock)
      // it goes on after the checkpoint, or begins at startBlock
      ensures old(EffectiveStart(startBlock)) ==
              old(if db.GetCheckpoint(stream).Some? then db.GetCheckpoint(stream).value + 1 else startBlock)
      // the finished windows hold a whole batch each, except that the last may be cut at the target
      ensures var batch := if batchSize == 0 then 50 else batchSize;
              var end := WholeBatches(old(EffectiveStart(startBlock)), batch, windows);
              && (windows > 0 ==> db.GetCheckpoint(stream) == Some(Min(end - 1, targetBlock)))
              && (windows == 0 ==> db.checkpoints == old(db.checkpoints))
              && (windows > 0 ==> end - batch <= targetBlock)
              && (ok <==> end > targetBlock)
      // success means that the target is reached, or was already passed
      ensures ok ==> lastIndexed == targetBlock
                     && (if old(EffectiveStart(startBlock)) > targetBlock then db.checkpoints == old(db.checkpoints)
                         else db.GetCheckpoint(stream) == Some(targetBlock))
      // a failure reports the last finished window; before the first window that is one below the start, wrapped
      ensures !ok ==> Some(lastIndexed) == if db.checkpoints == old(db.checkpoints) then Some(Wrap(old(EffectiveStart(startBlock)) - 1))
                                           else db.GetCheckpoint(stream)
      // when nothing fails, every log can be decoded and no batch end wraps, the target is reached
      ensures && (forall n :: CleanWindow(env(n)))
              && DecodableBlocks(chain, old(EffectiveStart(startBlock)), targetBlock)
              && targetBlock + (if batchSize == 0 then 50 else batchSize) <= TWO_TO_64
              ==> ok
    {
      hide W.Covered, Sound, R.Later, W.UniqueKeys, CleanWindow, DecodableBlocks, BatchEnd, Wrap, EffectiveStart;
      ResumesAfterTheCheckpoint(startBlock);
      var batch := if batchSize == 0 then 50 else batchSize;
      var fromBlock := EffectiveStart(startBlock);
      W.LaterReflexive(db.Snapshot());
      windows := 0;
      if fromBlock > targetBlock {
        return targetBlock, true, windows;
      }
      lastIndexed := Wrap(fromBlock - 1);
      var from: uint64, window := fromBlock, 0;
      ghost var end: int := fromBlock;
      while from <= targetBlock
        invariant fromBlock <= from <= targetBlock + 1
        invariant windows == window && end == WholeBatches(fromBlock, batch, windows) && from == Min(end, targetBlock + 1)
        invariant windows > 0 ==> end - batch <= targetBlock
        invariant windows == 0 <==> from == fromBlock
        invariant Valid(startBlock) && R.Later(old(db.Snapshot()), db.Snapshot())
        invariant startBlock <= from && (startBlock >= from || W.Covered(db.Snapshot(), chain, startBlock, from - 1))
        invariant forall s :: s != stream ==> Get(db.checkpoints, s) == Get(old(db.checkpoints), s)
        invariant if from == fromBlock then db.checkpoints == old(db.checkpoints) && lastIndexed == Wrap(fromBlock - 1)
                  else stream in db.checkpoints && db.checkpoints[stream] == from - 1 == lastIndexed
                       && db.checkpoints != old(db.checkpoints)
        decreases targetBlock + 1 - from
      {
        var to := BatchEnd(from, batch, targetBlock);
        ghost var before := db.Snapshot();
        BatchWithin(chain, fromBlock, from, batch, targetBlock);
        var done := IndexWindow(startBlock, from, to, env(window));
        R.LaterTransitive(old(db.Snapshot()), before, db.Snapshot());
        if !done {
          return lastIndexed, false, windows;
        }
        BatchIsWhole(from, batch, targetBlock);
        lastIndexed := to;
        from := to + 1;
        window, windows, end := window + 1, windows + 1, end + batch;
      }
      ok := true;
    }

    /** One window of the backfill: index with retries, fetch the header, save the checkpoint. */
    method IndexWindow(startBlock: uint64, from: uint64, to: uint64, now: WindowEnv) returns (ok: bool)
      requires Valid(startBlock) && to < MAX_UINT64
      requires startBlock >= from || W.Covered(db.Snapshot(), chain, startBlock, from - 1)
      requires startBlock <= from
      modifies db
      ensures Valid(startBlock) && R.Later(old(db.Snapshot()), db.Snapshot())
      ensures db.checkpoints == if ok then old(db.checkpoints)[stream := to] else old(db.checkpoints)
      ensures ok ==> from <= to && W.Covered(db.Snapshot(), chain, startBlock, to)
      ensures from <= to && DecodableBlocks(chain, from, to) && CleanWindow(now) ==> ok
    {
      hide SomeCleanAttempt, DecodableBlocks;
      ghost var before := db.Snapshot();
      ok := IndexRangeWithRetry(from, to, now.attempts);
      KeepsValid(before, startBlock);
      if !ok || now.headerFails {
        return false;
      }
      if from > startBlock {
        W.LaterKeepsCovered(before, db.Snapshot(), chain, startBlock, from - 1);
      }
      AdjacentCovered(db.Snapshot(), chain, startBlock, from, to);
      ok := db.SaveCheckpoint(stream, to, now.saveFails);
    }

    lemma ResumesAfterTheCheckpoint(startBlock: uint64)
      requires Valid(startBlock)
      ensures EffectiveStart(startBlock) == if db.GetCheckpoint(stream).Some? then db.GetCheckpoint(stream).value + 1 else startBlock
    {
      hide W.Covered, Sound, W.UniqueKeys;
    }

    /** Later tables stay valid for the same checkpoint. */
    lemma KeepsValid(before: Tables, startBlock: uint64)
      requires W.UniqueKeys(chain) && Sound(db.Snapshot(), chain) && R.Later(before, db.Snapshot())
      requires var cp := db.GetCheckpoint(stream);
               cp.Some? ==> startBlock <= cp.value < MAX_UINT64 && W.Covered(before, chain, startBlock, cp.value)
      ensures Valid(startBlock)
    {
      var cp := db.GetCheckpoint(stream);
      if cp.Some? {
        W.LaterKeepsCovered(before, db.Snapshot(), chain, startBlock, cp.value);
      }
    }
  }

  lemma StoredWindowIsCovered(db: Tables, chain: seq<Log>, lo: int, hi: int)
    requires forall j :: 0 <= j < |InRange(chain, lo, hi)| ==> W.Stored(db, InRange(chain, lo, hi)[j])
    ensures W.Covered(db, chain, lo, hi)
  {
    InRangeMembers(chain, lo, hi);
    var logs := InRange(chain, lo, hi);
    forall l | l in chain && lo <= l.block <= hi
      ensures W.Stored(db, l)
    {
      assert l in logs;
      var j :| 0 <= j < |logs| && logs[j] == l;
    }
  }

  lemma AdjacentCovered(db: Tables, chain: seq<Log>, lo: int, mid: int, hi: int)
    requires lo >= mid || W.Covered(db, chain, lo, mid - 1)
    requires W.Covered(db, chain, mid, hi)
    ensures W.Covered(db, chain, lo, hi)
  {
  }

  /** The i-th statement of a suffix fails when statement i + shift of the whole list does. */
  lemma {:induction false} HandleShift(s: Session, sts: seq<Statement>, f: nat -> bool, g: nat -> bool, i: nat, shift: nat)
    requires forall j: nat :: g(j) == f(j + shift)
    ensures HandleAll(s, sts, g, i) == HandleAll(s, sts, f, i + shift)
    decreases |sts|
  {
    if sts != [] {
      match Handle(s, sts[0], g(i))
      case None =>
      case Some(next) => HandleShift(next, sts[1..], f, g, i + 1, shift);
    }
  }
}
