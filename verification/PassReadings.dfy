/** What a completed pass of a log reconciler reports, read off the logs and the rows themselves: for each kind of mismatch
    exactly when it is reported (reconciliation/payroll_worker.go, salary_claim_worker.go, token_transfer_worker.go). */
module PassReadings {
  import opened Evm
  import opened Words
  import opened Text
  import opened EntityRefs
  import opened ExceptionStore
  import opened ExceptionLifecycle
  import opened LogReconciler
  import A = TokenAudit
  import F = FalseAlarms
  import P = PayrollTables
  import T = TokenStream
  import W = PayrollWorkers

  // ---- The two sides -----------------------------------------------------------------------------------------------

  /** The node answered a log that was not removed and that decodes to rec. */
  predicate Answered(logs: seq<RawLog>, rec: ChainRecord) {
    exists i :: 0 <= i < |logs| && !logs[i].removed && logs[i].record == Some(rec)
  }

  /** Row i is the first row, in query order, that was not removed and has the key. */
  predicate IsFirst(rows: seq<DbRecord>, key: LogKey, i: nat) {
    && i < |rows| && rows[i].key == key && !rows[i].removed
    && forall j :: 0 <= j < i ==> rows[j].key != key || rows[j].removed
  }

  predicate NoRow(rows: seq<DbRecord>, key: LogKey) {
    forall i :: 0 <= i < |rows| ==> rows[i].key != key || rows[i].removed
  }

  predicate TwoRows(rows: seq<DbRecord>, key: LogKey) {
    exists i, j :: 0 <= i < j < |rows| && rows[i].key == rows[j].key == key && !rows[i].removed && !rows[j].removed
  }

  lemma {:induction false} RowsOfReads(rows: seq<DbRecord>, key: LogKey)
    ensures RowsOf(rows, key) == [] <==> NoRow(rows, key)
    ensures |RowsOf(rows, key)| > 1 <==> TwoRows(rows, key)
    ensures forall i: nat :: IsFirst(rows, key, i) ==> RowsOf(rows, key) != [] && RowsOf(rows, key)[0] == rows[i]
    ensures RowsOf(rows, key) != [] ==> exists i: nat :: IsFirst(rows, key, i)
  {
    if rows != [] {
      var (init, last) := (rows[..|rows| - 1], rows[|rows| - 1]);
      RowsOfReads(init, key);
      FirstOneMore(rows, key);
      TwoOneMore(rows, key);
      if RowsOf(init, key) != [] {
        var i: nat :| IsFirst(init, key, i);
        assert IsFirst(rows, key, i);
      } else if last.key == key && !last.removed {
        assert IsFirst(rows, key, |init|);
      }
    }
  }

  lemma FirstOneMore(rows: seq<DbRecord>, key: LogKey)
    requires rows != []
    ensures var (init, last) := (rows[..|rows| - 1], rows[|rows| - 1]);
            && (NoRow(rows, key) <==> NoRow(init, key) && (last.key != key || last.removed))
            && (forall i: nat :: IsFirst(rows, key, i) <==>
                  IsFirst(init, key, i) || (i == |init| && NoRow(init, key) && last.key == key && !last.removed))
  {
    var init := rows[..|rows| - 1];
    assert forall i :: 0 <= i < |init| ==> init[i] == rows[i];
  }

  lemma TwoOneMore(rows: seq<DbRecord>, key: LogKey)
    requires rows != []
    ensures var (init, last) := (rows[..|rows| - 1], rows[|rows| - 1]);
            TwoRows(rows, key) <==> TwoRows(init, key) || (!NoRow(init, key) && last.key == key && !last.removed)
  {
    var (init, last) := (rows[..|rows| - 1], rows[|rows| - 1]);
    assert forall i :: 0 <= i < |init| ==> init[i] == rows[i];
    if TwoRows(init, key) {
      var i, j :| 0 <= i < j < |init| && init[i].key == init[j].key == key && !init[i].removed && !init[j].removed;
      assert rows[i].key == rows[j].key == key;
    }
    if !NoRow(init, key) && last.key == key && !last.removed {
      var i :| 0 <= i < |init| && init[i].key == key && !init[i].removed;
      assert rows[i].key == rows[|rows| - 1].key == key;
    }
  }

  lemma OnChainReads(logs: seq<RawLog>, rec: ChainRecord)
    ensures rec in OnChain(logs) <==> Answered(logs, rec)
  {
    OnChainMembers(logs);
    if Answered(logs, rec) {
      var i :| 0 <= i < |logs| && !logs[i].removed && logs[i].record == Some(rec);
      assert logs[i] == RawLog(false, Some(rec));
    }
  }

  // ---- What is reported --------------------------------------------------------------------------------------------

  /** A call for [from, to] that compared the two sides and came to its end. */
  ghost predicate Completed(env: Env, scope: Scope, depth: uint64, from: uint64, to: uint64, before: seq<Exc>, after: seq<Exc>,
                            report: Report, ms: seq<Mismatch>)
  {
    && RangeOutcome(env, scope, depth, from, to, before, after, Ok(report), ms) && env.latest.Ok? && from <= report.safe
  }

  lemma CompletedCallReads(env: Env, scope: Scope, depth: uint64, from: uint64, to: uint64, before: seq<Exc>, after: seq<Exc>,
                           report: Report, ms: seq<Mismatch>)
    requires Completed(env, scope, depth, from, to, before, after, report, ms)
    ensures env.Readable() && from <= to && report.from == from && report.to == Min(to, report.safe)
    // the safe head is the head minus the depth, or the head of a chain shorter than that
    ensures report.safe == if env.latest.value >= depth then env.latest.value - depth else env.latest.value
    ensures forall m :: m in ms <==> IsMismatch(m, OnChain(env.logs.value), env.rows.value, env.checkpoint.value, report.safe)
    ensures forall m :: m in ms ==> IsOpen(after, RefOf(scope, m))
    ensures report.detected == |ms|
  {
    hide IsMismatch, OnChain, RefOf, RecordAll, StaleCount, Skipped, Detected, Refs;
    DetectsExactlyTheMismatches(ms, OnChain(env.logs.value), env.rows.value, env.checkpoint.value, report.safe);
    PassIsSound(before, scope, ms, from, report.to);
  }

  lemma MismatchReads(m: Mismatch, logs: seq<RawLog>, rows: seq<DbRecord>, checkpoint: Option<nat>, safe: nat)
    ensures IsMismatch(m, OnChain(logs), rows, checkpoint, safe)
            <==> IsDuplicate(m, rows) || exists rec :: Answered(logs, rec) && Differs(rec, m, RowsOf(rows, m.key), checkpoint, safe)
  {
    hide Answered, Differs, OnChain, IsDuplicate, RowsOf;
    forall rec
      ensures rec in OnChain(logs) <==> Answered(logs, rec)
    {
      OnChainReads(logs, rec);
    }
  }

  /** The log rec, of this key and block, is compared with row i. */
  predicate Compared(logs: seq<RawLog>, rows: seq<DbRecord>, key: LogKey, block: nat, rec: ChainRecord, i: nat) {
    Answered(logs, rec) && rec.key == key && rec.block == block && IsFirst(rows, key, i)
  }

  /** What a row that is there can have wrong. */
  predicate Disagrees(kind: Kind, row: DbRecord, rec: ChainRecord) {
    match kind
    case EntityMismatch => row.parties != rec.parties
    case AmountMismatch => |row.amounts| != |rec.amounts| || exists k :: 0 <= k < |rec.amounts| && row.amounts[k] != Some(rec.amounts[k])
    case TxInconsistency => row.block != rec.block
    case _ => false
  }

  lemma MissingReads(logs: seq<RawLog>, rows: seq<DbRecord>, checkpoint: Option<nat>, safe: nat, key: LogKey, block: nat)
    ensures IsMismatch(Mismatch(Missing, key, block), OnChain(logs), rows, checkpoint, safe)
            <==> && NoRow(rows, key) && block <= safe && checkpoint.Some? && block <= checkpoint.value
                 && exists rec :: Answered(logs, rec) && rec.key == key && rec.block == block
  {
    hide Answered, OnChain, RowsOf, NoRow, TwoRows, IsFirst;
    RowsOfReads(rows, key);
    MismatchReads(Mismatch(Missing, key, block), logs, rows, checkpoint, safe);
  }

  lemma DifferenceReads(kind: Kind, logs: seq<RawLog>, rows: seq<DbRecord>, checkpoint: Option<nat>, safe: nat, key: LogKey, block: nat)
    requires kind == EntityMismatch || kind == AmountMismatch || kind == TxInconsistency
    ensures IsMismatch(Mismatch(kind, key, block), OnChain(logs), rows, checkpoint, safe)
            <==> exists rec, i: nat :: Compared(logs, rows, key, block, rec, i) && Disagrees(kind, rows[i], rec)
  {
    hide Answered, OnChain, RowsOf, NoRow, TwoRows, Lagging, AmountsDiffer;
    var m := Mismatch(kind, key, block);
    RowsOfReads(rows, key);
    MismatchReads(m, logs, rows, checkpoint, safe);
    if IsMismatch(m, OnChain(logs), rows, checkpoint, safe) {
      var rec :| Answered(logs, rec) && Differs(rec, m, RowsOf(rows, key), checkpoint, safe);
      var i: nat :| IsFirst(rows, key, i);
      WrongRow(kind, rec, m, rows, i, checkpoint, safe);
      assert Compared(logs, rows, key, block, rec, i);
    }
    if exists rec, i: nat :: Compared(logs, rows, key, block, rec, i) && Disagrees(kind, rows[i], rec) {
      var rec, i: nat :| Compared(logs, rows, key, block, rec, i) && Disagrees(kind, rows[i], rec);
      WrongRow(kind, rec, m, rows, i, checkpoint, safe);
    }
  }

  lemma WrongRow(kind: Kind, rec: ChainRecord, m: Mismatch, rows: seq<DbRecord>, i: nat, checkpoint: Option<nat>, safe: nat)
    requires kind == EntityMismatch || kind == AmountMismatch || kind == TxInconsistency
    requires m.kind == kind && rec.key == m.key && rec.block == m.block && IsFirst(rows, m.key, i)
    requires RowsOf(rows, m.key) != [] && RowsOf(rows, m.key)[0] == rows[i]
    ensures Differs(rec, m, RowsOf(rows, m.key), checkpoint, safe) <==> Disagrees(kind, rows[i], rec)
  {
    hide RowsOf, IsFirst, Lagging;
  }

  lemma DuplicateReads(logs: seq<RawLog>, rows: seq<DbRecord>, checkpoint: Option<nat>, safe: nat, key: LogKey, block: nat)
    ensures IsMismatch(Mismatch(Duplicate, key, block), OnChain(logs), rows, checkpoint, safe)
            <==> TwoRows(rows, key) && exists i: nat :: IsFirst(rows, key, i) && rows[i].block == block
  {
    hide Answered, OnChain, RowsOf, NoRow, TwoRows, Lagging, AmountsDiffer;
    var m := Mismatch(Duplicate, key, block);
    RowsOfReads(rows, key);
    MismatchReads(m, logs, rows, checkpoint, safe);
    if |RowsOf(rows, key)| > 1 {
      var i: nat :| IsFirst(rows, key, i);
      assert RowsOf(rows, key)[0] == rows[i];
    }
  }

  /** A row is reported as missing exactly when the node answered its log, no row has its key, and both the safe head and a
      stored checkpoint have reached its block; the exception is then open. */
  lemma MissingIsReportedExactlyWhen(env: Env, scope: Scope, depth: uint64, from: uint64, to: uint64, before: seq<Exc>,
                                     after: seq<Exc>, report: Report, ms: seq<Mismatch>, key: LogKey, block: nat)
    requires Completed(env, scope, depth, from, to, before, after, report, ms)
    ensures env.Readable()
    ensures Mismatch(Missing, key, block) in ms
            <==> && NoRow(env.rows.value, key)
                 && block <= report.safe && env.checkpoint.value.Some? && block <= env.checkpoint.value.value
                 && exists rec :: Answered(env.logs.value, rec) && rec.key == key && rec.block == block
    ensures Mismatch(Missing, key, block) in ms ==> IsOpen(after, RefOf(scope, Mismatch(Missing, key, block)))
  {
    hide OnChain, RefOf, Answered, NoRow, RangeOutcome, IsMismatch, Completed;
    CompletedCallReads(env, scope, depth, from, to, before, after, report, ms);
    MissingReads(env.logs.value, env.rows.value, env.checkpoint.value, report.safe, key, block);
  }

  /** Parties, amounts and block of a log are compared with the first row of its key, and each difference is reported. */
  lemma DifferenceIsReportedExactlyWhen(env: Env, scope: Scope, depth: uint64, from: uint64, to: uint64, before: seq<Exc>,
                                        after: seq<Exc>, report: Report, ms: seq<Mismatch>, kind: Kind, key: LogKey, block: nat)
    requires Completed(env, scope, depth, from, to, before, after, report, ms)
    requires kind == EntityMismatch || kind == AmountMismatch || kind == TxInconsistency
    ensures env.Readable()
    ensures Mismatch(kind, key, block) in ms
            <==> exists rec, i: nat :: Compared(env.logs.value, env.rows.value, key, block, rec, i) && Disagrees(kind, env.rows.value[i], rec)
    ensures Mismatch(kind, key, block) in ms ==> IsOpen(after, RefOf(scope, Mismatch(kind, key, block)))
  {
    hide OnChain, RefOf, RangeOutcome, IsMismatch, Completed, Compared, Disagrees;
    CompletedCallReads(env, scope, depth, from, to, before, after, report, ms);
    DifferenceReads(kind, env.logs.value, env.rows.value, env.checkpoint.value, report.safe, key, block);
  }

  /** A key is reported as duplicated, under the block of its first row, exactly when two rows have it. */
  lemma DuplicateIsReportedExactlyWhen(env: Env, scope: Scope, depth: uint64, from: uint64, to: uint64, before: seq<Exc>,
                                       after: seq<Exc>, report: Report, ms: seq<Mismatch>, key: LogKey, block: nat)
    requires Completed(env, scope, depth, from, to, before, after, report, ms)
    ensures env.Readable()
    ensures Mismatch(Duplicate, key, block) in ms
            <==> TwoRows(env.rows.value, key) && exists i: nat :: IsFirst(env.rows.value, key, i) && env.rows.value[i].block == block
    ensures Mismatch(Duplicate, key, block) in ms ==> IsOpen(after, RefOf(scope, Mismatch(Duplicate, key, block)))
  {
    hide OnChain, RefOf, RangeOutcome, IsMismatch, Completed, TwoRows, IsFirst;
    CompletedCallReads(env, scope, depth, from, to, before, after, report, ms);
    DuplicateReads(env.logs.value, env.rows.value, env.checkpoint.value, report.safe, key, block);
  }

  // ---- What happens to the exceptions ------------------------------------------------------------------------------

  predicate StartsWith(text: string, start: string) {
    |start| <= |text| && text[..|start|] == start
  }

  /** The exceptions of a reconciler: its own types, under its own chain, for transfers under its own token too. */
  predicate IsOwn(row: Exc, scope: Scope) {
    match scope
    case Fundings(c) => (exists k :: row.excType == LogException(FundingFamily, k)) && StartsWith(row.ref, Decimal(c) + ":")
    case Claims(c) => (exists k :: row.excType == LogException(ClaimFamily, k)) && StartsWith(row.ref, Decimal(c) + ":")
    case Transfers(c, t) =>
      (exists k :: row.excType == LogException(TransferFamily, k)) && StartsWith(row.ref, Decimal(c) + ":" + ("0x" + HexOf(t.raw)) + ":")
  }

  lemma OwnsReads(row: Exc, scope: Scope)
    ensures Owns(scope, row) <==> IsOwn(row, scope)
  {
    hide Decimal, HexOf;
    if row.excType.LogException? {
      assert row.excType == LogException(row.excType.family, row.excType.kind);
    }
    match scope
    case Fundings(c) =>
    case Claims(c) =>
    case Transfers(c, t) => assert TokenPrefix(c, t) == Decimal(c) + ":" + ("0x" + HexOf(t.raw)) + ":";
  }

  /** The exception of a mismatch: its type, its reference and its block. */
  predicate IsExceptionOf(row: Exc, scope: Scope, m: Mismatch) {
    && row.open && row.block == Some(m.block)
    && match scope
       case Fundings(c) => row.excType == LogException(FundingFamily, m.kind) && row.ref == Ref(PayrollLog(c, m.key.tx, m.key.index, m.kind))
       case Claims(c) => row.excType == LogException(ClaimFamily, m.kind) && row.ref == Ref(PayrollLog(c, m.key.tx, m.key.index, m.kind))
       case Transfers(c, t) =>
         row.excType == LogException(TransferFamily, m.kind) && row.ref == Ref(TransferLog(c, t, m.key.tx, m.key.index, m.kind))
  }

  lemma {:induction false} StaleCountReads(rows: seq<Exc>, scope: Scope, active: set<string>, from: nat, to: nat)
    ensures StaleCount(rows, scope, active, from, to) == |set i | 0 <= i < |rows| && Stale(rows[i], scope, active, from, to)|
  {
    hide Stale;
    var stale := set i | 0 <= i < |rows| && Stale(rows[i], scope, active, from, to);
    if rows != [] {
      var (init, n) := (rows[..|rows| - 1], |rows| - 1);
      StaleCountReads(init, scope, active, from, to);
      OneMoreStale(rows, scope, active, from, to);
    } else {
      assert stale == {};
    }
  }

  lemma OneMoreStale(rows: seq<Exc>, scope: Scope, active: set<string>, from: nat, to: nat)
    requires rows != []
    ensures var (init, n) := (rows[..|rows| - 1], |rows| - 1);
            var before := set i | 0 <= i < |init| && Stale(init[i], scope, active, from, to);
            n !in before && (set i | 0 <= i < |rows| && Stale(rows[i], scope, active, from, to))
                            == before + if Stale(rows[n], scope, active, from, to) then {n} else {}
  {
    hide Stale;
  }

  /** The rows a pass closes are old ones. */
  lemma ResolvedReads(before: seq<Exc>, scope: Scope, ms: seq<Mismatch>, from: nat, to: nat)
    ensures var (recorded, after) := (RecordAll(before, scope, ms), Pass(before, scope, ms, from, to));
            && |before| <= |after|
            && StaleCount(recorded, scope, Refs(scope, ms), from, to) == |set i | 0 <= i < |before| && before[i].open && !after[i].open|
  {
    hide Owns, RefOf, InRange, RecordAll;
    RecordAllFacts(before, scope, ms);
    var (recorded, after, active) := (RecordAll(before, scope, ms), Pass(before, scope, ms, from, to), Refs(scope, ms));
    StaleCountReads(recorded, scope, active, from, to);
    assert forall i :: 0 <= i < |before| ==> recorded[i] == recorded[..|before|][i] == before[i];
    forall i | |before| <= i < |recorded|
      ensures recorded[i].ref in active
    {
      var m :| m in ms && recorded[i] == ExceptionOf(scope, m);
    }
    assert (set i | 0 <= i < |recorded| && Stale(recorded[i], scope, active, from, to))
           == (set i | 0 <= i < |before| && before[i].open && !after[i].open);
  }

  /** A completed call opens exactly one exception for each reported reference that was not open, and closes exactly its own
      open exceptions whose block, as a float, lies in the compared range and whose reference was not reported; its report
      counts both. */
  lemma CompletedCallChangesExactly(env: Env, scope: Scope, depth: uint64, from: uint64, to: uint64, before: seq<Exc>, after: seq<Exc>,
                                    report: Report, ms: seq<Mismatch>)
    requires Completed(env, scope, depth, from, to, before, after, report, ms)
    ensures |before| <= |after|
    ensures forall i :: 0 <= i < |before| ==>
              after[i] == before[i].(open := before[i].open
                && !(IsOwn(before[i], scope) && before[i].block.Some? && from <= ThroughFloat(before[i].block.value) <= Min(to, report.safe)
                     && forall m :: m in ms ==> RefOf(scope, m) != before[i].ref))
    ensures forall i :: |before| <= i < |after| ==> exists m :: m in ms && IsExceptionOf(after[i], scope, m) && !IsOpen(before, after[i].ref)
    ensures forall m :: m in ms ==> IsOpen(after, RefOf(scope, m))
    ensures report.created == |after| - |before| && report.created + report.skipped == report.detected
    ensures report.resolved == |set i | 0 <= i < |before| && before[i].open && !after[i].open|
  {
    hide IsMismatch, OnChain, RecordAll, StaleCount, Skipped, Detected, Owns, Ref, ThroughFloat, IsOwn;
    CompletedCallReads(env, scope, depth, from, to, before, after, report, ms);
    ResolvedReads(before, scope, ms, from, report.to);
    RecordAllFacts(before, scope, ms);
    var recorded := RecordAll(before, scope, ms);
    forall i | 0 <= i < |after|
      ensures Owns(scope, recorded[i]) <==> IsOwn(recorded[i], scope)
    {
      OwnsReads(recorded[i], scope);
    }
    assert forall i :: 0 <= i < |before| ==> recorded[i] == recorded[..|before|][i] == before[i];
    forall i | |before| <= i < |after|
      ensures exists m :: m in ms && IsExceptionOf(after[i], scope, m) && !IsOpen(before, after[i].ref)
    {
      var m := CreatedFor(before, scope, ms, i);
      if IsOpen(before, recorded[i].ref) {
        NewRefsWereClosed(before, scope, ms, i);
      }
      MemberRef(scope, ms, m);
      assert after[i] == recorded[i];
      assert IsExceptionOf(after[i], scope, m);
    }
  }

  // ---- Fundings, claims and transfers ------------------------------------------------------------------------------

  /** The funding reconciler sees exactly the funding events that were not removed, with these parties and amounts. */
  lemma FundingAnswersRead(logs: seq<P.Log>, from: nat, to: nat, rec: ChainRecord)
    ensures Answered(Answer(P.InRange(logs, from, to), F.FundingLog), rec)
            <==> exists l :: && l in logs && from <= l.block <= to && !l.removed && rec.key == l.key && rec.block == l.block
                             && l.event.Some? && l.event.value.PayrollFunded?
                             && rec.parties == [l.event.value.employer, l.event.value.employee]
                             && rec.amounts == [l.event.value.amountPaid, l.event.value.fee, l.event.value.amountCredited]
  {
    var batch := P.InRange(logs, from, to);
    P.InRangeMembers(logs, from, to);
    AnswerReads(batch, F.FundingLog, rec);
  }

  lemma ClaimAnswersRead(logs: seq<P.Log>, from: nat, to: nat, rec: ChainRecord)
    ensures Answered(Answer(P.InRange(logs, from, to), F.ClaimLog), rec)
            <==> exists l :: && l in logs && from <= l.block <= to && !l.removed && rec.key == l.key && rec.block == l.block
                             && l.event.Some? && l.event.value.SalaryClaimed?
                             && rec.parties == [l.event.value.employee] && rec.amounts == [l.event.value.amount]
  {
    var batch := P.InRange(logs, from, to);
    P.InRangeMembers(logs, from, to);
    AnswerReads(batch, F.ClaimLog, rec);
  }

  lemma TransferAnswersRead(logs: seq<T.TokenLog>, from: nat, to: nat, rec: ChainRecord)
    ensures Answered(Answer(T.Window(logs, from, to), A.TransferLog), rec)
            <==> exists l :: && l in logs && from <= l.block <= to && !l.removed && rec.key == l.key && rec.block == l.block
                             && l.event.Some? && l.event.value.Transfer?
                             && rec.parties == [l.event.value.src, l.event.value.dst] && rec.amounts == [l.event.value.amount]
  {
    var batch := T.Window(logs, from, to);
    T.WindowMembers(logs, from, to);
    AnswerReads(batch, A.TransferLog, rec);
  }

  lemma AnswerReads<T>(batch: seq<T>, view: T -> RawLog, rec: ChainRecord)
    ensures Answered(Answer(batch, view), rec) <==> exists l :: l in batch && !view(l).removed && view(l).record == Some(rec)
  {
    var answer := Answer(batch, view);
    if Answered(answer, rec) {
      var i :| 0 <= i < |answer| && !answer[i].removed && answer[i].record == Some(rec);
      assert batch[i] in batch && view(batch[i]) == answer[i];
    }
    if exists l :: l in batch && !view(l).removed && view(l).record == Some(rec) {
      var l :| l in batch && !view(l).removed && view(l).record == Some(rec);
      var i :| 0 <= i < |batch| && batch[i] == l;
      assert answer[i] == view(l);
    }
  }

  /** A stored funding is compared in both parties, all three amounts and the block. */
  lemma FundingDifferences(key: LogKey, row: P.FundingRow, rec: ChainRecord, employer: Address, employee: Address, paid: nat, fee: nat,
                           credited: nat)
    requires rec.parties == [employer, employee] && rec.amounts == [paid, fee, credited]
    ensures Disagrees(EntityMismatch, F.StoredFunding(key, row), rec) <==> row.employer != employer || row.employee != employee
    ensures Disagrees(AmountMismatch, F.StoredFunding(key, row), rec)
            <==> row.amountPaid != paid || row.fee != fee || row.amountCredited != credited
    ensures Disagrees(TxInconsistency, F.StoredFunding(key, row), rec) <==> row.block != rec.block
    ensures F.StoredFunding(key, row).key == key && !F.StoredFunding(key, row).removed
  {
    var amounts, stored := rec.amounts, F.StoredFunding(key, row).amounts;
    assert amounts[0] == paid && amounts[1] == fee && amounts[2] == credited;
    assert stored[0] == Some(row.amountPaid) && stored[1] == Some(row.fee) && stored[2] == Some(row.amountCredited);
    assert F.StoredFunding(key, row).parties[0] == row.employer && F.StoredFunding(key, row).parties[1] == row.employee;
    assert rec.parties[0] == employer && rec.parties[1] == employee;
  }

  lemma ClaimDifferences(key: LogKey, row: P.ClaimRow, rec: ChainRecord, employee: Address, amount: nat)
    requires rec.parties == [employee] && rec.amounts == [amount]
    ensures Disagrees(EntityMismatch, F.StoredClaim(key, row), rec) <==> row.employee != employee
    ensures Disagrees(AmountMismatch, F.StoredClaim(key, row), rec) <==> row.amount != amount
    ensures Disagrees(TxInconsistency, F.StoredClaim(key, row), rec) <==> row.block != rec.block
    ensures F.StoredClaim(key, row).key == key && !F.StoredClaim(key, row).removed
  {
    assert rec.amounts[0] == amount && F.StoredClaim(key, row).amounts[0] == Some(row.amount);
    assert F.StoredClaim(key, row).parties[0] == row.employee && rec.parties[0] == employee;
  }

  lemma TransferDifferences(key: LogKey, row: T.StoredTransfer, rec: ChainRecord, src: Address, dst: Address, amount: nat)
    requires rec.parties == [src, dst] && rec.amounts == [amount]
    ensures Disagrees(EntityMismatch, A.StoredRecord(key, row), rec) <==> row.src != src || row.dst != dst
    ensures Disagrees(AmountMismatch, A.StoredRecord(key, row), rec) <==> row.amount != amount
    ensures Disagrees(TxInconsistency, A.StoredRecord(key, row), rec) <==> row.block != rec.block
    ensures A.StoredRecord(key, row).key == key && A.StoredRecord(key, row).removed == row.removed
  {
    assert rec.amounts[0] == amount && A.StoredRecord(key, row).amounts[0] == Some(row.amount);
    assert A.StoredRecord(key, row).parties[0] == row.src && A.StoredRecord(key, row).parties[1] == row.dst;
    assert rec.parties[0] == src && rec.parties[1] == dst;
  }
}
