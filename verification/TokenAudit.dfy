/** The token indexers together with what audits them: the transfer reconciler and the balance queries
    (reconciliation/token_transfer_worker.go, repository/tokens_repo.go with indexer/token_indexer.go). */
module TokenAudit {
  import opened Evm
  import opened Words
  import opened TokenStream
  import opened Ledger
  import opened ExceptionStore
  import E = ExceptionLifecycle
  import L = LogReconciler

  // ---- The transfer reconciler ---------------------------------------------------------------------------------

  function TransferRecord(log: TokenLog): L.ChainRecord
    requires IsTransfer(log)
  {
    var e := log.event.value;
    L.ChainRecord(log.key, log.block, [e.src, e.dst], [e.amount])
  }

  function TransferLog(log: TokenLog): L.RawLog {
    L.RawLog(log.removed, if IsTransfer(log) then Some(TransferRecord(log)) else None)
  }

  function StoredRecord(key: LogKey, row: StoredTransfer): L.DbRecord {
    L.DbRecord(key, row.block, [row.src, row.dst], [Some(row.amount)], row.removed)
  }

  /** rows lists the stored transfers of a block range, removed ones included, in any order. */
  ghost predicate ListsTransfers(rows: seq<L.DbRecord>, db: TokenTables, from: nat, to: nat) {
    && L.DistinctKeys(rows)
    && (forall row :: row in rows ==> row.key in db.transfers && row == StoredRecord(row.key, db.transfers[row.key]))
    && (forall key :: key in db.transfers && from <= db.transfers[key].block <= to ==> L.HasRow(rows, key))
  }

  lemma TransferIsRepeated(s: System, cfg: Setting, later: System, log: TokenLog, from: nat, to: nat, rows: seq<L.DbRecord>, safe: nat)
    requires UniqueKeys(cfg.logs) && Reachable(s, cfg) && Later(s.db, later.db) && Inv(later, cfg)
    requires log in cfg.logs && !log.removed && IsTransfer(log) && cfg.start <= from <= log.block <= to
    requires ListsTransfers(rows, later.db, from, to)
    ensures L.IsRepeated(TransferRecord(log), rows, s.db.checkpoint, safe)
  {
    hide UniqueKeys, Reachable;
    RowsAreExact(later.db, cfg.logs, log);
    if !L.Lagging(TransferRecord(log), s.db.checkpoint, safe) {
      Coverage(s, cfg, log);
      assert log.key in later.db.transfers;
    }
  }

  /** The checkpoint is read in s, the rows in any later state. */
  lemma TransfersAreFaithful(s: System, cfg: Setting, steps: seq<Step>, from: nat, to: nat, rows: seq<L.DbRecord>, safe: nat)
    requires UniqueKeys(cfg.logs) && Reachable(s, cfg) && cfg.start <= from
    requires ListsTransfers(rows, PerformAll(s, cfg, steps).db, from, to)
    ensures L.Faithful(L.OnChain(L.Answer(Window(cfg.logs, from, to), TransferLog)), rows, s.db.checkpoint, safe)
  {
    hide L.OnChain, L.Lagging, L.Agrees, Perform, PerformAll, L.IsRepeated, UniqueKeys, L.Answer, Inv, Later, Window;
    var later, batch := PerformAll(s, cfg, steps), Window(cfg.logs, from, to);
    var chain := L.OnChain(L.Answer(batch, TransferLog));
    WindowMembers(cfg.logs, from, to);
    ReachableInv(s, cfg);
    RunKeepsInv(s, cfg, steps);
    forall rec | rec in chain
      ensures L.IsRepeated(rec, rows, s.db.checkpoint, safe)
    {
      var log := L.AnswerMembers(batch, TransferLog, rec);
      TransferIsRepeated(s, cfg, later, log, from, to, rows, safe);
    }
    L.RepeatedIsFaithful(chain, rows, s.db.checkpoint, safe);
  }

  /** Reconciling transfers raises no alarm either. */
  lemma NoFalseTransferAlarm(s: System, cfg: Setting, steps: seq<Step>, from: nat, to: nat, rows: seq<L.DbRecord>, safe: nat,
                             ms: seq<E.Mismatch>)
    requires UniqueKeys(cfg.logs) && Reachable(s, cfg) && cfg.start <= from
    requires ListsTransfers(rows, PerformAll(s, cfg, steps).db, from, to)
    requires L.Detected(ms, L.OnChain(L.Answer(Window(cfg.logs, from, to), TransferLog)), rows, s.db.checkpoint, safe)
    ensures ms == []
  {
    TransfersAreFaithful(s, cfg, steps, from, to, rows, safe);
    L.FaithfulTablesRaiseNothing(ms, L.OnChain(L.Answer(Window(cfg.logs, from, to), TransferLog)), rows, s.db.checkpoint, safe);
  }

  /** A pass of the transfer reconciler opens nothing and closes only stale exceptions, even when it is interrupted. */
  lemma TransferPassIsQuiet(s: System, cfg: Setting, steps: seq<Step>, from: uint64, to: uint64, safe: uint64, env: L.Env, scope: E.Scope,
                            before: seq<Exc>, after: seq<Exc>, result: Result<L.Report>, ms: seq<E.Mismatch>)
    requires UniqueKeys(cfg.logs) && Reachable(s, cfg) && cfg.start <= from
    requires env.Readable() && env.checkpoint.value == s.db.checkpoint
    requires env.logs.value == L.Answer(Window(cfg.logs, from, to), TransferLog)
    requires ListsTransfers(env.rows.value, PerformAll(s, cfg, steps).db, from, to)
    requires L.Outcome(env, scope, from, to, safe, before, after, result, ms)
    ensures L.QuietPass(scope, from, to, before, after, result)
  {
    hide L.Outcome, L.Faithful, L.OnChain, L.Answer, Window, PerformAll, Reachable, UniqueKeys, ListsTransfers, L.QuietPass;
    TransfersAreFaithful(s, cfg, steps, from, to, env.rows.value, safe);
    L.FaithfulPassIsQuiet(env, scope, from, to, safe, before, after, result, ms);
  }

  // ---- Balances --------------------------------------------------------------------------------------------------

  function LedgerRow(q: Query, key: LogKey, row: StoredTransfer): TransferRow {
    TransferRow(q.chain, q.token, key, row.src, row.dst, row.amount, row.block, row.removed)
  }

  /** The Transfer events of the chain, in order. */
  function ChainTransfers(logs: seq<TokenLog>, q: Query): seq<TransferRow> {
    if logs == [] then []
    else
      var last := logs[|logs| - 1];
      ChainTransfers(logs[..|logs| - 1], q) + if IsTransfer(last) then [LedgerRow(q, last.key, TransferOf(last))] else []
  }

  lemma {:induction false} ChainTransfersMembers(logs: seq<TokenLog>, q: Query)
    requires UniqueKeys(logs)
    ensures Unrepeated(ChainTransfers(logs, q))
    ensures forall r :: r in ChainTransfers(logs, q) <==> exists l :: l in logs && IsTransfer(l) && r == LedgerRow(q, l.key, TransferOf(l))
  {
    hide IsTransfer, LedgerRow;
    if logs != [] {
      var (init, last) := (logs[..|logs| - 1], logs[|logs| - 1]);
      ChainTransfersMembers(init, q);
      assert logs == init + [last];
      if IsTransfer(last) {
        NewKeyIsNew(init, last, q);
        var row := LedgerRow(q, last.key, TransferOf(last));
        assert row !in ChainTransfers(init, q);
        OneMoreUnrepeated(ChainTransfers(init, q), row);
      }
    }
  }

  lemma OneMoreUnrepeated(rows: seq<TransferRow>, row: TransferRow)
    requires Unrepeated(rows) && row !in rows
    ensures Unrepeated(rows + [row])
  {
  }

  lemma NewKeyIsNew(init: seq<TokenLog>, last: TokenLog, q: Query)
    requires UniqueKeys(init + [last]) && IsTransfer(last)
    ensures forall l :: l in init && IsTransfer(l) ==> LedgerRow(q, l.key, TransferOf(l)) != LedgerRow(q, last.key, TransferOf(last))
  {
    forall l | l in init && IsTransfer(l)
      ensures l.key != last.key
    {
      var i :| 0 <= i < |init| && init[i] == l;
      assert (init + [last])[i] == l && (init + [last])[|init|] == last;
    }
  }

  /** rows lists every stored transfer of the token once. */
  ghost predicate ListsAll(rows: seq<TransferRow>, db: TokenTables, q: Query) {
    && Unrepeated(rows)
    && forall r :: r in rows <==> r.key in db.transfers && r == LedgerRow(q, r.key, db.transfers[r.key])
  }

  /** Up to the checkpoint, the balance that the SQL query computes from the tables, now or later, is the balance a
      replay of all Transfer events of the chain gives. */
  lemma BalancesMatchTheChain(s: System, cfg: Setting, steps: seq<Step>, q: Query, rows: seq<TransferRow>, wallet: Address)
    requires UniqueKeys(cfg.logs) && Reachable(s, cfg) && s.db.checkpoint.Some? && q.upTo <= s.db.checkpoint.value
    requires forall l :: l in cfg.logs ==> cfg.start <= l.block
    requires ListsAll(rows, PerformAll(s, cfg, steps).db, q) && wallet != ZERO_ADDRESS
    ensures CalculateTokenBalance(rows, q, wallet) == BalanceIn(Replay(ChainTransfers(cfg.logs, q), q), wallet)
  {
    hide Perform, PerformAll, Inv, UniqueKeys, CalculateTokenBalance, ChainTransfers, Replay, Unrepeated, Reachable;
    var later := PerformAll(s, cfg, steps);
    ReachableInv(s, cfg);
    RunKeepsInv(s, cfg, steps);
    ChainTransfersMembers(cfg.logs, q);
    forall r | Counts(r, q)
      ensures r in rows <==> r in ChainTransfers(cfg.logs, q)
    {
      CountedRowIsOnChain(s, cfg, later, q, r);
    }
    BalanceDependsOnCountedRows(rows, ChainTransfers(cfg.logs, q), q, wallet);
    LedgerAgrees(ChainTransfers(cfg.logs, q), q, wallet);
  }

  /** What the Transfer events of the chain up to a block, removed ones left out, bring to a wallet, less what they take. */
  function ChainBalance(logs: seq<TokenLog>, upTo: nat, wallet: Address): int {
    if logs == [] then 0
    else
      var last := logs[|logs| - 1];
      ChainBalance(logs[..|logs| - 1], upTo, wallet)
      + match last.event
        case Some(Transfer(src, dst, amount)) =>
          if last.removed || last.block > upTo then 0
          else (if dst == wallet then amount else 0) - (if src == wallet then amount else 0)
        case _ => 0
  }

  lemma {:induction false} ChainTransfersAdd(logs: seq<TokenLog>, q: Query, wallet: Address)
    ensures CalculateTokenBalance(ChainTransfers(logs, q), q, wallet) == ChainBalance(logs, q.upTo, wallet)
  {
    hide CalculateTokenBalance;
    if logs == [] {
      BalanceOneMore([], TransferRow(0, ZERO_ADDRESS, LogKey(Hash([]), 0), ZERO_ADDRESS, ZERO_ADDRESS, 0, 0, false), q, wallet);
    } else {
      var (init, last) := (logs[..|logs| - 1], logs[|logs| - 1]);
      ChainTransfersAdd(init, q, wallet);
      if IsTransfer(last) {
        BalanceOneMore(ChainTransfers(init, q), LedgerRow(q, last.key, TransferOf(last)), q, wallet);
      } else {
        assert ChainTransfers(init, q) + [] == ChainTransfers(init, q);
      }
    }
  }

  /** Up to the checkpoint, the balance that the SQL query computes from the tables, now or later, is what the Transfer events of
      the chain add up to. */
  lemma BalancesReadOffTheChain(s: System, cfg: Setting, steps: seq<Step>, q: Query, rows: seq<TransferRow>, wallet: Address)
    requires UniqueKeys(cfg.logs) && Reachable(s, cfg) && s.db.checkpoint.Some? && q.upTo <= s.db.checkpoint.value
    requires forall l :: l in cfg.logs ==> cfg.start <= l.block
    requires ListsAll(rows, PerformAll(s, cfg, steps).db, q) && wallet != ZERO_ADDRESS
    ensures CalculateTokenBalance(rows, q, wallet) == ChainBalance(cfg.logs, q.upTo, wallet)
  {
    hide PerformAll, UniqueKeys, CalculateTokenBalance, ChainTransfers, Replay, Reachable, ListsAll, ChainBalance;
    BalancesMatchTheChain(s, cfg, steps, q, rows, wallet);
    LedgerAgrees(ChainTransfers(cfg.logs, q), q, wallet);
    ChainTransfersAdd(cfg.logs, q, wallet);
  }

  lemma CountedRowIsOnChain(s: System, cfg: Setting, later: System, q: Query, r: TransferRow)
    requires UniqueKeys(cfg.logs) && Reachable(s, cfg) && s.db.checkpoint.Some? && q.upTo <= s.db.checkpoint.value
    requires forall l :: l in cfg.logs ==> cfg.start <= l.block
    requires Inv(later, cfg) && Later(s.db, later.db) && Counts(r, q)
    ensures (r.key in later.db.transfers && r == LedgerRow(q, r.key, later.db.transfers[r.key]))
            <==> exists l :: l in cfg.logs && IsTransfer(l) && r == LedgerRow(q, l.key, TransferOf(l))
  {
    hide UniqueKeys, Reachable;
    if r.key in later.db.transfers && r == LedgerRow(q, r.key, later.db.transfers[r.key]) {
      var l :| l in cfg.logs && l.key == r.key && IsTransfer(l) && later.db.transfers[r.key] == TransferOf(l);
    }
    if exists l :: l in cfg.logs && IsTransfer(l) && r == LedgerRow(q, l.key, TransferOf(l)) {
      var l :| l in cfg.logs && IsTransfer(l) && r == LedgerRow(q, l.key, TransferOf(l));
      Coverage(s, cfg, l);
      RowsAreExact(later.db, cfg.logs, l);
      assert l.key in later.db.transfers;
    }
  }
}
