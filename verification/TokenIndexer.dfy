/** One window of the token stream, step by step: fetch, decode, fetch what is missing, then write everything in one
    transaction (indexer/token_indexer.go, persistence/token_transfers.go, persistence/transactions.go). */
module TokenIndexer {
  import opened Evm
  import opened Words
  import opened TokenStream
  import M = MetadataPool

  datatype TxInput = TxInput(hash: Hash, receipt: Receipt)

  datatype RawInput = RawInput(key: LogKey, row: RawRow)

  datatype TransferInput = TransferInput(key: LogKey, row: StoredTransfer)

  // ---- What the lists of a batch write ---------------------------------------------------------------------

  function UpsertTxs(transactions: map<Hash, Receipt>, txs: seq<TxInput>): map<Hash, Receipt> {
    if txs == [] then transactions
    else UpsertTxs(transactions, txs[..|txs| - 1])[txs[|txs| - 1].hash := txs[|txs| - 1].receipt]
  }

  function UpsertRaw(events: map<LogKey, RawRow>, inputs: seq<RawInput>): map<LogKey, RawRow> {
    if inputs == [] then events
    else
      var (before, last) := (UpsertRaw(events, inputs[..|inputs| - 1]), inputs[|inputs| - 1]);
      before[last.key := RawAfterSave(before, last.key, last.row)]
  }

  function UpsertTransfers(transfers: map<LogKey, StoredTransfer>, inputs: seq<TransferInput>): map<LogKey, StoredTransfer> {
    if inputs == [] then transfers
    else
      var (before, last) := (UpsertTransfers(transfers, inputs[..|inputs| - 1]), inputs[|inputs| - 1]);
      before[last.key := TransferAfterSave(before, last.key, last.row)]
  }

  /** The lists that IndexRange builds from decoded logs. */
  function RawInputs(logs: seq<TokenLog>): seq<RawInput>
    requires Decodable(logs)
  {
    if logs == [] then []
    else RawInputs(logs[..|logs| - 1]) + [RawInput(logs[|logs| - 1].key, RawOf(logs[|logs| - 1]))]
  }

  function TransferInputs(logs: seq<TokenLog>): seq<TransferInput> {
    if logs == [] then []
    else
      var last := logs[|logs| - 1];
      TransferInputs(logs[..|logs| - 1]) + if IsTransfer(last) then [TransferInput(last.key, TransferOf(last))] else []
  }

  lemma {:induction false} RawInputsSaveEvents(events: map<LogKey, RawRow>, logs: seq<TokenLog>)
    requires Decodable(logs)
    ensures UpsertRaw(events, RawInputs(logs)) == SaveEvents(events, logs)
  {
    if logs != [] {
      RawInputsSaveEvents(events, logs[..|logs| - 1]);
      var inputs := RawInputs(logs);
      assert inputs[..|inputs| - 1] == RawInputs(logs[..|logs| - 1]);
    }
  }

  lemma {:induction false} TransferInputsSaveTransfers(transfers: map<LogKey, StoredTransfer>, logs: seq<TokenLog>)
    ensures UpsertTransfers(transfers, TransferInputs(logs)) == SaveTransfers(transfers, logs)
  {
    if logs != [] {
      TransferInputsSaveTransfers(transfers, logs[..|logs| - 1]);
      if IsTransfer(logs[|logs| - 1]) {
        var inputs := TransferInputs(logs);
        assert inputs[..|inputs| - 1] == TransferInputs(logs[..|logs| - 1]);
      } else {
        assert TransferInputs(logs) == TransferInputs(logs[..|logs| - 1]);
      }
    }
  }

  predicate HasHash(txs: seq<TxInput>, h: Hash) {
    exists i :: 0 <= i < |txs| && txs[i].hash == h
  }

  lemma HasHashOneMore(txs: seq<TxInput>, next: TxInput, h: Hash)
    ensures HasHash(txs + [next], h) <==> h == next.hash || HasHash(txs, h)
  {
    var after := txs + [next];
    if h == next.hash {
      assert after[|txs|].hash == h;
    } else if HasHash(txs, h) {
      var i :| 0 <= i < |txs| && txs[i].hash == h;
      assert after[i].hash == h;
    }
  }

  /** The fetched transactions in delivery order: each needed hash, with the receipt the node answers. */
  ghost predicate Delivers(txs: seq<TxInput>, needed: set<Hash>, receipts: Hash -> Receipt) {
    && (forall i :: 0 <= i < |txs| ==> txs[i].receipt == receipts(txs[i].hash))
    && (forall h :: h in needed <==> HasHash(txs, h))
  }

  lemma {:induction false} UpsertTxsKeys(transactions: map<Hash, Receipt>, txs: seq<TxInput>, receipts: Hash -> Receipt)
    requires forall i :: 0 <= i < |txs| ==> txs[i].receipt == receipts(txs[i].hash)
    ensures forall h :: h in UpsertTxs(transactions, txs) <==> h in transactions || HasHash(txs, h)
    ensures forall h :: h in UpsertTxs(transactions, txs) ==>
              UpsertTxs(transactions, txs)[h] == if HasHash(txs, h) then receipts(h) else transactions[h]
  {
    if txs != [] {
      var (init, last) := (txs[..|txs| - 1], txs[|txs| - 1]);
      UpsertTxsKeys(transactions, init, receipts);
      assert txs == init + [last];
      forall h: Hash
        ensures HasHash(txs, h) <==> h == last.hash || HasHash(init, h)
      {
        HasHashOneMore(init, last, h);
      }
    }
  }

  lemma DeliveredIsFetched(transactions: map<Hash, Receipt>, txs: seq<TxInput>, needed: set<Hash>, receipts: Hash -> Receipt)
    requires Delivers(txs, needed, receipts)
    ensures UpsertTxs(transactions, txs) == transactions + map h | h in needed :: receipts(h)
  {
    UpsertTxsKeys(transactions, txs, receipts);
  }

  // ---- The worker pool behind FetchMetadata ------------------------------------------------------------------------

  /** Fetches fail exactly for the hashes for which fails holds. */
  ghost predicate Obeys(p: M.Pool, steps: seq<M.Step>, fails: Hash -> bool)
    requires M.IsRun(p, steps)
    decreases |steps|
  {
    steps != [] ==> StepObeys(p, steps[0], fails) && Obeys(M.Apply(p, steps[0]), steps[1..], fails)
  }

  predicate StepObeys(p: M.Pool, step: M.Step, fails: Hash -> bool)
    requires M.Enabled(p, step)
  {
    && (step.Deliver? ==> !fails(p.workers[step.w].hash))
    && (step.Fail? ==> fails(p.workers[step.w].hash))
  }

  ghost predicate Answered(p: M.Pool, fails: Hash -> bool) {
    && (forall i :: 0 <= i < |p.metas| ==> !fails(p.metas[i]))
    && (forall i :: 0 <= i < |p.collected| ==> !fails(p.collected[i]))
    && (forall i :: 0 <= i < |p.failed| ==> fails(p.failed[i]))
  }

  lemma {:induction false} RunIsAnswered(p: M.Pool, steps: seq<M.Step>, fails: Hash -> bool)
    requires M.IsRun(p, steps) && Obeys(p, steps, fails) && Answered(p, fails)
    ensures Answered(M.Run(p, steps), fails)
    decreases |steps|
  {
    if steps != [] {
      RunIsAnswered(M.Apply(p, steps[0]), steps[1..], fails);
    }
  }

  function InputsOf(hashes: seq<Hash>, receipts: Hash -> Receipt): seq<TxInput> {
    if hashes == [] then [] else InputsOf(hashes[..|hashes| - 1], receipts) + [TxInput(hashes[|hashes| - 1], receipts(hashes[|hashes| - 1]))]
  }

  lemma {:induction false} InputsDeliver(hashes: seq<Hash>, receipts: Hash -> Receipt)
    ensures Delivers(InputsOf(hashes, receipts), (set h | h in hashes), receipts) && |InputsOf(hashes, receipts)| == |hashes|
  {
    if hashes != [] {
      var (init, last) := (hashes[..|hashes| - 1], hashes[|hashes| - 1]);
      InputsDeliver(init, receipts);
      var next := TxInput(last, receipts(last));
      assert hashes == init + [last];
      forall h
        ensures h in hashes <==> HasHash(InputsOf(hashes, receipts), h)
      {
        HasHashOneMore(InputsOf(init, receipts), next, h);
        assert h in init <==> HasHash(InputsOf(init, receipts), h);
      }
    }
  }

  lemma SameMembers(a: seq<Hash>, b: seq<Hash>)
    requires multiset(a) == multiset(b)
    ensures (set h | h in a) == (set h | h in b) && |a| == |b|
    ensures forall h :: h in a <==> h in b
  {
    assert forall h :: h in a <==> h in multiset(a);
    assert forall h :: h in b <==> h in multiset(b);
    assert |multiset(a)| == |a| && |multiset(b)| == |b|;
  }

  /** In every schedule a finished pool delivers each needed transaction once; and a schedule that cannot be continued, without
      an early cancellation, succeeds exactly when no fetch fails. */
  lemma PoolRefinesFetchMetadata(needed: seq<Hash>, steps: seq<M.Step>, fails: Hash -> bool, receipts: Hash -> Receipt)
    requires M.IsRun(M.Start(needed), steps) && Obeys(M.Start(needed), steps, fails)
    ensures var p := M.Run(M.Start(needed), steps);
            p.collector.Finished? ==>
              && Delivers(InputsOf(p.collected, receipts), (set h | h in needed), receipts)
              && |InputsOf(p.collected, receipts)| == |needed| && forall h :: h in needed ==> !fails(h)
    ensures var p := M.Run(M.Start(needed), steps);
            M.Maximal(p) && !M.CancelledEarly(M.Start(needed), steps) ==>
              (p.collector.Finished? <==> forall h :: h in needed ==> !fails(h))
  {
    hide M.Maximal, M.CancelledEarly, Obeys, Delivers, InputsOf;
    var p := M.Run(M.Start(needed), steps);
    assert M.Reachable(needed, p);
    M.OutcomeIsJustified(needed, p);
    RunIsAnswered(M.Start(needed), steps, fails);
    if p.collector.Finished? {
      InputsDeliver(p.collected, receipts);
      SameMembers(p.collected, needed);
      forall h | h in needed
        ensures !fails(h)
      {
        var i :| 0 <= i < |p.collected| && p.collected[i] == h;
      }
    }
    if M.Maximal(p) && !M.CancelledEarly(M.Start(needed), steps) && forall h :: h in needed ==> !fails(h) {
      NoFailure(needed, p, fails);
      assert M.EndsAs(M.Start(needed), steps, false, false, p.collector.Finished?);
      M.OutcomeOfMaximalRun(needed, false, false, p.collector.Finished?);
    }
  }

  lemma FailedIsNeeded(needed: seq<Hash>, p: M.Pool, i: nat)
    requires M.Reachable(needed, p) && i < |p.failed|
    ensures p.failed[i] in needed
  {
    M.ReachableInv(needed, p);
    assert M.AccountedAt(needed, p, p.failed[i]);
    assert p.failed[i] in multiset(p.failed);
    assert p.failed[i] in multiset(needed);
  }

  lemma NoFailure(needed: seq<Hash>, p: M.Pool, fails: Hash -> bool)
    requires M.Reachable(needed, p) && Answered(p, fails) && forall h :: h in needed ==> !fails(h)
    ensures p.failed == []
  {
    if p.failed != [] {
      FailedIsNeeded(needed, p, 0);
      assert false;
    }
  }

  // ---- The store -------------------------------------------------------------------------------------------------

  class Postgres {
    var transactions: map<Hash, Receipt>
    var events: map<LogKey, RawRow>
    var transfers: map<LogKey, StoredTransfer>
    var checkpoints: map<string, nat>

    constructor ()
      ensures transactions == map[] && events == map[] && transfers == map[] && checkpoints == map[]
    {
      transactions, events, transfers, checkpoints := map[], map[], map[], map[];
    }

    /** The tables as one stream sees them. */
    function Snapshot(stream: string): TokenTables
      reads this
    {
      TokenTables(transactions, events, transfers, if stream in checkpoints then Some(checkpoints[stream]) else None)
    }

    /** Which of the hashes are stored. */
    method GetExistingTxHashes(hashes: seq<Hash>, fails: bool) returns (result: Result<set<Hash>>)
      ensures result == if fails then Error else Ok(set h | h in hashes && h in transactions)
    {
      if fails {
        return Error;
      }
      var found: set<Hash>, i := {}, 0;
      while i < |hashes|
        invariant i <= |hashes| && found == set h | h in hashes[..i] && h in transactions
      {
        assert hashes[..i + 1] == hashes[..i] + [hashes[i]];
        if hashes[i] in transactions {
          found := found + {hashes[i]};
        }
        i := i + 1;
      }
      assert hashes[..i] == hashes;
      result := Ok(found);
    }

    /** All or nothing: a statement that fails, or an event without its transaction, rolls everything back. Statement
        number n fails when fails(n) holds. */
    method SaveTokenBatch(stream: string, txs: seq<TxInput>, rawEvents: seq<RawInput>, inputs: seq<TransferInput>,
                          checkpointBlock: nat, fails: nat -> bool) returns (ok: bool)
      modifies this
      ensures !ok ==> transactions == old(transactions) && events == old(events) && transfers == old(transfers)
                      && checkpoints == old(checkpoints)
      ensures ok ==>
                && transactions == UpsertTxs(old(transactions), txs)
                && events == UpsertRaw(old(events), rawEvents)
                && transfers == UpsertTransfers(old(transfers), inputs)
                && checkpoints == if stream != "" && checkpointBlock > 0 then old(checkpoints)[stream := checkpointBlock]
                                  else old(checkpoints)
      ensures (forall n :: !fails(n)) && RowsHaveTransactions(rawEvents, UpsertTxs(old(transactions), txs)) ==> ok
    {
      var tx1, n, i := transactions, 0, 0;
      assert txs[..0] == [] && rawEvents[..0] == [] && inputs[..0] == [];
      while i < |txs|
        invariant i <= |txs| && tx1 == UpsertTxs(transactions, txs[..i])
      {
        assert txs[..i + 1][..i] == txs[..i];
        if fails(n) {
          return false;
        }
        tx1 := tx1[txs[i].hash := txs[i].receipt];
        n, i := n + 1, i + 1;
      }
      assert txs[..i] == txs;
      var events1 := events;
      i := 0;
      while i < |rawEvents|
        invariant i <= |rawEvents| && events1 == UpsertRaw(events, rawEvents[..i])
      {
        assert rawEvents[..i + 1][..i] == rawEvents[..i];
        var input := rawEvents[i];
        if fails(n) || (input.key !in events1 && input.key.tx !in tx1) {
          return false;
        }
        events1 := events1[input.key := RawAfterSave(events1, input.key, input.row)];
        n, i := n + 1, i + 1;
      }
      assert rawEvents[..i] == rawEvents;
      var transfers1 := transfers;
      i := 0;
      while i < |inputs|
        invariant i <= |inputs| && transfers1 == UpsertTransfers(transfers, inputs[..i])
      {
        assert inputs[..i + 1][..i] == inputs[..i];
        if fails(n) {
          return false;
        }
        transfers1 := transfers1[inputs[i].key := TransferAfterSave(transfers1, inputs[i].key, inputs[i].row)];
        n, i := n + 1, i + 1;
      }
      assert inputs[..i] == inputs;
      var checkpoints1 := checkpoints;
      if stream != "" && checkpointBlock > 0 {
        if fails(n) {
          return false;
        }
        checkpoints1, n := checkpoints1[stream := checkpointBlock], n + 1;
      }
      if fails(n) {
        return false;
      }
      transactions, events, transfers, checkpoints := tx1, events1, transfers1, checkpoints1;
      ok := true;
    }
  }

  predicate RowsHaveTransactions(rawEvents: seq<RawInput>, transactions: map<Hash, Receipt>) {
    forall i :: 0 <= i < |rawEvents| ==> rawEvents[i].key.tx in transactions
  }

  // ---- The indexer -------------------------------------------------------------------------------------------------

  /** What can go wrong in one attempt at a window. */
  datatype Env = Env(logsFail: bool, timestampFails: nat -> bool, queryFails: bool, metadataFails: Hash -> bool,
                     headerFails: bool, saveFails: nat -> bool)
  {
    ghost predicate NothingFails() {
      && !logsFail && !queryFails && !headerFails
      && (forall b :: !timestampFails(b)) && (forall h :: !metadataFails(h)) && (forall n :: !saveFails(n))
    }
  }

  /** What a committed window says about one of its logs: a new row has the values of the log; a row that was there keeps its
      event, parties, amount and block and takes the timestamp and the flag. */
  predicate LogIsIndexed(before: TokenTables, after: TokenTables, log: TokenLog) {
    && log.event.Some? && log.key in after.events
    && (var row := after.events[log.key];
        && row.time == log.time && row.removed == log.removed
        && (if log.key in before.events
            then row.event == before.events[log.key].event && row.block == before.events[log.key].block
            else row.event == log.event.value && row.block == log.block))
    && (log.event.value.Transfer? ==>
          && log.key in after.transfers
          && var row := after.transfers[log.key];
             && row.time == log.time && row.removed == log.removed
             && (if log.key in before.transfers
                 then row == before.transfers[log.key].(time := log.time, removed := log.removed)
                 else row.src == log.event.value.src && row.dst == log.event.value.dst && row.amount == log.event.value.amount
                      && row.block == log.block))
  }

  /** A transaction of the window: the stored one is kept, a missing one has the receipt the node answers. */
  predicate TransactionIsIndexed(cfg: Setting, before: TokenTables, after: TokenTables, queryFails: bool, tx: Hash) {
    && tx in after.transactions
    && after.transactions[tx] == if tx in before.transactions && !queryFails then before.transactions[tx] else cfg.receipts(tx)
  }

  /** All that a committed window of a chain with unique keys changes. */
  ghost predicate WindowIsIndexed(cfg: Setting, before: TokenTables, after: TokenTables, from: nat, to: nat, queryFails: bool) {
    && after.checkpoint == (if to > 0 then Some(to) else before.checkpoint)
    && (forall l :: l in cfg.logs && from <= l.block <= to ==>
          LogIsIndexed(before, after, l) && TransactionIsIndexed(cfg, before, after, queryFails, l.key.tx))
    && (forall k :: k in after.events && (forall l :: l in cfg.logs && from <= l.block <= to ==> l.key != k) ==>
          k in before.events && after.events[k] == before.events[k])
    && (forall k :: k in after.transfers && (forall l :: l in cfg.logs && from <= l.block <= to ==> !TransferLog(l, k)) ==>
          k in before.transfers && after.transfers[k] == before.transfers[k])
  }

  lemma CommittedWindowIsIndexed(cfg: Setting, before: TokenTables, after: TokenTables, from: nat, to: nat, queryFails: bool)
    requires UniqueKeys(cfg.logs) && Decodable(Window(cfg.logs, from, to))
    requires after == Committed(before, Window(cfg.logs, from, to), Fetched(cfg, Window(cfg.logs, from, to), Existing(before, queryFails)), to)
    ensures WindowIsIndexed(cfg, before, after, from, to, queryFails)
  {
    hide SaveEvents, SaveTransfers, Window, LogIsIndexed, Decodable, UniqueKeys, TransferLog;
    var logs := Window(cfg.logs, from, to);
    WindowMembers(cfg.logs, from, to);
    forall l | l in cfg.logs && from <= l.block <= to
      ensures LogIsIndexed(before, after, l)
    {
      IndexedLog(cfg, before, after, logs, l);
    }
    forall l | l in cfg.logs && from <= l.block <= to
      ensures TransactionIsIndexed(cfg, before, after, queryFails, l.key.tx)
    {
      assert l.key.tx in HashesOf(logs);
    }
    forall k | k in after.events && (forall l :: l in cfg.logs && from <= l.block <= to ==> l.key != k)
      ensures k in before.events && after.events[k] == before.events[k]
    {
      SavedEventReads(before.events, logs, k);
      assert forall i :: 0 <= i < |logs| ==> logs[i] in logs;
    }
    forall k | k in after.transfers && (forall l :: l in cfg.logs && from <= l.block <= to ==> !TransferLog(l, k))
      ensures k in before.transfers && after.transfers[k] == before.transfers[k]
    {
      SavedTransferReads(before.transfers, logs, k);
      assert forall i :: 0 <= i < |logs| ==> logs[i] in logs;
    }
  }

  lemma IndexedLog(cfg: Setting, before: TokenTables, after: TokenTables, logs: seq<TokenLog>, log: TokenLog)
    requires UniqueKeys(cfg.logs) && Decodable(logs) && log in logs && (forall l :: l in logs ==> l in cfg.logs)
    requires after.events == SaveEvents(before.events, logs) && after.transfers == SaveTransfers(before.transfers, logs)
    ensures LogIsIndexed(before, after, log)
  {
    hide SaveEvents, SaveTransfers, UniqueKeys;
    SavedEventReads(before.events, logs, log.key);
    SavedTransferReads(before.transfers, logs, log.key);
    forall j | 0 <= j < |logs| && logs[j].key == log.key
      ensures logs[j] == log
    {
      SameKeySameLog(cfg.logs, logs[j], log);
    }
    var first, last := FirstAndLast(logs, log);
  }

  lemma {:induction false} FirstAndLast(logs: seq<TokenLog>, log: TokenLog) returns (first: nat, last: nat)
    requires log in logs && forall j :: 0 <= j < |logs| && logs[j].key == log.key ==> logs[j] == log
    ensures IsFirstWith(logs, log.key, first) && IsLastWith(logs, log.key, last) && logs[first] == logs[last] == log
    ensures log.event.Some? && log.event.value.Transfer? ==> IsFirstTransfer(logs, log.key, first) && IsLastTransfer(logs, log.key, last)
  {
    var init := logs[..|logs| - 1];
    if log in init {
      assert forall j :: 0 <= j < |init| ==> init[j] == logs[j];
      first, last := FirstAndLast(init, log);
      if logs[|logs| - 1].key == log.key {
        last := |logs| - 1;
      }
    } else {
      assert logs == init + [logs[|logs| - 1]];
      first, last := |logs| - 1, |logs| - 1;
      assert forall j :: 0 <= j < |init| ==> logs[j] in init;
    }
  }

  class TokenIndexer {
    const cfg: Setting
    const stream: string
    const db: Postgres

    constructor (cfg: Setting, stream: string, db: Postgres)
      requires stream != ""
      ensures this.cfg == cfg && this.stream == stream && this.db == db
    {
      this.cfg, this.stream, this.db := cfg, stream, db;
    }

    /** One attempt either changes nothing or commits exactly the transaction of the state machine. */
    method IndexRange(from: nat, to: nat, env: Env) returns (ok: bool)
      requires stream != ""
      modifies db
      ensures !ok ==> db.Snapshot(stream) == old(db.Snapshot(stream)) && db.checkpoints == old(db.checkpoints)
      ensures ok ==>
                var logs := Window(cfg.logs, from, to);
                && from <= to && Decodable(logs)
                && db.Snapshot(stream) == Committed(old(db.Snapshot(stream)), logs,
                                                    Fetched(cfg, logs, Existing(old(db.Snapshot(stream)), env.queryFails)), to)
      ensures ok && UniqueKeys(cfg.logs) ==>
                WindowIsIndexed(cfg, old(db.Snapshot(stream)), db.Snapshot(stream), from, to, env.queryFails)
      ensures forall s :: s != stream ==> (s in db.checkpoints <==> s in old(db.checkpoints))
                                          && (s in db.checkpoints ==> db.checkpoints[s] == old(db.checkpoints[s]))
      ensures from <= to && Decodable(Window(cfg.logs, from, to)) && env.NothingFails() ==> ok
      // a success has fetched everything: the logs, every timestamp, every transaction that was missing, and the header
      ensures ok ==> !env.logsFail && !env.headerFails
                     && forall l :: l in cfg.logs && from <= l.block <= to ==>
                          && !env.timestampFails(l.block)
                          && (env.queryFails || l.key.tx !in old(db.transactions) ==> !env.metadataFails(l.key.tx))
    {
      hide Window, SaveEvents, SaveTransfers, UpsertTxs, UpsertRaw, UpsertTransfers, WindowIsIndexed, UniqueKeys;
      if from > to || env.logsFail {
        return false;
      }
      var logs := Window(cfg.logs, from, to);
      var fetchedTimes := FetchTimestamps(logs, env.timestampFails);
      if !fetchedTimes {
        return false;
      }
      var decoded, rawEvents, inputs, hashes := DecodeLogs(logs);
      if !decoded {
        return false;
      }
      var existing := db.GetExistingTxHashes(hashes, env.queryFails);
      var known := if existing.Ok? then existing.value else {};
      var needed := (set h | h in hashes) - known;
      var txs: seq<TxInput>;
      ok, txs := FetchMetadata(needed, env.metadataFails);
      if !ok || env.headerFails {
        return false;
      }
      ghost var before := db.Snapshot(stream);
      DeliveredIsFetched(db.transactions, txs, needed, cfg.receipts);
      RawInputsSaveEvents(db.events, logs);
      TransferInputsSaveTransfers(db.transfers, logs);
      NeededAreTheMissing(before, logs, hashes, env.queryFails, needed);
      WindowHasTransactions(before, logs, needed);
      ok := db.SaveTokenBatch(stream, txs, rawEvents, inputs, to, env.saveFails);
      WindowMembers(cfg.logs, from, to);
      assert forall i :: 0 <= i < |logs| ==> logs[i] in logs;
      assert forall l :: l in logs ==> l.key.tx in HashesOf(logs);
      if ok && UniqueKeys(cfg.logs) {
        CommittedWindowIsIndexed(cfg, before, db.Snapshot(stream), from, to, env.queryFails);
      }
    }

    /** Each block's timestamp is fetched once. */
    method FetchTimestamps(logs: seq<TokenLog>, fails: nat -> bool) returns (ok: bool)
      ensures ok <==> forall i :: 0 <= i < |logs| ==> !fails(logs[i].block)
    {
      var cached: set<nat>, i := {}, 0;
      while i < |logs|
        invariant i <= |logs| && forall b :: b in cached ==> !fails(b)
        invariant forall k :: 0 <= k < i ==> logs[k].block in cached
      {
        if logs[i].block !in cached {
          if fails(logs[i].block) {
            return false;
          }
          cached := cached + {logs[i].block};
        }
        i := i + 1;
      }
      ok := true;
    }

    /** The lists of the batch and the transactions it mentions, each once. */
    method DecodeLogs(logs: seq<TokenLog>)
      returns (ok: bool, rawEvents: seq<RawInput>, inputs: seq<TransferInput>, hashes: seq<Hash>)
      ensures ok <==> Decodable(logs)
      ensures ok ==> rawEvents == RawInputs(logs) && inputs == TransferInputs(logs)
      ensures ok ==> (set h | h in hashes) == HashesOf(logs)
    {
      rawEvents, inputs, hashes := [], [], [];
      var i := 0;
      while i < |logs|
        invariant i <= |logs| && Decodable(logs[..i])
        invariant rawEvents == RawInputs(logs[..i]) && inputs == TransferInputs(logs[..i])
        invariant (set h | h in hashes) == HashesOf(logs[..i])
      {
        var log := logs[i];
        if log.event.None? {
          return false, [], [], [];
        }
        assert logs[..i + 1][..i] == logs[..i];
        HashesOneMore(logs, i);
        if log.event.value.Transfer? {
          inputs := inputs + [TransferInput(log.key, TransferOf(log))];
        }
        rawEvents := rawEvents + [RawInput(log.key, RawOf(log))];
        if log.key.tx !in hashes {
          hashes := hashes + [log.key.tx];
        }
        assert (set h | h in hashes) == HashesOf(logs[..i]) + {log.key.tx};
        i := i + 1;
      }
      assert logs[..i] == logs;
      ok := true;
    }

    /** The result of the worker pool, in an arbitrary order. */
    method FetchMetadata(needed: set<Hash>, fails: Hash -> bool) returns (ok: bool, txs: seq<TxInput>)
      ensures ok ==> Delivers(txs, needed, cfg.receipts)
      ensures ok <==> forall h :: h in needed ==> !fails(h)
    {
      var todo := needed;
      txs := [];
      while todo != {}
        invariant todo <= needed && forall h :: h in needed - todo ==> !fails(h)
        invariant Delivers(txs, needed - todo, cfg.receipts)
      {
        var h :| h in todo;
        if fails(h) {
          return false, [];
        }
        ghost var before := txs;
        txs := txs + [TxInput(h, cfg.receipts(h))];
        DeliversOneMore(before, needed - todo, h);
        todo := todo - {h};
        assert needed - todo == (needed - (todo + {h})) + {h};
      }
      assert needed - todo == needed;
      ok := true;
    }

    lemma DeliversOneMore(txs: seq<TxInput>, delivered: set<Hash>, h: Hash)
      requires Delivers(txs, delivered, cfg.receipts)
      ensures Delivers(txs + [TxInput(h, cfg.receipts(h))], delivered + {h}, cfg.receipts)
    {
      var next := TxInput(h, cfg.receipts(h));
      forall x
        ensures x in delivered + {h} <==> HasHash(txs + [next], x)
      {
        HasHashOneMore(txs, next, x);
      }
    }
  }

  lemma HashesOneMore(logs: seq<TokenLog>, i: nat)
    requires i < |logs|
    ensures HashesOf(logs[..i + 1]) == HashesOf(logs[..i]) + {logs[i].key.tx}
  {
    assert logs[..i + 1] == logs[..i] + [logs[i]];
  }

  /** Asking only for the mentioned hashes leaves the same ones to fetch as asking for all stored ones. */
  lemma NeededAreTheMissing(db: TokenTables, logs: seq<TokenLog>, hashes: seq<Hash>, queryFails: bool, needed: set<Hash>)
    requires (set h | h in hashes) == HashesOf(logs)
    requires needed == (set h | h in hashes) - if queryFails then {} else set h | h in hashes && h in db.transactions
    ensures needed == HashesOf(logs) - Existing(db, queryFails)
  {
  }

  lemma {:induction false} WindowHasTransactions(db: TokenTables, logs: seq<TokenLog>, needed: set<Hash>)
    requires Decodable(logs) && forall l :: l in logs ==> l.key.tx in db.transactions || l.key.tx in needed
    ensures forall i :: 0 <= i < |RawInputs(logs)| ==> RawInputs(logs)[i].key.tx in db.transactions || RawInputs(logs)[i].key.tx in needed
  {
    if logs != [] {
      assert logs == logs[..|logs| - 1] + [logs[|logs| - 1]];
      WindowHasTransactions(db, logs[..|logs| - 1], needed);
    }
  }
}
