/** The token stream: each window of Transfer and Approval logs is written together with its checkpoint in one database
    transaction (indexer/token_indexer.go, persistence/token_transfers.go). */
module TokenStream {
  import opened Evm
  import opened Words

  // ---- The chain and the tables --------------------------------------------------------------------------

  datatype TokenEvent =
    | Transfer(src: Address, dst: Address, amount: nat)
    | Approval(holder: Address, spender: Address, value: nat)

  /** A log of the token; event is None when the decoder rejects it. */
  datatype TokenLog = TokenLog(key: LogKey, block: nat, time: nat, removed: bool, event: Option<TokenEvent>)

  datatype RawRow = RawRow(event: TokenEvent, block: nat, time: nat, removed: bool)

  datatype StoredTransfer = StoredTransfer(src: Address, dst: Address, amount: nat, block: nat, time: nat, removed: bool)

  datatype TokenTables = TokenTables(
    transactions: map<Hash, Receipt>,
    events: map<LogKey, RawRow>,
    transfers: map<LogKey, StoredTransfer>,
    checkpoint: Option<nat>)

  function RawOf(log: TokenLog): RawRow
    requires log.event.Some?
  {
    RawRow(log.event.value, log.block, log.time, log.removed)
  }

  predicate IsTransfer(log: TokenLog) {
    log.event.Some? && log.event.value.Transfer?
  }

  function TransferOf(log: TokenLog): StoredTransfer
    requires IsTransfer(log)
  {
    var e := log.event.value;
    StoredTransfer(e.src, e.dst, e.amount, log.block, log.time, log.removed)
  }

  /** The logs of blocks [lo, hi], in chain order. */
  function Window(logs: seq<TokenLog>, lo: int, hi: int): seq<TokenLog> {
    if logs == [] then []
    else
      var last := logs[|logs| - 1];
      Window(logs[..|logs| - 1], lo, hi) + if lo <= last.block <= hi then [last] else []
  }

  lemma {:induction false} WindowMembers(logs: seq<TokenLog>, lo: int, hi: int)
    ensures forall l :: l in Window(logs, lo, hi) <==> l in logs && lo <= l.block <= hi
  {
    if logs != [] {
      WindowMembers(logs[..|logs| - 1], lo, hi);
      assert logs == logs[..|logs| - 1] + [logs[|logs| - 1]];
    }
  }

  // ---- What one transaction writes -------------------------------------------------------------------------

  /** A repeated save refreshes only the removed flag and the timestamp. */
  function RawAfterSave(events: map<LogKey, RawRow>, key: LogKey, row: RawRow): RawRow {
    if key in events then events[key].(removed := row.removed, time := row.time) else row
  }

  function TransferAfterSave(transfers: map<LogKey, StoredTransfer>, key: LogKey, row: StoredTransfer): StoredTransfer {
    if key in transfers then transfers[key].(removed := row.removed, time := row.time) else row
  }

  predicate Decodable(logs: seq<TokenLog>) {
    forall i :: 0 <= i < |logs| ==> logs[i].event.Some?
  }

  function SaveEvents(events: map<LogKey, RawRow>, logs: seq<TokenLog>): map<LogKey, RawRow>
    requires Decodable(logs)
  {
    if logs == [] then events
    else
      var (before, last) := (SaveEvents(events, logs[..|logs| - 1]), logs[|logs| - 1]);
      before[last.key := RawAfterSave(before, last.key, RawOf(last))]
  }

  function SaveTransfers(transfers: map<LogKey, StoredTransfer>, logs: seq<TokenLog>): map<LogKey, StoredTransfer> {
    if logs == [] then transfers
    else
      var (before, last) := (SaveTransfers(transfers, logs[..|logs| - 1]), logs[|logs| - 1]);
      if IsTransfer(last) then before[last.key := TransferAfterSave(before, last.key, TransferOf(last))] else before
  }

  function HashesOf(logs: seq<TokenLog>): set<Hash> {
    set l | l in logs :: l.key.tx
  }

  /** The whole batch: the fetched transactions, the raw events, the transfers and the checkpoint, which is not written
      for block 0. */
  function Committed(db: TokenTables, logs: seq<TokenLog>, fetched: map<Hash, Receipt>, to: nat): TokenTables
    requires Decodable(logs)
  {
    TokenTables(db.transactions + fetched, SaveEvents(db.events, logs), SaveTransfers(db.transfers, logs),
                if to > 0 then Some(to) else db.checkpoint)
  }

  /** The foreign key of raw events. */
  ghost predicate EventsHaveTransactions(db: TokenTables) {
    forall k :: k in db.events ==> k.tx in db.transactions
  }

  // ---- The state machine -----------------------------------------------------------------------------------

  /** A worker inside IndexRange remembers which transactions it found stored before it fetched the others. */
  datatype Worker = Idle | Fetching(from: nat, to: nat, existing: set<Hash>) | Between(next: nat)

  datatype System = System(db: TokenTables, safe: nat, workers: seq<Worker>)

  /** The frozen logs, the receipts the node answers, and the configured start block. */
  datatype Setting = Setting(logs: seq<TokenLog>, receipts: Hash -> Receipt, start: nat)

  datatype Step =
    | Advance(safe: nat)                              // the safe head moves
    | Begin(w: nat, to: nat, queryFails: bool)        // read the checkpoint and choose a window
    | Next(w: nat, to: nat, queryFails: bool)         // go on with the next window
    | Retry(w: nat, queryFails: bool)                 // the attempt failed and starts again
    | Commit(w: nat)                                  // the transaction of the window
    | Stop(w: nat)                                    // the attempt fails for good, or the process dies
    | Other(tx: Hash, receipt: Receipt)               // another stream stores a transaction

  function EffectiveStart(checkpoint: Option<nat>, start: nat): nat {
    if checkpoint.Some? && checkpoint.value + 1 >= start then checkpoint.value + 1 else start
  }

  /** When the query for stored transactions fails, all of them are fetched. */
  function Existing(db: TokenTables, queryFails: bool): set<Hash> {
    if queryFails then {} else db.transactions.Keys
  }

  function Fetched(cfg: Setting, logs: seq<TokenLog>, existing: set<Hash>): map<Hash, Receipt> {
    map h | h in HashesOf(logs) - existing :: cfg.receipts(h)
  }

  function WithWorker(s: System, w: nat, wk: Worker): System
    requires w < |s.workers|
  {
    s.(workers := s.workers[w := wk])
  }

  /** A transaction whose events would lack their transaction row is rolled back. */
  ghost function CommitStep(s: System, cfg: Setting, w: nat): System
    requires w < |s.workers| && s.workers[w].Fetching?
  {
    var wk := s.workers[w];
    var logs := Window(cfg.logs, wk.from, wk.to);
    if !Decodable(logs) then WithWorker(s, w, Idle)
    else
      var after := Committed(s.db, logs, Fetched(cfg, logs, wk.existing), wk.to);
      if EventsHaveTransactions(after) then WithWorker(s.(db := after), w, Between(wk.to + 1)) else WithWorker(s, w, Idle)
  }

  ghost function Perform(s: System, cfg: Setting, step: Step): System {
    match step
    case Advance(safe) => if safe >= s.safe then s.(safe := safe) else s
    case Begin(w, to, queryFails) =>
      var from := EffectiveStart(s.db.checkpoint, cfg.start);
      if w < |s.workers| && s.workers[w].Idle? && from <= to <= s.safe
      then WithWorker(s, w, Fetching(from, to, Existing(s.db, queryFails))) else s
    case Next(w, to, queryFails) =>
      if w < |s.workers| && s.workers[w].Between? && s.workers[w].next <= to <= s.safe
      then WithWorker(s, w, Fetching(s.workers[w].next, to, Existing(s.db, queryFails))) else s
    case Retry(w, queryFails) =>
      if w < |s.workers| && s.workers[w].Fetching?
      then WithWorker(s, w, Fetching(s.workers[w].from, s.workers[w].to, Existing(s.db, queryFails))) else s
    case Commit(w) => if w < |s.workers| && s.workers[w].Fetching? then CommitStep(s, cfg, w) else s
    case Stop(w) => if w < |s.workers| then WithWorker(s, w, Idle) else s
    case Other(tx, receipt) => s.(db := s.db.(transactions := s.db.transactions[tx := receipt]))
  }

  ghost function PerformAll(s: System, cfg: Setting, steps: seq<Step>): System
    decreases |steps|
  {
    if steps == [] then s else PerformAll(Perform(s, cfg, steps[0]), cfg, steps[1..])
  }

  /** A worker begins after the checkpoint, but never below the configured start, and never reads past the safe head. */
  lemma BeginReads(s: System, cfg: Setting, w: nat, to: nat, queryFails: bool)
    requires w < |s.workers|
    ensures var after := Perform(s, cfg, Begin(w, to, queryFails));
            var from := if s.db.checkpoint.None? || s.db.checkpoint.value < cfg.start then cfg.start else s.db.checkpoint.value + 1;
            && after.db == s.db && after.safe == s.safe && |after.workers| == |s.workers|
            && (forall v :: 0 <= v < |s.workers| && v != w ==> after.workers[v] == s.workers[v])
            && (after.workers[w] != s.workers[w] ==> after.workers[w].Fetching? && after.workers[w].from == from && after.workers[w].to == to)
            && (after.workers[w] != s.workers[w] <==> s.workers[w].Idle? && from <= to <= s.safe)
  {
  }

  function Fresh(n: nat): System {
    System(TokenTables(map[], map[], map[], None), 0, seq(n, i => Idle))
  }

  ghost predicate Reachable(s: System, cfg: Setting) {
    exists n: nat, steps: seq<Step> :: PerformAll(Fresh(n), cfg, steps) == s
  }

  // ---- The invariant -----------------------------------------------------------------------------------------

  predicate UniqueKeys(logs: seq<TokenLog>) {
    forall i, j :: 0 <= i < j < |logs| ==> logs[i].key != logs[j].key
  }

  ghost predicate RawFrom(logs: seq<TokenLog>, k: LogKey, row: RawRow) {
    exists l :: l in logs && l.key == k && l.event.Some? && row == RawOf(l)
  }

  ghost predicate TransferFrom(logs: seq<TokenLog>, k: LogKey, row: StoredTransfer) {
    exists l :: l in logs && l.key == k && IsTransfer(l) && row == TransferOf(l)
  }

  /** Every stored row copies a log of the chain. */
  ghost predicate GenuineEvents(events: map<LogKey, RawRow>, logs: seq<TokenLog>) {
    forall k :: k in events ==> RawFrom(logs, k, events[k])
  }

  ghost predicate GenuineTransfers(transfers: map<LogKey, StoredTransfer>, logs: seq<TokenLog>) {
    forall k :: k in transfers ==> TransferFrom(logs, k, transfers[k])
  }

  predicate Stored(db: TokenTables, log: TokenLog) {
    log.event.Some? && log.key in db.events && (IsTransfer(log) ==> log.key in db.transfers)
  }

  ghost predicate Covered(db: TokenTables, logs: seq<TokenLog>, lo: int, hi: int) {
    forall l :: l in logs && lo <= l.block <= hi ==> Stored(db, l)
  }

  ghost predicate WorkerOk(db: TokenTables, safe: nat, cfg: Setting, wk: Worker) {
    match wk
    case Idle => true
    case Between(next) => cfg.start <= next <= safe + 1 && Covered(db, cfg.logs, cfg.start, next - 1)
    case Fetching(from, to, existing) =>
      cfg.start <= from <= to <= safe && Covered(db, cfg.logs, cfg.start, from - 1) && existing <= db.transactions.Keys
  }

  ghost predicate CheckpointOk(db: TokenTables, safe: nat, cfg: Setting) {
    db.checkpoint.Some? ==> cfg.start <= db.checkpoint.value <= safe && Covered(db, cfg.logs, cfg.start, db.checkpoint.value)
  }

  ghost predicate Inv(s: System, cfg: Setting) {
    && GenuineEvents(s.db.events, cfg.logs)
    && GenuineTransfers(s.db.transfers, cfg.logs)
    && EventsHaveTransactions(s.db)
    && CheckpointOk(s.db, s.safe, cfg)
    && forall w :: 0 <= w < |s.workers| ==> WorkerOk(s.db, s.safe, cfg, s.workers[w])
  }

  /** Rows are only added. */
  ghost predicate Later(a: TokenTables, b: TokenTables) {
    && a.transactions.Keys <= b.transactions.Keys && a.events.Keys <= b.events.Keys && a.transfers.Keys <= b.transfers.Keys
  }

  // ---- One transaction ---------------------------------------------------------------------------------------

  lemma SameKeySameLog(logs: seq<TokenLog>, a: TokenLog, b: TokenLog)
    requires UniqueKeys(logs) && a in logs && b in logs && a.key == b.key
    ensures a == b
  {
  }

  lemma {:induction false} SaveEventsFacts(events: map<LogKey, RawRow>, chain: seq<TokenLog>, logs: seq<TokenLog>)
    requires UniqueKeys(chain) && Decodable(logs) && GenuineEvents(events, chain)
    requires forall l :: l in logs ==> l in chain
    ensures var after := SaveEvents(events, logs);
            && GenuineEvents(after, chain)
            && (forall k :: k in after <==> k in events || exists l :: l in logs && l.key == k)
  {
    if logs != [] {
      var (init, last) := (logs[..|logs| - 1], logs[|logs| - 1]);
      SaveEventsFacts(events, chain, init);
      assert logs == init + [last];
      var before := SaveEvents(events, init);
      assert RawFrom(chain, last.key, RawOf(last));
      if last.key in before {
        var l :| l in chain && l.key == last.key && l.event.Some? && before[last.key] == RawOf(l);
        SameKeySameLog(chain, l, last);
      }
    }
  }

  lemma {:induction false} SaveTransfersFacts(transfers: map<LogKey, StoredTransfer>, chain: seq<TokenLog>, logs: seq<TokenLog>)
    requires UniqueKeys(chain) && GenuineTransfers(transfers, chain)
    requires forall l :: l in logs ==> l in chain
    ensures var after := SaveTransfers(transfers, logs);
            && GenuineTransfers(after, chain)
            && (forall k :: k in after <==> k in transfers || exists l :: l in logs && IsTransfer(l) && l.key == k)
  {
    if logs != [] {
      var (init, last) := (logs[..|logs| - 1], logs[|logs| - 1]);
      SaveTransfersFacts(transfers, chain, init);
      assert logs == init + [last];
      var before := SaveTransfers(transfers, init);
      if IsTransfer(last) {
        assert TransferFrom(chain, last.key, TransferOf(last));
        if last.key in before {
          var l :| l in chain && l.key == last.key && IsTransfer(l) && before[last.key] == TransferOf(l);
          SameKeySameLog(chain, l, last);
        }
      }
    }
  }

  /** The transaction of a window is never rejected, stores every log of the window, and keeps every row genuine. */
  lemma CommitFacts(s: System, cfg: Setting, wk: Worker)
    requires UniqueKeys(cfg.logs) && Inv(s, cfg) && wk.Fetching? && WorkerOk(s.db, s.safe, cfg, wk)
    requires Decodable(Window(cfg.logs, wk.from, wk.to))
    ensures var logs := Window(cfg.logs, wk.from, wk.to);
            var after := Committed(s.db, logs, Fetched(cfg, logs, wk.existing), wk.to);
            && EventsHaveTransactions(after)
            && GenuineEvents(after.events, cfg.logs) && GenuineTransfers(after.transfers, cfg.logs)
            && Later(s.db, after)
            && Covered(after, cfg.logs, cfg.start, wk.to)
  {
    hide GenuineEvents, GenuineTransfers, SaveEvents, SaveTransfers;
    var logs := Window(cfg.logs, wk.from, wk.to);
    WindowMembers(cfg.logs, wk.from, wk.to);
    SaveEventsFacts(s.db.events, cfg.logs, logs);
    SaveTransfersFacts(s.db.transfers, cfg.logs, logs);
    var fetched := Fetched(cfg, logs, wk.existing);
    var after := Committed(s.db, logs, fetched, wk.to);
    forall k | k in after.events
      ensures k.tx in after.transactions
    {
      if k !in s.db.events {
        var l :| l in logs && l.key == k;
        assert l.key.tx in HashesOf(logs);
        assert k.tx in wk.existing || k.tx in fetched;
      }
    }
    forall l | l in cfg.logs && cfg.start <= l.block <= wk.to
      ensures Stored(after, l)
    {
      if l.block >= wk.from {
        assert l in logs;
      } else {
        assert Stored(s.db, l);
      }
    }
  }

  lemma LaterKeepsCovered(a: TokenTables, b: TokenTables, logs: seq<TokenLog>, lo: int, hi: int)
    requires Later(a, b) && Covered(a, logs, lo, hi)
    ensures Covered(b, logs, lo, hi)
  {
    assert forall l :: l in logs && lo <= l.block <= hi ==> Stored(a, l);
  }

  lemma LaterKeepsWorker(a: TokenTables, b: TokenTables, safe: nat, safe': nat, cfg: Setting, wk: Worker)
    requires Later(a, b) && WorkerOk(a, safe, cfg, wk) && safe <= safe'
    ensures WorkerOk(b, safe', cfg, wk)
  {
    hide Covered, Later;
    match wk
    case Idle =>
    case Between(next) => LaterKeepsCovered(a, b, cfg.logs, cfg.start, next - 1);
    case Fetching(from, to, existing) =>
      LaterKeepsCovered(a, b, cfg.logs, cfg.start, from - 1);
      LaterTransactions(a, b);
  }

  lemma LaterTransactions(a: TokenTables, b: TokenTables)
    requires Later(a, b)
    ensures a.transactions.Keys <= b.transactions.Keys
  {
  }

  /** Later tables, a sound checkpoint and a sound worker keep the invariant. */
  lemma UpdateKeepsInv(s: System, cfg: Setting, db: TokenTables, w: nat, wk: Worker)
    requires Inv(s, cfg) && Later(s.db, db) && w < |s.workers| && WorkerOk(db, s.safe, cfg, wk)
    requires GenuineEvents(db.events, cfg.logs) && GenuineTransfers(db.transfers, cfg.logs) && EventsHaveTransactions(db)
    requires CheckpointOk(db, s.safe, cfg)
    ensures Inv(WithWorker(s.(db := db), w, wk), cfg)
  {
    hide WorkerOk, GenuineEvents, GenuineTransfers, EventsHaveTransactions, CheckpointOk, Later;
    forall v | 0 <= v < |s.workers| && v != w
      ensures WorkerOk(db, s.safe, cfg, s.workers[v])
    {
      LaterKeepsWorker(s.db, db, s.safe, s.safe, cfg, s.workers[v]);
    }
  }

  lemma LaterReflexive(a: TokenTables)
    ensures Later(a, a)
  {
  }

  lemma CommitKeepsInv(s: System, cfg: Setting, w: nat)
    requires UniqueKeys(cfg.logs) && Inv(s, cfg) && w < |s.workers| && s.workers[w].Fetching?
    ensures Inv(CommitStep(s, cfg, w), cfg) && Later(s.db, CommitStep(s, cfg, w).db)
  {
    hide GenuineEvents, GenuineTransfers, Later, Covered, EventsHaveTransactions, SaveEvents, SaveTransfers, UniqueKeys, Window;
    var wk := s.workers[w];
    var logs := Window(cfg.logs, wk.from, wk.to);
    LaterReflexive(s.db);
    if Decodable(logs) {
      CommitFacts(s, cfg, wk);
      var after := Committed(s.db, logs, Fetched(cfg, logs, wk.existing), wk.to);
      if s.db.checkpoint.Some? {
        LaterKeepsCovered(s.db, after, cfg.logs, cfg.start, s.db.checkpoint.value);
      }
      UpdateKeepsInv(s, cfg, after, w, Between(wk.to + 1));
    } else {
      UpdateKeepsInv(s, cfg, s.db, w, Idle);
    }
  }

  lemma PerformKeepsInv(s: System, cfg: Setting, step: Step)
    requires UniqueKeys(cfg.logs) && Inv(s, cfg)
    ensures Inv(Perform(s, cfg, step), cfg) && Later(s.db, Perform(s, cfg, step).db)
  {
    hide GenuineEvents, GenuineTransfers, Covered, UniqueKeys, Window, CommitStep;
    LaterReflexive(s.db);
    match step
    case Advance(safe) =>
      if safe >= s.safe {
        forall w | 0 <= w < |s.workers|
          ensures WorkerOk(s.db, safe, cfg, s.workers[w])
        {
          LaterKeepsWorker(s.db, s.db, s.safe, safe, cfg, s.workers[w]);
        }
      }
    case Begin(w, to, queryFails) =>
      var from := EffectiveStart(s.db.checkpoint, cfg.start);
      if w < |s.workers| && s.workers[w].Idle? && from <= to <= s.safe {
        StartIsCovered(s, cfg);
        UpdateKeepsInv(s, cfg, s.db, w, Fetching(from, to, Existing(s.db, queryFails)));
      }
    case Next(w, to, queryFails) =>
      if w < |s.workers| && s.workers[w].Between? && s.workers[w].next <= to <= s.safe {
        UpdateKeepsInv(s, cfg, s.db, w, Fetching(s.workers[w].next, to, Existing(s.db, queryFails)));
      }
    case Retry(w, queryFails) =>
      if w < |s.workers| && s.workers[w].Fetching? {
        UpdateKeepsInv(s, cfg, s.db, w, Fetching(s.workers[w].from, s.workers[w].to, Existing(s.db, queryFails)));
      }
    case Commit(w) =>
      if w < |s.workers| && s.workers[w].Fetching? {
        CommitKeepsInv(s, cfg, w);
      }
    case Stop(w) =>
      if w < |s.workers| {
        UpdateKeepsInv(s, cfg, s.db, w, Idle);
      }
    case Other(tx, receipt) =>
      OtherKeepsInv(s, cfg, tx, receipt);
  }

  lemma StartIsCovered(s: System, cfg: Setting)
    requires Inv(s, cfg)
    ensures Covered(s.db, cfg.logs, cfg.start, EffectiveStart(s.db.checkpoint, cfg.start) - 1)
  {
  }

  lemma OtherKeepsInv(s: System, cfg: Setting, tx: Hash, receipt: Receipt)
    requires Inv(s, cfg)
    ensures var db := s.db.(transactions := s.db.transactions[tx := receipt]);
            Inv(s.(db := db), cfg) && Later(s.db, db)
  {
    hide GenuineEvents, GenuineTransfers;
    var db := s.db.(transactions := s.db.transactions[tx := receipt]);
    forall w | 0 <= w < |s.workers|
      ensures WorkerOk(db, s.safe, cfg, s.workers[w])
    {
      LaterKeepsWorker(s.db, db, s.safe, s.safe, cfg, s.workers[w]);
    }
    if db.checkpoint.Some? {
      LaterKeepsCovered(s.db, db, cfg.logs, cfg.start, db.checkpoint.value);
    }
  }

  lemma LaterTransitive(a: TokenTables, b: TokenTables, c: TokenTables)
    requires Later(a, b) && Later(b, c)
    ensures Later(a, c)
  {
  }

  lemma {:induction false} RunKeepsInv(s: System, cfg: Setting, steps: seq<Step>)
    requires UniqueKeys(cfg.logs) && Inv(s, cfg)
    ensures Inv(PerformAll(s, cfg, steps), cfg) && Later(s.db, PerformAll(s, cfg, steps).db)
    decreases |steps|
  {
    hide Perform, Inv, Later, UniqueKeys;
    if steps == [] {
      LaterReflexive(s.db);
    } else {
      var next := Perform(s, cfg, steps[0]);
      PerformKeepsInv(s, cfg, steps[0]);
      RunKeepsInv(next, cfg, steps[1..]);
      LaterTransitive(s.db, next.db, PerformAll(next, cfg, steps[1..]).db);
    }
  }

  lemma ReachableInv(s: System, cfg: Setting)
    requires UniqueKeys(cfg.logs) && Reachable(s, cfg)
    ensures Inv(s, cfg)
  {
    var n: nat, steps: seq<Step> :| PerformAll(Fresh(n), cfg, steps) == s;
    RunKeepsInv(Fresh(n), cfg, steps);
  }

  // ---- Main results --------------------------------------------------------------------------------------------

  /** A stored row can only hold the values of the one log with its key. */
  lemma RowsAreExact(db: TokenTables, logs: seq<TokenLog>, log: TokenLog)
    requires UniqueKeys(logs) && log in logs && GenuineEvents(db.events, logs) && GenuineTransfers(db.transfers, logs)
    ensures log.key in db.events ==> log.event.Some? && db.events[log.key] == RawOf(log)
    ensures log.key in db.transfers ==> IsTransfer(log) && db.transfers[log.key] == TransferOf(log)
    ensures log.key in db.events ==>
              var row := db.events[log.key];
              Some(row.event) == log.event && row.block == log.block && row.time == log.time && row.removed == log.removed
    ensures log.key in db.transfers ==>
              var row := db.transfers[log.key];
              && log.event == Some(Transfer(row.src, row.dst, row.amount))
              && row.block == log.block && row.time == log.time && row.removed == log.removed
  {
    if log.key in db.events {
      var l :| l in logs && l.key == log.key && l.event.Some? && db.events[log.key] == RawOf(l);
      SameKeySameLog(logs, l, log);
    }
    if log.key in db.transfers {
      var l :| l in logs && l.key == log.key && IsTransfer(l) && db.transfers[log.key] == TransferOf(l);
      SameKeySameLog(logs, l, log);
    }
  }

  /** Coverage: in every reachable state, whatever failed and whoever ran in between, each log between the start block and
      the checkpoint is stored under its key with its on-chain values, next to its transaction. */
  lemma Coverage(s: System, cfg: Setting, log: TokenLog)
    requires UniqueKeys(cfg.logs) && Reachable(s, cfg)
    requires s.db.checkpoint.Some? && log in cfg.logs && cfg.start <= log.block <= s.db.checkpoint.value
    ensures log.event.Some? && log.key in s.db.events && s.db.events[log.key] == RawOf(log) && log.key.tx in s.db.transactions
    ensures IsTransfer(log) ==> log.key in s.db.transfers && s.db.transfers[log.key] == TransferOf(log)
    // field by field
    ensures log.event.value.Transfer? ==> log.key in s.db.transfers
    ensures log.key in s.db.events ==>
              var row := s.db.events[log.key];
              Some(row.event) == log.event && row.block == log.block && row.time == log.time && row.removed == log.removed
    ensures log.key in s.db.transfers ==>
              var row := s.db.transfers[log.key];
              && log.event == Some(Transfer(row.src, row.dst, row.amount))
              && row.block == log.block && row.time == log.time && row.removed == log.removed
  {
    ReachableInv(s, cfg);
    assert Stored(s.db, log);
    RowsAreExact(s.db, cfg.logs, log);
  }

  /** Referential integrity: every raw event has its transaction, the checkpoint is final, and no window of decodable logs
      is ever rolled back for a missing transaction, although the fetched ones were chosen from an older state. */
  lemma ReferentialIntegrity(s: System, cfg: Setting, w: nat)
    requires UniqueKeys(cfg.logs) && Reachable(s, cfg)
    ensures EventsHaveTransactions(s.db) && CheckpointOk(s.db, s.safe, cfg)
    ensures w < |s.workers| && s.workers[w].Fetching? && Decodable(Window(cfg.logs, s.workers[w].from, s.workers[w].to))
            ==> CommitStep(s, cfg, w).workers[w] == Between(s.workers[w].to + 1)
  {
    ReachableInv(s, cfg);
    if w < |s.workers| && s.workers[w].Fetching? && Decodable(Window(cfg.logs, s.workers[w].from, s.workers[w].to)) {
      CommitFacts(s, cfg, s.workers[w]);
    }
  }

  // ---- What a batch leaves behind ------------------------------------------------------------------------------

  predicate IsLastWith(logs: seq<TokenLog>, key: LogKey, i: nat) {
    i < |logs| && logs[i].key == key && forall j :: i < j < |logs| ==> logs[j].key != key
  }

  predicate IsFirstWith(logs: seq<TokenLog>, key: LogKey, i: nat) {
    i < |logs| && logs[i].key == key && forall j :: 0 <= j < i ==> logs[j].key != key
  }

  /** Some log has the key. */
  predicate HasLog(logs: seq<TokenLog>, key: LogKey) {
    exists i :: 0 <= i < |logs| && logs[i].key == key
  }

  lemma HasOneMore(logs: seq<TokenLog>, key: LogKey)
    requires logs != []
    ensures HasLog(logs, key) <==> HasLog(logs[..|logs| - 1], key) || logs[|logs| - 1].key == key
  {
    var init := logs[..|logs| - 1];
    if HasLog(init, key) {
      var i :| 0 <= i < |init| && init[i].key == key;
      assert logs[i].key == key;
    }
  }

  lemma LastOneMore(logs: seq<TokenLog>, key: LogKey, i: nat)
    requires logs != [] && IsLastWith(logs, key, i)
    ensures var init := logs[..|logs| - 1];
            if logs[|logs| - 1].key == key then i == |init| else i < |init| && init[i] == logs[i] && IsLastWith(init, key, i)
  {
  }

  lemma FirstOneMore(logs: seq<TokenLog>, key: LogKey, i: nat)
    requires logs != [] && IsFirstWith(logs, key, i)
    ensures var init := logs[..|logs| - 1];
            || (i == |init| && !HasLog(init, key) && logs[|logs| - 1].key == key)
            || (i < |init| && init[i] == logs[i] && IsFirstWith(init, key, i))
  {
  }

  /** A raw event keeps the event and the block with which it was first stored, and takes the timestamp and the flag of the last
      log that carries its key. */
  ghost predicate EventReads(before: map<LogKey, RawRow>, after: map<LogKey, RawRow>, logs: seq<TokenLog>, key: LogKey) {
    && (key in after <==> key in before || HasLog(logs, key))
    && (key in before && !HasLog(logs, key) ==> after[key] == before[key])
    && (forall i: nat :: IsLastWith(logs, key, i) ==>
          key in after && after[key].time == logs[i].time && after[key].removed == logs[i].removed)
    && (key in before ==> after[key].event == before[key].event && after[key].block == before[key].block)
    && (key !in before ==> forall i: nat :: IsFirstWith(logs, key, i) ==>
          key in after && Some(after[key].event) == logs[i].event && after[key].block == logs[i].block)
  }

  lemma {:induction false} SavedEventReads(events: map<LogKey, RawRow>, logs: seq<TokenLog>, key: LogKey)
    requires Decodable(logs)
    ensures EventReads(events, SaveEvents(events, logs), logs, key)
  {
    if logs != [] {
      var init := logs[..|logs| - 1];
      SavedEventReads(events, init, key);
      SavedEventStep(events, SaveEvents(events, init), SaveEvents(events, logs), logs, key);
    }
  }

  lemma SavedEventStep(events: map<LogKey, RawRow>, before: map<LogKey, RawRow>, after: map<LogKey, RawRow>, logs: seq<TokenLog>,
                       key: LogKey)
    requires logs != [] && logs[|logs| - 1].event.Some? && EventReads(events, before, logs[..|logs| - 1], key)
    requires var last := logs[|logs| - 1]; after == before[last.key := RawAfterSave(before, last.key, RawOf(last))]
    ensures EventReads(events, after, logs, key)
  {
    HasOneMore(logs, key);
    hide HasLog, IsLastWith, IsFirstWith;
    forall i: nat | IsLastWith(logs, key, i)
      ensures key in after && after[key].time == logs[i].time && after[key].removed == logs[i].removed
    {
      LastOneMore(logs, key, i);
    }
    if key !in events {
      forall i: nat | IsFirstWith(logs, key, i)
        ensures key in after && Some(after[key].event) == logs[i].event && after[key].block == logs[i].block
      {
        FirstOneMore(logs, key, i);
      }
    }
  }

  predicate TransferLog(log: TokenLog, key: LogKey) {
    log.key == key && log.event.Some? && log.event.value.Transfer?
  }

  predicate HasTransfer(logs: seq<TokenLog>, key: LogKey) {
    exists i :: 0 <= i < |logs| && TransferLog(logs[i], key)
  }

  predicate IsLastTransfer(logs: seq<TokenLog>, key: LogKey, i: nat) {
    i < |logs| && TransferLog(logs[i], key) && forall j :: i < j < |logs| ==> !TransferLog(logs[j], key)
  }

  predicate IsFirstTransfer(logs: seq<TokenLog>, key: LogKey, i: nat) {
    i < |logs| && TransferLog(logs[i], key) && forall j :: 0 <= j < i ==> !TransferLog(logs[j], key)
  }

  lemma HasOneTransferMore(logs: seq<TokenLog>, key: LogKey)
    requires logs != []
    ensures HasTransfer(logs, key) <==> HasTransfer(logs[..|logs| - 1], key) || TransferLog(logs[|logs| - 1], key)
  {
    hide TransferLog;
    var init := logs[..|logs| - 1];
    if HasTransfer(init, key) {
      var i :| 0 <= i < |init| && TransferLog(init[i], key);
      assert TransferLog(logs[i], key);
    }
  }

  lemma LastTransferOneMore(logs: seq<TokenLog>, key: LogKey, i: nat)
    requires logs != [] && IsLastTransfer(logs, key, i)
    ensures var init := logs[..|logs| - 1];
            if TransferLog(logs[|logs| - 1], key) then i == |init| else i < |init| && init[i] == logs[i] && IsLastTransfer(init, key, i)
  {
    hide TransferLog;
  }

  lemma FirstTransferOneMore(logs: seq<TokenLog>, key: LogKey, i: nat)
    requires logs != [] && IsFirstTransfer(logs, key, i)
    ensures var init := logs[..|logs| - 1];
            || (i == |init| && !HasTransfer(init, key) && TransferLog(logs[|logs| - 1], key))
            || (i < |init| && init[i] == logs[i] && IsFirstTransfer(init, key, i))
  {
    hide TransferLog;
  }

  /** The same for transfers; approvals leave none. */
  ghost predicate TransferReads(before: map<LogKey, StoredTransfer>, after: map<LogKey, StoredTransfer>, logs: seq<TokenLog>, key: LogKey) {
    && (key in after <==> key in before || HasTransfer(logs, key))
    && (key in before && !HasTransfer(logs, key) ==> after[key] == before[key])
    && (forall i: nat :: IsLastTransfer(logs, key, i) ==>
          key in after && after[key].time == logs[i].time && after[key].removed == logs[i].removed)
    && (key in before ==>
          && after[key].src == before[key].src && after[key].dst == before[key].dst
          && after[key].amount == before[key].amount && after[key].block == before[key].block)
    && (key !in before ==> forall i: nat :: IsFirstTransfer(logs, key, i) ==>
          && key in after && logs[i].event == Some(Transfer(after[key].src, after[key].dst, after[key].amount))
          && after[key].block == logs[i].block)
  }

  lemma {:induction false} SavedTransferReads(transfers: map<LogKey, StoredTransfer>, logs: seq<TokenLog>, key: LogKey)
    ensures TransferReads(transfers, SaveTransfers(transfers, logs), logs, key)
  {
    if logs != [] {
      var init := logs[..|logs| - 1];
      SavedTransferReads(transfers, init, key);
      SavedTransferStep(transfers, SaveTransfers(transfers, init), SaveTransfers(transfers, logs), logs, key);
    }
  }

  lemma SavedTransferStep(transfers: map<LogKey, StoredTransfer>, before: map<LogKey, StoredTransfer>, after: map<LogKey, StoredTransfer>,
                          logs: seq<TokenLog>, key: LogKey)
    requires logs != [] && TransferReads(transfers, before, logs[..|logs| - 1], key)
    requires var last := logs[|logs| - 1];
             after == if IsTransfer(last) then before[last.key := TransferAfterSave(before, last.key, TransferOf(last))] else before
    ensures TransferReads(transfers, after, logs, key)
  {
    HasOneTransferMore(logs, key);
    hide HasTransfer, IsLastTransfer, IsFirstTransfer;
    forall i: nat | IsLastTransfer(logs, key, i)
      ensures key in after && after[key].time == logs[i].time && after[key].removed == logs[i].removed
    {
      LastTransferOneMore(logs, key, i);
    }
    if key !in transfers {
      forall i: nat | IsFirstTransfer(logs, key, i)
        ensures && key in after && logs[i].event == Some(Transfer(after[key].src, after[key].dst, after[key].amount))
                && after[key].block == logs[i].block
      {
        FirstTransferOneMore(logs, key, i);
      }
    }
  }

  /** A commit of a decodable window takes effect: the checkpoint is the end of the window, except block 0, every log of the
      window is stored with its values, and every transaction that was missing has the receipt the node answers. */
  lemma CommitReads(s: System, cfg: Setting, w: nat, log: TokenLog)
    requires UniqueKeys(cfg.logs) && Reachable(s, cfg) && w < |s.workers| && s.workers[w].Fetching?
    requires Decodable(Window(cfg.logs, s.workers[w].from, s.workers[w].to))
    ensures var after := Perform(s, cfg, Commit(w));
            && after.db.checkpoint == (if s.workers[w].to > 0 then Some(s.workers[w].to) else s.db.checkpoint)
            && after.workers == s.workers[w := Between(s.workers[w].to + 1)] && after.safe == s.safe
            && (log in cfg.logs && s.workers[w].from <= log.block <= s.workers[w].to ==>
                  && log.key in after.db.events && Some(after.db.events[log.key].event) == log.event
                  && (log.event.value.Transfer? ==> log.key in after.db.transfers)
                  && (log.key.tx !in s.db.transactions ==>
                        log.key.tx in after.db.transactions && after.db.transactions[log.key.tx] == cfg.receipts(log.key.tx)))
  {
    hide GenuineEvents, GenuineTransfers, SaveEvents, SaveTransfers, UniqueKeys, Reachable;
    ReachableInv(s, cfg);
    var wk := s.workers[w];
    CommitFacts(s, cfg, wk);
    var logs := Window(cfg.logs, wk.from, wk.to);
    WindowMembers(cfg.logs, wk.from, wk.to);
    var after := Committed(s.db, logs, Fetched(cfg, logs, wk.existing), wk.to);
    if log in cfg.logs && wk.from <= log.block <= wk.to {
      assert log in logs && Stored(after, log);
      RowsAreExact(after, cfg.logs, log);
      assert log.key.tx in HashesOf(logs);
    }
  }
}
