/** The escrow stream: a poller that skips the logs it cannot decode or date, and a webhook that delivers single logs, both
    writing to one table (indexer/escrow_indexer.go, api/handlers/webhook.go, persistence/escrow_events.go,
    repository/escrow_events_repo.go). */
module EscrowStream {
  import opened Evm
  import opened Words
  import opened EscrowDecoders

  datatype EscrowLog = EscrowLog(key: LogKey, block: nat, removed: bool, log: RawLog)

  /** A stored event; its timestamp is left out, because the webhook takes it from the payload. */
  datatype Row = Row(decoded: Decoded, block: nat, removed: bool)

  datatype EscrowTables = EscrowTables(events: map<LogKey, Row>, checkpoint: Option<nat>)

  predicate Known(log: EscrowLog) {
    EventOf(log.log).Some?
  }

  function RowOf(log: EscrowLog): Row {
    Row(MeaningOfAny(log.log), log.block, log.removed)
  }

  // ---- The upsert ----------------------------------------------------------------------------------------------

  /** The poller's batch and the webhook's single save overwrite everything but the block. */
  function Save(events: map<LogKey, Row>, key: LogKey, row: Row): map<LogKey, Row> {
    events[key := if key in events then row.(block := events[key].block) else row]
  }

  /** A repeated save keeps the block of the stored row and takes everything else from the new one; other rows stay. */
  lemma SaveReads(events: map<LogKey, Row>, key: LogKey, row: Row, other: LogKey)
    ensures var after := Save(events, key, row);
            && key in after && after[key].decoded == row.decoded && after[key].removed == row.removed
            && after[key].block == (if key in events then events[key].block else row.block)
            && (other != key ==> (other in after <==> other in events) && (other in after ==> after[other] == events[other]))
  {
  }

  /** The poller stores exactly the logs with one of the six topics. */
  lemma KnownReads(log: EscrowLog)
    ensures Known(log) <==> exists e :: HasTopic(log.log, e)
  {
    hide HasTopic;
    MeaningReads(log.log);
  }

  /** A window of the poller; failed holds the logs whose timestamp could not be fetched. */
  function SaveWindow(events: map<LogKey, Row>, logs: seq<EscrowLog>, failed: set<LogKey>): map<LogKey, Row> {
    if logs == [] then events
    else
      var (before, last) := (SaveWindow(events, logs[..|logs| - 1], failed), logs[|logs| - 1]);
      if Known(last) && last.key !in failed then Save(before, last.key, RowOf(last)) else before
  }

  function Window(logs: seq<EscrowLog>, lo: int, hi: int): seq<EscrowLog> {
    if logs == [] then []
    else
      var last := logs[|logs| - 1];
      Window(logs[..|logs| - 1], lo, hi) + if lo <= last.block <= hi then [last] else []
  }

  lemma {:induction false} WindowMembers(logs: seq<EscrowLog>, lo: int, hi: int)
    ensures forall l :: l in Window(logs, lo, hi) <==> l in logs && lo <= l.block <= hi
  {
    if logs != [] {
      WindowMembers(logs[..|logs| - 1], lo, hi);
      assert logs == logs[..|logs| - 1] + [logs[|logs| - 1]];
    }
  }

  // ---- The state machine -------------------------------------------------------------------------------------

  datatype Worker = Idle | Reading(from: nat, to: nat) | Between(next: nat)

  /** lost remembers every log that some committed window passed over because of its timestamp. */
  datatype System = System(db: EscrowTables, safe: nat, workers: seq<Worker>, lost: set<LogKey>)

  datatype Setting = Setting(logs: seq<EscrowLog>, start: nat)

  datatype Step =
    | Advance(safe: nat)
    | Begin(w: nat, to: nat)
    | Next(w: nat, to: nat)
    | Commit(w: nat, failed: set<LogKey>)        // the batch and its checkpoint, in one transaction
    | Stop(w: nat)                               // the attempt fails, or the process dies
    | Deliver(log: EscrowLog, text: TextLog)     // the webhook stores one log

  function EffectiveStart(checkpoint: Option<nat>, start: nat): nat {
    if checkpoint.Some? && checkpoint.value + 1 >= start then checkpoint.value + 1 else start
  }

  function WithWorker(s: System, w: nat, wk: Worker): System
    requires w < |s.workers|
  {
    s.(workers := s.workers[w := wk])
  }

  /** The known logs of a window that are skipped because their timestamp could not be fetched. */
  function PassedOver(window: seq<EscrowLog>, failed: set<LogKey>): set<LogKey> {
    set l | l in window && Known(l) && l.key in failed :: l.key
  }

  function CommitStep(s: System, cfg: Setting, w: nat, failed: set<LogKey>): System
    requires w < |s.workers| && s.workers[w].Reading?
  {
    var wk := s.workers[w];
    var window := Window(cfg.logs, wk.from, wk.to);
    var checkpoint := if wk.to > 0 then Some(wk.to) else s.db.checkpoint;
    System(EscrowTables(SaveWindow(s.db.events, window, failed), checkpoint), s.safe, s.workers[w := Between(wk.to + 1)],
           s.lost + PassedOver(window, failed))
  }

  function Perform(s: System, cfg: Setting, step: Step): System {
    match step
    case Advance(safe) => if safe >= s.safe then s.(safe := safe) else s
    case Begin(w, to) =>
      var from := EffectiveStart(s.db.checkpoint, cfg.start);
      if w < |s.workers| && s.workers[w].Idle? && from <= to <= s.safe then WithWorker(s, w, Reading(from, to)) else s
    case Next(w, to) =>
      if w < |s.workers| && s.workers[w].Between? && s.workers[w].next <= to <= s.safe
      then WithWorker(s, w, Reading(s.workers[w].next, to)) else s
    case Commit(w, failed) =>
      if w < |s.workers| && s.workers[w].Reading? then CommitStep(s, cfg, w, failed) else s
    case Stop(w) => if w < |s.workers| then WithWorker(s, w, Idle) else s
    case Deliver(l, text) =>
      if l in cfg.logs && RendersLog(text, l.log)
      then s.(db := s.db.(events := Save(s.db.events, l.key, Row(TextMeaning(text), l.block, l.removed)))) else s
  }

  function PerformAll(s: System, cfg: Setting, steps: seq<Step>): System
    decreases |steps|
  {
    if steps == [] then s else PerformAll(Perform(s, cfg, steps[0]), cfg, steps[1..])
  }

  /** A worker begins after the checkpoint, but never below the configured start, and never reads past the safe head. */
  lemma BeginReads(s: System, cfg: Setting, w: nat, to: nat)
    requires w < |s.workers|
    ensures var after := Perform(s, cfg, Begin(w, to));
            var from := if s.db.checkpoint.None? || s.db.checkpoint.value < cfg.start then cfg.start else s.db.checkpoint.value + 1;
            && after.db == s.db && after.safe == s.safe && after.lost == s.lost
            && after.workers == if s.workers[w].Idle? && from <= to <= s.safe then s.workers[w := Reading(from, to)] else s.workers
  {
  }

  function Fresh(n: nat): System {
    System(EscrowTables(map[], None), 0, seq(n, i => Idle), {})
  }

  ghost predicate Reachable(s: System, cfg: Setting) {
    exists n: nat, steps: seq<Step> :: PerformAll(Fresh(n), cfg, steps) == s
  }

  // ---- The invariant -------------------------------------------------------------------------------------------

  predicate UniqueKeys(logs: seq<EscrowLog>) {
    forall i, j :: 0 <= i < j < |logs| ==> logs[i].key != logs[j].key
  }

  ghost predicate RowFrom(logs: seq<EscrowLog>, k: LogKey, row: Row) {
    exists l :: l in logs && l.key == k && row == RowOf(l)
  }

  ghost predicate Genuine(events: map<LogKey, Row>, logs: seq<EscrowLog>) {
    forall k :: k in events ==> RowFrom(logs, k, events[k])
  }

  ghost predicate StoredOrLost(s: System, cfg: Setting, lo: int, hi: int) {
    forall l :: l in cfg.logs && Known(l) && lo <= l.block <= hi ==> l.key in s.db.events || l.key in s.lost
  }

  ghost predicate WorkerOk(s: System, cfg: Setting, wk: Worker) {
    match wk
    case Idle => true
    case Between(next) => cfg.start <= next <= s.safe + 1 && StoredOrLost(s, cfg, cfg.start, next - 1)
    case Reading(from, to) => cfg.start <= from <= to <= s.safe && StoredOrLost(s, cfg, cfg.start, from - 1)
  }

  ghost predicate CheckpointOk(s: System, cfg: Setting) {
    s.db.checkpoint.Some? ==>
      cfg.start <= s.db.checkpoint.value <= s.safe && StoredOrLost(s, cfg, cfg.start, s.db.checkpoint.value)
  }

  ghost predicate Inv(s: System, cfg: Setting) {
    && Genuine(s.db.events, cfg.logs)
    && CheckpointOk(s, cfg)
    && forall w :: 0 <= w < |s.workers| ==> WorkerOk(s, cfg, s.workers[w])
  }

  ghost predicate Later(a: System, b: System) {
    a.db.events.Keys <= b.db.events.Keys && a.lost <= b.lost && a.safe <= b.safe
  }

  lemma SameKeySameLog(logs: seq<EscrowLog>, a: EscrowLog, b: EscrowLog)
    requires UniqueKeys(logs) && a in logs && b in logs && a.key == b.key
    ensures a == b
  {
  }

  lemma GenuineRow(events: map<LogKey, Row>, logs: seq<EscrowLog>, l: EscrowLog)
    requires UniqueKeys(logs) && Genuine(events, logs) && l in logs && l.key in events
    ensures events[l.key] == RowOf(l)
  {
    hide RowOf;
    var l' :| l' in logs && l'.key == l.key && events[l.key] == RowOf(l');
    SameKeySameLog(logs, l, l');
  }

  lemma {:induction false} SaveWindowFacts(events: map<LogKey, Row>, chain: seq<EscrowLog>, logs: seq<EscrowLog>, failed: set<LogKey>)
    requires UniqueKeys(chain) && Genuine(events, chain) && forall l :: l in logs ==> l in chain
    ensures var after := SaveWindow(events, logs, failed);
            && Genuine(after, chain)
            && forall k :: k in after <==> k in events || exists l :: l in logs && Known(l) && l.key !in failed && l.key == k
  {
    hide MeaningOfAny, Known;
    if logs != [] {
      var (init, last) := (logs[..|logs| - 1], logs[|logs| - 1]);
      assert logs == init + [last];
      SaveWindowFacts(events, chain, init, failed);
      var before := SaveWindow(events, init, failed);
      if last.key in before {
        GenuineRow(before, chain, last);
      }
      assert RowFrom(chain, last.key, RowOf(last));
    }
  }

  /** A delivery by webhook leaves what the poller would have stored, whichever of them came first. */
  lemma DeliveryKeepsGenuine(events: map<LogKey, Row>, logs: seq<EscrowLog>, l: EscrowLog, text: TextLog)
    requires UniqueKeys(logs) && Genuine(events, logs) && l in logs && RendersLog(text, l.log)
    ensures var after := Save(events, l.key, Row(TextMeaning(text), l.block, l.removed));
            Genuine(after, logs) && after[l.key] == RowOf(l) && (l.key in events ==> after == events)
  {
    hide MeaningOfAny, TextMeaning, RendersLog;
    DecodersAgree(text, l.log);
    if l.key in events {
      GenuineRow(events, logs, l);
    }
    assert RowFrom(logs, l.key, RowOf(l));
  }

  // ---- One step --------------------------------------------------------------------------------------------------

  lemma LaterKeepsCovered(a: System, b: System, cfg: Setting, lo: int, hi: int)
    requires Later(a, b) && StoredOrLost(a, cfg, lo, hi)
    ensures StoredOrLost(b, cfg, lo, hi)
  {
    hide Known;
  }

  lemma LaterKeepsWorker(a: System, b: System, cfg: Setting, wk: Worker)
    requires Later(a, b) && WorkerOk(a, cfg, wk)
    ensures WorkerOk(b, cfg, wk)
  {
    hide StoredOrLost;
    match wk
    case Idle =>
    case Between(next) => LaterKeepsCovered(a, b, cfg, cfg.start, next - 1);
    case Reading(from, to) => LaterKeepsCovered(a, b, cfg, cfg.start, from - 1);
  }

  /** A later system in which only worker w changed. */
  lemma UpdateKeepsInv(s: System, cfg: Setting, t: System, w: nat)
    requires Inv(s, cfg) && Later(s, t) && Genuine(t.db.events, cfg.logs) && CheckpointOk(t, cfg)
    requires w < |s.workers| && |t.workers| == |s.workers| && t.workers == s.workers[w := t.workers[w]] && WorkerOk(t, cfg, t.workers[w])
    ensures Inv(t, cfg)
  {
    hide WorkerOk, Later, Genuine, CheckpointOk;
    forall v | 0 <= v < |t.workers|
      ensures WorkerOk(t, cfg, t.workers[v])
    {
      if v != w {
        LaterKeepsWorker(s, t, cfg, s.workers[v]);
      }
    }
  }

  lemma CommitKeepsInv(s: System, cfg: Setting, w: nat, failed: set<LogKey>)
    requires UniqueKeys(cfg.logs) && Inv(s, cfg) && w < |s.workers| && s.workers[w].Reading?
    ensures Inv(CommitStep(s, cfg, w, failed), cfg)
  {
    hide Genuine, Known, SaveWindow, Window;
    var wk, t := s.workers[w], CommitStep(s, cfg, w, failed);
    var logs := Window(cfg.logs, wk.from, wk.to);
    WindowMembers(cfg.logs, wk.from, wk.to);
    SaveWindowFacts(s.db.events, cfg.logs, logs, failed);
    forall l | l in cfg.logs && Known(l) && cfg.start <= l.block <= wk.to
      ensures l.key in t.db.events || l.key in t.lost
    {
      if l.block >= wk.from {
        assert l in logs;
      }
    }
    if s.db.checkpoint.Some? {
      LaterKeepsCovered(s, t, cfg, cfg.start, s.db.checkpoint.value);
    }
    UpdateKeepsInv(s, cfg, t, w);
  }

  lemma AdvanceKeepsInv(s: System, cfg: Setting, safe: nat)
    requires Inv(s, cfg) && s.safe <= safe
    ensures Inv(s.(safe := safe), cfg)
  {
    hide Genuine, StoredOrLost;
    var t := s.(safe := safe);
    forall w | 0 <= w < |s.workers|
      ensures WorkerOk(t, cfg, s.workers[w])
    {
      LaterKeepsWorker(s, t, cfg, s.workers[w]);
    }
    if s.db.checkpoint.Some? {
      LaterKeepsCovered(s, t, cfg, cfg.start, s.db.checkpoint.value);
    }
  }

  lemma DeliveryKeepsInv(s: System, cfg: Setting, l: EscrowLog, text: TextLog)
    requires UniqueKeys(cfg.logs) && Inv(s, cfg) && l in cfg.logs && RendersLog(text, l.log)
    ensures Inv(s.(db := s.db.(events := Save(s.db.events, l.key, Row(TextMeaning(text), l.block, l.removed)))), cfg)
  {
    hide Genuine, StoredOrLost, TextMeaning, RendersLog;
    DeliveryKeepsGenuine(s.db.events, cfg.logs, l, text);
    var t := s.(db := s.db.(events := Save(s.db.events, l.key, Row(TextMeaning(text), l.block, l.removed))));
    forall w | 0 <= w < |s.workers|
      ensures WorkerOk(t, cfg, s.workers[w])
    {
      LaterKeepsWorker(s, t, cfg, s.workers[w]);
    }
    if s.db.checkpoint.Some? {
      LaterKeepsCovered(s, t, cfg, cfg.start, s.db.checkpoint.value);
    }
  }

  lemma StartIsCovered(s: System, cfg: Setting)
    requires Inv(s, cfg)
    ensures StoredOrLost(s, cfg, cfg.start, EffectiveStart(s.db.checkpoint, cfg.start) - 1)
  {
  }

  lemma PerformKeepsInv(s: System, cfg: Setting, step: Step)
    requires UniqueKeys(cfg.logs) && Inv(s, cfg)
    ensures Inv(Perform(s, cfg, step), cfg)
  {
    hide Genuine, StoredOrLost, CommitStep, Save, RendersLog, TextMeaning, UniqueKeys;
    match step
    case Advance(safe) =>
      if safe >= s.safe {
        AdvanceKeepsInv(s, cfg, safe);
      }
    case Begin(w, to) =>
      StartIsCovered(s, cfg);
      var from := EffectiveStart(s.db.checkpoint, cfg.start);
      if w < |s.workers| && s.workers[w].Idle? && from <= to <= s.safe {
        MoveKeepsInv(s, cfg, w, Reading(from, to));
      }
    case Next(w, to) =>
      if w < |s.workers| && s.workers[w].Between? && s.workers[w].next <= to <= s.safe {
        MoveKeepsInv(s, cfg, w, Reading(s.workers[w].next, to));
      }
    case Commit(w, failed) =>
      if w < |s.workers| && s.workers[w].Reading? {
        CommitKeepsInv(s, cfg, w, failed);
      }
    case Stop(w) =>
      if w < |s.workers| {
        MoveKeepsInv(s, cfg, w, Idle);
      }
    case Deliver(l, text) =>
      if l in cfg.logs && RendersLog(text, l.log) {
        DeliveryKeepsInv(s, cfg, l, text);
      }
  }

  lemma MoveKeepsInv(s: System, cfg: Setting, w: nat, wk: Worker)
    requires Inv(s, cfg) && w < |s.workers| && WorkerOk(s, cfg, wk)
    ensures Inv(WithWorker(s, w, wk), cfg)
  {
    hide Genuine, StoredOrLost;
    var t := WithWorker(s, w, wk);
    forall v | 0 <= v < |t.workers|
      ensures WorkerOk(t, cfg, t.workers[v])
    {
      LaterKeepsWorker(s, t, cfg, if v == w then wk else s.workers[v]);
    }
    if s.db.checkpoint.Some? {
      LaterKeepsCovered(s, t, cfg, cfg.start, s.db.checkpoint.value);
    }
  }

  lemma {:induction false} RunKeepsInv(s: System, cfg: Setting, steps: seq<Step>)
    requires UniqueKeys(cfg.logs) && Inv(s, cfg)
    ensures Inv(PerformAll(s, cfg, steps), cfg)
    decreases |steps|
  {
    hide Perform, Inv, UniqueKeys;
    if steps != [] {
      PerformKeepsInv(s, cfg, steps[0]);
      RunKeepsInv(Perform(s, cfg, steps[0]), cfg, steps[1..]);
    }
  }

  lemma ReachableInv(s: System, cfg: Setting)
    requires UniqueKeys(cfg.logs) && Reachable(s, cfg)
    ensures Inv(s, cfg)
  {
    hide Perform;
    var n: nat, steps: seq<Step> :| PerformAll(Fresh(n), cfg, steps) == s;
    FreshIsFine(n, cfg);
    RunKeepsInv(Fresh(n), cfg, steps);
  }

  lemma FreshIsFine(n: nat, cfg: Setting)
    ensures Inv(Fresh(n), cfg)
  {
  }

  // ---- What happened to a log in a run ---------------------------------------------------------------------------

  /** The step commits a window that contains the log. */
  predicate CommitsWindowOf(s: System, step: Step, log: EscrowLog) {
    step.Commit? && step.w < |s.workers| && s.workers[step.w].Reading?
    && s.workers[step.w].from <= log.block <= s.workers[step.w].to
  }

  /** The step stores the log: its window is committed with its timestamp, or the webhook delivers it. */
  predicate Stores(s: System, step: Step, log: EscrowLog) {
    || (Known(log) && CommitsWindowOf(s, step, log) && log.key !in step.failed)
    || (step.Deliver? && step.log == log && RendersLog(step.text, log.log))
  }

  predicate PassesOver(s: System, step: Step, log: EscrowLog) {
    Known(log) && CommitsWindowOf(s, step, log) && log.key in step.failed
  }

  predicate StoredBy(s: System, cfg: Setting, steps: seq<Step>, log: EscrowLog)
    decreases |steps|
  {
    steps != [] && (Stores(s, steps[0], log) || StoredBy(Perform(s, cfg, steps[0]), cfg, steps[1..], log))
  }

  predicate PassedOverBy(s: System, cfg: Setting, steps: seq<Step>, log: EscrowLog)
    decreases |steps|
  {
    steps != [] && (PassesOver(s, steps[0], log) || PassedOverBy(Perform(s, cfg, steps[0]), cfg, steps[1..], log))
  }

  lemma CommitTouches(s: System, cfg: Setting, w: nat, failed: set<LogKey>, log: EscrowLog)
    requires UniqueKeys(cfg.logs) && Inv(s, cfg) && log in cfg.logs && w < |s.workers| && s.workers[w].Reading?
    ensures var t := CommitStep(s, cfg, w, failed);
            && (log.key in t.db.events <==> log.key in s.db.events || Stores(s, Commit(w, failed), log))
            && (log.key in t.lost <==> log.key in s.lost || PassesOver(s, Commit(w, failed), log))
  {
    hide Genuine, Known, SaveWindow, Window;
    var wk := s.workers[w];
    var window := Window(cfg.logs, wk.from, wk.to);
    WindowMembers(cfg.logs, wk.from, wk.to);
    SaveWindowFacts(s.db.events, cfg.logs, window, failed);
    forall l | l in window && l.key == log.key
      ensures l == log
    {
      SameKeySameLog(cfg.logs, l, log);
    }
  }

  lemma StepTouches(s: System, cfg: Setting, step: Step, log: EscrowLog)
    requires UniqueKeys(cfg.logs) && Inv(s, cfg) && log in cfg.logs
    ensures var t := Perform(s, cfg, step);
            && (log.key in t.db.events <==> log.key in s.db.events || Stores(s, step, log))
            && (log.key in t.lost <==> log.key in s.lost || PassesOver(s, step, log))
  {
    hide Inv, CommitStep, RendersLog, TextMeaning, Known;
    match step
    case Commit(w, failed) =>
      if w < |s.workers| && s.workers[w].Reading? {
        CommitTouches(s, cfg, w, failed, log);
      }
    case Deliver(l, text) =>
      if l in cfg.logs && l.key == log.key {
        SameKeySameLog(cfg.logs, l, log);
      }
    case _ =>
  }

  /** A log is in the table exactly when some step of the run stored it, and remembered as lost exactly when some committed
      window passed over it. */
  lemma {:induction false} RunTouches(s: System, cfg: Setting, steps: seq<Step>, log: EscrowLog)
    requires UniqueKeys(cfg.logs) && Inv(s, cfg) && log in cfg.logs
    ensures var t := PerformAll(s, cfg, steps);
            && (log.key in t.db.events <==> log.key in s.db.events || StoredBy(s, cfg, steps, log))
            && (log.key in t.lost <==> log.key in s.lost || PassedOverBy(s, cfg, steps, log))
    decreases |steps|
  {
    hide Perform, Inv, UniqueKeys, Stores, PassesOver;
    if steps != [] {
      StepTouches(s, cfg, steps[0], log);
      PerformKeepsInv(s, cfg, steps[0]);
      RunTouches(Perform(s, cfg, steps[0]), cfg, steps[1..], log);
    }
  }

  // ---- Main results ----------------------------------------------------------------------------------------------

  /** Every stored row holds exactly what its log means, whether the poller or the webhook wrote it, in any order. */
  lemma StoredRowsAreExact(s: System, cfg: Setting, log: EscrowLog)
    requires UniqueKeys(cfg.logs) && Reachable(s, cfg) && log in cfg.logs && log.key in s.db.events
    ensures s.db.events[log.key] == RowOf(log)
    ensures var row := s.db.events[log.key];
            && row.block == log.block && row.removed == log.removed
            && forall e :: HasTopic(log.log, e) ==>
                 Reads(row.decoded, e, TopicWord(log.log, 1), TopicAddress(log.log, 2), TopicAddress(log.log, 3), DataWord(log.log.data))
  {
    hide Known, HasTopic, Reads, TopicWord, TopicAddress, DataWord, MeaningOfAny;
    MeaningReads(log.log);
    ReachableInv(s, cfg);
    GenuineRow(s.db.events, cfg.logs, log);
  }

  /** Over every run: a log is stored exactly when a committed window kept it or the webhook delivered it; and a known log
      between the start block and the checkpoint that is not stored was in a committed window that passed over it. */
  lemma StoredExactlyWhen(n: nat, cfg: Setting, steps: seq<Step>, log: EscrowLog)
    requires UniqueKeys(cfg.logs) && log in cfg.logs
    ensures var s := PerformAll(Fresh(n), cfg, steps);
            && (log.key in s.db.events <==> StoredBy(Fresh(n), cfg, steps, log))
            && (s.db.checkpoint.Some? && Known(log) && cfg.start <= log.block <= s.db.checkpoint.value ==>
                  StoredBy(Fresh(n), cfg, steps, log) || PassedOverBy(Fresh(n), cfg, steps, log))
  {
    hide Known, RowOf, Perform, StoredBy, PassedOverBy;
    FreshIsFine(n, cfg);
    RunKeepsInv(Fresh(n), cfg, steps);
    RunTouches(Fresh(n), cfg, steps, log);
  }

  /** Full coverage of every run in which no committed window passed over a known log. */
  lemma CoverageWithoutFailedTimestamps(n: nat, cfg: Setting, steps: seq<Step>, log: EscrowLog)
    requires UniqueKeys(cfg.logs) && forall l :: l in cfg.logs ==> !PassedOverBy(Fresh(n), cfg, steps, l)
    requires var s := PerformAll(Fresh(n), cfg, steps);
             s.db.checkpoint.Some? && log in cfg.logs && Known(log) && cfg.start <= log.block <= s.db.checkpoint.value
    ensures var s := PerformAll(Fresh(n), cfg, steps);
            log.key in s.db.events && s.db.events[log.key] == RowOf(log)
  {
    hide Known, RowOf, Perform, StoredBy, PassedOverBy;
    StoredExactlyWhen(n, cfg, steps, log);
    StoredRowsAreExact(PerformAll(Fresh(n), cfg, steps), cfg, log);
  }

  /** The loss is real for every known log from the start block on: one failed timestamp in one window, and the checkpoint has passed
      the log for good. */
  lemma EveryKnownLogCanBeLost(cfg: Setting, log: EscrowLog) returns (steps: seq<Step>)
    requires UniqueKeys(cfg.logs) && log in cfg.logs && Known(log) && cfg.start <= log.block
    ensures var s := PerformAll(Fresh(1), cfg, steps);
            && s.db.checkpoint == Some(if log.block == 0 then 1 else log.block) && log.key !in s.db.events
            && EffectiveStart(s.db.checkpoint, cfg.start) > log.block
  {
    hide Known, SaveWindow, Window, PassedOver, Inv;
    var b := if log.block == 0 then 1 else log.block;
    steps := [Advance(b), Begin(0, b), Commit(0, {log.key})];
    var s0 := Fresh(1);
    var s1 := Perform(s0, cfg, steps[0]);
    var s2 := Perform(s1, cfg, steps[1]);
    var s3 := Perform(s2, cfg, steps[2]);
    assert s2 == System(EscrowTables(map[], None), b, [Reading(cfg.start, b)], {});
    assert steps[1..] == [steps[1], steps[2]] && steps[1..][1..] == [steps[2]] && [steps[2]][1..] == [];
    assert PerformAll(s2, cfg, [steps[2]]) == s3;
    assert PerformAll(s1, cfg, steps[1..]) == s3;
    assert PerformAll(s0, cfg, steps) == s3;
    FreshIsFine(1, cfg);
    PerformKeepsInv(s0, cfg, steps[0]);
    PerformKeepsInv(s1, cfg, steps[1]);
    CommitTouches(s2, cfg, 0, {log.key}, log);
  }
}
