/** The reconcilers of fundings, claims and token transfers: one algorithm that compares the logs of a block range with
    the stored rows (reconciliation/payroll_worker.go, salary_claim_worker.go, token_transfer_worker.go). */
module LogReconciler {
  import opened Evm
  import opened Words
  import opened Ranges
  import opened Text
  import opened EntityRefs
  import opened ExceptionStore
  import opened ExceptionLifecycle

  // ---- The two sides of the comparison ---------------------------------------------------------------

  /** A decoded log: the addresses and the amounts that its row must repeat. */
  datatype ChainRecord = ChainRecord(key: LogKey, block: nat, parties: seq<Address>, amounts: seq<nat>)

  /** A stored row; an amount that cannot be parsed is None. */
  datatype DbRecord = DbRecord(key: LogKey, block: nat, parties: seq<Address>, amounts: seq<Option<nat>>, removed: bool)

  /** A log as the node returns it; record is None for logs of another event, contract or token. */
  datatype RawLog = RawLog(removed: bool, record: Option<ChainRecord>)

  function OnChain(logs: seq<RawLog>): seq<ChainRecord> {
    if logs == [] then []
    else
      var last := logs[|logs| - 1];
      OnChain(logs[..|logs| - 1]) + if last.removed || last.record.None? then [] else [last.record.value]
  }

  /** The rows with a key, except removed ones, in query order. */
  function RowsOf(rows: seq<DbRecord>, key: LogKey): seq<DbRecord> {
    if rows == [] then []
    else
      var last := rows[|rows| - 1];
      RowsOf(rows[..|rows| - 1], key) + if last.removed || last.key != key then [] else [last]
  }

  lemma {:induction false} OnChainMembers(logs: seq<RawLog>)
    ensures forall rec :: rec in OnChain(logs) <==> RawLog(false, Some(rec)) in logs
  {
    if logs != [] {
      OnChainMembers(logs[..|logs| - 1]);
      assert logs == logs[..|logs| - 1] + [logs[|logs| - 1]];
    }
  }

  lemma {:induction false} RowsOfMembers(rows: seq<DbRecord>, key: LogKey)
    ensures forall row :: row in RowsOf(rows, key) <==> row in rows && !row.removed && row.key == key
  {
    if rows != [] {
      RowsOfMembers(rows[..|rows| - 1], key);
      assert rows == rows[..|rows| - 1] + [rows[|rows| - 1]];
    }
  }

  /** The node's answer about some logs, as one reconciler views them. */
  function Answer<T>(logs: seq<T>, view: T -> RawLog): seq<RawLog> {
    seq(|logs|, i requires 0 <= i < |logs| => view(logs[i]))
  }

  lemma AnswerMembers<T>(logs: seq<T>, view: T -> RawLog, rec: ChainRecord) returns (log: T)
    requires rec in OnChain(Answer(logs, view))
    ensures log in logs && view(log) == RawLog(false, Some(rec))
  {
    OnChainMembers(Answer(logs, view));
    var i :| 0 <= i < |logs| && Answer(logs, view)[i] == RawLog(false, Some(rec));
    log := logs[i];
  }

  // ---- What counts as a mismatch -----------------------------------------------------------------------

  /** A missing row is only reported when the indexer has passed its block. */
  predicate Lagging(rec: ChainRecord, checkpoint: Option<nat>, safe: nat) {
    rec.block > safe || checkpoint.None? || rec.block > checkpoint.value
  }

  predicate AmountsDiffer(row: DbRecord, rec: ChainRecord) {
    |row.amounts| != |rec.amounts| || exists i :: 0 <= i < |rec.amounts| && row.amounts[i] != Some(rec.amounts[i])
  }

  /** The log rec and the rows stored under its key differ in the way m says. */
  predicate Differs(rec: ChainRecord, m: Mismatch, stored: seq<DbRecord>, checkpoint: Option<nat>, safe: nat) {
    && rec.key == m.key && rec.block == m.block
    && match m.kind
       case Duplicate => false
       case Missing => stored == [] && !Lagging(rec, checkpoint, safe)
       case EntityMismatch => stored != [] && stored[0].parties != rec.parties
       case AmountMismatch => stored != [] && AmountsDiffer(stored[0], rec)
       case TxInconsistency => stored != [] && stored[0].block != rec.block
  }

  predicate IsDuplicate(m: Mismatch, rows: seq<DbRecord>) {
    var stored := RowsOf(rows, m.key);
    m.kind == Duplicate && |stored| > 1 && m.block == stored[0].block
  }

  /** m is a difference between the chain and the tables. */
  ghost predicate IsMismatch(m: Mismatch, chain: seq<ChainRecord>, rows: seq<DbRecord>, checkpoint: Option<nat>, safe: nat) {
    IsDuplicate(m, rows) || exists rec :: rec in chain && Differs(rec, m, RowsOf(rows, m.key), checkpoint, safe)
  }

  // ---- What the code reports -----------------------------------------------------------------------------

  function Compare(rec: ChainRecord, stored: seq<DbRecord>, checkpoint: Option<nat>, safe: nat): seq<Mismatch> {
    if stored == [] then
      if Lagging(rec, checkpoint, safe) then [] else [Mismatch(Missing, rec.key, rec.block)]
    else
      When(stored[0].parties != rec.parties, Mismatch(EntityMismatch, rec.key, rec.block))
      + When(AmountsDiffer(stored[0], rec), Mismatch(AmountMismatch, rec.key, rec.block))
      + When(stored[0].block != rec.block, Mismatch(TxInconsistency, rec.key, rec.block))
  }

  function When<T>(condition: bool, x: T): seq<T> {
    if condition then [x] else []
  }

  lemma PrefixesOfThree<T>(start: seq<T>, a: seq<T>, b: seq<T>, c: seq<T>)
    ensures start + (a + b + c) == start + a + b + c
    ensures start <= start + a + b + c && start + a <= start + a + b + c && start + a + b <= start + a + b + c
  {
  }

  function CompareAll(chain: seq<ChainRecord>, rows: seq<DbRecord>, checkpoint: Option<nat>, safe: nat): seq<Mismatch> {
    if chain == [] then []
    else
      var last := chain[|chain| - 1];
      CompareAll(chain[..|chain| - 1], rows, checkpoint, safe) + Compare(last, RowsOf(rows, last.key), checkpoint, safe)
  }

  predicate Distinct<T(==)>(s: seq<T>) {
    forall i, j :: 0 <= i < j < |s| ==> s[i] != s[j]
  }

  /** The duplicated keys are visited in an arbitrary order, each of them once. */
  ghost predicate DuplicatesOf(dups: seq<Mismatch>, rows: seq<DbRecord>) {
    && Distinct(dups)
    && forall m :: m in dups <==> IsDuplicate(m, rows)
  }

  /** ms is what a pass over these logs and rows may detect, in the order of detection. */
  ghost predicate Detected(ms: seq<Mismatch>, chain: seq<ChainRecord>, rows: seq<DbRecord>, checkpoint: Option<nat>, safe: nat) {
    exists dups :: DuplicatesOf(dups, rows) && ms == dups + CompareAll(chain, rows, checkpoint, safe)
  }

  lemma CompareMembers(rec: ChainRecord, rows: seq<DbRecord>, checkpoint: Option<nat>, safe: nat, m: Mismatch)
    ensures m in Compare(rec, RowsOf(rows, rec.key), checkpoint, safe) <==> Differs(rec, m, RowsOf(rows, m.key), checkpoint, safe)
  {
    hide RowsOf, AmountsDiffer, Lagging;
  }

  lemma {:induction false} CompareAllMembers(chain: seq<ChainRecord>, rows: seq<DbRecord>, checkpoint: Option<nat>, safe: nat, m: Mismatch)
    ensures m in CompareAll(chain, rows, checkpoint, safe)
            <==> exists rec :: rec in chain && Differs(rec, m, RowsOf(rows, m.key), checkpoint, safe)
  {
    hide RowsOf, Compare, Differs;
    if chain != [] {
      var (init, last) := (chain[..|chain| - 1], chain[|chain| - 1]);
      CompareAllMembers(init, rows, checkpoint, safe, m);
      CompareMembers(last, rows, checkpoint, safe, m);
      assert chain == init + [last];
    }
  }

  /** Detection finds every difference between the chain and the tables, and nothing else. */
  lemma DetectsExactlyTheMismatches(ms: seq<Mismatch>, chain: seq<ChainRecord>, rows: seq<DbRecord>, checkpoint: Option<nat>, safe: nat)
    requires Detected(ms, chain, rows, checkpoint, safe)
    ensures forall m :: m in ms <==> IsMismatch(m, chain, rows, checkpoint, safe)
  {
    hide IsDuplicate, Differs, CompareAll;
    var dups :| DuplicatesOf(dups, rows) && ms == dups + CompareAll(chain, rows, checkpoint, safe);
    forall m
      ensures m in ms <==> IsMismatch(m, chain, rows, checkpoint, safe)
    {
      CompareAllMembers(chain, rows, checkpoint, safe, m);
      assert m in ms <==> m in dups || m in CompareAll(chain, rows, checkpoint, safe);
    }
  }

  lemma {:induction false} SameMembersSameLength<T>(a: seq<T>, b: seq<T>)
    requires Distinct(a) && Distinct(b) && forall x :: x in a <==> x in b
    ensures |a| == |b|
  {
    MembersCount(a);
    MembersCount(b);
    assert (set x | x in a) == (set x | x in b);
  }

  lemma {:induction false} MembersCount<T>(a: seq<T>)
    requires Distinct(a)
    ensures |set x | x in a| == |a|
  {
    if a != [] {
      var (init, last) := (a[..|a| - 1], a[|a| - 1]);
      MembersCount(init);
      assert (set x | x in a) == (set x | x in init) + {last};
    }
  }

  /** Two passes over the same data detect the same mismatches, possibly in another order, so the second one is idle. */
  lemma SecondPassIsIdle(excs: seq<Exc>, scope: Scope, ms: seq<Mismatch>, again: seq<Mismatch>, chain: seq<ChainRecord>,
                         rows: seq<DbRecord>, checkpoint: Option<nat>, safe: nat, from: nat, to: nat)
    requires Detected(ms, chain, rows, checkpoint, safe) && Detected(again, chain, rows, checkpoint, safe)
    ensures var after := Pass(excs, scope, ms, from, to);
            && Pass(after, scope, again, from, to) == after
            && |RecordAll(after, scope, again)| == |after|
            && Skipped(after, scope, again) == |ms| == |again|
            && StaleCount(after, scope, Refs(scope, again), from, to) == 0
  {
    hide Pass, RecordAll, Skipped, StaleCount, Refs, CompareAll, IsMismatch;
    DetectsExactlyTheMismatches(ms, chain, rows, checkpoint, safe);
    DetectsExactlyTheMismatches(again, chain, rows, checkpoint, safe);
    var d :| DuplicatesOf(d, rows) && ms == d + CompareAll(chain, rows, checkpoint, safe);
    var d' :| DuplicatesOf(d', rows) && again == d' + CompareAll(chain, rows, checkpoint, safe);
    SameMembersSameLength(d, d');
    PassIsFixpoint(excs, scope, ms, again, from, to);
  }

  // ---- When nothing is reported --------------------------------------------------------------------------

  predicate DistinctKeys(rows: seq<DbRecord>) {
    forall i, j :: 0 <= i < j < |rows| ==> rows[i].key != rows[j].key
  }

  predicate Agrees(rec: ChainRecord, row: DbRecord) {
    && !row.removed && row.key == rec.key && row.block == rec.block && row.parties == rec.parties
    && |row.amounts| == |rec.amounts| && forall i :: 0 <= i < |rec.amounts| ==> row.amounts[i] == Some(rec.amounts[i])
  }

  /** The tables repeat the chain: one row per key, equal to its log, and present once the indexer has passed it. */
  ghost predicate Faithful(chain: seq<ChainRecord>, rows: seq<DbRecord>, checkpoint: Option<nat>, safe: nat) {
    && DistinctKeys(rows)
    && (forall rec, row :: rec in chain && row in rows && row.key == rec.key ==> Agrees(rec, row))
    && (forall rec :: rec in chain && !Lagging(rec, checkpoint, safe) ==> exists row :: row in rows && row.key == rec.key)
  }

  lemma EmptyOrInhabited<T>(s: seq<T>)
    ensures s == [] || exists x :: x in s
  {
    if s != [] {
      assert s[0] in s;
    }
  }

  lemma {:induction false} DistinctKeysHaveOneRow(rows: seq<DbRecord>, key: LogKey)
    requires DistinctKeys(rows)
    ensures |RowsOf(rows, key)| <= 1
  {
    if rows != [] {
      var (init, last) := (rows[..|rows| - 1], rows[|rows| - 1]);
      DistinctKeysHaveOneRow(init, key);
      RowsOfMembers(init, key);
      if last.key == key {
        assert forall row :: row in init ==> row.key != key;
        assert forall row :: row !in RowsOf(init, key);
        EmptyOrInhabited(RowsOf(init, key));
      }
    }
  }

  ghost predicate HasRow(rows: seq<DbRecord>, key: LogKey) {
    exists row :: row in rows && row.key == key
  }

  /** The rows repeat one log. */
  ghost predicate IsRepeated(rec: ChainRecord, rows: seq<DbRecord>, checkpoint: Option<nat>, safe: nat) {
    && (forall row :: row in rows && row.key == rec.key ==> Agrees(rec, row))
    && (!Lagging(rec, checkpoint, safe) ==> HasRow(rows, rec.key))
  }

  lemma RepeatedIsFaithful(chain: seq<ChainRecord>, rows: seq<DbRecord>, checkpoint: Option<nat>, safe: nat)
    requires DistinctKeys(rows) && forall rec :: rec in chain ==> IsRepeated(rec, rows, checkpoint, safe)
    ensures Faithful(chain, rows, checkpoint, safe)
  {
    hide Agrees, Lagging;
    forall rec | rec in chain && !Lagging(rec, checkpoint, safe)
      ensures exists row :: row in rows && row.key == rec.key
    {
      assert HasRow(rows, rec.key);
    }
  }

  /** Faithful tables raise no alarm. */
  lemma FaithfulTablesRaiseNothing(ms: seq<Mismatch>, chain: seq<ChainRecord>, rows: seq<DbRecord>, checkpoint: Option<nat>, safe: nat)
    requires Faithful(chain, rows, checkpoint, safe) && Detected(ms, chain, rows, checkpoint, safe)
    ensures ms == []
  {
    hide RowsOf, Lagging, AmountsDiffer, CompareAll, IsMismatch, Detected;
    DetectsExactlyTheMismatches(ms, chain, rows, checkpoint, safe);
    forall m
      ensures !IsMismatch(m, chain, rows, checkpoint, safe)
    {
      NothingDiffers(m, chain, rows, checkpoint, safe);
    }
    EmptyOrInhabited(ms);
  }

  lemma NothingDiffers(m: Mismatch, chain: seq<ChainRecord>, rows: seq<DbRecord>, checkpoint: Option<nat>, safe: nat)
    requires Faithful(chain, rows, checkpoint, safe)
    ensures !IsMismatch(m, chain, rows, checkpoint, safe)
  {
    hide RowsOf;
    var stored := RowsOf(rows, m.key);
    RowsOfMembers(rows, m.key);
    DistinctKeysHaveOneRow(rows, m.key);
    forall rec | rec in chain && rec.key == m.key
      ensures !Differs(rec, m, stored, checkpoint, safe)
    {
      if stored != [] {
        assert stored[0] in stored;
        assert Agrees(rec, stored[0]);
      } else {
        assert forall row :: row in rows && row.key == rec.key ==> row in stored;
      }
    }
  }

  // ---- The reconciler ------------------------------------------------------------------------------------

  /** The answers of the node and the database, and the calls to the exception table that fail. */
  datatype Env = Env(latest: Result<uint64>, checkpoint: Result<Option<nat>>, logs: Result<seq<RawLog>>,
                     rows: Result<seq<DbRecord>>, storeFails: nat -> bool)
  {
    predicate Readable() {
      checkpoint.Ok? && logs.Ok? && rows.Ok?
    }
  }

  datatype Report = Report(from: uint64, to: uint64, safe: uint64, checkpoint: nat, onChain: nat, stored: nat,
                           detected: nat, created: nat, skipped: nat, resolved: nat)

  /** A pass that could not be completed: it recorded only mismatches and resolved only stale exceptions. */
  ghost predicate Interrupted(before: seq<Exc>, after: seq<Exc>, scope: Scope, ms: seq<Mismatch>, from: nat, to: nat) {
    PartlyResolved(RecordAll(before, scope, ms), after, scope, Refs(scope, ms), from, to)
  }

  ghost predicate PartlyResolved(before: seq<Exc>, now: seq<Exc>, scope: Scope, active: set<string>, from: nat, to: nat) {
    && |now| == |before|
    && forall i :: 0 <= i < |now| ==>
         now[i] == before[i] || (now[i] == Closed(before[i]) && Stale(before[i], scope, active, from, to))
  }

  /** An interrupted pass leaves the exceptions of the other reconcilers alone and never opens a reference twice. */
  lemma InterruptedIsIsolated(before: seq<Exc>, after: seq<Exc>, scope: Scope, ms: seq<Mismatch>, from: nat, to: nat)
    requires Interrupted(before, after, scope, ms, from, to)
    ensures OnlyOwnRowsChange(before, after, scope)
    ensures UniqueOpen(before) ==> UniqueOpen(after)
    ensures forall i :: |before| <= i < |after| ==> after[i].ref in Refs(scope, ms)
  {
    hide RefOf, Owns, InRange, Refs, UniqueOpen;
    RecordAllFacts(before, scope, ms);
    var recorded, active := RecordAll(before, scope, ms), Refs(scope, ms);
    assert forall i :: 0 <= i < |before| ==> recorded[i] == recorded[..|before|][i];
    ClosingKeepsUniqueOpen(recorded, after, scope, active, from, to);
    forall i | |before| <= i < |after|
      ensures after[i].ref in active && Owns(scope, after[i])
    {
      var m := CreatedFor(before, scope, ms, i);
      MemberRef(scope, ms, m);
      OwnExceptions(scope, m);
      assert Owns(scope, Closed(ExceptionOf(scope, m))) == Owns(scope, ExceptionOf(scope, m)) by {
        OwnsIgnoresStatus(scope, ExceptionOf(scope, m));
      }
    }
  }

  lemma OwnsIgnoresStatus(scope: Scope, row: Exc)
    ensures Owns(scope, Closed(row)) == Owns(scope, row)
  {
  }

  lemma MemberRef(scope: Scope, ms: seq<Mismatch>, m: Mismatch)
    requires m in ms
    ensures RefOf(scope, m) in Refs(scope, ms)
  {
  }

  lemma ClosingKeepsUniqueOpen(before: seq<Exc>, now: seq<Exc>, scope: Scope, active: set<string>, from: nat, to: nat)
    requires PartlyResolved(before, now, scope, active, from, to)
    ensures UniqueOpen(before) ==> UniqueOpen(now)
  {
    hide Stale;
  }

  lemma OneMore(rows: seq<Exc>, scope: Scope, ms: seq<Mismatch>, m: Mismatch)
    ensures RecordAll(rows, scope, ms + [m]) == Record(RecordAll(rows, scope, ms), scope, m)
    ensures Refs(scope, ms + [m]) == Refs(scope, ms) + {RefOf(scope, m)}
    ensures Skipped(rows, scope, ms + [m])
            == Skipped(rows, scope, ms) + if IsOpen(RecordAll(rows, scope, ms), RefOf(scope, m)) then 1 else 0
  {
    hide RefOf;
    assert (ms + [m])[..|ms|] == ms;
  }

  /** The state of one pass while it records mismatches. */
  class Audit {
    const scope: Scope
    const repo: ReconciliationRepository
    const fails: nat -> bool
    ghost const initial: seq<Exc>
    var calls: nat
    var active: set<string>
    var detected: nat
    var created: nat
    var skipped: nat
    ghost var ms: seq<Mismatch>

    constructor (scope: Scope, repo: ReconciliationRepository, fails: nat -> bool)
      ensures this.scope == scope && this.repo == repo && this.fails == fails && initial == repo.rows
      ensures ms == [] && Valid()
    {
      this.scope, this.repo, this.fails, initial := scope, repo, fails, repo.rows;
      calls, active, detected, created, skipped, ms := 0, {}, 0, 0, 0, [];
    }

    ghost predicate Recorded()
      reads this, repo
    {
      repo.rows == RecordAll(initial, scope, ms)
    }

    ghost predicate Valid()
      reads this, repo
    {
      && Recorded()
      && active == Refs(scope, ms)
      && detected == |ms|
      && |initial| + created == |repo.rows|
      && skipped == Skipped(initial, scope, ms)
    }

    method Call() returns (failed: bool)
      modifies this`calls
      ensures failed ==> exists n :: fails(n)
    {
      failed := fails(calls);
      calls := calls + 1;
    }

    /** Creates the exception unless one is open under the same reference. */
    method RecordMismatch(m: Mismatch) returns (ok: bool)
      requires Valid()
      modifies this, repo
      ensures Recorded() && (ok ==> Valid())
      ensures ms == if ok then old(ms) + [m] else old(ms)
      ensures !ok ==> exists n :: fails(n)
    {
      hide RefOf, RecordAll, Refs, Skipped, IsOpen, ExceptionOf;
      OneMore(initial, scope, ms, m);
      var ref := RefOf(scope, m);
      active := active + {ref};
      detected := detected + 1;
      var failed := Call();
      var existing := repo.GetOpenExceptionByEntityRef(ref, failed);
      if existing.Error? {
        return false;
      }
      ghost var before := ms;
      if existing.value.Some? {
        skipped := skipped + 1;
        ms := before + [m];
        return true;
      }
      failed := Call();
      ok := repo.CreateException(ExceptionOf(scope, m), failed);
      if ok {
        created := created + 1;
        ms := before + [m];
      }
    }

    /** One log against the rows stored under its key. */
    method CompareRecord(rec: ChainRecord, stored: seq<DbRecord>, checkpoint: Option<nat>, safe: uint64) returns (ok: bool)
      requires Recorded() && Valid()
      modifies this, repo
      ensures Recorded() && (ok ==> Valid())
      ensures ok ==> ms == old(ms) + Compare(rec, stored, checkpoint, safe)
      ensures ms <= old(ms) + Compare(rec, stored, checkpoint, safe)
      ensures !ok ==> exists n :: fails(n)
    {
      hide RefOf, RecordAll, Refs, Skipped, Lagging, AmountsDiffer, Recorded, Valid, When;
      ok := true;
      if stored == [] {
        if !Lagging(rec, checkpoint, safe) {
          ok := RecordMismatch(Mismatch(Missing, rec.key, rec.block));
        }
        return;
      }
      ghost var (m1, m2, m3) := (Mismatch(EntityMismatch, rec.key, rec.block), Mismatch(AmountMismatch, rec.key, rec.block),
                                 Mismatch(TxInconsistency, rec.key, rec.block));
      ghost var (a, b, c) := (When(stored[0].parties != rec.parties, m1), When(AmountsDiffer(stored[0], rec), m2),
                              When(stored[0].block != rec.block, m3));
      PrefixesOfThree(ms, a, b, c);
      ok := RecordWhen(stored[0].parties != rec.parties, Mismatch(EntityMismatch, rec.key, rec.block));
      if !ok {
        return;
      }
      ok := RecordWhen(AmountsDiffer(stored[0], rec), Mismatch(AmountMismatch, rec.key, rec.block));
      if !ok {
        return;
      }
      ok := RecordWhen(stored[0].block != rec.block, Mismatch(TxInconsistency, rec.key, rec.block));
    }

    method RecordWhen(condition: bool, m: Mismatch) returns (ok: bool)
      requires Recorded() && Valid()
      modifies this, repo
      ensures Recorded() && (ok ==> Valid())
      ensures ms == if ok then old(ms) + When(condition, m) else old(ms)
      ensures !ok ==> exists n :: fails(n)
    {
      hide Recorded, Valid;
      ok := true;
      if condition {
        ok := RecordMismatch(m);
      }
    }

    /** Every duplicated key, in the arbitrary order of a map iteration. */
    method RecordDuplicates(rows: seq<DbRecord>, byKey: map<LogKey, seq<DbRecord>>) returns (ok: bool)
      requires Recorded() && Valid() && ms == [] && GroupedByKey(byKey, rows)
      modifies this, repo
      ensures Recorded() && (ok ==> Valid() && DuplicatesOf(ms, rows))
      ensures forall m :: m in ms ==> IsDuplicate(m, rows)
      ensures !ok ==> exists n :: fails(n)
    {
      hide RefOf, Recorded, Valid, RowsOf;
      var todo := byKey.Keys;
      while todo != {}
        invariant todo <= byKey.Keys && Recorded() && Valid()
        invariant Distinct(ms) && forall m :: m in ms <==> IsDuplicate(m, rows) && m.key !in todo
      {
        var key :| key in todo;
        todo := todo - {key};
        var stored := byKey[key];
        if |stored| > 1 {
          ok := RecordMismatch(Mismatch(Duplicate, key, stored[0].block));
          if !ok {
            return;
          }
        }
      }
      ok := true;
    }

    /** Every log of the range, in chain order. */
    method CompareRecords(chain: seq<ChainRecord>, rows: seq<DbRecord>, byKey: map<LogKey, seq<DbRecord>>,
                          checkpoint: Option<nat>, safe: uint64) returns (ok: bool)
      requires Recorded() && Valid() && GroupedByKey(byKey, rows)
      modifies this, repo
      ensures Recorded() && (ok ==> Valid())
      ensures ok ==> ms == old(ms) + CompareAll(chain, rows, checkpoint, safe)
      ensures ms <= old(ms) + CompareAll(chain, rows, checkpoint, safe)
      ensures !ok ==> exists n :: fails(n)
    {
      hide RefOf, Recorded, Valid, RowsOf, Compare;
      var i := 0;
      assert chain[..0] == [];
      while i < |chain|
        invariant 0 <= i <= |chain| && Recorded() && Valid()
        invariant ms == old(ms) + CompareAll(chain[..i], rows, checkpoint, safe)
      {
        var stored := if chain[i].key in byKey then byKey[chain[i].key] else [];
        CompareAllStep(chain, i, rows, checkpoint, safe, old(ms));
        ok := CompareRecord(chain[i], stored, checkpoint, safe);
        i := i + 1;
        if !ok {
          return;
        }
      }
      assert chain[..i] == chain;
      ok := true;
    }
  }

  ghost predicate GroupedByKey(byKey: map<LogKey, seq<DbRecord>>, rows: seq<DbRecord>) {
    forall k :: if k in byKey then byKey[k] == RowsOf(rows, k) != [] else RowsOf(rows, k) == []
  }

  lemma CompareAllStep(chain: seq<ChainRecord>, i: nat, rows: seq<DbRecord>, checkpoint: Option<nat>, safe: nat,
                       start: seq<Mismatch>)
    requires i < |chain|
    ensures start + CompareAll(chain[..i + 1], rows, checkpoint, safe)
            == start + CompareAll(chain[..i], rows, checkpoint, safe) + Compare(chain[i], RowsOf(rows, chain[i].key), checkpoint, safe)
    ensures start + CompareAll(chain[..i + 1], rows, checkpoint, safe) <= start + CompareAll(chain, rows, checkpoint, safe)
  {
    hide Compare, RowsOf;
    assert chain[..i + 1][..i] == chain[..i];
    CompareAllPrefix(chain, i + 1, rows, checkpoint, safe);
  }

  lemma {:induction false} CompareAllPrefix(chain: seq<ChainRecord>, i: nat, rows: seq<DbRecord>, checkpoint: Option<nat>, safe: nat)
    requires i <= |chain|
    ensures CompareAll(chain[..i], rows, checkpoint, safe) <= CompareAll(chain, rows, checkpoint, safe)
  {
    hide Compare, RowsOf;
    if i < |chain| {
      var init := chain[..|chain| - 1];
      CompareAllPrefix(init, i, rows, checkpoint, safe);
      assert init[..i] == chain[..i];
    } else {
      assert chain[..i] == chain;
    }
  }

  // ---- Resolution ------------------------------------------------------------------------------------------

  /** The position of the k-th selected row, or the end of the table. */
  function Bound(ids: seq<nat>, k: nat, rows: seq<Exc>): nat {
    if k < |ids| then ids[k] else |rows|
  }

  lemma NothingStaleBetween(rows: seq<Exc>, scope: Scope, active: set<string>, from: nat, to: nat, ids: seq<nat>, k: nat)
    requires ids == OpenByPrefix(rows, PrefixOf(scope), 0) && k <= |ids|
    ensures forall i: nat :: (k > 0 ==> ids[k - 1] < i) && i < Bound(ids, k, rows) && i < |rows| ==>
              !Stale(rows[i], scope, active, from, to)
    ensures forall j :: 0 <= j < |ids| ==> ids[j] < |rows| && rows[ids[j]].open && HasPrefix(rows[ids[j]].ref, PrefixOf(scope))
    ensures k > 0 ==> ids[k - 1] < Bound(ids, k, rows)
  {
    hide OpenByPrefix, PrefixOf, HasPrefix, InRange, FamilyOf;
    OpenByPrefixMembers(rows, PrefixOf(scope), 0);
    forall j | 0 <= j < |ids|
      ensures ids[j] < |rows| && rows[ids[j]].open && HasPrefix(rows[ids[j]].ref, PrefixOf(scope))
    {
      assert ids[j] in OpenByPrefix(rows, PrefixOf(scope), 0);
    }
    forall i: nat | (k > 0 ==> ids[k - 1] < i) && i < Bound(ids, k, rows) && i < |rows|
      ensures !Stale(rows[i], scope, active, from, to)
    {
      assert i !in ids;
    }
  }

  lemma {:induction false} StaleCountSkips(rows: seq<Exc>, scope: Scope, active: set<string>, from: nat, to: nat, lo: nat, hi: nat)
    requires lo <= hi <= |rows| && forall i :: lo <= i < hi ==> !Stale(rows[i], scope, active, from, to)
    ensures StaleCount(rows[..0], scope, active, from, to) == 0
    ensures StaleCount(rows[..hi], scope, active, from, to) == StaleCount(rows[..lo], scope, active, from, to)
    decreases hi
  {
    hide Stale;
    if lo < hi {
      assert rows[..hi][..hi - 1] == rows[..hi - 1];
      StaleCountSkips(rows, scope, active, from, to, lo, hi - 1);
    }
  }

  lemma StaleCountStep(rows: seq<Exc>, scope: Scope, active: set<string>, from: nat, to: nat, i: nat)
    requires i < |rows|
    ensures StaleCount(rows[..i + 1], scope, active, from, to)
            == StaleCount(rows[..i], scope, active, from, to) + if Stale(rows[i], scope, active, from, to) then 1 else 0
  {
    hide Stale;
    assert rows[..i + 1][..i] == rows[..i];
  }

  /** The rows before bound have been treated. */
  ghost predicate ResolvedUpTo(before: seq<Exc>, now: seq<Exc>, scope: Scope, active: set<string>, from: nat, to: nat, bound: nat) {
    && |now| == |before|
    && forall i :: 0 <= i < |now| ==>
         now[i] == if i < bound && Stale(before[i], scope, active, from, to) then Closed(before[i]) else before[i]
  }

  lemma ResolveStart(rows: seq<Exc>, scope: Scope, active: set<string>, from: nat, to: nat, ids: seq<nat>)
    requires ids == OpenByPrefix(rows, PrefixOf(scope), 0)
    ensures Bound(ids, 0, rows) <= |rows| && ResolvedUpTo(rows, rows, scope, active, from, to, Bound(ids, 0, rows))
    ensures StaleCount(rows[..Bound(ids, 0, rows)], scope, active, from, to) == 0
  {
    hide OpenByPrefix, PrefixOf, Stale, StaleCount;
    NothingStaleBetween(rows, scope, active, from, to, ids, 0);
    StaleCountSkips(rows, scope, active, from, to, 0, Bound(ids, 0, rows));
  }

  /** Treating the k-th selected row settles everything up to the next one. */
  lemma ResolveStep(rows: seq<Exc>, now: seq<Exc>, scope: Scope, active: set<string>, from: nat, to: nat, ids: seq<nat>, k: nat)
    requires ids == OpenByPrefix(rows, PrefixOf(scope), 0) && k < |ids|
    requires ResolvedUpTo(rows, now, scope, active, from, to, Bound(ids, k, rows))
    ensures var id := ids[k];
            && id < |now| == |rows| && now[id] == rows[id] && rows[id].open && HasPrefix(rows[id].ref, PrefixOf(scope))
            && Bound(ids, k + 1, rows) <= |rows|
            && ResolvedUpTo(rows, if Stale(rows[id], scope, active, from, to) then now[id := Closed(now[id])] else now,
                            scope, active, from, to, Bound(ids, k + 1, rows))
            && StaleCount(rows[..Bound(ids, k + 1, rows)], scope, active, from, to)
               == StaleCount(rows[..id], scope, active, from, to) + if Stale(rows[id], scope, active, from, to) then 1 else 0
  {
    hide OpenByPrefix, PrefixOf, HasPrefix, Stale, StaleCount;
    NothingStaleBetween(rows, scope, active, from, to, ids, k);
    NothingStaleBetween(rows, scope, active, from, to, ids, k + 1);
    StaleCountStep(rows, scope, active, from, to, ids[k]);
    StaleCountSkips(rows, scope, active, from, to, ids[k] + 1, Bound(ids, k + 1, rows));
  }

  lemma ResolvedIsPartlyResolved(rows: seq<Exc>, now: seq<Exc>, scope: Scope, active: set<string>, from: nat, to: nat, bound: nat)
    requires ResolvedUpTo(rows, now, scope, active, from, to, bound)
    ensures PartlyResolved(rows, now, scope, active, from, to)
    ensures bound == |rows| ==> now == ResolveStale(rows, scope, active, from, to)
  {
    hide Stale;
  }

  /** The result of a pass whose inputs were read: complete, or interrupted by a failure of the exception table. */
  ghost predicate Outcome(env: Env, scope: Scope, from: uint64, eff: uint64, safe: uint64, before: seq<Exc>, after: seq<Exc>,
                          result: Result<Report>, ms: seq<Mismatch>)
    requires env.Readable()
  {
    var (checkpoint, rows, chain) := (env.checkpoint.value, env.rows.value, OnChain(env.logs.value));
    && (forall m :: m in ms ==> IsMismatch(m, chain, rows, checkpoint, safe))
    && match result
       case Error =>
         && Interrupted(before, after, scope, ms, from, eff) && (exists n :: env.storeFails(n))
         // nothing is closed before all mismatches have been recorded
         && (after == RecordAll(before, scope, ms) || Detected(ms, chain, rows, checkpoint, safe))
       case Ok(report) =>
         && Detected(ms, chain, rows, checkpoint, safe)
         && after == Pass(before, scope, ms, from, eff)
         && report.from == from && report.to == eff && report.safe == safe
         && report.checkpoint == (if checkpoint.Some? then checkpoint.value else 0)
         && report.onChain == |chain| && report.stored == |rows|
         && report.detected == |ms| == report.created + report.skipped
         && report.created == |after| - |before|
         && report.skipped == Skipped(before, scope, ms)
         && report.resolved == StaleCount(RecordAll(before, scope, ms), scope, Refs(scope, ms), from, eff)
  }

  /** Nothing is opened, and only own stale exceptions of the range are closed; a complete pass closes all of them. */
  ghost predicate QuietPass(scope: Scope, from: uint64, eff: uint64, before: seq<Exc>, after: seq<Exc>, result: Result<Report>) {
    && PartlyResolved(before, after, scope, {}, from, eff)
    && (result.Ok? ==>
          && after == ResolveStale(before, scope, {}, from, eff)
          && result.value.detected == result.value.created == result.value.skipped == 0
          && result.value.resolved == StaleCount(before, scope, {}, from, eff))
  }

  /** Over faithful tables every pass is quiet, interrupted or not. */
  lemma FaithfulPassIsQuiet(env: Env, scope: Scope, from: uint64, eff: uint64, safe: uint64, before: seq<Exc>, after: seq<Exc>,
                            result: Result<Report>, ms: seq<Mismatch>)
    requires env.Readable() && Outcome(env, scope, from, eff, safe, before, after, result, ms)
    requires Faithful(OnChain(env.logs.value), env.rows.value, env.checkpoint.value, safe)
    ensures QuietPass(scope, from, eff, before, after, result)
  {
    hide Faithful, IsMismatch, Detected, OnChain, Stale, StaleCount;
    EmptyOrInhabited(ms);
    if ms != [] {
      var m :| m in ms;
      NothingDiffers(m, OnChain(env.logs.value), env.rows.value, env.checkpoint.value, safe);
    }
    assert Refs(scope, ms) == {};
    assert RecordAll(before, scope, ms) == before;
    if result.Ok? {
      AllResolvedIsPartly(before, scope, from, eff);
    }
  }

  lemma AllResolvedIsPartly(before: seq<Exc>, scope: Scope, from: nat, to: nat)
    ensures PartlyResolved(before, ResolveStale(before, scope, {}, from, to), scope, {}, from, to)
  {
    hide Stale;
  }

  lemma NothingResolved(rows: seq<Exc>, scope: Scope, active: set<string>, from: nat, to: nat)
    ensures PartlyResolved(rows, rows, scope, active, from, to)
  {
  }

  lemma InterruptedOutcome(env: Env, scope: Scope, from: uint64, eff: uint64, safe: uint64, before: seq<Exc>, after: seq<Exc>,
                           ms: seq<Mismatch>)
    requires env.Readable() && exists n :: env.storeFails(n)
    requires forall m :: m in ms ==> IsMismatch(m, OnChain(env.logs.value), env.rows.value, env.checkpoint.value, safe)
    requires PartlyResolved(RecordAll(before, scope, ms), after, scope, Refs(scope, ms), from, eff)
    requires || after == RecordAll(before, scope, ms)
             || Detected(ms, OnChain(env.logs.value), env.rows.value, env.checkpoint.value, safe)
    ensures Outcome(env, scope, from, eff, safe, before, after, Error, ms)
  {
  }

  lemma CompleteOutcome(env: Env, scope: Scope, from: uint64, eff: uint64, safe: uint64, before: seq<Exc>, after: seq<Exc>,
                        report: Report, ms: seq<Mismatch>)
    requires env.Readable() && after == ResolveStale(RecordAll(before, scope, ms), scope, Refs(scope, ms), from, eff)
    requires Detected(ms, OnChain(env.logs.value), env.rows.value, env.checkpoint.value, safe)
    requires report.from == from && report.to == eff && report.safe == safe
    requires report.checkpoint == if env.checkpoint.value.Some? then env.checkpoint.value.value else 0
    requires report.onChain == |OnChain(env.logs.value)| && report.stored == |env.rows.value|
    requires report.detected == |ms| && report.skipped == Skipped(before, scope, ms)
    requires |before| + report.created == |RecordAll(before, scope, ms)|
    requires report.resolved == StaleCount(RecordAll(before, scope, ms), scope, Refs(scope, ms), from, eff)
    ensures Outcome(env, scope, from, eff, safe, before, after, Ok(report), ms)
  {
    hide RecordAll, Refs, Skipped, StaleCount, IsMismatch, Detected, OnChain;
    DetectsExactlyTheMismatches(ms, OnChain(env.logs.value), env.rows.value, env.checkpoint.value, safe);
    DetectedIsCreatedPlusSkipped(before, scope, ms);
  }

  ghost predicate Wrong(env: Env, safe: nat, m: Mismatch)
    requires env.Readable()
  {
    IsMismatch(m, OnChain(env.logs.value), env.rows.value, env.checkpoint.value, safe)
  }

  ghost predicate BlocksWithin(chain: seq<ChainRecord>, rows: seq<DbRecord>, from: nat, to: nat) {
    && (forall rec :: rec in chain ==> from <= rec.block <= to)
    && (forall row :: row in rows ==> from <= row.block <= to)
  }

  lemma MismatchIsWithin(m: Mismatch, chain: seq<ChainRecord>, rows: seq<DbRecord>, checkpoint: Option<nat>, safe: nat,
                         from: nat, to: nat)
    requires IsMismatch(m, chain, rows, checkpoint, safe) && BlocksWithin(chain, rows, from, to)
    ensures from <= m.block <= to
  {
    hide RowsOf;
    RowsOfMembers(rows, m.key);
    assert IsDuplicate(m, rows) ==> RowsOf(rows, m.key)[0] in RowsOf(rows, m.key);
  }

  /** Exactness of a completed pass, on any data and any exception table: exactly the mismatches have an open exception
      in the range, if and only if none of them was already open outside the range or for another reconciler. */
  lemma ReconciliationIsExactExactlyWhen(env: Env, scope: Scope, from: uint64, eff: uint64, safe: uint64, before: seq<Exc>,
                                         after: seq<Exc>, report: Report, ms: seq<Mismatch>)
    requires env.Readable() && Outcome(env, scope, from, eff, safe, before, after, Ok(report), ms)
    requires eff < TWO_TO_53 && BlocksWithin(OnChain(env.logs.value), env.rows.value, from, eff)
    ensures (forall ref :: OpenInRange(after, scope, from, eff, ref) <==> exists m :: Wrong(env, safe, m) && ref == RefOf(scope, m))
            <==> (forall m :: Wrong(env, safe, m) && IsOpen(before, RefOf(scope, m)) ==>
                    OpenInRange(before, scope, from, eff, RefOf(scope, m)))
  {
    hide RefOf, OpenInRange, IsOpen, IsMismatch, Detected, Pass, OnChain, BlocksWithin, RecordAll, StaleCount, Skipped, Interrupted;
    var (chain, rows, checkpoint) := (OnChain(env.logs.value), env.rows.value, env.checkpoint.value);
    DetectsExactlyTheMismatches(ms, chain, rows, checkpoint, safe);
    forall m | m in ms
      ensures from <= m.block <= eff
    {
      MismatchIsWithin(m, chain, rows, checkpoint, safe, from, eff);
    }
    PassIsExactExactlyWhen(before, scope, ms, from, eff);
    assert forall ref :: ref in Refs(scope, ms) <==> exists m :: Wrong(env, safe, m) && ref == RefOf(scope, m);
  }

  /** The row belongs to the reconciler, lies in the range, and no mismatch has its reference. */
  ghost predicate Outdated(row: Exc, env: Env, scope: Scope, from: nat, to: nat, safe: nat)
    requires env.Readable()
  {
    row.open && Owns(scope, row) && InRange(row, from, to) && forall m :: Wrong(env, safe, m) ==> RefOf(scope, m) != row.ref
  }

  /** No pass hides a mismatch, completed or interrupted: it closes only outdated exceptions, opens only exceptions of
      mismatches, and leaves a mismatch open that was open before; a completed one leaves all mismatches open. */
  lemma NoPassHidesAMismatch(env: Env, scope: Scope, from: uint64, eff: uint64, safe: uint64, before: seq<Exc>, after: seq<Exc>,
                             result: Result<Report>, ms: seq<Mismatch>)
    requires env.Readable() && Outcome(env, scope, from, eff, safe, before, after, result, ms)
    ensures |before| <= |after|
    ensures forall i :: 0 <= i < |before| ==>
              after[i] == before[i] || (after[i] == Closed(before[i]) && Outdated(before[i], env, scope, from, eff, safe))
    ensures forall i :: |before| <= i < |after| ==> after[i].open && exists m :: Wrong(env, safe, m) && after[i].ref == RefOf(scope, m)
    ensures forall m :: Wrong(env, safe, m) && (result.Ok? || IsOpen(before, RefOf(scope, m))) ==> IsOpen(after, RefOf(scope, m))
  {
    hide RefOf, Owns, InRange, IsMismatch, Detected, OnChain, RecordAll, Skipped, StaleCount;
    var recorded := RecordAll(before, scope, ms);
    RecordAllFacts(before, scope, ms);
    assert forall i :: 0 <= i < |before| ==> recorded[i] == recorded[..|before|][i];
    if after != recorded {
      DetectsExactlyTheMismatches(ms, OnChain(env.logs.value), env.rows.value, env.checkpoint.value, safe);
    }
    if result.Ok? {
      DetectsExactlyTheMismatches(ms, OnChain(env.logs.value), env.rows.value, env.checkpoint.value, safe);
    }
    forall m | Wrong(env, safe, m) && (result.Ok? || IsOpen(before, RefOf(scope, m)))
      ensures IsOpen(after, RefOf(scope, m))
    {
      assert IsOpen(recorded, RefOf(scope, m)) by {
        if !result.Ok? {
          var j :| 0 <= j < |before| && before[j].open && before[j].ref == RefOf(scope, m);
          assert recorded[j].open && recorded[j].ref == RefOf(scope, m);
        }
      }
      var i :| 0 <= i < |recorded| && recorded[i].open && recorded[i].ref == RefOf(scope, m);
      if after != recorded {
        assert RefOf(scope, m) in Refs(scope, ms);
      }
      assert after[i] == recorded[i];
    }
    if after != recorded {
      NewRowsStayOpen(recorded, after, scope, ms, from, eff, |before|);
    }
    forall i | |before| <= i < |after|
      ensures after[i].open && exists m :: Wrong(env, safe, m) && after[i].ref == RefOf(scope, m)
    {
      var m :| m in ms && recorded[i] == ExceptionOf(scope, m);
      assert after[i] == recorded[i] && Wrong(env, safe, m);
    }
  }

  /** Rows with a detected reference are not closed. */
  lemma NewRowsStayOpen(recorded: seq<Exc>, after: seq<Exc>, scope: Scope, ms: seq<Mismatch>, from: nat, to: nat, first: nat)
    requires PartlyResolved(recorded, after, scope, Refs(scope, ms), from, to)
    requires forall i :: first <= i < |recorded| ==> recorded[i].ref in Refs(scope, ms)
    ensures forall i :: first <= i < |recorded| ==> after[i] == recorded[i]
  {
    hide Refs;
  }

  /** What one call for [from, to] returns and does: refused, skipped beyond the safe head, or a pass cut at the safe head. */
  ghost predicate RangeOutcome(env: Env, scope: Scope, depth: uint64, from: uint64, to: uint64, before: seq<Exc>, after: seq<Exc>,
                               result: Result<Report>, ms: seq<Mismatch>)
  {
    if from > to || env.latest.Error? then result == Error && after == before
    else
      var safe := SafeOrLatest(env.latest.value, depth);
      if from > safe then result == Ok(Report(from, to, safe, 0, 0, 0, 0, 0, 0, 0)) && after == before
      else if !env.Readable() then result == Error && after == before
      else Outcome(env, scope, from, Min(to, safe), safe, before, after, result, ms)
  }

  class Reconciler {
    const scope: Scope
    const confirmationDepth: uint64
    const repo: ReconciliationRepository

    constructor (scope: Scope, confirmationDepth: uint64, repo: ReconciliationRepository)
      ensures this.scope == scope && this.confirmationDepth == confirmationDepth && this.repo == repo
    {
      this.scope, this.confirmationDepth, this.repo := scope, confirmationDepth, repo;
    }

    /** Closes the open exceptions of this reconciler in [from, to] that were not detected again. */
    method ResolveFixed(audit: Audit, from: uint64, to: uint64) returns (ok: bool, resolved: nat)
      requires audit.repo == repo && audit.scope == scope
      modifies audit`calls, repo
      ensures ok ==> repo.rows == ResolveStale(old(repo.rows), scope, audit.active, from, to)
      ensures ok ==> resolved == StaleCount(old(repo.rows), scope, audit.active, from, to)
      ensures PartlyResolved(old(repo.rows), repo.rows, scope, audit.active, from, to)
      ensures !ok ==> exists n :: audit.fails(n)
    {
      hide InRange, HasPrefix, PrefixOf, StaleCount, OpenByPrefix, FamilyOf, ResolvedUpTo, PartlyResolved, ResolveStale;
      ghost var rows := repo.rows;
      resolved := 0;
      var failed := audit.Call();
      ghost var ids0 := OpenByPrefix(rows, PrefixOf(scope), 0);
      ResolveStart(rows, scope, audit.active, from, to, ids0);
      ResolvedIsPartlyResolved(rows, rows, scope, audit.active, from, to, Bound(ids0, 0, rows));
      var answer := repo.GetOpenExceptionsByEntityRefPrefix(PrefixOf(scope), failed);
      if answer.Error? {
        return false, 0;
      }
      var ids, k := answer.value, 0;
      while k < |ids|
        invariant k <= |ids| && Bound(ids, k, rows) <= |rows|
        invariant ResolvedUpTo(rows, repo.rows, scope, audit.active, from, to, Bound(ids, k, rows))
        invariant resolved == StaleCount(rows[..Bound(ids, k, rows)], scope, audit.active, from, to)
      {
        var id := ids[k];
        ResolveStep(rows, repo.rows, scope, audit.active, from, to, ids, k);
        var row := repo.rows[id];
        if row.excType.LogException? && row.excType.family == FamilyOf(scope) && InRange(row, from, to) && row.ref !in audit.active {
          failed := audit.Call();
          var done := repo.ResolveException(id, failed);
          if !done {
            ResolvedIsPartlyResolved(rows, repo.rows, scope, audit.active, from, to, Bound(ids, k, rows));
            return false, 0;
          }
          resolved := resolved + 1;
        }
        k := k + 1;
      }
      ResolvedIsPartlyResolved(rows, repo.rows, scope, audit.active, from, to, Bound(ids, k, rows));
      assert rows[..|rows|] == rows;
      ok := true;
    }

    method GroupByKey(rows: seq<DbRecord>) returns (byKey: map<LogKey, seq<DbRecord>>)
      ensures GroupedByKey(byKey, rows)
    {
      byKey := map[];
      var i := 0;
      assert rows[..0] == [];
      while i < |rows|
        invariant i <= |rows| && GroupedByKey(byKey, rows[..i])
      {
        var row := rows[i];
        assert rows[..i + 1][..i] == rows[..i];
        if !row.removed {
          var earlier := if row.key in byKey then byKey[row.key] else [];
          byKey := byKey[row.key := earlier + [row]];
        }
        i := i + 1;
      }
      assert rows[..i] == rows;
    }

    method DecodeLogs(logs: seq<RawLog>) returns (chain: seq<ChainRecord>)
      ensures chain == OnChain(logs)
    {
      chain := [];
      var i := 0;
      assert logs[..0] == [];
      while i < |logs|
        invariant i <= |logs| && chain == OnChain(logs[..i])
      {
        assert logs[..i + 1][..i] == logs[..i];
        if !logs[i].removed && logs[i].record.Some? {
          chain := chain + [logs[i].record.value];
        }
        i := i + 1;
      }
      assert logs[..i] == logs;
    }

    /** Detection and recording; ms is what was recorded, all of it when ok. */
    method RecordAllMismatches(audit: Audit, chain: seq<ChainRecord>, rows: seq<DbRecord>, checkpoint: Option<nat>, safe: uint64)
      returns (ok: bool)
      requires audit.repo == repo && audit.scope == scope && audit.Valid() && audit.ms == []
      modifies audit, repo
      ensures audit.Recorded() && (ok ==> audit.Valid())
      ensures ok ==> Detected(audit.ms, chain, rows, checkpoint, safe)
      ensures forall m :: m in audit.ms ==> IsMismatch(m, chain, rows, checkpoint, safe)
      ensures !ok ==> exists n :: audit.fails(n)
    {
      hide GroupedByKey, CompareAll, RecordAll, Refs, Skipped, IsDuplicate, Differs;
      var byKey := GroupByKey(rows);
      ok := audit.RecordDuplicates(rows, byKey);
      if !ok {
        return;
      }
      ghost var dups := audit.ms;
      ok := audit.CompareRecords(chain, rows, byKey, checkpoint, safe);
      ghost var all := dups + CompareAll(chain, rows, checkpoint, safe);
      assert Detected(all, chain, rows, checkpoint, safe);
      DetectsExactlyTheMismatches(all, chain, rows, checkpoint, safe);
      assert forall m :: m in audit.ms ==> m in all;
    }

    /** One pass over [from, to], cut at the safe head. */
    method ReconcileRange(from: uint64, to: uint64, env: Env) returns (result: Result<Report>, ghost ms: seq<Mismatch>)
      modifies repo
      ensures RangeOutcome(env, scope, confirmationDepth, from, to, old(repo.rows), repo.rows, result, ms)
    {
      ms := [];
      if from > to || env.latest.Error? {
        return Error, ms;
      }
      var safe := SafeOrLatest(env.latest.value, confirmationDepth);
      if from > safe {
        return Ok(Report(from, to, safe, 0, 0, 0, 0, 0, 0, 0)), ms;
      }
      var eff: uint64 := if to > safe then safe else to;
      if env.checkpoint.Error? || env.logs.Error? || env.rows.Error? {
        return Error, ms;
      }
      hide Outcome;
      result, ms := AuditRange(from, eff, safe, env);
    }

    method AuditRange(from: uint64, eff: uint64, safe: uint64, env: Env) returns (result: Result<Report>, ghost ms: seq<Mismatch>)
      requires env.Readable()
      modifies repo
      ensures Outcome(env, scope, from, eff, safe, old(repo.rows), repo.rows, result, ms)
    {
      hide RecordAll, Refs, Skipped, StaleCount, ResolveStale, IsMismatch, Detected, OnChain, PartlyResolved, Outcome;
      var checkpoint, rows := env.checkpoint.value, env.rows.value;
      var chain := DecodeLogs(env.logs.value);
      var audit := new Audit(scope, repo, env.storeFails);
      var ok := RecordAllMismatches(audit, chain, rows, checkpoint, safe);
      ms := audit.ms;
      ghost var recorded := repo.rows;
      if !ok {
        NothingResolved(recorded, scope, Refs(scope, ms), from, eff);
        InterruptedOutcome(env, scope, from, eff, safe, old(repo.rows), repo.rows, ms);
        return Error, ms;
      }
      var resolved: nat;
      ok, resolved := ResolveFixed(audit, from, eff);
      if !ok {
        InterruptedOutcome(env, scope, from, eff, safe, old(repo.rows), repo.rows, ms);
        return Error, ms;
      }
      var report := Report(from, eff, safe, if checkpoint.Some? then checkpoint.value else 0, |chain|, |rows|,
                           audit.detected, audit.created, audit.skipped, resolved);
      CompleteOutcome(env, scope, from, eff, safe, old(repo.rows), repo.rows, report, ms);
      result := Ok(report);
    }
  }
}
