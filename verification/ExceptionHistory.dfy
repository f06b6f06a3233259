/** The exception table over its whole life: passes of all reconcilers over a frozen chain, completed or interrupted. */
module ExceptionHistory {
  import opened Evm
  import opened Words
  import opened EntityRefs
  import opened ExceptionStore
  import opened ExceptionLifecycle
  import A = TokenAudit
  import B = BalanceReconciler
  import F = FalseAlarms
  import L = LogReconciler
  import P = PayrollTables
  import T = TokenStream
  import W = PayrollWorkers

  // ---- The frozen logs -------------------------------------------------------------------------------------------

  /** A funding, claim or transfer log of the chain. */
  datatype Entry = Entry(chain: int, key: LogKey, family: Family, block: nat)

  predicate UniqueEntries(entries: seq<Entry>) {
    forall i, j :: 0 <= i < j < |entries| ==> entries[i].chain != entries[j].chain || entries[i].key != entries[j].key
  }

  function Lookup(entries: seq<Entry>, chain: int, key: LogKey): Option<(Family, nat)> {
    if entries == [] then None
    else if entries[0].chain == chain && entries[0].key == key then Some((entries[0].family, entries[0].block))
    else Lookup(entries[1..], chain, key)
  }

  function CatalogOf(entries: seq<Entry>): Catalog {
    (chain: int, key: LogKey) => Lookup(entries, chain, key)
  }

  lemma {:induction false} LookupFinds(entries: seq<Entry>, e: Entry)
    requires UniqueEntries(entries) && e in entries
    ensures Lookup(entries, e.chain, e.key) == Some((e.family, e.block))
  {
    var (first, rest) := (entries[0], entries[1..]);
    if e != first {
      assert e in rest;
      var i :| 0 <= i < |entries| && entries[i] == e;
      assert first.chain != e.chain || first.key != e.key;
      LookupFinds(rest, e);
    }
  }

  /** Every log the node answers is one of the frozen logs. */
  ghost predicate Recorded(scope: Scope, chain: seq<L.ChainRecord>, entries: seq<Entry>) {
    forall rec :: rec in chain ==> Entry(scope.chain, rec.key, FamilyOf(scope), rec.block) in entries
  }

  /** The answers to the three queries consist of frozen logs. */
  lemma FundingAnswersAreRecorded(logs: seq<P.Log>, lo: int, hi: int, chain: int, entries: seq<Entry>)
    requires forall l :: l in logs && W.IsFunding(l) ==> Entry(chain, l.key, FundingFamily, l.block) in entries
    ensures Recorded(Fundings(chain), L.OnChain(L.Answer(P.InRange(logs, lo, hi), F.FundingLog)), entries)
  {
    P.InRangeMembers(logs, lo, hi);
    forall rec | rec in L.OnChain(L.Answer(P.InRange(logs, lo, hi), F.FundingLog))
      ensures Entry(chain, rec.key, FundingFamily, rec.block) in entries
    {
      var log := L.AnswerMembers(P.InRange(logs, lo, hi), F.FundingLog, rec);
    }
  }

  lemma ClaimAnswersAreRecorded(logs: seq<P.Log>, lo: int, hi: int, chain: int, entries: seq<Entry>)
    requires forall l :: l in logs && W.IsClaim(l) ==> Entry(chain, l.key, ClaimFamily, l.block) in entries
    ensures Recorded(Claims(chain), L.OnChain(L.Answer(P.InRange(logs, lo, hi), F.ClaimLog)), entries)
  {
    P.InRangeMembers(logs, lo, hi);
    forall rec | rec in L.OnChain(L.Answer(P.InRange(logs, lo, hi), F.ClaimLog))
      ensures Entry(chain, rec.key, ClaimFamily, rec.block) in entries
    {
      var log := L.AnswerMembers(P.InRange(logs, lo, hi), F.ClaimLog, rec);
    }
  }

  lemma TransferAnswersAreRecorded(logs: seq<T.TokenLog>, lo: int, hi: int, chain: int, token: Address, entries: seq<Entry>)
    requires forall l :: l in logs && T.IsTransfer(l) ==> Entry(chain, l.key, TransferFamily, l.block) in entries
    ensures Recorded(Transfers(chain, token), L.OnChain(L.Answer(T.Window(logs, lo, hi), A.TransferLog)), entries)
  {
    T.WindowMembers(logs, lo, hi);
    forall rec | rec in L.OnChain(L.Answer(T.Window(logs, lo, hi), A.TransferLog))
      ensures Entry(chain, rec.key, TransferFamily, rec.block) in entries
    {
      var log := L.AnswerMembers(T.Window(logs, lo, hi), A.TransferLog, rec);
    }
  }

  /** The first row of every duplicated key has the block its log has on the chain. */
  ghost predicate DuplicatesKeepTheirBlock(scope: Scope, rows: seq<L.DbRecord>, entries: seq<Entry>) {
    forall key: LogKey :: |L.RowsOf(rows, key)| > 1 ==>
      Lookup(entries, scope.chain, key) == Some((FamilyOf(scope), L.RowsOf(rows, key)[0].block))
  }

  /** What a pass detects carries on-chain blocks exactly when the duplicated keys do: all other mismatches come from a log. */
  lemma CanonicalExactlyWhen(scope: Scope, ms: seq<Mismatch>, chain: seq<L.ChainRecord>, rows: seq<L.DbRecord>,
                             checkpoint: Option<nat>, safe: nat, entries: seq<Entry>)
    requires L.Detected(ms, chain, rows, checkpoint, safe) && UniqueEntries(entries) && Recorded(scope, chain, entries)
    ensures CanonicalMismatches(scope, ms, CatalogOf(entries)) <==> DuplicatesKeepTheirBlock(scope, rows, entries)
  {
    hide L.RowsOf, L.Detected, Lookup, UniqueEntries;
    L.DetectsExactlyTheMismatches(ms, chain, rows, checkpoint, safe);
    if CanonicalMismatches(scope, ms, CatalogOf(entries)) {
      forall key: LogKey | |L.RowsOf(rows, key)| > 1
        ensures Lookup(entries, scope.chain, key) == Some((FamilyOf(scope), L.RowsOf(rows, key)[0].block))
      {
        var m := Mismatch(Duplicate, key, L.RowsOf(rows, key)[0].block);
        assert L.IsDuplicate(m, rows);
        assert m in ms;
      }
    }
    if DuplicatesKeepTheirBlock(scope, rows, entries) {
      forall m | m in ms
        ensures CatalogOf(entries)(scope.chain, m.key) == Some((FamilyOf(scope), m.block))
      {
        MismatchKeepsItsBlock(scope, m, chain, rows, checkpoint, safe, entries);
      }
    }
  }

  lemma MismatchKeepsItsBlock(scope: Scope, m: Mismatch, chain: seq<L.ChainRecord>, rows: seq<L.DbRecord>,
                              checkpoint: Option<nat>, safe: nat, entries: seq<Entry>)
    requires L.IsMismatch(m, chain, rows, checkpoint, safe) && UniqueEntries(entries) && Recorded(scope, chain, entries)
    requires DuplicatesKeepTheirBlock(scope, rows, entries)
    ensures Lookup(entries, scope.chain, m.key) == Some((FamilyOf(scope), m.block))
  {
    hide L.RowsOf, Lookup, UniqueEntries;
    if !L.IsDuplicate(m, rows) {
      var rec :| rec in chain && L.Differs(rec, m, L.RowsOf(rows, m.key), checkpoint, safe);
      LookupFinds(entries, Entry(scope.chain, rec.key, FamilyOf(scope), rec.block));
    }
  }

  // ---- Histories ---------------------------------------------------------------------------------------------------

  /** A pass of a log reconciler, completed or interrupted, that detected mismatches at their on-chain blocks. */
  ghost predicate LogStep(before: seq<Exc>, after: seq<Exc>, catalog: Catalog) {
    exists scope: Scope, ms: seq<Mismatch>, from: nat, to: nat ::
      L.Interrupted(before, after, scope, ms, from, to) && CanonicalMismatches(scope, ms, catalog)
  }

  /** A pass of the balance reconciler, completed or interrupted. */
  ghost predicate BalanceStep(before: seq<Exc>, after: seq<Exc>) {
    exists checks: seq<B.Check> :: B.Touched(before, after, checks) && forall i :: 0 <= i < |checks| ==> B.IsBalanceCheck(checks[i])
  }

  /** The table after each pass, from the empty one on. */
  ghost predicate IsHistory(tables: seq<seq<Exc>>, catalog: Catalog) {
    && tables != [] && tables[0] == []
    && forall i :: 0 < i < |tables| ==> LogStep(tables[i - 1], tables[i], catalog) || BalanceStep(tables[i - 1], tables[i])
  }

  lemma CanonicalIgnoresStatus(row: Exc, catalog: Catalog)
    requires row.excType.LogException? && CanonicalRow(row, catalog)
    ensures CanonicalRow(Closed(row), catalog)
  {
    hide RefOf;
    var scope: Scope, m: Mismatch :| row.ref == RefOf(scope, m) && FamilyOf(scope) == row.excType.family
      && catalog(scope.chain, m.key) == Some((row.excType.family, m.block)) && row.block == Some(m.block);
    assert Closed(row).ref == RefOf(scope, m);
  }

  lemma CreatedIsCanonical(scope: Scope, m: Mismatch, catalog: Catalog)
    requires catalog(scope.chain, m.key) == Some((FamilyOf(scope), m.block))
    ensures ExceptionOf(scope, m).excType.LogException? && CanonicalRow(ExceptionOf(scope, m), catalog)
  {
    hide RefOf;
    assert ExceptionOf(scope, m).ref == RefOf(scope, m);
  }

  lemma LogStepKeepsCanonical(before: seq<Exc>, after: seq<Exc>, catalog: Catalog)
    requires LogStep(before, after, catalog) && Canonical(before, catalog) && BalanceRefs(before)
    ensures Canonical(after, catalog) && BalanceRefs(after)
  {
    hide RefOf, Owns, InRange, CanonicalRow, Ref, ExceptionOf;
    var scope: Scope, ms: seq<Mismatch>, from: nat, to: nat :|
      L.Interrupted(before, after, scope, ms, from, to) && CanonicalMismatches(scope, ms, catalog);
    RecordAllFacts(before, scope, ms);
    var recorded := RecordAll(before, scope, ms);
    assert forall i :: 0 <= i < |before| ==> recorded[i] == recorded[..|before|][i] == before[i];
    forall i | 0 <= i < |after|
      ensures after[i].excType.LogException? ==> CanonicalRow(after[i], catalog)
      ensures !after[i].excType.LogException? ==> i < |before| && after[i].ref == before[i].ref && !before[i].excType.LogException?
    {
      if i >= |before| {
        var m := CreatedFor(before, scope, ms, i);
        CreatedIsCanonical(scope, m, catalog);
      }
      if recorded[i].excType.LogException? {
        CanonicalIgnoresStatus(recorded[i], catalog);
      }
    }
  }

  lemma BalanceStepKeepsCanonical(before: seq<Exc>, after: seq<Exc>, catalog: Catalog)
    requires BalanceStep(before, after) && Canonical(before, catalog) && BalanceRefs(before)
    ensures Canonical(after, catalog) && BalanceRefs(after)
  {
    hide CanonicalRow, Ref;
    var checks: seq<B.Check> :| B.Touched(before, after, checks) && forall i :: 0 <= i < |checks| ==> B.IsBalanceCheck(checks[i]);
    forall i | 0 <= i < |after|
      ensures after[i].excType.LogException? ==> CanonicalRow(after[i], catalog)
      ensures !after[i].excType.LogException? ==> exists e: Entity :: !e.PayrollLog? && !e.TransferLog? && after[i].ref == Ref(e)
    {
      if i < |before| {
        if before[i].excType.LogException? {
          CanonicalIgnoresStatus(before[i], catalog);
        }
        assert after[i].ref == before[i].ref;
      } else {
        var k :| 0 <= k < |checks| && B.IsFor(checks[k], after[i]);
        assert after[i].ref == Ref(checks[k].entity);
      }
    }
  }

  /** Every table of every history carries the blocks of the chain. */
  lemma {:induction false} HistoryIsCanonical(tables: seq<seq<Exc>>, catalog: Catalog)
    requires IsHistory(tables, catalog)
    ensures Canonical(tables[|tables| - 1], catalog) && BalanceRefs(tables[|tables| - 1])
  {
    hide LogStep, BalanceStep, Canonical, BalanceRefs;
    if |tables| == 1 {
      EmptyIsCanonical(catalog);
    } else {
      var init := tables[..|tables| - 1];
      HistoryIsCanonical(init, catalog);
      var (before, after) := (init[|init| - 1], tables[|tables| - 1]);
      if LogStep(before, after, catalog) {
        LogStepKeepsCanonical(before, after, catalog);
      } else {
        BalanceStepKeepsCanonical(before, after, catalog);
      }
    }
  }

  lemma EmptyIsCanonical(catalog: Catalog)
    ensures Canonical([], catalog) && BalanceRefs([])
  {
  }

  // ---- Main results ------------------------------------------------------------------------------------------------

  /** Every pass of a log reconciler over the frozen chain, completed or interrupted, continues the history. */
  lemma LogPassContinues(tables: seq<seq<Exc>>, entries: seq<Entry>, env: L.Env, scope: Scope, from: uint64, eff: uint64, safe: uint64,
                         after: seq<Exc>, result: Result<L.Report>, ms: seq<Mismatch>)
    requires UniqueEntries(entries) && IsHistory(tables, CatalogOf(entries)) && env.Readable()
    requires L.Outcome(env, scope, from, eff, safe, tables[|tables| - 1], after, result, ms)
    requires Recorded(scope, L.OnChain(env.logs.value), entries) && DuplicatesKeepTheirBlock(scope, env.rows.value, entries)
    ensures IsHistory(tables + [after], CatalogOf(entries)) && CanonicalMismatches(scope, ms, CatalogOf(entries))
  {
    hide L.IsMismatch, L.Detected, RecordAll, Refs, Lookup, UniqueEntries, StaleCount, Skipped, L.OnChain;
    var (chain, rows, checkpoint) := (L.OnChain(env.logs.value), env.rows.value, env.checkpoint.value);
    forall m | m in ms
      ensures CatalogOf(entries)(scope.chain, m.key) == Some((FamilyOf(scope), m.block))
    {
      MismatchKeepsItsBlock(scope, m, chain, rows, checkpoint, safe, entries);
    }
    var before := tables[|tables| - 1];
    assert L.Interrupted(before, after, scope, ms, from, eff);
    assert LogStep(before, after, CatalogOf(entries));
    OneMoreTable(tables, after, CatalogOf(entries));
  }

  lemma OneMoreTable(tables: seq<seq<Exc>>, after: seq<Exc>, catalog: Catalog)
    requires IsHistory(tables, catalog)
    requires LogStep(tables[|tables| - 1], after, catalog) || BalanceStep(tables[|tables| - 1], after)
    ensures IsHistory(tables + [after], catalog)
  {
    hide LogStep, BalanceStep;
    var all := tables + [after];
    forall i | 0 < i < |all|
      ensures LogStep(all[i - 1], all[i], catalog) || BalanceStep(all[i - 1], all[i])
    {
      assert all[i - 1] == tables[i - 1];
    }
  }

  /** Every pass of the balance reconciler continues the history, whatever fails in it. */
  lemma BalancePassContinues(tables: seq<seq<Exc>>, catalog: Catalog, after: seq<Exc>, checks: seq<B.Check>)
    requires IsHistory(tables, catalog) && B.Progress(tables[|tables| - 1], after, checks)
    ensures IsHistory(tables + [after], catalog)
  {
    hide LogStep;
    assert BalanceStep(tables[|tables| - 1], after);
    OneMoreTable(tables, after, catalog);
  }

  /** Exactness without assumptions about the table: after any history of passes over a frozen chain, a completed pass leaves
      open in its range exactly the references of the mismatches, provided duplicated rows keep their on-chain block. */
  lemma ExactAfterEveryHistory(tables: seq<seq<Exc>>, entries: seq<Entry>, env: L.Env, scope: Scope, from: uint64, eff: uint64,
                               safe: uint64, after: seq<Exc>, report: L.Report, ms: seq<Mismatch>)
    requires UniqueEntries(entries) && IsHistory(tables, CatalogOf(entries)) && env.Readable()
    requires L.Outcome(env, scope, from, eff, safe, tables[|tables| - 1], after, Ok(report), ms)
    requires eff < TWO_TO_53 && L.BlocksWithin(L.OnChain(env.logs.value), env.rows.value, from, eff)
    requires Recorded(scope, L.OnChain(env.logs.value), entries) && DuplicatesKeepTheirBlock(scope, env.rows.value, entries)
    ensures forall ref :: OpenInRange(after, scope, from, eff, ref) <==> exists m :: L.Wrong(env, safe, m) && ref == RefOf(scope, m)
  {
    hide RefOf, OpenInRange, L.IsMismatch, L.Detected, Pass, L.OnChain, L.BlocksWithin, RecordAll, StaleCount, Skipped, L.Interrupted;
    hide Lookup, UniqueEntries, Canonical, BalanceRefs, DuplicatesKeepTheirBlock, Recorded, LogStep, BalanceStep;
    var (chain, rows, checkpoint) := (L.OnChain(env.logs.value), env.rows.value, env.checkpoint.value);
    L.DetectsExactlyTheMismatches(ms, chain, rows, checkpoint, safe);
    forall m | m in ms
      ensures from <= m.block <= eff
    {
      L.MismatchIsWithin(m, chain, rows, checkpoint, safe, from, eff);
    }
    HistoryIsCanonical(tables, CatalogOf(entries));
    CanonicalExactlyWhen(scope, ms, chain, rows, checkpoint, safe, entries);
    PassIsExact(tables[|tables| - 1], scope, ms, from, eff, CatalogOf(entries));
    assert forall ref :: ref in Refs(scope, ms) <==> exists m :: L.Wrong(env, safe, m) && ref == RefOf(scope, m);
  }

  // ---- The frozen logs of the contracts ----------------------------------------------------------------------------

  /** The fundings and claims among the payroll logs. */
  function PayrollEntries(logs: seq<P.Log>, chain: int): seq<Entry> {
    if logs == [] then []
    else
      (if W.IsFunding(logs[0]) then [Entry(chain, logs[0].key, FundingFamily, logs[0].block)]
       else if W.IsClaim(logs[0]) then [Entry(chain, logs[0].key, ClaimFamily, logs[0].block)]
       else [])
      + PayrollEntries(logs[1..], chain)
  }

  function TransferEntries(logs: seq<T.TokenLog>, chain: int): seq<Entry> {
    if logs == [] then []
    else
      (if T.IsTransfer(logs[0]) then [Entry(chain, logs[0].key, TransferFamily, logs[0].block)] else [])
      + TransferEntries(logs[1..], chain)
  }

  lemma {:induction false} PayrollEntriesFacts(logs: seq<P.Log>, chain: int)
    requires W.UniqueKeys(logs)
    ensures UniqueEntries(PayrollEntries(logs, chain))
    ensures forall e :: e in PayrollEntries(logs, chain) ==> e.chain == chain && exists i :: 0 <= i < |logs| && logs[i].key == e.key
    ensures forall l :: l in logs && W.IsFunding(l) ==> Entry(chain, l.key, FundingFamily, l.block) in PayrollEntries(logs, chain)
    ensures forall l :: l in logs && W.IsClaim(l) ==> Entry(chain, l.key, ClaimFamily, l.block) in PayrollEntries(logs, chain)
  {
    if logs != [] {
      var (first, rest) := (logs[0], PayrollEntries(logs[1..], chain));
      PayrollEntriesFacts(logs[1..], chain);
      forall e | e in rest
        ensures e.key != first.key && exists i :: 0 <= i < |logs| && logs[i].key == e.key
      {
        var i :| 0 <= i < |logs[1..]| && logs[1..][i].key == e.key;
        assert logs[i + 1].key == e.key;
      }
    }
  }

  lemma {:induction false} TransferEntriesFacts(logs: seq<T.TokenLog>, chain: int)
    requires T.UniqueKeys(logs)
    ensures UniqueEntries(TransferEntries(logs, chain))
    ensures forall e :: e in TransferEntries(logs, chain) ==> e.chain == chain && exists i :: 0 <= i < |logs| && logs[i].key == e.key
    ensures forall l :: l in logs && T.IsTransfer(l) ==> Entry(chain, l.key, TransferFamily, l.block) in TransferEntries(logs, chain)
  {
    if logs != [] {
      var (first, rest) := (logs[0], TransferEntries(logs[1..], chain));
      TransferEntriesFacts(logs[1..], chain);
      forall e | e in rest
        ensures e.key != first.key && exists i :: 0 <= i < |logs| && logs[i].key == e.key
      {
        var i :| 0 <= i < |logs[1..]| && logs[1..][i].key == e.key;
        assert logs[i + 1].key == e.key;
      }
    }
  }

  lemma UniqueConcat(a: seq<Entry>, b: seq<Entry>)
    requires UniqueEntries(a) && UniqueEntries(b)
    requires forall d, e :: d in a && e in b ==> d.chain != e.chain || d.key != e.key
    ensures UniqueEntries(a + b)
  {
    var all := a + b;
    forall i, j | 0 <= i < j < |all|
      ensures all[i].chain != all[j].chain || all[i].key != all[j].key
    {
      if i < |a| <= j {
        assert all[i] in a && all[j] in b;
      }
    }
  }

  /** The two contracts of a chain never share a log, and the logs of other chains are known too. */
  ghost predicate FrozenLogs(payroll: seq<P.Log>, token: seq<T.TokenLog>, chain: int, others: seq<Entry>) {
    && W.UniqueKeys(payroll) && T.UniqueKeys(token) && UniqueEntries(others)
    && (forall i, j :: 0 <= i < |payroll| && 0 <= j < |token| ==> payroll[i].key != token[j].key)
    && (forall e :: e in others ==> e.chain != chain)
  }

  function FrozenEntries(payroll: seq<P.Log>, token: seq<T.TokenLog>, chain: int, others: seq<Entry>): seq<Entry> {
    PayrollEntries(payroll, chain) + TransferEntries(token, chain) + others
  }

  lemma FrozenEntriesAreUnique(payroll: seq<P.Log>, token: seq<T.TokenLog>, chain: int, others: seq<Entry>)
    requires FrozenLogs(payroll, token, chain, others)
    ensures UniqueEntries(FrozenEntries(payroll, token, chain, others))
  {
    hide W.UniqueKeys, T.UniqueKeys, UniqueEntries;
    PayrollEntriesFacts(payroll, chain);
    TransferEntriesFacts(token, chain);
    UniqueConcat(PayrollEntries(payroll, chain), TransferEntries(token, chain));
    UniqueConcat(PayrollEntries(payroll, chain) + TransferEntries(token, chain), others);
  }

  /** What the node answers to the query of a reconciler. */
  function LogsOf(scope: Scope, payroll: seq<P.Log>, token: seq<T.TokenLog>, from: nat, to: nat): seq<L.RawLog> {
    match scope
    case Fundings(_) => L.Answer(P.InRange(payroll, from, to), F.FundingLog)
    case Claims(_) => L.Answer(P.InRange(payroll, from, to), F.ClaimLog)
    case Transfers(_, _) => L.Answer(T.Window(token, from, to), A.TransferLog)
  }

  lemma AnswersAreRecorded(scope: Scope, payroll: seq<P.Log>, token: seq<T.TokenLog>, from: nat, to: nat, others: seq<Entry>)
    requires FrozenLogs(payroll, token, scope.chain, others)
    ensures Recorded(scope, L.OnChain(LogsOf(scope, payroll, token, from, to)), FrozenEntries(payroll, token, scope.chain, others))
  {
    hide W.UniqueKeys, T.UniqueKeys, UniqueEntries, Recorded;
    var entries := FrozenEntries(payroll, token, scope.chain, others);
    PayrollEntriesFacts(payroll, scope.chain);
    TransferEntriesFacts(token, scope.chain);
    match scope
    case Fundings(c) => FundingAnswersAreRecorded(payroll, from, to, c, entries);
    case Claims(c) => ClaimAnswersAreRecorded(payroll, from, to, c, entries);
    case Transfers(c, t) => TransferAnswersAreRecorded(token, from, to, c, t, entries);
  }

  lemma AnswersAreWithin(scope: Scope, payroll: seq<P.Log>, token: seq<T.TokenLog>, from: nat, to: nat)
    ensures forall rec :: rec in L.OnChain(LogsOf(scope, payroll, token, from, to)) ==> from <= rec.block <= to
  {
    P.InRangeMembers(payroll, from, to);
    T.WindowMembers(token, from, to);
    forall rec | rec in L.OnChain(LogsOf(scope, payroll, token, from, to))
      ensures from <= rec.block <= to
    {
      match scope
      case Fundings(_) => var log := L.AnswerMembers(P.InRange(payroll, from, to), F.FundingLog, rec);
      case Claims(_) => var log := L.AnswerMembers(P.InRange(payroll, from, to), F.ClaimLog, rec);
      case Transfers(_, _) => var log := L.AnswerMembers(T.Window(token, from, to), A.TransferLog, rec);
    }
  }

  /** A table with one row per key has no duplicates. */
  lemma DistinctRowsKeepTheirBlock(scope: Scope, rows: seq<L.DbRecord>, entries: seq<Entry>)
    requires L.DistinctKeys(rows)
    ensures DuplicatesKeepTheirBlock(scope, rows, entries)
  {
    hide L.DistinctKeys, L.RowsOf, Lookup;
    forall key: LogKey
      ensures |L.RowsOf(rows, key)| <= 1
    {
      L.DistinctKeysHaveOneRow(rows, key);
    }
  }

  /** Exactness over the frozen payroll and token logs: after any history of passes, a completed pass of any log reconciler,
      over whatever its table holds in the range, one row per key, leaves open in the range exactly the mismatches. */
  lemma ExactOverFrozenLogs(tables: seq<seq<Exc>>, payroll: seq<P.Log>, token: seq<T.TokenLog>, others: seq<Entry>, env: L.Env,
                            scope: Scope, from: uint64, eff: uint64, safe: uint64, after: seq<Exc>, report: L.Report, ms: seq<Mismatch>)
    requires FrozenLogs(payroll, token, scope.chain, others) && env.Readable()
    requires IsHistory(tables, CatalogOf(FrozenEntries(payroll, token, scope.chain, others)))
    requires env.logs.value == LogsOf(scope, payroll, token, from, eff) && eff < TWO_TO_53
    requires L.DistinctKeys(env.rows.value) && forall row :: row in env.rows.value ==> from <= row.block <= eff
    requires L.Outcome(env, scope, from, eff, safe, tables[|tables| - 1], after, Ok(report), ms)
    ensures forall ref :: OpenInRange(after, scope, from, eff, ref) <==> exists m :: L.Wrong(env, safe, m) && ref == RefOf(scope, m)
  {
    hide FrozenLogs, FrozenEntries, LogsOf, L.OnChain, L.Outcome, IsHistory, OpenInRange, L.Wrong, RefOf, UniqueEntries, Recorded;
    hide DuplicatesKeepTheirBlock;
    var entries := FrozenEntries(payroll, token, scope.chain, others);
    FrozenEntriesAreUnique(payroll, token, scope.chain, others);
    AnswersAreRecorded(scope, payroll, token, from, eff, others);
    AnswersAreWithin(scope, payroll, token, from, eff);
    DistinctRowsKeepTheirBlock(scope, env.rows.value, entries);
    ExactAfterEveryHistory(tables, entries, env, scope, from, eff, safe, after, report, ms);
  }
}
