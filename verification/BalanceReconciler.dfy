/** The audit of token balances, of the contract's balance and of the contract's employer and employee states at one
    block (reconciliation/balance_worker.go). */
module BalanceReconciler {
  import opened Evm
  import opened Words
  import opened EntityRefs
  import opened ExceptionStore
  import L = Ledger

  // ---- The audited block ---------------------------------------------------------------------------------------

  /** None when nothing can be audited yet. A token stream without a checkpoint counts as indexed up to its start block. */
  function TargetBlock(latest: uint64, depth: uint64, checkpoint: Option<uint64>, startBlock: uint64, requested: uint64): Option<uint64> {
    if latest < depth then None
    else
      var safe := latest - depth;
      var indexed := if checkpoint.Some? then checkpoint.value else startBlock;
      var wanted := if requested > 0 && requested < safe then requested else safe;
      var target := if wanted > indexed then indexed else wanted;
      if target < startBlock then None else Some(target)
  }

  /** The audited block is the highest one that is requested, final and indexed, from the start block on; only without a
      checkpoint is it a block that nobody has indexed, the start block itself. */
  lemma TargetIsHighestAllowed(latest: uint64, depth: uint64, checkpoint: Option<uint64>, startBlock: uint64, requested: uint64)
    ensures var t := TargetBlock(latest, depth, checkpoint, startBlock, requested);
            && (t.Some? ==> Auditable(t.value, latest, depth, checkpoint, startBlock, requested))
            && (forall b: uint64 :: Auditable(b, latest, depth, checkpoint, startBlock, requested) ==> t.Some? && b <= t.value)
            && (t.Some? && checkpoint.None? ==> t.value == startBlock)
  {
  }

  ghost predicate Auditable(b: uint64, latest: uint64, depth: uint64, checkpoint: Option<uint64>, startBlock: uint64, requested: uint64) {
    && startBlock <= b && b + depth <= latest
    && (requested > 0 ==> b <= requested)
    && b <= if checkpoint.Some? then checkpoint.value else startBlock
  }

  // ---- Checks ----------------------------------------------------------------------------------------------------

  /** One comparison: what it is about, how its exception is typed, and whether both sides agree. */
  datatype Check = Check(entity: Entity, excType: ExcType, matches: bool)

  /** The reconciler checks balances and states, and types its exceptions accordingly. */
  predicate IsBalanceCheck(c: Check) {
    !c.excType.LogException? && !c.entity.PayrollLog? && !c.entity.TransferLog?
  }

  /** The newest open exception with a reference, or the length of the table. */
  function Newest(rows: seq<Exc>, ref: string): nat {
    if rows == [] then 0
    else if rows[|rows| - 1].open && rows[|rows| - 1].ref == ref then |rows| - 1
    else
      var i := Newest(rows[..|rows| - 1], ref);
      if i == |rows| - 1 then |rows| else i
  }

  lemma {:induction false} NewestFacts(rows: seq<Exc>, ref: string)
    ensures var i := Newest(rows, ref);
            && i <= |rows|
            && (i < |rows| ==> rows[i].open && rows[i].ref == ref)
            && (forall j :: i < j < |rows| ==> !(rows[j].open && rows[j].ref == ref))
            && (i == |rows| <==> !IsOpen(rows, ref))
  {
    if rows != [] {
      var init := rows[..|rows| - 1];
      NewestFacts(init, ref);
      var last := rows[|rows| - 1];
      if last.open && last.ref == ref {
        assert IsOpen(rows, ref);
      } else if IsOpen(init, ref) {
        var k :| 0 <= k < |init| && init[k].open && init[k].ref == ref;
        assert rows[k].open && rows[k].ref == ref;
      } else {
        assert forall k :: 0 <= k < |init| ==> init[k] == rows[k];
      }
    }
  }

  function Record(rows: seq<Exc>, c: Check): seq<Exc> {
    if Newest(rows, Ref(c.entity)) < |rows| then rows else rows + [Exc(c.excType, Ref(c.entity), None, true)]
  }

  function ResolveNewest(rows: seq<Exc>, ref: string): seq<Exc> {
    var i := Newest(rows, ref);
    if i < |rows| then rows[i := Closed(rows[i])] else rows
  }

  /** What a check does when no call to the exception table fails. */
  function Apply(rows: seq<Exc>, c: Check): seq<Exc> {
    if c.matches then ResolveNewest(rows, Ref(c.entity)) else Record(rows, c)
  }

  function ApplyAll(rows: seq<Exc>, checks: seq<Check>): seq<Exc> {
    if checks == [] then rows else Apply(ApplyAll(rows, checks[..|checks| - 1]), checks[|checks| - 1])
  }

  /** The matching checks that found an open exception. */
  function ResolvedCount(rows: seq<Exc>, checks: seq<Check>): nat {
    if checks == [] then 0
    else
      var (init, last) := (checks[..|checks| - 1], checks[|checks| - 1]);
      var now := ApplyAll(rows, init);
      ResolvedCount(rows, init) + if last.matches && Newest(now, Ref(last.entity)) < |now| then 1 else 0
  }

  /** The checks whose sides agree. */
  function Agreeing(checks: seq<Check>): nat {
    if checks == [] then 0 else Agreeing(checks[..|checks| - 1]) + if checks[|checks| - 1].matches then 1 else 0
  }

  predicate DistinctEntities(checks: seq<Check>) {
    forall i, j :: 0 <= i < j < |checks| ==> checks[i].entity != checks[j].entity
  }

  ghost predicate IsAbout(checks: seq<Check>, ref: string) {
    exists i :: 0 <= i < |checks| && Ref(checks[i].entity) == ref
  }

  /** Two open exceptions share the reference. */
  ghost predicate Doubled(rows: seq<Exc>, ref: string) {
    exists i, j :: 0 <= i < j < |rows| && BothOpen(rows[i], rows[j], ref)
  }

  predicate BothOpen(a: Exc, b: Exc, ref: string) {
    a.open && b.open && a.ref == b.ref == ref
  }

  lemma UniqueMeansNotDoubled(rows: seq<Exc>)
    ensures UniqueOpen(rows) <==> forall ref :: !Doubled(rows, ref)
  {
    if forall ref :: !Doubled(rows, ref) {
      forall i, j | 0 <= i < j < |rows| && rows[i].open && rows[j].open
        ensures rows[i].ref != rows[j].ref
      {
        assert !Doubled(rows, rows[i].ref);
        assert !BothOpen(rows[i], rows[j], rows[i].ref);
      }
    }
  }

  /** A row without this reference neither opens nor doubles it. */
  lemma OtherRowsDoNotMatter(rows: seq<Exc>, after: seq<Exc>, ref: string)
    requires |rows| <= |after| && forall i :: 0 <= i < |rows| ==> rows[i] == after[i] || (rows[i].ref != ref && after[i].ref != ref)
    requires forall i :: |rows| <= i < |after| ==> after[i].ref != ref
    ensures IsOpen(after, ref) <==> IsOpen(rows, ref)
    ensures Doubled(after, ref) <==> Doubled(rows, ref)
  {
    if IsOpen(rows, ref) {
      var i :| 0 <= i < |rows| && rows[i].open && rows[i].ref == ref;
      assert after[i] == rows[i];
    }
    if Doubled(rows, ref) {
      var i, j :| 0 <= i < j < |rows| && BothOpen(rows[i], rows[j], ref);
      assert BothOpen(after[i], after[j], ref);
    }
    if Doubled(after, ref) {
      var i, j :| 0 <= i < j < |after| && BothOpen(after[i], after[j], ref);
      assert BothOpen(rows[i], rows[j], ref);
    }
  }

  /** One check changes its own reference only; a matching one leaves it open exactly when it was open twice. */
  lemma ApplyFacts(rows: seq<Exc>, c: Check)
    ensures IsOpen(Apply(rows, c), Ref(c.entity)) <==> !c.matches || Doubled(rows, Ref(c.entity))
    ensures forall ref :: ref != Ref(c.entity) ==>
              (IsOpen(Apply(rows, c), ref) <==> IsOpen(rows, ref)) && (Doubled(Apply(rows, c), ref) <==> Doubled(rows, ref))
    ensures UniqueOpen(rows) ==> UniqueOpen(Apply(rows, c))
  {
    hide Ref, Newest;
    var ref := Ref(c.entity);
    NewestFacts(rows, ref);
    var after := Apply(rows, c);
    var i := Newest(rows, ref);
    if c.matches {
      if IsOpen(after, ref) {
        var k :| 0 <= k < |after| && after[k].open && after[k].ref == ref;
        assert BothOpen(rows[k], rows[i], ref);
      }
      if Doubled(rows, ref) {
        var k, l :| 0 <= k < l < |rows| && BothOpen(rows[k], rows[l], ref);
        assert after[k] == rows[k];
      }
    } else if i == |rows| {
      assert after[|rows|].open && after[|rows|].ref == ref;
    }
    forall other | other != ref
      ensures (IsOpen(after, other) <==> IsOpen(rows, other)) && (Doubled(after, other) <==> Doubled(rows, other))
    {
      OtherRowsDoNotMatter(rows, after, other);
    }
  }

  /** What a pass without errors of the exception table does to any table: a checked reference is open afterwards exactly
      when its two sides differ or it was open twice before, and no other reference changes. */
  lemma {:induction false} AuditFacts(rows: seq<Exc>, checks: seq<Check>)
    requires DistinctEntities(checks)
    ensures forall i :: 0 <= i < |checks| ==>
              (IsOpen(ApplyAll(rows, checks), Ref(checks[i].entity)) <==> !checks[i].matches || Doubled(rows, Ref(checks[i].entity)))
    ensures forall ref :: !IsAbout(checks, ref) ==>
              && (IsOpen(ApplyAll(rows, checks), ref) <==> IsOpen(rows, ref))
              && (Doubled(ApplyAll(rows, checks), ref) <==> Doubled(rows, ref))
    ensures UniqueOpen(rows) ==> UniqueOpen(ApplyAll(rows, checks))
  {
    hide Ref, Apply, UniqueOpen, IsOpen, Doubled;
    if checks != [] {
      var (init, last) := (checks[..|checks| - 1], checks[|checks| - 1]);
      AuditFacts(rows, init);
      var before := ApplyAll(rows, init);
      ApplyFacts(before, last);
      assert forall i :: 0 <= i < |init| ==> init[i] == checks[i];
      forall i | 0 <= i < |init|
        ensures Ref(checks[i].entity) != Ref(last.entity)
      {
        if Ref(checks[i].entity) == Ref(last.entity) {
          RefInjective(checks[i].entity, last.entity);
        }
      }
      assert !IsAbout(init, Ref(last.entity));
      forall ref | !IsAbout(checks, ref)
        ensures !IsAbout(init, ref) && ref != Ref(last.entity)
      {
        assert forall i :: 0 <= i < |init| ==> init[i] == checks[i];
      }
    }
  }

  /** Each checked entity has an open exception exactly when its two sides differ. */
  ghost predicate ExactFor(rows: seq<Exc>, checks: seq<Check>) {
    forall i :: 0 <= i < |checks| ==> (IsOpen(rows, Ref(checks[i].entity)) <==> !checks[i].matches)
  }

  /** No entity whose two sides agree was open twice. */
  ghost predicate MatchesNotDoubled(rows: seq<Exc>, checks: seq<Check>) {
    forall i :: 0 <= i < |checks| && checks[i].matches ==> !Doubled(rows, Ref(checks[i].entity))
  }

  /** Exactness for any table: only the newest open exception of a reference is resolved, so a pass leaves exactly the right
      references open if and only if no entity whose sides agree was open twice. */
  lemma AuditIsExactExactlyWhen(rows: seq<Exc>, checks: seq<Check>)
    requires DistinctEntities(checks)
    ensures ExactFor(ApplyAll(rows, checks), checks) <==> MatchesNotDoubled(rows, checks)
  {
    hide Ref, IsOpen, Doubled, ApplyAll;
    AuditFacts(rows, checks);
  }

  /** In particular after every pass over a table with at most one open exception per reference. */
  lemma AuditIsExact(rows: seq<Exc>, checks: seq<Check>)
    requires UniqueOpen(rows) && DistinctEntities(checks)
    ensures ExactFor(ApplyAll(rows, checks), checks) && UniqueOpen(ApplyAll(rows, checks))
  {
    hide Ref, IsOpen, Doubled, ApplyAll, UniqueOpen;
    UniqueMeansNotDoubled(rows);
    AuditFacts(rows, checks);
    AuditIsExactExactlyWhen(rows, checks);
  }

  // ---- Passes with errors --------------------------------------------------------------------------------------

  /** The row was created for one of the checks whose sides differ. */
  ghost predicate MadeBy(checks: seq<Check>, row: Exc) {
    exists i :: 0 <= i < |checks| && IsFor(checks[i], row)
  }

  predicate IsFor(c: Check, row: Exc) {
    !c.matches && row.ref == Ref(c.entity) && row.excType == c.excType
  }

  /** One of the checks found that the two sides of the reference agree. */
  ghost predicate IsAgreed(checks: seq<Check>, ref: string) {
    exists i :: 0 <= i < |checks| && Agrees(checks[i], ref)
  }

  predicate Agrees(c: Check, ref: string) {
    c.matches && Ref(c.entity) == ref
  }

  /** Row by row: an old row was closed at most, after its sides agreed, and every new row was created for sides that differ. */
  ghost predicate Touched(before: seq<Exc>, now: seq<Exc>, checks: seq<Check>) {
    && |before| <= |now|
    && (forall i :: 0 <= i < |before| ==> now[i] == before[i] || (IsAgreed(checks, before[i].ref) && now[i] == Closed(before[i])))
    && (forall i :: |before| <= i < |now| ==> MadeBy(checks, now[i]))
  }

  /** What one check may do to the table. */
  ghost predicate TouchedOnce(now: seq<Exc>, next: seq<Exc>, c: Check) {
    || next == now
    || (!c.matches && next == now + [Exc(c.excType, Ref(c.entity), None, true)])
    || (c.matches && exists i :: 0 <= i < |now| && now[i].ref == Ref(c.entity) && next == now[i := Closed(now[i])])
  }

  lemma AgreedIsAbout(checks: seq<Check>, ref: string)
    requires IsAgreed(checks, ref)
    ensures IsAbout(checks, ref)
  {
  }

  lemma TouchedOneMore(before: seq<Exc>, now: seq<Exc>, done: seq<Check>, c: Check, next: seq<Exc>)
    requires Touched(before, now, done) && TouchedOnce(now, next, c)
    ensures Touched(before, next, done + [c])
  {
    hide Ref;
    var all := done + [c];
    assert all[|done|] == c;
    assert forall i :: 0 <= i < |done| ==> all[i] == done[i];
    forall ref | IsAgreed(done, ref) || Agrees(c, ref)
      ensures IsAgreed(all, ref)
    {
      if IsAgreed(done, ref) {
        var i :| 0 <= i < |done| && Agrees(done[i], ref);
        assert Agrees(all[i], ref);
      } else {
        assert Agrees(all[|done|], ref);
      }
    }
    forall row | MadeBy(done, row) || IsFor(c, row)
      ensures MadeBy(all, row) && MadeBy(all, Closed(row))
    {
      if MadeBy(done, row) {
        var i :| 0 <= i < |done| && IsFor(done[i], row);
        assert IsFor(all[i], row) && IsFor(all[i], Closed(row));
      } else {
        assert IsFor(all[|done|], row) && IsFor(all[|done|], Closed(row));
      }
    }
  }

  /** A whole pass without errors touches only what it checks. */
  lemma {:induction false} PassTouches(rows: seq<Exc>, checks: seq<Check>)
    ensures Touched(rows, ApplyAll(rows, checks), checks)
  {
    hide Ref, Newest, Touched;
    if checks == [] {
      NothingTouched(rows);
    } else {
      var (init, last) := (checks[..|checks| - 1], checks[|checks| - 1]);
      PassTouches(rows, init);
      NewestFacts(ApplyAll(rows, init), Ref(last.entity));
      TouchedOneMore(rows, ApplyAll(rows, init), init, last, ApplyAll(rows, checks));
      assert checks == init + [last];
    }
  }

  lemma NothingTouched(rows: seq<Exc>)
    ensures Touched(rows, rows, [])
  {
  }

  /** What a pass guarantees whatever fails: it changes only references it is about, never opens one twice, and once a
      mismatch has been handled its exception is open. An error can leave an exception open, never hide a mismatch. */
  ghost predicate Progress(before: seq<Exc>, now: seq<Exc>, done: seq<Check>) {
    && Touched(before, now, done)
    && (forall i :: 0 <= i < |done| ==> IsBalanceCheck(done[i]))
    && (UniqueOpen(before) ==> UniqueOpen(now))
    && (forall i :: 0 <= i < |done| && !done[i].matches ==> IsOpen(now, Ref(done[i].entity)))
    && (forall ref :: !IsAbout(done, ref) ==> (IsOpen(now, ref) <==> IsOpen(before, ref)))
  }

  lemma NoProgress(rows: seq<Exc>)
    ensures Progress(rows, rows, [])
  {
  }

  /** The table after the next check: opened when it mismatches, possibly left open when it matches, the rest unchanged. */
  lemma ProgressOneMore(before: seq<Exc>, now: seq<Exc>, done: seq<Check>, c: Check, next: seq<Exc>)
    requires Progress(before, now, done) && DistinctEntities(done + [c]) && TouchedOnce(now, next, c) && IsBalanceCheck(c)
    requires UniqueOpen(now) ==> UniqueOpen(next)
    requires !c.matches ==> IsOpen(next, Ref(c.entity))
    requires forall ref :: ref != Ref(c.entity) ==> (IsOpen(next, ref) <==> IsOpen(now, ref))
    ensures Progress(before, next, done + [c])
  {
    hide Ref, UniqueOpen, IsOpen, Touched;
    TouchedOneMore(before, now, done, c, next);
    var all := done + [c];
    forall i | 0 <= i < |all| && !all[i].matches
      ensures IsOpen(next, Ref(all[i].entity))
    {
      if i < |done| {
        assert all[i] == done[i] && all[|done|] == c;
        if Ref(done[i].entity) == Ref(c.entity) {
          RefInjective(done[i].entity, c.entity);
        }
      }
    }
    forall ref | !IsAbout(all, ref)
      ensures IsOpen(next, ref) <==> IsOpen(before, ref)
    {
      assert all[|done|] == c;
      assert forall i :: 0 <= i < |done| ==> all[i] == done[i];
      assert !IsAbout(done, ref);
    }
  }

  lemma OpenAfterAppend(rows: seq<Exc>, row: Exc)
    requires row.open
    ensures forall ref :: IsOpen(rows + [row], ref) <==> IsOpen(rows, ref) || ref == row.ref
    ensures !IsOpen(rows, row.ref) && UniqueOpen(rows) ==> UniqueOpen(rows + [row])
  {
    var after := rows + [row];
    assert after[|rows|] == row;
    forall ref
      ensures IsOpen(after, ref) <==> IsOpen(rows, ref) || ref == row.ref
    {
      if IsOpen(rows, ref) {
        var j :| 0 <= j < |rows| && rows[j].open && rows[j].ref == ref;
        assert after[j] == rows[j];
      }
    }
  }

  lemma OpenAfterClosing(rows: seq<Exc>, i: nat)
    requires i < |rows| && rows[i].open
    ensures forall ref :: ref != rows[i].ref ==> (IsOpen(rows[i := Closed(rows[i])], ref) <==> IsOpen(rows, ref))
    ensures UniqueOpen(rows) ==> UniqueOpen(rows[i := Closed(rows[i])])
  {
    var after := rows[i := Closed(rows[i])];
    forall ref | ref != rows[i].ref
      ensures IsOpen(after, ref) <==> IsOpen(rows, ref)
    {
      if IsOpen(rows, ref) {
        var j :| 0 <= j < |rows| && rows[j].open && rows[j].ref == ref;
        assert after[j] == rows[j];
      }
    }
  }

  /** The newest open exception is unique in the way the query finds it. */
  lemma NewestIsFound(rows: seq<Exc>, ref: string, i: nat)
    requires i < |rows| && rows[i].open && rows[i].ref == ref
    requires forall j :: i < j < |rows| ==> !(rows[j].open && rows[j].ref == ref)
    ensures Newest(rows, ref) == i
  {
    NewestFacts(rows, ref);
    assert IsOpen(rows, ref);
  }

  /** The counters of a pass. */
  class Audit {
    const repo: ReconciliationRepository
    const fails: nat -> bool
    ghost const initial: seq<Exc>
    var calls: nat
    var matched: nat
    var detected: nat
    var created: nat
    var skipped: nat
    var resolved: nat
    ghost var done: seq<Check>
    ghost var clean: bool

    constructor (repo: ReconciliationRepository, fails: nat -> bool)
      ensures this.repo == repo && this.fails == fails && initial == repo.rows && done == [] && Valid()
    {
      this.repo, this.fails, initial := repo, fails, repo.rows;
      calls, matched, detected, created, skipped, resolved, done, clean := 0, 0, 0, 0, 0, 0, [], true;
      new;
      NoProgress(repo.rows);
    }

    /** While no call has failed, the table is exactly what the checks make of it. */
    ghost predicate Valid()
      reads this, repo
    {
      && Progress(initial, repo.rows, done)
      && (clean ==> repo.rows == ApplyAll(initial, done))
      && (!clean ==> exists n :: fails(n))
      && (clean ==> resolved == ResolvedCount(initial, done))
      && matched == Agreeing(done) && matched + detected == |done|
      && detected == created + skipped && |initial| + created == |repo.rows|
    }

    method Call() returns (failed: bool)
      modifies this`calls, this`clean
      ensures clean == (old(clean) && !failed)
      ensures failed ==> exists n :: fails(n)
    {
      failed := fails(calls);
      calls := calls + 1;
      clean := clean && !failed;
    }

    /** Both sides agree: the newest open exception is resolved; errors are swallowed. */
    method Resolve(c: Check)
      requires Valid() && c.matches && IsBalanceCheck(c) && DistinctEntities(done + [c])
      modifies this, repo
      ensures Valid() && done == old(done) + [c]
    {
      hide Ref, IsOpen, UniqueOpen, Progress, ApplyAll, Newest, ResolvedCount, Agreeing;
      ghost var before, rows := done, repo.rows;
      assert (before + [c])[..|before|] == before;
      ApplyAllOneMore(initial, before, c);
      NewestFacts(rows, Ref(c.entity));
      matched := matched + 1;
      done := before + [c];
      SameIsProgress(initial, rows, before, c);
      var failed := Call();
      var existing := repo.GetOpenExceptionByEntityRef(Ref(c.entity), failed);
      if existing.Error? || existing.value.None? {
        return;
      }
      var i := existing.value.value;
      NewestIsFound(rows, Ref(c.entity), i);
      OpenAfterClosing(rows, i);
      ProgressOneMore(initial, rows, before, c, rows[i := Closed(rows[i])]);
      failed := Call();
      var ok := repo.ResolveException(i, failed);
      if ok {
        resolved := resolved + 1;
      }
    }

    /** The two sides differ: an exception is opened unless there is one. */
    method RecordMismatch(c: Check) returns (ok: bool)
      requires Valid() && !c.matches && IsBalanceCheck(c) && DistinctEntities(done + [c])
      modifies this, repo
      ensures ok ==> Valid() && done == old(done) + [c]
      ensures !ok ==> done == old(done) && Progress(initial, repo.rows, done) && exists n :: fails(n)
    {
      hide Ref, IsOpen, UniqueOpen, Progress, ApplyAll, Newest, ResolvedCount, Agreeing;
      ghost var before, rows := done, repo.rows;
      ApplyAllOneMore(initial, before, c);
      NewestFacts(rows, Ref(c.entity));
      detected := detected + 1;
      var failed := Call();
      var existing := repo.GetOpenExceptionByEntityRef(Ref(c.entity), failed);
      if existing.Error? {
        return false;
      }
      if existing.value.Some? {
        skipped := skipped + 1;
        done := before + [c];
        ProgressOneMore(initial, rows, before, c, rows);
        return true;
      }
      var row := Exc(c.excType, Ref(c.entity), None, true);
      OpenAfterAppend(rows, row);
      ProgressOneMore(initial, rows, before, c, rows + [row]);
      failed := Call();
      ok := repo.CreateException(row, failed);
      if ok {
        created := created + 1;
        done := before + [c];
      }
    }

    method Examine(c: Check) returns (ok: bool)
      requires Valid() && IsBalanceCheck(c) && DistinctEntities(done + [c])
      modifies this, repo
      ensures ok ==> Valid() && done == old(done) + [c]
      ensures !ok ==> done == old(done) && Progress(initial, repo.rows, done) && exists n :: fails(n)
    {
      if c.matches {
        Resolve(c);
        ok := true;
      } else {
        ok := RecordMismatch(c);
      }
    }
  }

  lemma ApplyAllOneMore(rows: seq<Exc>, checks: seq<Check>, c: Check)
    ensures ApplyAll(rows, checks + [c]) == Apply(ApplyAll(rows, checks), c)
    ensures Agreeing(checks + [c]) == Agreeing(checks) + if c.matches then 1 else 0
    ensures var now := ApplyAll(rows, checks);
            ResolvedCount(rows, checks + [c]) == ResolvedCount(rows, checks) + if c.matches && Newest(now, Ref(c.entity)) < |now| then 1 else 0
  {
    assert (checks + [c])[..|checks|] == checks;
  }

  lemma SameIsProgress(before: seq<Exc>, now: seq<Exc>, done: seq<Check>, c: Check)
    requires Progress(before, now, done) && c.matches && IsBalanceCheck(c) && DistinctEntities(done + [c])
    ensures Progress(before, now, done + [c])
  {
    ProgressOneMore(before, now, done, c, now);
  }

  // ---- The checks of one pass ------------------------------------------------------------------------------------

  /** states says whether employer and employee states are audited at all. */
  datatype Config = Config(chain: int, token: Address, contract: Address, depth: uint64, startBlock: uint64, states: bool)

  datatype StateRow = StateRow(wallet: Address, active: bool)

  /** What the database and the node answer about one block. */
  datatype Answers = Answers(
    addresses: Result<seq<Address>>, balances: Result<map<Address, int>>, balanceOf: Address -> Result<int>,
    contractBalance: Result<int>, contractBalanceOf: Result<int>,
    employers: Result<seq<StateRow>>, employerActive: Address -> Result<bool>,
    employees: Result<seq<StateRow>>, employeeActive: Address -> Result<bool>)

  function WalletCheck(cfg: Config, a: Answers, wallet: Address): Check
    requires a.balances.Ok?
  {
    Check(TokenBalance(cfg.chain, cfg.token, wallet), TokenBalanceMismatch,
          a.balanceOf(wallet) == Ok(L.BalanceIn(a.balances.value, wallet)))
  }

  /** The zero address is never checked. */
  function WalletChecks(cfg: Config, a: Answers, addresses: seq<Address>): seq<Check>
    requires a.balances.Ok?
  {
    if addresses == [] then []
    else (if addresses[0] == ZERO_ADDRESS then [] else [WalletCheck(cfg, a, addresses[0])]) + WalletChecks(cfg, a, addresses[1..])
  }

  function ContractChecks(cfg: Config, a: Answers): seq<Check> {
    if cfg.contract == ZERO_ADDRESS then []
    else [Check(ContractBalance(cfg.chain, cfg.contract, cfg.token), ContractBalanceMismatch,
                a.contractBalance.Ok? && a.contractBalance == a.contractBalanceOf)]
  }

  function StateCheck(cfg: Config, property: Property, row: StateRow, active: Address -> Result<bool>): Check {
    Check(ContractState(cfg.chain, cfg.contract, row.wallet, property), ContractStateMismatch, active(row.wallet) == Ok(row.active))
  }

  function StateChecks(cfg: Config, property: Property, rows: seq<StateRow>, active: Address -> Result<bool>): seq<Check> {
    if rows == [] then [] else [StateCheck(cfg, property, rows[0], active)] + StateChecks(cfg, property, rows[1..], active)
  }

  function ActiveOf(a: Answers, property: Property): Address -> Result<bool> {
    if property.EmployerActive? then a.employerActive else a.employeeActive
  }

  /** Both sides of the check were told. */
  predicate IsAnswered(a: Answers, c: Check) {
    match c.entity
    case TokenBalance(_, _, wallet) => a.balanceOf(wallet).Ok?
    case ContractBalance(_, _, _) => a.contractBalance.Ok? && a.contractBalanceOf.Ok?
    case ContractState(_, _, wallet, property) => ActiveOf(a, property)(wallet).Ok?
    case _ => false
  }

  /** Some of the checks were not answered, or their list was not. */
  ghost predicate Unanswered(a: Answers, checks: seq<Check>) {
    exists c :: c in checks && !IsAnswered(a, c)
  }

  /** now continues before with some first ones of the checks, all of them answered. */
  ghost predicate Continues(a: Answers, before: seq<Check>, now: seq<Check>, checks: seq<Check>) {
    before <= now <= before + checks && forall i :: |before| <= i < |now| ==> IsAnswered(a, now[i])
  }

  /** One answered check more; later is what then remains of the checks. */
  lemma ContinuesOneMore(a: Answers, before: seq<Check>, now: seq<Check>, checks: seq<Check>, c: Check, later: seq<Check>)
    requires Continues(a, before, now, checks) && now + ([c] + later) == before + checks && IsAnswered(a, c)
    ensures Continues(a, before, now + [c], checks) && c in checks && (now + [c]) + later == before + checks
  {
    var all := before + checks;
    assert now + ([c] + later) == (now + [c]) + later;
    assert all[|now|] == c;
    assert all[|now|] == checks[|now| - |before|];
  }

  lemma NotAnswered(a: Answers, before: seq<Check>, now: seq<Check>, checks: seq<Check>, c: Check, later: seq<Check>)
    requires before <= now && now + ([c] + later) == before + checks && !IsAnswered(a, c)
    ensures Unanswered(a, checks)
  {
    var all := before + checks;
    assert all[|now|] == c;
    assert all[|now|] == checks[|now| - |before|];
  }

  /** The same among more checks. */
  lemma ContinuesAmong(a: Answers, before: seq<Check>, now: seq<Check>, checks: seq<Check>, more: seq<Check>)
    ensures Continues(a, before, now, checks) ==> Continues(a, before, now, checks + more)
    ensures Unanswered(a, checks) || Unanswered(a, more) ==> Unanswered(a, checks + more)
  {
    if Continues(a, before, now, checks) {
      assert before + (checks + more) == (before + checks) + more;
    }
    if Unanswered(a, checks) || Unanswered(a, more) {
      var c :| (c in checks || c in more) && !IsAnswered(a, c);
      assert c in checks + more;
    }
  }

  /** All of the first checks, then some of the others. */
  lemma ContinuesAfter(a: Answers, before: seq<Check>, mid: seq<Check>, now: seq<Check>, checks: seq<Check>, more: seq<Check>)
    requires Continues(a, before, mid, checks) && mid == before + checks && Continues(a, mid, now, more)
    ensures Continues(a, before, now, checks + more)
  {
    assert before + (checks + more) == mid + more;
    forall i | |before| <= i < |now|
      ensures IsAnswered(a, now[i])
    {
      if i < |mid| {
        assert now[i] == mid[i];
      }
    }
  }

  lemma ContinuesIsLonger(a: Answers, before: seq<Check>, now: seq<Check>, checks: seq<Check>)
    requires Continues(a, before, now, checks)
    ensures before <= now
  {
  }

  lemma AllContinues(a: Answers, before: seq<Check>, checks: seq<Check>)
    ensures Continues(a, before, before, checks)
  {
    assert before <= before + checks;
  }

  predicate AuditsStates(cfg: Config) {
    cfg.states && cfg.contract != ZERO_ADDRESS
  }

  function EmployerChecks(cfg: Config, a: Answers): seq<Check> {
    if AuditsStates(cfg) && a.employers.Ok? then StateChecks(cfg, EmployerActive, a.employers.value, a.employerActive) else []
  }

  function EmployeeChecks(cfg: Config, a: Answers): seq<Check> {
    if AuditsStates(cfg) && a.employees.Ok? then StateChecks(cfg, EmployeeActive, a.employees.value, a.employeeActive) else []
  }

  function AddressChecks(cfg: Config, a: Answers): seq<Check> {
    if a.addresses.Ok? && a.balances.Ok? then WalletChecks(cfg, a, a.addresses.value) else []
  }

  function AllChecks(cfg: Config, a: Answers): seq<Check> {
    AddressChecks(cfg, a) + ContractChecks(cfg, a) + EmployerChecks(cfg, a) + EmployeeChecks(cfg, a)
  }

  /** The queries list every address and every wallet once. */
  ghost predicate ListsOnce(a: Answers) {
    && (a.addresses.Ok? ==> forall i, j :: 0 <= i < j < |a.addresses.value| ==> a.addresses.value[i] != a.addresses.value[j])
    && (a.employers.Ok? ==> WalletsOnce(a.employers.value))
    && (a.employees.Ok? ==> WalletsOnce(a.employees.value))
  }

  predicate WalletsOnce(rows: seq<StateRow>) {
    forall i, j :: 0 <= i < j < |rows| ==> rows[i].wallet != rows[j].wallet
  }

  lemma {:induction false} WalletChecksMembers(cfg: Config, a: Answers, addresses: seq<Address>)
    requires a.balances.Ok? && forall i, j :: 0 <= i < j < |addresses| ==> addresses[i] != addresses[j]
    ensures DistinctEntities(WalletChecks(cfg, a, addresses))
    ensures forall c :: c in WalletChecks(cfg, a, addresses) <==>
              && c.entity.TokenBalance? && c.entity.wallet in addresses && c.entity.wallet != ZERO_ADDRESS
              && c == WalletCheck(cfg, a, c.entity.wallet)
  {
    if addresses != [] {
      WalletChecksMembers(cfg, a, addresses[1..]);
      var rest := WalletChecks(cfg, a, addresses[1..]);
      assert addresses == [addresses[0]] + addresses[1..];
      if addresses[0] != ZERO_ADDRESS {
        DistinctCons(WalletCheck(cfg, a, addresses[0]), rest);
      } else {
        assert WalletChecks(cfg, a, addresses) == rest;
      }
    }
  }

  lemma DistinctCons(c: Check, rest: seq<Check>)
    requires DistinctEntities(rest) && forall d :: d in rest ==> d.entity != c.entity
    ensures DistinctEntities([c] + rest)
  {
  }

  lemma DistinctConcat(a: seq<Check>, b: seq<Check>)
    requires DistinctEntities(a) && DistinctEntities(b) && forall c, d :: c in a && d in b ==> c.entity != d.entity
    ensures DistinctEntities(a + b)
  {
    var all := a + b;
    forall i, j | 0 <= i < j < |all|
      ensures all[i].entity != all[j].entity
    {
      if i < |a| <= j {
        assert all[i] == a[i] && all[j] == b[j - |a|] && a[i] in a && b[j - |a|] in b;
      }
    }
  }

  lemma {:induction false} StateChecksMembers(cfg: Config, property: Property, rows: seq<StateRow>, active: Address -> Result<bool>)
    requires WalletsOnce(rows)
    ensures DistinctEntities(StateChecks(cfg, property, rows, active))
    ensures forall c :: c in StateChecks(cfg, property, rows, active) ==>
              c.entity.ContractState? && c.entity.property == property && exists i :: 0 <= i < |rows| && rows[i].wallet == c.entity.wallet
  {
    if rows != [] {
      StateChecksMembers(cfg, property, rows[1..], active);
      var rest := StateChecks(cfg, property, rows[1..], active);
      forall c | c in rest
        ensures c.entity != StateCheck(cfg, property, rows[0], active).entity
        ensures exists i :: 0 <= i < |rows| && rows[i].wallet == c.entity.wallet
      {
        var i :| 0 <= i < |rows[1..]| && rows[1..][i].wallet == c.entity.wallet;
        assert rows[i + 1].wallet == c.entity.wallet;
      }
      DistinctCons(StateCheck(cfg, property, rows[0], active), rest);
    }
  }

  lemma AllChecksAreDistinct(cfg: Config, a: Answers)
    requires ListsOnce(a)
    ensures DistinctEntities(AllChecks(cfg, a))
  {
    hide WalletChecks, StateChecks;
    var wallets := AddressChecks(cfg, a);
    if a.addresses.Ok? && a.balances.Ok? {
      WalletChecksMembers(cfg, a, a.addresses.value);
    }
    if a.employers.Ok? {
      StateChecksMembers(cfg, EmployerActive, a.employers.value, a.employerActive);
    }
    if a.employees.Ok? {
      StateChecksMembers(cfg, EmployeeActive, a.employees.value, a.employeeActive);
    }
    var two := wallets + ContractChecks(cfg, a);
    DistinctConcat(wallets, ContractChecks(cfg, a));
    assert forall c :: c in two ==> c.entity.TokenBalance? || c.entity.ContractBalance?;
    var three := two + EmployerChecks(cfg, a);
    DistinctConcat(two, EmployerChecks(cfg, a));
    assert forall c :: c in three ==> c.entity.ContractState? ==> c.entity.property == EmployerActive;
    DistinctConcat(three, EmployeeChecks(cfg, a));
  }

  lemma PrefixIsDistinct(done: seq<Check>, c: Check, rest: seq<Check>)
    requires DistinctEntities(done + ([c] + rest))
    ensures DistinctEntities(done + [c]) && done + ([c] + rest) == (done + [c]) + rest
  {
    var (all, short) := (done + ([c] + rest), done + [c]);
    assert forall i :: 0 <= i < |short| ==> short[i] == all[i];
  }

  // ---- The reconciler ----------------------------------------------------------------------------------------------

  datatype Report = Report(target: uint64, matched: nat, detected: nat, created: nat, skipped: nat, resolved: nat)

  datatype Env = Env(latest: Result<uint64>, checkpoint: Result<Option<uint64>>, at: uint64 -> Answers, storeFails: nat -> bool)

  class Reconciler {
    const cfg: Config
    const repo: ReconciliationRepository
    var cursor: Option<uint64>

    constructor (cfg: Config, repo: ReconciliationRepository)
      ensures this.cfg == cfg && this.repo == repo && cursor == None
    {
      this.cfg, this.repo, cursor := cfg, repo, None;
    }

    /** rest is what remains to be checked after this step. */
    method ReconcileBalances(audit: Audit, a: Answers, ghost rest: seq<Check>) returns (ok: bool)
      requires audit.repo == repo && audit.Valid()
      requires a.addresses.Ok? && a.balances.Ok? ==>
                 DistinctEntities(audit.done + (WalletChecks(cfg, a, a.addresses.value) + rest))
      modifies audit, repo
      ensures ok ==> audit.Valid() && a.addresses.Ok? && a.balances.Ok?
                     && audit.done == old(audit.done) + WalletChecks(cfg, a, a.addresses.value)
      ensures !ok ==> Progress(audit.initial, repo.rows, audit.done)
      ensures Continues(a, old(audit.done), audit.done, AddressChecks(cfg, a))
      ensures !ok ==> (exists n :: audit.fails(n)) || a.addresses.Error? || a.balances.Error? || Unanswered(a, AddressChecks(cfg, a))
    {
      hide Progress, ApplyAll, ResolvedCount, Agreeing, DistinctEntities, Continues, Unanswered;
      ghost var before, all := audit.done, AddressChecks(cfg, a);
      AllContinues(a, before, all);
      if a.addresses.Error? || a.balances.Error? {
        return false;
      }
      var addresses, i := a.addresses.value, 0;
      assert addresses[0..] == addresses;
      while i < |addresses|
        invariant i <= |addresses| && audit.Valid() && Continues(a, before, audit.done, all)
        invariant audit.done + WalletChecks(cfg, a, addresses[i..]) == old(audit.done) + WalletChecks(cfg, a, addresses)
        invariant DistinctEntities(audit.done + (WalletChecks(cfg, a, addresses[i..]) + rest))
      {
        var wallet := addresses[i];
        assert addresses[i..][1..] == addresses[i + 1..];
        ghost var later := WalletChecks(cfg, a, addresses[i + 1..]);
        if wallet != ZERO_ADDRESS {
          var onChain := a.balanceOf(wallet);
          var c := WalletCheck(cfg, a, wallet);
          assert WalletChecks(cfg, a, addresses[i..]) == [c] + later;
          if onChain.Error? {
            assert before <= audit.done by { ContinuesIsLonger(a, before, audit.done, all); }
            NotAnswered(a, before, audit.done, all, c, later);
            return false;
          }
          assert WalletChecks(cfg, a, addresses[i..]) + rest == [c] + (later + rest);
          PrefixIsDistinct(audit.done, c, later + rest);
          ContinuesOneMore(a, before, audit.done, all, c, later);
          ok := audit.Examine(c);
          if !ok {
            return;
          }
        } else {
          assert WalletChecks(cfg, a, addresses[i..]) == later;
        }
        i := i + 1;
      }
      ok := true;
    }

    method ReconcileContractBalance(audit: Audit, a: Answers, ghost rest: seq<Check>) returns (ok: bool)
      requires audit.repo == repo && audit.Valid() && DistinctEntities(audit.done + (ContractChecks(cfg, a) + rest))
      modifies audit, repo
      ensures ok ==> audit.Valid() && audit.done == old(audit.done) + ContractChecks(cfg, a)
      ensures !ok ==> Progress(audit.initial, repo.rows, audit.done)
      ensures Continues(a, old(audit.done), audit.done, ContractChecks(cfg, a))
      ensures !ok ==> (exists n :: audit.fails(n)) || Unanswered(a, ContractChecks(cfg, a))
    {
      hide Progress, ApplyAll, ResolvedCount, Agreeing, DistinctEntities;
      AllContinues(a, audit.done, ContractChecks(cfg, a));
      if cfg.contract == ZERO_ADDRESS {
        return true;
      }
      if a.contractBalance.Error? || a.contractBalanceOf.Error? {
        assert !IsAnswered(a, ContractChecks(cfg, a)[0]);
        return false;
      }
      var c := Check(ContractBalance(cfg.chain, cfg.contract, cfg.token), ContractBalanceMismatch,
                     a.contractBalance == a.contractBalanceOf);
      PrefixIsDistinct(audit.done, c, rest);
      ok := audit.Examine(c);
    }

    method ReconcileStates(audit: Audit, property: Property, rows: seq<StateRow>, a: Answers, ghost rest: seq<Check>)
      returns (ok: bool)
      requires audit.repo == repo && audit.Valid()
      requires DistinctEntities(audit.done + (StateChecks(cfg, property, rows, ActiveOf(a, property)) + rest))
      modifies audit, repo
      ensures ok ==> audit.Valid() && audit.done == old(audit.done) + StateChecks(cfg, property, rows, ActiveOf(a, property))
      ensures !ok ==> Progress(audit.initial, repo.rows, audit.done)
      ensures Continues(a, old(audit.done), audit.done, StateChecks(cfg, property, rows, ActiveOf(a, property)))
      ensures !ok ==> (exists n :: audit.fails(n)) || Unanswered(a, StateChecks(cfg, property, rows, ActiveOf(a, property)))
    {
      hide Progress, ApplyAll, ResolvedCount, Agreeing, DistinctEntities, Continues, Unanswered;
      var active, i := ActiveOf(a, property), 0;
      ghost var before, all := audit.done, StateChecks(cfg, property, rows, active);
      AllContinues(a, before, all);
      assert rows[0..] == rows;
      while i < |rows|
        invariant i <= |rows| && audit.Valid() && Continues(a, before, audit.done, all)
        invariant audit.done + StateChecks(cfg, property, rows[i..], active) == before + all
        invariant DistinctEntities(audit.done + (StateChecks(cfg, property, rows[i..], active) + rest))
      {
        assert rows[i..][1..] == rows[i + 1..];
        ghost var later := StateChecks(cfg, property, rows[i + 1..], active);
        var onChain := active(rows[i].wallet);
        var c := StateCheck(cfg, property, rows[i], active);
        assert StateChecks(cfg, property, rows[i..], active) == [c] + later;
        if onChain.Error? {
          ContinuesIsLonger(a, before, audit.done, all);
          NotAnswered(a, before, audit.done, all, c, later);
          return false;
        }
        assert StateChecks(cfg, property, rows[i..], active) + rest == [c] + (later + rest);
        PrefixIsDistinct(audit.done, c, later + rest);
        ContinuesOneMore(a, before, audit.done, all, c, later);
        ok := audit.Examine(c);
        if !ok {
          return;
        }
        i := i + 1;
      }
      ok := true;
    }

    /** Balances, then the contract's balance, then the states; the first error of a query ends the pass. */
    method AuditBlock(target: uint64, a: Answers, fails: nat -> bool) returns (result: Result<Report>, ghost done: seq<Check>)
      requires ListsOnce(a)
      modifies repo
      ensures Outcome(cfg, a, fails, target, old(repo.rows), repo.rows, result, done)
    {
      hide Progress, ApplyAll, ResolvedCount, Agreeing, DistinctEntities, WalletChecks, StateChecks, AddressChecks, ContractChecks;
      hide EmployerChecks, EmployeeChecks, AllChecks, UniqueOpen, Outcome, Continues, Unanswered;
      AllChecksAreDistinct(cfg, a);
      var audit := new Audit(repo, fails);
      ghost var before := repo.rows;
      ghost var (wallets, contract) := (AddressChecks(cfg, a), ContractChecks(cfg, a));
      ghost var states := EmployerChecks(cfg, a) + EmployeeChecks(cfg, a);
      StepsOfAllChecks(cfg, a);
      var ok := ReconcileBalances(audit, a, contract + states);
      done := audit.done;
      ContinuesAmong(a, [], done, wallets, contract + states);
      if !ok {
        InterruptedPass(cfg, a, fails, target, before, repo.rows, done);
        return Error, done;
      }
      ok := ReconcileContractBalance(audit, a, states);
      ContinuesAfter(a, [], done, audit.done, wallets, contract);
      ContinuesAmong(a, [], audit.done, wallets, contract);
      ContinuesAmong(a, [], audit.done, wallets + contract, states);
      done := audit.done;
      if !ok {
        InterruptedPass(cfg, a, fails, target, before, repo.rows, done);
        return Error, done;
      }
      if AuditsStates(cfg) {
        ok := ReconcileContractStates(audit, a);
        ContinuesAfter(a, [], done, audit.done, wallets + contract, states);
        ContinuesAmong(a, [], audit.done, wallets + contract, states);
        done := audit.done;
        if !ok {
          InterruptedPass(cfg, a, fails, target, before, repo.rows, done);
          return Error, done;
        }
      }
      NoStateChecks(cfg, a, audit.done);
      var report := Report(target, audit.matched, audit.detected, audit.created, audit.skipped, audit.resolved);
      CompletedPass(cfg, a, fails, before, repo.rows, report, done);
      result := Ok(report);
    }

    method ReconcileContractStates(audit: Audit, a: Answers) returns (ok: bool)
      requires audit.repo == repo && audit.Valid() && AuditsStates(cfg)
      requires DistinctEntities(audit.done + (EmployerChecks(cfg, a) + EmployeeChecks(cfg, a)))
      modifies audit, repo
      ensures ok ==> audit.Valid() && a.employers.Ok? && a.employees.Ok?
                     && audit.done == old(audit.done) + EmployerChecks(cfg, a) + EmployeeChecks(cfg, a)
      ensures !ok ==> Progress(audit.initial, repo.rows, audit.done)
      ensures Continues(a, old(audit.done), audit.done, EmployerChecks(cfg, a) + EmployeeChecks(cfg, a))
      ensures !ok ==> || (exists n :: audit.fails(n)) || a.employers.Error? || a.employees.Error?
                      || Unanswered(a, EmployerChecks(cfg, a) + EmployeeChecks(cfg, a))
    {
      hide Progress, ApplyAll, ResolvedCount, Agreeing, DistinctEntities, StateChecks, Continues, Unanswered;
      ghost var before, employers, employees := audit.done, EmployerChecks(cfg, a), EmployeeChecks(cfg, a);
      AllContinues(a, before, employers + employees);
      if a.employers.Error? {
        return false;
      }
      ok := ReconcileStates(audit, EmployerActive, a.employers.value, a, employees);
      ContinuesAmong(a, before, audit.done, employers, employees);
      if !ok {
        return;
      }
      if a.employees.Error? {
        return false;
      }
      ghost var mid := audit.done;
      assert mid + (employees + []) == before + (employers + employees);
      ok := ReconcileStates(audit, EmployeeActive, a.employees.value, a, []);
      ContinuesAfter(a, before, mid, audit.done, employers, employees);
    }

    /** Audits the highest allowed block up to the requested one; 0 requests the newest. */
    method ReconcileTargetBlock(requested: uint64, env: Env) returns (result: Result<Report>, ghost done: seq<Check>)
      requires forall b :: ListsOnce(env.at(b))
      modifies repo
      ensures TargetOutcome(cfg, requested, env, old(repo.rows), repo.rows, result, done)
    {
      hide Outcome;
      done := [];
      if env.latest.Error? {
        return Error, done;
      }
      if env.latest.value < cfg.depth {
        return Ok(Report(0, 0, 0, 0, 0, 0)), done;
      }
      if env.checkpoint.Error? {
        return Error, done;
      }
      var target := TargetBlock(env.latest.value, cfg.depth, env.checkpoint.value, cfg.startBlock, requested);
      if target.None? {
        return Ok(Report(0, 0, 0, 0, 0, 0)), done;
      }
      result, done := AuditBlock(target.value, env.at(target.value), env.storeFails);
    }

    /** The durable sweep: the next audit is batchSize blocks after the cursor, which follows the audited block. */
    method ReconcileNextBatch(batchSize: uint64, cursorFails: bool, env: Env, saveFails: bool)
      returns (result: Result<Report>, ghost done: seq<Check>)
      requires forall b :: ListsOnce(env.at(b))
      modifies this`cursor, repo
      ensures cursorFails ==> result == Error && cursor == old(cursor) && repo.rows == old(repo.rows)
      ensures !cursorFails ==>
                var last := LastAudited(old(cursor), cfg.startBlock);
                exists audited: Result<Report> ::
                  && TargetOutcome(cfg, Requested(last, batchSize), env, old(repo.rows), repo.rows, audited, done)
                  && cursor == (if audited.Ok? && audited.value.target > last && !saveFails then Some(audited.value.target)
                                else old(cursor))
                  && result == (if audited.Ok? && audited.value.target > last && saveFails then Error else audited)
      ensures result.Error? ==> cursor == old(cursor)
      ensures result.Ok? ==> MovesExactly(cfg, old(cursor), batchSize, env, result.value, cursor)
    {
      hide TargetOutcome, MovesExactly;
      if cursorFails {
        return Error, [];
      }
      var last := if cursor.Some? && cursor.value > 0 then cursor.value else cfg.startBlock;
      ghost var before := repo.rows;
      result, done := ReconcileTargetBlock(Wrap(last + if batchSize > 0 then batchSize else 50), env);
      if result.Ok? {
        AuditMovesExactly(cfg, cursor, batchSize, env, before, repo.rows, result.value, done);
      }
      if result.Ok? && result.value.target > last {
        if saveFails {
          return Error, done;
        }
        cursor := Some(result.value.target);
      }
    }
  }

  /** The parts of a pass, grouped as they remain to be done. */
  lemma StepsOfAllChecks(cfg: Config, a: Answers)
    ensures var (w, c) := (AddressChecks(cfg, a), ContractChecks(cfg, a));
            var (e, f) := (EmployerChecks(cfg, a), EmployeeChecks(cfg, a));
            && [] + w == w
            && [] + (w + (c + (e + f))) == AllChecks(cfg, a)
            && w + (c + (e + f)) == AllChecks(cfg, a)
            && (w + c) + (e + f) == AllChecks(cfg, a)
            && w + c + e + f == AllChecks(cfg, a)
            && (a.addresses.Ok? && a.balances.Ok? ==> w == WalletChecks(cfg, a, a.addresses.value))
  {
    hide WalletChecks, ContractChecks, EmployerChecks, EmployeeChecks;
  }

  lemma NoStateChecks(cfg: Config, a: Answers, done: seq<Check>)
    ensures !AuditsStates(cfg) ==> done + EmployerChecks(cfg, a) + EmployeeChecks(cfg, a) == done
  {
  }

  lemma InterruptedPass(cfg: Config, a: Answers, fails: nat -> bool, target: uint64, before: seq<Exc>, after: seq<Exc>, done: seq<Check>)
    requires Progress(before, after, done) && Continues(a, [], done, AllChecks(cfg, a))
    requires (exists n :: fails(n)) || !Answered(cfg, a) || Unanswered(a, AllChecks(cfg, a))
    ensures Outcome(cfg, a, fails, target, before, after, Error, done)
  {
  }

  lemma CompletedPass(cfg: Config, a: Answers, fails: nat -> bool, before: seq<Exc>, after: seq<Exc>, report: Report, done: seq<Check>)
    requires Progress(before, after, done) && Answered(cfg, a) && done == AllChecks(cfg, a) && Continues(a, [], done, AllChecks(cfg, a))
    requires report.matched == Agreeing(done) && report.matched + report.detected == |done|
    requires report.detected == report.created + report.skipped && |before| + report.created == |after|
    requires (forall n :: !fails(n)) ==> after == ApplyAll(before, done) && report.resolved == ResolvedCount(before, done)
    ensures Outcome(cfg, a, fails, report.target, before, after, Ok(report), done)
  {
  }

  /** Every query that the pass makes was answered. */
  predicate Answered(cfg: Config, a: Answers) {
    && a.addresses.Ok? && a.balances.Ok?
    && (AuditsStates(cfg) ==> a.employers.Ok? && a.employees.Ok?)
  }

  /** The result of a pass over one block. An error means that a query or the exception table failed; the checks made are
      then the first ones, all of them answered. */
  ghost predicate Outcome(cfg: Config, a: Answers, fails: nat -> bool, target: uint64, before: seq<Exc>, after: seq<Exc>,
                          result: Result<Report>, done: seq<Check>)
  {
    && Progress(before, after, done) && Continues(a, [], done, AllChecks(cfg, a))
    && match result
       case Error => (exists n :: fails(n)) || !Answered(cfg, a) || Unanswered(a, AllChecks(cfg, a))
       case Ok(report) =>
         && Answered(cfg, a) && done == AllChecks(cfg, a)
         && report.target == target
         && report.matched == Agreeing(done) && report.matched + report.detected == |done|
         && report.detected == report.created + report.skipped && |before| + report.created == |after|
         && ((forall n :: !fails(n)) ==> after == ApplyAll(before, done) && report.resolved == ResolvedCount(before, done))
  }

  ghost predicate TargetOutcome(cfg: Config, requested: uint64, env: Env, before: seq<Exc>, after: seq<Exc>,
                                result: Result<Report>, done: seq<Check>)
  {
    if env.latest.Error? then result == Error && after == before
    else if env.latest.value < cfg.depth then result == Ok(Report(0, 0, 0, 0, 0, 0)) && after == before
    else if env.checkpoint.Error? then result == Error && after == before
    else
      match TargetBlock(env.latest.value, cfg.depth, env.checkpoint.value, cfg.startBlock, requested)
      case None => result == Ok(Report(0, 0, 0, 0, 0, 0)) && after == before
      case Some(t) => Outcome(cfg, env.at(t), env.storeFails, t, before, after, result, done)
  }

  // ---- The cursor ------------------------------------------------------------------------------------------------

  function LastAudited(cursor: Option<uint64>, startBlock: uint64): uint64 {
    if cursor.Some? && cursor.value > 0 then cursor.value else startBlock
  }

  function Requested(last: uint64, batchSize: uint64): uint64 {
    Wrap(last + if batchSize > 0 then batchSize else 50)
  }

  /** The move of one successful call, unless the sum wraps: the block audited and saved is min(last + batch, safe head, token
      checkpoint), with a batch of 50 for 0 and the start block for a missing checkpoint, if that exceeds the last one;
      otherwise the cursor stays. */
  predicate MovesExactly(cfg: Config, before: Option<uint64>, batchSize: uint64, env: Env, report: Report, after: Option<uint64>) {
    var last := if before.Some? && before.value > 0 then before.value else cfg.startBlock;
    var batch := if batchSize == 0 then 50 else batchSize;
    && env.latest.Ok? && (env.latest.value >= cfg.depth ==> env.checkpoint.Ok?)
    && (last + batch < TWO_TO_64 ==>
          if env.latest.value < cfg.depth then after == before
          else
            var indexed := if env.checkpoint.value.Some? then env.checkpoint.value.value else cfg.startBlock;
            var target := Min(last + batch, Min(env.latest.value - cfg.depth, indexed));
            if target > last && target >= cfg.startBlock then report.target == target && after == Some(target) else after == before)
  }

  lemma AuditMovesExactly(cfg: Config, cursor: Option<uint64>, batchSize: uint64, env: Env, before: seq<Exc>, after: seq<Exc>,
                          report: Report, done: seq<Check>)
    requires TargetOutcome(cfg, Requested(LastAudited(cursor, cfg.startBlock), batchSize), env, before, after, Ok(report), done)
    ensures MovesExactly(cfg, cursor, batchSize, env, report,
                         if report.target > LastAudited(cursor, cfg.startBlock) then Some(report.target) else cursor)
  {
    hide Progress, Continues, AllChecks, Answered, Agreeing, ApplyAll, ResolvedCount, Unanswered;
    var sum := LastAudited(cursor, cfg.startBlock) + if batchSize > 0 then batchSize else 50;
    assert sum < TWO_TO_64 ==> Wrap(sum) == sum;
  }

  /** The cursor of the sweep only moves forward, by at most one batch, and never past the safe head or the indexer. */
  lemma BalanceCursorIsSafe(cfg: Config, cursor: Option<uint64>, batchSize: uint64, env: Env, before: seq<Exc>, after: seq<Exc>,
                            result: Result<Report>, done: seq<Check>)
    requires var last := LastAudited(cursor, cfg.startBlock);
             && TargetOutcome(cfg, Requested(last, batchSize), env, before, after, result, done)
             && result.Ok? && result.value.target > last
             && last + (if batchSize > 0 then batchSize else 50) != TWO_TO_64
    ensures var last := LastAudited(cursor, cfg.startBlock);
            && last < result.value.target <= last + (if batchSize > 0 then batchSize else 50)
            && env.latest.Ok? && result.value.target + cfg.depth <= env.latest.value
            && env.checkpoint.Ok? && (env.checkpoint.value.Some? ==> result.value.target <= env.checkpoint.value.value)
    ensures cursor.None? || cursor.value >= cfg.startBlock ==> env.checkpoint.value.Some?
    ensures cursor.Some? && cursor.value >= cfg.startBlock ==> cursor.value < result.value.target
  {
    hide Progress, Continues, AllChecks, Answered, Agreeing, ApplyAll, ResolvedCount, Unanswered;
    var last := LastAudited(cursor, cfg.startBlock);
    var requested := Requested(last, batchSize);
    var sum := last + if batchSize > 0 then batchSize else 50;
    assert requested == if sum < TWO_TO_64 then sum else sum - TWO_TO_64;
    TargetIsHighestAllowed(env.latest.value, cfg.depth, env.checkpoint.value, cfg.startBlock, requested);
  }

  /** The whole lifecycle, for any table: after a pass in which the exception table never failed, each checked address, the
      contract and each checked state has an open exception exactly when its two sides differ, if and only if none of those
      that agree was open twice; and no other reference has changed. */
  lemma CompletePassIsExactExactlyWhen(cfg: Config, a: Answers, fails: nat -> bool, target: uint64, before: seq<Exc>,
                                       after: seq<Exc>, report: Report, done: seq<Check>)
    requires ListsOnce(a) && (forall n :: !fails(n)) && Outcome(cfg, a, fails, target, before, after, Ok(report), done)
    ensures ExactFor(after, AllChecks(cfg, a)) <==> MatchesNotDoubled(before, AllChecks(cfg, a))
    ensures forall ref :: !IsAbout(AllChecks(cfg, a), ref) ==> (IsOpen(after, ref) <==> IsOpen(before, ref))
    ensures UniqueOpen(before) ==> UniqueOpen(after) && ExactFor(after, AllChecks(cfg, a))
  {
    hide Ref, ApplyAll, Progress, UniqueOpen, IsOpen, Doubled, AllChecks, ExactFor, MatchesNotDoubled;
    AllChecksAreDistinct(cfg, a);
    AuditFacts(before, AllChecks(cfg, a));
    AuditIsExactExactlyWhen(before, AllChecks(cfg, a));
    if UniqueOpen(before) {
      AuditIsExact(before, AllChecks(cfg, a));
    }
  }

  /** What a pass guarantees whatever fails, the exception table or a query: it closes only exceptions whose two sides were
      found to agree, opens only exceptions whose two sides were found to differ, keeps every exception as it is whose sides
      differ, and changes only the references of the configured checks. */
  lemma NoPassHidesADifference(cfg: Config, a: Answers, fails: nat -> bool, target: uint64, before: seq<Exc>, after: seq<Exc>,
                               result: Result<Report>, done: seq<Check>)
    requires ListsOnce(a) && Outcome(cfg, a, fails, target, before, after, result, done)
    ensures |before| <= |after|
    ensures forall i :: 0 <= i < |before| ==>
              after[i] == before[i] || (after[i] == Closed(before[i]) && FoundToAgree(cfg, a, before[i].ref))
    ensures forall i :: |before| <= i < |after| ==> FoundToDiffer(cfg, a, after[i])
    ensures forall c, i :: c in AllChecks(cfg, a) && !c.matches && 0 <= i < |before| && before[i].ref == Ref(c.entity) ==> after[i] == before[i]
    ensures forall c :: c in AllChecks(cfg, a) && !c.matches && (result.Ok? || IsOpen(before, Ref(c.entity))) ==> IsOpen(after, Ref(c.entity))
    ensures forall ref :: !IsAbout(AllChecks(cfg, a), ref) ==> (IsOpen(after, ref) <==> IsOpen(before, ref))
  {
    hide Ref, AllChecks, ApplyAll, ResolvedCount, Agreeing, Answered, UniqueOpen, IsAnswered;
    var checks := AllChecks(cfg, a);
    AllChecksAreDistinct(cfg, a);
    forall i | 0 <= i < |done|
      ensures Told(cfg, a, done[i])
    {
      DoneIsTold(a, checks, done, i);
    }
    forall i | |before| <= i < |after|
      ensures FoundToDiffer(cfg, a, after[i])
    {
      assert MadeBy(done, after[i]);
      var j :| 0 <= j < |done| && IsFor(done[j], after[i]);
      assert Told(cfg, a, done[j]);
    }
    forall c, i | c in checks && !c.matches && 0 <= i < |before| && before[i].ref == Ref(c.entity)
      ensures after[i] == before[i]
    {
      if IsAgreed(done, before[i].ref) {
        var j :| 0 <= j < |done| && Agrees(done[j], before[i].ref);
        DoneIsTold(a, checks, done, j);
        OneCheckPerReference(checks, done[j], c);
      }
    }
    forall c | c in checks && !c.matches && (result.Ok? || IsOpen(before, Ref(c.entity)))
      ensures IsOpen(after, Ref(c.entity))
    {
      if result.Ok? {
        var j :| 0 <= j < |checks| && checks[j] == c;
      } else {
        var i :| 0 <= i < |before| && before[i].open && before[i].ref == Ref(c.entity);
        assert after[i] == before[i];
      }
    }
  }

  /** The exceptions a pass opens are typed by what they are about, and carry no block. */
  lemma NewExceptionsAreTyped(cfg: Config, a: Answers, fails: nat -> bool, target: uint64, before: seq<Exc>, after: seq<Exc>,
                              result: Result<Report>, done: seq<Check>, i: nat)
    requires ListsOnce(a) && Outcome(cfg, a, fails, target, before, after, result, done) && |before| <= i < |after|
    ensures match after[i].excType
            case TokenBalanceMismatch => exists w :: after[i].ref == Ref(TokenBalance(cfg.chain, cfg.token, w))
            case ContractBalanceMismatch => after[i].ref == Ref(ContractBalance(cfg.chain, cfg.contract, cfg.token))
            case ContractStateMismatch => exists w, p :: after[i].ref == Ref(ContractState(cfg.chain, cfg.contract, w, p))
            case _ => false
  {
    hide Ref, Progress, Continues, ApplyAll, ResolvedCount, Agreeing, Answered, Unanswered, IsAnswered, AllChecks;
    NoPassHidesADifference(cfg, a, fails, target, before, after, result, done);
    assert FoundToDiffer(cfg, a, after[i]);
    var c :| Told(cfg, a, c) && IsFor(c, after[i]);
    ChecksAreTyped(cfg, a, c);
  }

  lemma ChecksAreTyped(cfg: Config, a: Answers, c: Check)
    requires ListsOnce(a) && c in AllChecks(cfg, a)
    ensures match c.excType
            case TokenBalanceMismatch => c.entity.TokenBalance? && c.entity == TokenBalance(cfg.chain, cfg.token, c.entity.wallet)
            case ContractBalanceMismatch => c.entity == ContractBalance(cfg.chain, cfg.contract, cfg.token)
            case ContractStateMismatch =>
              c.entity.ContractState? && c.entity == ContractState(cfg.chain, cfg.contract, c.entity.wallet, c.entity.property)
            case _ => false
  {
    hide WalletChecks, StateChecks;
    if a.addresses.Ok? && a.balances.Ok? {
      WalletChecksMembers(cfg, a, a.addresses.value);
    }
    if c in EmployerChecks(cfg, a) {
      StateCheckIsTyped(cfg, EmployerActive, a.employers.value, a.employerActive, c);
    } else if c in EmployeeChecks(cfg, a) {
      StateCheckIsTyped(cfg, EmployeeActive, a.employees.value, a.employeeActive, c);
    }
  }

  lemma {:induction false} StateCheckIsTyped(cfg: Config, property: Property, rows: seq<StateRow>, active: Address -> Result<bool>, c: Check)
    requires c in StateChecks(cfg, property, rows, active)
    ensures c.entity.ContractState? && c.entity == ContractState(cfg.chain, cfg.contract, c.entity.wallet, property)
    ensures c.excType == ContractStateMismatch
  {
    if c != StateCheck(cfg, property, rows[0], active) {
      StateCheckIsTyped(cfg, property, rows[1..], active, c);
    }
  }

  /** The check belongs to the pass and was answered. */
  predicate Told(cfg: Config, a: Answers, c: Check) {
    c in AllChecks(cfg, a) && IsAnswered(a, c)
  }

  ghost predicate FoundToAgree(cfg: Config, a: Answers, ref: string) {
    exists c :: Told(cfg, a, c) && Agrees(c, ref)
  }

  ghost predicate FoundToDiffer(cfg: Config, a: Answers, row: Exc) {
    exists c :: Told(cfg, a, c) && IsFor(c, row)
  }

  lemma DoneIsTold(a: Answers, checks: seq<Check>, done: seq<Check>, i: nat)
    requires Continues(a, [], done, checks) && i < |done|
    ensures i < |checks| && checks[i] == done[i] && done[i] in checks && IsAnswered(a, done[i])
  {
    assert [] + checks == checks;
    assert (done + (checks[|done|..]))[i] == done[i];
  }

  lemma OneCheckPerReference(checks: seq<Check>, c: Check, d: Check)
    requires DistinctEntities(checks) && c in checks && d in checks && Ref(c.entity) == Ref(d.entity)
    ensures c == d
  {
    hide Ref;
    RefInjective(c.entity, d.entity);
  }

  /** What that means for single addresses, the contract and single states: after a pass in which the exception table never
      failed, from a table in which no agreeing entity was open twice. */
  lemma CompletePassReads(cfg: Config, a: Answers, fails: nat -> bool, target: uint64, before: seq<Exc>, after: seq<Exc>,
                          report: Report, done: seq<Check>)
    requires ListsOnce(a) && (forall n :: !fails(n)) && Outcome(cfg, a, fails, target, before, after, Ok(report), done)
    requires MatchesNotDoubled(before, AllChecks(cfg, a))
    ensures forall w :: w in a.addresses.value && w != ZERO_ADDRESS ==>
              (IsOpen(after, Ref(TokenBalance(cfg.chain, cfg.token, w))) <==> a.balanceOf(w) != Ok(L.BalanceIn(a.balances.value, w)))
    ensures cfg.contract != ZERO_ADDRESS ==>
              (IsOpen(after, Ref(ContractBalance(cfg.chain, cfg.contract, cfg.token)))
               <==> !(a.contractBalance.Ok? && a.contractBalance == a.contractBalanceOf))
    ensures cfg.states && cfg.contract != ZERO_ADDRESS ==> forall row :: row in a.employers.value ==>
              (IsOpen(after, Ref(ContractState(cfg.chain, cfg.contract, row.wallet, EmployerActive)))
               <==> a.employerActive(row.wallet) != Ok(row.active))
    ensures cfg.states && cfg.contract != ZERO_ADDRESS ==> forall row :: row in a.employees.value ==>
              (IsOpen(after, Ref(ContractState(cfg.chain, cfg.contract, row.wallet, EmployeeActive)))
               <==> a.employeeActive(row.wallet) != Ok(row.active))
  {
    hide Ref, IsOpen, WalletChecks, StateChecks, ApplyAll, Progress, Continues, Agreeing, ResolvedCount, UniqueOpen, AllChecks;
    CompletePassIsExactExactlyWhen(cfg, a, fails, target, before, after, report, done);
    forall w | w in a.addresses.value && w != ZERO_ADDRESS
      ensures IsOpen(after, Ref(TokenBalance(cfg.chain, cfg.token, w))) <==> a.balanceOf(w) != Ok(L.BalanceIn(a.balances.value, w))
    {
      WalletChecksMembers(cfg, a, a.addresses.value);
      ExactAt(cfg, a, after, WalletCheck(cfg, a, w));
    }
    if cfg.contract != ZERO_ADDRESS {
      ExactAt(cfg, a, after, ContractChecks(cfg, a)[0]);
    }
    if AuditsStates(cfg) {
      forall row | row in a.employers.value
        ensures IsOpen(after, Ref(ContractState(cfg.chain, cfg.contract, row.wallet, EmployerActive)))
                <==> a.employerActive(row.wallet) != Ok(row.active)
      {
        StateIsChecked(cfg, EmployerActive, a.employers.value, a.employerActive, row);
        ExactAt(cfg, a, after, StateCheck(cfg, EmployerActive, row, a.employerActive));
      }
      forall row | row in a.employees.value
        ensures IsOpen(after, Ref(ContractState(cfg.chain, cfg.contract, row.wallet, EmployeeActive)))
                <==> a.employeeActive(row.wallet) != Ok(row.active)
      {
        StateIsChecked(cfg, EmployeeActive, a.employees.value, a.employeeActive, row);
        ExactAt(cfg, a, after, StateCheck(cfg, EmployeeActive, row, a.employeeActive));
      }
    }
  }

  lemma ExactAt(cfg: Config, a: Answers, after: seq<Exc>, c: Check)
    requires ExactFor(after, AllChecks(cfg, a))
    requires || c in AddressChecks(cfg, a) || c in ContractChecks(cfg, a) || c in EmployerChecks(cfg, a) || c in EmployeeChecks(cfg, a)
    ensures IsOpen(after, Ref(c.entity)) <==> !c.matches
  {
    hide Ref, IsOpen, AddressChecks, ContractChecks, EmployerChecks, EmployeeChecks;
    var checks := AllChecks(cfg, a);
    assert c in checks;
    var i :| 0 <= i < |checks| && checks[i] == c;
  }

  lemma {:induction false} StateIsChecked(cfg: Config, property: Property, rows: seq<StateRow>, active: Address -> Result<bool>, row: StateRow)
    requires row in rows
    ensures StateCheck(cfg, property, row, active) in StateChecks(cfg, property, rows, active)
  {
    if row != rows[0] {
      StateIsChecked(cfg, property, rows[1..], active, row);
    }
  }
}
