/** What one reconciliation pass does to the shared exception table: every detected mismatch is recorded unless it is
    already open, then the open exceptions of the checked range that were not detected again are resolved
    (reconciliation/payroll_worker.go, salary_claim_worker.go, token_transfer_worker.go). */
module ExceptionLifecycle {
  import opened Evm
  import opened Words
  import opened Text
  import opened EntityRefs
  import opened ExceptionStore

  /** The identity of a log reconciler: what it audits, on which chain, and for transfers which token. */
  datatype Scope =
    | Fundings(chain: int)
    | Claims(chain: int)
    | Transfers(chain: int, token: Address)

  datatype Mismatch = Mismatch(kind: Kind, key: LogKey, block: nat)

  function FamilyOf(scope: Scope): Family {
    match scope
    case Fundings(_) => FundingFamily
    case Claims(_) => ClaimFamily
    case Transfers(_, _) => TransferFamily
  }

  function EntityOf(scope: Scope, key: LogKey, kind: Kind): Entity {
    match scope
    case Fundings(c) => PayrollLog(c, key.tx, key.index, kind)
    case Claims(c) => PayrollLog(c, key.tx, key.index, kind)
    case Transfers(c, token) => TransferLog(c, token, key.tx, key.index, kind)
  }

  function RefOf(scope: Scope, m: Mismatch): string {
    Ref(EntityOf(scope, m.key, m.kind))
  }

  function PrefixOf(scope: Scope): string {
    match scope
    case Fundings(c) => ChainPrefix(c)
    case Claims(c) => ChainPrefix(c)
    case Transfers(c, token) => TokenPrefix(c, token)
  }

  function ExceptionOf(scope: Scope, m: Mismatch): Exc {
    Exc(LogException(FamilyOf(scope), m.kind), RefOf(scope, m), Some(m.block), true)
  }

  /** The rows a reconciler may resolve: its own exception types, under its own prefix. */
  predicate Owns(scope: Scope, row: Exc) {
    row.excType.LogException? && row.excType.family == FamilyOf(scope) && HasPrefix(row.ref, PrefixOf(scope))
  }

  lemma OwnExceptions(scope: Scope, m: Mismatch)
    ensures Owns(scope, ExceptionOf(scope, m))
  {
    hide Ref;
    match scope
    case Fundings(c) => ChainPrefixSelects(EntityOf(scope, m.key, m.kind), c);
    case Claims(c) => ChainPrefixSelects(EntityOf(scope, m.key, m.kind), c);
    case Transfers(c, token) => TokenPrefixSelects(EntityOf(scope, m.key, m.kind), c, token);
  }

  // ---- Block numbers travel through JSON as 64-bit floats ---------------------------------------------

  const TWO_TO_53: nat := 0x20_0000_0000_0000

  /** The distance between neighbouring floats around n. */
  function Spacing(n: nat): nat
    ensures Spacing(n) > 0
  {
    if n < TWO_TO_53 then 1 else 2 * Spacing(n / 2)
  }

  /** The nearest float, ties to even. */
  function ThroughFloat(n: nat): nat {
    var u := Spacing(n);
    var q, r := n / u, n % u;
    if 2 * r < u || (2 * r == u && q % 2 == 0) then q * u else (q + 1) * u
  }

  lemma SmallBlocksSurvive(n: nat)
    requires n < TWO_TO_53
    ensures ThroughFloat(n) == n
  {
  }

  /** Rounding to a multiple of the spacing. */
  lemma RoundedFacts(n: nat, u: nat, q: nat, r: nat)
    requires u > 0 && n == q * u + r && r < u
    ensures var rounded := if 2 * r < u || (2 * r == u && q % 2 == 0) then q * u else (q + 1) * u;
            && (rounded == n <==> r == 0)
            && 2 * (rounded - n) <= u && 2 * (n - rounded) <= u
  {
    assert (q + 1) * u == q * u + u;
  }

  /** A block number survives exactly when it is a multiple of the distance between floats around it, and it never moves by
      more than half that distance. */
  lemma BlockSurvivesExactlyWhen(n: nat)
    ensures ThroughFloat(n) == n <==> n % Spacing(n) == 0
    ensures 2 * (ThroughFloat(n) - n) <= Spacing(n) && 2 * (n - ThroughFloat(n)) <= Spacing(n)
  {
    hide Spacing;
    var u := Spacing(n);
    RoundedFacts(n, u, n / u, n % u);
  }

  function Pow2(k: nat): nat {
    if k == 0 then 1 else 2 * Pow2(k - 1)
  }

  /** The spacing is the power of two that leaves 53 significant bits. */
  lemma {:induction false} SpacingReads(n: nat) returns (k: nat)
    ensures Spacing(n) == Pow2(k)
    ensures n < TWO_TO_53 ==> k == 0
    ensures n >= TWO_TO_53 ==> TWO_TO_53 * Spacing(n) <= 2 * n && n < TWO_TO_53 * Spacing(n)
  {
    k := 0;
    if n >= TWO_TO_53 {
      var j := SpacingReads(n / 2);
      k := j + 1;
    }
  }

  /** Rounding gives a multiple q of the spacing, at most half of it away, and the even one of two equally near. */
  lemma RoundsToNearest(n: nat) returns (q: nat)
    ensures ThroughFloat(n) == q * Spacing(n)
    ensures 2 * (ThroughFloat(n) - n) <= Spacing(n) && 2 * (n - ThroughFloat(n)) <= Spacing(n)
    ensures 2 * (ThroughFloat(n) - n) == Spacing(n) || 2 * (n - ThroughFloat(n)) == Spacing(n) ==> q % 2 == 0
  {
    hide Spacing;
    var u := Spacing(n);
    RoundedFacts(n, u, n / u, n % u);
    q := if 2 * (n % u) < u || (2 * (n % u) == u && n / u % 2 == 0) then n / u else n / u + 1;
    assert (n / u + 1) * u == n / u * u + u;
  }

  lemma LargeBlocksMayShift()
    ensures ThroughFloat(TWO_TO_53 + 1) == TWO_TO_53
  {
    assert Spacing(TWO_TO_53 / 2) == 1;
    assert (TWO_TO_53 + 1) / 2 == TWO_TO_53 / 2;
    assert Spacing(TWO_TO_53 + 1) == 2 * Spacing((TWO_TO_53 + 1) / 2);
  }

  // ---- One pass ----------------------------------------------------------------------------------------

  ghost function Record(rows: seq<Exc>, scope: Scope, m: Mismatch): seq<Exc> {
    if IsOpen(rows, RefOf(scope, m)) then rows else rows + [ExceptionOf(scope, m)]
  }

  ghost function RecordAll(rows: seq<Exc>, scope: Scope, ms: seq<Mismatch>): seq<Exc> {
    if ms == [] then rows else Record(RecordAll(rows, scope, ms[..|ms| - 1]), scope, ms[|ms| - 1])
  }

  function Refs(scope: Scope, ms: seq<Mismatch>): set<string> {
    set m | m in ms :: RefOf(scope, m)
  }

  predicate InRange(row: Exc, from: nat, to: nat) {
    row.block.Some? && from <= ThroughFloat(row.block.value) <= to
  }

  /** The audited ranges see an exception at its own block exactly when that number survives; otherwise a pass over its own
      block alone does not see it. */
  lemma SeenAtItsBlockExactlyWhen(row: Exc)
    requires row.block.Some?
    ensures (forall from: nat, to: nat :: InRange(row, from, to) <==> from <= row.block.value <= to)
            <==> row.block.value % Spacing(row.block.value) == 0
  {
    hide Spacing, ThroughFloat;
    var b := row.block.value;
    BlockSurvivesExactlyWhen(b);
    if ThroughFloat(b) != b {
      assert !InRange(row, b, b);
    }
  }

  /** The exceptions a pass resolves. */
  predicate Stale(row: Exc, scope: Scope, active: set<string>, from: nat, to: nat) {
    row.open && Owns(scope, row) && InRange(row, from, to) && row.ref !in active
  }

  function ResolveStale(rows: seq<Exc>, scope: Scope, active: set<string>, from: nat, to: nat): seq<Exc> {
    seq(|rows|, i requires 0 <= i < |rows| => if Stale(rows[i], scope, active, from, to) then Closed(rows[i]) else rows[i])
  }

  /** The whole pass over [from, to] that detected ms. */
  ghost function Pass(rows: seq<Exc>, scope: Scope, ms: seq<Mismatch>, from: nat, to: nat): seq<Exc> {
    ResolveStale(RecordAll(rows, scope, ms), scope, Refs(scope, ms), from, to)
  }

  function StaleCount(rows: seq<Exc>, scope: Scope, active: set<string>, from: nat, to: nat): nat {
    if rows == [] then 0
    else StaleCount(rows[..|rows| - 1], scope, active, from, to)
         + if Stale(rows[|rows| - 1], scope, active, from, to) then 1 else 0
  }

  // ---- Recording ---------------------------------------------------------------------------------------

  /** Recording appends at most one row per mismatch, opens every detected reference and changes nothing else. */
  lemma {:induction false} RecordAllFacts(rows: seq<Exc>, scope: Scope, ms: seq<Mismatch>)
    ensures var after := RecordAll(rows, scope, ms);
            && |rows| <= |after| <= |rows| + |ms| && after[..|rows|] == rows
            && (forall m :: m in ms ==> IsOpen(after, RefOf(scope, m)))
            && (forall i :: |rows| <= i < |after| ==> after[i].open && Owns(scope, after[i]))
            && (forall i :: |rows| <= i < |after| ==> exists m :: m in ms && after[i] == ExceptionOf(scope, m))
            && (UniqueOpen(rows) ==> UniqueOpen(after))
  {
    hide RefOf, Owns;
    if ms != [] {
      var (init, last) := (ms[..|ms| - 1], ms[|ms| - 1]);
      RecordAllFacts(rows, scope, init);
      var before, after := RecordAll(rows, scope, init), RecordAll(rows, scope, ms);
      OwnExceptions(scope, last);
      assert before == after[..|before|];
      forall m | m in ms
        ensures IsOpen(after, RefOf(scope, m))
      {
        if m in init {
          var i :| 0 <= i < |before| && before[i].open && before[i].ref == RefOf(scope, m);
          assert after[i].open && after[i].ref == RefOf(scope, m);
        } else {
          assert m == last;
          if !IsOpen(before, RefOf(scope, m)) {
            assert after[|before|] == ExceptionOf(scope, m);
          }
        }
      }
    }
  }

  /** The mismatch for which a new row was created. */
  lemma {:induction false} CreatedFor(rows: seq<Exc>, scope: Scope, ms: seq<Mismatch>, i: nat) returns (m: Mismatch)
    requires |rows| <= i < |RecordAll(rows, scope, ms)|
    ensures m in ms && RecordAll(rows, scope, ms)[i] == ExceptionOf(scope, m)
  {
    hide RefOf;
    if i < |RecordAll(rows, scope, ms[..|ms| - 1])| {
      m := CreatedFor(rows, scope, ms[..|ms| - 1], i);
    } else {
      m := ms[|ms| - 1];
    }
  }

  /** A row is only created for a reference that was not open before the pass, even if the table had doubled ones. */
  lemma {:induction false} NewRefsWereClosed(rows: seq<Exc>, scope: Scope, ms: seq<Mismatch>, i: nat)
    requires i < |RecordAll(rows, scope, ms)| && IsOpen(rows, RecordAll(rows, scope, ms)[i].ref)
    ensures i < |rows|
  {
    hide RefOf;
    if ms != [] {
      var init := ms[..|ms| - 1];
      var before := RecordAll(rows, scope, init);
      if i < |before| {
        NewRefsWereClosed(rows, scope, init, i);
      } else {
        OpenAfterRecording(rows, scope, init, RefOf(scope, ms[|ms| - 1]));
      }
    }
  }

  /** A reference is open after recording exactly when it was open or has been detected. */
  lemma OpenAfterRecording(rows: seq<Exc>, scope: Scope, ms: seq<Mismatch>, ref: string)
    ensures IsOpen(RecordAll(rows, scope, ms), ref) <==> IsOpen(rows, ref) || ref in Refs(scope, ms)
  {
    hide RefOf, Owns;
    RecordAllFacts(rows, scope, ms);
    var after := RecordAll(rows, scope, ms);
    if IsOpen(rows, ref) {
      var i :| 0 <= i < |rows| && rows[i].open && rows[i].ref == ref;
      assert after[i] == after[..|rows|][i];
    }
    if IsOpen(after, ref) {
      var i :| 0 <= i < |after| && after[i].open && after[i].ref == ref;
      if i < |rows| {
        assert after[i] == after[..|rows|][i];
      } else {
        var m :| m in ms && after[i] == ExceptionOf(scope, m);
        assert RefOf(scope, m) in Refs(scope, ms);
      }
    }
  }

  /** Nothing is recorded when every mismatch is already open. */
  lemma {:induction false} RecordAllAgain(rows: seq<Exc>, scope: Scope, ms: seq<Mismatch>)
    requires forall m :: m in ms ==> IsOpen(rows, RefOf(scope, m))
    ensures RecordAll(rows, scope, ms) == rows
  {
    hide RefOf;
    if ms != [] {
      RecordAllAgain(rows, scope, ms[..|ms| - 1]);
      assert ms[|ms| - 1] in ms;
    }
  }

  // ---- Main results ------------------------------------------------------------------------------------

  /** After a pass every detected reference is open, and no other exception of the reconciler is open in the range. */
  lemma PassIsSound(rows: seq<Exc>, scope: Scope, ms: seq<Mismatch>, from: nat, to: nat)
    ensures var after := Pass(rows, scope, ms, from, to);
            && (forall m :: m in ms ==> IsOpen(after, RefOf(scope, m)))
            && (forall i :: 0 <= i < |after| && after[i].open && Owns(scope, after[i]) && InRange(after[i], from, to)
                  ==> after[i].ref in Refs(scope, ms))
  {
    hide RefOf, Owns, InRange;
    RecordAllFacts(rows, scope, ms);
    var recorded, after := RecordAll(rows, scope, ms), Pass(rows, scope, ms, from, to);
    forall m | m in ms
      ensures IsOpen(after, RefOf(scope, m))
    {
      var i :| 0 <= i < |recorded| && recorded[i].open && recorded[i].ref == RefOf(scope, m);
      assert RefOf(scope, m) in Refs(scope, ms);
      assert after[i] == recorded[i];
    }
    forall i | 0 <= i < |after| && after[i].open && Owns(scope, after[i]) && InRange(after[i], from, to)
      ensures after[i].ref in Refs(scope, ms)
    {
      assert after[i] == recorded[i];
    }
  }

  /** An exception of the reconciler with this reference is open and its block lies in the range. */
  ghost predicate OpenInRange(rows: seq<Exc>, scope: Scope, from: nat, to: nat, ref: string) {
    exists i :: 0 <= i < |rows| && rows[i].open && rows[i].ref == ref && Owns(scope, rows[i]) && InRange(rows[i], from, to)
  }

  /** Exactness: when every mismatch lies in the audited range, the pass leaves exactly the detected references open in
      it if and only if no detected reference was already open outside the range or for another reconciler. */
  lemma PassIsExactExactlyWhen(rows: seq<Exc>, scope: Scope, ms: seq<Mismatch>, from: nat, to: nat)
    requires forall m :: m in ms ==> from <= m.block <= to && m.block < TWO_TO_53
    ensures (forall ref :: OpenInRange(Pass(rows, scope, ms, from, to), scope, from, to, ref) <==> ref in Refs(scope, ms))
            <==> (forall m :: m in ms && IsOpen(rows, RefOf(scope, m)) ==> OpenInRange(rows, scope, from, to, RefOf(scope, m)))
  {
    hide RefOf, Owns, ThroughFloat, Pass;
    PassIsSound(rows, scope, ms, from, to);
    var after := Pass(rows, scope, ms, from, to);
    if forall ref :: OpenInRange(after, scope, from, to, ref) <==> ref in Refs(scope, ms) {
      forall m | m in ms && IsOpen(rows, RefOf(scope, m))
        ensures OpenInRange(rows, scope, from, to, RefOf(scope, m))
      {
        assert RefOf(scope, m) in Refs(scope, ms);
        OpenRowIsOld(rows, scope, ms, from, to, RefOf(scope, m));
      }
    }
    if forall m :: m in ms && IsOpen(rows, RefOf(scope, m)) ==> OpenInRange(rows, scope, from, to, RefOf(scope, m)) {
      forall ref | ref in Refs(scope, ms)
        ensures OpenInRange(after, scope, from, to, ref)
      {
        var m :| m in ms && RefOf(scope, m) == ref;
        DetectedIsOpenInRange(rows, scope, ms, from, to, m);
      }
    }
  }

  /** A reference that was open before the pass is never opened a second time. */
  lemma OpenRowIsOld(rows: seq<Exc>, scope: Scope, ms: seq<Mismatch>, from: nat, to: nat, ref: string)
    requires IsOpen(rows, ref) && ref in Refs(scope, ms)
    requires OpenInRange(Pass(rows, scope, ms, from, to), scope, from, to, ref)
    ensures OpenInRange(rows, scope, from, to, ref)
  {
    hide RefOf, Owns, InRange;
    RecordAllFacts(rows, scope, ms);
    var recorded, after := RecordAll(rows, scope, ms), Pass(rows, scope, ms, from, to);
    var i :| 0 <= i < |after| && after[i].open && after[i].ref == ref && Owns(scope, after[i]) && InRange(after[i], from, to);
    assert after[i] == recorded[i];
    NewRefsWereClosed(rows, scope, ms, i);
    assert recorded[..|rows|][i] == rows[i];
  }

  lemma DetectedIsOpenInRange(rows: seq<Exc>, scope: Scope, ms: seq<Mismatch>, from: nat, to: nat, m: Mismatch)
    requires m in ms && forall m :: m in ms ==> from <= m.block <= to && m.block < TWO_TO_53
    requires IsOpen(rows, RefOf(scope, m)) ==> OpenInRange(rows, scope, from, to, RefOf(scope, m))
    ensures OpenInRange(Pass(rows, scope, ms, from, to), scope, from, to, RefOf(scope, m))
  {
    hide RefOf, Owns, ThroughFloat;
    RecordAllFacts(rows, scope, ms);
    var recorded, after := RecordAll(rows, scope, ms), Pass(rows, scope, ms, from, to);
    assert RefOf(scope, m) in Refs(scope, ms);
    assert forall i :: 0 <= i < |rows| ==> recorded[i] == recorded[..|rows|][i] == rows[i];
    if IsOpen(rows, RefOf(scope, m)) {
      var i :| 0 <= i < |rows| && rows[i].open && rows[i].ref == RefOf(scope, m) && Owns(scope, rows[i]) && InRange(rows[i], from, to);
      assert after[i] == recorded[i];
    } else {
      var i :| 0 <= i < |recorded| && recorded[i].open && recorded[i].ref == RefOf(scope, m);
      assert after[i] == recorded[i];
      var m' :| m' in ms && recorded[i] == ExceptionOf(scope, m');
      SmallBlocksSurvive(m'.block);
    }
  }

  /** Where each log of the chain is: the reconciler family that audits it, and its block. */
  type Catalog = (int, LogKey) -> Option<(Family, nat)>

  /** Every log exception carries the family and the block its log has on the chain. */
  ghost predicate Canonical(rows: seq<Exc>, catalog: Catalog) {
    forall i :: 0 <= i < |rows| && rows[i].excType.LogException? ==> CanonicalRow(rows[i], catalog)
  }

  ghost predicate CanonicalRow(row: Exc, catalog: Catalog)
    requires row.excType.LogException?
  {
    exists scope: Scope, m: Mismatch :: row.ref == RefOf(scope, m) && FamilyOf(scope) == row.excType.family
      && catalog(scope.chain, m.key) == Some((row.excType.family, m.block)) && row.block == Some(m.block)
  }

  ghost predicate CanonicalMismatches(scope: Scope, ms: seq<Mismatch>, catalog: Catalog) {
    forall m :: m in ms ==> catalog(scope.chain, m.key) == Some((FamilyOf(scope), m.block))
  }

  /** No balance exception can carry the reference of a log exception. */
  ghost predicate BalanceRefs(rows: seq<Exc>) {
    forall i :: 0 <= i < |rows| && !rows[i].excType.LogException? ==>
      exists e: Entity :: !e.PayrollLog? && !e.TransferLog? && rows[i].ref == Ref(e)
  }

  /** A canonical row with the reference of a mismatch agrees with it on family and block. */
  lemma SameRefAgrees(row: Exc, scope: Scope, m: Mismatch, catalog: Catalog)
    requires row.excType.LogException? && CanonicalRow(row, catalog) && row.ref == RefOf(scope, m)
    requires catalog(scope.chain, m.key) == Some((FamilyOf(scope), m.block))
    ensures row.excType.family == FamilyOf(scope) && row.block == Some(m.block) && Owns(scope, row)
  {
    hide Ref;
    var scope': Scope, m': Mismatch :| row.ref == RefOf(scope', m') && FamilyOf(scope') == row.excType.family
      && catalog(scope'.chain, m'.key) == Some((row.excType.family, m'.block)) && row.block == Some(m'.block);
    RefInjective(EntityOf(scope, m.key, m.kind), EntityOf(scope', m'.key, m'.kind));
    OwnExceptions(scope, m);
  }

  /** The condition holds when every exception and every mismatch carries its on-chain block: after a pass over [from, to],
      the references of the reconciler's open exceptions in the range are exactly the detected ones. */
  lemma PassIsExact(rows: seq<Exc>, scope: Scope, ms: seq<Mismatch>, from: nat, to: nat, catalog: Catalog)
    requires Canonical(rows, catalog) && BalanceRefs(rows) && CanonicalMismatches(scope, ms, catalog)
    requires forall m :: m in ms ==> from <= m.block <= to && m.block < TWO_TO_53
    ensures forall ref :: OpenInRange(Pass(rows, scope, ms, from, to), scope, from, to, ref) <==> ref in Refs(scope, ms)
  {
    hide RefOf, Owns, ThroughFloat, CanonicalRow;
    PassIsSound(rows, scope, ms, from, to);
    var after := Pass(rows, scope, ms, from, to);
    PassKeepsCanonical(rows, scope, ms, from, to, catalog);
    forall ref | ref in Refs(scope, ms)
      ensures OpenInRange(after, scope, from, to, ref)
    {
      var m :| m in ms && RefOf(scope, m) == ref;
      var i :| 0 <= i < |after| && after[i].open && after[i].ref == ref;
      RowWithLogRef(after, i, scope, m);
      SameRefAgrees(after[i], scope, m, catalog);
      SmallBlocksSurvive(m.block);
    }
  }

  lemma RowWithLogRef(rows: seq<Exc>, i: nat, scope: Scope, m: Mismatch)
    requires BalanceRefs(rows) && i < |rows| && rows[i].ref == RefOf(scope, m)
    ensures rows[i].excType.LogException?
  {
    hide Ref;
    if !rows[i].excType.LogException? {
      var e: Entity :| !e.PayrollLog? && !e.TransferLog? && rows[i].ref == Ref(e);
      RefInjective(e, EntityOf(scope, m.key, m.kind));
    }
  }

  lemma OwnedIsLogException(scope: Scope, row: Exc)
    ensures Owns(scope, row) ==> row.excType.LogException?
  {
  }

  /** Passes over the frozen chain keep the table canonical. */
  lemma PassKeepsCanonical(rows: seq<Exc>, scope: Scope, ms: seq<Mismatch>, from: nat, to: nat, catalog: Catalog)
    requires Canonical(rows, catalog) && BalanceRefs(rows) && CanonicalMismatches(scope, ms, catalog)
    ensures Canonical(Pass(rows, scope, ms, from, to), catalog) && BalanceRefs(Pass(rows, scope, ms, from, to))
  {
    hide RefOf, Owns, InRange;
    RecordAllFacts(rows, scope, ms);
    var recorded, after := RecordAll(rows, scope, ms), Pass(rows, scope, ms, from, to);
    forall i | 0 <= i < |after| && after[i].excType.LogException?
      ensures CanonicalRow(after[i], catalog)
    {
      if i < |rows| {
        assert recorded[i] == recorded[..|rows|][i];
        assert CanonicalRow(rows[i], catalog);
      } else {
        var m :| m in ms && recorded[i] == ExceptionOf(scope, m);
        assert after[i].ref == RefOf(scope, m);
      }
    }
    forall i | 0 <= i < |after| && !after[i].excType.LogException?
      ensures exists e: Entity :: !e.PayrollLog? && !e.TransferLog? && after[i].ref == Ref(e)
    {
      assert i >= |rows| ==> Owns(scope, recorded[i]);
      OwnedIsLogException(scope, recorded[i]);
      assert recorded[i] == recorded[..|rows|][i];
    }
  }

  /** In every pass, detected = created + skipped. */
  lemma {:induction false} DetectedIsCreatedPlusSkipped(rows: seq<Exc>, scope: Scope, ms: seq<Mismatch>)
    ensures |RecordAll(rows, scope, ms)| - |rows| + Skipped(rows, scope, ms) == |ms|
  {
    if ms != [] {
      DetectedIsCreatedPlusSkipped(rows, scope, ms[..|ms| - 1]);
    }
  }

  /** The mismatches found open when they were about to be recorded. */
  ghost function Skipped(rows: seq<Exc>, scope: Scope, ms: seq<Mismatch>): nat {
    if ms == [] then 0
    else
      var init, last := ms[..|ms| - 1], ms[|ms| - 1];
      Skipped(rows, scope, init) + if IsOpen(RecordAll(rows, scope, init), RefOf(scope, last)) then 1 else 0
  }

  lemma {:induction false} NothingStale(rows: seq<Exc>, scope: Scope, active: set<string>, from: nat, to: nat)
    requires forall i :: 0 <= i < |rows| ==> !Stale(rows[i], scope, active, from, to)
    ensures ResolveStale(rows, scope, active, from, to) == rows && StaleCount(rows, scope, active, from, to) == 0
  {
    if rows != [] {
      NothingStale(rows[..|rows| - 1], scope, active, from, to);
    }
  }

  /** Fixpoint: repeating a pass, in any order of detection, creates nothing, resolves nothing, leaves the table as it
      is, and skips every mismatch. */
  lemma PassIsFixpoint(rows: seq<Exc>, scope: Scope, ms: seq<Mismatch>, again: seq<Mismatch>, from: nat, to: nat)
    requires |again| == |ms| && forall m :: m in again <==> m in ms
    ensures var after := Pass(rows, scope, ms, from, to);
            && RecordAll(after, scope, again) == after
            && Pass(after, scope, again, from, to) == after
            && Skipped(after, scope, again) == |ms|
            && StaleCount(after, scope, Refs(scope, again), from, to) == 0
  {
    hide RefOf, Owns, InRange;
    var after := Pass(rows, scope, ms, from, to);
    PassIsSound(rows, scope, ms, from, to);
    RecordAllAgain(after, scope, again);
    DetectedIsCreatedPlusSkipped(after, scope, again);
    assert Refs(scope, again) == Refs(scope, ms);
    NothingStale(after, scope, Refs(scope, again), from, to);
  }

  /** What another reconciler sees of a pass: only rows of the pass's own scope were resolved or added. */
  ghost predicate OnlyOwnRowsChange(before: seq<Exc>, after: seq<Exc>, scope: Scope) {
    && |before| <= |after|
    && (forall i :: 0 <= i < |before| ==> after[i] == before[i] || (Owns(scope, before[i]) && after[i] == Closed(before[i])))
    && (forall i :: |before| <= i < |after| ==> Owns(scope, after[i]))
  }

  /** Isolation: a pass changes only its own exceptions and keeps at most one open exception per reference. */
  lemma PassIsIsolated(rows: seq<Exc>, scope: Scope, ms: seq<Mismatch>, from: nat, to: nat)
    ensures OnlyOwnRowsChange(rows, Pass(rows, scope, ms, from, to), scope)
    ensures UniqueOpen(rows) ==> UniqueOpen(Pass(rows, scope, ms, from, to))
  {
    hide RefOf, Owns, InRange;
    RecordAllFacts(rows, scope, ms);
    var recorded := RecordAll(rows, scope, ms);
    assert forall i :: 0 <= i < |rows| ==> recorded[i] == recorded[..|rows|][i];
  }
}
