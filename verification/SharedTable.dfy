/** All reconcilers write to one exception table, at the same time and without locks: an exception is created in one
    statement after another statement found none open (reconciliation/, repository/reconciliation_repo.go). */
module SharedTable {
  import opened Evm
  import opened Words
  import opened EntityRefs
  import opened ExceptionStore
  import opened ExceptionLifecycle
  import B = BalanceReconciler

  // ---- Whole passes one after the other ---------------------------------------------------------------

  /** The row was created by this reconciler. */
  ghost predicate BelongsTo(row: Exc, scope: Scope) {
    exists m: Mismatch :: row.ref == RefOf(scope, m) && row.excType == LogException(FamilyOf(scope), m.kind)
  }

  /** Another reconciler never takes a row for its own. */
  lemma ScopesAreDisjoint(row: Exc, scope: Scope, other: Scope)
    requires BelongsTo(row, scope)
    ensures Owns(other, row) <==> other == scope
  {
    hide Ref, Text.HasPrefix;
    var m: Mismatch :| row.ref == RefOf(scope, m) && row.excType == LogException(FamilyOf(scope), m.kind);
    var e := EntityOf(scope, m.key, m.kind);
    ChainPrefixSelects(e, other.chain);
    if scope.Transfers? && other.Transfers? {
      TokenPrefixSelects(e, other.chain, other.token);
    }
    OwnExceptions(scope, m);
  }

  lemma SameIdentity(row: Exc, later: Exc, scope: Scope)
    requires later.ref == row.ref && later.excType == row.excType && BelongsTo(later, scope)
    ensures BelongsTo(row, scope)
  {
  }

  /** A pass of a log reconciler, or of the balance reconciler. */
  datatype PassCall =
    | LogPass(scope: Scope, ms: seq<Mismatch>, from: nat, to: nat)
    | BalancePass(checks: seq<B.Check>)

  ghost function RunPass(rows: seq<Exc>, call: PassCall): seq<Exc> {
    match call
    case LogPass(scope, ms, from, to) => Pass(rows, scope, ms, from, to)
    case BalancePass(checks) => B.ApplyAll(rows, checks)
  }

  ghost function RunPasses(rows: seq<Exc>, calls: seq<PassCall>): seq<Exc>
    decreases |calls|
  {
    if calls == [] then rows else RunPasses(RunPass(rows, calls[0]), calls[1..])
  }

  /** The balance reconciler checks balances and states only. */
  predicate WellTyped(call: PassCall) {
    call.BalancePass? ==> forall i :: 0 <= i < |call.checks| ==> B.IsBalanceCheck(call.checks[i])
  }

  ghost predicate ByOther(call: PassCall, scope: Scope) {
    WellTyped(call) && (call.LogPass? ==> call.scope != scope)
  }

  /** A pass of the balance reconciler changes only rows it has a check for and adds none of a log reconciler. */
  lemma BalancePassIsIsolated(rows: seq<Exc>, checks: seq<B.Check>)
    requires forall i :: 0 <= i < |checks| ==> B.IsBalanceCheck(checks[i])
    ensures var after := B.ApplyAll(rows, checks);
            && B.Touched(rows, after, checks)
            && (forall i :: |rows| <= i < |after| ==> !after[i].excType.LogException?)
            && (UniqueOpen(rows) ==> UniqueOpen(after))
  {
    hide Ref, UniqueOpen, B.ApplyAll;
    B.PassTouches(rows, checks);
    UniqueOpenIsKept(rows, checks);
  }

  lemma {:induction false} UniqueOpenIsKept(rows: seq<Exc>, checks: seq<B.Check>)
    ensures UniqueOpen(rows) ==> UniqueOpen(B.ApplyAll(rows, checks))
  {
    hide UniqueOpen, B.Apply;
    if checks != [] {
      var (init, last) := (checks[..|checks| - 1], checks[|checks| - 1]);
      UniqueOpenIsKept(rows, init);
      B.ApplyFacts(B.ApplyAll(rows, init), last);
    }
  }

  /** No balance check is about the row of a log reconciler. */
  lemma BalanceChecksAreForeign(row: Exc, scope: Scope, checks: seq<B.Check>)
    requires BelongsTo(row, scope) && forall i :: 0 <= i < |checks| ==> B.IsBalanceCheck(checks[i])
    ensures !B.IsAbout(checks, row.ref)
  {
    hide Ref;
    if B.IsAbout(checks, row.ref) {
      var i :| 0 <= i < |checks| && Ref(checks[i].entity) == row.ref;
      var m: Mismatch :| row.ref == RefOf(scope, m) && row.excType == LogException(FamilyOf(scope), m.kind);
      RefInjective(checks[i].entity, EntityOf(scope, m.key, m.kind));
    }
  }

  /** One pass of another reconciler. */
  lemma OtherPassLeavesMyRows(rows: seq<Exc>, call: PassCall, scope: Scope)
    requires ByOther(call, scope)
    ensures var next := RunPass(rows, call);
            && |rows| <= |next|
            && (forall i :: 0 <= i < |rows| ==> next[i].ref == rows[i].ref && next[i].excType == rows[i].excType)
            && (forall i :: 0 <= i < |rows| && BelongsTo(rows[i], scope) ==> next[i] == rows[i])
            && (forall i :: |rows| <= i < |next| ==> !BelongsTo(next[i], scope))
            && (UniqueOpen(rows) ==> UniqueOpen(next))
  {
    hide Pass, B.ApplyAll, Owns, UniqueOpen, BelongsTo, B.IsBalanceCheck;
    var next := RunPass(rows, call);
    match call
    case LogPass(other, ms, from, to) =>
      PassIsIsolated(rows, other, ms, from, to);
      forall i | 0 <= i < |rows| && BelongsTo(rows[i], scope)
        ensures next[i] == rows[i]
      {
        ScopesAreDisjoint(rows[i], scope, other);
      }
      forall i | |rows| <= i < |next|
        ensures !BelongsTo(next[i], scope)
      {
        if BelongsTo(next[i], scope) {
          ScopesAreDisjoint(next[i], scope, other);
        }
      }
    case BalancePass(checks) =>
      BalancePassIsIsolated(rows, checks);
      forall i | 0 <= i < |rows| && BelongsTo(rows[i], scope)
        ensures next[i] == rows[i]
      {
        BalanceChecksAreForeign(rows[i], scope, checks);
      }
      forall i | |rows| <= i < |next|
        ensures !BelongsTo(next[i], scope)
      {
        BelongingIsLogException(next[i], scope);
      }
  }

  lemma BelongingIsLogException(row: Exc, scope: Scope)
    ensures BelongsTo(row, scope) ==> row.excType.LogException?
  {
  }

  /** Any sequence of passes of the other reconcilers, the balance reconciler included, leaves the rows of a log reconciler
      exactly as they are, adds none of them, and keeps at most one open exception per reference. */
  lemma {:induction false} OthersLeaveMyRowsAlone(rows: seq<Exc>, calls: seq<PassCall>, scope: Scope)
    requires forall k :: 0 <= k < |calls| ==> ByOther(calls[k], scope)
    ensures var after := RunPasses(rows, calls);
            && |rows| <= |after|
            && (forall i :: 0 <= i < |rows| && BelongsTo(rows[i], scope) ==> after[i] == rows[i])
            && (forall i :: 0 <= i < |rows| ==> after[i].ref == rows[i].ref && after[i].excType == rows[i].excType)
            && (forall i :: |rows| <= i < |after| ==> !BelongsTo(after[i], scope))
            && (UniqueOpen(rows) ==> UniqueOpen(after))
    decreases |calls|
  {
    hide RunPass, ByOther, UniqueOpen, BelongsTo;
    if calls != [] {
      var next := RunPass(rows, calls[0]);
      OtherPassLeavesMyRows(rows, calls[0], scope);
      OthersLeaveMyRowsAlone(next, calls[1..], scope);
      var after := RunPasses(next, calls[1..]);
      assert after == RunPasses(rows, calls);
      forall i | |rows| <= i < |after|
        ensures !BelongsTo(after[i], scope)
      {
        if i < |next| && BelongsTo(after[i], scope) {
          SameIdentity(next[i], after[i], scope);
        }
      }
    }
  }

  /** The log reconcilers in turn leave every row of the balance reconciler as it is and add none. */
  lemma {:induction false} LogPassesLeaveBalanceRowsAlone(rows: seq<Exc>, calls: seq<PassCall>)
    requires forall k :: 0 <= k < |calls| ==> calls[k].LogPass?
    ensures var after := RunPasses(rows, calls);
            && |rows| <= |after|
            && (forall i :: 0 <= i < |rows| && !rows[i].excType.LogException? ==> after[i] == rows[i])
            && (forall i :: |rows| <= i < |after| ==> after[i].excType.LogException?)
            && (forall i :: 0 <= i < |rows| ==> after[i].excType == rows[i].excType)
    decreases |calls|
  {
    hide Pass, Owns;
    if calls != [] {
      var (next, call) := (RunPass(rows, calls[0]), calls[0]);
      PassIsIsolated(rows, call.scope, call.ms, call.from, call.to);
      forall i | 0 <= i < |next|
        ensures Owns(call.scope, next[i]) ==> next[i].excType.LogException?
      {
        OwnedIsLogException(call.scope, next[i]);
      }
      forall i | 0 <= i < |rows|
        ensures Owns(call.scope, rows[i]) ==> rows[i].excType.LogException?
      {
        OwnedIsLogException(call.scope, rows[i]);
      }
      assert forall i :: 0 <= i < |rows| ==> next[i].excType == rows[i].excType;
      LogPassesLeaveBalanceRowsAlone(next, calls[1..]);
      assert RunPasses(next, calls[1..]) == RunPasses(rows, calls);
    }
  }

  // ---- Single statements, interleaved -------------------------------------------------------------------

  /** A reconciler that has looked for an open exception and is about to act on the answer. */
  datatype Agent = Resting | Looked(entity: Entity, absent: bool)

  datatype Shared = Shared(rows: seq<Exc>, agents: seq<Agent>)

  datatype Step =
    | Look(agent: nat, entity: Entity)
    | Create(agent: nat, excType: ExcType, block: Option<nat>)
    | Resolve(agent: nat, id: nat)
    | Crash(agent: nat)

  /** Which entities each agent audits. */
  type Duty = (nat, Entity) -> bool

  ghost function Perform(s: Shared, duty: Duty, step: Step): Shared {
    if step.agent >= |s.agents| then s
    else
      match step
      case Look(a, e) => if duty(a, e) then s.(agents := s.agents[a := Looked(e, !IsOpen(s.rows, Ref(e)))]) else s
      case Create(a, t, block) =>
        if s.agents[a].Looked? && s.agents[a].absent
        then Shared(s.rows + [Exc(t, Ref(s.agents[a].entity), block, true)], s.agents[a := Resting]) else s
      case Resolve(a, id) =>
        if id < |s.rows| && s.rows[id].open then s.(rows := s.rows[id := Closed(s.rows[id])]) else s
      case Crash(a) => s.(agents := s.agents[a := Resting])
  }

  ghost function PerformAll(s: Shared, duty: Duty, steps: seq<Step>): Shared
    decreases |steps|
  {
    if steps == [] then s else PerformAll(Perform(s, duty, steps[0]), duty, steps[1..])
  }

  function Fresh(n: nat): Shared {
    Shared([], seq(n, i => Resting))
  }

  /** No entity is audited by two of the n agents. */
  ghost predicate Exclusive(n: nat, duty: Duty) {
    forall a: nat, b: nat, e: Entity :: a < b < n ==> !(duty(a, e) && duty(b, e))
  }

  ghost predicate Inv(s: Shared, duty: Duty) {
    && UniqueOpen(s.rows)
    && forall a :: 0 <= a < |s.agents| && s.agents[a].Looked? ==>
         duty(a, s.agents[a].entity) && (s.agents[a].absent ==> !IsOpen(s.rows, Ref(s.agents[a].entity)))
  }

  lemma PerformKeepsInv(s: Shared, duty: Duty, step: Step)
    requires Exclusive(|s.agents|, duty) && Inv(s, duty)
    ensures Inv(Perform(s, duty, step), duty) && |Perform(s, duty, step).agents| == |s.agents|
  {
    hide Ref;
    var after := Perform(s, duty, step);
    if step.Create? && step.agent < |s.agents| && s.agents[step.agent].Looked? && s.agents[step.agent].absent {
      var e := s.agents[step.agent].entity;
      forall b | 0 <= b < |after.agents| && after.agents[b].Looked? && after.agents[b].absent
        ensures !IsOpen(after.rows, Ref(after.agents[b].entity))
      {
        CreatedByOther(s, duty, step.agent, b);
      }
    } else if step.Resolve? {
      assert forall ref :: IsOpen(after.rows, ref) ==> IsOpen(s.rows, ref);
    }
  }

  lemma CreatedByOther(s: Shared, duty: Duty, a: nat, b: nat)
    requires Exclusive(|s.agents|, duty) && Inv(s, duty) && a < |s.agents| && b < |s.agents| && a != b
    requires s.agents[a].Looked? && s.agents[b].Looked?
    ensures Ref(s.agents[a].entity) != Ref(s.agents[b].entity)
  {
    hide Ref;
    if Ref(s.agents[a].entity) == Ref(s.agents[b].entity) {
      RefInjective(s.agents[a].entity, s.agents[b].entity);
    }
  }

  lemma {:induction false} RunKeepsInv(s: Shared, duty: Duty, steps: seq<Step>)
    requires Exclusive(|s.agents|, duty) && Inv(s, duty)
    ensures Inv(PerformAll(s, duty, steps), duty)
    decreases |steps|
  {
    if steps != [] {
      PerformKeepsInv(s, duty, steps[0]);
      RunKeepsInv(Perform(s, duty, steps[0]), duty, steps[1..]);
    }
  }

  /** Two agents with the same duty can both find nothing and both create. */
  lemma SharedDutyOpensTwice(n: nat, duty: Duty, a: nat, b: nat, e: Entity) returns (steps: seq<Step>)
    requires a < b < n && duty(a, e) && duty(b, e)
    ensures !UniqueOpen(PerformAll(Fresh(n), duty, steps).rows)
  {
    hide Ref;
    var create1, create2 := Create(a, TokenBalanceMismatch, None), Create(b, TokenBalanceMismatch, None);
    steps := [Look(a, e), Look(b, e), create1, create2];
    var s0 := Fresh(n);
    var s1 := Perform(s0, duty, Look(a, e));
    var s2 := Perform(s1, duty, Look(b, e));
    var s3 := Perform(s2, duty, create1);
    var s4 := Perform(s3, duty, create2);
    assert steps[1..] == [Look(b, e), create1, create2] && steps[1..][1..] == [create1, create2];
    assert [create1, create2][1..] == [create2] && [create2][1..] == [];
    assert PerformAll(s3, duty, [create2]) == s4;
    assert PerformAll(s2, duty, [create1, create2]) == s4;
    assert PerformAll(s1, duty, steps[1..]) == s4;
    assert PerformAll(s0, duty, steps) == s4;
    assert s4.rows[0].open && s4.rows[1].open && s4.rows[0].ref == s4.rows[1].ref;
  }

  /** Every interleaving keeps at most one open exception per reference exactly when no entity is audited twice. */
  lemma OneOpenExceptionExactlyWhenExclusive(n: nat, duty: Duty)
    ensures (forall steps: seq<Step> :: UniqueOpen(PerformAll(Fresh(n), duty, steps).rows)) <==> Exclusive(n, duty)
  {
    hide UniqueOpen, PerformAll, IsOpen;
    if Exclusive(n, duty) {
      forall steps: seq<Step>
        ensures UniqueOpen(PerformAll(Fresh(n), duty, steps).rows)
      {
        FreshIsFine(n, duty);
        RunKeepsInv(Fresh(n), duty, steps);
      }
    } else {
      var a: nat, b: nat, e: Entity :| a < b < n && duty(a, e) && duty(b, e);
      var steps := SharedDutyOpensTwice(n, duty, a, b, e);
    }
  }

  lemma FreshIsFine(n: nat, duty: Duty)
    ensures Inv(Fresh(n), duty) && |Fresh(n).agents| == n
  {
  }

  /** The deployed reconcilers: fundings, claims, transfers and balances; family says which events a payroll log holds. */
  function DeployedDuty(family: (int, LogKey) -> Option<Family>): Duty {
    (agent: nat, e: Entity) =>
      match e
      case PayrollLog(c, tx, i, _) => family(c, LogKey(tx, i)) == Some(if agent == 0 then FundingFamily else ClaimFamily) && agent < 2
      case TransferLog(_, _, _, _, _) => agent == 2
      case _ => agent == 3
  }

  lemma DeployedReconcilersAreExclusive(family: (int, LogKey) -> Option<Family>)
    ensures forall steps: seq<Step> :: UniqueOpen(PerformAll(Fresh(4), DeployedDuty(family), steps).rows)
  {
    hide UniqueOpen, PerformAll;
    assert Exclusive(4, DeployedDuty(family));
    OneOpenExceptionExactlyWhenExclusive(4, DeployedDuty(family));
  }
}
