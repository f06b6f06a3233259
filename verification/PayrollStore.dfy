/** The payroll tables as the database keeps them, and the projection methods that update them in place
    (persistence/payroll.go, persistence/checkpoints.go). Which statement fails is decided by the environment. */
module PayrollStore {
  import opened Evm
  import opened Words
  import opened PayrollTables

  class Postgres {
    var transactions: map<Hash, Receipt>
    var events: map<LogKey, EventRow>
    var employers: map<Address, EmployerRow>
    var employees: map<Address, EmployeeRow>
    var fundings: map<LogKey, FundingRow>
    var claims: map<LogKey, ClaimRow>
    var checkpoints: map<string, uint64>

    constructor ()
      ensures Snapshot() == EMPTY && checkpoints == map[]
    {
      transactions, events, employers, employees, fundings, claims := map[], map[], map[], map[], map[], map[];
      checkpoints := map[];
    }

    /** The six tables as one value. */
    function Snapshot(): Tables
      reads this
    {
      Tables(transactions, events, employers, employees, fundings, claims)
    }

    function GetCheckpoint(stream: string): Option<uint64>
      reads this
    {
      Get(checkpoints, stream)
    }

    /** A plain overwrite: nothing keeps the checkpoint from moving backwards. */
    method SaveCheckpoint(stream: string, block: uint64, fails: bool) returns (ok: bool)
      modifies this`checkpoints
      ensures ok == !fails
      ensures checkpoints == if ok then old(checkpoints)[stream := block] else old(checkpoints)
    {
      if fails {
        return false;
      }
      checkpoints := checkpoints[stream := block];
      ok := true;
    }

    /** One SQL statement: committed as a whole, or failed, or rejected by a foreign key. */
    method Exec(st: Statement, guard: bool, fails: bool) returns (ok: bool)
      requires !st.CheckEmployee?
      modifies this`transactions, this`events, this`employers, this`employees, this`fundings, this`claims
      ensures ok == (!fails && Allowed(old(Snapshot()), st, guard))
      ensures Snapshot() == if ok then Write(old(Snapshot()), st, guard) else old(Snapshot())
    {
      if fails || !Allowed(Snapshot(), st, guard) {
        return false;
      }
      ok := true;
      match st
      case SaveTransaction(tx, receipt) =>
        transactions := transactions[tx := receipt];
      case SaveChainEvent(key, row) =>
        if key in events {
          events := events[key := events[key].(removed := row.removed, time := row.time)];
        } else {
          events := events[key := row];
        }
      case UpsertEmployerAdded(w, t, tx) =>
        if w in employers {
          var row := employers[w];
          employers := employers[w := row.(active := true, addedAt := Coalesce(row.addedAt, Some(t)), latestTx := tx)];
        } else {
          employers := employers[w := EmployerRow(true, Some(t), None, None, tx)];
        }
      case UpsertEmployerRemoved(w, t, tx) =>
        if w in employers {
          employers := employers[w := employers[w].(active := false, removedAt := Some(t), deactivation := Some(t), latestTx := tx)];
        } else {
          employers := employers[w := EmployerRow(false, None, Some(t), Some(t), tx)];
        }
      case EnsureEmployer(w, t, tx) =>
        employers := InsertIfAbsent(employers, w, NewEmployer(t, tx));
      case UpsertEmployeeAdded(e, w, salary, allocation, t, tx) =>
        employees := employees[e := EmployeeAfterAdded(Get(employees, e), w, salary, allocation, t, tx)];
      case UpsertEmployeeRemoved(e, w, t, tx) =>
        employees := employees[e := EmployeeAfterRemoved(Get(employees, e), w, t, tx)];
      case EnsureEmployee(e, w, t, tx) =>
        employees := InsertIfAbsent(employees, e, NewEmployee(w, t, tx));
      case InsertFunding(key, row) =>
        fundings := InsertIfAbsent(fundings, key, row);
      case PlaceholderEmployer(_, t, tx) =>
        if !guard {
          employers := InsertIfAbsent(employers, ZERO_ADDRESS, NewEmployer(t, tx));
        }
      case PlaceholderEmployee(e, t, tx) =>
        if !guard {
          employees := InsertIfAbsent(employees, e, NewEmployee(ZERO_ADDRESS, t, tx));
        }
      case InsertClaim(key, row) =>
        claims := InsertIfAbsent(claims, key, row);
      case UpdateWithdraw(e, t, tx) =>
        if e in employees {
          employees := employees[e := EmployeeAfterWithdraw(employees[e], t, tx)];
        }
    }

    method SaveEmployerAdded(log: Log, e: Event, fails: nat -> bool) returns (ok: bool)
      requires e.EmployerAdded?
      modifies this`transactions, this`events, this`employers, this`employees, this`fundings, this`claims
      ensures HandleAll(Session(old(Snapshot()), false), Projection(log, e), fails) == Progress(Session(Snapshot(), false), ok)
    {
      ok := Exec(UpsertEmployerAdded(e.employer, log.time, log.key.tx), false, fails(0));
    }

    method SaveEmployerRemoved(log: Log, e: Event, fails: nat -> bool) returns (ok: bool)
      requires e.EmployerRemoved?
      modifies this`transactions, this`events, this`employers, this`employees, this`fundings, this`claims
      ensures HandleAll(Session(old(Snapshot()), false), Projection(log, e), fails) == Progress(Session(Snapshot(), false), ok)
    {
      ok := Exec(UpsertEmployerRemoved(e.employer, log.time, log.key.tx), false, fails(0));
    }

    method SaveEmployeeAdded(log: Log, e: Event, fails: nat -> bool) returns (ok: bool)
      requires e.EmployeeAdded?
      modifies this`transactions, this`events, this`employers, this`employees, this`fundings, this`claims
      ensures HandleAll(Session(old(Snapshot()), false), Projection(log, e), fails) == Progress(Session(Snapshot(), false), ok)
    {
      ok := Exec(EnsureEmployer(e.employer, log.time, log.key.tx), false, fails(0));
      if !ok {
        return;
      }
      ghost var first := Session(Snapshot(), false);
      ok := Exec(UpsertEmployeeAdded(e.employee, e.employer, e.salary, e.allocation, log.time, log.key.tx), false, fails(1));
      ghost var sts := Projection(log, e);
      HandleCons(Session(old(Snapshot()), false), sts[0], [sts[1]], fails, 0, first);
      assert [sts[0]] + [sts[1]] == sts && [sts[1]] == [sts[1]] + [];
    }

    method SaveEmployeeRemoved(log: Log, e: Event, fails: nat -> bool) returns (ok: bool)
      requires e.EmployeeRemoved?
      modifies this`transactions, this`events, this`employers, this`employees, this`fundings, this`claims
      ensures HandleAll(Session(old(Snapshot()), false), Projection(log, e), fails) == Progress(Session(Snapshot(), false), ok)
    {
      ok := Exec(EnsureEmployer(e.employer, log.time, log.key.tx), false, fails(0));
      if !ok {
        return;
      }
      ghost var first := Session(Snapshot(), false);
      ok := Exec(UpsertEmployeeRemoved(e.employee, e.employer, log.time, log.key.tx), false, fails(1));
      ghost var sts := Projection(log, e);
      HandleCons(Session(old(Snapshot()), false), sts[0], [sts[1]], fails, 0, first);
      assert [sts[0]] + [sts[1]] == sts && [sts[1]] == [sts[1]] + [];
    }

    method SavePayrollFunded(log: Log, e: Event, fails: nat -> bool) returns (ok: bool)
      requires e.PayrollFunded?
      modifies this`transactions, this`events, this`employers, this`employees, this`fundings, this`claims
      ensures HandleAll(Session(old(Snapshot()), false), Projection(log, e), fails) == Progress(Session(Snapshot(), false), ok)
    {
      ghost var sts := Projection(log, e);
      ok := Exec(EnsureEmployer(e.employer, log.time, log.key.tx), false, fails(0));
      if !ok {
        return;
      }
      ghost var first := Session(Snapshot(), false);
      HandleCons(Session(old(Snapshot()), false), sts[0], [sts[1], sts[2]], fails, 0, first);
      assert [sts[0]] + [sts[1], sts[2]] == sts;
      ok := Exec(EnsureEmployee(e.employee, e.employer, log.time, log.key.tx), false, fails(1));
      if !ok {
        HandleStops(first, sts[1], [sts[2]], fails, 1);
        assert [sts[1]] + [sts[2]] == [sts[1], sts[2]];
        return;
      }
      ghost var second := Session(Snapshot(), false);
      HandleCons(first, sts[1], [sts[2]], fails, 1, second);
      assert [sts[1]] + [sts[2]] == [sts[1], sts[2]] && [sts[2]] == [sts[2]] + [];
      ok := Exec(InsertFunding(log.key, FundingOf(log, e)), false, fails(2));
    }

    /** First part of a claim: look for the employee, and write placeholder rows when it is not found. */
    method EnsureClaimant(log: Log, e: Event, fails: nat -> bool) returns (found: bool)
      requires e.SalaryClaimed?
      modifies this`transactions, this`events, this`employers, this`employees, this`fundings, this`claims
      ensures var sts := Projection(log, e);
              var s1 := Handle(Session(old(Snapshot()), false), sts[0], fails(0)).value;
              var s2 := Handle(s1, sts[1], fails(1)).value;
              Session(Snapshot(), found) == Handle(s2, sts[2], fails(2)).value
    {
      found := false;
      if !fails(0) {
        found := e.employee in employees;
      }
      if !found {
        var _ := Exec(PlaceholderEmployer(e.employee, log.time, log.key.tx), false, fails(1));
        var _ := Exec(PlaceholderEmployee(e.employee, log.time, log.key.tx), false, fails(2));
      }
    }

    /** Only the claim insert reports its error; the check, both placeholders and the withdrawal update do not. */
    method SaveSalaryClaimed(log: Log, e: Event, fails: nat -> bool) returns (ok: bool)
      requires e.SalaryClaimed?
      modifies this`transactions, this`events, this`employers, this`employees, this`fundings, this`claims
      ensures var p := HandleAll(Session(old(Snapshot()), false), Projection(log, e), fails);
              p.session.db == Snapshot() && p.ok == ok
      // whatever the other statements did, success means that the claim is stored
      ensures ok <==> !fails(3) && (log.key in old(claims) || e.employee in employees)
      ensures claims == if ok && log.key !in old(claims) then old(claims)[log.key := ClaimRow(e.employee, e.amount, log.block, log.time)]
                        else old(claims)
    {
      ClaimInsertDecides(Snapshot(), log, e, fails);
      hide ClaimOf;
      ghost var sts := Projection(log, e);
      HandleFive(Session(Snapshot(), false), sts[0], sts[1], sts[2], sts[3], sts[4], fails);
      var found := EnsureClaimant(log, e, fails);
      ok := Exec(InsertClaim(log.key, ClaimOf(log, e)), found, fails(3));
      if !ok {
        return;
      }
      var _ := Exec(UpdateWithdraw(e.employee, log.time, log.key.tx), found, fails(4));
    }

    method ProjectPayrollEvent(log: Log, e: Event, fails: nat -> bool) returns (ok: bool)
      modifies this`transactions, this`events, this`employers, this`employees, this`fundings, this`claims
      ensures var p := HandleAll(Session(old(Snapshot()), false), Projection(log, e), fails);
              p.session.db == Snapshot() && p.ok == ok
    {
      match e
      case EmployerAdded(_) => ok := SaveEmployerAdded(log, e, fails);
      case EmployerRemoved(_) => ok := SaveEmployerRemoved(log, e, fails);
      case EmployeeAdded(_, _, _, _) => ok := SaveEmployeeAdded(log, e, fails);
      case EmployeeRemoved(_, _) => ok := SaveEmployeeRemoved(log, e, fails);
      case PayrollFunded(_, _, _, _, _) => ok := SavePayrollFunded(log, e, fails);
      case SalaryClaimed(_, _) => ok := SaveSalaryClaimed(log, e, fails);
      case OwnershipTransferred(_, _) => ok := true;
    }
  }
}
