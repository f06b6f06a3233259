/** The claim projection ignores the errors of four of its five statements (persistence/payroll.go, saveSalaryClaimed). */
module ClaimErrors {
  import opened Evm
  import opened Words
  import opened PayrollTables
  import opened ReplayConvergence

  /** Which of the statements whose errors are ignored fail during one claim. */
  datatype Faults = Faults(check: bool, employer: bool, employee: bool, update: bool)

  const NO_FAULTS: Faults := Faults(false, false, false, false)

  /** The claim as written: an unanswered check counts as not found, and only the claim insert can report an error. */
  function SaveClaim(db: Tables, log: Log, e: Event, faults: Faults): Result<Tables>
    requires e.SalaryClaimed?
  {
    var (t, tx) := (log.time, log.key.tx);
    var found := !faults.check && e.employee in db.employees;
    var d1 := if faults.employer then db else Write(db, PlaceholderEmployer(e.employee, t, tx), found);
    var insert := PlaceholderEmployee(e.employee, t, tx);
    var d2 := if faults.employee || !Allowed(d1, insert, found) then d1 else Write(d1, insert, found);
    var claim := InsertClaim(log.key, ClaimOf(log, e));
    if !Allowed(d2, claim, found) then Error
    else
      var d3 := Write(d2, claim, found);
      Ok(if faults.update then d3 else Write(d3, UpdateWithdraw(e.employee, t, tx), found))
  }

  lemma RunFive(db: Tables, a: Statement, b: Statement, c: Statement, d: Statement, e: Statement)
    ensures Run(db, [a, b, c, d, e]) == Effect(Effect(Effect(Effect(Effect(db, a), b), c), d), e)
  {
    var d1 := Effect(db, a);
    var d2 := Effect(d1, b);
    var d3 := Effect(d2, c);
    var d4 := Effect(d3, d);
    RunCons(d4, e, []);
    RunCons(d3, d, [e]);
    RunCons(d2, c, [d, e]);
    RunCons(d1, b, [c, d, e]);
    RunCons(db, a, [b, c, d, e]);
  }

  lemma SaveClaimWithoutFaults(db: Tables, log: Log, e: Event)
    requires e.SalaryClaimed?
    ensures SaveClaim(db, log, e, NO_FAULTS) == Ok(Run(db, Projection(log, e)))
  {
    hide Run, Write, Allowed, Effect;
    var sts := Projection(log, e);
    RunFive(db, sts[0], sts[1], sts[2], sts[3], sts[4]);
    PlaceholdersWithoutFaults(db, log, e);
  }

  lemma CheckAndPlaceholderEmployer(db: Tables, employee: Address, t: nat, tx: Hash)
    ensures var d1 := Effect(db, PlaceholderEmployer(employee, t, tx));
            && Effect(db, CheckEmployee(employee)) == db
            && d1 == Write(db, PlaceholderEmployer(employee, t, tx), employee in db.employees)
            && d1.employees == db.employees && (employee !in db.employees ==> ZERO_ADDRESS in d1.employers)
  {
  }

  lemma PlaceholderEmployeeStep(d1: Tables, employee: Address, t: nat, tx: Hash)
    requires employee !in d1.employees ==> ZERO_ADDRESS in d1.employers
    ensures var st := PlaceholderEmployee(employee, t, tx);
            && Effect(d1, st) == Write(d1, st, employee in d1.employees)
            && Allowed(d1, st, employee in d1.employees) && employee in Effect(d1, st).employees
  {
  }

  lemma ClaimAndWithdrawSteps(d2: Tables, key: LogKey, claim: ClaimRow, t: nat, tx: Hash, known: bool)
    requires claim.employee in d2.employees
    ensures Allowed(d2, InsertClaim(key, claim), known) && Effect(d2, InsertClaim(key, claim)) == Write(d2, InsertClaim(key, claim), known)
    ensures var update := UpdateWithdraw(claim.employee, t, tx);
            forall d3: Tables :: Effect(d3, update) == Write(d3, update, known)
  {
  }

  /** While nobody else runs, the answer of the check stays true until the claim is inserted. */
  lemma PlaceholdersWithoutFaults(db: Tables, log: Log, e: Event)
    requires e.SalaryClaimed?
    ensures var sts := Projection(log, e);
            var known := e.employee in db.employees;
            var d1 := Write(db, sts[1], known);
            var d2 := Write(d1, sts[2], known);
            var d3 := Write(d2, sts[3], known);
            && sts[0].CheckEmployee? && Effect(db, sts[0]) == db
            && Effect(db, sts[1]) == d1 && Effect(d1, sts[2]) == d2 && Effect(d2, sts[3]) == d3
            && Allowed(d1, sts[2], known) && Allowed(d2, sts[3], known)
            && Write(d3, sts[4], known) == Effect(d3, sts[4])
  {
    hide Write, Allowed, Effect;
    var (t, tx) := (log.time, log.key.tx);
    CheckAndPlaceholderEmployer(db, e.employee, t, tx);
    var d1 := Effect(db, PlaceholderEmployer(e.employee, t, tx));
    PlaceholderEmployeeStep(d1, e.employee, t, tx);
    ClaimAndWithdrawSteps(Effect(d1, PlaceholderEmployee(e.employee, t, tx)), log.key, ClaimOf(log, e), t, tx, e.employee in db.employees);
  }

  lemma ClaimOfKnownEmployee(db: Tables, log: Log, e: Event, faults: Faults)
    requires e.SalaryClaimed? && e.employee in db.employees
    ensures SaveClaim(db, log, e, faults) == Ok(db.(
              employers := if faults.check && !faults.employer
                           then InsertIfAbsent(db.employers, ZERO_ADDRESS, NewEmployer(log.time, log.key.tx)) else db.employers,
              claims := InsertIfAbsent(db.claims, log.key, ClaimOf(log, e)),
              employees := if faults.update then db.employees
                           else db.employees[e.employee := EmployeeAfterWithdraw(db.employees[e.employee], log.time, log.key.tx)]))
  {
  }

  lemma ClaimOfCreatedEmployee(db: Tables, log: Log, e: Event, faults: Faults)
    requires e.SalaryClaimed? && e.employee !in db.employees
    requires !faults.employee && (!faults.employer || ZERO_ADDRESS in db.employers)
    ensures var row := NewEmployee(ZERO_ADDRESS, log.time, log.key.tx);
            SaveClaim(db, log, e, faults) == Ok(db.(
              employers := if faults.employer then db.employers
                           else InsertIfAbsent(db.employers, ZERO_ADDRESS, NewEmployer(log.time, log.key.tx)),
              claims := InsertIfAbsent(db.claims, log.key, ClaimOf(log, e)),
              employees := db.employees[e.employee := if faults.update then row else EmployeeAfterWithdraw(row, log.time, log.key.tx)]))
  {
    hide EmployeeAfterWithdraw, NewEmployee, NewEmployer;
    var found := !faults.check && e.employee in db.employees;
    var d1 := if faults.employer then db else Write(db, PlaceholderEmployer(e.employee, log.time, log.key.tx), found);
    assert ZERO_ADDRESS in d1.employers && d1.employees == db.employees;
    var row := NewEmployee(ZERO_ADDRESS, log.time, log.key.tx);
    assert InsertIfAbsent(d1.employees, e.employee, row) == db.employees[e.employee := row];
    var updated := EmployeeAfterWithdraw(row, log.time, log.key.tx);
    assert db.employees[e.employee := row][e.employee := updated] == db.employees[e.employee := updated];
  }

  lemma ClaimOfLostEmployee(db: Tables, log: Log, e: Event, faults: Faults)
    requires e.SalaryClaimed? && e.employee !in db.employees
    requires faults.employee || (faults.employer && ZERO_ADDRESS !in db.employers)
    ensures var actual := SaveClaim(db, log, e, faults);
            actual.Ok? ==> actual.value.employees == db.employees
  {
  }

  /** A swallowed error is harmless exactly when it could not matter: the failed check concerned a known employee whose
      zero-address placeholder already exists or was not written, a new employee still got its rows, and a lost
      withdrawal update would have changed nothing. */
  lemma SwallowedErrorsAreHarmlessExactlyWhen(db: Tables, log: Log, e: Event, faults: Faults)
    requires e.SalaryClaimed?
    ensures SaveClaim(db, log, e, faults) == SaveClaim(db, log, e, NO_FAULTS) <==>
            && (e.employee in db.employees && faults.check ==> faults.employer || ZERO_ADDRESS in db.employers)
            && (e.employee !in db.employees ==> !faults.employee && (!faults.employer || ZERO_ADDRESS in db.employers))
            && (faults.update ==>
                  && e.employee in db.employees
                  && db.employees[e.employee].lastWithdraw == Some(log.time)
                  && db.employees[e.employee].latestTx == log.key.tx)
  {
    hide SaveClaim;
    var ee, t, tx := e.employee, log.time, log.key.tx;
    if ee in db.employees {
      ClaimOfKnownEmployee(db, log, e, faults);
      ClaimOfKnownEmployee(db, log, e, NO_FAULTS);
      var row := db.employees[ee];
      assert db.employees == db.employees[ee := EmployeeAfterWithdraw(row, t, tx)] <==>
             row.lastWithdraw == Some(t) && row.latestTx == tx by {
        assert db.employees[ee := EmployeeAfterWithdraw(row, t, tx)][ee] == EmployeeAfterWithdraw(row, t, tx);
      }
      assert db.employers == InsertIfAbsent(db.employers, ZERO_ADDRESS, NewEmployer(t, tx)) <==> ZERO_ADDRESS in db.employers;
    } else {
      if !faults.employee && (!faults.employer || ZERO_ADDRESS in db.employers) {
        ClaimOfCreatedEmployee(db, log, e, faults);
      } else {
        ClaimOfLostEmployee(db, log, e, faults);
      }
      ClaimOfCreatedEmployee(db, log, e, NO_FAULTS);
      var clean, actual := SaveClaim(db, log, e, NO_FAULTS), SaveClaim(db, log, e, faults);
      assert ee in clean.value.employees && clean.value.employees[ee].lastWithdraw == Some(t);
      if faults.update && actual.Ok? && ee in actual.value.employees {
        assert actual.value.employees[ee].lastWithdraw == None;
      }
    }
  }

  function FaultAt(faults: Faults): nat -> bool {
    (i: nat) =>
      if i == 0 then faults.check else if i == 1 then faults.employer else if i == 2 then faults.employee
      else i == 4 && faults.update
  }

  lemma AlwaysAllowed()
    ensures forall db: Tables, st: Statement, guard: bool ::
              st.CheckEmployee? || st.PlaceholderEmployer? || st.UpdateWithdraw? ==> Allowed(db, st, guard)
  {
  }

  /** SaveClaim is the claim's statement list run under the rules for failing statements. */
  lemma ClaimIsHandled(db: Tables, log: Log, e: Event, faults: Faults)
    requires e.SalaryClaimed?
    ensures var p := HandleAll(Session(db, false), Projection(log, e), FaultAt(faults));
            && p.ok == SaveClaim(db, log, e, faults).Ok?
            && (p.ok ==> SaveClaim(db, log, e, faults) == Ok(p.session.db))
  {
    hide Write, Allowed, HandleAll;
    var sts := Projection(log, e);
    AlwaysAllowed();
    HandleFive(Session(db, false), sts[0], sts[1], sts[2], sts[3], sts[4], FaultAt(faults));
  }
}
