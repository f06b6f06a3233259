/** What the payroll tables say about the event history: after one pass over a decodable list of logs every column of every
    row is read off the events themselves (persistence/payroll.go, persistence/chain_events.go, persistence/transactions.go). */
module PayrollHistory {
  import opened Evm
  import opened Words
  import opened PayrollTables
  import C = ClaimErrors
  import I = PayrollIndexer
  import P = PayrollProjection
  import W = PayrollWorkers

  // ---- The first and the last log of a kind ------------------------------------------------------------------------

  function Last(logs: seq<Log>, p: Log -> bool): Option<Log> {
    if logs == [] then None
    else if p(logs[|logs| - 1]) then Some(logs[|logs| - 1])
    else Last(logs[..|logs| - 1], p)
  }

  /** p may look at the logs before. */
  function First(logs: seq<Log>, p: (seq<Log>, Log) -> bool): Option<Log> {
    if logs == [] then None
    else
      var (init, last) := (logs[..|logs| - 1], logs[|logs| - 1]);
      var earlier := First(init, p);
      if earlier.Some? then earlier else if p(init, last) then Some(last) else None
  }

  predicate IsLast(logs: seq<Log>, p: Log -> bool, i: nat) {
    i < |logs| && p(logs[i]) && forall j :: i < j < |logs| ==> !p(logs[j])
  }

  lemma {:induction false} LastIsLast(logs: seq<Log>, p: Log -> bool)
    ensures match Last(logs, p)
            case None => forall i :: 0 <= i < |logs| ==> !p(logs[i])
            case Some(l) => exists i: nat :: IsLast(logs, p, i) && logs[i] == l
  {
    if logs != [] {
      var init := logs[..|logs| - 1];
      if p(logs[|logs| - 1]) {
        assert IsLast(logs, p, |logs| - 1);
      } else {
        LastIsLast(init, p);
        if Last(init, p).Some? {
          var i: nat :| IsLast(init, p, i) && init[i] == Last(init, p).value;
          assert forall j :: i < j < |init| ==> logs[j] == init[j];
          assert IsLast(logs, p, i) && logs[i] == init[i];
        }
      }
    }
  }

  lemma {:induction false} FirstIsFirst(logs: seq<Log>, p: (seq<Log>, Log) -> bool)
    ensures match First(logs, p)
            case None => forall i :: 0 <= i < |logs| ==> !p(logs[..i], logs[i])
            case Some(l) => exists i :: 0 <= i < |logs| && logs[i] == l && p(logs[..i], l) && forall j :: 0 <= j < i ==> !p(logs[..j], logs[j])
  {
    if logs != [] {
      var init := logs[..|logs| - 1];
      FirstIsFirst(init, p);
      assert forall j :: 0 <= j < |init| ==> init[..j] == logs[..j] && init[j] == logs[j];
      match First(init, p)
      case None =>
        assert init == logs[..|init|];
      case Some(l) =>
        var i :| 0 <= i < |init| && init[i] == l && p(init[..i], l) && forall j :: 0 <= j < i ==> !p(init[..j], init[j]);
        assert logs[i] == l;
    }
  }

  lemma LastOneMore(init: seq<Log>, last: Log, p: Log -> bool)
    ensures Last(init + [last], p) == if p(last) then Some(last) else Last(init, p)
  {
    assert (init + [last])[..|init|] == init;
  }

  lemma FirstOneMore(init: seq<Log>, last: Log, p: (seq<Log>, Log) -> bool)
    ensures First(init + [last], p) == if First(init, p).Some? then First(init, p) else if p(init, last) then Some(last) else None
  {
    assert (init + [last])[..|init|] == init;
  }

  // ---- What a log does to an employee ------------------------------------------------------------------------------

  predicate Live(l: Log) {
    !l.removed && l.event.Some?
  }

  predicate Adds(l: Log, e: Address) {
    Live(l) && l.event.value.EmployeeAdded? && l.event.value.employee == e
  }

  predicate Removes(l: Log, e: Address) {
    Live(l) && l.event.value.EmployeeRemoved? && l.event.value.employee == e
  }

  predicate Claims(l: Log, e: Address) {
    Live(l) && l.event.value.SalaryClaimed? && l.event.value.employee == e
  }

  predicate Funds(l: Log, e: Address) {
    Live(l) && l.event.value.PayrollFunded? && l.event.value.employee == e
  }

  function Adding(e: Address): Log -> bool {
    l => Adds(l, e)
  }

  function Removing(e: Address): Log -> bool {
    l => Removes(l, e)
  }

  function Claiming(e: Address): Log -> bool {
    l => Claims(l, e)
  }

  function Deciding(e: Address): Log -> bool {
    l => Adds(l, e) || Removes(l, e)
  }

  function Writing(e: Address): Log -> bool {
    l => Adds(l, e) || Removes(l, e) || Claims(l, e)
  }

  /** The logs that leave a row for the employee. */
  function Mentioning(e: Address): (seq<Log>, Log) -> bool {
    (before, l) => Adds(l, e) || Removes(l, e) || Claims(l, e) || Funds(l, e)
  }

  function FirstAdding(e: Address): (seq<Log>, Log) -> bool {
    (before, l) => Adds(l, e)
  }

  function TimeOf(l: Option<Log>): Option<nat> {
    if l.Some? then Some(l.value.time) else None
  }

  /** Salary, allocation and employer are those of the last addition; without one the defaults of the log that created the
      row, whose claim knows no employer. */
  predicate TermsRead(row: EmployeeRow, logs: seq<Log>, e: Address) {
    match Last(logs, Adding(e))
    case Some(l) =>
      && l.event.Some? && l.event.value.EmployeeAdded?
      && row.salary == l.event.value.salary && row.allocation == Some(l.event.value.allocation) && row.employer == l.event.value.employer
    case None =>
      var first := First(logs, Mentioning(e));
      && row.salary == 0 && row.allocation == None
      && first.Some? && first.value.event.Some?
      && (first.value.event.value.EmployeeRemoved? ==> row.employer == first.value.event.value.employer)
      && (first.value.event.value.PayrollFunded? ==> row.employer == first.value.event.value.employer)
      && (first.value.event.value.SalaryClaimed? ==> row.employer == ZERO_ADDRESS)
  }

  /** The state is that of the last addition or removal; the removal columns keep the last removal, the withdrawal column the
      last claim, and the transaction is that of the last log that wrote the row. */
  predicate StateReads(row: EmployeeRow, logs: seq<Log>, e: Address) {
    && row.active == (match Last(logs, Deciding(e)) case None => true case Some(l) => Adds(l, e))
    && row.removedAt == TimeOf(Last(logs, Removing(e))) && row.deactivation == row.removedAt
    && row.lastWithdraw == TimeOf(Last(logs, Claiming(e)))
    && match Last(logs, Writing(e))
       case Some(l) => row.latestTx == l.key.tx
       case None => First(logs, Mentioning(e)).Some? && row.latestTx == First(logs, Mentioning(e)).value.key.tx
  }

  /** The time of the log that created the row, or, if that removed the employee, of the first addition. */
  predicate AddedReads(row: EmployeeRow, logs: seq<Log>, e: Address) {
    var first := First(logs, Mentioning(e));
    && first.Some?
    && row.addedAt == if Removes(first.value, e) then TimeOf(First(logs, FirstAdding(e))) else Some(first.value.time)
  }

  predicate EmployeeReads(db: Tables, logs: seq<Log>, e: Address) {
    && (e in db.employees <==> First(logs, Mentioning(e)).Some?)
    && (e in db.employees ==>
          TermsRead(db.employees[e], logs, e) && StateReads(db.employees[e], logs, e) && AddedReads(db.employees[e], logs, e))
  }

  // ---- What a program does to the tables ---------------------------------------------------------------------------

  lemma RunProgram(db: Tables, log: Log)
    requires log.event.Some?
    ensures var stored := db.(transactions := db.transactions[log.key.tx := log.receipt],
                              events := db.events[log.key := EventAfterSave(Get(db.events, log.key), EventOf(log, log.event.value))]);
            Run(db, Program(log)) == Run(stored, if log.removed then [] else Projection(log, log.event.value))
  {
    var a, b := SaveTransaction(log.key.tx, log.receipt), SaveChainEvent(log.key, EventOf(log, log.event.value));
    var rest := if log.removed then [] else Projection(log, log.event.value);
    assert Program(log) == [a] + ([b] + rest);
    RunCons(db, a, [b] + rest);
    RunCons(Effect(db, a), b, rest);
  }

  lemma RunOne(db: Tables, a: Statement)
    ensures Run(db, [a]) == Effect(db, a)
  {
    assert [a][1..] == [];
  }

  lemma RunTwo(db: Tables, a: Statement, b: Statement)
    ensures Run(db, [a, b]) == Effect(Effect(db, a), b)
  {
    assert [a, b][1..] == [b];
    RunOne(Effect(db, a), b);
  }

  lemma RunThree(db: Tables, a: Statement, b: Statement, c: Statement)
    ensures Run(db, [a, b, c]) == Effect(Effect(Effect(db, a), b), c)
  {
    assert [a, b, c][1..] == [b, c];
    RunTwo(Effect(db, a), b, c);
  }

  /** The tables after the projection of one event, table by table. */
  function ProjectedEmployees(employees: map<Address, EmployeeRow>, log: Log, e: Event): map<Address, EmployeeRow> {
    var (t, tx) := (log.time, log.key.tx);
    match e
    case EmployeeAdded(ee, w, s, a) => employees[ee := EmployeeAfterAdded(Get(employees, ee), w, s, a, t, tx)]
    case EmployeeRemoved(ee, w) => employees[ee := EmployeeAfterRemoved(Get(employees, ee), w, t, tx)]
    case PayrollFunded(w, ee, _, _, _) => InsertIfAbsent(employees, ee, NewEmployee(w, t, tx))
    case SalaryClaimed(ee, _) =>
      employees[ee := EmployeeAfterWithdraw(if ee in employees then employees[ee] else NewEmployee(ZERO_ADDRESS, t, tx), t, tx)]
    case _ => employees
  }

  function ProjectedEmployers(employers: map<Address, EmployerRow>, employees: map<Address, EmployeeRow>, log: Log, e: Event)
    : map<Address, EmployerRow>
  {
    var (t, tx) := (log.time, log.key.tx);
    match e
    case EmployerAdded(w) => employers[w := EmployerAfterAdded(Get(employers, w), t, tx)]
    case EmployerRemoved(w) => employers[w := EmployerAfterRemoved(Get(employers, w), t, tx)]
    case EmployeeAdded(_, w, _, _) => InsertIfAbsent(employers, w, NewEmployer(t, tx))
    case EmployeeRemoved(_, w) => InsertIfAbsent(employers, w, NewEmployer(t, tx))
    case PayrollFunded(w, _, _, _, _) => InsertIfAbsent(employers, w, NewEmployer(t, tx))
    case SalaryClaimed(ee, _) => if ee in employees then employers else InsertIfAbsent(employers, ZERO_ADDRESS, NewEmployer(t, tx))
    case OwnershipTransferred(_, _) => employers
  }

  function Projected(db: Tables, log: Log, e: Event): Tables {
    db.(employers := ProjectedEmployers(db.employers, db.employees, log, e),
        employees := ProjectedEmployees(db.employees, log, e),
        fundings := if e.PayrollFunded? then InsertIfAbsent(db.fundings, log.key, FundingOf(log, e)) else db.fundings,
        claims := if e.SalaryClaimed? then InsertIfAbsent(db.claims, log.key, ClaimOf(log, e)) else db.claims)
  }

  lemma RunProjection(db: Tables, log: Log, e: Event)
    ensures Run(db, Projection(log, e)) == Projected(db, log, e)
  {
    hide Run;
    if e.SalaryClaimed? {
      RunClaim(db, log, e);
    } else if e.PayrollFunded? {
      RunFunding(db, log, e);
    } else if e.EmployeeAdded? || e.EmployeeRemoved? {
      RunEmployee(db, log, e);
    } else if !e.OwnershipTransferred? {
      RunOne(db, Projection(log, e)[0]);
    } else {
      RunNothing(db);
    }
  }

  lemma RunEmployee(db: Tables, log: Log, e: Event)
    requires e.EmployeeAdded? || e.EmployeeRemoved?
    ensures Run(db, Projection(log, e)) == Projected(db, log, e)
  {
    hide Run;
    RunTwo(db, Projection(log, e)[0], Projection(log, e)[1]);
  }

  lemma RunFunding(db: Tables, log: Log, e: Event)
    requires e.PayrollFunded?
    ensures Run(db, Projection(log, e)) == Projected(db, log, e)
  {
    hide Run;
    RunThree(db, Projection(log, e)[0], Projection(log, e)[1], Projection(log, e)[2]);
  }

  lemma RunClaim(db: Tables, log: Log, e: Event)
    requires e.SalaryClaimed?
    ensures Run(db, Projection(log, e)) == Projected(db, log, e)
  {
    hide Run;
    C.SaveClaimWithoutFaults(db, log, e);
    if e.employee in db.employees {
      C.ClaimOfKnownEmployee(db, log, e, C.NO_FAULTS);
    } else {
      C.ClaimOfCreatedEmployee(db, log, e, C.NO_FAULTS);
    }
  }

  /** The tables after a whole log. */
  lemma RunLog(db: Tables, log: Log)
    requires log.event.Some?
    ensures var stored := db.(transactions := db.transactions[log.key.tx := log.receipt],
                              events := db.events[log.key := EventAfterSave(Get(db.events, log.key), EventOf(log, log.event.value))]);
            Run(db, Program(log)) == if log.removed then stored else Projected(stored, log, log.event.value)
  {
    hide Run, Program, Projection, Projected;
    RunProgram(db, log);
    var stored := db.(transactions := db.transactions[log.key.tx := log.receipt],
                      events := db.events[log.key := EventAfterSave(Get(db.events, log.key), EventOf(log, log.event.value))]);
    if log.removed {
      RunNothing(stored);
    } else {
      RunProjection(stored, log, log.event.value);
    }
  }

  lemma RunNothing(db: Tables)
    ensures Run(db, []) == db
  {
  }

  // ---- Employees ---------------------------------------------------------------------------------------------------

  lemma EmployeeLogsOneMore(init: seq<Log>, log: Log, e: Address)
    ensures var logs := init + [log];
            && Last(logs, Adding(e)) == (if Adds(log, e) then Some(log) else Last(init, Adding(e)))
            && Last(logs, Removing(e)) == (if Removes(log, e) then Some(log) else Last(init, Removing(e)))
            && Last(logs, Claiming(e)) == (if Claims(log, e) then Some(log) else Last(init, Claiming(e)))
            && Last(logs, Deciding(e)) == (if Adds(log, e) || Removes(log, e) then Some(log) else Last(init, Deciding(e)))
            && Last(logs, Writing(e)) == (if Adds(log, e) || Removes(log, e) || Claims(log, e) then Some(log) else Last(init, Writing(e)))
            && First(logs, Mentioning(e)) == (if First(init, Mentioning(e)).Some? then First(init, Mentioning(e))
                                              else if Adds(log, e) || Removes(log, e) || Claims(log, e) || Funds(log, e) then Some(log) else None)
            && First(logs, FirstAdding(e)) == (if First(init, FirstAdding(e)).Some? then First(init, FirstAdding(e))
                                               else if Adds(log, e) then Some(log) else None)
  {
    hide Adds, Removes, Claims, Funds, First, Last;
    LastOneMore(init, log, Adding(e));
    LastOneMore(init, log, Removing(e));
    LastOneMore(init, log, Claiming(e));
    LastOneMore(init, log, Deciding(e));
    LastOneMore(init, log, Writing(e));
    FirstOneMore(init, log, Mentioning(e));
    FirstOneMore(init, log, FirstAdding(e));
  }

  /** Nothing is there before the first log that mentions the employee. */
  lemma {:induction false} UnmentionedReads(logs: seq<Log>, e: Address)
    requires First(logs, Mentioning(e)).None?
    ensures Last(logs, Adding(e)).None? && Last(logs, Removing(e)).None? && Last(logs, Claiming(e)).None?
    ensures Last(logs, Deciding(e)).None? && Last(logs, Writing(e)).None? && First(logs, FirstAdding(e)).None?
  {
    hide Adds, Removes, Claims, Funds;
    if logs != [] {
      UnmentionedReads(logs[..|logs| - 1], e);
    }
  }

  lemma {:induction false} FirstAdditionIsMentioned(logs: seq<Log>, e: Address)
    ensures Last(logs, Adding(e)).Some? <==> First(logs, FirstAdding(e)).Some?
  {
    hide Adds;
    if logs != [] {
      FirstAdditionIsMentioned(logs[..|logs| - 1], e);
    }
  }

  lemma EmployeeStep(db: Tables, init: seq<Log>, log: Log, e: Address)
    requires EmployeeReads(db, init, e) && log.event.Some?
    ensures EmployeeReads(Run(db, Program(log)), init + [log], e)
  {
    hide Run, Program, First, Last, EmployeeReads, Projected;
    RunLog(db, log);
    var stored := db.(transactions := db.transactions[log.key.tx := log.receipt],
                      events := db.events[log.key := EventAfterSave(Get(db.events, log.key), EventOf(log, log.event.value))]);
    OnlyEmployeesMatter(db, stored, init, e);
    if log.removed {
      SilentStep(stored, stored, init, log, e);
    } else {
      ProjectedStep(stored, init, log, e);
    }
  }

  lemma OnlyEmployeesMatter(a: Tables, b: Tables, logs: seq<Log>, e: Address)
    requires a.employees == b.employees && EmployeeReads(a, logs, e)
    ensures EmployeeReads(b, logs, e)
  {
    hide First, Last;
  }

  lemma SilentStep(db: Tables, after: Tables, init: seq<Log>, log: Log, e: Address)
    requires EmployeeReads(db, init, e) && Get(after.employees, e) == Get(db.employees, e)
    requires !Adds(log, e) && !Removes(log, e) && !Claims(log, e) && !(Funds(log, e) && First(init, Mentioning(e)).None?)
    ensures EmployeeReads(after, init + [log], e)
  {
    hide First, Last, Adds, Removes, Claims, Funds;
    EmployeeLogsOneMore(init, log, e);
  }

  lemma ProjectedStep(db: Tables, init: seq<Log>, log: Log, e: Address)
    requires EmployeeReads(db, init, e) && Live(log)
    ensures EmployeeReads(Projected(db, log, log.event.value), init + [log], e)
  {
    hide First, Last, EmployeeReads, ProjectedEmployees, ProjectedEmployers;
    var after := Projected(db, log, log.event.value);
    EmployeeIsThere(db, init, e);
    if Adds(log, e) || Removes(log, e) || Claims(log, e) || (Funds(log, e) && e !in db.employees) {
      TouchedEmployee(db.employees, log, e);
      if Adds(log, e) {
        AddStep(db, after, init, log, e);
      } else if Removes(log, e) {
        RemoveStep(db, after, init, log, e);
      } else if Claims(log, e) {
        ClaimStep(db, after, init, log, e);
      } else {
        FundStep(db, after, init, log, e);
      }
    } else {
      UntouchedEmployee(db.employees, log, e);
      SilentStep(db, after, init, log, e);
    }
  }

  lemma TouchedEmployee(employees: map<Address, EmployeeRow>, log: Log, e: Address)
    requires Live(log)
    ensures var (a, after) := (log.event.value, ProjectedEmployees(employees, log, log.event.value));
            var (t, tx) := (log.time, log.key.tx);
            && (Adds(log, e) ==> after == employees[e := EmployeeAfterAdded(Get(employees, e), a.employer, a.salary, a.allocation, t, tx)])
            && (Removes(log, e) ==> after == employees[e := EmployeeAfterRemoved(Get(employees, e), a.employer, t, tx)])
            && (Claims(log, e) ==> after == employees[e := EmployeeAfterWithdraw(
                  if e in employees then employees[e] else NewEmployee(ZERO_ADDRESS, t, tx), t, tx)])
            && (Funds(log, e) && e !in employees ==> after == employees[e := NewEmployee(a.employer, t, tx)])
  {
    hide EmployeeAfterAdded, EmployeeAfterRemoved, EmployeeAfterWithdraw, NewEmployee;
  }

  lemma UntouchedEmployee(employees: map<Address, EmployeeRow>, log: Log, e: Address)
    requires Live(log) && !Adds(log, e) && !Removes(log, e) && !Claims(log, e) && !(Funds(log, e) && e !in employees)
    ensures Get(ProjectedEmployees(employees, log, log.event.value), e) == Get(employees, e)
  {
    hide EmployeeAfterAdded, EmployeeAfterRemoved, EmployeeAfterWithdraw, NewEmployee;
  }

  lemma EmployeeIsThere(db: Tables, logs: seq<Log>, e: Address)
    requires EmployeeReads(db, logs, e)
    ensures e in db.employees <==> First(logs, Mentioning(e)).Some?
  {
  }

  lemma AddStep(db: Tables, after: Tables, init: seq<Log>, log: Log, e: Address)
    requires EmployeeReads(db, init, e) && Adds(log, e)
    requires var a := log.event.value;
             after.employees == db.employees[e := EmployeeAfterAdded(Get(db.employees, e), a.employer, a.salary, a.allocation, log.time, log.key.tx)]
    ensures EmployeeReads(after, init + [log], e)
  {
    hide First, Last;
    EmployeeLogsOneMore(init, log, e);
    FirstAdditionIsMentioned(init, e);
    if e !in db.employees {
      UnmentionedReads(init, e);
    }
  }

  lemma RemoveStep(db: Tables, after: Tables, init: seq<Log>, log: Log, e: Address)
    requires EmployeeReads(db, init, e) && Removes(log, e)
    requires after.employees == db.employees[e := EmployeeAfterRemoved(Get(db.employees, e), log.event.value.employer, log.time, log.key.tx)]
    ensures EmployeeReads(after, init + [log], e)
  {
    hide First, Last;
    EmployeeLogsOneMore(init, log, e);
    if e !in db.employees {
      UnmentionedReads(init, e);
    }
  }

  lemma ClaimStep(db: Tables, after: Tables, init: seq<Log>, log: Log, e: Address)
    requires EmployeeReads(db, init, e) && Claims(log, e)
    requires var row := if e in db.employees then db.employees[e] else NewEmployee(ZERO_ADDRESS, log.time, log.key.tx);
             after.employees == db.employees[e := EmployeeAfterWithdraw(row, log.time, log.key.tx)]
    ensures EmployeeReads(after, init + [log], e)
  {
    hide First, Last;
    EmployeeLogsOneMore(init, log, e);
    if e !in db.employees {
      UnmentionedReads(init, e);
    }
  }

  lemma FundStep(db: Tables, after: Tables, init: seq<Log>, log: Log, e: Address)
    requires EmployeeReads(db, init, e) && Funds(log, e) && e !in db.employees
    requires after.employees == db.employees[e := NewEmployee(log.event.value.employer, log.time, log.key.tx)]
    ensures EmployeeReads(after, init + [log], e)
  {
    hide First, Last;
    EmployeeLogsOneMore(init, log, e);
    UnmentionedReads(init, e);
  }

  lemma ProgramsOneMore(init: seq<Log>, log: Log)
    requires Decodable(init + [log])
    ensures Decodable(init) && log.event.Some?
    ensures forall db :: Run(db, Programs(init + [log])) == Run(Run(db, Programs(init)), Program(log))
  {
    hide Program;
    assert (init + [log])[|init|] == log;
    assert forall i :: 0 <= i < |init| ==> init[i] == (init + [log])[i];
    ProgramsConcat(init, [log]);
    P.OneProgram(log);
    forall db
      ensures Run(db, Programs(init + [log])) == Run(Run(db, Programs(init)), Program(log))
    {
      RunConcat(db, Programs(init), Program(log));
    }
  }

  /** Every employee row after one pass over a decodable history: who has one, and each of its columns. */
  lemma {:induction false} EmployeesReadOffTheHistory(logs: seq<Log>, e: Address)
    requires Decodable(logs)
    ensures EmployeeReads(Run(EMPTY, Programs(logs)), logs, e)
  {
    hide Run, Programs, Program;
    if logs == [] {
      NothingReads(e);
    } else {
      var (init, last) := (logs[..|logs| - 1], logs[|logs| - 1]);
      assert logs == init + [last];
      ProgramsOneMore(init, last);
      EmployeesReadOffTheHistory(init, e);
      EmployeeStep(Run(EMPTY, Programs(init)), init, last, e);
    }
  }

  lemma NothingReads(e: Address)
    ensures EmployeeReads(Run(EMPTY, Programs([])), [], e)
  {
  }

  // ---- Employers ---------------------------------------------------------------------------------------------------

  predicate AddsEmployer(l: Log, w: Address) {
    Live(l) && l.event.value.EmployerAdded? && l.event.value.employer == w
  }

  predicate RemovesEmployer(l: Log, w: Address) {
    Live(l) && l.event.value.EmployerRemoved? && l.event.value.employer == w
  }

  /** The log needs the employer's row for a foreign key; a claim of an employee nobody mentioned before needs that of the zero
      address. */
  predicate NeedsEmployer(before: seq<Log>, l: Log, w: Address) {
    && Live(l)
    && match l.event.value
       case EmployeeAdded(_, employer, _, _) => employer == w
       case EmployeeRemoved(_, employer) => employer == w
       case PayrollFunded(employer, _, _, _, _) => employer == w
       case SalaryClaimed(e, _) => w == ZERO_ADDRESS && First(before, Mentioning(e)).None?
       case _ => false
  }

  function AddingEmployer(w: Address): (seq<Log>, Log) -> bool {
    (before, l) => AddsEmployer(l, w)
  }

  function RemovingEmployer(w: Address): Log -> bool {
    l => RemovesEmployer(l, w)
  }

  function DecidingEmployer(w: Address): Log -> bool {
    l => AddsEmployer(l, w) || RemovesEmployer(l, w)
  }

  function MentioningEmployer(w: Address): (seq<Log>, Log) -> bool {
    (before, l) => AddsEmployer(l, w) || RemovesEmployer(l, w) || NeedsEmployer(before, l, w)
  }

  predicate EmployerRowReads(row: EmployerRow, logs: seq<Log>, w: Address) {
    var first := First(logs, MentioningEmployer(w));
    && first.Some?
    && row.addedAt == (if RemovesEmployer(first.value, w) then TimeOf(First(logs, AddingEmployer(w))) else Some(first.value.time))
    && row.removedAt == TimeOf(Last(logs, RemovingEmployer(w))) && row.deactivation == row.removedAt
    && match Last(logs, DecidingEmployer(w))
       case Some(l) => row.active == AddsEmployer(l, w) && row.latestTx == l.key.tx
       case None => row.active && row.latestTx == first.value.key.tx
  }

  predicate EmployerReads(db: Tables, logs: seq<Log>, w: Address) {
    && (w in db.employers <==> First(logs, MentioningEmployer(w)).Some?)
    && (w in db.employers ==> EmployerRowReads(db.employers[w], logs, w))
  }

  lemma EmployerLogsOneMore(init: seq<Log>, log: Log, w: Address)
    ensures var logs := init + [log];
            && Last(logs, RemovingEmployer(w)) == (if RemovesEmployer(log, w) then Some(log) else Last(init, RemovingEmployer(w)))
            && Last(logs, DecidingEmployer(w)) ==
               (if AddsEmployer(log, w) || RemovesEmployer(log, w) then Some(log) else Last(init, DecidingEmployer(w)))
            && First(logs, MentioningEmployer(w)) == (if First(init, MentioningEmployer(w)).Some? then First(init, MentioningEmployer(w))
                 else if AddsEmployer(log, w) || RemovesEmployer(log, w) || NeedsEmployer(init, log, w) then Some(log) else None)
            && First(logs, AddingEmployer(w)) == (if First(init, AddingEmployer(w)).Some? then First(init, AddingEmployer(w))
                                                  else if AddsEmployer(log, w) then Some(log) else None)
  {
    hide AddsEmployer, RemovesEmployer, NeedsEmployer, First, Last;
    LastOneMore(init, log, RemovingEmployer(w));
    LastOneMore(init, log, DecidingEmployer(w));
    FirstOneMore(init, log, MentioningEmployer(w));
    FirstOneMore(init, log, AddingEmployer(w));
  }

  lemma {:induction false} UnmentionedEmployerReads(logs: seq<Log>, w: Address)
    requires First(logs, MentioningEmployer(w)).None?
    ensures Last(logs, RemovingEmployer(w)).None? && Last(logs, DecidingEmployer(w)).None? && First(logs, AddingEmployer(w)).None?
  {
    hide AddsEmployer, RemovesEmployer, NeedsEmployer;
    if logs != [] {
      UnmentionedEmployerReads(logs[..|logs| - 1], w);
    }
  }

  /** The three ways in which a log writes an employer's row. */
  lemma ProjectedEmployer(employers: map<Address, EmployerRow>, employees: map<Address, EmployeeRow>, init: seq<Log>, log: Log, w: Address)
    requires Live(log)
    requires log.event.value.SalaryClaimed? ==>
               (log.event.value.employee in employees <==> First(init, Mentioning(log.event.value.employee)).Some?)
    ensures var after := ProjectedEmployers(employers, employees, log, log.event.value);
            Get(after, w) ==
              if AddsEmployer(log, w) then Some(EmployerAfterAdded(Get(employers, w), log.time, log.key.tx))
              else if RemovesEmployer(log, w) then Some(EmployerAfterRemoved(Get(employers, w), log.time, log.key.tx))
              else if NeedsEmployer(init, log, w) && w !in employers then Some(NewEmployer(log.time, log.key.tx))
              else Get(employers, w)
  {
    hide EmployerAfterAdded, EmployerAfterRemoved, NewEmployer, First;
  }

  lemma EmployerRowStep(db: Tables, after: Tables, init: seq<Log>, log: Log, w: Address)
    requires EmployerReads(db, init, w)
    requires Get(after.employers, w) ==
               if AddsEmployer(log, w) then Some(EmployerAfterAdded(Get(db.employers, w), log.time, log.key.tx))
               else if RemovesEmployer(log, w) then Some(EmployerAfterRemoved(Get(db.employers, w), log.time, log.key.tx))
               else if NeedsEmployer(init, log, w) && w !in db.employers then Some(NewEmployer(log.time, log.key.tx))
               else Get(db.employers, w)
    ensures EmployerReads(after, init + [log], w)
  {
    hide First, Last, NeedsEmployer;
    EmployerLogsOneMore(init, log, w);
    NotBoth(log, w);
    if w !in db.employers {
      UnmentionedEmployerReads(init, w);
    }
    assert w in after.employers ==> Get(after.employers, w) == Some(after.employers[w]);
  }

  lemma NotBoth(log: Log, w: Address)
    ensures !(AddsEmployer(log, w) && RemovesEmployer(log, w))
    ensures forall before :: NeedsEmployer(before, log, w) ==> !AddsEmployer(log, w) && !RemovesEmployer(log, w)
  {
  }

  /** Every employer row after one pass over a decodable history. */
  lemma {:induction false} EmployersReadOffTheHistory(logs: seq<Log>, w: Address)
    requires Decodable(logs)
    ensures EmployerReads(Run(EMPTY, Programs(logs)), logs, w)
  {
    hide Run, Programs, Program, EmployerReads, EmployeeReads, Projected, ProjectedEmployers, First, AddsEmployer, RemovesEmployer, NeedsEmployer;
    hide EmployerAfterAdded, EmployerAfterRemoved, NewEmployer;
    if logs == [] {
      NoEmployers(w);
    } else {
      var (init, log) := (logs[..|logs| - 1], logs[|logs| - 1]);
      assert logs == init + [log];
      ProgramsOneMore(init, log);
      EmployersReadOffTheHistory(init, w);
      var db := Run(EMPTY, Programs(init));
      RunLog(db, log);
      var after := Run(EMPTY, Programs(logs));
      if log.removed {
        RemovedLogsWriteNothing(init, log, w);
      } else {
        if log.event.value.SalaryClaimed? {
          EmployeesReadOffTheHistory(init, log.event.value.employee);
          EmployeeIsThere(db, init, log.event.value.employee);
        }
        ProjectedEmployer(db.employers, db.employees, init, log, w);
        ProjectedParts(db, log);
      }
      EmployerRowStep(db, after, init, log, w);
    }
  }

  lemma NoEmployers(w: Address)
    ensures EmployerReads(Run(EMPTY, Programs([])), [], w)
  {
  }

  lemma RemovedLogsWriteNothing(init: seq<Log>, log: Log, w: Address)
    requires log.removed
    ensures !AddsEmployer(log, w) && !RemovesEmployer(log, w) && !NeedsEmployer(init, log, w)
  {
  }

  /** Storing the transaction and the event first changes nothing for the other tables. */
  lemma ProjectedParts(db: Tables, log: Log)
    requires log.event.Some?
    ensures forall transactions, events ::
              var after := Projected(db.(transactions := transactions, events := events), log, log.event.value);
              && after.employers == ProjectedEmployers(db.employers, db.employees, log, log.event.value)
              && after.employees == ProjectedEmployees(db.employees, log, log.event.value)
              && after.transactions == transactions && after.events == events
  {
    hide ProjectedEmployers, ProjectedEmployees;
  }

  // ---- Transactions, events, fundings and claims -------------------------------------------------------------------

  function InTransaction(tx: Hash): Log -> bool {
    (l: Log) => l.key.tx == tx
  }

  function WithKey(key: LogKey): Log -> bool {
    (l: Log) => l.key == key
  }

  function FirstWithKey(key: LogKey): (seq<Log>, Log) -> bool {
    (before: seq<Log>, l: Log) => l.key == key
  }

  function FirstFunding(key: LogKey): (seq<Log>, Log) -> bool {
    (before, l) => Live(l) && l.event.value.PayrollFunded? && l.key == key
  }

  function FirstClaim(key: LogKey): (seq<Log>, Log) -> bool {
    (before, l) => Live(l) && l.event.value.SalaryClaimed? && l.key == key
  }

  /** A transaction keeps the receipt answered last. */
  predicate TransactionReads(db: Tables, logs: seq<Log>, tx: Hash) {
    && (tx in db.transactions <==> Last(logs, InTransaction(tx)).Some?)
    && (tx in db.transactions ==> db.transactions[tx] == Last(logs, InTransaction(tx)).value.receipt)
  }

  /** A raw event keeps its first event and block, and the timestamp and the flag answered last. */
  predicate EventReads(db: Tables, logs: seq<Log>, key: LogKey) {
    var (first, last) := (First(logs, FirstWithKey(key)), Last(logs, WithKey(key)));
    && (key in db.events <==> first.Some?) && (key in db.events <==> last.Some?)
    && (key in db.events ==>
          && Some(db.events[key].event) == first.value.event && db.events[key].block == first.value.block
          && db.events[key].time == last.value.time && db.events[key].removed == last.value.removed)
  }

  predicate FundingReads(db: Tables, logs: seq<Log>, key: LogKey) {
    var first := First(logs, FirstFunding(key));
    && (key in db.fundings <==> first.Some?)
    && (key in db.fundings ==>
          var (row, l) := (db.fundings[key], first.value);
          && l.event.Some? && l.event.value.PayrollFunded?
          && row.employer == l.event.value.employer && row.employee == l.event.value.employee
          && row.amountPaid == l.event.value.amountPaid && row.fee == l.event.value.fee
          && row.amountCredited == l.event.value.amountCredited && row.block == l.block && row.time == l.time)
  }

  predicate ClaimReads(db: Tables, logs: seq<Log>, key: LogKey) {
    var first := First(logs, FirstClaim(key));
    && (key in db.claims <==> first.Some?)
    && (key in db.claims ==>
          var (row, l) := (db.claims[key], first.value);
          && l.event.Some? && l.event.value.SalaryClaimed?
          && row.employee == l.event.value.employee && row.amount == l.event.value.amount
          && row.block == l.block && row.time == l.time)
  }

  predicate LogRowsRead(db: Tables, logs: seq<Log>, key: LogKey) {
    TransactionReads(db, logs, key.tx) && EventReads(db, logs, key) && FundingReads(db, logs, key) && ClaimReads(db, logs, key)
  }

  lemma LogRowsStep(db: Tables, after: Tables, init: seq<Log>, log: Log, key: LogKey)
    requires LogRowsRead(db, init, key) && log.event.Some?
    requires after.transactions == db.transactions[log.key.tx := log.receipt]
    requires after.events == db.events[log.key := EventAfterSave(Get(db.events, log.key), EventOf(log, log.event.value))]
    requires after.fundings == if !log.removed && log.event.value.PayrollFunded?
                               then InsertIfAbsent(db.fundings, log.key, FundingOf(log, log.event.value)) else db.fundings
    requires after.claims == if !log.removed && log.event.value.SalaryClaimed?
                             then InsertIfAbsent(db.claims, log.key, ClaimOf(log, log.event.value)) else db.claims
    ensures LogRowsRead(after, init + [log], key)
  {
    hide First, Last;
    LastOneMore(init, log, InTransaction(key.tx));
    LastOneMore(init, log, WithKey(key));
    FirstOneMore(init, log, FirstWithKey(key));
    FirstOneMore(init, log, FirstFunding(key));
    FirstOneMore(init, log, FirstClaim(key));
  }

  /** Every transaction, event, funding and claim row after one pass over a decodable history. */
  lemma {:induction false} LogRowsReadOffTheHistory(logs: seq<Log>, key: LogKey)
    requires Decodable(logs)
    ensures LogRowsRead(Run(EMPTY, Programs(logs)), logs, key)
  {
    hide Run, Programs, Program, LogRowsRead, ProjectedEmployees, ProjectedEmployers, FundingOf, ClaimOf, EventOf, EventAfterSave;
    if logs == [] {
      NoLogRows(key);
    } else {
      var (init, log) := (logs[..|logs| - 1], logs[|logs| - 1]);
      assert logs == init + [log];
      ProgramsOneMore(init, log);
      LogRowsReadOffTheHistory(init, key);
      var db := Run(EMPTY, Programs(init));
      RunLog(db, log);
      LogRowsStep(db, Run(EMPTY, Programs(logs)), init, log, key);
    }
  }

  lemma NoLogRows(key: LogKey)
    ensures LogRowsRead(Run(EMPTY, Programs([])), [], key)
  {
  }

  // ---- The payroll indexer -----------------------------------------------------------------------------------------

  /** A single payroll worker that has caught up, in spite of any interruptions: every row of its six tables is read off the
      events from the start block to the safe head. */
  lemma SoloTablesReadOffTheHistory(cfg: W.Setting, steps: seq<W.Step>, wallet: Address, key: LogKey)
    requires SortedByBlock(cfg.logs) && W.UniqueKeys(cfg.logs) && P.RunSwallowsNothing(W.Fresh(1), cfg, steps)
    requires P.CaughtUp(W.PerformAll(W.Fresh(1), cfg, steps))
    ensures var s := W.PerformAll(W.Fresh(1), cfg, steps);
            var logs := InRange(cfg.logs, cfg.start, s.safe);
            EmployeeReads(s.db, logs, wallet) && EmployerReads(s.db, logs, wallet) && LogRowsRead(s.db, logs, key)
  {
    hide W.PerformAll, Run, Programs, EmployeeReads, EmployerReads, LogRowsRead, InRange;
    P.SoloTablesAreClean(cfg, steps);
    var logs := InRange(cfg.logs, cfg.start, W.PerformAll(W.Fresh(1), cfg, steps).safe);
    EmployeesReadOffTheHistory(logs, wallet);
    EmployersReadOffTheHistory(logs, wallet);
    LogRowsReadOffTheHistory(logs, key);
  }

  /** The same for one attempt at a window on empty tables that ends well and ignores no error. */
  lemma IndexedTablesReadOffTheHistory(logs: seq<Log>, env: nat -> I.LogEnv, db: Tables, wallet: Address, key: LogKey)
    requires I.CrashOnly(logs, env) && I.IndexLogs(EMPTY, logs, env, 0, {}) == (db, true)
    ensures EmployeeReads(db, logs, wallet) && EmployerReads(db, logs, wallet) && LogRowsRead(db, logs, key)
  {
    hide Run, Programs, EmployeeReads, EmployerReads, LogRowsRead, I.IndexLogs, I.CrashOnly;
    var k := I.CrashedAttemptIsPrefix(EMPTY, logs, env, 0, {}, db, true);
    assert logs[0..] == logs && Programs(logs)[..|Programs(logs)|] == Programs(logs);
    EmployeesReadOffTheHistory(logs, wallet);
    EmployersReadOffTheHistory(logs, wallet);
    LogRowsReadOffTheHistory(logs, key);
  }
}
