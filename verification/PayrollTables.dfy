/** The MonthlyPayroll event log, the tables it is projected into, and the SQL statements that write them
    (persistence/payroll.go, persistence/transactions.go, persistence/chain_events.go). */
module PayrollTables {
  import opened Evm
  import opened Words

  // ---- The chain ---------------------------------------------------------------------------------

  datatype Event =
    | EmployerAdded(employer: Address)
    | EmployerRemoved(employer: Address)
    | EmployeeAdded(employee: Address, employer: Address, salary: nat, allocation: nat)
    | EmployeeRemoved(employee: Address, employer: Address)
    | PayrollFunded(employer: Address, employee: Address, amountPaid: nat, fee: nat, amountCredited: nat)
    | SalaryClaimed(employee: Address, amount: nat)
    | OwnershipTransferred(previousOwner: Address, newOwner: Address)

  /** A log with everything the RPC node answers about it; event is None when the decoder rejects the log. */
  datatype Log = Log(key: LogKey, block: nat, time: nat, receipt: Receipt, removed: bool, event: Option<Event>)

  // ---- The tables --------------------------------------------------------------------------------

  datatype EmployerRow = EmployerRow(
    active: bool, addedAt: Option<nat>, removedAt: Option<nat>, deactivation: Option<nat>, latestTx: Hash)

  datatype EmployeeRow = EmployeeRow(
    employer: Address, salary: nat, allocation: Option<nat>, active: bool, addedAt: Option<nat>,
    removedAt: Option<nat>, deactivation: Option<nat>, lastWithdraw: Option<nat>, latestTx: Hash)

  datatype FundingRow = FundingRow(
    employer: Address, employee: Address, amountPaid: nat, fee: nat, amountCredited: nat, block: nat, time: nat)

  datatype ClaimRow = ClaimRow(employee: Address, amount: nat, block: nat, time: nat)

  datatype EventRow = EventRow(event: Event, block: nat, time: nat, removed: bool)

  datatype Tables = Tables(
    transactions: map<Hash, Receipt>,
    events: map<LogKey, EventRow>,
    employers: map<Address, EmployerRow>,
    employees: map<Address, EmployeeRow>,
    fundings: map<LogKey, FundingRow>,
    claims: map<LogKey, ClaimRow>)

  const EMPTY: Tables := Tables(map[], map[], map[], map[], map[], map[])

  // ---- The statements ----------------------------------------------------------------------------

  datatype Statement =
    | SaveTransaction(tx: Hash, receipt: Receipt)
    | SaveChainEvent(key: LogKey, event: EventRow)
    | UpsertEmployerAdded(employer: Address, time: nat, tx: Hash)
    | UpsertEmployerRemoved(employer: Address, time: nat, tx: Hash)
    | EnsureEmployer(employer: Address, time: nat, tx: Hash)
    | UpsertEmployeeAdded(employee: Address, employer: Address, salary: nat, allocation: nat, time: nat, tx: Hash)
    | UpsertEmployeeRemoved(employee: Address, employer: Address, time: nat, tx: Hash)
    | EnsureEmployee(employee: Address, employer: Address, time: nat, tx: Hash)
    | InsertFunding(key: LogKey, funding: FundingRow)
    | CheckEmployee(employee: Address)
    | PlaceholderEmployer(employee: Address, time: nat, tx: Hash)
    | PlaceholderEmployee(employee: Address, time: nat, tx: Hash)
    | InsertClaim(key: LogKey, claim: ClaimRow)
    | UpdateWithdraw(employee: Address, time: nat, tx: Hash)

  function Get<K, V>(m: map<K, V>, k: K): Option<V> {
    if k in m then Some(m[k]) else None
  }

  function Coalesce<T>(first: Option<T>, second: Option<T>): Option<T> {
    if first.Some? then first else second
  }

  /** ON CONFLICT DO NOTHING. */
  function InsertIfAbsent<K, V>(m: map<K, V>, k: K, v: V): map<K, V> {
    if k in m then m else m[k := v]
  }

  function EmployerAfterAdded(previous: Option<EmployerRow>, time: nat, tx: Hash): EmployerRow {
    match previous
    case None => EmployerRow(true, Some(time), None, None, tx)
    case Some(row) => row.(active := true, addedAt := Coalesce(row.addedAt, Some(time)), latestTx := tx)
  }

  function EmployerAfterRemoved(previous: Option<EmployerRow>, time: nat, tx: Hash): EmployerRow {
    match previous
    case None => EmployerRow(false, None, Some(time), Some(time), tx)
    case Some(row) => row.(active := false, removedAt := Some(time), deactivation := Some(time), latestTx := tx)
  }

  function EmployeeAfterAdded(
    previous: Option<EmployeeRow>, employer: Address, salary: nat, allocation: nat, time: nat, tx: Hash): EmployeeRow
  {
    match previous
    case None => EmployeeRow(employer, salary, Some(allocation), true, Some(time), None, None, None, tx)
    case Some(row) =>
      row.(employer := employer, salary := salary, allocation := Some(allocation), active := true,
           addedAt := Coalesce(row.addedAt, Some(time)), latestTx := tx)
  }

  /** An existing row keeps its employer when the employee is removed. */
  function EmployeeAfterRemoved(previous: Option<EmployeeRow>, employer: Address, time: nat, tx: Hash): EmployeeRow {
    match previous
    case None => EmployeeRow(employer, 0, None, false, None, Some(time), Some(time), None, tx)
    case Some(row) => row.(active := false, removedAt := Some(time), deactivation := Some(time), latestTx := tx)
  }

  function EmployeeAfterWithdraw(row: EmployeeRow, time: nat, tx: Hash): EmployeeRow {
    row.(lastWithdraw := Some(time), latestTx := tx)
  }

  function NewEmployer(time: nat, tx: Hash): EmployerRow {
    EmployerRow(true, Some(time), None, None, tx)
  }

  function NewEmployee(employer: Address, time: nat, tx: Hash): EmployeeRow {
    EmployeeRow(employer, 0, None, true, Some(time), None, None, None, tx)
  }

  /** A stored event keeps its name, data and block; a repeated save refreshes only the flag and the timestamp. */
  function EventAfterSave(previous: Option<EventRow>, row: EventRow): EventRow {
    match previous
    case None => row
    case Some(stored) => stored.(removed := row.removed, time := row.time)
  }

  /** What a committed statement does to the tables; guard is the answer of the claim's earlier existence check. */
  function Write(db: Tables, st: Statement, guard: bool): Tables {
    match st
    case SaveTransaction(tx, receipt) => db.(transactions := db.transactions[tx := receipt])
    case SaveChainEvent(key, row) => db.(events := db.events[key := EventAfterSave(Get(db.events, key), row)])
    case UpsertEmployerAdded(w, t, tx) =>
      db.(employers := db.employers[w := EmployerAfterAdded(Get(db.employers, w), t, tx)])
    case UpsertEmployerRemoved(w, t, tx) =>
      db.(employers := db.employers[w := EmployerAfterRemoved(Get(db.employers, w), t, tx)])
    case EnsureEmployer(w, t, tx) => db.(employers := InsertIfAbsent(db.employers, w, NewEmployer(t, tx)))
    case UpsertEmployeeAdded(e, w, salary, allocation, t, tx) =>
      db.(employees := db.employees[e := EmployeeAfterAdded(Get(db.employees, e), w, salary, allocation, t, tx)])
    case UpsertEmployeeRemoved(e, w, t, tx) =>
      db.(employees := db.employees[e := EmployeeAfterRemoved(Get(db.employees, e), w, t, tx)])
    case EnsureEmployee(e, w, t, tx) => db.(employees := InsertIfAbsent(db.employees, e, NewEmployee(w, t, tx)))
    case InsertFunding(key, row) => db.(fundings := InsertIfAbsent(db.fundings, key, row))
    case CheckEmployee(_) => db
    case PlaceholderEmployer(_, t, tx) =>
      if guard then db else db.(employers := InsertIfAbsent(db.employers, ZERO_ADDRESS, NewEmployer(t, tx)))
    case PlaceholderEmployee(e, t, tx) =>
      if guard then db else db.(employees := InsertIfAbsent(db.employees, e, NewEmployee(ZERO_ADDRESS, t, tx)))
    case InsertClaim(key, row) => db.(claims := InsertIfAbsent(db.claims, key, row))
    case UpdateWithdraw(e, t, tx) =>
      if e in db.employees
      then db.(employees := db.employees[e := EmployeeAfterWithdraw(db.employees[e], t, tx)])
      else db
  }

  /** The foreign keys that a statement is checked against when it writes. */
  predicate Allowed(db: Tables, st: Statement, guard: bool) {
    match st
    case SaveChainEvent(key, _) => key in db.events || key.tx in db.transactions
    case UpsertEmployeeAdded(_, w, _, _, _, _) => w in db.employers
    case UpsertEmployeeRemoved(e, w, _, _) => e in db.employees || w in db.employers
    case EnsureEmployee(e, w, _, _) => e in db.employees || w in db.employers
    case PlaceholderEmployee(e, _, _) => guard || e in db.employees || ZERO_ADDRESS in db.employers
    case InsertFunding(key, row) =>
      key in db.fundings || (row.employer in db.employers && row.employee in db.employees && key.tx in db.transactions)
    case InsertClaim(key, row) => key in db.claims || row.employee in db.employees
    case _ => true
  }

  // ---- The program of one log ----------------------------------------------------------------------

  function FundingOf(log: Log, e: Event): FundingRow
    requires e.PayrollFunded?
  {
    FundingRow(e.employer, e.employee, e.amountPaid, e.fee, e.amountCredited, log.block, log.time)
  }

  function ClaimOf(log: Log, e: Event): ClaimRow
    requires e.SalaryClaimed?
  {
    ClaimRow(e.employee, e.amount, log.block, log.time)
  }

  function EventOf(log: Log, e: Event): EventRow {
    EventRow(e, log.block, log.time, log.removed)
  }

  /** The statements of ProjectPayrollEvent, in order. */
  function Projection(log: Log, e: Event): seq<Statement> {
    var t, tx := log.time, log.key.tx;
    match e
    case EmployerAdded(w) => [UpsertEmployerAdded(w, t, tx)]
    case EmployerRemoved(w) => [UpsertEmployerRemoved(w, t, tx)]
    case EmployeeAdded(ee, w, salary, allocation) =>
      [EnsureEmployer(w, t, tx), UpsertEmployeeAdded(ee, w, salary, allocation, t, tx)]
    case EmployeeRemoved(ee, w) => [EnsureEmployer(w, t, tx), UpsertEmployeeRemoved(ee, w, t, tx)]
    case PayrollFunded(w, ee, _, _, _) =>
      [EnsureEmployer(w, t, tx), EnsureEmployee(ee, w, t, tx), InsertFunding(log.key, FundingOf(log, e))]
    case SalaryClaimed(ee, _) =>
      [CheckEmployee(ee), PlaceholderEmployer(ee, t, tx), PlaceholderEmployee(ee, t, tx),
       InsertClaim(log.key, ClaimOf(log, e)), UpdateWithdraw(ee, t, tx)]
    case OwnershipTransferred(_, _) => []
  }

  /** The statements IndexRange issues for one decodable log; removed logs are stored but not projected. */
  function Program(log: Log): seq<Statement>
    requires log.event.Some?
  {
    [SaveTransaction(log.key.tx, log.receipt), SaveChainEvent(log.key, EventOf(log, log.event.value))]
    + if log.removed then [] else Projection(log, log.event.value)
  }

  /** The statements issued for a batch; the batch stops at the first log the decoder rejects. */
  function Programs(logs: seq<Log>): seq<Statement> {
    if logs == [] || logs[0].event.None? then [] else Program(logs[0]) + Programs(logs[1..])
  }

  predicate Decodable(logs: seq<Log>) {
    forall i :: 0 <= i < |logs| ==> logs[i].event.Some?
  }

  lemma {:induction false} ProgramsConcat(a: seq<Log>, b: seq<Log>)
    ensures Programs(a + b) == if Decodable(a) then Programs(a) + Programs(b) else Programs(a)
  {
    if a == [] {
      assert a + b == b;
    } else {
      assert (a + b)[1..] == a[1..] + b && (a + b)[0] == a[0];
      ProgramsConcat(a[1..], b);
      if Decodable(a) {
        assert Decodable(a[1..]);
        assert Program(a[0]) + (Programs(a[1..]) + Programs(b)) == Program(a[0]) + Programs(a[1..]) + Programs(b);
      } else if a[0].event.Some? {
        assert !Decodable(a[1..]) by {
          var i :| 0 <= i < |a| && a[i].event.None?;
          assert a[1..][i - 1] == a[i];
        }
      }
    }
  }

  // ---- Block windows ---------------------------------------------------------------------------------

  predicate SortedByBlock(logs: seq<Log>) {
    forall i, j :: 0 <= i < j < |logs| ==> logs[i].block <= logs[j].block
  }

  /** The logs an RPC filter query for blocks [lo, hi] returns. */
  function InRange(logs: seq<Log>, lo: int, hi: int): seq<Log> {
    if logs == [] then []
    else (if lo <= logs[0].block <= hi then [logs[0]] else []) + InRange(logs[1..], lo, hi)
  }

  lemma {:induction false} InRangeMembers(logs: seq<Log>, lo: int, hi: int)
    ensures forall l :: l in InRange(logs, lo, hi) <==> l in logs && lo <= l.block <= hi
  {
    if logs != [] {
      InRangeMembers(logs[1..], lo, hi);
    }
  }

  lemma {:induction false} InRangeNone(logs: seq<Log>, lo: int, hi: int)
    requires forall l :: l in logs ==> !(lo <= l.block <= hi)
    ensures InRange(logs, lo, hi) == []
  {
    if logs != [] {
      InRangeNone(logs[1..], lo, hi);
    }
  }

  /** Two adjacent windows of a sorted log list make one. */
  lemma {:induction false} InRangeSplit(logs: seq<Log>, lo: int, mid: int, hi: int)
    requires SortedByBlock(logs) && lo <= mid + 1 && mid <= hi
    ensures InRange(logs, lo, hi) == InRange(logs, lo, mid) + InRange(logs, mid + 1, hi)
  {
    hide InRange, SortedByBlock;
    if logs == [] {
      InRangeNone(logs, lo, hi);
      InRangeNone(logs, lo, mid);
      InRangeNone(logs, mid + 1, hi);
    } else {
      var head, tail := logs[0], logs[1..];
      SortedTail(logs);
      InRangeSplit(tail, lo, mid, hi);
      InRangeCons(logs, lo, mid);
      InRangeCons(logs, mid + 1, hi);
      InRangeCons(logs, lo, hi);
      var (low, high) := (InRange(tail, lo, mid), InRange(tail, mid + 1, hi));
      Regroup(head, low, high);
      if mid < head.block {
        InRangeNone(tail, lo, mid);
      }
    }
  }

  lemma Regroup<T>(x: T, low: seq<T>, high: seq<T>)
    ensures [x] + (low + high) == [x] + low + high
    ensures low == [] ==> [x] + (low + high) == low + ([x] + high)
  {
  }

  lemma SortedTail(logs: seq<Log>)
    requires SortedByBlock(logs) && logs != []
    ensures SortedByBlock(logs[1..]) && forall l :: l in logs[1..] ==> logs[0].block <= l.block
  {
  }

  lemma InRangeCons(logs: seq<Log>, lo: int, hi: int)
    requires logs != []
    ensures var rest := InRange(logs[1..], lo, hi);
            InRange(logs, lo, hi) == if lo <= logs[0].block <= hi then [logs[0]] + rest else rest
  {
  }

  // ---- Running statements ----------------------------------------------------------------------------

  /** The tables together with the answer of the last existence check made by the running worker. */
  datatype Session = Session(db: Tables, known: bool)

  function Execute(s: Session, st: Statement): Session {
    if st.CheckEmployee? then s.(known := st.employee in s.db.employees)
    else s.(db := Write(s.db, st, s.known))
  }

  function ExecuteAll(s: Session, sts: seq<Statement>): Session
    decreases |sts|
  {
    if sts == [] then s else ExecuteAll(Execute(s, sts[0]), sts[1..])
  }

  /** The same statement without a remembered answer: the placeholder guards are evaluated when they run. */
  function Effect(db: Tables, st: Statement): Tables {
    Write(db, st, (st.PlaceholderEmployer? || st.PlaceholderEmployee?) && st.employee in db.employees)
  }

  function Run(db: Tables, sts: seq<Statement>): Tables
    decreases |sts|
  {
    if sts == [] then db else Run(Effect(db, sts[0]), sts[1..])
  }

  lemma {:induction false} RunConcat(db: Tables, a: seq<Statement>, b: seq<Statement>)
    ensures Run(db, a + b) == Run(Run(db, a), b)
    decreases |a|
  {
    if a == [] {
      assert a + b == b;
    } else {
      assert (a + b)[1..] == a[1..] + b;
      RunConcat(Effect(db, a[0]), a[1..], b);
    }
  }

  lemma RunCons(db: Tables, st: Statement, rest: seq<Statement>)
    ensures Run(db, [st] + rest) == Run(Effect(db, st), rest)
  {
    assert ([st] + rest)[1..] == rest;
  }

  lemma {:induction false} ExecuteConcat(s: Session, a: seq<Statement>, b: seq<Statement>)
    ensures ExecuteAll(s, a + b) == ExecuteAll(ExecuteAll(s, a), b)
    decreases |a|
  {
    if a == [] {
      assert a + b == b;
    } else {
      assert (a + b)[1..] == a[1..] + b;
      ExecuteConcat(Execute(s, a[0]), a[1..], b);
    }
  }

  // ---- Statements that can fail ------------------------------------------------------------------------

  /** Statements whose errors the code ignores. */
  predicate Swallowable(st: Statement) {
    st.CheckEmployee? || st.PlaceholderEmployer? || st.PlaceholderEmployee? || st.UpdateWithdraw?
  }

  /** One statement under a possible failure: a failed or rejected statement stops the caller, unless its error is
      ignored; an existence check that fails counts as not found. */
  function Handle(s: Session, st: Statement, fails: bool): Option<Session> {
    if !fails && Allowed(s.db, st, s.known) then Some(Execute(s, st))
    else if Swallowable(st) then Some(if st.CheckEmployee? then s.(known := false) else s)
    else None
  }

  datatype Progress = Progress(session: Session, ok: bool)

  /** Statement number i of the list fails when fails(i) holds. */
  function HandleAll(s: Session, sts: seq<Statement>, fails: nat -> bool, i: nat := 0): Progress
    decreases |sts|
  {
    if sts == [] then Progress(s, true)
    else
      match Handle(s, sts[0], fails(i))
      case None => Progress(s, false)
      case Some(next) => HandleAll(next, sts[1..], fails, i + 1)
  }

  lemma HandleCons(s: Session, st: Statement, rest: seq<Statement>, fails: nat -> bool, i: nat, next: Session)
    requires Handle(s, st, fails(i)) == Some(next)
    ensures HandleAll(s, [st] + rest, fails, i) == HandleAll(next, rest, fails, i + 1)
  {
    assert ([st] + rest)[1..] == rest;
  }

  lemma HandleStops(s: Session, st: Statement, rest: seq<Statement>, fails: nat -> bool, i: nat)
    requires Handle(s, st, fails(i)) == None
    ensures HandleAll(s, [st] + rest, fails, i) == Progress(s, false)
  {
  }

  lemma HandleNothing(s: Session, fails: nat -> bool, i: nat)
    ensures HandleAll(s, [], fails, i) == Progress(s, true)
  {
  }

  lemma SwallowableContinues(s: Session, st: Statement, fails: bool)
    requires Swallowable(st)
    ensures Handle(s, st, fails).Some?
  {
  }

  lemma HandleFive(s: Session, a: Statement, b: Statement, c: Statement, d: Statement, e: Statement, fails: nat -> bool)
    requires Swallowable(a) && Swallowable(b) && Swallowable(c) && Swallowable(e)
    ensures var s1 := Handle(s, a, fails(0)).value;
            var s2 := Handle(s1, b, fails(1)).value;
            var s3 := Handle(s2, c, fails(2)).value;
            HandleAll(s, [a, b, c, d, e], fails) ==
            match Handle(s3, d, fails(3))
            case None => Progress(s3, false)
            case Some(s4) => Progress(Handle(s4, e, fails(4)).value, true)
  {
    hide Handle, HandleAll, Swallowable;
    SwallowableContinues(s, a, fails(0));
    var s1 := Handle(s, a, fails(0)).value;
    SwallowableContinues(s1, b, fails(1));
    var s2 := Handle(s1, b, fails(1)).value;
    SwallowableContinues(s2, c, fails(2));
    var s3 := Handle(s2, c, fails(2)).value;
    assert [a] + [b, c, d, e] == [a, b, c, d, e] && [b] + [c, d, e] == [b, c, d, e] && [c] + [d, e] == [c, d, e];
    assert [d] + [e] == [d, e] && [e] + [] == [e];
    HandleCons(s, a, [b, c, d, e], fails, 0, s1);
    HandleCons(s1, b, [c, d, e], fails, 1, s2);
    HandleCons(s2, c, [d, e], fails, 2, s3);
    var fourth := Handle(s3, d, fails(3));
    if fourth.Some? {
      SwallowableContinues(fourth.value, e, fails(4));
      var s5 := Handle(fourth.value, e, fails(4)).value;
      HandleCons(s3, d, [e], fails, 3, fourth.value);
      HandleCons(fourth.value, e, [], fails, 4, s5);
      HandleNothing(s5, fails, 5);
    } else {
      HandleStops(s3, d, [e], fails, 3);
    }
  }

  lemma KeepsClaims(s: Session, st: Statement, fails: bool)
    requires Swallowable(st)
    ensures Handle(s, st, fails).Some? && Handle(s, st, fails).value.db.claims == s.db.claims
    ensures st.UpdateWithdraw? ==> Handle(s, st, fails).value.db.employees.Keys == s.db.employees.Keys
  {
  }

  lemma InsertsClaim(s: Session, key: LogKey, row: ClaimRow, fails: bool)
    ensures var next := Handle(s, InsertClaim(key, row), fails);
            && (next.Some? <==> !fails && (key in s.db.claims || row.employee in s.db.employees))
            && (next.Some? ==> next.value.db == s.db.(claims := if key in s.db.claims then s.db.claims else s.db.claims[key := row]))
  {
  }

  /** Of a claim's five statements only the insert reports an error; it succeeds exactly when it does not fail itself and the
      claim was stored before or the employee's row is there. */
  lemma ClaimInsertDecides(db: Tables, log: Log, e: Event, fails: nat -> bool)
    requires e.SalaryClaimed?
    ensures var p := HandleAll(Session(db, false), Projection(log, e), fails);
            var after := p.session.db;
            && (p.ok <==> !fails(3) && (log.key in db.claims || e.employee in after.employees))
            && after.claims == if p.ok && log.key !in db.claims
                               then db.claims[log.key := ClaimRow(e.employee, e.amount, log.block, log.time)] else db.claims
  {
    var sts := Projection(log, e);
    HandleFive(Session(db, false), sts[0], sts[1], sts[2], sts[3], sts[4], fails);
    assert sts == [sts[0], sts[1], sts[2], sts[3], sts[4]];
    hide HandleAll, Handle;
    KeepsClaims(Session(db, false), sts[0], fails(0));
    var s1 := Handle(Session(db, false), sts[0], fails(0)).value;
    KeepsClaims(s1, sts[1], fails(1));
    var s2 := Handle(s1, sts[1], fails(1)).value;
    KeepsClaims(s2, sts[2], fails(2));
    var s3 := Handle(s2, sts[2], fails(2)).value;
    InsertsClaim(s3, log.key, ClaimOf(log, e), fails(3));
    var inserted := Handle(s3, sts[3], fails(3));
    if inserted.Some? {
      KeepsClaims(inserted.value, sts[4], fails(4));
    }
  }

  /** A log's program: its transaction, its event, then its projection. */
  lemma HandleProgram(s: Session, log: Log, fails: nat -> bool)
    requires log.event.Some?
    ensures HandleAll(s, Program(log), fails) ==
            match Handle(s, SaveTransaction(log.key.tx, log.receipt), fails(0))
            case None => Progress(s, false)
            case Some(s1) =>
              match Handle(s1, SaveChainEvent(log.key, EventOf(log, log.event.value)), fails(1))
              case None => Progress(s1, false)
              case Some(s2) => HandleAll(s2, if log.removed then [] else Projection(log, log.event.value), fails, 2)
  {
    var a, b := SaveTransaction(log.key.tx, log.receipt), SaveChainEvent(log.key, EventOf(log, log.event.value));
    var rest := if log.removed then [] else Projection(log, log.event.value);
    assert Program(log) == [a] + ([b] + rest);
    match Handle(s, a, fails(0))
    case None => HandleStops(s, a, [b] + rest, fails, 0);
    case Some(s1) =>
      HandleCons(s, a, [b] + rest, fails, 0, s1);
      match Handle(s1, b, fails(1)) {
        case None => HandleStops(s1, b, rest, fails, 1);
        case Some(s2) => HandleCons(s1, b, rest, fails, 1, s2);
      }
  }
}
