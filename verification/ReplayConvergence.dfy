/** Replaying any part of a batch, any number of times, and then the whole batch gives what one clean pass gives. */
module ReplayConvergence {
  import opened Evm
  import opened Words
  import opened PayrollTables

  // ---- What later states keep of earlier ones ------------------------------------------------------

  ghost predicate EmployersLater(s: map<Address, EmployerRow>, f: map<Address, EmployerRow>) {
    forall w :: w in s ==> w in f && (s[w].addedAt.Some? ==> f[w].addedAt == s[w].addedAt)
  }

  ghost predicate EmployeesLater(s: map<Address, EmployeeRow>, f: map<Address, EmployeeRow>) {
    forall e :: e in s ==> e in f && (s[e].addedAt.Some? ==> f[e].addedAt == s[e].addedAt)
  }

  ghost predicate EventsLater(s: map<LogKey, EventRow>, f: map<LogKey, EventRow>) {
    forall k :: k in s ==> k in f && f[k].event == s[k].event && f[k].block == s[k].block
  }

  ghost predicate RowsKept<K, V>(s: map<K, V>, f: map<K, V>) {
    forall k :: k in s ==> k in f && f[k] == s[k]
  }

  /** No statement deletes a row, and first-seen values stay. */
  ghost predicate Later(s: Tables, f: Tables) {
    && s.transactions.Keys <= f.transactions.Keys
    && EventsLater(s.events, f.events)
    && EmployersLater(s.employers, f.employers)
    && EmployeesLater(s.employees, f.employees)
    && RowsKept(s.fundings, f.fundings)
    && RowsKept(s.claims, f.claims)
  }

  lemma EmployersStay(db: Tables, st: Statement, guard: bool)
    ensures EmployersLater(db.employers, Write(db, st, guard).employers)
  {
  }

  lemma EmployeesStay(db: Tables, st: Statement, guard: bool)
    ensures EmployeesLater(db.employees, Write(db, st, guard).employees)
  {
  }

  lemma EffectIsLater(db: Tables, st: Statement, guard: bool)
    ensures Later(db, Write(db, st, guard))
  {
    hide EmployersLater, EmployeesLater;
    EmployersStay(db, st, guard);
    EmployeesStay(db, st, guard);
  }

  lemma LaterTransitive(a: Tables, b: Tables, c: Tables)
    requires Later(a, b) && Later(b, c)
    ensures Later(a, c)
  {
  }

  lemma {:induction false} RunIsLater(db: Tables, sts: seq<Statement>)
    ensures Later(db, Run(db, sts))
    decreases |sts|
  {
    if sts != [] {
      var next := Effect(db, sts[0]);
      EffectIsLater(db, sts[0], (sts[0].PlaceholderEmployer? || sts[0].PlaceholderEmployee?) && sts[0].employee in db.employees);
      RunIsLater(next, sts[1..]);
      LaterTransitive(db, next, Run(next, sts[1..]));
    }
  }

  // ---- The lockstep relation -----------------------------------------------------------------------
  // s is a state of the first pass, f its end, t the state of a second pass that started from f and has executed the
  // same statements as s. Every column of t holds what it holds in s or what it holds in f.

  ghost predicate Either<T>(s: Option<T>, t: T, f: T) {
    s == Some(t) || t == f
  }

  ghost predicate EmployerLockstep(s: Option<EmployerRow>, t: EmployerRow, f: EmployerRow) {
    && (t.active == f.active || (s.Some? && t.active == s.value.active))
    && (t.addedAt == f.addedAt || (s.Some? && t.addedAt == s.value.addedAt))
    && (t.removedAt == f.removedAt || (s.Some? && t.removedAt == s.value.removedAt))
    && (t.deactivation == f.deactivation || (s.Some? && t.deactivation == s.value.deactivation))
    && (t.latestTx == f.latestTx || (s.Some? && t.latestTx == s.value.latestTx))
  }

  ghost predicate EmployeeLockstep(s: Option<EmployeeRow>, t: EmployeeRow, f: EmployeeRow) {
    && (t.employer == f.employer || (s.Some? && t.employer == s.value.employer))
    && (t.salary == f.salary || (s.Some? && t.salary == s.value.salary))
    && (t.allocation == f.allocation || (s.Some? && t.allocation == s.value.allocation))
    && (t.active == f.active || (s.Some? && t.active == s.value.active))
    && (t.addedAt == f.addedAt || (s.Some? && t.addedAt == s.value.addedAt))
    && (t.removedAt == f.removedAt || (s.Some? && t.removedAt == s.value.removedAt))
    && (t.deactivation == f.deactivation || (s.Some? && t.deactivation == s.value.deactivation))
    && (t.lastWithdraw == f.lastWithdraw || (s.Some? && t.lastWithdraw == s.value.lastWithdraw))
    && (t.latestTx == f.latestTx || (s.Some? && t.latestTx == s.value.latestTx))
  }

  ghost predicate EventLockstep(s: Option<EventRow>, t: EventRow, f: EventRow) {
    && t.event == f.event && t.block == f.block
    && (t.time == f.time || (s.Some? && t.time == s.value.time))
    && (t.removed == f.removed || (s.Some? && t.removed == s.value.removed))
  }

  ghost predicate EmployersLockstep(s: map<Address, EmployerRow>, t: map<Address, EmployerRow>, f: map<Address, EmployerRow>) {
    && t.Keys == f.Keys
    && forall w :: w in t ==> EmployerLockstep(Get(s, w), t[w], f[w])
  }

  ghost predicate EmployeesLockstep(s: map<Address, EmployeeRow>, t: map<Address, EmployeeRow>, f: map<Address, EmployeeRow>) {
    && t.Keys == f.Keys
    && forall e :: e in t ==> EmployeeLockstep(Get(s, e), t[e], f[e])
  }

  ghost predicate EventsLockstep(s: map<LogKey, EventRow>, t: map<LogKey, EventRow>, f: map<LogKey, EventRow>) {
    && t.Keys == f.Keys
    && forall k :: k in t ==> EventLockstep(Get(s, k), t[k], f[k])
  }

  ghost predicate TransactionsLockstep(s: map<Hash, Receipt>, t: map<Hash, Receipt>, f: map<Hash, Receipt>) {
    && t.Keys == f.Keys
    && forall h :: h in t ==> Either(Get(s, h), t[h], f[h])
  }

  ghost predicate Lockstep(s: Tables, t: Tables, f: Tables) {
    && TransactionsLockstep(s.transactions, t.transactions, f.transactions)
    && EventsLockstep(s.events, t.events, f.events)
    && EmployersLockstep(s.employers, t.employers, f.employers)
    && EmployeesLockstep(s.employees, t.employees, f.employees)
    && t.fundings == f.fundings
    && t.claims == f.claims
  }

  lemma EmployersWrite(s: map<Address, EmployerRow>, t: map<Address, EmployerRow>, f: map<Address, EmployerRow>,
                       w: Address, time: nat, tx: Hash)
    requires EmployersLockstep(s, t, f)
    ensures EmployersLater(s[w := EmployerAfterAdded(Get(s, w), time, tx)], f) ==>
              EmployersLockstep(s[w := EmployerAfterAdded(Get(s, w), time, tx)], t[w := EmployerAfterAdded(Get(t, w), time, tx)], f)
    ensures EmployersLater(s[w := EmployerAfterRemoved(Get(s, w), time, tx)], f) ==>
              EmployersLockstep(s[w := EmployerAfterRemoved(Get(s, w), time, tx)], t[w := EmployerAfterRemoved(Get(t, w), time, tx)], f)
  {
  }

  /** An insert-if-absent of the first pass finds the row already present in the second one. */
  lemma EmployersInsert(s: map<Address, EmployerRow>, t: map<Address, EmployerRow>, f: map<Address, EmployerRow>,
                        w: Address, row: EmployerRow)
    requires EmployersLockstep(s, t, f) && EmployersLater(InsertIfAbsent(s, w, row), f)
    ensures EmployersLockstep(InsertIfAbsent(s, w, row), t, f)
    ensures InsertIfAbsent(t, w, row) == t
  {
    assert w in InsertIfAbsent(s, w, row);
  }

  lemma EmployeesAdded(s: map<Address, EmployeeRow>, t: map<Address, EmployeeRow>, f: map<Address, EmployeeRow>,
                       e: Address, w: Address, salary: nat, allocation: nat, time: nat, tx: Hash)
    requires EmployeesLockstep(s, t, f)
    requires EmployeesLater(s[e := EmployeeAfterAdded(Get(s, e), w, salary, allocation, time, tx)], f)
    ensures EmployeesLockstep(s[e := EmployeeAfterAdded(Get(s, e), w, salary, allocation, time, tx)],
                              t[e := EmployeeAfterAdded(Get(t, e), w, salary, allocation, time, tx)], f)
  {
  }

  lemma EmployeesRemoved(s: map<Address, EmployeeRow>, t: map<Address, EmployeeRow>, f: map<Address, EmployeeRow>,
                         e: Address, w: Address, time: nat, tx: Hash)
    requires EmployeesLockstep(s, t, f)
    requires EmployeesLater(s[e := EmployeeAfterRemoved(Get(s, e), w, time, tx)], f)
    ensures EmployeesLockstep(s[e := EmployeeAfterRemoved(Get(s, e), w, time, tx)],
                              t[e := EmployeeAfterRemoved(Get(t, e), w, time, tx)], f)
  {
  }

  lemma EmployeesInsert(s: map<Address, EmployeeRow>, t: map<Address, EmployeeRow>, f: map<Address, EmployeeRow>,
                        e: Address, row: EmployeeRow)
    requires EmployeesLockstep(s, t, f) && EmployeesLater(InsertIfAbsent(s, e, row), f)
    ensures EmployeesLockstep(InsertIfAbsent(s, e, row), t, f)
    ensures InsertIfAbsent(t, e, row) == t
  {
    assert e in InsertIfAbsent(s, e, row);
  }

  lemma EmployeesWithdraw(s: map<Address, EmployeeRow>, t: map<Address, EmployeeRow>, f: map<Address, EmployeeRow>,
                          e: Address, time: nat, tx: Hash)
    requires EmployeesLockstep(s, t, f) && e in s && e in t
    ensures EmployeesLockstep(s[e := EmployeeAfterWithdraw(s[e], time, tx)], t[e := EmployeeAfterWithdraw(t[e], time, tx)], f)
  {
  }

  lemma EventsSave(s: map<LogKey, EventRow>, t: map<LogKey, EventRow>, f: map<LogKey, EventRow>, k: LogKey, row: EventRow)
    requires EventsLockstep(s, t, f) && EventsLater(s[k := EventAfterSave(Get(s, k), row)], f)
    ensures EventsLockstep(s[k := EventAfterSave(Get(s, k), row)], t[k := EventAfterSave(Get(t, k), row)], f)
  {
  }

  /** The withdrawal update finds its employee; every claim makes sure of it first. */
  predicate Finds(db: Tables, st: Statement) {
    st.UpdateWithdraw? ==> st.employee in db.employees
  }

  lemma EmployerStatementKeepsLockstep(s: Tables, t: Tables, f: Tables, st: Statement)
    requires Lockstep(s, t, f) && Later(Effect(s, st), f)
    requires st.UpsertEmployerAdded? || st.UpsertEmployerRemoved? || st.EnsureEmployer? || st.PlaceholderEmployer?
    ensures Lockstep(Effect(s, st), Effect(t, st), f)
  {
    match st
    case UpsertEmployerAdded(w, time, tx) => EmployersWrite(s.employers, t.employers, f.employers, w, time, tx);
    case UpsertEmployerRemoved(w, time, tx) => EmployersWrite(s.employers, t.employers, f.employers, w, time, tx);
    case EnsureEmployer(w, time, tx) => EmployersInsert(s.employers, t.employers, f.employers, w, NewEmployer(time, tx));
    case PlaceholderEmployer(e, time, tx) =>
      if e !in s.employees {
        EmployersInsert(s.employers, t.employers, f.employers, ZERO_ADDRESS, NewEmployer(time, tx));
        assert Effect(t, st) == t;
      }
  }

  lemma EmployeeStatementKeepsLockstep(s: Tables, t: Tables, f: Tables, st: Statement)
    requires Lockstep(s, t, f) && Later(Effect(s, st), f) && Finds(s, st)
    requires st.UpsertEmployeeAdded? || st.UpsertEmployeeRemoved? || st.EnsureEmployee? || st.PlaceholderEmployee?
             || st.UpdateWithdraw?
    ensures Lockstep(Effect(s, st), Effect(t, st), f)
  {
    hide EmployeeLockstep, EmployerLockstep, EventLockstep, Either, EmployersLockstep, EventsLockstep, TransactionsLockstep;
    hide EmployeeAfterAdded, EmployeeAfterRemoved, EmployeeAfterWithdraw, EmployersLater, EventsLater, RowsKept;
    match st
    case UpsertEmployeeAdded(e, w, salary, allocation, time, tx) =>
      EmployeesAdded(s.employees, t.employees, f.employees, e, w, salary, allocation, time, tx);
    case UpsertEmployeeRemoved(e, w, time, tx) =>
      EmployeesRemoved(s.employees, t.employees, f.employees, e, w, time, tx);
    case EnsureEmployee(e, w, time, tx) =>
      EmployeesInsert(s.employees, t.employees, f.employees, e, NewEmployee(w, time, tx));
    case PlaceholderEmployee(e, time, tx) =>
      if e !in s.employees {
        EmployeesInsert(s.employees, t.employees, f.employees, e, NewEmployee(ZERO_ADDRESS, time, tx));
        assert Effect(t, st) == t;
      }
    case UpdateWithdraw(e, time, tx) =>
      assert e in f.employees;
      EmployeesWithdraw(s.employees, t.employees, f.employees, e, time, tx);
  }

  /** One statement executed by both passes keeps the relation, provided the first pass still ends in f. */
  lemma EffectKeepsLockstep(s: Tables, t: Tables, f: Tables, st: Statement)
    requires Lockstep(s, t, f) && Later(Effect(s, st), f) && Finds(s, st)
    ensures Lockstep(Effect(s, st), Effect(t, st), f)
  {
    hide EmployeeLockstep, EmployerLockstep, EventLockstep, EmployersLockstep, EmployeesLockstep, EventsLockstep;
    hide EmployersLater, EmployeesLater, EventsLater, Finds;
    if st.UpsertEmployerAdded? || st.UpsertEmployerRemoved? || st.EnsureEmployer? || st.PlaceholderEmployer? {
      EmployerStatementKeepsLockstep(s, t, f, st);
    } else if st.SaveTransaction? || st.InsertFunding? || st.CheckEmployee? || st.InsertClaim? {
    } else if st.SaveChainEvent? {
      EventsSave(s.events, t.events, f.events, st.key, st.event);
    } else {
      EmployeeStatementKeepsLockstep(s, t, f, st);
    }
  }

  predicate AllFind(db: Tables, sts: seq<Statement>)
    decreases |sts|
  {
    sts == [] || (Finds(db, sts[0]) && AllFind(Effect(db, sts[0]), sts[1..]))
  }

  lemma {:induction false} LockstepToTheEnd(s: Tables, t: Tables, sts: seq<Statement>)
    requires Lockstep(s, t, Run(s, sts)) && AllFind(s, sts)
    ensures Run(t, sts) == Run(s, sts)
    decreases |sts|
  {
    var f := Run(s, sts);
    if sts == [] {
      LockstepWithItself(t, f);
    } else {
      var next := Effect(s, sts[0]);
      RunIsLater(next, sts[1..]);
      EffectKeepsLockstep(s, t, f, sts[0]);
      LockstepToTheEnd(next, Effect(t, sts[0]), sts[1..]);
    }
  }

  lemma LockstepWithItself(t: Tables, f: Tables)
    requires Lockstep(f, t, f)
    ensures t == f
  {
    assert t.employers == f.employers;
    assert t.employees == f.employees;
    assert t.events == f.events;
    assert t.transactions == f.transactions;
  }

  // ---- Programs of logs are well behaved -----------------------------------------------------------

  lemma {:induction false} AllFindConcat(db: Tables, a: seq<Statement>, b: seq<Statement>)
    ensures AllFind(db, a + b) <==> AllFind(db, a) && AllFind(Run(db, a), b)
    decreases |a|
  {
    if a == [] {
      assert a + b == b;
    } else {
      assert (a + b)[1..] == a[1..] + b;
      AllFindConcat(Effect(db, a[0]), a[1..], b);
    }
  }

  lemma {:induction false} AllFindWithoutWithdrawals(db: Tables, sts: seq<Statement>)
    requires forall i :: 0 <= i < |sts| ==> !sts[i].UpdateWithdraw?
    ensures AllFind(db, sts)
    decreases |sts|
  {
    if sts != [] {
      AllFindWithoutWithdrawals(Effect(db, sts[0]), sts[1..]);
    }
  }

  lemma ProgramFinds(db: Tables, log: Log)
    requires log.event.Some?
    ensures AllFind(db, Program(log))
  {
    var p := Program(log);
    if !log.removed && log.event.value.SalaryClaimed? {
      var (most, last) := (p[..6], p[6..]);
      assert p == most + last;
      var before, ensured := most[..4], most[4..];
      assert most == before + ensured;
      AllFindWithoutWithdrawals(db, most);
      AllFindConcat(db, most, last);
      RunConcat(db, before, ensured);
      var d := Run(db, before);
      assert ensured[0].PlaceholderEmployee? && ensured[0].employee in Effect(d, ensured[0]).employees;
      RunIsLater(Effect(d, ensured[0]), ensured[1..]);
      assert Run(d, ensured) == Run(Effect(d, ensured[0]), ensured[1..]);
      assert Finds(Run(db, most), last[0]);
      assert last[1..] == [];
    } else {
      AllFindWithoutWithdrawals(db, p);
    }
  }

  lemma {:induction false} ProgramsFind(db: Tables, logs: seq<Log>)
    ensures AllFind(db, Programs(logs))
    decreases |logs|
  {
    if logs != [] && logs[0].event.Some? {
      var p := Program(logs[0]);
      ProgramFinds(db, logs[0]);
      ProgramsFind(Run(db, p), logs[1..]);
      AllFindConcat(db, p, Programs(logs[1..]));
    }
  }

  // ---- Convergence ---------------------------------------------------------------------------------

  lemma RunIsIdempotent(db: Tables, sts: seq<Statement>)
    requires AllFind(db, sts)
    ensures Run(Run(db, sts), sts) == Run(db, sts)
  {
    var f := Run(db, sts);
    RunIsLater(db, sts);
    LockstepToTheEnd(db, f, sts);
  }

  /** A crash after k statements is invisible once the whole batch has run. */
  lemma PrefixThenAll(db: Tables, sts: seq<Statement>, k: nat)
    requires k <= |sts| && AllFind(db, sts)
    ensures Run(Run(db, sts[..k]), sts) == Run(db, sts)
  {
    var (done, rest) := (sts[..k], sts[k..]);
    assert sts == done + rest;
    AllFindConcat(db, done, rest);
    RunIsIdempotent(db, done);
    RunConcat(Run(db, done), done, rest);
    RunConcat(db, done, rest);
  }

  /** The tables after a series of attempts, attempt i having committed its first crashes[i] statements. */
  function Attempts(db: Tables, sts: seq<Statement>, crashes: seq<nat>): Tables
    requires forall i :: 0 <= i < |crashes| ==> crashes[i] <= |sts|
    decreases |crashes|
  {
    if crashes == [] then db else Attempts(Run(db, sts[..crashes[0]]), sts, crashes[1..])
  }

  /** Replay convergence: from any tables and for any batch of logs, any series of interrupted attempts followed by one
      complete pass leaves every table exactly as one clean pass would. */
  lemma {:induction false} ReplayConverges(db: Tables, logs: seq<Log>, crashes: seq<nat>)
    requires forall i :: 0 <= i < |crashes| ==> crashes[i] <= |Programs(logs)|
    ensures Run(Attempts(db, Programs(logs), crashes), Programs(logs)) == Run(db, Programs(logs))
    decreases |crashes|
  {
    if crashes != [] {
      var sts := Programs(logs);
      ReplayConverges(Run(db, sts[..crashes[0]]), logs, crashes[1..]);
      ProgramsFind(db, logs);
      PrefixThenAll(db, sts, crashes[0]);
    }
  }
}
