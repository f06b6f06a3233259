/** The balance audit on top of the token indexer: token balances never raise a false alarm and no balance is overlooked
    (reconciliation/balance_worker.go with repository/tokens_repo.go). */
module BalanceAlarms {
  import opened Evm
  import opened Words
  import opened ExceptionStore
  import opened Ledger
  import B = BalanceReconciler
  import R = EntityRefs
  import T = TokenStream
  import TA = TokenAudit

  // ---- Token balances --------------------------------------------------------------------------------------------

  /** The answers for the audited block, as far as there are any: aggregates over the stored rows, and a node that replays the
      chain. */
  ghost predicate Truthful(a: B.Answers, cfg: B.Config, logs: seq<T.TokenLog>, rows: seq<TransferRow>, q: Query) {
    && (a.balances.Ok? ==> forall w :: w != ZERO_ADDRESS ==> BalanceIn(a.balances.value, w) == CalculateTokenBalance(rows, q, w))
    && (forall w :: w != ZERO_ADDRESS && a.balanceOf(w).Ok? ==> a.balanceOf(w).value == BalanceIn(Replay(TA.ChainTransfers(logs, q), q), w))
    && (a.contractBalance.Ok? ==> a.contractBalance.value == CalculateTokenBalance(rows, q, cfg.contract))
    && (cfg.contract != ZERO_ADDRESS && a.contractBalanceOf.Ok? ==>
          a.contractBalanceOf.value == BalanceIn(Replay(TA.ChainTransfers(logs, q), q), cfg.contract))
  }

  /** The token checkpoint was read in s, the rows in any later state, and the audit is at or below that checkpoint. */
  ghost predicate IndexedAudit(s: T.System, setting: T.Setting, steps: seq<T.Step>, rows: seq<TransferRow>, q: Query) {
    && T.UniqueKeys(setting.logs) && T.Reachable(s, setting) && s.db.checkpoint.Some? && q.upTo <= s.db.checkpoint.value
    && (forall l :: l in setting.logs ==> setting.start <= l.block)
    && TA.ListsAll(rows, T.PerformAll(s, setting, steps).db, q)
  }

  /** Then every answered balance check agrees. */
  lemma NoFalseBalanceAlarm(s: T.System, setting: T.Setting, steps: seq<T.Step>, cfg: B.Config, a: B.Answers,
                            rows: seq<TransferRow>, q: Query)
    requires IndexedAudit(s, setting, steps, rows, q) && Truthful(a, cfg, setting.logs, rows, q)
    ensures forall c :: c in B.AddressChecks(cfg, a) + B.ContractChecks(cfg, a) && B.IsAnswered(a, c) ==> c.matches
  {
    hide T.PerformAll, T.Reachable, CalculateTokenBalance, Replay, TA.ChainTransfers, TA.ListsAll, T.UniqueKeys;
    forall w | w != ZERO_ADDRESS
      ensures CalculateTokenBalance(rows, q, w) == BalanceIn(Replay(TA.ChainTransfers(setting.logs, q), q), w)
    {
      TA.BalancesMatchTheChain(s, setting, steps, q, rows, w);
    }
    if a.balances.Ok? && a.addresses.Ok? {
      AgreeingWallets(cfg, a, a.addresses.value);
    }
  }

  lemma {:induction false} AgreeingWallets(cfg: B.Config, a: B.Answers, addresses: seq<Address>)
    requires a.balances.Ok?
    requires forall w :: w != ZERO_ADDRESS && a.balanceOf(w).Ok? ==> a.balanceOf(w).value == BalanceIn(a.balances.value, w)
    ensures forall c :: c in B.WalletChecks(cfg, a, addresses) && B.IsAnswered(a, c) ==> c.matches
  {
    if addresses != [] {
      AgreeingWallets(cfg, a, addresses[1..]);
    }
  }

  /** Only state exceptions may be opened, and a completed pass counts no other difference. */
  ghost predicate NoBalanceAlarm(cfg: B.Config, a: B.Answers, before: seq<Exc>, after: seq<Exc>, result: Result<B.Report>) {
    var states := B.EmployerChecks(cfg, a) + B.EmployeeChecks(cfg, a);
    && |before| <= |after|
    && (forall i :: |before| <= i < |after| ==> after[i].excType == ContractStateMismatch)
    && (result.Ok? ==>
          && result.value.detected == |states| - B.Agreeing(states)
          && (!B.AuditsStates(cfg) ==> result.value.detected == result.value.created == result.value.skipped == 0))
  }

  /** A pass over truthful answers, completed or interrupted, opens no balance exception. */
  lemma BalancePassIsQuiet(s: T.System, setting: T.Setting, steps: seq<T.Step>, cfg: B.Config, a: B.Answers, rows: seq<TransferRow>,
                           q: Query, fails: nat -> bool, target: uint64, before: seq<Exc>, after: seq<Exc>,
                           result: Result<B.Report>, done: seq<B.Check>)
    requires IndexedAudit(s, setting, steps, rows, q) && Truthful(a, cfg, setting.logs, rows, q)
    requires B.ListsOnce(a) && B.Outcome(cfg, a, fails, target, before, after, result, done)
    ensures NoBalanceAlarm(cfg, a, before, after, result) && (result.Ok? ==> result.value.target == target)
  {
    hide IndexedAudit, Truthful, B.AddressChecks, B.ContractChecks, B.EmployerChecks, B.EmployeeChecks, B.ApplyAll, B.Progress;
    hide B.ResolvedCount, B.Agreeing, B.IsAnswered, B.Answered, B.Unanswered;
    NoFalseBalanceAlarm(s, setting, steps, cfg, a, rows, q);
    B.NoPassHidesADifference(cfg, a, fails, target, before, after, result, done);
    var balances, states := B.AddressChecks(cfg, a) + B.ContractChecks(cfg, a), B.EmployerChecks(cfg, a) + B.EmployeeChecks(cfg, a);
    B.StepsOfAllChecks(cfg, a);
    StatesAreTyped(cfg, a);
    forall i | |before| <= i < |after|
      ensures after[i].excType == ContractStateMismatch
    {
      assert B.FoundToDiffer(cfg, a, after[i]);
      var c :| B.Told(cfg, a, c) && B.IsFor(c, after[i]);
      assert c in balances || c in states;
    }
    if result.Ok? {
      forall c | c in balances
        ensures c.matches
      {
        AllAreTold(cfg, a, done, c, balances, states);
      }
      AllAgree(balances);
      AgreeingConcat(balances, states);
      if !B.AuditsStates(cfg) {
        NoStates(cfg, a);
      }
    }
  }

  lemma AllAreTold(cfg: B.Config, a: B.Answers, done: seq<B.Check>, c: B.Check, balances: seq<B.Check>, states: seq<B.Check>)
    requires B.Continues(a, [], done, B.AllChecks(cfg, a)) && done == B.AllChecks(cfg, a) == balances + states && c in balances
    ensures B.IsAnswered(a, c)
  {
    hide B.IsAnswered, B.AllChecks;
    var i :| 0 <= i < |balances| && balances[i] == c;
    B.DoneIsTold(a, B.AllChecks(cfg, a), done, i);
    assert done[i] == c;
  }

  lemma NoStates(cfg: B.Config, a: B.Answers)
    requires !B.AuditsStates(cfg)
    ensures B.EmployerChecks(cfg, a) + B.EmployeeChecks(cfg, a) == [] && B.Agreeing([]) == 0
  {
  }

  lemma StatesAreTyped(cfg: B.Config, a: B.Answers)
    ensures forall c :: c in B.EmployerChecks(cfg, a) + B.EmployeeChecks(cfg, a) ==> c.excType == ContractStateMismatch
  {
    if B.AuditsStates(cfg) && a.employers.Ok? {
      StateChecksAreTyped(cfg, R.EmployerActive, a.employers.value, a.employerActive);
    }
    if B.AuditsStates(cfg) && a.employees.Ok? {
      StateChecksAreTyped(cfg, R.EmployeeActive, a.employees.value, a.employeeActive);
    }
  }

  lemma {:induction false} StateChecksAreTyped(cfg: B.Config, property: R.Property, rows: seq<B.StateRow>, active: Address -> Result<bool>)
    ensures forall c :: c in B.StateChecks(cfg, property, rows, active) ==> c.excType == ContractStateMismatch
  {
    if rows != [] {
      StateChecksAreTyped(cfg, property, rows[1..], active);
    }
  }

  lemma {:induction false} AllAgree(checks: seq<B.Check>)
    requires forall c :: c in checks ==> c.matches
    ensures B.Agreeing(checks) == |checks|
  {
    if checks != [] {
      AllAgree(checks[..|checks| - 1]);
    }
  }

  lemma {:induction false} AgreeingConcat(first: seq<B.Check>, second: seq<B.Check>)
    ensures B.Agreeing(first + second) == B.Agreeing(first) + B.Agreeing(second)
  {
    if second == [] {
      assert first + second == first;
    } else {
      var init := second[..|second| - 1];
      AgreeingConcat(first, init);
      assert (first + second)[..|first + second| - 1] == first + init;
    }
  }

  /** The whole audit, at the block that it chooses itself from the token checkpoint, the head and the request. */
  lemma BalanceAuditIsQuiet(s: T.System, setting: T.Setting, steps: seq<T.Step>, cfg: B.Config, env: B.Env, requested: uint64,
                            checkpoint: uint64, rows: seq<TransferRow>, q: Query, before: seq<Exc>, after: seq<Exc>,
                            result: Result<B.Report>, done: seq<B.Check>)
    requires T.UniqueKeys(setting.logs) && T.Reachable(s, setting) && s.db.checkpoint == Some(checkpoint)
    requires env.checkpoint == Ok(Some(checkpoint)) && (forall l :: l in setting.logs ==> setting.start <= l.block)
    requires TA.ListsAll(rows, T.PerformAll(s, setting, steps).db, q)
    requires forall b: uint64 :: B.ListsOnce(env.at(b)) && Truthful(env.at(b), cfg, setting.logs, rows, q.(upTo := b))
    requires B.TargetOutcome(cfg, requested, env, before, after, result, done)
    ensures |before| <= |after| && forall i :: |before| <= i < |after| ==> after[i].excType == ContractStateMismatch
    ensures result.Ok? && result.value != B.Report(0, 0, 0, 0, 0, 0) ==>
              NoBalanceAlarm(cfg, env.at(result.value.target), before, after, result)
  {
    hide T.PerformAll, T.Reachable, Truthful, B.Outcome, T.UniqueKeys;
    if env.latest.Ok? && env.latest.value >= cfg.depth {
      var target := B.TargetBlock(env.latest.value, cfg.depth, env.checkpoint.value, cfg.startBlock, requested);
      if target.Some? {
        B.TargetIsHighestAllowed(env.latest.value, cfg.depth, env.checkpoint.value, cfg.startBlock, requested);
        BalancePassIsQuiet(s, setting, steps, cfg, env.at(target.value), rows, q.(upTo := target.value), env.storeFails, target.value,
                           before, after, result, done);
      }
    }
  }

  // ---- Nobody is overlooked --------------------------------------------------------------------------------------

  /** The addresses that are audited: the parties of the stored transfers, removed ones included, the parties of fundings
      and claims, and the contract. */
  function RelevantAddresses(rows: seq<TransferRow>, payrollParties: set<Address>, contract: Address, q: Query): set<Address> {
    (set r | r in rows && r.chain == q.chain && r.token == q.token && r.block <= q.upTo :: r.src)
    + (set r | r in rows && r.chain == q.chain && r.token == q.token && r.block <= q.upTo :: r.dst)
    + payrollParties + {contract} - {ZERO_ADDRESS}
  }

  /** Every address with a balance in the tables is audited. */
  lemma EveryBalanceIsAudited(rows: seq<TransferRow>, payrollParties: set<Address>, contract: Address, q: Query,
                                                 wallet: Address)
    requires wallet != ZERO_ADDRESS && CalculateTokenBalance(rows, q, wallet) != 0
    ensures wallet in RelevantAddresses(rows, payrollParties, contract, q)
  {
    var r := MovedBy(rows, q, wallet);
  }

  lemma {:induction false} MovedBy(rows: seq<TransferRow>, q: Query, wallet: Address) returns (r: TransferRow)
    requires CalculateTokenBalance(rows, q, wallet) != 0
    ensures r in rows && Counts(r, q) && (r.src == wallet || r.dst == wallet)
  {
    var (init, last) := (rows[..|rows| - 1], rows[|rows| - 1]);
    if Counts(last, q) && (last.src == wallet || last.dst == wallet) {
      r := last;
    } else {
      r := MovedBy(init, q, wallet);
    }
  }
}
