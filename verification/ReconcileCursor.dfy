/** The durable sweep of a log reconciler: each call audits the next batch of finalized blocks and moves a cursor
    (ReconcileNextBatch in reconciliation/payroll_worker.go, salary_claim_worker.go, token_transfer_worker.go). */
module ReconcileCursor {
  import opened Words
  import opened Ranges
  import opened ExceptionStore
  import opened LogReconciler
  import L = ExceptionLifecycle

  // ---- What one call does to the cursor ------------------------------------------------------------------

  /** One call: the head is read twice, once to choose the batch and once inside ReconcileRange. */
  datatype Call = Call(batchSize: uint64, latest: Result<uint64>, cursorFails: bool, again: Result<uint64>,
                       audited: bool, saveFails: bool)

  /** What a call saved: the new cursor, and the blocks that were really compared on the way to it. */
  datatype Advance = Stay | Move(to: uint64, compared: Option<BlockRange>)

  function Batch(call: Call): uint64 {
    if call.batchSize == 0 then 100 else call.batchSize
  }

  function From(cursor: Option<uint64>, startBlock: uint64): uint64 {
    if cursor.Some? && cursor.value >= startBlock then Wrap(cursor.value + 1) else startBlock
  }

  /** The block at which ReconcileRange says it ended; a range beyond its own safe head is skipped with its end unclamped. */
  function RangeEnd(from: uint64, to: uint64, depth: uint64, again: Result<uint64>, audited: bool): Result<uint64> {
    if from > to || again.Error? then Error
    else
      var safe := SafeOrLatest(again.value, depth);
      if from > safe then Ok(to)
      else if !audited then Error
      else Ok(Min(to, safe))
  }

  function NextAdvance(cursor: Option<uint64>, startBlock: uint64, depth: uint64, call: Call): Advance {
    if call.latest.Error? || call.cursorFails then Stay
    else
      var safe := SafeOrLatest(call.latest.value, depth);
      var from := From(cursor, startBlock);
      if from > safe then Stay
      else
        var to := BatchEnd(from, Batch(call), safe);
        match RangeEnd(from, to, depth, call.again, call.audited)
        case Error => Stay
        case Ok(end) =>
          if end < from || call.saveFails then Stay
          else Move(end, if from > SafeOrLatest(call.again.value, depth) then None else Some(BlockRange(from, end)))
  }

  function Cursor(cursor: Option<uint64>, step: Advance): Option<uint64> {
    if step.Move? then Some(step.to) else cursor
  }

  /** The cursor never moves backwards and never passes the safe head that the call saw first. */
  lemma CursorIsMonotoneAndSafe(cursor: Option<uint64>, startBlock: uint64, depth: uint64, call: Call)
    requires cursor.Some? ==> cursor.value < MAX_UINT64
    ensures var step := NextAdvance(cursor, startBlock, depth, call);
            step.Move? ==>
              && call.latest.Ok? && From(cursor, startBlock) <= step.to <= SafeOrLatest(call.latest.value, depth)
              && (cursor.Some? ==> cursor.value < step.to)
              && step.to - From(cursor, startBlock) < Batch(call)
  {
    var from := From(cursor, startBlock);
    if call.latest.Ok? && from <= SafeOrLatest(call.latest.value, depth) {
      BatchEndIsValidExactlyWithoutOverflow(from, Batch(call),
                                            SafeOrLatest(call.latest.value, depth));
      NextRangeIsUnbounded(from, SafeOrLatest(call.latest.value, depth), Batch(call));
    }
  }

  /** A call skips blocks exactly when its second look at the head finds the safe head below the batch. */
  lemma SkipsExactlyWhenHeadRegresses(cursor: Option<uint64>, startBlock: uint64, depth: uint64, call: Call)
    ensures var step := NextAdvance(cursor, startBlock, depth, call);
            step.Move? ==>
              && (step.compared.None? <==> SafeOrLatest(call.again.value, depth) < From(cursor, startBlock))
              && (step.compared.Some? ==> step.compared.value == BlockRange(From(cursor, startBlock), step.to))
  {
  }

  /** The safe head is monotone in the head exactly when the chain does not grow through the confirmation depth. */
  lemma SafeHeadRegressesExactlyWhen(latest: uint64, again: uint64, depth: uint64)
    requires latest <= again
    ensures SafeOrLatest(again, depth) < SafeOrLatest(latest, depth) <==> latest < depth <= again < latest + depth
  {
  }

  /** A growing head is enough to skip blocks: whenever the chain grows through the depth between the two looks and the safe
      head of the second one lies below the batch, the call moves the cursor over blocks that nobody compared. */
  lemma YoungChainSkipsBlocks(startBlock: uint64, depth: uint64, batchSize: uint64, latest: uint64, again: uint64)
    requires 0 < batchSize && startBlock + batchSize <= TWO_TO_64
    requires startBlock <= latest < depth <= again < startBlock + depth
    ensures var call := Call(batchSize, Ok(latest), false, Ok(again), true, false);
            NextAdvance(None, startBlock, depth, call) == Move(Min(startBlock + batchSize - 1, latest), None)
  {
    BatchEndIsValidExactlyWithoutOverflow(startBlock, batchSize, latest);
    NextRangeIsUnbounded(startBlock, latest, batchSize);
  }

  // ---- Runs --------------------------------------------------------------------------------------------------

  datatype Sweep = Sweep(cursor: Option<uint64>, compared: seq<BlockRange>)

  function RunSweep(startBlock: uint64, depth: uint64, calls: seq<Call>): Sweep {
    if calls == [] then Sweep(None, [])
    else
      var before := RunSweep(startBlock, depth, calls[..|calls| - 1]);
      Swept(before, NextAdvance(before.cursor, startBlock, depth, calls[|calls| - 1]))
  }

  function Swept(before: Sweep, step: Advance): Sweep {
    match step
    case Stay => before
    case Move(to, Some(range)) => Sweep(Some(to), before.compared + [range])
    case Move(to, None) => Sweep(Some(to), before.compared)
  }

  /** The call moves the cursor over a batch that begins beyond the safe head of its second look. */
  predicate Skips(cursor: Option<uint64>, startBlock: uint64, depth: uint64, call: Call) {
    NextAdvance(cursor, startBlock, depth, call).Move? && SafeOrLatest(call.again.value, depth) < From(cursor, startBlock)
  }

  predicate NeverSkips(startBlock: uint64, depth: uint64, calls: seq<Call>) {
    calls != [] ==>
      var init := calls[..|calls| - 1];
      NeverSkips(startBlock, depth, init) && !Skips(RunSweep(startBlock, depth, init).cursor, startBlock, depth, calls[|calls| - 1])
  }

  /** No chain reaches the largest block number. */
  predicate HeadsFit(calls: seq<Call>) {
    forall i :: 0 <= i < |calls| ==> HeadFits(calls[i])
  }

  predicate HeadFits(call: Call) {
    call.latest.Ok? ==> call.latest.value < MAX_UINT64
  }

  predicate IsCompared(ranges: seq<BlockRange>, block: nat) {
    exists i :: 0 <= i < |ranges| && ranges[i].from <= block <= ranges[i].to
  }

  /** The cursor has passed a block that no call compared. */
  ghost predicate Missed(sweep: Sweep, startBlock: uint64) {
    sweep.cursor.Some? && exists b: nat :: startBlock <= b <= sweep.cursor.value && !IsCompared(sweep.compared, b)
  }

  ghost predicate SweepOk(sweep: Sweep, startBlock: uint64) {
    && (sweep.cursor.None? ==> sweep.compared == [])
    && (sweep.cursor.Some? ==> Tiles(sweep.compared, startBlock, sweep.cursor.value))
  }

  /** What holds of every sweep, whatever it skipped. */
  predicate InBounds(sweep: Sweep, startBlock: uint64) {
    && (sweep.cursor.None? ==> sweep.compared == [])
    && (sweep.cursor.Some? ==> startBlock <= sweep.cursor.value < MAX_UINT64)
    && (forall i :: 0 <= i < |sweep.compared| ==> sweep.cursor.Some? && sweep.compared[i].to <= sweep.cursor.value)
  }

  lemma TilesOneMore(ranges: seq<BlockRange>, lo: nat, hi: int, next: BlockRange)
    requires Tiles(ranges, lo, hi) && next.from == hi + 1 && next.from <= next.to
    ensures Tiles(ranges + [next], lo, next.to)
  {
  }

  lemma StepStaysInBounds(before: Sweep, startBlock: uint64, depth: uint64, call: Call)
    requires InBounds(before, startBlock) && HeadFits(call)
    ensures var step := NextAdvance(before.cursor, startBlock, depth, call);
            && InBounds(Swept(before, step), startBlock)
            && (step.Move? ==> From(before.cursor, startBlock) == (if before.cursor.Some? then before.cursor.value + 1 else startBlock))
            && (step.Move? ==> From(before.cursor, startBlock) <= step.to)
            && (step.Move? ==> step.compared == if Skips(before.cursor, startBlock, depth, call) then None
                                                else Some(BlockRange(From(before.cursor, startBlock), step.to)))
  {
    hide SafeOrLatest, BatchEnd;
    CursorIsMonotoneAndSafe(before.cursor, startBlock, depth, call);
    SkipsExactlyWhenHeadRegresses(before.cursor, startBlock, depth, call);
    if NextAdvance(before.cursor, startBlock, depth, call).Move? {
      SafeHeadBelowHead(call.latest.value, depth);
    }
  }

  /** One call on top of a sound sweep. */
  lemma SweepStep(before: Sweep, startBlock: uint64, depth: uint64, call: Call)
    requires InBounds(before, startBlock) && HeadFits(call) && SweepOk(before, startBlock)
    requires !Skips(before.cursor, startBlock, depth, call)
    ensures SweepOk(Swept(before, NextAdvance(before.cursor, startBlock, depth, call)), startBlock)
  {
    hide Tiles, NextAdvance, Skips, From;
    StepStaysInBounds(before, startBlock, depth, call);
    var step := NextAdvance(before.cursor, startBlock, depth, call);
    if step.Move? {
      var range := step.compared.value;
      if before.cursor.Some? {
        TilesOneMore(before.compared, startBlock, before.cursor.value, range);
      } else {
        OneTile(range);
        assert [] + [range] == [range];
      }
    }
  }

  /** A block that was passed over stays so, and a skipping call passes over the first block of its batch. */
  lemma SkipStep(before: Sweep, startBlock: uint64, depth: uint64, call: Call)
    requires InBounds(before, startBlock) && HeadFits(call)
    requires Missed(before, startBlock) || Skips(before.cursor, startBlock, depth, call)
    ensures Missed(Swept(before, NextAdvance(before.cursor, startBlock, depth, call)), startBlock)
  {
    hide NextAdvance, From;
    StepStaysInBounds(before, startBlock, depth, call);
    var step := NextAdvance(before.cursor, startBlock, depth, call);
    if step.Move? {
      var after := Swept(before, step);
      var b: nat := From(before.cursor, startBlock);
      if Missed(before, startBlock) {
        b :| startBlock <= b <= before.cursor.value && !IsCompared(before.compared, b);
      }
      assert !IsCompared(after.compared, b);
    }
  }

  /** In a tiling every block is in some tile. */
  lemma {:induction false} TilesCover(ranges: seq<BlockRange>, lo: nat, hi: int, block: nat)
    requires Tiles(ranges, lo, hi) && lo <= block <= hi
    ensures IsCompared(ranges, block)
  {
    var last := ranges[|ranges| - 1];
    if last.from <= block {
      assert ranges[|ranges| - 1].from <= block <= ranges[|ranges| - 1].to;
    } else {
      var init := ranges[..|ranges| - 1];
      TilesCover(init, lo, last.from - 1, block);
      var i :| 0 <= i < |init| && init[i].from <= block <= init[i].to;
      assert ranges[i] == init[i];
    }
  }

  lemma OneTile(range: BlockRange)
    requires range.from <= range.to
    ensures Tiles([range], range.from, range.to)
  {
  }

  lemma SafeHeadBelowHead(latest: uint64, depth: uint64)
    ensures SafeOrLatest(latest, depth) <= latest
  {
  }

  /** From a fresh cursor, the audited ranges cut the blocks from the start block to the cursor without gap or overlap exactly
      when no call skipped its batch; otherwise the cursor has passed a block that nobody compared. */
  lemma {:induction false} SweepTilesExactlyWhen(startBlock: uint64, depth: uint64, calls: seq<Call>)
    requires HeadsFit(calls)
    ensures SweepOk(RunSweep(startBlock, depth, calls), startBlock) <==> NeverSkips(startBlock, depth, calls)
    ensures Missed(RunSweep(startBlock, depth, calls), startBlock) <==> !NeverSkips(startBlock, depth, calls)
    ensures InBounds(RunSweep(startBlock, depth, calls), startBlock)
  {
    hide SweepOk, Missed, NextAdvance, Swept, HeadFits, Skips, InBounds;
    if calls == [] {
      NothingSwept(startBlock);
    } else {
      var init, last := calls[..|calls| - 1], calls[|calls| - 1];
      var before := RunSweep(startBlock, depth, init);
      SweepTilesExactlyWhen(startBlock, depth, init);
      StepStaysInBounds(before, startBlock, depth, last);
      if NeverSkips(startBlock, depth, calls) {
        SweepStep(before, startBlock, depth, last);
      } else {
        SkipStep(before, startBlock, depth, last);
      }
    }
    if SweepOk(RunSweep(startBlock, depth, calls), startBlock) {
      NotBoth(RunSweep(startBlock, depth, calls), startBlock);
    }
  }

  lemma NotBoth(sweep: Sweep, startBlock: uint64)
    requires SweepOk(sweep, startBlock)
    ensures !Missed(sweep, startBlock)
  {
    hide Tiles;
    if sweep.cursor.Some? {
      forall b: nat | startBlock <= b <= sweep.cursor.value
        ensures IsCompared(sweep.compared, b)
      {
        TilesCover(sweep.compared, startBlock, sweep.cursor.value, b);
      }
    }
  }

  /** What a caller can look at: no call skips while no second look sees a growing chain enter its first depth blocks, or a
      falling head. */
  lemma {:induction false} SteadyHeadsNeverSkip(startBlock: uint64, depth: uint64, calls: seq<Call>)
    requires forall i :: 0 <= i < |calls| && calls[i].latest.Ok? && calls[i].again.Ok? ==>
               && calls[i].latest.value <= calls[i].again.value
               && !(calls[i].latest.value < depth <= calls[i].again.value < calls[i].latest.value + depth)
    ensures NeverSkips(startBlock, depth, calls)
  {
    if calls != [] {
      var call := calls[|calls| - 1];
      SteadyHeadsNeverSkip(startBlock, depth, calls[..|calls| - 1]);
      if call.latest.Ok? && call.again.Ok? {
        SafeHeadRegressesExactlyWhen(call.latest.value, call.again.value, depth);
      }
    }
  }

  lemma NothingSwept(startBlock: uint64)
    ensures SweepOk(Sweep(None, []), startBlock) && InBounds(Sweep(None, []), startBlock)
  {
  }

  // ---- The method ------------------------------------------------------------------------------------------------

  class Sweeper {
    const startBlock: uint64
    const reconciler: Reconciler
    var cursor: Option<uint64>

    constructor (startBlock: uint64, reconciler: Reconciler)
      ensures this.startBlock == startBlock && this.reconciler == reconciler && cursor == None
    {
      this.startBlock, this.reconciler, cursor := startBlock, reconciler, None;
    }

    /** pass is what the call for the chosen batch returned, if there was one; an interrupted pass and a failing save are
        reported as errors. */
    method ReconcileNextBatch(batchSize: uint64, latest: Result<uint64>, cursorFails: bool, env: Env, saveFails: bool)
      returns (result: Result<Report>, ghost call: Call, ghost pass: Result<Report>, ghost ms: seq<L.Mismatch>)
      modifies this`cursor, reconciler.repo
      ensures call == Call(batchSize, latest, cursorFails, env.latest, pass.Ok?, saveFails)
      ensures BatchOutcome(old(cursor), startBlock, reconciler.confirmationDepth, call, env, reconciler.scope,
                           old(reconciler.repo.rows), reconciler.repo.rows, result, pass, ms)
      ensures cursor == Cursor(old(cursor), NextAdvance(old(cursor), startBlock, reconciler.confirmationDepth, call))
      ensures result.Error? ==> cursor == old(cursor)
      ensures NextAdvance(old(cursor), startBlock, reconciler.confirmationDepth, call).Move? <==> pass.Ok? && !saveFails
    {
      hide RangeOutcome;
      ms, pass := [], Error;
      call := Call(batchSize, latest, cursorFails, env.latest, false, saveFails);
      if latest.Error? {
        return Error, call, pass, ms;
      }
      var safe := SafeOrLatest(latest.value, reconciler.confirmationDepth);
      if cursorFails {
        return Error, call, pass, ms;
      }
      var from := startBlock;
      if cursor.Some? && cursor.value >= from {
        from := Wrap(cursor.value + 1);
      }
      if from > safe {
        return Ok(Report(from, safe, safe, 0, 0, 0, 0, 0, 0, 0)), call, pass, ms;
      }
      var batch := if batchSize == 0 then 100 else batchSize;
      var to := BatchEnd(from, batch, safe);
      ghost var before := reconciler.repo.rows;
      result, ms := reconciler.ReconcileRange(from, to, env);
      pass := result;
      RangeOutcomeEnd(env, reconciler.scope, reconciler.confirmationDepth, from, to, before, reconciler.repo.rows, result, ms);
      call := call.(audited := result.Ok?);
      if result.Error? {
        return Error, call, pass, ms;
      }
      if result.value.to >= from {
        if saveFails {
          return Error, call, pass, ms;
        }
        cursor := Some(result.value.to);
      }
    }
  }

  /** Where a call for [from, to] says that it ended. */
  lemma RangeOutcomeEnd(env: Env, scope: L.Scope, depth: uint64, from: uint64, to: uint64, before: seq<Exc>, after: seq<Exc>,
                        result: Result<Report>, ms: seq<L.Mismatch>)
    requires RangeOutcome(env, scope, depth, from, to, before, after, result, ms)
    ensures RangeEnd(from, to, depth, env.latest, result.Ok?) == (if result.Ok? then Ok(result.value.to) else Error)
    ensures result.Ok? ==> from <= result.value.to
  {
  }

  /** The result and the table after one call of the sweep. */
  ghost predicate BatchOutcome(cursor: Option<uint64>, startBlock: uint64, depth: uint64, call: Call, env: Env, scope: L.Scope,
                               before: seq<Exc>, after: seq<Exc>, result: Result<Report>, pass: Result<Report>, ms: seq<L.Mismatch>)
  {
    if call.latest.Error? || call.cursorFails then result == Error && pass == Error && after == before
    else
      var safe := SafeOrLatest(call.latest.value, depth);
      var from := From(cursor, startBlock);
      if from > safe then
        result == Ok(Report(from, safe, safe, 0, 0, 0, 0, 0, 0, 0)) && pass == Error && after == before
      else
        && RangeOutcome(env, scope, depth, from, BatchEnd(from, Batch(call), safe), before, after, pass, ms)
        && result == if call.saveFails then Error else pass
  }

  /** The exact move of one call, when the sum does not wrap: from the block after the cursor, or the start block, the cursor goes
      to min(from + batch - 1, safe head), cut at the safe head of the second look unless that lies below the batch. */
  lemma CursorMovesExactly(cursor: Option<uint64>, startBlock: uint64, depth: uint64, call: Call)
    requires cursor.Some? ==> cursor.value < MAX_UINT64
    ensures var from := if cursor.Some? && cursor.value >= startBlock then cursor.value + 1 else startBlock;
            var batch := if call.batchSize == 0 then 100 else call.batchSize;
            var step := NextAdvance(cursor, startBlock, depth, call);
            call.latest.Ok? && from + batch <= TWO_TO_64 && !call.cursorFails && !call.saveFails && call.again.Ok? && call.audited ==>
              var safe := if call.latest.value >= depth then call.latest.value - depth else call.latest.value;
              var safe2 := if call.again.value >= depth then call.again.value - depth else call.again.value;
              var to := Min(from + batch - 1, safe);
              && (step.Move? <==> from <= safe)
              && (step.Move? ==> step.to == if from > safe2 then to else Min(to, safe2))
  {
    hide Wrap, BatchEnd, NextRange, SafeOrLatest, From;
    FromReads(cursor, startBlock);
    var from := From(cursor, startBlock);
    if call.latest.Ok? && call.again.Ok? && from + Batch(call) <= TWO_TO_64 {
      SafeReads(call.latest.value, depth);
      SafeReads(call.again.value, depth);
      BatchEndReads(from, Batch(call), SafeOrLatest(call.latest.value, depth));
    }
  }

  lemma FromReads(cursor: Option<uint64>, startBlock: uint64)
    requires cursor.Some? ==> cursor.value < MAX_UINT64
    ensures From(cursor, startBlock) == if cursor.Some? && cursor.value >= startBlock then cursor.value + 1 else startBlock
  {
    if cursor.Some? {
      assert Wrap(cursor.value + 1) == cursor.value + 1;
    }
  }

  lemma SafeReads(latest: uint64, depth: uint64)
    ensures SafeOrLatest(latest, depth) == if latest >= depth then latest - depth else latest
  {
  }

  lemma BatchEndReads(from: uint64, batch: uint64, target: uint64)
    requires batch > 0 && from + batch <= TWO_TO_64
    ensures BatchEnd(from, batch, target) == Min(from + batch - 1, target)
  {
    assert Wrap(from + batch - 1) == from + batch - 1;
  }

  /** What a caller may rely on: an error leaves the cursor, the cursor moves exactly when a call for its batch succeeded and
      was saved, and over compared blocks it moves only after a whole pass over exactly these blocks. */
  lemma CursorFollowsPasses(cursor: Option<uint64>, startBlock: uint64, depth: uint64, call: Call, env: Env, scope: L.Scope,
                            before: seq<Exc>, after: seq<Exc>, result: Result<Report>, pass: Result<Report>, ms: seq<L.Mismatch>)
    requires BatchOutcome(cursor, startBlock, depth, call, env, scope, before, after, result, pass, ms)
    requires call.again == env.latest && call.audited == pass.Ok?
    ensures var step := NextAdvance(cursor, startBlock, depth, call);
            && (result.Error? ==> step == Stay)
            && (step.Move? <==> pass.Ok? && !call.saveFails)
            && (step.Move? ==> result == pass && step.to == result.value.to)
            && (step.Move? && step.compared.None? ==> after == before)
            && (step.Move? && step.compared.Some? ==>
                  var range := step.compared.value;
                  && range == BlockRange(From(cursor, startBlock), step.to) && env.Readable()
                  && Outcome(env, scope, range.from, range.to, SafeOrLatest(env.latest.value, depth), before, after, result, ms))
    ensures L.OnlyOwnRowsChange(before, after, scope)
  {
    hide Outcome, L.OnlyOwnRowsChange;
    Unchanged(before, scope);
    if call.latest.Ok? && !call.cursorFails && From(cursor, startBlock) <= SafeOrLatest(call.latest.value, depth) {
      var from := From(cursor, startBlock);
      var to := BatchEnd(from, Batch(call), SafeOrLatest(call.latest.value, depth));
      RangeOutcomeEnd(env, scope, depth, from, to, before, after, pass, ms);
      if env.latest.Ok? {
        var safe := SafeOrLatest(env.latest.value, depth);
        OutcomeIsIsolated(env, scope, from, Min(to, safe), safe, before, after, pass, ms);
      }
    }
  }

  lemma OutcomeIsIsolated(env: Env, scope: L.Scope, from: uint64, eff: int, safe: uint64, before: seq<Exc>, after: seq<Exc>,
                          result: Result<Report>, ms: seq<L.Mismatch>)
    ensures 0 <= eff < TWO_TO_64 && env.Readable() && Outcome(env, scope, from, eff, safe, before, after, result, ms)
            ==> L.OnlyOwnRowsChange(before, after, scope) && (result.Ok? ==> result.value.to == eff)
  {
    if 0 <= eff < TWO_TO_64 && env.Readable() && Outcome(env, scope, from, eff, safe, before, after, result, ms) {
      hide L.OnlyOwnRowsChange, L.Pass;
      if result.Error? {
        InterruptedIsIsolated(before, after, scope, ms, from, eff);
      } else {
        L.PassIsIsolated(before, scope, ms, from, eff);
      }
    }
  }

  lemma Unchanged(rows: seq<Exc>, scope: L.Scope)
    ensures L.OnlyOwnRowsChange(rows, rows, scope)
  {
  }
}
