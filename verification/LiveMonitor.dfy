/** The polling loop: each poll moves every stream's checkpoint by at most a fixed number of batches towards the safe
    head (indexer/live_monitor.go). */
module LiveMonitor {
  import opened Words
  import opened Ranges

  datatype Stream = Payroll | Token | Escrow

  /** The payroll stream saves its checkpoint in a statement of its own; the others save it with the batch, except for
      block 0. */
  function Saved(stream: Stream, checkpoint: Option<uint64>, to: uint64): Option<uint64> {
    if stream.Payroll? || to > 0 then Some(to) else checkpoint
  }

  function EffectiveStart(stream: Stream, checkpoint: Option<uint64>, start: uint64): uint64 {
    match checkpoint
    case None => start
    case Some(last) =>
      var resume := Wrap(last + 1);
      if !stream.Payroll? && resume < start then start else resume
  }

  /** What a poll leaves behind: the checkpoint, the number of finished batches, and whether it returned without error. */
  datatype Polled = Polled(checkpoint: Option<uint64>, batches: nat, ok: bool)

  /** The loop from block `from` on; batch number i fails when fails(i) holds or its end wraps around. */
  function PollFrom(stream: Stream, checkpoint: Option<uint64>, from: nat, safe: uint64, batch: uint64, limit: nat,
                    fails: nat -> bool, i: nat): Polled
    requires i <= limit
    decreases limit - i
  {
    if from > safe || i == limit then Polled(checkpoint, i, true)
    else
      var to := BatchEnd(from, batch, safe);
      if fails(i) || from > to then Polled(checkpoint, i, false)
      else PollFrom(stream, Saved(stream, checkpoint, to), to + 1, safe, batch, limit, fails, i + 1)
  }

  // ---- Closed form -------------------------------------------------------------------------------------------

  /** The last block reached from `from` after n batches. */
  function Reached(from: nat, safe: nat, batch: nat, n: nat): int {
    Min(safe, from - 1 + batch * n)
  }

  /** The checkpoint after n finished batches. */
  function CheckpointAfter(stream: Stream, checkpoint: Option<uint64>, from: nat, safe: uint64, batch: nat, n: nat): Option<int> {
    if n == 0 || (!stream.Payroll? && Reached(from, safe, batch, n) == 0) then checkpoint else Some(Reached(from, safe, batch, n))
  }

  lemma BatchStep(from: nat, safe: nat, batch: nat, n: nat)
    requires from <= safe && batch > 0
    ensures Reached(Min(from + batch - 1, safe) + 1, safe, batch, n) == Reached(from, safe, batch, n + 1)
    ensures Reached(from, safe, batch, 1) == Min(from + batch - 1, safe)
    ensures Reached(Min(from + batch - 1, safe) + 1, safe, batch, n) >= Min(from + batch - 1, safe)
  {
    assert batch * (n + 1) == batch * n + batch;
    assert batch * n >= 0;
  }

  /** Every poll: the finished batches decide the checkpoint; it stops at the safe head, at the limit, or at the first
      batch that fails. */
  lemma {:induction false} PollClosedForm(stream: Stream, checkpoint: Option<uint64>, from: nat, safe: uint64, batch: uint64,
                                          limit: nat, fails: nat -> bool, i: nat)
    requires i <= limit && batch > 0 && from <= safe + 1
    ensures var p := PollFrom(stream, checkpoint, from, safe, batch, limit, fails, i);
            var n := p.batches - i;
            && i <= p.batches <= limit
            && p.checkpoint == CheckpointAfter(stream, checkpoint, from, safe, batch, n)
            && (forall j :: i <= j < p.batches ==> !fails(j))
            && (p.ok ==> p.batches == limit || Reached(from, safe, batch, n) == safe)
            && (!p.ok ==> p.batches < limit && Reached(from, safe, batch, n) < safe
                          && (fails(p.batches) || from + batch * (n + 1) - 1 >= TWO_TO_64))
    decreases limit - i
  {
    hide BatchEnd;
    if from <= safe && i < limit {
      var to := BatchEnd(from, batch, safe);
      BatchEndIsValidExactlyWithoutOverflow(from, batch, safe);
      NextRangeIsUnbounded(from, safe, batch);
      assert batch * 0 == 0 && batch * 1 == batch;
      if !fails(i) && from <= to {
        PollClosedForm(stream, Saved(stream, checkpoint, to), to as int + 1, safe, batch, limit, fails, i + 1);
        var p := PollFrom(stream, checkpoint, from, safe, batch, limit, fails, i);
        BatchStep(from, safe, batch, p.batches - i - 1);
        assert batch * (p.batches - i) == batch * (p.batches - i - 1) + batch;
        assert batch * (p.batches - i + 1) == batch * (p.batches - i) + batch;
      }
    } else {
      assert batch * 0 == 0;
    }
  }

  /** A poll without failures moves the checkpoint to exactly min(safe, from - 1 + batch * limit), unless that is block 0
      of a stream that never saves block 0. */
  lemma CleanPoll(stream: Stream, checkpoint: Option<uint64>, from: nat, safe: uint64, batch: uint64, limit: nat, fails: nat -> bool)
    requires batch > 0 && limit > 0 && from <= safe && safe + batch <= TWO_TO_64 && forall j :: !fails(j)
    ensures var p := PollFrom(stream, checkpoint, from, safe, batch, limit, fails, 0);
            && p.ok
            && p.checkpoint == if !stream.Payroll? && Reached(from, safe, batch, limit) == 0 then checkpoint
                               else Some(Reached(from, safe, batch, limit))
  {
    PollClosedForm(stream, checkpoint, from, safe, batch, limit, fails, 0);
    var p := PollFrom(stream, checkpoint, from, safe, batch, limit, fails, 0);
    LastBatchFits(from, safe, batch, p.batches);
    ReachedIsMonotone(from, safe, batch, p.batches, limit);
    assert batch * 0 == 0;
  }

  lemma LastBatchFits(from: nat, safe: nat, batch: nat, n: nat)
    ensures Reached(from, safe, batch, n) < safe ==> from + batch * (n + 1) - 1 < safe + batch
  {
    assert batch * (n + 1) == batch * n + batch;
  }

  lemma ReachedIsMonotone(from: nat, safe: nat, batch: nat, n: nat, m: nat)
    requires n <= m
    ensures Reached(from, safe, batch, n) <= Reached(from, safe, batch, m) <= safe
  {
    Scaled(batch, n, m);
  }

  /** A token or escrow stream that starts at block 0 with one block per poll never gets anywhere. */
  lemma StuckAtBlockZero(stream: Stream, safe: uint64, fails: nat -> bool)
    requires !stream.Payroll? && safe < MAX_UINT64 && forall j :: !fails(j)
    ensures PollFrom(stream, None, EffectiveStart(stream, None, 0), safe, 1, 1, fails, 0).checkpoint == None
  {
    CleanPoll(stream, None, 0, safe, 1, 1, fails);
  }

  // ---- Catching up ---------------------------------------------------------------------------------------------

  function NoFailure(i: nat): bool {
    false
  }

  /** The checkpoint after n polls without failures under a fixed head; each one starts where the last checkpoint says. */
  function CleanPolls(stream: Stream, checkpoint: Option<uint64>, start: uint64, safe: uint64, batch: uint64, limit: nat, n: nat): Option<uint64> {
    if n == 0 then checkpoint
    else
      var before := CleanPolls(stream, checkpoint, start, safe, batch, limit, n - 1);
      PollFrom(stream, before, EffectiveStart(stream, before, start), safe, batch, limit, NoFailure, 0).checkpoint
  }

  /** The first poll would end at block 0, which a token or escrow stream never saves; span is batch * limit. */
  predicate Stuck(stream: Stream, from: nat, safe: nat, span: nat) {
    !stream.Payroll? && from == 0 && (span == 1 || safe == 0)
  }

  /** What one more poll does to a checkpoint. */
  lemma NextCleanPoll(stream: Stream, before: Option<uint64>, start: uint64, safe: uint64, batch: uint64, limit: nat, span: nat)
    requires batch > 0 && limit > 0 && safe + batch <= TWO_TO_64 && span == batch * limit
    ensures var from := EffectiveStart(stream, before, start);
            var after := PollFrom(stream, before, from, safe, batch, limit, NoFailure, 0).checkpoint;
            after == if from > safe || Stuck(stream, from, safe, span) then before else Some(Min(safe, from - 1 + span))
    ensures span > 0
  {
    var from := EffectiveStart(stream, before, start);
    PositiveProduct(batch, limit);
    if from <= safe {
      CleanPoll(stream, before, from, safe, batch, limit, NoFailure);
    }
  }

  lemma PositiveProduct(a: nat, b: nat)
    requires a > 0 && b > 0
    ensures a * b > 0
  {
  }

  lemma ReachedSteps(from: nat, safe: nat, span: nat, n: nat)
    requires from <= safe && span > 0
    ensures Reached(from, safe, span, 1) == Min(safe, from - 1 + span)
    ensures n > 0 ==> from <= Reached(from, safe, span, n) <= safe
    ensures Reached(from, safe, span, n + 1) == Min(safe, Reached(from, safe, span, n) + span)
  {
    assert span * 1 == span;
    assert span * (n + 1) == span * n + span;
    assert span * n >= 0;
    if n > 0 {
      Scaled(span, 1, n);
    }
  }

  lemma ResumeAfter(stream: Stream, checkpoint: Option<uint64>, start: uint64, last: uint64)
    requires EffectiveStart(stream, checkpoint, start) <= last < MAX_UINT64
    ensures EffectiveStart(stream, Some(last), start) == last + 1
  {
    assert Wrap(last + 1) == last + 1;
  }

  /** After n polls the checkpoint is min(safe, from - 1 + n * span), unless the first poll is stuck. */
  lemma {:induction false} CleanPollsClosedForm(stream: Stream, checkpoint: Option<uint64>, start: uint64, safe: uint64, batch: uint64,
                                                limit: nat, span: nat, n: nat)
    requires batch > 0 && limit > 0 && safe + batch <= TWO_TO_64 && span == batch * limit
    requires safe < MAX_UINT64 && (checkpoint.Some? ==> checkpoint.value < MAX_UINT64)
    requires EffectiveStart(stream, checkpoint, start) <= safe
    ensures var from := EffectiveStart(stream, checkpoint, start);
            CleanPolls(stream, checkpoint, start, safe, batch, limit, n) ==
            if n == 0 || Stuck(stream, from, safe, span) then checkpoint else Some(Reached(from, safe, span, n))
  {
    hide PollFrom, Reached;
    if n > 0 {
      var from := EffectiveStart(stream, checkpoint, start);
      CleanPollsClosedForm(stream, checkpoint, start, safe, batch, limit, span, n - 1);
      var before := CleanPolls(stream, checkpoint, start, safe, batch, limit, n - 1);
      NextCleanPoll(stream, before, start, safe, batch, limit, span);
      ReachedSteps(from, safe, span, n - 1);
      if n > 1 && !Stuck(stream, from, safe, span) {
        ResumeAfter(stream, checkpoint, start, Reached(from, safe, span, n - 1));
      }
    }
  }

  /** With a fixed head and something left to index, exactly ceil(gap / (batch * limit)) polls are needed and enough to catch
      up; only a token or escrow stream whose first poll would end at block 0 never does. */
  lemma CatchesUpExactlyAfter(stream: Stream, checkpoint: Option<uint64>, start: uint64, safe: uint64, batch: uint64, limit: nat,
                              n: nat, q: nat)
    requires batch > 0 && limit > 0 && safe + batch <= TWO_TO_64
    requires safe < MAX_UINT64 && (checkpoint.Some? ==> checkpoint.value < MAX_UINT64)
    requires EffectiveStart(stream, checkpoint, start) <= safe
    requires IsCeiling(q, safe + 1 - EffectiveStart(stream, checkpoint, start), batch * limit)
    ensures CleanPolls(stream, checkpoint, start, safe, batch, limit, n) == Some(safe)
            <==> n >= q && !Stuck(stream, EffectiveStart(stream, checkpoint, start), safe, batch * limit)
  {
    hide Reached, IsCeiling, CleanPolls;
    var from, span := EffectiveStart(stream, checkpoint, start), batch * limit;
    PositiveProduct(batch, limit);
    CleanPollsClosedForm(stream, checkpoint, start, safe, batch, limit, span, n);
    ReachedExactlyAfter(from, safe, span, n, q);
  }

  lemma ReachedExactlyAfter(from: nat, safe: nat, span: nat, n: nat, q: nat)
    requires from <= safe && span > 0 && IsCeiling(q, safe + 1 - from, span)
    ensures Reached(from, safe, span, n) == safe <==> n >= q
    ensures q > 0
  {
    assert span * 0 == 0 && 0 * span == 0;
    if n >= q {
      Scaled(span, q, n);
      assert q * span == span * q;
    } else {
      Scaled(span, n, q - 1);
      assert (q - 1) * span == span * (q - 1);
    }
  }

  lemma Scaled(k: nat, a: nat, b: nat)
    requires a <= b
    ensures k * a <= k * b
  {
    assert k * b == k * a + k * (b - a);
    assert k * (b - a) >= 0;
  }

  // ---- The monitor -----------------------------------------------------------------------------------------------

  /** The failures of one poll of one stream; a cancelled context counts as a failing batch. */
  datatype StreamEnv = StreamEnv(queryFails: bool, fails: nat -> bool)

  /** The move of one poll without failures, when no batch end wraps: it goes on after the checkpoint, or begins at the
      configured block, below which token and escrow streams never go, and ends at most maxBatches batches later, at most at
      the safe head; token and escrow streams never save block 0. */
  ghost predicate PollReads(stream: Stream, before: Option<uint64>, start: uint64, safe: uint64, batch: uint64, maxBatches: nat,
                            env: StreamEnv, after: Option<uint64>, ok: bool)
  {
    && (env.queryFails ==> !ok && after == before)
    && (!env.queryFails && (forall j :: !env.fails(j)) && maxBatches > 0 && safe + batch <= TWO_TO_64
        && (before.Some? ==> before.value < MAX_UINT64) ==>
          var from := if before.None? then start
                      else if !stream.Payroll? && before.value + 1 < start then start
                      else before.value + 1;
          var last := if from - 1 + batch * maxBatches < safe then from - 1 + batch * maxBatches else safe;
          && ok
          && after == if from > safe || (last == 0 && !stream.Payroll?) then before else Some(last))
  }

  lemma PollMovesExactly(stream: Stream, before: Option<uint64>, start: uint64, safe: uint64, batch: uint64, maxBatches: nat, env: StreamEnv)
    requires batch > 0
    ensures var p := if env.queryFails then Polled(before, 0, false)
                     else PollFrom(stream, before, EffectiveStart(stream, before, start), safe, batch, maxBatches, env.fails, 0);
            PollReads(stream, before, start, safe, batch, maxBatches, env, p.checkpoint, p.ok)
  {
    hide PollFrom, EffectiveStart;
    if !env.queryFails && (forall j :: !env.fails(j)) && maxBatches > 0 && safe + batch <= TWO_TO_64 {
      var from := EffectiveStart(stream, before, start);
      if before.Some? ==> before.value < MAX_UINT64 {
        EffectiveStartReads(stream, before, start);
        if from <= safe {
          CleanPoll(stream, before, from, safe, batch, maxBatches, env.fails);
        } else {
          NothingToPoll(stream, before, from, safe, batch, maxBatches, env.fails);
        }
      }
    }
  }

  lemma EffectiveStartReads(stream: Stream, before: Option<uint64>, start: uint64)
    requires before.Some? ==> before.value < MAX_UINT64
    ensures EffectiveStart(stream, before, start) ==
            if before.None? || (!stream.Payroll? && before.value + 1 < start) then start else before.value + 1
  {
    if before.Some? {
      assert Wrap(before.value + 1) == before.value + 1;
    }
  }

  lemma NothingToPoll(stream: Stream, before: Option<uint64>, from: nat, safe: uint64, batch: uint64, limit: nat, fails: nat -> bool)
    requires from > safe
    ensures PollFrom(stream, before, from, safe, batch, limit, fails, 0) == Polled(before, 0, true)
  {
  }

  class Monitor {
    const confirmationDepth: uint64
    const batchSize: uint64
    const maxBatches: uint64
    const enabled: set<Stream>
    const starts: Stream -> uint64
    var checkpoints: map<Stream, uint64>

    constructor (confirmationDepth: uint64, batchSize: uint64, maxBatches: uint64, enabled: set<Stream>, starts: Stream -> uint64)
      ensures this.confirmationDepth == confirmationDepth && this.enabled == enabled && this.starts == starts
      ensures this.batchSize == (if batchSize == 0 then 50 else batchSize)
      ensures this.maxBatches == (if maxBatches == 0 then 5 else maxBatches)
      ensures checkpoints == map[]
    {
      this.confirmationDepth, this.enabled, this.starts := confirmationDepth, enabled, starts;
      this.batchSize := if batchSize == 0 then 50 else batchSize;
      this.maxBatches := if maxBatches == 0 then 5 else maxBatches;
      checkpoints := map[];
    }

    function Checkpoint(stream: Stream): Option<uint64>
      reads this
    {
      if stream in checkpoints then Some(checkpoints[stream]) else None
    }

    /** The outcome of a poll that finds this checkpoint. */
    function Outcome(stream: Stream, checkpoint: Option<uint64>, safeTarget: uint64, env: StreamEnv): Polled {
      if env.queryFails then Polled(checkpoint, 0, false)
      else PollFrom(stream, checkpoint, EffectiveStart(stream, checkpoint, starts(stream)), safeTarget, batchSize, maxBatches, env.fails, 0)
    }

    /** Polls one stream; the others are not touched. */
    method Poll(stream: Stream, safeTarget: uint64, env: StreamEnv) returns (ok: bool)
      requires batchSize > 0 && safeTarget < MAX_UINT64
      modifies this
      ensures var p := Outcome(stream, old(Checkpoint(stream)), safeTarget, env);
              ok == p.ok && Checkpoint(stream) == p.checkpoint
      ensures forall other :: other != stream ==> Checkpoint(other) == old(Checkpoint(other))
      ensures PollReads(stream, old(Checkpoint(stream)), starts(stream), safeTarget, batchSize, maxBatches, env, Checkpoint(stream), ok)
    {
      hide PollReads;
      ghost var before := Checkpoint(stream);
      PollMovesExactly(stream, before, starts(stream), safeTarget, batchSize, maxBatches, env);
      if env.queryFails {
        return false;
      }
      var start := EffectiveStart(stream, Checkpoint(stream), starts(stream));
      var from: nat, processed: nat := start, 0;
      while from <= safeTarget && processed < maxBatches
        invariant processed <= maxBatches
        invariant PollFrom(stream, Checkpoint(stream), from, safeTarget, batchSize, maxBatches, env.fails, processed)
                  == PollFrom(stream, old(Checkpoint(stream)), start, safeTarget, batchSize, maxBatches, env.fails, 0)
        invariant forall other :: other != stream ==> Checkpoint(other) == old(Checkpoint(other))
        decreases maxBatches - processed
      {
        var to := BatchEnd(from, batchSize, safeTarget);
        if env.fails(processed) || from > to {
          return false;
        }
        if stream.Payroll? || to > 0 {
          checkpoints := checkpoints[stream := to];
        }
        processed := processed + 1;
        from := to as int + 1;
      }
      ok := true;
    }

    /** In one cycle an enabled stream is polled, whatever happens to the others. */
    ghost predicate Polls(stream: Stream, before: Option<uint64>, after: Option<uint64>, safe: uint64, env: StreamEnv) {
      after == if stream in enabled then Outcome(stream, before, safe, env).checkpoint else before
    }

    /** One cycle over all streams: a stream that fails does not keep the others from being polled. */
    method PollOnce(latest: Result<uint64>, envs: Stream -> StreamEnv) returns (ok: bool)
      requires batchSize > 0 && (latest.Ok? ==> latest.value < MAX_UINT64)
      modifies this
      ensures ok <==> latest.Ok?
      ensures !ok ==> checkpoints == old(checkpoints)
      ensures ok ==>
                var safe := CalculateSafeTarget(latest.value, confirmationDepth);
                && Polls(Payroll, old(Checkpoint(Payroll)), Checkpoint(Payroll), safe, envs(Payroll))
                && Polls(Token, old(Checkpoint(Token)), Checkpoint(Token), safe, envs(Token))
                && Polls(Escrow, old(Checkpoint(Escrow)), Checkpoint(Escrow), safe, envs(Escrow))
    {
      hide Outcome;
      if latest.Error? {
        return false;
      }
      var safeTarget := CalculateSafeTarget(latest.value, confirmationDepth);
      if Payroll in enabled {
        var _ := Poll(Payroll, safeTarget, envs(Payroll));
      }
      if Token in enabled {
        var _ := Poll(Token, safeTarget, envs(Token));
      }
      if Escrow in enabled {
        var _ := Poll(Escrow, safeTarget, envs(Escrow));
      }
      ok := true;
    }
  }
}
