/** The token indexer's metadata worker pool: goroutines and buffered channels as small steps (token_indexer.go). */
module MetadataPool {
  import opened Evm
  import opened Words

  /** A worker waits for a hash, fetches one, has seen the closed queue drained, or has returned after a failed fetch. */
  datatype Worker = Ready | Fetching(hash: Hash) | Drained | Stopped

  datatype Collector = Collecting | Finished | FetchFailed(hash: Hash) | ContextDone

  /** queue, metas and errs are the three buffered channels; failed records every failed fetch in order. */
  datatype Pool = Pool(
    capacity: nat, queue: seq<Hash>, workers: seq<Worker>, metas: seq<Hash>, errs: seq<Hash>,
    collected: seq<Hash>, failed: seq<Hash>, cancelled: bool, collector: Collector)

  datatype Step = Take(w: nat) | Deliver(w: nat) | Fail(w: nat) | Exit(w: nat)
                | CollectMeta | CollectError | CollectCancel | Cancel

  const MAX_WORKERS: nat := 3

  function Start(needed: seq<Hash>): Pool {
    Pool(|needed|, needed, seq(Min(MAX_WORKERS, |needed|), i => Ready), [], [], [], [], false,
         if needed == [] then Finished else Collecting)
  }

  /** A send needs room in its channel; a receive needs an element. */
  predicate Enabled(p: Pool, step: Step) {
    match step
    case Take(w) => w < |p.workers| && p.workers[w].Ready? && p.queue != []
    case Deliver(w) => w < |p.workers| && p.workers[w].Fetching? && |p.metas| < p.capacity
    case Fail(w) => w < |p.workers| && p.workers[w].Fetching? && |p.errs| < p.capacity
    case Exit(w) => w < |p.workers| && p.workers[w].Ready? && p.queue == []
    case CollectMeta => p.collector.Collecting? && p.metas != []
    case CollectError => p.collector.Collecting? && p.errs != []
    case CollectCancel => p.collector.Collecting? && p.cancelled
    case Cancel => !p.cancelled
  }

  function Apply(p: Pool, step: Step): Pool
    requires Enabled(p, step)
  {
    match step
    case Take(w) => p.(queue := p.queue[1..], workers := p.workers[w := Fetching(p.queue[0])])
    case Deliver(w) => p.(metas := p.metas + [p.workers[w].hash], workers := p.workers[w := Ready])
    case Fail(w) =>
      p.(errs := p.errs + [p.workers[w].hash], failed := p.failed + [p.workers[w].hash], workers := p.workers[w := Stopped])
    case Exit(w) => p.(workers := p.workers[w := Drained])
    case CollectMeta =>
      var got := p.collected + [p.metas[0]];
      p.(metas := p.metas[1..], collected := got, collector := if |got| == p.capacity then Finished else Collecting)
    case CollectError => p.(errs := p.errs[1..], collector := FetchFailed(p.errs[0]))
    case CollectCancel => p.(collector := ContextDone)
    case Cancel => p.(cancelled := true)
  }

  predicate IsRun(p: Pool, steps: seq<Step>)
    decreases |steps|
  {
    steps == [] || (Enabled(p, steps[0]) && IsRun(Apply(p, steps[0]), steps[1..]))
  }

  function Run(p: Pool, steps: seq<Step>): Pool
    requires IsRun(p, steps)
    decreases |steps|
  {
    if steps == [] then p else Run(Apply(p, steps[0]), steps[1..])
  }

  // ---- The invariant ---------------------------------------------------------------------------

  function Total(measure: Worker -> nat, workers: seq<Worker>): nat {
    if workers == [] then 0 else measure(workers[0]) + Total(measure, workers[1..])
  }

  lemma {:induction false} TotalUpdate(measure: Worker -> nat, workers: seq<Worker>, i: nat, w: Worker)
    requires i < |workers|
    ensures Total(measure, workers[i := w]) + measure(workers[i]) == Total(measure, workers) + measure(w)
  {
    if i == 0 {
      assert workers[0 := w][1..] == workers[1..];
    } else {
      TotalUpdate(measure, workers[1..], i - 1, w);
      assert workers[i := w][1..] == workers[1..][i - 1 := w];
    }
  }

  lemma {:induction false} TotalMember(measure: Worker -> nat, workers: seq<Worker>, i: nat)
    requires i < |workers|
    ensures measure(workers[i]) <= Total(measure, workers)
  {
    if i > 0 {
      TotalMember(measure, workers[1..], i - 1);
    }
  }

  lemma {:induction false} TotalZero(measure: Worker -> nat, workers: seq<Worker>)
    requires forall i :: 0 <= i < |workers| ==> measure(workers[i]) == 0
    ensures Total(measure, workers) == 0
  {
    if workers != [] {
      TotalZero(measure, workers[1..]);
    }
  }

  function Busy(w: Worker): nat {
    if w.Fetching? then 1 else 0
  }

  function Holds(h: Hash): Worker -> nat {
    (w: Worker) => if w == Fetching(h) then 1 else 0
  }

  /** Every needed hash is queued, in flight, delivered or failed, exactly once. */
  ghost predicate Accounted(needed: seq<Hash>, p: Pool) {
    forall h: Hash :: AccountedAt(needed, p, h)
  }

  ghost predicate AccountedAt(needed: seq<Hash>, p: Pool, h: Hash) {
    multiset(needed)[h] == multiset(p.queue)[h] + Total(Holds(h), p.workers)
                           + multiset(p.metas)[h] + multiset(p.collected)[h] + multiset(p.failed)[h]
  }

  ghost predicate Inv(needed: seq<Hash>, p: Pool) {
    Accounted(needed, p) && WellShaped(|needed|, p)
  }

  ghost predicate WellShaped(n: nat, p: Pool) {
    && p.capacity == n
    && |p.workers| == Min(MAX_WORKERS, n)
    && n == |p.queue| + Total(Busy, p.workers) + |p.metas| + |p.collected| + |p.failed|
    && (forall w :: 0 <= w < |p.workers| && p.workers[w].Drained? ==> p.queue == [])
    && (forall w :: 0 <= w < |p.workers| && p.workers[w].Stopped? ==> p.failed != [])
    && p.failed == (if p.collector.FetchFailed? then [p.collector.hash] else []) + p.errs
    && (p.collector.ContextDone? ==> p.cancelled)
    && (p.collector.Collecting? ==> |p.collected| < n)
    && (p.collector.Finished? ==> |p.collected| == n)
  }

  lemma StartKeepsInv(needed: seq<Hash>)
    ensures Inv(needed, Start(needed))
  {
    var p := Start(needed);
    TotalZero(Busy, p.workers);
    forall h: Hash
      ensures Total(Holds(h), p.workers) == 0
    {
      TotalZero(Holds(h), p.workers);
    }
  }

  lemma Split(s: seq<Hash>)
    requires s != []
    ensures multiset(s) == multiset{s[0]} + multiset(s[1..])
  {
    assert s == [s[0]] + s[1..];
  }

  /** The worker a step moves, and its state afterwards. */
  function Moves(p: Pool, step: Step): Option<(nat, Worker)>
    requires Enabled(p, step)
  {
    match step
    case Take(w) => Some((w, Fetching(p.queue[0])))
    case Deliver(w) => Some((w, Ready))
    case Fail(w) => Some((w, Stopped))
    case Exit(w) => Some((w, Drained))
    case _ => None
  }

  lemma MoveUpdates(measure: Worker -> nat, p: Pool, step: Step)
    requires Enabled(p, step)
    ensures Moves(p, step).Some? ==>
              var (w, now) := Moves(p, step).value;
              Total(measure, Apply(p, step).workers) + measure(p.workers[w]) == Total(measure, p.workers) + measure(now)
    ensures Moves(p, step).None? ==> Apply(p, step).workers == p.workers
  {
    if Moves(p, step).Some? {
      var (w, now) := Moves(p, step).value;
      TotalUpdate(measure, p.workers, w, now);
    }
  }

  lemma StepKeepsAccountAt(needed: seq<Hash>, p: Pool, step: Step, h: Hash)
    requires AccountedAt(needed, p, h) && Enabled(p, step)
    ensures AccountedAt(needed, Apply(p, step), h)
  {
    MoveUpdates(Holds(h), p, step);
    match step
    case Take(w) => Split(p.queue);
    case Deliver(w) =>
    case Fail(w) =>
    case Exit(w) =>
    case CollectMeta => Split(p.metas);
    case CollectError =>
    case CollectCancel =>
    case Cancel =>
  }

  lemma StepKeepsShape(n: nat, p: Pool, step: Step)
    requires WellShaped(n, p) && Enabled(p, step)
    ensures WellShaped(n, Apply(p, step))
  {
    MoveUpdates(Busy, p, step);
    match step
    case Take(w) =>
    case Deliver(w) =>
    case Fail(w) =>
      var received := if p.collector.FetchFailed? then [p.collector.hash] else [];
      assert received + p.errs + [p.workers[w].hash] == received + (p.errs + [p.workers[w].hash]);
    case Exit(w) =>
    case CollectMeta =>
    case CollectError =>
    case CollectCancel =>
    case Cancel =>
  }

  lemma StepKeepsInv(needed: seq<Hash>, p: Pool, step: Step)
    requires Inv(needed, p) && Enabled(p, step)
    ensures Inv(needed, Apply(p, step))
  {
    forall h: Hash
      ensures AccountedAt(needed, Apply(p, step), h)
    {
      StepKeepsAccountAt(needed, p, step, h);
    }
    StepKeepsShape(|needed|, p, step);
  }

  /** The accounting holds in every interleaving. */
  lemma {:induction false} RunKeepsInv(needed: seq<Hash>, p: Pool, steps: seq<Step>)
    requires Inv(needed, p) && IsRun(p, steps)
    ensures Inv(needed, Run(p, steps))
    decreases |steps|
  {
    if steps != [] {
      StepKeepsInv(needed, p, steps[0]);
      RunKeepsInv(needed, Apply(p, steps[0]), steps[1..]);
    }
  }

  ghost predicate Reachable(needed: seq<Hash>, p: Pool) {
    exists steps :: IsRun(Start(needed), steps) && Run(Start(needed), steps) == p
  }

  lemma ReachableInv(needed: seq<Hash>, p: Pool)
    requires Reachable(needed, p)
    ensures Inv(needed, p)
  {
    StartKeepsInv(needed);
    var steps :| IsRun(Start(needed), steps) && Run(Start(needed), steps) == p;
    RunKeepsInv(needed, Start(needed), steps);
  }

  // ---- What follows ----------------------------------------------------------------------------

  /** At most three transactions are fetched at a time, no more workers run than there are hashes, and each failed fetch ends
      its worker, so that at most three fetches fail. */
  lemma AtMostThreeFetches(needed: seq<Hash>, p: Pool)
    requires Reachable(needed, p)
    ensures |p.workers| == if |needed| < 3 then |needed| else 3
    ensures |set w | 0 <= w < |p.workers| && p.workers[w].Fetching?| <= 3
    ensures |p.failed| == Total(Halted, p.workers) <= |p.workers|
  {
    ReachableInv(needed, p);
    AtMostAll(set w | 0 <= w < |p.workers| && p.workers[w].Fetching?, |p.workers|);
    var steps :| IsRun(Start(needed), steps) && Run(Start(needed), steps) == p;
    TotalZero(Halted, Start(needed).workers);
    FailuresHalt(Start(needed), steps);
    AtMostOneEach(p.workers);
  }

  function Halted(w: Worker): nat {
    if w.Stopped? then 1 else 0
  }

  lemma {:induction false} FailuresHalt(p: Pool, steps: seq<Step>)
    requires IsRun(p, steps) && |p.failed| == Total(Halted, p.workers)
    ensures |Run(p, steps).failed| == Total(Halted, Run(p, steps).workers)
    decreases |steps|
  {
    if steps != [] {
      MoveUpdates(Halted, p, steps[0]);
      FailuresHalt(Apply(p, steps[0]), steps[1..]);
    }
  }

  lemma {:induction false} AtMostOneEach(workers: seq<Worker>)
    ensures Total(Halted, workers) <= |workers|
  {
    if workers != [] {
      AtMostOneEach(workers[1..]);
    }
  }

  lemma {:induction false} AtMostAll(s: set<int>, n: nat)
    requires forall i :: i in s ==> 0 <= i < n
    ensures |s| <= n
  {
    if n > 0 {
      AtMostAll(s - {n - 1}, n - 1);
      assert s <= (s - {n - 1}) + {n - 1};
    } else {
      assert forall i :: i !in s;
    }
  }

  /** A worker holding a result always finds room for it: no send ever blocks. */
  lemma SendsNeverBlock(needed: seq<Hash>, p: Pool, w: nat)
    requires Reachable(needed, p) && w < |p.workers| && p.workers[w].Fetching?
    ensures Enabled(p, Deliver(w)) && Enabled(p, Fail(w))
  {
    ReachableInv(needed, p);
    TotalMember(Busy, p.workers, w);
  }

  lemma BusyWorkerHasStep(needed: seq<Hash>, p: Pool, w: nat)
    requires Reachable(needed, p) && w < |p.workers| && (p.workers[w].Ready? || p.workers[w].Fetching?)
    ensures exists step :: step != Cancel && Enabled(p, step)
  {
    if p.workers[w].Fetching? {
      SendsNeverBlock(needed, p, w);
    } else {
      assert Enabled(p, Take(w)) || Enabled(p, Exit(w));
    }
  }

  /** While the collector waits, some step other than a cancellation can happen: the pool never deadlocks. */
  lemma CollectorNeverStuck(needed: seq<Hash>, p: Pool)
    requires Reachable(needed, p) && p.collector.Collecting?
    ensures exists step :: step != Cancel && Enabled(p, step)
  {
    ReachableInv(needed, p);
    if p.errs != [] {
      assert Enabled(p, CollectError);
    } else if p.metas != [] {
      assert Enabled(p, CollectMeta);
    } else if w :| 0 <= w < |p.workers| && (p.workers[w].Ready? || p.workers[w].Fetching?) {
      BusyWorkerHasStep(needed, p, w);
    } else {
      IdleMeansDone(needed, p);
      assert false;
    }
  }

  lemma IdleMeansDone(needed: seq<Hash>, p: Pool)
    requires Inv(needed, p) && needed != [] && !p.collector.FetchFailed?
    requires p.metas == [] && p.errs == []
    requires forall w :: 0 <= w < |p.workers| ==> p.workers[w].Drained? || p.workers[w].Stopped?
    ensures |p.collected| == |needed|
  {
    TotalZero(Busy, p.workers);
    var first := p.workers[0];
  }

  function Weight(w: Worker): nat {
    match w
    case Ready => 1
    case Fetching(_) => 4
    case Drained => 0
    case Stopped => 0
  }

  function Remaining(p: Pool): nat {
    4 * |p.queue| + Total(Weight, p.workers) + |p.metas| + |p.errs|
    + (if p.collector.Collecting? then 1 else 0) + (if p.cancelled then 0 else 1)
  }

  lemma StepDecreases(p: Pool, step: Step)
    requires Enabled(p, step)
    ensures Remaining(Apply(p, step)) < Remaining(p)
  {
    MoveUpdates(Weight, p, step);
  }

  /** Every schedule is finite, whichever worker runs when. */
  lemma {:induction false} RunsAreFinite(p: Pool, steps: seq<Step>)
    requires IsRun(p, steps)
    ensures |steps| + Remaining(Run(p, steps)) <= Remaining(p)
    decreases |steps|
  {
    if steps != [] {
      StepDecreases(p, steps[0]);
      RunsAreFinite(Apply(p, steps[0]), steps[1..]);
    }
  }

  /** Whenever the collector has returned: a success delivers a permutation of the needed hashes and no fetch failed;
      an error means that a fetch failed or that the context was cancelled. */
  lemma OutcomeIsJustified(needed: seq<Hash>, p: Pool)
    requires Reachable(needed, p)
    ensures p.collector.Finished? ==> p.failed == [] && multiset(p.collected) == multiset(needed)
    ensures p.collector.FetchFailed? ==> p.failed != [] && p.collector.hash in needed
    ensures p.collector.ContextDone? ==> p.cancelled
  {
    ReachableInv(needed, p);
    if p.collector.Finished? {
      assert p.queue == [] && p.metas == [] && p.failed == [];
      forall h: Hash
        ensures multiset(p.collected)[h] == multiset(needed)[h]
      {
        NobodyHolds(p.workers, h);
        assert AccountedAt(needed, p, h);
      }
    }
    if p.collector.FetchFailed? {
      assert p.failed[0] in multiset(p.failed);
      assert AccountedAt(needed, p, p.failed[0]);
      assert p.failed[0] in multiset(needed);
    }
  }

  lemma NobodyHolds(workers: seq<Worker>, h: Hash)
    requires Total(Busy, workers) == 0
    ensures Total(Holds(h), workers) == 0
  {
    forall i | 0 <= i < |workers|
      ensures Holds(h)(workers[i]) == 0
    {
      TotalMember(Busy, workers, i);
    }
    TotalZero(Holds(h), workers);
  }

  ghost predicate Maximal(p: Pool) {
    forall step :: Enabled(p, step) ==> step == Cancel
  }

  /** A schedule that cannot be continued leaves no goroutine behind and decides the result: an error if a fetch
      failed, a success if none failed and the context stayed live. */
  lemma MaximalRunDecides(needed: seq<Hash>, p: Pool)
    requires Reachable(needed, p) && Maximal(p)
    ensures forall w :: 0 <= w < |p.workers| ==> p.workers[w].Drained? || p.workers[w].Stopped?
    ensures !p.collector.Collecting?
    ensures p.failed != [] ==> p.collector.FetchFailed? || p.collector.ContextDone?
    ensures p.failed == [] && !p.cancelled ==> p.collector.Finished?
  {
    ReachableInv(needed, p);
    OutcomeIsJustified(needed, p);
    if p.collector.Collecting? {
      CollectorNeverStuck(needed, p);
    }
    forall w | 0 <= w < |p.workers|
      ensures p.workers[w].Drained? || p.workers[w].Stopped?
    {
      if p.workers[w].Ready? || p.workers[w].Fetching? {
        BusyWorkerHasStep(needed, p, w);
        assert false;
      }
    }
  }

  // ---- Which runs decide the outcome ---------------------------------------------------------------

  /** The context is cancelled while the collector is still waiting. */
  ghost predicate CancelledEarly(p: Pool, steps: seq<Step>)
    requires IsRun(p, steps)
    decreases |steps|
  {
    steps != [] && ((steps[0] == Cancel && p.collector.Collecting?) || CancelledEarly(Apply(p, steps[0]), steps[1..]))
  }

  /** Some schedule that cannot be continued, with or without an early cancellation and a failed fetch, ends this way. */
  ghost predicate Possible(needed: seq<Hash>, early: bool, anyFailed: bool, success: bool) {
    exists steps :: IsRun(Start(needed), steps) && EndsAs(Start(needed), steps, early, anyFailed, success)
  }

  ghost predicate EndsAs(p: Pool, steps: seq<Step>, early: bool, anyFailed: bool, success: bool)
    requires IsRun(p, steps)
  {
    var q := Run(p, steps);
    Maximal(q) && CancelledEarly(p, steps) == early && (q.failed != []) == anyFailed && q.collector.Finished? == success
  }

  lemma {:induction false} DecidedStays(p: Pool, steps: seq<Step>)
    requires IsRun(p, steps) && !p.collector.Collecting?
    ensures Run(p, steps).collector == p.collector && !CancelledEarly(p, steps)
    decreases |steps|
  {
    if steps != [] {
      DecidedStays(Apply(p, steps[0]), steps[1..]);
    }
  }

  /** The context's error is reported only after an early cancellation. */
  lemma {:induction false} ContextErrorMeansCancelledEarly(p: Pool, steps: seq<Step>)
    requires IsRun(p, steps) && p.collector.Collecting? && !p.cancelled && Run(p, steps).collector.ContextDone?
    ensures CancelledEarly(p, steps)
    decreases |steps|
  {
    if steps != [] && steps[0] != Cancel {
      var next := Apply(p, steps[0]);
      if next.collector.Collecting? {
        ContextErrorMeansCancelledEarly(next, steps[1..]);
      } else {
        DecidedStays(next, steps[1..]);
      }
    }
  }

  /** From any state without a failed fetch the pool can run to its end without one, and a collector that is still waiting
      then succeeds, whether or not the context was cancelled. */
  lemma {:induction false} CanEndCleanly(needed: seq<Hash>, p: Pool) returns (steps: seq<Step>)
    requires Inv(needed, p) && needed != [] && p.failed == []
    ensures IsRun(p, steps) && Maximal(Run(p, steps)) && Run(p, steps).failed == []
    ensures p.collector.Collecting? ==> Run(p, steps).collector.Finished?
    ensures !p.collector.Collecting? ==> Run(p, steps).collector == p.collector
    decreases Remaining(p)
  {
    var step: Option<Step> := None;
    if w :| 0 <= w < |p.workers| && p.workers[w].Ready? {
      step := Some(if p.queue != [] then Take(w) else Exit(w));
    } else if w :| 0 <= w < |p.workers| && p.workers[w].Fetching? {
      TotalMember(Busy, p.workers, w);
      step := Some(Deliver(w));
    } else if p.collector.Collecting? && p.metas != [] {
      step := Some(CollectMeta);
    }
    if step.Some? {
      var next := Apply(p, step.value);
      StepKeepsInv(needed, p, step.value);
      StepDecreases(p, step.value);
      var rest := CanEndCleanly(needed, next);
      steps := [step.value] + rest;
      assert steps[1..] == rest;
    } else {
      steps := [];
      if p.collector.Collecting? {
        IdleMeansDone(needed, p);
      }
    }
  }

  lemma BothOutcomesAfterCancellation(needed: seq<Hash>)
    requires needed != []
    ensures Possible(needed, true, false, true) && Possible(needed, true, false, false)
  {
    var s0 := Start(needed);
    StartKeepsInv(needed);
    var s1 := Apply(s0, Cancel);
    StepKeepsInv(needed, s0, Cancel);
    var lucky := CanEndCleanly(needed, s1);
    assert ([Cancel] + lucky)[1..] == lucky;
    assert EndsAs(s0, [Cancel] + lucky, true, false, true);
    var s2 := Apply(s1, CollectCancel);
    StepKeepsInv(needed, s1, CollectCancel);
    var unlucky := CanEndCleanly(needed, s2);
    var fromCancel := [CollectCancel] + unlucky;
    assert fromCancel[1..] == unlucky;
    assert IsRun(s1, fromCancel) && Run(s1, fromCancel) == Run(s2, unlucky);
    assert ([Cancel] + fromCancel)[1..] == fromCancel;
    assert IsRun(s0, [Cancel] + fromCancel) && Run(s0, [Cancel] + fromCancel) == Run(s2, unlucky);
    assert EndsAs(s0, [Cancel] + fromCancel, true, false, false);
  }

  /** What a finished schedule says: an error after every failed fetch, and a success when nothing failed and nothing was
      cancelled before the collector had decided. */
  lemma OutcomeOfMaximalRun(needed: seq<Hash>, early: bool, anyFailed: bool, success: bool)
    requires Possible(needed, early, anyFailed, success)
    ensures anyFailed ==> !success
    ensures !early && !anyFailed ==> success
    ensures needed == [] ==> success && !early
  {
    var s0 := Start(needed);
    var steps :| IsRun(s0, steps) && EndsAs(s0, steps, early, anyFailed, success);
    var p := Run(s0, steps);
    assert Reachable(needed, p);
    OutcomeIsJustified(needed, p);
    MaximalRunDecides(needed, p);
    if s0.collector.Collecting? {
      if p.collector.ContextDone? {
        ContextErrorMeansCancelledEarly(s0, steps);
      }
    } else {
      DecidedStays(s0, steps);
    }
  }

  /** The documented rule, an error exactly when a fetch failed or the context was cancelled before collection finished, is
      not what the select does: both outcomes are possible exactly for a cancellation without a failed fetch. */
  lemma OutcomeIsOpenExactlyWhen(needed: seq<Hash>, early: bool, anyFailed: bool)
    ensures Possible(needed, early, anyFailed, true) && Possible(needed, early, anyFailed, false)
            <==> needed != [] && early && !anyFailed
  {
    if needed != [] && early && !anyFailed {
      BothOutcomesAfterCancellation(needed);
    } else {
      forall success | Possible(needed, early, anyFailed, success)
        ensures success == !anyFailed
      {
        OutcomeOfMaximalRun(needed, early, anyFailed, success);
      }
    }
  }
}
