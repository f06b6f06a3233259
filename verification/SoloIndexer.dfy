/** A single payroll worker that is interrupted and restarted at will (indexer.go). */
module SoloIndexer {
  import opened Evm
  import opened Words
  import opened PayrollTables
  import opened ReplayConvergence

  // The checkpoint is next - 1. An attempt indexes [next, to]; it commits some statements and dies, or commits them all
  // and saves the checkpoint. The window may be different in every attempt; reach is the highest block ever attempted.

  datatype Attempt = Attempt(to: nat, committed: nat, complete: bool)

  datatype Solo = Solo(db: Tables, next: nat, reach: int)

  function AttemptOnce(s: Solo, logs: seq<Log>, a: Attempt): Solo {
    var window := InRange(logs, s.next, a.to);
    var sts := Programs(window);
    var reach := if a.to > s.reach then a.to else s.reach;
    if a.to < s.next then s
    else if a.complete && Decodable(window) then Solo(Run(s.db, sts), a.to + 1, reach)
    else Solo(Run(s.db, sts[..Min(a.committed, |sts|)]), s.next, reach)
  }

  function AttemptAll(s: Solo, logs: seq<Log>, attempts: seq<Attempt>): Solo
    decreases |attempts|
  {
    if attempts == [] then s else AttemptAll(AttemptOnce(s, logs, attempts[0]), logs, attempts[1..])
  }

  /** Indexing from the checkpoint to any block not below reach gives the clean projection of the whole history. */
  ghost predicate OnTrack(s: Solo, logs: seq<Log>, origin: Tables, start: nat) {
    && start <= s.next <= s.reach + 1
    && Decodable(InRange(logs, start, s.next - 1))
    && forall n: int :: s.reach <= n ==>
         Run(s.db, Programs(InRange(logs, s.next, n))) == Run(origin, Programs(InRange(logs, start, n)))
  }

  lemma CompleteAttempt(db: Tables, logs: seq<Log>, next: nat, to: nat, n: int)
    requires SortedByBlock(logs) && next <= to <= n && Decodable(InRange(logs, next, to))
    ensures Run(Run(db, Programs(InRange(logs, next, to))), Programs(InRange(logs, to + 1, n)))
            == Run(db, Programs(InRange(logs, next, n)))
  {
    var window, rest := InRange(logs, next, to), InRange(logs, to + 1, n);
    InRangeSplit(logs, next, to, n);
    ProgramsConcat(window, rest);
    RunConcat(db, Programs(window), Programs(rest));
  }

  lemma InterruptedAttempt(db: Tables, logs: seq<Log>, next: nat, to: nat, n: int, k: nat)
    requires SortedByBlock(logs) && next <= to <= n && k <= |Programs(InRange(logs, next, to))|
    ensures Run(Run(db, Programs(InRange(logs, next, to))[..k]), Programs(InRange(logs, next, n)))
            == Run(db, Programs(InRange(logs, next, n)))
  {
    var window, all := InRange(logs, next, to), InRange(logs, next, n);
    InRangeSplit(logs, next, to, n);
    ProgramsConcat(window, InRange(logs, to + 1, n));
    assert Programs(window)[..k] == Programs(all)[..k];
    ProgramsFind(db, all);
    PrefixThenAll(db, Programs(all), k);
  }

  lemma CompleteKeepsOnTrack(s: Solo, logs: seq<Log>, origin: Tables, start: nat, to: nat, reach: int)
    requires SortedByBlock(logs) && OnTrack(s, logs, origin, start)
    requires s.next <= to <= reach && s.reach <= reach && Decodable(InRange(logs, s.next, to))
    ensures OnTrack(Solo(Run(s.db, Programs(InRange(logs, s.next, to))), to + 1, reach), logs, origin, start)
  {
    hide Run, Programs, InRange;
    var db' := Run(s.db, Programs(InRange(logs, s.next, to)));
    forall n: int | reach <= n
      ensures Run(db', Programs(InRange(logs, to + 1, n))) == Run(origin, Programs(InRange(logs, start, n)))
    {
      CompleteAttempt(s.db, logs, s.next, to, n);
    }
    InRangeSplit(logs, start, s.next - 1, to);
  }

  lemma InterruptedKeepsOnTrack(s: Solo, logs: seq<Log>, origin: Tables, start: nat, to: nat, reach: int, k: nat)
    requires SortedByBlock(logs) && OnTrack(s, logs, origin, start)
    requires s.next <= to <= reach && s.reach <= reach && k <= |Programs(InRange(logs, s.next, to))|
    ensures OnTrack(Solo(Run(s.db, Programs(InRange(logs, s.next, to))[..k]), s.next, reach), logs, origin, start)
  {
    hide Run, Programs, InRange;
    var db' := Run(s.db, Programs(InRange(logs, s.next, to))[..k]);
    forall n: int | reach <= n
      ensures Run(db', Programs(InRange(logs, s.next, n))) == Run(origin, Programs(InRange(logs, start, n)))
    {
      InterruptedAttempt(s.db, logs, s.next, to, n, k);
    }
  }

  lemma AttemptKeepsOnTrack(s: Solo, logs: seq<Log>, origin: Tables, start: nat, a: Attempt)
    requires SortedByBlock(logs) && OnTrack(s, logs, origin, start)
    ensures OnTrack(AttemptOnce(s, logs, a), logs, origin, start)
  {
    hide Run, Programs, InRange, OnTrack, Decodable;
    if a.to >= s.next {
      var window, reach := InRange(logs, s.next, a.to), if a.to > s.reach then a.to else s.reach;
      if a.complete && Decodable(window) {
        CompleteKeepsOnTrack(s, logs, origin, start, a.to, reach);
      } else {
        InterruptedKeepsOnTrack(s, logs, origin, start, a.to, reach, Min(a.committed, |Programs(window)|));
      }
    }
  }

  /** However often a single worker is interrupted and with whatever batch sizes, once its checkpoint has caught up with
      everything it ever attempted, the tables are the clean projection of the logs up to the checkpoint. */
  lemma {:induction false} SoloWorkerConverges(s: Solo, logs: seq<Log>, attempts: seq<Attempt>, origin: Tables, start: nat)
    requires SortedByBlock(logs) && OnTrack(s, logs, origin, start)
    ensures var s' := AttemptAll(s, logs, attempts);
            && OnTrack(s', logs, origin, start)
            && (s'.next == s'.reach + 1 ==> s'.db == Run(origin, Programs(InRange(logs, start, s'.next - 1))))
    decreases |attempts|
  {
    if attempts == [] {
      if s.next == s.reach + 1 {
        InRangeNone(logs, s.next, s.reach);
        assert Run(s.db, Programs(InRange(logs, s.next, s.reach))) == s.db;
      }
    } else {
      AttemptKeepsOnTrack(s, logs, origin, start, attempts[0]);
      SoloWorkerConverges(AttemptOnce(s, logs, attempts[0]), logs, attempts[1..], origin, start);
    }
  }

  /** A worker without a checkpoint is on track. */
  lemma FreshWorkerIsOnTrack(logs: seq<Log>, origin: Tables, start: nat)
    ensures OnTrack(Solo(origin, start, start - 1), logs, origin, start)
  {
    InRangeNone(logs, start, start - 1);
  }
}
