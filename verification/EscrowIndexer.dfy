/** One window of the escrow stream, step by step: logs that cannot be decoded or dated are skipped, the rest is saved with
    the checkpoint in one transaction (indexer/escrow_indexer.go, persistence/escrow_events.go). */
module EscrowIndexer {
  import opened Evm
  import opened Words
  import opened EscrowDecoders
  import opened EscrowStream

  datatype Input = Input(key: LogKey, row: Row)

  function SaveInputs(events: map<LogKey, Row>, inputs: seq<Input>): map<LogKey, Row> {
    if inputs == [] then events
    else Save(SaveInputs(events, inputs[..|inputs| - 1]), inputs[|inputs| - 1].key, inputs[|inputs| - 1].row)
  }

  function Kept(logs: seq<EscrowLog>, failed: set<LogKey>): seq<Input> {
    if logs == [] then []
    else
      var last := logs[|logs| - 1];
      Kept(logs[..|logs| - 1], failed) + if Known(last) && last.key !in failed then [Input(last.key, RowOf(last))] else []
  }

  lemma {:induction false} KeptInputsSaveTheWindow(events: map<LogKey, Row>, logs: seq<EscrowLog>, failed: set<LogKey>)
    ensures SaveInputs(events, Kept(logs, failed)) == SaveWindow(events, logs, failed)
  {
    hide Known, RowOf;
    if logs != [] {
      var (init, last) := (logs[..|logs| - 1], logs[|logs| - 1]);
      KeptInputsSaveTheWindow(events, init, failed);
      var inputs := Kept(logs, failed);
      if Known(last) && last.key !in failed {
        assert inputs[..|inputs| - 1] == Kept(init, failed);
      } else {
        assert inputs == Kept(init, failed);
      }
    }
  }

  /** A failure that concerns none of the logs keeps them all. */
  lemma {:induction false} KeptIgnoresOthers(logs: seq<EscrowLog>, failed: set<LogKey>, key: LogKey)
    requires forall l :: l in logs ==> l.key != key
    ensures Kept(logs, failed + {key}) == Kept(logs, failed)
  {
    hide Known, RowOf;
    if logs != [] {
      assert logs == logs[..|logs| - 1] + [logs[|logs| - 1]];
      KeptIgnoresOthers(logs[..|logs| - 1], failed, key);
    }
  }

  lemma {:induction false} WindowIsUnique(logs: seq<EscrowLog>, lo: int, hi: int)
    requires UniqueKeys(logs)
    ensures UniqueKeys(Window(logs, lo, hi))
  {
    if logs != [] {
      var (init, last) := (logs[..|logs| - 1], logs[|logs| - 1]);
      WindowIsUnique(init, lo, hi);
      WindowMembers(init, lo, hi);
      var before := Window(init, lo, hi);
      assert forall i :: 0 <= i < |before| ==> before[i] in before;
      assert forall l :: l in init ==> l.key != last.key;
    }
  }

  /** What can go wrong in one attempt; timestampFails(n) is the n-th timestamp request. */
  datatype Env = Env(logsFail: bool, timestampFails: nat -> bool, headerFails: bool, saveFails: nat -> bool)

  /** Which logs were passed over, and how. */
  ghost predicate SkippedOver(logs: seq<EscrowLog>, failed: set<LogKey>, timestampFails: nat -> bool) {
    // nothing is passed over unless a request failed
    && (failed != {} ==> exists n :: timestampFails(n))
    // only known logs of the window are passed over
    && (forall k :: k in failed ==> exists i :: 0 <= i < |logs| && logs[i].key == k && Known(logs[i]))
    // once the timestamp of a block is there, no later log of the block is passed over
    && (forall i, j :: 0 <= i < j < |logs| && logs[i].block == logs[j].block && Known(logs[i]) && logs[i].key !in failed
          ==> logs[j].key !in failed)
  }

  /** The first i logs have been decoded. */
  ghost predicate Progress(logs: seq<EscrowLog>, i: nat, failed: set<LogKey>, cached: set<nat>, timestampFails: nat -> bool) {
    && i <= |logs|
    && SkippedOver(logs[..i], failed, timestampFails)
    && (forall j :: 0 <= j < i && Known(logs[j]) && logs[j].key !in failed ==> logs[j].block in cached)
  }

  lemma NoProgress(logs: seq<EscrowLog>, fails: nat -> bool)
    ensures Progress(logs, 0, {}, {}, fails) && Kept(logs[..0], {}) == []
  {
  }

  lemma KnownOrNot(log: EscrowLog)
    ensures Known(log) <==> EventOf(log.log).Some?
    ensures RowOf(log) == Row(MeaningOfAny(log.log), log.block, log.removed)
  {
  }

  lemma DatedStep(logs: seq<EscrowLog>, i: nat, failed: set<LogKey>, cached: set<nat>, fails: nat -> bool)
    requires UniqueKeys(logs) && i < |logs| && Progress(logs, i, failed, cached, fails) && Known(logs[i])
    ensures Progress(logs, i + 1, failed, cached + {logs[i].block}, fails)
    ensures Kept(logs[..i + 1], failed) == Kept(logs[..i], failed) + [Input(logs[i].key, RowOf(logs[i]))]
  {
    hide Known, RowOf;
    var (before, after) := (logs[..i], logs[..i + 1]);
    assert after[..i] == before && after[i] == logs[i];
    assert logs[i].key !in failed by {
      assert forall j :: 0 <= j < i ==> before[j].key == logs[j].key != logs[i].key;
    }
    forall k | k in failed
      ensures exists j :: 0 <= j < |after| && after[j].key == k && Known(after[j])
    {
      var j :| 0 <= j < |before| && before[j].key == k && Known(before[j]);
      assert after[j] == before[j];
    }
  }

  lemma UnknownStep(logs: seq<EscrowLog>, i: nat, failed: set<LogKey>, cached: set<nat>, fails: nat -> bool)
    requires UniqueKeys(logs) && i < |logs| && Progress(logs, i, failed, cached, fails) && !Known(logs[i])
    ensures Progress(logs, i + 1, failed, cached, fails) && Kept(logs[..i + 1], failed) == Kept(logs[..i], failed)
  {
    hide Known, RowOf;
    var (before, after) := (logs[..i], logs[..i + 1]);
    assert after[..i] == before && after[i] == logs[i];
    assert logs[i].key !in failed by {
      assert forall j :: 0 <= j < i ==> before[j].key == logs[j].key != logs[i].key;
    }
    forall k | k in failed
      ensures exists j :: 0 <= j < |after| && after[j].key == k && Known(after[j])
    {
      var j :| 0 <= j < |before| && before[j].key == k && Known(before[j]);
      assert after[j] == before[j];
    }
  }

  lemma KeptStep(logs: seq<EscrowLog>, failed: set<LogKey>, last: EscrowLog)
    requires last.key in failed
    ensures Kept(logs + [last], failed) == Kept(logs, failed)
  {
    hide Known, RowOf;
    assert (logs + [last])[..|logs|] == logs;
  }

  lemma FailedStep(logs: seq<EscrowLog>, i: nat, failed: set<LogKey>, cached: set<nat>, fails: nat -> bool)
    requires UniqueKeys(logs) && i < |logs| && Progress(logs, i, failed, cached, fails) && Known(logs[i])
    requires logs[i].block !in cached && exists n :: fails(n)
    ensures Progress(logs, i + 1, failed + {logs[i].key}, cached, fails)
    ensures Kept(logs[..i + 1], failed + {logs[i].key}) == Kept(logs[..i], failed)
  {
    hide Known, RowOf, SkippedOver, Kept;
    var key := logs[i].key;
    var (before, after) := (logs[..i], logs[..i + 1]);
    assert after == before + [logs[i]];
    KeptStep(before, failed + {key}, logs[i]);
    forall l | l in before
      ensures l.key != logs[i].key
    {
      var j :| 0 <= j < i && before[j] == l;
    }
    KeptIgnoresOthers(before, failed, logs[i].key);
    assert forall j :: 0 <= j < i ==> before[j] in before && after[j] == before[j] == logs[j];
    FailedIsSkippedOver(before, after, failed, logs[i], cached, fails);
  }

  lemma FailedIsSkippedOver(before: seq<EscrowLog>, after: seq<EscrowLog>, failed: set<LogKey>, log: EscrowLog, cached: set<nat>,
                           fails: nat -> bool)
    requires SkippedOver(before, failed, fails) && after == before + [log] && Known(log) && exists n :: fails(n)
    requires forall l :: l in before ==> l.key != log.key
    requires forall j :: 0 <= j < |before| && Known(before[j]) && before[j].key !in failed ==> before[j].block != log.block
    ensures SkippedOver(after, failed + {log.key}, fails)
  {
    hide Known;
    forall k | k in failed + {log.key}
      ensures exists j :: 0 <= j < |after| && after[j].key == k && Known(after[j])
    {
      if k in failed {
        var j :| 0 <= j < |before| && before[j].key == k && Known(before[j]);
        assert after[j] == before[j];
      } else {
        assert after[|before|].key == k && Known(after[|before|]);
      }
    }
    forall j, k | 0 <= j < k < |after| && after[j].block == after[k].block && Known(after[j]) && after[j].key !in failed + {log.key}
      ensures after[k].key !in failed + {log.key}
    {
      assert after[j] == before[j];
      assert k < |before| ==> after[k] == before[k] && before[k] in before;
    }
  }

  lemma AllDone(logs: seq<EscrowLog>, failed: set<LogKey>, cached: set<nat>, fails: nat -> bool)
    requires Progress(logs, |logs|, failed, cached, fails)
    ensures SkippedOver(logs, failed, fails) && logs[..|logs|] == logs
  {
    assert logs[..|logs|] == logs;
  }

  // ---- The timestamp requests ----------------------------------------------------------------------------------

  /** A request made before log number before gave the timestamp of the block. */
  predicate Dated(logs: seq<EscrowLog>, asked: seq<nat>, fails: nat -> bool, block: nat, before: nat) {
    exists n :: 0 <= n < |asked| && asked[n] < |logs| && asked[n] < before && logs[asked[n]].block == block && !fails(n)
  }

  predicate AskedInVain(asked: seq<nat>, fails: nat -> bool, j: nat) {
    exists n :: 0 <= n < |asked| && asked[n] == j && fails(n)
  }

  /** Request n is made for log number asked[n], in order: for each known log whose block has no timestamp yet. The logs passed
      over are exactly those whose request fails. */
  ghost predicate Requests(logs: seq<EscrowLog>, i: nat, asked: seq<nat>, failed: set<LogKey>, fails: nat -> bool) {
    && i <= |logs|
    && (forall n :: 0 <= n < |asked| ==> asked[n] < i && Known(logs[asked[n]]))
    && (forall n, m :: 0 <= n < m < |asked| ==> asked[n] < asked[m])
    && (forall j :: 0 <= j < i && Known(logs[j]) ==> (j in asked <==> !Dated(logs, asked, fails, logs[j].block, j)))
    && (forall j :: 0 <= j < i ==> (logs[j].key in failed <==> AskedInVain(asked, fails, j)))
    && (forall k :: k in failed ==> exists j :: 0 <= j < i && logs[j].key == k)
  }

  ghost predicate CacheIsRight(logs: seq<EscrowLog>, i: nat, asked: seq<nat>, cached: set<nat>, fails: nat -> bool) {
    forall b :: b in cached <==> Dated(logs, asked, fails, b, i)
  }

  lemma DatedGrows(logs: seq<EscrowLog>, i: nat, asked: seq<nat>, next: seq<nat>, fails: nat -> bool)
    requires asked <= next && (forall n :: 0 <= n < |asked| ==> asked[n] < i) && (forall n :: |asked| <= n < |next| ==> next[n] == i)
    ensures forall b: nat, j: nat :: j <= i ==> (Dated(logs, next, fails, b, j) <==> Dated(logs, asked, fails, b, j))
    ensures forall b: nat :: Dated(logs, asked, fails, b, i) ==> Dated(logs, next, fails, b, i + 1)
    ensures forall j: nat :: j < i ==> (AskedInVain(next, fails, j) <==> AskedInVain(asked, fails, j))
  {
    forall b: nat, j: nat | j <= i
      ensures Dated(logs, next, fails, b, j) <==> Dated(logs, asked, fails, b, j)
    {
      if Dated(logs, asked, fails, b, j) {
        var n :| 0 <= n < |asked| && asked[n] < |logs| && asked[n] < j && logs[asked[n]].block == b && !fails(n);
        assert next[n] == asked[n];
      }
    }
    forall b: nat | Dated(logs, asked, fails, b, i)
      ensures Dated(logs, next, fails, b, i + 1)
    {
      var n :| 0 <= n < |asked| && asked[n] < |logs| && asked[n] < i && logs[asked[n]].block == b && !fails(n);
      assert next[n] == asked[n];
    }
    forall j: nat | j < i
      ensures AskedInVain(next, fails, j) <==> AskedInVain(asked, fails, j)
    {
      if AskedInVain(asked, fails, j) {
        var n :| 0 <= n < |asked| && asked[n] == j && fails(n);
        assert next[n] == j;
      }
    }
  }

  lemma AskedStep(logs: seq<EscrowLog>, i: nat, asked: seq<nat>, failed: set<LogKey>, cached: set<nat>, fails: nat -> bool)
    requires UniqueKeys(logs) && i < |logs| && Requests(logs, i, asked, failed, fails) && CacheIsRight(logs, i, asked, cached, fails)
    requires Known(logs[i]) && logs[i].block !in cached
    ensures var gave := !fails(|asked|);
            && Requests(logs, i + 1, asked + [i], if gave then failed else failed + {logs[i].key}, fails)
            && CacheIsRight(logs, i + 1, asked + [i], if gave then cached + {logs[i].block} else cached, fails)
  {
    hide Known, Dated, AskedInVain;
    var next := asked + [i];
    var after := if !fails(|asked|) then failed else failed + {logs[i].key};
    DatedGrows(logs, i, asked, next, fails);
    LastRequest(logs, i, asked, fails);
    assert forall j :: j in next <==> j in asked || j == i;
    forall j | 0 <= j < i + 1
      ensures logs[j].key in after <==> AskedInVain(next, fails, j)
    {
      if j == i {
        assert forall l :: 0 <= l < i ==> logs[l].key != logs[i].key;
      }
    }
  }

  lemma LastRequest(logs: seq<EscrowLog>, i: nat, asked: seq<nat>, fails: nat -> bool)
    requires i < |logs| && forall n :: 0 <= n < |asked| ==> asked[n] < i
    ensures AskedInVain(asked + [i], fails, i) <==> fails(|asked|)
    ensures forall b: nat :: Dated(logs, asked + [i], fails, b, i + 1) <==>
              Dated(logs, asked, fails, b, i) || (b == logs[i].block && !fails(|asked|))
  {
    var next := asked + [i];
    assert next[|asked|] == i;
    forall b: nat
      ensures Dated(logs, next, fails, b, i + 1) <==> Dated(logs, asked, fails, b, i) || (b == logs[i].block && !fails(|asked|))
    {
      if Dated(logs, asked, fails, b, i) {
        var n :| 0 <= n < |asked| && asked[n] < |logs| && asked[n] < i && logs[asked[n]].block == b && !fails(n);
        assert next[n] == asked[n];
      }
    }
  }

  lemma NotAskedStep(logs: seq<EscrowLog>, i: nat, asked: seq<nat>, failed: set<LogKey>, cached: set<nat>, fails: nat -> bool)
    requires UniqueKeys(logs) && i < |logs| && Requests(logs, i, asked, failed, fails) && CacheIsRight(logs, i, asked, cached, fails)
    requires !Known(logs[i]) || logs[i].block in cached
    ensures Requests(logs, i + 1, asked, failed, fails)
    ensures CacheIsRight(logs, i + 1, asked, cached + (if Known(logs[i]) then {logs[i].block} else {}), fails)
  {
    hide Known, Dated, AskedInVain;
    DatedGrows(logs, i, asked, asked, fails);
    NothingLater(logs, i, asked, fails);
    assert i !in asked;
    assert logs[i].key !in failed;
  }

  lemma NothingLater(logs: seq<EscrowLog>, i: nat, asked: seq<nat>, fails: nat -> bool)
    requires forall n :: 0 <= n < |asked| ==> asked[n] < i
    ensures !AskedInVain(asked, fails, i)
    ensures forall b: nat :: Dated(logs, asked, fails, b, i + 1) ==> Dated(logs, asked, fails, b, i)
  {
  }

  lemma NoRequests(logs: seq<EscrowLog>, fails: nat -> bool)
    ensures Requests(logs, 0, [], {}, fails) && CacheIsRight(logs, 0, [], {}, fails)
  {
  }

  class Indexer {
    const cfg: Setting
    var events: map<LogKey, Row>
    var checkpoint: Option<nat>

    constructor (cfg: Setting)
      ensures this.cfg == cfg && events == map[] && checkpoint == None
    {
      this.cfg, events, checkpoint := cfg, map[], None;
    }

    /** One attempt changes nothing or commits exactly the transaction of the state machine. */
    method IndexRange(from: nat, to: nat, env: Env) returns (ok: bool, ghost failed: set<LogKey>, ghost asked: seq<nat>)
      requires UniqueKeys(cfg.logs)
      modifies this
      ensures !ok ==> events == old(events) && checkpoint == old(checkpoint)
      ensures ok ==>
                var logs := Window(cfg.logs, from, to);
                && from <= to && !env.logsFail && !env.headerFails
                && SkippedOver(logs, failed, env.timestampFails) && Requests(logs, |logs|, asked, failed, env.timestampFails)
                && events == SaveWindow(old(events), logs, failed)
                && checkpoint == if to > 0 then Some(to) else old(checkpoint)
      ensures from <= to && !env.logsFail && !env.headerFails && (forall n :: !env.saveFails(n)) ==> ok
    {
      failed, asked := {}, [];
      if from > to || env.logsFail {
        return false, failed, asked;
      }
      hide Window, SaveWindow, SaveInputs, Kept, SkippedOver, Requests;
      var logs := Window(cfg.logs, from, to);
      WindowIsUnique(cfg.logs, from, to);
      var inputs: seq<Input>;
      inputs, failed, asked := DecodeLogs(logs, env.timestampFails);
      if env.headerFails {
        return false, failed, asked;
      }
      KeptInputsSaveTheWindow(events, logs, failed);
      ok := SaveEscrowBatch(inputs, to, env.saveFails);
    }

    /** The decodable and datable logs; timestamps are cached by block, but failures are not. */
    method DecodeLogs(logs: seq<EscrowLog>, fails: nat -> bool)
      returns (inputs: seq<Input>, ghost failed: set<LogKey>, ghost asked: seq<nat>)
      requires UniqueKeys(logs)
      ensures inputs == Kept(logs, failed) && SkippedOver(logs, failed, fails) && Requests(logs, |logs|, asked, failed, fails)
    {
      hide Progress, Kept, RowOf, Known, SkippedOver, MeaningOfAny, Requests, CacheIsRight, UniqueKeys;
      inputs, failed, asked := [], {}, [];
      var cached: set<nat>, calls, i := {}, 0, 0;
      NoProgress(logs, fails);
      NoRequests(logs, fails);
      while i < |logs|
        invariant calls == |asked| && Requests(logs, i, asked, failed, fails) && CacheIsRight(logs, i, asked, cached, fails)
        invariant i <= |logs| && inputs == Kept(logs[..i], failed) && Progress(logs, i, failed, cached, fails)
      {
        var log := logs[i];
        var event := EventOf(log.log);
        KnownOrNot(log);
        if event.Some? {
          var datable := log.block in cached;
          if !datable {
            datable := !fails(calls);
            calls := calls + 1;
            AskedStep(logs, i, asked, failed, cached, fails);
            asked := asked + [i];
          } else {
            NotAskedStep(logs, i, asked, failed, cached, fails);
          }
          if datable {
            DatedStep(logs, i, failed, cached, fails);
            cached := cached + {log.block};
            var decoded := DecodeLog(log.log);
            inputs := inputs + [Input(log.key, Row(decoded.value, log.block, log.removed))];
          } else {
            FailedStep(logs, i, failed, cached, fails);
            failed := failed + {log.key};
          }
        } else {
          UnknownStep(logs, i, failed, cached, fails);
          NotAskedStep(logs, i, asked, failed, cached, fails);
          assert cached + {} == cached;
        }
        i := i + 1;
      }
      AllDone(logs, failed, cached, fails);
    }

    method SaveEscrowBatch(inputs: seq<Input>, checkpointBlock: nat, fails: nat -> bool) returns (ok: bool)
      modifies this
      ensures !ok ==> events == old(events) && checkpoint == old(checkpoint)
      ensures ok ==> events == SaveInputs(old(events), inputs)
                     && checkpoint == if checkpointBlock > 0 then Some(checkpointBlock) else old(checkpoint)
      ensures (forall n :: !fails(n)) ==> ok
    {
      var events1, i := events, 0;
      assert inputs[..0] == [];
      while i < |inputs|
        invariant i <= |inputs| && events1 == SaveInputs(events, inputs[..i])
      {
        assert inputs[..i + 1][..i] == inputs[..i];
        if fails(i) {
          return false;
        }
        events1 := Save(events1, inputs[i].key, inputs[i].row);
        i := i + 1;
      }
      assert inputs[..i] == inputs;
      if (checkpointBlock > 0 && fails(i)) || fails(i + 1) {
        return false;
      }
      events := events1;
      if checkpointBlock > 0 {
        checkpoint := Some(checkpointBlock);
      }
      ok := true;
    }
  }
}
