/** Block ranges: how a window of blocks is cut into batches (indexer.go, live_monitor.go). */
module Ranges {
  import opened Words

  // ---- The overflow-safe range of the payroll indexer ---------------------------------------

  datatype BlockRange = BlockRange(from: uint64, to: uint64)

  function NextRange(fromBlock: uint64, latestBlock: uint64, stepSize: uint64): Option<BlockRange> {
    if fromBlock > latestBlock || stepSize == 0 then
      None
    else
      var toBlock := Wrap(fromBlock + stepSize - 1);
      if toBlock < fromBlock || toBlock > latestBlock then
        Some(BlockRange(fromBlock, latestBlock))
      else
        Some(BlockRange(fromBlock, toBlock))
  }

  /** The 64-bit computation agrees with unbounded arithmetic on every input. */
  lemma NextRangeIsUnbounded(fromBlock: uint64, latestBlock: uint64, stepSize: uint64)
    ensures NextRange(fromBlock, latestBlock, stepSize) ==
            if fromBlock <= latestBlock && stepSize > 0
            then Some(BlockRange(fromBlock, Min(fromBlock + stepSize - 1, latestBlock)))
            else None
  {
    var sum := fromBlock + stepSize - 1;
    if stepSize > 0 && sum >= TWO_TO_64 {
      assert Wrap(sum) == sum - TWO_TO_64;
    }
  }

  /** The ranges obtained by asking for the next range until none is left. */
  function Partition(fromBlock: nat, latestBlock: uint64, stepSize: uint64): seq<BlockRange>
    requires stepSize > 0
    decreases latestBlock + 1 - fromBlock
  {
    if fromBlock > latestBlock then []
    else
      NextRangeIsUnbounded(fromBlock, latestBlock, stepSize);
      var r := NextRange(fromBlock, latestBlock, stepSize).value;
      [r] + Partition(r.to + 1, latestBlock, stepSize)
  }

  ghost predicate Tiles(ranges: seq<BlockRange>, lo: nat, hi: int) {
    && (ranges == [] ==> lo == hi + 1)
    && (ranges != [] ==> ranges[0].from == lo && ranges[|ranges| - 1].to == hi)
    && (forall i :: 0 <= i < |ranges| ==> ranges[i].from <= ranges[i].to)
    && (forall i :: 0 < i < |ranges| ==> ranges[i].from == ranges[i - 1].to + 1)
  }

  /** q is n / d rounded up. */
  ghost predicate IsCeiling(q: int, n: int, d: int) {
    (q - 1) * d < n <= q * d
  }

  lemma CeilingStep(q: int, n: int, d: int)
    requires IsCeiling(q, n, d)
    ensures IsCeiling(q + 1, n + d, d)
  {
    assert (q + 1) * d == q * d + d;
    assert q * d == (q - 1) * d + d;
  }

  lemma CeilingOfPart(n: int, d: int)
    requires 0 < n <= d
    ensures IsCeiling(1, n, d)
  {
  }

  predicate AtMost(ranges: seq<BlockRange>, stepSize: nat) {
    forall i :: 0 <= i < |ranges| ==> ranges[i].to - ranges[i].from + 1 <= stepSize
  }

  lemma TilesCons(r: BlockRange, rest: seq<BlockRange>, hi: int)
    requires r.from <= r.to && Tiles(rest, r.to + 1, hi)
    ensures Tiles([r] + rest, r.from, hi)
  {
    var all := [r] + rest;
    forall i | 0 < i < |all|
      ensures all[i].from == all[i - 1].to + 1
    {
      assert all[i] == rest[i - 1];
      assert i > 1 ==> all[i - 1] == rest[i - 2];
    }
  }

  lemma AtMostCons(r: BlockRange, rest: seq<BlockRange>, stepSize: nat)
    requires r.to - r.from + 1 <= stepSize && AtMost(rest, stepSize)
    ensures AtMost([r] + rest, stepSize)
  {
  }

  /** Repeated NextRange cuts [fromBlock, latestBlock] into ceil(length / step) adjacent ranges of at most step blocks. */
  lemma {:induction false} PartitionTiles(fromBlock: nat, latestBlock: uint64, stepSize: uint64)
    requires stepSize > 0 && fromBlock <= latestBlock + 1
    ensures var ranges := Partition(fromBlock, latestBlock, stepSize);
            && Tiles(ranges, fromBlock, latestBlock)
            && IsCeiling(|ranges|, latestBlock + 1 - fromBlock, stepSize)
            && AtMost(ranges, stepSize)
    decreases latestBlock + 1 - fromBlock
  {
    hide IsCeiling, Tiles, AtMost;
    if fromBlock <= latestBlock {
      NextRangeIsUnbounded(fromBlock, latestBlock, stepSize);
      var r := NextRange(fromBlock, latestBlock, stepSize).value;
      var rest := Partition(r.to + 1, latestBlock, stepSize);
      PartitionTiles(r.to + 1, latestBlock, stepSize);
      TilesCons(r, rest, latestBlock);
      AtMostCons(r, rest, stepSize);
      if r.to == latestBlock {
        CeilingOfPart(latestBlock + 1 - fromBlock, stepSize);
      } else {
        CeilingStep(|rest|, latestBlock - r.to, stepSize);
      }
    } else {
      NoRanges(fromBlock, stepSize);
    }
  }

  lemma NoRanges(fromBlock: nat, stepSize: nat)
    requires stepSize > 0
    ensures Tiles([], fromBlock, fromBlock - 1) && IsCeiling(0, 0, stepSize) && AtMost([], stepSize)
  {
  }

  // ---- The unguarded end of a batch, shared by every backfill and polling loop ---------------

  /** to := from + batch - 1, capped at the target; the sum is not guarded against wrap-around. */
  function BatchEnd(fromBlock: uint64, batchSize: uint64, target: uint64): uint64 {
    var toBlock := Wrap(fromBlock + batchSize - 1);
    if toBlock > target then target else toBlock
  }

  /** A wrapped sum always lands below fromBlock, so the range is refused as invalid, never skipped over. */
  lemma BatchEndIsValidExactlyWithoutOverflow(fromBlock: uint64, batchSize: uint64, target: uint64)
    requires batchSize > 0 && fromBlock <= target
    ensures fromBlock <= BatchEnd(fromBlock, batchSize, target) <==> fromBlock + batchSize - 1 < TWO_TO_64
    ensures fromBlock <= BatchEnd(fromBlock, batchSize, target) ==>
              Some(BlockRange(fromBlock, BatchEnd(fromBlock, batchSize, target))) == NextRange(fromBlock, target, batchSize)
  {
    var sum := fromBlock + batchSize - 1;
    if sum >= TWO_TO_64 {
      assert Wrap(sum) == sum - TWO_TO_64;
    }
    NextRangeIsUnbounded(fromBlock, target, batchSize);
  }

  // ---- Finality ------------------------------------------------------------------------------

  function CalculateSafeTarget(latestBlock: uint64, confirmationDepth: uint64): uint64 {
    if confirmationDepth == 0 then latestBlock
    else if latestBlock < confirmationDepth then 0
    else latestBlock - confirmationDepth
  }

  /** The safe head as the token indexer and the log reconcilers compute it. */
  function SafeOrLatest(latestBlock: uint64, confirmationDepth: uint64): uint64 {
    if confirmationDepth > 0 && latestBlock >= confirmationDepth then latestBlock - confirmationDepth else latestBlock
  }

  ghost predicate Final(blockNumber: int, latestBlock: uint64, confirmationDepth: uint64) {
    blockNumber + confirmationDepth <= latestBlock
  }

  /** Both formulas name the highest final block exactly when the chain is at least as long as the depth. */
  lemma SafeTargetIsHighestFinalBlock(latestBlock: uint64, confirmationDepth: uint64)
    ensures Final(CalculateSafeTarget(latestBlock, confirmationDepth), latestBlock, confirmationDepth)
            <==> latestBlock >= confirmationDepth
    ensures Final(SafeOrLatest(latestBlock, confirmationDepth), latestBlock, confirmationDepth)
            <==> latestBlock >= confirmationDepth
    ensures latestBlock >= confirmationDepth ==>
              && SafeOrLatest(latestBlock, confirmationDepth) == CalculateSafeTarget(latestBlock, confirmationDepth)
              && (forall b: int :: Final(b, latestBlock, confirmationDepth) ==> b <= CalculateSafeTarget(latestBlock, confirmationDepth))
    ensures latestBlock < confirmationDepth ==>
              CalculateSafeTarget(latestBlock, confirmationDepth) == 0 && SafeOrLatest(latestBlock, confirmationDepth) == latestBlock
  {
  }
}
