/** The table of reconciliation exceptions that all reconcilers share (repository/reconciliation_repo.go). */
module ExceptionStore {
  import opened Words
  import opened Text
  import opened EntityRefs

  /** The exception types: five per log reconciler, and three of the balance reconciler. */
  datatype Family = FundingFamily | ClaimFamily | TransferFamily

  datatype ExcType =
    | LogException(family: Family, kind: Kind)
    | TokenBalanceMismatch
    | ContractBalanceMismatch
    | ContractStateMismatch

  /** One row; its id is its position. Only the block number of the expected data matters later. */
  datatype Exc = Exc(excType: ExcType, ref: string, block: Option<nat>, open: bool)

  ghost predicate IsOpen(rows: seq<Exc>, ref: string) {
    exists i :: 0 <= i < |rows| && rows[i].open && rows[i].ref == ref
  }

  /** At most one open exception per reference. */
  ghost predicate UniqueOpen(rows: seq<Exc>) {
    forall i, j :: 0 <= i < j < |rows| && rows[i].open && rows[j].open ==> rows[i].ref != rows[j].ref
  }

  function Closed(row: Exc): Exc {
    row.(open := false)
  }

  /** The ids an open-by-prefix query returns, in ascending order, from position i on. */
  function OpenByPrefix(rows: seq<Exc>, prefix: string, i: nat): seq<nat>
    requires i <= |rows|
    decreases |rows| - i
  {
    if i == |rows| then []
    else (if rows[i].open && HasPrefix(rows[i].ref, prefix) then [i] else []) + OpenByPrefix(rows, prefix, i + 1)
  }

  predicate Ascending(ids: seq<nat>) {
    forall a, b :: 0 <= a < b < |ids| ==> ids[a] < ids[b]
  }

  lemma AscendingCons(i: nat, rest: seq<nat>)
    requires Ascending(rest) && forall b :: 0 <= b < |rest| ==> i < rest[b]
    ensures Ascending([i] + rest)
  {
  }

  lemma {:induction false} OpenByPrefixMembers(rows: seq<Exc>, prefix: string, i: nat)
    requires i <= |rows|
    ensures forall k :: k in OpenByPrefix(rows, prefix, i) <==>
              i <= k < |rows| && rows[k].open && HasPrefix(rows[k].ref, prefix)
    ensures Ascending(OpenByPrefix(rows, prefix, i))
    decreases |rows| - i
  {
    if i < |rows| {
      OpenByPrefixMembers(rows, prefix, i + 1);
      var rest := OpenByPrefix(rows, prefix, i + 1);
      forall b | 0 <= b < |rest|
        ensures i + 1 <= rest[b]
      {
        assert rest[b] in OpenByPrefix(rows, prefix, i + 1);
      }
      if rows[i].open && HasPrefix(rows[i].ref, prefix) {
        AscendingCons(i, rest);
      } else {
        assert [] + rest == rest;
      }
    }
  }

  /** The table; every call may fail, as the environment decides. */
  class ReconciliationRepository {
    var rows: seq<Exc>

    constructor ()
      ensures rows == []
    {
      rows := [];
    }

    method CreateException(exc: Exc, fails: bool) returns (ok: bool)
      modifies this
      ensures ok == !fails && rows == if ok then old(rows) + [exc] else old(rows)
    {
      if fails {
        return false;
      }
      rows := rows + [exc];
      ok := true;
    }

    /** The newest open exception with this reference, if there is one. */
    method GetOpenExceptionByEntityRef(ref: string, fails: bool) returns (found: Result<Option<nat>>)
      ensures found.Error? <==> fails
      ensures found.Ok? ==> (found.value.Some? <==> IsOpen(rows, ref))
      ensures found.Ok? && found.value.Some? ==>
                var i := found.value.value;
                && i < |rows| && rows[i].open && rows[i].ref == ref
                && (forall j :: i < j < |rows| ==> !(rows[j].open && rows[j].ref == ref))
    {
      if fails {
        return Error;
      }
      var i := |rows|;
      while i > 0
        invariant 0 <= i <= |rows|
        invariant forall j :: i <= j < |rows| ==> !(rows[j].open && rows[j].ref == ref)
      {
        i := i - 1;
        if rows[i].open && rows[i].ref == ref {
          return Ok(Some(i));
        }
      }
      found := Ok(None);
    }

    /** Marks an open exception as resolved; resolving a resolved one changes nothing. */
    method ResolveException(id: nat, fails: bool) returns (ok: bool)
      modifies this
      ensures ok == !fails
      ensures rows == if ok && id < |old(rows)| && old(rows)[id].open then old(rows)[id := Closed(old(rows)[id])] else old(rows)
    {
      if fails {
        return false;
      }
      if id < |rows| && rows[id].open {
        rows := rows[id := Closed(rows[id])];
      }
      ok := true;
    }

    method GetOpenExceptionsByEntityRefPrefix(prefix: string, fails: bool) returns (ids: Result<seq<nat>>)
      ensures ids == if fails then Error else Ok(OpenByPrefix(rows, prefix, 0))
    {
      if fails {
        return Error;
      }
      var found: seq<nat>, i := [], |rows|;
      while i > 0
        invariant 0 <= i <= |rows|
        invariant found == OpenByPrefix(rows, prefix, i)
      {
        i := i - 1;
        if rows[i].open && HasPrefix(rows[i].ref, prefix) {
          found := [i] + found;
        }
      }
      ids := Ok(found);
    }
  }
}
