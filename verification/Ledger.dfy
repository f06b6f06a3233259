/** Token balances: the SQL aggregates over the stored transfers against a replay of the Transfer events
    (repository/tokens_repo.go; EIP-20, section "Events", Transfer). */
module Ledger {
  import opened Evm
  import opened Words

  datatype TransferRow = TransferRow(chain: int, token: Address, key: LogKey, src: Address, dst: Address, amount: nat,
                                     block: nat, removed: bool)

  /** What a query asks for: the transfers of one token up to a block. */
  datatype Query = Query(chain: int, token: Address, upTo: nat)

  predicate Counts(row: TransferRow, q: Query) {
    row.chain == q.chain && row.token == q.token && row.block <= q.upTo && !row.removed
  }

  // ---- The query for one address -------------------------------------------------------------------------

  function Incoming(rows: seq<TransferRow>, q: Query, wallet: Address): nat {
    if rows == [] then 0
    else
      var last := rows[|rows| - 1];
      Incoming(rows[..|rows| - 1], q, wallet) + if Counts(last, q) && last.dst == wallet then last.amount else 0
  }

  function Outgoing(rows: seq<TransferRow>, q: Query, wallet: Address): nat {
    if rows == [] then 0
    else
      var last := rows[|rows| - 1];
      Outgoing(rows[..|rows| - 1], q, wallet) + if Counts(last, q) && last.src == wallet then last.amount else 0
  }

  function CalculateTokenBalance(rows: seq<TransferRow>, q: Query, wallet: Address): int {
    Incoming(rows, q, wallet) - Outgoing(rows, q, wallet)
  }

  /** One row more: a transfer of the queried token, up to the queried block and not removed, brings its amount to the
      recipient and takes it from the sender; any other row changes nothing. */
  lemma BalanceOneMore(rows: seq<TransferRow>, row: TransferRow, q: Query, wallet: Address)
    ensures CalculateTokenBalance([], q, wallet) == 0
    ensures CalculateTokenBalance(rows + [row], q, wallet) - CalculateTokenBalance(rows, q, wallet) ==
              if row.chain == q.chain && row.token == q.token && row.block <= q.upTo && !row.removed
              then (if row.dst == wallet then row.amount else 0) - (if row.src == wallet then row.amount else 0)
              else 0
  {
    assert (rows + [row])[..|rows|] == rows;
  }

  // ---- The grouped query -----------------------------------------------------------------------------------

  datatype Movement = Movement(wallet: Address, incoming: nat, outgoing: nat)

  /** The first half of the union: what every counted transfer brings to its recipient. */
  function Received(rows: seq<TransferRow>, q: Query): seq<Movement> {
    if rows == [] then []
    else
      var last := rows[|rows| - 1];
      Received(rows[..|rows| - 1], q) + if Counts(last, q) then [Movement(last.dst, last.amount, 0)] else []
  }

  function Sent(rows: seq<TransferRow>, q: Query): seq<Movement> {
    if rows == [] then []
    else
      var last := rows[|rows| - 1];
      Sent(rows[..|rows| - 1], q) + if Counts(last, q) then [Movement(last.src, 0, last.amount)] else []
  }

  function NetOf(movements: seq<Movement>, wallet: Address): int {
    if movements == [] then 0
    else
      var last := movements[|movements| - 1];
      NetOf(movements[..|movements| - 1], wallet) + if last.wallet == wallet then last.incoming - last.outgoing else 0
  }

  predicate HasMovement(movements: seq<Movement>, wallet: Address) {
    exists i :: 0 <= i < |movements| && movements[i].wallet == wallet
  }

  datatype GroupRow = GroupRow(wallet: Address, balance: int)

  /** A result of the grouped query: one row per non-zero address that moved anything, in any order. */
  ghost predicate IsGrouped(result: seq<GroupRow>, rows: seq<TransferRow>, q: Query) {
    var movements := Received(rows, q) + Sent(rows, q);
    && (forall i, j :: 0 <= i < j < |result| ==> result[i].wallet != result[j].wallet)
    && (forall i :: 0 <= i < |result| ==> result[i].wallet != ZERO_ADDRESS && HasMovement(movements, result[i].wallet)
                                          && result[i].balance == NetOf(movements, result[i].wallet))
    && (forall w :: w != ZERO_ADDRESS && HasMovement(movements, w) ==> exists i :: 0 <= i < |result| && result[i].wallet == w)
  }

  /** The balance of an address that is not in the map is zero. */
  function BalanceIn(balances: map<Address, int>, wallet: Address): int {
    if wallet in balances then balances[wallet] else 0
  }

  /** Fills the map from the result rows. */
  method CalculateAllTokenBalances(result: seq<GroupRow>, ghost rows: seq<TransferRow>, ghost q: Query)
    returns (balances: map<Address, int>)
    requires IsGrouped(result, rows, q)
    ensures forall w :: w != ZERO_ADDRESS ==> BalanceIn(balances, w) == CalculateTokenBalance(rows, q, w)
    ensures ZERO_ADDRESS !in balances
  {
    hide NetOf, CalculateTokenBalance, Received, Sent;
    balances := map[];
    var i := 0;
    while i < |result|
      invariant i <= |result|
      invariant forall w :: w in balances <==> exists k :: 0 <= k < i && result[k].wallet == w
      invariant forall k :: 0 <= k < i ==> result[k].wallet in balances && balances[result[k].wallet] == result[k].balance
    {
      balances := balances[result[i].wallet := result[i].balance];
      i := i + 1;
    }
    forall w | w != ZERO_ADDRESS
      ensures BalanceIn(balances, w) == CalculateTokenBalance(rows, q, w)
    {
      GroupedIsSingle(rows, q, w);
      if !HasMovement(Received(rows, q) + Sent(rows, q), w) {
        NoMovement(Received(rows, q) + Sent(rows, q), w);
      }
    }
  }

  lemma {:induction false} NoMovement(movements: seq<Movement>, wallet: Address)
    requires !HasMovement(movements, wallet)
    ensures NetOf(movements, wallet) == 0
  {
    if movements != [] {
      var init := movements[..|movements| - 1];
      assert !HasMovement(init, wallet) by {
        assert forall i :: 0 <= i < |init| ==> init[i] == movements[i];
      }
      NoMovement(init, wallet);
    }
  }

  lemma {:induction false} NetOfUnion(a: seq<Movement>, b: seq<Movement>, wallet: Address)
    ensures NetOf(a + b, wallet) == NetOf(a, wallet) + NetOf(b, wallet)
  {
    if b == [] {
      assert a + b == a;
    } else {
      assert (a + b)[..|a + b| - 1] == a + b[..|b| - 1];
      NetOfUnion(a, b[..|b| - 1], wallet);
    }
  }

  lemma NetOfOne(m: Movement, wallet: Address)
    ensures NetOf([m], wallet) == if m.wallet == wallet then m.incoming - m.outgoing else 0
  {
    assert [m][..0] == [];
  }

  lemma {:induction false} NetOfReceived(rows: seq<TransferRow>, q: Query, wallet: Address)
    ensures NetOf(Received(rows, q), wallet) == Incoming(rows, q, wallet)
  {
    if rows != [] {
      var (init, last) := (rows[..|rows| - 1], rows[|rows| - 1]);
      NetOfReceived(init, q, wallet);
      NetOfUnion(Received(init, q), if Counts(last, q) then [Movement(last.dst, last.amount, 0)] else [], wallet);
      NetOfOne(Movement(last.dst, last.amount, 0), wallet);
    }
  }

  lemma {:induction false} NetOfSent(rows: seq<TransferRow>, q: Query, wallet: Address)
    ensures NetOf(Sent(rows, q), wallet) == 0 - Outgoing(rows, q, wallet)
  {
    if rows != [] {
      var (init, last) := (rows[..|rows| - 1], rows[|rows| - 1]);
      NetOfSent(init, q, wallet);
      NetOfUnion(Sent(init, q), if Counts(last, q) then [Movement(last.src, 0, last.amount)] else [], wallet);
      NetOfOne(Movement(last.src, 0, last.amount), wallet);
    }
  }

  /** The grouped sum of an address is the balance of the single-address query. */
  lemma GroupedIsSingle(rows: seq<TransferRow>, q: Query, wallet: Address)
    ensures NetOf(Received(rows, q) + Sent(rows, q), wallet) == CalculateTokenBalance(rows, q, wallet)
  {
    NetOfUnion(Received(rows, q), Sent(rows, q), wallet);
    NetOfReceived(rows, q, wallet);
    NetOfSent(rows, q, wallet);
  }

  // ---- The ledger ------------------------------------------------------------------------------------------

  /** A Transfer event moves its amount; the zero address mints and burns and holds nothing. */
  function Transfer(balances: map<Address, int>, src: Address, dst: Address, amount: nat): map<Address, int> {
    var debited := if src == ZERO_ADDRESS then balances else balances[src := BalanceIn(balances, src) - amount];
    if dst == ZERO_ADDRESS then debited else debited[dst := BalanceIn(debited, dst) + amount]
  }

  function Replay(rows: seq<TransferRow>, q: Query): map<Address, int> {
    if rows == [] then map[]
    else
      var (before, last) := (Replay(rows[..|rows| - 1], q), rows[|rows| - 1]);
      if Counts(last, q) then Transfer(before, last.src, last.dst, last.amount) else before
  }

  /** The aggregate agrees with the ledger for every address but the zero address. */
  lemma {:induction false} LedgerAgrees(rows: seq<TransferRow>, q: Query, wallet: Address)
    requires wallet != ZERO_ADDRESS
    ensures BalanceIn(Replay(rows, q), wallet) == CalculateTokenBalance(rows, q, wallet)
  {
    if rows != [] {
      LedgerAgrees(rows[..|rows| - 1], q, wallet);
    }
  }

  // ---- Conservation ------------------------------------------------------------------------------------------

  /** What left the zero address minus what returned to it. */
  function NetMinted(rows: seq<TransferRow>, q: Query): int {
    -CalculateTokenBalance(rows, q, ZERO_ADDRESS)
  }

  function Total(result: seq<GroupRow>): int {
    if result == [] then 0 else Total(result[..|result| - 1]) + result[|result| - 1].balance
  }

  /** The sum of the balances of some addresses. */
  function SumOver(wallets: seq<Address>, rows: seq<TransferRow>, q: Query): int {
    if wallets == [] then 0
    else SumOver(wallets[..|wallets| - 1], rows, q) + CalculateTokenBalance(rows, q, wallets[|wallets| - 1])
  }

  predicate DistinctWallets(wallets: seq<Address>) {
    forall i, j :: 0 <= i < j < |wallets| ==> wallets[i] != wallets[j]
  }

  /** One more transfer changes the sum by what it brings to and takes from these addresses. */
  lemma {:induction false} SumOverStep(wallets: seq<Address>, rows: seq<TransferRow>, q: Query)
    requires DistinctWallets(wallets) && rows != []
    ensures var (init, last) := (rows[..|rows| - 1], rows[|rows| - 1]);
            SumOver(wallets, rows, q) == SumOver(wallets, init, q)
              + (if Counts(last, q) && last.dst in wallets then last.amount else 0)
              - (if Counts(last, q) && last.src in wallets then last.amount else 0)
  {
    if wallets != [] {
      var (init, last) := (wallets[..|wallets| - 1], wallets[|wallets| - 1]);
      SumOverStep(init, rows, q);
      assert forall w :: w in wallets <==> w in init || w == last;
      assert last !in init;
    }
  }

  lemma {:induction false} SumOverNoRows(wallets: seq<Address>, q: Query)
    ensures SumOver(wallets, [], q) == 0
  {
    if wallets != [] {
      SumOverNoRows(wallets[..|wallets| - 1], q);
    }
  }

  /** Addresses that include every non-zero party of the counted transfers. */
  ghost predicate IncludesParties(wallets: seq<Address>, rows: seq<TransferRow>, q: Query) {
    && ZERO_ADDRESS !in wallets
    && forall r :: r in rows && Counts(r, q) ==>
         (r.src == ZERO_ADDRESS || r.src in wallets) && (r.dst == ZERO_ADDRESS || r.dst in wallets)
  }

  lemma {:induction false} SumIsNetMinted(wallets: seq<Address>, rows: seq<TransferRow>, q: Query)
    requires DistinctWallets(wallets) && IncludesParties(wallets, rows, q)
    ensures SumOver(wallets, rows, q) == NetMinted(rows, q)
  {
    if rows == [] {
      SumOverNoRows(wallets, q);
    } else {
      SumIsNetMinted(wallets, rows[..|rows| - 1], q);
      SumOverStep(wallets, rows, q);
      assert rows[|rows| - 1] in rows;
    }
  }

  function WalletsOf(result: seq<GroupRow>): seq<Address> {
    if result == [] then [] else WalletsOf(result[..|result| - 1]) + [result[|result| - 1].wallet]
  }

  lemma {:induction false} WalletsOfAt(result: seq<GroupRow>)
    ensures |WalletsOf(result)| == |result|
    ensures forall i :: 0 <= i < |result| ==> WalletsOf(result)[i] == result[i].wallet
  {
    if result != [] {
      WalletsOfAt(result[..|result| - 1]);
    }
  }

  lemma {:induction false} TotalIsSumOver(result: seq<GroupRow>, rows: seq<TransferRow>, q: Query)
    requires forall i :: 0 <= i < |result| ==> result[i].balance == CalculateTokenBalance(rows, q, result[i].wallet)
    ensures Total(result) == SumOver(WalletsOf(result), rows, q)
  {
    hide CalculateTokenBalance;
    if result != [] {
      TotalIsSumOver(result[..|result| - 1], rows, q);
      assert WalletsOf(result)[..|result| - 1] == WalletsOf(result[..|result| - 1]) by {
        WalletsOfAt(result);
        WalletsOfAt(result[..|result| - 1]);
      }
      WalletsOfAt(result);
    }
  }

  lemma {:induction false} PartiesMove(rows: seq<TransferRow>, q: Query, r: TransferRow)
    requires r in rows && Counts(r, q)
    ensures HasMovement(Received(rows, q) + Sent(rows, q), r.src) && HasMovement(Received(rows, q) + Sent(rows, q), r.dst)
  {
    ReceivedMovement(rows, q, r);
    SentMovement(rows, q, r);
    var (a, b) := (Received(rows, q), Sent(rows, q));
    var i :| 0 <= i < |a| && a[i].wallet == r.dst;
    var j :| 0 <= j < |b| && b[j].wallet == r.src;
    assert (a + b)[i].wallet == r.dst && (a + b)[|a| + j].wallet == r.src;
  }

  lemma {:induction false} ReceivedMovement(rows: seq<TransferRow>, q: Query, r: TransferRow)
    requires r in rows && Counts(r, q)
    ensures HasMovement(Received(rows, q), r.dst)
  {
    var (init, last) := (rows[..|rows| - 1], rows[|rows| - 1]);
    assert rows == init + [last];
    if r == last {
      assert Received(rows, q)[|Received(rows, q)| - 1].wallet == r.dst;
    } else {
      ReceivedMovement(init, q, r);
      var i :| 0 <= i < |Received(init, q)| && Received(init, q)[i].wallet == r.dst;
      assert Received(rows, q)[i].wallet == r.dst;
    }
  }

  lemma {:induction false} SentMovement(rows: seq<TransferRow>, q: Query, r: TransferRow)
    requires r in rows && Counts(r, q)
    ensures HasMovement(Sent(rows, q), r.src)
  {
    var (init, last) := (rows[..|rows| - 1], rows[|rows| - 1]);
    assert rows == init + [last];
    if r == last {
      assert Sent(rows, q)[|Sent(rows, q)| - 1].wallet == r.src;
    } else {
      SentMovement(init, q, r);
      var i :| 0 <= i < |Sent(init, q)| && Sent(init, q)[i].wallet == r.src;
      assert Sent(rows, q)[i].wallet == r.src;
    }
  }

  /** Conservation: all reported balances together are what was minted minus what was burned. */
  lemma TotalIsMintedMinusBurned(result: seq<GroupRow>, rows: seq<TransferRow>, q: Query)
    requires IsGrouped(result, rows, q)
    ensures Total(result) == Outgoing(rows, q, ZERO_ADDRESS) - Incoming(rows, q, ZERO_ADDRESS)
  {
    hide Received, Sent, NetOf, Incoming, Outgoing;
    forall i | 0 <= i < |result|
      ensures result[i].balance == CalculateTokenBalance(rows, q, result[i].wallet)
    {
      GroupedIsSingle(rows, q, result[i].wallet);
    }
    TotalIsSumOver(result, rows, q);
    var wallets := WalletsOf(result);
    WalletsOfAt(result);
    forall r | r in rows && Counts(r, q)
      ensures (r.src == ZERO_ADDRESS || r.src in wallets) && (r.dst == ZERO_ADDRESS || r.dst in wallets)
    {
      PartiesMove(rows, q, r);
      if r.src != ZERO_ADDRESS {
        var i :| 0 <= i < |result| && result[i].wallet == r.src;
        assert wallets[i] == r.src;
      }
      if r.dst != ZERO_ADDRESS {
        var i :| 0 <= i < |result| && result[i].wallet == r.dst;
        assert wallets[i] == r.dst;
      }
    }
    SumIsNetMinted(wallets, rows, q);
  }

  // ---- Order and self-transfers ------------------------------------------------------------------------------

  /** Taking one row out of the middle removes exactly its contribution. */
  lemma {:induction false} BalanceWithout(rows: seq<TransferRow>, i: nat, q: Query, wallet: Address)
    requires i < |rows|
    ensures Incoming(rows, q, wallet) == Incoming(rows[..i] + rows[i + 1..], q, wallet)
              + if Counts(rows[i], q) && rows[i].dst == wallet then rows[i].amount else 0
    ensures Outgoing(rows, q, wallet) == Outgoing(rows[..i] + rows[i + 1..], q, wallet)
              + if Counts(rows[i], q) && rows[i].src == wallet then rows[i].amount else 0
  {
    var rest := rows[..i] + rows[i + 1..];
    var init := rows[..|rows| - 1];
    if i == |rows| - 1 {
      assert rest == init;
    } else {
      BalanceWithout(init, i, q, wallet);
      assert rest[..|rest| - 1] == init[..i] + init[i + 1..] && rest[|rest| - 1] == rows[|rows| - 1];
    }
  }

  /** The order in which rows were stored does not matter. */
  lemma {:induction false} BalanceIgnoresOrder(a: seq<TransferRow>, b: seq<TransferRow>, q: Query, wallet: Address)
    requires multiset(a) == multiset(b)
    ensures CalculateTokenBalance(a, q, wallet) == CalculateTokenBalance(b, q, wallet)
  {
    hide Counts;
    if a == [] {
      assert |b| == |multiset(b)| == 0;
    } else {
      var (init, last) := (a[..|a| - 1], a[|a| - 1]);
      assert a == init + [last];
      assert last in multiset(a);
      var i :| 0 <= i < |b| && b[i] == last;
      var rest := b[..i] + b[i + 1..];
      assert b == b[..i] + [last] + b[i + 1..];
      assert multiset(b) == multiset(rest) + multiset{last};
      assert multiset(a) == multiset(init) + multiset{last};
      assert multiset(init) == multiset(rest) by {
        assert multiset(a) - multiset{last} == multiset(init) && multiset(b) - multiset{last} == multiset(rest);
      }
      BalanceIgnoresOrder(init, rest, q, wallet);
      BalanceWithout(b, i, q, wallet);
    }
  }

  /** A transfer to oneself changes no balance. */
  lemma SelfTransferIsNeutral(rows: seq<TransferRow>, i: nat, q: Query, wallet: Address)
    requires i < |rows| && rows[i].src == rows[i].dst
    ensures CalculateTokenBalance(rows, q, wallet) == CalculateTokenBalance(rows[..i] + rows[i + 1..], q, wallet)
  {
    BalanceWithout(rows, i, q, wallet);
  }

  // ---- Only the counted rows matter ----------------------------------------------------------------------------

  function Counted(rows: seq<TransferRow>, q: Query): seq<TransferRow> {
    if rows == [] then []
    else Counted(rows[..|rows| - 1], q) + if Counts(rows[|rows| - 1], q) then [rows[|rows| - 1]] else []
  }

  lemma {:induction false} CountedIsEnough(rows: seq<TransferRow>, q: Query, wallet: Address)
    ensures CalculateTokenBalance(Counted(rows, q), q, wallet) == CalculateTokenBalance(rows, q, wallet)
  {
    if rows != [] {
      var (init, last) := (rows[..|rows| - 1], rows[|rows| - 1]);
      CountedIsEnough(init, q, wallet);
      if Counts(last, q) {
        assert Counted(rows, q)[..|Counted(rows, q)| - 1] == Counted(init, q);
      } else {
        assert Counted(rows, q) == Counted(init, q);
      }
    }
  }

  predicate Unrepeated(rows: seq<TransferRow>) {
    forall i, j :: 0 <= i < j < |rows| ==> rows[i] != rows[j]
  }

  lemma {:induction false} CountedMultiplicity(rows: seq<TransferRow>, q: Query)
    requires Unrepeated(rows)
    ensures forall r :: multiset(Counted(rows, q))[r] == if r in rows && Counts(r, q) then 1 else 0
  {
    hide Counts;
    if rows != [] {
      var (init, last) := (rows[..|rows| - 1], rows[|rows| - 1]);
      CountedMultiplicity(init, q);
      assert rows == init + [last];
      assert last !in init;
      if Counts(last, q) {
        assert multiset(Counted(rows, q)) == multiset(Counted(init, q)) + multiset{last};
      } else {
        assert Counted(rows, q) == Counted(init, q);
      }
    }
  }

  /** Two listings without repetition that agree on the counted rows give the same balances. */
  lemma BalanceDependsOnCountedRows(a: seq<TransferRow>, b: seq<TransferRow>, q: Query, wallet: Address)
    requires Unrepeated(a) && Unrepeated(b) && forall r :: Counts(r, q) ==> (r in a <==> r in b)
    ensures CalculateTokenBalance(a, q, wallet) == CalculateTokenBalance(b, q, wallet)
  {
    hide Counts;
    CountedMultiplicity(a, q);
    CountedMultiplicity(b, q);
    assert multiset(Counted(a, q)) == multiset(Counted(b, q));
    CountedIsEnough(a, q, wallet);
    CountedIsEnough(b, q, wallet);
    BalanceIgnoresOrder(Counted(a, q), Counted(b, q), q, wallet);
  }
}
