/** The text references that identify reconciliation exceptions, one format per reconciler (reconciliation/). */
module EntityRefs {
  import opened Evm
  import opened Words
  import opened Text

  datatype Kind = Duplicate | Missing | EntityMismatch | AmountMismatch | TxInconsistency

  function KindName(k: Kind): string {
    match k
    case Duplicate => "duplicate"
    case Missing => "missing"
    case EntityMismatch => "entity_mismatch"
    case AmountMismatch => "amount_mismatch"
    case TxInconsistency => "tx_inconsistency"
  }

  datatype Property = EmployerActive | EmployeeActive

  function PropertyName(p: Property): string {
    match p
    case EmployerActive => "is_employer_active"
    case EmployeeActive => "is_employee_active"
  }

  /** What an exception is about. Fundings and claims share a format; their log keys are disjoint. */
  datatype Entity =
    | PayrollLog(chain: int, tx: Hash, index: nat, kind: Kind)
    | TransferLog(chain: int, token: Address, tx: Hash, index: nat, kind: Kind)
    | TokenBalance(chain: int, token: Address, wallet: Address)
    | ContractBalance(chain: int, contract: Address, token: Address)
    | ContractState(chain: int, contract: Address, wallet: Address, property: Property)

  function Hex(raw: seq<byte>): string {
    "0x" + HexOf(raw)
  }

  function Parts(e: Entity): (parts: seq<string>)
    ensures |parts| >= 4
  {
    match e
    case PayrollLog(c, tx, i, k) => [Decimal(c), Hex(tx.raw), Decimal(i), KindName(k)]
    case TransferLog(c, token, tx, i, k) => [Decimal(c), Hex(token.raw), Hex(tx.raw), Decimal(i), KindName(k)]
    case TokenBalance(c, token, wallet) => [Decimal(c), Hex(token.raw), Hex(wallet.raw), "token_balance_mismatch"]
    case ContractBalance(c, contract, token) => [Decimal(c), Hex(contract.raw), Hex(token.raw), "contract_balance_mismatch"]
    case ContractState(c, contract, wallet, p) =>
      [Decimal(c), Hex(contract.raw), Hex(wallet.raw), PropertyName(p), "state_mismatch"]
  }

  function Ref(e: Entity): string {
    Join(Parts(e))
  }

  lemma JoinFour(a: string, b: string, c: string, d: string)
    ensures Join([a, b, c, d]) == a + ":" + b + ":" + c + ":" + d
  {
    assert [a, b, c, d][1..] == [b, c, d] && [b, c, d][1..] == [c, d] && [c, d][1..] == [d];
    assert Join([d]) == d;
    assert Join([c, d]) == c + ":" + d;
    assert Join([b, c, d]) == b + ":" + (c + ":" + d);
  }

  lemma JoinFive(a: string, b: string, c: string, d: string, e: string)
    ensures Join([a, b, c, d, e]) == a + ":" + b + ":" + c + ":" + d + ":" + e
  {
    assert [a, b, c, d, e][1..] == [b, c, d, e];
    JoinFour(b, c, d, e);
  }

  /** The texts of the references of fundings and claims, kind by kind. */
  lemma PayrollLogText(chain: int, tx: Hash, index: nat)
    ensures var start := Decimal(chain) + ":" + ("0x" + HexOf(tx.raw)) + ":" + Decimal(index);
            && Ref(PayrollLog(chain, tx, index, Duplicate)) == start + ":" + "duplicate"
            && Ref(PayrollLog(chain, tx, index, Missing)) == start + ":" + "missing"
            && Ref(PayrollLog(chain, tx, index, EntityMismatch)) == start + ":" + "entity_mismatch"
            && Ref(PayrollLog(chain, tx, index, AmountMismatch)) == start + ":" + "amount_mismatch"
            && Ref(PayrollLog(chain, tx, index, TxInconsistency)) == start + ":" + "tx_inconsistency"
  {
    hide HexOf, Decimal, Join;
    forall k: Kind
      ensures Ref(PayrollLog(chain, tx, index, k)) == Decimal(chain) + ":" + ("0x" + HexOf(tx.raw)) + ":" + Decimal(index) + ":" + KindName(k)
    {
      JoinFour(Decimal(chain), "0x" + HexOf(tx.raw), Decimal(index), KindName(k));
    }
  }

  lemma TransferLogText(chain: int, token: Address, tx: Hash, index: nat)
    ensures var start := Decimal(chain) + ":" + ("0x" + HexOf(token.raw)) + ":" + ("0x" + HexOf(tx.raw)) + ":" + Decimal(index);
            && Ref(TransferLog(chain, token, tx, index, Duplicate)) == start + ":" + "duplicate"
            && Ref(TransferLog(chain, token, tx, index, Missing)) == start + ":" + "missing"
            && Ref(TransferLog(chain, token, tx, index, EntityMismatch)) == start + ":" + "entity_mismatch"
            && Ref(TransferLog(chain, token, tx, index, AmountMismatch)) == start + ":" + "amount_mismatch"
            && Ref(TransferLog(chain, token, tx, index, TxInconsistency)) == start + ":" + "tx_inconsistency"
  {
    hide HexOf, Decimal, Join;
    forall k: Kind
      ensures Ref(TransferLog(chain, token, tx, index, k))
              == Decimal(chain) + ":" + ("0x" + HexOf(token.raw)) + ":" + ("0x" + HexOf(tx.raw)) + ":" + Decimal(index) + ":" + KindName(k)
    {
      JoinFive(Decimal(chain), "0x" + HexOf(token.raw), "0x" + HexOf(tx.raw), Decimal(index), KindName(k));
    }
  }

  /** The texts of the references of balances and states. */
  lemma BalanceText(chain: int, token: Address, contract: Address, wallet: Address)
    ensures var (c, t, k, w) := (Decimal(chain), "0x" + HexOf(token.raw), "0x" + HexOf(contract.raw), "0x" + HexOf(wallet.raw));
            && Ref(TokenBalance(chain, token, wallet)) == c + ":" + t + ":" + w + ":" + "token_balance_mismatch"
            && Ref(ContractBalance(chain, contract, token)) == c + ":" + k + ":" + t + ":" + "contract_balance_mismatch"
            && Ref(ContractState(chain, contract, wallet, EmployerActive))
               == c + ":" + k + ":" + w + ":" + "is_employer_active" + ":" + "state_mismatch"
            && Ref(ContractState(chain, contract, wallet, EmployeeActive))
               == c + ":" + k + ":" + w + ":" + "is_employee_active" + ":" + "state_mismatch"
  {
    hide HexOf, Decimal, Join;
    var (c, t, k, w) := (Decimal(chain), "0x" + HexOf(token.raw), "0x" + HexOf(contract.raw), "0x" + HexOf(wallet.raw));
    JoinFour(c, t, w, "token_balance_mismatch");
    JoinFour(c, k, t, "contract_balance_mismatch");
    JoinFive(c, k, w, "is_employer_active", "state_mismatch");
    JoinFive(c, k, w, "is_employee_active", "state_mismatch");
  }

  lemma HexHasNoColon(raw: seq<byte>)
    ensures NoColon(Hex(raw))
  {
    HexOfHasNoColon(raw);
  }

  lemma {:induction false} HexOfHasNoColon(raw: seq<byte>)
    ensures NoColon(HexOf(raw))
  {
    if raw != [] {
      HexOfHasNoColon(raw[1..]);
      HexDigitValue(raw[0] as int / 16);
      HexDigitValue(raw[0] as int % 16);
    }
  }

  lemma DecimalHasNoColon(n: int)
    ensures NoColon(Decimal(n))
  {
    DecimalNatRoundTrip(if n < 0 then -n else n);
  }

  lemma NamesHaveNoColon()
    ensures forall k: Kind :: NoColon(KindName(k))
    ensures forall p: Property :: NoColon(PropertyName(p))
    ensures NoColon("token_balance_mismatch") && NoColon("contract_balance_mismatch") && NoColon("state_mismatch")
  {
  }

  lemma PartsHaveNoColons(e: Entity)
    ensures NoColons(Parts(e))
  {
    hide HexOf, Hex, Decimal, KindName, PropertyName, NoColon;
    NamesHaveNoColon();
    DecimalHasNoColon(e.chain);
    match e
    case PayrollLog(_, tx, i, _) => HexHasNoColon(tx.raw); DecimalHasNoColon(i);
    case TransferLog(_, token, tx, i, _) => HexHasNoColon(token.raw); HexHasNoColon(tx.raw); DecimalHasNoColon(i);
    case TokenBalance(_, token, wallet) => HexHasNoColon(token.raw); HexHasNoColon(wallet.raw);
    case ContractBalance(_, contract, token) => HexHasNoColon(contract.raw); HexHasNoColon(token.raw);
    case ContractState(_, contract, wallet, _) => HexHasNoColon(contract.raw); HexHasNoColon(wallet.raw);
  }

  lemma HexInjective(a: seq<byte>, b: seq<byte>)
    requires Hex(a) == Hex(b)
    ensures a == b
  {
    assert Hex(a)[2..] == HexOf(a) && Hex(b)[2..] == HexOf(b);
    HexOfInjective(a, b);
  }

  /** No two different entities, of the same or of different reconcilers, ever share a reference. */
  lemma RefInjective(e: Entity, f: Entity)
    requires Ref(e) == Ref(f)
    ensures e == f
  {
    PartsHaveNoColons(e);
    PartsHaveNoColons(f);
    var p, q := Parts(e), Parts(f);
    JoinInjective(p, q);
    DecimalInjective(e.chain, f.chain);
    SameFormat(e, f);
    match (e, f)
    case (PayrollLog(_, tx, i, _), PayrollLog(_, tx', i', _)) =>
      HexInjective(tx.raw, tx'.raw); DecimalInjective(i, i'); KindNames(e.kind, f.kind);
    case (TransferLog(_, t, tx, i, _), TransferLog(_, t', tx', i', _)) =>
      HexInjective(t.raw, t'.raw); HexInjective(tx.raw, tx'.raw); DecimalInjective(i, i'); KindNames(e.kind, f.kind);
    case (TokenBalance(_, t, w), TokenBalance(_, t', w')) => HexInjective(t.raw, t'.raw); HexInjective(w.raw, w'.raw);
    case (ContractBalance(_, c, t), ContractBalance(_, c', t')) => HexInjective(c.raw, c'.raw); HexInjective(t.raw, t'.raw);
    case (ContractState(_, c, w, p), ContractState(_, c', w', p')) =>
      HexInjective(c.raw, c'.raw); HexInjective(w.raw, w'.raw); assert PropertyName(p)[4] == PropertyName(p')[4];
      assert PropertyName(p)[8] == PropertyName(p')[8];
  }

  lemma KindNames(k: Kind, k': Kind)
    requires KindName(k) == KindName(k')
    ensures k == k'
  {
    assert KindName(k)[0] == KindName(k')[0];
  }

  /** The last field tells the formats apart. */
  lemma SameFormat(e: Entity, f: Entity)
    requires Parts(e) == Parts(f)
    ensures e.PayrollLog? == f.PayrollLog? && e.TransferLog? == f.TransferLog? && e.TokenBalance? == f.TokenBalance?
    ensures e.ContractBalance? == f.ContractBalance? && e.ContractState? == f.ContractState?
  {
    var p, q := Parts(e), Parts(f);
    assert |p| == |q| && p[|p| - 1][0] == q[|q| - 1][0] && |p[|p| - 1]| == |q[|q| - 1]|;
  }

  // ---- The prefixes used to load a reconciler's open exceptions --------------------------------------

  function ChainPrefix(chain: int): string {
    Decimal(chain) + ":"
  }

  function TokenPrefix(chain: int, token: Address): string {
    Decimal(chain) + ":" + Hex(token.raw) + ":"
  }

  /** The chain prefix selects exactly the references of that chain: chain 1 never selects chain 11. */
  lemma ChainPrefixSelects(e: Entity, chain: int)
    ensures HasPrefix(Ref(e), ChainPrefix(chain)) <==> e.chain == chain
  {
    PartsHaveNoColons(e);
    DecimalHasNoColon(chain);
    var fields := [Decimal(chain)];
    PrefixSelectsFields(fields, Parts(e));
    assert Join(fields) + ":" == ChainPrefix(chain);
    assert Parts(e)[..1] == [Decimal(e.chain)];
    if Decimal(e.chain) == Decimal(chain) {
      DecimalInjective(e.chain, chain);
    }
  }

  /** The token prefix selects exactly the transfers of that chain and token. */
  lemma TokenPrefixSelects(e: Entity, chain: int, token: Address)
    requires e.TransferLog?
    ensures HasPrefix(Ref(e), TokenPrefix(chain, token)) <==> e.chain == chain && e.token == token
  {
    PartsHaveNoColons(e);
    DecimalHasNoColon(chain);
    HexHasNoColon(token.raw);
    var fields := [Decimal(chain), Hex(token.raw)];
    PrefixSelectsFields(fields, Parts(e));
    assert fields[1..] == [Hex(token.raw)];
    assert Join(fields) + ":" == TokenPrefix(chain, token);
    assert Parts(e)[..2] == [Decimal(e.chain), Hex(e.token.raw)];
    if Parts(e)[..2] == fields {
      assert Parts(e)[..2][0] == fields[0] && Parts(e)[..2][1] == fields[1];
      DecimalInjective(e.chain, chain);
      HexInjective(e.token.raw, token.raw);
    }
  }
}
