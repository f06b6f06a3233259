/** Two decoders of the same escrow logs: the poller reads bytes, the webhook reads hexadecimal text
    (indexer/escrow_indexer.go, api/handlers/webhook.go, abi/escrow_abi.go). */
module EscrowDecoders {
  import opened Evm
  import opened Words
  import opened Text

  const TOPIC_ESCROW_CREATED: Hash := Hash(
    [0x94, 0x05, 0xad, 0x0a, 0x62, 0x08, 0x53, 0x98] + [0x79, 0x34, 0x92, 0x84, 0xd7, 0x12, 0x65, 0x47]
    + [0x9b, 0x16, 0x23, 0x84, 0x6f, 0x70, 0x30, 0x3d] + [0xa1, 0xf9, 0x89, 0x0d, 0x6e, 0x8c, 0x10, 0xa7])

  const TOPIC_ESCROW_RELEASED: Hash := Hash(
    [0x10, 0xce, 0x17, 0xae, 0x7e, 0x78, 0xeb, 0x77] + [0x5b, 0x13, 0x18, 0x2e, 0xa6, 0x18, 0xb2, 0x01]
    + [0xc2, 0xc8, 0x1a, 0xfc, 0x8f, 0xee, 0x55, 0xc2] + [0x87, 0x29, 0x1f, 0x86, 0x86, 0xf1, 0x7e, 0xac])

  const TOPIC_ESCROW_REFUNDED: Hash := Hash(
    [0x8e, 0x09, 0xfe, 0xd7, 0x62, 0x3a, 0xd9, 0xf8] + [0xd5, 0xa7, 0x01, 0xdd, 0x9f, 0x32, 0x33, 0x19]
    + [0x71, 0x47, 0xd0, 0x04, 0x3c, 0x56, 0x4d, 0xfb] + [0x1a, 0x6c, 0x00, 0x23, 0xab, 0x56, 0x8c, 0x20])

  const TOPIC_DISPUTE_RESOLVED: Hash := Hash(
    [0xdf, 0x0b, 0xaf, 0x54, 0x89, 0x59, 0x5e, 0xa1] + [0x7a, 0x09, 0x7d, 0x16, 0x82, 0x7d, 0x60, 0x79]
    + [0x3e, 0x2f, 0x57, 0xf3, 0xb8, 0x5a, 0x98, 0x2e] + [0x5d, 0x7e, 0x02, 0x83, 0x8b, 0x84, 0x1e, 0xe6])

  const TOPIC_DELIVERY_ACKNOWLEDGED: Hash := Hash(
    [0x56, 0xf3, 0x74, 0xd5, 0x42, 0xae, 0x03, 0x66] + [0x9d, 0x32, 0xab, 0x9d, 0xef, 0xbe, 0xbf, 0xc8]
    + [0x7c, 0xfe, 0x94, 0xf6, 0xcf, 0x83, 0xf4, 0x6c] + [0xdb, 0x60, 0x82, 0x2b, 0x74, 0x4a, 0xf8, 0x92])

  const TOPIC_DISPUTE_RAISED: Hash := Hash(
    [0xe0, 0xe5, 0x8e, 0x9c, 0xc5, 0xed, 0x7e, 0xf0] + [0x92, 0xd3, 0xe1, 0x4c, 0xff, 0x61, 0x36, 0xd2]
    + [0x3e, 0xbf, 0x75, 0xa1, 0x6c, 0xf3, 0xc8, 0x25] + [0x7e, 0xf8, 0x80, 0x48, 0x11, 0xd8, 0xb0, 0xf3])

  datatype EscrowEvent =
    | EscrowCreated | EscrowReleased | EscrowRefunded | DisputeResolved | DeliveryAcknowledged | DisputeRaised

  function EventByTopic(topic: Hash): Option<EscrowEvent> {
    if topic == TOPIC_ESCROW_CREATED then Some(EscrowCreated)
    else if topic == TOPIC_ESCROW_RELEASED then Some(EscrowReleased)
    else if topic == TOPIC_ESCROW_REFUNDED then Some(EscrowRefunded)
    else if topic == TOPIC_DISPUTE_RESOLVED then Some(DisputeResolved)
    else if topic == TOPIC_DELIVERY_ACKNOWLEDGED then Some(DeliveryAcknowledged)
    else if topic == TOPIC_DISPUTE_RAISED then Some(DisputeRaised)
    else None
  }

  // ---- Numbers ---------------------------------------------------------------------------------------------

  function BigEndian(bytes: seq<byte>): nat {
    if bytes == [] then 0 else 256 * BigEndian(bytes[..|bytes| - 1]) + bytes[|bytes| - 1] as int
  }

  predicate AllHex(s: string) {
    forall i :: 0 <= i < |s| ==> HexValue(s[i]).Some?
  }

  /** The number a text of hexadecimal digits denotes. */
  function HexNumber(s: string): nat
    requires AllHex(s)
  {
    if s == [] then 0 else 16 * HexNumber(s[..|s| - 1]) + HexValue(s[|s| - 1]).value
  }

  /** digits spells bytes, two digits a byte, in either case. */
  predicate Spells(digits: string, bytes: seq<byte>) {
    && |digits| == 2 * |bytes|
    && forall i :: 0 <= i < |bytes| ==>
         HexValue(digits[2 * i]) == Some(bytes[i] as int / 16) && HexValue(digits[2 * i + 1]) == Some(bytes[i] as int % 16)
  }

  lemma SpellsInit(digits: string, bytes: seq<byte>)
    requires Spells(digits, bytes) && bytes != []
    ensures Spells(digits[..|digits| - 2], bytes[..|bytes| - 1])
    ensures var n := |digits|; var last := bytes[|bytes| - 1] as int;
            HexValue(digits[n - 2]) == Some(last / 16) && HexValue(digits[n - 1]) == Some(last % 16)
  {
    assert digits[2 * (|bytes| - 1)] == digits[|digits| - 2];
  }

  /** The hexadecimal value is the big-endian value. */
  lemma {:induction false} HexNumberIsBigEndian(digits: string, bytes: seq<byte>)
    requires Spells(digits, bytes)
    ensures AllHex(digits) && HexNumber(digits) == BigEndian(bytes)
    decreases |bytes|
  {
    if bytes != [] {
      SpellsInit(digits, bytes);
      var (front, init) := (digits[..|digits| - 2], bytes[..|bytes| - 1]);
      HexNumberIsBigEndian(front, init);
      var last := bytes[|bytes| - 1] as int;
      assert AllHex(digits) by {
        forall i | 0 <= i < |digits|
          ensures HexValue(digits[i]).Some?
        {
          if i < |front| {
            assert front[i] == digits[i];
          }
        }
      }
      var longer := digits[..|digits| - 1];
      assert longer[..|longer| - 1] == front && longer[|longer| - 1] == digits[|digits| - 2];
      assert HexNumber(longer) == 16 * HexNumber(front) + last / 16;
      assert HexNumber(digits) == 16 * HexNumber(longer) + last % 16;
    }
  }

  // ---- The text helpers of the webhook -----------------------------------------------------------------------

  function TrimPrefix(s: string, prefix: string): string {
    if prefix <= s then s[|prefix|..] else s
  }

  /** An optional sign and at least one hexadecimal digit. */
  function ParseBase16(s: string): Option<int> {
    var negative := s != [] && s[0] == '-';
    var digits := if s != [] && (s[0] == '-' || s[0] == '+') then s[1..] else s;
    if digits == [] || !AllHex(digits) then None
    else Some(if negative then 0 - HexNumber(digits) else HexNumber(digits))
  }

  function ParseBigIntHex(s: string): Option<int> {
    ParseBase16(TrimPrefix(TrimPrefix(s, "0x"), "0X"))
  }

  /** Decodes pairs of digits up to the first one that is not hexadecimal. */
  function DecodePairs(s: string): seq<byte>
    decreases |s|
  {
    if |s| < 2 || HexValue(s[0]).None? || HexValue(s[1]).None? then []
    else [(16 * HexValue(s[0]).value + HexValue(s[1]).value) as byte] + DecodePairs(s[2..])
  }

  function FromHex(s: string): seq<byte> {
    var digits := if "0x" <= s || "0X" <= s then s[2..] else s;
    DecodePairs(if |digits| % 2 == 1 then "0" + digits else digits)
  }

  /** The last n bytes, padded with zeros on the left. */
  function Fit(bytes: seq<byte>, n: nat): seq<byte> {
    if |bytes| >= n then bytes[|bytes| - n..] else seq(n - |bytes|, i => 0) + bytes
  }

  function HexToHash(s: string): Hash {
    Hash(Fit(FromHex(s), 32))
  }

  function HexToAddress(s: string): Address {
    Address(Fit(FromHex(s), 20))
  }

  function BytesToAddress(bytes: seq<byte>): Address {
    Address(Fit(bytes, 20))
  }

  lemma {:induction false} DecodePairsSpelled(digits: string, bytes: seq<byte>)
    requires Spells(digits, bytes)
    ensures DecodePairs(digits) == bytes
    decreases |bytes|
  {
    if bytes != [] {
      assert digits[2 * 0] == digits[0] && digits[2 * 0 + 1] == digits[1];
      var rest := digits[2..];
      forall i | 0 <= i < |bytes[1..]|
        ensures HexValue(rest[2 * i]) == Some(bytes[1..][i] as int / 16) && HexValue(rest[2 * i + 1]) == Some(bytes[1..][i] as int % 16)
      {
        assert rest[2 * i] == digits[2 * (i + 1)] && rest[2 * i + 1] == digits[2 * (i + 1) + 1];
      }
      DecodePairsSpelled(rest, bytes[1..]);
      assert bytes == [bytes[0]] + bytes[1..];
    }
  }

  /** text is the hexadecimal form of bytes. */
  predicate Renders(text: string, bytes: seq<byte>) {
    |text| >= 2 && text[..2] == "0x" && Spells(text[2..], bytes)
  }

  lemma FromHexOfRendering(text: string, bytes: seq<byte>)
    requires Renders(text, bytes)
    ensures FromHex(text) == bytes
  {
    assert text == "0x" + text[2..];
    DecodePairsSpelled(text[2..], bytes);
  }

  /** A topic has 32 bytes, so its text starts with a digit, never with a sign or a second prefix. */
  lemma ParseOfRendering(text: string, bytes: seq<byte>)
    requires Renders(text, bytes) && bytes != []
    ensures ParseBigIntHex(text) == Some(BigEndian(bytes))
  {
    var digits := text[2..];
    assert text == "0x" + digits;
    assert HexValue(digits[2 * 0]).Some? && HexValue(digits[2 * 0 + 1]).Some?;
    assert !("0X" <= digits);
    HexNumberIsBigEndian(digits, bytes);
  }

  // ---- What a log means ----------------------------------------------------------------------------------------

  /** A log as the node delivers it. */
  datatype RawLog = RawLog(topics: seq<Hash>, data: seq<byte>)

  /** The same log in a webhook payload. */
  datatype TextLog = TextLog(topics: seq<string>, data: string)

  /** The entries of the raw data of an event. */
  datatype Field =
    | EscrowId | Buyer | Seller | Winner | RaisedBy | Amount | AmountReleased | DeliveryTime | DisputeFee

  datatype Value = Number(n: int) | Wallet(address: Address)

  /** A decoded log; event is None for "Unknown". */
  datatype Decoded = Decoded(event: Option<EscrowEvent>, escrowId: Option<int>, amount: Option<int>, rawData: map<Field, Value>)

  /** The indexed addresses after the escrow id. */
  function WalletFields(e: EscrowEvent): seq<Field> {
    match e
    case EscrowCreated => [Buyer, Seller]
    case DisputeResolved => [Winner]
    case DisputeRaised => [RaisedBy]
    case _ => []
  }

  /** The entries that hold the first data word. */
  function WordFields(e: EscrowEvent): seq<Field> {
    match e
    case DisputeResolved => [AmountReleased, Amount]
    case DeliveryAcknowledged => [DeliveryTime]
    case DisputeRaised => [DisputeFee]
    case _ => [Amount]
  }

  /** Adds an entry when there is both a field and a value for it. */
  function Put(rawData: map<Field, Value>, fields: seq<Field>, i: nat, value: Option<Value>): map<Field, Value> {
    if i < |fields| && value.Some? then rawData[fields[i] := value.value] else rawData
  }

  function NumberOf(n: Option<int>): Option<Value> {
    if n.Some? then Some(Number(n.value)) else None
  }

  function WalletOf(wallet: Option<Address>): Option<Value> {
    if wallet.Some? then Some(Wallet(wallet.value)) else None
  }

  function FirstWord(data: seq<byte>): Option<int> {
    if |data| >= 32 then Some(BigEndian(data[..32])) else None
  }

  function IdEntry(id: Option<int>): map<Field, Value> {
    Put(map[], [EscrowId], 0, NumberOf(id))
  }

  /** The event with an id, its first two addresses and its data. */
  function Assemble(e: EscrowEvent, id: Option<int>, first: Option<Address>, second: Option<Address>, word: Option<int>): Decoded {
    var withWallets := Put(Put(IdEntry(id), WalletFields(e), 0, WalletOf(first)), WalletFields(e), 1, WalletOf(second));
    Decoded(Some(e), id, if Amount in WordFields(e) then word else None,
            Put(Put(withWallets, WordFields(e), 0, NumberOf(word)), WordFields(e), 1, NumberOf(word)))
  }

  function WalletTopic(log: RawLog, i: nat): Option<Address> {
    if i < |log.topics| then Some(BytesToAddress(log.topics[i].raw)) else None
  }

  /** The meaning of a log of a known event, whatever its topic count and data length. */
  function Meaning(e: EscrowEvent, log: RawLog): Decoded {
    Assemble(e, IdTopic(log), WalletTopic(log, 2), WalletTopic(log, 3), FirstWord(log.data))
  }

  /** The payload of a log: every topic in full, in either case; empty data may be left out. */
  predicate RendersLog(text: TextLog, log: RawLog) {
    && |text.topics| == |log.topics|
    && (forall i :: 0 <= i < |log.topics| ==> |log.topics[i].raw| == 32 && Renders(text.topics[i], log.topics[i].raw))
    && (if log.data == [] then text.data == "" || text.data == "0x" else Renders(text.data, log.data))
  }

  /** What the webhook makes of any payload, well formed or not. */
  function TextMeaning(text: TextLog): Decoded {
    var id := if |text.topics| > 1 then ParseBigIntHex(text.topics[1]) else None;
    var event := if text.topics == [] then None else EventByTopic(HexToHash(text.topics[0]));
    match event
    case None => Decoded(None, id, None, IdEntry(id))
    case Some(e) => Assemble(e, id, TextWalletTopic(text, 2), TextWalletTopic(text, 3), FirstWord(FromHex(text.data)))
  }

  function TextWalletTopic(text: TextLog, i: nat): Option<Address> {
    if i < |text.topics| then Some(HexToAddress(text.topics[i])) else None
  }

  function IdTopic(log: RawLog): Option<int> {
    if |log.topics| > 1 then Some(BigEndian(log.topics[1].raw)) else None
  }

  function EventOf(log: RawLog): Option<EscrowEvent> {
    if log.topics == [] then None else EventByTopic(log.topics[0])
  }

  /** The meaning of any log; a log without a known topic is "Unknown" and has at most an id. */
  function MeaningOfAny(log: RawLog): Decoded {
    match EventOf(log)
    case Some(e) => Meaning(e, log)
    case None => Decoded(None, IdTopic(log), None, IdEntry(IdTopic(log)))
  }

  /** Agreement: whatever the topic count, the data length and the case of the digits, the webhook decodes the text of a
      log with a known topic to what the poller decodes from its bytes, and any other log to an "Unknown" event. */
  lemma DecodersAgree(text: TextLog, log: RawLog)
    requires RendersLog(text, log)
    ensures TextMeaning(text) == MeaningOfAny(log)
  {
    hide FromHex, ParseBigIntHex, Renders, EventByTopic, BigEndian, Assemble, Fit;
    TopicsAgree(text, log);
    DataAgrees(text, log);
  }

  lemma TopicsAgree(text: TextLog, log: RawLog)
    requires RendersLog(text, log)
    ensures forall i :: 0 <= i < |log.topics| ==>
              && FromHex(text.topics[i]) == log.topics[i].raw && HexToHash(text.topics[i]) == log.topics[i]
              && ParseBigIntHex(text.topics[i]) == Some(BigEndian(log.topics[i].raw))
  {
    hide FromHex, ParseBigIntHex, Renders, BigEndian;
    forall i | 0 <= i < |log.topics|
      ensures FromHex(text.topics[i]) == log.topics[i].raw && HexToHash(text.topics[i]) == log.topics[i]
      ensures ParseBigIntHex(text.topics[i]) == Some(BigEndian(log.topics[i].raw))
    {
      FromHexOfRendering(text.topics[i], log.topics[i].raw);
      ParseOfRendering(text.topics[i], log.topics[i].raw);
    }
  }

  lemma DataAgrees(text: TextLog, log: RawLog)
    requires RendersLog(text, log)
    ensures FromHex(text.data) == log.data
  {
    if log.data != [] {
      FromHexOfRendering(text.data, log.data);
    }
  }

  // ---- What the results say, topic by topic and field by field -----------------------------------------------------

  /** The canonical topic of each event, as the ABI file writes it. */
  function TopicNumber(e: EscrowEvent): nat {
    match e
    case EscrowCreated => 0x9405ad0a6208539879349284d71265479b1623846f70303da1f9890d6e8c10a7
    case EscrowReleased => 0x10ce17ae7e78eb775b13182ea618b201c2c81afc8fee55c287291f8686f17eac
    case EscrowRefunded => 0x8e09fed7623ad9f8d5a701dd9f3233197147d0043c564dfb1a6c0023ab568c20
    case DisputeResolved => 0xdf0baf5489595ea17a097d16827d60793e2f57f3b85a982e5d7e02838b841ee6
    case DeliveryAcknowledged => 0x56f374d542ae03669d32ab9defbebfc87cfe94f6cf83f46cdb60822b744af892
    case DisputeRaised => 0xe0e58e9cc5ed7ef092d3e14cff6136d23ebf75a16cf3c8257ef8804811d8b0f3
  }

  function Pow256(n: nat): nat {
    if n == 0 then 1 else 256 * Pow256(n - 1)
  }

  lemma {:induction false} BigEndianConcat(a: seq<byte>, b: seq<byte>)
    ensures BigEndian(a + b) == BigEndian(a) * Pow256(|b|) + BigEndian(b)
  {
    if b == [] {
      assert a + b == a;
    } else {
      var (init, last) := (b[..|b| - 1], b[|b| - 1]);
      assert (a + b)[..|a + b| - 1] == a + init;
      BigEndianConcat(a, init);
      assert BigEndian(a) * Pow256(|b|) == 256 * (BigEndian(a) * Pow256(|init|));
    }
  }

  /** Bytes of one length are told apart by their number. */
  lemma {:induction false} BigEndianInjective(a: seq<byte>, b: seq<byte>)
    requires |a| == |b| && BigEndian(a) == BigEndian(b)
    ensures a == b
  {
    if a != [] {
      BigEndianInjective(a[..|a| - 1], b[..|b| - 1]);
      assert a == a[..|a| - 1] + [a[|a| - 1]] && b == b[..|b| - 1] + [b[|b| - 1]];
    }
  }

  lemma BigEndianOfEight(a: byte, b: byte, c: byte, d: byte, e: byte, f: byte, g: byte, h: byte)
    ensures BigEndian([a, b, c, d, e, f, g, h]) ==
              0x100_0000_0000_0000 * a as int + 0x1_0000_0000_0000 * b as int + 0x100_0000_0000 * c as int + 0x1_0000_0000 * d as int
              + 0x100_0000 * e as int + 0x1_0000 * f as int + 0x100 * g as int + h as int
  {
    BigEndianOfFour(a, b, c, d);
    BigEndianOfFour(e, f, g, h);
    BigEndianConcat([a, b, c, d], [e, f, g, h]);
    assert [a, b, c, d, e, f, g, h] == [a, b, c, d] + [e, f, g, h];
    PowerOfEight();
  }

  lemma BigEndianOfFour(a: byte, b: byte, c: byte, d: byte)
    ensures BigEndian([a, b, c, d]) == 0x100_0000 * a as int + 0x1_0000 * b as int + 0x100 * c as int + d as int
  {
    assert [a, b, c, d][..3] == [a, b, c] && [a, b, c][..2] == [a, b] && [a, b][..1] == [a] && [a][..0] == [];
    assert BigEndian([a]) == a as int;
    assert BigEndian([a, b]) == 256 * a as int + b as int;
    assert BigEndian([a, b, c]) == 256 * (256 * a as int + b as int) + c as int;
  }

  lemma BigEndianOfWords(a: seq<byte>, b: seq<byte>, c: seq<byte>, d: seq<byte>)
    requires |a| == |b| == |c| == |d| == 8
    ensures BigEndian(a + b + c + d) ==
              0x1_0000_0000_0000_0000 * (0x1_0000_0000_0000_0000 * (0x1_0000_0000_0000_0000 * BigEndian(a) + BigEndian(b)) + BigEndian(c)) + BigEndian(d)
  {
    hide BigEndian;
    BigEndianThenEight(a + b + c, d);
    BigEndianThenEight(a + b, c);
    BigEndianThenEight(a, b);
  }

  lemma BigEndianThenEight(a: seq<byte>, b: seq<byte>)
    requires |b| == 8
    ensures BigEndian(a + b) == 0x1_0000_0000_0000_0000 * BigEndian(a) + BigEndian(b)
  {
    hide BigEndian;
    BigEndianConcat(a, b);
    PowerOfEight();
  }

  lemma PowerOfEight()
    ensures Pow256(4) == 0x1_0000_0000 && Pow256(8) == 0x1_0000_0000_0000_0000
  {
    assert Pow256(2) == 0x1_0000;
    assert Pow256(4) == 0x1_0000_0000;
    assert Pow256(6) == 0x1_0000_0000_0000;
  }

  lemma EscrowCreatedTopic()
    ensures BigEndian(TOPIC_ESCROW_CREATED.raw) == TopicNumber(EscrowCreated) && |TOPIC_ESCROW_CREATED.raw| == 32
  {
    hide BigEndian;
    BigEndianOfEight(0x94, 0x05, 0xad, 0x0a, 0x62, 0x08, 0x53, 0x98);
    BigEndianOfEight(0x79, 0x34, 0x92, 0x84, 0xd7, 0x12, 0x65, 0x47);
    BigEndianOfEight(0x9b, 0x16, 0x23, 0x84, 0x6f, 0x70, 0x30, 0x3d);
    BigEndianOfEight(0xa1, 0xf9, 0x89, 0x0d, 0x6e, 0x8c, 0x10, 0xa7);
    BigEndianOfWords([0x94, 0x05, 0xad, 0x0a, 0x62, 0x08, 0x53, 0x98], [0x79, 0x34, 0x92, 0x84, 0xd7, 0x12, 0x65, 0x47],
                     [0x9b, 0x16, 0x23, 0x84, 0x6f, 0x70, 0x30, 0x3d], [0xa1, 0xf9, 0x89, 0x0d, 0x6e, 0x8c, 0x10, 0xa7]);
  }

  lemma EscrowReleasedTopic()
    ensures BigEndian(TOPIC_ESCROW_RELEASED.raw) == TopicNumber(EscrowReleased) && |TOPIC_ESCROW_RELEASED.raw| == 32
  {
    hide BigEndian;
    BigEndianOfEight(0x10, 0xce, 0x17, 0xae, 0x7e, 0x78, 0xeb, 0x77);
    BigEndianOfEight(0x5b, 0x13, 0x18, 0x2e, 0xa6, 0x18, 0xb2, 0x01);
    BigEndianOfEight(0xc2, 0xc8, 0x1a, 0xfc, 0x8f, 0xee, 0x55, 0xc2);
    BigEndianOfEight(0x87, 0x29, 0x1f, 0x86, 0x86, 0xf1, 0x7e, 0xac);
    BigEndianOfWords([0x10, 0xce, 0x17, 0xae, 0x7e, 0x78, 0xeb, 0x77], [0x5b, 0x13, 0x18, 0x2e, 0xa6, 0x18, 0xb2, 0x01],
                     [0xc2, 0xc8, 0x1a, 0xfc, 0x8f, 0xee, 0x55, 0xc2], [0x87, 0x29, 0x1f, 0x86, 0x86, 0xf1, 0x7e, 0xac]);
  }

  lemma EscrowRefundedTopic()
    ensures BigEndian(TOPIC_ESCROW_REFUNDED.raw) == TopicNumber(EscrowRefunded) && |TOPIC_ESCROW_REFUNDED.raw| == 32
  {
    hide BigEndian;
    BigEndianOfEight(0x8e, 0x09, 0xfe, 0xd7, 0x62, 0x3a, 0xd9, 0xf8);
    BigEndianOfEight(0xd5, 0xa7, 0x01, 0xdd, 0x9f, 0x32, 0x33, 0x19);
    BigEndianOfEight(0x71, 0x47, 0xd0, 0x04, 0x3c, 0x56, 0x4d, 0xfb);
    BigEndianOfEight(0x1a, 0x6c, 0x00, 0x23, 0xab, 0x56, 0x8c, 0x20);
    BigEndianOfWords([0x8e, 0x09, 0xfe, 0xd7, 0x62, 0x3a, 0xd9, 0xf8], [0xd5, 0xa7, 0x01, 0xdd, 0x9f, 0x32, 0x33, 0x19],
                     [0x71, 0x47, 0xd0, 0x04, 0x3c, 0x56, 0x4d, 0xfb], [0x1a, 0x6c, 0x00, 0x23, 0xab, 0x56, 0x8c, 0x20]);
  }

  lemma DisputeResolvedTopic()
    ensures BigEndian(TOPIC_DISPUTE_RESOLVED.raw) == TopicNumber(DisputeResolved) && |TOPIC_DISPUTE_RESOLVED.raw| == 32
  {
    hide BigEndian;
    BigEndianOfEight(0xdf, 0x0b, 0xaf, 0x54, 0x89, 0x59, 0x5e, 0xa1);
    BigEndianOfEight(0x7a, 0x09, 0x7d, 0x16, 0x82, 0x7d, 0x60, 0x79);
    BigEndianOfEight(0x3e, 0x2f, 0x57, 0xf3, 0xb8, 0x5a, 0x98, 0x2e);
    BigEndianOfEight(0x5d, 0x7e, 0x02, 0x83, 0x8b, 0x84, 0x1e, 0xe6);
    BigEndianOfWords([0xdf, 0x0b, 0xaf, 0x54, 0x89, 0x59, 0x5e, 0xa1], [0x7a, 0x09, 0x7d, 0x16, 0x82, 0x7d, 0x60, 0x79],
                     [0x3e, 0x2f, 0x57, 0xf3, 0xb8, 0x5a, 0x98, 0x2e], [0x5d, 0x7e, 0x02, 0x83, 0x8b, 0x84, 0x1e, 0xe6]);
  }

  lemma DeliveryAcknowledgedTopic()
    ensures BigEndian(TOPIC_DELIVERY_ACKNOWLEDGED.raw) == TopicNumber(DeliveryAcknowledged) && |TOPIC_DELIVERY_ACKNOWLEDGED.raw| == 32
  {
    hide BigEndian;
    BigEndianOfEight(0x56, 0xf3, 0x74, 0xd5, 0x42, 0xae, 0x03, 0x66);
    BigEndianOfEight(0x9d, 0x32, 0xab, 0x9d, 0xef, 0xbe, 0xbf, 0xc8);
    BigEndianOfEight(0x7c, 0xfe, 0x94, 0xf6, 0xcf, 0x83, 0xf4, 0x6c);
    BigEndianOfEight(0xdb, 0x60, 0x82, 0x2b, 0x74, 0x4a, 0xf8, 0x92);
    BigEndianOfWords([0x56, 0xf3, 0x74, 0xd5, 0x42, 0xae, 0x03, 0x66], [0x9d, 0x32, 0xab, 0x9d, 0xef, 0xbe, 0xbf, 0xc8],
                     [0x7c, 0xfe, 0x94, 0xf6, 0xcf, 0x83, 0xf4, 0x6c], [0xdb, 0x60, 0x82, 0x2b, 0x74, 0x4a, 0xf8, 0x92]);
  }

  lemma DisputeRaisedTopic()
    ensures BigEndian(TOPIC_DISPUTE_RAISED.raw) == TopicNumber(DisputeRaised) && |TOPIC_DISPUTE_RAISED.raw| == 32
  {
    hide BigEndian;
    BigEndianOfEight(0xe0, 0xe5, 0x8e, 0x9c, 0xc5, 0xed, 0x7e, 0xf0);
    BigEndianOfEight(0x92, 0xd3, 0xe1, 0x4c, 0xff, 0x61, 0x36, 0xd2);
    BigEndianOfEight(0x3e, 0xbf, 0x75, 0xa1, 0x6c, 0xf3, 0xc8, 0x25);
    BigEndianOfEight(0x7e, 0xf8, 0x80, 0x48, 0x11, 0xd8, 0xb0, 0xf3);
    BigEndianOfWords([0xe0, 0xe5, 0x8e, 0x9c, 0xc5, 0xed, 0x7e, 0xf0], [0x92, 0xd3, 0xe1, 0x4c, 0xff, 0x61, 0x36, 0xd2],
                     [0x3e, 0xbf, 0x75, 0xa1, 0x6c, 0xf3, 0xc8, 0x25], [0x7e, 0xf8, 0x80, 0x48, 0x11, 0xd8, 0xb0, 0xf3]);
  }

  /** A topic is known exactly when it is one of the six, and each of them names its own event. */
  lemma EventByTopicReads(topic: Hash, e: EscrowEvent)
    ensures EventByTopic(topic) == Some(e) <==> |topic.raw| == 32 && BigEndian(topic.raw) == TopicNumber(e)
  {
    hide BigEndian;
    EscrowCreatedTopic();
    EscrowReleasedTopic();
    EscrowRefundedTopic();
    DisputeResolvedTopic();
    DeliveryAcknowledgedTopic();
    DisputeRaisedTopic();
    if |topic.raw| == 32 && BigEndian(topic.raw) == TopicNumber(e) {
      match e
      case EscrowCreated => BigEndianInjective(topic.raw, TOPIC_ESCROW_CREATED.raw);
      case EscrowReleased => BigEndianInjective(topic.raw, TOPIC_ESCROW_RELEASED.raw);
      case EscrowRefunded => BigEndianInjective(topic.raw, TOPIC_ESCROW_REFUNDED.raw);
      case DisputeResolved => BigEndianInjective(topic.raw, TOPIC_DISPUTE_RESOLVED.raw);
      case DeliveryAcknowledged => BigEndianInjective(topic.raw, TOPIC_DELIVERY_ACKNOWLEDGED.raw);
      case DisputeRaised => BigEndianInjective(topic.raw, TOPIC_DISPUTE_RAISED.raw);
    }
  }

  /** The entry of the raw data under a field: the escrow id, the addresses of topics 2 and 3, or the first data word. */
  function Entry(e: EscrowEvent, field: Field, id: Option<int>, second: Option<Address>, third: Option<Address>, word: Option<int>): Option<Value> {
    match field
    case EscrowId => NumberOf(id)
    case Buyer => if e == EscrowCreated then WalletOf(second) else None
    case Seller => if e == EscrowCreated then WalletOf(third) else None
    case Winner => if e == DisputeResolved then WalletOf(second) else None
    case RaisedBy => if e == DisputeRaised then WalletOf(second) else None
    case Amount => if e == EscrowCreated || e == EscrowReleased || e == EscrowRefunded || e == DisputeResolved then NumberOf(word) else None
    case AmountReleased => if e == DisputeResolved then NumberOf(word) else None
    case DeliveryTime => if e == DeliveryAcknowledged then NumberOf(word) else None
    case DisputeFee => if e == DisputeRaised then NumberOf(word) else None
  }

  predicate Reads(d: Decoded, e: EscrowEvent, id: Option<int>, second: Option<Address>, third: Option<Address>, word: Option<int>) {
    && d.event == Some(e) && d.escrowId == id
    && d.amount == (if e == DeliveryAcknowledged || e == DisputeRaised then None else word)
    && forall f :: (f in d.rawData <==> Entry(e, f, id, second, third, word).Some?)
                   && (f in d.rawData ==> d.rawData[f] == Entry(e, f, id, second, third, word).value)
  }

  lemma AssembleReads(e: EscrowEvent, id: Option<int>, first: Option<Address>, second: Option<Address>, word: Option<int>)
    ensures Reads(Assemble(e, id, first, second, word), e, id, first, second, word)
  {
  }

  function TopicWord(log: RawLog, i: nat): Option<int> {
    if i < |log.topics| then Some(BigEndian(log.topics[i].raw)) else None
  }

  function TopicAddress(log: RawLog, i: nat): Option<Address> {
    if i < |log.topics| then Some(BytesToAddress(log.topics[i].raw)) else None
  }

  function DataWord(data: seq<byte>): Option<int> {
    if |data| >= 32 then Some(BigEndian(data[..32])) else None
  }

  /** Topic 0 of the log is the topic of the event. */
  predicate HasTopic(log: RawLog, e: EscrowEvent) {
    log.topics != [] && |log.topics[0].raw| == 32 && TopicWord(log, 0) == Some(TopicNumber(e))
  }

  predicate HasTextTopic(log: TextLog, e: EscrowEvent) {
    log.topics != [] && BigEndian(HexToHash(log.topics[0]).raw) == TopicNumber(e)
  }

  function TextAddress(log: TextLog, i: nat): Option<Address> {
    if i < |log.topics| then Some(HexToAddress(log.topics[i])) else None
  }

  /** Every log: the event is that of topic 0, the id is topic 1, and the entries are those of the event. */
  lemma MeaningReads(log: RawLog)
    ensures forall e :: HasTopic(log, e) <==> EventOf(log) == Some(e)
    ensures forall e :: HasTopic(log, e) ==>
              Reads(MeaningOfAny(log), e, TopicWord(log, 1), TopicAddress(log, 2), TopicAddress(log, 3), DataWord(log.data))
  {
    hide BigEndian, EventByTopic, Assemble, TopicNumber, Reads, BytesToAddress;
    forall e
      ensures HasTopic(log, e) <==> EventOf(log) == Some(e)
    {
      if log.topics != [] {
        EventByTopicReads(log.topics[0], e);
      }
    }
    forall e | HasTopic(log, e)
      ensures Reads(MeaningOfAny(log), e, TopicWord(log, 1), TopicAddress(log, 2), TopicAddress(log, 3), DataWord(log.data))
    {
      AssembleReads(e, TopicWord(log, 1), TopicAddress(log, 2), TopicAddress(log, 3), DataWord(log.data));
    }
  }

  lemma TextMeaningReads(log: TextLog)
    ensures forall e :: HasTextTopic(log, e) <==> TextMeaning(log).event == Some(e)
    ensures forall e :: HasTextTopic(log, e) ==>
              Reads(TextMeaning(log), e, if |log.topics| > 1 then ParseBigIntHex(log.topics[1]) else None,
                    TextAddress(log, 2), TextAddress(log, 3), DataWord(FromHex(log.data)))
  {
    hide BigEndian, EventByTopic, TopicNumber, Reads, HexToAddress, ParseBigIntHex, FromHex;
    var id := if |log.topics| > 1 then ParseBigIntHex(log.topics[1]) else None;
    forall e
      ensures HasTextTopic(log, e) <==> TextMeaning(log).event == Some(e)
    {
      if log.topics != [] {
        EventByTopicReads(HexToHash(log.topics[0]), e);
      }
    }
    forall e | HasTextTopic(log, e)
      ensures Reads(TextMeaning(log), e, id, TextAddress(log, 2), TextAddress(log, 3), DataWord(FromHex(log.data)))
    {
      AssembleReads(e, id, TextAddress(log, 2), TextAddress(log, 3), DataWord(FromHex(log.data)));
    }
  }

  /** A log without a known topic has at most an id. */
  lemma UnknownReads(log: TextLog)
    requires forall e :: !HasTextTopic(log, e)
    ensures var (d, id) := (TextMeaning(log), if |log.topics| > 1 then ParseBigIntHex(log.topics[1]) else None);
            && d.event.None? && d.amount.None? && d.escrowId == id
            && d.rawData == if id.Some? then map[EscrowId := Number(id.value)] else map[]
  {
    hide BigEndian, EventByTopic, TopicNumber, HexToAddress, ParseBigIntHex, FromHex, HasTextTopic;
    TextMeaningReads(log);
  }

  /** An address is the last twenty bytes of its topic. */
  lemma AddressReads(topic: Hash)
    requires |topic.raw| == 32
    ensures BytesToAddress(topic.raw) == Address(topic.raw[12..]) && |BytesToAddress(topic.raw).raw| == 20
  {
  }

  // ---- The two decoders ------------------------------------------------------------------------------------------

  /** The poller: step by step from the bytes; a log without a known topic is rejected. */
  method DecodeLog(log: RawLog) returns (result: Result<Decoded>)
    ensures result == if EventOf(log).Some? then Ok(MeaningOfAny(log)) else Error
    ensures result.Ok? <==> exists e :: HasTopic(log, e)
    ensures forall e :: HasTopic(log, e) ==>
              Reads(result.value, e, TopicWord(log, 1), TopicAddress(log, 2), TopicAddress(log, 3), DataWord(log.data))
  {
    hide BigEndian, BytesToAddress, EventByTopic, HasTopic, Reads, TopicWord, TopicAddress, DataWord;
    MeaningReads(log);
    if |log.topics| == 0 {
      return Error;
    }
    var event := EventByTopic(log.topics[0]);
    if event.None? {
      return Error;
    }
    var rawData: map<Field, Value>, escrowId: Option<int>, amount: Option<int> := map[], None, None;
    if |log.topics| > 1 {
      var id := BigEndian(log.topics[1].raw);
      escrowId := Some(id);
      rawData := rawData[EscrowId := Number(id)];
    }
    match event.value {
      case EscrowCreated =>
        if |log.topics| > 2 {
          rawData := rawData[Buyer := Wallet(BytesToAddress(log.topics[2].raw))];
        }
        if |log.topics| > 3 {
          rawData := rawData[Seller := Wallet(BytesToAddress(log.topics[3].raw))];
        }
        if |log.data| >= 32 {
          amount := Some(BigEndian(log.data[..32]));
          rawData := rawData[Amount := Number(amount.value)];
        }
      case EscrowReleased =>
        if |log.data| >= 32 {
          amount := Some(BigEndian(log.data[..32]));
          rawData := rawData[Amount := Number(amount.value)];
        }
      case EscrowRefunded =>
        if |log.data| >= 32 {
          amount := Some(BigEndian(log.data[..32]));
          rawData := rawData[Amount := Number(amount.value)];
        }
      case DisputeResolved =>
        if |log.topics| > 2 {
          rawData := rawData[Winner := Wallet(BytesToAddress(log.topics[2].raw))];
        }
        if |log.data| >= 32 {
          amount := Some(BigEndian(log.data[..32]));
          rawData := rawData[AmountReleased := Number(amount.value)][Amount := Number(amount.value)];
        }
      case DeliveryAcknowledged =>
        if |log.data| >= 32 {
          rawData := rawData[DeliveryTime := Number(BigEndian(log.data[..32]))];
        }
      case DisputeRaised =>
        if |log.topics| > 2 {
          rawData := rawData[RaisedBy := Wallet(BytesToAddress(log.topics[2].raw))];
        }
        if |log.data| >= 32 {
          rawData := rawData[DisputeFee := Number(BigEndian(log.data[..32]))];
        }
    }
    result := Ok(Decoded(event, escrowId, amount, rawData));
  }

  /** The webhook: the same steps on text; it never rejects a log. */
  method DecodeAlchemyLog(log: TextLog) returns (decoded: Decoded)
    ensures decoded == TextMeaning(log)
    ensures decoded.event.Some? <==> exists e :: HasTextTopic(log, e)
    ensures forall e :: HasTextTopic(log, e) ==>
              Reads(decoded, e, if |log.topics| > 1 then ParseBigIntHex(log.topics[1]) else None,
                    TextAddress(log, 2), TextAddress(log, 3), DataWord(FromHex(log.data)))
  {
    hide BigEndian, HexToHash, HexToAddress, ParseBigIntHex, EventByTopic, FromHex, HasTextTopic, Reads, TextAddress, DataWord;
    TextMeaningReads(log);
    var rawData: map<Field, Value>, escrowId: Option<int>, amount: Option<int> := map[], None, None;
    if |log.topics| == 0 {
      return Decoded(None, None, None, rawData);
    }
    if |log.topics| > 1 {
      escrowId := ParseBigIntHex(log.topics[1]);
      if escrowId.Some? {
        rawData := rawData[EscrowId := Number(escrowId.value)];
      }
    }
    var event := EventByTopic(HexToHash(log.topics[0]));
    if event.None? {
      return Decoded(None, escrowId, None, rawData);
    }
    NoBytesInEmptyData();
    var word: Option<int> := None;
    if log.data != "" && log.data != "0x" {
      var dataBytes := FromHex(log.data);
      if |dataBytes| >= 32 {
        word := Some(BigEndian(dataBytes[..32]));
      }
    }
    match event.value {
      case EscrowCreated =>
        if |log.topics| > 2 {
          rawData := rawData[Buyer := Wallet(HexToAddress(log.topics[2]))];
        }
        if |log.topics| > 3 {
          rawData := rawData[Seller := Wallet(HexToAddress(log.topics[3]))];
        }
        if word.Some? {
          amount, rawData := word, rawData[Amount := Number(word.value)];
        }
      case EscrowReleased =>
        if word.Some? {
          amount, rawData := word, rawData[Amount := Number(word.value)];
        }
      case EscrowRefunded =>
        if word.Some? {
          amount, rawData := word, rawData[Amount := Number(word.value)];
        }
      case DisputeResolved =>
        if |log.topics| > 2 {
          rawData := rawData[Winner := Wallet(HexToAddress(log.topics[2]))];
        }
        if word.Some? {
          amount, rawData := word, rawData[AmountReleased := Number(word.value)][Amount := Number(word.value)];
        }
      case DeliveryAcknowledged =>
        if word.Some? {
          rawData := rawData[DeliveryTime := Number(word.value)];
        }
      case DisputeRaised =>
        if |log.topics| > 2 {
          rawData := rawData[RaisedBy := Wallet(HexToAddress(log.topics[2]))];
        }
        if word.Some? {
          rawData := rawData[DisputeFee := Number(word.value)];
        }
    }
    decoded := Decoded(event, escrowId, amount, rawData);
  }

  lemma NoBytesInEmptyData()
    ensures FromHex("") == [] && FromHex("0x") == []
  {
    assert "0x"[2..] == "";
  }
}
