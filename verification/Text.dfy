/** Text formats: decimal and hexadecimal renderings, and fields joined by colons. */
module Text {
  import opened Evm
  import opened Words

  // ---- Hexadecimal -------------------------------------------------------------------------------

  function HexDigit(d: nat): char
    requires d < 16
  {
    "0123456789abcdef"[d]
  }

  /** The value of a hexadecimal digit in either case. */
  function HexValue(c: char): Option<nat> {
    if '0' <= c <= '9' then Some(c as int - '0' as int)
    else if 'a' <= c <= 'f' then Some(c as int - 'a' as int + 10)
    else if 'A' <= c <= 'F' then Some(c as int - 'A' as int + 10)
    else None
  }

  lemma HexDigitValue(d: nat)
    requires d < 16
    ensures HexValue(HexDigit(d)) == Some(d) && HexDigit(d) != ':' && HexDigit(d) != 'x' && HexDigit(d) != 'X'
  {
  }

  function HexOf(bytes: seq<byte>): string {
    if bytes == [] then []
    else [HexDigit(bytes[0] as int / 16), HexDigit(bytes[0] as int % 16)] + HexOf(bytes[1..])
  }

  lemma {:induction false} HexOfInjective(a: seq<byte>, b: seq<byte>)
    requires HexOf(a) == HexOf(b)
    ensures a == b
  {
    HexOfLength(a);
    HexOfLength(b);
    if a != [] {
      HexOfCons(a);
      HexOfCons(b);
      HexOfInjective(a[1..], b[1..]);
      assert a[0] as int == b[0] as int;
      assert a == [a[0]] + a[1..] && b == [b[0]] + b[1..];
    }
  }

  lemma {:induction false} HexOfLength(a: seq<byte>)
    ensures |HexOf(a)| == 2 * |a|
  {
    if a != [] {
      HexOfLength(a[1..]);
    }
  }

  /** Two digits a byte, the high one first, in lower case. */
  lemma {:induction false} HexOfReads(a: seq<byte>, i: nat)
    requires i < |a|
    ensures |HexOf(a)| == 2 * |a|
    ensures HexOf(a)[2 * i] == "0123456789abcdef"[a[i] as int / 16] && HexOf(a)[2 * i + 1] == "0123456789abcdef"[a[i] as int % 16]
  {
    HexOfLength(a);
    if i > 0 {
      HexOfReads(a[1..], i - 1);
      HexOfCons(a);
      assert HexOf(a)[2..][2 * (i - 1)] == HexOf(a)[2 * i] && HexOf(a)[2..][2 * (i - 1) + 1] == HexOf(a)[2 * i + 1];
    }
  }

  lemma HexOfCons(a: seq<byte>)
    requires a != []
    ensures |HexOf(a)| >= 2 && HexOf(a)[2..] == HexOf(a[1..])
    ensures HexValue(HexOf(a)[0]) == Some(a[0] as int / 16) && HexValue(HexOf(a)[1]) == Some(a[0] as int % 16)
  {
    HexDigitValue(a[0] as int / 16);
    HexDigitValue(a[0] as int % 16);
  }

  // ---- Decimal -----------------------------------------------------------------------------------

  function DecimalDigit(d: nat): char
    requires d < 10
  {
    "0123456789"[d]
  }

  function DecimalNat(n: nat): string {
    if n < 10 then [DecimalDigit(n)] else DecimalNat(n / 10) + [DecimalDigit(n % 10)]
  }

  function Decimal(n: int): string {
    if n < 0 then "-" + DecimalNat(-n) else DecimalNat(n)
  }

  /** Reading a decimal text back. */
  function DecimalValue(s: string): nat
  {
    if s == [] then 0
    else 10 * DecimalValue(s[..|s| - 1]) + (if '0' <= s[|s| - 1] <= '9' then s[|s| - 1] as int - '0' as int else 0)
  }

  lemma {:induction false} DecimalNatRoundTrip(n: nat)
    ensures DecimalValue(DecimalNat(n)) == n && DecimalNat(n) != []
    ensures forall i :: 0 <= i < |DecimalNat(n)| ==> '0' <= DecimalNat(n)[i] <= '9'
  {
    if n >= 10 {
      DecimalNatRoundTrip(n / 10);
      var s := DecimalNat(n);
      assert s[..|s| - 1] == DecimalNat(n / 10);
    } else {
      var s := DecimalNat(n);
      assert s[..|s| - 1] == [];
    }
  }

  /** A minus sign for negative numbers, then digits that read back as the number, the highest one first and not a needless 0. */
  lemma DecimalReads(n: int)
    ensures n < 0 ==> |Decimal(n)| > 1 && Decimal(n)[0] == '-' && DecimalValue(Decimal(n)[1..]) == -n
    ensures n >= 0 ==> DecimalValue(Decimal(n)) == n && forall i :: 0 <= i < |Decimal(n)| ==> '0' <= Decimal(n)[i] <= '9'
    ensures n >= 10 ==> Decimal(n)[0] != '0'
  {
    var m := if n < 0 then -n else n;
    DecimalNatRoundTrip(m);
    if m > 0 {
      NoLeadingZero(m);
    }
    assert n < 0 ==> Decimal(n)[1..] == DecimalNat(m);
  }

  lemma {:induction false} NoLeadingZero(n: nat)
    requires n > 0
    ensures DecimalNat(n) != [] && DecimalNat(n)[0] != '0'
  {
    if n >= 10 {
      NoLeadingZero(n / 10);
    }
  }

  lemma DecimalInjective(n: int, m: int)
    requires Decimal(n) == Decimal(m)
    ensures n == m
  {
    DecimalNatRoundTrip(if n < 0 then -n else n);
    DecimalNatRoundTrip(if m < 0 then -m else m);
    assert n < 0 ==> Decimal(n)[0] == '-' && Decimal(n)[1..] == DecimalNat(-n);
    assert m < 0 ==> Decimal(m)[0] == '-' && Decimal(m)[1..] == DecimalNat(-m);
  }

  // ---- Colon-separated fields ----------------------------------------------------------------------

  predicate NoColon(s: string) {
    ':' !in s
  }

  predicate NoColons(parts: seq<string>) {
    forall i :: 0 <= i < |parts| ==> NoColon(parts[i])
  }

  function Join(parts: seq<string>): string
    requires parts != []
  {
    if |parts| == 1 then parts[0] else parts[0] + ":" + Join(parts[1..])
  }

  lemma ColonNotBefore(a: string, x: string, b: string, y: string)
    requires NoColon(b) && a + ":" + x == b + ":" + y
    ensures |a| >= |b|
  {
    var s := a + ":" + x;
    assert s[|a|] == ':';
    assert forall i :: 0 <= i < |b| ==> s[i] == b[i] && b[i] != ':';
  }

  lemma {:induction false} JoinHasColon(p: seq<string>)
    requires |p| > 1
    ensures ':' in Join(p)
  {
    assert Join(p)[|p[0]|] == ':';
  }

  /** Two texts cut at their first colon are equal exactly when both halves are. */
  lemma CutAtColon(a: string, x: string, b: string, y: string)
    requires NoColon(a) && NoColon(b) && a + ":" + x == b + ":" + y
    ensures a == b && x == y
  {
    ColonNotBefore(a, x, b, y);
    ColonNotBefore(b, y, a, x);
    var s, t := a + ":" + x, b + ":" + y;
    assert s[..|a|] == a && t[..|b|] == b;
    assert s[|a| + 1..] == x && t[|b| + 1..] == y;
  }

  lemma {:induction false} JoinInjective(p: seq<string>, q: seq<string>)
    requires p != [] && q != [] && NoColons(p) && NoColons(q) && Join(p) == Join(q)
    ensures p == q
  {
    if |p| == 1 && |q| == 1 {
    } else if |p| == 1 {
      JoinHasColon(q);
    } else if |q| == 1 {
      JoinHasColon(p);
    } else {
      CutAtColon(p[0], Join(p[1..]), q[0], Join(q[1..]));
      JoinInjective(p[1..], q[1..]);
      assert p == [p[0]] + p[1..] && q == [q[0]] + q[1..];
    }
  }

  predicate HasPrefix(s: string, prefix: string) {
    prefix <= s
  }

  lemma {:induction false} FieldsGivePrefix(fields: seq<string>, parts: seq<string>)
    requires 0 < |fields| < |parts| && parts[..|fields|] == fields
    ensures HasPrefix(Join(parts), Join(fields) + ":")
  {
    var s, rest := Join(parts), Join(parts[1..]);
    assert parts[0] == parts[..|fields|][0];
    if |fields| == 1 {
      assert s == Join(fields) + ":" + rest;
    } else {
      var inner := Join(fields[1..]) + ":";
      assert parts[1..][..|fields| - 1] == parts[..|fields|][1..];
      FieldsGivePrefix(fields[1..], parts[1..]);
      assert rest == inner + rest[|inner|..];
      assert s == Join(fields) + ":" + rest[|inner|..];
    }
  }

  lemma NoColonNoPrefix(s: string, prefix: string)
    requires NoColon(s) && prefix != [] && prefix[|prefix| - 1] == ':'
    ensures !HasPrefix(s, prefix)
  {
    assert forall i :: 0 <= i < |s| ==> s[i] != ':';
  }

  lemma {:induction false} PrefixGivesFields(fields: seq<string>, parts: seq<string>)
    requires fields != [] && parts != [] && NoColons(fields) && NoColons(parts)
    requires HasPrefix(Join(parts), Join(fields) + ":")
    ensures |fields| < |parts| && parts[..|fields|] == fields
  {
    var s, prefix := Join(parts), Join(fields) + ":";
    if |parts| == 1 {
      NoColonNoPrefix(s, prefix);
    } else {
      var rest, after := Join(parts[1..]), s[|prefix|..];
      assert s == parts[0] + ":" + rest;
      if |fields| == 1 {
        assert s == fields[0] + ":" + after;
        CutAtColon(parts[0], rest, fields[0], after);
      } else {
        var inner := Join(fields[1..]) + ":";
        assert prefix == fields[0] + ":" + inner;
        assert s == fields[0] + ":" + (inner + after);
        CutAtColon(parts[0], rest, fields[0], inner + after);
        assert rest[..|inner|] == inner;
        PrefixGivesFields(fields[1..], parts[1..]);
        assert parts[..|fields|] == [parts[0]] + parts[1..][..|fields| - 1];
        assert fields == [fields[0]] + fields[1..];
      }
    }
  }

  /** A text starts with the given fields, each closed by a colon, exactly when its first fields are those. */
  lemma PrefixSelectsFields(fields: seq<string>, parts: seq<string>)
    requires fields != [] && parts != [] && NoColons(fields) && NoColons(parts)
    ensures HasPrefix(Join(parts), Join(fields) + ":") <==> |fields| < |parts| && parts[..|fields|] == fields
  {
    if HasPrefix(Join(parts), Join(fields) + ":") {
      PrefixGivesFields(fields, parts);
    }
    if |fields| < |parts| && parts[..|fields|] == fields {
      FieldsGivePrefix(fields, parts);
    }
  }
}
