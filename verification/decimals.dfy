/** Numbers as text, the way Python prints integers and reads them back from bytes. */
module Decimals {
  import opened Common
  import opened ByteStrings

  const MINUS: Byte := 45
  const PLUS: Byte := 43
  const UNDERSCORE: Byte := 95

  predicate IsDigit(b: Byte) {
    48 <= b <= 57
  }

  predicate IsSpace(b: Byte) {
    b == 32 || 9 <= b <= 13
  }

  function Digits(n: nat): Bytes {
    if n < 10 then [48 + n] else Digits(n / 10) + [48 + n % 10]
  }

  function Decimal(n: int): Bytes {
    if n < 0 then [MINUS] + Digits(-n) else Digits(n)
  }

  /** Digits with single underscores between them; leading zeros are fine. */
  function ParseDigits(s: Bytes): Option<nat> {
    if |s| == 0 || !IsDigit(s[|s| - 1]) then None
    else if |s| == 1 then Some(s[0] - 48)
    else
      var front := if s[|s| - 2] == UNDERSCORE then s[..|s| - 2] else s[..|s| - 1];
      match ParseDigits(front)
      case None => None
      case Some(high) => Some(10 * high + (s[|s| - 1] - 48))
  }

  function TrimLeft(s: Bytes): Bytes {
    if |s| > 0 && IsSpace(s[0]) then TrimLeft(s[1..]) else s
  }

  function TrimRight(s: Bytes): Bytes {
    if |s| > 0 && IsSpace(s[|s| - 1]) then TrimRight(s[..|s| - 1]) else s
  }

  function Negated(n: Option<int>): Option<int> {
    if n.None? then None else Some(-n.value)
  }

  function ParseSigned(s: Bytes): Option<int> {
    if |s| == 0 then None
    else if s[0] == MINUS then Negated(ParseDigits(s[1..]))
    else if s[0] == PLUS then ParseDigits(s[1..])
    else ParseDigits(s)
  }

  function ParseInt(s: Bytes): Option<int> {
    ParseSigned(TrimRight(TrimLeft(s)))
  }

  lemma {:induction false} ParseDigitsOf(n: nat)
    ensures Digits(n) != [] && forall b | b in Digits(n) :: IsDigit(b)
    ensures ParseDigits(Digits(n)) == Some(n)
  {
    if n >= 10 {
      ParseDigitsOf(n / 10);
      var s := Digits(n);
      assert s[..|s| - 1] == Digits(n / 10);
      assert s[|s| - 2] in Digits(n / 10);
    }
  }

  lemma DecimalBytes(n: int)
    ensures Decimal(n) != [] && forall b | b in Decimal(n) :: IsDigit(b) || b == MINUS
    ensures ParseSigned(Decimal(n)) == Some(n)
  {
    if n < 0 {
      ParseDigitsOf(-n);
      assert Decimal(n)[1..] == Digits(-n);
    } else {
      ParseDigitsOf(n);
      assert Digits(n)[0] in Digits(n);
    }
  }

  /** Reading back a printed number. */
  lemma ParseDecimal(n: int)
    ensures ParseInt(Decimal(n)) == Some(n)
  {
    var s := Decimal(n);
    DecimalBytes(n);
    assert s[0] in s && s[|s| - 1] in s;
    assert TrimLeft(s) == s && TrimRight(s) == s;
  }

  lemma {:induction false} TrimRightKeepsHead(s: Bytes)
    requires s != [] && !IsSpace(s[0])
    ensures TrimRight(s) != [] && TrimRight(s)[0] == s[0]
    decreases |s|
  {
    if IsSpace(s[|s| - 1]) {
      TrimRightKeepsHead(s[..|s| - 1]);
    }
  }

  lemma LeadingDigit(s: Bytes)
    requires s != [] && IsDigit(s[0])
    ensures ParseInt(s).Some? ==> ParseInt(s).value >= 0
  {
    TrimRightKeepsHead(s);
  }
}
