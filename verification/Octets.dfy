/** Bytes as eight bits, for the arithmetic of checksums. */
module Octets {
  import opened Bytes

  /** One more binary digit below `high`. */
  function Join(high: bv8, low: bool): bv8 {
    (high << 1) | if low then 1 else 0
  }

  /** The `count` lowest binary digits of `b`. */
  function Digits(b: nat, count: nat): bv8 {
    if count == 0 then 0 else Join(Digits(b / 2, count - 1), b % 2 == 1)
  }

  /** A byte as eight bits. */
  function Octet(b: byte): bv8 {
    Digits(b, 8)
  }

  function Limit(count: nat): bv8 {
    match count
    case 0 => 1 case 1 => 2 case 2 => 4 case 3 => 8
    case 4 => 0x10 case 5 => 0x20 case 6 => 0x40 case _ => 0x80
  }

  function Power2(count: nat): nat {
    if count == 0 then 1 else 2 * Power2(count - 1)
  }

  lemma JoinStep(high: bv8, low: bool, count: nat)
    requires count < 7 && high < Limit(count)
    ensures Join(high, low) < Limit(count + 1)
  {
  }

  lemma JoinIsInjective(high: bv8, low: bool, high': bv8, low': bool)
    requires high < 0x80 && high' < 0x80 && Join(high, low) == Join(high', low')
    ensures high == high' && low == low'
  {
  }

  lemma {:induction false} DigitsBounded(b: nat, count: nat)
    requires count < 8
    ensures Digits(b, count) < Limit(count) <= 0x80
  {
    hide Join, Limit;
    LimitBounded(count);
    if count > 0 {
      DigitsBounded(b / 2, count - 1);
      JoinStep(Digits(b / 2, count - 1), b % 2 == 1, count - 1);
    }
  }

  lemma LimitBounded(count: nat)
    ensures 0 < Limit(count) <= 0x80
  {
  }

  lemma {:induction false} DigitsAreInjective(b: nat, c: nat, count: nat)
    requires count <= 8 && b < Power2(count) && c < Power2(count) && Digits(b, count) == Digits(c, count)
    ensures b == c
  {
    hide Join, Limit;
    if count > 0 {
      DigitsBounded(b / 2, count - 1);
      DigitsBounded(c / 2, count - 1);
      JoinIsInjective(Digits(b / 2, count - 1), b % 2 == 1, Digits(c / 2, count - 1), c % 2 == 1);
      DigitsAreInjective(b / 2, c / 2, count - 1);
    }
  }

  lemma OctetIsInjective(a: byte, b: byte)
    requires Octet(a) == Octet(b)
    ensures a == b
  {
    hide Digits;
    assert Power2(4) == 0x10 && Power2(8) == 0x10 * Power2(4);
    DigitsAreInjective(a, b, 8);
  }

  lemma JoinValue(high: bv8, low: bool)
    requires high < 0x80
    ensures Join(high, low) as int == 2 * (high as int) + if low then 1 else 0
  {
  }

  /** The eight bits are those of the byte. */
  lemma {:induction false} DigitsValue(b: nat, count: nat)
    requires count <= 8 && b < Power2(count)
    ensures Digits(b, count) as int == b
  {
    hide Join, Limit;
    if count > 0 {
      DigitsBounded(b / 2, count - 1);
      DigitsValue(b / 2, count - 1);
      JoinValue(Digits(b / 2, count - 1), b % 2 == 1);
    }
  }

  lemma OctetIsTheByte(b: byte)
    ensures Octet(b) as int == b
  {
    hide Digits;
    assert Power2(4) == 0x10 && Power2(8) == 0x10 * Power2(4);
    DigitsValue(b, 8);
  }

  function OctetsOf(s: seq<byte>): (o: seq<bv8>)
    ensures |o| == |s|
  {
    seq(|s|, i requires 0 <= i < |s| => Octet(s[i]))
  }

  lemma OctetsAreInjective(s: seq<byte>, t: seq<byte>)
    requires OctetsOf(s) == OctetsOf(t)
    ensures s == t
  {
    hide Octet;
    forall i | 0 <= i < |s|
      ensures s[i] == t[i]
    {
      assert OctetsOf(s)[i] == Octet(s[i]) && OctetsOf(t)[i] == Octet(t[i]);
      OctetIsInjective(s[i], t[i]);
    }
  }
}
