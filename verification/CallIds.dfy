/** Call identifiers and the map keys made of them
    (workspace/src/framework/impl/ipc/service_proxy.cpp:24-30, 473-484). */
module CallIds {
  import opened Bytes
  import opened Messages

  const COUNTER_RANGE: nat := 0x1_0000_0000_0000_0000

  type Digit = d: int | 0 <= d < 16

  const DIGITS: string := "0123456789abcdef"

  /** The identifier made of a counter value and a random number. */
  function CallId(counter: uint64, random: uint64): Id {
    LittleEndian(counter, 8) + LittleEndian(random, 8)
  }

  function HexDigit(d: Digit): char {
    DIGITS[d]
  }

  /** Two lower-case hexadecimal digits for each byte. */
  function Hex(s: seq<byte>): string {
    if s == [] then [] else [HexDigit(s[0] / 16), HexDigit(s[0] % 16)] + Hex(s[1..])
  }

  type Key = string

  function KeyOf(id: Id): Key {
    Hex(id)
  }

  lemma DigitsDiffer(d: Digit, e: Digit)
    ensures HexDigit(d) == HexDigit(e) <==> d == e
  {
  }

  lemma {:induction false} HexIsInjective(s: seq<byte>, t: seq<byte>)
    ensures Hex(s) == Hex(t) <==> s == t
  {
    hide HexDigit;
    if s != [] && t != [] {
      var a, b := Hex(s), Hex(t);
      assert a[2..] == Hex(s[1..]) && b[2..] == Hex(t[1..]);
      HexIsInjective(s[1..], t[1..]);
      DigitsDiffer(s[0] / 16, t[0] / 16);
      DigitsDiffer(s[0] % 16, t[0] % 16);
      if a == b {
        assert a[0] == b[0] && a[1] == b[1];
        assert s == [s[0]] + s[1..] && t == [t[0]] + t[1..];
      }
    }
  }

  /** The number that a hexadecimal digit stands for. */
  function Nibble(c: char): int {
    if '0' <= c <= '9' then c as int - '0' as int else c as int - 'a' as int + 10
  }

  predicate IsNibble(c: char) {
    '0' <= c <= '9' || 'a' <= c <= 'f'
  }

  /** A key is its identifier in base sixteen, the high digit of each byte first, in '0'..'9' and 'a'..'f'. */
  lemma {:induction false} KeyIsHexadecimal(s: seq<byte>, k: nat)
    requires k < |s|
    ensures |Hex(s)| == 2 * |s|
    ensures 16 * Nibble(Hex(s)[2 * k]) + Nibble(Hex(s)[2 * k + 1]) == s[k]
    ensures IsNibble(Hex(s)[2 * k]) && IsNibble(Hex(s)[2 * k + 1])
  {
    hide HexDigit;
    HexLength(s);
    if k == 0 {
      DigitStandsFor(s[0] / 16);
      DigitStandsFor(s[0] % 16);
    } else {
      KeyIsHexadecimal(s[1..], k - 1);
      assert Hex(s)[2 * k..2 * k + 2] == Hex(s[1..])[2 * (k - 1)..2 * (k - 1) + 2];
    }
  }

  lemma {:induction false} HexLength(s: seq<byte>)
    ensures |Hex(s)| == 2 * |s|
  {
    if s != [] {
      HexLength(s[1..]);
    }
  }

  lemma DigitStandsFor(d: Digit)
    ensures Nibble(HexDigit(d)) == d && IsNibble(HexDigit(d))
  {
  }

  lemma KeysDiffer(a: Id, b: Id)
    ensures KeyOf(a) == KeyOf(b) <==> a == b
  {
    HexIsInjective(a, b);
  }

  /** Two identifiers collide only when both the counter and the random number do. */
  lemma CallIdsDiffer(c: uint64, r: uint64, d: uint64, q: uint64)
    ensures CallId(c, r) == CallId(d, q) <==> c == d && r == q
  {
    Weights();
    ValueOfLittleEndian(c, 8);
    ValueOfLittleEndian(d, 8);
    ValueOfLittleEndian(r, 8);
    ValueOfLittleEndian(q, 8);
    hide LittleEndian, Weight;
    assert CallId(c, r)[..8] == LittleEndian(c, 8) && CallId(c, r)[8..] == LittleEndian(r, 8);
    assert CallId(d, q)[..8] == LittleEndian(d, 8) && CallId(d, q)[8..] == LittleEndian(q, 8);
  }

  method CallIdToString(id: Id) returns (key: Key)
    ensures key == KeyOf(id)
  {
    hide HexDigit;
    key := "";
    var i := 0;
    while i < 16
      invariant 0 <= i <= 16
      invariant Hex(id) == key + Hex(id[i..])
    {
      assert id[i..][1..] == id[i + 1..];
      key := key + [HexDigit(id[i] / 16), HexDigit(id[i] % 16)];
      i := i + 1;
    }
  }
}
