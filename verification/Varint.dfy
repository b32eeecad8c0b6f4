/** Base 128 varints as the Protocol Buffers serializer writes and reads them
    (workspace/src/framework/impl/ipc/protobuf_serializer.cpp:79-112). */
module Varint {
  import opened Bytes
  import opened Wrappers
  import opened Words

  const MAX_LENGTH: nat := 10

  datatype Reading = Reading(value: uint64, length: nat)

  /** The bytes of `v`, least significant group first, all but the last with the high bit set. */
  function Encode(v: nat): (s: seq<byte>)
    ensures |s| >= 1
  {
    if v < 0x80 then [v] else [v % 0x80 + 0x80] + Encode(v / 0x80)
  }

  /** How many bytes the varint at the front of `s` takes, its first `k` bytes being looked at already. */
  function Length(s: seq<byte>, k: nat): (n: Option<nat>)
    ensures n.Some? ==> k < n.value <= |s| && n.value <= MAX_LENGTH
    decreases |s| - k
  {
    if k >= |s| || k >= MAX_LENGTH then None
    else if s[k] < 0x80 then Some(k + 1)
    else Length(s, k + 1)
  }

  /** The number whose base 128 digits are the low seven bits of the bytes. */
  function Digits(s: seq<byte>): nat {
    if s == [] then 0 else s[0] % 0x80 + 0x80 * Digits(s[1..])
  }

  /** Read the varint at the front of `s`; bits beyond the 64th are lost. */
  function Read(s: seq<byte>): (r: Option<Reading>)
    ensures r.Some? ==> 1 <= r.value.length <= |s|
  {
    var n := Length(s, 0);
    if n.None? then None else Some(Reading(Digits(s[..n.value]) % 0x1_0000_0000_0000_0000, n.value))
  }

  function Power128(k: nat): (p: nat)
    ensures p >= 1
  {
    if k == 0 then 1 else 0x80 * Power128(k - 1)
  }

  lemma Powers()
    ensures Power128(1) == 0x80
    ensures Power128(9) == 0x8000_0000_0000_0000
    ensures Power128(10) == 0x40_0000_0000_0000_0000
  {
    assert Power128(3) == 0x80 * Power128(2) && Power128(2) == 0x80 * Power128(1);
    assert Power128(6) == 0x80 * Power128(5) && Power128(5) == 0x80 * Power128(4) && Power128(4) == 0x80 * Power128(3);
    assert Power128(9) == 0x80 * Power128(8) && Power128(8) == 0x80 * Power128(7) && Power128(7) == 0x80 * Power128(6);
    assert Power128(10) == 0x80 * Power128(9);
  }

  lemma {:induction false} PowersGrow(j: nat, k: nat)
    requires j <= k
    ensures Power128(j) <= Power128(k)
    decreases k
  {
    if j < k {
      PowersGrow(j, k - 1);
    }
  }

  // ---------------------------------------------------------------------------------------------
  // Round trip
  // ---------------------------------------------------------------------------------------------

  lemma {:induction false} EncodeShape(v: nat, n: nat)
    requires n >= 1 && v < Power128(n)
    ensures |Encode(v)| <= n
    ensures forall i :: 0 <= i < |Encode(v)| - 1 ==> Encode(v)[i] >= 0x80
    ensures Encode(v)[|Encode(v)| - 1] < 0x80
    ensures Digits(Encode(v)) == v
    decreases n
  {
    if v >= 0x80 {
      assert n > 1;
      EncodeShape(v / 0x80, n - 1);
      var rest := Encode(v / 0x80);
      assert Encode(v)[1..] == rest;
    } else {
      assert Encode(v)[1..] == [];
    }
  }

  lemma {:induction false} LengthOfShape(s: seq<byte>, n: nat, k: nat)
    requires k < n <= |s| && n <= MAX_LENGTH
    requires s[n - 1] < 0x80 && forall i :: 0 <= i < n - 1 ==> s[i] >= 0x80
    ensures Length(s, k) == Some(n)
    decreases n - k
  {
    if k < n - 1 {
      LengthOfShape(s, n, k + 1);
    }
  }

  /** Every 64-bit value is read back, and exactly its bytes are consumed, whatever follows. */
  lemma {:induction false} ReadEncoded(v: uint64, rest: seq<byte>)
    ensures Read(Encode(v) + rest) == Some(Reading(v, |Encode(v)|))
  {
    var e := Encode(v);
    Powers();
    EncodeShape(v, MAX_LENGTH);
    assert (e + rest)[..|e|] == e;
    LengthOfShape(e + rest, |e|, 0);
  }

  lemma {:induction false} LengthOfPrefix(s: seq<byte>, rest: seq<byte>, k: nat)
    requires Length(s, k).Some?
    ensures Length(s + rest, k) == Length(s, k)
    decreases |s| - k
  {
    if s[k] >= 0x80 {
      LengthOfPrefix(s, rest, k + 1);
    }
  }

  /** What follows a complete varint does not change how it is read. */
  lemma ReadPrefix(s: seq<byte>, rest: seq<byte>)
    requires Read(s).Some?
    ensures Read(s + rest) == Read(s)
  {
    LengthOfPrefix(s, rest, 0);
    var n := Length(s, 0).value;
    assert (s + rest)[..n] == s[..n];
  }

  // ---------------------------------------------------------------------------------------------
  // The loops
  // ---------------------------------------------------------------------------------------------

  method Write(buffer: seq<byte>, value: uint64) returns (data: seq<byte>)
    ensures data == buffer + Encode(value)
  {
    data := buffer;
    var v: nat := value;
    while v >= 0x80
      invariant data + Encode(v) == buffer + Encode(value)
    {
      assert data + ([v % 0x80 + 0x80] + Encode(v / 0x80)) == data + [v % 0x80 + 0x80] + Encode(v / 0x80);
      data := data + [v % 0x80 + 0x80];
      v := v / 0x80;
    }
    data := data + [v % 0x80];
  }

  lemma {:induction false} DigitsNext(s: seq<byte>, i: nat)
    requires i < |s|
    ensures Digits(s[..i + 1]) == Digits(s[..i]) + s[i] % 0x80 * Power128(i)
    decreases |s|
  {
    if i > 0 {
      DigitsNext(s[1..], i - 1);
      assert s[..i + 1][1..] == s[1..][..i] && s[..i][1..] == s[1..][..i - 1];
      TimesBase(0x80, s[i] % 0x80, Power128(i - 1));
    } else {
      assert s[..1][1..] == [] && s[..1][0] == s[0];
    }
  }

  lemma {:induction false} DigitsBounded(s: seq<byte>)
    ensures Digits(s) < Power128(|s|)
  {
    if s != [] {
      DigitsBounded(s[1..]);
    }
  }

  /** Seven bits moved up by seven `k` places in a 64-bit word. */
  function ShiftedGroup(b: byte, k: nat): uint64 {
    b % 0x80 * Power128(k) % 0x1_0000_0000_0000_0000
  }

  /** Of the tenth group only the lowest bit fits. */
  lemma TenthGroup(value: nat, low: nat)
    requires value < 0x8000_0000_0000_0000 && low < 0x80
    ensures value + low * 0x8000_0000_0000_0000 % 0x1_0000_0000_0000_0000 ==
              (value + low * 0x8000_0000_0000_0000) % 0x1_0000_0000_0000_0000
  {
    var high, odd := low / 2, low % 2;
    assert low * 0x8000_0000_0000_0000 == high * 0x1_0000_0000_0000_0000 + odd * 0x8000_0000_0000_0000;
  }

  lemma FittingGroup(value: nat, shifted: nat)
    requires value + shifted < 0x8000_0000_0000_0000
    ensures value + shifted % 0x1_0000_0000_0000_0000 == (value + shifted) % 0x1_0000_0000_0000_0000
  {
  }

  lemma {:induction false} PowerOf128(k: nat)
    ensures Power128(k) == PowerOfTwo(7 * k)
  {
    if k > 0 {
      PowerOf128(k - 1);
      EightDoublings(7 * (k - 1));
    }
  }

  /** A shifted group lies above the digits before it, so or-ing it in adds it. */
  lemma OrAddsGroup(s: seq<byte>, i: nat)
    requires i < |s| && i < MAX_LENGTH
    ensures Or(Digits(s[..i]), ShiftedGroup(s[i], i)) == Digits(s[..i]) + ShiftedGroup(s[i], i)
  {
    hide Or, Digits, Power128;
    var low, power := s[i] % 0x80, Power128(i);
    Powers();
    DigitsBounded(s[..i]);
    PowerOf128(i);
    if i < 9 {
      Fits(low, power, i);
      OrAddsAbove(Digits(s[..i]), low, 7 * i);
    } else {
      TenthGroup(0, low);
      assert low * power % 0x1_0000_0000_0000_0000 == low % 2 * power;
      OrAddsAbove(Digits(s[..i]), low % 2, 7 * i);
    }
  }

  lemma Fits(low: nat, power: nat, i: nat)
    requires low < 0x80 && i < 9 && power == Power128(i)
    ensures low * power % 0x1_0000_0000_0000_0000 == low * power
  {
    Powers();
    PowersGrow(i + 1, 9);
    Product(power, low, 0x80);
    assert power * low == low * power;
  }

  /** Or-ing the next group in adds its digit; only the tenth can lose bits. */
  lemma {:induction false} NextGroup(s: seq<byte>, i: nat)
    requires i < |s| && i < MAX_LENGTH
    ensures Or(Digits(s[..i]), ShiftedGroup(s[i], i)) == Digits(s[..i + 1]) % 0x1_0000_0000_0000_0000
    ensures i < MAX_LENGTH - 1 ==> Digits(s[..i + 1]) < 0x8000_0000_0000_0000
  {
    hide Or;
    OrAddsGroup(s, i);
    var before, low := Digits(s[..i]), s[i] % 0x80;
    Powers();
    DigitsNext(s, i);
    if i < 9 {
      hide Digits, Power128;
      DigitsBounded(s[..i + 1]);
      PowersGrow(i + 1, 9);
      FittingGroup(before, low * Power128(i));
    } else {
      hide Digits, Power128;
      DigitsBounded(s[..9]);
      TenthGroup(before, low);
    }
  }

  /** Read a varint at `ptr`; `None` when it runs into the end or is longer than ten bytes. */
  method ReadAt(data: seq<byte>, ptr: nat) returns (r: Option<Reading>)
    requires ptr <= |data|
    ensures r == Read(data[ptr..])
  {
    hide Or, Digits, ShiftedGroup, Power128;
    var value, i: nat := 0, 0;
    ghost var s := data[ptr..];
    assert Digits(s[..0]) == 0 by {
      NoDigits();
    }
    while ptr + i < |data|
      invariant i <= |s| && i < MAX_LENGTH && ptr + |s| == |data|
      invariant value == Digits(s[..i]) && value < 0x8000_0000_0000_0000
      invariant Length(s, 0) == Length(s, i)
      decreases |s| - i
    {
      var b := data[ptr + i];
      assert b == s[i];
      NextGroup(s, i);
      value := Or(value, ShiftedGroup(b, i));
      i := i + 1;
      if b < 0x80 {
        return Some(Reading(value, i));
      }
      if 7 * i >= 64 {
        return None;
      }
    }
    return None;
  }

  lemma NoDigits()
    ensures Digits([]) == 0
  {
  }
}
