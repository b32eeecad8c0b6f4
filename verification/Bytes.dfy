/** Bytes, and unsigned integers written least significant byte first. */
module Bytes {

  type byte = b: int | 0 <= b < 0x100
  type uint32 = v: int | 0 <= v < 0x1_0000_0000
  type uint64 = v: int | 0 <= v < 0x1_0000_0000_0000_0000

  /** The weight of byte number `k`. */
  function Weight(k: nat): (w: nat)
    ensures w >= 1
  {
    if k == 0 then 1 else 0x100 * Weight(k - 1)
  }

  /** Byte number `k` of `v`: what `(v >> (8 * k)) & 0xFF` selects. */
  function ByteOf(v: nat, k: nat): byte {
    v / Weight(k) % 0x100
  }

  /** The `count` lowest bytes of `v`, lowest first. */
  function LittleEndian(v: nat, count: nat): (s: seq<byte>)
    ensures |s| == count
  {
    if count == 0 then [] else [v % 0x100] + LittleEndian(v / 0x100, count - 1)
  }

  /** The number that the bytes stand for. */
  function Value(s: seq<byte>): nat {
    if s == [] then 0 else s[0] + 0x100 * Value(s[1..])
  }

  lemma {:induction false} ValueOfLittleEndian(v: nat, count: nat)
    requires v < Weight(count)
    ensures Value(LittleEndian(v, count)) == v
  {
    if count > 0 {
      ValueOfLittleEndian(v / 0x100, count - 1);
      assert LittleEndian(v, count)[1..] == LittleEndian(v / 0x100, count - 1);
    }
  }

  /** One more byte, as a reader that adds them up lowest first sees it. */
  lemma {:induction false} ValueNext(s: seq<byte>, i: nat)
    requires i < |s|
    ensures Value(s[..i + 1]) == Value(s[..i]) + s[i] * Weight(i)
    decreases |s|
  {
    if i > 0 {
      ValueNext(s[1..], i - 1);
      assert s[..i + 1][1..] == s[1..][..i] && s[..i][1..] == s[1..][..i - 1];
      TimesBase(0x100, s[i], Weight(i - 1));
    } else {
      assert s[..1][1..] == [] && s[..1][0] == s[0];
    }
  }

  lemma TimesBase(base: nat, digit: nat, weight: nat)
    ensures base * (digit * weight) == digit * (base * weight)
  {
  }

  lemma {:induction false} ValueBounded(s: seq<byte>)
    ensures Value(s) < Weight(|s|)
  {
    if s != [] {
      ValueBounded(s[1..]);
    }
  }

  /** The bytes in order, as a writer that shifts them out sees them. */
  lemma {:induction false} LittleEndianAt(v: nat, count: nat, i: nat)
    requires i < count
    ensures LittleEndian(v, count)[i] == ByteOf(v, i)
    decreases count
  {
    if i > 0 {
      LittleEndianAt(v / 0x100, count - 1, i - 1);
      DivDiv(v, 0x100, Weight(i - 1));
    }
  }

  lemma DivDiv(v: nat, a: nat, b: nat)
    requires a > 0 && b > 0
    ensures a * b > 0 && v / a / b == v / (a * b)
  {
    var w, t := v / a, v % a;
    var q, r := w / b, w % b;
    Nested(a, b, q, r, t);
    assert v == a * w + t && w == b * q + r;
    Quotient(v, a * b, q, a * r + t);
  }

  lemma Nested(a: nat, b: nat, q: nat, r: nat, t: nat)
    requires r < b && t < a
    ensures a * (b * q + r) + t == (a * b) * q + (a * r + t)
    ensures 0 <= a * r + t < a * b
  {
    Distribute(a, b, q, r);
    Product(a, r, b - 1);
    Distribute(a, 1, b, -1);
    Product(a, 0, r);
  }

  lemma Distribute(a: int, b: int, q: int, r: int)
    ensures a * (b * q + r) == (a * b) * q + a * r
  {
  }

  lemma Product(a: nat, r: nat, s: nat)
    requires r <= s
    ensures a * r <= a * s
  {
  }

  lemma Quotient(v: nat, d: nat, q: nat, r: nat)
    requires d > 0 && v == d * q + r && r < d
    ensures v / d == q && v % d == r
  {
    var q', r' := v / d, v % d;
    assert v == d * q' + r';
    assert d * (q - q') == r' - r by {
      Distribute(d, 1, q, -q');
    }
    AtLeastOnce(d, q - q');
  }

  lemma AtLeastOnce(d: int, k: int)
    requires d >= 0
    ensures k >= 1 ==> d * k >= d
    ensures k <= -1 ==> d * k <= -d
  {
  }

  lemma Weights()
    ensures Weight(1) == 0x100 && Weight(2) == 0x1_0000 && Weight(3) == 0x100_0000
    ensures Weight(4) == 0x1_0000_0000 && Weight(8) == 0x1_0000_0000_0000_0000
  {
    assert Weight(4) == 0x100 * Weight(3) && Weight(3) == 0x100 * Weight(2) && Weight(2) == 0x100 * Weight(1);
    assert Weight(8) == 0x100 * Weight(7) && Weight(7) == 0x100 * Weight(6);
    assert Weight(6) == 0x100 * Weight(5) && Weight(5) == 0x100 * Weight(4);
  }
}
