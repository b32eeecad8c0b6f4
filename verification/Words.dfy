/** How numbers are put together from bytes, or from groups of seven bits: each is or-ed into a word above
    the bits that are there already (workspace/src/framework/impl/ipc/protobuf_serializer.cpp:97-99,
    workspace/src/framework/impl/ipc/serializer.cpp:35-62,
    workspace/src/framework/impl/ipc/shared_memory_transport.cpp:760-763). */
module Words {
  import opened Bytes

  function PowerOfTwo(k: nat): (p: nat)
    ensures p >= 1
  {
    if k == 0 then 1 else 2 * PowerOfTwo(k - 1)
  }

  /** Bitwise or, from the lowest bit up. */
  function Or(a: nat, b: nat): nat
    decreases a + b
  {
    if a == 0 then b
    else if b == 0 then a
    else 2 * Or(a / 2, b / 2) + if a % 2 == 1 || b % 2 == 1 then 1 else 0
  }

  /** A number that lies above the bits of another is added by or-ing it in: nothing is carried. */
  lemma {:induction false} OrAddsAbove(low: nat, high: nat, k: nat)
    requires low < PowerOfTwo(k)
    ensures Or(low, high * PowerOfTwo(k)) == low + high * PowerOfTwo(k)
  {
    if k > 0 {
      var above := high * PowerOfTwo(k - 1);
      assert high * PowerOfTwo(k) == 2 * above by {
        TimesBase(2, high, PowerOfTwo(k - 1));
      }
      OrAddsAbove(low / 2, high, k - 1);
    }
  }

  lemma {:induction false} WeightIsPowerOfTwo(k: nat)
    ensures Weight(k) == PowerOfTwo(8 * k)
  {
    if k > 0 {
      WeightIsPowerOfTwo(k - 1);
      EightDoublings(8 * (k - 1));
    }
  }

  lemma EightDoublings(k: nat)
    ensures PowerOfTwo(k + 7) == 0x80 * PowerOfTwo(k) && PowerOfTwo(k + 8) == 0x100 * PowerOfTwo(k)
  {
    assert PowerOfTwo(k + 2) == 4 * PowerOfTwo(k);
    assert PowerOfTwo(k + 4) == 4 * PowerOfTwo(k + 2);
    assert PowerOfTwo(k + 6) == 4 * PowerOfTwo(k + 4);
  }

  /** One more byte of a number whose lower bytes have been read. */
  lemma OrAddsByte(s: seq<byte>, i: nat)
    requires i < |s|
    ensures Or(Value(s[..i]), s[i] * Weight(i)) == Value(s[..i + 1])
  {
    hide Or, Value, Weight;
    ValueNext(s, i);
    ValueBounded(s[..i]);
    WeightIsPowerOfTwo(i);
    OrAddsAbove(Value(s[..i]), s[i], 8 * i);
  }
}
