/** The checksum of message payloads (workspace/src/framework/impl/ipc/message.cpp:604-614): the
    table-driven loop computes the bit-serial CRC-32 of section 8 of RFC 1952, and a corruption of up
    to four consecutive bytes always changes it. */
module Crc32 {
  import opened CrcTable

  // ---------------------------------------------------------------------------------------------
  // The bit-serial definition
  // ---------------------------------------------------------------------------------------------

  const ALL_ONES: bv32 := 0xFFFF_FFFF

  predicate HasBit(b: bv8, mask: bv8) {
    b & mask != 0
  }

  /** One message bit enters the shift register. */
  function FeedBit(r: bv32, bit: bool): bv32 {
    if Odd(r) != bit then Xor(Half(r), POLYNOMIAL) else Half(r)
  }

  /** A byte enters bit by bit, least significant bit first. */
  function FeedByte(r0: bv32, b: bv8): bv32 {
    var r1 := FeedBit(r0, HasBit(b, 0x01));
    var r2 := FeedBit(r1, HasBit(b, 0x02));
    var r3 := FeedBit(r2, HasBit(b, 0x04));
    var r4 := FeedBit(r3, HasBit(b, 0x08));
    var r5 := FeedBit(r4, HasBit(b, 0x10));
    var r6 := FeedBit(r5, HasBit(b, 0x20));
    var r7 := FeedBit(r6, HasBit(b, 0x40));
    FeedBit(r7, HasBit(b, 0x80))
  }

  /** The register after a whole message. */
  function Feed(r: bv32, data: seq<bv8>): bv32 {
    if data == [] then r else FeedByte(Feed(r, data[..|data| - 1]), data[|data| - 1])
  }

  function Crc(data: seq<bv8>): bv32 {
    Xor(Feed(ALL_ONES, data), ALL_ONES)
  }

  // ---------------------------------------------------------------------------------------------
  // The check value
  // ---------------------------------------------------------------------------------------------

  /** The digits 1 to 9, on which CRCs are compared. */
  const CHECK_INPUT: seq<bv8> := [0x31, 0x32, 0x33, 0x34, 0x35, 0x36, 0x37, 0x38, 0x39]

  /** The register after each of them. */
  const CHECK_REGISTERS: seq<bv32> := [0xFFFF_FFFF, 0x7C23_1048, 0xB0AC_BB32, 0x77B7_9C2D, 0x641C_1F5C, 0x340A_C5E3, 0xF68D_2C9E, 0xAFFC_9660, 0x651F_2550, 0x340B_C6D9]

  lemma CheckSteps()
    ensures forall k :: 0 <= k < 9 ==> FeedByte(CHECK_REGISTERS[k], CHECK_INPUT[k]) == CHECK_REGISTERS[k + 1]
  {
    assert FeedByte(0xFFFF_FFFF, 0x31) == 0x7C23_1048;
    assert FeedByte(0x7C23_1048, 0x32) == 0xB0AC_BB32;
    assert FeedByte(0xB0AC_BB32, 0x33) == 0x77B7_9C2D;
    assert FeedByte(0x77B7_9C2D, 0x34) == 0x641C_1F5C;
    assert FeedByte(0x641C_1F5C, 0x35) == 0x340A_C5E3;
    assert FeedByte(0x340A_C5E3, 0x36) == 0xF68D_2C9E;
    assert FeedByte(0xF68D_2C9E, 0x37) == 0xAFFC_9660;
    assert FeedByte(0xAFFC_9660, 0x38) == 0x651F_2550;
    assert FeedByte(0x651F_2550, 0x39) == 0x340B_C6D9;
  }

  lemma {:induction false} CheckPrefix(k: nat)
    requires k <= 9
    ensures Feed(CHECK_REGISTERS[0], CHECK_INPUT[..k]) == CHECK_REGISTERS[k]
  {
    hide FeedByte;
    if k > 0 {
      CheckPrefix(k - 1);
      CheckSteps();
      assert CHECK_INPUT[..k][..k - 1] == CHECK_INPUT[..k - 1];
    }
  }

  /** Initial value, polynomial, order of bits and final inversion are those of the CRC-32 whose check value
      is CBF43926. */
  lemma CheckValue()
    ensures Crc(CHECK_INPUT) == 0xCBF4_3926
  {
    hide Feed, FeedByte;
    CheckPrefix(9);
    assert CHECK_INPUT[..9] == CHECK_INPUT;
  }

  // ---------------------------------------------------------------------------------------------
  // The algebra of the register
  // ---------------------------------------------------------------------------------------------

  lemma XorOdd(a: bv32, b: bv32)
    ensures Odd(Xor(a, b)) <==> Odd(a) != Odd(b)
  {
  }

  lemma XorHalf(a: bv32, b: bv32)
    ensures Half(Xor(a, b)) == Xor(Half(a), Half(b))
  {
  }

  lemma XorSwap(a: bv32, b: bv32, c: bv32)
    ensures Xor(Xor(a, b), c) == Xor(Xor(a, c), b)
  {
    hide Xor;
    XorAssociates(a, b, c);
    XorAssociates(a, c, b);
    XorCommutes(b, c);
  }

  lemma XorAssociates(a: bv32, b: bv32, c: bv32)
    ensures Xor(a, Xor(b, c)) == Xor(Xor(a, b), c)
  {
  }

  lemma XorCommutes(a: bv32, b: bv32)
    ensures Xor(a, b) == Xor(b, a)
  {
  }

  lemma XorZero(a: bv32)
    ensures Xor(a, 0) == a
  {
  }

  lemma XorCancels(r: bv32, s: bv32, x: bv32)
    requires Xor(r, x) == Xor(s, x)
    ensures r == s
  {
  }

  lemma XorUndo(r: bv32, s: bv32, x: bv32)
    ensures Xor(s, Xor(Xor(r, x), s)) == Xor(r, x)
  {
  }

  // ---------------------------------------------------------------------------------------------
  // Bits enter by addition
  // ---------------------------------------------------------------------------------------------

  /** The lowest bit of `x` enters, the others wait. */
  lemma ShiftFeedsLowBit(r: bv32, x: bv32)
    ensures Shift(Xor(r, x)) == Xor(FeedBit(r, Odd(x)), Half(x))
  {
    hide Xor, Half, Odd;
    XorOdd(r, x);
    XorHalf(r, x);
    XorSwap(Half(r), Half(x), POLYNOMIAL);
  }

  /** The bits of `b` as they come to the lowest place. */
  lemma BitsInTurn(b: bv8)
    ensures
      var x := b as bv32;
      var x1 := Half(x);
      var x2 := Half(x1);
      var x3 := Half(x2);
      var x4 := Half(x3);
      var x5 := Half(x4);
      var x6 := Half(x5);
      var x7 := Half(x6);
      && (Odd(x) <==> HasBit(b, 0x01)) && (Odd(x1) <==> HasBit(b, 0x02))
      && (Odd(x2) <==> HasBit(b, 0x04)) && (Odd(x3) <==> HasBit(b, 0x08))
      && (Odd(x4) <==> HasBit(b, 0x10)) && (Odd(x5) <==> HasBit(b, 0x20))
      && (Odd(x6) <==> HasBit(b, 0x40)) && (Odd(x7) <==> HasBit(b, 0x80))
      && Half(x7) == 0
  {
  }

  /** Feeding a byte is adding it to the register and shifting eight times. */
  lemma FeedByteIsShiftByte(r: bv32, b: bv8)
    ensures FeedByte(r, b) == ShiftByte(Xor(r, b as bv32))
  {
    hide Xor, Half, Odd, HasBit, FeedBit, Shift;
    BitsInTurn(b);
    FeedEightBits(r, b as bv32);
  }

  lemma FeedEightBits(r: bv32, x: bv32)
    ensures
      var x1 := Half(x);
      var x2 := Half(x1);
      var x3 := Half(x2);
      var x4 := Half(x3);
      var x5 := Half(x4);
      var x6 := Half(x5);
      var x7 := Half(x6);
      var r1 := FeedBit(r, Odd(x));
      var r2 := FeedBit(r1, Odd(x1));
      var r3 := FeedBit(r2, Odd(x2));
      var r4 := FeedBit(r3, Odd(x3));
      var r5 := FeedBit(r4, Odd(x4));
      var r6 := FeedBit(r5, Odd(x5));
      var r7 := FeedBit(r6, Odd(x6));
      var r8 := FeedBit(r7, Odd(x7));
      ShiftByte(Xor(r, x)) == Xor(r8, Half(x7)) && Xor(r8, 0) == r8
  {
    hide Xor, Half, Odd, FeedBit, Shift;
    var x1 := Half(x);
    var x2 := Half(x1);
    var x3 := Half(x2);
    var x4 := Half(x3);
    var x5 := Half(x4);
    var x6 := Half(x5);
    var x7 := Half(x6);
    var r1 := FeedBit(r, Odd(x));
    var r2 := FeedBit(r1, Odd(x1));
    var r3 := FeedBit(r2, Odd(x2));
    var r4 := FeedBit(r3, Odd(x3));
    var r5 := FeedBit(r4, Odd(x4));
    var r6 := FeedBit(r5, Odd(x5));
    var r7 := FeedBit(r6, Odd(x6));
    ShiftFeedsLowBit(r, x);
    ShiftFeedsLowBit(r1, x1);
    ShiftFeedsLowBit(r2, x2);
    ShiftFeedsLowBit(r3, x3);
    ShiftFeedsLowBit(r4, x4);
    ShiftFeedsLowBit(r5, x5);
    ShiftFeedsLowBit(r6, x6);
    ShiftFeedsLowBit(r7, x7);
    XorZero(FeedBit(r7, Odd(x7)));
  }

  /** `x >> 8`: the register without its lowest byte, moved down. */
  function ByteDown(x: bv32): bv32 {
    x >> 8
  }

  predicate LowByteClear(x: bv32) {
    x & 0xFF == 0
  }

  lemma LowBitsClear(x: bv32)
    requires LowByteClear(x)
    ensures
      var x1 := Half(x);
      var x2 := Half(x1);
      var x3 := Half(x2);
      var x4 := Half(x3);
      var x5 := Half(x4);
      var x6 := Half(x5);
      var x7 := Half(x6);
      && !Odd(x) && !Odd(x1) && !Odd(x2) && !Odd(x3) && !Odd(x4) && !Odd(x5) && !Odd(x6) && !Odd(x7)
      && Half(x7) == ByteDown(x)
  {
  }

  lemma FeedZeroIsShift(r: bv32)
    ensures FeedBit(r, false) == Shift(r)
  {
  }

  /** Bits above the lowest eight only move down while a byte is shifted out. */
  lemma ShiftBytePassesHigh(r: bv32, x: bv32)
    requires LowByteClear(x)
    ensures ShiftByte(Xor(r, x)) == Xor(ShiftByte(r), ByteDown(x))
  {
    hide Xor, Half, Odd, FeedBit, Shift, ByteDown, LowByteClear;
    LowBitsClear(x);
    FeedEightBits(r, x);
    var r1 := Shift(r);
    var r2 := Shift(r1);
    var r3 := Shift(r2);
    var r4 := Shift(r3);
    var r5 := Shift(r4);
    var r6 := Shift(r5);
    var r7 := Shift(r6);
    FeedZeroIsShift(r);
    FeedZeroIsShift(r1);
    FeedZeroIsShift(r2);
    FeedZeroIsShift(r3);
    FeedZeroIsShift(r4);
    FeedZeroIsShift(r5);
    FeedZeroIsShift(r6);
    FeedZeroIsShift(r7);
  }

  // ---------------------------------------------------------------------------------------------
  // The table-driven loop
  // ---------------------------------------------------------------------------------------------

  /** `x & 0xFF` */
  function LowByte(x: bv32): (low: bv32)
    ensures low < 0x100
  {
    x & 0xFF
  }

  function HighBytes(x: bv32): bv32 {
    x & 0xFFFF_FF00
  }

  lemma SplitRegister(x: bv32)
    ensures x == Xor(LowByte(x), HighBytes(x)) && LowByteClear(HighBytes(x)) && ByteDown(HighBytes(x)) == ByteDown(x)
  {
  }

  lemma AddedByteIsShiftedOut(r: bv32, b: bv8)
    ensures ByteDown(Xor(r, b as bv32)) == ByteDown(r)
  {
  }

  lemma IndexRoundTrip(x: bv32)
    requires x < 0x100
    ensures 0 <= x as int < 0x100 && (x as int) as bv32 == x
  {
  }

  lemma EntryForIndex(x: bv32)
    requires x < 0x100
    ensures 0 <= x as int < |TABLE| && TABLE[x as int] == ShiftByte(x)
  {
    hide ShiftByte, TABLE;
    IndexRoundTrip(x);
    TableHoldsShiftedIndices(x as int);
  }

  /** One turn of the loop feeds one byte. */
  lemma TableStepFeedsByte(r: bv32, b: bv8)
    ensures var index := LowByte(Xor(r, b as bv32)) as int;
            0 <= index < |TABLE| && Xor(ByteDown(r), TABLE[index]) == FeedByte(r, b)
  {
    hide *;
    var x := Xor(r, b as bv32);
    SplitRegister(x);
    EntryForIndex(LowByte(x));
    ShiftBytePassesHigh(LowByte(x), HighBytes(x));
    AddedByteIsShiftedOut(r, b);
    FeedByteIsShiftByte(r, b);
    XorCommutes(ShiftByte(LowByte(x)), ByteDown(r));
  }

  method ComputeCrc32(data: seq<bv8>) returns (crc: bv32)
    ensures crc == Crc(data)
  {
    hide FeedByte, TABLE, Xor, LowByte, ByteDown;
    crc := ALL_ONES;
    for i := 0 to |data|
      invariant crc == Feed(ALL_ONES, data[..i])
    {
      assert data[..i + 1][..i] == data[..i];
      TableStepFeedsByte(crc, data[i]);
      var index := LowByte(Xor(crc, data[i] as bv32)) as int;
      crc := Xor(ByteDown(crc), TABLE[index]);
    }
    assert data[..|data|] == data;
    crc := Xor(crc, ALL_ONES);
  }

  // ---------------------------------------------------------------------------------------------
  // What the checksum detects
  // ---------------------------------------------------------------------------------------------

  lemma ShiftIsInjective(r: bv32, s: bv32)
    requires Shift(r) == Shift(s)
    ensures r == s
  {
  }

  lemma ShiftByteIsInjective(r: bv32, s: bv32)
    requires ShiftByte(r) == ShiftByte(s)
    ensures r == s
  {
    hide Shift;
    var r1, s1 := Shift(r), Shift(s);
    var r2, s2 := Shift(r1), Shift(s1);
    var r3, s3 := Shift(r2), Shift(s2);
    var r4, s4 := Shift(r3), Shift(s3);
    var r5, s5 := Shift(r4), Shift(s4);
    var r6, s6 := Shift(r5), Shift(s5);
    var r7, s7 := Shift(r6), Shift(s6);
    ShiftIsInjective(r7, s7);
    ShiftIsInjective(r6, s6);
    ShiftIsInjective(r5, s5);
    ShiftIsInjective(r4, s4);
    ShiftIsInjective(r3, s3);
    ShiftIsInjective(r2, s2);
    ShiftIsInjective(r1, s1);
    ShiftIsInjective(r, s);
  }

  lemma {:induction false} FeedAppend(r: bv32, a: seq<bv8>, b: seq<bv8>)
    ensures Feed(r, a + b) == Feed(Feed(r, a), b)
    decreases |b|
  {
    hide FeedByte;
    if b == [] {
      assert a + b == a;
    } else {
      FeedAppend(r, a, b[..|b| - 1]);
      assert (a + b)[..|a + b| - 1] == a + b[..|b| - 1];
    }
  }

  /** Different registers stay different while the same bytes enter. */
  lemma {:induction false} FeedKeepsDifference(r: bv32, s: bv32, data: seq<bv8>)
    requires Feed(r, data) == Feed(s, data)
    ensures r == s
    decreases |data|
  {
    hide FeedByte, ShiftByte, Xor;
    if data != [] {
      var b, r', s' := data[|data| - 1], Feed(r, data[..|data| - 1]), Feed(s, data[..|data| - 1]);
      FeedByteIsShiftByte(r', b);
      FeedByteIsShiftByte(s', b);
      ShiftByteIsInjective(Xor(r', b as bv32), Xor(s', b as bv32));
      XorCancels(r', s', b as bv32);
      FeedKeepsDifference(r, s, data[..|data| - 1]);
    }
  }

  function Upper(b1: bv8, b2: bv8, b3: bv8): bv32 {
    ((b1 as bv32) << 8) ^ ((b2 as bv32) << 16) ^ ((b3 as bv32) << 24)
  }

  /** Four bytes as the register sees them: the first enters at the bottom. */
  function Packed(b0: bv8, b1: bv8, b2: bv8, b3: bv8): bv32 {
    Xor(b0 as bv32, Upper(b1, b2, b3))
  }

  lemma PackedIsInjective(a0: bv8, a1: bv8, a2: bv8, a3: bv8, b0: bv8, b1: bv8, b2: bv8, b3: bv8)
    requires Packed(a0, a1, a2, a3) == Packed(b0, b1, b2, b3)
    ensures a0 == b0 && a1 == b1 && a2 == b2 && a3 == b3
  {
  }

  /** The bytes of a register. */
  function Unpacked(x: bv32): (w: seq<bv8>)
    ensures |w| == 4
  {
    [(x & 0xFF) as bv8, ((x >> 8) & 0xFF) as bv8, ((x >> 16) & 0xFF) as bv8, (x >> 24) as bv8]
  }

  lemma PackUnpacked(x: bv32)
    ensures var w := Unpacked(x); Packed(w[0], w[1], w[2], w[3]) == x
  {
  }

  /** Four bytes added to a register at once, then shifted out. */
  function Shift4Bytes(r: bv32): bv32 {
    ShiftByte(ShiftByte(ShiftByte(ShiftByte(r))))
  }

  /** A byte shifted out brings the next of the waiting bytes to the bottom. */
  lemma UpperMovesDown(b1: bv8, b2: bv8, b3: bv8)
    ensures LowByteClear(Upper(b1, b2, b3)) && ByteDown(Upper(b1, b2, b3)) == Xor(b1 as bv32, Upper(b2, b3, 0))
    ensures Upper(0, 0, 0) == 0
  {
  }

  /** The first byte enters, the other three wait above it. */
  lemma ShiftEntersFirst(r: bv32, b0: bv8, b1: bv8, b2: bv8, b3: bv8)
    ensures ShiftByte(Xor(r, Packed(b0, b1, b2, b3))) == Xor(FeedByte(r, b0), Packed(b1, b2, b3, 0))
  {
    hide Xor, ShiftByte, FeedByte, Upper, ByteDown, LowByteClear;
    XorAssociates(r, b0 as bv32, Upper(b1, b2, b3));
    UpperMovesDown(b1, b2, b3);
    ShiftBytePassesHigh(Xor(r, b0 as bv32), Upper(b1, b2, b3));
    FeedByteIsShiftByte(r, b0);
  }

  lemma NothingPacked()
    ensures Packed(0, 0, 0, 0) == 0
  {
  }

  lemma FeedFour(r: bv32, w: seq<bv8>)
    requires |w| == 4
    ensures Feed(r, w) == Shift4Bytes(Xor(r, Packed(w[0], w[1], w[2], w[3])))
  {
    hide Xor, ShiftByte, FeedByte, Packed;
    FeedOneByOne(r, w);
    var r1 := FeedByte(r, w[0]);
    var r2 := FeedByte(r1, w[1]);
    var r3 := FeedByte(r2, w[2]);
    ShiftEntersFirst(r, w[0], w[1], w[2], w[3]);
    ShiftEntersFirst(r1, w[1], w[2], w[3], 0);
    ShiftEntersFirst(r2, w[2], w[3], 0, 0);
    ShiftEntersFirst(r3, w[3], 0, 0, 0);
    NothingPacked();
    XorZero(FeedByte(r3, w[3]));
  }

  lemma FeedOneByOne(r: bv32, w: seq<bv8>)
    requires |w| == 4
    ensures Feed(r, w) == FeedByte(FeedByte(FeedByte(FeedByte(r, w[0]), w[1]), w[2]), w[3])
  {
    hide FeedByte;
    assert w[..3][..2] == w[..2] && w[..2][..1] == w[..1] && w[..1][..0] == [];
    assert Feed(r, w[..1]) == FeedByte(r, w[0]);
    assert Feed(r, w[..2]) == FeedByte(Feed(r, w[..1]), w[1]);
    assert Feed(r, w[..3]) == FeedByte(Feed(r, w[..2]), w[2]);
  }

  lemma Shift4BytesIsInjective(r: bv32, s: bv32)
    requires Shift4Bytes(r) == Shift4Bytes(s)
    ensures r == s
  {
    hide ShiftByte;
    ShiftByteIsInjective(ShiftByte(ShiftByte(ShiftByte(r))), ShiftByte(ShiftByte(ShiftByte(s))));
    ShiftByteIsInjective(ShiftByte(ShiftByte(r)), ShiftByte(ShiftByte(s)));
    ShiftByteIsInjective(ShiftByte(r), ShiftByte(s));
    ShiftByteIsInjective(r, s);
  }

  /** From the same register, different short windows lead to different registers. */
  lemma WindowsStayApart(r: bv32, v: seq<bv8>, w: seq<bv8>)
    requires |v| == |w| <= 4 && Feed(r, v) == Feed(r, w)
    ensures v == w
  {
    hide Xor, ShiftByte, FeedByte, Feed, Packed, Shift4Bytes;
    var zeros := seq(4 - |v|, _ => 0 as bv8);
    var v4, w4 := v + zeros, w + zeros;
    FeedAppend(r, v, zeros);
    FeedAppend(r, w, zeros);
    FeedFour(r, v4);
    FeedFour(r, w4);
    var x, y := Packed(v4[0], v4[1], v4[2], v4[3]), Packed(w4[0], w4[1], w4[2], w4[3]);
    Shift4BytesIsInjective(Xor(r, x), Xor(r, y));
    XorCommutes(r, x);
    XorCommutes(r, y);
    XorCancels(x, y, r);
    PackedIsInjective(v4[0], v4[1], v4[2], v4[3], w4[0], w4[1], w4[2], w4[3]);
    assert v == v4[..|v|] && w == w4[..|w|];
  }

  /** `a` and `b` agree except within `k` consecutive bytes. */
  ghost predicate DifferWithin<T>(a: seq<T>, b: seq<T>, i: nat, k: nat) {
    && |a| == |b| && i + k <= |a|
    && a[..i] == b[..i] && a[i + k..] == b[i + k..]
  }

  lemma CrcByParts(a: seq<bv8>, i: nat, k: nat)
    requires i + k <= |a|
    ensures Crc(a) == Xor(Feed(Feed(Feed(ALL_ONES, a[..i]), a[i..i + k]), a[i + k..]), ALL_ONES)
  {
    hide FeedByte, Feed, Xor;
    assert a == (a[..i] + a[i..i + k]) + a[i + k..];
    FeedAppend(ALL_ONES, a[..i] + a[i..i + k], a[i + k..]);
    FeedAppend(ALL_ONES, a[..i], a[i..i + k]);
  }

  /** A corruption confined to four consecutive bytes always changes the checksum. */
  lemma BurstIsDetected(a: seq<bv8>, b: seq<bv8>, i: nat, k: nat)
    requires k <= 4 && DifferWithin(a, b, i, k)
    ensures Crc(a) == Crc(b) <==> a == b
  {
    hide FeedByte, Feed, Crc, Xor;
    if Crc(a) == Crc(b) {
      CrcByParts(a, i, k);
      CrcByParts(b, i, k);
      var r := Feed(ALL_ONES, a[..i]);
      XorCancels(Feed(Feed(r, a[i..i + k]), a[i + k..]), Feed(Feed(r, b[i..i + k]), a[i + k..]), ALL_ONES);
      FeedKeepsDifference(Feed(r, a[i..i + k]), Feed(r, b[i..i + k]), a[i + k..]);
      WindowsStayApart(r, a[i..i + k], b[i..i + k]);
      assert a == a[..i] + a[i..i + k] + a[i + k..];
      assert b == b[..i] + b[i..i + k] + b[i + k..];
    }
  }

  function Flipped(b: bv8): bv8 {
    b ^ 1
  }

  lemma FlippedDiffers(b: bv8)
    ensures Flipped(b) != b
  {
  }

  /** Four is as far as that goes: within any five consecutive bytes some corruption goes unnoticed. */
  lemma FiveBytesCanHideACorruption(a: seq<bv8>, i: nat) returns (b: seq<bv8>)
    requires i + 5 <= |a|
    ensures DifferWithin(a, b, i, 5) && b != a && Crc(b) == Crc(a)
  {
    hide FeedByte, Feed, Crc, Packed, Shift4Bytes, Unpacked, Xor, Flipped;
    var c := Flipped(a[i]);
    FlippedDiffers(a[i]);
    var r := Feed(ALL_ONES, a[..i]);
    var r1, s1 := Feed(r, [a[i]]), Feed(r, [c]);
    var v := a[i + 1..i + 5];
    var x := Packed(v[0], v[1], v[2], v[3]);
    var w := Unpacked(Xor(Xor(r1, x), s1));
    PackUnpacked(Xor(Xor(r1, x), s1));
    XorUndo(r1, s1, x);
    FeedFour(r1, v);
    FeedFour(s1, w);
    b := a[..i] + ([c] + w) + a[i + 5..];
    assert b[i] == c;
    assert a[i..i + 5] == [a[i]] + v && b[i..i + 5] == [c] + w;
    assert b[..i] == a[..i] && b[i + 5..] == a[i + 5..];
    FeedAppend(r, [a[i]], v);
    FeedAppend(r, [c], w);
    CrcByParts(a, i, 5);
    CrcByParts(b, i, 5);
  }
}
