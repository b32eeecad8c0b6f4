/** The lookup table of the payload checksum (workspace/src/framework/impl/ipc/message.cpp:21-65),
    proved entry by entry to be what shifting its index out of the register gives. */
module CrcTable {

  /** The generator polynomial of section 8 of RFC 1952, lowest power in the highest bit. */
  const POLYNOMIAL: bv32 := 0xEDB88320

  // The register's own operations, named so that proofs can treat them as algebra

  function Xor(a: bv32, b: bv32): bv32 {
    a ^ b
  }

  function Half(a: bv32): bv32 {
    a >> 1
  }

  predicate Odd(a: bv32) {
    a & 1 == 1
  }

  /** The register shifts right by one bit. */
  function Shift(r: bv32): bv32 {
    if Odd(r) then Xor(Half(r), POLYNOMIAL) else Half(r)
  }

  /** The register shifts right by a byte. */
  function ShiftByte(r: bv32): bv32 {
    Shift(Shift(Shift(Shift(Shift(Shift(Shift(Shift(r))))))))
  }

  // The entries, eight to a row
  const ROW_00: seq<bv32> := [
    0x00000000, 0x77073096, 0xEE0E612C, 0x990951BA, 0x076DC419, 0x706AF48F, 0xE963A535, 0x9E6495A3]
  const ROW_08: seq<bv32> := [
    0x0EDB8832, 0x79DCB8A4, 0xE0D5E91E, 0x97D2D988, 0x09B64C2B, 0x7EB17CBD, 0xE7B82D07, 0x90BF1D91]
  const ROW_10: seq<bv32> := [
    0x1DB71064, 0x6AB020F2, 0xF3B97148, 0x84BE41DE, 0x1ADAD47D, 0x6DDDE4EB, 0xF4D4B551, 0x83D385C7]
  const ROW_18: seq<bv32> := [
    0x136C9856, 0x646BA8C0, 0xFD62F97A, 0x8A65C9EC, 0x14015C4F, 0x63066CD9, 0xFA0F3D63, 0x8D080DF5]
  const ROW_20: seq<bv32> := [
    0x3B6E20C8, 0x4C69105E, 0xD56041E4, 0xA2677172, 0x3C03E4D1, 0x4B04D447, 0xD20D85FD, 0xA50AB56B]
  const ROW_28: seq<bv32> := [
    0x35B5A8FA, 0x42B2986C, 0xDBBBC9D6, 0xACBCF940, 0x32D86CE3, 0x45DF5C75, 0xDCD60DCF, 0xABD13D59]
  const ROW_30: seq<bv32> := [
    0x26D930AC, 0x51DE003A, 0xC8D75180, 0xBFD06116, 0x21B4F4B5, 0x56B3C423, 0xCFBA9599, 0xB8BDA50F]
  const ROW_38: seq<bv32> := [
    0x2802B89E, 0x5F058808, 0xC60CD9B2, 0xB10BE924, 0x2F6F7C87, 0x58684C11, 0xC1611DAB, 0xB6662D3D]
  const ROW_40: seq<bv32> := [
    0x76DC4190, 0x01DB7106, 0x98D220BC, 0xEFD5102A, 0x71B18589, 0x06B6B51F, 0x9FBFE4A5, 0xE8B8D433]
  const ROW_48: seq<bv32> := [
    0x7807C9A2, 0x0F00F934, 0x9609A88E, 0xE10E9818, 0x7F6A0DBB, 0x086D3D2D, 0x91646C97, 0xE6635C01]
  const ROW_50: seq<bv32> := [
    0x6B6B51F4, 0x1C6C6162, 0x856530D8, 0xF262004E, 0x6C0695ED, 0x1B01A57B, 0x8208F4C1, 0xF50FC457]
  const ROW_58: seq<bv32> := [
    0x65B0D9C6, 0x12B7E950, 0x8BBEB8EA, 0xFCB9887C, 0x62DD1DDF, 0x15DA2D49, 0x8CD37CF3, 0xFBD44C65]
  const ROW_60: seq<bv32> := [
    0x4DB26158, 0x3AB551CE, 0xA3BC0074, 0xD4BB30E2, 0x4ADFA541, 0x3DD895D7, 0xA4D1C46D, 0xD3D6F4FB]
  const ROW_68: seq<bv32> := [
    0x4369E96A, 0x346ED9FC, 0xAD678846, 0xDA60B8D0, 0x44042D73, 0x33031DE5, 0xAA0A4C5F, 0xDD0D7CC9]
  const ROW_70: seq<bv32> := [
    0x5005713C, 0x270241AA, 0xBE0B1010, 0xC90C2086, 0x5768B525, 0x206F85B3, 0xB966D409, 0xCE61E49F]
  const ROW_78: seq<bv32> := [
    0x5EDEF90E, 0x29D9C998, 0xB0D09822, 0xC7D7A8B4, 0x59B33D17, 0x2EB40D81, 0xB7BD5C3B, 0xC0BA6CAD]
  const ROW_80: seq<bv32> := [
    0xEDB88320, 0x9ABFB3B6, 0x03B6E20C, 0x74B1D29A, 0xEAD54739, 0x9DD277AF, 0x04DB2615, 0x73DC1683]
  const ROW_88: seq<bv32> := [
    0xE3630B12, 0x94643B84, 0x0D6D6A3E, 0x7A6A5AA8, 0xE40ECF0B, 0x9309FF9D, 0x0A00AE27, 0x7D079EB1]
  const ROW_90: seq<bv32> := [
    0xF00F9344, 0x8708A3D2, 0x1E01F268, 0x6906C2FE, 0xF762575D, 0x806567CB, 0x196C3671, 0x6E6B06E7]
  const ROW_98: seq<bv32> := [
    0xFED41B76, 0x89D32BE0, 0x10DA7A5A, 0x67DD4ACC, 0xF9B9DF6F, 0x8EBEEFF9, 0x17B7BE43, 0x60B08ED5]
  const ROW_A0: seq<bv32> := [
    0xD6D6A3E8, 0xA1D1937E, 0x38D8C2C4, 0x4FDFF252, 0xD1BB67F1, 0xA6BC5767, 0x3FB506DD, 0x48B2364B]
  const ROW_A8: seq<bv32> := [
    0xD80D2BDA, 0xAF0A1B4C, 0x36034AF6, 0x41047A60, 0xDF60EFC3, 0xA867DF55, 0x316E8EEF, 0x4669BE79]
  const ROW_B0: seq<bv32> := [
    0xCB61B38C, 0xBC66831A, 0x256FD2A0, 0x5268E236, 0xCC0C7795, 0xBB0B4703, 0x220216B9, 0x5505262F]
  const ROW_B8: seq<bv32> := [
    0xC5BA3BBE, 0xB2BD0B28, 0x2BB45A92, 0x5CB36A04, 0xC2D7FFA7, 0xB5D0CF31, 0x2CD99E8B, 0x5BDEAE1D]
  const ROW_C0: seq<bv32> := [
    0x9B64C2B0, 0xEC63F226, 0x756AA39C, 0x026D930A, 0x9C0906A9, 0xEB0E363F, 0x72076785, 0x05005713]
  const ROW_C8: seq<bv32> := [
    0x95BF4A82, 0xE2B87A14, 0x7BB12BAE, 0x0CB61B38, 0x92D28E9B, 0xE5D5BE0D, 0x7CDCEFB7, 0x0BDBDF21]
  const ROW_D0: seq<bv32> := [
    0x86D3D2D4, 0xF1D4E242, 0x68DDB3F8, 0x1FDA836E, 0x81BE16CD, 0xF6B9265B, 0x6FB077E1, 0x18B74777]
  const ROW_D8: seq<bv32> := [
    0x88085AE6, 0xFF0F6A70, 0x66063BCA, 0x11010B5C, 0x8F659EFF, 0xF862AE69, 0x616BFFD3, 0x166CCF45]
  const ROW_E0: seq<bv32> := [
    0xA00AE278, 0xD70DD2EE, 0x4E048354, 0x3903B3C2, 0xA7672661, 0xD06016F7, 0x4969474D, 0x3E6E77DB]
  const ROW_E8: seq<bv32> := [
    0xAED16A4A, 0xD9D65ADC, 0x40DF0B66, 0x37D83BF0, 0xA9BCAE53, 0xDEBB9EC5, 0x47B2CF7F, 0x30B5FFE9]
  const ROW_F0: seq<bv32> := [
    0xBDBDF21C, 0xCABAC28A, 0x53B39330, 0x24B4A3A6, 0xBAD03605, 0xCDD70693, 0x54DE5729, 0x23D967BF]
  const ROW_F8: seq<bv32> := [
    0xB3667A2E, 0xC4614AB8, 0x5D681B02, 0x2A6F2B94, 0xB40BBE37, 0xC30C8EA1, 0x5A05DF1B, 0x2D02EF8D]

  const ROWS: seq<seq<bv32>> := [
    ROW_00, ROW_08, ROW_10, ROW_18, ROW_20, ROW_28, ROW_30, ROW_38,
    ROW_40, ROW_48, ROW_50, ROW_58, ROW_60, ROW_68, ROW_70, ROW_78,
    ROW_80, ROW_88, ROW_90, ROW_98, ROW_A0, ROW_A8, ROW_B0, ROW_B8,
    ROW_C0, ROW_C8, ROW_D0, ROW_D8, ROW_E0, ROW_E8, ROW_F0, ROW_F8]

  function Flatten(rows: seq<seq<bv32>>): seq<bv32> {
    if rows == [] then [] else rows[0] + Flatten(rows[1..])
  }

  const TABLE: seq<bv32> := Flatten(ROWS)

  function ShiftedIndex(i: nat): bv32
    requires i < 0x100
  {
    ShiftByte(i as bv32)
  }

  ghost predicate IsRow(row: seq<bv32>, i: nat)
    requires i <= 0xF8
  {
    && |row| == 8
    && row[0] == ShiftedIndex(i) && row[1] == ShiftedIndex(i + 1)
    && row[2] == ShiftedIndex(i + 2) && row[3] == ShiftedIndex(i + 3)
    && row[4] == ShiftedIndex(i + 4) && row[5] == ShiftedIndex(i + 5)
    && row[6] == ShiftedIndex(i + 6) && row[7] == ShiftedIndex(i + 7)
  }

  lemma Rows00()
    ensures IsRow(ROW_00, 0x00) && IsRow(ROW_08, 0x08)
  {
  }

  lemma Rows10()
    ensures IsRow(ROW_10, 0x10) && IsRow(ROW_18, 0x18)
  {
  }

  lemma Rows20()
    ensures IsRow(ROW_20, 0x20) && IsRow(ROW_28, 0x28)
  {
  }

  lemma Rows30()
    ensures IsRow(ROW_30, 0x30) && IsRow(ROW_38, 0x38)
  {
  }

  lemma Rows40()
    ensures IsRow(ROW_40, 0x40) && IsRow(ROW_48, 0x48)
  {
  }

  lemma Rows50()
    ensures IsRow(ROW_50, 0x50) && IsRow(ROW_58, 0x58)
  {
  }

  lemma Rows60()
    ensures IsRow(ROW_60, 0x60) && IsRow(ROW_68, 0x68)
  {
  }

  lemma Rows70()
    ensures IsRow(ROW_70, 0x70) && IsRow(ROW_78, 0x78)
  {
  }

  lemma Rows80()
    ensures IsRow(ROW_80, 0x80) && IsRow(ROW_88, 0x88)
  {
  }

  lemma Rows90()
    ensures IsRow(ROW_90, 0x90) && IsRow(ROW_98, 0x98)
  {
  }

  lemma RowsA0()
    ensures IsRow(ROW_A0, 0xA0) && IsRow(ROW_A8, 0xA8)
  {
  }

  lemma RowsB0()
    ensures IsRow(ROW_B0, 0xB0) && IsRow(ROW_B8, 0xB8)
  {
  }

  lemma RowsC0()
    ensures IsRow(ROW_C0, 0xC0) && IsRow(ROW_C8, 0xC8)
  {
  }

  lemma RowsD0()
    ensures IsRow(ROW_D0, 0xD0) && IsRow(ROW_D8, 0xD8)
  {
  }

  lemma RowsE0()
    ensures IsRow(ROW_E0, 0xE0) && IsRow(ROW_E8, 0xE8)
  {
  }

  lemma RowsF0()
    ensures IsRow(ROW_F0, 0xF0) && IsRow(ROW_F8, 0xF8)
  {
  }

  lemma RowOfTable(k: nat)
    requires k < 0x20
    ensures |ROWS| == 0x20 && IsRow(ROWS[k], 8 * k)
  {
    hide ShiftedIndex, IsRow;
    hide ROW_00, ROW_08, ROW_10, ROW_18, ROW_20, ROW_28, ROW_30, ROW_38,
         ROW_40, ROW_48, ROW_50, ROW_58, ROW_60, ROW_68, ROW_70, ROW_78,
         ROW_80, ROW_88, ROW_90, ROW_98, ROW_A0, ROW_A8, ROW_B0, ROW_B8,
         ROW_C0, ROW_C8, ROW_D0, ROW_D8, ROW_E0, ROW_E8, ROW_F0, ROW_F8;
    match k / 2
    case 0 => Rows00();
    case 1 => Rows10();
    case 2 => Rows20();
    case 3 => Rows30();
    case 4 => Rows40();
    case 5 => Rows50();
    case 6 => Rows60();
    case 7 => Rows70();
    case 8 => Rows80();
    case 9 => Rows90();
    case 10 => RowsA0();
    case 11 => RowsB0();
    case 12 => RowsC0();
    case 13 => RowsD0();
    case 14 => RowsE0();
    case _ => RowsF0();
  }

  lemma RowAt(row: seq<bv32>, start: nat, j: nat)
    requires start <= 0xF8 && IsRow(row, start) && j < 8
    ensures |row| == 8 && row[j] == ShiftedIndex(start + j)
  {
    hide ShiftedIndex;
  }

  lemma {:induction false} FlattenAt(rows: seq<seq<bv32>>, start: nat, i: nat)
    requires start + 8 * |rows| <= 0x100 && i < 8 * |rows|
    requires forall k :: 0 <= k < |rows| ==> IsRow(rows[k], start + 8 * k)
    ensures |Flatten(rows)| == 8 * |rows| && Flatten(rows)[i] == ShiftedIndex(start + i)
    decreases |rows|
  {
    hide ShiftedIndex, IsRow;
    var rest := rows[1..];
    assert IsRow(rows[0], start + 8 * 0);
    if rest != [] {
      forall k | 0 <= k < |rest|
        ensures IsRow(rest[k], start + 8 + 8 * k)
      {
        assert IsRow(rows[k + 1], start + 8 * (k + 1));
      }
      FlattenAt(rest, start + 8, if i < 8 then 0 else i - 8);
    }
    RowAt(rows[0], start, if i < 8 then i else 0);
  }

  /** Every entry of the table is its index shifted out of the register. */
  lemma TableHoldsShiftedIndices(i: nat)
    requires i < 0x100
    ensures |TABLE| == 0x100 && TABLE[i] == ShiftedIndex(i)
  {
    hide ShiftedIndex, IsRow, ROWS, Flatten;
    RowOfTable(0);
    forall k | 0 <= k < 0x20
      ensures |ROWS| == 0x20 && IsRow(ROWS[k], 8 * k)
    {
      RowOfTable(k);
    }
    FlattenAt(ROWS, 0, i);
  }
}
