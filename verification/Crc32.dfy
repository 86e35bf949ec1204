/**
 The MPEG CRC of srs_kernel_utility.cpp: a table of 256 words, shifted in one byte at a time.
 Its reference is the bit-serial division of Annex A of ISO/IEC 13818-1, polynomial 0x04c11db7.
 */
module Crc32 {
  import opened Bytes

  const POLYNOMIAL: bv32 := 0x04c11db7

  const ROW_0: seq<bv32> := [
    0x00000000, 0x04c11db7, 0x09823b6e, 0x0d4326d9, 0x130476dc, 0x17c56b6b, 0x1a864db2, 0x1e475005,
    0x2608edb8, 0x22c9f00f, 0x2f8ad6d6, 0x2b4bcb61, 0x350c9b64, 0x31cd86d3, 0x3c8ea00a, 0x384fbdbd]
  const ROW_1: seq<bv32> := [
    0x4c11db70, 0x48d0c6c7, 0x4593e01e, 0x4152fda9, 0x5f15adac, 0x5bd4b01b, 0x569796c2, 0x52568b75,
    0x6a1936c8, 0x6ed82b7f, 0x639b0da6, 0x675a1011, 0x791d4014, 0x7ddc5da3, 0x709f7b7a, 0x745e66cd]
  const ROW_2: seq<bv32> := [
    0x9823b6e0, 0x9ce2ab57, 0x91a18d8e, 0x95609039, 0x8b27c03c, 0x8fe6dd8b, 0x82a5fb52, 0x8664e6e5,
    0xbe2b5b58, 0xbaea46ef, 0xb7a96036, 0xb3687d81, 0xad2f2d84, 0xa9ee3033, 0xa4ad16ea, 0xa06c0b5d]
  const ROW_3: seq<bv32> := [
    0xd4326d90, 0xd0f37027, 0xddb056fe, 0xd9714b49, 0xc7361b4c, 0xc3f706fb, 0xceb42022, 0xca753d95,
    0xf23a8028, 0xf6fb9d9f, 0xfbb8bb46, 0xff79a6f1, 0xe13ef6f4, 0xe5ffeb43, 0xe8bccd9a, 0xec7dd02d]
  const ROW_4: seq<bv32> := [
    0x34867077, 0x30476dc0, 0x3d044b19, 0x39c556ae, 0x278206ab, 0x23431b1c, 0x2e003dc5, 0x2ac12072,
    0x128e9dcf, 0x164f8078, 0x1b0ca6a1, 0x1fcdbb16, 0x018aeb13, 0x054bf6a4, 0x0808d07d, 0x0cc9cdca]
  const ROW_5: seq<bv32> := [
    0x7897ab07, 0x7c56b6b0, 0x71159069, 0x75d48dde, 0x6b93dddb, 0x6f52c06c, 0x6211e6b5, 0x66d0fb02,
    0x5e9f46bf, 0x5a5e5b08, 0x571d7dd1, 0x53dc6066, 0x4d9b3063, 0x495a2dd4, 0x44190b0d, 0x40d816ba]
  const ROW_6: seq<bv32> := [
    0xaca5c697, 0xa864db20, 0xa527fdf9, 0xa1e6e04e, 0xbfa1b04b, 0xbb60adfc, 0xb6238b25, 0xb2e29692,
    0x8aad2b2f, 0x8e6c3698, 0x832f1041, 0x87ee0df6, 0x99a95df3, 0x9d684044, 0x902b669d, 0x94ea7b2a]
  const ROW_7: seq<bv32> := [
    0xe0b41de7, 0xe4750050, 0xe9362689, 0xedf73b3e, 0xf3b06b3b, 0xf771768c, 0xfa325055, 0xfef34de2,
    0xc6bcf05f, 0xc27dede8, 0xcf3ecb31, 0xcbffd686, 0xd5b88683, 0xd1799b34, 0xdc3abded, 0xd8fba05a]
  const ROW_8: seq<bv32> := [
    0x690ce0ee, 0x6dcdfd59, 0x608edb80, 0x644fc637, 0x7a089632, 0x7ec98b85, 0x738aad5c, 0x774bb0eb,
    0x4f040d56, 0x4bc510e1, 0x46863638, 0x42472b8f, 0x5c007b8a, 0x58c1663d, 0x558240e4, 0x51435d53]
  const ROW_9: seq<bv32> := [
    0x251d3b9e, 0x21dc2629, 0x2c9f00f0, 0x285e1d47, 0x36194d42, 0x32d850f5, 0x3f9b762c, 0x3b5a6b9b,
    0x0315d626, 0x07d4cb91, 0x0a97ed48, 0x0e56f0ff, 0x1011a0fa, 0x14d0bd4d, 0x19939b94, 0x1d528623]
  const ROW_A: seq<bv32> := [
    0xf12f560e, 0xf5ee4bb9, 0xf8ad6d60, 0xfc6c70d7, 0xe22b20d2, 0xe6ea3d65, 0xeba91bbc, 0xef68060b,
    0xd727bbb6, 0xd3e6a601, 0xdea580d8, 0xda649d6f, 0xc423cd6a, 0xc0e2d0dd, 0xcda1f604, 0xc960ebb3]
  const ROW_B: seq<bv32> := [
    0xbd3e8d7e, 0xb9ff90c9, 0xb4bcb610, 0xb07daba7, 0xae3afba2, 0xaafbe615, 0xa7b8c0cc, 0xa379dd7b,
    0x9b3660c6, 0x9ff77d71, 0x92b45ba8, 0x9675461f, 0x8832161a, 0x8cf30bad, 0x81b02d74, 0x857130c3]
  const ROW_C: seq<bv32> := [
    0x5d8a9099, 0x594b8d2e, 0x5408abf7, 0x50c9b640, 0x4e8ee645, 0x4a4ffbf2, 0x470cdd2b, 0x43cdc09c,
    0x7b827d21, 0x7f436096, 0x7200464f, 0x76c15bf8, 0x68860bfd, 0x6c47164a, 0x61043093, 0x65c52d24]
  const ROW_D: seq<bv32> := [
    0x119b4be9, 0x155a565e, 0x18197087, 0x1cd86d30, 0x029f3d35, 0x065e2082, 0x0b1d065b, 0x0fdc1bec,
    0x3793a651, 0x3352bbe6, 0x3e119d3f, 0x3ad08088, 0x2497d08d, 0x2056cd3a, 0x2d15ebe3, 0x29d4f654]
  const ROW_E: seq<bv32> := [
    0xc5a92679, 0xc1683bce, 0xcc2b1d17, 0xc8ea00a0, 0xd6ad50a5, 0xd26c4d12, 0xdf2f6bcb, 0xdbee767c,
    0xe3a1cbc1, 0xe760d676, 0xea23f0af, 0xeee2ed18, 0xf0a5bd1d, 0xf464a0aa, 0xf9278673, 0xfde69bc4]
  const ROW_F: seq<bv32> := [
    0x89b8fd09, 0x8d79e0be, 0x803ac667, 0x84fbdbd0, 0x9abc8bd5, 0x9e7d9662, 0x933eb0bb, 0x97ffad0c,
    0xafb010b1, 0xab710d06, 0xa6322bdf, 0xa2f33668, 0xbcb4666d, 0xb8757bda, 0xb5365d03, 0xb1f740b4]

  function TableRow(row: nat): (words: seq<bv32>)
    requires row < 16
    ensures |words| == 16
  {
    if row == 0x0 then ROW_0
    else if row == 0x1 then ROW_1
    else if row == 0x2 then ROW_2
    else if row == 0x3 then ROW_3
    else if row == 0x4 then ROW_4
    else if row == 0x5 then ROW_5
    else if row == 0x6 then ROW_6
    else if row == 0x7 then ROW_7
    else if row == 0x8 then ROW_8
    else if row == 0x9 then ROW_9
    else if row == 0xA then ROW_A
    else if row == 0xB then ROW_B
    else if row == 0xC then ROW_C
    else if row == 0xD then ROW_D
    else if row == 0xE then ROW_E
    else ROW_F
  }

  predicate Top(crc: bv32) { crc >= 0x8000_0000 }

  /** One bit of the division: shift out the top bit, subtract the polynomial when it was set. */
  function BitStep(crc: bv32): bv32 {
    if Top(crc) then (crc << 1) ^ POLYNOMIAL else crc << 1
  }

  function BitSteps8(crc: bv32): bv32 {
    BitStep(BitStep(BitStep(BitStep(BitStep(BitStep(BitStep(BitStep(crc))))))))
  }

  /** The reference: the register takes in one message bit. */
  function SerialBit(crc: bv32, bit: bool): bv32 {
    if Top(crc) != bit then (crc << 1) ^ POLYNOMIAL else crc << 1
  }

  function Next(bits: bv32): bv32 { bits << 1 }

  /** The reference takes in the top `n` bits of `bits`, most significant first. */
  function SerialBits(n: nat, crc: bv32, bits: bv32): bv32 {
    if n == 0 then crc else SerialBits(n - 1, SerialBit(crc, Top(bits)), Next(bits))
  }

  function Xor(a: bv32, b: bv32): bv32 { a ^ b }

  // ---------- the division is linear ----------

  ghost predicate IsStep(x: bv32, y: bv32) {
    if Top(x) then y == (x << 1) ^ POLYNOMIAL else y == x << 1
  }

  lemma TopOfXor(x: bv32, y: bv32)
    ensures Top(x ^ y) == (Top(x) != Top(y))
  {
  }

  lemma NoTop(x: bv32, y: bv32, a: bv32, b: bv32, c: bv32)
    requires a == x << 1 && b == y << 1 && c == (x ^ y) << 1
    ensures c == a ^ b
  {
  }

  lemma OneTop(x: bv32, y: bv32, a: bv32, b: bv32, c: bv32)
    requires a == (x << 1) ^ POLYNOMIAL && b == y << 1 && c == ((x ^ y) << 1) ^ POLYNOMIAL
    ensures c == a ^ b
  {
  }

  lemma BothTop(x: bv32, y: bv32, a: bv32, b: bv32, c: bv32)
    requires a == (x << 1) ^ POLYNOMIAL && b == (y << 1) ^ POLYNOMIAL && c == (x ^ y) << 1
    ensures c == a ^ b
  {
  }

  lemma IsStepLinear(x: bv32, y: bv32, z: bv32, a: bv32, b: bv32, c: bv32)
    requires IsStep(x, a) && IsStep(y, b) && z == x ^ y && IsStep(z, c)
    ensures c == a ^ b
  {
    TopOfXor(x, y);
    if Top(x) && Top(y) {
      BothTop(x, y, a, b, c);
    } else if Top(x) {
      OneTop(x, y, a, b, c);
    } else if Top(y) {
      OneTop(y, x, b, a, c);
    } else {
      NoTop(x, y, a, b, c);
    }
  }

  lemma BitStepIsStep(x: bv32)
    ensures IsStep(x, BitStep(x))
  {
  }

  lemma BitStepOfXor(x: bv32, y: bv32)
    ensures BitStep(x ^ y) == BitStep(x) ^ BitStep(y)
  {
    hide *;
    BitStepIsStep(x);
    BitStepIsStep(y);
    BitStepIsStep(x ^ y);
    IsStepLinear(x, y, x ^ y, BitStep(x), BitStep(y), BitStep(x ^ y));
  }

  lemma XorMeaning(x: bv32, y: bv32)
    ensures Xor(x, y) == x ^ y
  {
  }

  lemma BitStepLinear(x: bv32, y: bv32)
    ensures BitStep(Xor(x, y)) == Xor(BitStep(x), BitStep(y))
  {
    hide *;
    XorMeaning(x, y);
    BitStepOfXor(x, y);
    XorMeaning(BitStep(x), BitStep(y));
  }

  function Steps(n: nat, crc: bv32): bv32 {
    if n == 0 then crc else Steps(n - 1, BitStep(crc))
  }

  lemma {:induction false} StepsLinear(n: nat, x: bv32, y: bv32)
    ensures Steps(n, Xor(x, y)) == Xor(Steps(n, x), Steps(n, y))
  {
    hide BitStep, Xor;
    if n > 0 {
      BitStepLinear(x, y);
      StepsLinear(n - 1, BitStep(x), BitStep(y));
    }
  }

  lemma Steps8(x: bv32)
    ensures Steps(8, x) == BitSteps8(x)
  {
    hide BitStep;
    var x2 := BitStep(BitStep(x));
    var x4 := BitStep(BitStep(x2));
    var x6 := BitStep(BitStep(x4));
    assert Steps(2, x6) == Steps(1, BitStep(x6));
    assert Steps(4, x4) == Steps(2, x6) by { assert Steps(3, BitStep(x4)) == Steps(2, x6); }
    assert Steps(6, x2) == Steps(4, x4) by { assert Steps(5, BitStep(x2)) == Steps(4, x4); }
    assert Steps(8, x) == Steps(6, x2) by { assert Steps(7, BitStep(x)) == Steps(6, x2); }
  }

  lemma LowBytesShift(x: bv32)
    requires x < 0x100_0000
    ensures BitSteps8(x) == x << 8
  {
  }

  // ---------- the table ----------

  /** The words of a row are the remainders of the bytes that have its high nibble. */
  ghost predicate RowMatches(words: seq<bv32>, high: bv32)
    requires |words| == 16
  {
    && words[0x0] == BitSteps8((high | 0x0) << 24)
    && words[0x1] == BitSteps8((high | 0x1) << 24)
    && words[0x2] == BitSteps8((high | 0x2) << 24)
    && words[0x3] == BitSteps8((high | 0x3) << 24)
    && words[0x4] == BitSteps8((high | 0x4) << 24)
    && words[0x5] == BitSteps8((high | 0x5) << 24)
    && words[0x6] == BitSteps8((high | 0x6) << 24)
    && words[0x7] == BitSteps8((high | 0x7) << 24)
    && words[0x8] == BitSteps8((high | 0x8) << 24)
    && words[0x9] == BitSteps8((high | 0x9) << 24)
    && words[0xA] == BitSteps8((high | 0xA) << 24)
    && words[0xB] == BitSteps8((high | 0xB) << 24)
    && words[0xC] == BitSteps8((high | 0xC) << 24)
    && words[0xD] == BitSteps8((high | 0xD) << 24)
    && words[0xE] == BitSteps8((high | 0xE) << 24)
    && words[0xF] == BitSteps8((high | 0xF) << 24)
  }

  lemma Row0()
    ensures RowMatches(ROW_0, 0x00)
  {
  }

  lemma Row1()
    ensures RowMatches(ROW_1, 0x10)
  {
  }

  lemma Row2()
    ensures RowMatches(ROW_2, 0x20)
  {
  }

  lemma Row3()
    ensures RowMatches(ROW_3, 0x30)
  {
  }

  lemma Row4()
    ensures RowMatches(ROW_4, 0x40)
  {
  }

  lemma Row5()
    ensures RowMatches(ROW_5, 0x50)
  {
  }

  lemma Row6()
    ensures RowMatches(ROW_6, 0x60)
  {
  }

  lemma Row7()
    ensures RowMatches(ROW_7, 0x70)
  {
  }

  lemma Row8()
    ensures RowMatches(ROW_8, 0x80)
  {
  }

  lemma Row9()
    ensures RowMatches(ROW_9, 0x90)
  {
  }

  lemma RowA()
    ensures RowMatches(ROW_A, 0xA0)
  {
  }

  lemma RowB()
    ensures RowMatches(ROW_B, 0xB0)
  {
  }

  lemma RowC()
    ensures RowMatches(ROW_C, 0xC0)
  {
  }

  lemma RowD()
    ensures RowMatches(ROW_D, 0xD0)
  {
  }

  lemma RowE()
    ensures RowMatches(ROW_E, 0xE0)
  {
  }

  lemma RowF()
    ensures RowMatches(ROW_F, 0xF0)
  {
  }

  lemma RowOf(row: bv8)
    requires row < 16
    ensures RowMatches(TableRow(row as int), (row as bv32) << 4)
  {
    hide BitSteps8, RowMatches;
    if row == 0x0 {
      Row0();
    } else if row == 0x1 {
      Row1();
    } else if row == 0x2 {
      Row2();
    } else if row == 0x3 {
      Row3();
    } else if row == 0x4 {
      Row4();
    } else if row == 0x5 {
      Row5();
    } else if row == 0x6 {
      Row6();
    } else if row == 0x7 {
      Row7();
    } else if row == 0x8 {
      Row8();
    } else if row == 0x9 {
      Row9();
    } else if row == 0xA {
      RowA();
    } else if row == 0xB {
      RowB();
    } else if row == 0xC {
      RowC();
    } else if row == 0xD {
      RowD();
    } else if row == 0xE {
      RowE();
    } else {
      RowF();
    }
  }

  lemma WordOf(words: seq<bv32>, high: bv32, k: bv8)
    requires |words| == 16 && RowMatches(words, high) && k < 16
    ensures words[k as int] == BitSteps8((high | (k as bv32)) << 24)
  {
    hide BitSteps8;
    if k == 0x0 {
    } else if k == 0x1 {
    } else if k == 0x2 {
    } else if k == 0x3 {
    } else if k == 0x4 {
    } else if k == 0x5 {
    } else if k == 0x6 {
    } else if k == 0x7 {
    } else if k == 0x8 {
    } else if k == 0x9 {
    } else if k == 0xA {
    } else if k == 0xB {
    } else if k == 0xC {
    } else if k == 0xD {
    } else if k == 0xE {
    }
  }

  /** The table entry of byte `b`. */
  function Table(b: bv8): bv32 { TableRow((b >> 4) as int)[(b & 0xF) as int] }

  lemma TableIsDivision(b: bv8)
    ensures Table(b) == BitSteps8((b as bv32) << 24)
  {
    hide BitSteps8, RowMatches, TableRow;
    RowOf(b >> 4);
    WordOf(TableRow((b >> 4) as int), ((b >> 4) as bv32) << 4, b & 0xF);
    assert ((((b >> 4) as bv32) << 4) | ((b & 0xF) as bv32)) == b as bv32;
  }

  // ---------- one byte ----------

  /** The loop body of mpegts_crc32. */
  function ByteStep(crc: bv32, b: bv8): bv32 {
    (crc << 8) ^ Table(((crc >> 24) as bv8) ^ b)
  }

  ghost predicate IsSerialBit(x: bv32, bit: bool, y: bv32) {
    if Top(x) != bit then y == (x << 1) ^ POLYNOMIAL else y == x << 1
  }

  lemma SerialBitIs(x: bv32, bit: bool)
    ensures IsSerialBit(x, bit, SerialBit(x, bit))
  {
  }

  lemma SerialOnTop(r: bv32, t: bv32, n: bv32, a: bv32, c: bv32)
    requires n == t << 1 && a == (r << 1) ^ POLYNOMIAL && c == ((r ^ t) << 1) ^ POLYNOMIAL
    ensures a ^ n == c
  {
  }

  lemma SerialOffTop(r: bv32, t: bv32, n: bv32, a: bv32, c: bv32)
    requires n == t << 1 && a == r << 1 && c == (r ^ t) << 1
    ensures a ^ n == c
  {
  }

  ghost predicate IsNext(t: bv32, n: bv32) { n == t << 1 }

  lemma NextIs(t: bv32)
    ensures IsNext(t, Next(t))
  {
  }

  lemma SerialIsStep(r: bv32, t: bv32, n: bv32, z: bv32, a: bv32, c: bv32)
    requires IsNext(t, n) && IsSerialBit(r, Top(t), a) && z == r ^ t && IsStep(z, c)
    ensures a ^ n == c
  {
    TopOfXor(r, t);
    if Top(r) != Top(t) {
      SerialOnTop(r, t, n, a, c);
    } else {
      SerialOffTop(r, t, n, a, c);
    }
  }

  lemma SerialBitOfXor(r: bv32, t: bv32)
    ensures SerialBit(r, Top(t)) ^ Next(t) == BitStep(r ^ t)
  {
    hide *;
    NextIs(t);
    SerialBitIs(r, Top(t));
    BitStepIsStep(r ^ t);
    SerialIsStep(r, t, Next(t), r ^ t, SerialBit(r, Top(t)), BitStep(r ^ t));
  }

  /** Taking in a bit is a division step on the register with the pending bits subtracted. */
  lemma SerialBitIsStep(r: bv32, t: bv32)
    ensures Xor(SerialBit(r, Top(t)), Next(t)) == BitStep(Xor(r, t))
  {
    hide *;
    XorMeaning(r, t);
    SerialBitOfXor(r, t);
    XorMeaning(SerialBit(r, Top(t)), Next(t));
  }

  function Nexts(n: nat, bits: bv32): bv32 {
    if n == 0 then bits else Nexts(n - 1, Next(bits))
  }

  lemma {:induction false} SerialSteps(n: nat, r: bv32, t: bv32)
    ensures Xor(SerialBits(n, r, t), Nexts(n, t)) == Steps(n, Xor(r, t))
  {
    hide BitStep, Xor, Next, SerialBit, Top;
    if n > 0 {
      SerialBitIsStep(r, t);
      SerialSteps(n - 1, SerialBit(r, Top(t)), Next(t));
    }
  }

  lemma NextsOfByte(b: bv8)
    ensures Nexts(8, (b as bv32) << 24) == 0
  {
    var t := (b as bv32) << 24;
    assert Nexts(6, t << 2) == Nexts(4, t << 4) by { assert Nexts(5, t << 3) == Nexts(4, t << 4); }
    assert Nexts(4, t << 4) == Nexts(2, t << 6) by { assert Nexts(3, t << 5) == Nexts(2, t << 6); }
    assert Nexts(2, t << 6) == t << 8 by { assert Nexts(1, t << 7) == t << 8; }
  }

  lemma ByteParts(crc: bv32, b: bv8)
    ensures Xor(crc, (b as bv32) << 24)
         == Xor(((((crc >> 24) as bv8) ^ b) as bv32) << 24, crc & 0xFF_FFFF)
    ensures (crc & 0xFF_FFFF) << 8 == crc << 8
  {
  }

  lemma ByteStepMeaning(crc: bv32, b: bv8)
    ensures ByteStep(crc, b) == Xor(Table(((crc >> 24) as bv8) ^ b), (crc & 0xFF_FFFF) << 8)
  {
    hide Table;
  }

  lemma XorZero(x: bv32)
    ensures Xor(x, 0) == x
  {
  }

  /** One table step is eight bit-serial steps. */
  lemma ByteStepIsSerial(crc: bv32, b: bv8)
    ensures ByteStep(crc, b) == SerialBits(8, crc, (b as bv32) << 24)
  {
    hide *;
    var t := (b as bv32) << 24;
    var index := ((crc >> 24) as bv8) ^ b;
    var low := crc & 0xFF_FFFF;
    SerialSteps(8, crc, t);
    NextsOfByte(b);
    ByteParts(crc, b);
    XorZero(SerialBits(8, crc, t));
    StepsLinear(8, (index as bv32) << 24, low);
    Steps8((index as bv32) << 24);
    Steps8(low);
    TableIsDivision(index);
    LowBytesShift(low);
    ByteStepMeaning(crc, b);
  }

  // ---------- byte strings ----------

  /** The register after the bytes of `s`, by the reference. */
  function Serial(crc: bv32, s: seq<byte>): bv32 {
    if s == [] then crc
    else SerialBits(8, Serial(crc, s[..|s| - 1]), (s[|s| - 1] as bv8 as bv32) << 24)
  }

  const INITIAL: bv32 := 0xFFFF_FFFF

  /** mpegts_crc32 over `data[from..from + len]`: the table loop computes the bit-serial remainder. */
  method MpegtsCrc32(data: array<byte>, from: nat, len: nat) returns (crc: bv32)
    requires from + len <= data.Length
    ensures crc == Serial(INITIAL, data[from..from + len])
  {
    hide ByteStep, SerialBits;
    crc := INITIAL;
    for i := 0 to len
      invariant crc == Serial(INITIAL, data[from..from + i])
    {
      var b := data[from + i] as bv8;
      ghost var before := crc;
      assert data[from..from + i + 1][..i] == data[from..from + i];
      crc := ByteStep(crc, b);
      ByteStepIsSerial(before, b);
    }
  }

  /** The register as the four bytes that write_4bytes puts on the wire. */
  function WireBytes(crc: bv32): (s: seq<byte>)
    ensures |s| == 4
  {
    [(crc >> 24) as int, ((crc >> 16) & 0xFF) as int, ((crc >> 8) & 0xFF) as int, (crc & 0xFF) as int]
  }

  /** srs_crc32: the value of those bytes. */
  function Crc(s: seq<byte>): (v: nat)
  {
    Unsigned(WireBytes(Serial(INITIAL, s)))
  }

  /** The value fits the four bytes it is written in. */
  lemma CrcOnTheWire(s: seq<byte>)
    ensures BigEndian(4, Crc(s)) == WireBytes(Serial(INITIAL, s)) && Crc(s) < 0x1_0000_0000
  {
    UnsignedRoundTrip(WireBytes(Serial(INITIAL, s)));
    UnsignedBound(WireBytes(Serial(INITIAL, s)));
  }

  lemma SerialAppend(s: seq<byte>, b: byte)
    ensures Serial(INITIAL, s + [b]) == ByteStep(Serial(INITIAL, s), b as bv8)
  {
    assert (s + [b])[..|s|] == s;
    ByteStepIsSerial(Serial(INITIAL, s), b as bv8);
  }

  function Drop8(crc: bv32): bv32 { crc << 8 }

  function TopByte(crc: bv32): bv8 { (crc >> 24) as bv8 }

  lemma StepByTopByte(crc: bv32)
    ensures ByteStep(crc, TopByte(crc)) == Drop8(crc)
  {
    assert TopByte(crc) ^ TopByte(crc) == 0;
    assert Table(0) == 0;
  }

  /** Byte `k` on the wire is the top byte after `k` bytes are dropped. */
  lemma WireBytesAreTopBytes(c: bv32)
    ensures WireBytes(c)[0] == TopByte(c) as int
    ensures WireBytes(c)[1] == TopByte(Drop8(c)) as int
    ensures WireBytes(c)[2] == TopByte(Drop8(Drop8(c))) as int
    ensures WireBytes(c)[3] == TopByte(Drop8(Drop8(Drop8(c)))) as int
    ensures Drop8(Drop8(Drop8(Drop8(c)))) == 0
  {
  }

  lemma SerialAppendBits(s: seq<byte>, b: byte, bits: bv8)
    requires b == bits as int
    ensures Serial(INITIAL, s + [b]) == ByteStep(Serial(INITIAL, s), bits)
  {
    assert b as bv8 == bits;
    SerialAppend(s, b);
  }

  /** Appending the CRC big-endian leaves remainder zero (Annex A of ISO/IEC 13818-1). */
  lemma AppendedCrcLeavesZero(s: seq<byte>)
    ensures Serial(INITIAL, s + BigEndian(4, Crc(s))) == 0
  {
    hide ByteStep, SerialBits, Serial, WireBytes, Crc, Drop8, TopByte;
    CrcOnTheWire(s);
    var c := Serial(INITIAL, s);
    var w := WireBytes(c);
    WireBytesAreTopBytes(c);
    StepByTopByte(c);
    StepByTopByte(Drop8(c));
    StepByTopByte(Drop8(Drop8(c)));
    StepByTopByte(Drop8(Drop8(Drop8(c))));
    SerialAppendBits(s, w[0], TopByte(c));
    SerialAppendBits(s + [w[0]], w[1], TopByte(Drop8(c)));
    SerialAppendBits(s + [w[0]] + [w[1]], w[2], TopByte(Drop8(Drop8(c))));
    SerialAppendBits(s + [w[0]] + [w[1]] + [w[2]], w[3], TopByte(Drop8(Drop8(Drop8(c)))));
    assert s + w == s + [w[0]] + [w[1]] + [w[2]] + [w[3]];
  }
}
