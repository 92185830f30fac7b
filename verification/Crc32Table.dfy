/** The constant table of Common/Crc32Computer.h, and the proof that it tabulates eight division steps. */
module Crc32Table {
  /** The generator polynomial of CRC-32, reflected: bit k is the coefficient of x^(31-k). */
  const POLYNOMIAL: bv32 := 0xEDB88320

  /** One step of the division: shift the register, subtract the generator when a one falls out. */
  function Clock(c: bv32): bv32 {
    if c & 1 == 1 then (c >> 1) ^ POLYNOMIAL else c >> 1
  }

  function Clocks(n: nat, c: bv32): bv32 {
    if n == 0 then c else Clocks(n - 1, Clock(c))
  }

  // The 256 constants, sixteen to a row.

  function Row0(): (row: seq<bv32>)
    ensures |row| == 16
  {
    [0x00000000, 0x77073096, 0xee0e612c, 0x990951ba, 0x076dc419, 0x706af48f,
     0xe963a535, 0x9e6495a3, 0x0edb8832, 0x79dcb8a4, 0xe0d5e91e, 0x97d2d988,
     0x09b64c2b, 0x7eb17cbd, 0xe7b82d07, 0x90bf1d91]
  }

  function Row1(): (row: seq<bv32>)
    ensures |row| == 16
  {
    [0x1db71064, 0x6ab020f2, 0xf3b97148, 0x84be41de, 0x1adad47d, 0x6ddde4eb,
     0xf4d4b551, 0x83d385c7, 0x136c9856, 0x646ba8c0, 0xfd62f97a, 0x8a65c9ec,
     0x14015c4f, 0x63066cd9, 0xfa0f3d63, 0x8d080df5]
  }

  function Row2(): (row: seq<bv32>)
    ensures |row| == 16
  {
    [0x3b6e20c8, 0x4c69105e, 0xd56041e4, 0xa2677172, 0x3c03e4d1, 0x4b04d447,
     0xd20d85fd, 0xa50ab56b, 0x35b5a8fa, 0x42b2986c, 0xdbbbc9d6, 0xacbcf940,
     0x32d86ce3, 0x45df5c75, 0xdcd60dcf, 0xabd13d59]
  }

  function Row3(): (row: seq<bv32>)
    ensures |row| == 16
  {
    [0x26d930ac, 0x51de003a, 0xc8d75180, 0xbfd06116, 0x21b4f4b5, 0x56b3c423,
     0xcfba9599, 0xb8bda50f, 0x2802b89e, 0x5f058808, 0xc60cd9b2, 0xb10be924,
     0x2f6f7c87, 0x58684c11, 0xc1611dab, 0xb6662d3d]
  }

  function Row4(): (row: seq<bv32>)
    ensures |row| == 16
  {
    [0x76dc4190, 0x01db7106, 0x98d220bc, 0xefd5102a, 0x71b18589, 0x06b6b51f,
     0x9fbfe4a5, 0xe8b8d433, 0x7807c9a2, 0x0f00f934, 0x9609a88e, 0xe10e9818,
     0x7f6a0dbb, 0x086d3d2d, 0x91646c97, 0xe6635c01]
  }

  function Row5(): (row: seq<bv32>)
    ensures |row| == 16
  {
    [0x6b6b51f4, 0x1c6c6162, 0x856530d8, 0xf262004e, 0x6c0695ed, 0x1b01a57b,
     0x8208f4c1, 0xf50fc457, 0x65b0d9c6, 0x12b7e950, 0x8bbeb8ea, 0xfcb9887c,
     0x62dd1ddf, 0x15da2d49, 0x8cd37cf3, 0xfbd44c65]
  }

  function Row6(): (row: seq<bv32>)
    ensures |row| == 16
  {
    [0x4db26158, 0x3ab551ce, 0xa3bc0074, 0xd4bb30e2, 0x4adfa541, 0x3dd895d7,
     0xa4d1c46d, 0xd3d6f4fb, 0x4369e96a, 0x346ed9fc, 0xad678846, 0xda60b8d0,
     0x44042d73, 0x33031de5, 0xaa0a4c5f, 0xdd0d7cc9]
  }

  function Row7(): (row: seq<bv32>)
    ensures |row| == 16
  {
    [0x5005713c, 0x270241aa, 0xbe0b1010, 0xc90c2086, 0x5768b525, 0x206f85b3,
     0xb966d409, 0xce61e49f, 0x5edef90e, 0x29d9c998, 0xb0d09822, 0xc7d7a8b4,
     0x59b33d17, 0x2eb40d81, 0xb7bd5c3b, 0xc0ba6cad]
  }

  function Row8(): (row: seq<bv32>)
    ensures |row| == 16
  {
    [0xedb88320, 0x9abfb3b6, 0x03b6e20c, 0x74b1d29a, 0xead54739, 0x9dd277af,
     0x04db2615, 0x73dc1683, 0xe3630b12, 0x94643b84, 0x0d6d6a3e, 0x7a6a5aa8,
     0xe40ecf0b, 0x9309ff9d, 0x0a00ae27, 0x7d079eb1]
  }

  function Row9(): (row: seq<bv32>)
    ensures |row| == 16
  {
    [0xf00f9344, 0x8708a3d2, 0x1e01f268, 0x6906c2fe, 0xf762575d, 0x806567cb,
     0x196c3671, 0x6e6b06e7, 0xfed41b76, 0x89d32be0, 0x10da7a5a, 0x67dd4acc,
     0xf9b9df6f, 0x8ebeeff9, 0x17b7be43, 0x60b08ed5]
  }

  function RowA(): (row: seq<bv32>)
    ensures |row| == 16
  {
    [0xd6d6a3e8, 0xa1d1937e, 0x38d8c2c4, 0x4fdff252, 0xd1bb67f1, 0xa6bc5767,
     0x3fb506dd, 0x48b2364b, 0xd80d2bda, 0xaf0a1b4c, 0x36034af6, 0x41047a60,
     0xdf60efc3, 0xa867df55, 0x316e8eef, 0x4669be79]
  }

  function RowB(): (row: seq<bv32>)
    ensures |row| == 16
  {
    [0xcb61b38c, 0xbc66831a, 0x256fd2a0, 0x5268e236, 0xcc0c7795, 0xbb0b4703,
     0x220216b9, 0x5505262f, 0xc5ba3bbe, 0xb2bd0b28, 0x2bb45a92, 0x5cb36a04,
     0xc2d7ffa7, 0xb5d0cf31, 0x2cd99e8b, 0x5bdeae1d]
  }

  function RowC(): (row: seq<bv32>)
    ensures |row| == 16
  {
    [0x9b64c2b0, 0xec63f226, 0x756aa39c, 0x026d930a, 0x9c0906a9, 0xeb0e363f,
     0x72076785, 0x05005713, 0x95bf4a82, 0xe2b87a14, 0x7bb12bae, 0x0cb61b38,
     0x92d28e9b, 0xe5d5be0d, 0x7cdcefb7, 0x0bdbdf21]
  }

  function RowD(): (row: seq<bv32>)
    ensures |row| == 16
  {
    [0x86d3d2d4, 0xf1d4e242, 0x68ddb3f8, 0x1fda836e, 0x81be16cd, 0xf6b9265b,
     0x6fb077e1, 0x18b74777, 0x88085ae6, 0xff0f6a70, 0x66063bca, 0x11010b5c,
     0x8f659eff, 0xf862ae69, 0x616bffd3, 0x166ccf45]
  }

  function RowE(): (row: seq<bv32>)
    ensures |row| == 16
  {
    [0xa00ae278, 0xd70dd2ee, 0x4e048354, 0x3903b3c2, 0xa7672661, 0xd06016f7,
     0x4969474d, 0x3e6e77db, 0xaed16a4a, 0xd9d65adc, 0x40df0b66, 0x37d83bf0,
     0xa9bcae53, 0xdebb9ec5, 0x47b2cf7f, 0x30b5ffe9]
  }

  function RowF(): (row: seq<bv32>)
    ensures |row| == 16
  {
    [0xbdbdf21c, 0xcabac28a, 0x53b39330, 0x24b4a3a6, 0xbad03605, 0xcdd70693,
     0x54de5729, 0x23d967bf, 0xb3667a2e, 0xc4614ab8, 0x5d681b02, 0x2a6f2b94,
     0xb40bbe37, 0xc30c8ea1, 0x5a05df1b, 0x2d02ef8d]
  }

  function LowRow(r: bv32): (row: seq<bv32>)
    ensures |row| == 16
  {
    match r
    case 0 => Row0()
    case 1 => Row1()
    case 2 => Row2()
    case 3 => Row3()
    case 4 => Row4()
    case 5 => Row5()
    case 6 => Row6()
    case _ => Row7()
  }

  function HighRow(r: bv32): (row: seq<bv32>)
    ensures |row| == 16
  {
    match r
    case 8 => Row8()
    case 9 => Row9()
    case 10 => RowA()
    case 11 => RowB()
    case 12 => RowC()
    case 13 => RowD()
    case 14 => RowE()
    case _ => RowF()
  }

  function TableRow(r: bv32): (row: seq<bv32>)
    requires r < 16
    ensures |row| == 16
  {
    if r < 8 then LowRow(r) else HighRow(r)
  }

  function TableEntry(index: bv32): bv32
    requires index < 256
  {
    TableRow(index >> 4)[(index & 0xF) as int]
  }

  // The rows are checked one by one. In the lemmas that combine them the number of steps is a variable n
  // that can only be 8: with the literal, every row would be evaluated again each time it is mentioned.

  ghost function Sixteen<T>(f: (bv32, bv32) -> T, base: bv32): seq<T> {
    [f(base, 0), f(base, 1), f(base, 2), f(base, 3), f(base, 4), f(base, 5), f(base, 6), f(base, 7),
     f(base, 8), f(base, 9), f(base, 10), f(base, 11), f(base, 12), f(base, 13), f(base, 14), f(base, 15)]
  }

  lemma SixteenAt<T>(f: (bv32, bv32) -> T, base: bv32, k: bv32)
    requires k < 16
    ensures (k as int) < 16 && Sixteen(f, base)[k as int] == f(base, k)
  {
    if k < 8 {
      assert k == 0 || k == 1 || k == 2 || k == 3 || k == 4 || k == 5 || k == 6 || k == 7;
    } else {
      assert k == 8 || k == 9 || k == 10 || k == 11 || k == 12 || k == 13 || k == 14 || k == 15;
    }
  }

  ghost function Remainder(n: nat): (bv32, bv32) -> bv32 {
    (base, k) => Clocks(n, base | k)
  }

  ghost function DividedRow(n: nat, base: bv32): seq<bv32> {
    [Clocks(n, base), Clocks(n, base | 1), Clocks(n, base | 2), Clocks(n, base | 3),
     Clocks(n, base | 4), Clocks(n, base | 5), Clocks(n, base | 6), Clocks(n, base | 7),
     Clocks(n, base | 8), Clocks(n, base | 9), Clocks(n, base | 10), Clocks(n, base | 11),
     Clocks(n, base | 12), Clocks(n, base | 13), Clocks(n, base | 14), Clocks(n, base | 15)]
  }

  // From here on the number of steps is a parameter n that happens to be 8, written as two bounds: a literal 8, or
  // n == 8, would make the verifier unfold all eight steps wherever Clocks(n, ...) is mentioned.

  lemma Row0Divided(n: nat, k: bv32)
    requires 8 <= n <= 8 && k < 16
    ensures (k as int) < 16 && Row0()[k as int] == Clocks(n, 0x00 | k)
  {
    assert Row0() == DividedRow(8, 0x00);
    assert Row0() == Sixteen(Remainder(n), 0x00);
    SixteenAt(Remainder(n), 0x00, k);
  }

  lemma Row1Divided(n: nat, k: bv32)
    requires 8 <= n <= 8 && k < 16
    ensures (k as int) < 16 && Row1()[k as int] == Clocks(n, 0x10 | k)
  {
    assert Row1() == DividedRow(8, 0x10);
    assert Row1() == Sixteen(Remainder(n), 0x10);
    SixteenAt(Remainder(n), 0x10, k);
  }

  lemma Row2Divided(n: nat, k: bv32)
    requires 8 <= n <= 8 && k < 16
    ensures (k as int) < 16 && Row2()[k as int] == Clocks(n, 0x20 | k)
  {
    assert Row2() == DividedRow(8, 0x20);
    assert Row2() == Sixteen(Remainder(n), 0x20);
    SixteenAt(Remainder(n), 0x20, k);
  }

  lemma Row3Divided(n: nat, k: bv32)
    requires 8 <= n <= 8 && k < 16
    ensures (k as int) < 16 && Row3()[k as int] == Clocks(n, 0x30 | k)
  {
    assert Row3() == DividedRow(8, 0x30);
    assert Row3() == Sixteen(Remainder(n), 0x30);
    SixteenAt(Remainder(n), 0x30, k);
  }

  lemma Row4Divided(n: nat, k: bv32)
    requires 8 <= n <= 8 && k < 16
    ensures (k as int) < 16 && Row4()[k as int] == Clocks(n, 0x40 | k)
  {
    assert Row4() == DividedRow(8, 0x40);
    assert Row4() == Sixteen(Remainder(n), 0x40);
    SixteenAt(Remainder(n), 0x40, k);
  }

  lemma Row5Divided(n: nat, k: bv32)
    requires 8 <= n <= 8 && k < 16
    ensures (k as int) < 16 && Row5()[k as int] == Clocks(n, 0x50 | k)
  {
    assert Row5() == DividedRow(8, 0x50);
    assert Row5() == Sixteen(Remainder(n), 0x50);
    SixteenAt(Remainder(n), 0x50, k);
  }

  lemma Row6Divided(n: nat, k: bv32)
    requires 8 <= n <= 8 && k < 16
    ensures (k as int) < 16 && Row6()[k as int] == Clocks(n, 0x60 | k)
  {
    assert Row6() == DividedRow(8, 0x60);
    assert Row6() == Sixteen(Remainder(n), 0x60);
    SixteenAt(Remainder(n), 0x60, k);
  }

  lemma Row7Divided(n: nat, k: bv32)
    requires 8 <= n <= 8 && k < 16
    ensures (k as int) < 16 && Row7()[k as int] == Clocks(n, 0x70 | k)
  {
    assert Row7() == DividedRow(8, 0x70);
    assert Row7() == Sixteen(Remainder(n), 0x70);
    SixteenAt(Remainder(n), 0x70, k);
  }

  lemma Row8Divided(n: nat, k: bv32)
    requires 8 <= n <= 8 && k < 16
    ensures (k as int) < 16 && Row8()[k as int] == Clocks(n, 0x80 | k)
  {
    assert Row8() == DividedRow(8, 0x80);
    assert Row8() == Sixteen(Remainder(n), 0x80);
    SixteenAt(Remainder(n), 0x80, k);
  }

  lemma Row9Divided(n: nat, k: bv32)
    requires 8 <= n <= 8 && k < 16
    ensures (k as int) < 16 && Row9()[k as int] == Clocks(n, 0x90 | k)
  {
    assert Row9() == DividedRow(8, 0x90);
    assert Row9() == Sixteen(Remainder(n), 0x90);
    SixteenAt(Remainder(n), 0x90, k);
  }

  lemma RowADivided(n: nat, k: bv32)
    requires 8 <= n <= 8 && k < 16
    ensures (k as int) < 16 && RowA()[k as int] == Clocks(n, 0xA0 | k)
  {
    assert RowA() == DividedRow(8, 0xA0);
    assert RowA() == Sixteen(Remainder(n), 0xA0);
    SixteenAt(Remainder(n), 0xA0, k);
  }

  lemma RowBDivided(n: nat, k: bv32)
    requires 8 <= n <= 8 && k < 16
    ensures (k as int) < 16 && RowB()[k as int] == Clocks(n, 0xB0 | k)
  {
    assert RowB() == DividedRow(8, 0xB0);
    assert RowB() == Sixteen(Remainder(n), 0xB0);
    SixteenAt(Remainder(n), 0xB0, k);
  }

  lemma RowCDivided(n: nat, k: bv32)
    requires 8 <= n <= 8 && k < 16
    ensures (k as int) < 16 && RowC()[k as int] == Clocks(n, 0xC0 | k)
  {
    assert RowC() == DividedRow(8, 0xC0);
    assert RowC() == Sixteen(Remainder(n), 0xC0);
    SixteenAt(Remainder(n), 0xC0, k);
  }

  lemma RowDDivided(n: nat, k: bv32)
    requires 8 <= n <= 8 && k < 16
    ensures (k as int) < 16 && RowD()[k as int] == Clocks(n, 0xD0 | k)
  {
    assert RowD() == DividedRow(8, 0xD0);
    assert RowD() == Sixteen(Remainder(n), 0xD0);
    SixteenAt(Remainder(n), 0xD0, k);
  }

  lemma RowEDivided(n: nat, k: bv32)
    requires 8 <= n <= 8 && k < 16
    ensures (k as int) < 16 && RowE()[k as int] == Clocks(n, 0xE0 | k)
  {
    assert RowE() == DividedRow(8, 0xE0);
    assert RowE() == Sixteen(Remainder(n), 0xE0);
    SixteenAt(Remainder(n), 0xE0, k);
  }

  lemma RowFDivided(n: nat, k: bv32)
    requires 8 <= n <= 8 && k < 16
    ensures (k as int) < 16 && RowF()[k as int] == Clocks(n, 0xF0 | k)
  {
    assert RowF() == DividedRow(8, 0xF0);
    assert RowF() == Sixteen(Remainder(n), 0xF0);
    SixteenAt(Remainder(n), 0xF0, k);
  }

  lemma SameBase(n: nat, r: bv32, k: bv32, base: bv32)
    requires r << 4 == base
    ensures Clocks(n, (r << 4) | k) == Clocks(n, base | k)
  {
    assert (r << 4) | k == base | k;
  }

  lemma LowRowDivided(n: nat, r: bv32, k: bv32)
    requires 8 <= n <= 8 && r < 8 && k < 16
    ensures (k as int) < 16 && LowRow(r)[k as int] == Clocks(n, (r << 4) | k)
  {
    match r
    case 0 => Row0Divided(n, k); SameBase(n, r, k, 0x00);
    case 1 => Row1Divided(n, k); SameBase(n, r, k, 0x10);
    case 2 => Row2Divided(n, k); SameBase(n, r, k, 0x20);
    case 3 => Row3Divided(n, k); SameBase(n, r, k, 0x30);
    case 4 => Row4Divided(n, k); SameBase(n, r, k, 0x40);
    case 5 => Row5Divided(n, k); SameBase(n, r, k, 0x50);
    case 6 => Row6Divided(n, k); SameBase(n, r, k, 0x60);
    case _ => Row7Divided(n, k); SameBase(n, r, k, 0x70);
  }

  lemma LastRow(r: bv32)
    requires 8 <= r < 16 && r != 8 && r != 9 && r != 10 && r != 11 && r != 12 && r != 13 && r != 14
    ensures r == 15
  {}

  lemma HighRowDivided(n: nat, r: bv32, k: bv32)
    requires 8 <= n <= 8 && 8 <= r < 16 && k < 16
    ensures (k as int) < 16 && HighRow(r)[k as int] == Clocks(n, (r << 4) | k)
  {
    match r
    case 8 => Row8Divided(n, k); SameBase(n, r, k, 0x80);
    case 9 => Row9Divided(n, k); SameBase(n, r, k, 0x90);
    case 10 => RowADivided(n, k); SameBase(n, r, k, 0xA0);
    case 11 => RowBDivided(n, k); SameBase(n, r, k, 0xB0);
    case 12 => RowCDivided(n, k); SameBase(n, r, k, 0xC0);
    case 13 => RowDDivided(n, k); SameBase(n, r, k, 0xD0);
    case 14 => RowEDivided(n, k); SameBase(n, r, k, 0xE0);
    case _ =>
      LastRow(r);
      RowFDivided(n, k);
      SameBase(n, r, k, 0xF0);
  }

  lemma Nibbles(index: bv32)
    ensures ((index >> 4) << 4) | (index & 0xF) == index
  {}

  lemma IndexSplit(n: nat, index: bv32)
    ensures Clocks(n, ((index >> 4) << 4) | (index & 0xF)) == Clocks(n, index)
  {
    Nibbles(index);
  }

  lemma EntryDivided(n: nat, index: bv32)
    requires 8 <= n <= 8 && index < 256
    ensures TableEntry(index) == Clocks(n, index)
  {
    if index >> 4 < 8 {
      LowRowDivided(n, index >> 4, index & 0xF);
    } else {
      HighRowDivided(n, index >> 4, index & 0xF);
    }
    IndexSplit(n, index);
  }

  /** Every entry of the table is its own index after eight division steps. */
  lemma TableIsDivision(index: bv32)
    requires index < 256
    ensures TableEntry(index) == Clocks(8, index)
  {
    EntryDivided(8, index);
  }

  method Read(index: bv32) returns (entry: bv32)
    requires index < 256
    ensures entry == Clocks(8, index)
  {
    entry := TableEntry(index);
    TableIsDivision(index);
  }
}
