/** What the checksum of Common/Crc32Computer.h is, told without its register: the checksum of nothing, what is left of
    a message that is followed by its own checksum, and the value by which CRC-32 is commonly recognised. */
module Residue {
  import opened Bytes
  import opened ShiftRegister
  import opened Crc32
  import opened Damage
  import Table = Crc32Table

  // ---------- the bits of a number ----------

  lemma ShiftedOnce(h: bv32, l: bv32, w: bv32)
    requires h & 0x7FFF_FFFF == h && l & 1 == l && w == ((h & 0x7FFF_FFFF) << 1) | (l & 1)
    ensures w >> 1 == h && w & 1 == l
  {}

  lemma DigitOdd(x: nat)
    ensures Digit(x) & 1 == Digit(x) && (Digit(x) == 1 <==> x % 2 == 1)
  {}

  lemma Appended(x: uint32, h: bv32, l: bv32, w: bv32)
    requires h == WordOf(x / 2) && l == Digit(x) && w == WordOf(x)
    ensures w == ((h & 0x7FFF_FFFF) << 1) | (l & 1)
  {
    if x == 0 {
      assert h == 0 && l == 0;
    }
  }

  lemma HalfFits(x: uint32, h: bv32)
    requires h == WordOf(x / 2)
    ensures h & 0x7FFF_FFFF == h
  {
    WordValue(x / 2);
    TopBitClear(h);
  }

  lemma WordShifts(x: uint32, h: bv32, l: bv32, w: bv32)
    requires h == WordOf(x / 2) && l == Digit(x) && w == WordOf(x)
    ensures w >> 1 == h && w & 1 == l
  {
    HalfFits(x, h);
    DigitOdd(x);
    Appended(x, h, l, w);
    ShiftedOnce(h, l, w);
  }

  /** A step to the right halves a number. */
  lemma WordHalves(x: uint32, h: bv32, w: bv32)
    requires h == WordOf(x / 2) && w == WordOf(x)
    ensures Word().shift(w) == h && (Word().odd(w) <==> x % 2 == 1)
  {
    WordShifts(x, h, Digit(x), w);
    ShiftAt(w);
    OddAt(w);
    DigitOdd(x);
  }

  lemma {:induction false} WordBits(n: nat, x: uint32)
    ensures Bits(Word(), n, WordOf(x)) == LowBits(n, x)
    decreases n
  {
    if n > 0 {
      WordHalves(x, WordOf(x / 2), WordOf(x));
      WordBits(n - 1, x / 2);
      assert Bits(Word(), n, WordOf(x))[1..] == Bits(Word(), n - 1, WordOf(x / 2));
    }
  }

  lemma {:induction false} WordRunsOut(n: nat, x: uint32)
    requires x < Pow2(n)
    ensures Shifted(Word(), n, WordOf(x)) == 0
    decreases n
  {
    if n > 0 {
      WordHalves(x, WordOf(x / 2), WordOf(x));
      WordRunsOut(n - 1, x / 2);
    }
  }

  function Halved(n: nat, x: nat): nat {
    if n == 0 then x else Halved(n - 1, x / 2)
  }

  lemma HalvedEight(x: nat)
    ensures Halved(8, x) == x / 256
  {
    assert Halved(8, x) == Halved(6, x / 4);
    assert Halved(6, x / 4) == Halved(4, x / 16);
    assert Halved(4, x / 16) == Halved(2, x / 64);
    assert Halved(2, x / 64) == Halved(0, x / 256);
  }

  lemma {:induction false} LowBitsSplit(n: nat, k: nat, x: nat)
    ensures LowBits(n + k, x) == LowBits(n, x) + LowBits(k, Halved(n, x))
    decreases n
  {
    if n > 0 {
      LowBitsSplit(n - 1, k, x / 2);
    }
  }

  lemma {:induction false} LowBitsMod(n: nat, x: nat, y: nat)
    requires exists q: nat :: x == q * Pow2(n) + y
    ensures LowBits(n, x) == LowBits(n, y)
    decreases n
  {
    if n > 0 {
      var q: nat :| x == q * Pow2(n) + y;
      var p := q * Pow2(n - 1);
      assert x == 2 * p + y by {
        assert q * Pow2(n) == 2 * p;
      }
      assert x / 2 == p + y / 2;
      LowBitsMod(n - 1, x / 2, y / 2);
    }
  }

  lemma LowByte(x: nat)
    ensures LowBits(8, x) == LowBits(8, x % 256)
  {
    assert Pow2(8) == 256;
    assert x == (x / 256) * Pow2(8) + x % 256;
    LowBitsMod(8, x, x % 256);
  }

  /** The bytes of a number in memory, lowest first. */
  function InMemory(x: uint32): seq<byte> {
    [x % 256, x / 256 % 256, x / 0x1_0000 % 256, x / 0x100_0000 % 256]
  }

  lemma NextByte(n: nat, x: nat)
    ensures LowBits(8 + n, x) == LowBits(8, x % 256) + LowBits(n, x / 256)
  {
    LowBitsSplit(8, n, x);
    HalvedEight(x);
    LowByte(x);
  }

  lemma BitsInMemory(x: uint32)
    ensures MessageBits(InMemory(x)) == LowBits(32, x)
  {
    var a, b, c, d := x % 256, x / 256 % 256, x / 0x1_0000 % 256, x / 0x100_0000 % 256;
    NextByte(24, x);
    NextByte(16, x / 256);
    NextByte(8, x / 0x1_0000);
    LowByte(x / 0x100_0000);
    FourBytes(a, b, c, d);
    assert x / 256 / 256 == x / 0x1_0000 && x / 0x1_0000 / 256 == x / 0x100_0000;
  }

  lemma FourBytes(a: byte, b: byte, c: byte, d: byte)
    ensures MessageBits([a, b, c, d]) == LowBits(8, a) + (LowBits(8, b) + (LowBits(8, c) + LowBits(8, d)))
  {
    assert [a, b, c, d][1..] == [b, c, d];
    assert [b, c, d][1..] == [c, d];
    TwoBytes(c, d);
  }

  // ---------- the residue ----------

  lemma TakesOff(c: bv32, m: bv32)
    ensures Sum(c, Sum(c, m)) == m
  {
    assert c ^ (c ^ m) == m;
    XorAt(c, m);
    XorAt(c, c ^ m);
  }

  lemma NothingAdded(c: bv32)
    ensures Sum(c, Word().zero) == c
  {
    assert c ^ 0 == c;
    XorAt(c, 0);
  }

  lemma Pow32()
    ensures Pow2(32) == 0x1_0000_0000
  {
    assert Pow2(8) == 0x100;
    assert Pow2(16) == 0x100 * Pow2(8);
    assert Pow2(24) == 0x100 * Pow2(16);
    assert Pow2(32) == 0x100 * Pow2(24);
  }

  /** A register that is fed what it is complemented to ends in the same place, whatever it held. */
  lemma FedItself(c: bv32, x: uint32)
    requires Complemented(c) == x
    ensures Feed(Word(), c, LowBits(32, x)) == Clocks(Word(), 32, MASK)
  {
    var w := WordOf(x);
    WordLaws();
    ValueOf(c, x);
    TakesOff(c, MASK);
    FeedWord(Word(), 32, c, w);
    WordBits(32, x);
    Pow32();
    WordRunsOut(32, x);
    NothingAdded(Feed(Word(), c, LowBits(32, x)));
  }

  // n is 8, as two bounds for the reason given in Crc32Table.

  lemma Entries(n: nat)
    requires 8 <= n <= 8
    ensures Table.Clocks(n, 0xFF) == 0x2D02_EF8D && Table.Clocks(n, 0x72) == 0xBE0B_1010
    ensures Table.Clocks(n, 0x00) == 0x0000_0000 && Table.Clocks(n, 0xED) == 0xDEBB_9EC5
  {
    Table.EntryDivided(n, 0xFF);
    Table.EntryDivided(n, 0x72);
    Table.EntryDivided(n, 0x00);
    Table.EntryDivided(n, 0xED);
  }

  /** One more byte of a message: w is the byte, c and next are the register before and after it. */
  lemma Stepped(n: nat, m: seq<byte>, i: nat, w: bv32, c: bv32, index: bv32, rest: bv32, entry: bv32, next: bv32)
    requires 8 <= n <= 8 && i < |m| && w == m[i] as bv32 && Divide(MASK, m[..i]) == c
    requires index == (c ^ w) & 0xFF && rest == c >> 8 && entry == Table.Clocks(n, index) && next == rest ^ entry
    ensures Divide(MASK, m[..i + 1]) == next
  {
    DivideNext(MASK, m, i);
    StepIsDivision(n, c, m[i], w, index, rest, entry);
  }

  lemma ZerosFed(n: nat, m: seq<byte>)
    requires 8 <= n <= 8 && m == [0, 0, 0, 0]
    ensures Divide(MASK, m) == 0xDEBB_20E3
  {
    Entries(n);
    Stepped(n, m, 0, 0, 0xFFFF_FFFF, 0xFF, 0xFF_FFFF, 0x2D02_EF8D, 0x2DFD_1072);
    Stepped(n, m, 1, 0, 0x2DFD_1072, 0x72, 0x2D_FD10, 0xBE0B_1010, 0xBE26_ED00);
    Stepped(n, m, 2, 0, 0xBE26_ED00, 0x00, 0xBE_26ED, 0x0000_0000, 0x00BE_26ED);
    Stepped(n, m, 3, 0, 0x00BE_26ED, 0xED, 0x00_BE26, 0xDEBB_9EC5, 0xDEBB_20E3);
    assert m[..4] == m;
  }

  lemma OnesClocked()
    ensures Clocks(Word(), 32, MASK) == 0xDEBB_20E3
  {
    var none := InMemory(0);
    assert none == [0, 0, 0, 0];
    WordLaws();
    BitsInMemory(0);
    WordBits(32, 0);
    Pow32();
    WordRunsOut(32, 0);
    FeedWord(Word(), 32, MASK, 0);
    NothingAdded(MASK);
    NothingAdded(Feed(Word(), MASK, LowBits(32, 0)));
    ZerosFed(8, none);
  }

  lemma ResidueValue()
    ensures Complemented(0xDEBB_20E3) == 0x2144_DF1C
  {
    assert 0xDEBB_20E3 as bv32 ^ 0xFFFF_FFFF == 0x2144_DF1C;
  }

  lemma OfBytes(x: uint32, p: byte, q: byte, r: byte, s: byte)
    requires x == p as int + 0x100 * q as int + 0x1_0000 * r as int + 0x100_0000 * s as int
    ensures InMemory(x) == [p, q, r, s]
  {
    assert x / 256 == q as int + 0x100 * r as int + 0x1_0000 * s as int;
    assert x / 0x1_0000 == r as int + 0x100 * s as int;
    assert x / 0x100_0000 == s;
  }

  /** Whatever the message, followed by the four bytes of its checksum, the lowest first, it has one and the same
      checksum. */
  lemma ResidueIsConstant(m: seq<byte>, p: byte, q: byte, r: byte, s: byte)
    requires Crc(m) == p as int + 0x100 * q as int + 0x1_0000 * r as int + 0x100_0000 * s as int
    ensures Crc(m + [p, q, r, s]) == 0x2144_DF1C
  {
    var x := Crc(m);
    OfBytes(x, p, q, r, s);
    MessageBitsAppend(m, InMemory(x));
    FeedAppend(Word(), MASK, MessageBits(m), MessageBits(InMemory(x)));
    BitsInMemory(x);
    FedItself(Divide(MASK, m), x);
    OnesClocked();
    ResidueValue();
  }

  // ---------- known values ----------

  lemma EmptyMessage()
    ensures Crc([]) == 0
  {
    assert MASK ^ MASK == 0;
  }

  lemma ValueIs(m: seq<byte>, c: bv32, x: bv32)
    requires Divide(MASK, m) == c && x == c ^ MASK
    ensures Crc(m) == x as int
  {}

  lemma DigitEntries(n: nat)
    requires 8 <= n <= 8
    ensures Table.Clocks(n, 0xCE) == 0x7CDC_EFB7 && Table.Clocks(n, 0x7A) == 0xB0D0_9822
    ensures Table.Clocks(n, 0x01) == 0x7707_3096 && Table.Clocks(n, 0x19) == 0x646B_A8C0
  {
    Table.EntryDivided(n, 0xCE);
    Table.EntryDivided(n, 0x7A);
    Table.EntryDivided(n, 0x01);
    Table.EntryDivided(n, 0x19);
  }

  lemma MoreDigitEntries(n: nat)
    requires 8 <= n <= 8
    ensures Table.Clocks(n, 0x69) == 0x346E_D9FC && Table.Clocks(n, 0xD5) == 0xF6B9_265B
    ensures Table.Clocks(n, 0xA9) == 0xAF0A_1B4C && Table.Clocks(n, 0x58) == 0x65B0_D9C6
  {
    Table.EntryDivided(n, 0x69);
    Table.EntryDivided(n, 0xD5);
    Table.EntryDivided(n, 0xA9);
    Table.EntryDivided(n, 0x58);
  }

  lemma OneToThree(n: nat, m: seq<byte>)
    requires 8 <= n <= 8 && |m| >= 3 && m[0] == 49 && m[1] == 50 && m[2] == 51
    ensures Divide(MASK, m[..3]) == 0x77B7_9C2D
  {
    DigitEntries(n);
    Stepped(n, m, 0, 49, 0xFFFF_FFFF, 0xCE, 0xFF_FFFF, 0x7CDC_EFB7, 0x7C23_1048);
    Stepped(n, m, 1, 50, 0x7C23_1048, 0x7A, 0x7C_2310, 0xB0D0_9822, 0xB0AC_BB32);
    Stepped(n, m, 2, 51, 0xB0AC_BB32, 0x01, 0xB0_ACBB, 0x7707_3096, 0x77B7_9C2D);
  }

  lemma FourToSix(n: nat, m: seq<byte>)
    requires 8 <= n <= 8 && |m| >= 6 && m[3] == 52 && m[4] == 53 && m[5] == 54 && Divide(MASK, m[..3]) == 0x77B7_9C2D
    ensures Divide(MASK, m[..6]) == 0xF68D_2C9E
  {
    DigitEntries(n);
    MoreDigitEntries(n);
    Stepped(n, m, 3, 52, 0x77B7_9C2D, 0x19, 0x77_B79C, 0x646B_A8C0, 0x641C_1F5C);
    Stepped(n, m, 4, 53, 0x641C_1F5C, 0x69, 0x64_1C1F, 0x346E_D9FC, 0x340A_C5E3);
    Stepped(n, m, 5, 54, 0x340A_C5E3, 0xD5, 0x34_0AC5, 0xF6B9_265B, 0xF68D_2C9E);
  }

  lemma SevenToNine(n: nat, m: seq<byte>)
    requires 8 <= n <= 8 && |m| >= 9 && m[6] == 55 && m[7] == 56 && m[8] == 57 && Divide(MASK, m[..6]) == 0xF68D_2C9E
    ensures Divide(MASK, m[..9]) == 0x340B_C6D9
  {
    MoreDigitEntries(n);
    Stepped(n, m, 6, 55, 0xF68D_2C9E, 0xA9, 0xF6_8D2C, 0xAF0A_1B4C, 0xAFFC_9660);
    Stepped(n, m, 7, 56, 0xAFFC_9660, 0x58, 0xAF_FC96, 0x65B0_D9C6, 0x651F_2550);
    Stepped(n, m, 8, 57, 0x651F_2550, 0x69, 0x65_1F25, 0x346E_D9FC, 0x340B_C6D9);
  }

  /** The value by which CRC-32 is recognised: the checksum of the digits from 1 to 9. */
  lemma CheckValue(m: seq<byte>)
    requires m == [49, 50, 51, 52, 53, 54, 55, 56, 57]
    ensures Crc(m) == 0xCBF4_3926
  {
    OneToThree(8, m);
    FourToSix(8, m);
    SevenToNine(8, m);
    assert m[..9] == m;
    ValueIs(m, 0x340B_C6D9, 0xCBF4_3926);
  }
}
