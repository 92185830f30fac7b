/** The CRC-32 of Common/Crc32Computer.h: the bitwise division that defines it, the table-driven loops
    that compute it, and the damage it is certain to notice. */
module Crc32 {
  import opened Bytes
  import opened ShiftRegister
  import Table = Crc32Table

  const MASK: bv32 := 0xFFFF_FFFF

  function Half(x: bv32): bv32 { x >> 1 }

  predicate IsOdd(x: bv32) { x & 1 == 1 }

  function Xor(x: bv32, y: bv32): bv32 { x ^ y }

  /** The 32-bit register of the reflected CRC. */
  ghost function Word(): Register<bv32> {
    Register(Half, IsOdd, Xor, 0, 1, Table.POLYNOMIAL)
  }

  ghost function Divide(c: bv32, m: seq<byte>): bv32 {
    Feed(Word(), c, MessageBits(m))
  }

  /** The checksum of a message: its bits divided out of an all-ones register, then complemented. */
  ghost function Crc(m: seq<byte>): uint32 {
    Complemented(Divide(MASK, m))
  }

  function Complemented(c: bv32): uint32 {
    (c ^ MASK) as int
  }

  // ---------- facts about 32-bit words, one to a lemma ----------

  lemma ShiftXor(a: bv32, b: bv32)
    ensures (a ^ b) >> 1 == (a >> 1) ^ (b >> 1)
  {}

  lemma LowXor(a: bv32, b: bv32)
    ensures ((a ^ b) & 1 == 1) == ((a & 1 == 1) != (b & 1 == 1))
  {}

  lemma XorMoves(x: bv32, y: bv32, p: bv32)
    ensures (x ^ p) ^ y == (x ^ y) ^ p
  {}

  lemma XorGroups(x: bv32, y: bv32, p: bv32)
    ensures x ^ (y ^ p) == (x ^ y) ^ p
  {}

  lemma XorPairs(x: bv32, y: bv32, p: bv32)
    ensures (x ^ p) ^ (y ^ p) == x ^ y
  {}

  lemma XorUndoes(x: bv32, p: bv32)
    ensures (x ^ p) ^ p == x
    ensures 0 ^ p == p
    ensures p ^ p == 0
  {}

  lemma XorAt(x: bv32, y: bv32)
    ensures Word().xor(x, y) == x ^ y
  {}

  lemma ShiftAt(x: bv32)
    ensures Word().shift(x) == x >> 1
  {}

  lemma OddAt(x: bv32)
    ensures Word().odd(x) <==> x & 1 == 1
  {}

  lemma WordXorMoves(x: bv32, y: bv32, p: bv32)
    ensures Word().xor(Word().xor(x, p), y) == Word().xor(Word().xor(x, y), p)
  {
    XorMoves(x, y, p);
    XorAt(x, p);
    XorAt(x, y);
    XorAt(x ^ p, y);
    XorAt(x ^ y, p);
  }

  lemma WordXorGroups(x: bv32, y: bv32, p: bv32)
    ensures Word().xor(x, Word().xor(y, p)) == Word().xor(Word().xor(x, y), p)
  {
    XorGroups(x, y, p);
    XorAt(x, y);
    XorAt(y, p);
    XorAt(x, y ^ p);
    XorAt(x ^ y, p);
  }

  lemma WordXorPairs(x: bv32, y: bv32, p: bv32)
    ensures Word().xor(Word().xor(x, p), Word().xor(y, p)) == Word().xor(x, y)
  {
    XorPairs(x, y, p);
    XorAt(x, p);
    XorAt(y, p);
    XorAt(x, y);
    XorAt(x ^ p, y ^ p);
  }

  lemma WordXorUndoes(x: bv32, p: bv32)
    ensures Word().xor(Word().xor(x, p), p) == x
    ensures Word().xor(Word().zero, p) == p
    ensures Word().xor(p, p) == Word().zero
  {
    XorUndoes(x, p);
    XorAt(x, p);
    XorAt(x ^ p, p);
    XorAt(0, p);
    XorAt(p, p);
  }

  lemma WordXorLaws(x: bv32, y: bv32, p: bv32)
    ensures XorLaws(Word(), x, y, p)
  {
    WordXorMoves(x, y, p);
    WordXorGroups(x, y, p);
    WordXorPairs(x, y, p);
    WordXorUndoes(x, p);
  }

  lemma WordShiftLaws(x: bv32, y: bv32)
    ensures ShiftLaws(Word(), x, y)
  {
    ShiftXor(x, y);
    LowXor(x, y);
    XorAt(x, y);
    ShiftAt(x);
    ShiftAt(y);
    ShiftAt(x ^ y);
    XorAt(x >> 1, y >> 1);
    OddAt(x);
    OddAt(y);
    OddAt(x ^ y);
  }

  lemma WordOne()
    ensures Word().odd(Word().one) && Word().shift(Word().one) == Word().zero
  {
    assert (1 as bv32) & 1 == 1 && (1 as bv32) >> 1 == 0;
  }

  lemma WordLaws()
    ensures Laws(Word())
  {
    forall x, y, p ensures XorLaws(Word(), x, y, p) { WordXorLaws(x, y, p); }
    forall x, y ensures ShiftLaws(Word(), x, y) { WordShiftLaws(x, y); }
    WordOne();
  }

  lemma ClockAgrees(c: bv32)
    ensures Clock(Word(), c) == Table.Clock(c)
  {}

  lemma {:induction false} ClocksAgree(n: nat, c: bv32)
    ensures Clocks(Word(), n, c) == Table.Clocks(n, c)
    decreases n
  {
    if n > 0 {
      ClockAgrees(c);
      ClocksAgree(n - 1, Table.Clock(c));
    }
  }

  lemma Halve(x: nat)
    requires x < 256
    ensures (x / 2) as bv32 == (x as bv32) >> 1
  {}

  lemma Parity(x: nat)
    requires x < 256
    ensures x % 2 == 1 <==> (x as bv32) & 1 == 1
  {}

  lemma ByteFits(b: byte)
    ensures (b as bv32) >> 8 == 0
  {}

  lemma {:induction false} BitsAreLowBits(n: nat, x: nat)
    requires x < 256
    ensures Bits(Word(), n, x as bv32) == LowBits(n, x)
    decreases n
  {
    if n > 0 {
      Halve(x);
      Parity(x);
      BitsAreLowBits(n - 1, x / 2);
      assert Bits(Word(), n, x as bv32)[1..] == Bits(Word(), n - 1, (x / 2) as bv32);
    }
  }

  // ---------- one table lookup is eight division steps ----------

  lemma ShiftedByte(w: bv32)
    ensures Shifted(Word(), 8, w) == w >> 8
  {}

  lemma HighShift(x: bv32)
    ensures (x & 0xFFFF_FF00) >> 8 == x >> 8
  {}

  /** The n low bits. */
  ghost function Ones(n: nat): bv32 {
    if n == 0 then 0 else (Ones(n - 1) << 1) | 1
  }

  /** None of the n low bits of h is set. */
  ghost predicate Clear(n: nat, h: bv32) {
    h & Ones(n) == 0
  }

  lemma ClearBits(h: bv32, m: bv32)
    requires h & ((m << 1) | 1) == 0
    ensures h & 1 == 0 && (h >> 1) & m == 0
  {}

  lemma {:induction false} ClearEven(n: nat, h: bv32, k: nat)
    requires k < n && Clear(n, h)
    ensures !Word().odd(Shifted(Word(), k, h))
    decreases n
  {
    ClearBits(h, Ones(n - 1));
    if k == 0 {
      OddAt(h);
    } else {
      ShiftAt(h);
      ClearEven(n - 1, h >> 1, k - 1);
    }
  }

  lemma HighClear(x: bv32)
    ensures (x & 0xFFFF_FF00) & 0xFF == 0
  {}

  lemma HighEven(x: bv32, k: nat)
    requires k < 8
    ensures !Word().odd(Shifted(Word(), k, x & 0xFFFF_FF00))
  {
    HighClear(x);
    assert Ones(8) == 0xFF;
    ClearEven(8, x & 0xFFFF_FF00, k);
  }

  lemma ShiftAway(c: bv32, w: bv32)
    requires w >> 8 == 0
    ensures (c ^ w) >> 8 == c >> 8
  {}

  lemma HighEvens(x: bv32, h: bv32)
    requires h == x & 0xFFFF_FF00
    ensures forall k :: 0 <= k < 8 ==> !Word().odd(Shifted(Word(), k, h))
  {
    forall k | 0 <= k < 8 ensures !Word().odd(Shifted(Word(), k, h)) {
      HighEven(x, k);
    }
  }

  lemma SplitXor(c: bv32, w: bv32, x: bv32, h: bv32, l: bv32)
    requires x == c ^ w && h == x & 0xFFFF_FF00 && l == x & 0xFF
    ensures h ^ l == c ^ w
  {}

  lemma WordSplit(c: bv32, w: bv32, x: bv32, h: bv32, l: bv32)
    requires x == c ^ w && h == x & 0xFFFF_FF00 && l == x & 0xFF
    ensures Word().xor(h, l) == Word().xor(c, w)
  {
    SplitXor(c, w, x, h, l);
    XorAt(h, l);
    XorAt(c, w);
  }

  lemma WordShift8(c: bv32, w: bv32, x: bv32, h: bv32, s: bv32)
    requires x == c ^ w && h == x & 0xFFFF_FF00 && s == c >> 8 && w >> 8 == 0
    ensures Shifted(Word(), 8, h) == s && Shifted(Word(), 8, w) == Word().zero
  {
    ShiftedByte(h);
    ShiftedByte(w);
    HighShift(x);
    ShiftAway(c, w);
  }

  // n is 8, as two bounds for the reason given in Crc32Table.

  lemma WordTableStep(n: nat, c: bv32, w: bv32, x: bv32, h: bv32, l: bv32, s: bv32)
    requires 8 <= n <= 8
    requires x == c ^ w && h == x & 0xFFFF_FF00 && l == x & 0xFF && s == c >> 8 && w >> 8 == 0
    ensures Word().xor(s, Clocks(Word(), n, l)) == Feed(Word(), c, Bits(Word(), n, w))
  {
    WordLaws();
    WordSplit(c, w, x, h, l);
    HighEvens(x, h);
    WordShift8(c, w, x, h, s);
    TableStep(Word(), n, c, w, h, l, s);
  }

  lemma StepIsDivision(n: nat, c: bv32, b: byte, w: bv32, l: bv32, s: bv32, entry: bv32)
    requires 8 <= n <= 8
    requires w == b as bv32 && l == (c ^ w) & 0xFF && s == c >> 8
    requires entry == Table.Clocks(n, l)
    ensures s ^ entry == Feed(Word(), c, LowBits(n, b))
  {
    ByteFits(b);
    WordTableStep(n, c, w, c ^ w, (c ^ w) & 0xFFFF_FF00, l, s);
    ClocksAgree(n, l);
    BitsAreLowBits(n, b);
    XorAt(s, entry);
  }

  /** What every loop does with a byte: w is the byte as promoted to the width of the register. */
  method Lookup(c: bv32, w: bv32, ghost b: byte) returns (next: bv32)
    requires (c ^ w) & 0xFF == (c ^ (b as bv32)) & 0xFF
    ensures next == Feed(Word(), c, LowBits(8, b))
  {
    var index, rest := (c ^ w) & 0xFF, c >> 8;
    var entry := Table.Read(index);
    next := rest ^ entry;
    StepIsDivision(8, c, b, b as bv32, index, rest, entry);
  }

  lemma {:induction false} MessageBitsNext(m: seq<byte>, i: nat)
    requires i < |m|
    ensures MessageBits(m[..i + 1]) == MessageBits(m[..i]) + LowBits(8, m[i])
  {
    if i == 0 {
      assert m[..1] == [m[0]] && m[..1][1..] == [];
    } else {
      assert m[..i + 1][1..] == m[1..][..i] && m[..i][1..] == m[1..][..i - 1];
      MessageBitsNext(m[1..], i - 1);
    }
  }

  lemma DivideNext(c: bv32, m: seq<byte>, i: nat)
    requires i < |m|
    ensures Divide(c, m[..i + 1]) == Feed(Word(), Divide(c, m[..i]), LowBits(8, m[i]))
  {
    MessageBitsNext(m, i);
    FeedAppend(Word(), c, MessageBits(m[..i]), LowBits(8, m[i]));
  }

  // ---------- the table-driven loops ----------

  /** A char operand of ^ is promoted with its sign. */
  function SignExtend(b: byte): bv32 {
    if b < 128 then b as bv32 else (b as bv32) | 0xFFFF_FF00
  }

  lemma SignBitsMasked(c: bv32, w: bv32)
    ensures (c ^ (w | 0xFFFF_FF00)) & 0xFF == (c ^ w) & 0xFF
  {}

  lemma SignIsMasked(c: bv32, b: byte)
    ensures (c ^ SignExtend(b)) & 0xFF == (c ^ (b as bv32)) & 0xFF
  {
    SignBitsMasked(c, b as bv32);
  }

  class Crc32Computer {
    var crc32: bv32

    constructor ()
      ensures crc32 == MASK
    {
      crc32 := MASK;
    }

    /** Takes the bytes of a number in memory, or of a string. */
    method Add(data: seq<byte>)
      modifies this
      ensures crc32 == Divide(old(crc32), data)
    {
      for i := 0 to |data|
        invariant crc32 == Divide(old(crc32), data[..i])
      {
        DivideNext(old(crc32), data, i);
        crc32 := Lookup(crc32, data[i] as bv32, data[i]);
      }
      assert data[..|data|] == data;
    }

    function Value(): uint32
      reads this
    {
      Complemented(crc32)
    }
  }

  method ComputeInBuffer(buff: array<byte>, start: nat, len: nat) returns (crc: uint32)
    requires start + len <= buff.Length
    ensures crc == Crc(buff[start..start + len])
  {
    var crc32 := MASK;
    ghost var m := buff[start..start + len];
    for i := 0 to len
      invariant crc32 == Divide(MASK, m[..i])
    {
      DivideNext(MASK, m, i);
      SignIsMasked(crc32, buff[start + i]);
      crc32 := Lookup(crc32, SignExtend(buff[start + i]), buff[start + i]);
    }
    assert m[..len] == m;
    crc := Complemented(crc32);
  }

  /** Feeding a message in pieces to one computer gives the checksum of the whole message. */
  method AddInPieces(pieces: seq<seq<byte>>) returns (crc: uint32)
    ensures crc == Crc(Joined(pieces))
  {
    var computer := new Crc32Computer();
    for i := 0 to |pieces|
      invariant fresh(computer)
      invariant computer.crc32 == Divide(MASK, Joined(pieces[..i]))
    {
      JoinedNext(pieces, i);
      MessageBitsAppend(Joined(pieces[..i]), pieces[i]);
      FeedAppend(Word(), MASK, MessageBits(Joined(pieces[..i])), MessageBits(pieces[i]));
      computer.Add(pieces[i]);
    }
    assert pieces[..|pieces|] == pieces;
    crc := computer.Value();
  }

  lemma {:induction false} MessageBitsAppend(a: seq<byte>, b: seq<byte>)
    ensures MessageBits(a + b) == MessageBits(a) + MessageBits(b)
  {
    if a == [] {
      assert a + b == b;
    } else {
      assert (a + b)[1..] == a[1..] + b;
      MessageBitsAppend(a[1..], b);
    }
  }

  // ---------- what the checksum detects ----------

  lemma ClockInjective(a: bv32, b: bv32)
    requires Table.Clock(a) == Table.Clock(b)
    ensures a == b
  {}

  lemma WordInjective()
    ensures Injective(Word())
  {
    forall a, b | Clock(Word(), a) == Clock(Word(), b) ensures a == b {
      ClockAgrees(a);
      ClockAgrees(b);
      ClockInjective(a, b);
    }
  }

  ghost predicate Within(x: bv32, mask: bv32) {
    x & mask == x
  }

  lemma WithinWiden(x: bv32, mask: bv32)
    requires Within(x, mask)
    ensures Within((x << 1) | 1, (mask << 1) | 1)
  {}

  lemma WithinTrans(a: bv32, b: bv32, c: bv32)
    requires Within(a, b) && Within(b, c)
    ensures Within(a, c)
  {}

  lemma WithinSelf(x: bv32)
    ensures Within(x, x)
  {}

  lemma {:induction false} OnesGrow(n: nat)
    ensures Within(Ones(n), Ones(n + 1))
  {
    if n > 0 {
      OnesGrow(n - 1);
      WithinWiden(Ones(n - 1), Ones(n));
    }
  }

  lemma Ones31()
    ensures Ones(31) == 0x7FFF_FFFF
  {
    assert Ones(8) == 0xFF;
    assert Ones(16) == 0xFFFF;
    assert Ones(24) == 0xFF_FFFF;
  }

  lemma {:induction false} OnesBelow(n: nat)
    requires n <= 31
    ensures Within(Ones(n), Ones(31))
    decreases 31 - n
  {
    if n < 31 {
      OnesGrow(n);
      OnesBelow(n + 1);
      WithinTrans(Ones(n), Ones(n + 1), Ones(31));
    } else {
      WithinSelf(Ones(31));
    }
  }

  function Injected(c: bv32, bit: bool): bv32 {
    if bit then c ^ 1 else c
  }

  // Two registers, c and e, and what one step makes of them. With the same bit falling out, the step shifts their
  // difference; with different bits, the generator sets the highest bit of it.

  lemma ClocksOfEven(c: bv32, e: bv32, p: bv32, q: bv32)
    requires p == c >> 1 && q == e >> 1
    ensures p ^ q == (c ^ e) >> 1
  {
    ShiftXor(c, e);
  }

  lemma ClocksOfOdd(c: bv32, e: bv32, p: bv32, q: bv32)
    requires p == (c >> 1) ^ 0xEDB8_8320 && q == (e >> 1) ^ 0xEDB8_8320
    ensures p ^ q == (c ^ e) >> 1
  {}

  lemma HighestSet(c: bv32, e: bv32, p: bv32, q: bv32)
    requires p == (c >> 1) ^ 0xEDB8_8320 && q == e >> 1
    ensures (p ^ q) & 0x8000_0000 != 0 && (q ^ p) & 0x8000_0000 != 0
  {}

  lemma HighestOutside(z: bv32, mask: bv32)
    requires z & 0x8000_0000 != 0 && Within(mask, 0x7FFF_FFFF)
    ensures !Within(z, mask)
  {}

  lemma OddOrEven(c: bv32)
    ensures c & 1 == 0 || c & 1 == 1
  {}

  /** One step, without its case distinction. */
  ghost predicate Steps(c: bv32, p: bv32) {
    && (c & 1 == 1 ==> p == (c >> 1) ^ 0xEDB8_8320)
    && (c & 1 == 0 ==> p == c >> 1)
  }

  lemma ClockSteps(c: bv32)
    ensures Steps(c, Table.Clock(c))
  {}

  lemma WordSteps(c: bv32, p: bv32)
    requires p == Clock(Word(), c)
    ensures Steps(c, p)
  {
    ClockAgrees(c);
    ClockSteps(c);
  }

  lemma ClocksApart(c: bv32, e: bv32, p: bv32, q: bv32, mask: bv32)
    requires Within(mask, 0x7FFF_FFFF) && Within(p ^ q, mask) && Steps(c, p) && Steps(e, q)
    ensures c & 1 == e & 1
    ensures Within((c ^ e) >> 1, mask)
  {
    OddOrEven(c);
    OddOrEven(e);
    if c & 1 != e & 1 {
      if c & 1 == 1 {
        HighestSet(c, e, p, q);
      } else {
        HighestSet(e, c, q, p);
      }
      HighestOutside(p ^ q, mask);
    } else if c & 1 == 1 {
      ClocksOfOdd(c, e, p, q);
    } else {
      ClocksOfEven(c, e, p, q);
    }
  }

  lemma Unshifted(z: bv32, mask: bv32)
    requires Within(z >> 1, mask)
    ensures Within(z, (mask << 1) | 1)
  {}

  /** Injecting a bit changes the lowest bit at most. */
  lemma InjectedWithin(x: bv32, y: bv32, b: bool, d: bool, mask: bv32)
    requires Within(Injected(x, b) ^ Injected(y, d), (mask << 1) | 1)
    ensures Within(x ^ y, (mask << 1) | 1)
  {}

  lemma InjectedOdd(x: bv32, b: bool, d: bool)
    requires Injected(x, b) & 1 == Injected(x, d) & 1
    ensures b == d
  {}

  lemma ClocksNear(c: bv32, e: bv32, p: bv32, q: bv32, mask: bv32)
    requires Within(mask, 0x7FFF_FFFF) && Within(p ^ q, mask) && Steps(c, p) && Steps(e, q)
    ensures Within(c ^ e, (mask << 1) | 1) && c & 1 == e & 1
  {
    ClocksApart(c, e, p, q, mask);
    Unshifted(c ^ e, mask);
  }

  ghost predicate Below(n: nat, d: bv32) {
    Within(d, Ones(n))
  }

  lemma InjectAgrees(x: bv32, b: bool)
    ensures Inject(Word(), x, b) == Injected(x, b)
  {
    XorAt(x, 1);
  }

  lemma ClocksWithin(c: bv32, e: bv32, p: bv32, q: bv32, mask: bv32, wide: bv32)
    requires Within(mask, 0x7FFF_FFFF) && Within(p ^ q, mask) && Steps(c, p) && Steps(e, q)
    requires wide == (mask << 1) | 1
    ensures Within(c ^ e, wide) && c & 1 == e & 1
  {
    ClocksNear(c, e, p, q, mask);
  }

  lemma OnesNext(n: nat)
    ensures Ones(n + 1) == (Ones(n) << 1) | 1
  {}

  lemma ClocksBelow(n: nat, c: bv32, e: bv32, p: bv32, q: bv32)
    requires n < 32 && Below(n, p ^ q) && Steps(c, p) && Steps(e, q)
    ensures Below(n + 1, c ^ e) && c & 1 == e & 1
  {
    OnesBelow(n);
    Ones31();
    OnesNext(n);
    ClocksWithin(c, e, p, q, Ones(n), Ones(n + 1));
  }

  lemma StepNear(n: nat, c: bv32, e: bv32, p: bv32, q: bv32)
    requires n < 32 && p == Clock(Word(), c) && q == Clock(Word(), e) && Below(n, p ^ q)
    ensures Below(n + 1, c ^ e) && c & 1 == e & 1
  {
    WordSteps(c, p);
    WordSteps(e, q);
    ClocksBelow(n, c, e, p, q);
  }

  lemma StepWithin(n: nat, x: bv32, y: bv32, b: bool, d: bool, c: bv32, e: bv32)
    requires c == Inject(Word(), x, b) && e == Inject(Word(), y, d)
    requires Below(n + 1, c ^ e) && c & 1 == e & 1
    ensures Below(n + 1, x ^ y)
    ensures x == y ==> b == d
  {
    InjectAgrees(x, b);
    InjectAgrees(y, d);
    InjectedWithin(x, y, b, d, Ones(n));
    if x == y {
      InjectedOdd(x, b, d);
    }
  }

  lemma WordStepConfined(n: nat, x: bv32, y: bv32, b: bool, d: bool)
    requires n < 32
    ensures StepConfined(Word(), Below, n, x, y, b, d)
  {
    var c, e := Inject(Word(), x, b), Inject(Word(), y, d);
    var p, q := Clock(Word(), c), Clock(Word(), e);
    XorAt(p, q);
    XorAt(x, y);
    if Below(n, Word().xor(p, q)) {
      StepNear(n, c, e, p, q);
      StepWithin(n, x, y, b, d, c, e);
    }
  }

  lemma WordConfines()
    ensures Confines(Word(), 32, Below)
  {
    forall n: nat, x, y, b, d | n < 32 ensures StepConfined(Word(), Below, n, x, y, b, d) {
      WordStepConfined(n, x, y, b, d);
    }
  }

  lemma WordIsItsValue(x: bv32, y: bv32)
    requires x as int == y as int
    ensures x == y
  {
    assert (x as int) as bv32 == x && (y as int) as bv32 == y;
  }

  lemma MaskCancels(x: bv32, y: bv32)
    requires x ^ MASK == y ^ MASK
    ensures x == y
  {}

  lemma SameValue(x: bv32, y: bv32)
    requires Complemented(x) == Complemented(y)
    ensures x == y
  {
    WordIsItsValue(x ^ MASK, y ^ MASK);
    MaskCancels(x, y);
  }

  lemma SameRegister(a: seq<byte>, b: seq<byte>)
    requires Crc(a) == Crc(b)
    ensures Divide(MASK, a) == Divide(MASK, b)
  {
    SameValue(Divide(MASK, a), Divide(MASK, b));
  }

  /** Two messages that agree outside a window of 32 consecutive bits, at any bit offset. */
  ghost predicate DifferInBurst(a: seq<byte>, b: seq<byte>, from: nat) {
    && |a| == |b| && a != b
    && forall i :: 0 <= i < 8 * |a| && !(from <= i < from + 32) ==> MessageBits(a)[i] == MessageBits(b)[i]
  }

  lemma WindowDetected(p: seq<bool>, v: seq<bool>, w: seq<bool>, s: seq<bool>)
    requires |v| == |w| <= 32
    requires Feed(Word(), MASK, p + v + s) == Feed(Word(), MASK, p + w + s)
    ensures v == w
  {
    WordLaws();
    WordInjective();
    WordConfines();
    Window(Word(), 32, Below, MASK, p, v, w, s);
  }

  lemma InThree<T>(s: seq<T>, i: nat, j: nat)
    requires i <= j <= |s|
    ensures s == s[..i] + s[i..j] + s[j..]
  {}

  /** The same bits before and behind the window. */
  lemma SameOutside(s: seq<bool>, t: seq<bool>, from: nat, i: nat, j: nat)
    requires |s| == |t| && forall k :: 0 <= k < |s| && !(from <= k < from + 32) ==> s[k] == t[k]
    requires i == Min(from, |s|) && j == Min(i + 32, |s|)
    ensures i <= j && s[..i] == t[..i] && s[j..] == t[j..]
  {}

  /** Any burst of at most 32 bits, in a message of any length, changes the checksum. */
  lemma BurstDetected(a: seq<byte>, b: seq<byte>, from: nat)
    requires DifferInBurst(a, b, from)
    ensures Crc(a) != Crc(b)
  {
    var s, t := MessageBits(a), MessageBits(b);
    var i := Min(from, |s|);
    var j := Min(i + 32, |s|);
    if Crc(a) == Crc(b) {
      SameRegister(a, b);
      SameOutside(s, t, from, i, j);
      InThree(s, i, j);
      InThree(t, i, j);
      WindowDetected(s[..i], s[i..j], t[i..j], s[j..]);
      MessageBitsInjective(a, b);
    }
  }
}
