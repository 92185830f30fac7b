/** Which damage to an event the checksum of Common/Event.h:271-303 lets pass. It is exact for data and checksum
    damaged together, because division is linear: the remainder of the difference decides. */
module Damage {
  import opened Bytes
  import opened ShiftRegister
  import opened Crc32
  import opened Wire
  import Table = Crc32Table

  // ---------- numbers as words ----------

  // That bits are clear is written into the terms, by a mask, and not into a precondition: so the solver drops them
  // before it expands a word into the sum of its bits.

  function Digit(x: nat): bv32 {
    if x % 2 == 1 then 1 else 0
  }

  lemma DigitValue(x: nat)
    ensures Digit(x) & 1 == Digit(x) && Digit(x) as int == x % 2
  {
    assert (0 as bv32) as int == 0 && (1 as bv32) as int == 1;
  }

  function WordOf(x: uint32): bv32 {
    if x == 0 then 0 else ((WordOf(x / 2) & 0x7FFF_FFFF) << 1) | (Digit(x) & 1)
  }

  lemma AppendedValue(h: bv32, l: bv32)
    ensures (((h & 0x7FFF_FFFF) << 1) | (l & 1)) as int == 2 * ((h & 0x7FFF_FFFF) as int) + (l & 1) as int
  {}

  lemma DigitAppended(h: bv32, l: bv32, q: int, d: int, w: bv32)
    requires h & 0x7FFF_FFFF == h && l & 1 == l && h as int == q && l as int == d
    requires w == ((h & 0x7FFF_FFFF) << 1) | (l & 1)
    ensures w as int == 2 * q + d
  {
    AppendedValue(h, l);
  }

  lemma TopBitClear(c: bv32)
    requires c as int < 0x8000_0000
    ensures c & 0x7FFF_FFFF == c
  {
    assert c <= 0x7FFF_FFFF;
  }

  lemma LongerWord(x: nat, h: bv32, l: bv32, w: bv32)
    requires h as int == x / 2 < 0x8000_0000 && l == Digit(x) && w == ((h & 0x7FFF_FFFF) << 1) | (l & 1)
    ensures w as int == x
  {
    TopBitClear(h);
    DigitValue(x);
    DigitAppended(h, l, x / 2, x % 2, w);
  }

  lemma {:induction false} WordValue(x: uint32)
    ensures WordOf(x) as int == x
  {
    if x == 0 {
      DigitValue(0);
    } else {
      WordValue(x / 2);
      LongerWord(x, WordOf(x / 2), Digit(x), WordOf(x));
    }
  }

  // ---------- the checksum of a difference ----------

  /** The bits in which two messages differ. */
  function Difference(a: seq<byte>, b: seq<byte>): seq<bool>
    requires |a| == |b|
  {
    XorBits(MessageBits(a), MessageBits(b))
  }

  ghost function Remainder(bits: seq<bool>): bv32 {
    Feed(Word(), 0, bits)
  }

  // The exclusive or stays that of the register: of its laws only the abstract ones are needed.

  ghost function Sum(x: bv32, y: bv32): bv32 {
    Word().xor(x, y)
  }

  lemma DivideDiffers(a: seq<byte>, b: seq<byte>)
    requires |a| == |b|
    ensures Sum(Divide(MASK, a), Divide(MASK, b)) == Remainder(Difference(a, b))
  {
    WordLaws();
    WordXorUndoes(MASK, MASK);
    FeedXor(Word(), MASK, MASK, MessageBits(a), MessageBits(b));
  }

  lemma ValueOf(x: bv32, n: uint32)
    ensures Complemented(x) == n <==> WordOf(n) == Sum(x, MASK)
  {
    WordValue(n);
    XorAt(x, MASK);
    if Complemented(x) == n {
      WordIsItsValue(WordOf(n), x ^ MASK);
    }
  }

  lemma SumsDifferIn(reg: Register<bv32>, x: bv32, y: bv32, r: bv32, v: bv32, w: bv32, m: bv32)
    requires Laws(reg) && r == reg.xor(x, y) && v == reg.xor(x, m)
    ensures w == reg.xor(y, m) <==> r == reg.xor(v, w)
  {
    MaskedApart(reg, x, y, v, w, m);
  }

  /** Two registers, what they are complemented to, and their difference. */
  lemma SumsDiffer(x: bv32, y: bv32, r: bv32, v: bv32, w: bv32)
    requires r == Sum(x, y) && v == Sum(x, MASK)
    ensures w == Sum(y, MASK) <==> r == Sum(v, w)
  {
    WordLaws();
    SumsDifferIn(Word(), x, y, r, v, w, MASK);
  }

  /** r is the exclusive or of two numbers. */
  ghost predicate Apart(r: bv32, sum: uint32, other: uint32) {
    r == Sum(WordOf(sum), WordOf(other))
  }

  /** The checksum of b, told from that of a. */
  lemma ChecksumDiffers(a: seq<byte>, b: seq<byte>, sum: uint32, other: uint32)
    requires |a| == |b| && Crc(a) == sum
    ensures Crc(b) == other <==> Apart(Remainder(Difference(a, b)), sum, other)
  {
    DivideDiffers(a, b);
    ValueOf(Divide(MASK, a), sum);
    ValueOf(Divide(MASK, b), other);
    SumsDiffer(Divide(MASK, a), Divide(MASK, b), Remainder(Difference(a, b)), WordOf(sum), WordOf(other));
  }

  // ---------- damaged events ----------

  /** The checksum that stands behind the covered bytes of an event. */
  function SumAt(d: seq<byte>, covered: nat): uint32
    requires covered + 4 <= |d|
  {
    FromBe32(d[covered..covered + 4])
  }

  /** The damage behind the length field has the remainder of the damage to the checksum. */
  ghost predicate Cancels(d: seq<byte>, damaged: seq<byte>, pos: nat, covered: nat)
    requires |damaged| == |d| && pos <= covered && covered + 4 <= |d|
  {
    Apart(Remainder(Difference(d[pos..covered], damaged[pos..covered])), SumAt(d, covered), SumAt(damaged, covered))
  }

  lemma MatchesExactly(d: seq<byte>, damaged: seq<byte>, pos: nat, len: uint32, covered: nat)
    requires |damaged| == |d| && covered == pos + 4 + len && covered + 4 <= |d| && CrcMatches(CRC32(), d, pos, len)
    ensures CrcMatches(CRC32(), damaged, pos, len) <==> Cancels(d, damaged, pos, covered)
  {
    ChecksumDiffers(d[pos..covered], damaged[pos..covered], SumAt(d, covered), SumAt(damaged, covered));
  }

  lemma AcceptedIfMatches(crc: Checksum, d: seq<byte>, damaged: seq<byte>, pos: nat, e: Event)
    requires Packable(e) && At(d, pos, EncodeEvent(crc, e))
    requires |damaged| == |d| && damaged[pos..pos + 4] == d[pos..pos + 4]
    ensures pos + 4 + e.len + 4 <= |d| && CrcMatches(crc, d, pos, e.len)
    ensures UnpackEvent(crc, damaged, pos) != CrcMismatch <==> CrcMatches(crc, damaged, pos, e.len)
  {
    EventFieldsAt(crc, d, pos, e);
  }

  /** Damage of any kind behind the length field, to data and checksum alike: it passes the checksum if and only if it
      cancels. */
  lemma DamageAcceptedExactly(d: seq<byte>, damaged: seq<byte>, pos: nat, e: Event, covered: nat)
    requires Packable(e) && At(d, pos, EncodeEvent(CRC32(), e)) && covered == pos + 4 + e.len
    requires |damaged| == |d| && damaged[pos..pos + 4] == d[pos..pos + 4]
    ensures covered + 4 <= |d|
    ensures UnpackEvent(CRC32(), damaged, pos) != CrcMismatch <==> Cancels(d, damaged, pos, covered)
  {
    AcceptedIfMatches(CRC32(), d, damaged, pos, e);
    MatchesExactly(d, damaged, pos, e.len, covered);
  }

  lemma SameRemainder(a: seq<byte>)
    ensures Remainder(Difference(a, a)) == 0
  {
    WordLaws();
    FeedSame(Word(), MessageBits(a));
  }

  lemma XorNone(x: bv32, y: bv32)
    requires x ^ y == 0
    ensures x == y
  {}

  lemma NothingApart(a: uint32, b: uint32)
    requires Apart(0, a, b)
    ensures a == b
  {
    XorAt(WordOf(a), WordOf(b));
    XorNone(WordOf(a), WordOf(b));
    WordValue(a);
    WordValue(b);
  }

  lemma NothingCancels(a: seq<byte>, b: seq<byte>, sum: uint32, other: uint32)
    requires a == b && sum != other
    ensures !Apart(Remainder(Difference(a, b)), sum, other)
  {
    SameRemainder(a);
    if Apart(0, sum, other) {
      NothingApart(sum, other);
    }
  }

  lemma SumsAtDiffer(s: seq<byte>, t: seq<byte>)
    requires |s| == |t| == 4 && s != t
    ensures FromBe32(s) != FromBe32(t)
  {
    Be32Inverse(s);
    Be32Inverse(t);
  }

  lemma PartOfPart<T>(a: seq<T>, from: nat, k: nat, i: nat, j: nat)
    requires from <= i <= j <= k <= |a|
    ensures a[i..j] == a[from..k][i - from..j - from]
  {
    assert forall n :: 0 <= n < j - i ==> a[i..j][n] == a[from..k][i - from + n];
  }

  lemma SamePart<T>(a: seq<T>, b: seq<T>, from: nat, k: nat, i: nat, j: nat)
    requires |a| == |b| && from <= i <= j <= k <= |a| && a[from..k] == b[from..k]
    ensures a[i..j] == b[i..j]
  {
    PartOfPart(a, from, k, i, j);
    PartOfPart(b, from, k, i, j);
  }

  lemma NotCancelled(d: seq<byte>, damaged: seq<byte>, pos: nat, covered: nat)
    requires |damaged| == |d| && pos <= covered && covered + 4 <= |d|
    requires damaged[pos..covered] == d[pos..covered] && damaged[covered..covered + 4] != d[covered..covered + 4]
    ensures !Cancels(d, damaged, pos, covered)
  {
    SumsAtDiffer(d[covered..covered + 4], damaged[covered..covered + 4]);
    NothingCancels(d[pos..covered], damaged[pos..covered], SumAt(d, covered), SumAt(damaged, covered));
  }

  /** Damage to the checksum alone never passes. */
  lemma SumDamageRejected(d: seq<byte>, damaged: seq<byte>, pos: nat, e: Event, covered: nat)
    requires Packable(e) && At(d, pos, EncodeEvent(CRC32(), e)) && |damaged| == |d| && covered == pos + 4 + e.len
    requires damaged[pos..covered] == d[pos..covered] && damaged[covered..covered + 4] != d[covered..covered + 4]
    ensures UnpackEvent(CRC32(), damaged, pos) == CrcMismatch
  {
    SamePart(damaged, d, pos, covered, pos, pos + 4);
    NotCancelled(d, damaged, pos, covered);
    DamageAcceptedExactly(d, damaged, pos, e, covered);
  }

  // ---------- four damaged bytes that pass ----------

  // A reflected checksum that is sent with its highest byte first is no continuation of the message it covers, and a
  // burst over the end of the data and the beginning of the checksum may cancel: this one does in every event.

  const DATA_DAMAGE: seq<byte> := [0x61, 0xd8]
  const SUM_DAMAGE: bv32 := 0xf4ee_0000

  lemma FirstFed()
    ensures Feed(Word(), 0, LowBits(8, 0x61)) == 0x3ab5_51ce
  {
    assert Table.TableEntry(0x61) == 0x3ab5_51ce;
    Table.TableIsDivision(0x61);
    StepIsDivision(8, 0, 0x61, 0x61, 0x61, 0, 0x3ab5_51ce);
  }

  lemma SecondFed()
    ensures Feed(Word(), 0x3ab5_51ce, LowBits(8, 0xd8)) == SUM_DAMAGE
  {
    assert Table.TableEntry(0x16) == 0xf4d4_b551;
    Table.TableIsDivision(0x16);
    StepIsDivision(8, 0x3ab5_51ce, 0xd8, 0xd8, 0x16, 0x3a_b551, 0xf4d4_b551);
  }

  lemma DamageRemainder()
    ensures Remainder(MessageBits(DATA_DAMAGE)) == SUM_DAMAGE
  {
    FirstFed();
    SecondFed();
    FeedAppend(Word(), 0, LowBits(8, 0x61), LowBits(8, 0xd8));
    assert DATA_DAMAGE[1..] == [0xd8] && [0xd8 as byte][1..] == [];
    assert MessageBits(DATA_DAMAGE) == LowBits(8, 0x61) + LowBits(8, 0xd8);
  }

  /** The number of the bits in which a and b differ. */
  function Flip(a: nat, b: nat): nat
    decreases a + b
  {
    if a == 0 && b == 0 then 0 else (a % 2 + b % 2) % 2 + 2 * Flip(a / 2, b / 2)
  }

  lemma {:induction false} FlipSmall(n: nat, a: nat, b: nat)
    requires a < Pow2(n) && b < Pow2(n)
    ensures Flip(a, b) < Pow2(n)
    decreases n
  {
    if n > 0 {
      FlipSmall(n - 1, a / 2, b / 2);
    }
  }

  lemma FlipHalves(a: nat, b: nat, r: nat)
    requires r == Flip(a, b)
    ensures r / 2 == Flip(a / 2, b / 2) && r % 2 == (a % 2 + b % 2) % 2
  {}

  lemma {:induction false} FlipDiffers(n: nat, a: nat, b: nat)
    ensures XorBits(LowBits(n, a), LowBits(n, Flip(a, b))) == LowBits(n, b)
    decreases n
  {
    if n > 0 {
      var r := Flip(a, b);
      FlipHalves(a, b, r);
      FlipDiffers(n - 1, a / 2, b / 2);
      assert LowBits(n, a)[1..] == LowBits(n - 1, a / 2) && LowBits(n, r)[1..] == LowBits(n - 1, r / 2);
    }
  }

  function FlipByte(a: byte, b: byte): byte {
    assert Pow2(8) == 256;
    FlipSmall(8, a, b);
    Flip(a, b)
  }

  /** The two bytes a message ends with, flipped. */
  function Struck(m: seq<byte>): (r: seq<byte>)
    requires |m| >= 2
    ensures |r| == |m| && r[..|m| - 2] == m[..|m| - 2]
  {
    m[..|m| - 2] + [FlipByte(m[|m| - 2], 0x61), FlipByte(m[|m| - 1], 0xd8)]
  }

  lemma TwoBytes(p: byte, q: byte)
    ensures MessageBits([p, q]) == LowBits(8, p) + LowBits(8, q)
  {
    assert [p, q][1..] == [q] && [q][1..] == [];
  }

  lemma StruckEnd(p: byte, q: byte)
    ensures Difference([p, q], [FlipByte(p, 0x61), FlipByte(q, 0xd8)]) == MessageBits(DATA_DAMAGE)
  {
    var s, t := FlipByte(p, 0x61), FlipByte(q, 0xd8);
    TwoBytes(p, q);
    TwoBytes(s, t);
    TwoBytes(0x61, 0xd8);
    FlipDiffers(8, p, 0x61);
    FlipDiffers(8, q, 0xd8);
    XorBitsAppend(LowBits(8, p), LowBits(8, s), LowBits(8, q), LowBits(8, t));
  }

  lemma StruckRemainder(m: seq<byte>)
    requires |m| >= 2
    ensures Remainder(Difference(m, Struck(m))) == SUM_DAMAGE
  {
    var head, p, q := m[..|m| - 2], m[|m| - 2], m[|m| - 1];
    var end := [FlipByte(p, 0x61), FlipByte(q, 0xd8)];
    assert m == head + [p, q];
    MessageBitsAppend(head, [p, q]);
    MessageBitsAppend(head, end);
    XorBitsAppend(MessageBits(head), MessageBits(head), MessageBits([p, q]), MessageBits(end));
    StruckEnd(p, q);
    FeedAppend(Word(), 0, Difference(head, head), MessageBits(DATA_DAMAGE));
    SameRemainder(head);
    DamageRemainder();
  }

  lemma HalvesValue(h: bv32, l: bv32)
    ensures ((h << 16) | (l & 0xFFFF)) as int == 0x1_0000 * ((h & 0xFFFF) as int) + (l & 0xFFFF) as int
  {}

  lemma Halves(x: bv32, h: bv32)
    requires h == x >> 16
    ensures x == (h << 16) | (x & 0xFFFF)
  {}

  lemma LowRest(n: int, p: int, q: int)
    requires n == 0x1_0000 * p + q
    ensures n % 0x1_0000 == q % 0x1_0000
  {}

  lemma LowHalfOf(x: bv32, h: bv32, l: bv32, m: bv32)
    requires x == (h << 16) | (l & 0xFFFF) && m == l & 0xFFFF
    ensures (x as int) % 0x1_0000 == (m as int) % 0x1_0000
  {
    HalvesValue(h, l);
    LowRest(((h << 16) | (l & 0xFFFF)) as int, (h & 0xFFFF) as int, (l & 0xFFFF) as int);
  }

  lemma LowHalf(x: bv32, h: bv32, m: bv32)
    requires h == x >> 16 && m == x & 0xFFFF
    ensures (x as int) % 0x1_0000 == (m as int) % 0x1_0000
  {
    Halves(x, h);
    LowHalfOf(x, h, x, m);
  }

  lemma SameLowHalf(x: bv32, y: bv32)
    requires y == x ^ SUM_DAMAGE
    ensures (x as int) % 0x1_0000 == (y as int) % 0x1_0000
  {
    assert y & 0xFFFF == x & 0xFFFF;
    LowHalf(x, x >> 16, x & 0xFFFF);
    LowHalf(y, y >> 16, x & 0xFFFF);
  }

  lemma XorBack(x: bv32, y: bv32, z: bv32)
    requires y == x ^ SUM_DAMAGE && z == y
    ensures SUM_DAMAGE == x ^ z
  {}

  /** The damaged checksum is another number with the same low half. */
  function StruckSum(sum: uint32): uint32 {
    ((WordOf(sum)) ^ SUM_DAMAGE) as int
  }

  lemma StruckSumWord(sum: uint32, other: uint32, x: bv32, y: bv32)
    requires x == WordOf(sum) && y == x ^ SUM_DAMAGE && other == y as int
    ensures Apart(SUM_DAMAGE, sum, other) && other % 0x1_0000 == sum % 0x1_0000
  {
    WordValue(sum);
    WordValue(other);
    WordIsItsValue(y, WordOf(other));
    XorBack(x, y, WordOf(other));
    XorAt(x, WordOf(other));
    SameLowHalf(x, y);
  }

  lemma StruckSumDiffers(sum: uint32)
    ensures StruckSum(sum) % 0x1_0000 == sum % 0x1_0000
    ensures Apart(SUM_DAMAGE, sum, StruckSum(sum))
  {
    StruckSumWord(sum, StruckSum(sum), WordOf(sum), WordOf(sum) ^ SUM_DAMAGE);
  }

  lemma StruckChecksum(m: seq<byte>)
    requires |m| >= 2
    ensures Crc(Struck(m)) == StruckSum(Crc(m))
  {
    StruckRemainder(m);
    StruckSumDiffers(Crc(m));
    ChecksumDiffers(m, Struck(m), Crc(m), StruckSum(Crc(m)));
  }

  lemma LowBytes(a: uint32, b: uint32)
    requires a % 0x1_0000 == b % 0x1_0000
    ensures Be32(a)[2..] == Be32(b)[2..]
  {}

  lemma FlipOdd(p: byte)
    ensures FlipByte(p, 0x61) != p
  {
    FlipHalves(p, 0x61, FlipByte(p, 0x61));
  }

  /** The bytes of an event with its last two covered bytes and its first two checksum bytes damaged. */
  function StruckEvent(body: seq<byte>, sum: uint32): (r: seq<byte>)
    requires |body| >= 2
    ensures |r| == |body| + 4
  {
    Struck(body) + Be32(StruckSum(sum))
  }

  lemma StruckDiffers(body: seq<byte>, sum: uint32, n: nat)
    requires |body| >= 2 && n == |body|
    ensures var s, t := body + Be32(sum), StruckEvent(body, sum);
            s[..n - 2] == t[..n - 2] && s[n + 2..] == t[n + 2..] && s[n - 2] != t[n - 2]
  {
    FlipOdd(body[n - 2]);
    StruckSumDiffers(sum);
    LowBytes(sum, StruckSum(sum));
    assert (body + Be32(sum))[n + 2..] == Be32(sum)[2..];
    assert StruckEvent(body, sum)[n + 2..] == Be32(StruckSum(sum))[2..];
  }

  lemma StruckMatches(damaged: seq<byte>, pos: nat, body: seq<byte>, len: uint32)
    requires |body| == 4 + len && |body| >= 2 && At(damaged, pos, StruckEvent(body, Crc(body)))
    ensures CrcMatches(CRC32(), damaged, pos, len)
  {
    StruckChecksum(body);
    ChecksumAt(CRC32(), damaged, pos, Struck(body), len);
  }

  /** d with the bytes s standing at pos replaced by t. */
  function Replaced(d: seq<byte>, pos: nat, s: seq<byte>, t: seq<byte>): (r: seq<byte>)
    requires At(d, pos, s) && |s| == |t|
    ensures |r| == |d| && At(r, pos, t)
  {
    d[..pos] + t + d[pos + |s|..]
  }

  lemma ReplacedInside(d: seq<byte>, pos: nat, s: seq<byte>, t: seq<byte>, i: nat, j: nat)
    requires At(d, pos, s) && |s| == |t| && i < j <= |s| && s[..i] == t[..i] && s[j..] == t[j..] && s[i] != t[i]
    ensures var r := Replaced(d, pos, s, t);
            r != d && r[..pos + i] == d[..pos + i] && r[pos + j..] == d[pos + j..]
  {
    var r := Replaced(d, pos, s, t);
    assert d == d[..pos] + s + d[pos + |s|..];
    assert r[pos + i] == t[i] && d[pos + i] == s[i];
    assert r[..pos + i] == d[..pos] + t[..i] == d[..pos] + s[..i] == d[..pos + i];
    assert r[pos + j..] == t[j..] + d[pos + |s|..] == s[j..] + d[pos + |s|..] == d[pos + j..];
  }

  /** Every event, wherever it stands: some damage to its last two covered bytes and the first two of its checksum
      passes the checksum. */
  lemma EveryEventHasDamage(d: seq<byte>, pos: nat, e: Event, covered: nat) returns (damaged: seq<byte>)
    requires Packable(e) && At(d, pos, EncodeEvent(CRC32(), e)) && covered == pos + 4 + e.len
    ensures |damaged| == |d| && damaged != d
    ensures damaged[..covered - 2] == d[..covered - 2] && damaged[covered + 2..] == d[covered + 2..]
    ensures UnpackEvent(CRC32(), damaged, pos) != CrcMismatch
  {
    var body := EncodeBody(e);
    damaged := StrikeInside(d, pos, body, Crc(body), |body|, covered);
    StruckAccepted(d, damaged, pos, e, body, covered);
  }

  lemma StrikeInside(d: seq<byte>, pos: nat, body: seq<byte>, sum: uint32, n: nat, covered: nat)
    returns (damaged: seq<byte>)
    requires |body| == n >= 2 && At(d, pos, body + Be32(sum)) && covered == pos + n
    ensures |damaged| == |d| && damaged != d && At(damaged, pos, StruckEvent(body, sum))
    ensures damaged[..covered - 2] == d[..covered - 2] && damaged[covered + 2..] == d[covered + 2..]
  {
    damaged := Replaced(d, pos, body + Be32(sum), StruckEvent(body, sum));
    StruckDiffers(body, sum, n);
    ReplacedInside(d, pos, body + Be32(sum), StruckEvent(body, sum), n - 2, n + 2);
  }

  lemma StruckAccepted(d: seq<byte>, damaged: seq<byte>, pos: nat, e: Event, body: seq<byte>,
                       covered: nat)
    requires Packable(e) && At(d, pos, EncodeEvent(CRC32(), e)) && |damaged| == |d| && covered == pos + 4 + e.len
    requires damaged[..covered - 2] == d[..covered - 2]
    requires body == EncodeBody(e) && At(damaged, pos, StruckEvent(body, Crc(body)))
    ensures UnpackEvent(CRC32(), damaged, pos) != CrcMismatch
  {
    StruckMatches(damaged, pos, body, e.len);
    SamePart(damaged, d, 0, covered - 2, pos, pos + 4);
    AcceptedIfMatches(CRC32(), d, damaged, pos, e);
  }

  function PixelHead(no: uint32, player: byte, x: uint32): seq<byte> {
    Be32(14) + Be32(no) + [1, player] + Be32(x) + [0, 0]
  }

  lemma PixelBody(no: uint32, player: byte, x: uint32, high: byte, low: byte)
    ensures EncodeBody(MakeEvent(no, Pixel(player, x, high as int * 256 + low)))
            == PixelHead(no, player, x) + [high, low]
  {
    LowBe32(high as int * 256 + low, high, low);
    Regroup(Be32(14) + Be32(no) + [1, player] + Be32(x), [0, 0], [high, low]);
    PixelFields(no, player, x, high as int * 256 + low);
  }

  lemma LowBe32(y: uint32, high: byte, low: byte)
    requires y == high as int * 256 + low
    ensures Be32(y) == [0, 0] + [high, low]
  {}

  lemma PixelFields(no: uint32, player: byte, x: uint32, y: uint32)
    ensures EncodeBody(MakeEvent(no, Pixel(player, x, y))) == Be32(14) + Be32(no) + [1, player] + Be32(x) + Be32(y)
  {
    assert [1 as byte] + ([player] + Be32(x) + Be32(y)) == [1, player] + Be32(x) + Be32(y);
  }

  lemma {:induction false} FlipNone(b: nat)
    ensures Flip(0, b) == b
  {
    if b > 0 {
      FlipNone(b / 2);
    }
  }

  lemma FlipStep(a: nat, b: nat, p: nat, q: nat, r: nat)
    requires p == a / 2 && q == b / 2 && Flip(p, q) == r
    ensures Flip(a, b) == (a % 2 + b % 2) % 2 + 2 * r
  {
    FlipHalves(a, b, Flip(a, b));
  }

  lemma FlipFour()
    ensures Flip(4, 0xd8) == 0xdc
  {
    FlipNone(27);
    FlipStep(1, 54, 0, 27, 27);
    FlipStep(2, 108, 1, 54, 55);
    FlipStep(4, 216, 2, 108, 110);
  }

  lemma StruckEnds(head: seq<byte>)
    ensures Struck(head + [0, 4]) == head + [0x61, 0xdc]
  {
    FlipNone(0x61);
    FlipFour();
    StruckParts(head, 0, 4);
  }

  lemma StruckParts(head: seq<byte>, p: byte, q: byte)
    ensures Struck(head + [p, q]) == head + [FlipByte(p, 0x61), FlipByte(q, 0xd8)]
  {
    var m := head + [p, q];
    assert m[..|m| - 2] == head && m[|m| - 2] == p && m[|m| - 1] == q;
  }

  lemma PixelPackable(no: uint32, player: byte, x: uint32, y: uint32)
    ensures Packable(MakeEvent(no, Pixel(player, x, y))) && EventSize(MakeEvent(no, Pixel(player, x, y))) == 22
  {}

  lemma StruckPixel(no: uint32, player: byte, x: uint32)
    ensures EncodeBody(MakeEvent(no, Pixel(player, x, 25052))) == Struck(EncodeBody(MakeEvent(no, Pixel(player, x, 4))))
  {
    PixelBody(no, player, x, 0, 4);
    PixelBody(no, player, x, 0x61, 0xdc);
    StruckEnds(PixelHead(no, player, x));
  }

  lemma Alone(crc: Checksum, e: Event)
    requires Packable(e)
    ensures UnpackEvent(crc, EncodeEvent(crc, e), 0) == Got(e, EventSize(e))
  {
    var s := EncodeEvent(crc, e);
    assert s[0..0 + |s|] == s;
    EventRoundTrip(crc, s, 0, e);
  }

  lemma StruckEncoded(e: Event, f: Event)
    requires e.data.Pixel? && f.data.Pixel? && EncodeBody(f) == Struck(EncodeBody(e))
    ensures var a, b := EncodeEvent(CRC32(), e), EncodeEvent(CRC32(), f);
            |a| == |b| == 22 && a[..16] == b[..16] && a[20..] == b[20..]
  {
    StruckChecksum(EncodeBody(e));
    StruckDiffers(EncodeBody(e), Crc(EncodeBody(e)), 18);
  }

  /** Two valid events whose encodings differ in four consecutive bytes only: one is read as the other. */
  lemma DamageUnnoticed(no: uint32, player: byte, x: uint32)
    ensures var e, f := MakeEvent(no, Pixel(player, x, 4)), MakeEvent(no, Pixel(player, x, 25052));
            var a, b := EncodeEvent(CRC32(), e), EncodeEvent(CRC32(), f);
            && |a| == |b| == 22 && a[..16] == b[..16] && a[20..] == b[20..]
            && UnpackEvent(CRC32(), a, 0) == Got(e, 22) && UnpackEvent(CRC32(), b, 0) == Got(f, 22)
  {
    PixelPackable(no, player, x, 4);
    PixelPackable(no, player, x, 25052);
    Alone(CRC32(), MakeEvent(no, Pixel(player, x, 4)));
    Alone(CRC32(), MakeEvent(no, Pixel(player, x, 25052)));
    StruckPixel(no, player, x);
    StruckEncoded(MakeEvent(no, Pixel(player, x, 4)), MakeEvent(no, Pixel(player, x, 25052)));
  }
}
