/** Division by feedback shift register, over any word type with the laws below.
    Keeping the words abstract keeps every proof here free of bit-vector arithmetic. */
module ShiftRegister {
  datatype Register<!T> = Register(shift: T -> T, odd: T -> bool, xor: (T, T) -> T, zero: T, one: T, poly: T)

  /** One division step: shift, and subtract the generator when a one falls out. */
  ghost function Clock<T>(r: Register<T>, c: T): T {
    if r.odd(c) then r.xor(r.shift(c), r.poly) else r.shift(c)
  }

  ghost function Clocks<T>(r: Register<T>, n: nat, c: T): T {
    if n == 0 then c else Clocks(r, n - 1, Clock(r, c))
  }

  ghost function Inject<T>(r: Register<T>, c: T, bit: bool): T {
    if bit then r.xor(c, r.one) else c
  }

  /** One division step per bit of the message. */
  ghost function Feed<T>(r: Register<T>, c: T, bits: seq<bool>): T {
    if bits == [] then c else Feed(r, Clock(r, Inject(r, c, bits[0])), bits[1..])
  }

  ghost function Shifted<T>(r: Register<T>, n: nat, w: T): T {
    if n == 0 then w else Shifted(r, n - 1, r.shift(w))
  }

  /** The n bits that leave w when it is shifted n times. */
  ghost function Bits<T>(r: Register<T>, n: nat, w: T): (bits: seq<bool>)
    ensures |bits| == n
  {
    if n == 0 then [] else [r.odd(w)] + Bits(r, n - 1, r.shift(w))
  }

  /** What is used of the exclusive or: p moves to the end, and two of it cancel. */
  ghost predicate XorLaws<T>(r: Register<T>, x: T, y: T, p: T) {
    && r.xor(r.xor(x, p), y) == r.xor(r.xor(x, y), p)
    && r.xor(x, r.xor(y, p)) == r.xor(r.xor(x, y), p)
    && r.xor(r.xor(x, p), r.xor(y, p)) == r.xor(x, y)
    && r.xor(r.xor(x, p), p) == x
    && r.xor(r.zero, p) == p
    && r.xor(p, p) == r.zero
  }

  ghost predicate ShiftLaws<T>(r: Register<T>, x: T, y: T) {
    && r.shift(r.xor(x, y)) == r.xor(r.shift(x), r.shift(y))
    && (r.odd(r.xor(x, y)) <==> r.odd(x) != r.odd(y))
  }

  ghost predicate Laws<T(!new)>(r: Register<T>) {
    && (forall x, y, p :: XorLaws(r, x, y, p))
    && (forall x, y :: ShiftLaws(r, x, y))
    && r.odd(r.one) && r.shift(r.one) == r.zero
  }

  lemma {:induction false} FeedAppend<T>(r: Register<T>, c: T, a: seq<bool>, b: seq<bool>)
    ensures Feed(r, c, a + b) == Feed(r, Feed(r, c, a), b)
    decreases a
  {
    if a == [] {
      assert a + b == b;
    } else {
      assert (a + b)[1..] == a[1..] + b;
      FeedAppend(r, Clock(r, Inject(r, c, a[0])), a[1..], b);
    }
  }

  lemma ClockXor<T(!new)>(r: Register<T>, a: T, b: T)
    requires Laws(r)
    ensures Clock(r, r.xor(a, b)) == r.xor(Clock(r, a), Clock(r, b))
  {
    assert ShiftLaws(r, a, b);
    assert XorLaws(r, r.shift(a), r.shift(b), r.poly);
  }

  lemma {:induction false} ClocksXor<T(!new)>(r: Register<T>, n: nat, a: T, b: T)
    requires Laws(r)
    ensures Clocks(r, n, r.xor(a, b)) == r.xor(Clocks(r, n, a), Clocks(r, n, b))
    decreases n
  {
    if n > 0 {
      ClockXor(r, a, b);
      ClocksXor(r, n - 1, Clock(r, a), Clock(r, b));
    }
  }

  /** Clocking with a whole word added is clocking with its lowest bit injected, the rest shifted along. */
  lemma ClockWord<T(!new)>(r: Register<T>, c: T, w: T)
    requires Laws(r)
    ensures Clock(r, r.xor(c, w)) == r.xor(Clock(r, Inject(r, c, r.odd(w))), r.shift(w))
  {
    ClockXor(r, c, w);
    if r.odd(w) {
      ClockXor(r, c, r.one);
      assert XorLaws(r, Clock(r, c), r.shift(w), r.poly);
    }
  }

  /** Feeding n bits of w is clocking n times with w added at once, up to what is left of w. */
  lemma {:induction false} FeedWord<T(!new)>(r: Register<T>, n: nat, c: T, w: T)
    requires Laws(r)
    ensures Clocks(r, n, r.xor(c, w)) == r.xor(Feed(r, c, Bits(r, n, w)), Shifted(r, n, w))
    decreases n
  {
    if n > 0 {
      ClockWord(r, c, w);
      assert Bits(r, n, w)[1..] == Bits(r, n - 1, r.shift(w));
      FeedWord(r, n - 1, Clock(r, Inject(r, c, r.odd(w))), r.shift(w));
    }
  }

  /** While only zeros fall out, a division step is a shift. */
  lemma {:induction false} ClocksShift<T>(r: Register<T>, n: nat, h: T)
    requires forall k :: 0 <= k < n ==> !r.odd(Shifted(r, k, h))
    ensures Clocks(r, n, h) == Shifted(r, n, h)
    decreases n
  {
    if n > 0 {
      assert !r.odd(Shifted(r, 0, h));
      forall k | 0 <= k < n - 1 ensures !r.odd(Shifted(r, k, r.shift(h))) {
        assert !r.odd(Shifted(r, k + 1, h));
      }
      ClocksShift(r, n - 1, r.shift(h));
    }
  }

  /** How a table works: of a word added to the register, the part h that is all shifted out contributes its
      shift s, and the part l contributes its own n steps. */
  lemma TableStep<T(!new)>(r: Register<T>, n: nat, c: T, w: T, h: T, l: T, s: T)
    requires Laws(r)
    requires r.xor(h, l) == r.xor(c, w)
    requires forall k :: 0 <= k < n ==> !r.odd(Shifted(r, k, h))
    requires Shifted(r, n, h) == s && Shifted(r, n, w) == r.zero
    ensures r.xor(s, Clocks(r, n, l)) == Feed(r, c, Bits(r, n, w))
  {
    ClocksShift(r, n, h);
    ClocksXor(r, n, h, l);
    FeedWord(r, n, c, w);
    var f := Feed(r, c, Bits(r, n, w));
    assert XorLaws(r, f, r.one, r.one);
  }

  /** Two registers, and two words of which the first is the first register with m added. */
  lemma MaskedApart<T(!new)>(r: Register<T>, x: T, y: T, v: T, w: T, m: T)
    requires Laws(r) && v == r.xor(x, m)
    ensures w == r.xor(y, m) <==> r.xor(x, y) == r.xor(v, w)
  {
    assert XorLaws(r, x, y, m);
    if r.xor(x, y) == r.xor(v, w) {
      assert XorLaws(r, v, v, w) && XorLaws(r, v, x, y) && XorLaws(r, x, x, m) && XorLaws(r, r.zero, x, x);
      assert XorLaws(r, r.zero, y, m) && XorLaws(r, x, x, x) && XorLaws(r, v, v, v) && XorLaws(r, r.zero, y, y);
    }
  }

  // ---------- the difference of two messages ----------

  /** The bits in which two messages of the same length differ. */
  function XorBits(a: seq<bool>, b: seq<bool>): (bits: seq<bool>)
    requires |a| == |b|
    ensures |bits| == |a|
  {
    if a == [] then [] else [a[0] != b[0]] + XorBits(a[1..], b[1..])
  }

  lemma {:induction false} XorBitsAppend(a: seq<bool>, b: seq<bool>, p: seq<bool>, q: seq<bool>)
    requires |a| == |b| && |p| == |q|
    ensures XorBits(a + p, b + q) == XorBits(a, b) + XorBits(p, q)
    decreases a
  {
    if a == [] {
      assert a + p == p && b + q == q;
    } else {
      assert (a + p)[1..] == a[1..] + p && (b + q)[1..] == b[1..] + q;
      XorBitsAppend(a[1..], b[1..], p, q);
    }
  }

  lemma InjectXor<T(!new)>(r: Register<T>, c: T, d: T, a: bool, b: bool)
    requires Laws(r)
    ensures Inject(r, r.xor(c, d), a != b) == r.xor(Inject(r, c, a), Inject(r, d, b))
  {
    assert XorLaws(r, c, d, r.one);
  }

  /** Division is linear: the difference of two messages leaves the difference of their remainders. */
  lemma {:induction false} FeedXor<T(!new)>(r: Register<T>, c: T, d: T, a: seq<bool>, b: seq<bool>)
    requires Laws(r) && |a| == |b|
    ensures Feed(r, r.xor(c, d), XorBits(a, b)) == r.xor(Feed(r, c, a), Feed(r, d, b))
    decreases a
  {
    if a != [] {
      var c1, d1 := Inject(r, c, a[0]), Inject(r, d, b[0]);
      InjectXor(r, c, d, a[0], b[0]);
      ClockXor(r, c1, d1);
      assert XorBits(a, b)[1..] == XorBits(a[1..], b[1..]);
      FeedXor(r, Clock(r, c1), Clock(r, d1), a[1..], b[1..]);
    }
  }

  lemma ClockZero<T(!new)>(r: Register<T>)
    requires Laws(r)
    ensures Clock(r, r.zero) == r.zero
  {
    assert XorLaws(r, r.one, r.one, r.one);
    assert ShiftLaws(r, r.one, r.one);
    assert XorLaws(r, r.one, r.one, r.shift(r.one));
  }

  /** Bits in which two messages agree leave an empty register empty. */
  lemma {:induction false} FeedSame<T(!new)>(r: Register<T>, a: seq<bool>)
    requires Laws(r)
    ensures Feed(r, r.zero, XorBits(a, a)) == r.zero
  {
    if a != [] {
      ClockZero(r);
      assert XorBits(a, a)[1..] == XorBits(a[1..], a[1..]);
      FeedSame(r, a[1..]);
    }
  }

  ghost predicate Injective<T(!new)>(r: Register<T>) {
    forall a, b :: Clock(r, a) == Clock(r, b) ==> a == b
  }

  lemma InjectInjective<T(!new)>(r: Register<T>, a: T, b: T, bit: bool)
    requires Laws(r) && Inject(r, a, bit) == Inject(r, b, bit)
    ensures a == b
  {
    assert XorLaws(r, a, a, r.one) && XorLaws(r, b, b, r.one);
  }

  /** Different registers stay different under the same bits. */
  lemma {:induction false} FeedInjective<T(!new)>(r: Register<T>, a: T, b: T, bits: seq<bool>)
    requires Laws(r) && Injective(r)
    requires Feed(r, a, bits) == Feed(r, b, bits)
    ensures a == b
    decreases bits
  {
    if bits != [] {
      FeedInjective(r, Clock(r, Inject(r, a, bits[0])), Clock(r, Inject(r, b, bits[0])), bits[1..]);
      InjectInjective(r, a, b, bits[0]);
    }
  }

  /** below(n, d): only the n lowest bits of d may be set. The law is what a register of the given width and
      a generator with its top bit set provide: a step that ends below n began below n + 1. */
  ghost predicate StepConfined<T>(r: Register<T>, below: (nat, T) -> bool, n: nat, x: T, y: T, b: bool, d: bool) {
    below(n, r.xor(Clock(r, Inject(r, x, b)), Clock(r, Inject(r, y, d)))) ==>
      below(n + 1, r.xor(x, y)) && (x == y ==> b == d)
  }

  ghost predicate Confines<T(!new)>(r: Register<T>, width: nat, below: (nat, T) -> bool) {
    && below(0, r.zero)
    && forall n: nat, x, y, b, d :: n < width ==> StepConfined(r, below, n, x, y, b, d)
  }

  /** Two runs that meet after n <= width bits differed at most in the n lowest register bits;
      if they began equal, they were fed the same bits. */
  lemma {:induction false} Meet<T(!new)>(r: Register<T>, width: nat, below: (nat, T) -> bool,
                                         x: T, y: T, v: seq<bool>, w: seq<bool>)
    requires Laws(r) && Confines(r, width, below)
    requires |v| == |w| <= width
    requires Feed(r, x, v) == Feed(r, y, w)
    ensures below(|v|, r.xor(x, y))
    ensures x == y ==> v == w
    decreases v
  {
    if v == [] {
      assert XorLaws(r, x, y, y);
    } else {
      Meet(r, width, below, Clock(r, Inject(r, x, v[0])), Clock(r, Inject(r, y, w[0])), v[1..], w[1..]);
      assert StepConfined(r, below, |v| - 1, x, y, v[0], w[0]);
      assert v == [v[0]] + v[1..] && w == [w[0]] + w[1..];
    }
  }

  /** A run is undone by nothing shorter than the register: equal ends mean equal messages. */
  lemma Window<T(!new)>(r: Register<T>, width: nat, below: (nat, T) -> bool,
                        c: T, prefix: seq<bool>, v: seq<bool>, w: seq<bool>, suffix: seq<bool>)
    requires Laws(r) && Injective(r) && Confines(r, width, below)
    requires |v| == |w| <= width
    requires Feed(r, c, prefix + v + suffix) == Feed(r, c, prefix + w + suffix)
    ensures v == w
  {
    FeedAppend(r, c, prefix + v, suffix);
    FeedAppend(r, c, prefix + w, suffix);
    FeedInjective(r, Feed(r, c, prefix + v), Feed(r, c, prefix + w), suffix);
    FeedAppend(r, c, prefix, v);
    FeedAppend(r, c, prefix, w);
    Meet(r, width, below, Feed(r, c, prefix), Feed(r, c, prefix), v, w);
  }
}
