/** Server/RandomGenerator.h: a multiplicative generator modulo 4294967291. */
module Rng {
  import opened Bytes

  const MULTIPLIER: nat := 279410273
  const MODULUS: nat := 4294967291
  const INVERSE: nat := 3236736190
  const WIDE: nat := 0x1_0000_0000_0000_0000

  function Next(x: nat): (y: nat)
    ensures y < MODULUS
  {
    x * MULTIPLIER % MODULUS
  }

  function After(seed: nat, steps: nat): nat {
    if steps == 0 then seed else Next(After(seed, steps - 1))
  }

  // ---------- arithmetic ----------

  /** A number has one remainder. */
  lemma RemainderIs(a: int, q: int, r: nat, m: nat)
    requires a == q * m + r && r < m
    ensures a % m == r
  {
    var d := a / m - q;
    assert (a / m) * m + a % m == q * m + r;
    assert d * m == r - a % m;
  }

  lemma MulRemainder(a: nat, k: nat, m: nat)
    requires m > 0
    ensures (a % m) * k % m == a * k % m
  {
    var q, r := a / m, a % m;
    assert a == q * m + r;
    assert a * k == (q * k) * m + r * k by {
      assert (q * m + r) * k == q * m * k + r * k;
      assert q * m * k == (q * k) * m;
    }
    RemainderIs(a * k, q * k + r * k / m, r * k % m, m);
  }

  lemma Regrouped(x: nat, a: nat, b: nat)
    ensures x * a * b == (a * b) * x
  {}

  /** Multiplying by the two constants in turn changes nothing modulo MODULUS. */
  lemma TimesOne(x: nat, a: nat, b: nat)
    requires a * b % MODULUS == 1
    ensures (x * a % MODULUS) * b % MODULUS == x % MODULUS
  {
    MulRemainder(x * a, b, MODULUS);
    Regrouped(x, a, b);
    MulRemainder(a * b, x, MODULUS);
  }

  // ---------- the generator is a permutation ----------

  /** The step can be undone by another multiplication. */
  lemma Undo(x: nat)
    ensures Next(x) * INVERSE % MODULUS == x % MODULUS
  {
    TimesOne(x, MULTIPLIER, INVERSE);
  }

  /** Two states of the generator never lead to the same one. */
  lemma NextInjective(x: nat, y: nat)
    requires x < MODULUS && y < MODULUS && Next(x) == Next(y)
    ensures x == y
  {
    Undo(x);
    Undo(y);
  }

  /** And each has a predecessor. */
  lemma NextSurjective(y: nat)
    requires y < MODULUS
    ensures Next(y * INVERSE % MODULUS) == y
  {
    TimesOne(y, INVERSE, MULTIPLIER);
  }

  /** The generator runs into 0, where it stays, exactly from the seeds that are multiples of the modulus. */
  lemma {:induction false} ZeroExactly(seed: nat, steps: nat)
    requires steps > 0
    ensures After(seed, steps) == 0 <==> seed % MODULUS == 0
    decreases steps
  {
    var x := After(seed, steps - 1);
    Undo(x);
    MulRemainder(x, MULTIPLIER, MODULUS);
    if steps > 1 {
      ZeroExactly(seed, steps - 1);
    }
  }

  /** The product of a 32-bit number never leaves 64 bits. */
  lemma FitsWide(x: uint32)
    ensures x * MULTIPLIER < WIDE && x * MULTIPLIER % WIDE == x * MULTIPLIER
  {
    assert x * MULTIPLIER <= 0xFFFF_FFFF * MULTIPLIER;
  }

  lemma NextIs(x: nat, y: nat, q: nat)
    requires x * 279410273 == q * 4294967291 + y && y < 4294967291
    ensures Next(x) == y
  {
    RemainderIs(x * MULTIPLIER, q, y, MODULUS);
  }

  /** What comes of seed 1. */
  lemma FirstDraws()
    ensures After(1, 1) == 279410273 && After(1, 2) == 3468058228
  {
    NextIs(1, 279410273, 0);
    NextIs(279410273, 3468058228, 18177111);
    AfterNext(1, 0);
    AfterNext(1, 1);
  }

  lemma AfterNext(seed: nat, steps: nat)
    ensures After(seed, steps + 1) == Next(After(seed, steps))
  {}

  class RandomGenerator {
    var nextVal: uint32
    ghost const seed: uint32
    ghost var drawn: nat

    ghost predicate Valid()
      reads this
    {
      nextVal == After(seed, drawn)
    }

    constructor (seed: uint32)
      ensures Valid() && this.seed == seed && drawn == 0
    {
      nextVal, this.seed, drawn := seed, seed, 0;
    }

    /** The k-th call, counted from 0, gives the seed after k steps. */
    method Draw() returns (ret: uint32)
      requires Valid()
      modifies this
      ensures Valid() && drawn == old(drawn) + 1 && ret == After(seed, old(drawn))
    {
      ret := nextVal;
      FitsWide(nextVal);
      var product := nextVal * MULTIPLIER % WIDE;
      nextVal := product % MODULUS;
      drawn := drawn + 1;
    }
  }
}
