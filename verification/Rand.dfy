/**
 The multiplicative random number generator: Schrage's method on 32-bit integers computes the product modulo
 2^31 - 1 without leaving the 32-bit range.
 */
module Rand {
  const M: int := 0x7FFF_FFFF
  const A: int := 48271
  const Q: int := 44488
  const R: int := 3399

  type Word = x: int | 0 <= x < 0x1_0000_0000

  predicate IsInt32(x: int) { -0x8000_0000 <= x < 0x8000_0000 }

  /** A 32-bit word read as a signed number. */
  function AsInt32(w: Word): (x: int)
    ensures IsInt32(x)
  {
    if w < 0x8000_0000 then w else w - 0x1_0000_0000
  }

  // Truncating division and remainder by Q.

  function QuotQ(x: int): int { if x >= 0 then x / Q else -((-x) / Q) }

  function RemQ(x: int): int { x - QuotQ(x) * Q }

  /** Schrage's form: every intermediate result fits 32 bits, and the outcome is the product modulo M. */
  lemma SchrageIsModular(x: int)
    requires IsInt32(x)
    ensures IsInt32(A * RemQ(x)) && IsInt32(R * QuotQ(x)) && IsInt32(A * RemQ(x) - R * QuotQ(x))
    ensures var y := A * RemQ(x) - R * QuotQ(x);
            var z := if y < 0 then y + M else y;
            IsInt32(z) && 0 <= z < M && z == (A * x) % M
  {
    var y := A * RemQ(x) - R * QuotQ(x);
    assert A * x == M * QuotQ(x) + y;
    var z := if y < 0 then y + M else y;
    var k := if y < 0 then QuotQ(x) - 1 else QuotQ(x);
    assert A * x == M * k + z;
    SchrageRange(x);
    Remainder(A * x, k, z);
  }

  lemma SchrageRange(x: int)
    requires IsInt32(x)
    ensures var y := A * RemQ(x) - R * QuotQ(x); -M < y < M
    ensures IsInt32(A * RemQ(x)) && IsInt32(R * QuotQ(x))
  {
    if x >= 0 {
      assert 0 <= RemQ(x) < Q && 0 <= QuotQ(x) <= 48271;
    } else {
      assert -Q < RemQ(x) <= 0 && -48271 <= QuotQ(x) <= 0;
    }
  }

  lemma Remainder(v: int, k: int, z: int)
    requires v == M * k + z && 0 <= z < M
    ensures v % M == z
  {}

  /** The next state. */
  function Next(w: Word): (r: Word)
    ensures 0 <= r < M
  {
    (A * AsInt32(w)) % M
  }

  /** Signed 32-bit integers: every operation on them is proved to stay in range. */
  newtype int32 = x: int | -0x8000_0000 <= x < 0x8000_0000

  class Generator {
    var seed: Word

    constructor (seed: Word)
      ensures this.seed == seed
    {
      this.seed := seed;
    }

    /** `rand_r` on the generator's own seed; the stored state is also the result. */
    method Rand() returns (r: int32)
      modifies this
      ensures r as int == seed == Next(old(seed))
    {
      hide QuotQ, RemQ;
      var x := AsInt32(seed) as int32;
      ghost var x0 := x;
      SchrageIsModular(x as int);
      SchrageRange(x as int);
      var quotient, remainder := QuotQ(x as int) as int32, RemQ(x as int) as int32;
      x := (A as int32) * remainder - (R as int32) * quotient;
      if x < 0 {
        x := x + M as int32;
      }
      seed := x as int;
      r := x;
    }
  }

  // ---- Products modulo M ----

  lemma ModShift(v: int, k: int)
    ensures (v + M * k) % M == v % M
  {
    assert v == M * (v / M) + v % M;
    Remainder(v + M * k, v / M + k, v % M);
  }

  lemma ModMul(a: int, x: int)
    ensures (a * (x % M)) % M == (a * x) % M
  {
    var k, r := x / M, x % M;
    Distribute(a, k, r);
    ModShift(a * r, a * k);
  }

  lemma Distribute(a: int, k: int, r: int)
    ensures a * (M * k + r) == a * r + M * (a * k)
  {}

  // ---- Which states are reached ----

  /** The inverse of A modulo M. */
  const INVERSE: int := 1899818559

  function Previous(y: Word): (x: Word)
    ensures 0 <= x < M
  {
    (INVERSE * y) % M
  }

  lemma InverseOfA(x: int)
    ensures (A * ((INVERSE * x) % M)) % M == x % M
    ensures (INVERSE * ((A * x) % M)) % M == x % M
  {
    ModMul(A, INVERSE * x);
    ModMul(INVERSE, A * x);
    assert A * (INVERSE * x) == x + M * (42704 * x);
    ModShift(x, 42704 * x);
  }

  /** On the states 1 to 2^31 - 2 the step is a permutation: `Previous` undoes it on both sides, and no step leads
      out. */
  lemma StepIsPermutation(x: Word)
    requires 1 <= x < M
    ensures 1 <= Next(x) < M && Previous(Next(x)) == x
    ensures 1 <= Previous(x) < M && Next(Previous(x)) == x
  {
    InverseOfA(x);
  }

  /** The generator gets stuck at 0 exactly for these seeds. */
  lemma ZeroIff(w: Word)
    ensures Next(w) == 0 <==> AsInt32(w) in {0, M, -M}
    ensures Next(0) == 0
  {
    InverseOfA(AsInt32(w));
    SmallMultiples(AsInt32(w));
  }

  lemma SmallMultiples(x: int)
    requires IsInt32(x)
    ensures x % M == 0 <==> x in {0, M, -M}
    ensures ((A * x) % M == 0 ==> (INVERSE * ((A * x) % M)) % M == 0) && (x % M == 0 ==> (A * x) % M == 0)
  {
    if x % M == 0 {
      ModMul(A, x);
    }
  }

  function Power(n: nat): int { if n == 0 then 1 else A * Power(n - 1) }

  /** The state after `n` calls. */
  function After(w: Word, n: nat): Word { if n == 0 then w else Next(After(w, n - 1)) }

  /** After n calls the state is 48271^n times the seed modulo 2^31 - 1, for every 32-bit seed. */
  lemma {:induction false} AfterIsPower(w: Word, n: nat)
    requires n >= 1
    ensures After(w, n) == (Power(n) * AsInt32(w)) % M
  {
    if n == 1 {
      assert Power(1) == A * Power(0) == A;
      assert After(w, 1) == Next(After(w, 0));
    } else {
      AfterIsPower(w, n - 1);
      ModMul(A, Power(n - 1) * AsInt32(w));
      Associate(Power(n - 1), AsInt32(w));
    }
  }

  lemma Associate(p: int, x: int)
    ensures A * (p * x) == (A * p) * x
  {}

  /** States never collide: two seeds in 1 to 2^31 - 2 stay different for ever, and stay in that range. */
  lemma {:induction false} NeverStuckNeverMerging(x: Word, y: Word, n: nat)
    requires 1 <= x < M && 1 <= y < M && x != y
    ensures 1 <= After(x, n) < M && After(x, n) != After(y, n)
    decreases n
  {
    hide Next, Previous;
    if n > 0 {
      NeverStuckNeverMerging(x, y, n - 1);
      NeverStuckNeverMerging(y, x, n - 1);
      StepIsPermutation(After(x, n - 1));
      StepIsPermutation(After(y, n - 1));
    }
  }
}
