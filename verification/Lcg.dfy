/**
 The 32-bit linear congruential generator: the overflow-free step, jumps over many steps, and the
 full period.
 */
module Lcgs {
  import opened Bits

  const P := 2147483647  // 2^31 - 1
  const A := 16807       // 7^5
  const INVERSE := 1407677000

  // ---------------------------------------------------------------- arithmetic modulo P

  lemma ModOfSum(k: int, z: int)
    ensures (P * k + z) % P == z % P
  {
    var q, r := z / P, z % P;
    assert P * k + z == P * (k + q) + r;
    QuotientIsUnique(P * k + z, P, k + q, r);
  }

  lemma ModOfProduct(x: int, y: int)
    ensures x * (y % P) % P == x * y % P
  {
    var q, r := y / P, y % P;
    assert y == P * q + r;
    assert x * y == P * (x * q) + x * r by {
      assert x * (P * q + r) == x * (P * q) + x * r;
      assert x * (P * q) == P * (x * q);
    }
    ModOfSum(x * q, x * r);
  }

  lemma ModOfThree(x: int, y: int, z: int)
    ensures x * (y * z % P) % P == x * y % P * z % P
  {
    ModOfProduct(x, y * z);
    ModOfProduct(z, x * y);
    assert x * (y * z) == z * (x * y);
    assert z * (x * y % P) == x * y % P * z;
  }

  function Mul(x: int, y: int): (r: nat)
    ensures r < P
  {
    x * y % P
  }

  lemma MulAssociates(x: int, y: int, z: int)
    ensures Mul(x, Mul(y, z)) == Mul(Mul(x, y), z)
  {
    ModOfThree(x, y, z);
  }

  lemma MulCommutes(x: int, y: int)
    ensures Mul(x, y) == Mul(y, x)
  {
    assert x * y == y * x;
  }

  lemma MulOne(x: nat)
    requires x < P
    ensures Mul(1, x) == x && Mul(x, 1) == x
  {
  }

  // ---------------------------------------------------------------- steps and jumps

  /** The recurrence x * 7^5 mod (2^31 - 1). */
  function Step(x: int): nat
  {
    Mul(A, x)
  }

  function Iterate(x: nat, n: nat): nat
  {
    if n == 0 then x else Step(Iterate(x, n - 1))
  }

  /** A^e modulo P by repeated squaring. */
  function Jump(e: nat): (r: nat)
    ensures r < P
  {
    if e == 0 then 1
    else if e % 2 == 0 then Mul(Jump(e / 2), Jump(e / 2))
    else Mul(A, Jump(e - 1))
  }

  lemma {:induction false} JumpNext(e: nat)
    ensures Jump(e + 1) == Mul(A, Jump(e))
  {
    if e % 2 == 1 {
      var h := e / 2;
      var x := Jump(h);
      JumpNext(h);
      assert e + 1 == 2 * (h + 1) && e - 1 == 2 * h;
      assert Jump(e - 1) == Mul(x, x) by {
        if h == 0 {
          assert Mul(1, 1) == 1;
        }
      }
      // (A x)(A x) == A (A (x x))
      MulAssociates(Mul(A, x), A, x);
      MulCommutes(Mul(A, x), A);
      MulAssociates(A, Mul(A, x), x);
      MulAssociates(A, x, x);
      MulAssociates(Mul(A, A), x, x);
      assert Mul(Mul(A, x), x) == Mul(A, Mul(x, x));
      assert Mul(Mul(A, x), Mul(A, x)) == Mul(Mul(A, Mul(A, x)), x) == Mul(A, Mul(Mul(A, x), x));
    }
  }

  /** n steps are one multiplication by A^n, which takes about log n multiplications to compute. */
  lemma {:induction false} IterateIsJump(x: nat, n: nat)
    requires x < P
    ensures Iterate(x, n) == Mul(x, Jump(n))
  {
    if n == 0 {
      assert x * 1 % P == x;
    } else {
      IterateIsJump(x, n - 1);
      JumpNext(n - 1);
      MulAssociates(A, x, Jump(n - 1));
      MulCommutes(A, x);
      MulAssociates(x, A, Jump(n - 1));
    }
  }

  // ---------------------------------------------------------------- stepping back

  lemma StepBack(x: nat)
    requires x < P
    ensures Mul(INVERSE, Step(x)) == x
  {
    MulAssociates(INVERSE, A, x);
    assert Mul(INVERSE, A) == 1;
  }

  /** The step permutes 1 .. 2^31 - 2. */
  lemma StepIsInjective(x: nat, y: nat)
    requires x < P && y < P
    ensures Step(x) == Step(y) ==> x == y
    ensures Step(x) == 0 <==> x == 0
  {
    StepBack(x);
    StepBack(y);
    assert Mul(INVERSE, 0) == 0 && Mul(A, 0) == 0;
  }

  lemma {:induction false} IterateInRange(x: nat, n: nat)
    requires 0 < x < P
    ensures 0 < Iterate(x, n) < P
  {
    if n > 0 {
      IterateInRange(x, n - 1);
      StepIsInjective(Iterate(x, n - 1), 0);
    }
  }

  lemma {:induction false} IterateIsInjective(x: nat, y: nat, n: nat)
    requires 0 < x < P && 0 < y < P && Iterate(x, n) == Iterate(y, n)
    ensures x == y
  {
    if n > 0 {
      IterateInRange(x, n - 1);
      IterateInRange(y, n - 1);
      StepIsInjective(Iterate(x, n - 1), Iterate(y, n - 1));
      IterateIsInjective(x, y, n - 1);
    }
  }

  lemma JumpInRange(n: nat)
    ensures 0 < Jump(n) < P
  {
    IterateIsJump(1, n);
    IterateInRange(1, n);
    MulOne(Jump(n));
  }

  // ---------------------------------------------------------------- the generator

  /** C++ division and remainder round toward zero. */
  function Quotient(x: int, y: int): int
    requires y > 0
  {
    if x >= 0 then x / y else -(-x / y)
  }

  function Remainder(x: int, y: int): int
    requires y > 0
  {
    x - y * Quotient(x, y)
  }

  predicate Int32(x: int)
  {
    -0x8000_0000 <= x < 0x8000_0000
  }

  lemma QuotientBounds(x: int)
    requires Int32(x)
    ensures var q, r := Quotient(x, 127773), Remainder(x, 127773);
            && x == 127773 * q + r && -127773 < r < 127773 && (x >= 0 ==> r >= 0 && q >= 0) && (x < 0 ==> r <= 0 && q <= 0)
            && -16807 <= q <= 16807
  {
  }

  class Lcg32 {
    var seed: int

    constructor (seed: int)
      requires Int32(seed)
      ensures this.seed == seed
    {
      this.seed := seed;
    }

    /** intRand(): for any 32-bit seed no intermediate value overflows, and the new seed is the old
        one times 7^5 modulo 2^31 - 1, in the range 1 .. 2^31 - 2 unless the seed is a multiple of
        the modulus. Those seeds (the configuration only rejects zero) are stuck at the modulus. */
    method IntRand() returns (r: int)
      requires Int32(seed)
      modifies this
      ensures 1 <= seed <= P && r == seed - 1
      ensures seed % P == Step(old(seed))
      ensures seed == P <==> old(seed) % P == 0
      ensures 0 < old(seed) < P ==> seed == Step(old(seed)) && 0 <= r <= P - 2
    {
      QuotientBounds(seed);
      var x, y := A * Remainder(seed, 127773), 2836 * Quotient(seed, 127773);
      assert Int32(x) && Int32(y) && Int32(x - y);
      ghost var before := seed;
      assert A * before == P * Quotient(before, 127773) + (x - y);
      ModOfSum(Quotient(before, 127773), x - y);
      seed := x - y;
      if seed <= 0 {
        seed := seed + P;
      }
      ModOfSum(1, x - y);
      ModOfProduct(A, before);
      StepIsInjective(before % P, 0);
      r := seed - 1;
    }
  }
}
