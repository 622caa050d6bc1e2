/**
 Bitwise "and" of an integer with a mask, as two's-complement hardware computes it, and the
 fact the circular buffer relies on: masking with n-1 is reduction modulo n when n is a power
 of two, for negative operands too.
 */
module Bits {

  predicate PowerOfTwo(n: nat)
  {
    n == 1 || (n > 1 && n % 2 == 0 && PowerOfTwo(n / 2))
  }

  lemma TwicePowerOfTwo(n: nat)
    requires PowerOfTwo(n)
    ensures PowerOfTwo(2 * n)
  {
  }

  /** Two's-complement x & m for a non-negative mask m; Dafny's / 2 and % 2 round to the floor. */
  function And(x: int, m: nat): nat
    decreases m
  {
    if m == 0 then 0
    else 2 * And(x / 2, m / 2) + (if m % 2 == 1 then x % 2 else 0)
  }

  lemma QuotientIsUnique(x: int, n: nat, q: int, r: int)
    requires n > 0 && 0 <= r < n && x == n * q + r
    ensures x % n == r && x / n == q
  {
    var q', r' := x / n, x % n;
    assert n * (q' - q) == r - r';
    if q' > q {
      MulAtLeast(n, q' - q);
    } else if q' < q {
      MulAtLeast(n, q - q');
    }
  }

  lemma MulAtLeast(n: nat, d: int)
    requires d >= 1
    ensures n * d >= n
  {
  }

  lemma {:induction false} MaskIsModulo(x: int, n: nat)
    requires PowerOfTwo(n)
    ensures And(x, n - 1) == x % n
    decreases n
  {
    if n > 1 {
      var k := n / 2;
      assert (n - 1) / 2 == k - 1 && (n - 1) % 2 == 1;
      MaskIsModulo(x / 2, k);
      var q := x / 2 / k;
      assert x == n * q + (2 * (x / 2 % k) + x % 2) by {
        assert x / 2 == k * q + x / 2 % k;
        assert n * q == 2 * (k * q);
      }
      QuotientIsUnique(x, n, q, 2 * (x / 2 % k) + x % 2);
    }
  }

  /** The test checkHeap() makes on the buffer size holds exactly for the powers of two. */
  lemma {:induction false} PowerOfTwoTest(n: nat)
    requires n > 0
    ensures And(n, n - 1) == 0 <==> PowerOfTwo(n)
    decreases n
  {
    if n > 1 {
      if n % 2 == 0 {
        assert (n - 1) / 2 == n / 2 - 1 && (n - 1) % 2 == 1;
        PowerOfTwoTest(n / 2);
      } else {
        assert (n - 1) / 2 == n / 2;
        AndSelf(n / 2);
      }
    }
  }

  lemma {:induction false} AndSelf(n: nat)
    ensures And(n, n) == n
    decreases n
  {
    if n > 0 {
      AndSelf(n / 2);
    }
  }

  lemma ModuloNearby(x: int, n: nat)
    requires n > 0
    ensures 0 <= x < n ==> x % n == x
    ensures n <= x < 2 * n ==> x % n == x - n
    ensures x < 0 <= x + n ==> x % n == x + n
  {
    if 0 <= x < n {
      QuotientIsUnique(x, n, 0, x);
    } else if n <= x < 2 * n {
      QuotientIsUnique(x, n, 1, x - n);
    } else if x < 0 <= x + n {
      QuotientIsUnique(x, n, -1, x + n);
    }
  }

  /** x & (size-1), with the three ranges the buffer code uses spelled out without division. */
  method Wrap(x: int, size: nat) returns (r: nat)
    requires PowerOfTwo(size)
    ensures r < size
    ensures 0 <= x < size ==> r == x
    ensures size <= x < 2 * size ==> r == x - size
    ensures x < 0 <= x + size ==> r == x + size
  {
    MaskIsModulo(x, size);
    ModuloNearby(x, size);
    r := And(x, size - 1);
  }
}
