/**
 The generator has full period: starting anywhere in 1 .. 2^31 - 2 it visits every one of these
 values once before it returns.
 */
module LcgPeriod {
  import opened Bits
  import opened Lcgs
  import opened LcgPowers

  const PERIOD := 2147483646

  // ---------------------------------------------------------------- divisors

  function Gcd(m: nat, n: nat): nat
    decreases n
  {
    if n == 0 then m else Gcd(n, m % n)
  }

  lemma DividesSum(d: nat, a: int, b: int, k: int)
    requires d > 0 && a % d == 0 && b % d == 0
    ensures (a * k + b) % d == 0
  {
    var x, y := a / d, b / d;
    assert a == d * x && b == d * y;
    assert a * k + b == d * (x * k + y);
    QuotientIsUnique(a * k + b, d, x * k + y, 0);
  }

  lemma {:induction false} GcdDivides(m: nat, n: nat)
    requires m > 0 || n > 0
    ensures Gcd(m, n) > 0 && m % Gcd(m, n) == 0 && n % Gcd(m, n) == 0
    decreases n
  {
    if n > 0 {
      GcdDivides(n, m % n);
      DividesSum(Gcd(m, n), n, m % n, m / n);
      assert m == n * (m / n) + m % n;
    } else {
      QuotientIsUnique(m, m, 1, 0);
      QuotientIsUnique(0, m, 0, 0);
    }
  }

  lemma {:induction false} Bezout(m: nat, n: nat) returns (u: int, v: int)
    ensures u * m + v * n == Gcd(m, n)
    decreases n
  {
    if n == 0 {
      u, v := 1, 0;
    } else {
      var x, y := Bezout(n, m % n);
      var q, r := m / n, m % n;
      assert m == n * q + r;
      u, v := y, x - y * q;
      BezoutStep(x, y, m, n, q, r);
    }
  }

  lemma BezoutStep(x: int, y: int, m: int, n: int, q: int, r: int)
    requires m == n * q + r
    ensures y * m + (x - y * q) * n == x * n + y * r
  {
    assert y * m == y * (n * q) + y * r;
    assert (x - y * q) * n == x * n - y * q * n;
    assert y * (n * q) == y * q * n;
  }

  /** The prime factors of 2^31 - 2 = 2 * 3 * 3 * 7 * 11 * 31 * 151 * 331. */
  predicate Factor(q: nat)
  {
    q == 2 || q == 3 || q == 7 || q == 11 || q == 31 || q == 151 || q == 331
  }

  lemma FactorIsPrime(q: nat, d: nat, e: nat)
    requires Factor(q) && d * e == q
    ensures d == 1 || e == 1
  {
    if 1 < d <= e {
      NoSmallDivisor(q, d, e);
    } else if 1 < e < d {
      NoSmallDivisor(q, e, d);
    }
  }

  lemma NoSmallDivisor(q: nat, d: nat, e: nat)
    requires Factor(q) && 1 < d <= e
    ensures d * e != q
  {
    if d > 18 {
      assert d * e >= 19 * e >= 19 * 19;
    } else if d <= 9 {
      if d == 2 {} else if d == 3 {} else if d == 4 {} else if d == 5 {} else if d == 6 {}
      else if d == 7 {} else if d == 8 {} else {}
    } else {
      if d == 10 {} else if d == 11 {} else if d == 12 {} else if d == 13 {} else if d == 14 {}
      else if d == 15 {} else if d == 16 {} else if d == 17 {} else {}
    }
  }

  lemma Cofactor(x: nat, d: nat) returns (e: nat)
    requires d > 0 && x % d == 0
    ensures d * e == x
  {
    e := x / d;
  }

  lemma NothingShared(k: nat, q: nat)
    requires k > 0 && Factor(q) && k % q != 0
    ensures Gcd(k, q) == 1
  {
    var d := Gcd(k, q);
    GcdDivides(k, q);
    var e := Cofactor(q, d);
    FactorIsPrime(q, d, e);
    OnlyOne(k, q, d, e);
  }

  lemma OnlyOne(k: nat, q: nat, d: nat, e: nat)
    requires d > 0 && q > 0 && d * e == q && (d == 1 || e == 1) && k % d == 0 && k % q != 0
    ensures d == 1
  {
  }

  /** A number that divides q * m but shares nothing with the prime q divides m. */
  lemma StripFactor(k: nat, q: nat, m: nat)
    requires k > 0 && Factor(q) && k % q != 0 && q * m % k == 0
    ensures m % k == 0
  {
    NothingShared(k, q);
    var u, v := Bezout(k, q);
    var product := q * m;
    var c := Cofactor(product, k);
    StripEquation(k, q, m, u, v);
    MultipleOfK(k, m, u, v, product, c);
  }

  lemma MultipleOfK(k: nat, m: nat, u: int, v: int, product: int, c: int)
    requires k > 0 && product == k * c && k * (u * m) + product * v == m
    ensures m % k == 0
  {
    assert k * c * v == k * (c * v);
    assert k * (u * m) + k * (c * v) == k * (u * m + c * v);
    QuotientIsUnique(m, k, u * m + c * v, 0);
  }

  lemma StripEquation(k: int, q: int, m: int, u: int, v: int)
    requires u * k + v * q == 1
    ensures k * (u * m) + q * m * v == m
  {
    assert (u * k + v * q) * m == m;
    assert (u * k + v * q) * m == u * k * m + v * q * m;
    assert u * k * m == k * (u * m) && v * q * m == q * m * v;
  }

  lemma SomeFactor(k: nat) returns (q: nat)
    requires k > 1 && PERIOD % k == 0
    ensures Factor(q) && k % q == 0
  {
    if k % 2 == 0 { return 2; }
    StripFactor(k, 2, 1073741823);
    if k % 3 == 0 { return 3; }
    StripFactor(k, 3, 357913941);
    StripFactor(k, 3, 119304647);
    if k % 7 == 0 { return 7; }
    StripFactor(k, 7, 17043521);
    if k % 11 == 0 { return 11; }
    StripFactor(k, 11, 1549411);
    if k % 31 == 0 { return 31; }
    StripFactor(k, 31, 49981);
    if k % 151 == 0 { return 151; }
    StripFactor(k, 151, 331);
    if k % 331 == 0 { return 331; }
    StripFactor(k, 331, 1);
    assert false;
  }

  /** A proper divisor of the period divides one of its quotients by a prime. */
  lemma ProperDivisor(g: nat) returns (q: nat, c: nat)
    requires 0 < g < PERIOD && PERIOD % g == 0
    ensures Factor(q) && q * (g * c) == PERIOD
  {
    var k := PERIOD / g;
    assert PERIOD == g * k;
    QuotientIsUnique(PERIOD, k, g, 0);
    q := SomeFactor(k);
    c := k / q;
    assert k == q * c;
    Rearranged(q, g, c);
  }

  lemma Rearranged(q: nat, g: nat, c: nat)
    ensures q * (g * c) == g * (q * c)
  {
    assert q * (g * c) == q * g * c && g * (q * c) == g * q * c;
  }

  // ---------------------------------------------------------------- the order of 7^5

  ghost predicate Cancels(f: nat -> nat, i: nat, d: nat)
  {
    f(i + d) == f(i) <==> f(d) == 1
  }

  ghost predicate Group(f: nat -> nat)
  {
    Powers(f) && f(0) == 1 && (forall n :: f(n) < P) && forall i, d :: Cancels(f, i, d)
  }

  lemma JumpIsGroup()
    ensures Group(Jump)
  {
    JumpIsPowers();
    forall i, d
      ensures Cancels(Jump, i, d)
    {
      JumpsCancel(i, d);
    }
  }

  lemma {:induction false} OneAtMultiple(f: nat -> nat, d: nat, k: nat)
    requires Group(f) && f(d) == 1
    ensures f(d * k) == 1
  {
    if k > 0 {
      OneAtMultiple(f, d, k - 1);
      assert d * k == d * (k - 1) + d;
      assert Adds(f, d * (k - 1), d);
      MulOne(1);
    }
  }

  lemma {:induction false} OneAtGcd(f: nat -> nat, m: nat, n: nat)
    requires Group(f) && f(m) == 1 && f(n) == 1
    ensures f(Gcd(m, n)) == 1
    decreases n
  {
    if n > 0 {
      OneAtMultiple(f, n, m / n);
      assert m == n * (m / n) + m % n;
      assert Adds(f, n * (m / n), m % n);
      MulOne(f(m % n));
      OneAtGcd(f, n, m % n);
    }
  }

  lemma NotOne(f: nat -> nat, q: nat, e: nat)
    requires Powers(f) && Factor(q) && q * e == PERIOD
    ensures f(e) != 1
  {
    if q == 2 || q == 3 {
      PeriodOver3And2(f);
    } else if q == 7 {
      PeriodOver7(f);
    } else if q == 11 {
      PeriodOver11(f);
    } else if q == 31 {
      PeriodOver31(f);
    } else if q == 151 {
      PeriodOver151(f);
    } else {
      PeriodOver331(f);
    }
  }

  lemma NotOneBefore(f: nat -> nat, m: nat)
    requires Group(f) && 0 < m < PERIOD
    ensures f(m) != 1
  {
    if f(m) == 1 {
      PeriodOver3And2(f);
      var g := Gcd(m, PERIOD);
      OneAtGcd(f, m, PERIOD);
      GcdDivides(m, PERIOD);
      GcdIsSmall(m, g);
      var q, c := ProperDivisor(g);
      OneAtMultiple(f, g, c);
      NotOne(f, q, g * c);
    }
  }

  lemma GcdIsSmall(m: nat, g: nat)
    requires m > 0 && g > 0 && m % g == 0
    ensures g <= m
  {
  }

  /** 7^5 has order 2^31 - 2 modulo 2^31 - 1. */
  lemma OrderIsPeriod(n: nat)
    ensures Jump(n) == 1 <==> n % PERIOD == 0
  {
    JumpIsGroup();
    PeriodOfGroup(Jump, n);
  }

  lemma PeriodOfGroup(f: nat -> nat, n: nat)
    requires Group(f)
    ensures f(n) == 1 <==> n % PERIOD == 0
  {
    PeriodOver3And2(f);
    OneAtMultiple(f, PERIOD, n / PERIOD);
    assert n == PERIOD * (n / PERIOD) + n % PERIOD;
    assert Adds(f, PERIOD * (n / PERIOD), n % PERIOD);
    MulOne(f(n % PERIOD));
    if n % PERIOD != 0 {
      NotOneBefore(f, n % PERIOD);
    }
  }

  // ---------------------------------------------------------------- all values are visited

  lemma PowersDiffer(f: nat -> nat, i: nat, j: nat)
    requires Group(f) && i <= j
    ensures f(i) == f(j) <==> (j - i) % PERIOD == 0
  {
    assert Cancels(f, i, j - i);
    PeriodOfGroup(f, j - i);
  }

  ghost function Visited(f: nat -> nat, n: nat): set<nat>
  {
    set i: nat | i < n :: f(i)
  }

  lemma {:induction false} VisitedCount(f: nat -> nat, n: nat)
    requires Group(f) && n <= PERIOD
    ensures |Visited(f, n)| == n
  {
    if n > 0 {
      VisitedCount(f, n - 1);
      assert Visited(f, n) == Visited(f, n - 1) + {f(n - 1)};
      forall i: nat | i < n - 1
        ensures f(i) != f(n - 1)
      {
        PowersDiffer(f, i, n - 1);
      }
      assert f(n - 1) !in Visited(f, n - 1);
    } else {
      assert Visited(f, 0) == {};
    }
  }

  ghost function UpTo(n: nat): (s: set<nat>)
    ensures |s| == n && forall x :: x in s <==> 1 <= x <= n
  {
    if n == 0 then {} else UpTo(n - 1) + {n}
  }

  lemma SubsetOfSameSize(a: set<nat>, b: set<nat>)
    requires a <= b && |a| == |b|
    ensures a == b
  {
    assert |b - a| == |b| - |a|;
  }

  lemma EveryValueIsPower(f: nat -> nat, x: nat) returns (i: nat)
    requires Group(f) && (forall n :: f(n) > 0) && 0 < x < P
    ensures i < PERIOD && f(i) == x
  {
    VisitedCount(f, PERIOD);
    SubsetOfSameSize(Visited(f, PERIOD), UpTo(PERIOD));
    assert x in Visited(f, PERIOD);
    i :| i < PERIOD && f(i) == x;
  }

  /** Every value is a power of 7^5. */
  lemma EveryValueIsVisited(x: nat) returns (i: nat)
    requires 0 < x < P
    ensures i < PERIOD && Jump(i) == x
  {
    JumpIsGroup();
    forall n
      ensures Jump(n) > 0
    {
      JumpInRange(n);
    }
    i := EveryValueIsPower(Jump, x);
  }

  /** From any start the sequence returns exactly at the multiples of 2^31 - 2. */
  lemma FullPeriod(x: nat, n: nat)
    requires 0 < x < P
    ensures Iterate(x, n) == x <==> n % PERIOD == 0
  {
    var i := EveryValueIsVisited(x);
    IterateIsJump(x, n);
    JumpAdds(i, n);
    JumpsCancel(i, n);
    OrderIsPeriod(n);
  }

  lemma FromPowerToPower(f: nat -> nat, i: nat, j: nat) returns (n: nat)
    requires Group(f) && i < PERIOD && j < PERIOD
    ensures n < PERIOD && f(i + n) == f(j)
  {
    if i <= j {
      n := j - i;
    } else {
      n := j + PERIOD - i;
      PowersDiffer(f, j, i + n);
    }
  }

  /** And on the way it comes by every value. */
  lemma EveryValueIsReached(x: nat, y: nat) returns (n: nat)
    requires 0 < x < P && 0 < y < P
    ensures n < PERIOD && Iterate(x, n) == y
  {
    var i := EveryValueIsVisited(x);
    var j := EveryValueIsVisited(y);
    JumpIsGroup();
    n := FromPowerToPower(Jump, i, j);
    IterateIsJump(x, n);
    JumpAdds(i, n);
  }
}
