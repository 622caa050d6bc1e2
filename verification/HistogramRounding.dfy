/**
 Bin sizes: rounding to 1, 2 or 5 times a power of ten.
 */
module HistogramRounding {

  // square root of ten, and a tenth of it, as the source writes them
  const ROUND_UPPER := 3.162277660168379522787063251598738133907
  const ROUND_LOWER := 0.3162277660168379522787063251598738133907

  lemma TenTimes(x: real)
    requires x > 0.0
    ensures 1.0 / (x * 10.0) == 1.0 / x / 10.0
  {
  }

  lemma InverseIsLarge(x: real)
    requires 0.0 < x <= ROUND_LOWER
    ensures 1.0 / x >= 3.0
  {
    assert 3.0 * x <= 1.0;
  }

  function Ten(k: int): real
    decreases if k < 0 then -k else k
  {
    if k == 0 then 1.0 else if k > 0 then Ten(k - 1) * 10.0 else Ten(k + 1) / 10.0
  }

  ghost predicate IsPowerOfTen(r: real)
  {
    exists k :: Ten(k) == r
  }

  lemma NextPowerOfTen(r: real)
    requires IsPowerOfTen(r)
    ensures IsPowerOfTen(r * 10.0) && IsPowerOfTen(r / 10.0)
  {
    var k :| Ten(k) == r;
    assert Ten(k + 1) == r * 10.0;
    assert Ten(k - 1) == r / 10.0;
  }

  /** roundToPowerOfTen() for a positive argument. */
  function RoundToPowerOfTen(x: real): (r: real)
    requires x > 0.0
    ensures IsPowerOfTen(r) && r > 0.0 && r * ROUND_LOWER < x <= r * ROUND_UPPER
    decreases if x > ROUND_UPPER then x else if x <= ROUND_LOWER then 1.0 / x else 0.0
  {
    if x > ROUND_UPPER then
      var r := RoundToPowerOfTen(x / 10.0);
      NextPowerOfTen(r);
      r * 10.0
    else if x <= ROUND_LOWER then
      InverseIsLarge(x);
      TenTimes(x);
      var r := RoundToPowerOfTen(x * 10.0);
      NextPowerOfTen(r);
      r / 10.0
    else
      assert Ten(0) == 1.0;
      1.0
  }

  function Abs(x: real): real
  {
    if x < 0.0 then -x else x
  }

  lemma PositiveQuotient(x: real, f: real)
    requires x > 0.0 && f > 0.0
    ensures x / f > 0.0
  {
  }

  lemma PositiveProduct(p: real, f: real)
    requires p > 0.0 && f > 0.0
    ensures p * f > 0.0
  {
  }

  /** The multiple of f by a power of ten that stands for x. */
  function Candidate(x: real, f: real): (r: real)
    requires x > 0.0 && f > 0.0
    ensures r > 0.0
  {
    PositiveQuotient(x, f);
    PositiveProduct(RoundToPowerOfTen(x / f), f);
    RoundToPowerOfTen(x / f) * f
  }

  /** 1, 2 or 5 times a power of ten. */
  ghost predicate IsOneTwoFive(r: real)
  {
    exists k :: r == Ten(k) || r == 2.0 * Ten(k) || r == 5.0 * Ten(k)
  }

  lemma CandidateIsOneTwoFive(x: real, f: real)
    requires x > 0.0 && (f == 1.0 || f == 2.0 || f == 5.0)
    ensures IsOneTwoFive(Candidate(x, f)) && Candidate(x, f) >= x / 4.0
  {
    var p := RoundToPowerOfTen(x / f);
    var k :| Ten(k) == p;
  }

  predicate NotFarther(x: real, r: real, c: real)
  {
    Abs(r - x) <= Abs(c - x)
  }

  /** The first of the nearest ones. */
  function Nearest(x: real, r1: real, r2: real, r5: real): (r: real)
    ensures (r == r1 || r == r2 || r == r5) && NotFarther(x, r, r1) && NotFarther(x, r, r2) && NotFarther(x, r, r5)
  {
    var r12 := if Abs(r2 - x) < Abs(r1 - x) then r2 else r1;
    if Abs(r5 - x) < Abs(r12 - x) then r5 else r12
  }

  /** roundToOneTwoFive(): the candidate nearest to x, the first one on a tie. */
  function RoundToOneTwoFive(x: real): (r: real)
    requires x > 0.0
    ensures IsOneTwoFive(r)
    ensures NotFarther(x, r, Candidate(x, 1.0)) && NotFarther(x, r, Candidate(x, 2.0)) && NotFarther(x, r, Candidate(x, 5.0))
    ensures r > 0.0 && x / 4.0 <= r
  {
    CandidateIsOneTwoFive(x, 1.0);
    CandidateIsOneTwoFive(x, 2.0);
    CandidateIsOneTwoFive(x, 5.0);
    var r1, r2, r5 := Candidate(x, 1.0), Candidate(x, 2.0), Candidate(x, 5.0);
    Nearest(x, r1, r2, r5)
  }

  // ---------------------------------------------------------------- nearest of all such numbers

  lemma {:induction false} TenIsPositive(k: int)
    ensures Ten(k) > 0.0
    decreases if k < 0 then -k else k
  {
    if k > 0 {
      TenIsPositive(k - 1);
    } else if k < 0 {
      TenIsPositive(k + 1);
    }
  }

  lemma TenTimesTen(k: int)
    ensures Ten(k + 1) == Ten(k) * 10.0
  {
    if k < 0 {
      assert Ten(k) == Ten(k + 1) / 10.0;
    }
  }

  lemma {:induction false} TenGrows(k: int, l: int)
    requires k < l
    ensures 0.0 < Ten(k) * 10.0 <= Ten(l)
    decreases l - k
  {
    TenIsPositive(k);
    TenTimesTen(l - 1);
    if k < l - 1 {
      TenGrows(k, l - 1);
    }
  }

  /** Only one power of ten is within a factor of the square root of ten of x, that factor itself
      counting on one side only. */
  lemma PowerIsUnique(x: real, m: int)
    requires x > 0.0 && Ten(m) * ROUND_LOWER < x <= Ten(m) * ROUND_UPPER
    ensures RoundToPowerOfTen(x) == Ten(m)
  {
    var p := RoundToPowerOfTen(x);
    var k :| Ten(k) == p;
    if k < m {
      TenGrows(k, m);
    } else if k > m {
      TenGrows(m, k);
    }
  }

  lemma PowerBelow(x: real) returns (m: int)
    requires x > 0.0
    ensures 0.0 < Ten(m) <= x < Ten(m) * 10.0
  {
    var p := RoundToPowerOfTen(x);
    m :| Ten(m) == p;
    if p > x {
      TenTimesTen(m - 1);
      m := m - 1;
    }
    TenIsPositive(m);
  }

  lemma NoneBetween(v: real, m: int)
    requires IsOneTwoFive(v)
    ensures var d := Ten(m); v <= d || v == 2.0 * d || v == 5.0 * d || v >= 10.0 * d
  {
    var k :| v == Ten(k) || v == 2.0 * Ten(k) || v == 5.0 * Ten(k);
    if k < m {
      TenGrows(k, m);
    } else if k > m {
      TenGrows(m, k);
    }
  }

  lemma CandidateOfOne(x: real, m: int)
    requires x > 0.0 && Ten(m) * ROUND_LOWER < x <= Ten(m) * ROUND_UPPER
    ensures Candidate(x, 1.0) == Ten(m)
  {
    assert x / 1.0 == x;
    PowerIsUnique(x, m);
  }

  lemma CandidateOfTwo(x: real, m: int)
    requires x > 0.0 && Ten(m) * ROUND_LOWER < x / 2.0 <= Ten(m) * ROUND_UPPER
    ensures Candidate(x, 2.0) == 2.0 * Ten(m)
  {
    PowerIsUnique(x / 2.0, m);
  }

  lemma CandidateOfFive(x: real, m: int)
    requires x > 0.0 && Ten(m) * ROUND_LOWER < x / 5.0 <= Ten(m) * ROUND_UPPER
    ensures Candidate(x, 5.0) == 5.0 * Ten(m)
  {
    PowerIsUnique(x / 5.0, m);
  }

  /** The two of these numbers between which x lies are among the candidates. */
  lemma NeighboursAreCandidates(x: real, m: int, d: real)
    requires d == Ten(m) && 0.0 < d <= x < d * 10.0
    ensures x <= 2.0 * d ==> Candidate(x, 1.0) == d && Candidate(x, 2.0) == 2.0 * d
    ensures 2.0 * d <= x <= 5.0 * d ==> Candidate(x, 2.0) == 2.0 * d && Candidate(x, 5.0) == 5.0 * d
    ensures 5.0 * d <= x ==> Candidate(x, 5.0) == 5.0 * d && Candidate(x, 1.0) == 10.0 * d
  {
    if x <= 2.0 * d {
      CandidateOfOne(x, m);
    } else if 5.0 * d <= x {
      TenTimesTen(m);
      CandidateOfOne(x, m + 1);
    }
    if x <= 5.0 * d {
      CandidateOfTwo(x, m);
    }
    if 2.0 * d <= x {
      CandidateOfFive(x, m);
    }
  }

  /** Of all numbers that are 1, 2 or 5 times a power of ten, the result is one nearest to x; it is
      less than twice as large. */
  lemma RoundedIsNearest(x: real, v: real)
    requires x > 0.0 && IsOneTwoFive(v)
    ensures Abs(RoundToOneTwoFive(x) - x) <= Abs(v - x)
    ensures RoundToOneTwoFive(x) < 2.0 * x
  {
    var m := PowerBelow(x);
    NeighboursAreCandidates(x, m, Ten(m));
    NoneBetween(v, m);
    NotFartherThanCandidates(x);
    NearestOfNeighbours(x, v, RoundToOneTwoFive(x), Ten(m), Candidate(x, 1.0), Candidate(x, 2.0), Candidate(x, 5.0));
  }

  lemma NotFartherThanCandidates(x: real)
    requires x > 0.0
    ensures var r := RoundToOneTwoFive(x);
            NotFarther(x, r, Candidate(x, 1.0)) && NotFarther(x, r, Candidate(x, 2.0)) && NotFarther(x, r, Candidate(x, 5.0))
  {
  }

  lemma NearestOfNeighbours(x: real, v: real, r: real, d: real, c1: real, c2: real, c5: real)
    requires 0.0 < d <= x < d * 10.0
    requires v <= d || v == 2.0 * d || v == 5.0 * d || v >= 10.0 * d
    requires x <= 2.0 * d ==> c1 == d && c2 == 2.0 * d
    requires 2.0 * d <= x <= 5.0 * d ==> c2 == 2.0 * d && c5 == 5.0 * d
    requires 5.0 * d <= x ==> c5 == 5.0 * d && c1 == 10.0 * d
    requires NotFarther(x, r, c1) && NotFarther(x, r, c2) && NotFarther(x, r, c5)
    ensures Abs(r - x) <= Abs(v - x) && r < 2.0 * x
  {
  }

  /** Of all numbers 1, 2 or 5 times a power of ten, s is one nearest to x. */
  ghost predicate NearestOneTwoFive(s: real, x: real)
  {
    IsOneTwoFive(s) && forall v :: IsOneTwoFive(v) ==> Abs(s - x) <= Abs(v - x)
  }

  lemma RoundedIsNearestOfAll(x: real)
    requires x > 0.0
    ensures NearestOneTwoFive(RoundToOneTwoFive(x), x)
  {
    forall v | IsOneTwoFive(v)
      ensures Abs(RoundToOneTwoFive(x) - x) <= Abs(v - x)
    {
      RoundedIsNearest(x, v);
    }
  }
}
