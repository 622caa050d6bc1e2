/**
 Hashing by rotation and exclusive or, over any words that obey the laws of these two operations.
 */
module RotateXor {

  /** The two operations and the word that exclusive or leaves alone. */
  datatype Ops<!T> = Ops(rot: T -> T, xor: (T, T) -> T, zero: T)

  function Rotate<T>(o: Ops<T>, x: T, n: nat): T
  {
    if n == 0 then x else o.rot(Rotate(o, x, n - 1))
  }

  ghost predicate Law<T>(o: Ops<T>, x: T, y: T, z: T)
  {
    && o.xor(x, y) == o.xor(y, x) && o.xor(o.xor(x, y), z) == o.xor(x, o.xor(y, z))
    && o.xor(x, o.zero) == x && o.xor(x, x) == o.zero
    && o.rot(o.xor(x, y)) == o.xor(o.rot(x), o.rot(y))
    && o.rot(o.zero) == o.zero && (o.rot(x) == o.zero ==> x == o.zero)
    && Rotate(o, x, 32) == x
  }

  ghost predicate Laws<T(!new)>(o: Ops<T>)
  {
    forall x, y, z :: Law(o, x, y, z)
  }

  /** Merging words one by one into a value. */
  function MergeAll<T>(o: Ops<T>, value: T, words: seq<T>): T
  {
    if words == [] then value else o.xor(o.rot(MergeAll(o, value, words[..|words| - 1])), words[|words| - 1])
  }

  /** The xor of all words, each rotated by its distance from the end, modulo 32. */
  function RotatedXor<T>(o: Ops<T>, words: seq<T>, distance: nat): T
  {
    if words == [] then o.zero
    else o.xor(RotatedXor(o, words[..|words| - 1], distance + 1), Rotate(o, words[|words| - 1], distance % 32))
  }

  // ---------------------------------------------------------------- laws of repeated rotation

  lemma {:induction false} RotateOfXor<T(!new)>(o: Ops<T>, x: T, y: T, n: nat)
    requires Laws(o)
    ensures Rotate(o, o.xor(x, y), n) == o.xor(Rotate(o, x, n), Rotate(o, y, n))
  {
    if n > 0 {
      RotateOfXor(o, x, y, n - 1);
      assert Law(o, Rotate(o, x, n - 1), Rotate(o, y, n - 1), o.zero);
    }
  }

  lemma {:induction false} RotateOfZero<T(!new)>(o: Ops<T>, x: T, n: nat)
    requires Laws(o)
    ensures Rotate(o, x, n) == o.zero <==> x == o.zero
  {
    if n > 0 {
      RotateOfZero(o, x, n - 1);
      assert Law(o, Rotate(o, x, n - 1), o.zero, o.zero);
    }
  }

  lemma {:induction false} RotateAdds<T>(o: Ops<T>, x: T, m: nat, n: nat)
    ensures Rotate(o, Rotate(o, x, m), n) == Rotate(o, x, m + n)
  {
    if n > 0 {
      RotateAdds(o, x, m, n - 1);
    }
  }

  lemma {:induction false} RotateModulo32<T(!new)>(o: Ops<T>, x: T, n: nat)
    requires Laws(o)
    ensures Rotate(o, x, n) == Rotate(o, x, n % 32)
  {
    if n >= 32 {
      RotateModulo32(o, x, n - 32);
      RotateAdds(o, x, 32, n - 32);
      assert Law(o, x, x, x);
      assert n % 32 == (n - 32) % 32;
    }
  }

  lemma OneMoreRotation<T(!new)>(o: Ops<T>, x: T, distance: nat)
    requires Laws(o)
    ensures o.rot(Rotate(o, x, distance % 32)) == Rotate(o, x, (distance + 1) % 32)
  {
    RotateModulo32(o, x, distance % 32 + 1);
    assert (distance % 32 + 1) % 32 == (distance + 1) % 32;
  }

  // ---------------------------------------------------------------- closed form

  lemma {:induction false} RotatedXorShifts<T(!new)>(o: Ops<T>, words: seq<T>, distance: nat)
    requires Laws(o)
    ensures o.rot(RotatedXor(o, words, distance)) == RotatedXor(o, words, distance + 1)
    decreases |words|
  {
    if words == [] {
      assert Law(o, o.zero, o.zero, o.zero);
    } else {
      var front, last := words[..|words| - 1], words[|words| - 1];
      RotatedXorShifts(o, front, distance + 1);
      OneMoreRotation(o, last, distance);
      assert Law(o, RotatedXor(o, front, distance + 1), Rotate(o, last, distance % 32), o.zero);
    }
  }

  /** Hashing words on top of any value: the value rotated by their number, xor each word rotated by
      its distance from the end. */
  lemma {:induction false} ClosedForm<T(!new)>(o: Ops<T>, value: T, words: seq<T>)
    requires Laws(o)
    ensures MergeAll(o, value, words) == o.xor(Rotate(o, value, |words|), RotatedXor(o, words, 0))
    decreases |words|
  {
    if words == [] {
      assert Law(o, value, o.zero, o.zero);
    } else {
      var front, last := words[..|words| - 1], words[|words| - 1];
      ClosedForm(o, value, front);
      RotatedXorShifts(o, front, 0);
      var r, x := Rotate(o, value, |front|), RotatedXor(o, front, 0);
      assert Law(o, r, x, o.zero);
      assert Law(o, o.rot(r), o.rot(x), last);
      assert Rotate(o, last, 0 % 32) == last;
    }
  }

  // ---------------------------------------------------------------- collisions

  function Differences<T>(o: Ops<T>, a: seq<T>, b: seq<T>): seq<T>
    requires |a| == |b|
  {
    seq(|a|, i requires 0 <= i < |a| => o.xor(a[i], b[i]))
  }

  lemma FourWayXor<T(!new)>(o: Ops<T>, p: T, x: T, q: T, y: T)
    requires Laws(o)
    ensures o.xor(o.xor(p, q), o.xor(x, y)) == o.xor(o.xor(p, x), o.xor(q, y))
  {
    assert Law(o, p, q, o.xor(x, y));
    assert Law(o, q, x, y);
    assert Law(o, x, q, y);
    assert Law(o, p, x, o.xor(q, y));
  }

  lemma XorIsZero<T(!new)>(o: Ops<T>, x: T, y: T)
    requires Laws(o)
    ensures o.xor(x, y) == o.zero <==> x == y
  {
    assert Law(o, x, y, y);
    assert Law(o, y, o.zero, y);
    assert Law(o, o.zero, y, y);
    assert Law(o, x, x, x);
  }

  lemma XorCancels<T(!new)>(o: Ops<T>, r: T, x: T, y: T)
    requires Laws(o)
    ensures o.xor(r, x) == o.xor(r, y) <==> o.xor(x, y) == o.zero
  {
    XorIsZero(o, x, y);
    assert Law(o, r, r, x);
    assert Law(o, r, r, y);
    assert Law(o, x, o.zero, x);
    assert Law(o, y, o.zero, y);
  }

  lemma {:induction false} RotatedXorOfDifferences<T(!new)>(o: Ops<T>, a: seq<T>, b: seq<T>, distance: nat)
    requires Laws(o) && |a| == |b|
    ensures RotatedXor(o, Differences(o, a, b), distance) == o.xor(RotatedXor(o, a, distance), RotatedXor(o, b, distance))
    decreases |a|
  {
    if a == [] {
      assert Law(o, o.zero, o.zero, o.zero);
    } else {
      var n := |a| - 1;
      RotatedXorOfDifferences(o, a[..n], b[..n], distance + 1);
      assert Differences(o, a, b)[..n] == Differences(o, a[..n], b[..n]);
      RotateOfXor(o, a[n], b[n], distance % 32);
      FourWayXor(o, RotatedXor(o, a[..n], distance + 1), Rotate(o, a[n], distance % 32),
                 RotatedXor(o, b[..n], distance + 1), Rotate(o, b[n], distance % 32));
    }
  }

  /** Streams of equal length collide exactly when their differences, so rotated, cancel. */
  lemma CollideIffDifferencesCancel<T(!new)>(o: Ops<T>, value: T, a: seq<T>, b: seq<T>)
    requires Laws(o) && |a| == |b|
    ensures MergeAll(o, value, a) == MergeAll(o, value, b) <==> RotatedXor(o, Differences(o, a, b), 0) == o.zero
  {
    ClosedForm(o, value, a);
    ClosedForm(o, value, b);
    RotatedXorOfDifferences(o, a, b, 0);
    XorCancels(o, Rotate(o, value, |a|), RotatedXor(o, a, 0), RotatedXor(o, b, 0));
  }

  lemma {:induction false} AllZeroWords<T(!new)>(o: Ops<T>, words: seq<T>, distance: nat)
    requires Laws(o) && forall i :: 0 <= i < |words| ==> words[i] == o.zero
    ensures RotatedXor(o, words, distance) == o.zero
    decreases |words|
  {
    if words != [] {
      AllZeroWords(o, words[..|words| - 1], distance + 1);
      RotateOfZero(o, o.zero, distance % 32);
      assert Law(o, o.zero, o.zero, o.zero);
    }
  }

  lemma {:induction false} OnlyWord<T(!new)>(o: Ops<T>, words: seq<T>, k: nat, distance: nat)
    requires Laws(o) && k < |words| && forall i :: 0 <= i < |words| && i != k ==> words[i] == o.zero
    ensures RotatedXor(o, words, distance) == Rotate(o, words[k], (distance + |words| - 1 - k) % 32)
    decreases |words|
  {
    var n := |words| - 1;
    if k == n {
      AllZeroWords(o, words[..n], distance + 1);
      assert Law(o, o.zero, Rotate(o, words[n], distance % 32), o.zero);
      assert Law(o, Rotate(o, words[n], distance % 32), o.zero, o.zero);
    } else {
      OnlyWord(o, words[..n], k, distance + 1);
      RotateOfZero(o, o.zero, distance % 32);
      assert Law(o, RotatedXor(o, words[..n], distance + 1), o.zero, o.zero);
    }
  }

  /** Changing exactly one word always changes the hash. */
  lemma OneChangeIsNoticed<T(!new)>(o: Ops<T>, value: T, a: seq<T>, k: nat, x: T)
    requires Laws(o) && k < |a| && a[k] != x
    ensures MergeAll(o, value, a) != MergeAll(o, value, a[k := x])
  {
    var b := a[k := x];
    CollideIffDifferencesCancel(o, value, a, b);
    forall i | 0 <= i < |a|
      ensures Differences(o, a, b)[i] == o.zero <==> i != k
    {
      XorIsZero(o, a[i], b[i]);
    }
    OnlyWord(o, Differences(o, a, b), k, 0);
    RotateOfZero(o, Differences(o, a, b)[k], (|a| - 1 - k) % 32);
  }

  lemma WholeTurns(distance: nat, turns: nat, sum: nat)
    requires turns % 32 == 0 && sum == distance + turns
    ensures sum % 32 == distance % 32
  {
  }

  lemma {:induction false} TwoEqualWordsCancel<T(!new)>(o: Ops<T>, words: seq<T>, k: nat, l: nat, distance: nat)
    requires Laws(o) && k < l < |words| && words[k] == words[l] && (l - k) % 32 == 0
    requires forall i :: 0 <= i < |words| && i != k && i != l ==> words[i] == o.zero
    ensures RotatedXor(o, words, distance) == o.zero
    decreases |words|
  {
    var n := |words| - 1;
    if l == n {
      OnlyWord(o, words[..n], k, distance + 1);
      WholeTurns(distance, l - k, distance + 1 + (n - 1 - k));
      XorIsZero(o, Rotate(o, words[k], distance % 32), Rotate(o, words[n], distance % 32));
    } else {
      TwoEqualWordsCancel(o, words[..n], k, l, distance + 1);
      RotateOfZero(o, o.zero, distance % 32);
      assert Law(o, o.zero, o.zero, o.zero);
    }
  }

  /** Exchanging two words a multiple of 32 places apart is never noticed. */
  lemma ExchangeIsNotNoticed<T(!new)>(o: Ops<T>, value: T, a: seq<T>, k: nat, l: nat)
    requires Laws(o) && k < l < |a| && (l - k) % 32 == 0
    ensures MergeAll(o, value, a) == MergeAll(o, value, a[k := a[l]][l := a[k]])
  {
    var b := a[k := a[l]][l := a[k]];
    CollideIffDifferencesCancel(o, value, a, b);
    forall i | 0 <= i < |a| && i != k && i != l
      ensures Differences(o, a, b)[i] == o.zero
    {
      XorIsZero(o, a[i], b[i]);
    }
    assert Law(o, a[k], a[l], a[l]);
    TwoEqualWordsCancel(o, Differences(o, a, b), k, l, 0);
  }

  lemma {:induction false} MergeAllConcat<T>(o: Ops<T>, value: T, xs: seq<T>, ys: seq<T>)
    ensures MergeAll(o, MergeAll(o, value, xs), ys) == MergeAll(o, value, xs + ys)
    decreases |ys|
  {
    if ys == [] {
      assert xs + ys == xs;
    } else {
      assert (xs + ys)[..|xs + ys| - 1] == xs + ys[..|ys| - 1];
      MergeAllConcat(o, value, xs, ys[..|ys| - 1]);
    }
  }
}
