/**
 * Fixed-width positional numerals in an arbitrary base, most significant digit
 * first. Base 256 gives the big-endian byte encodings of `U256` and `Address`,
 * base 16 gives hexadecimal text.
 */
module Numerals {

  function Pow(b: nat, n: nat): (p: nat)
    ensures b > 0 ==> p > 0
  {
    if n == 0 then 1 else b * Pow(b, n - 1)
  }

  ghost predicate DigitsBelow(ds: seq<nat>, b: nat) {
    forall i :: 0 <= i < |ds| ==> ds[i] < b
  }

  /** The `n` lowest base-`b` digits of `v`, most significant first. */
  function ToDigits(v: nat, n: nat, b: nat): (ds: seq<nat>)
    requires b > 1
    ensures |ds| == n
    ensures DigitsBelow(ds, b)
    decreases n
  {
    if n == 0 then [] else ToDigits(v / b, n - 1, b) + [v % b]
  }

  /** The number that the base-`b` digits `ds` denote, most significant first. */
  function FromDigits(ds: seq<nat>, b: nat): nat {
    if ds == [] then 0 else FromDigits(ds[..|ds| - 1], b) * b + ds[|ds| - 1]
  }

  lemma MulAtLeast(d: int, k: int)
    requires d >= 0 && k >= 1
    ensures d * k >= d
  {
    assert d * k == d * (k - 1) + d;
  }

  lemma Euclid(v: nat, d: nat)
    requires d > 0
    ensures v == d * (v / d) + v % d && 0 <= v % d < d
  {
  }

  /** Euclidean division has exactly one quotient and remainder. */
  lemma DivModUnique(v: nat, d: nat, q: nat, m: nat)
    requires 0 <= m < d && v == d * q + m
    ensures v / d == q && v % d == m
  {
    var q', m' := v / d, v % d;
    Euclid(v, d);
    assert d * q - d * q' == m' - m;
    assert d * (q - q') == m' - m;
    if q > q' {
      MulAtLeast(d, q - q');
    } else if q < q' {
      MulAtLeast(d, q' - q);
    }
  }

  /** Taking `v` modulo `b * p` keeps its last digit and the `p`-residue of the digits above it. */
  lemma ModNest(v: nat, b: nat, p: nat)
    requires b > 0 && p > 0
    ensures v % (b * p) == (v / b) % p * b + v % b
  {
    var q, r := v / b, v % b;
    Euclid(v, b);
    var a, c := q / p, q % p;
    Euclid(q, p);
    assert v == b * (p * a + c) + r;
    assert b * (p * a + c) == (b * p) * a + c * b;
    assert c * b <= (p - 1) * b by {
      MulAtLeast(b, p - c);
      assert (p - 1) * b - c * b == b * (p - c) - b;
    }
    assert (p - 1) * b == b * p - b;
    DivModUnique(v, b * p, a, c * b + r);
  }

  /** Reading back the `n` digits of `v` gives `v` modulo `b^n`. */
  lemma {:induction false} FromToDigits(v: nat, n: nat, b: nat)
    requires b > 1
    ensures FromDigits(ToDigits(v, n, b), b) == v % Pow(b, n)
    decreases n
  {
    if n == 0 {
      assert v % 1 == 0;
    } else {
      var ds := ToDigits(v, n, b);
      assert ds[..n - 1] == ToDigits(v / b, n - 1, b);
      FromToDigits(v / b, n - 1, b);
      ModNest(v, b, Pow(b, n - 1));
    }
  }

  /** Appending a digit to a number below `p` gives a number below `p * b`. */
  lemma DigitStepBound(x: nat, p: nat, d: nat, b: nat)
    requires x < p && d < b
    ensures x * b + d < p * b
  {
    MulAtLeast(b, p - x);
    assert p * b - x * b == b * (p - x);
  }

  /** `k` digits denote a number below `b^k`. */
  lemma {:induction false} FromDigitsBound(ds: seq<nat>, b: nat)
    requires b > 1 && DigitsBelow(ds, b)
    ensures FromDigits(ds, b) < Pow(b, |ds|)
  {
    if ds != [] {
      var init := ds[..|ds| - 1];
      FromDigitsBound(init, b);
      DigitStepBound(FromDigits(init, b), Pow(b, |init|), ds[|ds| - 1], b);
    }
  }

  /** Writing out the number that `ds` denotes gives `ds` back: digit strings of one width are unique. */
  lemma {:induction false} ToFromDigits(ds: seq<nat>, b: nat)
    requires b > 1 && DigitsBelow(ds, b)
    ensures ToDigits(FromDigits(ds, b), |ds|, b) == ds
  {
    if ds != [] {
      var init, last := ds[..|ds| - 1], ds[|ds| - 1];
      var v := FromDigits(ds, b);
      DivModUnique(v, b, FromDigits(init, b), last);
      ToFromDigits(init, b);
      assert ds == init + [last];
    }
  }

  /** The last `m` of the `n` digits of `v` are the `m` digits of `v`. */
  lemma {:induction false} DigitsSuffix(v: nat, n: nat, m: nat, b: nat)
    requires b > 1 && m <= n
    ensures ToDigits(v, n, b)[n - m..] == ToDigits(v, m, b)
    decreases m
  {
    if m > 0 {
      DigitsSuffix(v / b, n - 1, m - 1, b);
      assert ToDigits(v, n, b)[n - m..] == ToDigits(v / b, n - 1, b)[n - m..] + [v % b];
    }
  }

  /** A number below `b^n` survives the round trip through `n` digits unchanged. */
  lemma FromToDigitsSmall(v: nat, n: nat, b: nat)
    requires b > 1 && v < Pow(b, n)
    ensures FromDigits(ToDigits(v, n, b), b) == v
  {
    FromToDigits(v, n, b);
    DivModUnique(v, Pow(b, n), 0, v);
  }

  /** Powers of a positive base grow with the exponent. */
  lemma {:induction false} PowMonotone(b: nat, m: nat, n: nat)
    requires b > 0 && m <= n
    ensures Pow(b, m) <= Pow(b, n)
    decreases n
  {
    if m < n {
      PowMonotone(b, m, n - 1);
      MulAtLeast(Pow(b, n - 1), b);
    }
  }
}
