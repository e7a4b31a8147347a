/** Facts of integer division that the solver is told rather than left to find. */
module Arithmetic {

  lemma DivideTwice(n: nat, a: nat, b: nat)
    requires a > 0 && b > 0
    ensures a * b > 0 && n / a / b == n / (a * b)
  {
    var m := n / a;
    var q, r, t := m / b, m % b, n % a;
    assert n == a * (b * q + r) + t;
    assert a * (b * q + r) == (a * b) * q + a * r;
    assert a * r <= a * (b - 1) by {
      NonNegativeProduct(a, b - 1 - r);
    }
    QuotientIs(n, a * b, q, a * r + t);
  }

  lemma NonNegativeProduct(a: int, b: int)
    requires a >= 0 && b >= 0
    ensures a * b >= 0
  {
  }

  lemma MultipleIsLarge(d: int, e: int)
    requires d > 0
    ensures e >= 1 ==> d * e >= d
    ensures e <= -1 ==> d * e <= -d
  {
  }

  /** The quotient is the only one that leaves a remainder in range. */
  lemma QuotientIs(n: nat, d: nat, q: int, r: int)
    requires d > 0 && n == d * q + r && 0 <= r < d
    ensures n / d == q && n % d == r
  {
    var e := n / d - q;
    assert d * e == r - n % d;
    MultipleIsLarge(d, e);
  }

  lemma Regroup(a: int, b: int, c: int, d: int)
    ensures (a * b) * (c * d) == (a * c) * (b * d)
  {
  }
}
