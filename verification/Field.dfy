/** Arithmetic modulo a prime, as Python's integers with `% P` and `pow(x, n, P)` do it.
    The prime is a parameter: the source's is 2^255 - 19, and only that it is 5 modulo 8 is used. */
module Field {
  import opened Arithmetic

  /** Congruence modulo p. */
  predicate Eq(p: int, a: int, b: int)
    requires p > 0
  {
    (a - b) % p == 0
  }

  lemma MultipleIsZero(p: int, k: int)
    requires p > 0
    ensures (p * k) % p == 0
  {
    var q, r := p * k / p, p * k % p;
    assert p * (k - q) == r;
    MultipleIsLarge(p, k - q);
  }

  lemma EqWitness(p: int, a: int, b: int) returns (k: int)
    requires p > 0 && Eq(p, a, b)
    ensures a - b == p * k
  {
    k := (a - b) / p;
  }

  lemma EqFrom(p: int, a: int, b: int, k: int)
    requires p > 0 && a - b == p * k
    ensures Eq(p, a, b)
  {
    MultipleIsZero(p, k);
  }

  lemma EqRefl(p: int, a: int)
    requires p > 0
    ensures Eq(p, a, a)
  {
  }

  lemma EqSym(p: int, a: int, b: int)
    requires p > 0 && Eq(p, a, b)
    ensures Eq(p, b, a)
  {
    var k := EqWitness(p, a, b);
    EqFrom(p, b, a, -k);
  }

  lemma EqTrans(p: int, a: int, b: int, c: int)
    requires p > 0 && Eq(p, a, b) && Eq(p, b, c)
    ensures Eq(p, a, c)
  {
    var k := EqWitness(p, a, b);
    var l := EqWitness(p, b, c);
    EqFrom(p, a, c, k + l);
  }

  lemma EqAdd(p: int, a: int, b: int, c: int, d: int)
    requires p > 0 && Eq(p, a, b) && Eq(p, c, d)
    ensures Eq(p, a + c, b + d) && Eq(p, a - c, b - d)
  {
    var k := EqWitness(p, a, b);
    var l := EqWitness(p, c, d);
    assert p * k + p * l == p * (k + l) && p * k - p * l == p * (k - l);
    EqFrom(p, a + c, b + d, k + l);
    EqFrom(p, a - c, b - d, k - l);
  }

  lemma EqMul(p: int, a: int, b: int, c: int, d: int)
    requires p > 0 && Eq(p, a, b) && Eq(p, c, d)
    ensures Eq(p, a * c, b * d)
  {
    var k := EqWitness(p, a, b);
    var l := EqWitness(p, c, d);
    // a c - b d = (a - b) c + b (c - d)
    assert a * c - b * d == (a - b) * c + b * (c - d);
    assert (p * k) * c + b * (p * l) == p * (k * c + b * l);
    EqFrom(p, a * c, b * d, k * c + b * l);
  }

  lemma EqScale(p: int, a: int, b: int, c: int)
    requires p > 0 && Eq(p, a, b)
    ensures Eq(p, a * c, b * c) && Eq(p, c * a, c * b)
  {
    EqRefl(p, c);
    EqMul(p, a, b, c, c);
  }

  lemma EqMod(p: int, a: int)
    requires p > 0
    ensures 0 <= a % p < p && Eq(p, a % p, a) && Eq(p, a, a % p)
  {
    EqFrom(p, a % p, a, -(a / p));
    EqSym(p, a % p, a);
  }

  /** Congruent numbers in range are equal. */
  lemma EqReduced(p: int, a: int, b: int)
    requires p > 0 && Eq(p, a, b) && 0 <= a < p && 0 <= b < p
    ensures a == b
  {
    var k := EqWitness(p, a, b);
    MultipleIsLarge(p, k);
  }

  lemma EqZero(p: int, a: int)
    requires p > 0
    ensures Eq(p, a, 0) <==> a % p == 0
  {
  }

  /** What two congruences give once multiplied and added. */
  lemma EqCombine(p: int, a: int, b: int, k: int, c: int, d: int, l: int, x: int, y: int)
    requires p > 0 && Eq(p, a, b) && Eq(p, c, d) && x - y == k * (a - b) + l * (c - d)
    ensures Eq(p, x, y)
  {
    var i := EqWitness(p, a, b);
    var j := EqWitness(p, c, d);
    assert k * (p * i) + l * (p * j) == p * (k * i + l * j);
    EqFrom(p, x, y, k * i + l * j);
  }

  lemma EqMultiply(p: int, a: int, b: int, k: int, x: int, y: int)
    requires p > 0 && Eq(p, a, b) && x - y == k * (a - b)
    ensures Eq(p, x, y)
  {
    var i := EqWitness(p, a, b);
    assert k * (p * i) == p * (k * i);
    EqFrom(p, x, y, k * i);
  }

  // ---- powers

  function Pow(b: int, e: nat): (r: int)
    decreases e
  {
    if e == 0 then 1 else b * Pow(b, e - 1)
  }

  lemma {:induction false} PowEq(p: int, a: int, b: int, e: nat)
    requires p > 0 && Eq(p, a, b)
    ensures Eq(p, Pow(a, e), Pow(b, e))
    decreases e
  {
    hide Eq;
    if e == 0 {
      EqRefl(p, 1);
    } else {
      PowEq(p, a, b, e - 1);
      EqMul(p, a, b, Pow(a, e - 1), Pow(b, e - 1));
    }
  }

  lemma {:induction false} PowSum(a: int, m: nat, n: nat)
    ensures Pow(a, m + n) == Pow(a, m) * Pow(a, n)
    decreases m
  {
    if m > 0 {
      PowSum(a, m - 1, n);
      Reassociate(a, Pow(a, m - 1), Pow(a, n));
    }
  }

  lemma Reassociate(a: int, b: int, c: int)
    ensures a * (b * c) == (a * b) * c
  {
  }

  lemma {:induction false} PowSquare(a: int, n: nat)
    ensures Pow(a * a, n) == Pow(a, n) * Pow(a, n)
    decreases n
  {
    if n > 0 {
      PowSquare(a, n - 1);
      SquareOfProduct(a, Pow(a, n - 1));
    }
  }

  lemma SquareOfProduct(a: int, b: int)
    ensures (a * a) * (b * b) == (a * b) * (a * b)
  {
  }

  // ---- inverses and square roots

  ghost predicate FermatAt(p: int, x: int)
    requires p > 2
  {
    x % p != 0 ==> Eq(p, Pow(x, p - 1), 1)
  }

  /** That p is prime, in the form the source uses it (Fermat's little theorem), and 5 modulo 8. */
  ghost predicate Fermat(p: int) {
    p > 8 && p % 8 == 5 && forall x: int :: FermatAt(p, x)
  }

  /** `inv`: the power that Fermat's theorem makes an inverse, and zero for zero. */
  function Inv(p: int, x: int): (r: int)
    requires p > 2
    ensures 0 <= r < p
  {
    Pow(x, p - 2) % p
  }

  lemma InvWorks(p: int, x: int)
    requires Fermat(p) && x % p != 0
    ensures Eq(p, x * Inv(p, x), 1)
  {
    hide Eq;
    assert FermatAt(p, x);
    var w := Pow(x, p - 2);
    EqMod(p, w);
    EqScale(p, w % p, w, x);
    assert Pow(x, p - 1) == x * w;
    EqTrans(p, x * (w % p), x * w, 1);
  }

  lemma InvZero(p: int, x: int)
    requires p > 2 && x % p == 0
    ensures Inv(p, x) == 0
  {
    EqScale(p, x, 0, Pow(x, p - 3));
    EqMod(p, Pow(x, p - 2));
  }

  /** b = (a w) b = w (a b) = 0 */
  lemma ZeroFactor(p: int, a: int, b: int, w: int)
    requires p > 0 && Eq(p, a * w, 1) && Eq(p, a * b, 0)
    ensures Eq(p, b, 0)
  {
    hide Eq;
    EqScale(p, a * w, 1, b);
    EqSym(p, (a * w) * b, b);
    EqScale(p, a * b, 0, w);
    assert w * (a * b) == (a * w) * b;
    EqTrans(p, b, (a * w) * b, 0);
  }

  lemma NoZeroDivisors(p: int, a: int, b: int)
    requires Fermat(p) && Eq(p, a * b, 0)
    ensures Eq(p, a, 0) || Eq(p, b, 0)
  {
    if a % p != 0 {
      InvWorks(p, a);
      ZeroFactor(p, a, b, Inv(p, a));
    }
  }

  lemma Cancel(p: int, a: int, b: int, c: int)
    requires Fermat(p) && !Eq(p, a, 0) && Eq(p, a * b, a * c)
    ensures Eq(p, b, c)
  {
    assert a * b - a * c == a * (b - c);
    NoZeroDivisors(p, a, b - c);
  }

  /** Two square roots of one number are equal or opposite. */
  lemma RootsAreOpposite(p: int, a: int, b: int)
    requires Fermat(p) && Eq(p, a * a, b * b)
    ensures Eq(p, a, b) || Eq(p, a, -b)
  {
    assert (a - b) * (a + b) == a * a - b * b;
    NoZeroDivisors(p, a - b, a + b);
  }

  /** s to the (p - 1) / 4 is 1 or -1 when s is the square of r. */
  lemma QuarterPower(p: int, r: int, s: int)
    requires Fermat(p) && Eq(p, s, r * r) && r % p != 0
    ensures var h := Pow(s, (p - 1) / 4); Eq(p, h, 1) || Eq(p, h, -1)
  {
    hide Eq;
    var n := (p - 1) / 4;
    var h, t := Pow(s, n), Pow(r, n);
    PowEq(p, s, r * r, n);
    PowSquare(r, n);
    EqMul(p, h, t * t, h, t * t);
    PowSum(r, n, n);
    PowSum(r, 2 * n, 2 * n);
    assert FermatAt(p, r);
    assert 2 * n + 2 * n == p - 1;
    EqTrans(p, h * h, (t * t) * (t * t), 1);
    RootsAreOpposite(p, h, 1);
  }

  /** The power `recover_x` tries first squares to the number or to its opposite, when that has a root. */
  lemma CandidateRoot(p: int, r: int, s: int)
    requires Fermat(p) && Eq(p, r * r, s)
    ensures var x := Pow(s, (p + 3) / 8) % p; Eq(p, x * x, s) || Eq(p, x * x, -s)
  {
    hide Eq, Pow;
    var x := Pow(s, (p + 3) / 8) % p;
    var h := Pow(s, (p - 1) / 4);
    SquaredCandidate(p, s);
    if s % p == 0 {
      EqZero(p, s);
      EqScale(p, s, 0, h);
      EqSym(p, s, 0);
      EqTrans(p, x * x, s * h, 0);
      EqTrans(p, x * x, 0, s);
    } else {
      EqSym(p, r * r, s);
      EqZero(p, r);
      EqZero(p, s);
      if r % p == 0 {
        EqScale(p, r, 0, r);
        EqTrans(p, s, r * r, 0);
      }
      QuarterPower(p, r, s);
      if Eq(p, h, 1) {
        EqScale(p, h, 1, s);
        EqTrans(p, x * x, s * h, s);
      } else {
        EqScale(p, h, -1, s);
        EqTrans(p, x * x, s * h, -s);
      }
    }
  }

  lemma SquaredCandidate(p: int, s: int)
    requires p > 8 && p % 8 == 5
    ensures var x := Pow(s, (p + 3) / 8) % p; Eq(p, x * x, s * Pow(s, (p - 1) / 4))
  {
    hide Eq, Pow;
    var n := (p + 3) / 8;
    var w := Pow(s, n);
    EqMod(p, w);
    EqMul(p, w % p, w, w % p, w);
    PowSum(s, n, n);
    assert n + n == 1 + (p - 1) / 4;
    PowNext(s, (p - 1) / 4);
  }

  lemma PowNext(s: int, n: nat)
    ensures Pow(s, 1 + n) == s * Pow(s, n)
  {
  }
}
