/** What the ladder computes: multiples of a point of a Montgomery curve or of its twist. */
module Montgomery {
  import opened Arithmetic
  import opened Bytes
  import opened Field
  import opened Groups
  import opened X25519
  import Clamp

  /** A group of points and their u-coordinates. Every u-coordinate belongs to a point of the curve
      v^2 = u^3 + 486662 u^2 + u or of its twist, and both are such groups. */
  datatype Line<!T> = Line(p: int, group: Group<T>, u: T -> nat)

  function Denominator(u: int): (r: int) {
    4 * u * (u * u + 486662 * u + 1)
  }

  // The classical u-coordinate laws, a point or a pair at a time.

  ghost predicate DoublingAt<T>(l: Line<T>, a: T)
    requires l.p > 0
  {
    l.group.member(a) ==>
      var u, d := l.u(a), l.group.add(a, a);
      && u < l.p
      && (a != l.group.zero ==>
           && (d == l.group.zero <==> Eq(l.p, Denominator(u), 0))
           && (d != l.group.zero ==> Eq(l.p, l.u(d) * Denominator(u), (u * u - 1) * (u * u - 1))))
  }

  ghost predicate AdditionAt<T>(l: Line<T>, a: T, b: T)
    requires l.p > 0
  {
    l.group.member(a) && l.group.member(b) && a != l.group.zero && b != l.group.zero ==>
      var u, v, g := l.u(a), l.u(b), l.group;
      && (Eq(l.p, u, v) <==> a == b || a == g.neg(b))
      && (!Eq(l.p, u, v) ==>
           Eq(l.p, l.u(g.add(a, b)) * l.u(g.add(b, g.neg(a))) * ((u - v) * (u - v)), (u * v - 1) * (u * v - 1)))
  }

  ghost predicate Lawful<T(!new)>(l: Line<T>) {
    && Fermat(l.p) && l.p > 2_000_000
    && Abelian(l.group)
    && l.u(l.group.zero) == 0
    && (forall a :: DoublingAt(l, a))
    && (forall a, b :: AdditionAt(l, a, b))
  }

  /** X : Z stands for the point: Z is zero for the identity alone, and otherwise X = u Z. */
  ghost predicate StandsFor<T>(l: Line<T>, q: Proj, a: T)
    requires l.p > 0
  {
    if a == l.group.zero then !Eq(l.p, q.x, 0) && Eq(l.p, q.z, 0)
    else !Eq(l.p, q.z, 0) && Eq(l.p, q.x, l.u(a) * q.z)
  }

  // ---- the formulas, without their reductions

  lemma Reduced2(p: int, a: int, b: int, a': int, b': int)
    requires p > 0 && Eq(p, a, a') && Eq(p, b, b')
    ensures Eq(p, a * b % p, a' * b')
  {
    EqMul(p, a, a', b, b');
    EqMod(p, a * b);
    EqTrans(p, a * b % p, a * b, a' * b');
  }

  lemma DoubleFormula(p: int, q: Proj)
    requires p > 2
    ensures var r := Double(p, q); var x, z := q.x, q.z;
            Eq(p, r.x, (x * x - z * z) * (x * x - z * z))
            && Eq(p, r.z, 4 * (x * z) * (x * x + 486662 * (x * z) + z * z))
  {
    hide Eq;
    var x, z := q.x, q.z;
    var a, b := (x + z) % p, (x - z) % p;
    var aa, bb := a * a % p, b * b % p;
    EqMod(p, x + z);
    EqMod(p, x - z);
    Reduced2(p, a, a, x + z, x + z);
    Reduced2(p, b, b, x - z, x - z);
    Reduced2(p, aa, bb, (x + z) * (x + z), (x - z) * (x - z));
    var e := (aa - bb) % p;
    EqAdd(p, aa, (x + z) * (x + z), bb, (x - z) * (x - z));
    EqMod(p, aa - bb);
    EqTrans(p, e, aa - bb, (x + z) * (x + z) - (x - z) * (x - z));
    DoubleAlgebra(x, z);
    EqScale(p, e, 4 * (x * z), 121665);
    EqAdd(p, aa, (x + z) * (x + z), 121665 * e, 121665 * (4 * (x * z)));
    Reduced2(p, e, aa + 121665 * e, 4 * (x * z), (x + z) * (x + z) + 121665 * (4 * (x * z)));
  }

  lemma DoubleAlgebra(x: int, z: int)
    ensures (x + z) * (x + z) - (x - z) * (x - z) == 4 * (x * z)
    ensures (x + z) * (x + z) + 121665 * (4 * (x * z)) == x * x + 486662 * (x * z) + z * z
    ensures ((x + z) * (x + z)) * ((x - z) * (x - z)) == (x * x - z * z) * (x * x - z * z)
  {
    assert (x + z) * (x - z) == x * x - z * z;
    Regroup(x + z, x + z, x - z, x - z);
  }

  lemma DiffAddFormula(p: int, x1: int, q: Proj, r: Proj)
    requires p > 2
    ensures var s := DiffAdd(p, x1, q, r);
            var m, n := 2 * (q.x * r.x - q.z * r.z), 2 * (q.z * r.x - q.x * r.z);
            Eq(p, s.x, m * m) && Eq(p, s.z, x1 * (n * n))
  {
    hide Eq;
    var a, b, c, d := q.x + q.z, q.x - q.z, r.x + r.z, r.x - r.z;
    var da, cb := (d % p) * (a % p) % p, (c % p) * (b % p) % p;
    ReducedProduct(p, d, a);
    ReducedProduct(p, c, b);
    EqAdd(p, da, d * a, cb, c * b);
    DiffAddAlgebra(q.x, q.z, r.x, r.z);
    DiffAddSquares(p, x1, da, cb, d * a + c * b, d * a - c * b);
  }

  lemma ReducedProduct(p: int, a: int, b: int)
    requires p > 0
    ensures Eq(p, (a % p) * (b % p) % p, a * b)
  {
    hide Eq;
    EqMod(p, a);
    EqMod(p, b);
    Reduced2(p, a % p, b % p, a, b);
  }

  lemma DiffAddSquares(p: int, x1: int, da: int, cb: int, m: int, n: int)
    requires p > 2 && Eq(p, da + cb, m) && Eq(p, da - cb, n)
    ensures Eq(p, (da + cb) * (da + cb) % p, m * m) && Eq(p, x1 * ((da - cb) * (da - cb)) % p, x1 * (n * n))
  {
    hide Eq;
    Reduced2(p, da + cb, da + cb, m, m);
    EqMul(p, da - cb, n, da - cb, n);
    EqScale(p, (da - cb) * (da - cb), n * n, x1);
    EqMod(p, x1 * ((da - cb) * (da - cb)));
    EqTrans(p, x1 * ((da - cb) * (da - cb)) % p, x1 * ((da - cb) * (da - cb)), x1 * (n * n));
  }

  lemma DiffAddAlgebra(x2: int, z2: int, x3: int, z3: int)
    ensures (x3 - z3) * (x2 + z2) + (x3 + z3) * (x2 - z2) == 2 * (x2 * x3 - z2 * z3)
    ensures (x3 - z3) * (x2 + z2) - (x3 + z3) * (x2 - z2) == 2 * (z2 * x3 - x2 * z3)
  {
  }

  // ---- nonzero products

  lemma ProductNotZero(p: int, a: int, b: int)
    requires Fermat(p) && !Eq(p, a, 0) && !Eq(p, b, 0)
    ensures !Eq(p, a * b, 0)
  {
    if Eq(p, a * b, 0) {
      NoZeroDivisors(p, a, b);
    }
  }

  lemma ZeroMoves(p: int, a: int, b: int)
    requires p > 0 && Eq(p, a, b)
    ensures Eq(p, a, 0) <==> Eq(p, b, 0)
  {
    EqSym(p, a, b);
    if Eq(p, a, 0) {
      EqTrans(p, b, a, 0);
    }
    if Eq(p, b, 0) {
      EqTrans(p, a, b, 0);
    }
  }

  lemma SmallNotZero(p: int, n: int)
    requires p > 2_000_000 && -2_000_000 < n < 2_000_000 && n != 0
    ensures !Eq(p, n, 0)
  {
    if Eq(p, n, 0) {
      var k := EqWitness(p, n, 0);
      Arithmetic.MultipleIsLarge(p, k);
    }
  }

  // ---- doubling

  /** Doubling the identity: X^4 : 0. */
  lemma DoubleOfZero(p: int, q: Proj)
    requires Fermat(p) && !Eq(p, q.x, 0) && Eq(p, q.z, 0)
    ensures var r := Double(p, q); !Eq(p, r.x, 0) && Eq(p, r.z, 0)
  {
    hide Eq, Double;
    var x, z, r := q.x, q.z, Double(p, q);
    var n, d := x * x - z * z, x * x + 486662 * (x * z) + z * z;
    DoubleFormula(p, q);
    ZeroZ(p, x, z, d);
    EqTrans(p, r.z, 4 * (x * z) * d, 0);
    ProductNotZero(p, x, x);
    EqRefl(p, x * x);
    EqAdd(p, x * x, x * x, z * z, 0);
    ZeroMoves(p, n, x * x);
    ProductNotZero(p, n, n);
    ZeroMoves(p, r.x, n * n);
  }

  lemma ZeroZ(p: int, x: int, z: int, d: int)
    requires p > 0 && Eq(p, z, 0)
    ensures Eq(p, z * z, 0) && Eq(p, 4 * (x * z) * d, 0)
  {
    hide Eq;
    EqScale(p, z, 0, z);
    EqScale(p, z, 0, x * (4 * d));
    Factors(x, z, d);
  }

  lemma Factors(x: int, z: int, d: int)
    ensures z * (x * (4 * d)) == 4 * (x * z) * d
  {
  }

  /** Doubling X = u Z: (u^2 - 1)^2 z^4 : 4 u (u^2 + 486662 u + 1) z^4. */
  lemma DoubleOverZ(p: int, q: Proj, u: int)
    requires p > 2 && Eq(p, q.x, u * q.z)
    ensures var r := Double(p, q); var w := (q.z * q.z) * (q.z * q.z);
            Eq(p, r.x, (u * u - 1) * (u * u - 1) * w) && Eq(p, r.z, Denominator(u) * w)
  {
    var x, z := q.x, q.z;
    var y := u * z;
    DoubleFormula(p, q);
    EqMul(p, x, y, x, y);
    EqScale(p, x, y, z);
    EqRefl(p, z * z);
    EqAdd(p, x * x, y * y, z * z, z * z);
    EqMul(p, x * x - z * z, y * y - z * z, x * x - z * z, y * y - z * z);
    EqScale(p, x * z, y * z, 486662);
    EqAdd(p, x * x, y * y, 486662 * (x * z), 486662 * (y * z));
    EqAdd(p, x * x + 486662 * (x * z), y * y + 486662 * (y * z), z * z, z * z);
    EqScale(p, x * z, y * z, 4);
    EqMul(p, 4 * (x * z), 4 * (y * z), x * x + 486662 * (x * z) + z * z, y * y + 486662 * (y * z) + z * z);
    OverZ(u, z);
    var r := Double(p, q);
    EqTrans(p, r.x, (x * x - z * z) * (x * x - z * z), (y * y - z * z) * (y * y - z * z));
    EqTrans(p, r.z, 4 * (x * z) * (x * x + 486662 * (x * z) + z * z), 4 * (y * z) * (y * y + 486662 * (y * z) + z * z));
  }

  lemma OverZ(u: int, z: int)
    ensures var y, w := u * z, (z * z) * (z * z);
            (y * y - z * z) * (y * y - z * z) == (u * u - 1) * (u * u - 1) * w
            && 4 * (y * z) * (y * y + 486662 * (y * z) + z * z) == Denominator(u) * w
  {
    var y, s := u * z, z * z;
    assert y * z == u * s;
    assert y * y == u * u * s by {
      Regroup(u, z, u, z);
    }
    assert y * y - z * z == (u * u - 1) * s;
    Regroup(u * u - 1, s, u * u - 1, s);
    assert y * y + 486662 * (y * z) + z * z == (u * u + 486662 * u + 1) * s;
    Regroup(4 * u, s, u * u + 486662 * u + 1, s);
    assert 4 * (u * s) == (4 * u) * s;
  }

  /** u^2 = 1 never makes the denominator zero. */
  lemma OrderFour(p: int, u: int)
    requires Fermat(p) && p > 2_000_000 && Eq(p, Denominator(u), 0)
    ensures !Eq(p, u * u - 1, 0)
  {
    if Eq(p, u * u - 1, 0) {
      assert (u - 1) * (u + 1) == u * u - 1;
      NoZeroDivisors(p, u - 1, u + 1);
      if Eq(p, u - 1, 0) {
        EqRefl(p, 1);
        EqAdd(p, u - 1, 0, 1, 1);
        DenominatorAt(p, u, 1);
      } else {
        EqRefl(p, 1);
        EqAdd(p, u + 1, 0, 1, 1);
        DenominatorAt(p, u, -1);
      }
    }
  }

  lemma DenominatorAt(p: int, u: int, s: int)
    requires Fermat(p) && p > 2_000_000 && (s == 1 || s == -1) && Eq(p, u, s)
    ensures !Eq(p, Denominator(u), 0)
  {
    EqMul(p, u, s, u, s);
    EqScale(p, u, s, 486662);
    EqAdd(p, u * u, s * s, 486662 * u, 486662 * s);
    EqRefl(p, 1);
    EqAdd(p, u * u + 486662 * u, s * s + 486662 * s, 1, 1);
    EqScale(p, u, s, 4);
    EqMul(p, 4 * u, 4 * s, u * u + 486662 * u + 1, s * s + 486662 * s + 1);
    SmallNotZero(p, 4 * s * (s * s + 486662 * s + 1));
    ZeroMoves(p, Denominator(u), 4 * s * (s * s + 486662 * s + 1));
  }

  lemma DoubleStands<T(!new)>(l: Line<T>, q: Proj, a: T)
    requires Lawful(l) && l.group.member(a) && StandsFor(l, q, a)
    ensures l.group.member(l.group.add(a, a)) && StandsFor(l, Double(l.p, q), l.group.add(a, a))
  {
    var p, g := l.p, l.group;
    Closed(g, a, a);
    if a == g.zero {
      Units(g, a);
      DoubleOfZero(p, q);
    } else {
      assert DoublingAt(l, a);
      var u, d, w := l.u(a), g.add(a, a), (q.z * q.z) * (q.z * q.z);
      hide Double, Denominator, Lawful;
      DoubleOverZ(p, q, u);
      ProductNotZero(p, q.z, q.z);
      ProductNotZero(p, q.z * q.z, q.z * q.z);
      DoubleCases(p, Double(p, q), u, l.u(d), w, d == g.zero);
    }
  }

  lemma DoubleCases(p: int, r: Proj, u: int, v: int, w: int, zero: bool)
    requires Fermat(p) && p > 2_000_000 && !Eq(p, w, 0)
    requires Eq(p, r.x, (u * u - 1) * (u * u - 1) * w) && Eq(p, r.z, Denominator(u) * w)
    requires zero <==> Eq(p, Denominator(u), 0)
    requires !zero ==> Eq(p, v * Denominator(u), (u * u - 1) * (u * u - 1))
    ensures if zero then !Eq(p, r.x, 0) && Eq(p, r.z, 0) else !Eq(p, r.z, 0) && Eq(p, r.x, v * r.z)
  {
    var n, d := (u * u - 1) * (u * u - 1), Denominator(u);
    ZeroMoves(p, r.z, d * w);
    ZeroMoves(p, r.x, n * w);
    if zero {
      EqScale(p, d, 0, w);
      OrderFour(p, u);
      ProductNotZero(p, u * u - 1, u * u - 1);
      ProductNotZero(p, n, w);
    } else {
      ProductNotZero(p, d, w);
      CrossRatio(p, r, n, d, v, w);
    }
  }

  /** X = n w, Z = d w and v d = n give X = v Z. */
  lemma CrossRatio(p: int, r: Proj, n: int, d: int, v: int, w: int)
    requires p > 0 && Eq(p, r.x, n * w) && Eq(p, r.z, d * w) && Eq(p, v * d, n)
    ensures Eq(p, r.x, v * r.z)
  {
    hide Eq;
    EqScale(p, v * d, n, w);
    EqScale(p, r.z, d * w, v);
    assert v * (d * w) == v * d * w;
    EqSym(p, v * d * w, n * w);
    EqSym(p, v * r.z, v * d * w);
    EqTrans(p, r.x, n * w, v * d * w);
    EqTrans(p, r.x, v * d * w, v * r.z);
  }

  // ---- differential addition

  /** X : Z of the sum of two points given over z2 and z3, M being 2 z2 z3. */
  lemma DiffAddOverZ(p: int, x1: int, q: Proj, r: Proj, u: int, v: int)
    requires p > 2 && Eq(p, q.x, u * q.z) && Eq(p, r.x, v * r.z)
    ensures var s := DiffAdd(p, x1, q, r); var w := (2 * (q.z * r.z)) * (2 * (q.z * r.z));
            Eq(p, s.x, (u * v - 1) * (u * v - 1) * w) && Eq(p, s.z, x1 * ((v - u) * (v - u)) * w)
  {
    var m, n := 2 * (q.x * r.x - q.z * r.z), 2 * (q.z * r.x - q.x * r.z);
    var k := 2 * (q.z * r.z);
    DiffAddFormula(p, x1, q, r);
    EqMul(p, q.x, u * q.z, r.x, v * r.z);
    EqRefl(p, q.z * r.z);
    EqAdd(p, q.x * r.x, (u * q.z) * (v * r.z), q.z * r.z, q.z * r.z);
    EqScale(p, q.x * r.x - q.z * r.z, (u * q.z) * (v * r.z) - q.z * r.z, 2);
    EqScale(p, r.x, v * r.z, q.z);
    EqScale(p, q.x, u * q.z, r.z);
    EqAdd(p, q.z * r.x, q.z * (v * r.z), q.x * r.z, u * q.z * r.z);
    EqScale(p, q.z * r.x - q.x * r.z, q.z * (v * r.z) - u * q.z * r.z, 2);
    CommonFactor(u, v, q.z, r.z);
    hide Eq, DiffAdd;
    Squares(p, DiffAdd(p, x1, q, r), x1, m, n, u * v - 1, v - u, k);
  }

  lemma CommonFactor(u: int, v: int, z2: int, z3: int)
    ensures 2 * ((u * z2) * (v * z3) - z2 * z3) == (u * v - 1) * (2 * (z2 * z3))
    ensures 2 * (z2 * (v * z3) - u * z2 * z3) == (v - u) * (2 * (z2 * z3))
  {
    Regroup(u, z2, v, z3);
    assert z2 * (v * z3) == v * (z2 * z3) && u * z2 * z3 == u * (z2 * z3);
  }

  /** X = m^2 and Z = x1 n^2, with m = a k and n = b k. */
  lemma Squares(p: int, s: Proj, x1: int, m: int, n: int, a: int, b: int, k: int)
    requires p > 0 && Eq(p, s.x, m * m) && Eq(p, s.z, x1 * (n * n)) && Eq(p, m, a * k) && Eq(p, n, b * k)
    ensures Eq(p, s.x, a * a * (k * k)) && Eq(p, s.z, x1 * (b * b) * (k * k))
  {
    hide Eq;
    EqMul(p, m, a * k, m, a * k);
    EqMul(p, n, b * k, n, b * k);
    EqScale(p, n * n, (b * k) * (b * k), x1);
    Regroup(a, k, a, k);
    Regroup(b, k, b, k);
    assert x1 * (b * b * (k * k)) == x1 * (b * b) * (k * k);
    EqTrans(p, s.x, m * m, a * a * (k * k));
    EqTrans(p, s.z, x1 * (n * n), x1 * (b * b) * (k * k));
  }

  /** One of the two is the identity, Z = 0, and the other X = u Z: the sum is that other point. */
  lemma DiffAddWithZero(p: int, x1: int, q: Proj, r: Proj, u: int)
    requires Fermat(p) && p > 2_000_000 && Eq(p, x1, u) && !Eq(p, x1, 0)
    requires || (!Eq(p, q.x, 0) && Eq(p, q.z, 0) && !Eq(p, r.z, 0) && Eq(p, r.x, u * r.z))
             || (!Eq(p, r.x, 0) && Eq(p, r.z, 0) && !Eq(p, q.z, 0) && Eq(p, q.x, u * q.z))
    ensures var s := DiffAdd(p, x1, q, r); !Eq(p, s.z, 0) && Eq(p, s.x, u * s.z)
  {
    if Eq(p, q.z, 0) && !Eq(p, r.z, 0) {
      ZeroFirst(p, x1, q, r, u);
    } else {
      DiffAddSymmetric(p, x1, q, r);
      ZeroFirst(p, x1, r, q, u);
    }
  }

  lemma ZeroFirst(p: int, x1: int, q: Proj, r: Proj, u: int)
    requires Fermat(p) && p > 2_000_000 && Eq(p, x1, u) && !Eq(p, x1, 0)
    requires !Eq(p, q.x, 0) && Eq(p, q.z, 0) && !Eq(p, r.z, 0) && Eq(p, r.x, u * r.z)
    ensures var s := DiffAdd(p, x1, q, r); !Eq(p, s.z, 0) && Eq(p, s.x, u * s.z)
  {
    var s := DiffAdd(p, x1, q, r);
    var k := 2 * (q.x * r.z);
    DiffAddFormula(p, x1, q, r);
    ZeroTerms(p, q, r, u);
    hide DiffAdd;
    Squares(p, s, x1, 2 * (q.x * r.x - q.z * r.z), 2 * (q.z * r.x - q.x * r.z), u, -1, k);
    SmallNotZero(p, 2);
    ProductNotZero(p, q.x, r.z);
    ProductNotZero(p, 2, q.x * r.z);
    ProductNotZero(p, k, k);
    ZeroRatio(p, s, x1, u, k * k);
  }

  lemma ZeroTerms(p: int, q: Proj, r: Proj, u: int)
    requires p > 0 && Eq(p, q.z, 0) && Eq(p, r.x, u * r.z)
    ensures var k := 2 * (q.x * r.z);
            Eq(p, 2 * (q.x * r.x - q.z * r.z), u * k) && Eq(p, 2 * (q.z * r.x - q.x * r.z), -1 * k)
  {
    hide Eq;
    EqScale(p, q.z, 0, r.z);
    EqScale(p, q.z, 0, r.x);
    EqScale(p, r.x, u * r.z, q.x);
    EqAdd(p, q.x * r.x, q.x * (u * r.z), q.z * r.z, 0);
    EqScale(p, q.x * r.x - q.z * r.z, q.x * (u * r.z), 2);
    EqRefl(p, q.x * r.z);
    EqAdd(p, q.z * r.x, 0, q.x * r.z, q.x * r.z);
    EqScale(p, q.z * r.x - q.x * r.z, 0 - q.x * r.z, 2);
    assert 2 * (q.x * (u * r.z)) == u * (2 * (q.x * r.z));
    assert 2 * (0 - q.x * r.z) == -1 * (2 * (q.x * r.z));
  }

  lemma ZeroRatio(p: int, s: Proj, x1: int, u: int, w: int)
    requires Fermat(p) && Eq(p, x1, u) && !Eq(p, x1, 0) && !Eq(p, w, 0)
    requires Eq(p, s.x, u * u * w) && Eq(p, s.z, x1 * (-1 * -1) * w)
    ensures !Eq(p, s.z, 0) && Eq(p, s.x, u * s.z)
  {
    ProductNotZero(p, x1, w);
    assert x1 * (-1 * -1) * w == x1 * w;
    ZeroMoves(p, s.z, x1 * w);
    hide Eq, Fermat;
    EqScale(p, x1, u, w);
    EqTrans(p, s.z, x1 * w, u * w);
    EqScale(p, s.z, u * w, u);
    assert u * (u * w) == u * u * w;
    EqSym(p, u * s.z, u * u * w);
    EqTrans(p, s.x, u * u * w, u * s.z);
  }

  lemma OppositeU<T(!new)>(l: Line<T>, a: T, b: T)
    requires Lawful(l) && l.group.member(a) && l.group.member(b) && l.group.add(a, b) == l.group.zero
    requires a != l.group.zero
    ensures b != l.group.zero && a == l.group.neg(b) && l.u(a) == l.u(b)
  {
    var g := l.group;
    Units(g, a);
    Units(g, b);
    Closed(g, a, b);
    CancelLeft(g, b, a, g.neg(b));
    if b == g.zero {
      Units(g, a);
    }
    assert AdditionAt(l, a, b) && DoublingAt(l, a) && DoublingAt(l, b);
    EqReduced(l.p, l.u(a), l.u(b));
  }

  /** The step's sum: for b = a + pt and x1 the u-coordinate of pt, not zero. */
  lemma DiffAddStands<T(!new)>(l: Line<T>, x1: int, q: Proj, r: Proj, a: T, b: T, pt: T)
    requires Lawful(l) && l.group.member(a) && l.group.member(pt) && b == l.group.add(a, pt)
    requires StandsFor(l, q, a) && StandsFor(l, r, b) && Eq(l.p, x1, l.u(pt)) && !Eq(l.p, x1, 0)
    ensures l.group.member(b) && l.group.member(l.group.add(a, b))
    ensures StandsFor(l, DiffAdd(l.p, x1, q, r), l.group.add(a, b))
  {
    var p, g := l.p, l.group;
    Closed(g, a, pt);
    Closed(g, a, b);
    ZeroMoves(p, x1, l.u(pt));
    EqZero(p, l.u(pt));
    assert pt != g.zero;
    if a == g.zero {
      Units(g, pt);
      Units(g, b);
      DiffAddWithZero(p, x1, q, r, l.u(pt));
    } else if b == g.zero {
      OppositeU(l, a, pt);
      Units(g, a);
      DiffAddWithZero(p, x1, q, r, l.u(pt));
    } else {
      Difference(l, a, b, pt);
      DiffAddOverZ(p, x1, q, r, l.u(a), l.u(b));
      assert AdditionAt(l, a, b);
      if Eq(p, l.u(a), l.u(b)) {
        DiffAddOpposite(l, x1, q, r, a, b, pt);
      } else {
        DiffAddGeneral(l, x1, q, r, a, b, pt);
      }
    }
  }

  lemma Difference<T(!new)>(l: Line<T>, a: T, b: T, pt: T)
    requires Lawful(l) && l.group.member(a) && l.group.member(pt) && b == l.group.add(a, pt)
    ensures l.group.add(b, l.group.neg(a)) == pt
  {
    var g := l.group;
    Closed(g, a, pt);
    Units(g, a);
    Units(g, pt);
    Associative(g, pt, a, g.neg(a));
  }

  lemma DiffAddOpposite<T(!new)>(l: Line<T>, x1: int, q: Proj, r: Proj, a: T, b: T, pt: T)
    requires Lawful(l) && l.group.member(a) && l.group.member(b) && l.group.member(pt)
    requires a != l.group.zero && b != l.group.zero && pt != l.group.zero && b == l.group.add(a, pt)
    requires StandsFor(l, q, a) && StandsFor(l, r, b) && Eq(l.p, x1, l.u(pt)) && !Eq(l.p, x1, 0)
    requires Eq(l.p, l.u(a), l.u(b))
    ensures StandsFor(l, DiffAdd(l.p, x1, q, r), l.group.add(a, b))
  {
    var p, g := l.p, l.group;
    assert AdditionAt(l, a, b) && DoublingAt(l, a) && DoublingAt(l, b);
    EqReduced(p, l.u(a), l.u(b));
    var v := l.u(b);
    hide Lawful, Denominator, DiffAdd, Eq;
    Units(g, a);
    if a == b {
      CancelLeft(g, a, pt, g.zero);
    }
    Units(g, b);
    Closed(g, a, b);
    Difference(l, a, b, pt);
    // b - a = b + b
    NegOfNeg(g, a, b);
    DiffAddOverZ(p, x1, q, r, v, v);
    DoubledNotOne(p, l.u(pt), v, x1);
    OppositeCase(p, DiffAdd(p, x1, q, r), v, x1, q.z, r.z);
  }

  lemma OppositeCase(p: int, s: Proj, v: int, x1: int, z2: int, z3: int)
    requires Fermat(p) && p > 2_000_000 && !Eq(p, v * v - 1, 0) && !Eq(p, z2, 0) && !Eq(p, z3, 0)
    requires var w := (2 * (z2 * z3)) * (2 * (z2 * z3));
             Eq(p, s.x, (v * v - 1) * (v * v - 1) * w) && Eq(p, s.z, x1 * ((v - v) * (v - v)) * w)
    ensures !Eq(p, s.x, 0) && Eq(p, s.z, 0)
  {
    var k := 2 * (z2 * z3);
    SmallNotZero(p, 2);
    ProductNotZero(p, z2, z3);
    ProductNotZero(p, 2, z2 * z3);
    ProductNotZero(p, k, k);
    var n := v * v - 1;
    ProductNotZero(p, n, n);
    ProductNotZero(p, n * n, k * k);
    ZeroMoves(p, s.x, n * n * (k * k));
    assert x1 * ((v - v) * (v - v)) * (k * k) == 0;
  }

  lemma NegOfNeg<T(!new)>(g: Group<T>, a: T, b: T)
    requires Abelian(g) && g.member(a) && g.member(b) && a == g.neg(b)
    ensures g.add(a, b) == g.zero && g.neg(a) == b
  {
    Units(g, a);
    Units(g, b);
    Closed(g, a, b);
    CancelLeft(g, a, g.neg(a), b);
  }

  lemma DoubledNotOne(p: int, u: int, v: int, x1: int)
    requires Fermat(p) && Eq(p, x1, u) && !Eq(p, x1, 0)
    requires !Eq(p, Denominator(v), 0) && Eq(p, u * Denominator(v), (v * v - 1) * (v * v - 1))
    ensures !Eq(p, v * v - 1, 0)
  {
    ZeroMoves(p, x1, u);
    ProductNotZero(p, u, Denominator(v));
    ZeroMoves(p, u * Denominator(v), (v * v - 1) * (v * v - 1));
    if Eq(p, v * v - 1, 0) {
      EqScale(p, v * v - 1, 0, v * v - 1);
    }
  }

  lemma DiffAddGeneral<T(!new)>(l: Line<T>, x1: int, q: Proj, r: Proj, a: T, b: T, pt: T)
    requires Lawful(l) && l.group.member(a) && l.group.member(b) && l.group.member(pt)
    requires a != l.group.zero && b != l.group.zero && b == l.group.add(a, pt)
    requires StandsFor(l, q, a) && StandsFor(l, r, b) && Eq(l.p, x1, l.u(pt)) && !Eq(l.p, x1, 0)
    requires !Eq(l.p, l.u(a), l.u(b))
    ensures StandsFor(l, DiffAdd(l.p, x1, q, r), l.group.add(a, b))
  {
    var p, g := l.p, l.group;
    var u, v := l.u(a), l.u(b);
    var s := g.add(a, b);
    assert AdditionAt(l, a, b);
    Difference(l, a, b, pt);
    if s == g.zero {
      OppositeU(l, a, b);
      EqRefl(p, u);
    }
    DiffAddOverZ(p, x1, q, r, u, v);
    hide Lawful, DiffAdd;
    SmallNotZero(p, 2);
    ProductNotZero(p, q.z, r.z);
    ProductNotZero(p, 2, q.z * r.z);
    ProductNotZero(p, 2 * (q.z * r.z), 2 * (q.z * r.z));
    GeneralCase(p, DiffAdd(p, x1, q, r), u, v, l.u(s), l.u(pt), x1, (2 * (q.z * r.z)) * (2 * (q.z * r.z)));
  }

  lemma GeneralCase(p: int, s: Proj, u: int, v: int, us: int, ud: int, x1: int, w: int)
    requires Fermat(p) && !Eq(p, w, 0) && !Eq(p, u, v) && Eq(p, x1, ud) && !Eq(p, x1, 0)
    requires Eq(p, s.x, (u * v - 1) * (u * v - 1) * w) && Eq(p, s.z, x1 * ((v - u) * (v - u)) * w)
    requires Eq(p, us * ud * ((u - v) * (u - v)), (u * v - 1) * (u * v - 1))
    ensures !Eq(p, s.z, 0) && Eq(p, s.x, us * s.z)
  {
    var n, e := (u * v - 1) * (u * v - 1), (v - u) * (v - u);
    DifferenceNotZero(p, u, v);
    ProductNotZero(p, v - u, v - u);
    ProductNotZero(p, x1, e);
    ProductNotZero(p, x1 * e, w);
    ZeroMoves(p, s.z, x1 * e * w);
    SquareOfDifference(u, v);
    EqScale(p, x1, ud, us);
    EqScale(p, us * x1, us * ud, e);
    EqTrans(p, us * x1 * e, us * ud * e, n);
    assert us * x1 * e == us * (x1 * e);
    CrossRatio(p, s, n, x1 * e, us, w);
  }

  lemma DifferenceNotZero(p: int, u: int, v: int)
    requires p > 0 && !Eq(p, u, v)
    ensures !Eq(p, v - u, 0)
  {
    if Eq(p, v - u, 0) {
      EqRefl(p, u);
      EqAdd(p, v - u, 0, u, u);
      EqSym(p, v, u);
    }
  }

  // ---- the ladder

  lemma {:induction false} PrefixNext(k: nat, t: nat)
    ensures Prefix(k, t) == 2 * Prefix(k, t + 1) + Bit(k, t)
    decreases t
  {
    if t > 0 {
      PrefixNext(k / 2, t - 1);
    }
  }

  lemma {:induction false} PrefixBounds(k: nat, t: nat)
    ensures k < Pow2(t) ==> Prefix(k, t) == 0
    ensures Pow2(t) <= k < 2 * Pow2(t) ==> Prefix(k, t) == 1
    decreases t
  {
    if t > 0 {
      PrefixBounds(k / 2, t - 1);
    }
  }

  lemma {:induction false} SpanIsPow2(n: nat)
    ensures Span(n) == Pow2(8 * n)
    decreases n
  {
    if n > 0 {
      SpanIsPow2(n - 1);
      var m := 8 * n - 8;
      assert Pow2(m + 2) == 4 * Pow2(m) && Pow2(m + 4) == 4 * Pow2(m + 2);
      assert Pow2(m + 6) == 4 * Pow2(m + 4) && Pow2(m + 8) == 4 * Pow2(m + 6);
    }
  }

  lemma TopIsPow2()
    ensures Pow2(255) == TOP_BIT && 2 * Pow2(254) == TOP_BIT
  {
    SpanOf31();
    SpanIsPow2(31);
    assert Pow2(250) == 4 * Pow2(248) && Pow2(252) == 4 * Pow2(250);
    assert Pow2(254) == 4 * Pow2(252) && Pow2(255) == 2 * Pow2(254);
  }

  /** A clamped scalar has 255 bits, the highest of them set. */
  lemma PrefixEnds(k: nat)
    requires TOP_BIT <= 2 * k < 2 * TOP_BIT
    ensures Prefix(k, 255) == 0 && Bit(k, 254) == 1 && Prefix(k, 0) == k
  {
    TopIsPow2();
    hide Pow2;
    PrefixBounds(k, 255);
    PrefixBounds(k, 254);
  }

  /** The pair stands for (n pt, (n + 1) pt), n being the bits of k read so far. */
  lemma {:induction false} PairStands<T(!new)>(l: Line<T>, pt: T, x1: int, k: nat, t: nat)
    requires Lawful(l) && l.group.member(pt) && Eq(l.p, x1, l.u(pt)) && !Eq(l.p, x1, 0)
    requires t <= 255 && TOP_BIT <= 2 * k < 2 * TOP_BIT
    ensures var n := Prefix(k, t); var (low, high) := Pair(l.p, x1, k, t);
            StandsFor(l, low, Times(l.group, n, pt)) && StandsFor(l, high, Times(l.group, n + 1, pt))
    decreases 255 - t
  {
    hide Lawful, StandsFor, Double, DiffAdd, Bit, Prefix, Times;
    LineBounds(l);
    if t == 255 {
      PrefixEnds(k);
      PairStart(l, pt, x1);
    } else {
      PairStands(l, pt, x1, k, t + 1);
      PrefixNext(k, t);
      var (low, high) := Pair(l.p, x1, k, t + 1);
      PairStep(l, pt, x1, low, high, Prefix(k, t + 1));
    }
  }

  lemma LineBounds<T(!new)>(l: Line<T>)
    requires Lawful(l)
    ensures Fermat(l.p) && l.p > 2_000_000 && Abelian(l.group) && l.u(l.group.zero) == 0
  {
  }

  lemma UBelow<T(!new)>(l: Line<T>, a: T)
    requires Lawful(l) && l.group.member(a)
    ensures l.u(a) < l.p
  {
    assert DoublingAt(l, a);
  }

  /** A nonzero point with u = 0 has order two. */
  lemma OrderTwo<T(!new)>(l: Line<T>, a: T)
    requires Lawful(l) && l.group.member(a) && l.u(a) == 0
    ensures l.group.add(a, a) == l.group.zero
  {
    assert DoublingAt(l, a);
    Units(l.group, a);
    EqRefl(l.p, 0);
  }

  lemma PairStart<T(!new)>(l: Line<T>, pt: T, x1: int)
    requires Lawful(l) && l.group.member(pt) && Eq(l.p, x1, l.u(pt)) && !Eq(l.p, x1, 0)
    ensures StandsFor(l, Proj(1, 0), Times(l.group, 0, pt)) && StandsFor(l, Proj(x1, 1), Times(l.group, 1, pt))
  {
    TimesOne(l.group, pt);
    SmallNotZero(l.p, 1);
    ZeroMoves(l.p, x1, l.u(pt));
    EqRefl(l.p, 0);
  }

  lemma PairStep<T(!new)>(l: Line<T>, pt: T, x1: int, low: Proj, high: Proj, n: nat)
    requires Lawful(l) && l.group.member(pt) && Eq(l.p, x1, l.u(pt)) && !Eq(l.p, x1, 0)
    requires StandsFor(l, low, Times(l.group, n, pt)) && StandsFor(l, high, Times(l.group, n + 1, pt))
    ensures StandsFor(l, Double(l.p, low), Times(l.group, 2 * n, pt))
    ensures StandsFor(l, DiffAdd(l.p, x1, low, high), Times(l.group, 2 * n + 1, pt))
    ensures StandsFor(l, Double(l.p, high), Times(l.group, 2 * n + 2, pt))
  {
    ghost var a, b := Times(l.group, n, pt), Times(l.group, n + 1, pt);
    LineBounds(l);
    NextMultiples(l.group, n, pt);
    hide *;
    DoubleStands(l, low, a);
    DoubleStands(l, high, b);
    DiffAddStands(l, x1, low, high, a, b, pt);
  }

  lemma NextMultiples<T(!new)>(g: Group<T>, n: nat, pt: T)
    requires Abelian(g) && g.member(pt)
    ensures var a, b := Times(g, n, pt), Times(g, n + 1, pt);
            && g.member(a) && g.member(b) && b == g.add(a, pt)
            && g.add(a, a) == Times(g, 2 * n, pt)
            && g.add(a, b) == Times(g, 2 * n + 1, pt)
            && g.add(b, b) == Times(g, 2 * n + 2, pt)
  {
    hide Abelian;
    TimesMember(g, n, pt);
    TimesMember(g, n + 1, pt);
    TimesOne(g, pt);
    TimesSum(g, n, 1, pt);
    TimesSum(g, n, n, pt);
    TimesSum(g, n, n + 1, pt);
    TimesSum(g, n + 1, n + 1, pt);
  }

  lemma ZeroValue(p: int, q: Proj)
    requires p > 2 && Eq(p, q.z, 0)
    ensures Value(p, q) == 0
  {
    EqZero(p, q.z);
    InvZero(p, q.z);
  }

  /** Dividing gives the u-coordinate back, zero for the identity. */
  lemma ValueOf<T(!new)>(l: Line<T>, q: Proj, a: T)
    requires Lawful(l) && l.group.member(a) && StandsFor(l, q, a)
    ensures Value(l.p, q) == l.u(a)
  {
    var p := l.p;
    UBelow(l, a);
    LineBounds(l);
    hide Lawful;
    if a == l.group.zero {
      ZeroValue(p, q);
    } else {
      EqZero(p, q.z);
      InvWorks(p, q.z);
      hide Inv, Eq;
      Ratio(p, q, l.u(a), Inv(p, q.z));
    }
  }

  lemma Ratio(p: int, q: Proj, u: int, w: int)
    requires p > 0 && 0 <= u < p && Eq(p, q.x, u * q.z) && Eq(p, q.z * w, 1)
    ensures q.x * w % p == u
  {
    EqScale(p, q.x, u * q.z, w);
    EqScale(p, q.z * w, 1, u);
    assert u * q.z * w == u * (q.z * w);
    EqTrans(p, q.x * w, u * (q.z * w), u);
    EqMod(p, q.x * w);
    EqTrans(p, q.x * w % p, q.x * w, u);
    EqReduced(p, q.x * w % p, u);
  }

  // ---- the point with u = 0

  /** From u = 0 both Z become zero at the first bit and stay so. */
  lemma {:induction false} ZeroPair(p: int, x1: int, k: nat, t: nat)
    requires Fermat(p) && Eq(p, x1, 0) && TOP_BIT <= 2 * k < 2 * TOP_BIT && t < 255
    ensures var (low, high) := Pair(p, x1, k, t); Eq(p, low.z, 0) && Eq(p, high.z, 0)
    decreases 255 - t
  {
    var (low, high) := Pair(p, x1, k, t + 1);
    ZeroDiffAdd(p, x1, low, high);
    if t == 254 {
      PrefixEnds(k);
      ZeroDouble(p, high);
    } else {
      ZeroPair(p, x1, k, t + 1);
      ZeroDouble(p, low);
      ZeroDouble(p, high);
    }
  }

  lemma ZeroDiffAdd(p: int, x1: int, q: Proj, r: Proj)
    requires p > 2 && Eq(p, x1, 0)
    ensures Eq(p, DiffAdd(p, x1, q, r).z, 0)
  {
    DiffAddFormula(p, x1, q, r);
    var n := 2 * (q.z * r.x - q.x * r.z);
    EqScale(p, x1, 0, n * n);
    EqTrans(p, DiffAdd(p, x1, q, r).z, x1 * (n * n), 0);
  }

  lemma ZeroDouble(p: int, q: Proj)
    requires p > 2 && (Eq(p, q.x, 0) || Eq(p, q.z, 0))
    ensures Eq(p, Double(p, q).z, 0)
  {
    DoubleFormula(p, q);
    var x, z := q.x, q.z;
    if Eq(p, x, 0) {
      EqScale(p, x, 0, z);
    } else {
      EqScale(p, z, 0, x);
    }
    EqScale(p, x * z, 0, 4 * (x * x + 486662 * (x * z) + z * z));
    var d := 4 * (x * z) * (x * x + 486662 * (x * z) + z * z);
    assert x * z * (4 * (x * x + 486662 * (x * z) + z * z)) == d;
    EqTrans(p, Double(p, q).z, d, 0);
  }

  /** A point with u = 0 is its own opposite, so every multiple of it has u = 0. */
  lemma {:induction false} ZeroMultiples<T(!new)>(l: Line<T>, pt: T, k: nat)
    requires Lawful(l) && l.group.member(pt) && l.u(pt) == 0
    ensures l.u(Times(l.group, k, pt)) == 0
    ensures Times(l.group, k, pt) == l.group.zero || Times(l.group, k, pt) == pt
    decreases k
  {
    var g := l.group;
    OrderTwo(l, pt);
    Units(g, pt);
    if k > 0 {
      ZeroMultiples(l, pt, k - 1);
    }
  }

  // ---- what X25519 computes

  /** The ladder's output is the u-coordinate of the clamped multiple of the point. */
  lemma OutputIsMultiple<T(!new)>(l: Line<T>, pt: T, scalar: seq<byte>, uBytes: seq<byte>)
    requires Lawful(l) && l.group.member(pt) && |scalar| == 32
    requires Eq(l.p, Masked(uBytes), l.u(pt))
    ensures Output(l.p, scalar, uBytes) == LittleEndian(l.u(Times(l.group, Clamp.Scalar(scalar), pt)), 32)
  {
    var p, x1, k := l.p, Masked(uBytes), Clamp.Scalar(scalar);
    Clamp.ScalarRange(scalar);
    UBelow(l, pt);
    LineBounds(l);
    hide Lawful, Masked, Clamp.Scalar, Times, LittleEndian;
    if Eq(p, x1, 0) {
      ZeroMoves(p, x1, l.u(pt));
      EqReduced(p, l.u(pt), 0);
      ZeroMultiples(l, pt, k);
      ZeroPair(p, x1, k, 0);
      ZeroValue(p, Pair(p, x1, k, 0).0);
    } else {
      PairStands(l, pt, x1, k, 0);
      PrefixEnds(k);
      TimesMember(l.group, k, pt);
      ValueOf(l, Pair(p, x1, k, 0).0, Times(l.group, k, pt));
    }
  }

  // ---- clamping and cofactors

  /** The order of the point divides 8 times a prime that no clamped scalar reaches: 8 Q on the curve,
      4 times a larger prime on the twist. */
  ghost predicate CofactorEight<T>(l: Line<T>, n: nat, pt: T) {
    && l.group.member(pt)
    && Prime(n) && n % 2 == 1 && TOP_BIT < 8 * n
    && Times(l.group, 8 * n, pt) == l.group.zero
  }

  /** For a clamped scalar k, k pt = 0 exactly when 8 pt = 0; nor is k pt ever of order two. */
  lemma ClampedKills<T(!new)>(l: Line<T>, n: nat, pt: T, secret: seq<byte>)
    requires Lawful(l) && CofactorEight(l, n, pt) && |secret| == 32
    ensures var k := Clamp.Scalar(secret); var g := l.group;
            && (Times(g, k, pt) == g.zero <==> Times(g, 8, pt) == g.zero)
            && (Times(g, k + k, pt) == g.zero <==> Times(g, 8, pt) == g.zero)
  {
    var g, k := l.group, Clamp.Scalar(secret);
    Clamp.ScalarRange(secret);
    var j := k / 8;
    var r := Times(g, 8, pt);
    assert k == j * 8 && k + k == (2 * j) * 8 && 8 * n == n * 8 && 0 < j < n;
    TimesMember(g, 8, pt);
    TimesProduct(g, j, 8, pt);
    TimesProduct(g, 2 * j, 8, pt);
    TimesProduct(g, n, 8, pt);
    if r == g.zero {
      TimesOfZero(g, j);
      TimesOfZero(g, 2 * j);
    } else {
      PrimeOrderMultiples(g, n, j, r);
      PrimeOrderMultiples(g, n, 2 * j, r);
      NotMultiple(j, n);
    }
  }

  lemma NotMultiple(j: nat, n: nat)
    requires 0 < j < n && n % 2 == 1
    ensures j % n != 0 && 2 * j % n != 0
  {
    QuotientIs(j, n, 0, j);
    if 2 * j < n {
      QuotientIs(2 * j, n, 0, 2 * j);
    } else {
      QuotientIs(2 * j, n, 1, 2 * j - n);
    }
  }

  /** A multiple's u-coordinate packs to zero bytes exactly when twice the multiple is zero. */
  lemma ZeroMultiple<T(!new)>(l: Line<T>, pt: T, k: nat)
    requires Lawful(l) && l.group.member(pt) && l.p < TOP_BIT
    requires Times(l.group, k, pt) == l.group.zero <==> Times(l.group, k + k, pt) == l.group.zero
    ensures LittleEndian(l.u(Times(l.group, k, pt)), 32) == Repeated(0) <==> Times(l.group, k, pt) == l.group.zero
  {
    LineBounds(l);
    hide Lawful, LittleEndian, Times, Repeated;
    TimesMember(l.group, k, pt);
    var r := Times(l.group, k, pt);
    UBelow(l, r);
    ZeroBytes(l.u(r));
    if l.u(r) == 0 {
      OrderTwo(l, r);
      TimesSum(l.group, k, k, pt);
    }
  }

  /** The output is all zero exactly for the points that 8 kills, whatever the secret. */
  lemma ZeroOutput<T(!new)>(l: Line<T>, n: nat, pt: T, secret: seq<byte>, uBytes: seq<byte>)
    requires Lawful(l) && CofactorEight(l, n, pt) && |secret| == 32 && Eq(l.p, Masked(uBytes), l.u(pt)) && l.p < TOP_BIT
    ensures Output(l.p, secret, uBytes) == Repeated(0) <==> Times(l.group, 8, pt) == l.group.zero
  {
    hide Lawful, Output, Masked, Clamp.Scalar, Times, LittleEndian, Repeated;
    OutputIsMultiple(l, pt, secret, uBytes);
    ClampedKills(l, n, pt, secret);
    ZeroMultiple(l, pt, Clamp.Scalar(secret));
  }

  lemma ZeroBytes(u: nat)
    requires u < TOP_BIT
    ensures LittleEndian(u, 32) == Repeated(0) <==> u == 0
  {
    SpanOf31();
    hide Span;
    LittleEndianValue(u, 32);
    LittleEndianValue(0, 32);
    LittleEndianZero(32);
    var zeros: seq<byte> := Repeated(0);
    assert LittleEndian(0, 32) == zeros;
  }

  lemma {:induction false} LittleEndianZero(len: nat)
    ensures forall i :: 0 <= i < len ==> LittleEndian(0, len)[i] == 0
    decreases len
  {
    if len > 0 {
      LittleEndianZero(len - 1);
    }
  }

  /** So whether an agreement is contributory does not depend on the secret it is tried with. */
  lemma ContributoryForEverySecret<T(!new)>(l: Line<T>, n: nat, pt: T, secret: seq<byte>, uBytes: seq<byte>)
    requires Lawful(l) && CofactorEight(l, n, pt) && |secret| == 32 && Eq(l.p, Masked(uBytes), l.u(pt)) && l.p < TOP_BIT
    ensures Contributory(l.p, uBytes) <==> Output(l.p, secret, uBytes) != Repeated(0)
    ensures Contributory(l.p, uBytes) <==> Times(l.group, 8, pt) != l.group.zero
  {
    ZeroOutput(l, n, pt, secret, uBytes);
    ZeroOutput(l, n, pt, Repeated(0x5c), uBytes);
  }

  /** Adding a point that 8 kills changes a key and no agreement with it. */
  lemma TorsionAgrees<T(!new)>(l: Line<T>, pt: T, torsion: T, secret: seq<byte>, key: seq<byte>, key': seq<byte>)
    requires Lawful(l) && l.group.member(pt) && l.group.member(torsion) && |secret| == 32
    requires Times(l.group, 8, torsion) == l.group.zero
    requires Eq(l.p, Masked(key), l.u(pt)) && Eq(l.p, Masked(key'), l.u(l.group.add(pt, torsion)))
    ensures Output(l.p, secret, key') == Output(l.p, secret, key)
  {
    var g, k := l.group, Clamp.Scalar(secret);
    Closed(g, pt, torsion);
    OutputIsMultiple(l, pt, secret, key);
    OutputIsMultiple(l, g.add(pt, torsion), secret, key');
    Clamp.ScalarRange(secret);
    TimesOfSum(g, k, pt, torsion);
    TimesProduct(g, k / 8, 8, torsion);
    TimesOfZero(g, k / 8);
    TimesMember(g, k, pt);
    Units(g, Times(g, k, pt));
    assert k == k / 8 * 8;
  }
}
