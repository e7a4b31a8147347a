/** The curve's u-coordinates obey the laws of a Montgomery curve, by the Edwards sum alone. */
module Birational {
  import opened Arithmetic
  import opened Field
  import opened Groups
  import opened Curve
  import Montgomery

  /** The source's d. */
  predicate SourceD(c: Params)
    requires c.p > 2
  {
    c.d == -121665 * Inv(c.p, 121666) % c.p
  }

  /** The curve's own points, by their u-coordinates. */
  function EdwardsLine(c: Params): (l: Montgomery.Line<Point>)
    requires c.p > 2
  {
    Montgomery.Line(c.p, c.group, a => MontgomeryU(c, a))
  }

  lemma DValue(c: Params)
    requires Fermat(c.p) && c.p > 2_000_000 && SourceD(c)
    ensures Eq(c.p, 121666 * c.d, -121665)
  {
    var p, w := c.p, Inv(c.p, 121666);
    Montgomery.SmallNotZero(p, 121666);
    InvWorks(p, 121666);
    EqMod(p, -121665 * w);
    hide Eq, Inv;
    EqCombine(p, c.d, -121665 * w, 121666, 121666 * w, 1, -121665, 121666 * c.d, -121665);
  }

  // ---- a point, its u-coordinate, and sums

  /** u (1 - y) = 1 + y */
  lemma UOverY(c: Params, a: Point)
    requires Fermat(c.p) && 0 <= a.y < c.p && a.y != 1
    ensures Eq(c.p, MontgomeryU(c, a) * (1 - a.y), 1 + a.y) && !Eq(c.p, 1 - a.y, 0)
  {
    var p, w := c.p, Inv(c.p, 1 - a.y);
    OneMinus(p, a.y);
    InvWorks(p, 1 - a.y);
    EqMod(p, (1 + a.y) * w);
    Quotient(p, MontgomeryU(c, a), 1 + a.y, 1 - a.y, w);
  }

  /** A point other than the identity has y other than 1. */
  lemma YNotOne(c: Params, a: Point)
    requires Lawful(c) && c.group.member(a) && a != IDENTITY
    ensures a.x < c.p && a.y < c.p && a.y != 1
    ensures Fermat(c.p)
    ensures Eq(c.p, a.x * a.x * (c.d * a.y * a.y + 1), a.y * a.y - 1)
  {
    Known(c);
    Members(c, a);
    hide Lawful;
    if a.y == 1 {
      OnlyIdentityAtOne(c, a);
    }
  }

  lemma SumY(c: Params, a: Point, b: Point)
    requires Lawful(c) && c.group.member(a) && c.group.member(b)
    ensures var s, e := c.group.add(a, b), Cross(c, a, b);
            Eq(c.p, s.y * (1 - e), a.y * b.y + a.x * b.x) && !Eq(c.p, 1 - e, 0)
  {
    Known(c);
    Members(c, a);
    Members(c, b);
    assert OperationsAt(c, a, b);
    var p, e, n := c.p, Cross(c, a, b), a.y * b.y + a.x * b.x;
    var w := Inv(p, 1 - e);
    hide Lawful, Cross, OnCurve;
    InvWorks(p, 1 - e);
    EqMod(p, n * w);
    Quotient(p, c.group.add(a, b).y, n, 1 - e, w);
  }

  // ---- the law of doubling

  /** The denominator of the u-coordinate's doubling, over (1 - y)^3. */
  lemma DenominatorOverY(p: int, d: int, u: int, y: int)
    requires p > 0 && Eq(p, u * (1 - y), 1 + y) && Eq(p, 121666 * d, -121665)
    ensures var w := 1 - y;
            Eq(p, Montgomery.Denominator(u) * (w * w * w), 16 * 121666 * ((1 + y) * (d * y * y + 1)))
  {
    hide *;
    var w := 1 - y;
    DenominatorCubed(u, w);
    CubicMoves(p, u * w, 1 + y, w);
    CubicOf(1 + y, y);
    CubicWithD(p, d, y);
    EqTrans(p, Montgomery.Denominator(u) * (w * w * w), 16 * (1 + y) * (121666 - 121665 * y * y),
            16 * 121666 * ((1 + y) * (d * y * y + 1)));
  }

  lemma CubicMoves(p: int, t: int, s: int, w: int)
    requires p > 0 && Eq(p, t, s)
    ensures Eq(p, 4 * t * (t * t + 486662 * t * w + w * w), 4 * s * (s * s + 486662 * s * w + w * w))
  {
    hide *;
    CubicDifference(t, s, w);
    EqMultiply(p, t, s, 4 * ((t * t + t * s + s * s) + 486662 * w * (t + s) + w * w),
               4 * t * (t * t + 486662 * t * w + w * w), 4 * s * (s * s + 486662 * s * w + w * w));
  }

  lemma CubicWithD(p: int, d: int, y: int)
    requires p > 0 && Eq(p, 121666 * d, -121665)
    ensures Eq(p, 16 * (1 + y) * (121666 - 121665 * y * y), 16 * 121666 * ((1 + y) * (d * y * y + 1)))
  {
    hide *;
    CubicWithDDifference(d, y);
    EqMultiply(p, 121666 * d, -121665, -(16 * (1 + y) * (y * y)), 16 * (1 + y) * (121666 - 121665 * y * y),
               16 * 121666 * ((1 + y) * (d * y * y + 1)));
  }

  lemma CubicWithDDifference(d: int, y: int)
    ensures 16 * (1 + y) * (121666 - 121665 * y * y) - 16 * 121666 * ((1 + y) * (d * y * y + 1))
            == -(16 * (1 + y) * (y * y)) * (121666 * d - (-121665))
  {
  }

  lemma DenominatorCubed(u: int, w: int)
    ensures var t := u * w;
            Montgomery.Denominator(u) * (w * w * w) == 4 * t * (t * t + 486662 * t * w + w * w)
  {
  }

  lemma CubicOf(s: int, y: int)
    requires s == 1 + y
    ensures var w := 1 - y;
            4 * s * (s * s + 486662 * s * w + w * w) == 16 * s * (121666 - 121665 * y * y)
  {
    assert s * s + 486662 * s * (1 - y) + (1 - y) * (1 - y) == 4 * (121666 - 121665 * y * y);
  }

  lemma CubicDifference(t: int, s: int, w: int)
    ensures 4 * t * (t * t + 486662 * t * w + w * w) - 4 * s * (s * s + 486662 * s * w + w * w)
            == 4 * ((t * t + t * s + s * s) + 486662 * w * (t + s) + w * w) * (t - s)
  {
  }

  /** (u^2 - 1) (1 - y)^2 = 4 y */
  lemma SquareOverY(p: int, u: int, y: int)
    requires p > 0 && Eq(p, u * (1 - y), 1 + y)
    ensures var w := 1 - y; Eq(p, (u * u - 1) * (w * w), 4 * y)
  {
    hide *;
    SquareDifference(u, y);
    EqMultiply(p, u * (1 - y), 1 + y, u * (1 - y) + (1 + y), (u * u - 1) * ((1 - y) * (1 - y)), 4 * y);
  }

  lemma SquareDifference(u: int, y: int)
    ensures var w, s := 1 - y, 1 + y; (u * u - 1) * (w * w) - 4 * y == (u * w + s) * (u * w - s)
  {
    var w, s := 1 - y, 1 + y;
    assert (u * w + s) * (u * w - s) == (u * w) * (u * w) - s * s;
    assert s * s == w * w + 4 * y;
    Regroup(u, w, u, w);
  }

  /** The doubled point's y, when the point is on the curve: y' (2 - y^2 + x^2) = y^2 + x^2. */
  lemma DoubleY(c: Params, a: Point)
    requires Lawful(c) && c.group.member(a) && a != IDENTITY
    ensures var d, x: int, y: int := c.group.add(a, a), a.x, a.y;
            Eq(c.p, d.y * (2 - y * y + x * x), y * y + x * x) && !Eq(c.p, 2 - y * y + x * x, 0)
  {
    SumY(c, a, a);
    YNotOne(c, a);
    hide Eq, Lawful;
    DoubleYFrom(c.p, c.d, a.x, a.y, c.group.add(a, a).y, Cross(c, a, a));
  }

  lemma DoubleYFrom(p: int, d: int, x: int, y: int, y': int, e: int)
    requires p > 0 && e == d * (x * x) * (y * y) && Eq(p, x * x * (d * y * y + 1), y * y - 1)
    requires Eq(p, y' * (1 - e), y * y + x * x) && !Eq(p, 1 - e, 0)
    ensures Eq(p, y' * (2 - y * y + x * x), y * y + x * x) && !Eq(p, 2 - y * y + x * x, 0)
  {
    hide Eq;
    var z, n := 2 - y * y + x * x, y * y + x * x;
    DoubleCross(d, x, y);
    EqMultiply(p, x * x * (d * y * y + 1), y * y - 1, 1, z, 1 - e);
    EqScale(p, z, 1 - e, y');
    EqTrans(p, y' * z, y' * (1 - e), n);
    if Eq(p, z, 0) {
      EqSym(p, z, 1 - e);
      EqTrans(p, 1 - e, z, 0);
    }
  }

  lemma DoubleCross(d: int, x: int, y: int)
    ensures x * x * (d * y * y + 1) == d * (x * x) * (y * y) + x * x
  {
  }

  /** The doubled point's u-coordinate: 121666 u' (1 - y^2) (d y^2 + 1) = y^2. */
  lemma DoubleU(p: int, d: int, x: int, y: int, y': int, u': int)
    requires Fermat(p) && p > 2_000_000 && Eq(p, 121666 * d, -121665)
    requires Eq(p, x * x * (d * y * y + 1), y * y - 1)
    requires Eq(p, y' * (2 - y * y + x * x), y * y + x * x) && Eq(p, u' * (1 - y'), 1 + y')
    ensures Eq(p, 121666 * (u' * ((1 - y * y) * (d * y * y + 1))), y * y)
  {
    HalfDoubleU(p, x, y, y', u');
    hide *;
    var m, k := 1 - y * y, d * y * y + 1;
    DoubleUIdentities(d, x, y, u');
    EqMultiply(p, u' * m, 1 + x * x, k, u' * (m * k), (1 + x * x) * k);
    EqMultiply(p, x * x * k, y * y - 1, 1, (1 + x * x) * k, (d + 1) * (y * y));
    EqTrans(p, u' * (m * k), (1 + x * x) * k, (d + 1) * (y * y));
    EqCombine(p, u' * (m * k), (d + 1) * (y * y), 121666, 121666 * d, -121665, y * y, 121666 * (u' * (m * k)), y * y);
  }

  lemma DoubleUIdentities(d: int, x: int, y: int, u: int)
    ensures var m, k := 1 - y * y, d * y * y + 1;
            && u * (m * k) - (1 + x * x) * k == k * (u * m - (1 + x * x))
            && (1 + x * x) * k - (d + 1) * (y * y) == x * x * k - (y * y - 1)
            && 121666 * ((d + 1) * (y * y)) - y * y == y * y * (121666 * d - (-121665))
  {
    var m, k := 1 - y * y, d * y * y + 1;
    assert u * (m * k) == k * (u * m);
    assert (1 + x * x) * k == k + x * x * k;
  }

  /** u' (1 - y^2) = 1 + x^2 */
  lemma HalfDoubleU(p: int, x: int, y: int, y': int, u': int)
    requires Fermat(p) && p > 2_000_000
    requires Eq(p, y' * (2 - y * y + x * x), y * y + x * x) && Eq(p, u' * (1 - y'), 1 + y')
    ensures Eq(p, u' * (1 - y * y), 1 + x * x)
  {
    Montgomery.SmallNotZero(p, 2);
    hide *;
    var z, n := 2 - y * y + x * x, y * y + x * x;
    FractionDifference(z, n, y', u');
    HalfIdentities(x, y, u');
    EqCombine(p, u' * (1 - y'), 1 + y', z, y' * z, n, u' + 1, 2 * (u' * (1 - y * y)), 2 * (1 + x * x));
    Cancel(p, 2, u' * (1 - y * y), 1 + x * x);
  }

  lemma HalfIdentities(x: int, y: int, u: int)
    ensures var z, n := 2 - y * y + x * x, y * y + x * x;
            u * (z - n) == 2 * (u * (1 - y * y)) && z + n == 2 * (1 + x * x)
  {
    assert 2 - y * y + x * x - (y * y + x * x) == 2 * (1 - y * y);
  }

  /** (z + n) / (z - n) is (1 + y) / (1 - y) for y = n / z. */
  lemma FractionDifference(z: int, n: int, y: int, u: int)
    ensures u * (z - n) - (z + n) == z * (u * (1 - y) - (1 + y)) + (u + 1) * (y * z - n)
  {
  }

  lemma DoublingLaw(p: int, d: int, y: int, u: int, u': int)
    requires Fermat(p) && Eq(p, 121666 * d, -121665) && Eq(p, u * (1 - y), 1 + y) && !Eq(p, 1 - y, 0)
    requires Eq(p, 121666 * (u' * ((1 - y * y) * (d * y * y + 1))), y * y)
    ensures Eq(p, u' * Montgomery.Denominator(u), (u * u - 1) * (u * u - 1))
  {
    DenominatorOverY(p, d, u, y);
    SquareOverY(p, u, y);
    NotZeroFourth(p, 1 - y);
    hide *;
    var w, den, v := 1 - y, Montgomery.Denominator(u), u * u - 1;
    var k, m := (1 + y) * (d * y * y + 1), u' * ((1 - y * y) * (d * y * y + 1));
    var w4 := (w * w) * (w * w);
    DoublingLeft(u', den, w, k);
    DoublingMiddle(d, y, u');
    SquareRight(v, w, y);
    EqScale(p, den * (w * w * w), 16 * 121666 * k, u' * w);
    EqScale(p, 121666 * m, y * y, 16);
    EqTrans(p, w4 * (u' * den), 16 * (121666 * m), 16 * (y * y));
    EqMul(p, v * (w * w), 4 * y, v * (w * w), 4 * y);
    EqSym(p, w4 * (v * v), 16 * (y * y));
    EqTrans(p, w4 * (u' * den), 16 * (y * y), w4 * (v * v));
    Cancel(p, w4, u' * den, v * v);
  }

  lemma NotZeroFourth(p: int, w: int)
    requires Fermat(p) && !Eq(p, w, 0)
    ensures !Eq(p, (w * w) * (w * w), 0)
  {
    Montgomery.ProductNotZero(p, w, w);
    Montgomery.ProductNotZero(p, w * w, w * w);
  }

  lemma DoublingLeft(u': int, den: int, w: int, k: int)
    ensures ((w * w) * (w * w)) * (u' * den) == u' * w * (den * (w * w * w))
  {
    assert u' * w * (den * (w * w * w)) == (u' * den) * (w * (w * w * w));
  }

  lemma DoublingMiddle(d: int, y: int, u': int)
    ensures var k, m := (1 + y) * (d * y * y + 1), u' * ((1 - y * y) * (d * y * y + 1));
            u' * (1 - y) * (16 * 121666 * k) == 16 * (121666 * m)
  {
    var f := d * y * y + 1;
    assert (1 - y) * ((1 + y) * f) == (1 - y * y) * f;
    assert u' * (1 - y) * (16 * 121666 * ((1 + y) * f)) == 16 * 121666 * (u' * ((1 - y) * ((1 + y) * f)));
  }

  lemma SquareRight(v: int, w: int, y: int)
    ensures (v * (w * w)) * (v * (w * w)) == ((w * w) * (w * w)) * (v * v)
    ensures (4 * y) * (4 * y) == 16 * (y * y)
  {
    Regroup(v, w * w, v, w * w);
  }

  /** Doubling gives the identity exactly when the denominator is zero. */
  lemma DoublingZero(c: Params, a: Point)
    requires Lawful(c) && c.p > 2_000_000 && Eq(c.p, 121666 * c.d, -121665) && c.group.member(a) && a != IDENTITY
    ensures c.group.add(a, a) == IDENTITY <==> Eq(c.p, Montgomery.Denominator(MontgomeryU(c, a)), 0)
  {
    var b := c.group.add(a, a);
    DoubleY(c, a);
    YNotOne(c, a);
    UOverY(c, a);
    DenominatorNotZero(c, a.y);
    IdentityByY(c, a, b);
    var y: int := a.y;
    hide *;
    OneAtMinusOne(c.p, a.x, y, b.y);
    DenominatorZero(c.p, c.d, MontgomeryU(c, a), y);
  }

  lemma IdentityByY(c: Params, a: Point, b: Point)
    requires Lawful(c) && c.group.member(a) && b == c.group.add(a, a)
    ensures b == IDENTITY <==> Eq(c.p, b.y, 1)
  {
    Closed(c.group, a, a);
    if b != IDENTITY {
      YNotOne(c, b);
      if Eq(c.p, b.y, 1) {
        EqReduced(c.p, b.y, 1);
      }
    } else {
      EqRefl(c.p, 1);
    }
  }

  lemma OneAtMinusOne(p: int, x: int, y: int, y': int)
    requires Fermat(p) && p > 2_000_000 && !Eq(p, 1 - y, 0)
    requires Eq(p, y' * (2 - y * y + x * x), y * y + x * x) && !Eq(p, 2 - y * y + x * x, 0)
    ensures Eq(p, y', 1) <==> Eq(p, 1 + y, 0)
  {
    Montgomery.SmallNotZero(p, 2);
    hide *;
    var z, n, m := 2 - y * y + x * x, y * y + x * x, (1 - y) * (1 + y);
    OneIdentities(x, y, y');
    if Eq(p, y', 1) {
      EqCombine(p, y', 1, -z, y' * z, n, 1, 2 * m, 0);
      NoZeroDivisors(p, 2, m);
      NoZeroDivisors(p, 1 - y, 1 + y);
    }
    if Eq(p, 1 + y, 0) {
      EqCombine(p, 1 + y, 0, -(2 * (1 - y)), y' * z, n, 1, z * y', z * 1);
      Cancel(p, z, y', 1);
    }
  }

  lemma OneIdentities(x: int, y: int, y': int)
    ensures var z, n := 2 - y * y + x * x, y * y + x * x;
            && 2 * ((1 - y) * (1 + y)) - 0 == -z * (y' - 1) + 1 * (y' * z - n)
            && z * y' - z * 1 == -(2 * (1 - y)) * (1 + y - 0) + 1 * (y' * z - n)
  {
    var z, n := 2 - y * y + x * x, y * y + x * x;
    assert z - n == 2 * ((1 - y) * (1 + y));
  }

  lemma DenominatorZero(p: int, d: int, u: int, y: int)
    requires Fermat(p) && p > 2_000_000 && Eq(p, u * (1 - y), 1 + y) && Eq(p, 121666 * d, -121665)
    requires !Eq(p, 1 - y, 0) && !Eq(p, d * y * y + 1, 0)
    ensures Eq(p, Montgomery.Denominator(u), 0) <==> Eq(p, 1 + y, 0)
  {
    DenominatorOverY(p, d, u, y);
    Montgomery.SmallNotZero(p, 16 * 121666);
    hide *;
    ZeroTogether(p, Montgomery.Denominator(u), 1 - y, 16 * 121666, 1 + y, d * y * y + 1);
  }

  lemma ZeroTogether(p: int, den: int, w: int, k: int, s: int, f: int)
    requires Fermat(p) && Eq(p, den * (w * w * w), k * (s * f))
    requires !Eq(p, w, 0) && !Eq(p, k, 0) && !Eq(p, f, 0)
    ensures Eq(p, den, 0) <==> Eq(p, s, 0)
  {
    NotZeroCubed(p, w);
    hide *;
    Montgomery.ZeroMoves(p, den * (w * w * w), k * (s * f));
    if Eq(p, den, 0) {
      EqScale(p, den, 0, w * w * w);
      NoZeroDivisors(p, k, s * f);
      NoZeroDivisors(p, s, f);
    }
    if Eq(p, s, 0) {
      EqScale(p, s, 0, f);
      EqScale(p, s * f, 0, k);
      NoZeroDivisors(p, den, w * w * w);
    }
  }

  lemma NotZeroCubed(p: int, w: int)
    requires Fermat(p) && !Eq(p, w, 0)
    ensures !Eq(p, w * w * w, 0)
  {
    Montgomery.ProductNotZero(p, w, w);
    Montgomery.ProductNotZero(p, w * w, w);
  }

  lemma DoublingHolds(c: Params, a: Point)
    requires Lawful(c) && c.p > 2_000_000 && Eq(c.p, 121666 * c.d, -121665)
    ensures Montgomery.DoublingAt(EdwardsLine(c), a)
  {
    GroupOf(c);
    if c.group.member(a) && a != IDENTITY {
      var b := c.group.add(a, a);
      DoublingZero(c, a);
      if b != IDENTITY {
        Closed(c.group, a, a);
        DoublingAtPoint(c, a, b);
      }
    }
  }

  lemma GroupOf(c: Params)
    requires Lawful(c)
    ensures Abelian(c.group) && c.group.zero == IDENTITY && c.p > 2
  {
  }

  lemma DoublingAtPoint(c: Params, a: Point, b: Point)
    requires Lawful(c) && c.p > 2_000_000 && Eq(c.p, 121666 * c.d, -121665)
    requires c.group.member(a) && a != IDENTITY && b == c.group.add(a, a) && c.group.member(b) && b != IDENTITY
    ensures var u := MontgomeryU(c, a);
            Eq(c.p, MontgomeryU(c, b) * Montgomery.Denominator(u), (u * u - 1) * (u * u - 1))
  {
    YNotOne(c, a);
    YNotOne(c, b);
    DoubleY(c, a);
    UOverY(c, a);
    UOverY(c, b);
    var x: int, y: int, y': int := a.x, a.y, b.y;
    hide *;
    DoubleU(c.p, c.d, x, y, y', MontgomeryU(c, b));
    DoublingLaw(c.p, c.d, y, MontgomeryU(c, a), MontgomeryU(c, b));
  }

  // ---- the law of a sum and a difference

  /** The difference's y: y' (1 + e) = y1 y2 - x1 x2. */
  lemma DifferenceY(c: Params, a: Point, b: Point)
    requires Lawful(c) && c.group.member(a) && c.group.member(b)
    ensures var t, e := c.group.add(b, c.group.neg(a)), Cross(c, a, b);
            c.p > 2 && Eq(c.p, t.y * (1 + e), a.y * b.y - a.x * b.x)
  {
    Members(c, a);
    Members(c, b);
    assert OperationsAt(c, a, b);
    OppositeIs(c.p, a.x);
    GroupOf(c);
    Units(c.group, a);
    SumY(c, b, c.group.neg(a));
    hide Lawful, Eq, OnCurve, Abelian, Negated;
    DifferenceYFrom(c.p, c.d, a.x, Negated(c.p, a.x), b.x, a.y, b.y, c.group.add(b, c.group.neg(a)).y);
  }

  lemma DifferenceYFrom(p: int, d: int, x1: int, x1': int, x2: int, y1: int, y2: int, y': int)
    requires p > 0 && Eq(p, x1', -x1)
    requires Eq(p, y' * (1 - d * (x2 * x1') * (y2 * y1)), y2 * y1 + x2 * x1')
    ensures Eq(p, y' * (1 + d * (x1 * x2) * (y1 * y2)), y1 * y2 - x1 * x2)
  {
    hide *;
    DifferenceIdentity(d, x1, x1', x2, y1, y2, y');
    EqCombine(p, y' * (1 - d * (x2 * x1') * (y2 * y1)), y2 * y1 + x2 * x1', 1,
              x1', -x1, y' * (d * x2 * (y1 * y2)) + x2,
              y' * (1 + d * (x1 * x2) * (y1 * y2)), y1 * y2 - x1 * x2);
  }

  lemma DifferenceIdentity(d: int, x1: int, x1': int, x2: int, y1: int, y2: int, y': int)
    ensures y' * (1 + d * (x1 * x2) * (y1 * y2)) - (y1 * y2 - x1 * x2)
            == 1 * (y' * (1 - d * (x2 * x1') * (y2 * y1)) - (y2 * y1 + x2 * x1'))
               + (y' * (d * x2 * (y1 * y2)) + x2) * (x1' - -x1)
  {
    var k := d * x2 * (y1 * y2);
    assert d * (x1 * x2) * (y1 * y2) == k * x1;
    assert d * (x2 * x1') * (y2 * y1) == k * x1';
  }

  /** With P the product of the sum's and the difference's u: P (y1 - y2)^2 = (y1 + y2)^2. */
  lemma ProductOverY(p: int, d: int, x1: int, y1: int, x2: int, y2: int, ys: int, yt: int, us: int, ut: int)
    requires Fermat(p) && Eq(p, x1 * x1 * (d * y1 * y1 + 1), y1 * y1 - 1)
    requires Eq(p, x2 * x2 * (d * y2 * y2 + 1), y2 * y2 - 1)
    requires Eq(p, us * (1 - ys), 1 + ys) && Eq(p, ut * (1 - yt), 1 + yt)
    requires var e, n, m := d * (x1 * x2) * (y1 * y2), y1 * y2, x1 * x2;
             Eq(p, ys * (1 - e), n + m) && Eq(p, yt * (1 + e), n - m)
    requires !Eq(p, (d + 1) * (1 + d * (y1 * y2) * (y1 * y2)), 0)
    ensures Eq(p, us * ut * ((y1 - y2) * (y1 - y2)), (y1 + y2) * (y1 + y2))
  {
    assert p > 0;
    hide *;
    var n, m := y1 * y2, x1 * x2;
    var f, g := Minus(d, n, m), Plus(d, n, m);
    var all, k := (d * y1 * y1 + 1) * (d * y2 * y2 + 1), (d + 1) * (1 + d * n * n);
    var less, more := (y1 - y2) * (y1 - y2), (y1 + y2) * (y1 + y2);
    assert d * m * n == d * (x1 * x2) * (y1 * y2);
    ProductOfFractions(p, d, n, m, ys, yt, us, ut);
    SquaresOfX(p, d, x1, y1, x2, y2);
    Cleared(p, d, y1, y2, m);
    ScaledProduct(p, us * ut, f, g, all, k, less, more);
    Cancel(p, k, us * ut * less, more);
  }

  /** The denominator and the numerator of P, e being d n m. */
  function Minus(d: int, n: int, m: int): (f: int) {
    (1 - n) * (1 - n) - (m * m) * ((d * n + 1) * (d * n + 1))
  }

  function Plus(d: int, n: int, m: int): (g: int) {
    (1 + n) * (1 + n) - (m * m) * ((d * n - 1) * (d * n - 1))
  }

  lemma ProductOfFractions(p: int, d: int, n: int, m: int, ys: int, yt: int, us: int, ut: int)
    requires p > 0 && Eq(p, us * (1 - ys), 1 + ys) && Eq(p, ut * (1 - yt), 1 + yt)
    requires Eq(p, ys * (1 - d * m * n), n + m) && Eq(p, yt * (1 + d * m * n), n - m)
    ensures Eq(p, us * ut * Minus(d, n, m), Plus(d, n, m))
  {
    hide *;
    var e := d * m * n;
    FractionDifference(1 - e, n + m, ys, us);
    FractionDifference(1 + e, n - m, yt, ut);
    var (f1, g1) := (1 - e - (n + m), 1 - e + (n + m));
    var (f2, g2) := (1 + e - (n - m), 1 + e + (n - m));
    EqCombine(p, us * (1 - ys), 1 + ys, 1 - e, ys * (1 - e), n + m, us + 1, us * f1, g1);
    EqCombine(p, ut * (1 - yt), 1 + yt, 1 + e, yt * (1 + e), n - m, ut + 1, ut * f2, g2);
    EqMul(p, us * f1, g1, ut * f2, g2);
    Regroup(us, f1, ut, f2);
    FactorsAre(d, n, m);
  }

  lemma FactorsAre(d: int, n: int, m: int)
    ensures var e := d * m * n;
            && (1 - e - (n + m)) * (1 + e - (n - m)) == Minus(d, n, m)
            && (1 - e + (n + m)) * (1 + e + (n - m)) == Plus(d, n, m)
  {
    var e := d * m * n;
    assert e + m == m * (d * n + 1) && e - m == m * (d * n - 1);
    Regroup(m, d * n + 1, m, d * n + 1);
    Regroup(m, d * n - 1, m, d * n - 1);
    DifferenceOfSquares(1 - n, e + m);
    DifferenceOfSquares(1 + n, e - m);
  }

  lemma DifferenceOfSquares(a: int, b: int)
    ensures (a - b) * (a + b) == a * a - b * b
  {
  }

  /** The square of x1 x2, over the denominators of the two squares. */
  lemma SquaresOfX(p: int, d: int, x1: int, y1: int, x2: int, y2: int)
    requires p > 0 && Eq(p, x1 * x1 * (d * y1 * y1 + 1), y1 * y1 - 1)
    requires Eq(p, x2 * x2 * (d * y2 * y2 + 1), y2 * y2 - 1)
    ensures Eq(p, (x1 * x2) * (x1 * x2) * ((d * y1 * y1 + 1) * (d * y2 * y2 + 1)), (y1 * y1 - 1) * (y2 * y2 - 1))
  {
    hide *;
    var f1, f2 := d * y1 * y1 + 1, d * y2 * y2 + 1;
    EqMul(p, x1 * x1 * f1, y1 * y1 - 1, x2 * x2 * f2, y2 * y2 - 1);
    Regroup(x1 * x1, f1, x2 * x2, f2);
    Regroup(x1, x1, x2, x2);
  }

  /** Over the same denominators the two are multiples of (y1 - y2)^2 and (y1 + y2)^2. */
  lemma Cleared(p: int, d: int, y1: int, y2: int, m: int)
    requires p > 0
    requires Eq(p, m * m * ((d * y1 * y1 + 1) * (d * y2 * y2 + 1)), (y1 * y1 - 1) * (y2 * y2 - 1))
    ensures var n, all := y1 * y2, (d * y1 * y1 + 1) * (d * y2 * y2 + 1);
            var k := (d + 1) * (1 + d * n * n);
            && Eq(p, Minus(d, n, m) * all, k * ((y1 - y2) * (y1 - y2)))
            && Eq(p, Plus(d, n, m) * all, k * ((y1 + y2) * (y1 + y2)))
  {
    var n, all, ones := y1 * y2, (d * y1 * y1 + 1) * (d * y2 * y2 + 1), (y1 * y1 - 1) * (y2 * y2 - 1);
    var k := (d + 1) * (1 + d * n * n);
    ClearedIdentities(d, y1, y2);
    hide Eq;
    var up, down := (d * n + 1) * (d * n + 1), (d * n - 1) * (d * n - 1);
    Clearing(p, m * m, all, ones, (1 - n) * (1 - n), up);
    Clearing(p, m * m, all, ones, (1 + n) * (1 + n), down);
  }

  lemma Clearing(p: int, mm: int, all: int, ones: int, a: int, b: int)
    requires p > 0 && Eq(p, mm * all, ones)
    ensures Eq(p, (a - mm * b) * all, a * all - ones * b)
  {
    hide *;
    assert (a - mm * b) * all - (a * all - ones * b) == -b * (mm * all - ones);
    EqMultiply(p, mm * all, ones, -b, (a - mm * b) * all, a * all - ones * b);
  }

  lemma ClearedIdentities(d: int, y1: int, y2: int)
    ensures var n, all, ones := y1 * y2, (d * y1 * y1 + 1) * (d * y2 * y2 + 1), (y1 * y1 - 1) * (y2 * y2 - 1);
            var k := (d + 1) * (1 + d * n * n);
            && (1 - n) * (1 - n) * all - ones * ((d * n + 1) * (d * n + 1)) == k * ((y1 - y2) * (y1 - y2))
            && (1 + n) * (1 + n) * all - ones * ((d * n - 1) * (d * n - 1)) == k * ((y1 + y2) * (y1 + y2))
  {
    var n := y1 * y2;
    ProductsBySum(d, y1, y2);
    SquaresByN(d, n);
    BySum(d, n * n, y1 * y1 + y2 * y2, 2 * n);
    BySum(d, n * n, y1 * y1 + y2 * y2, -(2 * n));
  }

  lemma ProductsBySum(d: int, y1: int, y2: int)
    ensures var n, s := y1 * y2, y1 * y1 + y2 * y2;
            && (d * y1 * y1 + 1) * (d * y2 * y2 + 1) == d * d * (n * n) + 1 + d * s
            && (y1 * y1 - 1) * (y2 * y2 - 1) == n * n + 1 - s
            && (y1 - y2) * (y1 - y2) == s - 2 * n && (y1 + y2) * (y1 + y2) == s + 2 * n
  {
    Regroup(y1, y1, y2, y2);
    PlusOnes(d, y1 * y1, y2 * y2);
    MinusOnes(y1 * y1, y2 * y2);
    SquaresBySum(y1, y2);
    assert d * y1 * y1 == d * (y1 * y1) && d * y2 * y2 == d * (y2 * y2);
  }

  lemma PlusOnes(d: int, a: int, b: int)
    ensures (d * a + 1) * (d * b + 1) == d * d * (a * b) + 1 + d * (a + b)
  {
    Regroup(d, a, d, b);
  }

  lemma MinusOnes(a: int, b: int)
    ensures (a - 1) * (b - 1) == a * b + 1 - (a + b)
  {
  }

  lemma SquaresBySum(a: int, b: int)
    ensures (a - b) * (a - b) == a * a + b * b - 2 * (a * b) && (a + b) * (a + b) == a * a + b * b + 2 * (a * b)
  {
  }

  lemma SquaresByN(d: int, n: int)
    ensures (1 - n) * (1 - n) == n * n + 1 - 2 * n && (1 + n) * (1 + n) == n * n + 1 + 2 * n
    ensures (d * n + 1) * (d * n + 1) == d * d * (n * n) + 1 + d * (2 * n)
    ensures (d * n - 1) * (d * n - 1) == d * d * (n * n) + 1 - d * (2 * n)
    ensures d * n * n == d * (n * n)
  {
    Regroup(d, n, d, n);
  }

  /** In the sum s of the two squares, the product's square q and twice the product, h. */
  lemma BySum(d: int, q: int, s: int, h: int)
    ensures (q + 1 - h) * (d * d * q + 1 + d * s) - (q + 1 - s) * (d * d * q + 1 + d * h)
            == (d + 1) * (1 + d * q) * (s - h)
  {
    CrossTerms(q + 1, d * d * q + 1, d, s, h);
    Factored(d, q);
  }

  lemma Factored(d: int, q: int)
    ensures d * d * q + 1 + (q + 1) * d == (d + 1) * (1 + d * q)
  {
  }

  lemma CrossTerms(m: int, b: int, d: int, s: int, h: int)
    ensures (m - h) * (b + d * s) - (m - s) * (b + d * h) == (b + m * d) * (s - h)
  {
    assert (m - h) * (b + d * s) == m * b + m * d * s - h * b - h * d * s;
    assert (m - s) * (b + d * h) == m * b + m * d * h - s * b - h * d * s;
  }

  /** P f = g, times what makes f and g multiples of k. */
  lemma ScaledProduct(p: int, product: int, f: int, g: int, all: int, k: int, less: int, more: int)
    requires p > 0 && Eq(p, product * f, g) && Eq(p, f * all, k * less) && Eq(p, g * all, k * more)
    ensures Eq(p, k * (product * less), k * more)
  {
    hide *;
    EqScale(p, product * f, g, all);
    EqTrans(p, product * f * all, g * all, k * more);
    EqScale(p, f * all, k * less, product);
    EqSym(p, product * (f * all), product * (k * less));
    assert product * f * all == product * (f * all) && product * (k * less) == k * (product * less);
    EqTrans(p, k * (product * less), product * (f * all), k * more);
  }

  /** From the y-coordinates back to the u-coordinates. */
  lemma AdditionLaw(p: int, y1: int, y2: int, u: int, v: int, product: int)
    requires Fermat(p) && Eq(p, u * (1 - y1), 1 + y1) && Eq(p, v * (1 - y2), 1 + y2)
    requires !Eq(p, 1 - y1, 0) && !Eq(p, 1 - y2, 0)
    requires Eq(p, product * ((y1 - y2) * (y1 - y2)), (y1 + y2) * (y1 + y2))
    ensures Eq(p, product * ((u - v) * (u - v)), (u * v - 1) * (u * v - 1))
  {
    var w := (1 - y1) * (1 - y2);
    Montgomery.ProductNotZero(p, 1 - y1, 1 - y2);
    Montgomery.ProductNotZero(p, w, w);
    hide *;
    DifferenceOverY(p, y1, y2, u, v);
    ProductOfUOverY(p, y1, y2, u, v);
    Lifted(p, product, u - v, u * v - 1, w, y1 - y2, y1 + y2);
    Cancel(p, w * w, product * ((u - v) * (u - v)), (u * v - 1) * (u * v - 1));
  }

  lemma DifferenceOverY(p: int, y1: int, y2: int, u: int, v: int)
    requires p > 0 && Eq(p, u * (1 - y1), 1 + y1) && Eq(p, v * (1 - y2), 1 + y2)
    ensures Eq(p, (u - v) * ((1 - y1) * (1 - y2)), 2 * (y1 - y2))
  {
    hide *;
    var w1, w2 := 1 - y1, 1 - y2;
    assert (u - v) * (w1 * w2) == w2 * (u * w1) - w1 * (v * w2);
    assert 2 * (y1 - y2) == w2 * (1 + y1) - w1 * (1 + y2);
    EqCombine(p, u * w1, 1 + y1, w2, v * w2, 1 + y2, -w1, (u - v) * (w1 * w2), 2 * (y1 - y2));
  }

  lemma ProductOfUOverY(p: int, y1: int, y2: int, u: int, v: int)
    requires p > 0 && Eq(p, u * (1 - y1), 1 + y1) && Eq(p, v * (1 - y2), 1 + y2)
    ensures Eq(p, (u * v - 1) * ((1 - y1) * (1 - y2)), 2 * (y1 + y2))
  {
    hide *;
    var ww := (1 - y1) * (1 - y2);
    EqMul(p, u * (1 - y1), 1 + y1, v * (1 - y2), 1 + y2);
    ProductIdentities(y1, y2, u, v);
    EqRefl(p, ww);
    EqAdd(p, u * (1 - y1) * (v * (1 - y2)), (1 + y1) * (1 + y2), ww, ww);
  }

  lemma ProductIdentities(y1: int, y2: int, u: int, v: int)
    ensures var ww := (1 - y1) * (1 - y2);
            && (u * v - 1) * ww == u * (1 - y1) * (v * (1 - y2)) - ww
            && 2 * (y1 + y2) == (1 + y1) * (1 + y2) - ww
  {
    var w1, w2 := 1 - y1, 1 - y2;
    Regroup(u, w1, v, w2);
    assert (u * v - 1) * (w1 * w2) == u * v * (w1 * w2) - w1 * w2;
  }

  lemma Lifted(p: int, product: int, a: int, b: int, w: int, less: int, more: int)
    requires p > 0 && Eq(p, a * w, 2 * less) && Eq(p, b * w, 2 * more)
    requires Eq(p, product * (less * less), more * more)
    ensures Eq(p, (w * w) * (product * (a * a)), (w * w) * (b * b))
  {
    hide *;
    EqMul(p, a * w, 2 * less, a * w, 2 * less);
    EqMul(p, b * w, 2 * more, b * w, 2 * more);
    EqScale(p, (a * w) * (a * w), (2 * less) * (2 * less), product);
    EqScale(p, product * (less * less), more * more, 4);
    LiftedIdentities(product, a, b, w, less, more);
    EqTrans(p, (w * w) * (product * (a * a)), 4 * (product * (less * less)), 4 * (more * more));
    EqSym(p, (w * w) * (b * b), 4 * (more * more));
    EqTrans(p, (w * w) * (product * (a * a)), 4 * (more * more), (w * w) * (b * b));
  }

  lemma LiftedIdentities(product: int, a: int, b: int, w: int, less: int, more: int)
    ensures product * ((a * w) * (a * w)) == (w * w) * (product * (a * a))
    ensures product * ((2 * less) * (2 * less)) == 4 * (product * (less * less))
    ensures (b * w) * (b * w) == (w * w) * (b * b) && (2 * more) * (2 * more) == 4 * (more * more)
  {
    Regroup(a, w, a, w);
    Regroup(b, w, b, w);
  }

  lemma FactorNotZero(c: Params, n: int)
    requires Lawful(c) && Eq(c.p, 121666 * c.d, -121665)
    ensures !Eq(c.p, (c.d + 1) * (1 + c.d * n * n), 0)
  {
    Known(c);
    DenominatorNotZero(c, n);
    OneIsNotZero(c.p);
    var p, d := c.p, c.d;
    hide *;
    if Eq(p, d + 1, 0) {
      EqCombine(p, d + 1, 0, 121666, 121666 * d, -121665, -1, 1, 0);
    }
    Montgomery.ProductNotZero(p, d + 1, d * n * n + 1);
  }

  /** Two points other than the identity have one u-coordinate exactly when they are equal or opposite. */
  lemma SameU(c: Params, a: Point, b: Point)
    requires Lawful(c) && c.group.member(a) && c.group.member(b) && a != IDENTITY && b != IDENTITY
    ensures Eq(c.p, MontgomeryU(c, a), MontgomeryU(c, b)) <==> a == b || a == c.group.neg(b)
  {
    YNotOne(c, a);
    YNotOne(c, b);
    DenominatorNotZero(c, a.y);
    NegIs(c, b);
    KeyMapRoundTrip(c, a);
    KeyMapRoundTrip(c, b);
    hide *;
    var u, v := MontgomeryU(c, a), MontgomeryU(c, b);
    if Eq(c.p, u, v) {
      EqReduced(c.p, u, v);
      SameX(c.p, c.d, a, b);
    } else {
      if a.y == b.y {
        UByY(c, a, b);
        EqRefl(c.p, u);
      }
    }
  }

  lemma UByY(c: Params, a: Point, b: Point)
    requires c.p > 2 && a.y == b.y
    ensures MontgomeryU(c, a) == MontgomeryU(c, b)
  {
  }

  lemma NegIs(c: Params, b: Point)
    requires Lawful(c) && c.group.member(b)
    ensures c.p > 2 && c.group.neg(b) == Point(Negated(c.p, b.x), b.y)
  {
    Members(c, b);
    assert OperationsAt(c, b, b);
  }

  lemma SameX(p: int, d: int, a: Point, b: Point)
    requires Fermat(p) && a.x < p && b.x < p && a.y == b.y && !Eq(p, d * a.y * a.y + 1, 0)
    requires Eq(p, a.x * a.x * (d * a.y * a.y + 1), a.y * a.y - 1)
    requires Eq(p, b.x * b.x * (d * b.y * b.y + 1), b.y * b.y - 1)
    ensures a == b || a == Point(Negated(p, b.x), b.y)
  {
    var xa: int, xb: int := a.x, b.x;
    SameSquares(p, xa * xa, xb * xb, d * a.y * a.y + 1, a.y * a.y - 1);
    hide *;
    EqualOrOpposite(p, a.x, b.x);
  }

  lemma SameSquares(p: int, s: int, t: int, f: int, n: int)
    requires Fermat(p) && !Eq(p, f, 0) && Eq(p, s * f, n) && Eq(p, t * f, n)
    ensures Eq(p, s, t)
  {
    assert p > 0;
    hide *;
    EqSym(p, t * f, n);
    EqTrans(p, f * s, n, f * t);
    Cancel(p, f, s, t);
  }

  /** Neither the sum nor the difference of such points is the identity unless their u-coordinates agree. */
  lemma NotIdentity<T(!new)>(g: Group<T>, a: T, b: T)
    requires Abelian(g) && g.member(a) && g.member(b) && a != b && a != g.neg(b)
    ensures g.member(g.add(a, b)) && g.member(g.add(b, g.neg(a)))
    ensures g.add(a, b) != g.zero && g.add(b, g.neg(a)) != g.zero
  {
    Units(g, a);
    Units(g, b);
    Closed(g, a, b);
    Closed(g, b, g.neg(a));
    Closed(g, a, g.neg(a));
    if g.add(a, b) == g.zero {
      CancelLeft(g, b, a, g.neg(b));
    }
    if g.add(b, g.neg(a)) == g.zero {
      CancelLeft(g, g.neg(a), b, a);
    }
  }

  lemma AdditionAtPoints(c: Params, a: Point, b: Point)
    requires Lawful(c) && Eq(c.p, 121666 * c.d, -121665)
    requires c.group.member(a) && c.group.member(b) && a != IDENTITY && b != IDENTITY
    requires a != b && a != c.group.neg(b)
    ensures var u, v, s, t := MontgomeryU(c, a), MontgomeryU(c, b), c.group.add(a, b), c.group.add(b, c.group.neg(a));
            Eq(c.p, MontgomeryU(c, s) * MontgomeryU(c, t) * ((u - v) * (u - v)), (u * v - 1) * (u * v - 1))
  {
    GroupOf(c);
    NotIdentity(c.group, a, b);
    var s, t := c.group.add(a, b), c.group.add(b, c.group.neg(a));
    SumAndDifference(c, a, b, s, t);
    YNotOne(c, a);
    YNotOne(c, b);
    UOverY(c, a);
    UOverY(c, b);
    var y1: int, y2: int := a.y, b.y;
    hide *;
    AdditionLaw(c.p, y1, y2, MontgomeryU(c, a), MontgomeryU(c, b), MontgomeryU(c, s) * MontgomeryU(c, t));
  }

  lemma SumAndDifference(c: Params, a: Point, b: Point, s: Point, t: Point)
    requires Lawful(c) && Eq(c.p, 121666 * c.d, -121665)
    requires c.group.member(a) && c.group.member(b) && a != IDENTITY && b != IDENTITY
    requires s == c.group.add(a, b) && t == c.group.add(b, c.group.neg(a))
    requires c.group.member(s) && c.group.member(t) && s != IDENTITY && t != IDENTITY
    ensures var y1: int, y2: int := a.y, b.y;
            Eq(c.p, MontgomeryU(c, s) * MontgomeryU(c, t) * ((y1 - y2) * (y1 - y2)), (y1 + y2) * (y1 + y2))
  {
    YNotOne(c, a);
    YNotOne(c, b);
    YNotOne(c, s);
    YNotOne(c, t);
    UOverY(c, s);
    UOverY(c, t);
    SumY(c, a, b);
    DifferenceY(c, a, b);
    var x1: int, y1: int, x2: int, y2: int := a.x, a.y, b.x, b.y;
    FactorNotZero(c, y1 * y2);
    hide Eq, Lawful, MontgomeryU, Fermat;
    ProductOverY(c.p, c.d, x1, y1, x2, y2, s.y, t.y, MontgomeryU(c, s), MontgomeryU(c, t));
  }

  lemma AdditionHolds(c: Params, a: Point, b: Point)
    requires Lawful(c) && Eq(c.p, 121666 * c.d, -121665)
    ensures c.p > 2 && Montgomery.AdditionAt(EdwardsLine(c), a, b)
  {
    GroupOf(c);
    if c.group.member(a) && c.group.member(b) && a != IDENTITY && b != IDENTITY {
      SameU(c, a, b);
      if a != b && a != c.group.neg(b) {
        AdditionAtPoints(c, a, b);
      }
    }
  }

  /** With the source's d, the u-coordinates of the curve's points obey the laws of doubling, and of a sum and a
      difference, that the ladder rests on. */
  lemma EdwardsLineIsLawful(c: Params)
    requires Lawful(c) && SourceD(c)
    ensures Montgomery.Lawful(EdwardsLine(c))
  {
    LargePrime(c);
    DValue(c);
    GroupOf(c);
    IdentityU(c);
    hide Lawful, Montgomery.DoublingAt, Montgomery.AdditionAt, MontgomeryU, Eq, Fermat, Abelian, SourceD;
    var l := EdwardsLine(c);
    forall a
      ensures Montgomery.DoublingAt(l, a)
    {
      DoublingHolds(c, a);
    }
    forall a, b
      ensures Montgomery.AdditionAt(l, a, b)
    {
      AdditionHolds(c, a, b);
    }
  }

  lemma LargePrime(c: Params)
    requires Lawful(c)
    ensures c.p > 2_000_000 && Fermat(c.p)
  {
  }

  lemma IdentityU(c: Params)
    requires c.p > 2
    ensures MontgomeryU(c, IDENTITY) == 0
  {
    InvZero(c.p, 0);
  }
}
