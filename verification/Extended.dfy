/** Extended coordinates: the source's `add` and `mul`, which never divide, and the points they stand for. */
module Extended {
  import opened Arithmetic
  import opened Field
  import opened Groups
  import opened Curve

  datatype Extended = Extended(x: nat, y: nat, z: nat, t: nat)

  const IDENT := Extended(0, 1, 1, 0)

  function Add(c: Params, a: Extended, b: Extended): (r: Extended)
    requires c.p > 2
  {
    var aa := (a.y - a.x) * (b.y - b.x) % c.p;
    var bb := (a.y + a.x) * (b.y + b.x) % c.p;
    var cc := a.t * 2 * c.d * b.t % c.p;
    var dd := a.z * 2 * b.z % c.p;
    var e, f, g, h := bb - aa, dd - cc, dd + cc, bb + aa;
    Extended(e * f % c.p, g * h % c.p, f * g % c.p, e * h % c.p)
  }

  function Neg(c: Params, a: Extended): (r: Extended)
    requires c.p > 2
  {
    a.(x := Negated(c.p, a.x), t := Negated(c.p, a.t))
  }

  function Affine(c: Params, a: Extended): (r: Point)
    requires c.p > 2
  {
    var zi := Inv(c.p, a.z);
    Point(a.x * zi % c.p, a.y * zi % c.p)
  }

  function FromPoint(c: Params, a: Point): (r: Extended)
    requires c.p > 2
  {
    Extended(a.x, a.y, 1, a.x * a.y % c.p)
  }

  /** `e` stands for the point (x, y): X = x Z, Y = y Z, T = x y Z, and Z is not zero. */
  ghost predicate StandsFor(p: int, e: Extended, x: int, y: int)
    requires p > 0
  {
    !Eq(p, e.z, 0) && Eq(p, e.x, x * e.z) && Eq(p, e.y, y * e.z) && Eq(p, e.t, x * y * e.z)
  }

  lemma PointStands(c: Params, a: Point)
    requires Fermat(c.p)
    ensures StandsFor(c.p, FromPoint(c, a), a.x, a.y)
  {
    EqMod(c.p, a.x * a.y);
    EqRefl(c.p, a.x);
    EqRefl(c.p, a.y);
    if Eq(c.p, 1, 0) {
      EqReduced(c.p, 1, 0);
    }
  }

  /** Dividing by Z gives the point back. */
  lemma AffineOf(c: Params, e: Extended, a: Point)
    requires Fermat(c.p) && a.x < c.p && a.y < c.p && StandsFor(c.p, e, a.x, a.y)
    ensures Affine(c, e) == a
  {
    var p := c.p;
    var w := Inv(p, e.z);
    EqZero(p, e.z);
    InvWorks(p, e.z);
    Divided(p, e.x, a.x, e.z, w);
    Divided(p, e.y, a.y, e.z, w);
  }

  lemma Divided(p: int, n: nat, x: nat, z: nat, w: nat)
    requires p > 0 && x < p && Eq(p, n, x * z) && Eq(p, z * w, 1)
    ensures n * w % p == x
  {
    EqScale(p, n, x * z, w);
    EqScale(p, z * w, 1, x);
    EqMod(p, n * w);
    assert x * z * w == x * (z * w);
    EqTrans(p, n * w, x * (z * w), x);
    EqTrans(p, n * w % p, n * w, x);
    EqReduced(p, n * w % p, x);
  }

  // ---- the sum

  /** A product of two differences or sums of coordinates, over the common denominator z. */
  lemma ProductStands(p: int, u: int, v: int, a: int, b: int, z1: int, z2: int)
    requires p > 0 && Eq(p, u, a * z1) && Eq(p, v, b * z2)
    ensures Eq(p, u * v % p, a * b * (z1 * z2))
  {
    EqMul(p, u, a * z1, v, b * z2);
    EqMod(p, u * v);
    hide Eq;
    Regroup(a, z1, b, z2);
    EqTrans(p, u * v % p, u * v, a * b * (z1 * z2));
  }

  /** The four quantities of the addition, over z = z1 z2: bb and aa hold the coordinate products,
      dd and cc the two parts of the denominators. */
  lemma Quantities(c: Params, a: Extended, b: Extended, pa: Point, pb: Point)
    requires c.p > 2 && StandsFor(c.p, a, pa.x, pa.y) && StandsFor(c.p, b, pb.x, pb.y)
    ensures var z := a.z * b.z;
            && Eq(c.p, (a.y - a.x) * (b.y - b.x) % c.p, (pa.y - pa.x) * (pb.y - pb.x) * z)
            && Eq(c.p, (a.y + a.x) * (b.y + b.x) % c.p, (pa.y + pa.x) * (pb.y + pb.x) * z)
            && Eq(c.p, a.t * 2 * c.d * b.t % c.p, 2 * Cross(c, pa, pb) * z)
            && Eq(c.p, a.z * 2 * b.z % c.p, 2 * z)
  {
    var p := c.p;
    hide Eq;
    EqAdd(p, a.y, pa.y * a.z, a.x, pa.x * a.z);
    EqAdd(p, b.y, pb.y * b.z, b.x, pb.x * b.z);
    Distribute(pa.y, pa.x, a.z);
    Distribute(pb.y, pb.x, b.z);
    ProductStands(p, a.y - a.x, b.y - b.x, pa.y - pa.x, pb.y - pb.x, a.z, b.z);
    ProductStands(p, a.y + a.x, b.y + b.x, pa.y + pa.x, pb.y + pb.x, a.z, b.z);
    EqScale(p, a.t, pa.x * pa.y * a.z, 2 * c.d);
    assert a.t * (2 * c.d) == a.t * 2 * c.d;
    Twice(c.d, pa.x * pa.y, a.z);
    ProductStands(p, a.t * 2 * c.d, b.t, 2 * c.d * (pa.x * pa.y), pb.x * pb.y, a.z, b.z);
    CrossProduct(c, pa, pb);
    EqMod(p, a.z * 2 * b.z);
    assert a.z * 2 * b.z == 2 * (a.z * b.z);
  }

  lemma Distribute(a: int, b: int, z: int)
    ensures a * z - b * z == (a - b) * z && a * z + b * z == (a + b) * z
  {
  }

  lemma Twice(d: int, xy: int, z: int)
    ensures xy * z * (2 * d) == 2 * d * xy * z
  {
  }

  lemma CrossProduct(c: Params, a: Point, b: Point)
    ensures 2 * c.d * (a.x * a.y) * (b.x * b.y) == 2 * Cross(c, a, b)
  {
    assert (a.x * a.y) * (b.x * b.y) == (a.x * b.x) * (a.y * b.y);
  }

  /** e, f, g and h over z. */
  lemma Combined(c: Params, aa: int, bb: int, cc: int, dd: int, a: Point, b: Point, z: int)
    requires c.p > 2
    requires Eq(c.p, aa, (a.y - a.x) * (b.y - b.x) * z) && Eq(c.p, bb, (a.y + a.x) * (b.y + b.x) * z)
    requires Eq(c.p, cc, 2 * Cross(c, a, b) * z) && Eq(c.p, dd, 2 * z)
    ensures Eq(c.p, bb - aa, (a.x * b.y + b.x * a.y) * (2 * z))
    ensures Eq(c.p, bb + aa, (a.y * b.y + a.x * b.x) * (2 * z))
    ensures Eq(c.p, dd - cc, (1 - Cross(c, a, b)) * (2 * z))
    ensures Eq(c.p, dd + cc, (1 + Cross(c, a, b)) * (2 * z))
  {
    EqAdd(c.p, bb, (a.y + a.x) * (b.y + b.x) * z, aa, (a.y - a.x) * (b.y - b.x) * z);
    EqAdd(c.p, dd, 2 * z, cc, 2 * Cross(c, a, b) * z);
    hide Eq, Cross;
    Products(a.x, a.y, b.x, b.y, z);
    var k := Cross(c, a, b);
    assert 2 * z - 2 * k * z == (1 - k) * (2 * z) && 2 * z + 2 * k * z == (1 + k) * (2 * z);
  }

  lemma Products(x1: int, y1: int, x2: int, y2: int, z: int)
    ensures (y1 + x1) * (y2 + x2) * z - (y1 - x1) * (y2 - x2) * z == (x1 * y2 + x2 * y1) * (2 * z)
    ensures (y1 + x1) * (y2 + x2) * z + (y1 - x1) * (y2 - x2) * z == (y1 * y2 + x1 * x2) * (2 * z)
  {
    assert (y1 + x1) * (y2 + x2) - (y1 - x1) * (y2 - x2) == 2 * (x1 * y2 + x2 * y1);
    assert (y1 + x1) * (y2 + x2) + (y1 - x1) * (y2 - x2) == 2 * (y1 * y2 + x1 * x2);
    Distribute((y1 + x1) * (y2 + x2), (y1 - x1) * (y2 - x2), z);
    assert 2 * (x1 * y2 + x2 * y1) * z == (x1 * y2 + x2 * y1) * (2 * z);
    assert 2 * (y1 * y2 + x1 * x2) * z == (y1 * y2 + x1 * x2) * (2 * z);
  }

  /** (n w) (s m) = n s when (s / m)'s part s is m's partner: with s w = 1, n m is (n w) times s m. */
  lemma Fraction(p: int, n: int, w: int, s: int, m: int)
    requires p > 0 && Eq(p, s * w, 1)
    ensures Eq(p, n * m, n * w * (s * m))
  {
    EqScale(p, s * w, 1, n * m);
    assert n * m * (s * w) == n * w * (s * m);
    EqSym(p, n * w * (s * m), n * m);
  }

  /** X3 = x3 Z3, Y3 = y3 Z3 and T3 = x3 y3 Z3, for e = n1 m, h = n2 m, g = s m and f = t m over m = 2z. */
  lemma Assembled(p: int, e: int, f: int, g: int, h: int, n1: int, n2: int, s: int, t: int, m: int,
                  w1: int, w2: int, x3: int, y3: int)
    requires p > 0 && Eq(p, e, n1 * m) && Eq(p, h, n2 * m) && Eq(p, g, s * m) && Eq(p, f, t * m)
    requires Eq(p, s * w1, 1) && Eq(p, t * w2, 1) && Eq(p, x3, n1 * w1) && Eq(p, y3, n2 * w2)
    ensures Eq(p, e, x3 * g) && Eq(p, h, y3 * f)
  {
    hide Eq;
    Fraction(p, n1, w1, s, m);
    Fraction(p, n2, w2, t, m);
    EqMul(p, x3, n1 * w1, g, s * m);
    EqMul(p, y3, n2 * w2, f, t * m);
    EqTrans(p, e, n1 * m, n1 * w1 * (s * m));
    EqTrans(p, h, n2 * m, n2 * w2 * (t * m));
    EqSym(p, x3 * g, n1 * w1 * (s * m));
    EqSym(p, y3 * f, n2 * w2 * (t * m));
    EqTrans(p, e, n1 * w1 * (s * m), x3 * g);
    EqTrans(p, h, n2 * w2 * (t * m), y3 * f);
  }

  /** The coordinates e f, g h, f g, e h stand for (x3, y3) when e = x3 g and h = y3 f. */
  lemma Outputs(p: int, e: int, f: int, g: int, h: int, x3: int, y3: int)
    requires Fermat(p) && Eq(p, e, x3 * g) && Eq(p, h, y3 * f) && !Eq(p, f, 0) && !Eq(p, g, 0)
    ensures StandsFor(p, Extended(e * f % p, g * h % p, f * g % p, e * h % p), x3, y3)
  {
    EqScale(p, e, x3 * g, f);
    EqScale(p, h, y3 * f, g);
    EqMul(p, e, x3 * g, h, y3 * f);
    assert x3 * g * f == x3 * (f * g) && g * (y3 * f) == y3 * (f * g);
    Regroup(x3, g, y3, f);
    assert x3 * y3 * (g * f) == x3 * y3 * (f * g);
    Reduced(p, e * f, x3, f * g);
    Reduced(p, g * h, y3, f * g);
    Reduced(p, e * h, x3 * y3, f * g);
    NotZero(p, f, g);
  }

  lemma NotZero(p: int, f: int, g: int)
    requires Fermat(p) && !Eq(p, f, 0) && !Eq(p, g, 0)
    ensures !Eq(p, f * g % p, 0)
  {
    EqMod(p, f * g);
    if Eq(p, f * g % p, 0) {
      EqTrans(p, f * g, f * g % p, 0);
      NoZeroDivisors(p, f, g);
    }
  }

  lemma Reduced(p: int, n: int, x: int, m: int)
    requires p > 0 && Eq(p, n, x * m)
    ensures Eq(p, n % p, x * (m % p))
  {
    EqMod(p, n);
    EqMod(p, m);
    hide Eq;
    EqScale(p, m, m % p, x);
    EqTrans(p, n % p, n, x * m);
    EqTrans(p, n % p, x * m, x * (m % p));
  }

  /** The addition's formulas compute the Edwards sum. */
  lemma AddStands(c: Params, a: Extended, b: Extended, pa: Point, pb: Point)
    requires Fermat(c.p) && StandsFor(c.p, a, pa.x, pa.y) && StandsFor(c.p, b, pb.x, pb.y)
    requires !Eq(c.p, 1 + Cross(c, pa, pb), 0) && !Eq(c.p, 1 - Cross(c, pa, pb), 0)
    ensures var s := Sum(c, pa, pb); StandsFor(c.p, Add(c, a, b), s.x, s.y)
  {
    var p := c.p;
    var aa := (a.y - a.x) * (b.y - b.x) % p;
    var bb := (a.y + a.x) * (b.y + b.x) % p;
    var cc := a.t * 2 * c.d * b.t % p;
    var dd := a.z * 2 * b.z % p;
    var z := a.z * b.z;
    Quantities(c, a, b, pa, pb);
    Combined(c, aa, bb, cc, dd, pa, pb, z);
    var k := Cross(c, pa, pb);
    var n1, n2 := pa.x * pb.y + pb.x * pa.y, pa.y * pb.y + pa.x * pb.x;
    var w1, w2 := Inv(p, 1 + k), Inv(p, 1 - k);
    EqZero(p, 1 + k);
    EqZero(p, 1 - k);
    InvWorks(p, 1 + k);
    InvWorks(p, 1 - k);
    var s := Sum(c, pa, pb);
    EqMod(p, n1 * w1);
    EqMod(p, n2 * w2);
    Assembled(p, bb - aa, dd - cc, dd + cc, bb + aa, n1, n2, 1 + k, 1 - k, 2 * z, w1, w2, s.x, s.y);
    Denominators(p, a.z, b.z, k, dd - cc, dd + cc);
    Outputs(p, bb - aa, dd - cc, dd + cc, bb + aa, s.x, s.y);
  }

  lemma Denominators(p: int, z1: int, z2: int, k: int, f: int, g: int)
    requires Fermat(p) && !Eq(p, z1, 0) && !Eq(p, z2, 0) && !Eq(p, 1 + k, 0) && !Eq(p, 1 - k, 0)
    requires Eq(p, f, (1 - k) * (2 * (z1 * z2))) && Eq(p, g, (1 + k) * (2 * (z1 * z2)))
    ensures !Eq(p, f, 0) && !Eq(p, g, 0)
  {
    if Eq(p, 2, 0) {
      EqReduced(p, 2, 0);
    }
    if Eq(p, z1 * z2, 0) {
      NoZeroDivisors(p, z1, z2);
    }
    var m := 2 * (z1 * z2);
    if Eq(p, m, 0) {
      NoZeroDivisors(p, 2, z1 * z2);
    }
    FactorNotZero(p, f, 1 - k, m);
    FactorNotZero(p, g, 1 + k, m);
  }

  lemma FactorNotZero(p: int, f: int, s: int, m: int)
    requires Fermat(p) && Eq(p, f, s * m) && !Eq(p, s, 0) && !Eq(p, m, 0)
    ensures !Eq(p, f, 0)
  {
    if Eq(p, f, 0) {
      EqSym(p, f, s * m);
      EqTrans(p, s * m, f, 0);
      NoZeroDivisors(p, s, m);
    }
  }

  /** On the curve, the addition stands for the group's. */
  lemma AddIsGroupAdd(c: Params, a: Extended, b: Extended, pa: Point, pb: Point)
    requires Lawful(c) && c.group.member(pa) && c.group.member(pb)
    requires StandsFor(c.p, a, pa.x, pa.y) && StandsFor(c.p, b, pb.x, pb.y)
    ensures var s := c.group.add(pa, pb); c.group.member(s) && StandsFor(c.p, Add(c, a, b), s.x, s.y)
  {
    Known(c);
    Members(c, pa);
    Members(c, pb);
    assert OperationsAt(c, pa, pb);
    Closed(c.group, pa, pb);
    hide Lawful, Sum, Cross, OnCurve;
    AddStands(c, a, b, pa, pb);
  }

  /** The opposite of x z is the opposite of x, times z. */
  lemma NegatedProduct(p: int, n: int, x: int, z: int)
    requires p > 0 && Eq(p, n, x * z)
    ensures Eq(p, Negated(p, n), Negated(p, x) * z)
  {
    hide Eq;
    EqMod(p, -n);
    EqRefl(p, 0);
    EqAdd(p, 0, 0, n, x * z);
    EqTrans(p, Negated(p, n), -n, -(x * z));
    EqMod(p, -x);
    EqScale(p, Negated(p, x), -x, z);
    assert -(x * z) == -x * z;
    EqSym(p, Negated(p, x) * z, -x * z);
    EqTrans(p, Negated(p, n), -x * z, Negated(p, x) * z);
  }

  /** ... so the opposite of coordinates stands for the opposite point. */
  lemma NegStands(c: Params, e: Extended, a: Point)
    requires c.p > 2 && StandsFor(c.p, e, a.x, a.y)
    ensures var n := Opposite(c, a); StandsFor(c.p, Neg(c, e), n.x, n.y)
  {
    hide Eq, Negated;
    NegatedProduct(c.p, e.x, a.x, e.z);
    Grouped(a.x, a.y, e.z);
    NegatedProduct(c.p, e.t, a.x, a.y * e.z);
    Grouped(Negated(c.p, a.x), a.y, e.z);
  }

  lemma Grouped(x: int, y: int, z: int)
    ensures x * (y * z) == x * y * z
  {
  }

  /** `mul`: double and add on extended coordinates, standing for the multiple of the point. */
  method Mul(c: Params, k: nat, e: Extended, ghost a: Point) returns (r: Extended)
    requires Lawful(c) && c.group.member(a) && StandsFor(c.p, e, a.x, a.y)
    ensures var s := Times(c.group, k, a); StandsFor(c.p, r, s.x, s.y) && Affine(c, r) == s
  {
    hide Lawful, StandsFor, Add, Affine, FromPoint;
    Start(c);
    r := IDENT;
    var k', pt := k, e;
    ghost var g := c.group;
    ghost var acc, dbl := IDENTITY, a;
    TimesMember(g, k, a);
    Units(g, Times(g, k, a));
    while k' > 0
      invariant g.member(acc) && g.member(dbl)
      invariant StandsFor(c.p, r, acc.x, acc.y) && StandsFor(c.p, pt, dbl.x, dbl.y)
      invariant g.add(acc, Times(g, k', dbl)) == Times(g, k, a)
    {
      HalfStep(g, k', acc, dbl);
      if k' % 2 == 1 {
        AddIsGroupAdd(c, r, pt, acc, dbl);
        r := Add(c, r, pt);
        acc := g.add(acc, dbl);
      }
      AddIsGroupAdd(c, pt, pt, dbl, dbl);
      pt := Add(c, pt, pt);
      dbl := g.add(dbl, dbl);
      k' := k' / 2;
    }
    Units(g, acc);
    Back(c, r, acc);
  }

  lemma Start(c: Params)
    requires Lawful(c)
    ensures c.p > 8 && Abelian(c.group) && c.group.zero == IDENTITY && c.group.member(IDENTITY)
    ensures StandsFor(c.p, IDENT, 0, 1)
  {
    Known(c);
    PointStands(c, IDENTITY);
  }

  lemma Back(c: Params, e: Extended, a: Point)
    requires Lawful(c) && c.group.member(a) && StandsFor(c.p, e, a.x, a.y)
    ensures Affine(c, e) == a
  {
    Known(c);
    Members(c, a);
    AffineOf(c, e, a);
  }

  /** One step of double and add: the bit moves its multiple into the accumulator. */
  lemma HalfStep<T(!new)>(g: Group<T>, k: nat, acc: T, dbl: T)
    requires Abelian(g) && g.member(acc) && g.member(dbl) && k > 0
    ensures g.member(g.add(dbl, dbl))
    ensures g.add(acc, Times(g, k, dbl)) ==
            g.add(if k % 2 == 1 then g.add(acc, dbl) else acc, Times(g, k / 2, g.add(dbl, dbl)))
  {
    TimesProduct(g, k / 2, 2, dbl);
    TimesSum(g, 1, 1, dbl);
    TimesOne(g, dbl);
    TimesSum(g, k % 2, k / 2 * 2, dbl);
    Closed(g, dbl, dbl);
    TimesMember(g, k / 2, g.add(dbl, dbl));
    assert k == k % 2 + k / 2 * 2;
    if k % 2 == 1 {
      Associative(g, acc, dbl, Times(g, k / 2, g.add(dbl, dbl)));
    } else {
      Units(g, Times(g, k / 2, g.add(dbl, dbl)));
    }
  }
}
