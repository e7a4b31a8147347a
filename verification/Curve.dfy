/** A twisted Edwards curve such as edwards25519: its points, and the maps between points, coordinates and bytes. */
module Curve {
  import opened Results
  import opened Arithmetic
  import opened Bytes
  import opened Field
  import opened Groups

  datatype Point = Point(x: nat, y: nat)

  /** The field's prime, the order of the base point, a root of -1, the curve's d, the base point, and the
      operations on points. */
  datatype Params = Params(p: int, q: int, sqrtM1: int, d: int, base: Point, group: Group<Point>)

  /** The sizes of the two primes, and how they lie modulo 8. */
  predicate Sizes(c: Params) {
    && c.p % 8 == 5 && TOP_BIT < 2 * c.p && c.p < TOP_BIT
    && c.q % 8 == 5 && TOP_BIT < 8 * c.q && 4 * c.q < TOP_BIT
  }

  /** The source's P and Q. */
  lemma SourceConstants(c: Params)
    requires c.p == 0x7fffffff_ffffffff_ffffffff_ffffffff_ffffffff_ffffffff_ffffffff_ffffffed
    requires c.q == 0x10000000_00000000_00000000_00000000_14def9de_a2f79cd6_5812631a_5cf5d3ed
    ensures Sizes(c)
  {
  }

  /** `(-x) % P` */
  function Negated(p: int, x: int): (r: nat)
    requires p > 0
  {
    -x % p
  }

  predicate OnCurve(c: Params, a: Point) {
    && 0 <= a.x < c.p && 0 <= a.y < c.p
    && Eq(c.p, a.x * a.x * (c.d * a.y * a.y + 1), a.y * a.y - 1)
  }

  /** The quantity the denominators of the Edwards sum are one plus and one minus. */
  function Cross(c: Params, a: Point, b: Point): (r: int) {
    c.d * (a.x * b.x) * (a.y * b.y)
  }

  function Sum(c: Params, a: Point, b: Point): (r: Point)
    requires c.p > 2
  {
    Point(
      (a.x * b.y + b.x * a.y) * Inv(c.p, 1 + Cross(c, a, b)) % c.p,
      (a.y * b.y + a.x * b.x) * Inv(c.p, 1 - Cross(c, a, b)) % c.p)
  }

  function Opposite(c: Params, a: Point): (r: Point)
    requires c.p > 2
  {
    Point(Negated(c.p, a.x), a.y)
  }

  const IDENTITY := Point(0, 1)

  // What is assumed of the operations, a pair of points at a time: addition is the Edwards sum, whose
  // denominators are never zero on the curve, and the opposite of a point has the opposite x.

  ghost predicate OperationsAt(c: Params, a: Point, b: Point)
    requires c.p > 2
  {
    OnCurve(c, a) && OnCurve(c, b) ==>
      && !Eq(c.p, 1 + Cross(c, a, b), 0) && !Eq(c.p, 1 - Cross(c, a, b), 0)
      && c.group.add(a, b) == Sum(c, a, b)
      && c.group.neg(a) == Opposite(c, a)
  }

  ghost predicate MemberAt(c: Params, a: Point) {
    c.group.member(a) <==> OnCurve(c, a)
  }

  /** No number squares to d, and the source's SQRT_M1 squares to -1. */
  ghost predicate RootsAt(c: Params, t: int)
    requires c.p > 2
  {
    !Eq(c.p, t * t, c.d) && (t == c.sqrtM1 ==> Eq(c.p, t * t, -1))
  }

  /** What is known of edwards25519 and not proved here: p and q are prime, -1 has a root and d has none,
      the Edwards sum is a complete group law, and the base point has order q. */
  ghost predicate Lawful(c: Params) {
    && Sizes(c)
    && Fermat(c.p)
    && Prime(c.q)
    && (forall t :: RootsAt(c, t))
    && (forall a, b :: OperationsAt(c, a, b))
    && (forall a :: MemberAt(c, a))
    && Abelian(c.group) && c.group.zero == IDENTITY
    && c.group.member(c.base) && c.base != IDENTITY
    && Times(c.group, c.q, c.base) == IDENTITY
  }

  // ---- bytes and coordinates

  /** 32 bytes holding a number below 2^255 and, in the top bit, a sign. */
  function Pack(n: nat, sign: nat): (s: seq<byte>)
    ensures |s| == 32
  {
    LittleEndian(n + sign * TOP_BIT, 32)
  }

  function EncodePoint(a: Point): (s: seq<byte>)
    ensures |s| == 32
  {
    Pack(a.y, a.x % 2)
  }

  /** (y^2 - 1) / (d y^2 + 1), the square of the x that goes with y. */
  function XSquared(c: Params, y: int): (r: nat)
    requires c.p > 2
    ensures r < c.p
  {
    (y * y - 1) % c.p * Inv(c.p, (c.d * y * y + 1) % c.p) % c.p
  }

  /** The first of the two candidates for its root that is one. */
  function RootOf(c: Params, x2: int): (r: nat)
    requires c.p > 2
    ensures r < c.p
  {
    var x := Pow(x2, (c.p + 3) / 8) % c.p;
    if Eq(c.p, x * x, x2) then x else x * c.sqrtM1 % c.p
  }

  /** The x of the given low bit that goes with y, if there is one. */
  function RecoverX(c: Params, y: int, sign: int): (r: Option<nat>)
    requires c.p > 2
    ensures r.Some? ==> r.value < c.p
  {
    var x2 := XSquared(c, y);
    var x := RootOf(c, x2);
    if !Eq(c.p, x * x, x2) then None
    else Some(if x % 2 != sign then Negated(c.p, x) else x)
  }

  function MontgomeryU(c: Params, a: Point): (u: nat)
    requires c.p > 2
    ensures u < c.p
  {
    (1 + a.y) * Inv(c.p, 1 - a.y) % c.p
  }

  /** The y-coordinate whose Montgomery u-coordinate is `u`. */
  function EdwardsY(c: Params, u: int): (y: nat)
    requires c.p > 2
    ensures y < c.p
  {
    (u - 1) * Inv(c.p, u + 1) % c.p
  }

  function Lift(c: Params, u: int): (r: Option<Point>)
    requires c.p > 2
  {
    if u == c.p - 1 then None else
    var y := EdwardsY(c, u);
    match RecoverX(c, y, 0)
    case None => None
    case Some(x) => Some(Point(x, y))
  }

  predicate SmallOrder(c: Params, a: Point)
  {
    Times(c.group, 8, a) == IDENTITY
  }

  predicate Canonical(c: Params, key: seq<byte>) {
    |key| == 32 && FromLittleEndian(key) < c.p
  }

  predicate IsIdentityKey(c: Params, key: seq<byte>)
    requires c.p > 2 && c.q > 0
  {
    Canonical(c, key) &&
    match Lift(c, FromLittleEndian(key))
    case None => false
    case Some(a) => Times(c.group, c.q, a) == IDENTITY
  }

  // ---- what the maps do

  /** With w the inverse of 1 - y and u = (1 + y) w: u + 1 = 2w and u - 1 = y (u + 1). */
  lemma KeyMapAlgebra(p: int, y: int, w: int, u: int)
    requires p > 0 && Eq(p, (1 - y) * w, 1) && Eq(p, u, (1 + y) * w)
    ensures Eq(p, u + 1, 2 * w) && Eq(p, u - 1, y * (u + 1))
  {
    hide Eq;
    EqSym(p, (1 - y) * w, 1);
    EqAdd(p, u, (1 + y) * w, 1, (1 - y) * w);
    assert (1 + y) * w + (1 - y) * w == 2 * w;
    assert (1 + y) * w - (1 - y) * w == y * (2 * w);
    EqScale(p, u + 1, 2 * w, y);
    EqSym(p, y * (u + 1), y * (2 * w));
    EqTrans(p, u - 1, y * (2 * w), y * (u + 1));
  }

  /** 2w is not zero when w has an inverse. */
  lemma TwiceUnit(p: int, z: int, w: int)
    requires Fermat(p) && Eq(p, z * w, 1)
    ensures !Eq(p, 2 * w, 0)
  {
    if Eq(p, 2 * w, 0) {
      EqScale(p, 2 * w, 0, z);
      EqScale(p, z * w, 1, 2);
      TwiceUnitSteps(p, z, w);
      EqReduced(p, 2, 0);
    }
  }

  lemma TwiceUnitSteps(p: int, z: int, w: int)
    requires p > 0 && Eq(p, z * (2 * w), 0) && Eq(p, 2 * (z * w), 2)
    ensures Eq(p, 2, 0)
  {
    hide Eq;
    assert z * (2 * w) == 2 * (z * w);
    EqSym(p, 2 * (z * w), 2);
    EqTrans(p, 2, 2 * (z * w), 0);
  }

  /** (u - 1) v = y (u + 1) v = y */
  lemma KeyMapBack(p: int, y: int, u: int, v: int)
    requires p > 0 && Eq(p, u - 1, y * (u + 1)) && Eq(p, (u + 1) * v, 1)
    ensures Eq(p, (u - 1) * v, y)
  {
    hide Eq;
    EqScale(p, u - 1, y * (u + 1), v);
    EqScale(p, (u + 1) * v, 1, y);
    assert y * (u + 1) * v == y * ((u + 1) * v);
    EqTrans(p, (u - 1) * v, y * ((u + 1) * v), y);
  }

  /** The key map is undone: a point's u-coordinate gives its y-coordinate back. */
  lemma KeyMapRoundTrip(c: Params, a: Point)
    requires Fermat(c.p) && 0 <= a.y < c.p && a.y != 1
    ensures MontgomeryU(c, a) != c.p - 1 && EdwardsY(c, MontgomeryU(c, a)) == a.y
  {
    var p, y: int, u := c.p, a.y, MontgomeryU(c, a);
    var w := Inv(p, 1 - y);
    OneMinus(p, y);
    InvWorks(p, 1 - y);
    EqMod(p, (1 + y) * w);
    KeyMapAlgebra(p, y, w, u);
    TwiceUnit(p, 1 - y, w);
    if Eq(p, u + 1, 0) {
      EqSym(p, u + 1, 2 * w);
      EqTrans(p, 2 * w, u + 1, 0);
    }
    MinusOne(p, u);
    var v := Inv(p, u + 1);
    InvWorks(p, u + 1);
    KeyMapBack(p, y, u, v);
    EqMod(p, (u - 1) * v);
    EqTrans(p, EdwardsY(c, u), (u - 1) * v, y);
    EqReduced(p, EdwardsY(c, u), y);
  }

  lemma OneMinus(p: int, y: int)
    requires p > 2 && 0 <= y < p && y != 1
    ensures (1 - y) % p != 0
  {
    if Eq(p, 1, y) {
      EqReduced(p, 1, y);
    }
  }

  lemma MinusOne(p: int, u: int)
    requires p > 2 && (u + 1) % p != 0
    ensures u != p - 1
  {
  }

  lemma OppositeIs(p: int, x: int)
    requires p > 0 && 0 <= x < p
    ensures Negated(p, x) == if x == 0 then 0 else p - x
    ensures Eq(p, Negated(p, x), -x)
  {
    EqMod(p, -x);
    if x != 0 {
      EqFrom(p, p - x, -x, 1);
      EqSym(p, p - x, -x);
      EqTrans(p, Negated(p, x), -x, p - x);
      EqReduced(p, Negated(p, x), p - x);
    }
  }

  /** A field element and its opposite differ in the low bit, unless they are zero; their squares agree. */
  lemma OppositeParity(p: int, x: int)
    requires p > 0 && p % 2 == 1 && 0 <= x < p
    ensures Negated(p, x) == if x == 0 then 0 else p - x
    ensures x != 0 ==> Negated(p, x) % 2 == 1 - x % 2
    ensures Eq(p, Negated(p, x), -x) && Eq(p, Negated(p, x) * Negated(p, x), x * x)
  {
    hide Eq, Negated;
    OppositeIs(p, x);
    var n := Negated(p, x);
    EqMul(p, n, -x, n, -x);
    SquareOfOpposite(x);
    OtherParity(p, x);
  }

  lemma SquareOfOpposite(x: int)
    ensures (-x) * (-x) == x * x
  {
  }

  lemma OtherParity(p: int, x: int)
    requires p % 2 == 1
    ensures (p - x) % 2 == 1 - x % 2
  {
  }

  lemma Known(c: Params)
    requires Lawful(c)
    ensures Fermat(c.p) && c.p > 8 && c.p % 2 == 1 && Eq(c.p, c.sqrtM1 * c.sqrtM1, -1)
  {
    hide Sizes;
    assert RootsAt(c, c.sqrtM1);
  }

  lemma Members(c: Params, a: Point)
    requires Lawful(c)
    ensures c.group.member(a) <==> OnCurve(c, a)
  {
    assert MemberAt(c, a);
  }

  lemma NotASquare(c: Params, t: int)
    requires Lawful(c)
    ensures !Eq(c.p, t * t, c.d)
  {
    assert RootsAt(c, t);
  }

  /** With w the inverse of y: y^2 (i w)^2 = i^2 = -1 = y^2 d, when d y^2 + 1 = 0. */
  lemma SquareRootOfD(p: int, d: int, i: int, y: int, w: int)
    requires p > 0 && Eq(p, i * i, -1) && Eq(p, y * w, 1) && Eq(p, d * y * y + 1, 0)
    ensures Eq(p, (y * y) * ((i * w) * (i * w)), (y * y) * d)
  {
    hide Eq;
    EqMul(p, y * w, 1, y * w, 1);
    EqMul(p, i * i, -1, (y * w) * (y * w), 1);
    assert (y * y) * ((i * w) * (i * w)) == (i * i) * ((y * w) * (y * w));
    EqRefl(p, 1);
    EqAdd(p, d * y * y + 1, 0, 1, 1);
    assert (y * y) * d == d * y * y + 1 - 1;
    EqSym(p, (y * y) * d, -1);
    EqTrans(p, (y * y) * ((i * w) * (i * w)), -1, (y * y) * d);
  }

  lemma YIsNotZero(p: int, d: int, y: int)
    requires Fermat(p) && Eq(p, d * y * y + 1, 0)
    ensures !Eq(p, y, 0) && !Eq(p, y * y, 0)
  {
    if Eq(p, y * y, 0) {
      NoZeroDivisors(p, y, y);
    }
    if Eq(p, y, 0) {
      EqScale(p, y, 0, d * y);
      EqAdd(p, d * y * y + 1, 0, d * y * y, 0);
      OneIsNotZero(p);
    }
  }

  /** d y^2 + 1 is never zero: it would make d a square. */
  lemma DenominatorNotZero(c: Params, y: int)
    requires Lawful(c)
    ensures !Eq(c.p, c.d * y * y + 1, 0)
  {
    Known(c);
    hide Lawful;
    var p := c.p;
    if Eq(p, c.d * y * y + 1, 0) {
      YIsNotZero(p, c.d, y);
      EqZero(p, y);
      var w := Inv(p, y);
      InvWorks(p, y);
      SquareRootOfD(p, c.d, c.sqrtM1, y, w);
      Cancel(p, y * y, (c.sqrtM1 * w) * (c.sqrtM1 * w), c.d);
      NotASquare(c, c.sqrtM1 * w);
    }
  }

  lemma OneIsNotZero(p: int)
    requires Fermat(p)
    ensures !Eq(p, 1, 0)
  {
    if Eq(p, 1, 0) {
      EqReduced(p, 1, 0);
    }
  }

  /** a = num * w exactly when a * den = num, for w the inverse of den. */
  lemma Quotient(p: int, a: int, num: int, den: int, w: int)
    requires p > 0 && Eq(p, den * w, 1)
    ensures Eq(p, a, num * w) <==> Eq(p, a * den, num)
  {
    hide Eq;
    EqScale(p, den * w, 1, num);
    EqScale(p, den * w, 1, a);
    EqSym(p, a * (den * w), a);
    assert num * w * den == num * (den * w);
    assert a * den * w == a * (den * w);
    if Eq(p, a, num * w) {
      EqScale(p, a, num * w, den);
      EqTrans(p, a * den, num * w * den, num);
    }
    if Eq(p, a * den, num) {
      EqScale(p, a * den, num, w);
      EqTrans(p, a, a * den * w, num * w);
    }
  }

  /** num * inv(den), each reduced, is num * w for an inverse w of den. */
  lemma ReducedQuotient(p: int, num: int, den: int)
    requires Fermat(p) && !Eq(p, den, 0)
    ensures var w := Inv(p, den % p);
            Eq(p, den * w, 1) && Eq(p, num % p * w % p, num * w) && Eq(p, num * w, num % p * w % p)
  {
    EqMod(p, num);
    EqMod(p, den);
    EqZero(p, den);
    assert !Eq(p, den % p, 0) by {
      if Eq(p, den % p, 0) {
        EqTrans(p, den, den % p, 0);
      }
    }
    EqZero(p, den % p);
    var w := Inv(p, den % p);
    InvWorks(p, den % p);
    EqMod(p, num % p * w);
    ReplaceReduced(p, num, num % p, den, den % p, w, num % p * w % p);
  }

  lemma ReplaceReduced(p: int, num: int, num': int, den: int, den': int, w: int, r: int)
    requires p > 0 && Eq(p, num, num') && Eq(p, den, den') && Eq(p, den' * w, 1) && Eq(p, num' * w, r)
    ensures Eq(p, den * w, 1) && Eq(p, r, num * w) && Eq(p, num * w, r)
  {
    hide Eq;
    EqScale(p, den, den', w);
    EqTrans(p, den * w, den' * w, 1);
    EqScale(p, num, num', w);
    EqTrans(p, num * w, num' * w, r);
    EqSym(p, num * w, r);
  }

  /** The squares that go with y are those the curve equation asks for. */
  lemma XSquaredIsIt(c: Params, x: int, y: int)
    requires Lawful(c)
    ensures Eq(c.p, x * x, XSquared(c, y)) <==> Eq(c.p, x * x * (c.d * y * y + 1), y * y - 1)
  {
    Known(c);
    DenominatorNotZero(c, y);
    var num, den := y * y - 1, c.d * y * y + 1;
    var w := Inv(c.p, den % c.p);
    ReducedQuotient(c.p, num, den);
    Quotient(c.p, x * x, num, den, w);
    hide Eq, Fermat, Lawful, Inv;
    if Eq(c.p, x * x, XSquared(c, y)) {
      EqTrans(c.p, x * x, XSquared(c, y), num * w);
    }
    if Eq(c.p, x * x, num * w) {
      EqTrans(c.p, x * x, num * w, XSquared(c, y));
    }
  }

  /** A number with a square root is the square of `RootOf`. */
  lemma RootOfSquares(c: Params, r: int, s: int)
    requires Lawful(c) && Eq(c.p, r * r, s)
    ensures Eq(c.p, RootOf(c, s) * RootOf(c, s), s)
  {
    Known(c);
    hide Eq, Fermat, Lawful, Pow;
    var p := c.p;
    CandidateRoot(p, r, s);
    var x := Pow(s, (p + 3) / 8) % p;
    if !Eq(p, x * x, s) {
      OtherRoot(p, x, c.sqrtM1, s);
    }
  }

  /** (x i)^2 = (x^2) (i^2) = (-s) (-1) */
  lemma OtherRoot(p: int, x: int, i: int, s: int)
    requires p > 0 && Eq(p, x * x, -s) && Eq(p, i * i, -1)
    ensures Eq(p, (x * i % p) * (x * i % p), s)
  {
    EqMod(p, x * i);
    var n := x * i % p;
    hide Eq;
    EqMul(p, n, x * i, n, x * i);
    assert (x * i) * (x * i) == (x * x) * (i * i);
    EqMul(p, x * x, -s, i * i, -1);
    EqTrans(p, n * n, (x * i) * (x * i), s);
  }

  /** The root found for a point's y is the point's x or its opposite. */
  lemma RootOfPoint(c: Params, a: Point)
    requires Lawful(c) && c.group.member(a)
    ensures var s := XSquared(c, a.y); var x := RootOf(c, s);
            a.x < c.p && Eq(c.p, x * x, s) && (x == a.x || x == Negated(c.p, a.x))
  {
    Known(c);
    Members(c, a);
    var p := c.p;
    var s := XSquared(c, a.y);
    var x := RootOf(c, s);
    XSquaredIsIt(c, a.x, a.y);
    hide Eq, Fermat, Lawful, OnCurve, XSquared, RootOf;
    RootOfSquares(c, a.x, s);
    EqSym(p, a.x * a.x, s);
    EqTrans(p, x * x, s, a.x * a.x);
    EqualOrOpposite(p, x, a.x);
  }

  lemma EqualOrOpposite(p: int, x: nat, y: nat)
    requires Fermat(p) && x < p && y < p && Eq(p, x * x, y * y)
    ensures x == y || x == Negated(p, y)
  {
    RootsAreOpposite(p, x, y);
    OppositeIs(p, y);
    if Eq(p, x, y) {
      EqReduced(p, x, y);
    } else {
      EqSym(p, Negated(p, y), 0 - y);
      EqTrans(p, x, 0 - y, Negated(p, y));
      EqReduced(p, x, Negated(p, y));
    }
  }

  /** Of two opposite numbers, the one of the parity asked for is found from either. */
  lemma PickParity(p: int, x: nat, y: nat, sign: int)
    requires p > 0 && p % 2 == 1 && x < p && y < p && (x == y || x == Negated(p, y)) && (sign == 0 || sign == 1)
    ensures (if x % 2 != sign then Negated(p, x) else x) == (if y % 2 == sign || y == 0 then y else Negated(p, y))
  {
    OppositeIs(p, x);
    OppositeIs(p, y);
  }

  /** `RecoverX` finds the x of every point of the curve, of the parity asked for when there are two. */
  lemma RecoverXFinds(c: Params, a: Point, sign: int)
    requires Lawful(c) && c.group.member(a) && (sign == 0 || sign == 1)
    ensures RecoverX(c, a.y, sign) == Some(if a.x % 2 == sign || a.x == 0 then a.x else Negated(c.p, a.x))
  {
    Known(c);
    hide Eq, Fermat, Lawful, XSquared, RootOf, Negated;
    RootOfPoint(c, a);
    PickParity(c.p, RootOf(c, XSquared(c, a.y)), a.x, sign);
  }

  /** ... and finds nothing that is not on the curve. */
  lemma RecoverXOnCurve(c: Params, y: nat, sign: int)
    requires Lawful(c) && y < c.p && RecoverX(c, y, sign).Some?
    ensures c.group.member(Point(RecoverX(c, y, sign).value, y))
  {
    Known(c);
    Members(c, Point(RecoverX(c, y, sign).value, y));
    var p := c.p;
    var s := XSquared(c, y);
    var x := RootOf(c, s);
    var r := RecoverX(c, y, sign).value;
    OppositeParity(p, x);
    hide Eq, Fermat, Lawful;
    if r != x {
      EqTrans(p, r * r, x * x, s);
    }
    XSquaredIsIt(c, r, y);
  }

  /** A point of the curve with y = 1 is the identity. */
  lemma OnlyIdentityAtOne(c: Params, a: Point)
    requires Lawful(c) && c.group.member(a) && a.y == 1
    ensures a == IDENTITY
  {
    Known(c);
    Members(c, a);
    DenominatorNotZero(c, a.y);
    var p := c.p;
    hide Eq, Fermat, Lawful;
    NoZeroDivisors(p, a.x * a.x, c.d * a.y * a.y + 1);
    NoZeroDivisors(p, a.x, a.x);
    EqReduced(p, a.x, 0);
  }

  lemma PackValue(n: nat, sign: nat)
    requires n < TOP_BIT && sign <= 1
    ensures FromLittleEndian(Pack(n, sign)) == n + sign * TOP_BIT
  {
    SpanOf31();
    hide LittleEndian, FromLittleEndian, Span;
    LittleEndianValue(n + sign * TOP_BIT, 32);
  }

  lemma PackInjective(n: nat, sign: nat, m: nat, sign': nat)
    requires n < TOP_BIT && sign <= 1 && m < TOP_BIT && sign' <= 1 && Pack(n, sign) == Pack(m, sign')
    ensures n == m && sign == sign'
  {
    PackValue(n, sign);
    PackValue(m, sign');
  }

  /** The top byte of a packed number carries the sign; without it the bytes are those of the number alone. */
  lemma PackBytes(n: nat, sign: nat)
    requires n < TOP_BIT && sign <= 1
    ensures var s := Pack(n, sign); s[31] / 128 == sign && s[..31] + [s[31] % 128] == Pack(n, 0)
  {
    SpanOf31();
    hide Span, LittleEndian;
    var m := n + sign * TOP_BIT;
    LittleEndianLast(m, 31);
    LittleEndianLast(n, 31);
    LittleEndianLow(n, 128 * sign, 31);
    SignSpan(Span(31), sign);
    TopByte(n, Span(31));
    LastOf(LittleEndian(n, 31), m / Span(31) % 256, n / Span(31) % 256);
  }

  lemma SignSpan(span: nat, sign: nat)
    requires sign <= 1
    ensures span * (128 * sign) == sign * (128 * span)
    ensures sign * (128 * span) == if sign == 0 then 0 else 128 * span
  {
  }

  lemma LastOf(low: seq<byte>, b: byte, b': byte)
    requires |low| == 31
    ensures (low + [b])[31] == b && (low + [b])[..31] + [b'] == low + [b']
  {
  }

  lemma TopByte(n: nat, span: nat)
    requires span > 0 && n < 128 * span
    ensures n / span % 256 == n / span < 128
    ensures (n + 128 * span) / span % 256 == n / span + 128
  {
    QuotientBelow(n, span, 128);
    QuotientMore(n, span, 128);
  }

  lemma QuotientMore(n: nat, span: nat, k: nat)
    requires span > 0
    ensures (n + k * span) / span == n / span + k
  {
    var q, r := n / span, n % span;
    assert span * (q + k) == span * q + k * span;
    QuotientIs(n + k * span, span, q + k, r);
  }

  lemma QuotientBelow(n: nat, span: nat, bound: nat)
    requires span > 0 && n < bound * span
    ensures n / span < bound
  {
    var q := n / span;
    MultipleIsLarge(span, q - bound + 1);
    assert span * (q - bound + 1) == span * q - bound * span + span;
  }

  lemma EncodedCoordinates(a: Point, b: Point)
    requires a.y < TOP_BIT && b.y < TOP_BIT && EncodePoint(a) == EncodePoint(b)
    ensures a.y == b.y && a.x % 2 == b.x % 2
  {
    PackInjective(a.y, a.x % 2, b.y, b.x % 2);
  }

  /** The encoding is injective on points of the curve. */
  lemma EncodePointInjective(c: Params, a: Point, b: Point)
    requires Lawful(c) && c.group.member(a) && c.group.member(b) && EncodePoint(a) == EncodePoint(b)
    ensures a == b
  {
    assert c.p < TOP_BIT;
    Members(c, a);
    Members(c, b);
    EncodedCoordinates(a, b);
    hide Lawful, EncodePoint;
    RecoverXFinds(c, a, a.x % 2);
    RecoverXFinds(c, b, a.x % 2);
  }
}
