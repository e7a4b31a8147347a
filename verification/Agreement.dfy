/** Agreeing with keys of the curve: public keys, symmetry, and keys with a small-order point added. */
module Agreement {
  import opened Results
  import Arithmetic
  import opened Bytes
  import opened Field
  import opened Groups
  import opened Curve
  import opened Birational
  import Clamp
  import Montgomery
  import X25519
  import XEdDSA

  /** A point's key: its u-coordinate in 32 bytes. */
  function KeyOf(c: Params, a: Point): (key: seq<byte>)
    requires c.p > 2
    ensures |key| == 32
  {
    LittleEndian(MontgomeryU(c, a), 32)
  }

  lemma ModuliFit(c: Params)
    requires Lawful(c)
    ensures 2_000_000 < c.p < TOP_BIT && c.q > 0 && c.q % 8 == 5 && TOP_BIT < 8 * c.q && c.group.zero == IDENTITY
    ensures Fermat(c.p) && Prime(c.q) && Abelian(c.group)
  {
    hide Fermat, Abelian, Times, OperationsAt, MemberAt, RootsAt, Prime;
  }

  lemma KeyValue(c: Params, a: Point)
    requires 2 < c.p < TOP_BIT
    ensures FromLittleEndian(KeyOf(c, a)) == MontgomeryU(c, a) == X25519.Masked(KeyOf(c, a))
    ensures Canonical(c, KeyOf(c, a))
  {
    hide MontgomeryU, LittleEndian, FromLittleEndian, Span;
    SpanOf31();
    LittleEndianValue(MontgomeryU(c, a), 32);
  }

  /** A canonical key is 32 bytes, the highest bit clear, of a number below the prime: the bit needs no test. */
  lemma CanonicalMeans(c: Params, key: seq<byte>)
    requires 2 < c.p < TOP_BIT
    ensures Canonical(c, key) <==> |key| == 32 && key[31] < 128 && FromLittleEndian(key) < c.p
  {
    if |key| == 32 {
      var low, top := key[..31], key[31];
      assert key == low + [top];
      FromLittleEndianAppend(low, [top]);
      OneByte(top);
      SpanOf31();
      hide FromLittleEndian, Span;
      if top >= 128 {
        HighBit(Span(31), top);
      }
    }
  }

  lemma HighBit(span: nat, top: nat)
    requires 128 * span == TOP_BIT && top >= 128
    ensures span * top >= TOP_BIT
  {
    Arithmetic.NonNegativeProduct(span, top - 128);
    assert span * (top - 128) == span * top - 128 * span;
  }

  /** Agreeing with a point's key gives the key of the clamped multiple. */
  lemma AgreeWithPoint(c: Params, a: Point, secret: seq<byte>)
    requires Lawful(c) && SourceD(c) && c.group.member(a) && |secret| == 32
    ensures c.p > 2
    ensures X25519.Output(c.p, secret, KeyOf(c, a)) == KeyOf(c, Times(c.group, Clamp.Scalar(secret), a))
  {
    ModuliFit(c);
    EdwardsLineIsLawful(c);
    KeyValue(c, a);
    EqRefl(c.p, MontgomeryU(c, a));
    hide Lawful, Montgomery.Lawful, X25519.Output, X25519.Masked, Times, MontgomeryU, Eq, Fermat, Prime, Abelian;
    Montgomery.OutputIsMultiple(EdwardsLine(c), a, secret, KeyOf(c, a));
  }

  // ---- public keys

  /** A public key is what X25519 gives for the clamped secret and the base point. */
  lemma PublicKeyIsX25519(c: Params, secret: seq<byte>)
    requires Lawful(c) && SourceD(c) && |secret| == 32
    ensures c.p > 2 && c.q > 0
    ensures XEdDSA.PublicKey(c, secret) == X25519.Output(c.p, secret, KeyOf(c, c.base))
  {
    ModuliFit(c);
    XEdDSA.Group(c);
    AgreeWithPoint(c, c.base, secret);
    hide Lawful, X25519.Output, Times, MontgomeryU, Clamp.Scalar, Abelian;
    TimesModulo(c.group, Clamp.Scalar(secret), c.q, c.base);
  }

  /** With the source's base point that is the agreement with the u-coordinate 9 (section 6.1 of RFC 7748). */
  lemma BaseIsNine(c: Params)
    requires Lawful(c) && c.p > 2 && c.base.y == 4 * Inv(c.p, 5) % c.p
    ensures KeyOf(c, c.base) == LittleEndian(9, 32)
  {
    ModuliFit(c);
    XEdDSA.Group(c);
    YNotOne(c, c.base);
    UOverY(c, c.base);
    var p, y: int, u: int, w := c.p, c.base.y, MontgomeryU(c, c.base), Inv(c.p, 5);
    Montgomery.SmallNotZero(p, 5);
    InvWorks(p, 5);
    EqMod(p, 4 * w);
    hide *;
    NineFrom(p, y, u, w);
    EqReduced(p, u, 9);
  }

  lemma NineFrom(p: int, y: int, u: int, w: int)
    requires p > 0 && Eq(p, 5 * w, 1) && Eq(p, y, 4 * w) && Eq(p, u * (1 - y), 1 + y)
    ensures Eq(p, u, 9)
  {
    hide *;
    EqCombine(p, y, 4 * w, 5, 5 * w, 1, 4, 5 * y, 4);
    EqCombine(p, u * (1 - y), 1 + y, 5, 5 * y, 4, u + 1, u, 9);
  }

  /** Two secrets agree: each with the other's public key gives the same. */
  lemma AgreementIsSymmetric(c: Params, a: seq<byte>, b: seq<byte>)
    requires Lawful(c) && SourceD(c) && |a| == 32 && |b| == 32
    ensures c.p > 2 && c.q > 0
    ensures X25519.Output(c.p, a, XEdDSA.PublicKey(c, b)) == X25519.Output(c.p, b, XEdDSA.PublicKey(c, a))
  {
    ModuliFit(c);
    AgreeWithPublicKey(c, a, b);
    AgreeWithPublicKey(c, b, a);
    Reordered(Clamp.Scalar(a), Clamp.Scalar(b));
  }

  lemma Reordered(m: nat, n: nat)
    ensures m * n == n * m
  {
  }

  lemma AgreeWithPublicKey(c: Params, a: seq<byte>, b: seq<byte>)
    requires Lawful(c) && SourceD(c) && |a| == 32 && |b| == 32
    ensures c.p > 2 && c.q > 0
    ensures X25519.Output(c.p, a, XEdDSA.PublicKey(c, b))
            == KeyOf(c, Times(c.group, Clamp.Scalar(a) * Clamp.Scalar(b), c.base))
  {
    ModuliFit(c);
    XEdDSA.Group(c);
    var g, m, n := c.group, Clamp.Scalar(a), Clamp.Scalar(b);
    hide Lawful, X25519.Output, Times, MontgomeryU, Clamp.Scalar, Abelian, Prime, Fermat;
    TimesModulo(g, n, c.q, c.base);
    TimesMember(g, n, c.base);
    TimesProduct(g, m, n, c.base);
    AgreeWithPoint(c, Times(g, n, c.base), a);
  }

  /** Agreeing with a public key always contributes. */
  lemma PublicKeyContributes(c: Params, secret: seq<byte>)
    requires Lawful(c) && SourceD(c) && |secret| == 32
    ensures c.p > 2 && c.q > 0
    ensures X25519.Contributory(c.p, XEdDSA.PublicKey(c, secret))
  {
    ModuliFit(c);
    EdwardsLineIsLawful(c);
    var l, key, a := EdwardsLine(c), XEdDSA.PublicKey(c, secret), XEdDSA.PublicPoint(c, secret);
    KeyOfPublicPoint(c, secret);
    hide *;
    Montgomery.ContributoryForEverySecret(l, c.q, a, secret, key);
  }

  lemma KeyOfPublicPoint(c: Params, secret: seq<byte>)
    requires Lawful(c) && |secret| == 32
    ensures c.p > 2 && c.q > 0
    ensures var l, a, key := EdwardsLine(c), XEdDSA.PublicPoint(c, secret), XEdDSA.PublicKey(c, secret);
            && l.p == c.p && l.p < TOP_BIT && Montgomery.CofactorEight(l, c.q, a)
            && Eq(l.p, X25519.Masked(key), l.u(a)) && Times(l.group, 8, a) != l.group.zero
  {
    hide Lawful, Times, XEdDSA.PublicPoint, MontgomeryU, X25519.Masked, Eq, Abelian, Fermat, Prime;
    ModuliFit(c);
    PublicPointOrder(c, secret);
    KeyValue(c, XEdDSA.PublicPoint(c, secret));
    EqRefl(c.p, MontgomeryU(c, XEdDSA.PublicPoint(c, secret)));
  }

  /** A public point is not of small order, and the base point's order kills it. */
  lemma PublicPointOrder(c: Params, secret: seq<byte>)
    requires Lawful(c) && |secret| == 32
    ensures c.q > 0 && var a := XEdDSA.PublicPoint(c, secret);
            && c.group.member(a) && Times(c.group, 8, a) != IDENTITY && Times(c.group, 8 * c.q, a) == IDENTITY
  {
    hide Lawful, Times, Abelian, Prime, Fermat, XEdDSA.SecretScalar;
    ModuliFit(c);
    var g, k := c.group, XEdDSA.SecretScalar(c, secret);
    XEdDSA.SecretScalarNotZero(c, secret);
    SmallMultiple(k, c.q);
    XEdDSA.BaseMultiple(c, k);
    KilledByOrder(c, Times(g, k, c.base), k);
  }

  lemma SmallMultiple(k: nat, q: nat)
    requires 0 < k < q
    ensures k % q != 0
  {
  }

  lemma KilledByOrder(c: Params, a: Point, k: nat)
    requires Lawful(c) && a == Times(c.group, k, c.base) && c.group.member(a)
    ensures Times(c.group, 8 * c.q, a) == IDENTITY
  {
    XEdDSA.OrderKills(c, k);
    XEdDSA.Group(c);
    hide *;
    TimesProduct(c.group, 8, c.q, a);
    TimesOfZero(c.group, 8);
  }

  // ---- keys and the points they are lifted to

  /** A point lifted from a u-coordinate is on the curve, is not the identity and has that u-coordinate. */
  lemma LiftedPoint(c: Params, u: nat)
    requires Lawful(c) && u < c.p && c.p > 2 && Lift(c, u).Some?
    ensures var a := Lift(c, u).value; c.group.member(a) && a != IDENTITY && MontgomeryU(c, a) == u
  {
    var a := Lift(c, u).value;
    RecoverXOnCurve(c, a.y, 0);
    PointOfU(c, u, a);
  }

  /** So has every point of the curve with the y that goes with it. */
  lemma PointOfU(c: Params, u: nat, a: Point)
    requires Lawful(c) && c.p > 2 && u < c.p - 1 && c.group.member(a) && a.y == EdwardsY(c, u)
    ensures a != IDENTITY && MontgomeryU(c, a) == u
  {
    ModuliFit(c);
    YOverU(c, u);
    OneOverU(c.p, u, a.y);
    UOverY(c, a);
    hide *;
    SameUFrom(c.p, u, a.y, MontgomeryU(c, a));
    EqReduced(c.p, MontgomeryU(c, a), u);
  }

  lemma SameUFrom(p: int, u: int, y: int, u': int)
    requires Fermat(p) && p > 2_000_000 && Eq(p, y * (u + 1), u - 1) && Eq(p, u' * (1 - y), 1 + y)
    ensures Eq(p, u', u)
  {
    Montgomery.SmallNotZero(p, 2);
    hide *;
    FractionDifference(u + 1, u - 1, y, u');
    EqCombine(p, u' * (1 - y), 1 + y, u + 1, y * (u + 1), u - 1, u' + 1, 2 * u', 2 * u);
    Cancel(p, 2, u', u);
  }

  /** y (u + 1) = u - 1 */
  lemma YOverU(c: Params, u: nat)
    requires Fermat(c.p) && u < c.p && u != c.p - 1
    ensures Eq(c.p, EdwardsY(c, u) * (u + 1), u - 1)
  {
    var p, w := c.p, Inv(c.p, u + 1);
    if Eq(p, u + 1, 0) {
      EqReduced(p, u + 1, 0);
    }
    InvWorks(p, u + 1);
    EqMod(p, (u - 1) * w);
    Quotient(p, EdwardsY(c, u), u - 1, u + 1, w);
  }

  lemma OneOverU(p: int, u: int, y: int)
    requires p > 2_000_000 && Eq(p, y * (u + 1), u - 1)
    ensures y != 1
  {
    Montgomery.SmallNotZero(p, 2);
  }

  lemma KilledAlike<T(!new)>(g: Group<T>, n: nat, a: T)
    requires Abelian(g) && g.member(a)
    ensures g.member(g.neg(a)) && (Times(g, n, g.neg(a)) == g.zero <==> Times(g, n, a) == g.zero)
  {
    Units(g, a);
    TimesOfSum(g, n, a, g.neg(a));
    TimesOfZero(g, n);
    TimesMember(g, n, a);
    TimesMember(g, n, g.neg(a));
    Units(g, Times(g, n, a));
    Units(g, Times(g, n, g.neg(a)));
  }

  /** A point's key is an identity key exactly when the base point's order kills the point. */
  lemma IdentityKeyOf(c: Params, a: Point)
    requires Lawful(c) && c.group.member(a) && a != IDENTITY
    ensures c.p > 2 && c.q > 0 && (IsIdentityKey(c, KeyOf(c, a)) <==> Times(c.group, c.q, a) == IDENTITY)
  {
    ModuliFit(c);
    KeyValue(c, a);
    YNotOne(c, a);
    KeyMapRoundTrip(c, a);
    RecoverXFinds(c, a, 0);
    NegIs(c, a);
    KilledAlike(c.group, c.q, a);
    hide Lawful, MontgomeryU, EdwardsY, RecoverX, Times, Negated, Abelian, Prime, Fermat, Eq;
    hide FromLittleEndian, LittleEndian;
  }

  // ---- adding a point of small order

  /** The key of the sum of the points that two keys are lifted to. */
  function PlusTorsion(c: Params, key: seq<byte>, torsion: seq<byte>): (out: Option<seq<byte>>)
    requires c.p > 2
  {
    var a, t := Lift(c, FromLittleEndian(key)), Lift(c, FromLittleEndian(torsion));
    if a.None? || t.None? then None else Some(KeyOf(c, c.group.add(a.value, t.value)))
  }

  /** A key with a point of order dividing 8 added is canonical and agrees with the key under every secret; and if the
      key is an identity key, it is none. */
  lemma PlusTorsionAgrees(c: Params, key: seq<byte>, torsion: seq<byte>, secret: seq<byte>)
    requires Lawful(c) && SourceD(c) && |secret| == 32 && Canonical(c, key) && Canonical(c, torsion)
    requires c.p > 2 && c.q > 0 && PlusTorsion(c, key, torsion).Some?
    requires SmallOrder(c, Lift(c, FromLittleEndian(torsion)).value)
    ensures var out := PlusTorsion(c, key, torsion).value;
            && Canonical(c, out)
            && X25519.Output(c.p, secret, out) == X25519.Output(c.p, secret, key)
            && (IsIdentityKey(c, key) ==> !IsIdentityKey(c, out))
  {
    ModuliFit(c);
    EdwardsLineIsLawful(c);
    var u, v := FromLittleEndian(key), FromLittleEndian(torsion);
    var a, t := Lift(c, u).value, Lift(c, v).value;
    LiftedPoint(c, u);
    LiftedPoint(c, v);
    KeyValue(c, c.group.add(a, t));
    MaskedCanonical(c, key);
    EqRefl(c.p, u);
    EqRefl(c.p, MontgomeryU(c, c.group.add(a, t)));
    hide Lawful, Montgomery.Lawful, SourceD, Lift, MontgomeryU, KeyOf, X25519.Output, X25519.Masked, Eq, Abelian, Prime;
    hide FromLittleEndian, Times, Fermat;
    Montgomery.TorsionAgrees(EdwardsLine(c), a, t, secret, key, KeyOf(c, c.group.add(a, t)));
    if IsIdentityKey(c, key) {
      NotKilled(c, a, t);
      IdentityKeyOf(c, c.group.add(a, t));
    }
  }

  lemma MaskedCanonical(c: Params, key: seq<byte>)
    requires Canonical(c, key) && c.p < TOP_BIT
    ensures X25519.Masked(key) == FromLittleEndian(key)
  {
    hide FromLittleEndian;
  }

  lemma NotKilled(c: Params, a: Point, t: Point)
    requires Lawful(c) && c.group.member(a) && c.group.member(t) && t != IDENTITY
    requires Times(c.group, c.q, a) == IDENTITY && SmallOrder(c, t)
    ensures var s := c.group.add(a, t); c.group.member(s) && s != IDENTITY && Times(c.group, c.q, s) != IDENTITY
  {
    ModuliFit(c);
    hide Lawful, Prime, Fermat, Times;
    var g := c.group;
    Closed(g, a, t);
    TimesOfSum(g, c.q, a, t);
    TimesMember(g, c.q, t);
    Units(g, Times(g, c.q, t));
    TimesOfZero(g, c.q);
    if Times(g, c.q, t) == IDENTITY {
      XEdDSA.CoprimeToEight(g, c.q, t);
    }
  }
}
