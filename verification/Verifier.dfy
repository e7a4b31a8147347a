/** The verifier as the source runs it: on extended coordinates, dividing only to encode. */
module Verifier {
  import opened Results
  import opened Bytes
  import opened Curve
  import opened Extended
  import Groups
  import X = XEdDSA

  /** 8 times a point is the identity. */
  method IsSmallOrder(c: Params, e: Extended, ghost a: Point) returns (small: bool)
    requires Lawful(c) && c.group.member(a) && StandsFor(c.p, e, a.x, a.y)
    ensures small <==> SmallOrder(c, a)
  {
    hide Lawful, StandsFor;
    Bound(c);
    var r := Mul(c, 8, e, a);
    small := Affine(c, r) == IDENTITY;
  }

  lemma Bound(c: Params)
    requires Lawful(c)
    ensures c.p > 2 && c.q > 0 && c.group.member(c.base)
  {
  }

  /** sB - hA, and the coordinates that stand for it. */
  method CheckPoint(c: Params, s: nat, h: nat, pt: Extended, ghost a: Point) returns (check: Extended)
    requires Lawful(c) && c.group.member(a) && StandsFor(c.p, pt, a.x, a.y)
    ensures var g := c.group; var r := g.add(Groups.Times(g, s, c.base), g.neg(Groups.Times(g, h, a)));
            g.member(r) && StandsFor(c.p, check, r.x, r.y)
  {
    hide Lawful, StandsFor;
    Bound(c);
    BaseStands(c);
    var sB := Mul(c, s, FromPoint(c, c.base), c.base);
    var hA := Mul(c, h, pt, a);
    ghost var g := c.group;
    Multiples(c, s, c.base);
    Multiples(c, h, a);
    OppositeMultiple(c, hA, Groups.Times(g, h, a));
    AddIsGroupAdd(c, sB, Neg(c, hA), Groups.Times(g, s, c.base), g.neg(Groups.Times(g, h, a)));
    check := Add(c, sB, Neg(c, hA));
  }

  lemma OppositeMultiple(c: Params, e: Extended, a: Point)
    requires Lawful(c) && c.group.member(a) && StandsFor(c.p, e, a.x, a.y)
    ensures c.p > 2 && var n := c.group.neg(a); c.group.member(n) && StandsFor(c.p, Neg(c, e), n.x, n.y)
  {
    hide StandsFor, Neg, Lawful;
    Bound(c);
    X.NegIsOpposite(c, a);
    X.Group(c);
    Groups.Units(c.group, a);
    NegStands(c, e, a);
  }

  lemma BaseStands(c: Params)
    requires Lawful(c)
    ensures c.p > 2 && StandsFor(c.p, FromPoint(c, c.base), c.base.x, c.base.y)
  {
    hide StandsFor, FromPoint;
    Known(c);
    PointStands(c, c.base);
  }

  lemma Multiples(c: Params, k: nat, a: Point)
    requires Lawful(c) && c.group.member(a)
    ensures c.group.member(Groups.Times(c.group, k, a))
  {
    Groups.TimesMember(c.group, k, a);
  }

  /** The steps of verification on coordinates decide what they decide on points. */
  method Verify(c: Params, sha512: X.Hash, key: seq<byte>, message: seq<byte>, sig: seq<byte>) returns (ok: bool)
    requires Lawful(c)
    ensures ok <==> X.Verify(c, sha512, key, message, sig)
  {
    hide Lawful, StandsFor, Add, Neg, Affine, FromPoint, EdwardsY, RecoverX, EncodePoint, SmallOrder, X.Reduce,
         FromLittleEndian;
    Bound(c);
    if |key| != 32 || |sig| != 64 {
      return false;
    }
    var u := FromLittleEndian(key);
    if u / TOP_BIT % 2 == 1 || u >= c.p || u == c.p - 1 {
      return false;
    }
    var y := EdwardsY(c, u);
    var x := RecoverX(c, y, sig[63] / 128);
    if x.None? {
      return false;
    }
    var a := Point(x.value, y);
    var pt := FromPoint(c, a);
    Selected(c, y, sig[63] / 128);
    var small := IsSmallOrder(c, pt, a);
    if small {
      return false;
    }
    var s := FromLittleEndian(sig[32..]) % TOP_BIT;
    if s >= c.q {
      return false;
    }
    var bigR := sig[..32];
    Back(c, pt, a);
    var h := X.Reduce(c, sha512, bigR + EncodePoint(Affine(c, pt)) + message);
    var check := CheckPoint(c, s, h, pt, a);
    ghost var point := X.Check(c, sha512, a, bigR, s, message);
    Back(c, check, point);
    if EncodePoint(Affine(c, check)) != bigR {
      return false;
    }
    small := IsSmallOrder(c, check, point);
    return !small;
  }

  lemma Selected(c: Params, y: nat, sign: nat)
    requires Lawful(c) && y < c.p && c.p > 2 && RecoverX(c, y, sign).Some?
    ensures var a := Point(RecoverX(c, y, sign).value, y);
            c.group.member(a) && StandsFor(c.p, FromPoint(c, a), a.x, a.y)
  {
    hide StandsFor, FromPoint, RecoverX;
    RecoverXOnCurve(c, y, sign);
    Known(c);
    PointStands(c, Point(RecoverX(c, y, sign).value, y));
  }
}
