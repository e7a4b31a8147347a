/** XEdDSA over a curve: key pairs, two signers, and the verifier. */
module XEdDSA {
  import opened Results
  import opened Arithmetic
  import opened Bytes
  import opened Groups
  import opened Curve
  import Clamp
  import Field

  type Hash = seq<byte> -> seq<byte>

  /** 0xFE and then 31 bytes of 0xFF. */
  const PREFIX: seq<byte> :=
    [0xFE, 0xFF, 0xFF, 0xFF, 0xFF, 0xFF, 0xFF, 0xFF, 0xFF, 0xFF, 0xFF, 0xFF, 0xFF, 0xFF, 0xFF, 0xFF,
     0xFF, 0xFF, 0xFF, 0xFF, 0xFF, 0xFF, 0xFF, 0xFF, 0xFF, 0xFF, 0xFF, 0xFF, 0xFF, 0xFF, 0xFF, 0xFF]

  /** The hash of `m` as a scalar: little-endian, modulo the order. */
  function Reduce(c: Params, sha512: Hash, m: seq<byte>): (r: nat)
    requires c.q > 0
    ensures r < c.q
  {
    FromLittleEndian(sha512(m)) % c.q
  }

  function SecretScalar(c: Params, secret: seq<byte>): (k: nat)
    requires c.q > 0 && |secret| == 32
    ensures k < c.q
  {
    Clamp.Scalar(secret) % c.q
  }

  function PublicPoint(c: Params, secret: seq<byte>): (a: Point)
    requires c.q > 0 && |secret| == 32
  {
    Times(c.group, SecretScalar(c, secret), c.base)
  }

  function PublicKey(c: Params, secret: seq<byte>): (key: seq<byte>)
    requires c.p > 2 && c.q > 0 && |secret| == 32
    ensures |key| == 32
  {
    LittleEndian(MontgomeryU(c, PublicPoint(c, secret)), 32)
  }

  /** The scalar whose public point has an even x. */
  function NormalScalar(c: Params, secret: seq<byte>): (a: nat)
    requires c.q > 0 && |secret| == 32
    ensures a < c.q
  {
    var k := SecretScalar(c, secret);
    if EncodePoint(PublicPoint(c, secret))[31] / 128 == 0 then k else (c.q - k) % c.q
  }

  /** The nonce the signers derive for a scalar. */
  function Nonce(c: Params, sha512: Hash, a: nat, message: seq<byte>, z: seq<byte>): (r: nat)
    requires c.q > 0
    ensures r < c.q
  {
    Reduce(c, sha512, PREFIX + LittleEndian(a, 32) + message + z)
  }

  /** s = r + h a modulo the order. */
  function Response(c: Params, r: nat, h: nat, a: nat): (s: nat)
    requires c.q > 0
    ensures s < c.q
  {
    (r + h * a) % c.q
  }

  /** R and s for the scalar a and the nonce r, the hash taking `public` for the key and s carrying `sign`. */
  function Assemble(c: Params, sha512: Hash, a: nat, r: nat, public: seq<byte>, sign: nat, message: seq<byte>)
    : (sig: seq<byte>)
    requires c.q > 0
    ensures |sig| == 64
  {
    var bigR := EncodePoint(Times(c.group, r, c.base));
    var h := Reduce(c, sha512, bigR + public + message);
    bigR + Pack(Response(c, r, h, a), sign)
  }

  /** The normalising signer: it negates its scalar when x is odd, and clears the sign bit of the key. */
  function Sign(c: Params, sha512: Hash, secret: seq<byte>, message: seq<byte>, z: seq<byte>): (sig: seq<byte>)
    requires c.q > 0 && |secret| == 32
    ensures |sig| == 64
  {
    var enc := EncodePoint(PublicPoint(c, secret));
    var a := NormalScalar(c, secret);
    Assemble(c, sha512, a, Nonce(c, sha512, a, message, z), enc[..31] + [enc[31] % 128], 0, message)
  }

  /** The signer that keeps its scalar and carries the sign of x in bit 255 of the signature. */
  function SignLeavingTheSignBit(c: Params, sha512: Hash, secret: seq<byte>, message: seq<byte>, z: seq<byte>)
    : (sig: seq<byte>)
    requires c.q > 0 && |secret| == 32
    ensures |sig| == 64
  {
    var enc := EncodePoint(PublicPoint(c, secret));
    var k := SecretScalar(c, secret);
    Assemble(c, sha512, k, Nonce(c, sha512, k, message, z), enc, enc[31] / 128, message)
  }

  /** The point a signature's sign bit and a key select, if they select one. */
  function VerifyingPoint(c: Params, u: nat, sign: int): (r: Option<Point>)
    requires c.p > 2
  {
    var y := EdwardsY(c, u);
    match RecoverX(c, y, sign)
    case None => None
    case Some(x) => Some(Point(x, y))
  }

  /** sB - hA, which a signature's R must encode. */
  function Check(c: Params, sha512: Hash, a: Point, bigR: seq<byte>, s: nat, message: seq<byte>): (check: Point)
    requires c.q > 0
  {
    var h := Reduce(c, sha512, bigR + EncodePoint(a) + message);
    c.group.add(Times(c.group, s, c.base), c.group.neg(Times(c.group, h, a)))
  }

  /** The steps of verification that follow the choice of the point. */
  predicate VerifyUnder(c: Params, sha512: Hash, a: Point, message: seq<byte>, sig: seq<byte>)
    requires c.q > 0 && |sig| == 64
  {
    if SmallOrder(c, a) then false else
    var s := FromLittleEndian(sig[32..]) % TOP_BIT;
    if s >= c.q then false else
    var check := Check(c, sha512, a, sig[..32], s, message);
    EncodePoint(check) == sig[..32] && !SmallOrder(c, check)
  }

  predicate Verify(c: Params, sha512: Hash, key: seq<byte>, message: seq<byte>, sig: seq<byte>)
    requires c.p > 2 && c.q > 0
  {
    if |key| != 32 || |sig| != 64 then false else
    var u := FromLittleEndian(key);
    if u / TOP_BIT % 2 == 1 || u >= c.p || u == c.p - 1 then false else
    match VerifyingPoint(c, u, sig[63] / 128)
    case None => false
    case Some(a) => VerifyUnder(c, sha512, a, message, sig)
  }

  // ---- multiples of the base point

  lemma Group(c: Params)
    requires Lawful(c)
    ensures Abelian(c.group) && Prime(c.q) && c.group.member(c.base) && c.base != c.group.zero == IDENTITY
    ensures Times(c.group, c.q, c.base) == IDENTITY && c.q % 8 == 5
  {
  }

  /** A multiple of the base point is the identity, or of small order, only for multiples of q. */
  lemma BaseMultiple(c: Params, k: nat)
    requires Lawful(c)
    ensures c.group.member(Times(c.group, k, c.base))
    ensures Times(c.group, k, c.base) == IDENTITY <==> k % c.q == 0
    ensures SmallOrder(c, Times(c.group, k, c.base)) <==> k % c.q == 0
  {
    Group(c);
    hide Lawful;
    var g := c.group;
    var a := Times(g, k, c.base);
    TimesMember(g, k, c.base);
    PrimeOrderMultiples(g, c.q, k, c.base);
    OrderKills(c, k);
    TimesOfZero(g, 8);
    if SmallOrder(c, a) {
      CoprimeToEight(g, c.q, a);
    }
  }

  lemma OrderKills(c: Params, k: nat)
    requires Lawful(c)
    ensures Times(c.group, c.q, Times(c.group, k, c.base)) == IDENTITY
  {
    Group(c);
    hide Lawful;
    TimesProduct(c.group, c.q, k, c.base);
    TimesProduct(c.group, k, c.q, c.base);
    TimesOfZero(c.group, k);
    assert c.q * k == k * c.q;
  }

  /** An element that 8 and a number 5 modulo 8 send to zero is zero. */
  lemma CoprimeToEight<T(!new)>(g: Group<T>, q: nat, a: T)
    requires Abelian(g) && g.member(a) && q % 8 == 5
    requires Times(g, 8, a) == g.zero && Times(g, q, a) == g.zero
    ensures a == g.zero
  {
    TimesModulo(g, q, 8, a);
    TimesModulo(g, 8, 5, a);
    TimesModulo(g, 5, 3, a);
    TimesModulo(g, 3, 2, a);
    TimesOne(g, a);
  }

  /** A multiple of the base point other than the identity has y below p and not 1, and x not 0. */
  lemma Coordinates(c: Params, k: nat)
    requires Lawful(c) && k % c.q != 0
    ensures var a := Times(c.group, k, c.base); 0 < a.x < c.p && a.y < c.p && a.y != 1
  {
    Group(c);
    BaseMultiple(c, k);
    var a := Times(c.group, k, c.base);
    Members(c, a);
    if a.y == 1 {
      OnlyIdentityAtOne(c, a);
    }
    if a.x == 0 {
      OwnOpposite(c, a);
    }
  }

  /** A point with x = 0 is its own opposite, and so of small order. */
  lemma OwnOpposite(c: Params, a: Point)
    requires Lawful(c) && c.group.member(a) && a.x == 0
    ensures SmallOrder(c, a)
  {
    Group(c);
    NegIsOpposite(c, a);
    hide Lawful;
    var g := c.group;
    Units(g, a);
    TimesOne(g, a);
    TimesSum(g, 1, 1, a);
    TimesProduct(g, 4, 2, a);
    TimesOfZero(g, 4);
  }

  lemma NegIsOpposite(c: Params, a: Point)
    requires Lawful(c) && c.group.member(a)
    ensures c.group.neg(a) == Opposite(c, a) && a.x < c.p
  {
    Members(c, a);
    assert OperationsAt(c, a, a);
  }

  /** rB is recovered from s = r + h a: sB - hA = rB. */
  lemma Recovered(c: Params, r: nat, h: nat, a: nat)
    requires Lawful(c)
    ensures var g := c.group;
            g.add(Times(g, Response(c, r, h, a), c.base), g.neg(Times(g, h, Times(g, a, c.base))))
              == Times(g, r, c.base)
  {
    Group(c);
    hide Lawful;
    var g, b := c.group, c.base;
    TimesModulo(g, r + h * a, c.q, b);
    TimesSum(g, r, h * a, b);
    TimesProduct(g, h, a, b);
    var rB, hA := Times(g, r, b), Times(g, h * a, b);
    TimesMember(g, r, b);
    TimesMember(g, h * a, b);
    Units(g, hA);
    Units(g, rB);
    Associative(g, rB, hA, g.neg(hA));
  }

  // ---- completeness

  /** The verifier selects the point aB from its u-coordinate and the parity of its x. */
  lemma Selected(c: Params, a: nat)
    requires Lawful(c) && a % c.q != 0
    ensures var pt := Times(c.group, a, c.base); var u := MontgomeryU(c, pt);
            u < c.p - 1 && VerifyingPoint(c, u, pt.x % 2) == Some(pt)
  {
    Known(c);
    BaseMultiple(c, a);
    Coordinates(c, a);
    hide Lawful, Field.Fermat;
    var pt := Times(c.group, a, c.base);
    KeyMapRoundTrip(c, pt);
    RecoverXFinds(c, pt, pt.x % 2);
  }

  lemma Bounds(c: Params)
    requires Lawful(c)
    ensures 8 < c.p < TOP_BIT && 0 < c.q < TOP_BIT
  {
  }

  lemma KeyBytes(u: nat)
    requires u < TOP_BIT
    ensures FromLittleEndian(LittleEndian(u, 32)) == u && u / TOP_BIT % 2 == 0
  {
    PackValue(u, 0);
  }

  lemma SplitSign(s: nat, sign: nat)
    requires s < TOP_BIT && sign <= 1
    ensures FromLittleEndian(Pack(s, sign)) % TOP_BIT == s
  {
    PackValue(s, sign);
    QuotientIs(s + sign * TOP_BIT, TOP_BIT, sign, s);
  }

  /** Under the point aB, what the scalar a signs is accepted exactly when the nonce is not zero. */
  lemma HonestUnder(c: Params, sha512: Hash, a: nat, r: nat, sign: nat, message: seq<byte>)
    requires Lawful(c) && 0 < a < c.q && r < c.q && sign <= 1
    ensures var pt := Times(c.group, a, c.base);
            VerifyUnder(c, sha512, pt, message, Assemble(c, sha512, a, r, EncodePoint(pt), sign, message)) <==> r != 0
  {
    var pt := Times(c.group, a, c.base);
    var bigR := EncodePoint(Times(c.group, r, c.base));
    var h := Reduce(c, sha512, bigR + EncodePoint(pt) + message);
    var s := Response(c, r, h, a);
    var sig := Assemble(c, sha512, a, r, EncodePoint(pt), sign, message);
    Bounds(c);
    BaseMultiple(c, a);
    BaseMultiple(c, r);
    Recovered(c, r, h, a);
    SplitSign(s, sign);
    Small(a, c.q);
    Small(r, c.q);
    hide Lawful, EncodePoint, Pack, SmallOrder, Times, Reduce, FromLittleEndian, Response;
    assert sig[..32] == bigR && sig[32..] == Pack(s, sign);
    assert Check(c, sha512, pt, bigR, s, message) == Times(c.group, r, c.base);
  }

  lemma Small(a: nat, q: nat)
    requires a < q
    ensures a % q == a
  {
  }

  /** A signature made with the scalar a and the nonce r, carrying the parity of aB, verifies under the key
      of aB exactly when the nonce is not zero. */
  lemma HonestSignature(c: Params, sha512: Hash, a: nat, r: nat, message: seq<byte>)
    requires Lawful(c) && 0 < a < c.q && r < c.q
    ensures var pt := Times(c.group, a, c.base);
            r != 0 <==> Verify(c, sha512, LittleEndian(MontgomeryU(c, pt), 32), message,
                               Assemble(c, sha512, a, r, EncodePoint(pt), pt.x % 2, message))
  {
    var pt := Times(c.group, a, c.base);
    var sign := pt.x % 2;
    var u := MontgomeryU(c, pt);
    var sig := Assemble(c, sha512, a, r, EncodePoint(pt), sign, message);
    Bounds(c);
    Small(a, c.q);
    Selected(c, a);
    KeyBytes(u);
    HonestUnder(c, sha512, a, r, sign, message);
    TopOfSignature(c, sha512, a, r, EncodePoint(pt), sign, message);
    hide Lawful, EncodePoint, LittleEndian, MontgomeryU, VerifyingPoint, VerifyUnder, Times, FromLittleEndian, Assemble;
  }

  lemma TopOfSignature(c: Params, sha512: Hash, a: nat, r: nat, public: seq<byte>, sign: nat, message: seq<byte>)
    requires 0 < c.q < TOP_BIT && sign <= 1
    ensures Assemble(c, sha512, a, r, public, sign, message)[63] / 128 == sign
  {
    hide EncodePoint, Pack, Reduce, Response, Times;
    var h := Reduce(c, sha512, EncodePoint(Times(c.group, r, c.base)) + public + message);
    PackBytes(Response(c, r, h, a), sign);
  }

  lemma SecretScalarNotZero(c: Params, secret: seq<byte>)
    requires Lawful(c) && |secret| == 32
    ensures 0 < SecretScalar(c, secret) < c.q
  {
    Clamp.ScalarNotMultiple(secret, c.q);
  }

  lemma EncodedSign(a: Point)
    requires a.y < TOP_BIT
    ensures var enc := EncodePoint(a);
            enc[31] / 128 == a.x % 2 && enc[..31] + [enc[31] % 128] == Pack(a.y, 0)
  {
    PackBytes(a.y, a.x % 2);
  }

  /** The scalar q - k has the opposite point. */
  lemma OppositeScalar(c: Params, k: nat)
    requires Lawful(c) && k <= c.q
    ensures Times(c.group, c.q - k, c.base) == c.group.neg(Times(c.group, k, c.base))
  {
    Group(c);
    hide Lawful;
    var g := c.group;
    var a, b := Times(g, k, c.base), Times(g, c.q - k, c.base);
    TimesMember(g, k, c.base);
    TimesMember(g, c.q - k, c.base);
    TimesSum(g, k, c.q - k, c.base);
    Units(g, a);
    CancelLeft(g, a, b, g.neg(a));
  }

  /** ... which has the same y and an x of the other parity. */
  lemma OppositeCoordinates(c: Params, k: nat)
    requires Lawful(c) && 0 < k < c.q
    ensures var a, b := Times(c.group, k, c.base), Times(c.group, c.q - k, c.base);
            b.y == a.y && b.x % 2 == 1 - a.x % 2
  {
    OppositeScalar(c, k);
    Group(c);
    TimesMember(c.group, k, c.base);
    var a := Times(c.group, k, c.base);
    Small(k, c.q);
    Coordinates(c, k);
    NegIsOpposite(c, a);
    Known(c);
    hide Lawful, Times;
    OppositeParity(c.p, a.x);
  }

  /** What the normalising signer signs with: a point with even x and the same y, and the hashed encoding. */
  lemma Normalised(c: Params, secret: seq<byte>)
    requires Lawful(c) && |secret| == 32
    ensures var a := NormalScalar(c, secret); var pt := Times(c.group, a, c.base);
            var enc := EncodePoint(PublicPoint(c, secret));
            && 0 < a < c.q && pt.x % 2 == 0 && pt.y == PublicPoint(c, secret).y
            && EncodePoint(pt) == enc[..31] + [enc[31] % 128]
  {
    SecretScalarNotZero(c, secret);
    var k := SecretScalar(c, secret);
    Small(k, c.q);
    Coordinates(c, k);
    OppositeCoordinates(c, k);
    Bounds(c);
    EncodedSign(PublicPoint(c, secret));
    Small(c.q - k, c.q);
    hide Lawful, Pack, SecretScalar, Times;
  }

  lemma NormalisedKey(c: Params, secret: seq<byte>)
    requires Lawful(c) && |secret| == 32
    ensures LittleEndian(MontgomeryU(c, Times(c.group, NormalScalar(c, secret), c.base)), 32) == PublicKey(c, secret)
  {
    Normalised(c, secret);
    hide Lawful, LittleEndian, EncodePoint, NormalScalar, Times, PublicPoint;
  }

  /** Every honest signature verifies, and only a zero nonce makes one that does not. */
  lemma SignVerifies(c: Params, sha512: Hash, secret: seq<byte>, message: seq<byte>, z: seq<byte>)
    requires Lawful(c) && |secret| == 32
    ensures Verify(c, sha512, PublicKey(c, secret), message, Sign(c, sha512, secret, message, z))
            <==> Nonce(c, sha512, NormalScalar(c, secret), message, z) != 0
  {
    hide Lawful, LittleEndian, Verify, EncodePoint, MontgomeryU, Nonce, Times, NormalScalar, PublicKey, Assemble;
    Normalised(c, secret);
    NormalisedKey(c, secret);
    Bounds(c);
    var a := NormalScalar(c, secret);
    HonestSignature(c, sha512, a, Nonce(c, sha512, a, message, z), message);
  }

  /** The same for the signer that leaves the sign bit: the verifier reads the sign back from the signature. */
  lemma SignLeavingTheSignBitVerifies(c: Params, sha512: Hash, secret: seq<byte>, message: seq<byte>, z: seq<byte>)
    requires Lawful(c) && |secret| == 32
    ensures Verify(c, sha512, PublicKey(c, secret), message, SignLeavingTheSignBit(c, sha512, secret, message, z))
            <==> Nonce(c, sha512, SecretScalar(c, secret), message, z) != 0
  {
    hide Lawful, LittleEndian, Verify, EncodePoint, MontgomeryU, Nonce, Times, SecretScalar, Assemble;
    SecretScalarNotZero(c, secret);
    Bounds(c);
    var k := SecretScalar(c, secret);
    Small(k, c.q);
    Coordinates(c, k);
    EncodedSign(PublicPoint(c, secret));
    HonestSignature(c, sha512, k, Nonce(c, sha512, k, message, z), message);
  }

  /** Every public key passes the identity-key rule. */
  lemma PublicKeyIsIdentityKey(c: Params, secret: seq<byte>)
    requires Lawful(c) && |secret| == 32
    ensures IsIdentityKey(c, PublicKey(c, secret))
  {
    hide Lawful, LittleEndian, FromLittleEndian, MontgomeryU, RecoverX, Times, NormalScalar, PublicKey, EncodePoint;
    Normalised(c, secret);
    NormalisedKey(c, secret);
    Bounds(c);
    var a := NormalScalar(c, secret);
    Small(a, c.q);
    Selected(c, a);
    OrderKills(c, a);
    KeyBytes(MontgomeryU(c, Times(c.group, a, c.base)));
  }

  // ---- one signature for each nonce point

  /** Under one key and message, two accepted signatures with the same R and the same sign bit are the same. */
  lemma SignatureIsUnique(c: Params, sha512: Hash, key: seq<byte>, message: seq<byte>, sig: seq<byte>, sig': seq<byte>)
    requires Lawful(c) && Verify(c, sha512, key, message, sig) && Verify(c, sha512, key, message, sig')
    requires sig[..32] == sig'[..32] && sig[63] / 128 == sig'[63] / 128
    ensures sig == sig'
  {
    var u := FromLittleEndian(key);
    var a := VerifyingPoint(c, u, sig[63] / 128).value;
    var s, s' := FromLittleEndian(sig[32..]) % TOP_BIT, FromLittleEndian(sig'[32..]) % TOP_BIT;
    var h := Reduce(c, sha512, sig[..32] + EncodePoint(a) + message);
    VerifyingPointMember(c, u, sig[63] / 128);
    SameCheck(c, s, s', Times(c.group, h, a), h, a);
    hide Lawful, FromLittleEndian, VerifyingPoint, SmallOrder, EncodePoint, Times;
    assert sig[32..][31] == sig[63] && sig'[32..][31] == sig'[63];
    SameTail(sig[32..], sig'[32..]);
    assert sig == sig[..32] + sig[32..] && sig' == sig'[..32] + sig'[32..];
  }

  lemma VerifyingPointMember(c: Params, u: nat, sign: int)
    requires Lawful(c) && VerifyingPoint(c, u, sign).Some?
    ensures c.group.member(VerifyingPoint(c, u, sign).value)
  {
    RecoverXOnCurve(c, EdwardsY(c, u), sign);
  }

  lemma SameCheck(c: Params, s: nat, s': nat, hA: Point, h: nat, a: Point)
    requires Lawful(c) && c.group.member(a) && hA == Times(c.group, h, a) && s < c.q && s' < c.q
    requires var g := c.group;
             EncodePoint(g.add(Times(g, s, c.base), g.neg(hA))) == EncodePoint(g.add(Times(g, s', c.base), g.neg(hA)))
    ensures s == s'
  {
    Group(c);
    var g := c.group;
    var p, p' := Times(g, s, c.base), Times(g, s', c.base);
    TimesMember(g, h, a);
    TimesMember(g, s, c.base);
    TimesMember(g, s', c.base);
    Units(g, hA);
    Closed(g, p, g.neg(hA));
    Closed(g, p', g.neg(hA));
    EncodePointInjective(c, g.add(p, g.neg(hA)), g.add(p', g.neg(hA)));
    CancelLeft(g, g.neg(hA), p, p');
    if s < s' {
      SameMultiple(c, s, s');
    } else if s' < s {
      SameMultiple(c, s', s);
    }
  }

  lemma SameMultiple(c: Params, s: nat, t: nat)
    requires Lawful(c) && s <= t < c.q && Times(c.group, s, c.base) == Times(c.group, t, c.base)
    ensures s == t
  {
    Group(c);
    hide Lawful;
    var g := c.group;
    var p, d := Times(g, s, c.base), Times(g, t - s, c.base);
    TimesSum(g, s, t - s, c.base);
    TimesMember(g, s, c.base);
    TimesMember(g, t - s, c.base);
    Units(g, p);
    CancelLeft(g, p, d, g.zero);
    BaseMultiple(c, t - s);
    Small(t - s, c.q);
  }

  lemma SameTail(x: seq<byte>, y: seq<byte>)
    requires |x| == 32 && |y| == 32
    requires FromLittleEndian(x) % TOP_BIT == FromLittleEndian(y) % TOP_BIT && x[31] / 128 == y[31] / 128
    ensures x == y
  {
    TailValue(x);
    TailValue(y);
  }

  lemma TailValue(x: seq<byte>)
    requires |x| == 32
    ensures x == Pack(FromLittleEndian(x) % TOP_BIT, x[31] / 128)
  {
    hide Span, FromLittleEndian, LittleEndian;
    var n := FromLittleEndian(x);
    LittleEndianBytes(x);
    SpanOf31();
    SignParts(n);
    PackBytes(n % TOP_BIT, n / TOP_BIT);
  }

  lemma SignParts(n: nat)
    requires n < 2 * TOP_BIT
    ensures n == n % TOP_BIT + n / TOP_BIT * TOP_BIT && n / TOP_BIT <= 1
  {
  }
}
