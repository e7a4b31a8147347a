/** What a signature signs: the equation a verifier checks and the digests a signer takes, written out. */
module SignatureLaws {
  import opened Results
  import opened Bytes
  import opened Groups
  import opened Curve
  import opened XEdDSA
  import Birational
  import Agreement
  import Clamp
  import Field

  // ---- the verifier

  /** What the first 32 bytes of a signature, its number and a message are to a key's point: a point R that is not of
      small order, with sB = R + hA, where h is the digest of R, A and the message modulo the order. */
  ghost predicate Signs(c: Params, sha512: Hash, a: Point, r: Point, s: nat, message: seq<byte>)
    requires c.q > 0
  {
    var h := FromLittleEndian(sha512(EncodePoint(r) + EncodePoint(a) + message)) % c.q;
    && c.group.member(r) && !SmallOrder(c, r)
    && Times(c.group, s, c.base) == c.group.add(r, Times(c.group, h, a))
  }

  /** The number in a signature's last 32 bytes, whose top bit is the sign. */
  function Number(sig: seq<byte>): (s: nat)
    requires |sig| == 64
  {
    FromLittleEndian(sig[32..63] + [sig[63] % 128])
  }

  /** Under the key of a point with x of the sign's parity, a signature verifies exactly when that point is not of small
      order, the number is below the order and the first 32 bytes encode a point that signs with it. */
  lemma VerifyMeans(c: Params, sha512: Hash, a: Point, message: seq<byte>, sig: seq<byte>)
    requires Lawful(c) && c.group.member(a) && a != IDENTITY && |sig| == 64 && a.x % 2 == sig[63] / 128
    ensures c.p > 2 && c.q > 0
    ensures Verify(c, sha512, Agreement.KeyOf(c, a), message, sig) <==>
            && !SmallOrder(c, a) && Number(sig) < c.q
            && exists r :: EncodePoint(r) == sig[..32] && Signs(c, sha512, a, r, Number(sig), message)
  {
    Agreement.ModuliFit(c);
    KeySelects(c, a, sig[63] / 128);
    NumberIs(sig);
    hide *;
    UnderMeans(c, sha512, a, message, sig);
    VerifyIsUnder(c, sha512, a, message, sig);
  }

  lemma VerifyIsUnder(c: Params, sha512: Hash, a: Point, message: seq<byte>, sig: seq<byte>)
    requires c.p > 2 && c.q > 0 && |sig| == 64
    requires var u := FromLittleEndian(Agreement.KeyOf(c, a));
             u < TOP_BIT && u < c.p - 1 && VerifyingPoint(c, u, sig[63] / 128) == Some(a)
    ensures Verify(c, sha512, Agreement.KeyOf(c, a), message, sig) <==> VerifyUnder(c, sha512, a, message, sig)
  {
    hide VerifyingPoint, VerifyUnder, Agreement.KeyOf, FromLittleEndian;
  }

  lemma KeySelects(c: Params, a: Point, sign: nat)
    requires Lawful(c) && c.group.member(a) && a != IDENTITY && a.x % 2 == sign
    ensures c.p > 2
    ensures var u := FromLittleEndian(Agreement.KeyOf(c, a));
            u < TOP_BIT && u < c.p - 1 && VerifyingPoint(c, u, sign) == Some(a)
  {
    Agreement.ModuliFit(c);
    Agreement.KeyValue(c, a);
    Birational.YNotOne(c, a);
    KeyMapRoundTrip(c, a);
    RecoverXFinds(c, a, sign);
    hide Lawful, Field.Fermat, MontgomeryU, EdwardsY, RecoverX, FromLittleEndian, Agreement.KeyOf, Abelian, Prime;
  }

  lemma NumberIs(sig: seq<byte>)
    requires |sig| == 64
    ensures FromLittleEndian(sig[32..]) % TOP_BIT == Number(sig)
  {
    var tail := sig[32..];
    TailValue(tail);
    LittleEndianBytes(tail);
    SpanOf31();
    var n := FromLittleEndian(tail);
    assert tail[31] == sig[63] && tail[..31] == sig[32..63];
    SignParts(n);
    hide Span, FromLittleEndian, LittleEndian, Pack;
    PackBytes(n % TOP_BIT, tail[31] / 128);
    PackValue(n % TOP_BIT, 0);
  }

  lemma UnderMeans(c: Params, sha512: Hash, a: Point, message: seq<byte>, sig: seq<byte>)
    requires Lawful(c) && c.group.member(a) && |sig| == 64 && c.q > 0
    requires FromLittleEndian(sig[32..]) % TOP_BIT == Number(sig)
    ensures VerifyUnder(c, sha512, a, message, sig) <==>
            && !SmallOrder(c, a) && Number(sig) < c.q
            && exists r :: EncodePoint(r) == sig[..32] && Signs(c, sha512, a, r, Number(sig), message)
  {
    var s, digest := Number(sig), sha512(sig[..32] + EncodePoint(a) + message);
    var h := FromLittleEndian(digest) % c.q;
    var check := Check(c, sha512, a, sig[..32], s, message);
    var sB, hA := Times(c.group, s, c.base), Times(c.group, h, a);
    XEdDSA.Group(c);
    TimesMember(c.group, s, c.base);
    TimesMember(c.group, h, a);
    assert check == c.group.add(sB, c.group.neg(hA));
    forall r | c.group.member(r)
      ensures check == r <==> sB == c.group.add(r, hA)
    {
      Moved(c.group, sB, hA, r);
    }
    Units(c.group, hA);
    Closed(c.group, sB, c.group.neg(hA));
    hide Lawful, EncodePoint, SmallOrder, Times, FromLittleEndian, Abelian, Number, Check, Prime;
    forall r | EncodePoint(r) == sig[..32] && Signs(c, sha512, a, r, s, message)
      ensures r == check
    {
    }
  }

  lemma Moved<T(!new)>(g: Group<T>, s: T, h: T, r: T)
    requires Abelian(g) && g.member(s) && g.member(h) && g.member(r)
    ensures g.add(s, g.neg(h)) == r <==> s == g.add(r, h)
  {
    Units(g, h);
    Units(g, s);
    Units(g, r);
    Closed(g, h, g.neg(h));
    Associative(g, s, g.neg(h), h);
    Associative(g, r, h, g.neg(h));
  }

  /** Every key a signature verifies under is that of such a point. */
  lemma VerifiedKey(c: Params, sha512: Hash, key: seq<byte>, message: seq<byte>, sig: seq<byte>) returns (a: Point)
    requires Lawful(c) && c.p > 2 && c.q > 0 && Verify(c, sha512, key, message, sig)
    ensures |sig| == 64 && c.group.member(a) && a != IDENTITY && a.x % 2 == sig[63] / 128
    ensures key == Agreement.KeyOf(c, a)
    ensures a.y == EdwardsY(c, FromLittleEndian(key))
  {
    Agreement.ModuliFit(c);
    var u, sign := FromLittleEndian(key), sig[63] / 128;
    a := VerifyingPoint(c, u, sign).value;
    VerifyingPointMember(c, u, sign);
    Agreement.PointOfU(c, u, a);
    LittleEndianBytes(key);
    RecoveredParity(c, a.y, sign);
    if a.x == 0 {
      OwnOpposite(c, a);
    }
    hide Lawful, Field.Fermat, MontgomeryU, EdwardsY, RecoverX, FromLittleEndian, Abelian, Prime, SmallOrder, Check;
  }

  lemma RecoveredParity(c: Params, y: nat, sign: nat)
    requires Lawful(c) && c.p > 2 && sign <= 1
    ensures var x := RecoverX(c, y, sign); x.Some? ==> x.value == 0 || x.value % 2 == sign
  {
    Known(c);
    OppositeParity(c.p, RootOf(c, XSquared(c, y)));
    hide Lawful, Field.Fermat, RootOf, XSquared, Negated;
  }

  // ---- another message

  /** A signature under an identity key is also one of another message exactly when the two messages, hashed after R and
      the key's point, agree modulo the order. */
  lemma OtherMessage(c: Params, sha512: Hash, key: seq<byte>, message: seq<byte>, other: seq<byte>, sig: seq<byte>)
    requires Lawful(c) && c.p > 2 && c.q > 0 && IsIdentityKey(c, key) && Verify(c, sha512, key, message, sig)
    ensures |sig| == 64
    ensures var a := LittleEndian(EdwardsY(c, FromLittleEndian(key)) + sig[63] / 128 * TOP_BIT, 32);
            Verify(c, sha512, key, other, sig) <==>
            FromLittleEndian(sha512(sig[..32] + a + message)) % c.q
            == FromLittleEndian(sha512(sig[..32] + a + other)) % c.q
  {
    Agreement.ModuliFit(c);
    var a := VerifiedKey(c, sha512, key, message, sig);
    VerifyMeans(c, sha512, a, message, sig);
    VerifyMeans(c, sha512, a, other, sig);
    Agreement.IdentityKeyOf(c, a);
    var enc := LittleEndian(EdwardsY(c, FromLittleEndian(key)) + sig[63] / 128 * TOP_BIT, 32);
    assert EncodePoint(a) == enc;
    var r :| EncodePoint(r) == sig[..32] && Signs(c, sha512, a, r, Number(sig), message);
    var h, h' := FromLittleEndian(sha512(sig[..32] + enc + message)) % c.q,
                 FromLittleEndian(sha512(sig[..32] + enc + other)) % c.q;
    SameProduct(c, a, r, h, h');
    hide Lawful, EncodePoint, SmallOrder, Times, FromLittleEndian, LittleEndian, Number, Verify, Agreement.KeyOf;
    hide IsIdentityKey, EdwardsY, Abelian, Prime, Field.Fermat;
    forall r' | EncodePoint(r') == sig[..32] && Signs(c, sha512, a, r', Number(sig), other)
      ensures r' == r
    {
      EncodePointInjective(c, r, r');
    }
  }

  /** R + hA determines h below the order of A. */
  lemma SameProduct(c: Params, a: Point, r: Point, h: nat, h': nat)
    requires Lawful(c) && c.group.member(a) && c.group.member(r) && a != IDENTITY
    requires Times(c.group, c.q, a) == IDENTITY && h < c.q && h' < c.q
    ensures c.group.add(r, Times(c.group, h, a)) == c.group.add(r, Times(c.group, h', a)) <==> h == h'
  {
    Agreement.ModuliFit(c);
    var g := c.group;
    hide Lawful, Times, Abelian, Prime, Field.Fermat;
    TimesMember(g, h, a);
    TimesMember(g, h', a);
    if g.add(r, Times(g, h, a)) == g.add(r, Times(g, h', a)) {
      CancelLeft(g, r, Times(g, h, a), Times(g, h', a));
      var (s, t) := if h <= h' then (h, h') else (h', h);
      SameMultipleOf(g, c.q, a, s, t);
    }
  }

  lemma SameMultipleOf<T(!new)>(g: Group<T>, q: nat, a: T, s: nat, t: nat)
    requires Abelian(g) && g.member(a) && a != g.zero && Prime(q) && Times(g, q, a) == g.zero
    requires s <= t < q && Times(g, s, a) == Times(g, t, a)
    ensures s == t
  {
    hide Times, Abelian, Prime;
    var d := t - s;
    Small(d, q);
    TimesSum(g, s, d, a);
    TimesMember(g, s, a);
    TimesMember(g, d, a);
    Units(g, Times(g, s, a));
    CancelLeft(g, Times(g, s, a), Times(g, d, a), g.zero);
    PrimeOrderMultiples(g, q, d, a);
  }

  // ---- the signers

  /** The digest the nonce is: 0xFE and 31 bytes of 0xFF, the scalar in 32 bytes, the whole message, and z. */
  ghost function NonceDigest(c: Params, sha512: Hash, a: nat, message: seq<byte>, z: seq<byte>): (r: nat)
    requires c.q > 0
  {
    FromLittleEndian(sha512([0xFE] + seq(31, _ => 0xFF) + LittleEndian(a, 32) + message + z)) % c.q
  }

  /** The normalising signer's scalar gives the public point, or its opposite when that has an odd x; R is the nonce
      times the base point, and the number is r + h a for the digest h of R, the scalar's point and the message. */
  lemma SignMeans(c: Params, sha512: Hash, secret: seq<byte>, message: seq<byte>, z: seq<byte>) returns (a: nat)
    requires Lawful(c) && c.q > 0 && |secret| == 32
    ensures a < c.q && Times(c.group, a, c.base).x % 2 == 0
    ensures var k := Clamp.Scalar(secret) % c.q;
            a == if Times(c.group, k, c.base).x % 2 == 0 then k else c.q - k
    ensures var r, sig := NonceDigest(c, sha512, a, message, z), Sign(c, sha512, secret, message, z);
            SignedWith(c, sha512, a, r, message, sig) && sig[63] < 128
  {
    Normalised(c, secret);
    a := NormalScalar(c, secret);
    ScalarOf(c, secret);
    PrefixIs();
    Bounds(c);
    var r := Nonce(c, sha512, a, message, z);
    hide Lawful, EncodePoint, Times, NormalScalar, Reduce;
    AssembledMeans(c, sha512, a, r, 0, message);
  }

  /** A signature's R, number and hashes for a scalar and a nonce. */
  ghost predicate SignedWith(c: Params, sha512: Hash, a: nat, r: nat, message: seq<byte>, sig: seq<byte>)
    requires c.q > 0
  {
    var pt := Times(c.group, a, c.base);
    && |sig| == 64 && sig[..32] == EncodePoint(Times(c.group, r, c.base))
    && Number(sig) == (r + FromLittleEndian(sha512(sig[..32] + EncodePoint(pt) + message)) % c.q * a) % c.q
  }

  lemma PrefixIs()
    ensures PREFIX == [0xFE] + seq(31, _ => 0xFF)
  {
  }

  lemma ScalarOf(c: Params, secret: seq<byte>)
    requires Lawful(c) && |secret| == 32
    ensures var k := Clamp.Scalar(secret) % c.q;
            NormalScalar(c, secret) == if Times(c.group, k, c.base).x % 2 == 0 then k else c.q - k
  {
    SecretScalarNotZero(c, secret);
    var k := SecretScalar(c, secret);
    Bounds(c);
    Small(k, c.q);
    Coordinates(c, k);
    EncodedSign(PublicPoint(c, secret));
    Small(c.q - k, c.q);
    hide Lawful, EncodePoint, Times;
  }

  lemma AssembledMeans(c: Params, sha512: Hash, a: nat, r: nat, sign: nat, message: seq<byte>)
    requires c.q > 0 && c.q < TOP_BIT && sign <= 1
    ensures var pt := Times(c.group, a, c.base);
            var sig := Assemble(c, sha512, a, r, EncodePoint(pt), sign, message);
            SignedWith(c, sha512, a, r, message, sig) && sig[63] / 128 == sign
  {
    var pt := Times(c.group, a, c.base);
    var sig := Assemble(c, sha512, a, r, EncodePoint(pt), sign, message);
    var bigR := EncodePoint(Times(c.group, r, c.base));
    var h := FromLittleEndian(sha512(bigR + EncodePoint(pt) + message)) % c.q;
    TopOfSignature(c, sha512, a, r, EncodePoint(pt), sign, message);
    SplitSign(Response(c, r, h, a), sign);
    NumberIs(sig);
    hide EncodePoint, Times, FromLittleEndian, Pack;
    Halves(bigR, Pack(Response(c, r, h, a), sign));
  }

  lemma Halves(a: seq<byte>, b: seq<byte>)
    requires |a| == 32 && |b| == 32
    ensures (a + b)[..32] == a && (a + b)[32..] == b
  {
  }

  /** The signer that keeps its scalar signs with it, and carries the sign of its point's x. */
  lemma SignKeepingMeans(c: Params, sha512: Hash, secret: seq<byte>, message: seq<byte>, z: seq<byte>)
    requires Lawful(c) && c.q > 0 && |secret| == 32
    ensures var k, sig := Clamp.Scalar(secret) % c.q, SignLeavingTheSignBit(c, sha512, secret, message, z);
            && SignedWith(c, sha512, k, NonceDigest(c, sha512, k, message, z), message, sig)
            && sig[63] / 128 == Times(c.group, k, c.base).x % 2
  {
    PrefixIs();
    Bounds(c);
    SecretScalarNotZero(c, secret);
    var k := SecretScalar(c, secret);
    Small(k, c.q);
    Coordinates(c, k);
    EncodedSign(PublicPoint(c, secret));
    hide Lawful, EncodePoint, Times, Reduce;
    var sign := EncodePoint(PublicPoint(c, secret))[31] / 128;
    AssembledMeans(c, sha512, k, Nonce(c, sha512, k, message, z), sign, message);
  }
}
