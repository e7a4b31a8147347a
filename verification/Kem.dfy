/** The ML-KEM-1024 encapsulation key: 1024 coefficients of 12 bits, and a seed (section 7.2 of FIPS 203). */
module Kem {
  import opened Bytes

  const KEM_Q := 3329
  const KEM_EK_LEN := 1568
  const BODY := 1536

  predicate Below(bound: nat, cs: seq<nat>) {
    forall i :: 0 <= i < |cs| ==> cs[i] < bound
  }

  /** The two 12-bit coefficients in three bytes. */
  function Low(b0: nat, b1: nat): (c: nat) {
    b0 + 256 * (b1 % 16)
  }

  function High(b1: nat, b2: nat): (c: nat) {
    b1 / 16 + 16 * b2
  }

  function Unpack(body: seq<byte>): (cs: seq<nat>)
    requires |body| % 3 == 0
    ensures 3 * |cs| == 2 * |body| && |cs| % 2 == 0
  {
    if body == [] then [] else [Low(body[0], body[1]), High(body[1], body[2])] + Unpack(body[3..])
  }

  /** The three bytes of two 12-bit coefficients. */
  function Three(a: nat, b: nat): (s: seq<byte>)
    requires a < 4096 && b < 4096
    ensures |s| == 3
  {
    [a % 256, a / 256 + 16 * (b % 16), b / 16]
  }

  /** ByteEncode of 12-bit coefficients, two at a time. */
  function Pack(cs: seq<nat>): (body: seq<byte>)
    requires |cs| % 2 == 0 && Below(4096, cs)
    ensures 2 * |body| == 3 * |cs| && |body| % 3 == 0
  {
    hide Three;
    if cs == [] then [] else Three(cs[0], cs[1]) + Pack(cs[2..])
  }

  lemma ThreeBytes(b0: byte, b1: byte, b2: byte)
    ensures Low(b0, b1) < 4096 && High(b1, b2) < 4096
    ensures Three(Low(b0, b1), High(b1, b2)) == [b0, b1, b2]
  {
  }

  lemma TwoCoefficients(a: nat, b: nat)
    requires a < 4096 && b < 4096
    ensures var s := Three(a, b); Low(s[0], s[1]) == a && High(s[1], s[2]) == b
  {
  }

  /** The number whose digits to the base 4096, low digit first, are `cs`. */
  function Base4096(cs: seq<nat>): (n: nat) {
    if cs == [] then 0 else cs[0] + 4096 * Base4096(cs[1..])
  }

  lemma ThreeAreTwo(b0: nat, b1: nat, b2: nat, n: nat)
    ensures Low(b0, b1) + 4096 * (High(b1, b2) + 4096 * n) == b0 + 256 * (b1 + 256 * (b2 + 256 * n))
  {
  }

  lemma ByteFirst(b: byte, tail: seq<byte>)
    ensures FromLittleEndian([b] + tail) == b + 256 * FromLittleEndian(tail)
  {
    assert ([b] + tail)[1..] == tail;
  }

  lemma ThreeBytesValue(b0: byte, b1: byte, b2: byte, tail: seq<byte>)
    ensures FromLittleEndian([b0, b1, b2] + tail) == b0 + 256 * (b1 + 256 * (b2 + 256 * FromLittleEndian(tail)))
  {
    ByteFirst(b0, [b1, b2] + tail);
    ByteFirst(b1, [b2] + tail);
    ByteFirst(b2, tail);
    assert [b0, b1, b2] + tail == [b0] + ([b1, b2] + tail) && [b1, b2] + tail == [b1] + ([b2] + tail);
  }

  lemma TwoDigits(c0: nat, c1: nat, tail: seq<nat>)
    ensures Base4096([c0, c1] + tail) == c0 + 4096 * (c1 + 4096 * Base4096(tail))
  {
    assert ([c0, c1] + tail)[1..] == [c1] + tail;
    assert ([c1] + tail)[1..] == tail;
  }

  /** The coefficients are the base-4096 digits of the body read as one little-endian number. */
  lemma {:induction false} UnpackIsBase4096(body: seq<byte>)
    requires |body| % 3 == 0
    ensures Base4096(Unpack(body)) == FromLittleEndian(body)
  {
    if body != [] {
      var tail := body[3..];
      var b0, b1, b2 := body[0], body[1], body[2];
      UnpackIsBase4096(tail);
      assert body == [b0, b1, b2] + tail;
      hide FromLittleEndian, Base4096, Low, High;
      ThreeBytesValue(b0, b1, b2, tail);
      TwoDigits(Low(b0, b1), High(b1, b2), Unpack(tail));
      ThreeAreTwo(b0, b1, b2, FromLittleEndian(tail));
    }
  }

  lemma {:induction false} UnpackPack(cs: seq<nat>)
    requires |cs| % 2 == 0 && Below(4096, cs)
    ensures Unpack(Pack(cs)) == cs
  {
    if cs != [] {
      UnpackPack(cs[2..]);
      TwoCoefficients(cs[0], cs[1]);
      assert Pack(cs)[3..] == Pack(cs[2..]);
      assert cs == [cs[0], cs[1]] + cs[2..];
    }
  }

  lemma {:induction false} PackUnpack(body: seq<byte>)
    requires |body| % 3 == 0
    ensures Below(4096, Unpack(body)) && Pack(Unpack(body)) == body
  {
    if body != [] {
      PackUnpack(body[3..]);
      ThreeBytes(body[0], body[1], body[2]);
      assert Unpack(body)[2..] == Unpack(body[3..]);
      assert body == [body[0], body[1], body[2]] + body[3..];
    }
  }

  function ModQ(cs: seq<nat>): (r: seq<nat>)
    ensures |r| == |cs| && Below(4096, r)
    ensures forall i :: 0 <= i < |cs| ==> r[i] == cs[i] % KEM_Q
  {
    seq(|cs|, i requires 0 <= i < |cs| => cs[i] % KEM_Q)
  }

  /** FIPS 203's check: decoding modulo q and encoding again gives the bytes back. */
  predicate RoundTrips(body: seq<byte>)
    requires |body| % 3 == 0
  {
    Pack(ModQ(Unpack(body))) == body
  }

  /** ... which holds exactly when every coefficient is below q. */
  lemma RoundTripsIffBelow(body: seq<byte>)
    requires |body| % 3 == 0
    ensures RoundTrips(body) <==> Below(KEM_Q, Unpack(body))
  {
    var cs := Unpack(body);
    PackUnpack(body);
    ModQFixes(cs);
    hide Unpack, Pack, Below, ModQ;
    if RoundTrips(body) {
      PackInjective(ModQ(cs), cs);
    }
  }

  lemma PackInjective(a: seq<nat>, b: seq<nat>)
    requires |a| % 2 == 0 && Below(4096, a) && |b| % 2 == 0 && Below(4096, b) && Pack(a) == Pack(b)
    ensures a == b
  {
    UnpackPack(a);
    UnpackPack(b);
  }

  lemma ModQFixes(cs: seq<nat>)
    ensures ModQ(cs) == cs <==> Below(KEM_Q, cs)
  {
    if ModQ(cs) == cs {
      forall i | 0 <= i < |cs|
        ensures cs[i] < KEM_Q
      {
        assert ModQ(cs)[i] == cs[i] % KEM_Q;
      }
    }
  }

  predicate InputOk(ek: seq<byte>) {
    |ek| == KEM_EK_LEN && RoundTrips(ek[..BODY])
  }

  lemma {:induction false} UnpackAt(body: seq<byte>, i: nat)
    requires |body| % 3 == 0 && 3 * i < |body|
    ensures Unpack(body)[2 * i] == Low(body[3 * i], body[3 * i + 1])
    ensures Unpack(body)[2 * i + 1] == High(body[3 * i + 1], body[3 * i + 2])
    decreases i
  {
    if i > 0 {
      UnpackAt(body[3..], i - 1);
    }
  }

  /** Both numbers of 12 bits in three bytes, the lower bits first, are below 3329. */
  ghost predicate PairFits(b0: nat, b1: nat, b2: nat) {
    b0 + 256 * (b1 % 16) < 3329 && b1 / 16 + 16 * b2 < 3329
  }

  /** The check written out: 1568 bytes, of which the first 1536 hold numbers that fit, three bytes at a time. */
  lemma InputOkMeans(ek: seq<byte>)
    ensures InputOk(ek) <==>
            && |ek| == 1568
            && forall i :: 0 <= i < 512 ==> PairFits(ek[3 * i], ek[3 * i + 1], ek[3 * i + 2])
  {
    if |ek| == KEM_EK_LEN {
      var body := ek[..BODY];
      RoundTripsIffBelow(body);
      hide Unpack, RoundTrips, PairFits, Below;
      forall i | 0 <= i < 512
        ensures PairFits(ek[3 * i], ek[3 * i + 1], ek[3 * i + 2]) <==>
                Unpack(body)[2 * i] < KEM_Q && Unpack(body)[2 * i + 1] < KEM_Q
      {
        UnpackAt(body, i);
        PairIs(body[3 * i], body[3 * i + 1], body[3 * i + 2]);
      }
      PairsBelow(Unpack(body), 512);
    }
  }

  lemma PairIs(b0: nat, b1: nat, b2: nat)
    ensures PairFits(b0, b1, b2) <==> Low(b0, b1) < KEM_Q && High(b1, b2) < KEM_Q
  {
  }

  lemma PairsBelow(cs: seq<nat>, n: nat)
    requires |cs| == 2 * n
    ensures Below(KEM_Q, cs) <==> forall i :: 0 <= i < n ==> cs[2 * i] < KEM_Q && cs[2 * i + 1] < KEM_Q
  {
    forall k | 0 <= k < |cs| && forall i :: 0 <= i < n ==> cs[2 * i] < KEM_Q && cs[2 * i + 1] < KEM_Q
      ensures cs[k] < KEM_Q
    {
      assert k == 2 * (k / 2) || k == 2 * (k / 2) + 1;
    }
  }

  /** Three bytes at a time, the loop meets every coefficient. */
  lemma BelowSoFar(body: seq<byte>, i: nat)
    requires |body| % 3 == 0 && 3 * i < |body|
    ensures var cs, b0, b1, b2 := Unpack(body), body[3 * i], body[3 * i + 1], body[3 * i + 2];
            Below(KEM_Q, cs[..2 * i + 2]) <==>
            Below(KEM_Q, cs[..2 * i]) && Low(b0, b1) < KEM_Q && High(b1, b2) < KEM_Q
  {
    hide Below, Unpack, Low, High;
    UnpackAt(body, i);
    BelowTwoMore(Unpack(body), 2 * i);
  }

  lemma BelowTwoMore(cs: seq<nat>, n: nat)
    requires n + 2 <= |cs|
    ensures Below(KEM_Q, cs[..n + 2]) <==> Below(KEM_Q, cs[..n]) && cs[n] < KEM_Q && cs[n + 1] < KEM_Q
  {
    assert cs[..n + 2] == cs[..n] + [cs[n], cs[n + 1]];
  }

  /** The source's check: the length, and each pair of coefficients against q. */
  method KemInputOk(ek: seq<byte>) returns (ok: bool)
    ensures ok <==> InputOk(ek)
  {
    if |ek| != KEM_EK_LEN {
      return false;
    }
    var body := ek[..BODY];
    RoundTripsIffBelow(body);
    ghost var cs := Unpack(body);
    hide Unpack, RoundTrips, Low, High, Below;
    NoneYet(cs);
    for i := 0 to BODY / 3
      invariant Below(KEM_Q, cs[..2 * i])
    {
      var b0, b1, b2 := body[3 * i], body[3 * i + 1], body[3 * i + 2];
      BelowSoFar(body, i);
      if Low(b0, b1) >= KEM_Q || High(b1, b2) >= KEM_Q {
        BelowPart(cs, 2 * i + 2);
        return false;
      }
    }
    assert cs[..2 * (BODY / 3)] == cs;
    return true;
  }

  lemma NoneYet(cs: seq<nat>)
    ensures Below(KEM_Q, cs[..0])
  {
  }

  lemma BelowPart(cs: seq<nat>, n: nat)
    requires n <= |cs| && !Below(KEM_Q, cs[..n])
    ensures !Below(KEM_Q, cs)
  {
    var i :| 0 <= i < n && cs[..n][i] >= KEM_Q;
    assert cs[i] >= KEM_Q;
  }

  lemma {:induction false} PackAppend(cs: seq<nat>, a: nat, b: nat)
    requires |cs| % 2 == 0 && Below(4096, cs) && a < 4096 && b < 4096
    ensures Below(4096, cs + [a, b]) && Pack(cs + [a, b]) == Pack(cs) + Three(a, b)
  {
    var all := cs + [a, b];
    if cs == [] {
      assert all == [a, b] && all[2..] == [];
    } else {
      PackAppend(cs[2..], a, b);
      assert all[2..] == cs[2..] + [a, b];
    }
  }

  /** The i-th coefficient a byte stream gives. */
  function Drawn(stream: seq<byte>, i: nat): (c: nat)
    requires 2 * i + 1 < |stream|
    ensures c < KEM_Q
  {
    FromLittleEndian(stream[2 * i..2 * i + 2]) % KEM_Q
  }

  /** Two bytes, the lower first, modulo 3329. */
  lemma DrawnMeans(stream: seq<byte>, i: nat)
    requires 2 * i + 1 < |stream|
    ensures var low: nat, high: nat := stream[2 * i], stream[2 * i + 1]; Drawn(stream, i) == (low + 256 * high) % 3329
  {
    var low, high := stream[2 * i], stream[2 * i + 1];
    assert stream[2 * i..2 * i + 2] == [low] + [high];
    ByteFirst(low, [high]);
    OneByte(high);
    hide FromLittleEndian;
  }

  /** A key made from a byte stream and a seed: it holds the stream's coefficients and passes the check. */
  method MakeKemPrekey(stream: seq<byte>, seed: seq<byte>) returns (ek: seq<byte>)
    requires |stream| >= 2048 && |seed| == 32
    ensures InputOk(ek)
    ensures ek[BODY..] == seed
    ensures forall i :: 0 <= i < 1024 ==> Unpack(ek[..BODY])[i] == Drawn(stream, i)
  {
    hide Drawn;
    var coeffs: seq<nat> := seq(1024, i requires 0 <= i < 1024 => Drawn(stream, i));
    var body: seq<byte> := [];
    for j := 0 to 512
      invariant body == Pack(coeffs[..2 * j])
    {
      var a, b := coeffs[2 * j], coeffs[2 * j + 1];
      PackAppend(coeffs[..2 * j], a, b);
      assert coeffs[..2 * (j + 1)] == coeffs[..2 * j] + [a, b];
      body := body + Three(a, b);
    }
    assert coeffs[..1024] == coeffs;
    UnpackPack(coeffs);
    ek := body + seed;
    assert ek[..BODY] == body;
    RoundTripsIffBelow(body);
  }
}
