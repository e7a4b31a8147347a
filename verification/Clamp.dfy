/** The clamped scalar of a 32-byte secret (section 5 of RFC 7748). */
module Clamp {
  import opened Arithmetic
  import opened Bytes

  /** Bits 0, 1, 2 and 255 cleared, bit 254 set. */
  function Clamped(secret: seq<byte>): (s: seq<byte>)
    requires |secret| == 32
    ensures |s| == 32
  {
    [secret[0] - secret[0] % 8] + secret[1..31] + [secret[31] % 64 + 64]
  }

  function Scalar(secret: seq<byte>): (k: nat)
    requires |secret| == 32
  {
    FromLittleEndian(Clamped(secret))
  }

  /** Every clamped scalar is a multiple of 8 between 2^254 and 2^255. */
  lemma ScalarRange(secret: seq<byte>)
    requires |secret| == 32
    ensures Scalar(secret) % 8 == 0
    ensures TOP_BIT <= 2 * Scalar(secret) < 2 * TOP_BIT
  {
    var s := Clamped(secret);
    var low := [secret[0] - secret[0] % 8] + secret[1..31];
    assert s == low + s[31..] && |low| == 31;
    assert s[31..] == [secret[31] % 64 + 64];
    SpanOf31();
    hide Span;
    FromLittleEndianAppend(low, s[31..]);
    BytesBelow(low);
    LowBits(s);
    ScalarBounds(FromLittleEndian(low), Span(31), secret[31] % 64 + 64, Scalar(secret));
  }

  /** What clamping keeps: bits 3 to 253 of the secret, below bit 254. */
  lemma ScalarValue(secret: seq<byte>)
    requires |secret| == 32
    ensures Scalar(secret) == TOP_BIT / 2 + FromLittleEndian(secret) % (TOP_BIT / 2) / 8 * 8
  {
    var low, mid, top := secret[0], secret[1..31], secret[31];
    var s := Clamped(secret);
    Split(secret);
    Split(s);
    assert s[0] == low - low % 8 && s[1..31] == mid && s[31] == top % 64 + 64;
    SpanOf31();
    BytesBelow(mid);
    assert Span(31) == 256 * Span(30);
    hide FromLittleEndian, Span;
    ScalarArithmetic(low, FromLittleEndian(mid), top, Span(31), FromLittleEndian(secret));
  }

  lemma Split(s: seq<byte>)
    requires |s| == 32
    ensures FromLittleEndian(s) == s[0] + 256 * FromLittleEndian(s[1..31]) + Span(31) * s[31]
  {
    assert s == s[..31] + s[31..] && s[..31][1..] == s[1..31] && s[31..] == [s[31]];
    FromLittleEndianAppend(s[..31], s[31..]);
    OneByte(s[31]);
    FirstByte(s[..31]);
    hide Span, FromLittleEndian;
  }

  lemma FirstByte(s: seq<byte>)
    requires s != []
    ensures FromLittleEndian(s) == s[0] + 256 * FromLittleEndian(s[1..])
  {
  }

  lemma ScalarArithmetic(low: nat, mid: nat, top: nat, span: nat, n: nat)
    requires low < 256 && 128 * span == TOP_BIT && 256 * mid + 256 <= span && top < 256
    requires n == low + 256 * mid + span * top
    ensures low - low % 8 + 256 * mid + span * (top % 64 + 64) == TOP_BIT / 2 + n % (TOP_BIT / 2) / 8 * 8
  {
    var part := span * (top % 64);
    TopParts(span, top);
    QuotientIs(n, TOP_BIT / 2, top / 64, low + 256 * mid + part);
    EightOf(span, top % 64);
    RoundedDown(low, 32 * mid + span / 8 * (top % 64));
  }

  lemma TopParts(span: nat, top: nat)
    ensures span * top == 64 * span * (top / 64) + span * (top % 64)
    ensures span * (top % 64 + 64) == span * (top % 64) + 64 * span
    ensures span * (top % 64) <= span * 63
  {
    Distributed(span, top / 64, top % 64);
    NonNegativeProduct(span, 63 - top % 64);
  }

  lemma Distributed(span: nat, q: nat, m: nat)
    ensures span * (64 * q + m) == 64 * span * q + span * m
    ensures span * (m + 64) == span * m + 64 * span && span * (63 - m) == span * 63 - span * m
  {
  }

  lemma RoundedDown(low: nat, k: nat)
    ensures (low + 8 * k) / 8 * 8 == low - low % 8 + 8 * k
  {
  }

  lemma EightOf(span: nat, k: nat)
    requires 128 * span == TOP_BIT
    ensures span * k == 8 * (span / 8 * k)
  {
  }

  /** Two secrets have one scalar exactly when they agree on those bits. */
  lemma SameScalarIff(secret: seq<byte>, other: seq<byte>)
    requires |secret| == |other| == 32
    ensures Scalar(secret) == Scalar(other) <==>
            FromLittleEndian(secret) % (TOP_BIT / 2) / 8 == FromLittleEndian(other) % (TOP_BIT / 2) / 8
  {
    ScalarValue(secret);
    ScalarValue(other);
  }

  lemma BytesBelow(s: seq<byte>)
    ensures FromLittleEndian(s) < Span(|s|)
  {
    LittleEndianBytes(s);
  }

  lemma LowBits(s: seq<byte>)
    requires s != [] && s[0] % 8 == 0
    ensures FromLittleEndian(s) % 8 == 0
  {
  }

  lemma ScalarBounds(low: nat, span: nat, top: nat, k: nat)
    requires low < span && 64 <= top < 128 && 128 * span == TOP_BIT && k == low + span * top
    ensures TOP_BIT <= 2 * k < 2 * TOP_BIT
  {
    assert span * 64 <= span * top <= span * 127;
  }

  /** No clamped scalar is a multiple of the group's order, the order being odd and above 2^252. */
  lemma ScalarNotMultiple(secret: seq<byte>, q: nat)
    requires |secret| == 32 && q % 8 == 5 && 8 * q > TOP_BIT
    ensures Scalar(secret) % q != 0
  {
    ScalarRange(secret);
    var k := Scalar(secret);
    if k % q == 0 {
      var m := k / q;
      assert k == q * m;
      MultipleIsLarge(q, m - 7);
      assert q * (m - 7) == q * m - 7 * q;
      OddMultiple(q, m);
    }
  }

  lemma OddMultiple(q: nat, m: nat)
    requires q % 8 == 5 && 0 < m < 8
    ensures (q * m) % 8 != 0
  {
    assert m == 1 || m == 2 || m == 3 || m == 4 || m == 5 || m == 6 || m == 7;
  }
}
