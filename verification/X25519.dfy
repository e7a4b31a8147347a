/** X25519: the Montgomery ladder (section 5 of RFC 7748) on u-coordinates. */
module X25519 {
  import opened Arithmetic
  import opened Bytes
  import opened Field
  import Clamp

  /** X : Z, standing for the u-coordinate X / Z. */
  datatype Proj = Proj(x: int, z: int)

  function Double(p: int, q: Proj): (r: Proj)
    requires p > 2
  {
    var a, b := (q.x + q.z) % p, (q.x - q.z) % p;
    var aa, bb := a * a % p, b * b % p;
    var e := (aa - bb) % p;
    Proj(aa * bb % p, e * (aa + 121665 * e) % p)
  }

  function DiffAdd(p: int, x1: int, q: Proj, r: Proj): (s: Proj)
    requires p > 2
  {
    var a, b := (q.x + q.z) % p, (q.x - q.z) % p;
    var c, d := (r.x + r.z) % p, (r.x - r.z) % p;
    var da, cb := d * a % p, c * b % p;
    Proj((da + cb) * (da + cb) % p, x1 * ((da - cb) * (da - cb)) % p)
  }

  function Pow2(n: nat): (r: nat)
    ensures r > 0
    decreases n
  {
    if n == 0 then 1 else 2 * Pow2(n - 1)
  }

  /** `k >> t`: k without its t low bits. */
  function Prefix(k: nat, t: nat): (n: nat)
    decreases t, k
  {
    if t == 0 then k else Prefix(k / 2, t - 1)
  }

  function Bit(k: nat, t: nat): (b: nat)
    ensures b <= 1
  {
    Prefix(k, t) % 2
  }

  /** The plain ladder, no swaps: the pair after reading the bits of k from 254 down to t. */
  function Pair(p: int, x1: int, k: nat, t: nat): (r: (Proj, Proj))
    requires p > 2 && t <= 255
    decreases 255 - t
  {
    if t == 255 then (Proj(1, 0), Proj(x1, 1)) else
    var (low, high) := Pair(p, x1, k, t + 1);
    if Bit(k, t) == 0 then (Double(p, low), DiffAdd(p, x1, low, high))
    else (DiffAdd(p, x1, low, high), Double(p, high))
  }

  /** The value of X / Z, zero when Z is. */
  function Value(p: int, q: Proj): (u: nat)
    requires p > 2
    ensures u < p
  {
    q.x * Inv(p, q.z) % p
  }

  /** The u-coordinate given, its top bit masked. */
  function Masked(uBytes: seq<byte>): (u: nat) {
    FromLittleEndian(uBytes) % TOP_BIT
  }

  function Output(p: int, scalar: seq<byte>, uBytes: seq<byte>): (out: seq<byte>)
    requires p > 2 && |scalar| == 32
  {
    LittleEndian(Value(p, Pair(p, Masked(uBytes), Clamp.Scalar(scalar), 0).0), 32)
  }

  /** Of 32 bytes all bits but the highest count. */
  lemma MaskedMeans(uBytes: seq<byte>)
    requires |uBytes| == 32
    ensures Masked(uBytes) == FromLittleEndian(uBytes[..31] + [uBytes[31] % 128])
  {
    var low, top := uBytes[..31], uBytes[31];
    assert uBytes == low + [top];
    FromLittleEndianAppend(low, [top]);
    FromLittleEndianAppend(low, [top % 128]);
    OneByte(top);
    OneByte(top % 128);
    LittleEndianBytes(low);
    SpanOf31();
    hide FromLittleEndian, Span;
    TopBitOff(FromLittleEndian(low), Span(31), top);
  }

  lemma TopBitOff(low: nat, span: nat, top: nat)
    requires low < span && 128 * span == TOP_BIT && top < 256
    ensures (low + span * top) % TOP_BIT == low + span * (top % 128)
  {
    var part := span * (top % 128);
    Distribute(span, top / 128, top % 128);
    assert part + span <= 128 * span by {
      NonNegativeProduct(span, 127 - top % 128);
    }
    QuotientIs(low + span * top, TOP_BIT, top / 128, low + part);
  }

  lemma Distribute(span: nat, q: nat, m: nat)
    ensures span * (128 * q + m) == 128 * span * q + span * m
    ensures span * (127 - m) == 127 * span - span * m
  {
  }

  lemma DiffAddSymmetric(p: int, x1: int, q: Proj, r: Proj)
    requires p > 2
    ensures DiffAdd(p, x1, q, r) == DiffAdd(p, x1, r, q)
  {
    var a, b := (q.x + q.z) % p, (q.x - q.z) % p;
    var c, d := (r.x + r.z) % p, (r.x - r.z) % p;
    Commute(d, a);
    Commute(c, b);
    SquareOfDifference(d * a % p, c * b % p);
  }

  lemma Commute(a: int, b: int)
    ensures a * b == b * a
  {
  }

  lemma SquareOfDifference(a: int, b: int)
    ensures (a - b) * (a - b) == (b - a) * (b - a)
  {
  }

  /** The source's ladder: a swap is put off until the next bit asks for the other order. */
  method Ladder(p: int, scalar: seq<byte>, uBytes: seq<byte>) returns (out: seq<byte>)
    requires p > 2 && |scalar| == 32
    ensures out == Output(p, scalar, uBytes)
  {
    hide Double, DiffAdd, Bit, Value, Clamp.Scalar, Masked;
    var k := Clamp.Scalar(scalar);
    var x1: int := Masked(uBytes);
    var q2, q3, swap := Proj(1, 0), Proj(x1, 1), 0;
    for t := 255 downto 0
      invariant swap == 0 || swap == 1
      invariant Pair(p, x1, k, t) == if swap == 0 then (q2, q3) else (q3, q2)
    {
      var kt := Bit(k, t);
      DiffAddSymmetric(p, x1, q2, q3);
      swap := if swap == kt then 0 else 1;
      if swap == 1 {
        q2, q3 := q3, q2;
      }
      swap := kt;
      q2, q3 := Double(p, q2), DiffAdd(p, x1, q2, q3);
    }
    if swap == 1 {
      q2 := q3;
    }
    out := LittleEndian(Value(p, q2), 32);
  }

  /** 32 bytes, all of them `b`. */
  function Repeated(b: byte): (s: seq<byte>)
    ensures |s| == 32 && forall i :: 0 <= i < 32 ==> s[i] == b
  {
    seq(32, _ => b)
  }

  /** Whether agreeing with this key gives anything but zero, tried with one fixed secret. */
  predicate Contributory(p: int, uBytes: seq<byte>)
    requires p > 2
  {
    Output(p, Repeated(0x5c), uBytes) != Repeated(0)
  }
}
