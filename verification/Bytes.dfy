/** Byte strings and the fixed-width integers packed into them. */
module Bytes {
  import opened Arithmetic
  import Lex

  type byte = x: int | 0 <= x < 256
  type uint32 = x: int | 0 <= x < 0x1_0000_0000
  type uint64 = x: int | 0 <= x < 0x1_0000_0000_0000_0000

  /** A text of ASCII characters as bytes. */
  function Ascii(s: string): (bytes: seq<byte>)
    requires forall i :: 0 <= i < |s| ==> s[i] < 128 as char
    ensures |bytes| == |s|
  {
    seq(|s|, i requires 0 <= i < |s| => s[i] as byte)
  }

  /** 2^255: the place of the highest bit in 32 bytes. */
  const TOP_BIT: int := 0x80000000_00000000_00000000_00000000_00000000_00000000_00000000_00000000

  /** 256 to the power `len`: how many values `len` bytes hold. */
  function Span(len: nat): (r: nat)
    ensures r > 0
  {
    if len == 0 then 1 else 256 * Span(len - 1)
  }

  function BigEndian(n: nat, len: nat): (s: seq<byte>)
    ensures |s| == len
    decreases len, n
  {
    if len == 0 then [] else BigEndian(n / 256, len - 1) + [n % 256]
  }

  function FromBigEndian(s: seq<byte>): (n: nat) {
    if s == [] then 0 else 256 * FromBigEndian(s[..|s| - 1]) + s[|s| - 1]
  }

  function LittleEndian(n: nat, len: nat): (s: seq<byte>)
    ensures |s| == len
    decreases len, n
  {
    if len == 0 then [] else [n % 256] + LittleEndian(n / 256, len - 1)
  }

  function FromLittleEndian(s: seq<byte>): (n: nat) {
    if s == [] then 0 else s[0] + 256 * FromLittleEndian(s[1..])
  }

  lemma {:induction false} BigEndianValue(n: nat, len: nat)
    requires n < Span(len)
    ensures FromBigEndian(BigEndian(n, len)) == n
  {
    if len > 0 {
      var s := BigEndian(n, len);
      BigEndianValue(n / 256, len - 1);
      assert s[..len - 1] == BigEndian(n / 256, len - 1);
    }
  }

  lemma {:induction false} BigEndianBytes(s: seq<byte>)
    ensures FromBigEndian(s) < Span(|s|)
    ensures BigEndian(FromBigEndian(s), |s|) == s
  {
    if s != [] {
      BigEndianBytes(s[..|s| - 1]);
    }
  }

  lemma {:induction false} LittleEndianValue(n: nat, len: nat)
    requires n < Span(len)
    ensures FromLittleEndian(LittleEndian(n, len)) == n
  {
    if len > 0 {
      LittleEndianValue(n / 256, len - 1);
    }
  }

  lemma {:induction false} LittleEndianBytes(s: seq<byte>)
    ensures FromLittleEndian(s) < Span(|s|)
    ensures LittleEndian(FromLittleEndian(s), |s|) == s
  {
    if s != [] {
      var m := FromLittleEndian(s[1..]);
      LittleEndianBytes(s[1..]);
      LowAndRest(s[0], m);
      assert [s[0]] + s[1..] == s;
    }
  }

  lemma LowAndRest(b: byte, m: nat)
    ensures (b + 256 * m) % 256 == b && (b + 256 * m) / 256 == m
  {
  }

  /** Comparing packed integers as bytes is comparing the integers. */
  lemma {:induction false} BigEndianOrder(n: nat, m: nat, len: nat)
    requires n < Span(len) && m < Span(len)
    ensures Lex.Less(BigEndian(n, len), BigEndian(m, len)) <==> n < m
    ensures BigEndian(n, len) == BigEndian(m, len) <==> n == m
  {
    BigEndianValue(n, len);
    BigEndianValue(m, len);
    if len > 0 {
      BigEndianOrder(n / 256, m / 256, len - 1);
      Lex.Append(BigEndian(n / 256, len - 1), BigEndian(m / 256, len - 1), [n % 256], [m % 256]);
    }
  }

  lemma {:induction false} FromLittleEndianAppend(a: seq<byte>, b: seq<byte>)
    ensures FromLittleEndian(a + b) == FromLittleEndian(a) + Span(|a|) * FromLittleEndian(b)
  {
    if a == [] {
      assert a + b == b;
    } else {
      assert (a + b)[1..] == a[1..] + b && (a + b)[0] == a[0];
      FromLittleEndianAppend(a[1..], b);
      Multiplied(FromLittleEndian(a[1..]), Span(|a| - 1), FromLittleEndian(b));
    }
  }

  lemma Multiplied(low: nat, span: nat, high: nat)
    ensures 256 * (low + span * high) == 256 * low + 256 * span * high
  {
  }

  lemma {:induction false} SpanSum(m: nat, n: nat)
    ensures Span(m + n) == Span(m) * Span(n)
    decreases m
  {
    if m > 0 {
      SpanSum(m - 1, n);
    }
  }

  lemma Widths()
    ensures Span(4) == 0x1_0000_0000
    ensures Span(8) == 0x1_0000_0000_0000_0000
  {
    assert Span(2) == 65536;
    assert Span(4) == 65536 * 65536;
  }

  /** The bytes do not depend on what lies above them. */
  lemma {:induction false} LittleEndianLow(n: nat, k: nat, len: nat)
    ensures LittleEndian(n + Span(len) * k, len) == LittleEndian(n, len)
    decreases len
  {
    if len > 0 {
      var m := Span(len - 1) * k;
      assert Span(len) * k == 256 * m;
      LittleEndianLow(n / 256, k, len - 1);
      LowByte(n, m);
    }
  }

  lemma LowByte(n: nat, m: nat)
    ensures (n + 256 * m) / 256 == n / 256 + m && (n + 256 * m) % 256 == n % 256
  {
  }

  /** The last byte holds what lies above the others. */
  lemma {:induction false} LittleEndianLast(n: nat, len: nat)
    ensures LittleEndian(n, len + 1) == LittleEndian(n, len) + [n / Span(len) % 256]
    decreases len
  {
    if len > 0 {
      LittleEndianLast(n / 256, len - 1);
      DivideTwice(n, 256, Span(len - 1));
    }
  }

  lemma SpanOf31()
    ensures 128 * Span(31) == TOP_BIT && Span(32) == 2 * TOP_BIT
  {
    Widths();
    SpanSum(8, 8);
    SpanSum(16, 15);
    SpanSum(8, 7);
    SpanSum(16, 16);
  }

  lemma OneByte(b: byte)
    ensures FromLittleEndian([b]) == b
  {
    assert [b][1..] == [];
  }
}
