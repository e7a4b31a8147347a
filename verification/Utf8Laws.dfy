/** Well-formed UTF-8 is exactly the bytes of a sequence of Unicode scalar values. */
module Utf8Laws {
  import opened Arithmetic
  import opened Bytes
  import opened Utf8

  /** A code point that is no surrogate. */
  predicate Scalar(cp: nat) {
    cp < 0x11_0000 && !(0xD800 <= cp < 0xE000)
  }

  /** Its bytes: seven bits in one, eleven in two, sixteen in three, and twenty-one in four. */
  function Encode(cp: nat): (s: seq<byte>)
    requires Scalar(cp)
    ensures s != []
  {
    if cp < 0x80 then [cp]
    else if cp < 0x800 then [0xC0 + cp / 64, 0x80 + cp % 64]
    else if cp < 0x1_0000 then [0xE0 + cp / 4096, 0x80 + cp / 64 % 64, 0x80 + cp % 64]
    else [0xF0 + cp / 262144, 0x80 + cp / 4096 % 64, 0x80 + cp / 64 % 64, 0x80 + cp % 64]
  }

  predicate AllScalar(cps: seq<nat>) {
    forall i :: 0 <= i < |cps| ==> Scalar(cps[i])
  }

  function EncodeAll(cps: seq<nat>): (s: seq<byte>)
    requires AllScalar(cps)
  {
    if cps == [] then [] else Encode(cps[0]) + EncodeAll(cps[1..])
  }

  /** What comes first in a scalar's bytes and more is that scalar's length. */
  lemma LengthOf(cp: nat, rest: seq<byte>)
    requires Scalar(cp)
    ensures CharLength(Encode(cp) + rest) == |Encode(cp)|
  {
    var s := Encode(cp) + rest;
    assert s[0] == Encode(cp)[0];
    if cp >= 0x80 {
      assert s[1] == Encode(cp)[1];
    }
    if cp >= 0x800 {
      assert s[2] == Encode(cp)[2];
    }
    if cp >= 0x1_0000 {
      assert s[3] == Encode(cp)[3];
    }
  }

  lemma {:induction false} EncodedIsWellFormed(cps: seq<nat>)
    requires AllScalar(cps)
    ensures WellFormed(EncodeAll(cps))
  {
    hide CharLength, Encode;
    if cps != [] {
      var rest := EncodeAll(cps[1..]);
      EncodedIsWellFormed(cps[1..]);
      LengthOf(cps[0], rest);
      assert (Encode(cps[0]) + rest)[|Encode(cps[0])|..] == rest;
    }
  }

  /** A character's bytes are those of a scalar. */
  lemma FirstScalar(s: seq<byte>) returns (cp: nat)
    requires CharLength(s) > 0
    ensures Scalar(cp) && Encode(cp) == s[..CharLength(s)]
  {
    var n := CharLength(s);
    if n == 1 {
      cp := s[0];
    } else if n == 2 {
      cp := TwoBytes(s);
    } else if n == 3 {
      cp := ThreeBytes(s);
    } else {
      cp := FourBytes(s);
    }
  }

  lemma TwoBytes(s: seq<byte>) returns (cp: nat)
    requires CharLength(s) == 2
    ensures Scalar(cp) && Encode(cp) == s[..2]
  {
    var a: int, b: int := s[0], s[1];
    cp := (a - 0xC0) * 64 + (b - 0x80);
  }

  lemma ThreeBytes(s: seq<byte>) returns (cp: nat)
    requires CharLength(s) == 3
    ensures Scalar(cp) && Encode(cp) == s[..3]
  {
    var a: int, b: int, c: int := s[0] - 0xE0, s[1] - 0x80, s[2] - 0x80;
    cp := (a * 64 + b) * 64 + c;
    SixBits(a * 64 + b, c);
    SixBits(a, b);
    DivideTwice(cp, 64, 64);
    assert 0x800 <= cp < 0x1_0000 && Scalar(cp);
    hide CharLength;
    assert s[..3] == [s[0], s[1], s[2]];
  }

  lemma FourBytes(s: seq<byte>) returns (cp: nat)
    requires CharLength(s) == 4
    ensures Scalar(cp) && Encode(cp) == s[..4]
  {
    var a: int, b: int, c: int, d: int := s[0] - 0xF0, s[1] - 0x80, s[2] - 0x80, s[3] - 0x80;
    cp := ((a * 64 + b) * 64 + c) * 64 + d;
    SixBits((a * 64 + b) * 64 + c, d);
    SixBits(a * 64 + b, c);
    SixBits(a, b);
    DivideTwice(cp, 64, 64);
    DivideTwice(cp, 4096, 64);
    assert 0x1_0000 <= cp < 0x11_0000;
    hide CharLength;
    assert s[..4] == [s[0], s[1], s[2], s[3]];
  }

  lemma SixBits(n: nat, x: nat)
    requires x < 64
    ensures (n * 64 + x) / 64 == n && (n * 64 + x) % 64 == x
  {
  }

  lemma {:induction false} WellFormedScalars(s: seq<byte>) returns (cps: seq<nat>)
    requires WellFormed(s)
    ensures AllScalar(cps) && EncodeAll(cps) == s
    decreases |s|
  {
    hide CharLength, Encode;
    if s == [] {
      cps := [];
    } else {
      var n := CharLength(s);
      var cp := FirstScalar(s);
      var rest := WellFormedScalars(s[n..]);
      cps := [cp] + rest;
      assert cps[1..] == rest && s == s[..n] + s[n..];
    }
  }

  /** The strict decoder takes exactly the encodings of scalar values: no surrogate, nothing above U+10FFFF and no
      longer form of a shorter one. */
  lemma WellFormedIff(s: seq<byte>)
    ensures WellFormed(s) <==> exists cps :: AllScalar(cps) && EncodeAll(cps) == s
  {
    hide WellFormed, EncodeAll, AllScalar;
    if WellFormed(s) {
      var cps := WellFormedScalars(s);
    }
    forall cps | AllScalar(cps) && EncodeAll(cps) == s
      ensures WellFormed(s)
    {
      EncodedIsWellFormed(cps);
    }
  }
}
