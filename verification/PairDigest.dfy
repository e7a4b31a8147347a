/** The identity pair digest and the verification number shown for it. */
module PairDigest {
  import opened Results
  import opened Bytes
  import opened Records
  import opened Identity
  import Lex

  // "Tacenta:identity:pair-digest:v1" and 0xFF
  const LABEL: seq<byte> :=
    [84, 97, 99, 101, 110, 116, 97, 58, 105, 100, 101, 110, 116, 105, 116, 121,
     58, 112, 97, 105, 114, 45, 100, 105, 103, 101, 115, 116, 58, 118, 49, 255]

  /** a <= b, byte by byte, the shorter first when one begins the other. */
  method BytesLe(a: seq<byte>, b: seq<byte>) returns (r: bool)
    ensures r <==> !Lex.Less(b, a)
  {
    for i := 0 to if |a| < |b| then |a| else |b|
      invariant a[..i] == b[..i]
      invariant Lex.Less(b, a) <==> Lex.Less(b[i..], a[i..])
    {
      assert a[..i + 1] == a[..i] + [a[i]] && b[..i + 1] == b[..i] + [b[i]];
      assert a[i..][1..] == a[i + 1..] && b[i..][1..] == b[i + 1..];
      if a[i] != b[i] {
        return a[i] < b[i];
      }
    }
    return |a| <= |b|;
  }

  /** The refusals of the two keys, each named once, in alphabetical order. */
  function Refusals(a: Option<Refusal>, b: Option<Refusal>): (r: seq<Refusal>) {
    (if a == Some(DecodeFailure) || b == Some(DecodeFailure) then [DecodeFailure] else [])
    + (if a == Some(InvalidIdentityKey) || b == Some(InvalidIdentityKey) then [InvalidIdentityKey] else [])
  }

  /** What is hashed: the label and both keys, the smaller first. */
  function Input(k1: Key, k2: Key): (s: seq<byte>) {
    LABEL + if !Lex.Less(k2, k1) then k1 + k2 else k2 + k1
  }

  function Digest(rules: KeyRules, sha256: seq<byte> -> seq<byte>, k1: Key, k2: Key)
    : (r: Result<seq<byte>, seq<Refusal>>)
  {
    var refusals := Refusals(KeyRefusal(rules, k1), KeyRefusal(rules, k2));
    if refusals != [] then Err(refusals) else Ok(sha256(Input(k1, k2)))
  }

  /** The bytes hashed: the label, the key that is not greater, and the other. */
  lemma InputMeans(k1: Key, k2: Key)
    ensures LABEL == Ascii("Tacenta:identity:pair-digest:v1") + [0xFF]
    ensures k1 == k2 || Lex.Less(k1, k2) ==> Input(k1, k2) == LABEL + k1 + k2
    ensures Lex.Less(k2, k1) ==> Input(k1, k2) == LABEL + k2 + k1
  {
    LabelIs();
    Lex.Asymmetric(k1, k2);
    Lex.Irreflexive(k1);
    hide Lex.Less, LABEL;
    assert LABEL + (k1 + k2) == LABEL + k1 + k2 && LABEL + (k2 + k1) == LABEL + k2 + k1;
  }

  lemma LabelIs()
    ensures LABEL == Ascii("Tacenta:identity:pair-digest:v1") + [0xFF]
  {
  }

  lemma InputSymmetric(k1: Key, k2: Key)
    ensures Input(k1, k2) == Input(k2, k1)
  {
    Lex.Total(k1, k2);
    Lex.Asymmetric(k1, k2);
  }

  /** The outcome, digest or refusals, does not depend on which key is named first. */
  lemma DigestSymmetric(rules: KeyRules, sha256: seq<byte> -> seq<byte>, k1: Key, k2: Key)
    ensures Digest(rules, sha256, k1, k2) == Digest(rules, sha256, k2, k1)
  {
    InputSymmetric(k1, k2);
  }

  /** A digest of the two keys is given exactly when both pass; otherwise every refusal of either is named once, the
      decoding first. */
  lemma DigestRefusals(rules: KeyRules, sha256: seq<byte> -> seq<byte>, k1: Key, k2: Key)
    ensures Digest(rules, sha256, k1, k2) == Ok(sha256(Input(k1, k2))) <==>
            KeyRefusal(rules, k1).None? && KeyRefusal(rules, k2).None?
    ensures Digest(rules, sha256, k1, k2).Err? ==>
              var named := Digest(rules, sha256, k1, k2).error;
              && (|| named == [DecodeFailure] || named == [InvalidIdentityKey]
                  || named == [DecodeFailure, InvalidIdentityKey])
              && forall why :: why in named <==>
                               KeyRefusal(rules, k1) == Some(why) || KeyRefusal(rules, k2) == Some(why)
  {
  }

  /** What is hashed determines the unordered pair of keys. */
  lemma InputDeterminesPair(k1: Key, k2: Key, l1: Key, l2: Key)
    requires |k1| == |k2| == |l1| == |l2| == 32 && Input(k1, k2) == Input(l1, l2)
    ensures (k1 == l1 && k2 == l2) || (k1 == l2 && k2 == l1)
  {
    var (a, b) := if !Lex.Less(k2, k1) then (k1, k2) else (k2, k1);
    var (c, d) := if !Lex.Less(l2, l1) then (l1, l2) else (l2, l1);
    hide Lex.Less;
    Halves(a, b, c, d);
  }

  lemma Halves(a: Key, b: Key, c: Key, d: Key)
    requires |a| == |b| == |c| == |d| == 32 && LABEL + (a + b) == LABEL + (c + d)
    ensures a == c && b == d
  {
    var s, t := a + b, c + d;
    assert s == (LABEL + s)[|LABEL|..] && t == (LABEL + t)[|LABEL|..];
    assert a == s[..32] && c == t[..32] && b == s[32..] && d == t[32..];
  }

  // ---- the verification number

  function Pow10(n: nat): (r: nat)
    ensures r > 0
    decreases n
  {
    if n == 0 then 1 else 10 * Pow10(n - 1)
  }

  /** `n` as `len` ASCII digits, most significant first, leading zeros kept. */
  function Digits(n: nat, len: nat): (s: seq<byte>)
    ensures |s| == len
    decreases len, n
  {
    if len == 0 then [] else Digits(n / 10, len - 1) + [48 + n % 10]
  }

  function FromDigits(s: seq<byte>): (n: int) {
    if s == [] then 0 else 10 * FromDigits(s[..|s| - 1]) + s[|s| - 1] as int - 48
  }

  lemma {:induction false} DigitsValue(n: nat, len: nat)
    requires n < Pow10(len)
    ensures forall b <- Digits(n, len) :: 48 <= b <= 57
    ensures FromDigits(Digits(n, len)) == n
    decreases len
  {
    if len > 0 {
      DigitsValue(n / 10, len - 1);
      assert Digits(n, len)[..len - 1] == Digits(n / 10, len - 1);
    }
  }

  /** The digest read big-endian, modulo 10^60. */
  function VerificationNumber(digest: seq<byte>): (s: seq<byte>)
    ensures |s| == 60
  {
    Digits(FromBigEndian(digest) % Pow10(60), 60)
  }

  /** Sixty decimal digits, whose value is the digest modulo 10^60: two digests give the same number exactly
      when they agree modulo 10^60. */
  lemma VerificationNumberExact(digest: seq<byte>, digest': seq<byte>)
    ensures forall b <- VerificationNumber(digest) :: 48 <= b <= 57
    ensures FromDigits(VerificationNumber(digest)) == FromBigEndian(digest) % Pow10(60)
    ensures VerificationNumber(digest) == VerificationNumber(digest') <==>
            FromBigEndian(digest) % Pow10(60) == FromBigEndian(digest') % Pow10(60)
  {
    hide Pow10, Digits, FromDigits, FromBigEndian;
    DigitsValue(FromBigEndian(digest) % Pow10(60), 60);
    DigitsValue(FromBigEndian(digest') % Pow10(60), 60);
  }
}
