/** Bytes the layouts must give, spelled out. */
module KnownBytes {
  import opened Results
  import opened Bytes
  import opened Statement
  import opened Parsing
  import Records

  /** One byte, `n` times. */
  function Times(n: nat, b: byte): (s: seq<byte>)
    ensures |s| == n
  {
    seq(n, _ => b)
  }

  lemma Four(b: byte)
    ensures BigEndian(b, 4) == [0, 0, 0, b]
  {
    SmallBigEndian(b, 3);
    assert BigEndian(b, 4) == BigEndian(b / 256, 3) + [b % 256];
  }

  lemma Eight(b: byte)
    ensures BigEndian(b, 8) == [0, 0, 0, 0, 0, 0, 0, b]
  {
    SmallBigEndian(b, 7);
    assert BigEndian(b, 8) == BigEndian(b / 256, 7) + [b % 256];
  }

  lemma {:induction false} SmallBigEndian(b: byte, len: nat)
    ensures BigEndian(0, len) == Times(len, 0)
    decreases len
  {
    if len > 0 {
      SmallBigEndian(b, len - 1);
    }
  }

  /** Device 1 with a key of ones, active, and device 2 with a key of twos, which replaced 32 threes, revoked in
      generation 2. */
  const ONE := Binding(1, Times(32, 1), 1, None)
  const TWO := Binding(2, Times(32, 2), 1, Some(Times(32, 3)))

  const FIXED := Statement(7, ACCOUNT, 2, [ONE], 0, [])
  const REPLACED := Statement(7, ACCOUNT, 2, [ONE], 1, [Revocation(TWO, 2)])

  // acme/alice
  const ACCOUNT: seq<byte> := [0x61, 0x63, 0x6d, 0x65, 0x2f, 0x61, 0x6c, 0x69, 0x63, 0x65]

  lemma OneBytes()
    ensures ONE.Encode() == [0, 0, 0, 1] + Times(32, 1) + [0, 0, 0, 0, 0, 0, 0, 1] + [0]
  {
    Four(1);
    Eight(1);
    hide BigEndian;
  }

  lemma TwoBytes()
    ensures TWO.Encode() == [0, 0, 0, 2] + Times(32, 2) + [0, 0, 0, 0, 0, 0, 0, 1] + ([1] + Times(32, 3))
  {
    Four(2);
    Eight(1);
    hide BigEndian;
  }

  lemma DomainIs()
    ensures DOMAIN == Ascii("Tacenta Inventory Statement v1")
  {
  }

  /** The statement the source keeps as a fixed case. */
  lemma FixedBytes()
    ensures FIXED.Encode()
            == DOMAIN + [0, 0, 0, 0, 0, 0, 0, 7] + [0, 0, 0, 10] + ACCOUNT + [0, 0, 0, 0, 0, 0, 0, 2]
               + [0, 0, 0, 1] + ([0, 0, 0, 1] + Times(32, 1) + [0, 0, 0, 0, 0, 0, 0, 1] + [0])
               + [0, 0, 0, 0, 0, 0, 0, 0] + [0, 0, 0, 0] + []
  {
    Eight(7);
    Four(10);
    Eight(2);
    Four(1);
    Eight(0);
    Four(0);
    OneBytes();
    One(EncodeBinding, ONE);
    hide BigEndian, DOMAIN, Binding.Encode, ACCOUNT;
  }

  /** One with a revoked binding that replaced another. */
  lemma ReplacedBytes()
    ensures REPLACED.Encode()
            == DOMAIN + [0, 0, 0, 0, 0, 0, 0, 7] + [0, 0, 0, 10] + ACCOUNT + [0, 0, 0, 0, 0, 0, 0, 2]
               + [0, 0, 0, 1] + ([0, 0, 0, 1] + Times(32, 1) + [0, 0, 0, 0, 0, 0, 0, 1] + [0])
               + [0, 0, 0, 0, 0, 0, 0, 1]
               + [0, 0, 0, 1] + ([0, 0, 0, 2] + Times(32, 2) + [0, 0, 0, 0, 0, 0, 0, 1] + ([1] + Times(32, 3))
                                 + [0, 0, 0, 0, 0, 0, 0, 2])
  {
    Eight(7);
    Four(10);
    Eight(2);
    Four(1);
    Eight(1);
    OneBytes();
    TwoBytes();
    One(EncodeBinding, ONE);
    One(EncodeRevocation, Revocation(TWO, 2));
    hide BigEndian, DOMAIN, Binding.Encode, ACCOUNT;
  }

  lemma One<T>(encode: T -> seq<byte>, x: T)
    ensures EncodeAll(encode, [x]) == encode(x)
  {
    assert [x][1..] == [];
  }

  /** One identity record of a current and a retired key. */
  lemma RecordBytes()
    ensures Records.Encode([Records.Record([Times(32, 1)], [Times(32, 2)])])
            == [0, 0, 0, 1] + ([0, 0, 0, 1] + Times(32, 1) + ([0, 0, 0, 1] + Times(32, 2)) + [])
  {
    Four(1);
    OneKey(Times(32, 1));
    OneKey(Times(32, 2));
    var r := Records.Record([Times(32, 1)], [Times(32, 2)]);
    assert [r][1..] == [];
    hide BigEndian, Records.Concat;
  }

  lemma OneKey(key: seq<byte>)
    ensures Records.Concat([key]) == key
  {
    assert [key][1..] == [] && key + [] == key;
  }
}
