/** The byte layout of a list of identity records, and the decoder whose key slices go unchecked. */
module Records {
  import opened Results
  import opened Bytes

  type Key = seq<byte>

  datatype Record = Record(current: seq<Key>, retired: seq<Key>)

  /** What reading too few bytes for a count raises, and what the last test raises. */
  datatype Error = Struct | TrailingBytes

  function Concat(keys: seq<Key>): (s: seq<byte>) {
    if keys == [] then [] else keys[0] + Concat(keys[1..])
  }

  /** A list of keys behind its count. */
  function EncodeKeys(keys: seq<Key>): (s: seq<byte>) {
    BigEndian(|keys|, 4) + Concat(keys)
  }

  function EncodeMany(rs: seq<Record>): (s: seq<byte>) {
    if rs == [] then []
    else EncodeKeys(rs[0].current) + EncodeKeys(rs[0].retired) + EncodeMany(rs[1..])
  }

  /** Every count fits its four bytes: packing a larger one raises. */
  predicate CountsFit(rs: seq<Record>) {
    |rs| < 0x1_0000_0000 && forall r <- rs :: |r.current| < 0x1_0000_0000 && |r.retired| < 0x1_0000_0000
  }

  function Encode(rs: seq<Record>): (s: seq<byte>)
    requires CountsFit(rs)
  {
    BigEndian(|rs|, 4) + EncodeMany(rs)
  }

  predicate Keys32(keys: seq<Key>) {
    forall k <- keys :: |k| == 32
  }

  predicate AllKeys32(rs: seq<Record>) {
    forall r <- rs :: Keys32(r.current) && Keys32(r.retired)
  }

  // ---- decoding, as a function of the position

  /** A slice as Python takes it: whatever of the range there is. */
  function Slice(data: seq<byte>, lo: nat, hi: nat): (s: seq<byte>)
    requires lo <= hi
  {
    if lo >= |data| then [] else if hi > |data| then data[lo..] else data[lo..hi]
  }

  function U32At(data: seq<byte>, at: nat): (r: Result<(uint32, nat), Error>) {
    if |Slice(data, at, at + 4)| != 4 then Err(Struct) else
    Widths();
    BigEndianBytes(Slice(data, at, at + 4));
    Ok((FromBigEndian(Slice(data, at, at + 4)), at + 4))
  }

  function KeySlices(data: seq<byte>, at: nat, n: nat): (keys: seq<Key>)
    ensures |keys| == n
  {
    seq(n, i requires 0 <= i < n => Slice(data, at + 32 * i, at + 32 * (i + 1)))
  }

  function KeysAt(data: seq<byte>, at: nat): (r: Result<(seq<Key>, nat), Error>) {
    var (n, at') :- U32At(data, at);
    Ok((KeySlices(data, at', n), at' + 32 * n))
  }

  function RecordAt(data: seq<byte>, at: nat): (r: Result<(Record, nat), Error>) {
    var (current, at') :- KeysAt(data, at);
    var (retired, at'') :- KeysAt(data, at');
    Ok((Record(current, retired), at''))
  }

  function ManyAt(data: seq<byte>, at: nat, n: nat): (r: Result<(seq<Record>, nat), Error>)
    decreases n
  {
    if n == 0 then Ok(([], at)) else
    var (record, at') :- RecordAt(data, at);
    var (rest, end) :- ManyAt(data, at', n - 1);
    Ok(([record] + rest, end))
  }

  function Decoded(data: seq<byte>): (r: Result<seq<Record>, Error>) {
    var (n, at) :- U32At(data, 0);
    var (records, end) :- ManyAt(data, at, n);
    if end != |data| then Err(TrailingBytes) else Ok(records)
  }

  // ---- reading within bounds is exact, and never moves back

  lemma U32Exact(data: seq<byte>, at: nat, n: uint32)
    ensures U32At(data, at) == Ok((n, at + 4)) <==> at + 4 <= |data| && data[at..at + 4] == BigEndian(n, 4)
  {
    Widths();
    BigEndianValue(n, 4);
    if at + 4 <= |data| {
      BigEndianBytes(data[at..at + 4]);
    }
  }

  /** `s` is what the data holds at `at`. */
  ghost predicate Holds(data: seq<byte>, at: nat, s: seq<byte>) {
    at + |s| <= |data| && data[at..at + |s|] == s
  }

  lemma HoldsConcat(data: seq<byte>, at: nat, a: seq<byte>, b: seq<byte>)
    ensures Holds(data, at, a + b) <==> Holds(data, at, a) && Holds(data, at + |a|, b)
  {
    if at + |a| + |b| <= |data| {
      var s := data[at..at + |a + b|];
      assert s == data[at..at + |a|] + data[at + |a|..at + |a| + |b|];
      assert s[..|a|] == data[at..at + |a|] && s[|a|..] == data[at + |a|..at + |a| + |b|];
      assert (a + b)[..|a|] == a && (a + b)[|a|..] == b;
    }
  }

  lemma SliceFirst(data: seq<byte>, at: nat, n: nat)
    requires n > 0 && at + 32 * n <= |data|
    ensures var keys := KeySlices(data, at, n);
            |keys[0]| == 32 && Holds(data, at, keys[0]) && keys[1..] == KeySlices(data, at + 32, n - 1)
  {
    assert KeySlices(data, at, n)[0] == data[at..at + 32];
  }

  lemma {:induction false} SlicesConcat(data: seq<byte>, at: nat, n: nat)
    requires at + 32 * n <= |data|
    ensures var keys := KeySlices(data, at, n);
            Keys32(keys) && |Concat(keys)| == 32 * n && Holds(data, at, Concat(keys))
    decreases n
  {
    var keys := KeySlices(data, at, n);
    if n > 0 {
      var rest := KeySlices(data, at + 32, n - 1);
      SlicesConcat(data, at + 32, n - 1);
      SliceFirst(data, at, n);
      hide KeySlices, Holds, Slice;
      HoldsConcat(data, at, keys[0], Concat(rest));
    }
  }

  lemma {:induction false} ConcatLength(keys: seq<Key>)
    requires Keys32(keys)
    ensures |Concat(keys)| == 32 * |keys|
  {
    if keys != [] {
      ConcatLength(keys[1..]);
    }
  }

  /** Lists of 32-byte keys with the same bytes are the same. */
  lemma {:induction false} ConcatInjective(a: seq<Key>, b: seq<Key>)
    requires Keys32(a) && Keys32(b) && Concat(a) == Concat(b)
    ensures a == b
  {
    ConcatLength(a);
    ConcatLength(b);
    if a != [] {
      assert Concat(a)[..32] == a[0] && Concat(b)[..32] == b[0];
      assert Concat(a)[32..] == Concat(a[1..]) && Concat(b)[32..] == Concat(b[1..]);
      ConcatInjective(a[1..], b[1..]);
      assert a == [a[0]] + a[1..] && b == [b[0]] + b[1..];
    }
  }

  lemma KeysForward(data: seq<byte>, at: nat)
    ensures KeysAt(data, at).Ok? ==> KeysAt(data, at).value.1 >= at + 4
  {
  }

  predicate KeysOk(keys: seq<Key>) {
    |keys| < 0x1_0000_0000 && Keys32(keys)
  }

  /** Reading a key list within the data is exact. */
  lemma KeysExact(data: seq<byte>, at: nat, keys: seq<Key>, end: nat)
    requires end <= |data|
    ensures KeysAt(data, at) == Ok((keys, end)) <==>
            KeysOk(keys) && Holds(data, at, EncodeKeys(keys)) && end == at + |EncodeKeys(keys)|
  {
    hide BigEndian, FromBigEndian, Concat, KeySlices, Slice, Holds, Keys32;
    var n := |keys|;
    HoldsConcat(data, at, BigEndian(n, 4), Concat(keys));
    if KeysAt(data, at) == Ok((keys, end)) {
      U32Exact(data, at, n);
      CountHeld(data, at, n);
      SlicesConcat(data, at + 4, n);
    }
    if KeysOk(keys) && Holds(data, at, EncodeKeys(keys)) && end == at + |EncodeKeys(keys)| {
      ConcatLength(keys);
      CountHeld(data, at, n);
      U32Exact(data, at, n);
      HeldWithin(data, at + 4, Concat(keys));
      SlicesConcat(data, at + 4, n);
      SameHeld(data, at + 4, Concat(keys), Concat(KeySlices(data, at + 4, n)));
      ConcatInjective(keys, KeySlices(data, at + 4, n));
    }
  }

  lemma CountHeld(data: seq<byte>, at: nat, n: uint32)
    ensures at + 4 <= |data| && data[at..at + 4] == BigEndian(n, 4) <==> Holds(data, at, BigEndian(n, 4))
  {
  }

  lemma HeldWithin(data: seq<byte>, at: nat, s: seq<byte>)
    ensures Holds(data, at, s) ==> at + |s| <= |data|
  {
  }

  lemma SameHeld(data: seq<byte>, at: nat, s: seq<byte>, t: seq<byte>)
    requires Holds(data, at, s) && Holds(data, at, t) && |s| == |t|
    ensures s == t
  {
  }

  lemma {:induction false} ManyForward(data: seq<byte>, at: nat, n: nat)
    ensures ManyAt(data, at, n).Ok? ==> ManyAt(data, at, n).value.1 >= at && |ManyAt(data, at, n).value.0| == n
    decreases n
  {
    if n > 0 && RecordAt(data, at).Ok? {
      KeysForward(data, at);
      KeysForward(data, KeysAt(data, at).value.1);
      hide KeysAt;
      ManyForward(data, RecordAt(data, at).value.1, n - 1);
    }
  }

  predicate RecordOk(r: Record) {
    KeysOk(r.current) && KeysOk(r.retired)
  }

  predicate AllOk(rs: seq<Record>) {
    rs == [] || (RecordOk(rs[0]) && AllOk(rs[1..]))
  }

  function EncodeRecord(r: Record): (s: seq<byte>) {
    EncodeKeys(r.current) + EncodeKeys(r.retired)
  }

  lemma RecordExact(data: seq<byte>, at: nat, r: Record, end: nat)
    requires end <= |data|
    ensures RecordAt(data, at) == Ok((r, end)) <==>
            RecordOk(r) && Holds(data, at, EncodeRecord(r)) && end == at + |EncodeRecord(r)|
  {
    hide KeysAt, KeysOk, EncodeKeys, Holds;
    var c, t := EncodeKeys(r.current), EncodeKeys(r.retired);
    HoldsConcat(data, at, c, t);
    if RecordAt(data, at) == Ok((r, end)) {
      var mid := KeysAt(data, at).value.1;
      KeysForward(data, mid);
      KeysExact(data, at, r.current, mid);
      KeysExact(data, mid, r.retired, end);
    }
    if RecordOk(r) && Holds(data, at, EncodeRecord(r)) && end == at + |EncodeRecord(r)| {
      KeysExact(data, at, r.current, at + |c|);
      KeysExact(data, at + |c|, r.retired, end);
    }
  }

  /** Reading records that ends within the data is exact, although no slice was checked: the position only
      moves forward, so every read before the end was within the data too. */
  lemma {:induction false} ManySound(data: seq<byte>, at: nat, n: nat)
    requires at <= |data| && ManyAt(data, at, n).Ok? && ManyAt(data, at, n).value.1 <= |data|
    ensures var (rs, end) := ManyAt(data, at, n).value;
            |rs| == n && AllOk(rs) && Holds(data, at, EncodeMany(rs)) && end == at + |EncodeMany(rs)|
    decreases n
  {
    hide *;
    if n == 0 {
      NoneSound(data, at);
    } else {
      ManyStep(data, at, n);
      var (r, at') := RecordAt(data, at).value;
      var (rest, end) := ManyAt(data, at', n - 1).value;
      ManyForward(data, at', n - 1);
      RecordExact(data, at, r, at');
      ManySound(data, at', n - 1);
      Joined(data, at, r, rest);
    }
  }

  lemma NoneSound(data: seq<byte>, at: nat)
    ensures ManyAt(data, at, 0) == Ok(([], at)) && AllOk([]) && EncodeMany([]) == []
    ensures at <= |data| ==> Holds(data, at, [])
  {
  }

  lemma ManyStep(data: seq<byte>, at: nat, n: nat)
    requires n > 0 && ManyAt(data, at, n).Ok?
    ensures RecordAt(data, at).Ok? && ManyAt(data, RecordAt(data, at).value.1, n - 1).Ok?
    ensures var (r, at') := RecordAt(data, at).value; var (rest, end) := ManyAt(data, at', n - 1).value;
            ManyAt(data, at, n) == Ok(([r] + rest, end))
  {
  }

  /** One record and those after it are all of them. */
  lemma Joined(data: seq<byte>, at: nat, r: Record, rest: seq<Record>)
    ensures |EncodeMany([r] + rest)| == |EncodeRecord(r)| + |EncodeMany(rest)|
    ensures AllOk([r] + rest) <==> RecordOk(r) && AllOk(rest)
    ensures Holds(data, at, EncodeMany([r] + rest)) <==>
            Holds(data, at, EncodeRecord(r)) && Holds(data, at + |EncodeRecord(r)|, EncodeMany(rest))
    ensures Holds(data, at, EncodeRecord(r)) ==> at + |EncodeRecord(r)| <= |data|
  {
    assert ([r] + rest)[1..] == rest;
    HoldsConcat(data, at, EncodeRecord(r), EncodeMany(rest));
  }

  lemma {:induction false} ManyComplete(data: seq<byte>, at: nat, rs: seq<Record>)
    requires AllOk(rs) && Holds(data, at, EncodeMany(rs))
    ensures ManyAt(data, at, |rs|) == Ok((rs, at + |EncodeMany(rs)|))
    decreases |rs|
  {
    hide *;
    if rs == [] {
      NoneSound(data, at);
    } else {
      var r, rest := rs[0], rs[1..];
      assert rs == [r] + rest;
      Joined(data, at, r, rest);
      var at' := at + |EncodeRecord(r)|;
      RecordExact(data, at, r, at');
      ManyComplete(data, at', rest);
      ManyNext(data, at, |rs|);
    }
  }

  lemma ManyNext(data: seq<byte>, at: nat, n: nat)
    requires n > 0 && RecordAt(data, at).Ok? && ManyAt(data, RecordAt(data, at).value.1, n - 1).Ok?
    ensures var (r, at') := RecordAt(data, at).value; var (rest, end) := ManyAt(data, at', n - 1).value;
            ManyAt(data, at, n) == Ok(([r] + rest, end))
  {
  }

  lemma {:induction false} AllOkIs(rs: seq<Record>)
    ensures AllOk(rs) <==> AllKeys32(rs) && forall r <- rs :: |r.current| < 0x1_0000_0000 && |r.retired| < 0x1_0000_0000
  {
    if rs != [] {
      AllOkIs(rs[1..]);
      assert rs == [rs[0]] + rs[1..];
    }
  }

  /** The decoder accepts exactly the encodings of records of 32-byte keys, each as the records encoded. */
  lemma DecodesExactlyEncodings(data: seq<byte>, rs: seq<Record>)
    ensures Decoded(data) == Ok(rs) <==> CountsFit(rs) && AllKeys32(rs) && Encode(rs) == data
  {
    hide AllKeys32, AllOk, ManyAt, EncodeMany, BigEndian;
    AllOkIs(rs);
    assert data[0..|data|] == data;
    var head := BigEndian(|rs|, 4);
    HoldsConcat(data, 0, head, EncodeMany(rs));
    if Decoded(data) == Ok(rs) {
      var (n, at) := U32At(data, 0).value;
      U32Exact(data, 0, n);
      ManySound(data, at, n);
    }
    if CountsFit(rs) && AllKeys32(rs) && Encode(rs) == data {
      U32Exact(data, 0, |rs|);
      ManyComplete(data, 4, rs);
    }
  }

  /** What was encoded is read back exactly when every key has 32 bytes. */
  lemma RoundTripIff(rs: seq<Record>)
    requires CountsFit(rs)
    ensures Decoded(Encode(rs)) == Ok(rs) <==> AllKeys32(rs)
  {
    DecodesExactlyEncodings(Encode(rs), rs);
  }

  // ---- the decoder

  method TakeKeys(data: seq<byte>, at: nat) returns (r: Result<(seq<Key>, nat), Error>)
    ensures r == KeysAt(data, at)
  {
    var count :- U32At(data, at);
    var n: nat, at' := count.0, count.1;
    ghost var all := KeySlices(data, at', n);
    var out: seq<Key> := [];
    for i := 0 to n
      invariant out == all[..i]
    {
      out := out + [Slice(data, at' + 32 * i, at' + 32 * (i + 1))];
    }
    assert all[..n] == all;
    return Ok((out, at' + 32 * n));
  }

  /** A parse of the records still to come, with those already read put in front. */
  ghost function Prefixed(out: seq<Record>, parsed: Result<(seq<Record>, nat), Error>)
    : (r: Result<(seq<Record>, nat), Error>)
  {
    match parsed
    case Ok((rs, end)) => Ok((out + rs, end))
    case Err(e) => Err(e)
  }

  method TakeRecord(data: seq<byte>, at: nat) returns (r: Result<(Record, nat), Error>)
    ensures r == RecordAt(data, at)
  {
    var current :- TakeKeys(data, at);
    var retired :- TakeKeys(data, current.1);
    return Ok((Record(current.0, retired.0), retired.1));
  }

  method TakeMany(data: seq<byte>, start: nat, n: nat) returns (r: Result<(seq<Record>, nat), Error>)
    ensures r == ManyAt(data, start, n)
  {
    hide RecordAt, ManyAt;
    var at := start;
    var records: seq<Record> := [];
    ghost var all := ManyAt(data, start, n);
    NoneRead(all);
    for i := 0 to n
      invariant Prefixed(records, ManyAt(data, at, n - i)) == all
    {
      Unroll(data, at, n - i, records);
      var next :- TakeRecord(data, at);
      records := records + [next.0];
      at := next.1;
    }
    NoMore(data, at, records);
    return Ok((records, at));
  }

  method Decode(data: seq<byte>) returns (r: Result<seq<Record>, Error>)
    ensures r == Decoded(data)
  {
    var count :- U32At(data, 0);
    var records :- TakeMany(data, count.1, count.0);
    if records.1 != |data| {
      return Err(TrailingBytes);
    }
    return Ok(records.0);
  }

  lemma NoneRead(parsed: Result<(seq<Record>, nat), Error>)
    ensures Prefixed([], parsed) == parsed
  {
    if parsed.Ok? {
      assert [] + parsed.value.0 == parsed.value.0;
    }
  }

  lemma NoMore(data: seq<byte>, at: nat, out: seq<Record>)
    ensures Prefixed(out, ManyAt(data, at, 0)) == Ok((out, at))
  {
    assert out + [] == out;
  }

  lemma Unroll(data: seq<byte>, at: nat, n: nat, out: seq<Record>)
    requires n > 0
    ensures match RecordAt(data, at)
            case Ok((r, at')) => Prefixed(out, ManyAt(data, at, n)) == Prefixed(out + [r], ManyAt(data, at', n - 1))
            case Err(e) => Prefixed(out, ManyAt(data, at, n)) == Err(e)
  {
    if RecordAt(data, at).Ok? {
      var (r, at') := RecordAt(data, at).value;
      if ManyAt(data, at', n - 1).Ok? {
        var rest := ManyAt(data, at', n - 1).value.0;
        assert out + ([r] + rest) == out + [r] + rest;
      }
    }
  }
}
