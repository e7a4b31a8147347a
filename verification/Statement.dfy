/** Hosted device-inventory statements: the entries, their bytes, and the order the page fixes. */
module Statement {
  import opened Results
  import opened Bytes
  import opened Parsing
  import Lex
  import Utf8

  // "Tacenta Inventory Statement v1"
  const DOMAIN: seq<byte> :=
    [84, 97, 99, 101, 110, 116, 97, 32, 73, 110, 118, 101, 110, 116, 111, 114, 121, 32,
     83, 116, 97, 116, 101, 109, 101, 110, 116, 32, 118, 49]
  const GROUP_EPOCH_V1 := 1
  const MAX_ACCOUNT := 256
  const MAX_ACTIVE := 8
  const MAX_REVOKED := 8

  /** The bytes after the capabilities: the tag decides before the lengths differ. */
  function PredecessorBytes(p: Option<seq<byte>>): (s: seq<byte>) {
    match p case None => [0] case Some(q) => [1] + q
  }

  datatype Binding = Binding(
    deviceId: uint32, key: seq<byte>, capabilities: uint64, predecessor: Option<seq<byte>>)
  {
    function Encode(): (s: seq<byte>) {
      BigEndian(deviceId, 4) + key + BigEndian(capabilities, 8)
      + PredecessorBytes(predecessor)
    }

    /** What the layout can hold: a 32-byte key and predecessor, and the one capability. */
    predicate Ok() {
      && |key| == 32
      && capabilities == GROUP_EPOCH_V1
      && (predecessor.Some? ==> |predecessor.value| == 32)
    }
  }

  datatype Revocation = Revocation(binding: Binding, terminal: uint64) {
    function Encode(): (s: seq<byte>) {
      binding.Encode() + BigEndian(terminal, 8)
    }
  }

  datatype Statement = Statement(
    issuer: uint64, account: seq<byte>, generation: uint64,
    active: seq<Binding>, floor: uint64, revoked: seq<Revocation>)
  {
    function Encode(): (s: seq<byte>)
      requires |account| < 0x1_0000_0000 && |active| < 0x1_0000_0000 && |revoked| < 0x1_0000_0000
    {
      DOMAIN + BigEndian(issuer, 8)
      + BigEndian(|account|, 4) + account
      + BigEndian(generation, 8)
      + BigEndian(|active|, 4) + EncodeAll(EncodeBinding, active)
      + BigEndian(floor, 8)
      + BigEndian(|revoked|, 4) + EncodeAll(EncodeRevocation, revoked)
    }
  }

  const EncodeBinding: Binding -> seq<byte> := (b: Binding) => b.Encode()
  const EncodeRevocation: Revocation -> seq<byte> := (r: Revocation) => r.Encode()

  // ---- the structural order

  predicate OptionLess(p: Option<seq<byte>>, q: Option<seq<byte>>) {
    q.Some? && (p.None? || Lex.Less(p.value, q.value))
  }

  /** Device id first, then key, capabilities, and a missing predecessor before a present one. */
  predicate BindingLess(a: Binding, b: Binding) {
    if a.deviceId != b.deviceId then a.deviceId < b.deviceId
    else if a.key != b.key then Lex.Less(a.key, b.key)
    else if a.capabilities != b.capabilities then a.capabilities < b.capabilities
    else OptionLess(a.predecessor, b.predecessor)
  }

  predicate RevocationLess(a: Revocation, b: Revocation) {
    if a.binding != b.binding then BindingLess(a.binding, b.binding) else a.terminal < b.terminal
  }

  // ---- what the page asks of a statement

  predicate FieldsOk(st: Statement) {
    && 0 < |st.account| <= MAX_ACCOUNT
    && Utf8.WellFormed(st.account)
    && |st.active| <= MAX_ACTIVE
    && |st.revoked| <= MAX_REVOKED
    && (forall b <- st.active :: b.Ok())
    && (forall r <- st.revoked :: r.binding.Ok())
    && st.floor <= st.generation
    && (forall r <- st.revoked :: st.floor < r.terminal <= st.generation)
    && (forall r <- st.revoked :: r.binding !in st.active)
  }

  predicate Ordered(st: Statement) {
    && (forall i :: 0 < i < |st.active| ==> BindingLess(st.active[i - 1], st.active[i]))
    && (forall i :: 0 < i < |st.revoked| ==> RevocationLess(st.revoked[i - 1], st.revoked[i]))
  }

  predicate Valid(st: Statement) {
    FieldsOk(st) && Ordered(st)
  }

  /** A 32-byte key, capability 1, and no predecessor or one of 32 bytes. */
  ghost predicate EntryFits(b: Binding) {
    |b.key| == 32 && b.capabilities == 1 && (b.predecessor == None || |b.predecessor.value| == 32)
  }

  /** The limits in numbers: 1 to 256 bytes of account, at most 8 active and 8 revoked entries, no revoked entry that is
      active too, and terminal generations above the floor and not above the statement's. */
  lemma ValidMeans(st: Statement)
    ensures Valid(st) <==>
            && 1 <= |st.account| <= 256 && Utf8.WellFormed(st.account)
            && |st.active| <= 8 && |st.revoked| <= 8 && st.floor <= st.generation
            && (forall i :: 0 <= i < |st.active| ==> EntryFits(st.active[i]))
            && (forall j :: 0 <= j < |st.revoked| ==>
                  var r := st.revoked[j];
                  EntryFits(r.binding) && st.floor < r.terminal <= st.generation && r.binding !in st.active)
            && (forall i :: 0 < i < |st.active| ==> BindingLess(st.active[i - 1], st.active[i]))
            && (forall j :: 0 < j < |st.revoked| ==> RevocationLess(st.revoked[j - 1], st.revoked[j]))
  {
    hide Utf8.WellFormed, BindingLess, RevocationLess;
    forall b: Binding
      ensures b.Ok() <==> EntryFits(b)
    {
    }
    hide Binding.Ok, EntryFits;
  }

  // ---- byte order is the structural order

  lemma BindingHead(a: Binding, b: Binding, x: seq<byte>, y: seq<byte>)
    requires |a.key| == |b.key|
    ensures var ha, hb := BigEndian(a.deviceId, 4) + a.key + BigEndian(a.capabilities, 8),
                          BigEndian(b.deviceId, 4) + b.key + BigEndian(b.capabilities, 8);
            Lex.Less(ha + x, hb + y) <==>
            if a.deviceId != b.deviceId then a.deviceId < b.deviceId
            else if a.key != b.key then Lex.Less(a.key, b.key)
            else if a.capabilities != b.capabilities then a.capabilities < b.capabilities
            else Lex.Less(x, y)
  {
    Widths();
    var da, db := BigEndian(a.deviceId, 4), BigEndian(b.deviceId, 4);
    var ca, cb := BigEndian(a.capabilities, 8), BigEndian(b.capabilities, 8);
    BigEndianOrder(a.deviceId, b.deviceId, 4);
    BigEndianOrder(a.capabilities, b.capabilities, 8);
    assert da + a.key + ca + x == da + (a.key + (ca + x));
    assert db + b.key + cb + y == db + (b.key + (cb + y));
    Lex.Append(da, db, a.key + (ca + x), b.key + (cb + y));
    Lex.Append(a.key, b.key, ca + x, cb + y);
    Lex.Append(ca, cb, x, y);
    Lex.Irreflexive(da);
    Lex.Irreflexive(a.key);
    Lex.Irreflexive(ca);
  }

  lemma PredecessorOrder(p: Option<seq<byte>>, q: Option<seq<byte>>, x: seq<byte>, y: seq<byte>)
    requires p.Some? && q.Some? ==> |p.value| == |q.value|
    ensures Lex.Less(PredecessorBytes(p) + x, PredecessorBytes(q) + y) <==>
            if p != q then OptionLess(p, q) else Lex.Less(x, y)
  {
    if p.Some? && q.Some? {
      assert PredecessorBytes(p) + x == [1] + (p.value + x);
      assert PredecessorBytes(q) + y == [1] + (q.value + y);
      Lex.Append([1], [1], p.value + x, q.value + y);
      Lex.Append(p.value, q.value, x, y);
      Lex.Irreflexive([1]);
      Lex.Irreflexive(p.value);
    } else if p == q {
      Lex.Append([0], [0], x, y);
      Lex.Irreflexive([0]);
    }
  }

  /** Byte order on bindings followed by anything, although bindings have two lengths. */
  lemma BindingOrderThen(a: Binding, b: Binding, x: seq<byte>, y: seq<byte>)
    requires a.Ok() && b.Ok()
    ensures Lex.Less(a.Encode() + x, b.Encode() + y) <==>
            if a != b then BindingLess(a, b) else Lex.Less(x, y)
  {
    var ha, hb := BigEndian(a.deviceId, 4) + a.key + BigEndian(a.capabilities, 8),
                  BigEndian(b.deviceId, 4) + b.key + BigEndian(b.capabilities, 8);
    var pa, pb := PredecessorBytes(a.predecessor), PredecessorBytes(b.predecessor);
    assert a.Encode() + x == ha + (pa + x);
    assert b.Encode() + y == hb + (pb + y);
    BindingHead(a, b, pa + x, pb + y);
    PredecessorOrder(a.predecessor, b.predecessor, x, y);
  }

  lemma BindingOrder(a: Binding, b: Binding)
    requires a.Ok() && b.Ok()
    ensures Lex.Less(a.Encode(), b.Encode()) <==> BindingLess(a, b)
    ensures a.Encode() == b.Encode() <==> a == b
  {
    BindingOrderThen(a, b, [], []);
    BindingOrderThen(b, a, [], []);
    assert a.Encode() + [] == a.Encode() && b.Encode() + [] == b.Encode();
    Lex.Irreflexive(a.Encode());
    BindingLessTotal(a, b);
  }

  lemma RevocationOrder(a: Revocation, b: Revocation)
    requires a.binding.Ok() && b.binding.Ok()
    ensures Lex.Less(a.Encode(), b.Encode()) <==> RevocationLess(a, b)
    ensures a.Encode() == b.Encode() <==> a == b
  {
    Widths();
    var x, y := BigEndian(a.terminal, 8), BigEndian(b.terminal, 8);
    BindingOrderThen(a.binding, b.binding, x, y);
    BindingOrderThen(b.binding, a.binding, y, x);
    BigEndianOrder(a.terminal, b.terminal, 8);
    BigEndianOrder(b.terminal, a.terminal, 8);
    Lex.Irreflexive(a.Encode());
    BindingLessTotal(a.binding, b.binding);
  }

  /** The structural order compares any two different bindings, one way only. */
  lemma BindingLessTotal(a: Binding, b: Binding)
    ensures a != b ==> BindingLess(a, b) || BindingLess(b, a)
    ensures a == b ==> !BindingLess(a, b)
  {
    Lex.Total(a.key, b.key);
    Lex.Irreflexive(a.key);
    if a.predecessor.Some? && b.predecessor.Some? {
      Lex.Total(a.predecessor.value, b.predecessor.value);
      Lex.Irreflexive(a.predecessor.value);
    }
  }
}
