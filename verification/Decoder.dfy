/** The strict decoder of unsigned statements: what it parses, and the reader that parses it. */
module Decoder {
  import opened Results
  import opened Bytes
  import opened Parsing
  import opened Statement
  import Lex
  import Utf8

  datatype Refusal =
    | Truncated | Domain | AccountLength | AccountUtf8 | Tag | Capabilities
    | ActiveCount | RevokedCount | TrailingBytes | FloorAboveGeneration
    | TerminalGeneration | Order | BindingInBothLists | ReencodingDiffers

  // ---- the parse as a function of the bytes not yet read

  function Chunk(s: seq<byte>, n: nat): (r: Parsed<seq<byte>, Refusal>) {
    if n > |s| then Err(Truncated) else Ok((s[..n], s[n..]))
  }

  function Word32(s: seq<byte>): (r: Parsed<uint32, Refusal>) {
    var (chunk, rest) :- Chunk(s, 4);
    Widths();
    BigEndianBytes(chunk);
    Ok((FromBigEndian(chunk), rest))
  }

  function Word64(s: seq<byte>): (r: Parsed<uint64, Refusal>) {
    var (chunk, rest) :- Chunk(s, 8);
    Widths();
    BigEndianBytes(chunk);
    Ok((FromBigEndian(chunk), rest))
  }

  function Predecessor(s: seq<byte>): (r: Parsed<Option<seq<byte>>, Refusal>) {
    var (tag, rest) :- Chunk(s, 1);
    if tag[0] == 0 then Ok((None, rest))
    else if tag[0] == 1 then
      var (p, after) :- Chunk(rest, 32);
      Ok((Some(p), after))
    else Err(Tag)
  }

  function OneBinding(s: seq<byte>): (r: Parsed<Binding, Refusal>) {
    var (device, s1) :- Word32(s);
    var (key, s2) :- Chunk(s1, 32);
    var (caps, s3) :- Word64(s2);
    var (pred, s4) :- Predecessor(s3);
    // any bit of the capabilities but bit 0
    if caps == 0 || caps / 2 != 0 then Err(Capabilities)
    else Ok((Binding(device, key, caps, pred), s4))
  }

  function OneRevocation(s: seq<byte>): (r: Parsed<Revocation, Refusal>) {
    var (b, s1) :- OneBinding(s);
    var (terminal, s2) :- Word64(s1);
    Ok((Revocation(b, terminal), s2))
  }

  function Account(s: seq<byte>): (r: Parsed<seq<byte>, Refusal>)
    ensures r.Ok? ==> 0 < |r.value.0| <= MAX_ACCOUNT
  {
    var (length, s1) :- Word32(s);
    if length == 0 || length > MAX_ACCOUNT then Err(AccountLength) else
    var (account, s2) :- Chunk(s1, length);
    if Utf8.WellFormed(account) then Ok((account, s2)) else Err(AccountUtf8)
  }

  function ActiveList(s: seq<byte>): (r: Parsed<seq<Binding>, Refusal>)
    ensures r.Ok? ==> |r.value.0| <= MAX_ACTIVE
  {
    var (n, s1) :- Word32(s);
    if n > MAX_ACTIVE then Err(ActiveCount) else Many(OneBinding, s1, n)
  }

  function RevokedList(s: seq<byte>): (r: Parsed<seq<Revocation>, Refusal>)
    ensures r.Ok? ==> |r.value.0| <= MAX_REVOKED
  {
    var (n, s1) :- Word32(s);
    if n > MAX_REVOKED then Err(RevokedCount) else Many(OneRevocation, s1, n)
  }

  function Fields(s: seq<byte>): (r: Parsed<Statement, Refusal>)
    ensures r.Ok? ==> var st := r.value.0;
                      0 < |st.account| <= MAX_ACCOUNT && |st.active| <= MAX_ACTIVE && |st.revoked| <= MAX_REVOKED
  {
    var (domain, s0) :- Chunk(s, |DOMAIN|);
    if domain != DOMAIN then Err(Domain) else
    var (issuer, s1) :- Word64(s0);
    var (account, s2) :- Account(s1);
    var (generation, s3) :- Word64(s2);
    var (active, s4) :- ActiveList(s3);
    var (floor, s5) :- Word64(s4);
    var (revoked, s6) :- RevokedList(s5);
    Ok((Statement(issuer, account, generation, active, floor, revoked), s6))
  }

  predicate Increasing(group: seq<seq<byte>>) {
    forall i :: 0 < i < |group| ==> Lex.Less(group[i - 1], group[i])
  }

  function ActiveBytes(st: Statement): (group: seq<seq<byte>>)
    ensures |group| == |st.active|
  {
    seq(|st.active|, i requires 0 <= i < |st.active| => st.active[i].Encode())
  }

  function RevokedBytes(st: Statement): (group: seq<seq<byte>>)
    ensures |group| == |st.revoked|
  {
    seq(|st.revoked|, i requires 0 <= i < |st.revoked| => st.revoked[i].Encode())
  }

  /** The rules over a whole parsed statement, in the order the decoder applies them. */
  function Rules(st: Statement): (r: Option<Refusal>) {
    if st.floor > st.generation then Some(FloorAboveGeneration)
    else if exists r <- st.revoked :: !(st.floor < r.terminal <= st.generation) then Some(TerminalGeneration)
    else if !Increasing(ActiveBytes(st)) || !Increasing(RevokedBytes(st)) then Some(Order)
    else if exists r <- st.revoked :: r.binding.Encode() in ActiveBytes(st) then Some(BindingInBothLists)
    else None
  }

  /** The decoder without its last comparison. */
  function BeforeReencoding(data: seq<byte>): (r: Result<Statement, Refusal>)
    ensures r.Ok? ==>
              && |r.value.account| <= MAX_ACCOUNT
              && |r.value.active| <= MAX_ACTIVE && |r.value.revoked| <= MAX_REVOKED
  {
    Finished(Fields(data))
  }

  /** Nothing may follow the fields, and the rules must hold of them. */
  function Finished(parsed: Parsed<Statement, Refusal>): (r: Result<Statement, Refusal>)
    ensures r.Ok? ==> parsed.Ok? && r.value == parsed.value.0
  {
    var (st, rest) :- parsed;
    if rest != [] then Err(TrailingBytes) else
    match Rules(st)
    case Some(why) => Err(why)
    case None => Ok(st)
  }

  function Decoded(data: seq<byte>): (r: Result<Statement, Refusal>) {
    var st :- BeforeReencoding(data);
    if st.Encode() != data then Err(ReencodingDiffers) else Ok(st)
  }

  // ---- every parser accepts exactly the encodings, and leaves what follows them

  lemma Word32Exact(s: seq<byte>, n: uint32, rest: seq<byte>)
    ensures Word32(s) == Ok((n, rest)) <==> s == BigEndian(n, 4) + rest
  {
    Widths();
    BigEndianValue(n, 4);
    if |s| >= 4 {
      BigEndianBytes(s[..4]);
      assert s == s[..4] + s[4..];
    }
  }

  lemma Word64Exact(s: seq<byte>, n: uint64, rest: seq<byte>)
    ensures Word64(s) == Ok((n, rest)) <==> s == BigEndian(n, 8) + rest
  {
    Widths();
    BigEndianValue(n, 8);
    if |s| >= 8 {
      BigEndianBytes(s[..8]);
      assert s == s[..8] + s[8..];
    }
  }

  lemma ChunkExact(s: seq<byte>, chunk: seq<byte>, rest: seq<byte>)
    ensures Chunk(s, |chunk|) == Ok((chunk, rest)) <==> s == chunk + rest
  {
    if |s| >= |chunk| {
      assert s == s[..|chunk|] + s[|chunk|..];
    }
  }

  lemma PredecessorExact(s: seq<byte>, p: Option<seq<byte>>, rest: seq<byte>)
    ensures Predecessor(s) == Ok((p, rest)) <==>
            (p.Some? ==> |p.value| == 32) && s == PredecessorBytes(p) + rest
  {
    if s != [] {
      var tail := s[1..];
      assert s == [s[0]] + tail && s[..1] == [s[0]];
      if p.Some? {
        Assoc([1], p.value, rest);
        if |tail| >= 32 {
          assert tail == tail[..32] + tail[32..];
        }
      }
    }
  }

  const BindingOk: Binding -> bool := (b: Binding) => b.Ok()
  const RevocationOk: Revocation -> bool := (r: Revocation) => r.binding.Ok()

  lemma BindingSound(s: seq<byte>, b: Binding, rest: seq<byte>)
    requires OneBinding(s) == Ok((b, rest))
    ensures b.Ok() && s == b.Encode() + rest
  {
    var (device, s1) := Word32(s).value;
    Word32Exact(s, device, s1);
    var (key, s2) := Chunk(s1, 32).value;
    ChunkExact(s1, key, s2);
    var (caps, s3) := Word64(s2).value;
    Word64Exact(s2, caps, s3);
    var (pred, s4) := Predecessor(s3).value;
    PredecessorExact(s3, pred, s4);
    BindingPieces(b, rest);
  }

  lemma BindingPieces(b: Binding, rest: seq<byte>)
    ensures b.Encode() + rest ==
            BigEndian(b.deviceId, 4)
            + (b.key + (BigEndian(b.capabilities, 8) + (PredecessorBytes(b.predecessor) + rest)))
  {
    var d, k, c, p := BigEndian(b.deviceId, 4), b.key, BigEndian(b.capabilities, 8), PredecessorBytes(b.predecessor);
    Assoc(d + k + c, p, rest);
    Assoc(d + k, c, p + rest);
    Assoc(d, k, c + (p + rest));
  }

  lemma BindingComplete(b: Binding, rest: seq<byte>)
    requires b.Ok()
    ensures OneBinding(b.Encode() + rest) == Ok((b, rest))
  {
    var s3 := PredecessorBytes(b.predecessor) + rest;
    var s2 := BigEndian(b.capabilities, 8) + s3;
    var s1 := b.key + s2;
    BindingPieces(b, rest);
    Word32Exact(BigEndian(b.deviceId, 4) + s1, b.deviceId, s1);
    ChunkExact(s1, b.key, s2);
    Word64Exact(s2, b.capabilities, s3);
    PredecessorExact(s3, b.predecessor, rest);
  }

  lemma BindingsExact()
    ensures Exact(OneBinding, EncodeBinding, BindingOk)
  {
    forall s, b, rest
      ensures Reads(OneBinding, s, b, rest) <==> Spells(EncodeBinding, BindingOk, s, b, rest)
    {
      if Reads(OneBinding, s, b, rest) {
        BindingSound(s, b, rest);
      }
      if Spells(EncodeBinding, BindingOk, s, b, rest) {
        BindingComplete(b, rest);
      }
    }
  }

  lemma RevocationsExact()
    ensures Exact(OneRevocation, EncodeRevocation, RevocationOk)
  {
    forall s, r, rest
      ensures Reads(OneRevocation, s, r, rest) <==> Spells(EncodeRevocation, RevocationOk, s, r, rest)
    {
      var mid := BigEndian(r.terminal, 8) + rest;
      Assoc(r.binding.Encode(), BigEndian(r.terminal, 8), rest);
      Word64Exact(mid, r.terminal, rest);
      if Reads(OneRevocation, s, r, rest) {
        var (b, s1) := OneBinding(s).value;
        BindingSound(s, b, s1);
        Word64Exact(s1, r.terminal, rest);
      }
      if Spells(EncodeRevocation, RevocationOk, s, r, rest) {
        BindingComplete(r.binding, mid);
      }
    }
  }

  lemma AccountExact(s: seq<byte>, account: seq<byte>, rest: seq<byte>)
    ensures Account(s) == Ok((account, rest)) <==>
            0 < |account| <= MAX_ACCOUNT && Utf8.WellFormed(account) && s == BigEndian(|account|, 4) + (account + rest)
  {
    if 0 < |account| <= MAX_ACCOUNT {
      Word32Exact(s, |account|, account + rest);
      ChunkExact(account + rest, account, rest);
    }
    if Account(s) == Ok((account, rest)) {
      var (n, s1) := Word32(s).value;
      Word32Exact(s, n, s1);
      ChunkExact(s1, account, rest);
    }
  }

  lemma ActiveListExact(s: seq<byte>, bs: seq<Binding>, rest: seq<byte>)
    ensures ActiveList(s) == Ok((bs, rest)) <==>
            |bs| <= MAX_ACTIVE && (forall b <- bs :: b.Ok())
            && s == BigEndian(|bs|, 4) + (EncodeAll(EncodeBinding, bs) + rest)
  {
    var mid := EncodeAll(EncodeBinding, bs) + rest;
    BindingsExact();
    if |bs| <= MAX_ACTIVE {
      Word32Exact(s, |bs|, mid);
      ManyExact(OneBinding, EncodeBinding, BindingOk, mid, bs, rest);
    }
    if ActiveList(s) == Ok((bs, rest)) {
      var (n, s1) := Word32(s).value;
      Word32Exact(s, n, s1);
      ManyExact(OneBinding, EncodeBinding, BindingOk, s1, bs, rest);
    }
  }

  lemma RevokedListExact(s: seq<byte>, rs: seq<Revocation>, rest: seq<byte>)
    ensures RevokedList(s) == Ok((rs, rest)) <==>
            |rs| <= MAX_REVOKED && (forall r <- rs :: r.binding.Ok())
            && s == BigEndian(|rs|, 4) + (EncodeAll(EncodeRevocation, rs) + rest)
  {
    var mid := EncodeAll(EncodeRevocation, rs) + rest;
    RevocationsExact();
    if |rs| <= MAX_REVOKED {
      Word32Exact(s, |rs|, mid);
      ManyExact(OneRevocation, EncodeRevocation, RevocationOk, mid, rs, rest);
    }
    if RevokedList(s) == Ok((rs, rest)) {
      var (n, s1) := Word32(s).value;
      Word32Exact(s, n, s1);
      ManyExact(OneRevocation, EncodeRevocation, RevocationOk, s1, rs, rest);
    }
  }

  /** What the field layout alone asks of a statement. */
  predicate Shape(st: Statement) {
    && 0 < |st.account| <= MAX_ACCOUNT && Utf8.WellFormed(st.account)
    && |st.active| <= MAX_ACTIVE && (forall b <- st.active :: b.Ok())
    && |st.revoked| <= MAX_REVOKED && (forall r <- st.revoked :: r.binding.Ok())
  }

  lemma FieldsSound(s: seq<byte>)
    requires Fields(s).Ok?
    ensures var (st, rest) := Fields(s).value; Shape(st) && s == st.Encode() + rest
  {
    var (domain, s0) := Chunk(s, |DOMAIN|).value;
    ChunkExact(s, DOMAIN, s0);
    var (issuer, s1) := Word64(s0).value;
    Word64Exact(s0, issuer, s1);
    var (account, s2) := Account(s1).value;
    AccountExact(s1, account, s2);
    var (generation, s3) := Word64(s2).value;
    Word64Exact(s2, generation, s3);
    var (active, s4) := ActiveList(s3).value;
    ActiveListExact(s3, active, s4);
    var (floor, s5) := Word64(s4).value;
    Word64Exact(s4, floor, s5);
    var (revoked, s6) := RevokedList(s5).value;
    RevokedListExact(s5, revoked, s6);
    StatementPieces(Statement(issuer, account, generation, active, floor, revoked), s6);
  }

  /** The layout with its pieces grouped from the right, as the parser meets them. */
  lemma StatementPieces(st: Statement, rest: seq<byte>)
    requires Shape(st)
    ensures st.Encode() + rest ==
            DOMAIN + (BigEndian(st.issuer, 8) + (BigEndian(|st.account|, 4) + (st.account
            + (BigEndian(st.generation, 8) + (BigEndian(|st.active|, 4) + (EncodeAll(EncodeBinding, st.active)
            + (BigEndian(st.floor, 8)
            + (BigEndian(|st.revoked|, 4) + (EncodeAll(EncodeRevocation, st.revoked) + rest)))))))))
  {
    RegroupTen(DOMAIN, BigEndian(st.issuer, 8), BigEndian(|st.account|, 4), st.account, BigEndian(st.generation, 8),
               BigEndian(|st.active|, 4), EncodeAll(EncodeBinding, st.active), BigEndian(st.floor, 8),
               BigEndian(|st.revoked|, 4), EncodeAll(EncodeRevocation, st.revoked), rest);
  }

  lemma RegroupTen(a: seq<byte>, b: seq<byte>, c: seq<byte>, d: seq<byte>, e: seq<byte>, f: seq<byte>, g: seq<byte>,
                   h: seq<byte>, i: seq<byte>, j: seq<byte>, rest: seq<byte>)
    ensures a + b + c + d + e + f + g + h + i + j + rest ==
            a + (b + (c + (d + (e + (f + (g + (h + (i + (j + rest)))))))))
  {
    Assoc(a + b + c + d + e + f + g + h + i, j, rest);
    var r := j + rest;
    Assoc(a + b + c + d + e + f + g + h, i, r);
    r := i + r;
    Assoc(a + b + c + d + e + f + g, h, r);
    r := h + r;
    Assoc(a + b + c + d + e + f, g, r);
    r := g + r;
    Assoc(a + b + c + d + e, f, r);
    r := f + r;
    Assoc(a + b + c + d, e, r);
    r := e + r;
    Assoc(a + b + c, d, r);
    r := d + r;
    Assoc(a + b, c, r);
    Assoc(a, b, c + r);
  }

  lemma FieldsComplete(st: Statement, rest: seq<byte>)
    requires Shape(st)
    ensures Fields(st.Encode() + rest) == Ok((st, rest))
  {
    var s5 := BigEndian(|st.revoked|, 4) + (EncodeAll(EncodeRevocation, st.revoked) + rest);
    var s4 := BigEndian(st.floor, 8) + s5;
    var s3 := BigEndian(|st.active|, 4) + (EncodeAll(EncodeBinding, st.active) + s4);
    var s2 := BigEndian(st.generation, 8) + s3;
    var s1 := BigEndian(|st.account|, 4) + (st.account + s2);
    var s0 := BigEndian(st.issuer, 8) + s1;
    StatementPieces(st, rest);
    ChunkExact(DOMAIN + s0, DOMAIN, s0);
    Word64Exact(s0, st.issuer, s1);
    AccountExact(s1, st.account, s2);
    Word64Exact(s2, st.generation, s3);
    ActiveListExact(s3, st.active, s4);
    Word64Exact(s4, st.floor, s5);
    RevokedListExact(s5, st.revoked, rest);
  }

  lemma AscendingIsOrdered(st: Statement)
    requires Shape(st)
    ensures Increasing(ActiveBytes(st)) && Increasing(RevokedBytes(st)) <==> Ordered(st)
  {
    hide Lex.Less, BindingLess, RevocationLess;
    var a, r := ActiveBytes(st), RevokedBytes(st);
    forall i | 0 < i < |a|
      ensures Lex.Less(a[i - 1], a[i]) <==> BindingLess(st.active[i - 1], st.active[i])
    {
      BindingOrder(st.active[i - 1], st.active[i]);
    }
    forall i | 0 < i < |r|
      ensures Lex.Less(r[i - 1], r[i]) <==> RevocationLess(st.revoked[i - 1], st.revoked[i])
    {
      RevocationOrder(st.revoked[i - 1], st.revoked[i]);
    }
  }

  lemma ListedBytes(st: Statement, b: Binding)
    requires Shape(st) && b.Ok()
    ensures b.Encode() in ActiveBytes(st) <==> b in st.active
  {
    var a := ActiveBytes(st);
    forall i | 0 <= i < |a|
      ensures a[i] == b.Encode() <==> st.active[i] == b
    {
      BindingOrder(st.active[i], b);
    }
    if b in st.active {
      var i :| 0 <= i < |a| && st.active[i] == b;
      assert a[i] in a;
    }
  }

  /** On a statement of the right shape, the decoder's byte comparisons are the page's rules. */
  lemma RulesAreValidity(st: Statement)
    requires Shape(st)
    ensures Rules(st).None? <==> Valid(st)
  {
    AscendingIsOrdered(st);
    forall r | r in st.revoked
      ensures r.binding.Encode() in ActiveBytes(st) <==> r.binding in st.active
    {
      ListedBytes(st, r.binding);
    }
  }

  /** The decoder accepts exactly the encodings of valid statements, each as the statement it encodes. */
  lemma DecodesExactlyEncodings(data: seq<byte>, st: Statement)
    ensures BeforeReencoding(data) == Ok(st) <==> Valid(st) && st.Encode() == data
  {
    if BeforeReencoding(data) == Ok(st) {
      FieldsSound(data);
      assert st.Encode() + [] == st.Encode();
      RulesAreValidity(st);
    }
    if Valid(st) && st.Encode() == data {
      FieldsComplete(st, []);
      assert st.Encode() + [] == data;
      RulesAreValidity(st);
    }
  }

  /** The last comparison never fires: removing it changes no answer. */
  lemma ReencodingNeverDiffers(data: seq<byte>)
    ensures Decoded(data) == BeforeReencoding(data)
    ensures Decoded(data) != Err(ReencodingDiffers)
  {
    if BeforeReencoding(data).Ok? {
      DecodesExactlyEncodings(data, BeforeReencoding(data).value);
    }
    FieldsNeverReencode(data);
  }

  lemma FieldsNeverReencode(s: seq<byte>)
    ensures Fields(s) != Err(ReencodingDiffers)
  {
    forall t: seq<byte>, n: nat
      ensures Many(OneBinding, t, n) != Err(ReencodingDiffers) && Many(OneRevocation, t, n) != Err(ReencodingDiffers)
    {
      hide Many;
      ManyRefusal(OneBinding, t, n, ReencodingDiffers);
      ManyRefusal(OneRevocation, t, n, ReencodingDiffers);
    }
  }

  /** Decoding undoes encoding on every valid statement. */
  lemma RoundTrip(st: Statement)
    requires Valid(st)
    ensures Decoded(st.Encode()) == Ok(st)
  {
    DecodesExactlyEncodings(st.Encode(), st);
  }

  /** Two different valid statements never share their bytes. */
  lemma EncodingIsInjective(st: Statement, other: Statement)
    requires Valid(st) && Valid(other) && st.Encode() == other.Encode()
    ensures st == other
  {
    RoundTrip(st);
    RoundTrip(other);
  }

  // ---- the reader

  class Reader {
    const data: seq<byte>
    var pos: nat

    constructor (data: seq<byte>)
      ensures this.data == data && Valid() && Rest() == data
    {
      this.data := data;
      pos := 0;
    }

    ghost predicate Valid()
      reads this
    {
      pos <= |data|
    }

    ghost function Rest(): (rest: seq<byte>)
      requires Valid()
      reads this
    {
      data[pos..]
    }

    method Take(n: nat) returns (r: Result<seq<byte>, Refusal>)
      requires Valid()
      modifies this
      ensures Valid() && Follows(r, Rest(), Chunk(old(Rest()), n))
    {
      if pos + n > |data| {
        return Err(Truncated);
      }
      var chunk := data[pos..pos + n];
      pos := pos + n;
      assert old(Rest())[..n] == chunk;
      return Ok(chunk);
    }

    method U32() returns (r: Result<uint32, Refusal>)
      requires Valid()
      modifies this
      ensures Valid() && Follows(r, Rest(), Word32(old(Rest())))
    {
      var chunk :- Take(4);
      Widths();
      BigEndianBytes(chunk);
      return Ok(FromBigEndian(chunk));
    }

    method U64() returns (r: Result<uint64, Refusal>)
      requires Valid()
      modifies this
      ensures Valid() && Follows(r, Rest(), Word64(old(Rest())))
    {
      var chunk :- Take(8);
      Widths();
      BigEndianBytes(chunk);
      return Ok(FromBigEndian(chunk));
    }

    method TakeBinding() returns (r: Result<Binding, Refusal>)
      requires Valid()
      modifies this
      ensures Valid() && Follows(r, Rest(), OneBinding(old(Rest())))
    {
      var device :- U32();
      var key :- Take(32);
      var caps :- U64();
      var tag :- Take(1);
      var pred: Option<seq<byte>>;
      if tag[0] == 0 {
        pred := None;
      } else if tag[0] == 1 {
        var p :- Take(32);
        pred := Some(p);
      } else {
        return Err(Tag);
      }
      if caps == 0 || caps / 2 != 0 {
        return Err(Capabilities);
      }
      return Ok(Binding(device, key, caps, pred));
    }

    method TakeBindings(n: nat) returns (r: Result<seq<Binding>, Refusal>)
      requires Valid()
      modifies this
      ensures Valid() && Follows(r, Rest(), Many(OneBinding, old(Rest()), n))
    {
      hide OneBinding;
      ghost var all := Many(OneBinding, Rest(), n);
      PrefixedNone(all);
      var out: seq<Binding> := [];
      for i := 0 to n
        invariant Valid()
        invariant Prefixed(out, Many(OneBinding, Rest(), n - i)) == all
      {
        PrefixedStep(out, OneBinding, Rest(), n - i);
        var b :- TakeBinding();
        out := out + [b];
      }
      assert out + [] == out;
      return Ok(out);
    }

    method TakeRevocation() returns (r: Result<Revocation, Refusal>)
      requires Valid()
      modifies this
      ensures Valid() && Follows(r, Rest(), OneRevocation(old(Rest())))
    {
      var b :- TakeBinding();
      var terminal :- U64();
      return Ok(Revocation(b, terminal));
    }

    method TakeRevocations(n: nat) returns (r: Result<seq<Revocation>, Refusal>)
      requires Valid()
      modifies this
      ensures Valid() && Follows(r, Rest(), Many(OneRevocation, old(Rest()), n))
    {
      hide OneRevocation;
      ghost var all := Many(OneRevocation, Rest(), n);
      PrefixedNone(all);
      var out: seq<Revocation> := [];
      for i := 0 to n
        invariant Valid()
        invariant Prefixed(out, Many(OneRevocation, Rest(), n - i)) == all
      {
        PrefixedStep(out, OneRevocation, Rest(), n - i);
        var r :- TakeRevocation();
        out := out + [r];
      }
      assert out + [] == out;
      return Ok(out);
    }

    method TakeFields() returns (r: Result<Statement, Refusal>)
      requires Valid()
      modifies this
      ensures Valid() && Follows(r, Rest(), Fields(old(Rest())))
    {
      hide Chunk, Word32, Word64, OneBinding, OneRevocation, Many;
      var domain :- Take(|DOMAIN|);
      if domain != DOMAIN {
        return Err(Domain);
      }
      var issuer :- U64();
      var length :- U32();
      if length == 0 || length > MAX_ACCOUNT {
        return Err(AccountLength);
      }
      var account :- Take(length);
      if !Utf8.WellFormed(account) {
        return Err(AccountUtf8);
      }
      var generation :- U64();
      var nActive :- U32();
      if nActive > MAX_ACTIVE {
        return Err(ActiveCount);
      }
      var active :- TakeBindings(nActive);
      var floor :- U64();
      var nRevoked :- U32();
      if nRevoked > MAX_REVOKED {
        return Err(RevokedCount);
      }
      var revoked :- TakeRevocations(nRevoked);
      return Ok(Statement(issuer, account, generation, active, floor, revoked));
    }
  }

  method Ascending(group: seq<seq<byte>>) returns (r: bool)
    ensures r <==> Increasing(group)
  {
    for i := 0 to |group|
      invariant forall j :: 0 < j < i ==> Lex.Less(group[j - 1], group[j])
    {
      if i > 0 && !Lex.Less(group[i - 1], group[i]) {
        return false;
      }
    }
    return true;
  }

  /** The rules over a parsed statement, each a walk or a lookup as the decoder makes it. */
  method CheckRules(st: Statement) returns (r: Option<Refusal>)
    ensures r == Rules(st)
  {
    if st.floor > st.generation {
      return Some(FloorAboveGeneration);
    }
    for i := 0 to |st.revoked|
      invariant forall j :: 0 <= j < i ==> st.floor < st.revoked[j].terminal <= st.generation
    {
      if !(st.floor < st.revoked[i].terminal <= st.generation) {
        assert st.revoked[i] in st.revoked;
        return Some(TerminalGeneration);
      }
    }
    var active, revoked := ActiveBytes(st), RevokedBytes(st);
    var inOrder := Ascending(active);
    if inOrder {
      inOrder := Ascending(revoked);
    }
    if !inOrder {
      return Some(Order);
    }
    var exact := set b | b in active;
    if exists r <- st.revoked :: r.binding.Encode() in exact {
      return Some(BindingInBothLists);
    }
    return None;
  }

  /** The fields, nothing after them, and the rules. */
  method Parse(data: seq<byte>) returns (r: Result<Statement, Refusal>)
    ensures r == BeforeReencoding(data)
  {
    var reader := new Reader(data);
    ghost var parsed := Fields(data);
    var st :- reader.TakeFields();
    assert parsed == Ok((st, reader.Rest()));
    if reader.pos != |data| {
      return Err(TrailingBytes);
    }
    var why := CheckRules(st);
    return if why.Some? then Err(why.value) else Ok(st);
  }

  /** The decoder, with the comparison that ends it. */
  method Decode(data: seq<byte>) returns (r: Result<Statement, Refusal>)
    ensures r == Decoded(data)
  {
    var st :- Parse(data);
    if st.Encode() != data {
      return Err(ReencodingDiffers);
    }
    return Ok(st);
  }
}
