/** Accepting a signed statement: seven checks in a fixed order, and a log of the policy's hooks. */
module Acceptance {
  import opened Results
  import opened Bytes
  import opened Statement
  import Decoder

  // "Tacenta:inventory-statement:v1" and 0xFF
  const SIGNING_LABEL: seq<byte> :=
    [84, 97, 99, 101, 110, 116, 97, 58, 105, 110, 118, 101, 110, 116, 111, 114,
     121, 45, 115, 116, 97, 116, 101, 109, 101, 110, 116, 58, 118, 49, 255]

  datatype Status = Active | Revoked

  datatype Call =
    | IssuerCall(issuer: uint64, account: seq<byte>)
    | FreshnessCall(account: seq<byte>, generation: uint64)
    | BindingCall(status: Status, binding: Binding)
    | StatementCall

  datatype Issuer = Issuer(id: uint64, account: Option<seq<byte>>, key: seq<byte>)

  datatype Policy = Policy(
    issuers: seq<Issuer>, freshness: seq<(seq<byte>, uint64)>, refuseBinding: Option<(seq<byte>, Status)>,
    refuseEveryBinding: bool, refuseStatement: bool)

  datatype Failure =
    | NotDecoded | WrongAccount | UnknownIssuer | BadSignature | NotFresh
    | DuplicateDevice | BadIdentityKey | BindingRefused | StatementRefused

  /** XEdDSA verification, and the identity-key rule. */
  datatype Crypto = Crypto(verify: (seq<byte>, seq<byte>, seq<byte>) -> bool, identityKey: seq<byte> -> bool)

  function Body(signed: seq<byte>): (s: seq<byte>)
    requires |signed| >= 64
  {
    signed[..|signed| - 64]
  }

  function Signature(signed: seq<byte>): (s: seq<byte>)
    requires |signed| >= 64
  {
    signed[|signed| - 64..]
  }

  /** The statement signed, when there is a signature and what precedes it decodes. */
  function Signed(signed: seq<byte>): (r: Option<Statement>) {
    if |signed| < 64 then None else
    match Decoder.Decoded(Body(signed))
    case Ok(st) => Some(st)
    case Err(_) => None
  }

  predicate Names(i: Issuer, st: Statement) {
    i.id == st.issuer && (i.account.None? || i.account.value == st.account)
  }

  /** The key of the first issuer that names the statement. */
  function IssuerKey(issuers: seq<Issuer>, st: Statement): (r: Option<seq<byte>>) {
    if issuers == [] then None
    else if Names(issuers[0], st) then Some(issuers[0].key)
    else IssuerKey(issuers[1..], st)
  }

  function Revocations(rs: seq<Revocation>): (es: seq<(Binding, Status)>)
    ensures |es| == |rs|
  {
    seq(|rs|, i requires 0 <= i < |rs| => (rs[i].binding, Revoked))
  }

  /** Every binding of the statement with its status, the active ones first. */
  function Entries(st: Statement): (es: seq<(Binding, Status)>) {
    seq(|st.active|, i requires 0 <= i < |st.active| => (st.active[i], Active)) + Revocations(st.revoked)
  }

  predicate Refuses(policy: Policy, e: (Binding, Status)) {
    policy.refuseEveryBinding
    || (policy.refuseBinding.Some? && policy.refuseBinding.value.0 == e.0.key && policy.refuseBinding.value.1 == e.1)
  }

  predicate DistinctDevices(bs: seq<Binding>) {
    forall i, j :: 0 <= i < j < |bs| ==> bs[i].deviceId != bs[j].deviceId
  }

  // ---- each check on its own

  function Rank(f: Failure): (n: nat) {
    match f
    case NotDecoded => 0
    case WrongAccount => 1
    case UnknownIssuer => 2
    case BadSignature => 3
    case NotFresh => 4
    case DuplicateDevice => 5
    case BadIdentityKey => 6
    case BindingRefused => 7
    case StatementRefused => 8
  }

  /** Whether the check behind a failure passes, whatever the others say. */
  predicate Passes(f: Failure, crypto: Crypto, signed: seq<byte>, account: seq<byte>, policy: Policy) {
    match Signed(signed)
    case None => false
    case Some(st) =>
      match f
      case NotDecoded => true
      case WrongAccount => st.account == account
      case UnknownIssuer => IssuerKey(policy.issuers, st).Some?
      case BadSignature =>
        var key := IssuerKey(policy.issuers, st);
        key.Some? && crypto.verify(key.value, SIGNING_LABEL + Body(signed), Signature(signed))
      case NotFresh => (st.account, st.generation) in policy.freshness
      case DuplicateDevice => DistinctDevices(st.active)
      case BadIdentityKey => forall e <- Entries(st) :: crypto.identityKey(e.0.key)
      case BindingRefused => forall e <- Entries(st) :: !Refuses(policy, e)
      case StatementRefused => !policy.refuseStatement
  }

  // ---- the pipeline as a function

  function BindingCalls(es: seq<(Binding, Status)>): (calls: seq<Call>)
    ensures |calls| == |es|
  {
    seq(|es|, i requires 0 <= i < |es| => BindingCall(es[i].1, es[i].0))
  }

  /** Every call a statement can give rise to, in order. */
  function AllCalls(st: Statement): (calls: seq<Call>) {
    [IssuerCall(st.issuer, st.account), FreshnessCall(st.account, st.generation)]
    + BindingCalls(Entries(st)) + [StatementCall]
  }

  /** How many entries the policy is asked about: up to and with the first it refuses. */
  function Asked(policy: Policy, es: seq<(Binding, Status)>): (n: nat)
    ensures n <= |es|
  {
    if es == [] then 0
    else if Refuses(policy, es[0]) then 1
    else 1 + Asked(policy, es[1..])
  }

  function Accept(crypto: Crypto, signed: seq<byte>, account: seq<byte>,
                  policy: Policy): (r: (Option<Failure>, seq<Call>)) {
    match Signed(signed)
    case None => (Some(NotDecoded), [])
    case Some(st) =>
      var issuerCall := [IssuerCall(st.issuer, st.account)];
      var freshCall := issuerCall + [FreshnessCall(st.account, st.generation)];
      var es := Entries(st);
      var asked := freshCall + BindingCalls(es)[..Asked(policy, es)];
      if st.account != account then (Some(WrongAccount), [])
      else if IssuerKey(policy.issuers, st).None? then (Some(UnknownIssuer), issuerCall)
      else if !crypto.verify(IssuerKey(policy.issuers, st).value, SIGNING_LABEL + Body(signed), Signature(signed)) then
        (Some(BadSignature), issuerCall)
      else if (st.account, st.generation) !in policy.freshness then (Some(NotFresh), freshCall)
      else if !DistinctDevices(st.active) then (Some(DuplicateDevice), freshCall)
      else if exists e <- es :: !crypto.identityKey(e.0.key) then (Some(BadIdentityKey), freshCall)
      else if exists e <- es :: Refuses(policy, e) then (Some(BindingRefused), asked)
      else if policy.refuseStatement then (Some(StatementRefused), asked + [StatementCall])
      else (None, asked + [StatementCall])
  }

  // ---- first failing check wins

  /** A failure is returned exactly when its check fails and every check of lower rank passes. */
  lemma FirstFailureWins(crypto: Crypto, signed: seq<byte>, account: seq<byte>, policy: Policy, f: Failure)
    ensures Accept(crypto, signed, account, policy).0 == Some(f) <==>
            && !Passes(f, crypto, signed, account, policy)
            && forall g :: Rank(g) < Rank(f) ==> Passes(g, crypto, signed, account, policy)
  {
    hide Decoder.Decoded, Signed, IssuerKey, Entries, Refuses, DistinctDevices, BindingCalls, Asked;
    InOrder(crypto, signed, account, policy, f);
  }

  /** The quantifier over lower ranks, check by check. */
  lemma InOrder(crypto: Crypto, signed: seq<byte>, account: seq<byte>, policy: Policy, f: Failure)
    ensures (forall g :: Rank(g) < Rank(f) ==> Passes(g, crypto, signed, account, policy)) <==>
            && (0 < Rank(f) ==> Passes(NotDecoded, crypto, signed, account, policy))
            && (1 < Rank(f) ==> Passes(WrongAccount, crypto, signed, account, policy))
            && (2 < Rank(f) ==> Passes(UnknownIssuer, crypto, signed, account, policy))
            && (3 < Rank(f) ==> Passes(BadSignature, crypto, signed, account, policy))
            && (4 < Rank(f) ==> Passes(NotFresh, crypto, signed, account, policy))
            && (5 < Rank(f) ==> Passes(DuplicateDevice, crypto, signed, account, policy))
            && (6 < Rank(f) ==> Passes(BadIdentityKey, crypto, signed, account, policy))
            && (7 < Rank(f) ==> Passes(BindingRefused, crypto, signed, account, policy))
  {
    hide Passes;
    assert Rank(NotDecoded) == 0 && Rank(WrongAccount) == 1 && Rank(UnknownIssuer) == 2 && Rank(BadSignature) == 3;
    assert Rank(NotFresh) == 4 && Rank(DuplicateDevice) == 5 && Rank(BadIdentityKey) == 6 && Rank(BindingRefused) == 7;
  }

  /** A statement is accepted exactly when every check passes. */
  lemma AcceptedIff(crypto: Crypto, signed: seq<byte>, account: seq<byte>, policy: Policy)
    ensures Accept(crypto, signed, account, policy).0.None? <==>
            forall f :: Passes(f, crypto, signed, account, policy)
  {
    hide Accept, Passes;
    forall f
      ensures Accept(crypto, signed, account, policy).0 == Some(f) ==> !Passes(f, crypto, signed, account, policy)
    {
      FirstFailureWins(crypto, signed, account, policy, f);
    }
    if !forall f :: Passes(f, crypto, signed, account, policy) {
      var f := LowestFailure(crypto, signed, account, policy);
      FirstFailureWins(crypto, signed, account, policy, f);
    } else if Accept(crypto, signed, account, policy).0.Some? {
      FirstFailureWins(crypto, signed, account, policy, Accept(crypto, signed, account, policy).0.value);
    }
  }

  lemma LowestFailure(crypto: Crypto, signed: seq<byte>, account: seq<byte>, policy: Policy) returns (f: Failure)
    requires !forall f :: Passes(f, crypto, signed, account, policy)
    ensures !Passes(f, crypto, signed, account, policy)
    ensures forall g :: Rank(g) < Rank(f) ==> Passes(g, crypto, signed, account, policy)
  {
    hide Passes;
    f :| !Passes(f, crypto, signed, account, policy);
    while exists g :: Rank(g) < Rank(f) && !Passes(g, crypto, signed, account, policy)
      invariant !Passes(f, crypto, signed, account, policy)
      decreases Rank(f)
    {
      var g :| Rank(g) < Rank(f) && !Passes(g, crypto, signed, account, policy);
      f := g;
    }
  }

  // ---- the log

  /** The log is a beginning of the one list of calls the statement fixes; an accepted statement's is all of it. */
  lemma LogIsPrefix(crypto: Crypto, signed: seq<byte>, account: seq<byte>, policy: Policy)
    ensures var (failure, log) := Accept(crypto, signed, account, policy);
            match Signed(signed)
            case None => log == []
            case Some(st) => log <= AllCalls(st) && (failure.None? ==> log == AllCalls(st))
  {
    hide Decoder.Decoded, Signed, IssuerKey, Entries, Refuses, DistinctDevices;
    if Signed(signed).Some? {
      var es := Entries(Signed(signed).value);
      AskedAll(policy, es);
    }
  }

  lemma {:induction false} AskedAll(policy: Policy, es: seq<(Binding, Status)>)
    ensures (forall e <- es :: !Refuses(policy, e)) ==> Asked(policy, es) == |es|
  {
    hide Refuses;
    if es != [] {
      AskedAll(policy, es[1..]);
    }
  }

  /** The policy with its refusals taken out: the same issuers and freshness, and no entry or statement refused. */
  function Permitting(policy: Policy): (r: Policy) {
    policy.(refuseBinding := None, refuseEveryBinding := false, refuseStatement := false)
  }

  /** What a policy logs is a beginning of what the same input logs under the policy that refuses nothing, and under
      any policy that accepts it. */
  lemma LogUnderPermittingPolicy(crypto: Crypto, signed: seq<byte>, account: seq<byte>, policy: Policy, other: Policy)
    ensures Accept(crypto, signed, account, policy).1 <= Accept(crypto, signed, account, Permitting(policy)).1
    ensures Accept(crypto, signed, account, other).0.None? ==>
              Accept(crypto, signed, account, policy).1 <= Accept(crypto, signed, account, other).1
  {
    hide Decoder.Decoded, Signed, IssuerKey, Entries, DistinctDevices, AllCalls, Asked, BindingCalls;
    LogIsPrefix(crypto, signed, account, policy);
    LogIsPrefix(crypto, signed, account, other);
    if Signed(signed).Some? {
      var st := Signed(signed).value;
      var es := Entries(st);
      NoneRefused(policy, es);
      AskedAll(policy, es);
      AskedAll(Permitting(policy), es);
      PrefixGrows([IssuerCall(st.issuer, st.account)] + [FreshnessCall(st.account, st.generation)],
                  BindingCalls(es), Asked(policy, es), [StatementCall]);
    }
  }

  lemma PrefixGrows(a: seq<Call>, b: seq<Call>, n: nat, c: seq<Call>)
    requires n <= |b|
    ensures a + b[..n] <= a + b[..|b|] + c
  {
  }

  lemma NoneRefused(policy: Policy, es: seq<(Binding, Status)>)
    ensures forall e <- es :: !Refuses(Permitting(policy), e)
  {
  }

  /** No hook of a binding or of the statement is called before the signature, the freshness, the devices and
      every active and revoked key have passed. */
  lemma NoEarlyHook(crypto: Crypto, signed: seq<byte>, account: seq<byte>, policy: Policy, call: Call)
    requires call in Accept(crypto, signed, account, policy).1 && (call.BindingCall? || call.StatementCall?)
    ensures forall f :: Rank(f) <= Rank(BadIdentityKey) ==> Passes(f, crypto, signed, account, policy)
    ensures call.StatementCall? ==> Passes(BindingRefused, crypto, signed, account, policy)
  {
    hide Decoder.Decoded, Signed, IssuerKey, Entries, Refuses, DistinctDevices, Asked;
  }

  /** The entries asked about are those up to and with the first refused. */
  lemma {:induction false} AskedStops(policy: Policy, es: seq<(Binding, Status)>)
    ensures var n := Asked(policy, es);
            && (forall i :: 0 <= i < n - 1 ==> !Refuses(policy, es[i]))
            && ((exists e <- es :: Refuses(policy, e)) ==> n > 0 && Refuses(policy, es[n - 1]))
  {
    hide Refuses;
    if es != [] && !Refuses(policy, es[0]) {
      AskedStops(policy, es[1..]);
    }
  }

  // ---- the source's walk

  method FindKey(issuers: seq<Issuer>, st: Statement) returns (key: Option<seq<byte>>)
    ensures key == IssuerKey(issuers, st)
  {
    for i := 0 to |issuers|
      invariant IssuerKey(issuers, st) == IssuerKey(issuers[i..], st)
    {
      assert issuers[i..][1..] == issuers[i + 1..];
      if Names(issuers[i], st) {
        return Some(issuers[i].key);
      }
    }
    return None;
  }

  function Devices(bs: seq<Binding>): (ids: set<uint32>) {
    set b <- bs :: b.deviceId
  }

  lemma DevicesSplit(init: seq<Binding>, last: Binding)
    ensures Devices(init + [last]) == Devices(init) + {last.deviceId}
  {
    var bs := init + [last];
    assert forall b :: b in bs <==> b in init || b == last;
  }

  lemma DistinctSplit(init: seq<Binding>, last: Binding)
    ensures DistinctDevices(init + [last]) <==> DistinctDevices(init) && last.deviceId !in Devices(init)
  {
    var bs := init + [last];
    if DistinctDevices(bs) {
      forall i, j | 0 <= i < j < |init|
        ensures init[i].deviceId != init[j].deviceId
      {
        assert bs[i].deviceId != bs[j].deviceId;
      }
      forall b | b in init
        ensures b.deviceId != last.deviceId
      {
        var i :| 0 <= i < |init| && init[i] == b;
        assert bs[i].deviceId != bs[|init|].deviceId;
      }
    }
    if last.deviceId !in Devices(init) {
      assert forall i :: 0 <= i < |init| ==> init[i] in init && init[i].deviceId in Devices(init);
    }
  }

  /** `len(set(ids)) == len(ids)` */
  lemma {:induction false} DistinctIsSetSize(bs: seq<Binding>)
    ensures |Devices(bs)| <= |bs|
    ensures |Devices(bs)| == |bs| <==> DistinctDevices(bs)
  {
    if bs != [] {
      var init, last := bs[..|bs| - 1], bs[|bs| - 1];
      assert bs == init + [last];
      DistinctIsSetSize(init);
      DevicesSplit(init, last);
      DistinctSplit(init, last);
      if last.deviceId in Devices(init) {
        assert Devices(bs) == Devices(init);
      }
    }
  }

  /** The checks as the source makes them, the log growing as the hooks are called. */
  method AcceptSigned(crypto: Crypto, signed: seq<byte>, account: seq<byte>, policy: Policy)
    returns (failure: Option<Failure>, log: seq<Call>)
    ensures (failure, log) == Accept(crypto, signed, account, policy)
  {
    hide Decoder.Decoded, IssuerKey, Refuses, DistinctDevices;
    log := [];
    if |signed| < 64 {
      return Some(NotDecoded), log;
    }
    var body, sig := Body(signed), Signature(signed);
    var decoded := Decoder.Decode(body);
    if decoded.Err? {
      return Some(NotDecoded), log;
    }
    var st := decoded.value;
    if st.account != account {
      return Some(WrongAccount), log;
    }
    log := log + [IssuerCall(st.issuer, st.account)];
    assert log == [IssuerCall(st.issuer, st.account)];
    var key := FindKey(policy.issuers, st);
    if key.None? {
      return Some(UnknownIssuer), log;
    }
    if !crypto.verify(key.value, SIGNING_LABEL + body, sig) {
      return Some(BadSignature), log;
    }
    log := log + [FreshnessCall(st.account, st.generation)];
    if (st.account, st.generation) !in policy.freshness {
      return Some(NotFresh), log;
    }
    DistinctIsSetSize(st.active);
    var ids := Devices(st.active);
    if |ids| != |st.active| {
      return Some(DuplicateDevice), log;
    }
    var es := Entries(st);
    if exists e <- es :: !crypto.identityKey(e.0.key) {
      return Some(BadIdentityKey), log;
    }
    var refused;
    refused, log := AskBindings(policy, es, log);
    if refused {
      return Some(BindingRefused), log;
    }
    log := log + [StatementCall];
    return if policy.refuseStatement then Some(StatementRefused) else None, log;
  }

  method AskBindings(policy: Policy, es: seq<(Binding, Status)>, before: seq<Call>)
    returns (refused: bool, log: seq<Call>)
    ensures refused <==> exists e <- es :: Refuses(policy, e)
    ensures log == before + BindingCalls(es)[..Asked(policy, es)]
  {
    hide Refuses;
    log := before;
    ghost var calls := BindingCalls(es);
    for i := 0 to |es|
      invariant log == before + calls[..i]
      invariant forall j :: 0 <= j < i ==> !Refuses(policy, es[j])
      invariant Asked(policy, es) == i + Asked(policy, es[i..])
    {
      assert es[i..][1..] == es[i + 1..];
      log := log + [BindingCall(es[i].1, es[i].0)];
      assert before + calls[..i + 1] == before + calls[..i] + [calls[i]];
      if Refuses(policy, es[i]) {
        return true, log;
      }
    }
    assert calls[..|es|] == calls;
    return false, log;
  }
}
