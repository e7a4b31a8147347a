/** What the acceptance checks ask and what the log holds, in the statement's and the policy's own terms. */
module AcceptanceLaws {
  import opened Results
  import opened Bytes
  import opened Statement
  import opened Acceptance
  import Decoder

  /** What is signed is a valid statement's bytes and then 64 more. */
  lemma SignedMeans(signed: seq<byte>, st: Statement)
    ensures Signed(signed) == Some(st) <==> Valid(st) && |signed| >= 64 && signed[..|signed| - 64] == st.Encode()
  {
    hide Decoder.Decoded, Decoder.BeforeReencoding, Valid;
    if |signed| >= 64 {
      var body := signed[..|signed| - 64];
      Decoder.ReencodingNeverDiffers(body);
      Decoder.DecodesExactlyEncodings(body, st);
    }
  }

  ghost predicate NamedBy(issuer: Issuer, st: Statement) {
    issuer.id == st.issuer && (issuer.account == None || issuer.account == Some(st.account))
  }

  /** The issuer at `i` is the first that names the statement by its id, and by its account where it lists one. */
  ghost predicate FirstNaming(issuers: seq<Issuer>, st: Statement, i: int) {
    0 <= i < |issuers| && NamedBy(issuers[i], st) && forall j :: 0 <= j < i ==> !NamedBy(issuers[j], st)
  }

  lemma {:induction false} IssuerKeyMeans(issuers: seq<Issuer>, st: Statement, i: nat)
    requires i <= |issuers| && forall j :: 0 <= j < i ==> !NamedBy(issuers[j], st)
    ensures match IssuerKey(issuers[i..], st)
            case None => forall j :: 0 <= j < |issuers| ==> !NamedBy(issuers[j], st)
            case Some(key) => exists j :: FirstNaming(issuers, st, j) && issuers[j].key == key
    decreases |issuers| - i
  {
    if i < |issuers| {
      assert issuers[i..][0] == issuers[i] && issuers[i..][1..] == issuers[i + 1..];
      if NamedBy(issuers[i], st) {
        assert FirstNaming(issuers, st, i);
      } else {
        IssuerKeyMeans(issuers, st, i + 1);
      }
    }
  }

  /** The policy refuses a binding it lists the key of, with the list the binding is in, or refuses every one. */
  ghost predicate RefusesNone(policy: Policy, st: Statement) {
    && (policy.refuseEveryBinding ==> st.active == [] && st.revoked == [])
    && (forall i :: 0 <= i < |st.active| ==> policy.refuseBinding != Some((st.active[i].key, Active)))
    && (forall j :: 0 <= j < |st.revoked| ==> policy.refuseBinding != Some((st.revoked[j].binding.key, Revoked)))
  }

  ghost predicate DevicesDiffer(st: Statement) {
    forall i, j :: 0 <= i < j < |st.active| ==> st.active[i].deviceId != st.active[j].deviceId
  }

  ghost predicate KeysPass(crypto: Crypto, st: Statement) {
    && (forall i :: 0 <= i < |st.active| ==> crypto.identityKey(st.active[i].key))
    && (forall j :: 0 <= j < |st.revoked| ==> crypto.identityKey(st.revoked[j].binding.key))
  }

  /** What the check behind a failure asks of a statement signed so. */
  ghost predicate Asks(f: Failure, crypto: Crypto, signed: seq<byte>, st: Statement, account: seq<byte>, policy: Policy)
    requires |signed| >= 64
  {
    match f
    case NotDecoded => true
    case WrongAccount => st.account == account
    case UnknownIssuer => exists i :: FirstNaming(policy.issuers, st, i)
    case BadSignature =>
      exists i :: FirstNaming(policy.issuers, st, i) &&
                  crypto.verify(policy.issuers[i].key, SIGNING_LABEL + signed[..|signed| - 64], signed[|signed| - 64..])
    case NotFresh => (st.account, st.generation) in policy.freshness
    case DuplicateDevice => DevicesDiffer(st)
    case BadIdentityKey => KeysPass(crypto, st)
    case BindingRefused => RefusesNone(policy, st)
    case StatementRefused => !policy.refuseStatement
  }

  /** A signed statement is accepted, or refused for `f`, exactly by what the checks ask. */
  lemma OutcomeMeans(crypto: Crypto, signed: seq<byte>, st: Statement, account: seq<byte>, policy: Policy, f: Failure)
    requires |signed| >= 64 && Signed(signed) == Some(st)
    ensures var outcome := Accept(crypto, signed, account, policy).0;
            && (outcome == None <==> forall g :: Asks(g, crypto, signed, st, account, policy))
            && (outcome == Some(f) <==>
                  && !Asks(f, crypto, signed, st, account, policy)
                  && forall g :: Rank(g) < Rank(f) ==> Asks(g, crypto, signed, st, account, policy))
  {
    hide Signed, Accept, Passes, Asks, Rank;
    forall g
      ensures Passes(g, crypto, signed, account, policy) <==> Asks(g, crypto, signed, st, account, policy)
    {
      PassesMeans(g, crypto, signed, st, account, policy);
    }
    AcceptedIff(crypto, signed, account, policy);
    FirstFailureWins(crypto, signed, account, policy, f);
  }

  /** Bytes that are no signed statement are refused before any hook is called. */
  lemma NotSigned(crypto: Crypto, signed: seq<byte>, account: seq<byte>, policy: Policy)
    ensures Accept(crypto, signed, account, policy).0 == Some(NotDecoded) <==> Signed(signed) == None
    ensures Signed(signed) == None ==> Accept(crypto, signed, account, policy).1 == []
  {
    hide Signed;
  }

  lemma PassesMeans(f: Failure, crypto: Crypto, signed: seq<byte>, st: Statement, account: seq<byte>, policy: Policy)
    requires |signed| >= 64 && Signed(signed) == Some(st)
    ensures Passes(f, crypto, signed, account, policy) <==> Asks(f, crypto, signed, st, account, policy)
  {
    NamingMeans(crypto, SIGNING_LABEL + signed[..|signed| - 64], signed[|signed| - 64..], st, policy);
    KeysMean(crypto, st);
    RefusalMeans(policy, st);
    hide IssuerKey, Entries, Refuses, RefusesNone, FirstNaming, Signed, KeysPass, NamedBy;
  }

  lemma NamingMeans(crypto: Crypto, message: seq<byte>, sig: seq<byte>, st: Statement, policy: Policy)
    ensures var key := IssuerKey(policy.issuers, st);
            && (key.Some? <==> exists i :: FirstNaming(policy.issuers, st, i))
            && (key.Some? && crypto.verify(key.value, message, sig) <==>
                  exists i :: FirstNaming(policy.issuers, st, i) && crypto.verify(policy.issuers[i].key, message, sig))
  {
    hide IssuerKey, NamedBy;
    assert policy.issuers[0..] == policy.issuers;
    IssuerKeyMeans(policy.issuers, st, 0);
    assert forall i, j :: FirstNaming(policy.issuers, st, i) && FirstNaming(policy.issuers, st, j) ==> i == j;
  }

  lemma LabelIs()
    ensures SIGNING_LABEL == Ascii("Tacenta:inventory-statement:v1") + [0xFF]
  {
  }

  lemma KeysMean(crypto: Crypto, st: Statement)
    ensures (forall e <- Entries(st) :: crypto.identityKey(e.0.key)) <==> KeysPass(crypto, st)
  {
    EntriesAt(st);
    hide Entries;
  }

  lemma RefusalMeans(policy: Policy, st: Statement)
    ensures (forall e <- Entries(st) :: !Refuses(policy, e)) <==> RefusesNone(policy, st)
  {
    EntriesAt(st);
    hide Entries;
    var es := Entries(st);
    forall i | 0 <= i < |st.active|
      ensures (st.active[i], Active) in es
    {
      assert es[i] in es;
    }
    forall j | 0 <= j < |st.revoked|
      ensures (st.revoked[j].binding, Revoked) in es
    {
      assert es[|st.active| + j] in es;
    }
    assert es != [] ==> es[0] in es;
  }

  /** The active bindings in order, and then the revoked. */
  lemma EntriesAt(st: Statement)
    ensures |Entries(st)| == |st.active| + |st.revoked|
    ensures forall i :: 0 <= i < |st.active| ==> Entries(st)[i] == (st.active[i], Active)
    ensures forall j :: 0 <= j < |st.revoked| ==> Entries(st)[|st.active| + j] == (st.revoked[j].binding, Revoked)
    ensures forall e <- Entries(st) ::
              || (exists i :: 0 <= i < |st.active| && e == (st.active[i], Active))
              || (exists j :: 0 <= j < |st.revoked| && e == (st.revoked[j].binding, Revoked))
  {
    var es, n := Entries(st), |st.active|;
    forall e | e in es
      ensures || (exists i :: 0 <= i < |st.active| && e == (st.active[i], Active))
              || (exists j :: 0 <= j < |st.revoked| && e == (st.revoked[j].binding, Revoked))
    {
      var k :| 0 <= k < |es| && es[k] == e;
      assert k < n ==> e == (st.active[k], Active);
      assert k >= n ==> e == (st.revoked[k - n].binding, Revoked);
    }
  }

  // ---- the log

  /** Every call a statement can give rise to: the issuer, the freshness, each active binding, each revoked one, and
      the statement. */
  ghost predicate AllCallsOf(st: Statement, calls: seq<Call>) {
    var n, m := |st.active|, |st.revoked|;
    && |calls| == 3 + n + m
    && calls[0] == IssuerCall(st.issuer, st.account) && calls[1] == FreshnessCall(st.account, st.generation)
    && (forall i :: 0 <= i < n ==> calls[2 + i] == BindingCall(Active, st.active[i]))
    && (forall j :: 0 <= j < m ==> calls[2 + n + j] == BindingCall(Revoked, st.revoked[j].binding))
    && calls[2 + n + m] == StatementCall
  }

  ghost predicate RefusesAt(policy: Policy, call: Call) {
    call.BindingCall? && (policy.refuseEveryBinding || policy.refuseBinding == Some((call.binding.key, call.status)))
  }

  /** How much of it is logged, by the outcome. */
  ghost predicate Logged(policy: Policy, failure: Option<Failure>, calls: seq<Call>, log: seq<Call>) {
    && log <= calls
    && match failure
       case None => |log| == |calls|
       case Some(StatementRefused) => |log| == |calls|
       case Some(BindingRefused) =>
         && |log| > 2 && RefusesAt(policy, log[|log| - 1])
         && forall i :: 0 <= i < |log| - 1 ==> !RefusesAt(policy, log[i])
       case Some(NotDecoded) => log == []
       case Some(WrongAccount) => log == []
       case Some(UnknownIssuer) => |log| == 1
       case Some(BadSignature) => |log| == 1
       case _ => |log| == 2
  }

  lemma LogMeans(crypto: Crypto, signed: seq<byte>, st: Statement, account: seq<byte>, policy: Policy, calls: seq<Call>)
    requires Signed(signed) == Some(st) && AllCallsOf(st, calls)
    ensures var (failure, log) := Accept(crypto, signed, account, policy); Logged(policy, failure, calls, log)
  {
    hide *;
    CallsAre(st, calls);
    LogShape(crypto, signed, account, policy, st, calls);
    AskedLog(policy, Entries(st), calls);
    var (failure, log) := Accept(crypto, signed, account, policy);
    if failure == Some(BindingRefused) {
      OutcomeRefuses(crypto, signed, account, policy, st);
    }
    LoggedFrom(policy, failure, calls, log, Asked(policy, Entries(st)));
  }

  function HowMany(failure: Option<Failure>, all: nat, asked: nat): (n: nat)
    requires 3 + asked <= all
    ensures n <= all
  {
    match failure
    case None => all
    case Some(StatementRefused) => all
    case Some(BindingRefused) => 2 + asked
    case Some(NotDecoded) => 0
    case Some(WrongAccount) => 0
    case Some(UnknownIssuer) => 1
    case Some(BadSignature) => 1
    case _ => 2
  }

  lemma LoggedFrom(policy: Policy, failure: Option<Failure>, calls: seq<Call>, log: seq<Call>, asked: nat)
    requires |calls| >= 3 + asked && log == calls[..HowMany(failure, |calls|, asked)]
    requires failure == Some(BindingRefused) ==>
               && asked > 0 && RefusesAt(policy, calls[asked + 1])
               && forall i :: 0 <= i < asked + 1 ==> !RefusesAt(policy, calls[i])
    ensures Logged(policy, failure, calls, log)
  {
    hide RefusesAt;
  }

  /** The log is so many calls from the front. */
  lemma LogShape(crypto: Crypto, signed: seq<byte>, account: seq<byte>, policy: Policy, st: Statement, calls: seq<Call>)
    requires Signed(signed) == Some(st) && |calls| == 3 + |Entries(st)|
    requires calls == [IssuerCall(st.issuer, st.account), FreshnessCall(st.account, st.generation)]
                      + BindingCalls(Entries(st)) + [StatementCall]
    ensures var (failure, log) := Accept(crypto, signed, account, policy);
            log == calls[..HowMany(failure, |calls|, Asked(policy, Entries(st)))]
  {
    var es := Entries(st);
    AskedAll(policy, es);
    hide Signed, Entries, BindingCalls, Refuses, Asked, IssuerKey, DistinctDevices;
    assert BindingCalls(es)[..|es|] == BindingCalls(es);
  }

  lemma OutcomeRefuses(crypto: Crypto, signed: seq<byte>, account: seq<byte>, policy: Policy, st: Statement)
    requires Signed(signed) == Some(st) && Accept(crypto, signed, account, policy).0 == Some(BindingRefused)
    ensures exists e <- Entries(st) :: Refuses(policy, e)
  {
    hide Signed, Entries, BindingCalls, Refuses, Asked, IssuerKey, DistinctDevices;
  }

  lemma CallsAre(st: Statement, calls: seq<Call>)
    requires AllCallsOf(st, calls)
    ensures |calls| == 3 + |Entries(st)| && calls[2..2 + |Entries(st)|] == BindingCalls(Entries(st))
    ensures !calls[0].BindingCall? && !calls[1].BindingCall?
    ensures calls == [IssuerCall(st.issuer, st.account), FreshnessCall(st.account, st.generation)]
                     + BindingCalls(Entries(st)) + [StatementCall]
  {
    EntriesAt(st);
  }

  /** What is logged of a list whose entries are asked about in turn. */
  lemma AskedLog(policy: Policy, es: seq<(Binding, Status)>, calls: seq<Call>)
    requires |calls| == 3 + |es| && calls[2..2 + |es|] == BindingCalls(es)
    requires !calls[0].BindingCall? && !calls[1].BindingCall?
    ensures var n := Asked(policy, es);
            && calls[..2 + n] == calls[..2] + BindingCalls(es)[..n]
            && ((forall e <- es :: !Refuses(policy, e)) ==> n == |es|)
            && ((exists e <- es :: Refuses(policy, e)) ==>
                  && n > 0 && RefusesAt(policy, calls[n + 1])
                  && forall i :: 0 <= i < n + 1 ==> !RefusesAt(policy, calls[i]))
  {
    var n := Asked(policy, es);
    AskedAll(policy, es);
    AskedStops(policy, es);
    assert forall i :: 0 <= i < |es| ==> calls[2 + i] == BindingCalls(es)[i] == BindingCall(es[i].1, es[i].0);
    forall i | 0 <= i < |es|
      ensures RefusesAt(policy, calls[2 + i]) <==> Refuses(policy, es[i])
    {
    }
    hide Refuses, RefusesAt, BindingCalls, Asked;
    if exists e <- es :: Refuses(policy, e) {
      forall i | 0 <= i < n + 1
        ensures !RefusesAt(policy, calls[i])
      {
        if i < 2 {
          NoBinding(policy, calls[i]);
        } else {
          assert !Refuses(policy, es[i - 2]);
          assert calls[2 + (i - 2)] == calls[i];
        }
      }
      assert calls[2 + (n - 1)] == calls[n + 1];
    }
  }

  lemma NoBinding(policy: Policy, call: Call)
    requires !call.BindingCall?
    ensures !RefusesAt(policy, call)
  {
  }
}
