/** Honest runs end to end: what a signer of this curve signs is accepted, and a bundle it signs establishes. */
module Honest {
  import opened Results
  import opened Bytes
  import opened Curve
  import XEdDSA
  import Statement
  import Decoder
  import Acceptance
  import Records
  import Identity
  import Initiator
  import Kem
  import Birational
  import Agreement
  import X25519

  function StatementCrypto(c: Params, sha512: XEdDSA.Hash): (r: Acceptance.Crypto)
    requires c.p > 2 && c.q > 0
  {
    Acceptance.Crypto((key, m, sig) => XEdDSA.Verify(c, sha512, key, m, sig), key => IsIdentityKey(c, key))
  }

  /** A statement's bytes and the issuer's signature over them. */
  function SignedStatement(c: Params, sha512: XEdDSA.Hash, secret: seq<byte>, st: Statement.Statement, z: seq<byte>)
    : (signed: seq<byte>)
    requires c.q > 0 && |secret| == 32 && Statement.Valid(st)
  {
    st.Encode() + XEdDSA.Sign(c, sha512, secret, Acceptance.SIGNING_LABEL + st.Encode(), z)
  }

  /** A valid statement signed by the issuer the policy names, fresh, with distinct devices and no entry refused,
      and every key in it the public key of some secret, is accepted; only a zero nonce spoils it, and then it is
      the signature that is refused. */
  lemma HonestStatement(c: Params, sha512: XEdDSA.Hash, secret: seq<byte>, st: Statement.Statement, z: seq<byte>,
                        policy: Acceptance.Policy, secretOf: seq<byte> -> seq<byte>)
    requires Lawful(c) && |secret| == 32 && Statement.Valid(st)
    requires Acceptance.IssuerKey(policy.issuers, st) == Some(XEdDSA.PublicKey(c, secret))
    requires (st.account, st.generation) in policy.freshness && Acceptance.DistinctDevices(st.active)
    requires forall e <- Acceptance.Entries(st) ::
               |secretOf(e.0.key)| == 32 && e.0.key == XEdDSA.PublicKey(c, secretOf(e.0.key))
               && !Acceptance.Refuses(policy, e)
    requires !policy.refuseStatement
    ensures var message := Acceptance.SIGNING_LABEL + st.Encode();
            var nonce := XEdDSA.Nonce(c, sha512, XEdDSA.NormalScalar(c, secret), message, z);
            Acceptance.Accept(StatementCrypto(c, sha512), SignedStatement(c, sha512, secret, st, z), st.account, policy)
            == if nonce != 0 then (None, Acceptance.AllCalls(st))
               else (Some(Acceptance.BadSignature), [Acceptance.IssuerCall(st.issuer, st.account)])
  {
    var crypto := StatementCrypto(c, sha512);
    var message := Acceptance.SIGNING_LABEL + st.Encode();
    SignedParts(c, sha512, secret, st, z);
    hide *;
    XEdDSA.SignVerifies(c, sha512, secret, message, z);
    forall e | e in Acceptance.Entries(st)
      ensures crypto.identityKey(e.0.key)
    {
      XEdDSA.PublicKeyIsIdentityKey(c, secretOf(e.0.key));
      KeyOf(c, sha512, e.0.key);
    }
    Outcome(c, sha512, secret, st, z, policy);
  }

  lemma KeyOf(c: Params, sha512: XEdDSA.Hash, key: seq<byte>)
    requires c.p > 2 && c.q > 0
    ensures StatementCrypto(c, sha512).identityKey(key) <==> IsIdentityKey(c, key)
  {
    hide IsIdentityKey;
  }

  lemma SignedParts(c: Params, sha512: XEdDSA.Hash, secret: seq<byte>, st: Statement.Statement, z: seq<byte>)
    requires c.p > 2 && c.q > 0 && |secret| == 32 && Statement.Valid(st)
    ensures var signed := SignedStatement(c, sha512, secret, st, z);
            && |signed| >= 64 && Acceptance.Body(signed) == st.Encode()
            && Acceptance.Signature(signed) == XEdDSA.Sign(c, sha512, secret, Acceptance.SIGNING_LABEL + st.Encode(), z)
            && Acceptance.Signed(signed) == Some(st)
  {
    Decoder.RoundTrip(st);
    hide Decoder.Decoded, XEdDSA.Sign, Statement.Statement.Encode, Statement.Valid;
  }

  lemma Outcome(c: Params, sha512: XEdDSA.Hash, secret: seq<byte>, st: Statement.Statement, z: seq<byte>,
                policy: Acceptance.Policy)
    requires c.p > 2 && c.q > 0 && |secret| == 32 && Statement.Valid(st)
    requires var signed := SignedStatement(c, sha512, secret, st, z);
             && |signed| >= 64 && Acceptance.Body(signed) == st.Encode()
             && Acceptance.Signature(signed)
                == XEdDSA.Sign(c, sha512, secret, Acceptance.SIGNING_LABEL + st.Encode(), z)
             && Acceptance.Signed(signed) == Some(st)
    requires Acceptance.IssuerKey(policy.issuers, st) == Some(XEdDSA.PublicKey(c, secret))
    requires (st.account, st.generation) in policy.freshness && Acceptance.DistinctDevices(st.active)
    requires forall e <- Acceptance.Entries(st) ::
               StatementCrypto(c, sha512).identityKey(e.0.key) && !Acceptance.Refuses(policy, e)
    requires !policy.refuseStatement
    ensures var message := Acceptance.SIGNING_LABEL + st.Encode();
            Acceptance.Accept(StatementCrypto(c, sha512), SignedStatement(c, sha512, secret, st, z), st.account, policy)
            == if XEdDSA.Verify(c, sha512, XEdDSA.PublicKey(c, secret), message,
                                XEdDSA.Sign(c, sha512, secret, message, z))
               then (None, Acceptance.AllCalls(st))
               else (Some(Acceptance.BadSignature), [Acceptance.IssuerCall(st.issuer, st.account)])
  {
    hide XEdDSA.Verify, XEdDSA.Sign, XEdDSA.PublicKey, Acceptance.Signed, Acceptance.Body, Acceptance.Signature,
      Acceptance.IssuerKey, Acceptance.Refuses, Acceptance.Entries, Acceptance.DistinctDevices, SignedStatement,
      Statement.Valid, Statement.Statement.Encode, IsIdentityKey;
    Acceptance.LogIsPrefix(StatementCrypto(c, sha512), SignedStatement(c, sha512, secret, st, z), st.account, policy);
  }

  // ---- establishment

  function Rules(c: Params): (r: Identity.KeyRules)
    requires c.p > 2 && c.q > 0
  {
    Identity.KeyRules(key => Canonical(c, key), key => IsIdentityKey(c, key))
  }

  function BundleCrypto(c: Params, sha512: XEdDSA.Hash, contributory: seq<byte> -> bool): (r: Initiator.Crypto)
    requires c.p > 2 && c.q > 0
  {
    Initiator.Crypto(Rules(c), (key, m, sig) => XEdDSA.Verify(c, sha512, key, m, sig), contributory)
  }

  /** The bundle is the secret's own: its identity key, and both prekeys signed by it. */
  predicate SignedBy(c: Params, sha512: XEdDSA.Hash, secret: seq<byte>, z: seq<byte>, b: Initiator.Bundle)
    requires c.p > 2 && c.q > 0 && |secret| == 32
  {
    && b.identityKey == XEdDSA.PublicKey(c, secret)
    && b.spkSig == XEdDSA.Sign(c, sha512, secret, [Initiator.EC_TYPE] + b.signedPrekey, z)
    && b.kemSig == XEdDSA.Sign(c, sha512, secret, [Initiator.KEM_TYPE] + b.kemPrekey, z)
  }

  /** Neither signature was made with a zero nonce. */
  predicate NoncesNotZero(c: Params, sha512: XEdDSA.Hash, secret: seq<byte>, z: seq<byte>, b: Initiator.Bundle)
    requires c.q > 0 && |secret| == 32
  {
    var a := XEdDSA.NormalScalar(c, secret);
    && XEdDSA.Nonce(c, sha512, a, [Initiator.EC_TYPE] + b.signedPrekey, z) != 0
    && XEdDSA.Nonce(c, sha512, a, [Initiator.KEM_TYPE] + b.kemPrekey, z) != 0
  }

  lemma AuthenticIff(c: Params, sha512: XEdDSA.Hash, contributory: seq<byte> -> bool, secret: seq<byte>, z: seq<byte>,
                     b: Initiator.Bundle)
    requires Lawful(c) && |secret| == 32 && SignedBy(c, sha512, secret, z, b)
    ensures Initiator.Authentic(BundleCrypto(c, sha512, contributory), b) <==> NoncesNotZero(c, sha512, secret, z, b)
  {
    hide Lawful, XEdDSA.Verify, XEdDSA.Sign, XEdDSA.PublicKey, XEdDSA.Nonce, XEdDSA.NormalScalar;
    XEdDSA.SignVerifies(c, sha512, secret, [Initiator.EC_TYPE] + b.signedPrekey, z);
    XEdDSA.SignVerifies(c, sha512, secret, [Initiator.KEM_TYPE] + b.kemPrekey, z);
  }

  lemma OwnKeyMeetsRules(c: Params, secret: seq<byte>)
    requires Lawful(c) && |secret| == 32
    ensures var key := XEdDSA.PublicKey(c, secret); Rules(c).canonical(key) && Rules(c).identityKey(key)
  {
    hide Lawful, XEdDSA.PublicKey, Lift;
    XEdDSA.PublicKeyIsIdentityKey(c, secret);
  }

  /** A bundle of a contact whose record holds its key current and not retired, consistent, canonical, with a KEM
      prekey that passes and contributory prekeys, establishes a session with that contact, unless a nonce was
      zero. */
  lemma HonestBundle(c: Params, sha512: XEdDSA.Hash, contributory: seq<byte> -> bool, secret: seq<byte>, z: seq<byte>,
                     i: nat, records: seq<Records.Record>, b: Initiator.Bundle)
    requires Lawful(c) && |secret| == 32 && i < |records| && SignedBy(c, sha512, secret, z, b)
    requires Identity.WellFormed(Rules(c), records[i])
    requires b.identityKey in records[i].current && b.identityKey !in records[i].retired
    requires Initiator.BundleRefusal(Rules(c), b).None? && Kem.InputOk(b.kemPrekey)
    requires Initiator.AllContributory(BundleCrypto(c, sha512, contributory), b)
    ensures var outcome := Initiator.Establish(BundleCrypto(c, sha512, contributory), Initiator.Known(i), records, b).0;
            && (outcome.Session? <==> NoncesNotZero(c, sha512, secret, z, b))
            && (outcome.Session? ==> outcome.found.attribution == Identity.Contact(i)
                                     || outcome.found.attribution == Identity.Ambiguous)
  {
    var crypto := BundleCrypto(c, sha512, contributory);
    var e := Initiator.Known(i);
    OwnKeyMeetsRules(c, secret);
    assert Initiator.ExpectationMet(crypto.rules, e, records, b.identityKey) by {
      hide Lawful, Rules, XEdDSA.PublicKey, Identity.WellFormed;
    }
    hide *;
    AuthenticIff(c, sha512, contributory, secret, z, b);
    Initiator.SessionIff(crypto, e, records, b);
    if Initiator.Establish(crypto, e, records, b).0.Session? {
      Initiator.SessionAttribution(crypto, e, records, b);
    }
  }

  // ---- prekeys that are public keys

  /** With prekeys that are public keys nothing about agreement is left to ask. */
  lemma HonestX25519Bundle(c: Params, sha512: XEdDSA.Hash, secret: seq<byte>, signedSecret: seq<byte>,
                           oneTimeSecret: seq<byte>, z: seq<byte>, i: nat, records: seq<Records.Record>,
                           b: Initiator.Bundle)
    requires Lawful(c) && Birational.SourceD(c)
    requires |secret| == |signedSecret| == |oneTimeSecret| == 32
    requires i < |records| && SignedBy(c, sha512, secret, z, b) && Identity.WellFormed(Rules(c), records[i])
    requires b.identityKey in records[i].current && b.identityKey !in records[i].retired
    requires Initiator.BundleRefusal(Rules(c), b).None? && Kem.InputOk(b.kemPrekey)
    requires b.signedPrekey == XEdDSA.PublicKey(c, signedSecret)
    requires b.oneTimePresent ==> b.oneTimePrekey == XEdDSA.PublicKey(c, oneTimeSecret)
    ensures var crypto := BundleCrypto(c, sha512, key => X25519.Contributory(c.p, key));
            var outcome := Initiator.Establish(crypto, Initiator.Known(i), records, b).0;
            && (outcome.Session? <==> NoncesNotZero(c, sha512, secret, z, b))
            && (outcome.Session? ==> outcome.found.attribution == Identity.Contact(i)
                                     || outcome.found.attribution == Identity.Ambiguous)
  {
    var contributory := key => X25519.Contributory(c.p, key);
    hide Lawful, Birational.SourceD, XEdDSA.PublicKey, X25519.Contributory, SignedBy, Rules, Identity.WellFormed;
    hide Initiator.BundleRefusal, Kem.InputOk, Initiator.Establish, NoncesNotZero;
    Agreement.PublicKeyContributes(c, signedSecret);
    Agreement.PublicKeyContributes(c, oneTimeSecret);
    HonestBundle(c, sha512, contributory, secret, z, i, records, b);
  }
}
