/** What each refusal of the initiator means: its own check fails, and every check before it passes. */
module InitiatorLaws {
  import opened Results
  import opened Records
  import opened Identity
  import opened Initiator
  import opened IdentityLaws
  import Kem

  /** The place of a refusal's check among the others. Two refusals of the identity key share one. */
  function Place(why: Refusal): (n: nat) {
    match why
    case MalformedRecord => 0
    case InconsistentBundle => 1
    case NonCanonicalKey => 2
    case DecodeFailure => 3
    case InvalidIdentityKey => 4
    case RetiredIdentity => 5
    case UnexpectedIdentity => 5
    case AuthenticationFailure => 6
    case KemInput => 7
    case NonContributory => 8
  }

  /** What a refusal says of the records and the bundle. */
  ghost predicate Says(why: Refusal, crypto: Crypto, e: Expectation, records: seq<Record>, b: Bundle)
    requires e.Known? ==> e.contact < |records|
  {
    var rules, key := crypto.rules, b.identityKey;
    match why
    case MalformedRecord =>
      if e.Known? then
        var r := records[e.contact];
        !AllCanonical(rules, r) || (r.current == [] && r.retired == [])
      else exists i :: 0 <= i < |records| && !AllCanonical(rules, records[i])
    case InconsistentBundle => b.oneTimePresent <==> b.oneTimeId == 0
    case NonCanonicalKey =>
      || !rules.canonical(key) || !rules.canonical(b.signedPrekey)
      || (b.oneTimePresent && !rules.canonical(b.oneTimePrekey))
    case DecodeFailure => !rules.canonical(key)
    case InvalidIdentityKey => !rules.identityKey(key)
    case RetiredIdentity =>
      if e.Known? then key in records[e.contact].retired
      else
        && (forall i :: 0 <= i < |records| ==> !HasCurrent(rules, key, records[i]))
        && exists i :: 0 <= i < |records| && HasRetired(rules, key, records[i])
    case UnexpectedIdentity =>
      if e.Known? then key !in records[e.contact].current && key !in records[e.contact].retired
      else exists i :: 0 <= i < |records| && HasCurrent(rules, key, records[i])
    case AuthenticationFailure =>
      || !crypto.verify(key, [0x05] + b.signedPrekey, b.spkSig)
      || !crypto.verify(key, [0x08] + b.kemPrekey, b.kemSig)
    case KemInput => !Kem.InputOk(b.kemPrekey)
    case NonContributory =>
      !crypto.contributory(b.signedPrekey) || (b.oneTimePresent && !crypto.contributory(b.oneTimePrekey))
  }

  /** An establishment is refused for `why` exactly when that is so and nothing of an earlier place is; a session is
      what is left, and holds what the lookup finds. */
  lemma RefusedIff(crypto: Crypto, e: Expectation, records: seq<Record>, b: Bundle, why: Refusal)
    requires e.Known? ==> e.contact < |records|
    ensures Establish(crypto, e, records, b).0 == Refused(why) <==>
            && Says(why, crypto, e, records, b)
            && forall other :: Place(other) < Place(why) ==> !Says(other, crypto, e, records, b)
    ensures Establish(crypto, e, records, b).0.Session? <==> forall other :: !Says(other, crypto, e, records, b)
    ensures Establish(crypto, e, records, b).0.Session? ==>
              Lookup(crypto.rules, b.identityKey, records) == Ok(Establish(crypto, e, records, b).0.found)
  {
    OutcomeIs(crypto, e, records, b);
    hide Says, Establish, Lookup, FirstSaid;
    FirstSaidIff(crypto, e, records, b, why);
    NothingSaid(crypto, e, records, b);
  }

  lemma FirstSaidIff(crypto: Crypto, e: Expectation, records: seq<Record>, b: Bundle, why: Refusal)
    requires e.Known? ==> e.contact < |records|
    requires Says(DecodeFailure, crypto, e, records, b) ==> Says(NonCanonicalKey, crypto, e, records, b)
    requires Says(RetiredIdentity, crypto, e, records, b) ==> !Says(UnexpectedIdentity, crypto, e, records, b)
    ensures FirstSaid(crypto, e, records, b) == Some(why) <==>
            && Says(why, crypto, e, records, b)
            && forall other :: Place(other) < Place(why) ==> !Says(other, crypto, e, records, b)
  {
    hide Says;
    InPlace(crypto, e, records, b, why);
  }

  lemma NothingSaid(crypto: Crypto, e: Expectation, records: seq<Record>, b: Bundle)
    requires e.Known? ==> e.contact < |records|
    requires Says(DecodeFailure, crypto, e, records, b) ==> Says(NonCanonicalKey, crypto, e, records, b)
    ensures FirstSaid(crypto, e, records, b) == None <==> forall other :: !Says(other, crypto, e, records, b)
  {
    hide Says;
    forall other | FirstSaid(crypto, e, records, b) == None
      ensures !Says(other, crypto, e, records, b)
    {
      match other
      case MalformedRecord | InconsistentBundle | NonCanonicalKey | DecodeFailure | InvalidIdentityKey =>
      case _ =>
    }
  }

  ghost function FirstSaid(crypto: Crypto, e: Expectation, records: seq<Record>, b: Bundle): (r: Option<Refusal>)
    requires e.Known? ==> e.contact < |records|
  {
    if Says(MalformedRecord, crypto, e, records, b) then Some(MalformedRecord)
    else if Says(InconsistentBundle, crypto, e, records, b) then Some(InconsistentBundle)
    else if Says(NonCanonicalKey, crypto, e, records, b) then Some(NonCanonicalKey)
    else if Says(InvalidIdentityKey, crypto, e, records, b) then Some(InvalidIdentityKey)
    else if Says(RetiredIdentity, crypto, e, records, b) then Some(RetiredIdentity)
    else if Says(UnexpectedIdentity, crypto, e, records, b) then Some(UnexpectedIdentity)
    else if Says(AuthenticationFailure, crypto, e, records, b) then Some(AuthenticationFailure)
    else if Says(KemInput, crypto, e, records, b) then Some(KemInput)
    else if Says(NonContributory, crypto, e, records, b) then Some(NonContributory)
    else None
  }

  lemma OutcomeIs(crypto: Crypto, e: Expectation, records: seq<Record>, b: Bundle)
    requires e.Known? ==> e.contact < |records|
    ensures match FirstSaid(crypto, e, records, b)
            case Some(why) => Establish(crypto, e, records, b).0 == Refused(why)
            case None =>
              && Lookup(crypto.rules, b.identityKey, records).Ok?
              && Establish(crypto, e, records, b).0 == Session(Lookup(crypto.rules, b.identityKey, records).value)
    ensures Says(DecodeFailure, crypto, e, records, b) ==> Says(NonCanonicalKey, crypto, e, records, b)
    ensures Says(RetiredIdentity, crypto, e, records, b) ==> !Says(UnexpectedIdentity, crypto, e, records, b)
  {
    var rules, key := crypto.rules, b.identityKey;
    ExpectationMeans(crypto, e, records, b);
    BundleMeans(crypto, e, records, b);
    KeysSay(crypto, e, records, b);
    if !Says(MalformedRecord, crypto, e, records, b) && !Says(NonCanonicalKey, crypto, e, records, b) {
      KeyMeans(crypto, e, records, b);
      if rules.identityKey(key) {
        ConcludeMeans(crypto, e, records, b);
      }
    }
    hide Says, Conclude, ExpectationRefusal, BundleRefusal, IdentityRefusal, Lookup;
  }

  lemma KeysSay(crypto: Crypto, e: Expectation, records: seq<Record>, b: Bundle)
    requires e.Known? ==> e.contact < |records|
    ensures Says(DecodeFailure, crypto, e, records, b) ==> Says(NonCanonicalKey, crypto, e, records, b)
    ensures Says(InvalidIdentityKey, crypto, e, records, b) <==> !crypto.rules.identityKey(b.identityKey)
    ensures !Says(NonCanonicalKey, crypto, e, records, b) ==> crypto.rules.canonical(b.identityKey)
    ensures Says(RetiredIdentity, crypto, e, records, b) ==> !Says(UnexpectedIdentity, crypto, e, records, b)
  {
    hide HasCurrent, HasRetired, AllCanonical;
  }

  lemma ExpectationMeans(crypto: Crypto, e: Expectation, records: seq<Record>, b: Bundle)
    requires e.Known? ==> e.contact < |records|
    ensures ExpectationRefusal(crypto.rules, e, records)
            == if Says(MalformedRecord, crypto, e, records, b) then Some(MalformedRecord) else None
  {
    forall r
      ensures WellFormed(crypto.rules, r) <==> AllCanonical(crypto.rules, r)
    {
      WellFormedMeans(crypto.rules, r);
    }
    hide WellFormed, AllCanonical;
  }

  lemma BundleMeans(crypto: Crypto, e: Expectation, records: seq<Record>, b: Bundle)
    requires e.Known? ==> e.contact < |records|
    ensures BundleRefusal(crypto.rules, b)
            == if Says(InconsistentBundle, crypto, e, records, b) then Some(InconsistentBundle)
               else if Says(NonCanonicalKey, crypto, e, records, b) then Some(NonCanonicalKey) else None
  {
  }

  lemma KeyMeans(crypto: Crypto, e: Expectation, records: seq<Record>, b: Bundle)
    requires e.Known? ==> e.contact < |records|
    requires !Says(MalformedRecord, crypto, e, records, b) && !Says(NonCanonicalKey, crypto, e, records, b)
    ensures IdentityRefusal(crypto.rules, e, records, b.identityKey)
            == if Says(InvalidIdentityKey, crypto, e, records, b) then Some(InvalidIdentityKey)
               else if Says(RetiredIdentity, crypto, e, records, b) then Some(RetiredIdentity)
               else if Says(UnexpectedIdentity, crypto, e, records, b) then Some(UnexpectedIdentity) else None
  {
    var rules, key := crypto.rules, b.identityKey;
    if rules.identityKey(key) {
      if e.Known? {
        ClassifyMeans(rules, key, records[e.contact]);
      } else {
        LookupAttributes(rules, key, records);
      }
    }
    hide Lookup, Classify, AllCanonical;
  }

  lemma LookupAttributes(rules: KeyRules, key: Key, records: seq<Record>)
    requires rules.canonical(key) && rules.identityKey(key)
    ensures var r := Lookup(rules, key, records); r.Ok? && Attributed(r.value.attribution, rules, key, records)
  {
    hide Lookup, Attributed;
    var r := Lookup(rules, key, records);
    LookupMeans(rules, key, records, if r.Ok? then r.value.attribution else Unattributed);
  }

  lemma ConcludeMeans(crypto: Crypto, e: Expectation, records: seq<Record>, b: Bundle)
    requires e.Known? ==> e.contact < |records|
    requires crypto.rules.canonical(b.identityKey) && crypto.rules.identityKey(b.identityKey)
    ensures var found := Lookup(crypto.rules, b.identityKey, records);
            && found.Ok?
            && Conclude(crypto, records, b).0
               == if Says(AuthenticationFailure, crypto, e, records, b) then Refused(AuthenticationFailure)
                  else if Says(KemInput, crypto, e, records, b) then Refused(KemInput)
                  else if Says(NonContributory, crypto, e, records, b) then Refused(NonContributory)
                  else Session(found.value)
  {
    LookupAttributes(crypto.rules, b.identityKey, records);
    hide Lookup, Kem.InputOk, Attributed;
  }

  /** The quantifier over earlier places, check by check. */
  lemma InPlace(crypto: Crypto, e: Expectation, records: seq<Record>, b: Bundle, why: Refusal)
    requires e.Known? ==> e.contact < |records|
    ensures (forall other :: Place(other) < Place(why) ==> !Says(other, crypto, e, records, b)) <==>
            && (0 < Place(why) ==> !Says(MalformedRecord, crypto, e, records, b))
            && (1 < Place(why) ==> !Says(InconsistentBundle, crypto, e, records, b))
            && (2 < Place(why) ==> !Says(NonCanonicalKey, crypto, e, records, b))
            && (3 < Place(why) ==> !Says(DecodeFailure, crypto, e, records, b))
            && (4 < Place(why) ==> !Says(InvalidIdentityKey, crypto, e, records, b))
            && (5 < Place(why) ==> !Says(RetiredIdentity, crypto, e, records, b))
            && (5 < Place(why) ==> !Says(UnexpectedIdentity, crypto, e, records, b))
            && (6 < Place(why) ==> !Says(AuthenticationFailure, crypto, e, records, b))
            && (7 < Place(why) ==> !Says(KemInput, crypto, e, records, b))
  {
    hide Says;
    assert Place(MalformedRecord) == 0 && Place(InconsistentBundle) == 1 && Place(NonCanonicalKey) == 2;
    assert Place(DecodeFailure) == 3 && Place(InvalidIdentityKey) == 4;
    assert Place(RetiredIdentity) == 5 && Place(UnexpectedIdentity) == 5;
    assert Place(AuthenticationFailure) == 6 && Place(KemInput) == 7;
  }
}
