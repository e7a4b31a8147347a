/** The initiator's establishment: its checks in the order the page fixes, and what a session then means. */
module Initiator {
  import opened Results
  import opened Bytes
  import opened Records
  import opened Identity
  import Kem

  const EC_TYPE: byte := 0x05
  const KEM_TYPE: byte := 0x08
  const ABSENT_ID := 0

  datatype Bundle = Bundle(
    identityKey: Key, signedPrekey: Key, spkSig: seq<byte>, kemPrekey: seq<byte>, kemSig: seq<byte>,
    oneTimePresent: bool, oneTimePrekey: Key, spkId: uint32, oneTimeId: uint32, kemId: uint32)

  datatype Expectation = Known(contact: nat) | First

  /** The checks of keys and signatures: XEdDSA verification under a key, and whether agreeing with a key is
      contributory. */
  datatype Crypto = Crypto(rules: KeyRules, verify: (Key, seq<byte>, seq<byte>) -> bool, contributory: Key -> bool)

  datatype Outcome = Refused(why: Refusal) | Session(found: Found)

  /** Whether randomness was drawn before the outcome; the pages leave it open for one refusal. */
  datatype Draw = No | Yes | Open

  /** A malformed expectation, before any check of the bundle. */
  function ExpectationRefusal(rules: KeyRules, e: Expectation, records: seq<Record>): (r: Option<Refusal>)
    requires e.Known? ==> e.contact < |records|
  {
    if e.Known? then
      var record := records[e.contact];
      if !WellFormed(rules, record) || !Holding(record) then Some(MalformedRecord) else None
    else if !forall r <- records :: WellFormed(rules, r) then Some(MalformedRecord)
    else None
  }

  /** The bundle's presence and canonical-key checks. */
  function BundleRefusal(rules: KeyRules, b: Bundle): (r: Option<Refusal>) {
    if b.oneTimePresent != (b.oneTimeId != ABSENT_ID) then Some(InconsistentBundle)
    else if !(rules.canonical(b.identityKey) && rules.canonical(b.signedPrekey)
              && (!b.oneTimePresent || rules.canonical(b.oneTimePrekey))) then Some(NonCanonicalKey)
    else None
  }

  /** What the identity key is to the records, against what was expected of it. */
  function IdentityRefusal(rules: KeyRules, e: Expectation, records: seq<Record>, key: Key): (r: Option<Refusal>)
    requires e.Known? ==> e.contact < |records|
  {
    if e.Known? then
      match Classify(rules, key, records[e.contact])
      case Err(why) => Some(why)
      case Ok(Retired) => Some(RetiredIdentity)
      case Ok(New) => Some(UnexpectedIdentity)
      case Ok(Same) => None
    else
      match Lookup(rules, key, records)
      case Err(why) => Some(why)
      case Ok(found) =>
        match found.attribution
        case Contact(_) => Some(UnexpectedIdentity)
        case Ambiguous => Some(UnexpectedIdentity)
        case RetiredKey => Some(RetiredIdentity)
        case Unattributed => None
  }

  /** Everything before the identity-key rule is applied a second time. */
  function EarlyRefusal(rules: KeyRules, e: Expectation, records: seq<Record>, b: Bundle): (r: Option<Refusal>)
    requires e.Known? ==> e.contact < |records|
  {
    match ExpectationRefusal(rules, e, records)
    case Some(why) => Some(why)
    case None =>
      match BundleRefusal(rules, b)
      case Some(why) => Some(why)
      case None => IdentityRefusal(rules, e, records, b.identityKey)
  }

  predicate Authentic(crypto: Crypto, b: Bundle) {
    && crypto.verify(b.identityKey, [EC_TYPE] + b.signedPrekey, b.spkSig)
    && crypto.verify(b.identityKey, [KEM_TYPE] + b.kemPrekey, b.kemSig)
  }

  predicate AllContributory(crypto: Crypto, b: Bundle) {
    crypto.contributory(b.signedPrekey) && (!b.oneTimePresent || crypto.contributory(b.oneTimePrekey))
  }

  /** Signatures, then the KEM prekey, then the agreements, then the lookup that ends the session's setup. */
  function Conclude(crypto: Crypto, records: seq<Record>, b: Bundle): (r: (Outcome, Draw)) {
    if !Authentic(crypto, b) then (Refused(AuthenticationFailure), No)
    else if !Kem.InputOk(b.kemPrekey) then (Refused(KemInput), Open)
    else if !AllContributory(crypto, b) then (Refused(NonContributory), Yes)
    else
      match Lookup(crypto.rules, b.identityKey, records)
      case Ok(found) => (Session(found), Yes)
      case Err(why) => (Refused(why), Yes)
  }

  function Establish(crypto: Crypto, e: Expectation, records: seq<Record>, b: Bundle): (r: (Outcome, Draw))
    requires e.Known? ==> e.contact < |records|
  {
    match EarlyRefusal(crypto.rules, e, records, b)
    case Some(why) => (Refused(why), No)
    case None =>
      if !crypto.rules.identityKey(b.identityKey) then (Refused(InvalidIdentityKey), No)
      else Conclude(crypto, records, b)
  }

  /** The same without the second application of the identity-key rule. */
  function EstablishOnce(crypto: Crypto, e: Expectation, records: seq<Record>, b: Bundle): (r: (Outcome, Draw))
    requires e.Known? ==> e.contact < |records|
  {
    match EarlyRefusal(crypto.rules, e, records, b)
    case Some(why) => (Refused(why), No)
    case None => Conclude(crypto, records, b)
  }

  // ---- what the outcome means

  /** The identity key meets the rules, and stands to the records as expected: for a known contact, one of the
      keys its record holds current and not retired; for a first contact, in no record at all. */
  predicate ExpectationMet(rules: KeyRules, e: Expectation, records: seq<Record>, key: Key)
    requires e.Known? ==> e.contact < |records|
  {
    && rules.canonical(key) && rules.identityKey(key)
    && match e
       case Known(i) => WellFormed(rules, records[i]) && key in records[i].current && key !in records[i].retired
       case First => forall r <- records :: WellFormed(rules, r) && key !in r.current && key !in r.retired
  }

  lemma FirstLookup(rules: KeyRules, records: seq<Record>, key: Key)
    requires KeyRefusal(rules, key).None?
    ensures (forall r <- records :: WellFormed(rules, r))
            && Lookup(rules, key, records).value.attribution == Unattributed
            <==> forall r <- records :: WellFormed(rules, r) && key !in r.current && key !in r.retired
  {
    AttributionMeans(rules, key, records);
    hide Lookup, WellFormed;
    var a := Lookup(rules, key, records).value.attribution;
    if a == Unattributed && forall r <- records :: WellFormed(rules, r) {
      forall r | r in records
        ensures key !in r.current && key !in r.retired
      {
        var i :| 0 <= i < |records| && records[i] == r;
        assert Classify(rules, key, records[i]) != Ok(Same) && Classify(rules, key, records[i]) != Ok(Retired);
      }
    }
  }

  lemma IdentityRefusalMeans(rules: KeyRules, e: Expectation, records: seq<Record>, key: Key)
    requires e.Known? ==> e.contact < |records|
    ensures ExpectationRefusal(rules, e, records).None? && IdentityRefusal(rules, e, records, key).None?
            <==> ExpectationMet(rules, e, records, key)
  {
    if e.First? && KeyRefusal(rules, key).None? {
      FirstLookup(rules, records, key);
    }
    hide Lookup;
  }

  /** A session is established exactly when the expectation is met, the bundle is consistent, canonical and
      signed, its KEM prekey passes, and its agreements are contributory. */
  lemma SessionIff(crypto: Crypto, e: Expectation, records: seq<Record>, b: Bundle)
    requires e.Known? ==> e.contact < |records|
    ensures Establish(crypto, e, records, b).0.Session? <==>
            && ExpectationMet(crypto.rules, e, records, b.identityKey)
            && BundleRefusal(crypto.rules, b).None?
            && Authentic(crypto, b) && Kem.InputOk(b.kemPrekey) && AllContributory(crypto, b)
  {
    IdentityRefusalMeans(crypto.rules, e, records, b.identityKey);
    hide Lookup, Kem.InputOk, Authentic, AllContributory, BundleRefusal, ExpectationRefusal, IdentityRefusal;
    LookupRefuses(crypto.rules, b.identityKey, records);
  }

  lemma LookupRefuses(rules: KeyRules, key: Key, records: seq<Record>)
    ensures Lookup(rules, key, records).Ok? <==> rules.canonical(key) && rules.identityKey(key)
  {
  }

  /** The second application of the rule never fires: leaving it out changes no outcome and no draw. */
  lemma SecondRuleUnreachable(crypto: Crypto, e: Expectation, records: seq<Record>, b: Bundle)
    requires e.Known? ==> e.contact < |records|
    ensures Establish(crypto, e, records, b) == EstablishOnce(crypto, e, records, b)
  {
    IdentityRefusalMeans(crypto.rules, e, records, b.identityKey);
    hide Conclude, ExpectationRefusal, IdentityRefusal, BundleRefusal;
  }

  /** A session with a known contact is attributed to that contact, or to several when another record holds the
      key too; a first contact's session is unattributed, no record having retired the key or being malformed. */
  lemma SessionAttribution(crypto: Crypto, e: Expectation, records: seq<Record>, b: Bundle)
    requires e.Known? ==> e.contact < |records|
    requires Establish(crypto, e, records, b).0.Session?
    ensures var found := Establish(crypto, e, records, b).0.found;
            match e
            case Known(i) => found.attribution == Contact(i) || found.attribution == Ambiguous
            case First => found == Found(Unattributed, [], [])
  {
    var rules, key := crypto.rules, b.identityKey;
    SessionIff(crypto, e, records, b);
    SessionIsLookup(crypto, e, records, b);
    AttributionMeans(rules, key, records);
    if e.Known? {
      assert Classify(rules, key, records[e.contact]) == Ok(Same);
      hide Lookup, Establish;
    } else {
      FirstLookup(rules, records, key);
      NothingRetired(rules, key, records);
    }
  }

  lemma SessionIsLookup(crypto: Crypto, e: Expectation, records: seq<Record>, b: Bundle)
    requires e.Known? ==> e.contact < |records|
    requires Establish(crypto, e, records, b).0.Session?
    ensures Lookup(crypto.rules, b.identityKey, records) == Ok(Establish(crypto, e, records, b).0.found)
  {
    hide Lookup, EarlyRefusal;
  }

  lemma NothingRetired(rules: KeyRules, key: Key, records: seq<Record>)
    requires KeyRefusal(rules, key).None?
    requires forall r <- records :: WellFormed(rules, r) && key !in r.current && key !in r.retired
    ensures var found := Lookup(rules, key, records).value; found.retiredFor == [] && found.malformed == []
  {
    AllExact(rules, key, records, Ok(Retired));
    AllExact(rules, key, records, Err(MalformedRecord));
    var x, y := All(rules, key, records, Ok(Retired)), All(rules, key, records, Err(MalformedRecord));
    hide All;
    assert forall i :: 0 <= i < |records| ==> Classify(rules, key, records[i]) == Ok(New);
    FirstIsIn(x);
    FirstIsIn(y);
  }

  lemma FirstIsIn(s: seq<nat>)
    ensures s != [] ==> s[0] in s
  {
  }

  /** The draw is told from the outcome: only the KEM refusal may follow one, only the non-contributory refusal
      and a session do. */
  lemma Draws(crypto: Crypto, e: Expectation, records: seq<Record>, b: Bundle)
    requires e.Known? ==> e.contact < |records|
    ensures var (outcome, draw) := Establish(crypto, e, records, b);
            && (draw == Open <==> outcome == Refused(KemInput))
            && (draw == Yes <==> outcome.Session? || outcome == Refused(NonContributory))
  {
    IdentityRefusalMeans(crypto.rules, e, records, b.identityKey);
    LookupRefuses(crypto.rules, b.identityKey, records);
    hide Lookup;
  }
}
