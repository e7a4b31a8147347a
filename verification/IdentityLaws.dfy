/** What lookup answers, in terms of the keys the records hold. */
module IdentityLaws {
  import opened Results
  import opened Records
  import opened Identity

  // ---- a key against a record

  ghost predicate AllCanonical(rules: KeyRules, r: Record) {
    && (forall i :: 0 <= i < |r.current| ==> rules.canonical(r.current[i]))
    && (forall i :: 0 <= i < |r.retired| ==> rules.canonical(r.retired[i]))
  }

  /** A well-formed record that has the key as a current one, not retired. */
  ghost predicate HasCurrent(rules: KeyRules, key: Key, r: Record) {
    AllCanonical(rules, r) && key in r.current && key !in r.retired
  }

  ghost predicate HasRetired(rules: KeyRules, key: Key, r: Record) {
    AllCanonical(rules, r) && key in r.retired
  }

  lemma WellFormedMeans(rules: KeyRules, r: Record)
    ensures WellFormed(rules, r) <==> AllCanonical(rules, r)
  {
    var all := r.current + r.retired;
    assert forall i :: 0 <= i < |r.current| ==> all[i] == r.current[i];
    assert forall i :: 0 <= i < |r.retired| ==> all[|r.current| + i] == r.retired[i];
    if AllCanonical(rules, r) {
      forall k | k in all
        ensures rules.canonical(k)
      {
        assert k in r.current || k in r.retired;
      }
    }
  }

  lemma ClassifyMeans(rules: KeyRules, key: Key, r: Record)
    requires rules.canonical(key) && rules.identityKey(key)
    ensures Classify(rules, key, r) == Ok(Same) <==> HasCurrent(rules, key, r)
    ensures Classify(rules, key, r) == Ok(Retired) <==> HasRetired(rules, key, r)
    ensures Classify(rules, key, r) == Err(MalformedRecord) <==> !AllCanonical(rules, r)
    ensures Classify(rules, key, r) == Ok(New) <==> AllCanonical(rules, r) && key !in r.current && key !in r.retired
  {
    WellFormedMeans(rules, r);
    hide AllCanonical, WellFormed;
  }

  // ---- lookup

  ghost predicate Attributed(a: Attribution, rules: KeyRules, key: Key, records: seq<Record>) {
    match a
    case Contact(i) =>
      && i < |records| && HasCurrent(rules, key, records[i])
      && forall j :: 0 <= j < |records| && j != i ==> !HasCurrent(rules, key, records[j])
    case Ambiguous =>
      exists i, j :: 0 <= i < j < |records| && HasCurrent(rules, key, records[i]) && HasCurrent(rules, key, records[j])
    case RetiredKey =>
      && (forall j :: 0 <= j < |records| ==> !HasCurrent(rules, key, records[j]))
      && exists i :: 0 <= i < |records| && HasRetired(rules, key, records[i])
    case Unattributed =>
      forall j :: 0 <= j < |records| ==> !HasCurrent(rules, key, records[j]) && !HasRetired(rules, key, records[j])
  }

  /** A key that meets no rule is refused by the first it fails. One that meets both is attributed by the records that
      hold it, with the lists of those that have retired it and of those that are malformed. */
  lemma LookupMeans(rules: KeyRules, key: Key, records: seq<Record>, a: Attribution)
    ensures Lookup(rules, key, records) == Err(DecodeFailure) <==> !rules.canonical(key)
    ensures Lookup(rules, key, records) == Err(InvalidIdentityKey) <==> rules.canonical(key) && !rules.identityKey(key)
    ensures rules.canonical(key) && rules.identityKey(key) ==>
              match Lookup(rules, key, records)
              case Err(_) => false
              case Ok(found) =>
                && (found.attribution == a <==> Attributed(a, rules, key, records))
                && Ascending(found.retiredFor) && Ascending(found.malformed)
                && (forall i :: i in found.retiredFor <==> 0 <= i < |records| && HasRetired(rules, key, records[i]))
                && (forall i :: i in found.malformed <==> 0 <= i < |records| && !AllCanonical(rules, records[i]))
  {
    if rules.canonical(key) && rules.identityKey(key) {
      var same, retired := All(rules, key, records, Ok(Same)), All(rules, key, records, Ok(Retired));
      ListOf(rules, key, records, Ok(Same));
      ListOf(rules, key, records, Ok(Retired));
      ListOf(rules, key, records, Err(MalformedRecord));
      hide HasCurrent, HasRetired, AllCanonical, All;
      AttributeMeans(rules, key, records, same, retired, a);
    }
  }

  lemma ListOf(rules: KeyRules, key: Key, records: seq<Record>, want: Result<Class, Refusal>)
    requires rules.canonical(key) && rules.identityKey(key)
    ensures var s := All(rules, key, records, want);
            && Ascending(s)
            && (want == Ok(Same) ==> forall i :: i in s <==> 0 <= i < |records| && HasCurrent(rules, key, records[i]))
            && (want == Ok(Retired) ==>
                  forall i :: i in s <==> 0 <= i < |records| && HasRetired(rules, key, records[i]))
            && (want == Err(MalformedRecord) ==>
                  forall i :: i in s <==> 0 <= i < |records| && !AllCanonical(rules, records[i]))
  {
    AllExact(rules, key, records, want);
    hide All, Classify, HasCurrent, HasRetired, AllCanonical;
    forall r
      ensures Classify(rules, key, r) == Ok(Same) <==> HasCurrent(rules, key, r)
      ensures Classify(rules, key, r) == Ok(Retired) <==> HasRetired(rules, key, r)
      ensures Classify(rules, key, r) == Err(MalformedRecord) <==> !AllCanonical(rules, r)
    {
      ClassifyMeans(rules, key, r);
    }
  }

  lemma AttributeMeans(rules: KeyRules, key: Key, records: seq<Record>, same: seq<nat>, retired: seq<nat>,
                       a: Attribution)
    requires Ascending(same) && forall i :: i in same <==> 0 <= i < |records| && HasCurrent(rules, key, records[i])
    requires forall i :: i in retired <==> 0 <= i < |records| && HasRetired(rules, key, records[i])
    ensures Attribute(same, retired) == a <==> Attributed(a, rules, key, records)
  {
    hide HasCurrent, HasRetired;
    if |same| >= 1 {
      assert same[0] in same;
    }
    if |same| == 1 {
      assert forall i :: i in same ==> i == same[0];
    }
    if |same| > 1 {
      assert same[1] in same && same[0] < same[1];
    }
    if retired != [] {
      assert retired[0] in retired;
    }
  }
}
