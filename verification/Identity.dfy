/** Identity records: classifying a key against a record, and looking it up among the records of all contacts. */
module Identity {
  import opened Results
  import opened Records

  /** The two rules a presented key must meet. */
  datatype KeyRules = KeyRules(canonical: Key -> bool, identityKey: Key -> bool)

  datatype Refusal =
    | DecodeFailure | InvalidIdentityKey | MalformedRecord | InconsistentBundle | NonCanonicalKey
    | RetiredIdentity | UnexpectedIdentity | AuthenticationFailure | KemInput | NonContributory

  datatype Class = Same | New | Retired

  datatype Attribution = Unattributed | Contact(index: nat) | Ambiguous | RetiredKey

  datatype Found = Found(attribution: Attribution, retiredFor: seq<nat>, malformed: seq<nat>)

  /** The canonical encoding first, then the identity-key rule. */
  function KeyRefusal(rules: KeyRules, key: Key): (r: Option<Refusal>) {
    if !rules.canonical(key) then Some(DecodeFailure)
    else if !rules.identityKey(key) then Some(InvalidIdentityKey)
    else None
  }

  predicate WellFormed(rules: KeyRules, record: Record) {
    forall k <- record.current + record.retired :: rules.canonical(k)
  }

  predicate Holding(record: Record) {
    record.current != [] || record.retired != []
  }

  function Classify(rules: KeyRules, key: Key, record: Record): (r: Result<Class, Refusal>) {
    match KeyRefusal(rules, key)
    case Some(why) => Err(why)
    case None =>
      if !WellFormed(rules, record) then Err(MalformedRecord)
      else if key in record.retired then Ok(Retired)
      else if key in record.current then Ok(Same)
      else Ok(New)
  }

  /** The indices below `n` of the records that classify the key so, in order. */
  function Indices(rules: KeyRules, key: Key, records: seq<Record>, want: Result<Class, Refusal>, n: nat): (s: seq<nat>)
    requires n <= |records|
  {
    if n == 0 then [] else
    Indices(rules, key, records, want, n - 1) + if Classify(rules, key, records[n - 1]) == want then [n - 1] else []
  }

  function All(rules: KeyRules, key: Key, records: seq<Record>, want: Result<Class, Refusal>): (s: seq<nat>) {
    Indices(rules, key, records, want, |records|)
  }

  function Attribute(same: seq<nat>, retired: seq<nat>): (a: Attribution) {
    if |same| == 1 then Contact(same[0])
    else if |same| > 1 then Ambiguous
    else if retired != [] then RetiredKey
    else Unattributed
  }

  function Lookup(rules: KeyRules, key: Key, records: seq<Record>): (r: Result<Found, Refusal>) {
    match KeyRefusal(rules, key)
    case Some(why) => Err(why)
    case None =>
      var retired := All(rules, key, records, Ok(Retired));
      Ok(Found(Attribute(All(rules, key, records, Ok(Same)), retired), retired,
               All(rules, key, records, Err(MalformedRecord))))
  }

  /** The source's walk over the records, sorting each index into its list. */
  method LookupKey(rules: KeyRules, key: Key, records: seq<Record>) returns (r: Result<Found, Refusal>)
    ensures r == Lookup(rules, key, records)
  {
    var refusal := KeyRefusal(rules, key);
    if refusal.Some? {
      return Err(refusal.value);
    }
    var same, retired, malformed := [], [], [];
    for i := 0 to |records|
      invariant same == Indices(rules, key, records, Ok(Same), i)
      invariant retired == Indices(rules, key, records, Ok(Retired), i)
      invariant malformed == Indices(rules, key, records, Err(MalformedRecord), i)
    {
      var cls := Classify(rules, key, records[i]);
      if cls == Err(MalformedRecord) {
        malformed := malformed + [i];
      } else if cls == Ok(Same) {
        same := same + [i];
      } else if cls == Ok(Retired) {
        retired := retired + [i];
      }
    }
    if |same| == 1 {
      return Ok(Found(Contact(same[0]), retired, malformed));
    }
    if |same| > 1 {
      return Ok(Found(Ambiguous, retired, malformed));
    }
    if retired != [] {
      return Ok(Found(RetiredKey, retired, malformed));
    }
    return Ok(Found(Unattributed, retired, malformed));
  }

  // ---- what the lists hold

  ghost predicate Ascending(s: seq<nat>) {
    forall i, j :: 0 <= i < j < |s| ==> s[i] < s[j]
  }

  lemma {:induction false} IndicesExact(rules: KeyRules, key: Key, records: seq<Record>, want: Result<Class, Refusal>,
                                        n: nat)
    requires n <= |records|
    ensures var s := Indices(rules, key, records, want, n);
            && Ascending(s)
            && (forall i :: i in s <==> 0 <= i < n && Classify(rules, key, records[i]) == want)
    decreases n
  {
    hide Classify;
    if n > 0 {
      IndicesExact(rules, key, records, want, n - 1);
      var before := Indices(rules, key, records, want, n - 1);
      assert forall j :: 0 <= j < |before| ==> before[j] in before;
    }
  }

  lemma AllExact(rules: KeyRules, key: Key, records: seq<Record>, want: Result<Class, Refusal>)
    ensures var s := All(rules, key, records, want);
            && Ascending(s)
            && (forall i :: i in s <==> 0 <= i < |records| && Classify(rules, key, records[i]) == want)
  {
    IndicesExact(rules, key, records, want, |records|);
  }

  /** For a key that meets the rules, every record falls in exactly one of the four ascending lists, by what it holds:
      malformed if any of its keys is not canonical, else retired, same or new by where the key is. */
  lemma LookupPartitions(rules: KeyRules, key: Key, records: seq<Record>, i: nat)
    requires KeyRefusal(rules, key).None? && i < |records|
    ensures var r := records[i];
            var inSame := i in All(rules, key, records, Ok(Same));
            var inRetired := i in All(rules, key, records, Ok(Retired));
            var inMalformed := i in All(rules, key, records, Err(MalformedRecord));
            var inNew := i in All(rules, key, records, Ok(New));
            && (inMalformed <==> !WellFormed(rules, r))
            && (inRetired <==> WellFormed(rules, r) && key in r.retired)
            && (inSame <==> WellFormed(rules, r) && key in r.current && key !in r.retired)
            && (inNew <==> WellFormed(rules, r) && key !in r.current && key !in r.retired)
    ensures Ascending(All(rules, key, records, Ok(Same))) && Ascending(All(rules, key, records, Ok(Retired)))
    ensures Ascending(All(rules, key, records, Err(MalformedRecord))) && Ascending(All(rules, key, records, Ok(New)))
  {
    AllExact(rules, key, records, Ok(Same));
    AllExact(rules, key, records, Ok(Retired));
    AllExact(rules, key, records, Err(MalformedRecord));
    AllExact(rules, key, records, Ok(New));
  }

  /** The attribution in terms of the records alone. */
  lemma AttributionMeans(rules: KeyRules, key: Key, records: seq<Record>)
    requires Lookup(rules, key, records).Ok?
    ensures var a := Lookup(rules, key, records).value.attribution;
            && (forall i: nat :: a == Contact(i) ==>
                  && i < |records| && Classify(rules, key, records[i]) == Ok(Same)
                  && forall j :: 0 <= j < |records| && Classify(rules, key, records[j]) == Ok(Same) ==> j == i)
            && (a == Ambiguous ==>
                  exists i, j ::
                    && 0 <= i < j < |records|
                    && Classify(rules, key, records[i]) == Ok(Same) && Classify(rules, key, records[j]) == Ok(Same))
            && (a == RetiredKey || a == Unattributed ==>
                  forall j :: 0 <= j < |records| ==> Classify(rules, key, records[j]) != Ok(Same))
            && (a == RetiredKey ==> exists i :: 0 <= i < |records| && Classify(rules, key, records[i]) == Ok(Retired))
            && (a == Unattributed ==>
                  forall j :: 0 <= j < |records| ==> Classify(rules, key, records[j]) != Ok(Retired))
  {
    var same, retired := All(rules, key, records, Ok(Same)), All(rules, key, records, Ok(Retired));
    AllExact(rules, key, records, Ok(Same));
    AllExact(rules, key, records, Ok(Retired));
    hide All, Classify;
    if |same| >= 1 {
      assert same[0] in same;
    }
    if |same| > 1 {
      assert same[1] in same && same[0] < same[1];
    }
    if retired != [] {
      assert retired[0] in retired;
    }
  }

  // ---- the order of the records does not matter

  /** `b` is `a` rearranged: its k-th record is the perm[k]-th of `a`, and `inv` undoes `perm`. */
  ghost predicate Rearranged(a: seq<Record>, b: seq<Record>, perm: seq<nat>, inv: seq<nat>) {
    && |a| == |b| == |perm| == |inv|
    && (forall k :: 0 <= k < |b| ==> perm[k] < |a| && b[k] == a[perm[k]] && inv[perm[k]] == k)
    && (forall i :: 0 <= i < |a| ==> inv[i] < |b| && perm[inv[i]] == i)
  }

  lemma RearrangedBack(a: seq<Record>, b: seq<Record>, perm: seq<nat>, inv: seq<nat>)
    requires Rearranged(a, b, perm, inv)
    ensures Rearranged(b, a, inv, perm)
  {
  }

  lemma IndicesRearranged(rules: KeyRules, key: Key, a: seq<Record>, b: seq<Record>, perm: seq<nat>, inv: seq<nat>,
                          want: Result<Class, Refusal>)
    requires Rearranged(a, b, perm, inv)
    ensures forall k :: 0 <= k < |b| ==> (k in All(rules, key, b, want) <==> perm[k] in All(rules, key, a, want))
  {
    AllExact(rules, key, a, want);
    AllExact(rules, key, b, want);
    hide All, Classify;
  }

  /** Distinct numbers drawn from a list are no more than the list is long. */
  lemma {:induction false} Pigeonhole(xs: seq<nat>, ys: seq<nat>)
    requires forall i, j :: 0 <= i < j < |xs| ==> xs[i] != xs[j]
    requires forall x <- xs :: x in ys
    ensures |xs| <= |ys|
    decreases |xs|
  {
    if xs != [] {
      var x := xs[|xs| - 1];
      assert x in xs;
      var at :| 0 <= at < |ys| && ys[at] == x;
      var rest := ys[..at] + ys[at + 1..];
      forall y | y in xs[..|xs| - 1]
        ensures y in rest
      {
        assert y in xs;
        var i :| 0 <= i < |ys| && ys[i] == y;
        assert i != at;
        assert y == if i < at then rest[i] else rest[i - 1];
      }
      Pigeonhole(xs[..|xs| - 1], rest);
    }
  }

  lemma CountNotMore(rules: KeyRules, key: Key, a: seq<Record>, b: seq<Record>, perm: seq<nat>, inv: seq<nat>,
                     want: Result<Class, Refusal>)
    requires Rearranged(a, b, perm, inv)
    ensures |All(rules, key, b, want)| <= |All(rules, key, a, want)|
  {
    IndicesRearranged(rules, key, a, b, perm, inv, want);
    AllExact(rules, key, b, want);
    hide All, Classify;
    var xs := All(rules, key, b, want);
    assert forall i :: 0 <= i < |xs| ==> xs[i] in xs;
    var image := seq(|xs|, i requires 0 <= i < |xs| => perm[xs[i]]);
    Pigeonhole(image, All(rules, key, a, want));
  }

  /** Rearranging the records rearranges the lists with them and keeps the kind of attribution; a contact
      follows its record. */
  lemma LookupRearranged(rules: KeyRules, key: Key, a: seq<Record>, b: seq<Record>, perm: seq<nat>, inv: seq<nat>)
    requires Rearranged(a, b, perm, inv)
    ensures match (Lookup(rules, key, a), Lookup(rules, key, b))
            case (Err(e), Err(f)) => e == f
            case (Ok(x), Ok(y)) =>
              && (match (x.attribution, y.attribution)
                  case (Contact(i), Contact(k)) => k < |perm| && perm[k] == i
                  case (p, q) => p == q)
              && (forall k :: 0 <= k < |b| ==> (k in y.retiredFor <==> perm[k] in x.retiredFor))
              && (forall k :: 0 <= k < |b| ==> (k in y.malformed <==> perm[k] in x.malformed))
              && |x.retiredFor| == |y.retiredFor| && |x.malformed| == |y.malformed|
            case _ => false
  {
    hide All, Classify, Rearranged;
    SameCounts(rules, key, a, b, perm, inv, Ok(Same));
    SameCounts(rules, key, a, b, perm, inv, Ok(Retired));
    SameCounts(rules, key, a, b, perm, inv, Err(MalformedRecord));
    ContactFollows(rules, key, a, b, perm, inv);
  }

  lemma ContactFollows(rules: KeyRules, key: Key, a: seq<Record>, b: seq<Record>, perm: seq<nat>, inv: seq<nat>)
    requires Rearranged(a, b, perm, inv)
    ensures var x, y := All(rules, key, a, Ok(Same)), All(rules, key, b, Ok(Same));
            |x| == |y| == 1 ==> y[0] < |perm| && perm[y[0]] == x[0]
  {
    SameCounts(rules, key, a, b, perm, inv, Ok(Same));
    AllExact(rules, key, b, Ok(Same));
    hide All, Classify;
    var x, y := All(rules, key, a, Ok(Same)), All(rules, key, b, Ok(Same));
    if |x| == |y| == 1 {
      assert y[0] in y;
      assert perm[y[0]] in x;
    }
  }

  lemma SameCounts(rules: KeyRules, key: Key, a: seq<Record>, b: seq<Record>, perm: seq<nat>, inv: seq<nat>,
                   want: Result<Class, Refusal>)
    requires Rearranged(a, b, perm, inv)
    ensures |a| == |b| == |perm|
    ensures |All(rules, key, b, want)| == |All(rules, key, a, want)|
    ensures forall k :: 0 <= k < |b| ==> (k in All(rules, key, b, want) <==> perm[k] in All(rules, key, a, want))
  {
    RearrangedBack(a, b, perm, inv);
    CountNotMore(rules, key, a, b, perm, inv, want);
    CountNotMore(rules, key, b, a, inv, perm, want);
    IndicesRearranged(rules, key, a, b, perm, inv, want);
  }
}
