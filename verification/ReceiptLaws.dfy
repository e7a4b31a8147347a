/** What an accepted list of receipts means, and that its form is canonical. */
module ReceiptLaws {
  import opened Results
  import opened Json
  import opened Receipts
  import Lex
  import Sorting

  // ---- acceptance, without an order

  /** The receipt records success for exactly the steps the workflow runs for it, and for some. */
  ghost predicate StepsSucceed(s: Setting, cid: string, environment: Fields, check: Fields) {
    s.Known(cid) ==>
      var event, outcomes := Get(environment, "event"), Get(check, "step_outcomes");
      && event.Str? && (cid, event.s) in s.expected
      && outcomes.Obj? && outcomes.fields != map[]
      && (forall step :: step in outcomes.fields <==> step in s.expected[(cid, event.s)])
      && (forall step :: step in outcomes.fields ==> outcomes.fields[step] == Str("success"))
  }

  lemma StepFaultIff(s: Setting, cid: string, environment: Fields, check: Fields)
    ensures StepFault(s, cid, environment, check).None? <==> StepsSucceed(s, cid, environment, check)
  {
    hide Setting.Known;
  }

  /** A receipt that may stand in an accepted list. */
  ghost predicate Good(s: Setting, check: Json) {
    && Shaped(check)
    && var f, cid := check.fields, IdOf(check);
    && (f["applicable"].b ==>
          f["status"].s == "pass" && s.OfCandidate(f["run"].fields) && StepsSucceed(s, cid, f["environment"].fields, f))
    && (!f["applicable"].b ==> f["status"].s == "not_applicable")
    && (cid in REQUIRED ==> f["applicable"].b && f["classification"].s == "required")
  }

  lemma FaultIff(s: Setting, check: Json, seen: set<string>)
    ensures Fault(s, check, seen).None? <==> Good(s, check) && IdOf(check) !in seen
  {
    hide Shaped, ShapeFault, StepFault, StepsSucceed, Setting.OfCandidate, IdOf;
    ShapeFaultIff(check, seen);
    if Shaped(check) {
      ClaimFaultIff(s, check);
    }
  }

  lemma ClaimFaultIff(s: Setting, check: Json)
    requires Shaped(check)
    ensures ClaimFault(s, check).None? <==> Good(s, check)
  {
    var f := check.fields;
    assert "applicable" in FIELDS && "status" in FIELDS && "classification" in FIELDS && "run" in FIELDS
           && "environment" in FIELDS;
    hide StepFault, StepsSucceed, Setting.OfCandidate;
    if f["applicable"].b {
      StepFaultIff(s, IdOf(check), f["environment"].fields, f);
    }
  }

  ghost predicate AllGood(s: Setting, checks: seq<Json>) {
    forall k :: 0 <= k < |checks| ==> Good(s, checks[k])
  }

  ghost predicate DistinctIds(checks: seq<Json>) {
    forall j, k :: 0 <= j < k < |checks| ==> IdOf(checks[j]) != IdOf(checks[k])
  }

  ghost predicate OneEvent(s: Setting, checks: seq<Json>) {
    forall a, b :: a in checks && b in checks && Applicable(a) && Applicable(b) ==> EventOf(s, a) == EventOf(s, b)
  }

  ghost predicate OneRun(s: Setting, checks: seq<Json>) {
    forall a, b :: a in checks && b in checks && HasRun(a) && HasRun(b) ==> RunOf(s, a) == RunOf(s, b)
  }

  ghost predicate HasRequired(checks: seq<Json>) {
    forall id :: id in REQUIRED ==> exists c :: c in checks && IdOf(c) == id
  }

  /** A list that is accepted: each receipt is good, none is given twice, the required ones are all there, and
      those that apply come from one event and at most one run. */
  ghost predicate Acceptable(s: Setting, checks: seq<Json>) {
    AllGood(s, checks) && DistinctIds(checks) && HasRequired(checks) && OneEvent(s, checks) && OneRun(s, checks)
  }

  // ---- the loop's tally

  ghost predicate Tallied(s: Setting, checks: seq<Json>, before: Tally, after: Tally) {
    && (forall id :: id in after.seen <==> id in before.seen || exists c :: c in checks && IdOf(c) == id)
    && (forall e :: e in after.events <==>
                      e in before.events || exists c :: c in checks && Applicable(c) && EventOf(s, c) == e)
    && (forall r :: r in after.runs <==> r in before.runs || exists c :: c in checks && HasRun(c) && RunOf(s, c) == r)
  }

  ghost predicate Unseen(checks: seq<Json>, seen: set<string>) {
    forall k :: 0 <= k < |checks| ==> IdOf(checks[k]) !in seen
  }

  lemma DistinctFirst(checks: seq<Json>, seen: set<string>)
    requires checks != []
    ensures DistinctIds(checks) && Unseen(checks, seen) <==>
            IdOf(checks[0]) !in seen && DistinctIds(checks[1..]) && Unseen(checks[1..], seen + {IdOf(checks[0])})
  {
    hide IdOf;
    var tail := checks[1..];
    if IdOf(checks[0]) !in seen && DistinctIds(tail) && Unseen(tail, seen + {IdOf(checks[0])}) {
      forall k | 0 < k < |checks|
        ensures IdOf(checks[k]) !in seen && IdOf(checks[k]) != IdOf(checks[0])
      {
        assert checks[k] == tail[k - 1];
      }
      forall j, k | 0 < j < k < |checks|
        ensures IdOf(checks[j]) != IdOf(checks[k])
      {
        assert checks[j] == tail[j - 1] && checks[k] == tail[k - 1];
      }
    }
  }

  lemma GoodFirst(s: Setting, checks: seq<Json>)
    requires checks != []
    ensures AllGood(s, checks) <==> Good(s, checks[0]) && AllGood(s, checks[1..])
  {
    hide Good;
    if Good(s, checks[0]) && AllGood(s, checks[1..]) {
      forall k | 0 < k < |checks|
        ensures Good(s, checks[k])
      {
        assert checks[k] == checks[1..][k - 1];
      }
    }
  }

  lemma TalliedFirst(s: Setting, checks: seq<Json>, before: Tally, after: Tally)
    requires checks != [] && Shaped(checks[0]) && Tallied(s, checks[1..], Counted(s, before, checks[0]), after)
    ensures Tallied(s, checks, before, after)
  {
    hide Shaped, IdOf, HasRun, Applicable, EventOf, RunOf;
    var first, tail := checks[0], checks[1..];
    assert forall c :: c in checks <==> c == first || c in tail;
    RunsApply(first);
  }

  lemma RunsApply(c: Json)
    ensures HasRun(c) ==> Applicable(c)
    ensures Applicable(c) ==> Shaped(c)
  {
    hide Shaped;
  }

  lemma TalliedNone(s: Setting, t: Tally)
    ensures Tallied(s, [], t, t)
  {
  }

  lemma {:induction false} CheckAllIff(s: Setting, checks: seq<Json>, t: Tally)
    ensures CheckAll(s, checks, t).Ok? <==> AllGood(s, checks) && DistinctIds(checks) && Unseen(checks, t.seen)
    ensures CheckAll(s, checks, t).Ok? ==> Tallied(s, checks, t, CheckAll(s, checks, t).value)
    decreases |checks|
  {
    hide Fault, Good, Shaped, IdOf, Tallied, Applicable, HasRun, EventOf, RunOf;
    if checks == [] {
      TalliedNone(s, t);
    } else {
      hide AllGood, DistinctIds, Unseen;
      FaultIff(s, checks[0], t.seen);
      FaultMeansShaped(s, checks[0], t.seen);
      GoodFirst(s, checks);
      DistinctFirst(checks, t.seen);
      if Fault(s, checks[0], t.seen).None? {
        CheckAllIff(s, checks[1..], Counted(s, t, checks[0]));
        if CheckAll(s, checks, t).Ok? {
          TalliedFirst(s, checks, t, CheckAll(s, checks, t).value);
        }
      }
    }
  }

  lemma AtMostOne(xs: set<string>)
    ensures |xs| <= 1 <==> forall x, y :: x in xs && y in xs ==> x == y
  {
    if x :| x in xs {
      assert xs == {x} + (xs - {x});
      if y :| y in xs - {x} {
        assert |xs - {x}| > 0;
      }
    }
  }

  lemma TallyMeans(s: Setting, checks: seq<Json>, t: Tally)
    requires Tallied(s, checks, Tally({}, {}, {}), t)
    ensures |t.events| <= 1 <==> OneEvent(s, checks)
    ensures |t.runs| <= 1 <==> OneRun(s, checks)
    ensures REQUIRED <= t.seen <==> HasRequired(checks)
  {
    hide IdOf, Applicable, HasRun, EventOf, RunOf, Shaped;
    AtMostOne(t.events);
    AtMostOne(t.runs);
    forall c | c in checks
      ensures Applicable(c) ==> Shaped(c) && EventOf(s, c) in t.events
      ensures HasRun(c) ==> Shaped(c) && RunOf(s, c) in t.runs
    {
      RunsApply(c);
    }
    if OneEvent(s, checks) {
      forall x, y | x in t.events && y in t.events
        ensures x == y
      {
        var a :| a in checks && Applicable(a) && EventOf(s, a) == x;
        var b :| b in checks && Applicable(b) && EventOf(s, b) == y;
      }
    }
    if OneRun(s, checks) {
      forall x, y | x in t.runs && y in t.runs
        ensures x == y
      {
        var a :| a in checks && HasRun(a) && RunOf(s, a) == x;
        var b :| b in checks && HasRun(b) && RunOf(s, b) == y;
      }
    }
  }

  /** Validation accepts a document for this candidate exactly when its list is acceptable. */
  lemma AcceptedIff(s: Setting, data: Json)
    ensures Validated(s, data).Ok? <==> ChecksIn(s, data).Ok? && Acceptable(s, ChecksIn(s, data).value)
    ensures Validated(s, data).Ok? ==> Validated(s, data).value == Sorting.Sort(BY_ID, ChecksIn(s, data).value)
  {
    hide ChecksIn, CheckAll, AllGood, DistinctIds, HasRequired, OneEvent, OneRun, Tallied;
    if ChecksIn(s, data).Ok? {
      var checks, none := ChecksIn(s, data).value, Tally({}, {}, {});
      CheckAllIff(s, checks, none);
      assert Unseen(checks, none.seen);
      if CheckAll(s, checks, none).Ok? {
        TallyMeans(s, checks, CheckAll(s, checks, none).value);
      }
    }
  }

  /** What a document for this candidate is. */
  lemma ChecksInIff(s: Setting, data: Json)
    ensures ChecksIn(s, data).Ok? <==>
            && data.Obj? && Get(data.fields, "schema_version") in {Int(1), Bool(true), Float(1.0)}
            && Get(data.fields, "candidate").Obj? && s.OfCandidate(Get(data.fields, "candidate").fields)
            && Get(data.fields, "checks").List?
    ensures ChecksIn(s, data).Ok? ==> Get(data.fields, "checks") == List(ChecksIn(s, data).value)
  {
    hide Setting.OfCandidate;
    if data.Obj? {
      OneIs(Get(data.fields, "schema_version"));
    }
  }

  lemma OneIs(j: Json)
    ensures Equal(j, Int(1)) <==> j == Int(1) || j == Bool(true) || j == Float(1.0)
  {
    match j
    case Bool(b) =>
    case Int(n) =>
    case _ =>
  }

  /** The receipt at k, and no other, has this id; and it passed, applies, is for the candidate and records success
      for exactly the steps the workflow runs for it. */
  ghost predicate StandsAt(s: Setting, checks: seq<Json>, id: string, k: nat) {
    && k < |checks| && Shaped(checks[k]) && IdOf(checks[k]) == id
    && (forall j :: 0 <= j < |checks| && IdOf(checks[j]) == id ==> j == k)
    && var f := checks[k].fields;
    && Get(f, "applicable") == Bool(true) && Get(f, "status") == Str("pass")
    && Get(f, "classification") == Str("required")
    && Get(f, "run").Obj? && s.OfCandidate(Get(f, "run").fields)
    && Get(f, "environment").Obj? && StepsSucceed(s, id, Get(f, "environment").fields, f)
  }

  /** In an accepted list each required id stands once, as it must. */
  lemma RequiredStandsOnce(s: Setting, data: Json, id: string) returns (k: nat)
    requires Validated(s, data).Ok? && id in REQUIRED
    ensures ChecksIn(s, data).Ok? && StandsAt(s, ChecksIn(s, data).value, id, k)
  {
    hide Validated, ChecksIn, StandsAt, AllGood, OneEvent, OneRun, HasRequired, DistinctIds;
    AcceptedIff(s, data);
    var checks := ChecksIn(s, data).value;
    k := Standing(checks, id);
    StandsAlone(s, checks, id, k);
  }

  lemma StandsAlone(s: Setting, checks: seq<Json>, id: string, k: nat)
    requires AllGood(s, checks) && DistinctIds(checks) && id in REQUIRED && k < |checks| && IdOf(checks[k]) == id
    ensures StandsAt(s, checks, id, k)
  {
    hide StepsSucceed, Setting.OfCandidate, IdOf;
    assert Good(s, checks[k]);
    forall j | 0 <= j < |checks| && IdOf(checks[j]) == id
      ensures j == k
    {
      assert j < k || j > k || j == k;
    }
  }

  lemma Standing(checks: seq<Json>, id: string) returns (k: nat)
    requires HasRequired(checks) && id in REQUIRED
    ensures k < |checks| && IdOf(checks[k]) == id
  {
    hide IdOf;
    var c :| c in checks && IdOf(c) == id;
    k :| k < |checks| && checks[k] == c;
  }

  // ---- the canonical form

  lemma IdsOrder(checks: seq<Json>)
    requires DistinctIds(checks)
    ensures Sorting.DistinctKeys(BY_ID, checks)
  {
    hide IdOf, Codes;
    forall j, k | 0 <= j < k < |checks|
      ensures BY_ID(checks[j]) != BY_ID(checks[k])
    {
      if Codes(IdOf(checks[j])) == Codes(IdOf(checks[k])) {
        CodesInjective(IdOf(checks[j]), IdOf(checks[k]));
      }
    }
  }

  lemma OrderedIds(checks: seq<Json>)
    requires Sorting.StrictlyAscending(BY_ID, checks)
    ensures DistinctIds(checks)
  {
    hide IdOf, Codes;
    forall j, k | 0 <= j < k < |checks|
      ensures IdOf(checks[j]) != IdOf(checks[k])
    {
      Lex.Irreflexive(BY_ID(checks[j]));
    }
  }

  /** Rearranging a list keeps its ids distinct. */
  lemma SortedDistinct(checks: seq<Json>)
    requires DistinctIds(checks)
    ensures var sorted := Sorting.Sort(BY_ID, checks);
            Sorting.StrictlyAscending(BY_ID, sorted) && multiset(sorted) == multiset(checks)
  {
    hide IdOf, Lex.Less;
    var sorted := Sorting.Sort(BY_ID, checks);
    Sorting.SortSorts(BY_ID, checks);
    DistinctItems(checks);
    Sorting.DistinctPermuted(checks, sorted);
    Sorting.SameItems(BY_ID, checks);
    SameIdsSameItem(checks, sorted);
    IdsOrder(sorted);
    Sorting.AscendingStrict(BY_ID, sorted);
  }

  lemma DistinctItems(checks: seq<Json>)
    requires DistinctIds(checks)
    ensures Sorting.Distinct(checks)
  {
    hide IdOf;
  }

  lemma SameIdsSameItem(checks: seq<Json>, other: seq<Json>)
    requires DistinctIds(checks) && Sorting.Distinct(other) && forall c :: c in other <==> c in checks
    ensures DistinctIds(other)
  {
    hide IdOf;
    forall j, k | 0 <= j < k < |other|
      ensures IdOf(other[j]) != IdOf(other[k])
    {
      assert other[j] in checks && other[k] in checks;
      var a :| 0 <= a < |checks| && checks[a] == other[j];
      var b :| 0 <= b < |checks| && checks[b] == other[k];
      assert a != b;
      assert a < b || b < a;
    }
  }

  /** Whether a list is acceptable does not depend on its order. */
  lemma AcceptableRearranged(s: Setting, checks: seq<Json>, other: seq<Json>)
    requires Acceptable(s, checks) && multiset(checks) == multiset(other)
    ensures Acceptable(s, other)
  {
    hide IdOf, Good, Applicable, HasRun, EventOf, RunOf, Shaped;
    forall c
      ensures c in checks <==> c in other
    {
      assert c in checks <==> c in multiset(checks);
      assert c in other <==> c in multiset(other);
    }
    DistinctItems(checks);
    Sorting.DistinctPermuted(checks, other);
    SameIdsSameItem(checks, other);
    forall k | 0 <= k < |other|
      ensures Good(s, other[k])
    {
      assert other[k] in checks;
    }
  }

  /** Validation returns the receipts it was given in strict order of id. */
  lemma ResultIsCanonical(s: Setting, data: Json)
    requires Validated(s, data).Ok?
    ensures var r := Validated(s, data).value;
            && multiset(r) == multiset(ChecksIn(s, data).value)
            && Sorting.StrictlyAscending(BY_ID, r)
  {
    hide ChecksIn, Validated, AllGood, HasRequired, OneEvent, OneRun, DistinctIds;
    AcceptedIff(s, data);
    SortedDistinct(ChecksIn(s, data).value);
  }

  /** A document for the same candidate with the same receipts in another order validates to the same list; with
      the result itself for its receipts, to that result. */
  lemma OrderDoesNotMatter(s: Setting, data: Json, other: Json)
    requires Validated(s, data).Ok? && ChecksIn(s, other).Ok?
    requires multiset(ChecksIn(s, other).value) == multiset(ChecksIn(s, data).value)
    ensures Validated(s, other) == Validated(s, data)
  {
    hide ChecksIn, Validated, Acceptable;
    AcceptedIff(s, data);
    AcceptedIff(s, other);
    AcceptableRearranged(s, ChecksIn(s, data).value, ChecksIn(s, other).value);
    ResultIsCanonical(s, data);
    ResultIsCanonical(s, other);
    Sorting.StrictIsUnique(BY_ID, Validated(s, other).value, Validated(s, data).value);
  }

  /** Validating what validation returned returns it again. */
  lemma ValidatedAgain(s: Setting, data: Json)
    requires Validated(s, data).Ok?
    ensures Validated(s, Obj(data.fields["checks" := List(Validated(s, data).value)])) == Validated(s, data)
  {
    AcceptedIff(s, data);
    ResultIsCanonical(s, data);
    ChecksReplaced(s, data, Validated(s, data).value);
    hide ChecksIn, Validated;
    OrderDoesNotMatter(s, data, Obj(data.fields["checks" := List(Validated(s, data).value)]));
  }

  lemma ChecksReplaced(s: Setting, data: Json, checks: seq<Json>)
    requires ChecksIn(s, data).Ok?
    ensures data.Obj? && ChecksIn(s, Obj(data.fields["checks" := List(checks)])) == Ok(checks)
  {
    hide Equal, Setting.OfCandidate;
  }

  // ---- two accepted lists

  ghost predicate SameChecks(left: seq<Json>, right: seq<Json>) {
    |left| == |right| && forall k :: 0 <= k < |left| ==> Equal(left[k], right[k])
  }

  /** A list in strict order of id, of objects with an id. */
  ghost predicate Canonical(checks: seq<Json>) {
    && Sorting.StrictlyAscending(BY_ID, checks)
    && forall k :: 0 <= k < |checks| ==> checks[k].Obj? && Get(checks[k].fields, "id").Str?
  }

  ghost predicate HasId(checks: seq<Json>, id: string) {
    exists k :: 0 <= k < |checks| && IdOf(checks[k]) == id
  }

  /** Every id of the one list is an id of the other. */
  ghost predicate IdsWithin(left: seq<Json>, right: seq<Json>) {
    forall k :: 0 <= k < |left| ==> HasId(right, IdOf(left[k]))
  }

  ghost predicate HasKey(checks: seq<Json>, key: Json) {
    exists k :: 0 <= k < |checks| && KeyOf(checks[k]) == key
  }

  lemma HasKeyNext(front: seq<Json>, last: Json, key: Json)
    ensures HasKey(front + [last], key) <==> HasKey(front, key) || KeyOf(last) == key
  {
    hide KeyOf;
    var all := front + [last];
    if HasKey(front, key) {
      var k :| 0 <= k < |front| && KeyOf(front[k]) == key;
      assert KeyOf(all[k]) == key;
    }
    if KeyOf(last) == key {
      assert KeyOf(all[|front|]) == key;
    }
  }

  lemma {:induction false} ByIdKeys(checks: seq<Json>)
    ensures forall key :: key in ById(checks) <==> HasKey(checks, key)
    decreases |checks|
  {
    hide KeyOf, HasKey;
    if checks == [] {
      NoKeys();
    } else {
      var n := |checks| - 1;
      ByIdKeys(checks[..n]);
      assert checks == checks[..n] + [checks[n]];
      forall key
        ensures key in ById(checks) <==> HasKey(checks, key)
      {
        HasKeyNext(checks[..n], checks[n], key);
      }
    }
  }

  lemma NoKeys()
    ensures forall key :: !HasKey([], key)
  {
  }

  /** With a text id a receipt is filed under it. */
  lemma TextKey(check: Json)
    requires check.Obj? && Get(check.fields, "id").Str?
    ensures KeyOf(check) == Str(IdOf(check))
  {
  }

  lemma TextKeys(checks: seq<Json>)
    requires Canonical(checks)
    ensures forall k :: 0 <= k < |checks| ==> KeyOf(checks[k]) == Str(IdOf(checks[k]))
    ensures DistinctIds(checks)
  {
    hide IdOf, KeyOf, Sorting.StrictlyAscending;
    OrderedIds(checks);
    forall k | 0 <= k < |checks|
      ensures KeyOf(checks[k]) == Str(IdOf(checks[k]))
    {
      TextKey(checks[k]);
    }
  }

  lemma {:induction false} ByIdAt(checks: seq<Json>, k: nat)
    requires forall i, j :: 0 <= i < j < |checks| ==> KeyOf(checks[i]) != KeyOf(checks[j])
    requires k < |checks|
    ensures KeyOf(checks[k]) in ById(checks) && ById(checks)[KeyOf(checks[k])] == checks[k]
    decreases |checks|
  {
    hide KeyOf;
    var n := |checks| - 1;
    if k < n {
      ByIdAt(checks[..n], k);
      assert checks[..n][k] == checks[k];
    }
  }

  /** In a list in strict order each receipt is found under its id. */
  lemma FoundById(checks: seq<Json>, k: nat)
    requires Canonical(checks) && k < |checks|
    ensures var id := Str(IdOf(checks[k])); id in ById(checks) && ById(checks)[id] == checks[k]
  {
    hide IdOf, KeyOf, ById, Sorting.StrictlyAscending;
    TextKeys(checks);
    ByIdAt(checks, k);
  }

  lemma EqualIds(a: Json, b: Json)
    requires a.Obj? && Get(a.fields, "id").Str? && b.Obj? && Equal(a, b)
    ensures IdOf(a) == IdOf(b)
  {
    hide Equal;
    EqualFields(a, b, "id");
  }

  lemma SameChecksAgree(left: seq<Json>, right: seq<Json>)
    requires Canonical(left) && Canonical(right) && SameChecks(left, right)
    ensures Agree(ById(left), ById(right))
  {
    hide Equal, ById, Sorting.StrictlyAscending, IdOf, KeyOf, DistinctIds;
    TextKeys(left);
    TextKeys(right);
    ByIdKeys(left);
    ByIdKeys(right);
    var a, b := ById(left), ById(right);
    forall k | 0 <= k < |left|
      ensures KeyOf(left[k]) == KeyOf(right[k]) && KeyOf(left[k]) in a && KeyOf(right[k]) in b
      ensures Equal(a[KeyOf(left[k])], b[KeyOf(right[k])])
    {
      EqualIds(left[k], right[k]);
      FoundById(left, k);
      FoundById(right, k);
    }
    assert forall id :: id in a <==> id in b;
  }

  /** Two lists in strict order with the same ids have the same id at each place. */
  lemma {:induction false} SameIdsAligned(left: seq<Json>, right: seq<Json>)
    requires Sorting.StrictlyAscending(BY_ID, left) && Sorting.StrictlyAscending(BY_ID, right)
    requires IdsWithin(left, right) && IdsWithin(right, left)
    ensures |left| == |right| && forall k :: 0 <= k < |left| ==> IdOf(left[k]) == IdOf(right[k])
  {
    hide IdOf, Codes, Lex.Less;
    if left == [] || right == [] {
      NoneWithin(left, right);
      NoneWithin(right, left);
    } else {
      hide IdsWithin;
      HeadsMatch(left, right);
      TailHasIds(left, right);
      TailHasIds(right, left);
      SameIdsAligned(left[1..], right[1..]);
      forall k | 0 < k < |left|
        ensures IdOf(left[k]) == IdOf(right[k])
      {
        assert left[k] == left[1..][k - 1] && right[k] == right[1..][k - 1];
      }
    }
  }

  lemma NoneWithin(left: seq<Json>, right: seq<Json>)
    requires IdsWithin(left, right)
    ensures right == [] ==> left == []
  {
    if left != [] {
      assert HasId(right, IdOf(left[0]));
    }
  }

  lemma HeadsMatch(left: seq<Json>, right: seq<Json>)
    requires Sorting.StrictlyAscending(BY_ID, left) && Sorting.StrictlyAscending(BY_ID, right)
    requires left != [] && right != []
    requires IdsWithin(left, right) && IdsWithin(right, left)
    ensures IdOf(left[0]) == IdOf(right[0])
  {
    hide IdOf, Codes, Lex.Less;
    assert HasId(right, IdOf(left[0])) && HasId(left, IdOf(right[0]));
    var i :| 0 <= i < |right| && IdOf(right[i]) == IdOf(left[0]);
    var j :| 0 <= j < |left| && IdOf(left[j]) == IdOf(right[0]);
    if i > 0 && j > 0 {
      assert Lex.Less(BY_ID(right[0]), BY_ID(right[i])) && Lex.Less(BY_ID(left[0]), BY_ID(left[j]));
      Lex.Asymmetric(BY_ID(left[0]), BY_ID(right[0]));
    }
  }

  lemma TailHasIds(left: seq<Json>, right: seq<Json>)
    requires Sorting.StrictlyAscending(BY_ID, left) && left != [] && right != [] && IdOf(left[0]) == IdOf(right[0])
    requires IdsWithin(left, right)
    ensures IdsWithin(left[1..], right[1..])
  {
    OrderedIds(left);
    hide IdOf, Codes, Lex.Less, Sorting.StrictlyAscending;
    forall k | 0 <= k < |left[1..]|
      ensures HasId(right[1..], IdOf(left[1..][k]))
    {
      assert HasId(right, IdOf(left[k + 1]));
      var l :| 0 <= l < |right| && IdOf(right[l]) == IdOf(left[k + 1]);
      assert l > 0;
      assert right[1..][l - 1] == right[l];
    }
  }

  lemma KeysWithin(left: seq<Json>, right: seq<Json>)
    requires Canonical(left) && Canonical(right) && ById(left).Keys <= ById(right).Keys
    ensures IdsWithin(left, right)
  {
    hide ById, IdOf, KeyOf, Sorting.StrictlyAscending, DistinctIds;
    ByIdKeys(left);
    ByIdKeys(right);
    TextKeys(left);
    TextKeys(right);
    forall k | 0 <= k < |left|
      ensures HasId(right, IdOf(left[k]))
    {
      assert HasKey(left, KeyOf(left[k]));
      assert KeyOf(left[k]) in ById(left).Keys;
      var l :| 0 <= l < |right| && KeyOf(right[l]) == KeyOf(left[k]);
      assert IdOf(right[l]) == IdOf(left[k]);
    }
  }

  lemma AgreeingAreSame(left: seq<Json>, right: seq<Json>)
    requires Canonical(left) && Canonical(right) && Agree(ById(left), ById(right))
    ensures SameChecks(left, right)
  {
    hide Equal, ById, IdOf, Sorting.StrictlyAscending, DistinctIds, IdsWithin;
    KeysWithin(left, right);
    KeysWithin(right, left);
    SameIdsAligned(left, right);
    var a, b := ById(left), ById(right);
    forall k | 0 <= k < |left|
      ensures Equal(left[k], right[k])
    {
      FoundById(left, k);
      FoundById(right, k);
      assert Equal(a[Str(IdOf(left[k]))], b[Str(IdOf(left[k]))]);
    }
  }

  lemma ValidatedIsCanonical(s: Setting, data: Json)
    requires Validated(s, data).Ok?
    ensures Canonical(Validated(s, data).value)
  {
    hide ChecksIn, Validated, HasRequired, OneEvent, OneRun, DistinctIds, Sorting.StrictlyAscending;
    ResultIsCanonical(s, data);
    AcceptedIff(s, data);
    var checks, r := ChecksIn(s, data).value, Validated(s, data).value;
    AcceptableRearranged(s, checks, r);
    forall k | 0 <= k < |r|
      ensures r[k].Obj? && Get(r[k].fields, "id").Str?
    {
      GoodHasId(s, r[k]);
    }
  }

  lemma GoodHasId(s: Setting, check: Json)
    requires Good(s, check)
    ensures check.Obj? && Get(check.fields, "id").Str?
  {
    assert "id" in FIELDS;
  }

  /** The ids of a list in strict order can be keys and can be sorted. */
  lemma CanonicalCompares(checks: seq<Json>)
    requires Canonical(checks)
    ensures Hashable(checks) && Sortable(ById(checks).Keys)
  {
    hide IdOf, KeyOf, ById, Sorting.StrictlyAscending, DistinctIds;
    TextKeys(checks);
    ByIdKeys(checks);
    forall id | id in ById(checks).Keys
      ensures id.Str?
    {
      assert HasKey(checks, id);
    }
  }

  /** Comparing two accepted lists succeeds exactly when they are equal, receipt by receipt. */
  lemma ComparisonIff(s: Setting, left: Json, t: Setting, right: Json)
    requires Validated(s, left).Ok? && Validated(t, right).Ok?
    ensures var (l, r) := (Validated(s, left).value, Validated(t, right).value);
            && Hashable(l) && Hashable(r) && Sortable(ById(l).Keys)
            && (Agree(ById(l), ById(r)) <==> SameChecks(l, r))
  {
    hide Validated, Canonical, Agree, SameChecks, ById, Hashable, Sortable;
    var l, r := Validated(s, left).value, Validated(t, right).value;
    ValidatedIsCanonical(s, left);
    ValidatedIsCanonical(t, right);
    CanonicalCompares(l);
    CanonicalCompares(r);
    if Agree(ById(l), ById(r)) {
      AgreeingAreSame(l, r);
    }
    if SameChecks(l, r) {
      SameChecksAgree(l, r);
    }
  }
}
