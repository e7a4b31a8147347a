/** Which refusal each faulty receipt gets, in the literal words of the document. */
module ReceiptRefusals {
  import opened Results
  import opened Json
  import opened Receipts
  import opened ReceiptLaws

  // ---- the words

  ghost predicate RequiredId(id: string) {
    || id == "rust" || id == "msrv" || id == "armv7" || id == "vectors" || id == "audit" || id == "proofs"
    || id == "translation" || id == "checks" || id == "attest-negatives"
  }

  ghost predicate StatusWord(j: Json) {
    || j == Str("pass") || j == Str("fail") || j == Str("missing") || j == Str("skipped") || j == Str("inconclusive")
    || j == Str("not_applicable")
  }

  ghost predicate ClassWord(j: Json) {
    j == Str("required") || j == Str("optional") || j == Str("conditional")
  }

  ghost predicate HasFields(f: Fields) {
    && "id" in f && "classification" in f && "applicable" in f && "status" in f && "command" in f
    && "environment" in f && "run" in f
  }

  lemma RequiredIs(id: string)
    ensures id in REQUIRED <==> RequiredId(id)
  {
  }

  lemma StatusIs(j: Json)
    ensures OneOf(j, STATUSES) <==> StatusWord(j)
  {
  }

  lemma ClassIs(j: Json)
    ensures OneOf(j, CLASSES) <==> ClassWord(j)
  {
  }

  lemma FieldsAre(f: Fields)
    ensures (forall name :: name in FIELDS ==> name in f) <==> HasFields(f)
  {
    assert |FIELDS| == 7 && FIELDS[0] == "id" && FIELDS[1] == "classification" && FIELDS[2] == "applicable";
    assert FIELDS[3] == "status" && FIELDS[4] == "command" && FIELDS[5] == "environment" && FIELDS[6] == "run";
  }

  // ---- how a receipt is made

  /** The first thing wrong with how a receipt is made: it is no object, lacks a field, has an id that is no text, empty
      or seen, and so on through its fields. */
  ghost function MadeWrong(check: Json, seen: set<string>): (r: Option<Refusal>) {
    if !check.Obj? then Some(NotObject) else
    var f := check.fields;
    if !HasFields(f) then Some(MissingField)
    else if !f["id"].Str? || f["id"] == Str("") || f["id"].s in seen then Some(BadId)
    else
      var id, kind, status := f["id"].s, f["classification"], f["status"];
      if kind.List? || kind.Obj? then Some(UnhashableValue)
      else if !ClassWord(kind) then Some(BadClassification(id))
      else if f["applicable"] != Bool(true) && f["applicable"] != Bool(false) then Some(NotBoolean(id))
      else if status.List? || status.Obj? then Some(UnhashableValue)
      else if !StatusWord(status) then Some(BadStatus(id))
      else if !f["command"].Str? || f["command"] == Str("") then Some(NoCommand(id))
      else if !f["environment"].Obj? || !f["run"].Obj? then Some(NotObjects(id))
      else None
  }

  lemma MadeWrongIs(check: Json, seen: set<string>)
    ensures ShapeFault(check, seen) == MadeWrong(check, seen)
  {
    hide HasFields, ClassWord, StatusWord;
    if check.Obj? {
      var f := check.fields;
      FieldsAre(f);
      if HasFields(f) {
        FieldsHeld(f);
        ClassIs(f["classification"]);
        StatusIs(f["status"]);
      }
    }
    hide OneOf;
  }

  lemma FieldsHeld(f: Fields)
    requires HasFields(f)
    ensures "id" in f && "classification" in f && "applicable" in f && "status" in f && "command" in f
    ensures "environment" in f && "run" in f
  {
  }

  // ---- what a receipt says

  /** The first thing wrong with the steps of an applicable receipt for the candidate. */
  ghost function StepsWrong(s: Setting, id: string, f: Fields): (r: Option<Refusal>)
    requires "environment" in f && f["environment"].Obj?
  {
    if forall k :: k in s.expected ==> k.0 != id then None else
    var event := Get(f["environment"].fields, "event");
    if event.List? || event.Obj? then Some(UnhashableValue)
    else if !event.Str? || (id, event.s) !in s.expected then Some(UnknownEvent(id))
    else
      var steps, outcomes := s.expected[(id, event.s)], Get(f, "step_outcomes");
      if !outcomes.Obj? || outcomes == Obj(map[]) then Some(NoOutcomes(id))
      else if exists step :: step in steps && step !in outcomes.fields then Some(MissingSteps(id))
      else if exists step :: step in outcomes.fields && step !in steps then Some(ExtraSteps(id))
      else if exists step :: step in outcomes.fields && outcomes.fields[step] != Str("success") then
        Some(NotSuccess(id))
      else None
  }

  /** The first thing wrong with what a well-made receipt says: a required one that does not apply or is classified
      otherwise, one that applies and has not passed, one that does not apply and says otherwise, one for another
      candidate, and then its steps. */
  ghost function SaysWrong(s: Setting, check: Json): (r: Option<Refusal>)
    requires Shaped(check)
  {
    MadeHas(check);
    var f := check.fields;
    var id, applies, status := f["id"].s, f["applicable"] == Bool(true), f["status"];
    if RequiredId(id) && !applies then
      Some(if status == Str("not_applicable") then RequiredDowngraded(id) else BadInapplicable(id))
    else if RequiredId(id) && f["classification"] != Str("required") then Some(RequiredDowngraded(id))
    else if applies && status != Str("pass") then Some(NotPassing(id))
    else if !applies then (if status == Str("not_applicable") then None else Some(BadInapplicable(id)))
    else if Get(f["run"].fields, "commit") != Str(s.commit) || Get(f["run"].fields, "tree") != Str(s.tree) then
      Some(NotForCandidate(id))
    else StepsWrong(s, id, f)
  }

  lemma MadeHas(check: Json)
    requires Shaped(check)
    ensures check.Obj? && HasFields(check.fields)
    ensures var f := check.fields;
            && f["id"].Str? && f["applicable"].Bool? && f["status"].Str? && f["classification"].Str?
            && f["environment"].Obj? && f["run"].Obj?
  {
    FieldsAre(check.fields);
    assert "id" in FIELDS;
  }

  lemma SaysWrongIs(s: Setting, check: Json)
    requires Shaped(check)
    ensures ClaimFault(s, check) == SaysWrong(s, check)
  {
    MadeHas(check);
    var f := check.fields;
    RequiredIs(f["id"].s);
    assert "id" in f && Get(f, "id") == f["id"];
    StepsWrongIs(s, f["id"].s, f);
    hide Shaped, StepFault, StepsWrong, RequiredId, REQUIRED, HasFields;
  }

  lemma StepsWrongIs(s: Setting, id: string, f: Fields)
    requires "environment" in f && f["environment"].Obj?
    ensures StepFault(s, id, f["environment"].fields, f) == StepsWrong(s, id, f)
  {
  }

  // ---- a document and its receipts

  /** A document is refused for its version, then for its candidate, then for its list. */
  lemma DocumentRefusals(s: Setting, data: Json)
    ensures var version := if data.Obj? then Get(data.fields, "schema_version") else Null;
            var candidate := if data.Obj? then Get(data.fields, "candidate") else Null;
            var versionOk := version == Int(1) || version == Bool(true) || version == Float(1.0);
            var candidateOk := candidate.Obj? && Get(candidate.fields, "commit") == Str(s.commit)
                               && Get(candidate.fields, "tree") == Str(s.tree);
            && (ChecksIn(s, data) == Err(SchemaVersion) <==> !data.Obj? || !versionOk)
            && (ChecksIn(s, data) == Err(OtherCandidate) <==> data.Obj? && versionOk && !candidateOk)
            && (ChecksIn(s, data) == Err(ChecksNotList) <==>
                  data.Obj? && versionOk && candidateOk && !Get(data.fields, "checks").List?)
  {
    if data.Obj? {
      OneIs(Get(data.fields, "schema_version"));
    }
    hide Equal;
  }

  // ---- the list

  ghost function Ids(checks: seq<Json>): (ids: set<string>) {
    set k | 0 <= k < |checks| :: IdOf(checks[k])
  }

  /** The fault of one receipt, those with these ids having been seen. */
  ghost function FaultOf(s: Setting, check: Json, seen: set<string>): (r: Option<Refusal>) {
    if MadeWrong(check, seen).Some? then MadeWrong(check, seen)
    else if Shaped(check) then SaysWrong(s, check) else None
  }

  lemma FaultIs(s: Setting, check: Json, seen: set<string>)
    ensures Fault(s, check, seen) == FaultOf(s, check, seen)
  {
    hide MadeWrong, SaysWrong, ShapeFault, ClaimFault, Shaped, IdOf;
    MadeWrongIs(check, seen);
    ShapeFaultIff(check, seen);
    if Shaped(check) {
      SaysWrongIs(s, check);
    }
  }

  /** The first receipt with a fault decides. */
  lemma {:induction false} FirstFaultDecides(s: Setting, checks: seq<Json>, t: Tally, k: nat)
    requires k < |checks| && FaultOf(s, checks[k], t.seen + Ids(checks[..k])).Some?
    requires forall j :: 0 <= j < k ==> FaultOf(s, checks[j], t.seen + Ids(checks[..j])) == None
    ensures CheckAll(s, checks, t) == Err(FaultOf(s, checks[k], t.seen + Ids(checks[..k])).value)
    decreases k
  {
    hide FaultOf, Fault, IdOf, Shaped, Applicable, HasRun, EventOf, RunOf;
    assert checks[..0] == [] && t.seen + Ids([]) == t.seen;
    assert FaultOf(s, checks[0], t.seen + Ids(checks[..0])) == FaultOf(s, checks[0], t.seen);
    FaultIs(s, checks[0], t.seen);
    if k > 0 {
      FaultIff(s, checks[0], t.seen);
      GoodIsShaped(s, checks[0]);
      var tail, t' := checks[1..], Counted(s, t, checks[0]);
      forall j | 0 <= j < k
        ensures t'.seen + Ids(tail[..j]) == t.seen + Ids(checks[..j + 1]) && tail[j] == checks[j + 1]
      {
        IdsNext(checks, j);
      }
      FirstFaultDecides(s, tail, t', k - 1);
    }
  }

  lemma GoodIsShaped(s: Setting, check: Json)
    requires Good(s, check)
    ensures Shaped(check)
  {
    hide Shaped;
  }

  lemma IdsNext(checks: seq<Json>, j: nat)
    requires j < |checks|
    ensures Ids(checks[..j + 1]) == {IdOf(checks[0])} + Ids(checks[1..][..j])
  {
    hide IdOf;
    var a, b := checks[..j + 1], checks[1..][..j];
    assert forall k :: 0 <= k < j ==> b[k] == a[k + 1];
    forall id | id in Ids(a)
      ensures id in {IdOf(checks[0])} + Ids(b)
    {
      var k :| 0 <= k < |a| && IdOf(a[k]) == id;
      assert k > 0 ==> b[k - 1] == a[k];
    }
    forall id | id in Ids(b)
      ensures id in Ids(a)
    {
      var k :| 0 <= k < |b| && IdOf(b[k]) == id;
      assert a[k + 1] == b[k];
    }
  }

  /** A well-made receipt that says it applies. */
  ghost predicate Applies(check: Json) {
    Shaped(check) && check.fields["applicable"] == Bool(true)
  }

  /** Applicable receipts name one event, told by how its value reads as text. */
  ghost predicate SameEvents(s: Setting, checks: seq<Json>) {
    forall a, b :: a in checks && b in checks && Applies(a) && Applies(b) ==>
                     s.show(Get(a.fields["environment"].fields, "event"))
                     == s.show(Get(b.fields["environment"].fields, "event"))
  }

  /** So of the runs that have an id. */
  ghost predicate SameRuns(s: Setting, checks: seq<Json>) {
    forall a, b :: a in checks && b in checks && Applies(a) && Applies(b)
                   && "id" in a.fields["run"].fields && "id" in b.fields["run"].fields ==>
                     s.show(a.fields["run"].fields["id"]) == s.show(b.fields["run"].fields["id"])
  }

  /** Receipts without a fault are refused for their events, then for their runs, then for what is missing. */
  lemma ListRefusals(s: Setting, data: Json)
    requires ChecksIn(s, data).Ok?
    requires AllGood(s, ChecksIn(s, data).value) && DistinctIds(ChecksIn(s, data).value)
    ensures var checks := ChecksIn(s, data).value;
            && (Validated(s, data) == Err(ManyEvents) <==> !SameEvents(s, checks))
            && (Validated(s, data) == Err(ManyRuns) <==> SameEvents(s, checks) && !SameRuns(s, checks))
            && (Validated(s, data) == Err(MissingChecks) <==>
                  && SameEvents(s, checks) && SameRuns(s, checks)
                  && exists id :: RequiredId(id) && forall c :: c in checks ==> IdOf(c) != id)
  {
    hide *;
    var checks := ChecksIn(s, data).value;
    var t := TalliedOk(s, data);
    Concluded(checks, t);
    EventsAre(s, checks);
    RunsAre(s, checks);
    MissingIs(checks);
  }

  lemma TalliedOk(s: Setting, data: Json) returns (t: Tally)
    requires ChecksIn(s, data).Ok?
    requires AllGood(s, ChecksIn(s, data).value) && DistinctIds(ChecksIn(s, data).value)
    ensures Validated(s, data) == Conclude(ChecksIn(s, data).value, t)
    ensures |t.events| <= 1 <==> OneEvent(s, ChecksIn(s, data).value)
    ensures |t.runs| <= 1 <==> OneRun(s, ChecksIn(s, data).value)
    ensures REQUIRED <= t.seen <==> HasRequired(ChecksIn(s, data).value)
  {
    hide ChecksIn, CheckAll, AllGood, DistinctIds, Tallied, OneEvent, OneRun, HasRequired, IdOf, Conclude;
    var checks, none := ChecksIn(s, data).value, Tally({}, {}, {});
    CheckAllIff(s, checks, none);
    assert Unseen(checks, none.seen);
    t := CheckAll(s, checks, none).value;
    TallyMeans(s, checks, t);
  }

  lemma Concluded(checks: seq<Json>, t: Tally)
    ensures var r := Conclude(checks, t);
            && (r == Err(ManyEvents) <==> |t.events| > 1)
            && (r == Err(ManyRuns) <==> |t.events| <= 1 && |t.runs| > 1)
            && (r == Err(MissingChecks) <==> |t.events| <= 1 && |t.runs| <= 1 && !(REQUIRED <= t.seen))
  {
    hide REQUIRED;
  }

  lemma AppliesIs(c: Json)
    ensures Applicable(c) <==> Applies(c)
    ensures Applies(c) ==> c.Obj? && "run" in c.fields && "environment" in c.fields
  {
    if Shaped(c) {
      MadeHas(c);
    }
    hide Shaped;
  }

  lemma EventsAre(s: Setting, checks: seq<Json>)
    ensures OneEvent(s, checks) <==> SameEvents(s, checks)
  {
    hide Shaped, Applicable, Applies;
    forall c
      ensures Applicable(c) <==> Applies(c)
    {
      AppliesIs(c);
    }
  }

  lemma RunsAre(s: Setting, checks: seq<Json>)
    ensures OneRun(s, checks) <==> SameRuns(s, checks)
  {
    hide Shaped, Applicable, Applies;
    forall c
      ensures Applicable(c) <==> Applies(c)
    {
      AppliesIs(c);
    }
  }

  lemma MissingIs(checks: seq<Json>)
    ensures !HasRequired(checks) <==> exists id :: RequiredId(id) && forall c :: c in checks ==> IdOf(c) != id
  {
    hide IdOf;
    forall id
      ensures id in REQUIRED <==> RequiredId(id)
    {
      RequiredIs(id);
    }
    hide RequiredId, REQUIRED;
  }

  // ---- comparing two lists

  /** Receipts are filed under one key exactly when Python takes their ids as equal. */
  lemma KeyMeans(a: Json, b: Json)
    requires a.Obj? && b.Obj?
    ensures KeyOf(a) == KeyOf(b) <==> Equal(Get(a.fields, "id"), Get(b.fields, "id"))
  {
    hide Norm;
  }

  /** The receipt at `k` is the last filed under a key. */
  ghost predicate LastUnder(checks: seq<Json>, key: Json, k: int) {
    0 <= k < |checks| && KeyOf(checks[k]) == key && forall j :: k < j < |checks| ==> KeyOf(checks[j]) != key
  }

  /** Under each key is the last receipt filed there, and there is no other key. */
  lemma {:induction false} ByIdMeans(checks: seq<Json>, key: Json)
    ensures forall k :: LastUnder(checks, key, k) ==> key in ById(checks) && ById(checks)[key] == checks[k]
    ensures (forall k :: 0 <= k < |checks| ==> KeyOf(checks[k]) != key) ==> key !in ById(checks)
  {
    hide KeyOf;
    if checks != [] {
      var n := |checks| - 1;
      var init := checks[..n];
      ByIdMeans(init, key);
      assert forall k :: 0 <= k < n ==> init[k] == checks[k];
      forall k | LastUnder(checks, key, k)
        ensures key in ById(checks) && ById(checks)[key] == checks[k]
      {
        assert k < n ==> LastUnder(init, key, k);
      }
    }
  }

  /** Ids sort when every two of them are both texts or both numbers. */
  lemma SortableMeans(ids: set<Json>)
    ensures Sortable(ids) <==>
            forall a, b :: a in ids && b in ids && a != b ==> (a.Str? && b.Str?) || (a.Float? && b.Float?)
  {
    if |ids| <= 1 {
      forall a, b | a in ids && b in ids
        ensures a == b
      {
        if a != b {
          assert {a, b} <= ids;
          assert |{a, b}| == 2;
          SubsetIsNoLarger({a, b}, ids);
        }
      }
    } else {
      var a :| a in ids;
      var rest := ids - {a};
      assert |rest| == |ids| - 1;
      var b :| b in rest;
      assert a != b;
      if forall x, y :: x in ids && y in ids && x != y ==> (x.Str? && y.Str?) || (x.Float? && y.Float?) {
        forall x | x in ids
          ensures a.Str? ==> x.Str?
          ensures !a.Str? ==> x.Float?
        {
          assert (a.Str? && b.Str?) || (a.Float? && b.Float?);
          assert x != a ==> (a.Str? && x.Str?) || (a.Float? && x.Float?);
        }
      }
    }
  }

  lemma SubsetIsNoLarger(a: set<Json>, b: set<Json>)
    requires a <= b
    ensures |a| <= |b|
  {
    assert b == a + (b - a);
  }
}
