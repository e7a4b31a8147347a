/** Validating the receipts of a candidate's checks. */
module Receipts {
  import opened Results
  import opened Json
  import Lex
  import Sorting

  datatype Refusal =
    | SchemaVersion
    | OtherCandidate
    | ChecksNotList
    | NotObject
    | MissingField
    | BadId
    | BadClassification(cid: string)
    | NotBoolean(cid: string)
    | BadStatus(cid: string)
    | NoCommand(cid: string)
    | NotObjects(cid: string)
    | BadInapplicable(cid: string)
    | RequiredDowngraded(cid: string)
    | NotPassing(cid: string)
    | NotForCandidate(cid: string)
    | UnknownEvent(cid: string)
    | NoOutcomes(cid: string)
    | MissingSteps(cid: string)
    | ExtraSteps(cid: string)
    | NotSuccess(cid: string)
    | ManyEvents
    | ManyRuns
    | MissingChecks
    | UnhashableValue
    | DifferentIds
    | UnsortableIds
    | Disagree(id: Json)

  const REQUIRED := {"rust", "msrv", "armv7", "vectors", "audit", "proofs", "translation", "checks", "attest-negatives"}
  const STATUSES := {"pass", "fail", "missing", "skipped", "inconclusive", "not_applicable"}
  const CLASSES := {"required", "optional", "conditional"}
  const FIELDS := ["id", "classification", "applicable", "status", "command", "environment", "run"]

  /** The candidate, the steps each receipt must record by id and event, and how a value reads as text. */
  datatype Setting = Setting(commit: string, tree: string, expected: map<(string, string), seq<string>>,
                             show: Json -> string) {

    predicate Known(cid: string) {
      exists k :: k in expected && k.0 == cid
    }

    predicate OfCandidate(fields: Fields) {
      Get(fields, "commit") == Str(commit) && Get(fields, "tree") == Str(tree)
    }
  }

  function IdOf(check: Json): (id: string) {
    if check.Obj? && Get(check.fields, "id").Str? then check.fields["id"].s else ""
  }

  const BY_ID: Json -> seq<int> := c => Codes(IdOf(c))

  // ---- one receipt

  /** What is wrong with the command steps a receipt records. */
  function StepFault(s: Setting, cid: string, environment: Fields, check: Fields): (fault: Option<Refusal>) {
    if !s.Known(cid) then None else
    var event := Get(environment, "event");
    if Unhashable(event) then Some(UnhashableValue)
    else if !event.Str? || (cid, event.s) !in s.expected then Some(UnknownEvent(cid))
    else
      var expected := s.expected[(cid, event.s)];
      var outcomes := Get(check, "step_outcomes");
      if !outcomes.Obj? || outcomes.fields == map[] then Some(NoOutcomes(cid))
      else if exists step :: step in expected && step !in outcomes.fields then Some(MissingSteps(cid))
      else if exists step :: step in outcomes.fields && step !in expected then Some(ExtraSteps(cid))
      else if exists step :: step in expected && step in outcomes.fields && outcomes.fields[step] != Str("success")
      then Some(NotSuccess(cid))
      else None
  }

  /** What is wrong with how a receipt is made. */
  function ShapeFault(check: Json, seen: set<string>): (fault: Option<Refusal>) {
    if !check.Obj? then Some(NotObject)
    else if exists f :: f in FIELDS && f !in check.fields then Some(MissingField)
    else
      var f := check.fields;
      if !f["id"].Str? || f["id"].s == "" || f["id"].s in seen then Some(BadId)
      else
        var cid := f["id"].s;
        if Unhashable(f["classification"]) then Some(UnhashableValue)
        else if !OneOf(f["classification"], CLASSES) then Some(BadClassification(cid))
        else if !f["applicable"].Bool? then Some(NotBoolean(cid))
        else if Unhashable(f["status"]) then Some(UnhashableValue)
        else if !OneOf(f["status"], STATUSES) then Some(BadStatus(cid))
        else if !f["command"].Str? || f["command"].s == "" then Some(NoCommand(cid))
        else if !f["environment"].Obj? || !f["run"].Obj? then Some(NotObjects(cid))
        else None
  }

  /** Made as a receipt is to be. */
  predicate Shaped(check: Json) {
    && check.Obj? && (forall f :: f in FIELDS ==> f in check.fields)
    && var f := check.fields;
    && f["id"].Str? && f["id"].s != ""
    && OneOf(f["classification"], CLASSES) && f["applicable"].Bool? && OneOf(f["status"], STATUSES)
    && f["command"].Str? && f["command"].s != ""
    && f["environment"].Obj? && f["run"].Obj?
  }

  lemma ShapeFaultIff(check: Json, seen: set<string>)
    ensures ShapeFault(check, seen).None? <==> Shaped(check) && IdOf(check) !in seen
  {
    assert "id" in FIELDS && "classification" in FIELDS && "applicable" in FIELDS && "status" in FIELDS;
  }

  /** What is wrong with what a receipt says. */
  function ClaimFault(s: Setting, check: Json): (fault: Option<Refusal>)
    requires Shaped(check)
  {
    var f, cid := check.fields, IdOf(check);
    var applicable, passed, skipped := f["applicable"].b, f["status"].s == "pass", f["status"].s == "not_applicable";
    if cid in REQUIRED && !applicable then Some(if !skipped then BadInapplicable(cid) else RequiredDowngraded(cid))
    else if cid in REQUIRED && f["classification"].s != "required" then Some(RequiredDowngraded(cid))
    else if applicable && !passed then Some(NotPassing(cid))
    else if !applicable && !skipped then Some(BadInapplicable(cid))
    else if !applicable then None
    else if !s.OfCandidate(f["run"].fields) then Some(NotForCandidate(cid))
    else StepFault(s, cid, f["environment"].fields, f)
  }

  function Fault(s: Setting, check: Json, seen: set<string>): (r: Option<Refusal>) {
    var shape := ShapeFault(check, seen);
    ShapeFaultIff(check, seen);
    if shape.Some? then shape else ClaimFault(s, check)
  }

  predicate Applicable(check: Json) {
    Shaped(check) && check.fields["applicable"].b
  }

  function EventOf(s: Setting, check: Json): (event: string)
    requires Shaped(check)
  {
    s.show(Get(check.fields["environment"].fields, "event"))
  }

  predicate HasRun(check: Json) {
    Applicable(check) && "id" in check.fields["run"].fields
  }

  function RunOf(s: Setting, check: Json): (run: string)
    requires Shaped(check)
  {
    s.show(Get(check.fields["run"].fields, "id"))
  }

  // ---- all of them

  /** The ids seen, and the events and runs that the applicable receipts come from. */
  datatype Tally = Tally(seen: set<string>, events: set<string>, runs: set<string>)

  function Counted(s: Setting, t: Tally, check: Json): (tally: Tally)
    requires Shaped(check)
  {
    Tally(t.seen + {IdOf(check)},
          if Applicable(check) then t.events + {EventOf(s, check)} else t.events,
          if HasRun(check) then t.runs + {RunOf(s, check)} else t.runs)
  }

  function CheckAll(s: Setting, checks: seq<Json>, t: Tally): (tally: Result<Tally, Refusal>) {
    if checks == [] then Ok(t) else
    var fault := Fault(s, checks[0], t.seen);
    ShapeFaultIff(checks[0], t.seen);
    if fault.Some? then Err(fault.value) else CheckAll(s, checks[1..], Counted(s, t, checks[0]))
  }

  /** The receipts in a document for this candidate. */
  function ChecksIn(s: Setting, data: Json): (r: Result<seq<Json>, Refusal>) {
    if !data.Obj? || !Equal(Get(data.fields, "schema_version"), Int(1)) then Err(SchemaVersion) else
    var candidate := Get(data.fields, "candidate");
    if !candidate.Obj? || !s.OfCandidate(candidate.fields) then Err(OtherCandidate) else
    var checks := Get(data.fields, "checks");
    if !checks.List? then Err(ChecksNotList) else Ok(checks.items)
  }

  function Conclude(checks: seq<Json>, t: Tally): (sorted: Result<seq<Json>, Refusal>) {
    if |t.events| > 1 then Err(ManyEvents)
    else if |t.runs| > 1 then Err(ManyRuns)
    else if !(REQUIRED <= t.seen) then Err(MissingChecks)
    else Ok(Sorting.Sort(BY_ID, checks))
  }

  function Validated(s: Setting, data: Json): (validated: Result<seq<Json>, Refusal>) {
    var checks :- ChecksIn(s, data);
    var t :- CheckAll(s, checks, Tally({}, {}, {}));
    Conclude(checks, t)
  }

  /** The source's loop. */
  method ValidateReceipts(s: Setting, data: Json) returns (r: Result<seq<Json>, Refusal>)
    ensures r == Validated(s, data)
  {
    hide ChecksIn, Fault, Shaped, Conclude, Counted;
    var document := ChecksIn(s, data);
    if document.Err? {
      return Err(document.error);
    }
    var checks := document.value;
    var t := Tally({}, {}, {});
    assert checks[0..] == checks;
    for k := 0 to |checks|
      invariant CheckAll(s, checks, Tally({}, {}, {})) == CheckAll(s, checks[k..], t)
    {
      var check := checks[k];
      assert checks[k..][1..] == checks[k + 1..];
      var fault := Fault(s, check, t.seen);
      FaultMeansShaped(s, check, t.seen);
      if fault.Some? {
        return Err(fault.value);
      }
      t := Counted(s, t, check);
    }
    r := Conclude(checks, t);
  }

  lemma FaultMeansShaped(s: Setting, check: Json, seen: set<string>)
    ensures Fault(s, check, seen).None? ==> Shaped(check)
  {
    hide ClaimFault, ShapeFault, Shaped;
    ShapeFaultIff(check, seen);
  }

  // ---- comparing two lists of receipts

  /** What a receipt is filed under: its id, as Python compares it. */
  function KeyOf(check: Json): (key: Json) {
    if check.Obj? then Norm(Get(check.fields, "id")) else Null
  }

  /** The receipts by id; of two with one id, the later. */
  function ById(checks: seq<Json>): (m: map<Json, Json>) {
    if checks == [] then map[] else
    var last := checks[|checks| - 1];
    ById(checks[..|checks| - 1])[KeyOf(last) := last]
  }

  ghost predicate Agree(a: map<Json, Json>, b: map<Json, Json>) {
    a.Keys == b.Keys && forall id :: id in a ==> Equal(a[id], b[id])
  }

  /** Every id can be a key. */
  predicate Hashable(checks: seq<Json>) {
    forall k :: 0 <= k < |checks| ==> !Unhashable(KeyOf(checks[k]))
  }

  /** Python sorts text with text and numbers with numbers. */
  predicate Sortable(ids: set<Json>) {
    |ids| <= 1 || (forall id :: id in ids ==> id.Str?) || (forall id :: id in ids ==> id.Float?)
  }

  const TEXT_ORDER: Json -> seq<int> := (id: Json) => if id.Str? then Codes(id.s) else []

  method Elements(ids: set<Json>) returns (xs: seq<Json>)
    ensures forall x :: x in xs <==> x in ids
  {
    xs := [];
    var left := ids;
    while left != {}
      invariant left <= ids
      invariant forall x :: x in xs <==> x in ids - left
      decreases |left|
    {
      var x :| x in left;
      left := left - {x};
      xs := xs + [x];
    }
  }

  method Collect(checks: seq<Json>) returns (m: Option<map<Json, Json>>)
    ensures m == if Hashable(checks) then Some(ById(checks)) else None
  {
    hide KeyOf, Unhashable;
    var found: map<Json, Json> := map[];
    for k := 0 to |checks|
      invariant found == ById(checks[..k])
      invariant Hashable(checks[..k])
    {
      if Unhashable(KeyOf(checks[k])) {
        return None;
      }
      assert checks[..k + 1][..k] == checks[..k];
      found := found[KeyOf(checks[k]) := checks[k]];
    }
    assert checks[..|checks|] == checks;
    return Some(found);
  }

  /** A disagreement is about an id of both lists, and of text ids it is the first. */
  ghost predicate Names(a: map<Json, Json>, b: map<Json, Json>, id: Json) {
    && a.Keys == b.Keys && id in a && !Equal(a[id], b[id])
    && forall other :: other in a && other.Str? && id.Str? && Lex.Less(Codes(other.s), Codes(id.s)) ==>
                         Equal(a[other], b[other])
  }

  /** What comparing the two gives: the first difference in the source's order. */
  ghost predicate Compared(left: seq<Json>, right: seq<Json>, r: Result<(), Refusal>) {
    if !Hashable(left) || !Hashable(right) then r == Err(UnhashableValue)
    else if ById(left).Keys != ById(right).Keys then r == Err(DifferentIds)
    else if !Sortable(ById(left).Keys) then r == Err(UnsortableIds)
    else if Agree(ById(left), ById(right)) then r == Ok(())
    else r.Err? && r.error.Disagree? && Names(ById(left), ById(right), r.error.id)
  }

  method CompareChecks(left: seq<Json>, right: seq<Json>) returns (r: Result<(), Refusal>)
    requires forall check <- left + right :: check.Obj?
    ensures Compared(left, right, r)
  {
    hide Equal, ById, Hashable, Names, Codes, Sortable, Agree, Lex.Less;
    var byLeft := Collect(left);
    if byLeft.None? {
      return Err(UnhashableValue);
    }
    var byRight := Collect(right);
    if byRight.None? {
      return Err(UnhashableValue);
    }
    if byLeft.value.Keys != byRight.value.Keys {
      return Err(DifferentIds);
    }
    if !Sortable(byLeft.value.Keys) {
      return Err(UnsortableIds);
    }
    var differing := FirstDifference(byLeft.value, byRight.value);
    r := if differing.None? then Ok(()) else Err(Disagree(differing.value));
  }

  method FirstDifference(a: map<Json, Json>, b: map<Json, Json>) returns (id: Option<Json>)
    requires a.Keys == b.Keys
    ensures if Agree(a, b) then id == None else id.Some? && Names(a, b, id.value)
  {
    hide Equal, Names, Codes, Lex.Less;
    var elements := Elements(a.Keys);
    var ids := Sorting.Sort(TEXT_ORDER, elements);
    Sorting.SortSorts(TEXT_ORDER, elements);
    Sorting.SameItems(TEXT_ORDER, elements);
    for k := 0 to |ids|
      invariant forall j :: 0 <= j < k ==> ids[j] in a && ids[j] in b && Equal(a[ids[j]], b[ids[j]])
    {
      assert ids[k] in a.Keys;
      if !Equal(a[ids[k]], b[ids[k]]) {
        FirstNamed(a, b, ids, k);
        return Some(ids[k]);
      }
    }
    return None;
  }

  lemma FirstNamed(a: map<Json, Json>, b: map<Json, Json>, ids: seq<Json>, k: nat)
    requires a.Keys == b.Keys && Sorting.Ascending(TEXT_ORDER, ids) && (forall x :: x in ids <==> x in a.Keys)
    requires k < |ids| && forall j :: 0 <= j < k ==> ids[j] in a && Equal(a[ids[j]], b[ids[j]])
    requires ids[k] in a && !Equal(a[ids[k]], b[ids[k]])
    ensures Names(a, b, ids[k])
  {
    hide Equal, Codes, Lex.Less;
    var id := ids[k];
    forall other | other in a && other.Str? && id.Str? && Lex.Less(Codes(other.s), Codes(id.s))
      ensures Equal(a[other], b[other])
    {
      assert other in ids;
      var j :| 0 <= j < |ids| && ids[j] == other;
      Sorting.SmallerIsEarlier(TEXT_ORDER, ids, j, k);
    }
  }
}
