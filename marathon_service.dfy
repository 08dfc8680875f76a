/** The marathon admin service (`webapp/services/marathon.py`): validation and insertion of a
    new marathon, the whitelisted partial update, and the enabled toggle. The database enters
    as a function for each statement (insert, update) and, for the toggle, as the table of
    marathons keyed by id. */
module MarathonService {
  import opened Wrappers
  import opened Text
  import opened Lists
  import opened FieldUpdates

  const Placeholder := "{nameorbibno}"
  const NameRequired := "대회명은 필수입니다"
  const TemplateNeedsPlaceholder := "URL 템플릿에 {nameorbibno}를 포함해야 합니다"
  const RefreshTooShort := "새로고침 주기는 최소 5초 이상이어야 합니다"
  const MarathonNotFound := "마라톤을 찾을 수 없습니다"

  /** The arguments of `create_marathon`. */
  datatype CreateRequest = CreateRequest(
    name: Option<string>,
    urlTemplate: Option<string>,
    usedata: Option<string>,
    totalDistanceKm: real,
    refreshSec: int,
    enabled: bool,
    certUrlTemplate: Option<string>)

  /** A row of the `marathons` table. */
  datatype MarathonRow = MarathonRow(
    name: string,
    urlTemplate: string,
    usedata: Option<string>,
    totalDistanceKm: real,
    refreshSec: int,
    enabled: int,
    certUrlTemplate: Option<string>,
    updatedAt: string)

  datatype CreateResult = Created(marathonId: int) | CreateFailed(error: string)

  predicate BlankName(req: CreateRequest)
  {
    !Truthy(req.name) || Strip(req.name.value) == ""
  }

  predicate TemplateLacksPlaceholder(req: CreateRequest)
  {
    !Truthy(req.urlTemplate) || !Contains(req.urlTemplate.value, Placeholder)
  }

  /** The validation of `create_marathon`: the first failing rule, checked in source order. */
  function CreateError(req: CreateRequest): (r: Option<string>)
  {
    if BlankName(req) then Some(NameRequired)
    else if TemplateLacksPlaceholder(req) then Some(TemplateNeedsPlaceholder)
    else if req.refreshSec < 5 then Some(RefreshTooShort)
    else None
  }

  /** The rules are checked in order: the error names the first rule broken, and there is none
      exactly when the name is not blank, the template has the placeholder and the refresh
      period is at least 5 seconds. */
  lemma CreateValidation(req: CreateRequest)
    ensures CreateError(req) == Some(NameRequired) <==> BlankName(req)
    ensures CreateError(req) == Some(TemplateNeedsPlaceholder) <==> !BlankName(req) && TemplateLacksPlaceholder(req)
    ensures CreateError(req) == Some(RefreshTooShort) <==> !BlankName(req) && !TemplateLacksPlaceholder(req) && req.refreshSec < 5
    ensures CreateError(req).None? <==> !BlankName(req) && !TemplateLacksPlaceholder(req) && req.refreshSec >= 5
  {
  }

  /** The row inserted for a valid request: names stripped, optional texts stripped or None,
      `enabled` as 1 or 0, stamped with the current time. */
  function NewRow(req: CreateRequest, now: string): MarathonRow
    requires CreateError(req).None?
  {
    MarathonRow(
      Strip(req.name.value),
      Strip(req.urlTemplate.value),
      StripOrNone(req.usedata),
      req.totalDistanceKm,
      req.refreshSec,
      if req.enabled then 1 else 0,
      StripOrNone(req.certUrlTemplate),
      now)
  }

  /** The stored row is clean: its name is non-empty and stripped, its template is stripped and
      still holds the placeholder, the refresh period is at least 5 seconds, and `enabled` is
      0 or 1. */
  lemma NewRowClean(req: CreateRequest, now: string)
    requires CreateError(req).None?
    ensures var row := NewRow(req, now);
      && row.name != "" && Strip(row.name) == row.name
      && Strip(row.urlTemplate) == row.urlTemplate && Contains(row.urlTemplate, Placeholder)
      && row.refreshSec >= 5
      && (row.enabled == 1 <==> req.enabled) && (row.enabled == 0 <==> !req.enabled)
      && (row.usedata.Some? ==> Strip(row.usedata.value) == row.usedata.value)
  {
    AcceptedRequest(req);
    StripIdempotent(req.name.value);
    CleanTemplate(req.urlTemplate.value);
    if Truthy(req.usedata) {
      StripIdempotent(req.usedata.value);
    }
  }

  /** What passing validation says about the request's fields. */
  lemma AcceptedRequest(req: CreateRequest)
    requires CreateError(req).None?
    ensures Truthy(req.name) && Strip(req.name.value) != ""
    ensures Truthy(req.urlTemplate) && Contains(req.urlTemplate.value, Placeholder)
    ensures req.refreshSec >= 5
  {
  }

  /** A stripped template keeps its placeholder. */
  lemma CleanTemplate(template: string)
    requires Contains(template, Placeholder)
    ensures Strip(Strip(template)) == Strip(template) && Contains(Strip(template), Placeholder)
  {
    StripIdempotent(template);
    PlaceholderSolid();
    StripKeepsOccurrence(template, Placeholder);
  }

  /** The placeholder has no whitespace at either end. */
  lemma PlaceholderSolid()
    ensures Placeholder != [] && !IsSpace(Placeholder[0]) && !IsSpace(Placeholder[|Placeholder| - 1])
  {
    assert Placeholder[0] == '{' && Placeholder[|Placeholder| - 1] == '}';
  }

  /** `create_marathon`: a broken rule returns its error; otherwise the insert's new id, or
      the text of the exception it raised. */
  function CreateMarathon(req: CreateRequest, now: string, insert: MarathonRow -> DbResult<int>): CreateResult
  {
    match CreateError(req)
    case Some(e) => CreateFailed(e)
    case None =>
      match insert(NewRow(req, now))
      case DbOk(id) => Created(id)
      case DbRaised(t, m) => CreateFailed(ExceptionText(t, m))
  }

  /** A refused request never reaches the database: whatever the insert would do, the result
      is the validation error. */
  lemma CreateRefusalWritesNothing(req: CreateRequest, now: string, insert1: MarathonRow -> DbResult<int>, insert2: MarathonRow -> DbResult<int>)
    requires CreateError(req).Some?
    ensures CreateMarathon(req, now, insert1) == CreateMarathon(req, now, insert2) == CreateFailed(CreateError(req).value)
  {
  }

  /** A marathon is created with id `id` exactly when the request is valid and inserting its
      clean row gives `id`. */
  lemma CreatedIff(req: CreateRequest, now: string, insert: MarathonRow -> DbResult<int>, id: int)
    ensures CreateMarathon(req, now, insert) == Created(id) <==> CreateError(req).None? && insert(NewRow(req, now)) == DbOk(id)
  {
  }

  // ---------------------------------------------------------------- update

  const AllowedFields := {"name", "url_template", "usedata", "total_distance_km", "refresh_sec", "enabled", "cert_url_template"}

  /** The checks of `update_marathon` on an allowed value: a template must be a string holding
      the placeholder, a refresh period must not compare below 5 (a bool compares as 0 or
      1); any other type makes the test raise. */
  function CheckField(key: string, value: Value): FieldCheck
  {
    if key == "url_template" then
      match value
      case VStr(s) => if Contains(s, Placeholder) then Accept else Reject(TemplateNeedsPlaceholder)
      case _ => CheckRaises
    else if key == "refresh_sec" then
      match value
      case VInt(i) => if i < 5 then Reject(RefreshTooShort) else Accept
      case VReal(x) => if x < 5.0 then Reject(RefreshTooShort) else Accept
      case VBool(_) => Reject(RefreshTooShort)
      case _ => CheckRaises
    else Accept
  }

  /** What `update_marathon` does with its arguments: the first refused value decides; no
      allowed field is an error; else the SET clauses with `updated_at=?` last, and the values
      followed by the current time and the id. */
  function UpdatePlan(id: int, updates: seq<Entry>, now: string): Plan
  {
    match Collect(updates, AllowedFields, CheckField)
    case Stopped(c) => if c.Reject? then Refuse(c.error) else Raise
    case Collected(fields, values) =>
      if fields == [] then Refuse(NoFieldsError)
      else Execute(UpdateSql("marathons", fields + ["updated_at=?"]), values + [VStr(now), VInt(id)])
  }

  /** `update_marathon`. */
  method UpdateMarathon(id: int, updates: seq<Entry>, now: string, exec: (string, seq<Value>) -> DbResult<()>) returns (r: UpdateResult)
    ensures r == RunPlan(UpdatePlan(id, updates, now), exec)
  {
    var collected := CollectFields(updates, AllowedFields, CheckField);
    if collected.Stopped? {
      if collected.check.Reject? {
        return UpdateFailed(collected.check.error);
      }
      return UpdateRaised;
    }
    if collected.fields == [] {
      return UpdateFailed(NoFieldsError);
    }
    var fields := collected.fields + ["updated_at=?"];
    var values := collected.values + [VStr(now), VInt(id)];
    var outcome := exec(UpdateSql("marathons", fields), values);
    if outcome.DbOk? {
      return Updated;
    }
    return UpdateFailed(ExceptionText(outcome.typeName, outcome.message));
  }

  /** Keys outside the seven allowed fields are ignored. */
  lemma UpdateIgnoresUnknownKeys(id: int, updates: seq<Entry>, now: string)
    ensures UpdatePlan(id, updates, now) == UpdatePlan(id, Filter(updates, IsAllowed(AllowedFields)), now)
  {
    CollectIgnoresOthers(updates, AllowedFields, CheckField);
  }

  /** Without any allowed field the update is refused with "no fields to update". */
  lemma UpdateWithoutFields(id: int, updates: seq<Entry>, now: string)
    requires Filter(updates, IsAllowed(AllowedFields)) == []
    ensures UpdatePlan(id, updates, now) == Refuse(NoFieldsError)
  {
    CollectIgnoresOthers(updates, AllowedFields, CheckField);
  }

  /** The first allowed value that fails its check decides: its error, or the exception, and
      no statement. */
  lemma UpdateFirstRefusal(id: int, updates: seq<Entry>, now: string, k: nat)
    requires k < |updates| && updates[k].0 in AllowedFields && CheckField(updates[k].0, updates[k].1) != Accept
    requires forall i :: 0 <= i < k && updates[i].0 in AllowedFields ==> CheckField(updates[i].0, updates[i].1) == Accept
    ensures var c := CheckField(updates[k].0, updates[k].1);
      UpdatePlan(id, updates, now) == if c.Reject? then Refuse(c.error) else Raise
    ensures UpdatePlan(id, updates, now) == Refuse(TemplateNeedsPlaceholder) || UpdatePlan(id, updates, now) == Refuse(RefreshTooShort) || UpdatePlan(id, updates, now) == Raise
  {
    FirstRefusalWins(updates, AllowedFields, CheckField, k);
  }

  /** With no refused value and some allowed field, the statement sets exactly the allowed
      keys in call order and then `updated_at`, and its values are theirs followed by the
      current time and the id: one more value than SET clauses. */
  lemma UpdateStatement(id: int, updates: seq<Entry>, now: string)
    requires forall i :: 0 <= i < |updates| && updates[i].0 in AllowedFields ==> CheckField(updates[i].0, updates[i].1) == Accept
    requires Filter(updates, IsAllowed(AllowedFields)) != []
    ensures var kept := Filter(updates, IsAllowed(AllowedFields));
      var plan := UpdatePlan(id, updates, now);
      && plan.Execute?
      && plan.sql == UpdateSql("marathons", Map(kept, ClauseOf) + ["updated_at=?"])
      && plan.values == Map(kept, ValueOf) + [VStr(now), VInt(id)]
      && |plan.values| == |Map(kept, ClauseOf) + ["updated_at=?"]| + 1
      && plan.values[|plan.values| - 1] == VInt(id)
  {
    CollectAllAccepted(updates, AllowedFields, CheckField);
  }

  // ---------------------------------------------------------------- toggle

  datatype ToggleResult = Toggled(enabled: bool) | ToggleFailed(error: string)

  /** `toggle_enabled` on the table of marathons: a missing id is an error and changes
      nothing; otherwise the row's `enabled` becomes 0 when it was truthy and 1 when it was 0,
      its `updated_at` the current time, and no other row changes. */
  function ToggleEnabled(table: map<int, MarathonRow>, id: int, now: string): (r: (ToggleResult, map<int, MarathonRow>))
    ensures id !in table ==> r == (ToggleFailed(MarathonNotFound), table)
    ensures id in table ==>
      && r.1 == table[id := table[id].(enabled := if table[id].enabled != 0 then 0 else 1, updatedAt := now)]
      && r.0 == Toggled(table[id].enabled == 0)
  {
    if id !in table then (ToggleFailed(MarathonNotFound), table)
    else
      var row := table[id];
      var newEnabled := if row.enabled != 0 then 0 else 1;
      (Toggled(newEnabled != 0), table[id := row.(enabled := newEnabled, updatedAt := now)])
  }

  /** The reported state is the new enabled flag, the opposite of the old one's truthiness;
      other rows and the ids of the table are untouched. */
  lemma ToggleFlips(table: map<int, MarathonRow>, id: int, now: string)
    requires id in table
    ensures var (res, t) := ToggleEnabled(table, id, now);
      && t.Keys == table.Keys
      && (forall k :: k in table && k != id ==> t[k] == table[k])
      && res.Toggled? && (res.enabled <==> t[id].enabled != 0) && (res.enabled <==> table[id].enabled == 0)
      && (t[id].enabled == 0 || t[id].enabled == 1)
  {
  }

  /** Toggling twice restores the enabled flag's truthiness, and restores the flag itself when
      it was 0 or 1; only the time stamp differs. */
  lemma ToggleTwice(table: map<int, MarathonRow>, id: int, now1: string, now2: string)
    requires id in table
    ensures var t := ToggleEnabled(ToggleEnabled(table, id, now1).1, id, now2).1;
      && (t[id].enabled != 0 <==> table[id].enabled != 0)
      && ((table[id].enabled == 0 || table[id].enabled == 1) ==> t == table[id := table[id].(updatedAt := now2)])
  {
  }
}
